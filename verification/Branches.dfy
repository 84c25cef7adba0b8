/** Pc-relative instructions: emitting them, patching them in place and reading their target back. */
module Branches {
  import opened Options
  import opened Words
  import opened InsnBits
  import opened InsnBuilder

  datatype Branch =
    | Imm26(link: bool)
    | Compare(wide: bool, nonzero: bool, rt: nat)
    | Test(nonzero: bool, bit: nat, rt: nat)
    | Conditional(cond: nat)
    | Literal(v: nat, size: nat, rt: nat)
    | Adr(rd: nat)
  {
    /** What the emitters demand of their other arguments. */
    predicate Valid() {
      match this
      case Imm26(_) => true
      case Compare(_, _, rt) => rt <= 31
      case Test(_, bit, rt) => bit < 64 && rt <= 31
      case Conditional(cond) => cond < 16
      case Literal(v, size, rt) => v <= 1 && 2 <= size <= 3 && (rt <= 31 || rt == ZR)
      case Adr(rd) => rd <= 31
    }

    /** Position in the field list, msb and lsb of the signed field that holds the distance in words. */
    function Slot(): (s: (nat, nat, nat))
      ensures s.2 <= s.1 < 32 && s.1 - s.2 < 31
    {
      match this
      case Imm26(_) => (2, 25, 0)
      case Compare(_, _, _) => (1, 23, 5)
      case Test(_, _, _) => (3, 18, 5)
      case Conditional(_) => (2, 23, 5)
      case Literal(_, _, _) => (5, 23, 5)
      case Adr(_) => (3, 23, 5)
    }
  }

  function One(b: bool): nat { if b then 1 else 0 }

  /** The field calls for a branch over `distance` bytes. */
  function Fields(br: Branch, distance: int): seq<Field> {
    var words := distance / 4;
    match br
    case Imm26(link) => [U(One(link), 31, 31), U(5, 30, 26), S(words, 25, 0)]
    case Compare(wide, nonzero, rt) =>
      [U(0x34 + 0x80 * One(wide) + One(nonzero), 31, 24), S(words, 23, 5), Rf(rt, 0)]
    case Test(nonzero, bit, rt) =>
      [U(bit / 32, 31, 31), U(0x36 + One(nonzero), 30, 24), U(bit % 32, 23, 19), S(words, 18, 5), Rf(rt, 0)]
    case Conditional(cond) => [U(0x2A, 31, 25), U(0, 24, 24), S(words, 23, 5), U(0, 4, 4), U(cond, 3, 0)]
    case Literal(v, size, rt) =>
      [U(v, 26, 26), Zrf(rt, 0), U(size % 2, 31, 30), U(3, 29, 27), U(0, 25, 24), S(words, 23, 5)]
    case Adr(rd) => [U(0, 31, 31), U(distance % 4, 30, 29), U(16, 28, 24), S(words, 23, 5), Rf(rd, 0)]
  }

  /** The instruction emitted for a destination `distance` bytes after it. */
  function Emitted(br: Branch, distance: int): Build { BuildAll(Fields(br, distance)) }

  lemma Widths()
    ensures Pow2(1) == 2 && Pow2(2) == 4 && Pow2(3) == 8 && Pow2(4) == 16 && Pow2(5) == 32
    ensures Pow2(7) == 128 && Pow2(8) == 256
  {
  }

  /** The distance field is the only one that can fail. */
  lemma GoodIffFits(br: Branch, distance: int)
    requires br.Valid()
    ensures Good(Fields(br, distance)) <==> FitsSigned(distance / 4, br.Slot().1 - br.Slot().2 + 1)
  {
    OthersFit(br, distance);
    FieldsApart(br, distance);
    var fs, j := Fields(br, distance), br.Slot().0;
    assert fs[j] == S(distance / 4, br.Slot().1, br.Slot().2);
  }

  lemma OthersFit(br: Branch, distance: int)
    requires br.Valid()
    ensures forall i :: 0 <= i < |Fields(br, distance)| && i != br.Slot().0 ==> Fields(br, distance)[i].Fits()
  {
    Widths();
    match br
    case Test(nonzero, bit, rt) => TestFits(nonzero, bit, rt, distance);
    case _ =>
  }

  lemma TestFits(nonzero: bool, bit: nat, rt: nat, distance: int)
    requires bit < 64 && rt <= 31
    ensures var fs := Fields(Test(nonzero, bit, rt), distance); fs[0].Fits() && fs[1].Fits() && fs[2].Fits() && fs[4].Fits()
  {
    Widths();
    assert bit / 32 < 2 && bit % 32 < 32;
  }

  lemma FieldsApart(br: Branch, distance: int)
    ensures var fs := Fields(br, distance); forall i, j :: 0 <= i < j < |fs| ==> fs[i].Apart(fs[j])
  {
  }

  // ---------- patching and reading the target ----------

  /** `spatch`: None is the guarantee failing. */
  function Spatch(w: Word, msb: nat, lsb: nat, val: int): Option<Word>
    requires lsb <= msb < 32
  {
    var n := msb - lsb + 1;
    if FitsSigned(val, n) then Some(SetField(w, msb, lsb, Unsigned(val, n))) else None
  }

  /** The class tests of `pd_patch_instruction_size`, in order; masked comparisons are written field by field. */
  function PatchSlot(w: Word): Option<(nat, nat)> {
    if Extract(w, 29, 27) == 3 && Extract(w, 25, 24) == 0 then Some((23, 5))
    else if Extract(w, 30, 26) == 5 then Some((25, 0))
    else if Extract(w, 31, 25) == 0x2A then Some((23, 5))
    else if Extract(w, 30, 25) == 0x1A then Some((23, 5))
    else if Extract(w, 30, 25) == 0x1B then Some((18, 5))
    else None
  }

  /** Patch w, which lies `distance` bytes before the target. */
  function PatchWord(w: Word, distance: int): Option<Word> {
    match PatchSlot(w)
    case Some(slot) => (if slot.1 <= slot.0 < 32 then Spatch(w, slot.0, slot.1, distance / 4) else None)
    case None =>
      if Extract(w, 28, 24) != 16 || Extract(w, 31, 31) != 0 then None
      else match Spatch(w, 23, 5, distance / 4)
           case Some(w') => Some(SetField(w', 30, 29, distance % 4))
           case None => None
  }

  /** The class tests of `target_addr_for_insn`; its literal test does not look at bit 29. */
  function TargetSlot(w: Word): Option<(nat, nat)> {
    if Extract(w, 28, 27) == 3 && Extract(w, 25, 24) == 0 then Some((23, 5))
    else if Extract(w, 30, 26) == 5 then Some((25, 0))
    else if Extract(w, 31, 25) == 0x2A then Some((23, 5))
    else if Extract(w, 30, 25) == 0x1A then Some((23, 5))
    else if Extract(w, 30, 25) == 0x1B then Some((18, 5))
    else None
  }

  function TargetOf(w: Word, pc: int): Option<int> {
    match TargetSlot(w)
    case Some(slot) => (if slot.1 <= slot.0 < 32 then Some(pc + 4 * SExtract(w, slot.0, slot.1)) else None)
    case None => None
  }

  // ---------- the classes are told apart ----------

  ghost predicate Tells(w: Word, msb: nat, lsb: nat) {
    PatchSlot(w) == Some((msb, lsb)) && TargetSlot(w) == Some((msb, lsb))
  }

  lemma Imm26Class(w: Word, link: bool, distance: int)
    requires AllShown(Fields(Imm26(link), distance), w)
    ensures Tells(w, 25, 0)
  {
    var fs := Fields(Imm26(link), distance);
    ShownIsRead(fs, w);
    ReadAt(fs, 1, w);
    BitAt(fs, 1, w, 27);
    BitDiffers(w, 29, 27, 3, 27);
    BitDiffers(w, 28, 27, 3, 27);
  }

  lemma ConditionalClass(w: Word, cond: nat, distance: int)
    requires cond < 16 && AllShown(Fields(Conditional(cond), distance), w)
    ensures Tells(w, 23, 5)
  {
    var fs := Fields(Conditional(cond), distance);
    ShownIsRead(fs, w);
    ReadAt(fs, 0, w);
    BitAt(fs, 0, w, 27);
    BitAt(fs, 0, w, 30);
    BitDiffers(w, 29, 27, 3, 27);
    BitDiffers(w, 28, 27, 3, 27);
    BitDiffers(w, 30, 26, 5, 30);
  }

  /** Compare-and-branch and test-and-branch share bits 30..26 and differ in bit 25. */
  lemma HighClass(w: Word, test: bool)
    requires !w[30] && w[29] && w[28] && !w[27] && w[26] && w[25] == test
    ensures PatchSlot(w) == Some((if test then 18 else 23, 5)) && TargetSlot(w) == PatchSlot(w)
  {
    BitDiffers(w, 29, 27, 3, 27);
    BitDiffers(w, 28, 27, 3, 27);
    BitDiffers(w, 30, 26, 5, 29);
    BitDiffers(w, 31, 25, 0x2A, 30);
    var c := if test then 0x1B else 0x1A;
    assert w[25..31] == [test, true, false, true, true, false];
    SixBits(w[25..31], test);
  }

  lemma SixBits(s: seq<bool>, test: bool)
    requires s == [test, true, false, true, true, false]
    ensures Value(s) == if test then 0x1B else 0x1A
  {
    var t := s[2..];
    assert s[1..][1..] == t && t[1..][1..] == [true, false];
    assert [true, false][1..] == [false] && [false][1..] == [];
    assert Value([true, false]) == 1;
    assert Value(t[1..]) == 3 && Value(t) == 6;
    assert Value(s[1..]) == 13;
  }

  lemma CompareClass(w: Word, wide: bool, nonzero: bool, rt: nat, distance: int)
    requires rt <= 31 && AllShown(Fields(Compare(wide, nonzero, rt), distance), w)
    ensures Tells(w, 23, 5)
  {
    var fs := Fields(Compare(wide, nonzero, rt), distance);
    HighBits(fs, w, 0);
    HighClass(w, false);
  }

  lemma TestClass(w: Word, nonzero: bool, bit: nat, rt: nat, distance: int)
    requires bit < 64 && rt <= 31 && AllShown(Fields(Test(nonzero, bit, rt), distance), w)
    ensures Tells(w, 18, 5)
  {
    var fs := Fields(Test(nonzero, bit, rt), distance);
    HighBits(fs, w, 1);
    HighClass(w, true);
  }

  lemma HighBits(fs: seq<Field>, w: Word, i: nat)
    requires AllShown(fs, w) && i < |fs| && fs[i].U? && fs[i].lsb == 24 && fs[i].msb >= 30
    requires fs[i].val in {0x34, 0x35, 0xB4, 0xB5, 0x36, 0x37}
    ensures !w[30] && w[29] && w[28] && !w[27] && w[26] && (w[25] <==> fs[i].val in {0x36, 0x37})
  {
    OpcodeBits(fs[i].val);
    BitAt(fs, i, w, 30);
    BitAt(fs, i, w, 29);
    BitAt(fs, i, w, 28);
    BitAt(fs, i, w, 27);
    BitAt(fs, i, w, 26);
    BitAt(fs, i, w, 25);
  }

  lemma OpcodeBits(v: nat)
    requires v in {0x34, 0x35, 0xB4, 0xB5, 0x36, 0x37}
    ensures !BitOf(v, 6) && BitOf(v, 5) && BitOf(v, 4) && !BitOf(v, 3) && BitOf(v, 2)
    ensures BitOf(v, 1) <==> v in {0x36, 0x37}
  {
  }

  lemma LiteralClass(w: Word, v: nat, size: nat, rt: nat, distance: int)
    requires Literal(v, size, rt).Valid() && AllShown(Fields(Literal(v, size, rt), distance), w)
    ensures Tells(w, 23, 5)
  {
    var fs := Fields(Literal(v, size, rt), distance);
    ShownIsRead(fs, w);
    ReadAt(fs, 3, w);
    ReadAt(fs, 4, w);
    BitAt(fs, 3, w, 27);
    BitAt(fs, 3, w, 28);
    TwoBits(w[27..29]);
  }

  lemma TwoBits(s: seq<bool>)
    requires |s| == 2 && s[0] && s[1]
    ensures Value(s) == 3
  {
    assert s[1..][1..] == [];
  }

  lemma AdrClass(w: Word, rd: nat, distance: int)
    requires rd <= 31 && AllShown(Fields(Adr(rd), distance), w)
    ensures PatchSlot(w) == None && Extract(w, 28, 24) == 16 && Extract(w, 31, 31) == 0
  {
    var fs := Fields(Adr(rd), distance);
    ShownIsRead(fs, w);
    ReadAt(fs, 0, w);
    ReadAt(fs, 2, w);
    BitAt(fs, 2, w, 27);
    BitAt(fs, 2, w, 26);
    BitDiffers(w, 29, 27, 3, 27);
    BitDiffers(w, 30, 26, 5, 26);
    BitDiffers(w, 31, 25, 0x2A, 26);
    BitDiffers(w, 30, 25, 0x1A, 26);
    BitDiffers(w, 30, 25, 0x1B, 26);
  }

  /** Both dispatchers pick the distance field of the instruction that was emitted. */
  lemma ClassesAgree(w: Word, br: Branch, distance: int)
    requires br.Valid() && !br.Adr? && AllShown(Fields(br, distance), w)
    ensures Tells(w, br.Slot().1, br.Slot().2)
  {
    match br
    case Imm26(link) => Imm26Class(w, link, distance);
    case Compare(wide, nonzero, rt) => CompareClass(w, wide, nonzero, rt, distance);
    case Test(nonzero, bit, rt) => TestClass(w, nonzero, bit, rt, distance);
    case Conditional(cond) => ConditionalClass(w, cond, distance);
    case Literal(v, size, rt) => LiteralClass(w, v, size, rt, distance);
    case Adr(_) =>
  }

  // ---------- the main results ----------

  lemma EmissionShown(br: Branch, distance: int)
    requires br.Valid()
    ensures var b := BuildAll(Fields(br, distance));
            && (b.failed <==> !FitsSigned(distance / 4, br.Slot().1 - br.Slot().2 + 1))
            && (!b.failed ==> Good(Fields(br, distance)) && AllShown(Fields(br, distance), b.insn))
  {
    Builds(Fields(br, distance));
    GoodIffFits(br, distance);
  }

  /** A branch to itself, emitted while its label is unbound, always encodes. */
  lemma SelfEncodes(br: Branch)
    requires br.Valid()
    ensures !Emitted(br, 0).failed
  {
    EmissionShown(br, 0);
    var n := br.Slot().1 - br.Slot().2;
    Pow2Mono(n, n + 1);
  }

  /** Only the distance field depends on the distance. */
  lemma FieldsUpdate(br: Branch, d: int, d': int)
    requires !br.Adr?
    ensures var (j, msb, lsb) := br.Slot();
            j < |Fields(br, d)| && Fields(br, d)[j] == S(d / 4, msb, lsb)
            && Fields(br, d') == Fields(br, d)[j := S(d' / 4, msb, lsb)]
  {
  }

  lemma PatchField(fs: seq<Field>, fs': seq<Field>, j: nat, g: Field)
    requires Good(fs) && j < |fs| && g.S? && fs[j].msb == g.msb && fs[j].lsb == g.lsb && fs' == fs[j := g]
    ensures Spatch(BuildAll(fs).insn, g.msb, g.lsb, g.val) == if g.Fits() then Some(BuildAll(fs').insn) else None
  {
    if g.Fits() {
      PatchIsRebuild(fs, j, g);
      SpatchFits(BuildAll(fs).insn, g);
    }
  }

  lemma SpatchFits(w: Word, g: Field)
    requires g.S? && g.Fits()
    ensures Spatch(w, g.msb, g.lsb, g.val) == Some(SetField(w, g.msb, g.lsb, g.Raw()))
  {
  }

  lemma PatchBySlot(w: Word, msb: nat, lsb: nat, pc: int, distance: int)
    requires Tells(w, msb, lsb) && lsb <= msb < 32
    ensures PatchWord(w, distance) == Spatch(w, msb, lsb, distance / 4)
    ensures TargetOf(w, pc) == Some(pc + 4 * SExtract(w, msb, lsb))
  {
  }

  lemma PatchBranch(br: Branch, d: int, d': int)
    requires br.Valid() && !br.Adr? && !BuildAll(Fields(br, d)).failed
    ensures PatchWord(BuildAll(Fields(br, d)).insn, d')
            == if BuildAll(Fields(br, d')).failed then None else Some(BuildAll(Fields(br, d')).insn)
  {
    var (j, msb, lsb) := br.Slot();
    EmissionShown(br, d);
    EmissionShown(br, d');
    FieldsUpdate(br, d, d');
    ClassesAgree(BuildAll(Fields(br, d)).insn, br, d);
    PatchBySlot(BuildAll(Fields(br, d)).insn, msb, lsb, 0, d');
    PatchField(Fields(br, d), Fields(br, d'), j, S(d' / 4, msb, lsb));
  }

  lemma AdrUpdate(rd: nat, d: int, d': int)
    ensures Fields(Adr(rd), d') == Fields(Adr(rd), d)[3 := S(d' / 4, 23, 5)][1 := U(d' % 4, 30, 29)]
    ensures Fields(Adr(rd), d)[3] == S(d / 4, 23, 5) && Fields(Adr(rd), d)[1] == U(d % 4, 30, 29)
    ensures U(d' % 4, 30, 29).Fits() && U(d' % 4, 30, 29).Raw() == d' % 4
  {
    Widths();
  }

  lemma PatchTwoFields(fs: seq<Field>, fs': seq<Field>, high: Field, low: Field)
    requires Good(fs) && |fs| == 5 && high.S? && fs[3].msb == high.msb && fs[3].lsb == high.lsb && high.Fits()
    requires low.Fits() && fs[1].msb == low.msb && fs[1].lsb == low.lsb
    requires fs' == fs[3 := high][1 := low]
    ensures SetField(SetField(BuildAll(fs).insn, high.msb, high.lsb, high.Raw()), low.msb, low.lsb, low.Raw())
            == BuildAll(fs').insn
  {
    var half: seq<Field> := fs[3 := high];
    PatchIsRebuild(fs, 3, high);
    PatchIsRebuild(half, 1, low);
  }

  lemma PatchAdrWord(w: Word, d': int)
    requires PatchSlot(w) == None && Extract(w, 28, 24) == 16 && Extract(w, 31, 31) == 0
    ensures PatchWord(w, d') == if !FitsSigned(d' / 4, 19) then None
                                else Some(SetField(SetField(w, 23, 5, Unsigned(d' / 4, 19)), 30, 29, d' % 4))
  {
  }

  lemma PatchAdr(rd: nat, d: int, d': int)
    requires rd <= 31 && !BuildAll(Fields(Adr(rd), d)).failed
    ensures PatchWord(BuildAll(Fields(Adr(rd), d)).insn, d')
            == if BuildAll(Fields(Adr(rd), d')).failed then None else Some(BuildAll(Fields(Adr(rd), d')).insn)
  {
    EmissionShown(Adr(rd), d);
    EmissionShown(Adr(rd), d');
    AdrPatched(Fields(Adr(rd), d), BuildAll(Fields(Adr(rd), d)).insn, rd, d, d');
  }

  lemma AdrPatched(fs: seq<Field>, w: Word, rd: nat, d: int, d': int)
    requires rd <= 31 && fs == Fields(Adr(rd), d) && Good(fs) && w == BuildAll(fs).insn && AllShown(fs, w)
    ensures PatchWord(w, d') == if FitsSigned(d' / 4, 19) then Some(BuildAll(Fields(Adr(rd), d')).insn) else None
  {
    AdrClass(w, rd, d);
    PatchAdrWord(w, d');
    if FitsSigned(d' / 4, 19) {
      AdrUpdate(rd, d, d');
      PatchTwoFields(fs, Fields(Adr(rd), d'), S(d' / 4, 23, 5), U(d' % 4, 30, 29));
    }
  }

  /**
   * Whatever the instruction pointed at before, patching it for a target gives exactly the word that emitting it
   * for that target gives; the patch is refused exactly when the emission is.
   */
  lemma PatchEqualsEmission(br: Branch, before: int, distance: int)
    requires br.Valid() && !Emitted(br, before).failed
    ensures PatchWord(Emitted(br, before).insn, distance)
            == if Emitted(br, distance).failed then None else Some(Emitted(br, distance).insn)
  {
    match br
    case Adr(rd) => PatchAdr(rd, before, distance);
    case _ => PatchBranch(br, before, distance);
  }

  lemma SlotReads(w: Word, br: Branch, distance: int)
    requires br.Valid() && !br.Adr? && AllShown(Fields(br, distance), w)
    ensures SExtract(w, br.Slot().1, br.Slot().2) == distance / 4
  {
    ShownIsRead(Fields(br, distance), w);
    FieldsUpdate(br, distance, distance);
    assert Fields(br, distance)[br.Slot().0].ReadsBack(w);
  }

  /** The target read back is the one emitted for, rounded down to a word; exact for word-aligned distances. */
  lemma TargetRoundTrip(br: Branch, pc: int, distance: int)
    requires br.Valid() && !br.Adr? && !Emitted(br, distance).failed
    ensures TargetOf(Emitted(br, distance).insn, pc) == Some(pc + distance / 4 * 4)
    ensures TargetOf(Emitted(br, distance).insn, pc) == Some(pc + distance) <==> distance % 4 == 0
  {
    EmissionShown(br, distance);
    ShownTarget(Emitted(br, distance).insn, br, pc, distance);
  }

  lemma WholeWords(distance: int)
    ensures distance / 4 * 4 == distance <==> distance % 4 == 0
  {
  }

  lemma ShownTarget(w: Word, br: Branch, pc: int, distance: int)
    requires br.Valid() && !br.Adr? && AllShown(Fields(br, distance), w)
    ensures TargetOf(w, pc) == Some(pc + distance / 4 * 4)
    ensures TargetOf(w, pc) == Some(pc + distance) <==> distance % 4 == 0
  {
    ClassesAgree(w, br, distance);
    SlotReads(w, br, distance);
    PatchBySlot(w, br.Slot().1, br.Slot().2, pc, 0);
    WholeWords(distance);
  }

  const BRANCH_RANGE: nat := 0x800_0000

  predicate ReachableFromBranchAt(branch: int, target: int) { 0 - BRANCH_RANGE < target - branch < BRANCH_RANGE }

  /** The 26-bit form takes exactly the reachable targets, and the one at the far end backwards. */
  lemma ReachableEncodes(link: bool, pc: int, target: int)
    ensures !Emitted(Imm26(link), target - pc).failed <==> ReachableFromBranchAt(pc, target) || target == pc - 0x800_0000
  {
    EmissionShown(Imm26(link), target - pc);
    RangeOfWords(target - pc);
  }

  lemma RangeOfWords(distance: int)
    ensures FitsSigned(distance / 4, 26) <==> -0x800_0000 <= distance < 0x800_0000
  {
    assert Pow2(12) == 0x1000 && Pow2(13) == 0x2000;
    Pow2Add(12, 13);
    Pow2Add(13, 13);
  }

  // ---------- code in memory ----------

  /** `spatch` on a code buffer. */
  method SpatchAt(code: array<Word>, k: nat, msb: nat, lsb: nat, val: int) returns (ok: bool)
    requires k < code.Length && lsb <= msb < 32
    modifies code
    ensures ok <==> Spatch(old(code[k]), msb, lsb, val).Some?
    ensures code[..] == if ok then old(code[..])[k := Spatch(old(code[k]), msb, lsb, val).value] else old(code[..])
  {
    ok := FitsSigned(val, msb - lsb + 1);
    if ok {
      code[k] := SetField(code[k], msb, lsb, Unsigned(val, msb - lsb + 1));
    }
  }

  /** The branches and the literal load: patch the distance field of the word at k. `slot` tells whether the word has
      one; `ok` is false when the distance does not fit. */
  method PatchSlotAt(code: array<Word>, k: nat, words: int) returns (slot: bool, ok: bool)
    requires k < code.Length
    modifies code
    ensures slot <==> PatchSlot(old(code[k])).Some?
    ensures ok <==> slot && PatchWord(old(code[k]), 4 * words).Some?
    ensures code[..] == if ok then old(code[..])[k := PatchWord(old(code[k]), 4 * words).value] else old(code[..])
  {
    var w := code[k];
    var msb, lsb := 23, 5;
    if Extract(w, 29, 27) == 3 && Extract(w, 25, 24) == 0 {
    } else if Extract(w, 30, 26) == 5 {
      msb, lsb := 25, 0;
    } else if Extract(w, 31, 25) == 0x2A || Extract(w, 30, 25) == 0x1A {
    } else if Extract(w, 30, 25) == 0x1B {
      msb := 18;
    } else {
      return false, false;
    }
    slot := true;
    ok := SpatchAt(code, k, msb, lsb, words);
  }
}
