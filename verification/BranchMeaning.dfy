/**
 * What an emitted or patched branch, literal load or adr means, by a decoder for these classes written from Arm DDI 0487
 * chapter C4, on the bits of the word.
 */
module BranchMeaning {
  import opened Options
  import opened Words
  import opened InsnBits
  import opened InsnBuilder
  import opened Branches

  // ---------- the encodings ----------

  /** "Unconditional branch (immediate)": op 00101 imm26. */
  predicate IsImm26(w: Word) { !w[30] && !w[29] && w[28] && !w[27] && w[26] }

  /** "Compare and branch (immediate)": sf 011010 op imm19 Rt. */
  predicate IsCompare(w: Word) { !w[30] && w[29] && w[28] && !w[27] && w[26] && !w[25] }

  /** "Test and branch (immediate)": b5 011011 op b40 imm14 Rt. */
  predicate IsTest(w: Word) { !w[30] && w[29] && w[28] && !w[27] && w[26] && w[25] }

  /** "Conditional branch (immediate)": 0101010 0 imm19 0 cond. */
  predicate IsConditional(w: Word) {
    !w[31] && w[30] && !w[29] && w[28] && !w[27] && w[26] && !w[25] && !w[24] && !w[4]
  }

  /** "Load register (literal)": opc 011 V 00 imm19 Rt, of which opc 00 and 01 are the 32-bit and 64-bit loads. */
  predicate IsLiteral(w: Word) { !w[31] && !w[29] && w[28] && w[27] && !w[25] && !w[24] }

  /** "PC-rel. addressing" with op 0: 0 immlo 10000 immhi Rd. */
  predicate IsAdr(w: Word) { !w[31] && w[28] && !w[27] && !w[26] && !w[25] && !w[24] }

  function DecodeBranch(w: Word): Option<(Branch, int)> {
    if IsImm26(w) then Some((Imm26(w[31]), 4 * SExtract(w, 25, 0)))
    else if IsCompare(w) then Some((Compare(w[31], w[24], Extract(w, 4, 0)), 4 * SExtract(w, 23, 5)))
    else if IsTest(w) then
      Some((Test(w[24], (if w[31] then 32 else 0) + Extract(w, 23, 19), Extract(w, 4, 0)), 4 * SExtract(w, 18, 5)))
    else if IsConditional(w) then Some((Conditional(Extract(w, 3, 0)), 4 * SExtract(w, 23, 5)))
    else if IsLiteral(w) then
      Some((Literal(if w[26] then 1 else 0, if w[30] then 3 else 2, Extract(w, 4, 0)), 4 * SExtract(w, 23, 5)))
    else if IsAdr(w) then Some((Adr(Extract(w, 4, 0)), 4 * SExtract(w, 23, 5) + Extract(w, 30, 29)))
    else None
  }

  /** The same instruction with zr under its number. */
  function Numbered(br: Branch): Branch { if br.Literal? && br.rt == ZR then br.(rt := 31) else br }

  /** All classes but adr count in words. */
  function Reached(br: Branch, distance: int): int { if br.Adr? then distance else distance / 4 * 4 }

  // ---------- emission ----------

  lemma {:induction false} SignedAt(fs: seq<Field>, i: nat, w: Word)
    requires AllShown(fs, w) && i < |fs| && fs[i].S?
    ensures SExtract(w, fs[i].msb, fs[i].lsb) == fs[i].val
  {
    ShownReadsBack(w, fs[i]);
  }

  lemma {:induction false} FieldAt(fs: seq<Field>, i: nat, w: Word)
    requires AllShown(fs, w) && i < |fs| && fs[i].U? && 0 <= fs[i].val < UINT32
    ensures Extract(w, fs[i].msb, fs[i].lsb) == fs[i].val
  {
    ShownReadsBack(w, fs[i]);
  }

  lemma {:induction false} Imm26Decodes(w: Word, link: bool, distance: int)
    requires AllShown(Fields(Imm26(link), distance), w)
    ensures DecodeBranch(w) == Some((Imm26(link), distance / 4 * 4))
  {
    var fs := Fields(Imm26(link), distance);
    Imm26Shown(fs, w, link);
    SignedAt(fs, 2, w);
  }

  lemma {:induction false} Imm26Shown(fs: seq<Field>, w: Word, link: bool)
    requires AllShown(fs, w) && |fs| == 3 && fs[0] == U(One(link), 31, 31) && fs[1] == U(5, 30, 26)
    ensures IsImm26(w) && w[31] == link
  {
    BitAt(fs, 0, w, 31);
    BitAt(fs, 1, w, 30);
    BitAt(fs, 1, w, 29);
    BitAt(fs, 1, w, 28);
    BitAt(fs, 1, w, 27);
    BitAt(fs, 1, w, 26);
  }

  lemma CompareBits(v: nat, wide: bool, nonzero: bool)
    requires v == 0x34 + 0x80 * One(wide) + One(nonzero)
    ensures BitOf(v, 7) == wide && BitOf(v, 0) == nonzero
  {
  }

  lemma {:induction false} CompareDecodes(w: Word, wide: bool, nonzero: bool, rt: nat, distance: int)
    requires rt <= 31 && AllShown(Fields(Compare(wide, nonzero, rt), distance), w)
    ensures DecodeBranch(w) == Some((Compare(wide, nonzero, rt), distance / 4 * 4))
  {
    var fs := Fields(Compare(wide, nonzero, rt), distance);
    CompareShown(fs, w, wide, nonzero);
    SignedAt(fs, 1, w);
    FieldAt(fs, 2, w);
  }

  lemma {:induction false} CompareShown(fs: seq<Field>, w: Word, wide: bool, nonzero: bool)
    requires AllShown(fs, w) && |fs| == 3 && fs[0] == U(0x34 + 0x80 * One(wide) + One(nonzero), 31, 24)
    ensures IsCompare(w) && w[31] == wide && w[24] == nonzero
  {
    HighBits(fs, w, 0);
    CompareBits(fs[0].val, wide, nonzero);
    BitAt(fs, 0, w, 31);
    BitAt(fs, 0, w, 24);
  }

  lemma {:induction false} TestDecodes(w: Word, nonzero: bool, bit: nat, rt: nat, distance: int)
    requires bit < 64 && rt <= 31 && AllShown(Fields(Test(nonzero, bit, rt), distance), w)
    ensures DecodeBranch(w) == Some((Test(nonzero, bit, rt), distance / 4 * 4))
  {
    var fs := Fields(Test(nonzero, bit, rt), distance);
    TestShown(fs, w, nonzero, bit);
    TestReads(fs, w, bit, rt, distance / 4);
  }

  lemma {:induction false} TestReads(fs: seq<Field>, w: Word, bit: nat, rt: nat, words: int)
    requires AllShown(fs, w) && |fs| == 5 && bit < 64 && rt <= 31
    requires fs[2] == U(bit % 32, 23, 19) && fs[3] == S(words, 18, 5) && fs[4] == Rf(rt, 0)
    ensures Extract(w, 23, 19) == bit % 32 && SExtract(w, 18, 5) == words && Extract(w, 4, 0) == rt
  {
    FieldAt(fs, 2, w);
    SignedAt(fs, 3, w);
    FieldAt(fs, 4, w);
  }

  lemma {:induction false} TestShown(fs: seq<Field>, w: Word, nonzero: bool, bit: nat)
    requires AllShown(fs, w) && |fs| == 5 && bit < 64 && fs[0] == U(bit / 32, 31, 31) && fs[1] == U(0x36 + One(nonzero), 30, 24)
    ensures IsTest(w) && w[24] == nonzero && (if w[31] then 32 else 0) + bit % 32 == bit
  {
    HighBits(fs, w, 1);
    BitAt(fs, 0, w, 31);
    BitAt(fs, 1, w, 24);
    assert bit / 32 == if bit >= 32 then 1 else 0;
  }

  lemma {:induction false} ConditionalDecodes(w: Word, cond: nat, distance: int)
    requires cond < 16 && AllShown(Fields(Conditional(cond), distance), w)
    ensures DecodeBranch(w) == Some((Conditional(cond), distance / 4 * 4))
  {
    var fs := Fields(Conditional(cond), distance);
    ConditionalBits(fs, w);
    SignedAt(fs, 2, w);
    FieldAt(fs, 4, w);
  }

  lemma ConditionalBits(fs: seq<Field>, w: Word)
    requires AllShown(fs, w) && |fs| == 5 && fs[0] == U(0x2A, 31, 25) && fs[1] == U(0, 24, 24) && fs[3] == U(0, 4, 4)
    ensures IsConditional(w)
  {
    BitAt(fs, 0, w, 31);
    BitAt(fs, 0, w, 30);
    BitAt(fs, 0, w, 29);
    BitAt(fs, 0, w, 28);
    BitAt(fs, 0, w, 27);
    BitAt(fs, 0, w, 26);
    BitAt(fs, 0, w, 25);
    BitAt(fs, 1, w, 24);
    BitAt(fs, 3, w, 4);
  }

  lemma {:induction false} LiteralDecodes(w: Word, v: nat, size: nat, rt: nat, distance: int)
    requires Literal(v, size, rt).Valid() && AllShown(Fields(Literal(v, size, rt), distance), w)
    ensures DecodeBranch(w) == Some((Numbered(Literal(v, size, rt)), distance / 4 * 4))
  {
    var fs := Fields(Literal(v, size, rt), distance);
    LiteralBits(fs, w, v, size);
    FieldAt(fs, 1, w);
    SignedAt(fs, 5, w);
  }

  lemma LiteralBits(fs: seq<Field>, w: Word, v: nat, size: nat)
    requires AllShown(fs, w) && |fs| == 6 && v <= 1 && 2 <= size <= 3
    requires fs[0] == U(v, 26, 26) && fs[2] == U(size % 2, 31, 30) && fs[3] == U(3, 29, 27) && fs[4] == U(0, 25, 24)
    ensures IsLiteral(w) && (w[26] <==> v == 1) && (w[30] <==> size == 3)
  {
    BitAt(fs, 0, w, 26);
    BitAt(fs, 2, w, 31);
    BitAt(fs, 2, w, 30);
    BitAt(fs, 3, w, 29);
    BitAt(fs, 3, w, 28);
    BitAt(fs, 3, w, 27);
    BitAt(fs, 4, w, 25);
    BitAt(fs, 4, w, 24);
    assert size % 2 == size - 2;
  }

  lemma {:induction false} AdrDecodes(w: Word, rd: nat, distance: int)
    requires rd <= 31 && AllShown(Fields(Adr(rd), distance), w)
    ensures DecodeBranch(w) == Some((Adr(rd), distance))
  {
    var fs := Fields(Adr(rd), distance);
    AdrBits(fs, w);
    FieldAt(fs, 1, w);
    SignedAt(fs, 3, w);
    FieldAt(fs, 4, w);
  }

  lemma AdrBits(fs: seq<Field>, w: Word)
    requires AllShown(fs, w) && |fs| == 5 && fs[0] == U(0, 31, 31) && fs[2] == U(16, 28, 24)
    ensures IsAdr(w)
  {
    BitAt(fs, 0, w, 31);
    BitAt(fs, 2, w, 28);
    BitAt(fs, 2, w, 27);
    BitAt(fs, 2, w, 26);
    BitAt(fs, 2, w, 25);
    BitAt(fs, 2, w, 24);
  }

  /** Every branch, literal load and adr that is emitted decodes to itself, with the distance it was emitted for. */
  lemma {:induction false} EmissionDecodes(br: Branch, distance: int)
    requires br.Valid() && !Emitted(br, distance).failed
    ensures DecodeBranch(Emitted(br, distance).insn) == Some((Numbered(br), Reached(br, distance)))
  {
    EmissionShown(br, distance);
    ShownDecodes(Emitted(br, distance).insn, br, distance);
  }

  lemma {:induction false} ShownDecodes(w: Word, br: Branch, distance: int)
    requires br.Valid() && AllShown(Fields(br, distance), w)
    ensures DecodeBranch(w) == Some((Numbered(br), Reached(br, distance)))
  {
    match br
    case Imm26(link) => Imm26Decodes(w, link, distance);
    case Compare(wide, nonzero, rt) => CompareDecodes(w, wide, nonzero, rt, distance);
    case Test(nonzero, bit, rt) => TestDecodes(w, nonzero, bit, rt, distance);
    case Conditional(cond) => ConditionalDecodes(w, cond, distance);
    case Literal(v, size, rt) => LiteralDecodes(w, v, size, rt, distance);
    case Adr(rd) => AdrDecodes(w, rd, distance);
  }

  // ---------- patching ----------

  /** The class tests of the patcher find the classes. */
  lemma SlotOf(w: Word, br: Branch, distance: int)
    requires DecodeBranch(w) == Some((br, distance)) && !br.Adr?
    ensures PatchSlot(w) == Some((br.Slot().1, br.Slot().2))
  {
    match br
    case Imm26(_) => Imm26Slot(w);
    case Compare(_, _, _) => HighClass(w, false);
    case Test(_, _, _) => HighClass(w, true);
    case Conditional(_) => ConditionalSlot(w);
    case Literal(_, _, _) => LiteralSlot(w);
    case Adr(_) =>
  }

  lemma Imm26Slot(w: Word)
    requires IsImm26(w)
    ensures PatchSlot(w) == Some((25, 0))
  {
    BitDiffers(w, 29, 27, 3, 27);
    assert w[26..31] == [true, false, true, false, false];
    FiveBits(w[26..31]);
  }

  lemma FiveBits(s: seq<bool>)
    requires s == [true, false, true, false, false]
    ensures Value(s) == 5
  {
    assert s[1..][1..] == [true, false, false] && [true, false, false][1..] == [false, false];
    assert [false, false][1..] == [false] && [false][1..] == [];
    assert Value([true, false, false]) == 1;
  }

  lemma ConditionalSlot(w: Word)
    requires IsConditional(w)
    ensures PatchSlot(w) == Some((23, 5))
  {
    BitDiffers(w, 29, 27, 3, 27);
    BitDiffers(w, 30, 26, 5, 30);
    assert w[25..32] == [false, true, false, true, false, true, false];
    SevenBits(w[25..32]);
  }

  lemma SevenBits(s: seq<bool>)
    requires s == [false, true, false, true, false, true, false]
    ensures Value(s) == 0x2A
  {
    var t := s[3..];
    assert s[1..][1..][1..] == t && t[1..][1..] == [true, false] && [true, false][1..] == [false] && [false][1..] == [];
    assert Value([true, false]) == 1;
    assert Value(t[1..]) == 2 && Value(t) == 5;
    assert Value(s[1..][1..]) == 10 && Value(s[1..]) == 21;
  }

  lemma LiteralSlot(w: Word)
    requires IsLiteral(w)
    ensures PatchSlot(w) == Some((23, 5))
  {
    assert w[27..30] == [true, true, false];
    assert [true, true, false][1..] == [true, false] && [true, false][1..] == [false] && [false][1..] == [];
    assert Value([true, false]) == 1 && Value([true, true, false]) == 3;
    assert w[24..26] == [false, false] && [false, false][1..] == [false];
    assert Value([false]) == 0 && Value([false, false]) == 0;
  }

  /** Patching a word that decodes changes its distance and nothing else of what it means. */
  lemma {:induction false} PatchDecodes(w: Word, distance: int)
    requires DecodeBranch(w).Some? && PatchWord(w, distance).Some?
    ensures var br := DecodeBranch(w).value.0; DecodeBranch(PatchWord(w, distance).value) == Some((br, Reached(br, distance)))
  {
    var br := DecodeBranch(w).value.0;
    if br.Adr? {
      AdrPatchDecodes(w, distance);
    } else {
      SlotOf(w, br, DecodeBranch(w).value.1);
      var (msb, lsb) := (br.Slot().1, br.Slot().2);
      FieldPatchDecodes(w, br, msb, lsb, distance / 4);
    }
  }

  /** The bits outside the distance field are left alone, so the class and the operands are. */
  lemma {:induction false} FieldPatchDecodes(w: Word, br: Branch, msb: nat, lsb: nat, words: int)
    requires DecodeBranch(w).Some? && DecodeBranch(w).value.0 == br && !br.Adr? && (msb, lsb) == (br.Slot().1, br.Slot().2)
    requires FitsSigned(words, msb - lsb + 1)
    ensures DecodeBranch(SetField(w, msb, lsb, Unsigned(words, msb - lsb + 1))) == Some((br, 4 * words))
  {
    var v := Unsigned(words, msb - lsb + 1);
    SetSExtract(w, msb, lsb, words);
    if !br.Imm26? {
      SetExtractOther(w, msb, lsb, v, 4, 0);
      SetExtractOther(w, msb, lsb, v, 3, 0);
      if br.Test? {
        SetExtractOther(w, msb, lsb, v, 23, 19);
      }
    }
    SameOperands(w, SetField(w, msb, lsb, v), br, msb, lsb, words);
  }

  lemma SameOperands(w: Word, w': Word, br: Branch, msb: nat, lsb: nat, words: int)
    requires DecodeBranch(w).Some? && DecodeBranch(w).value.0 == br && !br.Adr? && (msb, lsb) == (br.Slot().1, br.Slot().2)
    requires forall p :: 0 <= p < 32 && !(lsb <= p <= msb) ==> w'[p] == w[p]
    requires SExtract(w', msb, lsb) == words
    requires !br.Imm26? ==> Extract(w', 4, 0) == Extract(w, 4, 0) && Extract(w', 3, 0) == Extract(w, 3, 0)
    requires br.Test? ==> Extract(w', 23, 19) == Extract(w, 23, 19)
    ensures DecodeBranch(w') == Some((br, 4 * words))
  {
    SameClass(w, w', msb, lsb);
  }

  /** No class is told by bits 23 to 5, except that conditional branches have bit 4 clear. */
  lemma SameClass(w: Word, w': Word, msb: nat, lsb: nat)
    requires (msb <= 23 && lsb >= 5) || ((msb, lsb) == (25, 0) && IsImm26(w))
    requires forall p :: 0 <= p < 32 && !(lsb <= p <= msb) ==> w'[p] == w[p]
    ensures IsImm26(w') == IsImm26(w)
    ensures !IsImm26(w) ==> IsCompare(w') == IsCompare(w) && IsTest(w') == IsTest(w) && IsConditional(w') == IsConditional(w)
                            && IsLiteral(w') == IsLiteral(w)
    ensures w'[31] == w[31] && w'[30] == w[30] && w'[26] == w[26] && (!IsImm26(w) ==> w'[24] == w[24])
  {
  }

  lemma {:induction false} AdrPatchDecodes(w: Word, distance: int)
    requires IsAdr(w) && PatchWord(w, distance).Some?
    ensures DecodeBranch(PatchWord(w, distance).value) == Some((Adr(Extract(w, 4, 0)), distance))
  {
    AdrSlot(w);
    AdrClassTests(w);
    PatchAdrWord(w, distance);
    AdrFields(w, Unsigned(distance / 4, 19), distance / 4, distance % 4);
  }

  lemma {:induction false} AdrFields(w: Word, v: nat, high: int, low: nat)
    requires IsAdr(w) && FitsSigned(high, 19) && v == Unsigned(high, 19) && low < 4
    ensures DecodeBranch(SetField(SetField(w, 23, 5, v), 30, 29, low)) == Some((Adr(Extract(w, 4, 0)), 4 * high + low))
  {
    AdrHigh(w, v, high);
    AdrLow(SetField(w, 23, 5, v), low);
  }

  lemma {:induction false} AdrHigh(w: Word, v: nat, high: int)
    requires IsAdr(w) && FitsSigned(high, 19) && v == Unsigned(high, 19)
    ensures var w' := SetField(w, 23, 5, v); IsAdr(w') && SExtract(w', 23, 5) == high && Extract(w', 4, 0) == Extract(w, 4, 0)
  {
    SetSExtract(w, 23, 5, high);
    SetExtractOther(w, 23, 5, v, 4, 0);
  }

  lemma {:induction false} AdrLow(w: Word, low: nat)
    requires IsAdr(w) && low < 4
    ensures var w' := SetField(w, 30, 29, low);
            && IsAdr(w') && Extract(w', 30, 29) == low
            && SExtract(w', 23, 5) == SExtract(w, 23, 5) && Extract(w', 4, 0) == Extract(w, 4, 0)
  {
    assert Pow2(2) == 4;
    SetExtract(w, 30, 29, low);
    SetExtractOther(w, 30, 29, low, 23, 5);
    SetExtractOther(w, 30, 29, low, 4, 0);
  }

  lemma AdrClassTests(w: Word)
    requires IsAdr(w)
    ensures Extract(w, 28, 24) == 16 && Extract(w, 31, 31) == 0
  {
    assert w[24..29] == [false, false, false, false, true];
    AdrOpcode(w[24..29]);
    assert w[31..32] == [false] && [false][1..] == [];
  }

  lemma AdrOpcode(s: seq<bool>)
    requires s == [false, false, false, false, true]
    ensures Value(s) == 16
  {
    assert s[1..][1..][1..] == [false, true] && [false, true][1..] == [true] && [true][1..] == [];
    assert Value([true]) == 1 && Value([false, true]) == 2;
    assert Value(s[1..][1..]) == 4 && Value(s[1..]) == 8;
  }

  lemma AdrSlot(w: Word)
    requires IsAdr(w)
    ensures PatchSlot(w) == None
  {
    BitDiffers(w, 29, 27, 3, 27);
    BitDiffers(w, 30, 26, 5, 26);
    BitDiffers(w, 31, 25, 0x2A, 26);
    BitDiffers(w, 30, 25, 0x1A, 26);
    BitDiffers(w, 30, 25, 0x1B, 26);
  }
}
