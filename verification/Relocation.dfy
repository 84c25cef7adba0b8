/**
 * Patching code whose contents are arbitrary: for every word, pair or triple that `pd_patch_instruction_size` accepts,
 * `target_addr_for_insn` afterwards answers the target that was asked for.
 */
module Relocation {
  import opened Options
  import opened Words
  import opened InsnBits
  import opened InsnBuilder
  import opened Branches

  const PAGE: nat := 0x1000

  // ---------- single words ----------

  lemma BitIs(w: Word, msb: nat, lsb: nat, c: nat, p: nat)
    requires lsb <= p <= msb < 32 && Extract(w, msb, lsb) == c
    ensures w[p] == BitOf(c, p - lsb)
  {
    ValueBit(w[lsb..msb + 1], p - lsb);
  }

  /** Past the literal class, every class has bit 27 clear. */
  lemma NotLiteral(w: Word)
    requires Extract(w, 30, 26) == 5 || Extract(w, 31, 25) == 0x2A || Extract(w, 30, 25) == 0x1A || Extract(w, 30, 25) == 0x1B
    ensures Extract(w, 29, 27) != 3 && Extract(w, 28, 27) != 3
  {
    if Extract(w, 30, 26) == 5 {
      BitIs(w, 30, 26, 5, 27);
    } else if Extract(w, 31, 25) == 0x2A {
      BitIs(w, 31, 25, 0x2A, 27);
    } else if Extract(w, 30, 25) == 0x1A {
      BitIs(w, 30, 25, 0x1A, 27);
    } else {
      BitIs(w, 30, 25, 0x1B, 27);
    }
    BitDiffers(w, 29, 27, 3, 27);
    BitDiffers(w, 28, 27, 3, 27);
  }

  lemma LiteralSeen(w: Word)
    requires Extract(w, 29, 27) == 3
    ensures Extract(w, 28, 27) == 3
  {
    BitIs(w, 29, 27, 3, 27);
    BitIs(w, 29, 27, 3, 28);
    TwoBits(w[27..29]);
  }

  /** The two dispatchers use different masks, but agree wherever the patcher accepts. */
  lemma SlotsAgree(w: Word)
    requires PatchSlot(w).Some?
    ensures TargetSlot(w) == PatchSlot(w)
  {
    if Extract(w, 29, 27) == 3 && Extract(w, 25, 24) == 0 {
      LiteralSeen(w);
    } else {
      NotLiteral(w);
    }
  }

  /** Writing the distance field does not change the class. */
  lemma ClassStays(w: Word, msb: nat, lsb: nat, v: nat)
    requires PatchSlot(w) == Some((msb, lsb)) && lsb <= msb < 32
    ensures PatchSlot(SetField(w, msb, lsb, v)) == Some((msb, lsb))
  {
    var w' := SetField(w, msb, lsb, v);
    SetExtractOther(w, msb, lsb, v, 29, 27);
    SetExtractOther(w, msb, lsb, v, 30, 26);
    if (msb, lsb) == (25, 0) {
      assert Extract(w, 30, 26) == 5;
      NotLiteral(w);
    } else {
      SetExtractOther(w, msb, lsb, v, 25, 24);
      SetExtractOther(w, msb, lsb, v, 31, 25);
      SetExtractOther(w, msb, lsb, v, 30, 25);
    }
  }

  /** For every word the patcher accepts as pc-relative, the target read back is the target, rounded to a word. */
  lemma PatchThenTarget(w: Word, pc: int, distance: int)
    requires PatchSlot(w).Some? && PatchWord(w, distance).Some?
    ensures TargetOf(PatchWord(w, distance).value, pc) == Some(pc + distance / 4 * 4)
  {
    var (msb, lsb) := PatchSlot(w).value;
    var n := msb - lsb + 1;
    var v := Unsigned(distance / 4, n);
    ClassStays(w, msb, lsb, v);
    SlotsAgree(SetField(w, msb, lsb, v));
    SetSExtract(w, msb, lsb, distance / 4);
  }

  // ---------- adrp and its partner ----------

  predicate IsAdrp(w: Word) { Extract(w, 28, 24) == 16 && Extract(w, 31, 31) == 1 }

  /** A load or store with an unsigned offset from the page register. */
  predicate PageAccess(w: Word, w2: Word) { Extract(w2, 29, 24) == 0x39 && Extract(w, 4, 0) == Extract(w2, 9, 5) }

  /** An add whose result replaces the page; the code does not look at the register it adds to. */
  predicate PageAdd(w: Word, w2: Word) { Extract(w2, 31, 22) == 0x244 && Extract(w, 4, 0) == Extract(w2, 4, 0) }

  function Bytes(w2: Word): (s: nat)
    ensures s in {1, 2, 4, 8}
  {
    var size := Extract(w2, 31, 30);
    if size == 0 then 1 else if size == 1 then 2 else if size == 2 then 4 else 8
  }

  function PatchAdrp(w: Word, pages: int): Option<Word> {
    match Spatch(w, 23, 5, pages / 4)
    case Some(w') => Some(SetField(w', 30, 29, pages % 4))
    case None => None
  }

  /** None when a guarantee fails, or the check that a lone adrp has a page-aligned target. */
  function PatchPair(w: Word, w2: Word, pc: nat, target: nat): Option<(Word, Word)> {
    var low := target % PAGE;
    var second :=
      if PageAccess(w, w2) then
        if target % Bytes(w2) == 0 then Some(SetField(w2, 21, 10, low / Bytes(w2))) else None
      else if PageAdd(w, w2) then Some(SetField(w2, 21, 10, low))
      else if low == 0 then Some(w2) else None;
    match (PatchAdrp(w, target / PAGE - pc / PAGE), second)
    case (Some(a), Some(b)) => Some((a, b))
    case _ => None
  }

  /** pc + (offset << 12), with the low bits cleared, plus what the partner adds. */
  function TargetOfPair(w: Word, w2: Word, pc: nat): int {
    var pages := Extract(w, 30, 29) + 4 * SExtract(w, 23, 5);
    var page := (pc + pages * PAGE) / PAGE * PAGE;
    if PageAccess(w, w2) then page + Extract(w2, 21, 10) * Bytes(w2)
    else if PageAdd(w, w2) then page + Extract(w2, 21, 10)
    else page
  }

  lemma AdrpReads(w: Word, pages: int)
    requires PatchAdrp(w, pages).Some?
    ensures var a := PatchAdrp(w, pages).value;
            && Extract(a, 30, 29) + 4 * SExtract(a, 23, 5) == pages
            && Extract(a, 4, 0) == Extract(w, 4, 0)
            && Extract(a, 28, 24) == Extract(w, 28, 24) && Extract(a, 31, 31) == Extract(w, 31, 31)
  {
    var v := Unsigned(pages / 4, 19);
    var w' := SetField(w, 23, 5, v);
    SetSExtract(w, 23, 5, pages / 4);
    SetExtractOther(w, 23, 5, v, 4, 0);
    SetExtractOther(w, 23, 5, v, 28, 24);
    SetExtractOther(w, 23, 5, v, 31, 31);
    LowBits(w', pages % 4);
  }

  lemma LowBits(w: Word, low: nat)
    requires low < 4
    ensures var a := SetField(w, 30, 29, low);
            && Extract(a, 30, 29) == low && SExtract(a, 23, 5) == SExtract(w, 23, 5)
            && Extract(a, 4, 0) == Extract(w, 4, 0)
            && Extract(a, 28, 24) == Extract(w, 28, 24) && Extract(a, 31, 31) == Extract(w, 31, 31)
  {
    assert Pow2(2) == 4;
    SetExtract(w, 30, 29, low);
    SetExtractOther(w, 30, 29, low, 23, 5);
    SetExtractOther(w, 30, 29, low, 4, 0);
    SetExtractOther(w, 30, 29, low, 28, 24);
    SetExtractOther(w, 30, 29, low, 31, 31);
  }

  /** The immediate of the partner reads back and nothing its class depends on changes. */
  lemma PartnerReads(w2: Word, imm: nat)
    requires imm < PAGE
    ensures var b := SetField(w2, 21, 10, imm);
            && Extract(b, 21, 10) == imm && Extract(b, 31, 30) == Extract(w2, 31, 30)
            && Extract(b, 29, 24) == Extract(w2, 29, 24) && Extract(b, 31, 22) == Extract(w2, 31, 22)
            && Extract(b, 9, 5) == Extract(w2, 9, 5) && Extract(b, 4, 0) == Extract(w2, 4, 0)
  {
    assert Pow2(12) == PAGE;
    SetExtract(w2, 21, 10, imm);
    SetExtractOther(w2, 21, 10, imm, 31, 30);
    SetExtractOther(w2, 21, 10, imm, 29, 24);
    SetExtractOther(w2, 21, 10, imm, 31, 22);
    SetExtractOther(w2, 21, 10, imm, 9, 5);
    SetExtractOther(w2, 21, 10, imm, 4, 0);
  }

  lemma PageSum(pc: nat, target: nat)
    ensures (pc + (target / PAGE - pc / PAGE) * PAGE) / PAGE * PAGE == target / PAGE * PAGE
  {
  }

  lemma ScaledLow(target: nat, bytes: nat)
    requires bytes in {1, 2, 4, 8} && target % bytes == 0
    ensures target % PAGE / bytes < PAGE && target % PAGE / bytes * bytes == target % PAGE
  {
    var pages, units, low := target / PAGE, target / bytes, target % PAGE;
    assert target == PAGE * pages + low && target == bytes * units;
    if bytes == 8 {
      LowUnits(8, 0x200, pages, units, low);
    } else if bytes == 4 {
      LowUnits(4, 0x400, pages, units, low);
    } else if bytes == 2 {
      LowUnits(2, 0x800, pages, units, low);
    }
  }

  lemma LowUnits(bytes: nat, k: nat, pages: nat, units: nat, low: nat)
    requires (bytes, k) in {(8, 0x200), (4, 0x400), (2, 0x800)} && PAGE * pages + low == bytes * units
    ensures low / bytes * bytes == low
  {
    assert low == bytes * (units - k * pages);
  }

  lemma PairTarget(a: Word, b: Word, pc: nat, target: nat)
    requires Extract(a, 30, 29) + 4 * SExtract(a, 23, 5) == target / PAGE - pc / PAGE
    requires PageAccess(a, b) ==> Extract(b, 21, 10) * Bytes(b) == target % PAGE
    requires !PageAccess(a, b) && PageAdd(a, b) ==> Extract(b, 21, 10) == target % PAGE
    requires !PageAccess(a, b) && !PageAdd(a, b) ==> target % PAGE == 0
    ensures TargetOfPair(a, b, pc) == target
  {
    PageSum(pc, target);
  }

  /** For any second word, the reader answers the target for a patched adrp pair. */
  lemma PairThenTarget(w: Word, w2: Word, pc: nat, target: nat)
    requires IsAdrp(w) && PatchPair(w, w2, pc, target).Some?
    ensures var (a, b) := PatchPair(w, w2, pc, target).value;
            IsAdrp(a) && TargetOfPair(a, b, pc) == target
  {
    var (a, b) := PatchPair(w, w2, pc, target).value;
    AdrpReads(w, target / PAGE - pc / PAGE);
    if PageAccess(w, w2) {
      ScaledLow(target, Bytes(w2));
      PartnerReads(w2, target % PAGE / Bytes(w2));
    } else if PageAdd(w, w2) {
      PartnerReads(w2, target % PAGE);
    }
    PairTarget(a, b, pc, target);
  }

  // ---------- movz, movk, movk ----------

  /** Patch the three 16-bit immediates of a 48-bit address constant. */
  function PatchMoves(ws: (Word, Word, Word), target: nat): (Word, Word, Word) {
    (SetField(ws.0, 20, 5, target % 0x1_0000), SetField(ws.1, 20, 5, target / 0x1_0000 % 0x1_0000),
     SetField(ws.2, 20, 5, target / 0x1_0000_0000 % 0x1_0000))
  }

  function TargetOfMoves(ws: (Word, Word, Word)): nat {
    Extract(ws.0, 20, 5) + Extract(ws.1, 20, 5) * 0x1_0000 + Extract(ws.2, 20, 5) * 0x1_0000_0000
  }

  /** Exactly the addresses below 2^48, which the patcher asserts, survive the round trip. */
  lemma MovesThenTarget(ws: (Word, Word, Word), target: nat)
    ensures TargetOfMoves(PatchMoves(ws, target)) == target <==> target < 0x1_0000_0000_0000
  {
    Pow2Add(8, 8);
    assert Pow2(8) == 256;
    SetExtract(ws.0, 20, 5, target % 0x1_0000);
    SetExtract(ws.1, 20, 5, target / 0x1_0000 % 0x1_0000);
    SetExtract(ws.2, 20, 5, target / 0x1_0000_0000 % 0x1_0000);
    ThreeParts(target);
  }

  lemma ThreeParts(t: nat)
    ensures t % 0x1_0000 + t / 0x1_0000 % 0x1_0000 * 0x1_0000 + t / 0x1_0000_0000 % 0x1_0000 * 0x1_0000_0000 == t
            <==> t < 0x1_0000_0000_0000
  {
  }
}
