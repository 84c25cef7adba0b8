/**
 * What an adrp and the word after it compute, by the decoders for add/subtract immediates and loads and stores, against
 * the target that `pd_patch_instruction_size` patched them for.
 */
module PageReferences {
  import opened Options
  import opened Words
  import opened InsnBits
  import opened InsnBuilder
  import opened Relocation
  import AddSub = AddSubImm
  import Access = LoadStore

  /** What the second word does with an address: `Sum` adds to or subtracts from a base register. */
  datatype Use =
    | Unused
    | Memory(base: nat, offset: int)
    | Sum(op: AddSub.Op, base: nat, imm: nat, into: nat)

  function UseOf(w2: Word): (u: Use)
    ensures u.Sum? ==> u.imm < 0x100_0000
  {
    if AddSub.IsAddSubImm(w2) then
      var d := AddSub.Decode(w2);
      ImmBound(w2);
      if d.rd == ZR then Unused else Sum(d.op, d.rn, d.imm, d.rd)
    else
      match Access.DecodeOperand(w2)
      case Offset(base, offset) => Memory(base, offset)
      case _ => Unused
  }

  lemma ImmBound(w2: Word)
    ensures AddSub.Decode(w2).imm < 0x100_0000
  {
    assert Pow2(12) == 0x1000;
  }

  function SumOf(op: AddSub.Op, x: int, imm: nat): nat
    requires imm < 0x100_0000
  {
    AddSub.Arith(op, x % AddSub.Modulus(op.wide), imm).0
  }

  /** What the adrp at pc puts in its register. */
  function PageOf(w: Word, pc: nat): int { (pc + (Extract(w, 30, 29) + 4 * SExtract(w, 23, 5)) * PAGE) / PAGE * PAGE }

  /**
   * The address that an adrp at pc and the word after it form: by the second word, if that reads or overwrites the page
   * register, and by the adrp alone otherwise. x is what the second word's base register holds if that is another one.
   * An adrp of register 31 forms nothing.
   */
  function Formed(w: Word, w2: Word, pc: nat, x: nat): Option<int> {
    var d, page := Extract(w, 4, 0), PageOf(w, pc);
    if d == 31 then None
    else match UseOf(w2)
         case Unused => Some(page)
         case Memory(base, offset) => Some(if base == d then page + offset else page)
         case Sum(op, base, imm, into) =>
           Some(if base == d then SumOf(op, page, imm) else if into == d then SumOf(op, x, imm) else page)
  }

  /** The target is formed whatever the other register holds. */
  ghost predicate Forms(w: Word, w2: Word, pc: nat, target: nat) {
    forall x: nat :: x < WORD ==> Formed(w, w2, pc, x) == Some(target)
  }

  /** What a caller can check before patching: the second word takes its base from the page register, and a word that is
      not patched along with the adrp adds nothing to it. */
  predicate Partnered(w: Word, w2: Word, target: nat) {
    var d := Extract(w, 4, 0);
    && d != 31
    && if PageAccess(w, w2) then Access.Allocated(Access.DecodeAccess(w2)) || target % PAGE == 0
       else if PageAdd(w, w2) then Extract(w2, 9, 5) == d
       else match UseOf(w2)
            case Unused => true
            case Memory(base, offset) => base == d ==> offset == 0
            case Sum(op, base, imm, into) =>
              (base == d ==> imm == 0 && (op.wide || target < UINT32)) && (into == d ==> base == d)
  }

  // ---------- the partner's class, field by field ----------

  /** The field m..l inside the field msb..lsb. */
  lemma SubField(w: Word, msb: nat, lsb: nat, m: nat, l: nat, v: nat)
    requires lsb <= l <= m <= msb < 32 && v < Pow2(m - l + 1)
    requires forall k: nat :: k <= m - l ==> BitOf(v, k) == BitOf(Extract(w, msb, lsb), l - lsb + k)
    ensures Extract(w, m, l) == v
  {
    forall k | 0 <= k <= m - l
      ensures w[l..m + 1][k] == BitOf(v, k)
    {
      BitIs(w, msb, lsb, Extract(w, msb, lsb), l + k);
    }
    ValueIs(w[l..m + 1], v);
  }

  lemma AddBits()
    ensures forall k: nat :: k <= 1 ==> BitOf(0, k) == BitOf(0x244, 0 + k)
    ensures forall k: nat :: k <= 4 ==> BitOf(0x11, k) == BitOf(0x244, 2 + k)
    ensures forall k: nat :: k <= 2 ==> BitOf(4, k) == BitOf(0x244, 7 + k)
  {
    assert !BitOf(0x244, 0) && !BitOf(0x244, 1) && !BitOf(0, 0) && !BitOf(0, 1);
    assert BitOf(0x244, 2) && !BitOf(0x244, 3) && !BitOf(0x244, 4) && !BitOf(0x244, 5) && BitOf(0x244, 6);
    assert BitOf(0x11, 0) && !BitOf(0x11, 1) && !BitOf(0x11, 2) && !BitOf(0x11, 3) && BitOf(0x11, 4);
    assert !BitOf(0x244, 7) && !BitOf(0x244, 8) && BitOf(0x244, 9) && !BitOf(4, 0) && !BitOf(4, 1) && BitOf(4, 2);
  }

  lemma AccessBits()
    ensures forall k: nat :: k <= 1 ==> BitOf(1, k) == BitOf(0x39, 0 + k)
    ensures forall k: nat :: k <= 0 ==> BitOf(0, k) == BitOf(0x39, 2 + k)
    ensures forall k: nat :: k <= 2 ==> BitOf(7, k) == BitOf(0x39, 3 + k)
    ensures forall k: nat :: k <= 4 ==> BitOf(0x19, k) == BitOf(0x39, 0 + k)
  {
    assert BitOf(0x39, 0) && !BitOf(0x39, 1) && !BitOf(0x39, 2) && BitOf(0x39, 3) && BitOf(0x39, 4) && BitOf(0x39, 5);
    assert BitOf(1, 0) && !BitOf(1, 1) && !BitOf(0, 0) && BitOf(7, 0) && BitOf(7, 1) && BitOf(7, 2);
    assert BitOf(0x19, 0) && !BitOf(0x19, 1) && !BitOf(0x19, 2) && BitOf(0x19, 3) && BitOf(0x19, 4);
  }

  /** The word of an add partner is a 64-bit add of an unshifted constant that sets no flags. */
  lemma AddUse(w2: Word)
    requires Extract(w2, 31, 22) == 0x244
    ensures UseOf(w2) == Sum(AddSub.Op(true, false, false), Named(Extract(w2, 9, 5), SP), Extract(w2, 21, 10), Named(Extract(w2, 4, 0), SP))
  {
    assert Pow2(2) == 4 && Pow2(5) == 0x20 && Pow2(3) == 8;
    AddBits();
    SubField(w2, 31, 22, 23, 22, 0);
    SubField(w2, 31, 22, 28, 24, 0x11);
    SubField(w2, 31, 22, 31, 29, 4);
  }

  /** The word of an access partner is a general-register load or store with a scaled offset. */
  lemma AccessFields(w2: Word)
    requires Extract(w2, 29, 24) == 0x39
    ensures Extract(w2, 29, 27) == 7 && Extract(w2, 26, 26) == 0 && Extract(w2, 25, 24) == 1 && Extract(w2, 28, 24) == 0x19
  {
    assert Pow2(2) == 4 && Pow2(5) == 0x20 && Pow2(3) == 8 && Pow2(1) == 2;
    AccessBits();
    SubField(w2, 29, 24, 25, 24, 1);
    SubField(w2, 29, 24, 26, 26, 0);
    SubField(w2, 29, 24, 29, 27, 7);
    SubField(w2, 29, 24, 28, 24, 0x19);
  }

  lemma AccessUse(w2: Word)
    requires Extract(w2, 29, 24) == 0x39
    ensures UseOf(w2) == if Access.Allocated(Access.DecodeAccess(w2))
                         then Memory(Named(Extract(w2, 9, 5), SP), Extract(w2, 21, 10) * Bytes(w2)) else Unused
  {
    AccessFields(w2);
    assert Pow2(2) == 4;
  }

  // ---------- the patched words ----------

  /** The patched adrp forms the page of the target. */
  lemma PatchedPage(w: Word, w2: Word, pc: nat, target: nat)
    requires IsAdrp(w) && PatchPair(w, w2, pc, target).Some?
    ensures var a := PatchPair(w, w2, pc, target).value.0;
            PageOf(a, pc) == target / PAGE * PAGE && Extract(a, 4, 0) == Extract(w, 4, 0)
  {
    AdrpReads(w, target / PAGE - pc / PAGE);
    PageSum(pc, target);
  }

  lemma PatchedAccess(w: Word, w2: Word, pc: nat, target: nat)
    requires PatchPair(w, w2, pc, target).Some? && PageAccess(w, w2)
    ensures var b := PatchPair(w, w2, pc, target).value.1;
            UseOf(b) == if Access.Allocated(Access.DecodeAccess(w2)) then Memory(Named(Extract(w2, 9, 5), SP), target % PAGE) else Unused
  {
    var b := PatchPair(w, w2, pc, target).value.1;
    var imm := target % PAGE / Bytes(w2);
    ScaledLow(target, Bytes(w2));
    PartnerReads(w2, imm);
    SetExtractOther(w2, 21, 10, imm, 23, 22);
    AccessFields(w2);
    AccessFields(b);
    assert Access.DecodeAccess(b) == Access.DecodeAccess(w2);
    AccessUse(b);
  }

  lemma PatchedAdd(w: Word, w2: Word, pc: nat, target: nat)
    requires PatchPair(w, w2, pc, target).Some? && PageAdd(w, w2)
    ensures !PageAccess(w, w2)
    ensures UseOf(PatchPair(w, w2, pc, target).value.1)
            == Sum(AddSub.Op(true, false, false), Named(Extract(w2, 9, 5), SP), target % PAGE, Named(Extract(w2, 4, 0), SP))
  {
    NotBoth(w2);
    PartnerReads(w2, target % PAGE);
    AddUse(PatchPair(w, w2, pc, target).value.1);
  }

  lemma NotBoth(w2: Word)
    requires Extract(w2, 31, 22) == 0x244
    ensures Extract(w2, 29, 24) != 0x39
  {
    BitIs(w2, 31, 22, 0x244, 27);
    assert !BitOf(0x244, 5) && BitOf(0x39, 3);
    BitDiffers(w2, 29, 24, 0x39, 27);
  }

  // ---------- sums ----------

  /** A sum with the page in the base register is the target's page exactly when nothing is added and nothing is lost. */
  lemma SumKeeps(op: AddSub.Op, page: nat, imm: nat)
    requires page < 0x1_0000_0000_0000 && imm < 0x100_0000
    ensures SumOf(op, page, imm) == page <==> imm == 0 && (op.wide || page < UINT32)
  {
    if op.wide {
      assert page % WORD == page;
    }
  }

  lemma AddIs(x: nat, imm: nat)
    requires x < WORD && imm < 0x100_0000
    ensures SumOf(AddSub.Op(true, false, false), x, imm) == if x + imm < WORD then x + imm else x + imm - WORD
  {
    assert x % WORD == x;
  }

  /** A sum of some other register is not determined by the page. */
  lemma SumVaries(op: AddSub.Op, imm: nat)
    requires imm < 0x100_0000
    ensures SumOf(op, 0, imm) != SumOf(op, 1, imm)
  {
  }

  // ---------- the main result ----------

  lemma AccessForms(w: Word, w2: Word, pc: nat, target: nat)
    requires IsAdrp(w) && PatchPair(w, w2, pc, target).Some? && PageAccess(w, w2)
    ensures var (a, b) := PatchPair(w, w2, pc, target).value; Forms(a, b, pc, target) <==> Partnered(w, w2, target)
  {
    var (a, b) := PatchPair(w, w2, pc, target).value;
    PatchedPage(w, w2, pc, target);
    PatchedAccess(w, w2, pc, target);
    if Forms(a, b, pc, target) {
      assert Formed(a, b, pc, 0) == Some(target);
    }
  }

  lemma AddForms(w: Word, w2: Word, pc: nat, target: nat)
    requires IsAdrp(w) && PatchPair(w, w2, pc, target).Some? && PageAdd(w, w2) && target < 0x1_0000_0000_0000
    ensures var (a, b) := PatchPair(w, w2, pc, target).value; Forms(a, b, pc, target) <==> Partnered(w, w2, target)
  {
    var (a, b) := PatchPair(w, w2, pc, target).value;
    PatchedPage(w, w2, pc, target);
    PatchedAdd(w, w2, pc, target);
    var op := AddSub.Op(true, false, false);
    AddIs(target / PAGE * PAGE, target % PAGE);
    SumVaries(op, target % PAGE);
    if Forms(a, b, pc, target) {
      assert Formed(a, b, pc, 0) == Some(target) && Formed(a, b, pc, 1) == Some(target);
    }
  }

  lemma LoneForms(w: Word, w2: Word, pc: nat, target: nat)
    requires IsAdrp(w) && PatchPair(w, w2, pc, target).Some? && !PageAccess(w, w2) && !PageAdd(w, w2)
    requires target < 0x1_0000_0000_0000
    ensures var (a, b) := PatchPair(w, w2, pc, target).value; Forms(a, b, pc, target) <==> Partnered(w, w2, target)
  {
    var (a, b) := PatchPair(w, w2, pc, target).value;
    PatchedPage(w, w2, pc, target);
    assert b == w2 && target / PAGE * PAGE == target;
    if UseOf(w2).Sum? {
      SumKeeps(UseOf(w2).op, target, UseOf(w2).imm);
      SumVaries(UseOf(w2).op, UseOf(w2).imm);
    }
    if Forms(a, b, pc, target) {
      assert Formed(a, b, pc, 0) == Some(target) && Formed(a, b, pc, 1) == Some(target);
    }
  }

  /** A patched adrp and the word after it form the target exactly when they were partnered to begin with. */
  lemma PairForms(w: Word, w2: Word, pc: nat, target: nat)
    requires IsAdrp(w) && PatchPair(w, w2, pc, target).Some? && target < 0x1_0000_0000_0000
    ensures var (a, b) := PatchPair(w, w2, pc, target).value; Forms(a, b, pc, target) <==> Partnered(w, w2, target)
  {
    if PageAccess(w, w2) {
      AccessForms(w, w2, pc, target);
    } else if PageAdd(w, w2) {
      AddForms(w, w2, pc, target);
    } else {
      LoneForms(w, w2, pc, target);
    }
  }

  // ---------- two pairs that are accepted and do not form the target ----------

  /** `adrp xd` and `add xd', xn, #imm`. */
  function Adrp(d: nat): Word { SetField(SetField(SetField(Zero(), 31, 31, 1), 28, 24, 16), 4, 0, d) }

  function Add(d: nat, n: nat, imm: nat): Word {
    SetField(SetField(SetField(SetField(Zero(), 31, 22, 0x244), 21, 10, imm), 9, 5, n), 4, 0, d)
  }

  lemma AdrpFields(d: nat)
    requires d < 32
    ensures IsAdrp(Adrp(d)) && Extract(Adrp(d), 4, 0) == d
  {
    assert Pow2(1) == 2 && Pow2(5) == 32;
    var w1 := SetField(Zero(), 31, 31, 1);
    var w2 := SetField(w1, 28, 24, 16);
    SetExtract(Zero(), 31, 31, 1);
    SetExtractOther(w1, 28, 24, 16, 31, 31);
    SetExtract(w1, 28, 24, 16);
    SetExtractOther(w2, 4, 0, d, 31, 31);
    SetExtractOther(w2, 4, 0, d, 28, 24);
    SetExtract(w2, 4, 0, d);
  }

  lemma AddFields(d: nat, n: nat, imm: nat)
    requires d < 32 && n < 32 && imm < 0x1000
    ensures var w := Add(d, n, imm);
            Extract(w, 31, 22) == 0x244 && Extract(w, 21, 10) == imm && Extract(w, 9, 5) == n && Extract(w, 4, 0) == d
  {
    assert Pow2(5) == 32 && Pow2(10) == 0x400 && Pow2(12) == 0x1000;
    var w1 := SetField(Zero(), 31, 22, 0x244);
    var w2 := SetField(w1, 21, 10, imm);
    var w3 := SetField(w2, 9, 5, n);
    SetExtract(Zero(), 31, 22, 0x244);
    SetExtractOther(w1, 21, 10, imm, 31, 22);
    SetExtractOther(w2, 9, 5, n, 31, 22);
    SetExtractOther(w3, 4, 0, d, 31, 22);
    SetExtract(w1, 21, 10, imm);
    SetExtractOther(w2, 9, 5, n, 21, 10);
    SetExtractOther(w3, 4, 0, d, 21, 10);
    SetExtract(w2, 9, 5, n);
    SetExtractOther(w3, 4, 0, d, 9, 5);
    SetExtract(w3, 4, 0, d);
  }

  lemma OnePage(w: Word)
    ensures PatchAdrp(w, 1).Some?
  {
    assert Pow2(19) == 2 * Pow2(18);
  }

  lemma AddsOther(w: Word, w2: Word, target: nat, x: nat)
    requires IsAdrp(w) && PageAdd(w, w2) && Extract(w, 4, 0) == 0 && Extract(w2, 9, 5) == 5
    requires PAGE <= target < 2 * PAGE && x < 0x1_0000_0000_0000
    ensures var patch := PatchPair(w, w2, 0, target);
            patch.Some? && Formed(patch.value.0, patch.value.1, 0, x) == Some(x + target % PAGE)
  {
    NotBoth(w2);
    OnePage(w);
    PatchedPage(w, w2, 0, target);
    PatchedAdd(w, w2, 0, target);
    AddIs(x, target % PAGE);
  }

  /** `adrp x0; add x0, x5, #0`, patched for 0x1008: the sum is that of x5 and 8. */
  lemma OtherSource(x: nat)
    requires x < 0x1_0000_0000_0000
    ensures var patch := PatchPair(Adrp(0), Add(0, 5, 0), 0, 0x1008);
            patch.Some? && Formed(patch.value.0, patch.value.1, 0, x) == Some(x + 8)
  {
    AdrpFields(0);
    AddFields(0, 5, 0);
    AddsOther(Adrp(0), Add(0, 5, 0), 0x1008, x);
  }

  lemma AddLeft(w: Word, w2: Word)
    requires IsAdrp(w) && Extract(w2, 31, 22) == 0x244 && Extract(w2, 21, 10) == 8
    requires Extract(w, 4, 0) == Extract(w2, 9, 5) == 1 && Extract(w2, 4, 0) == 2
    ensures var patch := PatchPair(w, w2, 0, PAGE);
            patch.Some? && Formed(patch.value.0, patch.value.1, 0, 0) == Some(PAGE + 8)
  {
    NotBoth(w2);
    OnePage(w);
    PatchedPage(w, w2, 0, PAGE);
    AddUse(w2);
    AddIs(PAGE, 8);
  }

  /** `adrp x1; add x2, x1, #8`, patched for 0x1000: the add is left alone and gives 0x1008. */
  lemma OffsetLeft()
    ensures var patch := PatchPair(Adrp(1), Add(2, 1, 8), 0, 0x1000);
            patch.Some? && Formed(patch.value.0, patch.value.1, 0, 0) == Some(0x1008)
  {
    AdrpFields(1);
    AddFields(2, 1, 8);
    AddLeft(Adrp(1), Add(2, 1, 8));
  }
}
