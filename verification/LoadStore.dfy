/** `ld_st2` with `Address::encode`: which accesses encode, and that the word decodes to the access asked for. */
module LoadStore {
  import opened Words
  import opened InsnBits
  import opened InsnBuilder
  import Branches

  /** An index extension: the option field and the shift; a negative shift means none was written. */
  datatype Ext = Ext(option: nat, shift: int)

  datatype Address =
    | BaseOffset(base: nat, offset: int)
    | BaseReg(base: nat, index: nat, ext: Ext)
    | Pre(base: nat, offset: int)
    | Post(base: nat, offset: int)
    | Literal(distance: int)

  /** The transfer: vector register or not, size field, op field, register. */
  datatype Access = Access(v: nat, size: nat, op: nat, rt: nat) {
    predicate Valid() { v <= 1 && size < 4 && op < 4 }

    /** log2 of the bytes transferred; the vector forms with op bit 1 set move 128 bits. */
    function LogBytes(): nat { if v == 1 && op >= 2 then 4 else size }
  }

  function Scale(log: nat): (s: nat)
    ensures s > 0
  {
    if log == 0 then 1 else if log == 1 then 2 else if log == 2 then 4 else if log == 3 then 8 else 16
  }

  predicate Unscaled(offset: int, log: nat) { offset < 0 || offset % Scale(log) != 0 }

  /** `offset_ok_for_immed`. */
  predicate OffsetOk(offset: int, log: nat) {
    if Unscaled(offset, log) then -256 < offset < 256 else offset / Scale(log) < 0x1000
  }

  // ---------- the field lists ----------

  function Imm9(a: Access, base: nat, index: nat, offset: int): seq<Field> {
    [U(a.v, 26, 26), Zrf(a.rt, 0), U(a.size, 31, 30), U(a.op, 23, 22), U(7, 29, 27), Srf(base, 5),
     U(0, 25, 24), U(0, 21, 21), U(index, 11, 10), S(offset, 20, 12)]
  }

  function Imm12(a: Access, base: nat, scaled: int): seq<Field> {
    [U(a.v, 26, 26), Zrf(a.rt, 0), U(a.size, 31, 30), U(a.op, 23, 22), U(7, 29, 27), Srf(base, 5),
     U(1, 25, 24), U(scaled, 21, 10)]
  }

  function Indexed(a: Access, base: nat, index: nat, option: nat, s: nat): seq<Field> {
    [U(a.v, 26, 26), Zrf(a.rt, 0), U(a.size, 31, 30), U(a.op, 23, 22), U(7, 29, 27), Srf(base, 5),
     U(0, 25, 24), U(1, 21, 21), Rf(index, 16), U(option, 15, 13), U(s, 12, 12), U(2, 11, 10)]
  }

  function ShiftBit(a: Access, e: Ext): nat {
    if a.LogBytes() == 0 then (if e.shift >= 0 then 1 else 0) else if e.shift > 0 then 1 else 0
  }

  function Fields(a: Access, adr: Address): seq<Field> {
    match adr
    case BaseOffset(base, offset) =>
      if Unscaled(offset, a.LogBytes()) then Imm9(a, base, 0, offset)
      else Imm12(a, base, offset / Scale(a.LogBytes()))
    case BaseReg(base, index, ext) => Indexed(a, base, index, ext.option, ShiftBit(a, ext))
    case Pre(base, offset) => Imm9(a, base, 3, offset)
    case Post(base, offset) => Imm9(a, base, 1, offset)
    case Literal(distance) => Branches.Fields(Branches.Literal(a.v, a.size, a.rt), distance)
  }

  // ---------- when they encode ----------

  predicate RtOk(rt: nat) { rt <= 31 || rt == ZR }
  predicate BaseOk(base: nat) { base <= 31 || base == SP }

  lemma Widths()
    ensures Pow2(1) == 2 && Pow2(2) == 4 && Pow2(3) == 8 && Pow2(5) == 0x20
    ensures Pow2(8) == 0x100 && Pow2(9) == 0x200 && Pow2(12) == 0x1000
  {
  }

  lemma Imm9Good(a: Access, base: nat, index: nat, offset: int)
    requires a.Valid() && a.rt < UINT32 && base < UINT32 && index < 4
    ensures Good(Imm9(a, base, index, offset)) <==> RtOk(a.rt) && BaseOk(base) && -256 <= offset < 256
  {
    Widths();
    var fs := Imm9(a, base, index, offset);
    assert fs[0].Fits() && fs[2].Fits() && fs[3].Fits() && fs[4].Fits() && fs[6].Fits() && fs[7].Fits() && fs[8].Fits();
    assert fs[1].Fits() && fs[5].Fits() <==> RtOk(a.rt) && BaseOk(base);
    assert fs[9].Fits() <==> -256 <= offset < 256;
  }

  lemma Imm12Good(a: Access, base: nat, scaled: int)
    requires a.Valid() && a.rt < UINT32 && base < UINT32
    ensures Good(Imm12(a, base, scaled)) <==> RtOk(a.rt) && BaseOk(base) && scaled % UINT32 < 0x1000
  {
    Widths();
    var fs := Imm12(a, base, scaled);
    assert fs[0].Fits() && fs[2].Fits() && fs[3].Fits() && fs[4].Fits() && fs[6].Fits();
    assert fs[1].Fits() && fs[5].Fits() <==> RtOk(a.rt) && BaseOk(base);
    assert fs[7].Fits() <==> scaled % UINT32 < 0x1000;
  }

  lemma IndexedGood(a: Access, base: nat, index: nat, option: nat, s: nat)
    requires a.Valid() && a.rt < UINT32 && base < UINT32 && index < UINT32 && option < 8 && s <= 1
    ensures Good(Indexed(a, base, index, option, s)) <==> RtOk(a.rt) && BaseOk(base) && index <= 31
  {
    Widths();
    var fs := Indexed(a, base, index, option, s);
    assert fs[0].Fits() && fs[2].Fits() && fs[3].Fits() && fs[4].Fits() && fs[6].Fits() && fs[7].Fits();
    assert fs[9].Fits() && fs[10].Fits() && fs[11].Fits();
    assert fs[1].Fits() && fs[5].Fits() && fs[8].Fits() <==> RtOk(a.rt) && BaseOk(base) && index <= 31;
  }

  // ---------- what they decode to ----------

  datatype Operand =
    | Offset(base: nat, offset: int)
    | Register(base: nat, index: nat, option: nat, amount: int)
    | PreIndex(base: nat, offset: int)
    | PostIndex(base: nat, offset: int)
    | PcRelative(distance: int)
    | Unallocated

  predicate IsLiteral(w: Word) { Extract(w, 29, 27) == 3 && Extract(w, 25, 24) == 0 }

  /** "Load register (literal)" has no op field and only the two load sizes modelled here. */
  function DecodeAccess(w: Word): Access {
    if IsLiteral(w) then Access(Extract(w, 26, 26), 2 + Extract(w, 31, 30), 1, Extract(w, 4, 0))
    else Access(Extract(w, 26, 26), Extract(w, 31, 30), Extract(w, 23, 22), Extract(w, 4, 0))
  }

  /** General-register accesses with op 3 exist for bytes and halfwords only, 128-bit vector forms with size 0 only. */
  predicate Allocated(a: Access) { !(a.v == 0 && a.size >= 2 && a.op == 3) && (a.v == 1 && a.op >= 2 ==> a.size == 0) }

  /** Prefetch takes the place of a 64-bit signed load and has no writeback forms. */
  predicate IsPrefetch(a: Access) { a.v == 0 && a.size == 3 && a.op == 2 }

  /** Only 32-bit and 64-bit index registers can be extended: bit 1 of the option is set. */
  predicate OptionAllocated(option: nat) { option % 4 >= 2 }

  /** "Loads and stores" of Arm DDI 0487 chapter C4: unsigned immediate, the 9-bit forms, register offset. */
  function DecodeOperand(w: Word): Operand {
    var a, base := DecodeAccess(w), Named(Extract(w, 9, 5), SP);
    if IsLiteral(w) then
      if Extract(w, 31, 30) < 2 then PcRelative(4 * SExtract(w, 23, 5)) else Unallocated
    else if Extract(w, 29, 27) != 7 || !Allocated(a) then Unallocated
    else if Extract(w, 25, 24) == 1 then Offset(base, Extract(w, 21, 10) * Scale(a.LogBytes()))
    else if Extract(w, 25, 24) != 0 then Unallocated
    else if Extract(w, 21, 21) == 0 then
      var kind, imm := Extract(w, 11, 10), SExtract(w, 20, 12);
      if kind == 0 then Offset(base, imm)
      else if IsPrefetch(a) then Unallocated
      else if kind == 1 then PostIndex(base, imm) else if kind == 3 then PreIndex(base, imm) else Unallocated
    else if Extract(w, 11, 10) != 2 || !OptionAllocated(Extract(w, 15, 13)) then Unallocated
    else Register(base, Extract(w, 20, 16), Extract(w, 15, 13), if Extract(w, 12, 12) == 1 then a.LogBytes() else 0)
  }

  /** The access and operand the caller asked for; number 31 stands for zr as a data register. */
  function Wanted(a: Access): Access { a.(rt := if a.rt == ZR then 31 else a.rt) }

  function Means(adr: Address): Operand {
    match adr
    case BaseOffset(base, offset) => Offset(Named(base, SP), offset)
    case BaseReg(base, index, ext) =>
      Register(Named(base, SP), index, ext.option, if ext.shift > 0 then ext.shift else 0)
    case Pre(base, offset) => PreIndex(Named(base, SP), offset)
    case Post(base, offset) => PostIndex(Named(base, SP), offset)
    case Literal(distance) => PcRelative(distance)
  }

  lemma HeadReads(w: Word, fs: seq<Field>, a: Access, base: nat)
    requires a.Valid() && RtOk(a.rt) && BaseOk(base) && AllRead(fs, w) && |fs| >= 6
    requires fs[..6] == Imm12(a, base, 0)[..6]
    ensures DecodeAccess(w) == Wanted(a) && Named(Extract(w, 9, 5), SP) == Named(base, SP)
    ensures Extract(w, 29, 27) == 7 && !IsLiteral(w)
  {
    assert forall i :: 0 <= i < 6 ==> fs[i] == fs[..6][i];
    ReadAt(fs, 0, w);
    ReadAt(fs, 1, w);
    ReadAt(fs, 2, w);
    ReadAt(fs, 3, w);
    ReadAt(fs, 4, w);
    ReadAt(fs, 5, w);
  }

  /** What the 9-bit forms stand for. */
  function Imm9Operand(a: Access, base: nat, index: nat, offset: int): Operand {
    if !Allocated(a) || (IsPrefetch(a) && index != 0) then Unallocated
    else if index == 0 then Offset(base, offset) else if index == 1 then PostIndex(base, offset) else PreIndex(base, offset)
  }

  lemma Imm9Decodes(w: Word, a: Access, base: nat, index: nat, offset: int)
    requires a.Valid() && RtOk(a.rt) && BaseOk(base) && index in {0, 1, 3}
    requires AllRead(Imm9(a, base, index, offset), w)
    ensures DecodeAccess(w) == Wanted(a)
    ensures DecodeOperand(w) == Imm9Operand(a, Named(base, SP), index, offset)
  {
    var fs := Imm9(a, base, index, offset);
    HeadReads(w, fs, a, base);
    ReadAt(fs, 6, w);
    ReadAt(fs, 7, w);
    ReadAt(fs, 8, w);
    assert fs[9].ReadsBack(w);
  }

  lemma Imm12Decodes(w: Word, a: Access, base: nat, scaled: int)
    requires a.Valid() && RtOk(a.rt) && BaseOk(base) && AllRead(Imm12(a, base, scaled), w)
    ensures DecodeAccess(w) == Wanted(a)
    ensures DecodeOperand(w) == if Allocated(a) then Offset(Named(base, SP), scaled % UINT32 * Scale(a.LogBytes())) else Unallocated
  {
    var fs := Imm12(a, base, scaled);
    HeadReads(w, fs, a, base);
    ReadAt(fs, 6, w);
    assert fs[7].ReadsBack(w);
  }

  /** What the register-offset form stands for. */
  function IndexedOperand(a: Access, base: nat, index: nat, option: nat, s: nat): Operand {
    if !Allocated(a) || !OptionAllocated(option) then Unallocated
    else Register(base, index, option, if s == 1 then a.LogBytes() else 0)
  }

  lemma IndexedDecodes(w: Word, a: Access, base: nat, index: nat, option: nat, s: nat)
    requires a.Valid() && RtOk(a.rt) && BaseOk(base) && index <= 31 && option < 8 && s <= 1
    requires AllRead(Indexed(a, base, index, option, s), w)
    ensures DecodeAccess(w) == Wanted(a)
    ensures DecodeOperand(w) == IndexedOperand(a, Named(base, SP), index, option, s)
  {
    var fs := Indexed(a, base, index, option, s);
    HeadReads(w, fs, a, base);
    ReadAt(fs, 6, w);
    ReadAt(fs, 7, w);
    ReadAt(fs, 8, w);
    ReadAt(fs, 9, w);
    ReadAt(fs, 10, w);
    ReadAt(fs, 11, w);
  }

  // ---------- the main result ----------

  /** Every check passes, all 32 bits are written once, and the decoder finds the access asked for. */
  predicate Faithful(a: Access, adr: Address, b: Build) {
    !b.failed && b.bits == AllBits() && DecodeAccess(b.insn) == Wanted(a) && DecodeOperand(b.insn) == Means(adr)
  }

  /** What the caller can check beforehand: registers, ranges, and that the architecture has the combination. */
  predicate Accepted(a: Access, adr: Address) {
    && RtOk(a.rt) && (!adr.Literal? ==> BaseOk(adr.base) && Allocated(a))
    && match adr
       case BaseOffset(_, offset) => OffsetOk(offset, a.LogBytes()) || offset == -256
       case BaseReg(_, index, ext) =>
         index <= 31 && OptionAllocated(ext.option) && (ext.shift <= 0 || ext.shift == a.LogBytes())
       case Pre(_, offset) => -256 <= offset < 256 && !IsPrefetch(a)
       case Post(_, offset) => -256 <= offset < 256 && !IsPrefetch(a)
       case Literal(distance) => a.size >= 2 && a.op == 1 && distance % 4 == 0 && FitsSigned(distance / 4, 19)
  }

  predicate Encodable(adr: Address) {
    (!adr.Literal? ==> adr.base < UINT32) && (adr.BaseReg? ==> adr.index < UINT32 && adr.ext.option < 8)
  }

  lemma Imm9Complete(a: Access, base: nat, index: nat, offset: int)
    ensures Complete(Imm9(a, base, index, offset))
  {
    var fs := Imm9(a, base, index, offset);
    forall p: nat | Below(p) ensures Covered(fs, p) {
      assert fs[0].Covers(p) || fs[1].Covers(p) || fs[2].Covers(p) || fs[3].Covers(p) || fs[4].Covers(p)
             || fs[5].Covers(p) || fs[6].Covers(p) || fs[7].Covers(p) || fs[8].Covers(p) || fs[9].Covers(p);
    }
  }

  lemma Imm12Complete(a: Access, base: nat, scaled: int)
    ensures Complete(Imm12(a, base, scaled))
  {
    var fs := Imm12(a, base, scaled);
    forall p: nat | Below(p) ensures Covered(fs, p) {
      assert fs[0].Covers(p) || fs[1].Covers(p) || fs[2].Covers(p) || fs[3].Covers(p) || fs[4].Covers(p)
             || fs[5].Covers(p) || fs[6].Covers(p) || fs[7].Covers(p);
    }
  }

  lemma IndexedComplete(a: Access, base: nat, index: nat, option: nat, s: nat)
    ensures Complete(Indexed(a, base, index, option, s))
  {
    var fs := Indexed(a, base, index, option, s);
    forall p: nat | Below(p) ensures Covered(fs, p) {
      assert fs[0].Covers(p) || fs[1].Covers(p) || fs[2].Covers(p) || fs[3].Covers(p) || fs[4].Covers(p)
             || fs[5].Covers(p) || fs[6].Covers(p) || fs[7].Covers(p) || fs[8].Covers(p) || fs[9].Covers(p)
             || fs[10].Covers(p) || fs[11].Covers(p);
    }
  }

  lemma Imm9Word(a: Access, base: nat, index: nat, offset: int) returns (b: Build)
    requires a.Valid() && a.rt < UINT32 && base < UINT32 && index in {0, 1, 3}
    ensures b == BuildAll(Imm9(a, base, index, offset))
    ensures b.failed <==> !(RtOk(a.rt) && BaseOk(base) && -256 <= offset < 256)
    ensures !b.failed ==> b.bits == AllBits() && DecodeAccess(b.insn) == Wanted(a)
    ensures !b.failed ==> DecodeOperand(b.insn) == Imm9Operand(a, Named(base, SP), index, offset)
  {
    var fs := Imm9(a, base, index, offset);
    b := BuildAll(fs);
    Builds(fs);
    Imm9Good(a, base, index, offset);
    if !b.failed {
      Imm9Complete(a, base, index, offset);
      CompleteFills(fs);
      FieldsReadBack(fs);
      Imm9Decodes(b.insn, a, base, index, offset);
    }
  }

  lemma Imm12Word(a: Access, base: nat, scaled: int) returns (b: Build)
    requires a.Valid() && a.rt < UINT32 && base < UINT32
    ensures b == BuildAll(Imm12(a, base, scaled))
    ensures b.failed <==> !(RtOk(a.rt) && BaseOk(base) && scaled % UINT32 < 0x1000)
    ensures !b.failed ==> b.bits == AllBits() && DecodeAccess(b.insn) == Wanted(a)
    ensures !b.failed ==>
              DecodeOperand(b.insn) == if Allocated(a) then Offset(Named(base, SP), scaled % UINT32 * Scale(a.LogBytes())) else Unallocated
  {
    var fs := Imm12(a, base, scaled);
    b := BuildAll(fs);
    Builds(fs);
    Imm12Good(a, base, scaled);
    if !b.failed {
      Imm12Complete(a, base, scaled);
      CompleteFills(fs);
      FieldsReadBack(fs);
      Imm12Decodes(b.insn, a, base, scaled);
    }
  }

  lemma IndexedWord(a: Access, base: nat, index: nat, option: nat, s: nat) returns (b: Build)
    requires a.Valid() && a.rt < UINT32 && base < UINT32 && index < UINT32 && option < 8 && s <= 1
    ensures b == BuildAll(Indexed(a, base, index, option, s))
    ensures b.failed <==> !(RtOk(a.rt) && BaseOk(base) && index <= 31)
    ensures !b.failed ==> b.bits == AllBits() && DecodeAccess(b.insn) == Wanted(a)
    ensures !b.failed ==> DecodeOperand(b.insn) == IndexedOperand(a, Named(base, SP), index, option, s)
  {
    var fs := Indexed(a, base, index, option, s);
    b := BuildAll(fs);
    Builds(fs);
    IndexedGood(a, base, index, option, s);
    if !b.failed {
      IndexedComplete(a, base, index, option, s);
      CompleteFills(fs);
      FieldsReadBack(fs);
      IndexedDecodes(b.insn, a, base, index, option, s);
    }
  }

  /** The unsigned field drops high bits of the scaled offset; what survives is right exactly when nothing was dropped. */
  lemma ScaledExact(offset: int, log: nat)
    requires log <= 4 && !Unscaled(offset, log)
    ensures var k := offset / Scale(log);
            k % UINT32 < 0x1000 && k % UINT32 * Scale(log) == offset <==> k < 0x1000
  {
  }

  lemma LiteralGood(a: Access, distance: int)
    requires a.Valid() && a.rt < UINT32
    ensures Good(Fields(a, Literal(distance))) <==> RtOk(a.rt) && FitsSigned(distance / 4, 19)
  {
    Widths();
    var fs := Fields(a, Literal(distance));
    assert fs[0].Fits() && fs[2].Fits() && fs[3].Fits() && fs[4].Fits();
    assert fs[1].Fits() <==> RtOk(a.rt);
    assert fs[5].Fits() <==> FitsSigned(distance / 4, 19);
  }

  lemma LiteralComplete(a: Access, distance: int)
    ensures Complete(Fields(a, Literal(distance)))
  {
    var fs := Fields(a, Literal(distance));
    forall p: nat | Below(p) ensures Covered(fs, p) {
      assert fs[0].Covers(p) || fs[1].Covers(p) || fs[2].Covers(p) || fs[3].Covers(p) || fs[4].Covers(p) || fs[5].Covers(p);
    }
  }

  lemma LiteralDecodes(w: Word, a: Access, distance: int)
    requires a.Valid() && RtOk(a.rt) && AllRead(Fields(a, Literal(distance)), w)
    ensures DecodeAccess(w) == Wanted(a.(size := 2 + a.size % 2, op := 1))
    ensures DecodeOperand(w) == PcRelative(distance / 4 * 4)
  {
    var fs := Fields(a, Literal(distance));
    ReadAt(fs, 0, w);
    ReadAt(fs, 1, w);
    ReadAt(fs, 2, w);
    ReadAt(fs, 3, w);
    ReadAt(fs, 4, w);
    assert fs[5].ReadsBack(w);
  }

  lemma LiteralWord(a: Access, distance: int) returns (b: Build)
    requires a.Valid() && a.rt < UINT32
    ensures b == BuildAll(Fields(a, Literal(distance)))
    ensures b.failed <==> !(RtOk(a.rt) && FitsSigned(distance / 4, 19))
    ensures !b.failed ==> b.bits == AllBits() && DecodeAccess(b.insn) == Wanted(a.(size := 2 + a.size % 2, op := 1))
    ensures !b.failed ==> DecodeOperand(b.insn) == PcRelative(distance / 4 * 4)
  {
    var fs := Fields(a, Literal(distance));
    b := BuildAll(fs);
    Builds(fs);
    LiteralGood(a, distance);
    if !b.failed {
      LiteralComplete(a, distance);
      CompleteFills(fs);
      FieldsReadBack(fs);
      LiteralDecodes(b.insn, a, distance);
    }
  }

  lemma OffsetExactly(a: Access, base: nat, offset: int)
    requires a.Valid() && a.rt < UINT32 && base < UINT32
    ensures var adr := BaseOffset(base, offset); Faithful(a, adr, BuildAll(Fields(a, adr))) <==> Accepted(a, adr)
  {
    if Unscaled(offset, a.LogBytes()) {
      var b := Imm9Word(a, base, 0, offset);
    } else {
      var b := Imm12Word(a, base, offset / Scale(a.LogBytes()));
      ScaledExact(offset, a.LogBytes());
    }
  }

  lemma IndexExactly(a: Access, base: nat, index: nat, ext: Ext)
    requires a.Valid() && a.rt < UINT32 && base < UINT32 && index < UINT32 && ext.option < 8
    ensures var adr := BaseReg(base, index, ext); Faithful(a, adr, BuildAll(Fields(a, adr))) <==> Accepted(a, adr)
  {
    var b := IndexedWord(a, base, index, ext.option, ShiftBit(a, ext));
  }

  lemma WritebackExactly(a: Access, adr: Address)
    requires a.Valid() && a.rt < UINT32 && (adr.Pre? || adr.Post?) && adr.base < UINT32
    ensures Faithful(a, adr, BuildAll(Fields(a, adr))) <==> Accepted(a, adr)
  {
    var b := Imm9Word(a, adr.base, if adr.Pre? then 3 else 1, adr.offset);
  }

  lemma LiteralExactly(a: Access, distance: int)
    requires a.Valid() && a.rt < UINT32
    ensures var adr := Literal(distance); Faithful(a, adr, BuildAll(Fields(a, adr))) <==> Accepted(a, adr)
  {
    var b := LiteralWord(a, distance);
    LiteralFaithful(a, distance, b);
  }

  lemma LiteralFaithful(a: Access, distance: int, b: Build)
    requires a.Valid() && (b.failed <==> !(RtOk(a.rt) && FitsSigned(distance / 4, 19)))
    requires !b.failed ==> b.bits == AllBits() && DecodeAccess(b.insn) == Wanted(a.(size := 2 + a.size % 2, op := 1))
    requires !b.failed ==> DecodeOperand(b.insn) == PcRelative(distance / 4 * 4)
    ensures Faithful(a, Literal(distance), b) <==> Accepted(a, Literal(distance))
  {
  }

  /** An access is encoded faithfully exactly when it is acceptable, in all five addressing modes. */
  lemma EncodesExactly(a: Access, adr: Address)
    requires a.Valid() && a.rt < UINT32 && Encodable(adr)
    ensures Faithful(a, adr, BuildAll(Fields(a, adr))) <==> Accepted(a, adr)
  {
    match adr
    case BaseOffset(base, offset) => OffsetExactly(a, base, offset);
    case BaseReg(base, index, ext) => IndexExactly(a, base, index, ext);
    case Pre(_, _) => WritebackExactly(a, adr);
    case Post(_, _) => WritebackExactly(a, adr);
    case Literal(distance) => LiteralExactly(a, distance);
  }

  /** A combination the architecture does not have passes every check all the same. */
  lemma UnallocatedEncodes(a: Access, adr: Address)
    requires a.Valid() && RtOk(a.rt) && Encodable(adr) && !adr.Literal? && BaseOk(adr.base)
    requires match adr
             case BaseOffset(_, offset) => OffsetOk(offset, a.LogBytes()) && !Allocated(a)
             case BaseReg(_, index, ext) => index <= 31 && (!Allocated(a) || !OptionAllocated(ext.option))
             case Pre(_, offset) => -256 <= offset < 256 && (!Allocated(a) || IsPrefetch(a))
             case Post(_, offset) => -256 <= offset < 256 && (!Allocated(a) || IsPrefetch(a))
    ensures var b := BuildAll(Fields(a, adr)); !b.failed && b.bits == AllBits() && DecodeOperand(b.insn) == Unallocated
  {
    match adr
    case BaseOffset(base, offset) =>
      if Unscaled(offset, a.LogBytes()) {
        var b := Imm9Word(a, base, 0, offset);
      } else {
        var b := Imm12Word(a, base, offset / Scale(a.LogBytes()));
        ScaledExact(offset, a.LogBytes());
      }
    case BaseReg(base, index, ext) =>
      var b := IndexedWord(a, base, index, ext.option, ShiftBit(a, ext));
    case Pre(base, offset) =>
      var b := Imm9Word(a, base, 3, offset);
    case Post(base, offset) =>
      var b := Imm9Word(a, base, 1, offset);
  }

  /** The writeback prefetch the emitter lets through: `prfm` of PLDL1KEEP with a pre-indexed r0. */
  lemma PrefetchWriteback()
    ensures var b := BuildAll(Fields(Access(0, 3, 2, 0), Pre(0, 8))); !b.failed && DecodeOperand(b.insn) == Unallocated
  {
    UnallocatedEncodes(Access(0, 3, 2, 0), Pre(0, 8));
  }

  /** A byte access with a written shift passes every check, but the shift is lost: the decoded amount is zero. */
  lemma ByteShiftIsLost(a: Access, base: nat, index: nat, ext: Ext)
    requires a.Valid() && a.LogBytes() == 0 && RtOk(a.rt) && BaseOk(base) && index <= 31 && ext.shift > 0
    requires ext.option < 8 && OptionAllocated(ext.option)
    ensures var b := BuildAll(Fields(a, BaseReg(base, index, ext)));
            !b.failed && DecodeOperand(b.insn) == Register(Named(base, SP), index, ext.option, 0)
  {
    var b := IndexedWord(a, base, index, ext.option, ShiftBit(a, ext));
  }

  // ---------- the emitter ----------

  /** The assertions of `ld_st2` and `encode`. */
  predicate Asserted(a: Access, adr: Address) {
    match adr
    case BaseOffset(_, _) => a.v == 1 && a.op >= 2 ==> a.size == 0
    case BaseReg(_, _, ext) =>
      (a.v == 1 && a.op >= 2 ==> a.size == 0) && (a.LogBytes() != 0 && ext.shift > 0 ==> ext.shift == a.LogBytes())
    case Pre(_, _) => true
    case Post(_, _) => true
    case Literal(_) => 2 <= a.size <= 3 && a.op == 1
  }

  /** What goes wrong without an assertion: combinations the architecture lacks, a lost byte shift, an offset of 2^32
      units or more, and a literal that is not whole words away. */
  predicate Unreported(a: Access, adr: Address) {
    var general, quad := a.v == 0 && a.size >= 2 && a.op == 3, a.v == 1 && a.op >= 2 && a.size != 0;
    match adr
    case BaseOffset(_, offset) =>
      !quad && (general || (!Unscaled(offset, a.LogBytes()) && offset / Scale(a.LogBytes()) >= 0x1_0000_0000))
    case BaseReg(_, _, ext) =>
      && !quad && (ext.shift <= 0 || a.LogBytes() == 0 || ext.shift == a.LogBytes())
      && (general || ext.option % 4 < 2 || (a.LogBytes() == 0 && ext.shift > 0))
    case Pre(_, _) => general || quad || IsPrefetch(a)
    case Post(_, _) => general || quad || IsPrefetch(a)
    case Literal(distance) => a.size >= 2 && a.op == 1 && distance % 4 != 0
  }

  /** Every access whose fields pass the checks is encoded faithfully, trips an assertion, or goes wrong unreported, and
      only one of these. */
  lemma EveryAccess(a: Access, adr: Address)
    requires a.Valid() && a.rt < UINT32 && Encodable(adr) && !BuildAll(Fields(a, adr)).failed
    ensures OneOf(Faithful(a, adr, BuildAll(Fields(a, adr))), !Asserted(a, adr), Unreported(a, adr))
  {
    EncodesExactly(a, adr);
    FieldsPass(a, adr);
    AcceptedOrNot(a, adr);
  }

  predicate OneOf(p: bool, q: bool, r: bool) { (p || q || r) && !(p && q) && !(p && r) && !(q && r) }

  /** What the field checks leave of the conditions for acceptance. */
  predicate Passing(a: Access, adr: Address) {
    && RtOk(a.rt) && (!adr.Literal? ==> BaseOk(adr.base))
    && match adr
       case BaseOffset(_, offset) =>
         if Unscaled(offset, a.LogBytes()) then -256 <= offset < 256
         else offset / Scale(a.LogBytes()) < 0x1000 || offset / Scale(a.LogBytes()) >= 0x1_0000_0000
       case BaseReg(_, index, _) => index <= 31
       case Pre(_, offset) => -256 <= offset < 256
       case Post(_, offset) => -256 <= offset < 256
       case Literal(distance) => FitsSigned(distance / 4, 19)
  }

  lemma AcceptedOrNot(a: Access, adr: Address)
    requires a.Valid() && Encodable(adr) && Passing(a, adr)
    ensures OneOf(Accepted(a, adr), !Asserted(a, adr), Unreported(a, adr))
  {
  }

  lemma FieldsPass(a: Access, adr: Address)
    requires a.Valid() && a.rt < UINT32 && Encodable(adr) && !BuildAll(Fields(a, adr)).failed
    ensures Passing(a, adr)
  {
    match adr
    case BaseOffset(base, offset) => OffsetPasses(a, base, offset);
    case BaseReg(base, index, ext) =>
      var b := IndexedWord(a, base, index, ext.option, ShiftBit(a, ext));
    case Pre(base, offset) =>
      var b := Imm9Word(a, base, 3, offset);
    case Post(base, offset) =>
      var b := Imm9Word(a, base, 1, offset);
    case Literal(distance) =>
      var b := LiteralWord(a, distance);
  }

  /** A scaled offset passes when its low 32 bits fit. */
  lemma OffsetPasses(a: Access, base: nat, offset: int)
    requires a.Valid() && a.rt < UINT32 && base < UINT32 && !BuildAll(Fields(a, BaseOffset(base, offset))).failed
    ensures RtOk(a.rt) && BaseOk(base)
    ensures if Unscaled(offset, a.LogBytes()) then -256 <= offset < 256
            else var k := offset / Scale(a.LogBytes()); k < 0x1000 || k >= 0x1_0000_0000
  {
    if Unscaled(offset, a.LogBytes()) {
      var b := Imm9Word(a, base, 0, offset);
    } else {
      var b := Imm12Word(a, base, offset / Scale(a.LogBytes()));
      LowBits(offset / Scale(a.LogBytes()));
    }
  }

  lemma LowBits(k: int)
    requires k % UINT32 < 0x1000 && k >= 0
    ensures k < 0x1000 || k >= 0x1_0000_0000
  {
  }

  /** `ld_st2` for all modes. `encode` reads the size back from the half-built word (see `SizeReadBack`). `ok` is
      false when an assertion fails, which no acceptable access brings about. */
  method LdSt2(i: Instruction, a: Access, adr: Address) returns (ok: bool)
    requires i.Valid() && i.calls == []
    modifies i
    ensures i.Valid() && i.calls == Fields(a, adr)
    ensures ok <==> Asserted(a, adr)
    ensures a.Valid() && Accepted(a, adr) ==> ok
  {
    match adr
    case BaseOffset(base, offset) =>
      EmitHead(i, a, base);
      ok := !(a.v == 1 && a.op >= 2) || a.size == 0;
      if offset < 0 || offset % Scale(a.LogBytes()) != 0 {
        EmitImm9(i, a, base, 0, offset);
      } else {
        i.F(1, 25, 24);
        i.F(offset / Scale(a.LogBytes()), 21, 10);
      }
    case BaseReg(base, index, ext) =>
      EmitHead(i, a, base);
      ok := !(a.v == 1 && a.op >= 2) || a.size == 0;
      ok := ok && (a.LogBytes() == 0 || ext.shift <= 0 || ext.shift == a.LogBytes());
      EmitIndex(i, a, base, index, ext);
    case Pre(base, offset) =>
      EmitHead(i, a, base);
      EmitImm9(i, a, base, 3, offset);
      ok := true;
    case Post(base, offset) =>
      EmitHead(i, a, base);
      EmitImm9(i, a, base, 1, offset);
      ok := true;
    case Literal(distance) =>
      ok := (a.size == 2 || a.size == 3) && a.op == 1;
      EmitLiteral(i, a, distance);
  }

  method EmitLiteral(i: Instruction, a: Access, distance: int)
    requires i.Valid() && i.calls == []
    modifies i
    ensures i.Valid() && i.calls == Fields(a, Literal(distance))
  {
    i.F(a.v, 26, 26);
    i.Write(Zrf(a.rt, 0));
    i.F(a.size % 2, 31, 30);
    i.F(3, 29, 27);
    i.F(0, 25, 24);
    i.Sf(distance / 4, 23, 5);
  }

  function Head(a: Access, base: nat): seq<Field> { Imm12(a, base, 0)[..6] }

  /** What `encode` reads back from the half-built word, whatever follows the head, is the transfer written before. */
  lemma SizeReadBack(a: Access, base: nat, fs: seq<Field>)
    requires a.Valid() && RtOk(a.rt) && BaseOk(base) && Head(a, base) <= fs && Good(fs)
    ensures var w := BuildAll(fs).insn;
            Extract(w, 31, 30) == a.size && Extract(w, 26, 26) == a.v && (Extract(w, 23, 23) == 1 <==> a.op >= 2)
  {
    Builds(fs);
    ShownSize(a, base, fs, BuildAll(fs).insn);
  }

  lemma ShownSize(a: Access, base: nat, fs: seq<Field>, w: Word)
    requires a.Valid() && RtOk(a.rt) && BaseOk(base) && Head(a, base) <= fs && AllShown(fs, w)
    ensures Extract(w, 31, 30) == a.size && Extract(w, 26, 26) == a.v && (Extract(w, 23, 23) == 1 <==> a.op >= 2)
  {
    ShownIsRead(fs, w);
    HeadReads(w, fs, a, base);
    assert fs[3] == Head(a, base)[3] == U(a.op, 23, 22);
    BitAt(fs, 3, w, 23);
    OneBitField(w, 23);
    HighOp(a.op);
  }

  lemma HighOp(op: nat)
    requires op < 4
    ensures BitOf(op, 1) <==> op >= 2
  {
    assert op == 0 || op == 1 || op == 2 || op == 3;
  }

  lemma OneBitField(w: Word, p: nat)
    requires p < 32
    ensures Extract(w, p, p) == if w[p] then 1 else 0
  {
    assert w[p..p + 1] == [w[p]] && [w[p]][1..] == [];
  }

  method EmitHead(i: Instruction, a: Access, base: nat)
    requires i.Valid() && i.calls == []
    modifies i
    ensures i.Valid() && i.calls == Head(a, base)
  {
    i.F(a.v, 26, 26);
    i.Write(Zrf(a.rt, 0));
    i.F(a.size, 31, 30);
    i.F(a.op, 23, 22);
    i.F(7, 29, 27);
    i.Write(Srf(base, 5));
  }

  method EmitImm9(i: Instruction, a: Access, base: nat, index: nat, offset: int)
    requires i.Valid() && i.calls == Head(a, base)
    modifies i
    ensures i.Valid() && i.calls == Imm9(a, base, index, offset)
  {
    i.F(0, 25, 24);
    i.F(0, 21, 21);
    i.F(index, 11, 10);
    i.Sf(offset, 20, 12);
  }

  method EmitIndex(i: Instruction, a: Access, base: nat, index: nat, ext: Ext)
    requires i.Valid() && i.calls == Head(a, base)
    modifies i
    ensures i.Valid() && i.calls == Indexed(a, base, index, ext.option, ShiftBit(a, ext))
  {
    i.F(0, 25, 24);
    i.F(1, 21, 21);
    i.Write(Rf(index, 16));
    EmitExtension(i, i.calls, ext, ShiftBit(a, ext));
  }

  method EmitExtension(i: Instruction, ghost before: seq<Field>, ext: Ext, s: nat)
    requires i.Valid() && i.calls == before
    modifies i
    ensures i.Valid() && i.calls == before + [U(ext.option, 15, 13), U(s, 12, 12), U(2, 11, 10)]
  {
    i.F(ext.option, 15, 13);
    i.F(s, 12, 12);
    i.F(2, 11, 10);
  }
}
