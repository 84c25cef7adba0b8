/** `add_sub_immediate` and the constants it accepts, against the Arm DDI 0487 meaning of the emitted word. */
module AddSubImm {
  import opened Words
  import opened InsnBits
  import opened InsnBuilder

  /** Which of the eight add/sub instructions: register width, subtraction, and whether NZCV is written. */
  datatype Op = Op(wide: bool, sub: bool, setFlags: bool)

  /** The opcode argument of the macro table; the negated opcode is that of the flipped operation. */
  function Code(k: Op): nat { (if k.wide then 4 else 0) + (if k.sub then 2 else 0) + (if k.setFlags then 1 else 0) }

  function Flip(k: Op): Op { k.(sub := !k.sub) }

  /** A 32-bit pattern read as a signed int. */
  function ToInt32(u: int): int {
    var v := u % UINT32;
    if v >= 0x8000_0000 then v - UINT32 else v
  }

  function Abs(x: int): nat { if x < 0 then -x else x }

  /** `operand_valid_for_add_sub_immediate`. */
  predicate OperandValid(c: int) { Abs(c) < 0x1000 || (Abs(c) < 0x100_0000 && Abs(c) % 0x1000 == 0) }

  predicate Shifted(imm: int) { imm >= 0x800 && imm % 0x1000 == 0 }

  /** The magnitude the code works with: negation wraps at the 32-bit minimum. */
  function Magnitude(uimm: int): int { if ToInt32(uimm) < 0 then ToInt32(-ToInt32(uimm)) else ToInt32(uimm) }

  function Layout(op: Op, shift: nat, imm: int, rd: nat, rn: nat): seq<Field> {
    [U(Code(op), 31, 29), U(0x11, 28, 24), U(shift, 23, 22), U(imm, 21, 10),
     if op.setFlags then Zrf(rd, 0) else Srf(rd, 0), Srf(rn, 5)]
  }

  function Fields(k: Op, rd: nat, rn: nat, uimm: int): seq<Field> {
    var imm := Magnitude(uimm);
    Layout(if ToInt32(uimm) < 0 then Flip(k) else k,
           if Shifted(imm) then 1 else 0, if Shifted(imm) then imm / 0x1000 else imm, rd, rn)
  }

  /** The emitter: `ok` is false when the stack-alignment check fails. */
  method Emit(i: Instruction, k: Op, rd: nat, rn: nat, uimm: nat) returns (ok: bool)
    requires i.Valid() && i.calls == []
    modifies i
    ensures i.Valid() && i.calls == Fields(k, rd, rn, uimm)
    ensures ok <==> (rd == SP ==> Magnitude(uimm) % 16 == 0)
  {
    var op, imm, shift := k, ToInt32(uimm), 0;
    if imm < 0 {
      imm := ToInt32(-imm);
      op := Flip(k);
    }
    ok := rd != SP || imm % 16 == 0;
    if imm >= 0x800 && imm / 0x1000 * 0x1000 == imm {
      imm := imm / 0x1000;
      shift := 1;
    }
    EmitFields(i, op, shift, imm, rd, rn);
  }

  method EmitFields(i: Instruction, op: Op, shift: nat, imm: int, rd: nat, rn: nat)
    requires i.Valid() && i.calls == []
    modifies i
    ensures i.Valid() && i.calls == Layout(op, shift, imm, rd, rn)
  {
    i.F(Code(op), 31, 29);
    i.F(0x11, 28, 24);
    i.F(shift, 23, 22);
    i.F(imm, 21, 10);
    i.Write(if op.setFlags then Zrf(rd, 0) else Srf(rd, 0));
    i.Write(Srf(rn, 5));
  }

  /** The operand registers the two fields can name. */
  predicate RegsOk(k: Op, rd: nat, rn: nat) {
    (rd <= 31 || rd == if k.setFlags then ZR else SP) && (rn <= 31 || rn == SP)
  }

  // ---------- the architecture ----------

  datatype Flags = Flags(n: bool, z: bool, c: bool, v: bool)

  function Modulus(wide: bool): nat { if wide then WORD else UINT32 }

  function Signed(x: int, m: nat): int { if x >= m / 2 then x - m else x }

  /** The shared pseudocode function AddWithCarry of Arm DDI 0487, on m == 2^N. */
  function AddWithCarry(x: nat, y: nat, carry: nat, m: nat): (nat, Flags)
    requires x < m && y < m && carry <= 1
  {
    var sum := x + y + carry;
    var r := if sum >= m then sum - m else sum;
    (r, Flags(r >= m / 2, r == 0, sum >= m, Signed(x, m) + Signed(y, m) + carry != Signed(r, m)))
  }

  /** ADD or SUB of a constant operand: SUB adds the complement with carry one. */
  function Arith(k: Op, x: nat, y: nat): (nat, Flags)
    requires x < Modulus(k.wide) && y < Modulus(k.wide)
  {
    var m := Modulus(k.wide);
    if k.sub then AddWithCarry(x, m - 1 - y, 1, m) else AddWithCarry(x, y, 0, m)
  }

  datatype Decoded = Decoded(op: Op, imm: nat, rd: nat, rn: nat)

  /** "Add/subtract (immediate)" of Arm DDI 0487 chapter C4: 31 is ZR for a flag-setting destination, else SP. */
  function Decode(w: Word): Decoded {
    var code, shift := Extract(w, 31, 29), Extract(w, 23, 22);
    var op := Op(code >= 4, code % 4 >= 2, code % 2 == 1);
    var rd, rn := Extract(w, 4, 0), Extract(w, 9, 5);
    Decoded(op, if shift == 1 then Extract(w, 21, 10) * 0x1000 else Extract(w, 21, 10),
            if rd != 31 then rd else if op.setFlags then ZR else SP,
            if rn != 31 then rn else SP)
  }

  predicate IsAddSubImm(w: Word) { Extract(w, 28, 24) == 0x11 && Extract(w, 23, 22) <= 1 }

  // ---------- when it encodes ----------

  lemma FieldWidths()
    ensures Pow2(2) == 4 && Pow2(3) == 8 && Pow2(5) == 0x20 && Pow2(12) == 0x1000
  {
  }

  lemma LayoutGood(op: Op, shift: nat, imm: int, rd: nat, rn: nat)
    requires rd < UINT32 && rn < UINT32 && shift <= 1 && -0x8000_0000 <= imm < 0x8000_0000
    ensures Good(Layout(op, shift, imm, rd, rn)) <==> 0 <= imm < 0x1000 && RegsOk(op, rd, rn)
  {
    FieldWidths();
    var fs := Layout(op, shift, imm, rd, rn);
    assert fs[0].Fits() && fs[1].Fits() && fs[2].Fits();
    assert fs[3].Fits() <==> 0 <= imm < 0x1000;
    assert fs[4].Fits() && fs[5].Fits() <==> RegsOk(op, rd, rn);
  }

  /** For every 32-bit argument the encoding succeeds exactly on the accepted constants and registers. */
  lemma EncodesIffValid(k: Op, rd: nat, rn: nat, uimm: nat)
    requires rd < UINT32 && rn < UINT32
    ensures BuildAll(Fields(k, rd, rn, uimm)).failed <==> !(OperandValid(ToInt32(uimm)) && RegsOk(k, rd, rn))
  {
    Builds(Fields(k, rd, rn, uimm));
    var imm := Magnitude(uimm);
    LayoutGood(if ToInt32(uimm) < 0 then Flip(k) else k,
               if Shifted(imm) then 1 else 0, if Shifted(imm) then imm / 0x1000 else imm, rd, rn);
    MagnitudeFits(uimm);
  }

  lemma MagnitudeFits(uimm: nat)
    ensures var imm := Magnitude(uimm);
            0 <= (if Shifted(imm) then imm / 0x1000 else imm) < 0x1000 <==> OperandValid(ToInt32(uimm))
  {
    MagnitudeIs(ToInt32(uimm));
    ShiftFits(Magnitude(uimm), ToInt32(uimm));
  }

  /** The magnitude, except of the smallest number, which stays negative. */
  lemma MagnitudeIs(c: int)
    requires -0x8000_0000 <= c < 0x8000_0000
    ensures (if c < 0 then ToInt32(-c) else c) == if c == -0x8000_0000 then c else Abs(c)
  {
  }

  lemma ShiftFits(imm: int, c: int)
    requires imm == if c == -0x8000_0000 then c else Abs(c)
    ensures 0 <= (if Shifted(imm) then imm / 0x1000 else imm) < 0x1000 <==> OperandValid(c)
  {
  }

  // ---------- what it executes ----------

  lemma WordReads(w: Word, op: Op, shift: nat, imm: nat, rd: nat, rn: nat)
    requires shift <= 1 && imm < 0x1000 && RegsOk(op, rd, rn)
    requires AllRead(Layout(op, shift, imm, rd, rn), w)
    ensures Extract(w, 31, 29) == Code(op) && Extract(w, 28, 24) == 0x11 && Extract(w, 23, 22) == shift
    ensures Extract(w, 21, 10) == imm
    ensures Extract(w, 4, 0) == (if rd >= ZR then 31 else rd) && Extract(w, 9, 5) == (if rn >= ZR then 31 else rn)
  {
    var fs := Layout(op, shift, imm, rd, rn);
    ReadAt(fs, 0, w);
    ReadAt(fs, 1, w);
    ReadAt(fs, 2, w);
    ReadAt(fs, 3, w);
    ReadAt(fs, 4, w);
    ReadAt(fs, 5, w);
  }

  lemma WordDecodes(w: Word, op: Op, shift: nat, imm: nat, rd: nat, rn: nat)
    requires shift <= 1 && imm < 0x1000 && RegsOk(op, rd, rn)
    requires AllRead(Layout(op, shift, imm, rd, rn), w)
    ensures IsAddSubImm(w)
    ensures Decode(w) == Decoded(op, if shift == 1 then imm * 0x1000 else imm,
                                 Named(rd, if op.setFlags then ZR else SP), Named(rn, SP))
  {
    WordReads(w, op, shift, imm, rd, rn);
  }

  /** Subtracting k is adding 2^N - k and the other way round: result and all four flags. */
  lemma FlipSame(k: Op, x: nat, c: nat)
    requires x < Modulus(k.wide) && 0 < c < 0x100_0000
    ensures Arith(Flip(k), x, c) == Arith(k, x, Modulus(k.wide) - c)
  {
  }

  lemma WordExecutes(w: Word, k: Op, rd: nat, rn: nat, c: int, x: nat)
    requires OperandValid(c) && RegsOk(k, rd, rn) && x < Modulus(k.wide)
    requires AllRead(Fields(k, rd, rn, c % UINT32), w)
    ensures Executes(w, k, rd, rn, c, x)
  {
    NarrowedValue(c);
    var imm, op := Abs(c), if c < 0 then Flip(k) else k;
    WordDecodes(w, op, if Shifted(imm) then 1 else 0, if Shifted(imm) then imm / 0x1000 else imm, rd, rn);
    DecodedExecutes(w, k, rd, rn, c, x);
  }

  lemma DecodedExecutes(w: Word, k: Op, rd: nat, rn: nat, c: int, x: nat)
    requires OperandValid(c) && x < Modulus(k.wide) && IsAddSubImm(w)
    requires Decode(w) == Decoded(if c < 0 then Flip(k) else k, Abs(c),
                                  Named(rd, if k.setFlags then ZR else SP), Named(rn, SP))
    ensures Executes(w, k, rd, rn, c, x)
  {
    if c < 0 {
      FlipSame(k, x, -c);
    }
  }

  /** w is the instruction on rd and rn that computes k of x and the constant c, NZCV included. */
  predicate Executes(w: Word, k: Op, rd: nat, rn: nat, c: int, x: nat)
    requires x < Modulus(k.wide) && OperandValid(c)
  {
    && IsAddSubImm(w)
    && var d := Decode(w);
    && d.op.wide == k.wide && d.op.setFlags == k.setFlags
    && d.rd == Named(rd, if k.setFlags then ZR else SP) && d.rn == Named(rn, SP)
    && d.imm < 0x100_0000
    && Arith(d.op, x, d.imm) == Arith(k, x, if c < 0 then Modulus(k.wide) + c else c)
  }

  /**
   * Every accepted constant, as a long narrowed to unsigned, gives an instruction on the same registers
   * whose result and NZCV are those of the requested operation on the constant.
   */
  lemma ExecutesAsRequested(k: Op, rd: nat, rn: nat, c: int, x: nat)
    requires OperandValid(c) && RegsOk(k, rd, rn) && x < Modulus(k.wide)
    ensures !BuildAll(Fields(k, rd, rn, c % UINT32)).failed
    ensures Executes(BuildAll(Fields(k, rd, rn, c % UINT32)).insn, k, rd, rn, c, x)
  {
    NarrowedValue(c);
    EncodesIffValid(k, rd, rn, c % UINT32);
    var imm := Abs(c);
    Builds(Fields(k, rd, rn, c % UINT32));
    FieldsReadBack(Fields(k, rd, rn, c % UINT32));
    WordExecutes(BuildAll(Fields(k, rd, rn, c % UINT32)).insn, k, rd, rn, c, x);
  }

  lemma NarrowedValue(c: int)
    requires OperandValid(c)
    ensures ToInt32(c % UINT32) == c && Magnitude(c % UINT32) == Abs(c)
    ensures 0 <= (if Shifted(Abs(c)) then Abs(c) / 0x1000 else Abs(c)) < 0x1000
    ensures Shifted(Abs(c)) ==> Abs(c) / 0x1000 * 0x1000 == Abs(c)
  {
    Narrowed(c);
    Narrowed(-c);
  }

  lemma Narrowed(c: int)
    requires -0x100_0000 < c < 0x100_0000
    ensures ToInt32(c % UINT32) == c && ToInt32(c) == c
  {
  }
}
