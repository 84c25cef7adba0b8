/**
 * What the three words of a patched address constant compute, by "Move wide (immediate)" of Arm DDI 0487 chapter C4. The
 * patcher looks only at the opcodes of the second and third word.
 */
module MoveWide {
  import opened Options
  import opened Words
  import opened InsnBits
  import opened Relocation
  import opened CodePatching

  /** A 64-bit register by halfwords, lowest first. */
  datatype Quad = Quad(h0: nat, h1: nat, h2: nat, h3: nat) {
    function Number(): nat { h0 + 0x1_0000 * h1 + 0x1_0000_0000 * h2 + 0x1_0000_0000_0000 * h3 }

    function Put(hw: nat, imm: nat): Quad {
      if hw == 0 then this.(h0 := imm) else if hw == 1 then this.(h1 := imm) else if hw == 2 then this.(h2 := imm) else this.(h3 := imm)
    }
  }

  /** sf opc 100101 hw imm16 Rd, of which opc 10 is movz and 11 is movk. */
  datatype Move = Move(wide: bool, keep: bool, hw: nat, imm: nat, rd: nat)

  function DecodeMove(w: Word): Option<Move> {
    if w[30] && w[28] && !w[27] && !w[26] && w[25] && !w[24] && w[23] && (w[31] || !w[22])
    then Some(Move(w[31], w[29], Extract(w, 22, 21), Extract(w, 20, 5), Extract(w, 4, 0)))
    else None
  }

  /** The register rd after the move; a 32-bit move clears the upper half. */
  function Moved(m: Move, rd: nat, x: Quad): Quad {
    if m.rd != rd then x
    else
      var y := (if m.keep then x else Quad(0, 0, 0, 0)).Put(m.hw, m.imm);
      if m.wide then y else Quad(y.h0, y.h1, 0, 0)
  }

  /** The number three words leave in the register of the first; none if one of them is no move or that is register 31. */
  function Computed(ws: (Word, Word, Word), x: Quad): Option<nat> {
    After(DecodeMove(ws.0), DecodeMove(ws.1), DecodeMove(ws.2), x)
  }

  function After(a: Option<Move>, b: Option<Move>, c: Option<Move>, x: Quad): Option<nat> {
    if a.None? || b.None? || c.None? || a.value.rd == 31 then None
    else
      var d := a.value.rd;
      Some(Moved(c.value, d, Moved(b.value, d, Moved(a.value, d, x))).Number())
  }

  /** What a caller can check before patching: one register, and the halfwords in order. */
  predicate InOrder(ws: (Word, Word, Word)) {
    var d := Extract(ws.0, 4, 0);
    && d != 31 && Extract(ws.1, 4, 0) == d && Extract(ws.2, 4, 0) == d
    && Extract(ws.1, 22, 21) == 1 && Extract(ws.2, 22, 21) == 2 && ws.2[31]
  }

  // ---------- decoding what the patcher accepts ----------

  lemma MovzDecodes(w: Word)
    requires IsMovz(w)
    ensures DecodeMove(w) == Some(Move(true, false, 0, Extract(w, 20, 5), Extract(w, 4, 0)))
  {
    MovzOpcode(w);
    assert w[21..23] == [false, false] && [false, false][1..] == [false] && [false][1..] == [];
    assert Value([false]) == 0;
  }

  lemma MovzOpcode(w: Word)
    requires IsMovz(w)
    ensures w[31] && w[30] && !w[29] && w[28] && !w[27] && !w[26] && w[25] && !w[24] && w[23] && !w[22] && !w[21]
  {
    assert BitOf(0x694, 10) && BitOf(0x694, 9) && !BitOf(0x694, 8) && BitOf(0x694, 7) && !BitOf(0x694, 6);
    assert !BitOf(0x694, 5) && BitOf(0x694, 4) && !BitOf(0x694, 3) && BitOf(0x694, 2) && !BitOf(0x694, 1) && !BitOf(0x694, 0);
    BitIs(w, 31, 21, 0x694, 31);
    BitIs(w, 31, 21, 0x694, 30);
    BitIs(w, 31, 21, 0x694, 29);
    BitIs(w, 31, 21, 0x694, 28);
    BitIs(w, 31, 21, 0x694, 27);
    BitIs(w, 31, 21, 0x694, 26);
    BitIs(w, 31, 21, 0x694, 25);
    BitIs(w, 31, 21, 0x694, 24);
    BitIs(w, 31, 21, 0x694, 23);
    BitIs(w, 31, 21, 0x694, 22);
    BitIs(w, 31, 21, 0x694, 21);
  }

  lemma MovkOpcode(w: Word)
    requires IsMovk(w)
    ensures w[30] && w[29] && w[28] && !w[27] && !w[26] && w[25] && !w[24] && w[23]
  {
    assert BitOf(0xE5, 7) && BitOf(0xE5, 6) && BitOf(0xE5, 5) && !BitOf(0xE5, 4);
    assert !BitOf(0xE5, 3) && BitOf(0xE5, 2) && !BitOf(0xE5, 1) && BitOf(0xE5, 0);
    BitIs(w, 30, 23, 0xE5, 30);
    BitIs(w, 30, 23, 0xE5, 29);
    BitIs(w, 30, 23, 0xE5, 28);
    BitIs(w, 30, 23, 0xE5, 27);
    BitIs(w, 30, 23, 0xE5, 26);
    BitIs(w, 30, 23, 0xE5, 25);
    BitIs(w, 30, 23, 0xE5, 24);
    BitIs(w, 30, 23, 0xE5, 23);
  }

  lemma MovkDecodes(w: Word)
    requires IsMovk(w)
    ensures DecodeMove(w) == if w[31] || !w[22] then Some(Move(w[31], true, Extract(w, 22, 21), Extract(w, 20, 5), Extract(w, 4, 0))) else None
    ensures Extract(w, 22, 21) == (if w[21] then 1 else 0) + (if w[22] then 2 else 0)
  {
    MovkOpcode(w);
    var s := w[21..23];
    assert s == [w[21], w[22]] && s[1..] == [w[22]] && s[1..][1..] == [];
    assert Value(s[1..]) == if w[22] then 1 else 0;
  }

  /** Patching the immediate changes neither opcode, halfword nor register. */
  lemma ImmPatched(w: Word, v: nat)
    requires v < 0x1_0000
    ensures var w' := SetField(w, 20, 5, v);
            && Extract(w', 20, 5) == v && Extract(w', 4, 0) == Extract(w, 4, 0) && Extract(w', 22, 21) == Extract(w, 22, 21)
            && Extract(w', 31, 21) == Extract(w, 31, 21) && Extract(w', 30, 23) == Extract(w, 30, 23)
            && w'[31] == w[31] && w'[22] == w[22]
  {
    Pow2Add(8, 8);
    assert Pow2(8) == 0x100;
    SetExtract(w, 20, 5, v);
    SetExtractOther(w, 20, 5, v, 4, 0);
    SetExtractOther(w, 20, 5, v, 22, 21);
    SetExtractOther(w, 20, 5, v, 31, 21);
    SetExtractOther(w, 20, 5, v, 30, 23);
  }

  // ---------- the main result ----------

  /** The moves a patched triple stands for, as far as they are allocated. */
  function Patched(ws: (Word, Word, Word), i: nat, imm: nat): Option<Move> {
    if i == 0 then Some(Move(true, false, 0, imm, Extract(ws.0, 4, 0)))
    else
      var w := if i == 1 then ws.1 else ws.2;
      if w[31] || !w[22] then Some(Move(w[31], true, Extract(w, 22, 21), imm, Extract(w, 4, 0))) else None
  }

  lemma PatchedMoves(ws: (Word, Word, Word), target: nat)
    requires IsMovz(ws.0) && IsMovk(ws.1) && IsMovk(ws.2)
    ensures var p := PatchMoves(ws, target);
            && DecodeMove(p.0) == Patched(ws, 0, target % 0x1_0000)
            && DecodeMove(p.1) == Patched(ws, 1, target / 0x1_0000 % 0x1_0000)
            && DecodeMove(p.2) == Patched(ws, 2, target / 0x1_0000_0000 % 0x1_0000)
  {
    OneMovz(ws.0, target % 0x1_0000);
    OneMovk(ws.1, target / 0x1_0000 % 0x1_0000);
    OneMovk(ws.2, target / 0x1_0000_0000 % 0x1_0000);
  }

  lemma OneMovz(w: Word, v: nat)
    requires IsMovz(w) && v < 0x1_0000
    ensures DecodeMove(SetField(w, 20, 5, v)) == Some(Move(true, false, 0, v, Extract(w, 4, 0)))
  {
    ImmPatched(w, v);
    MovzDecodes(SetField(w, 20, 5, v));
  }

  lemma OneMovk(w: Word, v: nat)
    requires IsMovk(w) && v < 0x1_0000
    ensures DecodeMove(SetField(w, 20, 5, v))
            == if w[31] || !w[22] then Some(Move(w[31], true, Extract(w, 22, 21), v, Extract(w, 4, 0))) else None
  {
    ImmPatched(w, v);
    MovkDecodes(SetField(w, 20, 5, v));
  }

  /** In order, the three moves compute every target below 2^48. */
  lemma InOrderComputes(ws: (Word, Word, Word), target: nat, x: Quad)
    requires IsMovz(ws.0) && IsMovk(ws.1) && IsMovk(ws.2) && InOrder(ws) && target < 0x1_0000_0000_0000
    ensures Computed(PatchMoves(ws, target), x) == Some(target)
  {
    PatchedMoves(ws, target);
    MovkDecodes(ws.1);
    Halfwords(target);
  }

  lemma Halfwords(target: nat)
    requires target < 0x1_0000_0000_0000
    ensures target % 0x1_0000 + 0x1_0000 * (target / 0x1_0000 % 0x1_0000) + 0x1_0000_0000 * (target / 0x1_0000_0000 % 0x1_0000) == target
  {
    var a := target / 0x1_0000;
    assert a / 0x1_0000 == target / 0x1_0000_0000 && target / 0x1_0000_0000 < 0x1_0000;
  }

  /** Out of order, three different halfwords do not come out right. */
  lemma OutOfOrder(ws: (Word, Word, Word), target: nat, x: Quad)
    requires IsMovz(ws.0) && IsMovk(ws.1) && IsMovk(ws.2) && !InOrder(ws) && target == 0x3_0002_0001
    ensures Computed(PatchMoves(ws, target), x) != Some(target)
  {
    PatchedMoves(ws, target);
    OneTwoThree(target);
    OutOfOrderMoves(ws, PatchMoves(ws, target), x);
  }

  lemma OneTwoThree(target: nat)
    requires target == 0x3_0002_0001
    ensures target % 0x1_0000 == 1 && target / 0x1_0000 % 0x1_0000 == 2 && target / 0x1_0000_0000 % 0x1_0000 == 3
  {
  }

  lemma OutOfOrderMoves(ws: (Word, Word, Word), ps: (Word, Word, Word), x: Quad)
    requires IsMovk(ws.1) && IsMovk(ws.2) && !InOrder(ws)
    requires DecodeMove(ps.0) == Patched(ws, 0, 1) && DecodeMove(ps.1) == Patched(ws, 1, 2) && DecodeMove(ps.2) == Patched(ws, 2, 3)
    ensures Computed(ps, x) != Some(0x3_0002_0001)
  {
    MovkDecodes(ws.1);
    MovkDecodes(ws.2);
    var a, b, c := Patched(ws, 0, 1), Patched(ws, 1, 2), Patched(ws, 2, 3);
    if a.value.rd != 31 && b.Some? && c.Some? {
      WrongPlace(a.value.rd, b.value, c.value);
    }
  }

  lemma WrongPlace(d: nat, b: Move, c: Move)
    requires b.keep && c.keep && b.hw < 4 && c.hw < 4 && b.imm == 2 && c.imm == 3
    requires !(b.rd == d && c.rd == d && b.hw == 1 && c.hw == 2 && c.wide)
    ensures Moved(c, d, Moved(b, d, Quad(1, 0, 0, 0))).Number() != 0x3_0002_0001
  {
  }

  /** The three words compute every target below 2^48 they can be patched for exactly when they name one register and
      the halfwords 0, 1 and 2 in order. */
  lemma MovesCompute(ws: (Word, Word, Word), x: Quad)
    requires IsMovz(ws.0) && IsMovk(ws.1) && IsMovk(ws.2)
    ensures (forall target: nat :: target < 0x1_0000_0000_0000 ==> Computed(PatchMoves(ws, target), x) == Some(target)) <==> InOrder(ws)
  {
    if InOrder(ws) {
      forall target: nat | target < 0x1_0000_0000_0000
        ensures Computed(PatchMoves(ws, target), x) == Some(target)
      {
        InOrderComputes(ws, target, x);
      }
    } else {
      var target := 0x3_0002_0001;
      OutOfOrder(ws, target, x);
    }
  }
}
