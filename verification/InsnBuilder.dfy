/** Building an instruction out of fields, as `Instruction_aarch64` does, and what the result decodes to. */
module InsnBuilder {
  import opened Words
  import opened InsnBits

  const UINT32: nat := 0x1_0000_0000

  /** One call of `f` (unsigned) or `sf` (signed). */
  datatype FieldCall = U(val: int, msb: nat, lsb: nat) | S(val: int, msb: nat, lsb: nat) {
    predicate Valid() { lsb <= msb < 32 && msb - lsb < 31 }

    function Width(): nat
      requires Valid()
    {
      msb - lsb + 1
    }

    /** The guarantee: an unsigned value (taken modulo 2^32) or a signed one fits the field. */
    predicate Fits()
      requires Valid()
    {
      if U? then val % UINT32 < Pow2(Width()) else FitsSigned(val, Width())
    }

    /** The bits that go into the field. */
    function Raw(): (v: nat)
      requires Valid() && Fits()
      ensures v < Pow2(Width())
    {
      if U? then val % UINT32 else Unsigned(val, Width())
    }

    predicate Covers(p: nat) { lsb <= p <= msb }

    predicate Apart(g: FieldCall) { msb < g.lsb || g.msb < lsb }

    /** The decoder reads the value back out of w. */
    predicate ReadsBack(w: Word)
      requires Valid()
    {
      if U? then Extract(w, msb, lsb) == val % UINT32 else SExtract(w, msb, lsb) == val
    }
  }

  type Field = f: FieldCall | f.Valid() witness U(0, 0, 0)

  /** `insn`, `bits` (as the set of bit positions already written) and whether a check has failed. */
  datatype Build = Build(insn: Word, bits: set<nat>, failed: bool)

  function Start(): Build { Build(Zero(), {}, false) }

  function Positions(f: Field): set<nat> { set p: nat | p < 32 && f.Covers(p) }

  function Put(b: Build, f: Field): Build {
    if b.failed || !f.Fits() || b.bits * Positions(f) != {} then b.(failed := true)
    else Build(SetField(b.insn, f.msb, f.lsb, f.Raw()), b.bits + Positions(f), false)
  }

  function BuildAll(fs: seq<Field>): Build {
    if fs == [] then Start() else Put(BuildAll(fs[..|fs| - 1]), fs[|fs| - 1])
  }

  // ---------- what a field list builds ----------

  /** Every value fits and no two fields overlap. */
  ghost predicate Good(fs: seq<Field>) {
    && (forall i :: 0 <= i < |fs| ==> fs[i].Fits())
    && (forall i, j :: 0 <= i < j < |fs| ==> fs[i].Apart(fs[j]))
  }

  /** The bits of w under f are the bits of its value. */
  ghost predicate Shows(w: Word, f: Field) {
    f.Fits() && forall p: nat :: f.Covers(p) ==> w[p] == BitOf(f.Raw(), p - f.lsb)
  }

  ghost predicate Covered(fs: seq<Field>, p: nat) { exists i :: 0 <= i < |fs| && fs[i].Covers(p) }

  /** Each bit comes from the field that covers it, or is zero. */
  ghost predicate BuiltFrom(fs: seq<Field>, b: Build) {
    && !b.failed
    && (forall p: nat :: p in b.bits <==> Covered(fs, p))
    && (forall i :: 0 <= i < |fs| ==> Shows(b.insn, fs[i]))
    && (forall p: nat :: p < 32 && p !in b.bits ==> !b.insn[p])
  }

  lemma {:induction false} Builds(fs: seq<Field>)
    ensures BuildAll(fs).failed <==> !Good(fs)
    ensures Good(fs) ==> BuiltFrom(fs, BuildAll(fs))
  {
    if fs != [] {
      var rest, f := fs[..|fs| - 1], fs[|fs| - 1];
      Builds(rest);
      assert fs == rest + [f];
      if Good(rest) {
        Clash(rest, BuildAll(rest), f);
        GoodLast(rest, f);
        if Good(fs) {
          PutKeeps(rest, BuildAll(rest), f);
        }
      } else {
        BadPrefix(rest, f);
      }
    }
  }

  lemma GoodLast(rest: seq<Field>, f: Field)
    requires Good(rest)
    ensures Good(rest + [f]) <==> f.Fits() && forall i :: 0 <= i < |rest| ==> rest[i].Apart(f)
  {
    var fs := rest + [f];
    if Good(fs) {
      assert fs[|rest|] == f;
      forall i | 0 <= i < |rest| ensures rest[i].Apart(f) {
        assert fs[i].Apart(fs[|rest|]);
      }
    }
  }

  lemma BadPrefix(rest: seq<Field>, f: Field)
    requires !Good(rest)
    ensures !Good(rest + [f])
  {
    var fs := rest + [f];
    if i :| 0 <= i < |rest| && !rest[i].Fits() {
      assert !fs[i].Fits();
    } else {
      var i, j :| 0 <= i < j < |rest| && !rest[i].Apart(rest[j]);
      assert !fs[i].Apart(fs[j]);
    }
  }

  /** The overlap test on bit positions is the overlap test on fields. */
  lemma Clash(rest: seq<Field>, b: Build, f: Field)
    requires BuiltFrom(rest, b)
    ensures b.bits * Positions(f) == {} <==> forall i :: 0 <= i < |rest| ==> rest[i].Apart(f)
  {
    if p :| p in b.bits * Positions(f) {
      assert Covered(rest, p);
      var i :| 0 <= i < |rest| && rest[i].Covers(p);
      assert f.Covers(p);
    } else {
      forall i | 0 <= i < |rest| ensures rest[i].Apart(f) {
        if !rest[i].Apart(f) {
          var p := if rest[i].lsb < f.lsb then f.lsb else rest[i].lsb;
          assert rest[i].Covers(p) && f.Covers(p);
          assert Covered(rest, p);
          Meet(b.bits, Positions(f), p);
        }
      }
    }
  }

  lemma Meet(a: set<nat>, b: set<nat>, p: nat)
    requires p in a && p in b
    ensures a * b != {}
  {
    assert p in a * b;
  }

  lemma PutKeeps(rest: seq<Field>, b: Build, f: Field)
    requires BuiltFrom(rest, b) && f.Fits() && b.bits * Positions(f) == {}
    requires forall i :: 0 <= i < |rest| ==> rest[i].Apart(f)
    ensures BuiltFrom(rest + [f], Put(b, f))
  {
    var fs, b' := rest + [f], Put(b, f);
    forall i | 0 <= i < |fs| ensures Shows(b'.insn, fs[i]) {
      if i < |rest| {
        assert Shows(b.insn, rest[i]);
        ShowsStill(b.insn, f, rest[i]);
      }
    }
    forall p: nat ensures p in b'.bits <==> Covered(fs, p) {
      CoveredLast(rest, f, p);
    }
    forall p: nat | p < 32 && p !in b'.bits ensures !b'.insn[p] {
      assert p !in b.bits && p !in Positions(f);
    }
  }

  lemma CoveredLast(rest: seq<Field>, f: Field, p: nat)
    ensures Covered(rest + [f], p) <==> Covered(rest, p) || f.Covers(p)
  {
    var fs := rest + [f];
    if i :| 0 <= i < |rest| && rest[i].Covers(p) {
      assert fs[i].Covers(p);
    }
    assert fs[|rest|] == f;
  }

  lemma ShowsStill(w: Word, f: Field, g: Field)
    requires Shows(w, g) && f.Fits() && g.Apart(f)
    ensures Shows(SetField(w, f.msb, f.lsb, f.Raw()), g)
  {
  }

  // ---------- reading back and patching ----------

  lemma ShownReadsBack(w: Word, f: Field)
    requires Shows(w, f)
    ensures f.ReadsBack(w)
  {
    var n, v := f.Width(), f.Raw();
    forall k: nat | k < n ensures w[f.lsb..f.msb + 1][k] == BitOf(v, k) {
      assert f.Covers(f.lsb + k);
    }
    ValueIs(w[f.lsb..f.msb + 1], v);
    if f.S? {
      assert f.Covers(f.msb);
      SignBit(f, w);
    }
  }

  lemma SignBit(f: Field, w: Word)
    requires f.S? && f.Fits() && Extract(w, f.msb, f.lsb) == f.Raw() && w[f.msb] == BitOf(f.Raw(), f.msb - f.lsb)
    ensures SExtract(w, f.msb, f.lsb) == f.val
  {
    TopBit(f.Raw(), f.Width());
  }

  ghost predicate AllRead(fs: seq<Field>, w: Word) { forall i :: 0 <= i < |fs| ==> fs[i].ReadsBack(w) }

  lemma ReadAt(fs: seq<Field>, i: nat, w: Word)
    requires AllRead(fs, w) && i < |fs| && fs[i].U? && 0 <= fs[i].val < UINT32
    ensures Extract(w, fs[i].msb, fs[i].lsb) == fs[i].val
  {
    assert fs[i].ReadsBack(w);
  }

  ghost predicate AllShown(fs: seq<Field>, w: Word) { forall i :: 0 <= i < |fs| ==> Shows(w, fs[i]) }

  /** Bit p of the word is bit p - lsb of the value of the field covering it. */
  lemma BitAt(fs: seq<Field>, i: nat, w: Word, p: nat)
    requires AllShown(fs, w) && i < |fs| && fs[i].U? && 0 <= fs[i].val < UINT32 && fs[i].Covers(p)
    ensures w[p] == BitOf(fs[i].val, p - fs[i].lsb)
  {
    assert Shows(w, fs[i]);
  }

  lemma ShownIsRead(fs: seq<Field>, w: Word)
    requires AllShown(fs, w)
    ensures AllRead(fs, w)
  {
    forall i | 0 <= i < |fs| ensures fs[i].ReadsBack(w) {
      ShownReadsBack(w, fs[i]);
    }
  }

  /** Every field of a good list reads back from the built word. */
  lemma FieldsReadBack(fs: seq<Field>)
    requires Good(fs)
    ensures !BuildAll(fs).failed && AllRead(fs, BuildAll(fs).insn)
  {
    Builds(fs);
    forall i | 0 <= i < |fs| ensures fs[i].ReadsBack(BuildAll(fs).insn) {
      ShownReadsBack(BuildAll(fs).insn, fs[i]);
    }
  }

  function AllBits(): set<nat> { set p: nat | p < 32 && Below(p) }

  predicate Below(p: nat) { p < 32 }

  /** The fields cover every bit, so `emit` finds no gap. */
  ghost predicate Complete(fs: seq<Field>) { forall p: nat :: Below(p) ==> Covered(fs, p) }

  lemma CompleteFills(fs: seq<Field>)
    requires Good(fs) && Complete(fs)
    ensures BuildAll(fs).bits == AllBits()
  {
    Builds(fs);
    forall p: nat ensures p in BuildAll(fs).bits <==> p in AllBits() {
      if Covered(fs, p) {
        var i :| 0 <= i < |fs| && fs[i].Covers(p);
        assert Below(p);
      }
    }
  }

  /** Patching one field of a built word gives the word built with the new value in the first place. */
  lemma PatchIsRebuild(fs: seq<Field>, j: nat, g: Field)
    requires Good(fs) && j < |fs| && g.Fits() && g.msb == fs[j].msb && g.lsb == fs[j].lsb
    ensures Good(fs[j := g])
    ensures SetField(BuildAll(fs).insn, g.msb, g.lsb, g.Raw()) == BuildAll(fs[j := g]).insn
  {
    var fs' := fs[j := g];
    GoodUpdate(fs, j, g);
    Builds(fs);
    Builds(fs');
    var w, w' := SetField(BuildAll(fs).insn, g.msb, g.lsb, g.Raw()), BuildAll(fs').insn;
    forall p: nat | p < 32 ensures w[p] == w'[p] {
      SameBit(fs, BuildAll(fs), j, g, BuildAll(fs'), p);
    }
  }

  lemma GoodUpdate(fs: seq<Field>, j: nat, g: Field)
    requires Good(fs) && j < |fs| && g.Fits() && g.msb == fs[j].msb && g.lsb == fs[j].lsb
    ensures Good(fs[j := g])
  {
    var fs' := fs[j := g];
    forall i, k | 0 <= i < k < |fs'| ensures fs'[i].Apart(fs'[k]) {
      assert fs[i].Apart(fs[k]);
    }
  }

  lemma SameBit(fs: seq<Field>, b: Build, j: nat, g: Field, b': Build, p: nat)
    requires Good(fs) && j < |fs| && g.Fits() && g.msb == fs[j].msb && g.lsb == fs[j].lsb && p < 32
    requires BuiltFrom(fs, b) && BuiltFrom(fs[j := g], b')
    ensures SetField(b.insn, g.msb, g.lsb, g.Raw())[p] == b'.insn[p]
  {
    var fs' := fs[j := g];
    if g.Covers(p) {
      assert Shows(b'.insn, fs'[j]);
    } else if Covered(fs, p) {
      var i :| 0 <= i < |fs| && fs[i].Covers(p);
      assert i != j && fs'[i] == fs[i];
      assert Shows(b.insn, fs[i]) && Shows(b'.insn, fs'[i]);
    } else {
      assert forall i :: 0 <= i < |fs| ==> fs'[i].Covers(p) == fs[i].Covers(p);
      assert !Covered(fs', p);
    }
  }

  // ---------- the builder object ----------

  /** Register encodings: r0..r30, the shared number 31, and the symbolic zr and sp. */
  const ZR: nat := 32
  const SP: nat := 33

  /** What a register field means, given what number 31 stands for there. */
  function Named(r: nat, at31: nat): nat { if r == 31 then at31 else r }

  function Rf(r: nat, lsb: nat): Field
    requires lsb + 4 < 32
  {
    U(r, lsb + 4, lsb)
  }

  function Zrf(r: nat, lsb: nat): Field
    requires lsb + 4 < 32
  {
    U(if r == ZR then r - 1 else r, lsb + 4, lsb)
  }

  function Srf(r: nat, lsb: nat): Field
    requires lsb + 4 < 32
  {
    U(if r == SP then 31 else r, lsb + 4, lsb)
  }

  class Instruction {
    var insn: Word
    var bits: set<nat>
    var failed: bool
    /** The field calls made so far. */
    ghost var calls: seq<Field>

    ghost predicate Valid()
      reads this
    {
      Build(insn, bits, failed) == BuildAll(calls)
    }

    constructor ()
      ensures Valid() && calls == []
    {
      insn, bits, failed, calls := Zero(), {}, false, [];
    }

    method Write(f: Field)
      requires Valid()
      modifies this
      ensures Valid() && calls == old(calls) + [f]
    {
      if failed || !f.Fits() || bits * Positions(f) != {} {
        failed := true;
      } else {
        insn, bits := SetField(insn, f.msb, f.lsb, f.Raw()), bits + Positions(f);
      }
      calls := calls + [f];
      assert calls[..|calls| - 1] == old(calls);
    }

    method F(val: int, msb: nat, lsb: nat)
      requires Valid() && lsb <= msb < 32 && msb - lsb < 31
      modifies this
      ensures Valid() && calls == old(calls) + [U(val, msb, lsb)]
    {
      Write(U(val, msb, lsb));
    }

    method Sf(val: int, msb: nat, lsb: nat)
      requires Valid() && lsb <= msb < 32 && msb - lsb < 31
      modifies this
      ensures Valid() && calls == old(calls) + [S(val, msb, lsb)]
    {
      Write(S(val, msb, lsb));
    }
  }
}
