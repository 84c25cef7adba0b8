/**
 * Instruction words field by field: the builder `Instruction_aarch64` (f, sf, patch, spatch, extract,
 * sextract) and the decoder's field readers. A word is its 32 bits, bit 0 first.
 */
module InsnBits {
  import opened Words

  type Word = w: seq<bool> | |w| == 32 witness seq(32, _ => false)

  function Zero(): Word { seq(32, _ => false) }

  predicate BitOf(v: nat, k: nat)
    decreases k
  {
    if k == 0 then v % 2 == 1 else BitOf(v / 2, k - 1)
  }

  /** The number a run of bits stands for. */
  function Value(s: seq<bool>): (v: nat)
    ensures v < Pow2(|s|)
  {
    if s == [] then 0 else (if s[0] then 1 else 0) + 2 * Value(s[1..])
  }

  /** `extract` and `pickbits32`: the bits msb..lsb, moved down to bit 0. */
  function Extract(w: Word, msb: nat, lsb: nat): (v: nat)
    requires lsb <= msb < 32
    ensures v < Pow2(msb - lsb + 1)
  {
    Value(w[lsb..msb + 1])
  }

  /** `sextract` and `simm`: the same bits as a two's complement number. */
  function SExtract(w: Word, msb: nat, lsb: nat): int
    requires lsb <= msb < 32
  {
    Extract(w, msb, lsb) - if w[msb] then Pow2(msb - lsb + 1) else 0
  }

  /** Replace the bits msb..lsb by the low bits of v. */
  function SetField(w: Word, msb: nat, lsb: nat, v: nat): Word
    requires lsb <= msb < 32
  {
    seq(32, p requires 0 <= p < 32 => if lsb <= p <= msb then BitOf(v, p - lsb) else w[p])
  }

  lemma {:induction false} ValueIs(s: seq<bool>, v: nat)
    requires v < Pow2(|s|) && forall k :: 0 <= k < |s| ==> s[k] == BitOf(v, k)
    ensures Value(s) == v
  {
    if s != [] {
      assert s[0] == BitOf(v, 0);
      forall k | 0 <= k < |s| - 1
        ensures s[1..][k] == BitOf(v / 2, k)
      {
        assert s[k + 1] == BitOf(v, k + 1);
      }
      ValueIs(s[1..], v / 2);
    }
  }

  lemma {:induction false} ValueBit(s: seq<bool>, k: nat)
    requires k < |s|
    ensures BitOf(Value(s), k) == s[k]
  {
    if k > 0 {
      ValueBit(s[1..], k - 1);
    }
  }

  /** Two field values that differ in one bit differ. */
  lemma BitDiffers(w: Word, msb: nat, lsb: nat, c: nat, p: nat)
    requires lsb <= p <= msb < 32 && w[p] != BitOf(c, p - lsb)
    ensures Extract(w, msb, lsb) != c
  {
    ValueBit(w[lsb..msb + 1], p - lsb);
  }

  /** A field that is set reads back, signed and unsigned; a disjoint field does not change. */
  lemma SetExtract(w: Word, msb: nat, lsb: nat, v: nat)
    requires lsb <= msb < 32 && v < Pow2(msb - lsb + 1)
    ensures Extract(SetField(w, msb, lsb, v), msb, lsb) == v
  {
    ValueIs(SetField(w, msb, lsb, v)[lsb..msb + 1], v);
  }

  lemma SetExtractOther(w: Word, msb: nat, lsb: nat, v: nat, m: nat, l: nat)
    requires lsb <= msb < 32 && l <= m < 32 && (m < lsb || msb < l)
    ensures Extract(SetField(w, msb, lsb, v), m, l) == Extract(w, m, l)
    ensures SExtract(SetField(w, msb, lsb, v), m, l) == SExtract(w, m, l)
  {
    assert SetField(w, msb, lsb, v)[l..m + 1] == w[l..m + 1];
  }

  predicate FitsSigned(v: int, n: nat)
    requires n > 0
  {
    0 <= v + Pow2(n - 1) < Pow2(n)
  }

  /** The low n bits of a signed value that fits them. */
  function Unsigned(v: int, n: nat): (u: nat)
    requires n > 0 && FitsSigned(v, n)
    ensures u < Pow2(n)
  {
    if v < 0 then v + Pow2(n) else v
  }

  lemma {:induction false} TopBit(v: nat, n: nat)
    requires n > 0 && v < Pow2(n)
    ensures BitOf(v, n - 1) <==> v >= Pow2(n - 1)
    decreases n
  {
    if n > 1 {
      TopBit(v / 2, n - 1);
    }
  }

  lemma SetSExtract(w: Word, msb: nat, lsb: nat, v: int)
    requires lsb <= msb < 32 && FitsSigned(v, msb - lsb + 1)
    ensures SExtract(SetField(w, msb, lsb, Unsigned(v, msb - lsb + 1)), msb, lsb) == v
  {
    var n := msb - lsb + 1;
    SetExtract(w, msb, lsb, Unsigned(v, n));
    TopBit(Unsigned(v, n), n);
  }
}
