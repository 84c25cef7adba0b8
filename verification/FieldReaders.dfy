/**
 * The masks and shifts with which the source reads a field: `extract` shifts then masks, `pickbits32` masks then
 * shifts, `simm` and `extend` shift left and then arithmetically right. On 32-bit numbers all of them read the bits
 * that `Extract` and `SExtract` name.
 */
module FieldReaders {
  import opened Words
  import opened InsnBits

  const UINT32: nat := 0x1_0000_0000

  // ---------- the machine's shifts, one place at a time ----------

  function Shr(x: nat, k: nat): nat
    decreases k
  {
    if k == 0 then x else Shr(x / 2, k - 1)
  }

  /** Left shift in an unsigned 32-bit register. */
  function Shl(x: nat, k: nat): nat
    decreases k
  {
    if k == 0 then x else Shl(2 * x % UINT32, k - 1)
  }

  /** Arithmetic right shift: the sign stays, so each place rounds down. */
  function Asr(x: int, k: nat): int
    decreases k
  {
    if k == 0 then x else Asr(x / 2, k - 1)
  }

  function ToInt32(u: nat): int { if u >= 0x8000_0000 then u - UINT32 else u }

  // ---------- the readers ----------

  /** The shift of an unsigned one is undefined for a field of all 32 bits. */
  function ExtractBits(val: nat, msb: nat, lsb: nat): nat
    requires lsb <= msb < 32 && msb - lsb < 31
  {
    And(Shr(val, lsb), Pow2(msb - lsb + 1) - 1)
  }

  /** `mask32`: the bits hi..lo. Its shift of a signed one overflows for fields of more than 30 bits. */
  function Mask32(hi: nat, lo: nat): nat
    requires lo <= hi < 32 && hi - lo < 30
  {
    Doubled(Pow2(hi - lo + 1) - 1, lo)
  }

  function Doubled(m: nat, k: nat): nat { if k == 0 then m else 2 * Doubled(m, k - 1) }

  function PickBits32(val: nat, hi: nat, lo: nat): nat
    requires lo <= hi < 32 && hi - lo < 30
  {
    Shr(And(val, Mask32(hi, lo)), lo)
  }

  /** `simm`, and `extend`. */
  function Simm(val: nat, hi: nat, lo: nat): int
    requires lo <= hi < 32
  {
    Asr(ToInt32(Shl(val, 31 - hi)), 31 - hi + lo)
  }

  function SextractBits(val: nat, msb: nat, lsb: nat): int
    requires lsb <= msb < 32 && msb - lsb < 31
  {
    Simm(ExtractBits(val, msb, lsb), msb - lsb, 0)
  }

  // ---------- shifts on bits ----------

  lemma {:induction false} ShrDrops(s: seq<bool>, k: nat)
    requires k <= |s|
    ensures Shr(Value(s), k) == Value(s[k..])
    decreases k
  {
    if k > 0 {
      ShrDrops(s[1..], k - 1);
      assert s[1..][k - 1..] == s[k..];
    }
  }

  lemma {:induction false} AndKeeps(s: seq<bool>, n: nat)
    requires n <= |s|
    ensures And(Value(s), Pow2(n) - 1) == Value(s[..n])
    decreases n
  {
    if n > 0 {
      var x, m := Value(s), Pow2(n) - 1;
      AndKeeps(s[1..], n - 1);
      assert s[..n][1..] == s[1..][..n - 1];
      OddMask(n);
      AndStep(x, m);
      assert x / 2 == Value(s[1..]) && x % 2 == if s[0] then 1 else 0;
    }
  }

  lemma OddMask(n: nat)
    requires n > 0
    ensures (Pow2(n) - 1) % 2 == 1 && (Pow2(n) - 1) / 2 == Pow2(n - 1) - 1
  {
  }

  lemma AndStep(x: nat, m: nat)
    requires m % 2 == 1
    ensures And(x, m) == x % 2 + 2 * And(x / 2, m / 2)
  {
  }

  lemma {:induction false} MaskedShift(x: nat, m: nat, k: nat)
    ensures Shr(And(x, Doubled(m, k)), k) == And(Shr(x, k), m)
    decreases k
  {
    if k > 0 {
      AndEvenMask(x, Doubled(m, k - 1));
      MaskedShift(x / 2, m, k - 1);
      assert And(x, Doubled(m, k)) / 2 == And(x / 2, Doubled(m, k - 1));
    }
  }

  lemma {:induction false} ValueSnoc(s: seq<bool>, b: bool)
    ensures Value(s + [b]) == Value(s) + if b then Pow2(|s|) else 0
  {
    if s == [] {
      assert [b][1..] == [];
    } else {
      assert (s + [b])[1..] == s[1..] + [b];
      ValueSnoc(s[1..], b);
    }
  }

  /** k zeros below the bits that stay. */
  function Shifted(w: Word, k: nat): Word
    requires k <= 32
  {
    seq(k, _ => false) + w[..32 - k]
  }

  lemma ShlStep(w: Word)
    ensures 2 * Value(w) % UINT32 == Value(Shifted(w, 1))
  {
    var low := w[..31];
    assert w == low + [w[31]];
    ValueSnoc(low, w[31]);
    assert Shifted(w, 1)[1..] == low;
    HalfRange();
  }

  lemma HalfRange()
    ensures Pow2(31) == 0x8000_0000 && Pow2(32) == UINT32
  {
    assert Pow2(8) == 0x100;
    Pow2Add(8, 8);
    Pow2Add(16, 15);
    Pow2Add(16, 16);
    assert Pow2(15) == 0x8000;
  }

  lemma {:induction false} ShlShifts(w: Word, k: nat)
    requires k <= 31
    ensures Shl(Value(w), k) == Value(Shifted(w, k))
    decreases k
  {
    if k == 0 {
      assert Shifted(w, 0) == w;
    } else {
      ShlStep(w);
      ShlShifts(Shifted(w, 1), k - 1);
      assert Shifted(Shifted(w, 1), k - 1) == Shifted(w, k);
    }
  }

  /** A run of bits as a two's complement number. */
  function Signed(s: seq<bool>): int
    requires s != []
  {
    Value(s) - if s[|s| - 1] then Pow2(|s|) else 0
  }

  lemma ToInt32Signed(w: Word)
    ensures ToInt32(Value(w)) == Signed(w)
  {
    var low := w[..31];
    assert w == low + [w[31]];
    ValueSnoc(low, w[31]);
    HalfRange();
  }

  lemma {:induction false} AsrDrops(s: seq<bool>, k: nat)
    requires k < |s|
    ensures Asr(Signed(s), k) == Signed(s[k..])
    decreases k
  {
    if k > 0 {
      AsrDrops(s[1..], k - 1);
      assert s[1..][k - 1..] == s[k..];
      assert Signed(s) / 2 == Signed(s[1..]);
    }
  }

  // ---------- the readers read the field ----------

  /** Shift then mask. */
  lemma {:induction false} ExtractIsField(w: Word, msb: nat, lsb: nat)
    requires lsb <= msb < 32 && msb - lsb < 31
    ensures ExtractBits(Value(w), msb, lsb) == Extract(w, msb, lsb)
  {
    ShrDrops(w, lsb);
    AndKeeps(w[lsb..], msb - lsb + 1);
    assert w[lsb..][..msb - lsb + 1] == w[lsb..msb + 1];
  }

  /** Mask then shift. */
  lemma PickIsField(w: Word, hi: nat, lo: nat)
    requires lo <= hi < 32 && hi - lo < 30
    ensures PickBits32(Value(w), hi, lo) == Extract(w, hi, lo)
  {
    MaskedShift(Value(w), Pow2(hi - lo + 1) - 1, lo);
    ExtractIsField(w, hi, lo);
  }

  /** Shift left, then arithmetically right. */
  lemma {:induction false} SimmIsField(w: Word, hi: nat, lo: nat)
    requires lo <= hi < 32
    ensures Simm(Value(w), hi, lo) == SExtract(w, hi, lo)
  {
    var k := 31 - hi;
    ShlShifts(w, k);
    ToInt32Signed(Shifted(w, k));
    AsrDrops(Shifted(w, k), k + lo);
    assert Shifted(w, k)[k + lo..] == w[lo..hi + 1];
    SignedField(w, hi, lo);
  }

  lemma {:induction false} SignedField(w: Word, hi: nat, lo: nat)
    requires lo <= hi < 32
    ensures Signed(w[lo..hi + 1]) == SExtract(w, hi, lo)
  {
  }

  /** Extract first, then extend from the field's own top bit. */
  lemma {:induction false} SextractIsField(w: Word, msb: nat, lsb: nat)
    requires lsb <= msb < 32 && msb - lsb < 31
    ensures SextractBits(Value(w), msb, lsb) == SExtract(w, msb, lsb)
  {
    var field := w[lsb..msb + 1];
    var w': Word := field + seq(31 - (msb - lsb), _ => false);
    ExtractIsField(w, msb, lsb);
    ZerosAbove(field, 31 - (msb - lsb));
    SimmIsField(w', msb - lsb, 0);
    assert w'[0..msb - lsb + 1] == field;
    SignedField(w', msb - lsb, 0);
    SignedField(w, msb, lsb);
  }

  lemma {:induction false} ZerosAbove(s: seq<bool>, k: nat)
    ensures Value(s + seq(k, _ => false)) == Value(s)
    decreases k
  {
    if k == 0 {
      assert s + seq(k, _ => false) == s;
    } else {
      var z := seq(k - 1, _ => false);
      assert s + seq(k, _ => false) == (s + z) + [false];
      ZerosAbove(s, k - 1);
      ValueSnoc(s + z, false);
    }
  }
}
