/** Machine words as natural numbers: powers of two, wrap-around and bitwise AND. */
module Words {

  function Pow2(n: nat): (r: nat)
    ensures r >= 1
  {
    if n == 0 then 1 else 2 * Pow2(n - 1)
  }

  const WORD: nat := 0x1_0000_0000_0000_0000

  lemma WordIsPow2()
    ensures Pow2(64) == WORD
  {
    assert Pow2(8) == 0x100;
    Pow2Add(8, 8);
    Pow2Add(16, 16);
    Pow2Add(32, 32);
  }

  lemma {:induction false} Pow2Add(a: nat, b: nat)
    ensures Pow2(a + b) == Pow2(a) * Pow2(b)
  {
    if a > 0 {
      Pow2Add(a - 1, b);
      assert Pow2(a + b) == 2 * Pow2(a - 1 + b);
    }
  }

  lemma {:induction false} Pow2Mono(a: nat, b: nat)
    requires a <= b
    ensures Pow2(a) <= Pow2(b)
  {
    if a < b {
      Pow2Mono(a, b - 1);
    }
  }

  /** Bitwise AND. */
  function And(x: nat, y: nat): nat
  {
    if x == 0 || y == 0 then 0 else (x % 2) * (y % 2) + 2 * And(x / 2, y / 2)
  }

  lemma {:induction false} AndOnes(x: nat, n: nat)
    requires x < Pow2(n)
    ensures And(x, Pow2(n) - 1) == x
  {
    if x > 0 {
      assert n > 0;
      assert (Pow2(n) - 1) / 2 == Pow2(n - 1) - 1;
      AndOnes(x / 2, n - 1);
    }
  }

  /** Masking with the bits k..n-1 gives zero exactly for the values below 2^k. */
  lemma {:induction false} AndHighBits(x: nat, n: nat, k: nat)
    requires x < Pow2(n) && k <= n
    ensures Pow2(k) <= Pow2(n)
    ensures And(x, Pow2(n) - Pow2(k)) == 0 <==> x < Pow2(k)
  {
    Pow2Mono(k, n);
    if k == 0 {
      AndOnes(x, n);
    } else {
      AndHighBits(x / 2, n - 1, k - 1);
      var m := Pow2(n) - Pow2(k);
      assert m == 2 * (Pow2(n - 1) - Pow2(k - 1));
      assert m % 2 == 0 && m / 2 == Pow2(n - 1) - Pow2(k - 1);
      if x > 0 && m > 0 {
        assert And(x, m) == 2 * And(x / 2, m / 2);
      }
    }
  }

  /** An odd mask keeps the low bit. */
  lemma AndOddMask(x: nat, m: nat)
    ensures And(x, 2 * m + 1) == 0 <==> x % 2 == 0 && And(x / 2, m) == 0
  {
    assert (2 * m + 1) % 2 == 1 && (2 * m + 1) / 2 == m;
  }

  lemma Pow2By8(n: nat)
    requires n >= 3
    ensures Pow2(n) == 8 * Pow2(n - 3)
  {
    assert Pow2(n) == 2 * Pow2(n - 1) && Pow2(n - 1) == 2 * Pow2(n - 2);
  }

  lemma MaskTest(d: nat, n: nat, k: nat)
    requires d < Pow2(n) && 3 <= k <= n
    ensures Pow2(k) <= Pow2(n)
    ensures And(d, Pow2(n) + 7 - Pow2(k)) == 0 <==> d % 8 == 0 && d < Pow2(k)
  {
    Pow2By8(n);
    Pow2By8(k);
    AndHighBits(d / 8, n - 3, k - 3);
    var h := Pow2(n - 3) - Pow2(k - 3);
    AndOddMask(d, 4 * h + 3);
    AndOddMask(d / 2, 2 * h + 1);
    AndOddMask(d / 2 / 2, h);
    assert d / 2 / 2 / 2 == d / 8;
  }

  lemma AndEvenMask(x: nat, m: nat)
    ensures And(x, 2 * m) == 2 * And(x / 2, m)
  {
    assert (2 * m) % 2 == 0 && 2 * m / 2 == m;
  }

  lemma AlignMask(x: nat, n: nat)
    requires n >= 3 && x < Pow2(n)
    ensures Pow2(n) >= 8
    ensures And(x, Pow2(n) - 8) == x - x % 8
  {
    Pow2By8(n);
    var h := Pow2(n - 3) - 1;
    AndEvenMask(x, 4 * h);
    AndEvenMask(x / 2, 2 * h);
    AndEvenMask(x / 2 / 2, h);
    assert x / 2 / 2 / 2 == x / 8;
    AndOnes(x / 8, n - 3);
  }

  /** Masking a 64-bit word with ~7 rounds it down to a multiple of eight. */
  lemma AlignDown(x: nat)
    requires x < WORD
    ensures And(x, WORD - 8) == x - x % 8
  {
    WordIsPow2();
    AlignMask(x, 64);
  }

  /** The recursive-lock test: `d & (7 - page)` on 64-bit words is zero exactly when `d` is a
      multiple of 8 below the page size. */
  lemma PageTest(d: nat, logPage: nat)
    requires d < WORD && 3 <= logPage < 64
    ensures 8 <= Pow2(logPage) < WORD
    ensures And(d, (7 - Pow2(logPage)) % WORD) == 0 <==> d % 8 == 0 && d < Pow2(logPage)
  {
    WordIsPow2();
    Pow2Mono(logPage + 1, 64);
    Pow2By8(logPage);
    MaskTest(d, 64, logPage);
  }
}
