/** The CRC-32 of the debug-link check (`gnu_debuglink_crc32`) against polynomial long division. */
module Crc {

  // ---------- the code ----------

  function Pick(lo: bv8, a0: bv32, a1: bv32, a2: bv32, a3: bv32, a4: bv32, a5: bv32, a6: bv32, a7: bv32,
                a8: bv32, a9: bv32, a10: bv32, a11: bv32, a12: bv32, a13: bv32, a14: bv32, a15: bv32): bv32
  {
    if lo == 0 then a0 else if lo == 1 then a1 else if lo == 2 then a2 else if lo == 3 then a3
    else if lo == 4 then a4 else if lo == 5 then a5 else if lo == 6 then a6 else if lo == 7 then a7
    else if lo == 8 then a8 else if lo == 9 then a9 else if lo == 10 then a10 else if lo == 11 then a11
    else if lo == 12 then a12 else if lo == 13 then a13 else if lo == 14 then a14 else a15
  }

  function TableRows0(hi: bv8, lo: bv8): bv32 {
    if hi == 0 then
      Pick(lo, 0x00000000, 0x77073096, 0xee0e612c, 0x990951ba, 0x076dc419, 0x706af48f, 0xe963a535, 0x9e6495a3,
               0x0edb8832, 0x79dcb8a4, 0xe0d5e91e, 0x97d2d988, 0x09b64c2b, 0x7eb17cbd, 0xe7b82d07, 0x90bf1d91)
    else if hi == 1 then
      Pick(lo, 0x1db71064, 0x6ab020f2, 0xf3b97148, 0x84be41de, 0x1adad47d, 0x6ddde4eb, 0xf4d4b551, 0x83d385c7,
               0x136c9856, 0x646ba8c0, 0xfd62f97a, 0x8a65c9ec, 0x14015c4f, 0x63066cd9, 0xfa0f3d63, 0x8d080df5)
    else if hi == 2 then
      Pick(lo, 0x3b6e20c8, 0x4c69105e, 0xd56041e4, 0xa2677172, 0x3c03e4d1, 0x4b04d447, 0xd20d85fd, 0xa50ab56b,
               0x35b5a8fa, 0x42b2986c, 0xdbbbc9d6, 0xacbcf940, 0x32d86ce3, 0x45df5c75, 0xdcd60dcf, 0xabd13d59)
    else
      Pick(lo, 0x26d930ac, 0x51de003a, 0xc8d75180, 0xbfd06116, 0x21b4f4b5, 0x56b3c423, 0xcfba9599, 0xb8bda50f,
               0x2802b89e, 0x5f058808, 0xc60cd9b2, 0xb10be924, 0x2f6f7c87, 0x58684c11, 0xc1611dab, 0xb6662d3d)
  }

  function TableRows1(hi: bv8, lo: bv8): bv32 {
    if hi == 4 then
      Pick(lo, 0x76dc4190, 0x01db7106, 0x98d220bc, 0xefd5102a, 0x71b18589, 0x06b6b51f, 0x9fbfe4a5, 0xe8b8d433,
               0x7807c9a2, 0x0f00f934, 0x9609a88e, 0xe10e9818, 0x7f6a0dbb, 0x086d3d2d, 0x91646c97, 0xe6635c01)
    else if hi == 5 then
      Pick(lo, 0x6b6b51f4, 0x1c6c6162, 0x856530d8, 0xf262004e, 0x6c0695ed, 0x1b01a57b, 0x8208f4c1, 0xf50fc457,
               0x65b0d9c6, 0x12b7e950, 0x8bbeb8ea, 0xfcb9887c, 0x62dd1ddf, 0x15da2d49, 0x8cd37cf3, 0xfbd44c65)
    else if hi == 6 then
      Pick(lo, 0x4db26158, 0x3ab551ce, 0xa3bc0074, 0xd4bb30e2, 0x4adfa541, 0x3dd895d7, 0xa4d1c46d, 0xd3d6f4fb,
               0x4369e96a, 0x346ed9fc, 0xad678846, 0xda60b8d0, 0x44042d73, 0x33031de5, 0xaa0a4c5f, 0xdd0d7cc9)
    else
      Pick(lo, 0x5005713c, 0x270241aa, 0xbe0b1010, 0xc90c2086, 0x5768b525, 0x206f85b3, 0xb966d409, 0xce61e49f,
               0x5edef90e, 0x29d9c998, 0xb0d09822, 0xc7d7a8b4, 0x59b33d17, 0x2eb40d81, 0xb7bd5c3b, 0xc0ba6cad)
  }

  function TableRows2(hi: bv8, lo: bv8): bv32 {
    if hi == 8 then
      Pick(lo, 0xedb88320, 0x9abfb3b6, 0x03b6e20c, 0x74b1d29a, 0xead54739, 0x9dd277af, 0x04db2615, 0x73dc1683,
               0xe3630b12, 0x94643b84, 0x0d6d6a3e, 0x7a6a5aa8, 0xe40ecf0b, 0x9309ff9d, 0x0a00ae27, 0x7d079eb1)
    else if hi == 9 then
      Pick(lo, 0xf00f9344, 0x8708a3d2, 0x1e01f268, 0x6906c2fe, 0xf762575d, 0x806567cb, 0x196c3671, 0x6e6b06e7,
               0xfed41b76, 0x89d32be0, 0x10da7a5a, 0x67dd4acc, 0xf9b9df6f, 0x8ebeeff9, 0x17b7be43, 0x60b08ed5)
    else if hi == 10 then
      Pick(lo, 0xd6d6a3e8, 0xa1d1937e, 0x38d8c2c4, 0x4fdff252, 0xd1bb67f1, 0xa6bc5767, 0x3fb506dd, 0x48b2364b,
               0xd80d2bda, 0xaf0a1b4c, 0x36034af6, 0x41047a60, 0xdf60efc3, 0xa867df55, 0x316e8eef, 0x4669be79)
    else
      Pick(lo, 0xcb61b38c, 0xbc66831a, 0x256fd2a0, 0x5268e236, 0xcc0c7795, 0xbb0b4703, 0x220216b9, 0x5505262f,
               0xc5ba3bbe, 0xb2bd0b28, 0x2bb45a92, 0x5cb36a04, 0xc2d7ffa7, 0xb5d0cf31, 0x2cd99e8b, 0x5bdeae1d)
  }

  function TableRows3(hi: bv8, lo: bv8): bv32 {
    if hi == 12 then
      Pick(lo, 0x9b64c2b0, 0xec63f226, 0x756aa39c, 0x026d930a, 0x9c0906a9, 0xeb0e363f, 0x72076785, 0x05005713,
               0x95bf4a82, 0xe2b87a14, 0x7bb12bae, 0x0cb61b38, 0x92d28e9b, 0xe5d5be0d, 0x7cdcefb7, 0x0bdbdf21)
    else if hi == 13 then
      Pick(lo, 0x86d3d2d4, 0xf1d4e242, 0x68ddb3f8, 0x1fda836e, 0x81be16cd, 0xf6b9265b, 0x6fb077e1, 0x18b74777,
               0x88085ae6, 0xff0f6a70, 0x66063bca, 0x11010b5c, 0x8f659eff, 0xf862ae69, 0x616bffd3, 0x166ccf45)
    else if hi == 14 then
      Pick(lo, 0xa00ae278, 0xd70dd2ee, 0x4e048354, 0x3903b3c2, 0xa7672661, 0xd06016f7, 0x4969474d, 0x3e6e77db,
               0xaed16a4a, 0xd9d65adc, 0x40df0b66, 0x37d83bf0, 0xa9bcae53, 0xdebb9ec5, 0x47b2cf7f, 0x30b5ffe9)
    else
      Pick(lo, 0xbdbdf21c, 0xcabac28a, 0x53b39330, 0x24b4a3a6, 0xbad03605, 0xcdd70693, 0x54de5729, 0x23d967bf,
               0xb3667a2e, 0xc4614ab8, 0x5d681b02, 0x2a6f2b94, 0xb40bbe37, 0xc30c8ea1, 0x5a05df1b, 0x2d02ef8d)
  }

  /** `crc32_table[i]`: row i >> 4, column i & 15. */
  function Table(i: bv8): bv32 {
    var hi, lo := i >> 4, i & 0x0f;
    if hi < 4 then TableRows0(hi, lo) else if hi < 8 then TableRows1(hi, lo)
    else if hi < 12 then TableRows2(hi, lo) else TableRows3(hi, lo)
  }

  /** The loop body: fold one byte into the register. */
  function TableStep(table: bv8 -> bv32, crc: bv32, b: bv8): bv32 {
    table(((crc ^ (b as bv32)) & 0xff) as bv8) ^ (crc >> 8)
  }

  /** Fold a message into a register, first element first. */
  function Fold<T, B>(step: (T, B) -> T, r: T, data: seq<B>): T {
    if data == [] then r else step(Fold(step, r, data[..|data| - 1]), data[|data| - 1])
  }

  /** A fold between two complements. */
  function Inverted<T, B>(not: T -> T, step: (T, B) -> T, crc: T, data: seq<B>): T { not(Fold(step, not(crc), data)) }

  function Not(x: bv32): bv32 { !x }

  function ByteStep(table: bv8 -> bv32): (bv32, bv8) -> bv32 { (r: bv32, b: bv8) => TableStep(table, r, b) }

  function Crc32(table: bv8 -> bv32, crc: bv32, data: seq<bv8>): bv32 { Inverted(Not, ByteStep(table), crc, data) }

  /** `gnu_debuglink_crc32`; the code's table is `Table`. */
  method GnuDebuglinkCrc32(table: bv8 -> bv32, crc: bv32, buf: array<bv8>, len: nat) returns (r: bv32)
    requires len <= buf.Length
    ensures r == Crc32(table, crc, buf[..len])
  {
    r := Complement(crc);
    r := FoldBuffer(table, r, buf, len);
    r := Complement(r);
  }

  method Complement(x: bv32) returns (r: bv32)
    ensures r == Not(x)
  {
    r := !x & 0xffffffff;
  }

  method FoldBuffer(table: bv8 -> bv32, crc: bv32, buf: array<bv8>, len: nat) returns (r: bv32)
    requires len <= buf.Length
    ensures r == Fold(ByteStep(table), crc, buf[..len])
  {
    var step := ByteStep(table);
    r := crc;
    var i := 0;
    while i < len
      invariant 0 <= i <= len
      invariant r == Fold(step, crc, buf[..i])
    {
      assert buf[..i + 1][..i] == buf[..i];
      r := step(r, buf[i]);
      i := i + 1;
    }
  }

  // ---------- the table is eight division steps ----------

  const POLY: bv32 := 0xEDB88320

  /** One step of division: drop the leading coefficient, subtracting the divisor if it was one. */
  function Shift(r: bv32): bv32 { if r & 1 == 1 then (r >> 1) ^ POLY else r >> 1 }

  function Shift8(r: bv32): bv32 { Shift(Shift(Shift(Shift(Shift(Shift(Shift(Shift(r)))))))) }

  lemma Row0(lo: bv8)
    requires lo < 16
    ensures TableRows0(0, lo) == Shift8((0 | lo) as bv32)
  {
    if lo < 8 {
    } else if lo < 12 {
    }
  }

  lemma Row1(lo: bv8)
    requires lo < 16
    ensures TableRows0(1, lo) == Shift8((16 | lo) as bv32)
  {
    if lo < 8 {
    } else if lo < 12 {
    }
  }

  lemma Row2(lo: bv8)
    requires lo < 16
    ensures TableRows0(2, lo) == Shift8((32 | lo) as bv32)
  {
    if lo < 8 {
    } else if lo < 12 {
    }
  }

  lemma Row3(lo: bv8)
    requires lo < 16
    ensures TableRows0(3, lo) == Shift8((48 | lo) as bv32)
  {
    if lo < 8 {
    } else if lo < 12 {
    }
  }

  lemma Row4(lo: bv8)
    requires lo < 16
    ensures TableRows1(4, lo) == Shift8((64 | lo) as bv32)
  {
    if lo < 8 {
    } else if lo < 12 {
    }
  }

  lemma Row5(lo: bv8)
    requires lo < 16
    ensures TableRows1(5, lo) == Shift8((80 | lo) as bv32)
  {
    if lo < 8 {
    } else if lo < 12 {
    }
  }

  lemma Row6(lo: bv8)
    requires lo < 16
    ensures TableRows1(6, lo) == Shift8((96 | lo) as bv32)
  {
    if lo < 8 {
    } else if lo < 12 {
    }
  }

  lemma Row7(lo: bv8)
    requires lo < 16
    ensures TableRows1(7, lo) == Shift8((112 | lo) as bv32)
  {
    if lo < 8 {
    } else if lo < 12 {
    }
  }

  lemma Row8(lo: bv8)
    requires lo < 16
    ensures TableRows2(8, lo) == Shift8((128 | lo) as bv32)
  {
    if lo < 8 {
    } else if lo < 12 {
    }
  }

  lemma Row9(lo: bv8)
    requires lo < 16
    ensures TableRows2(9, lo) == Shift8((144 | lo) as bv32)
  {
    if lo < 8 {
    } else if lo < 12 {
    }
  }

  lemma Row10(lo: bv8)
    requires lo < 16
    ensures TableRows2(10, lo) == Shift8((160 | lo) as bv32)
  {
    if lo < 8 {
    } else if lo < 12 {
    }
  }

  lemma Row11(lo: bv8)
    requires lo < 16
    ensures TableRows2(11, lo) == Shift8((176 | lo) as bv32)
  {
    if lo < 8 {
    } else if lo < 12 {
    }
  }

  lemma Row12(lo: bv8)
    requires lo < 16
    ensures TableRows3(12, lo) == Shift8((192 | lo) as bv32)
  {
    if lo < 8 {
    } else if lo < 12 {
    }
  }

  lemma Row13(lo: bv8)
    requires lo < 16
    ensures TableRows3(13, lo) == Shift8((208 | lo) as bv32)
  {
    if lo < 8 {
    } else if lo < 12 {
    }
  }

  lemma Row14(lo: bv8)
    requires lo < 16
    ensures TableRows3(14, lo) == Shift8((224 | lo) as bv32)
  {
    if lo < 8 {
    } else if lo < 12 {
    }
  }

  lemma Row15(lo: bv8)
    requires lo < 16
    ensures TableRows3(15, lo) == Shift8((240 | lo) as bv32)
  {
    if lo < 8 {
    } else if lo < 12 {
    }
  }

  /** Every entry of the published table is its index divided through eight times. */
  lemma TableIsShift8(i: bv8)
    ensures Table(i) == Shift8(i as bv32)
  {
    var hi, lo := i >> 4, i & 0x0f;
    Nibbles(i, hi, lo);
    if hi < 4 {
      Rows0(hi, lo);
    } else if hi < 8 {
      Rows1(hi, lo);
    } else if hi < 12 {
      Rows2(hi, lo);
    } else {
      Rows3(hi, lo);
    }
  }

  lemma Nibbles(i: bv8, hi: bv8, lo: bv8)
    requires hi == i >> 4 && lo == i & 0x0f
    ensures i == (hi << 4) | lo && hi < 16 && lo < 16
  {
  }

  lemma Rows0(hi: bv8, lo: bv8)
    requires 0 <= hi < 4 && lo < 16
    ensures TableRows0(hi, lo) == Shift8(((hi << 4) | lo) as bv32)
  {
    if hi == 0 {
      Row0(lo);
    } else if hi == 1 {
      Row1(lo);
    } else if hi == 2 {
      Row2(lo);
    } else {
      Row3(lo);
    }
  }

  lemma Rows1(hi: bv8, lo: bv8)
    requires 4 <= hi < 8 && lo < 16
    ensures TableRows1(hi, lo) == Shift8(((hi << 4) | lo) as bv32)
  {
    if hi == 4 {
      Row4(lo);
    } else if hi == 5 {
      Row5(lo);
    } else if hi == 6 {
      Row6(lo);
    } else {
      Row7(lo);
    }
  }

  lemma Rows2(hi: bv8, lo: bv8)
    requires 8 <= hi < 12 && lo < 16
    ensures TableRows2(hi, lo) == Shift8(((hi << 4) | lo) as bv32)
  {
    if hi == 8 {
      Row8(lo);
    } else if hi == 9 {
      Row9(lo);
    } else if hi == 10 {
      Row10(lo);
    } else {
      Row11(lo);
    }
  }

  lemma Rows3(hi: bv8, lo: bv8)
    requires 12 <= hi < 16 && lo < 16
    ensures TableRows3(hi, lo) == Shift8(((hi << 4) | lo) as bv32)
  {
    if hi == 12 {
      Row12(lo);
    } else if hi == 13 {
      Row13(lo);
    } else if hi == 14 {
      Row14(lo);
    } else {
      Row15(lo);
    }
  }

  // ---------- polynomial long division over GF(2) ----------

  /** The bit that holds coefficient i of a reflected polynomial. */
  function Mask(i: nat): bv32 { if i == 0 then 1 else Mask(i - 1) << 1 }

  /** Coefficient i of a reflected polynomial. */
  predicate Bit(r: bv32, i: nat) { r & Mask(i) != 0 }

  /** The 32 coefficients of r added to the coefficients of the message m times x^32. */
  function Dividend(r: bv32, m: seq<bool>): (w: seq<bool>)
    ensures |w| == |m| + 32
  {
    seq(|m| + 32, i requires 0 <= i < |m| + 32 => (i < 32 && Bit(r, i)) != (i < |m| && m[i]))
  }

  /** One step of long division by x^32 + POLY: if the leading coefficient is one, subtract the divisor;
      then drop the leading coefficient. */
  function Reduce(w: seq<bool>): seq<bool>
    requires |w| > 32
  {
    seq(|w| - 1, j requires 0 <= j < |w| - 1 => w[j + 1] != (w[0] && j < 32 && Bit(POLY, j)))
  }

  /** The remainder. */
  function Divide(w: seq<bool>): (r: seq<bool>)
    requires |w| >= 32
    ensures |r| == 32
    decreases |w|
  {
    if |w| == 32 then w else Divide(Reduce(w))
  }

  // ---------- the shift register computes the remainder ----------

  function BitStep(r: bv32, b: bool): bv32 { Shift(r ^ (if b then 1 else 0)) }

  /** Feed a message bit by bit into a register. */
  function Feed<T>(step: (T, bool) -> T, r: T, m: seq<bool>): T
    decreases |m|
  {
    if m == [] then r else Feed(step, step(r, m[0]), m[1..])
  }

  lemma XorMask(a: bv32, b: bv32, m: bv32)
    requires OneBit(m)
    ensures (a ^ b) & m != 0 <==> ((a & m != 0) != (b & m != 0))
  {
  }

  lemma ShiftMask(r: bv32, m: bv32)
    requires OneBit(m) && m < 0x80000000
    ensures (r >> 1) & m != 0 <==> r & (m << 1) != 0
  {
  }

  predicate OneBit(m: bv32) { m != 0 && m & (m - 1) == 0 }

  lemma DoubleOneBit(m: bv32)
    requires OneBit(m) && m < 0x80000000
    ensures OneBit(m << 1)
  {
  }

  lemma TopOneBit(m: bv32)
    requires OneBit(m) && m >= 0x80000000
    ensures m == 0x80000000 && m << 1 == 0
  {
  }

  lemma {:induction false} ZeroStays(i: nat, k: nat)
    requires Mask(i) == 0 && i <= k
    ensures Mask(k) == 0
  {
    if i < k {
      ZeroStays(i, k - 1);
    }
  }

  lemma MaskTop()
    ensures Mask(31) == 0x80000000
  {
    assert Mask(8) == 0x100;
    assert Mask(16) == 0x10000;
    assert Mask(24) == 0x1000000;
  }

  /** The first 32 masks are single bits, and only the last one is the top bit. */
  lemma {:induction false} MaskIsOneBit(i: nat)
    requires i < 32
    ensures OneBit(Mask(i)) && (i < 31 ==> Mask(i) < 0x80000000)
  {
    if i > 0 {
      MaskIsOneBit(i - 1);
      DoubleOneBit(Mask(i - 1));
    }
    if i < 31 && Mask(i) >= 0x80000000 {
      TopOneBit(Mask(i));
      ZeroStays(i + 1, 31);
      MaskTop();
    }
  }

  lemma LowBit(r: bv32, b: bool)
    ensures (r ^ (if b then 1 else 0)) & 1 == 1 <==> ((r & 1 != 0) != b)
    ensures (r ^ (if b then 1 else 0)) >> 1 == r >> 1
  {
  }

  lemma StepCases(r: bv32, b: bool)
    ensures BitStep(r, b) == if Bit(r, 0) != b then (r >> 1) ^ POLY else r >> 1
  {
    LowBit(r, b);
  }

  /** Shifting right moves coefficient j + 1 to j and clears the last one. */
  lemma ShiftBits(r: bv32, j: nat)
    requires j < 32
    ensures Bit(r >> 1, j) == (j < 31 && Bit(r, j + 1))
  {
    MaskIsOneBit(j);
    if j < 31 {
      ShiftMask(r, Mask(j));
    } else {
      MaskTop();
      assert (r >> 1) & 0x80000000 == 0;
    }
  }

  lemma XorBit(a: bv32, b: bv32, j: nat)
    requires j < 32
    ensures Bit(a ^ b, j) == (Bit(a, j) != Bit(b, j))
  {
    MaskIsOneBit(j);
    XorMask(a, b, Mask(j));
  }

  /** The register after one step, coefficient by coefficient. */
  lemma StepBits(r: bv32, b: bool, j: nat)
    requires j < 32
    ensures Bit(BitStep(r, b), j) == ((j < 31 && Bit(r, j + 1)) != ((Bit(r, 0) != b) && Bit(POLY, j)))
  {
    StepCases(r, b);
    if Bit(r, 0) != b {
      TakenBits(r, BitStep(r, b), j);
    } else {
      ShiftBits(r, j);
    }
  }

  lemma TakenBits(r: bv32, s: bv32, j: nat)
    requires j < 32 && s == (r >> 1) ^ POLY
    ensures Bit(s, j) == ((j < 31 && Bit(r, j + 1)) != Bit(POLY, j))
  {
    ShiftBits(r, j);
    XorBit(r >> 1, POLY, j);
  }

  /** One shift of the register is one step of the long division. */
  lemma StepReduces(r: bv32, m: seq<bool>)
    requires m != []
    ensures Reduce(Dividend(r, m)) == Dividend(BitStep(r, m[0]), m[1..])
  {
    var w, w' := Reduce(Dividend(r, m)), Dividend(BitStep(r, m[0]), m[1..]);
    forall j | 0 <= j < |w|
      ensures w[j] == w'[j]
    {
      if j < 32 {
        StepBits(r, m[0], j);
      }
    }
  }

  lemma {:induction false} FeedDivides(r: bv32, m: seq<bool>)
    ensures Divide(Dividend(r, m)) == Dividend(Feed(BitStep, r, m), [])
    decreases |m|
  {
    if m != [] {
      StepReduces(r, m);
      FeedDivides(BitStep(r, m[0]), m[1..]);
    }
  }

  // ---------- from bits to bytes ----------

  function Iterate<T>(f: T -> T, x: T, n: nat): T
    decreases n
  {
    if n == 0 then x else Iterate(f, f(x), n - 1)
  }

  /** The low bits of v, lowest first, as `half` drops them one by one. */
  function LowBits<T>(low: T -> bool, half: T -> T, v: T, n: nat): (m: seq<bool>)
    ensures |m| == n
    decreases n
  {
    if n == 0 then [] else [low(v)] + LowBits(low, half, half(v), n - 1)
  }

  /** Adding v before a shift is feeding its low bit and adding the rest afterwards. */
  ghost predicate Additive<T(!new)>(add: (T, T) -> T, shift: T -> T, step: (T, bool) -> T, low: T -> bool, half: T -> T) {
    forall r, v :: shift(add(r, v)) == add(step(r, low(v)), half(v))
  }

  /** Feeding a zero bit is a plain shift. */
  ghost predicate ZeroShifts<T(!new)>(shift: T -> T, step: (T, bool) -> T) {
    forall r :: step(r, false) == shift(r)
  }

  /** If adding v before a shift is feeding its low bit and adding the rest afterwards, then n shifts
      of r + v are feeding n bits of v into r and adding what is left of v. */
  lemma {:induction false} ShiftIsFeed<T(!new)>(add: (T, T) -> T, shift: T -> T, step: (T, bool) -> T,
                                                low: T -> bool, half: T -> T, r: T, v: T, n: nat)
    requires Additive(add, shift, step, low, half)
    ensures Iterate(shift, add(r, v), n) == add(Feed(step, r, LowBits(low, half, v, n)), Iterate(half, v, n))
    decreases n
  {
    if n > 0 {
      ShiftIsFeed(add, shift, step, low, half, step(r, low(v)), half(v), n - 1);
      assert LowBits(low, half, v, n)[1..] == LowBits(low, half, half(v), n - 1);
    }
  }

  lemma {:induction false} FeedAppend<T>(step: (T, bool) -> T, r: T, a: seq<bool>, b: seq<bool>)
    ensures Feed(step, r, a + b) == Feed(step, Feed(step, r, a), b)
    decreases |a|
  {
    if a == [] {
      assert a + b == b;
    } else {
      assert (a + b)[1..] == a[1..] + b;
      FeedAppend(step, step(r, a[0]), a[1..], b);
    }
  }

  lemma Iterate8<T>(f: T -> T, x: T)
    ensures Iterate(f, x, 8) == f(f(f(f(f(f(f(f(x))))))))
  {
    var x4 := f(f(f(f(x))));
    assert Iterate(f, x, 8) == Iterate(f, x4, 4);
  }

  lemma {:induction false} FeedZeros<T(!new)>(shift: T -> T, step: (T, bool) -> T, r: T, m: seq<bool>)
    requires forall k :: 0 <= k < |m| ==> !m[k]
    requires ZeroShifts(shift, step)
    ensures Feed(step, r, m) == Iterate(shift, r, |m|)
    decreases |m|
  {
    if m != [] {
      FeedZeros(shift, step, shift(r), m[1..]);
    }
  }

  lemma EightZeros<T>(low: T -> bool, half: T -> T, v: T)
    requires !low(v) && !low(half(v)) && !low(half(half(v))) && !low(half(half(half(v))))
    requires var w := half(half(half(half(v)))); !low(w) && !low(half(w)) && !low(half(half(w))) && !low(half(half(half(w))))
    ensures forall k :: 0 <= k < 8 ==> !LowBits(low, half, v, 8)[k]
  {
    var w := half(half(half(half(v))));
    assert LowBits(low, half, w, 4) == [low(w), low(half(w)), low(half(half(w))), low(half(half(half(w))))];
    assert LowBits(low, half, v, 8) == [low(v), low(half(v)), low(half(half(v))), low(half(half(half(v))))] + LowBits(low, half, w, 4);
  }

  // ---------- the 32-bit register ----------

  predicate Low(v: bv32) { v & 1 == 1 }

  function Half(v: bv32): bv32 { v >> 1 }

  function Add(a: bv32, b: bv32): bv32 { a ^ b }

  lemma SumTaken(r: bv32, v: bv32)
    ensures ((r ^ v) >> 1) ^ POLY == (((r ^ (v & 1)) >> 1) ^ POLY) ^ (v >> 1)
  {
  }

  lemma SumPlain(r: bv32, v: bv32)
    ensures (r ^ v) >> 1 == ((r ^ (v & 1)) >> 1) ^ (v >> 1)
  {
  }

  lemma SumLow(r: bv32, v: bv32)
    ensures (r ^ v) & 1 == (r ^ (v & 1)) & 1
  {
  }

  /** Shifting a sum of r and v is shifting r with v's low bit added, and adding the rest of v. */
  lemma ShiftedSum(r: bv32, v: bv32, s: bv32, t: bv32)
    requires s == Shift(r ^ v) && t == Shift(r ^ (v & 1))
    ensures s == t ^ (v >> 1)
  {
    SumLow(r, v);
    if (r ^ v) & 1 == 1 {
      TakenSum(r, v, s, t);
    } else {
      SumPlain(r, v);
    }
  }

  lemma TakenSum(r: bv32, v: bv32, s: bv32, t: bv32)
    requires (r ^ v) & 1 == 1 && s == ((r ^ v) >> 1) ^ POLY && t == ((r ^ (v & 1)) >> 1) ^ POLY
    ensures s == t ^ (v >> 1)
  {
    SumTaken(r, v);
  }

  lemma ShiftAdd(r: bv32, v: bv32, s: bv32, t: bv32)
    requires s == Shift(r ^ v) && t == Shift(r ^ (v & 1))
    ensures s == Add(t, Half(v))
  {
    ShiftedSum(r, v, s, t);
  }

  lemma LowValue(v: bv32)
    ensures (if Low(v) then 1 else 0) == v & 1
  {
  }

  lemma FedLow(r: bv32, v: bv32)
    ensures BitStep(r, Low(v)) == Shift(r ^ (v & 1))
  {
    LowValue(v);
  }

  /** Adding v before a shift is feeding its low bit and adding the rest afterwards. */
  lemma ShiftAdds(r: bv32, v: bv32)
    ensures Shift(Add(r, v)) == Add(BitStep(r, Low(v)), Half(v))
  {
    FedLow(r, v);
    ShiftAdd(r, v, Shift(r ^ v), BitStep(r, Low(v)));
  }

  lemma AddZero(a: bv32)
    ensures Add(a, 0) == a
  {
  }

  lemma ByteShiftedOut(b: bv8, n: nat)
    requires n == 8
    ensures Iterate(Half, b as bv32, n) == 0
  {
    Iterate8(Half, b as bv32);
  }

  lemma EightHalves(v: bv32)
    ensures Half(Half(Half(Half(Half(Half(Half(Half(v)))))))) == v >> 8
  {
  }

  lemma LowAndHigh(x: bv32)
    ensures Add(x & 0xff, x & 0xffffff00) == x && (x & 0xffffff00) >> 8 == x >> 8
  {
  }

  lemma HighShifted(x: bv32, n: nat)
    requires n == 8
    ensures Iterate(Half, x & 0xffffff00, n) == x >> 8
  {
    var v := x & 0xffffff00;
    EightHalves(v);
    LowAndHigh(x);
    Iterate8(Half, v);
  }

  lemma HighHasNoLowBits(x: bv32, n: nat, m: seq<bool>)
    requires n == 8 && m == LowBits(Low, Half, x & 0xffffff00, n)
    ensures forall k :: 0 <= k < |m| ==> !m[k]
  {
    EightZeros(Low, Half, x & 0xffffff00);
  }

  /** Feeding a byte bit by bit is eight shifts of the register with the byte added. */
  lemma FeedByte(shift: bv32 -> bv32, step: (bv32, bool) -> bv32, r: bv32, b: bv8, n: nat)
    requires n == 8 && Additive(Add, shift, step, Low, Half)
    ensures Feed(step, r, LowBits(Low, Half, b as bv32, n)) == Iterate(shift, Add(r, b as bv32), n)
  {
    var v := b as bv32;
    ShiftIsFeed(Add, shift, step, Low, Half, r, v, n);
    ByteShiftedOut(b, n);
    AddZero(Feed(step, r, LowBits(Low, Half, v, n)));
  }

  lemma SplitAt(shift: bv32 -> bv32, step: (bv32, bool) -> bv32, r: bv32, v: bv32, n: nat, m: seq<bool>)
    requires Additive(Add, shift, step, Low, Half)
    requires m == LowBits(Low, Half, v, n)
    ensures Iterate(shift, Add(r, v), n) == Add(Feed(step, r, m), Iterate(Half, v, n))
  {
    ShiftIsFeed(Add, shift, step, Low, Half, r, v, n);
  }

  /** Eight shifts of a register are eight shifts of its low byte, plus the rest moved down. */
  lemma SplitByte(shift: bv32 -> bv32, step: (bv32, bool) -> bv32, x: bv32, low: bv32, high: bv32, n: nat)
    requires n == 8 && Additive(Add, shift, step, Low, Half) && ZeroShifts(shift, step)
    requires low == x & 0xff && high == x & 0xffffff00
    ensures Iterate(shift, Add(low, high), n) == Add(Iterate(shift, low, n), x >> 8)
  {
    HighShifted(x, n);
    var m := LowBits(Low, Half, high, n);
    HighHasNoLowBits(x, n, m);
    SplitAt(shift, step, low, high, n, m);
    FeedZeros(shift, step, low, m);
  }

  lemma ShiftIsAdditive()
    ensures Additive(Add, Shift, BitStep, Low, Half) && ZeroShifts(Shift, BitStep)
  {
    forall r: bv32, v: bv32
      ensures Shift(Add(r, v)) == Add(BitStep(r, Low(v)), Half(v))
    {
      ShiftAdds(r, v);
    }
  }

  // ---------- the table-driven checksum ----------

  ghost predicate TableShifts(table: bv8 -> bv32, shift: bv32 -> bv32, n: nat) {
    forall i: bv8 :: table(i) == Iterate(shift, i as bv32, n)
  }

  lemma TableIsRight(n: nat)
    requires n == 8
    ensures TableShifts(Table, Shift, n)
  {
    forall i: bv8
      ensures Table(i) == Iterate(Shift, i as bv32, n)
    {
      TableIsShift8(i);
      Iterate8(Shift, i as bv32);
    }
  }

  lemma LowByte(r: bv32, v: bv32, x: bv32, low: bv32)
    requires v < 256 && x == Add(r, v) && low == x & 0xff
    ensures ((r ^ v) & 0xff) as bv8 as bv32 == low && x >> 8 == r >> 8
  {
  }

  lemma LookUp(table: bv8 -> bv32, shift: bv32 -> bv32, r: bv32, b: bv8, x: bv32, low: bv32, n: nat)
    requires TableShifts(table, shift, n) && x == Add(r, b as bv32) && low == x & 0xff
    ensures TableStep(table, r, b) == Add(Iterate(shift, low, n), x >> 8)
  {
    var i := ((r ^ (b as bv32)) & 0xff) as bv8;
    LowByte(r, b as bv32, x, low);
    assert table(i) == Iterate(shift, low, n);
  }

  /** A look-up in a table of eight-fold shifts is feeding one byte. */
  lemma TableStepFeeds(table: bv8 -> bv32, shift: bv32 -> bv32, step: (bv32, bool) -> bv32, r: bv32, b: bv8, x: bv32, n: nat)
    requires n == 8 && x == Add(r, b as bv32) && TableShifts(table, shift, n)
    requires Additive(Add, shift, step, Low, Half) && ZeroShifts(shift, step)
    ensures TableStep(table, r, b) == Feed(step, r, LowBits(Low, Half, b as bv32, n))
  {
    LookUp(table, shift, r, b, x, x & 0xff, n);
    SplitByte(shift, step, x, x & 0xff, x & 0xffffff00, n);
    FeedByte(shift, step, r, b, n);
    LowAndHigh(x);
  }

  /** The message bits: n (that is, 8) of each byte, least significant first. */
  function Bits(data: seq<bv8>, n: nat): seq<bool> {
    if data == [] then [] else Bits(data[..|data| - 1], n) + LowBits(Low, Half, data[|data| - 1] as bv32, n)
  }

  ghost predicate StepFeeds(table: bv8 -> bv32, step: (bv32, bool) -> bv32, n: nat) {
    forall r: bv32, b: bv8 :: TableStep(table, r, b) == Feed(step, r, LowBits(Low, Half, b as bv32, n))
  }

  lemma {:induction false} FoldFeeds(table: bv8 -> bv32, step: (bv32, bool) -> bv32, r: bv32, data: seq<bv8>, n: nat)
    requires StepFeeds(table, step, n)
    ensures Fold(ByteStep(table), r, data) == Feed(step, r, Bits(data, n))
  {
    if data != [] {
      var rest, b := data[..|data| - 1], data[|data| - 1];
      FoldFeeds(table, step, r, rest, n);
      FeedAppend(step, r, Bits(rest, n), LowBits(Low, Half, b as bv32, n));
    }
  }

  lemma TableFeeds(n: nat)
    requires n == 8
    ensures StepFeeds(Table, BitStep, n)
  {
    TableIsRight(n);
    ShiftIsAdditive();
    forall r: bv32, b: bv8
      ensures TableStep(Table, r, b) == Feed(BitStep, r, LowBits(Low, Half, b as bv32, n))
    {
      TableStepFeeds(Table, Shift, BitStep, r, b, Add(r, b as bv32), n);
    }
  }

  ghost predicate Involution<T(!new)>(not: T -> T) { forall x :: not(not(x)) == x }

  lemma NotTwice()
    ensures Involution(Not)
  {
  }

  lemma Uninverted<T(!new), B>(not: T -> T, step: (T, B) -> T, crc: T, data: seq<B>)
    requires Involution(not)
    ensures not(Inverted(not, step, crc, data)) == Fold(step, not(crc), data)
  {
  }

  /** The checksum of every byte string is the complemented remainder of long division: the message,
      least significant bit of each byte first, times x^32, with the complemented previous checksum
      added at its head, modulo the polynomial. */
  lemma CrcIsRemainder(crc: bv32, data: seq<bv8>)
    ensures Dividend(Not(Crc32(Table, crc, data)), []) == Divide(Dividend(Not(crc), Bits(data, 8)))
  {
    TableFeeds(8);
    RemainderFor(Table, crc, data, 8);
  }

  lemma RemainderFor(table: bv8 -> bv32, crc: bv32, data: seq<bv8>, n: nat)
    requires StepFeeds(table, BitStep, n)
    ensures Dividend(Not(Crc32(table, crc, data)), []) == Divide(Dividend(Not(crc), Bits(data, n)))
  {
    NotTwice();
    Uninverted(Not, ByteStep(table), crc, data);
    FoldFeeds(table, BitStep, Not(crc), data, n);
    FeedDivides(Not(crc), Bits(data, n));
  }

  /** Checksumming in pieces is checksumming the whole. */
  lemma CrcAppend(table: bv8 -> bv32, crc: bv32, a: seq<bv8>, b: seq<bv8>)
    ensures Crc32(table, Crc32(table, crc, a), b) == Crc32(table, crc, a + b)
  {
    NotTwice();
    InvertedAppend(Not, ByteStep(table), crc, a, b);
  }

  /** The complements between two pieces cancel. */
  lemma InvertedAppend<T(!new), B>(not: T -> T, step: (T, B) -> T, crc: T, a: seq<B>, b: seq<B>)
    requires Involution(not)
    ensures Inverted(not, step, Inverted(not, step, crc, a), b) == Inverted(not, step, crc, a + b)
  {
    Uninverted(not, step, crc, a);
    FoldAppend(step, not(crc), a, b);
  }

  lemma {:induction false} FoldAppend<T, B>(step: (T, B) -> T, r: T, a: seq<B>, b: seq<B>)
    ensures Fold(step, Fold(step, r, a), b) == Fold(step, r, a + b)
  {
    if b == [] {
      assert a + b == a;
    } else {
      FoldAppend(step, r, a, b[..|b| - 1]);
      assert (a + b)[..|a + b| - 1] == a + b[..|b| - 1];
    }
  }

  // ---------- checking a debug file ----------

  const BUFFER: nat := 8 * 1024

  /** What the successive `read` calls return: a length, or an error. At end of file they return 0. */
  datatype ReadResult = Got(n: nat) | Error

  ghost predicate Readable(file: seq<bv8>, pos: nat, results: seq<ReadResult>)
    requires pos <= |file|
    decreases |results|
  {
    results == [] ||
    match results[0]
    case Error => true
    case Got(n) => n <= BUFFER && pos + n <= |file| && Readable(file, pos + n, results[1..])
  }

  /** The bytes that reads of these lengths deliver. */
  function Total(results: seq<ReadResult>): nat {
    if results == [] then 0
    else Total(results[..|results| - 1]) + if results[|results| - 1].Got? then results[|results| - 1].n else 0
  }

  /** The first k reads deliver something, and the next one, if there is one, fails or is at the end of the file. */
  ghost predicate StopsAt(results: seq<ReadResult>, k: nat) {
    && k <= |results|
    && (forall i :: 0 <= i < k ==> results[i].Got? && results[i].n > 0)
    && (k < |results| ==> results[k].Error? || results[k].n == 0)
  }

  lemma StopsOnce(results: seq<ReadResult>, j: nat, k: nat)
    requires StopsAt(results, j) && StopsAt(results, k)
    ensures j == k
  {
  }

  lemma TotalNext(results: seq<ReadResult>, k: nat)
    requires k < |results| && results[k].Got?
    ensures Total(results[..k + 1]) == Total(results[..k]) + results[k].n
  {
    assert results[..k + 1][..k] == results[..k];
  }

  lemma NextPiece(table: bv8 -> bv32, file: seq<bv8>, pos: nat, len: nat)
    requires pos + len <= |file|
    ensures Crc32(table, Crc32(table, 0, file[..pos]), file[pos..pos + len]) == Crc32(table, 0, file[..pos + len])
  {
    CrcAppend(table, 0, file[..pos], file[pos..pos + len]);
    assert file[..pos] + file[pos..pos + len] == file[..pos + len];
  }

  /** The read loop of `open_debug_file`: the file is accepted iff the checksum of everything delivered up to the first
      read that fails or finds the end matches, however the reads are cut up; and so iff that of the whole file does, if
      they deliver it all. */
  method OpenDebugFile(table: bv8 -> bv32, file: seq<bv8>, results: seq<ReadResult>, crc: bv32)
    returns (accepted: bool, ghost k: nat)
    requires Readable(file, 0, results)
    ensures StopsAt(results, k) && Total(results[..k]) <= |file|
    ensures accepted <==> crc == Crc32(table, 0, file[..Total(results[..k])])
    ensures Total(results[..k]) == |file| ==> (accepted <==> crc == Crc32(table, 0, file))
  {
    var fileCrc: bv32 := 0;
    var buffer := new bv8[BUFFER];
    var pos, i := 0, 0;
    while i < |results| && results[i].Got? && results[i].n > 0
      invariant 0 <= i <= |results| && pos == Total(results[..i]) <= |file| && Readable(file, pos, results[i..])
      invariant forall j :: 0 <= j < i ==> results[j].Got? && results[j].n > 0
      invariant fileCrc == Crc32(table, 0, file[..pos])
    {
      var len := results[i].n;
      NextRead(file, pos, results, i);
      fileCrc := ReadPiece(table, file, pos, len, fileCrc, buffer);
      TotalNext(results, i);
      pos, i := pos + len, i + 1;
    }
    assert file[..|file|] == file;
    return crc == fileCrc, i;
  }

  lemma NextRead(file: seq<bv8>, pos: nat, results: seq<ReadResult>, i: nat)
    requires i < |results| && results[i].Got? && pos <= |file| && Readable(file, pos, results[i..])
    ensures results[i].n <= BUFFER && pos + results[i].n <= |file| && Readable(file, pos + results[i].n, results[i + 1..])
  {
    assert results[i..][1..] == results[i + 1..];
  }

  /** Read the next piece into the buffer and add it to the checksum. */
  method ReadPiece(table: bv8 -> bv32, file: seq<bv8>, pos: nat, len: nat, fileCrc: bv32, buffer: array<bv8>) returns (crc: bv32)
    requires pos + len <= |file| && len <= buffer.Length && fileCrc == Crc32(table, 0, file[..pos])
    modifies buffer
    ensures crc == Crc32(table, 0, file[..pos + len])
  {
    forall k | 0 <= k < len {
      buffer[k] := file[pos + k];
    }
    assert buffer[..len] == file[pos..pos + len];
    crc := GnuDebuglinkCrc32(table, fileCrc, buffer, len);
    NextPiece(table, file, pos, len);
  }
}
