/**
 C integer arithmetic over unbounded integers: the fixed widths the sources use,
 division that truncates toward zero, and single bits and nibbles of a byte.
 */
module CInt {

  type u8 = x: int | 0 <= x < 0x100
  type u16 = x: int | 0 <= x < 0x1_0000
  type u32 = x: int | 0 <= x < 0x1_0000_0000

  const I32_MIN := -0x8000_0000
  const I32_MAX := 0x7fff_ffff

  function U16(x: int): u16 { x % 0x1_0000 }
  function U32(x: int): u32 { x % 0x1_0000_0000 }

  predicate InI32(x: int) { I32_MIN <= x <= I32_MAX }

  /** A 16-bit value from its two bytes. */
  function Word(high: u8, low: u8): u16 { high as int * 0x100 + low as int }

  /** C's `/` for a positive divisor: truncation toward zero. */
  function CDiv(a: int, b: int): int
    requires b > 0
  {
    if a >= 0 then a / b else -((-a) / b)
  }

  function Min(a: int, b: int): int { if a < b then a else b }

  function Max(a: int, b: int): int { if a > b then a else b }

  function Abs(a: int): nat { if a < 0 then -a else a }

  function Clamp(x: int, lo: int, hi: int): int
    requires lo <= hi
  {
    if x > hi then hi else if x < lo then lo else x
  }

  function Pow2(n: nat): (p: nat)
    ensures p >= 1
  {
    if n == 0 then 1 else 2 * Pow2(n - 1)
  }

  /** 2^i for a bit position of a byte. */
  function BitValue(i: nat): (v: int)
    requires i < 8
    ensures 1 <= v <= 128
  {
    if i == 0 then 1 else if i == 1 then 2 else if i == 2 then 4 else if i == 3 then 8
    else if i == 4 then 16 else if i == 5 then 32 else if i == 6 then 64 else 128
  }

  function Bit(b: int, i: nat): (v: int)
    requires i < 8
    ensures 0 <= v <= 1
  {
    if i == 0 then b % 2 else if i == 1 then b / 2 % 2 else if i == 2 then b / 4 % 2
    else if i == 3 then b / 8 % 2 else if i == 4 then b / 16 % 2 else if i == 5 then b / 32 % 2
    else if i == 6 then b / 64 % 2 else b / 128 % 2
  }

  /** The high nibble (an even position) or the low nibble (an odd one) of a byte. */
  function Nibble(b: u8, low: bool): (v: int)
    ensures 0 <= v < 16
  {
    if low then b % 16 else b / 16
  }

  lemma MulAtLeast(k: int, n: int)
    requires k > 0
    ensures n >= 1 ==> k * n >= k
    ensures n <= -1 ==> k * n <= -k
  {
  }

  lemma MulAdds(k: int, a: int, b: int)
    ensures k * (a + b) == k * a + k * b && (a + b) * k == a * k + b * k
  {
  }

  lemma MulNonNegative(a: int, b: int)
    requires a >= 0 && b >= 0
    ensures a * b >= 0
  {
  }

  lemma MulDistributes(k: int, a: int, b: int)
    ensures k * (a - b) == k * a - k * b && (a - b) * k == a * k - b * k
  {
  }

  /** Quotient and remainder are unique. */
  lemma DivModUnique(x: int, k: int, q: int, r: int)
    requires k > 0 && x == k * q + r && 0 <= r < k
    ensures x / k == q && x % k == r
  {
    var q', r' := x / k, x % k;
    assert x == k * q' + r';
    MulDistributes(k, q, q');
    MulAtLeast(k, q - q');
  }

  /** Counting round a ring. */
  lemma NextModulo(x: nat, n: nat)
    requires n > 0
    ensures (x + 1) % n == if x % n + 1 < n then x % n + 1 else 0
  {
    var q, r := x / n, x % n;
    assert x == n * q + r;
    if r + 1 < n {
      DivModUnique(x + 1, n, q, r + 1);
    } else {
      assert x + 1 == n * (q + 1) + 0;
      DivModUnique(x + 1, n, q + 1, 0);
    }
  }

  // ----- a byte as its bits

  /** The byte with these bits, lowest first. */
  function FromBits(b: seq<nat>): int
    requires |b| == 8
  {
    b[0] + 2 * b[1] + 4 * b[2] + 8 * b[3] + 16 * b[4] + 32 * b[5] + 64 * b[6] + 128 * b[7]
  }

  predicate Bits(b: seq<nat>) { |b| == 8 && forall i :: 0 <= i < 8 ==> b[i] < 2 }

  lemma BitsUnique(b: seq<nat>, i: nat)
    requires Bits(b) && i < 8
    ensures 0 <= FromBits(b) < 256 && Bit(FromBits(b), i) == b[i]
  {
    var x := FromBits(b);
    var t7 := b[7];
    var t6 := b[6] + 2 * t7;
    var t5 := b[5] + 2 * t6;
    var t4 := b[4] + 2 * t5;
    var t3 := b[3] + 2 * t4;
    var t2 := b[2] + 2 * t3;
    var t1 := b[1] + 2 * t2;
    if i == 0 {
      DivModUnique(x, 2, t1, b[0]);
    } else if i == 1 {
      DivModUnique(x, 2, t1, b[0]);
      DivModUnique(t1, 2, t2, b[1]);
    } else if i == 2 {
      DivModUnique(x, 4, t2, b[0] + 2 * b[1]);
      DivModUnique(t2, 2, t3, b[2]);
    } else if i == 3 {
      DivModUnique(x, 8, t3, b[0] + 2 * b[1] + 4 * b[2]);
      DivModUnique(t3, 2, t4, b[3]);
    } else if i == 4 {
      DivModUnique(x, 16, t4, b[0] + 2 * b[1] + 4 * b[2] + 8 * b[3]);
      DivModUnique(t4, 2, t5, b[4]);
    } else if i == 5 {
      DivModUnique(x, 32, t5, b[0] + 2 * b[1] + 4 * b[2] + 8 * b[3] + 16 * b[4]);
      DivModUnique(t5, 2, t6, b[5]);
    } else if i == 6 {
      DivModUnique(x, 64, t6, b[0] + 2 * b[1] + 4 * b[2] + 8 * b[3] + 16 * b[4] + 32 * b[5]);
      DivModUnique(t6, 2, t7, b[6]);
    } else {
      DivModUnique(x, 128, t7, b[0] + 2 * b[1] + 4 * b[2] + 8 * b[3] + 16 * b[4] + 32 * b[5] + 64 * b[6]);
      DivModUnique(t7, 2, 0, b[7]);
    }
  }

  function ToBits(x: u8): (b: seq<nat>)
    ensures |b| == 8
  {
    [Bit(x, 0), Bit(x, 1), Bit(x, 2), Bit(x, 3), Bit(x, 4), Bit(x, 5), Bit(x, 6), Bit(x, 7)]
  }

  lemma BitsOfByte(x: u8)
    ensures Bits(ToBits(x)) && FromBits(ToBits(x)) == x
  {
    HalveTwice(x, 2);
    HalveTwice(x, 4);
    HalveTwice(x, 8);
    HalveTwice(x, 16);
    HalveTwice(x, 32);
    HalveTwice(x, 64);
    HalveTwice(x, 128);
  }

  lemma HalveTwice(x: nat, a: nat)
    requires a > 0
    ensures x / (2 * a) == x / a / 2
  {
    var q, r := x / a, x % a;
    assert x == a * q + r;
    MulDistributes(a, q, q % 2);
    var h, l := q / 2, q % 2;
    assert a * q == a * (2 * h) + a * l;
    assert a * (2 * h) == 2 * a * h;
    DivModUnique(x, 2 * a, h, a * l + r);
  }
}
