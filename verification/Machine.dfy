/**
 Fixed-width machine arithmetic, written out over the unbounded integers: two's-complement
 conversions, 64-bit shifts, and byte images of integers in either byte order.
 */
module Machine {

  type byte = x: int | 0 <= x < 0x100
  type u32 = x: int | 0 <= x < 0x1_0000_0000
  type u64 = x: int | 0 <= x < 0x1_0000_0000_0000_0000
  type s8 = x: int | -0x80 <= x < 0x80
  type s16 = x: int | -0x8000 <= x < 0x8000
  type s64 = x: int | -0x8000_0000_0000_0000 <= x < 0x8000_0000_0000_0000

  const TWO_32: int := 0x1_0000_0000
  const TWO_64: int := 0x1_0000_0000_0000_0000

  // ----- conversions -----

  /** Go's and C's conversion of any integer to `uint64`. */
  function ToU64(x: int): u64 {
    x % TWO_64
  }

  function ToS64(x: int): s64 {
    var r := x % TWO_64;
    if r < 0x8000_0000_0000_0000 then r else r - TWO_64
  }

  function ToS8(x: int): s8 {
    var r := x % 0x100;
    if r < 0x80 then r else r - 0x100
  }

  function ToS16(x: int): s16 {
    var r := x % 0x1_0000;
    if r < 0x8000 then r else r - 0x1_0000
  }

  function Add64(x: u64, y: u64): u64 {
    (x + y) % TWO_64
  }

  function Sub64(x: u64, y: u64): u64 {
    (x - y) % TWO_64
  }

  lemma WrapAdd(x: int, y: int)
    ensures (x + y % TWO_64) % TWO_64 == (x + y) % TWO_64
  {
  }

  function Abs(x: int): nat {
    if x < 0 then -x else x
  }

  // ----- powers of two -----

  function Pow2(k: nat): (p: nat)
    ensures p >= 1
  {
    if k == 0 then 1 else 2 * Pow2(k - 1)
  }

  lemma {:induction false} Pow2Add(a: nat, b: nat)
    ensures Pow2(a + b) == Pow2(a) * Pow2(b)
  {
    if a == 0 {
    } else {
      Pow2Add(a - 1, b);
      assert a + b - 1 == a - 1 + b;
      assert Pow2(a) * Pow2(b) == 2 * (Pow2(a - 1) * Pow2(b));
    }
  }

  lemma Pow2Of64()
    ensures Pow2(8) == 0x100
    ensures Pow2(64) == TWO_64
  {
    assert Pow2(2) == 4;
    Pow2Add(2, 2);
    Pow2Add(4, 4);
    Pow2Add(8, 8);
    Pow2Add(16, 16);
    Pow2Add(32, 32);
  }

  lemma Pow2Of32()
    ensures Pow2(32) == TWO_32 && Pow2(16) == 0x1_0000
  {
    Pow2Of64();
    Pow2Add(8, 8);
    Pow2Add(16, 16);
  }

  // ----- division facts -----

  lemma DivModUnique(v: int, d: int, q: int, r: int)
    requires 0 < d && 0 <= r < d && v == q * d + r
    ensures v / d == q && v % d == r
  {
    var q', r' := v / d, v % d;
    assert v == q' * d + r';
    assert (q - q') * d == r' - r;
    if q < q' {
      assert (q' - q) * d >= d by { MulMonotone(1, q' - q, d); }
      assert false;
    } else if q' < q {
      assert (q - q') * d >= d by { MulMonotone(1, q - q', d); }
      assert false;
    }
  }

  lemma MulMonotone(a: int, b: int, d: int)
    requires a <= b && 0 <= d
    ensures a * d <= b * d
  {
  }

  lemma ScaledResidue(v: int, p: int, m: int)
    requires 0 < p && 0 < m
    ensures 0 < p * m && 0 <= v % m < m
    ensures (v * p) % (p * m) == (v % m) * p
  {
    var q, r := v / m, v % m;
    assert v == q * m + r;
    assert v * p == q * (p * m) + r * p by {
      assert v * p == (q * m) * p + r * p;
      assert (q * m) * p == q * (m * p);
    }
    MulMonotone(r, m - 1, p);
    assert (m - 1) * p == p * m - p;
    DivModUnique(v * p, p * m, q, r * p);
  }

  /** Splitting `t * c + b` (a low digit `b` in base `c`) at `c * m`. */
  lemma LowDigit(t: int, m: int, b: int, c: int)
    requires 0 < m && 0 <= b < c
    ensures 0 < c * m
    ensures (t * c + b) % (c * m) == (t % m) * c + b
    ensures (t * c + b) / (c * m) == t / m
  {
    var q, r := t / m, t % m;
    assert t == q * m + r;
    assert t * c + b == q * (c * m) + (r * c + b) by {
      assert t * c == (q * m) * c + r * c;
      assert (q * m) * c == q * (m * c);
    }
    MulMonotone(r, m - 1, c);
    assert (m - 1) * c == c * m - c;
    DivModUnique(t * c + b, c * m, q, r * c + b);
  }

  // ----- 64-bit shifts -----

  function Shl64(v: u64, k: nat): u64
    requires k < 64
  {
    (v * Pow2(k)) % TWO_64
  }

  /** Logical right shift of an `unsigned long`. */
  function Shr64(v: u64, k: nat): (r: u64)
    requires k < 64
  {
    DivBound(v, Pow2(k));
    v / Pow2(k)
  }

  /** Arithmetic right shift: `(long)v >> k`, converted back to `unsigned long`. */
  function Sar64(v: u64, k: nat): u64
    requires k < 64
  {
    ToU64(ToS64(v) / Pow2(k))
  }

  lemma DivBound(v: nat, d: nat)
    requires d >= 1
    ensures 0 <= v / d <= v
  {
  }

  /** The `m`-valued residue `r` read as a two's-complement number. */
  function SignExtend(r: int, m: int): int {
    if 2 * r >= m then r - m else r
  }

  /** Shifting left and back right (logically) keeps exactly the low `64 - k` bits. */
  lemma ShiftPairUnsigned(v: u64, k: nat)
    requires k < 64
    ensures Shr64(Shl64(v, k), k) == v % Pow2(64 - k)
  {
    var p, m := Pow2(k), Pow2(64 - k);
    ShiftLeftResidue(v, k);
    DivModUnique((v % m) * p, p, v % m, 0);
  }

  lemma ShiftLeftResidue(v: u64, k: nat)
    requires k < 64
    ensures Pow2(k) * Pow2(64 - k) == TWO_64
    ensures Shl64(v, k) == (v % Pow2(64 - k)) * Pow2(k)
    ensures 0 <= v % Pow2(64 - k) < Pow2(64 - k)
  {
    Pow2Add(k, 64 - k);
    Pow2Of64();
    ScaledResidue(v, Pow2(k), Pow2(64 - k));
  }

  /** Shifting left and back right (arithmetically) sign-extends the low `64 - k` bits. */
  lemma ShiftPairSigned(v: u64, k: nat)
    requires k < 64
    ensures ToS64(Sar64(Shl64(v, k), k)) == SignExtend(v % Pow2(64 - k), Pow2(64 - k))
  {
    ShiftLeftResidue(v, k);
    SignedQuotient(v % Pow2(64 - k), Pow2(k), Pow2(63 - k));
  }

  lemma SignedQuotient(r: int, p: int, h: int)
    requires 0 < p && 0 < h && p * (2 * h) == TWO_64 && 0 <= r < 2 * h
    ensures ToS64(ToU64(ToS64(r * p) / p)) == SignExtend(r, 2 * h)
  {
    assert h * p == TWO_64 / 2;
    if r >= h {
      NegativeQuotient(r, p, h);
    } else {
      PositiveQuotient(r, p, h);
    }
  }

  lemma NegativeQuotient(r: int, p: int, h: int)
    requires 0 < p && 0 < h && h * p == TWO_64 / 2 && h <= r < 2 * h
    ensures ToS64(ToU64(ToS64(r * p) / p)) == r - 2 * h
  {
    var d := r - 2 * h;
    MulMonotone(1, p, h);
    MulMonotone(-h, d, p);
    MulMonotone(d, -1, p);
    assert d * p == r * p - TWO_64 by { assert d * p == r * p - 2 * (h * p); }
    ToS64Negative(d * p, r * p);
    DivModUnique(d * p, p, d, 0);
    ToS64Negative(d, d + TWO_64);
  }

  lemma PositiveQuotient(r: int, p: int, h: int)
    requires 0 < p && 0 < h && h * p == TWO_64 / 2 && 0 <= r < h
    ensures ToS64(ToU64(ToS64(r * p) / p)) == r
  {
    MulMonotone(1, p, h);
    MulMonotone(r, h - 1, p);
    MulMonotone(0, r, p);
    assert (h - 1) * p == TWO_64 / 2 - p by { assert (h - 1) * p == h * p - p; }
    ToS64Positive(r * p);
    DivModUnique(r * p, p, r, 0);
    ToS64Positive(r);
  }

  lemma ToS64Negative(x: int, y: int)
    requires -TWO_64 / 2 <= x < 0 && y == x + TWO_64
    ensures ToS64(y) == x && ToU64(x) == y
  {
  }

  lemma ToS64Positive(x: int)
    requires 0 <= x < TWO_64 / 2
    ensures ToS64(x) == x && ToU64(x) == x
  {
  }

  // ----- byte images -----

  datatype Endian = Little | Big

  function DecodeLittle(bs: seq<byte>): nat {
    if bs == [] then 0 else bs[0] + 0x100 * DecodeLittle(bs[1..])
  }

  function DecodeBig(bs: seq<byte>): nat {
    if bs == [] then 0 else DecodeBig(bs[..|bs| - 1]) * 0x100 + bs[|bs| - 1]
  }

  function Decode(e: Endian, bs: seq<byte>): nat {
    if e.Little? then DecodeLittle(bs) else DecodeBig(bs)
  }

  function EncodeLittle(v: nat, n: nat): (bs: seq<byte>)
    ensures |bs| == n
  {
    if n == 0 then [] else [v % 0x100] + EncodeLittle(v / 0x100, n - 1)
  }

  function EncodeBig(v: nat, n: nat): (bs: seq<byte>)
    ensures |bs| == n
  {
    if n == 0 then [] else EncodeBig(v / 0x100, n - 1) + [v % 0x100]
  }

  function Encode(e: Endian, v: nat, n: nat): (bs: seq<byte>)
    ensures |bs| == n
  {
    if e.Little? then EncodeLittle(v, n) else EncodeBig(v, n)
  }

  lemma {:induction false} DecodeBound(e: Endian, bs: seq<byte>)
    ensures Decode(e, bs) < Pow2(8 * |bs|)
  {
    if bs != [] {
      DecodeBound(e, if e.Little? then bs[1..] else bs[..|bs| - 1]);
      Pow2Add(8, 8 * (|bs| - 1));
      Pow2Of64();
    }
  }

  /** An integer that fits in `n` bytes survives being written and read back in either byte order. */
  lemma {:induction false} DecodeEncode(e: Endian, v: nat, n: nat)
    requires v < Pow2(8 * n)
    ensures Decode(e, Encode(e, v, n)) == v
  {
    if n != 0 {
      Pow2Add(8, 8 * (n - 1));
      Pow2Of64();
      DecodeEncode(e, v / 0x100, n - 1);
      var bs := Encode(e, v, n);
      if e.Little? {
        assert bs[1..] == EncodeLittle(v / 0x100, n - 1);
      } else {
        assert bs[..n - 1] == EncodeBig(v / 0x100, n - 1);
      }
    }
  }

  /** Byte `i` of an encoding: the i-th lowest of the value, or the i-th highest of its `n`. */
  lemma {:induction false} EncodedByte(e: Endian, v: nat, n: nat, i: nat)
    requires i < n
    ensures Encode(e, v, n)[i] == v / Pow2(8 * if e.Little? then i else n - 1 - i) % 0x100
  {
    Pow2Of64();
    if e.Little? && i > 0 {
      EncodedByte(e, v / 0x100, n - 1, i - 1);
      NextByte(v, i);
    } else if e.Big? && i < n - 1 {
      EncodedByte(e, v / 0x100, n - 1, i);
      NextByte(v, n - 1 - i);
    }
  }

  lemma NextByte(v: nat, k: nat)
    requires k > 0
    ensures v / 0x100 / Pow2(8 * (k - 1)) == v / Pow2(8 * k)
  {
    Pow2Add(8, 8 * (k - 1));
    Pow2Of64();
    DivDiv(v, 0x100, Pow2(8 * (k - 1)));
  }

  lemma DivDiv(v: nat, a: nat, b: nat)
    requires a > 0 && b > 0
    ensures a * b > 0 && v / a / b == v / (a * b)
  {
    var q, r := v / a, v % a;
    var q', r' := q / b, q % b;
    assert v == q * a + r && q == q' * b + r';
    MulMonotone(r', b - 1, a);
    assert v == q' * (a * b) + (r' * a + r) by {
      assert q * a == (q' * b) * a + r' * a;
      assert (q' * b) * a == q' * (a * b);
    }
    assert r' * a + r < a * b by { assert (b - 1) * a == a * b - a; }
    DivModUnique(v, a * b, q', r' * a + r);
  }

  /** The first `n` little-endian bytes are the value modulo 256^n. */
  lemma {:induction false} LittlePrefix(bs: seq<byte>, n: nat)
    requires n <= |bs|
    ensures DecodeLittle(bs[..n]) == DecodeLittle(bs) % Pow2(8 * n)
  {
    if n != 0 {
      var tail := bs[1..];
      LittlePrefix(tail, n - 1);
      assert bs[..n][1..] == tail[..n - 1];
      Pow2Add(8, 8 * (n - 1));
      Pow2Of64();
      LowDigit(DecodeLittle(tail), Pow2(8 * (n - 1)), bs[0], 0x100);
    }
  }

  /** The first `n` big-endian bytes are the value shifted right by the bits of the others. */
  lemma {:induction false} BigPrefix(bs: seq<byte>, n: nat)
    requires n <= |bs|
    ensures DecodeBig(bs[..n]) == DecodeBig(bs) / Pow2(8 * (|bs| - n))
    decreases |bs| - n
  {
    if n == |bs| {
      assert bs[..n] == bs;
    } else {
      var init := bs[..|bs| - 1];
      BigPrefix(init, n);
      assert init[..n] == bs[..n];
      Pow2Add(8, 8 * (|bs| - 1 - n));
      Pow2Of64();
      LowDigit(DecodeBig(init), Pow2(8 * (|bs| - 1 - n)), bs[|bs| - 1], 0x100);
    }
  }
}
