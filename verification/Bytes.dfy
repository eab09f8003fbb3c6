/** Bytes, fixed-width integer encodings and powers of two. */
module Bytes {

  type byte = b: int | 0 <= b < 256

  /** A SHA-256 output (section 6.2 of FIPS 180-4): always 32 bytes. */
  type Digest = d: seq<byte> | |d| == 32 witness seq(32, i => 0)

  datatype Option<+T> = None | Some(value: T)

  function Pow2(n: nat): (p: nat)
    ensures p >= 1
  {
    if n == 0 then 1 else 2 * Pow2(n - 1)
  }

  lemma {:induction false} Pow2Add(m: nat, n: nat)
    ensures Pow2(m + n) == Pow2(m) * Pow2(n)
  {
    if m > 0 {
      Pow2Add(m - 1, n);
      Associates(2, Pow2(m - 1), Pow2(n));
    }
  }

  lemma Associates(a: nat, b: nat, c: nat)
    ensures a * (b * c) == (a * b) * c
  {
  }

  lemma Pow2Of8()
    ensures Pow2(8) == 256
  {
  }

  lemma {:induction false} Pow2Monotone(m: nat, n: nat)
    requires m < n
    ensures 2 * Pow2(m) <= Pow2(n)
  {
    if m + 1 < n {
      Pow2Monotone(m, n - 1);
    }
  }

  lemma MulMonotone(a: nat, b: nat, p: nat)
    requires a <= b
    ensures a * p <= b * p
  {
  }

  lemma MulSuccessor(a: nat, p: nat)
    ensures (a + 1) * p == a * p + p
  {
  }

  /** The number a big-endian byte string denotes. */
  function BigEndian(s: seq<byte>): (v: nat)
  {
    if s == [] then 0 else s[0] * Pow2(8 * (|s| - 1)) + BigEndian(s[1..])
  }

  lemma {:induction false} BigEndianBound(s: seq<byte>)
    ensures BigEndian(s) < Pow2(8 * |s|)
  {
    if s != [] {
      BigEndianBound(s[1..]);
      var k := 8 * (|s| - 1);
      Pow2Add(8, k);
      Pow2Of8();
      assert 8 + k == 8 * |s|;
      MulMonotone(s[0] as int + 1, 256, Pow2(k));
      MulSuccessor(s[0], Pow2(k));
    }
  }

  /** `width` bytes of n, least significant first; higher bits are dropped, as a Go conversion does. */
  function LittleEndian(n: nat, width: nat): (s: seq<byte>)
    ensures |s| == width
  {
    if width == 0 then [] else [n % 256] + LittleEndian(n / 256, width - 1)
  }

  function FromLittleEndian(s: seq<byte>): (n: nat)
  {
    if s == [] then 0 else s[0] + 256 * FromLittleEndian(s[1..])
  }

  lemma {:induction false} LittleEndianRoundTrip(n: nat, width: nat)
    requires n < Pow2(8 * width)
    ensures FromLittleEndian(LittleEndian(n, width)) == n
  {
    if width > 0 {
      var k := 8 * (width - 1);
      Pow2Add(8, k);
      Pow2Of8();
      assert 8 + k == 8 * width;
      QuotientBound(n, Pow2(k));
      LittleEndianRoundTrip(n / 256, width - 1);
      assert LittleEndian(n, width)[1..] == LittleEndian(n / 256, width - 1);
    }
  }

  /** Every byte string is the encoding of the number it denotes. */
  lemma {:induction false} LittleEndianOf(s: seq<byte>)
    ensures LittleEndian(FromLittleEndian(s), |s|) == s
  {
    if s != [] {
      LittleEndianOf(s[1..]);
      assert FromLittleEndian(s) / 256 == FromLittleEndian(s[1..]) && FromLittleEndian(s) % 256 == s[0];
    }
  }

  /** Dropping high bits never makes a number larger. */
  lemma {:induction false} LittleEndianAtMost(n: nat, width: nat)
    ensures FromLittleEndian(LittleEndian(n, width)) <= n
  {
    if width > 0 {
      LittleEndianAtMost(n / 256, width - 1);
      assert LittleEndian(n, width)[1..] == LittleEndian(n / 256, width - 1);
    }
  }

  lemma QuotientBound(n: nat, q: nat)
    requires n < 256 * q
    ensures n / 256 < q
  {
  }
}
