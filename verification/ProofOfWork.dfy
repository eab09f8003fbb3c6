/** The difficulty test of a block's digest and its meaning as a numeric threshold. */
module ProofOfWork {
  import opened Bytes

  /** What "%b" prints for n: its binary digits without leading zeros. */
  function BinaryDigits(n: nat): (s: string)
    ensures |s| >= 1
  {
    if n < 2 then [Digit(n)] else BinaryDigits(n / 2) + [Digit(n % 2)]
  }

  function Digit(n: nat): char {
    if n == 0 then '0' else '1'
  }

  /** What "%08b" prints for n: padded with zeros on the left to eight characters. */
  function FormatBinary08(n: nat): (s: string)
    ensures |s| >= 8
  {
    PadTo8(BinaryDigits(n))
  }

  function PadTo8(s: string): (r: string)
    ensures |r| >= 8 && |r| >= |s|
    decreases 8 - |s|
  {
    if |s| >= 8 then s else PadTo8(['0'] + s)
  }

  /** The digits of n >= 1 start with '1', and their number k brackets n between 2^(k-1) and 2^k. */
  lemma {:induction false} BinaryDigitsBracket(n: nat)
    requires n >= 1
    ensures BinaryDigits(n)[0] == '1'
    ensures Pow2(|BinaryDigits(n)| - 1) <= n < Pow2(|BinaryDigits(n)|)
  {
    if n >= 2 {
      BinaryDigitsBracket(n / 2);
    }
  }

  lemma {:induction false} PadTo8Shape(s: string)
    requires |s| <= 8
    ensures |PadTo8(s)| == 8
    ensures forall i :: 0 <= i < 8 - |s| ==> PadTo8(s)[i] == '0'
    ensures PadTo8(s)[8 - |s|..] == s
    decreases 8 - |s|
  {
    if |s| < 8 {
      PadTo8Shape(['0'] + s);
      var p := PadTo8(s);
      assert p[8 - |s|..] == p[7 - |s|..][1..];
      assert p[7 - |s|] == p[7 - |s|..][0];
    }
  }

  /** v has k binary digits, so it is below 2^(8-r) exactly when k does not exceed 8-r. */
  lemma DigitsDecide(v: nat, k: nat, w: nat)
    requires k >= 1 && Pow2(k - 1) <= v < Pow2(k)
    ensures v < Pow2(w) <==> k <= w
  {
    if k < w {
      Pow2Monotone(k, w);
    } else if w < k - 1 {
      Pow2Monotone(w, k - 1);
    }
  }

  /** A byte has at most eight binary digits. */
  lemma ByteDigits(v: byte)
    requires v >= 1
    ensures |BinaryDigits(v)| <= 8
  {
    BinaryDigitsBracket(v);
    Pow2Of8();
    DigitsDecide(v, |BinaryDigits(v)|, 8);
  }

  /** The first r characters of "%08b" of a byte are '0' exactly when the byte is below 2^(8-r). */
  lemma LeadingZeroBits(v: byte, r: nat)
    requires 1 <= r <= 8
    ensures |FormatBinary08(v)| == 8
    ensures (forall i :: 0 <= i < r ==> FormatBinary08(v)[i] == '0') <==> v < Pow2(8 - r)
  {
    var digits, f := BinaryDigits(v), FormatBinary08(v);
    if v == 0 {
      PadTo8Shape(digits);
      assert f[7] == f[7..][0];
    } else {
      BinaryDigitsBracket(v);
      ByteDigits(v);
      PadTo8Shape(digits);
      var z := 8 - |digits|;
      assert f[z] == f[z..][0] == '1';
      DigitsDecide(v, |digits|, 8 - r);
    }
  }

  /** Leading zero bytes do not change the value. */
  lemma {:induction false} DropZeroBytes(s: seq<byte>, k: nat)
    requires k <= |s| && forall i :: 0 <= i < k ==> s[i] == 0
    ensures BigEndian(s) == BigEndian(s[k..])
  {
    if k > 0 {
      DropZeroBytes(s[1..], k - 1);
      assert s[1..][k - 1..] == s[k..];
    } else {
      assert s[0..] == s;
    }
  }

  /** A nonzero byte at position i makes the value at least 2^(8(|s|-1-i)). */
  lemma {:induction false} NonzeroByte(s: seq<byte>, i: nat)
    requires i < |s| && s[i] != 0
    ensures BigEndian(s) >= Pow2(8 * (|s| - 1 - i))
  {
    if i == 0 {
      MulMonotone(1, s[0], Pow2(8 * (|s| - 1)));
    } else {
      NonzeroByte(s[1..], i - 1);
    }
  }

  /** One byte decides: with v in front of any tail, the value is below 2^(8(|s|-1)+w) iff v < 2^w. */
  lemma LeadByteThreshold(s: seq<byte>, w: nat)
    requires |s| >= 1
    ensures BigEndian(s) < Pow2(8 * (|s| - 1) + w) <==> s[0] < Pow2(w)
  {
    var p := Pow2(8 * (|s| - 1));
    Pow2Add(w, 8 * (|s| - 1));
    BigEndianBound(s[1..]);
    ThresholdSplits(s[0], BigEndian(s[1..]), p, Pow2(w));
  }

  lemma ThresholdSplits(v: nat, t: nat, p: nat, q: nat)
    requires t < p
    ensures v * p + t < q * p <==> v < q
  {
    if v < q {
      MulMonotone(v + 1, q, p);
      MulSuccessor(v, p);
    } else {
      MulMonotone(q, v, p);
    }
  }

  /** The proof-of-work test: whole zero bytes, then leading zero characters of one formatted byte.
      It accepts exactly the digests whose big-endian value is below 2^(256 - difficulty). */
  method MeetsDifficulty(h: Digest, difficulty: nat) returns (ok: bool)
    requires 1 <= difficulty <= 256
    ensures ok <==> BigEndian(h) < Pow2(256 - difficulty)
  {
    var nbZeroBytes := (difficulty + 7) / 8;
    var i := 0;
    while i < nbZeroBytes - 1
      invariant 0 <= i <= nbZeroBytes - 1
      invariant forall j :: 0 <= j < i ==> h[j] == 0
    {
      if h[i] != 0 {
        NonzeroByte(h, i);
        if 256 - difficulty < 8 * (31 - i) { Pow2Monotone(256 - difficulty, 8 * (31 - i)); }
        return false;
      }
      i := i + 1;
    }
    var remainingNbBits := difficulty - (nbZeroBytes - 1) * 8;
    var lastByte := FormatBinary08(h[nbZeroBytes - 1]);
    LeadingZeroBits(h[nbZeroBytes - 1], remainingNbBits);
    DropZeroBytes(h, nbZeroBytes - 1);
    LeadByteThreshold(h[nbZeroBytes - 1..], 8 - remainingNbBits);
    i := 0;
    while i < remainingNbBits
      invariant 0 <= i <= remainingNbBits
      invariant forall j :: 0 <= j < i ==> lastByte[j] == '0'
    {
      if lastByte[i] != '0' {
        return false;
      }
      i := i + 1;
    }
    return true;
  }
}
