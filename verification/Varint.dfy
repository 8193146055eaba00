/** Base-128 varints as used for the length prefixes of protobuf trace files. */
module Varint {
  import opened Common

  function Pow128(k: nat): (p: nat)
    ensures p > 0
  {
    if k == 0 then 1 else 128 * Pow128(k - 1)
  }

  const TWO_32: int := 0x1_0000_0000
  const TWO_63: int := 0x8000_0000_0000_0000

  /** Seven bits per byte, least significant first, the top bit set on all but the last. */
  function Encoded(v: nat): (s: seq<byte>)
    ensures s != []
  {
    if v < 128 then [v] else [128 + v % 128] + Encoded(v / 128)
  }

  /** The number of bytes is the least that can hold the value. */
  lemma {:induction false} EncodedLength(v: nat)
    ensures v < Pow128(|Encoded(v)|)
    ensures |Encoded(v)| > 1 ==> v >= Pow128(|Encoded(v)| - 1)
  {
    if v >= 128 {
      EncodedLength(v / 128);
      var k := |Encoded(v / 128)|;
      assert |Encoded(v)| == k + 1;
      assert v == 128 * (v / 128) + v % 128;
    }
  }

  /** How the decoder narrows the accumulated value: the low 32 bits, as a negative number
      if the value does not fit into a signed 64-bit integer. */
  function Narrowed(result: nat): int {
    if result >= TWO_63 then result % TWO_32 - TWO_32 else result % TWO_32
  }

  datatype Decoded = Value(value: int, used: nat) | EndOfFile | TooManyBytes

  /** Decoding continues at byte `k`; `result` holds the bits of the bytes before. */
  function DecodeFrom(s: seq<byte>, k: nat, result: nat): Decoded
    decreases |s| - k
  {
    if k >= |s| then EndOfFile
    else
      var r := result + (s[k] % 128) * Pow128(k);
      if s[k] < 128 then Value(Narrowed(r), k + 1)
      else if 7 * (k + 1) >= 64 then TooManyBytes
      else DecodeFrom(s, k + 1, r)
  }

  function Decode(s: seq<byte>): Decoded { DecodeFrom(s, 0, 0) }

  /** The bits of a new byte lie above all earlier ones, so that combining them with "or" is an addition. */
  lemma BitsAbove(result: nat, k: nat, b: byte)
    requires result < Pow128(k)
    ensures result + (b % 128) * Pow128(k) < Pow128(k + 1)
  {
    DigitTimes(b % 128, Pow128(k));
  }

  lemma {:induction false} DigitTimes(d: nat, p: nat)
    requires d <= 127
    ensures d * p <= 127 * p
    decreases 127 - d
  {
    if d < 127 {
      DigitTimes(d + 1, p);
      assert (d + 1) * p == d * p + p;
    }
  }

  lemma {:induction false} DecodeEncodedFrom(pre: seq<byte>, w: nat, rest: seq<byte>, result: nat)
    requires |pre| < 10
    ensures var d, n := DecodeFrom(pre + Encoded(w) + rest, |pre|, result), |pre| + |Encoded(w)|;
            if n <= 10 then d == Value(Narrowed(result + w * Pow128(|pre|)), n) else d == TooManyBytes
    decreases w
  {
    var s, k := pre + Encoded(w) + rest, |pre|;
    assert s[k] == Encoded(w)[0];
    if w >= 128 {
      var pre' := pre + [128 + w % 128];
      assert s == pre' + Encoded(w / 128) + rest;
      Gather(w, Pow128(k));
      if k + 1 < 10 {
        DecodeEncodedFrom(pre', w / 128, rest, result + (w % 128) * Pow128(k));
      }
    }
  }

  lemma Gather(w: nat, p: nat)
    ensures (w % 128) * p + (w / 128) * (128 * p) == w * p
  {
    var lo, hi := w % 128, w / 128;
    assert hi * (128 * p) == (hi * 128) * p;
    assert (hi * 128 + lo) * p == (hi * 128) * p + lo * p;
    assert w == hi * 128 + lo;
  }

  /** What decoding makes of the encoding of any number, whatever follows it. */
  lemma DecodeEncoded(v: nat, rest: seq<byte>)
    ensures Decode(Encoded(v) + rest) ==
            if |Encoded(v)| <= 10 then Value(Narrowed(v), |Encoded(v)|) else TooManyBytes
  {
    DecodeEncodedFrom([], v, rest, 0);
    assert [] + Encoded(v) + rest == Encoded(v) + rest;
    Unit(v);
  }

  lemma Unit(v: nat)
    ensures 0 + v * Pow128(0) == v
  {
  }

  /** The round trip returns the number exactly when it fits into 32 bits. */
  lemma RoundTripIff(v: nat, rest: seq<byte>)
    ensures Decode(Encoded(v) + rest) == Value(v, |Encoded(v)|) <==> v < TWO_32
  {
    DecodeEncoded(v, rest);
    EncodedLength(v);
    if v < TWO_32 {
      assert Pow128(5) > TWO_32 by { PowersUpTo5(); }
      if |Encoded(v)| > 10 { PowMonotone(5, |Encoded(v)| - 1); }
    }
  }

  lemma PowersUpTo5()
    ensures Pow128(5) == 0x8_0000_0000
  {
    assert Pow128(1) == 128;
    assert Pow128(2) == 16384;
    assert Pow128(3) == 2097152;
    assert Pow128(4) == 268435456;
  }

  lemma {:induction false} PowMonotone(a: nat, b: nat)
    requires a <= b
    ensures Pow128(a) <= Pow128(b)
    decreases b
  {
    if a < b { PowMonotone(a, b - 1); }
  }

  lemma {:induction false} DecodedBound(s: seq<byte>, k: nat, result: nat) returns (whole: nat, used: nat)
    requires DecodeFrom(s, k, result).Value? && result < Pow128(k)
    ensures k < used <= |s| && whole < Pow128(used)
    ensures DecodeFrom(s, k, result) == Value(Narrowed(whole), used)
    decreases |s| - k
  {
    var r := result + (s[k] % 128) * Pow128(k);
    BitsAbove(result, k, s[k]);
    if s[k] < 128 {
      whole, used := r, k + 1;
    } else {
      whole, used := DecodedBound(s, k + 1, r);
    }
  }

  /** No byte string that decodes to a given value is shorter than the encoder's. */
  lemma EncodingIsShortest(s: seq<byte>, v: nat)
    requires Decode(s).Value? && Decode(s).value == v
    ensures |Encoded(v)| <= Decode(s).used
  {
    var whole, n := DecodedBound(s, 0, 0);
    EncodedLength(v);
    assert v <= whole;
    if |Encoded(v)| > n { PowMonotone(n, |Encoded(v)| - 1); }
  }

  // ---------- decoding any bytes ----------

  /** The first byte from `k` on with its top bit clear. */
  function FirstClear(s: seq<byte>, k: nat): (n: nat)
    requires k <= |s|
    ensures k <= n <= |s|
    decreases |s| - k
  {
    if k == |s| || s[k] < 128 then k else FirstClear(s, k + 1)
  }

  /** The number whose 7-bit groups, least significant first, are the low bits of the first `n` bytes. */
  function Groups(s: seq<byte>, n: nat): nat
    requires n <= |s|
  {
    if n == 0 then 0 else Groups(s, n - 1) + (s[n - 1] % 128) * Pow128(n - 1)
  }

  /** Whatever the bytes are: ten with the top bit set are too many, and without one that has it clear the file has
      ended; otherwise the groups up to that byte make up the value. */
  lemma DecodeIs(s: seq<byte>)
    ensures var n := FirstClear(s, 0);
            Decode(s) == if n >= 10 then TooManyBytes else if n == |s| then EndOfFile
                         else Value(Narrowed(Groups(s, n + 1)), n + 1)
  {
    DecodeFromIs(s, 0);
  }

  lemma {:induction false} DecodeFromIs(s: seq<byte>, k: nat)
    requires k < 10 && k <= |s|
    ensures var n := FirstClear(s, k);
            DecodeFrom(s, k, Groups(s, k)) ==
            if n >= 10 then TooManyBytes else if n == |s| then EndOfFile else Value(Narrowed(Groups(s, n + 1)), n + 1)
    decreases |s| - k
  {
    if k < |s| && s[k] >= 128 && k + 1 < 10 { DecodeFromIs(s, k + 1); }
  }

  /** Narrowing keeps the low 32 bits, and the sign of the 64-bit number. */
  lemma NarrowedIs(v: nat)
    ensures (v - Narrowed(v)) % TWO_32 == 0 && -TWO_32 <= Narrowed(v) < TWO_32
    ensures Narrowed(v) < 0 <==> v >= TWO_63
  {
  }
}
