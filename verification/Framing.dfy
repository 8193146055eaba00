/** Length-prefixed messages in a trace file. Message bodies are opaque bytes. */
module Framing {
  import opened Common
  import opened Varint

  // ---------- specification ----------

  function Frame(m: seq<byte>): seq<byte> { Encoded(|m|) + m }

  function Stream(ms: seq<seq<byte>>): seq<byte> {
    if ms == [] then [] else Frame(ms[0]) + Stream(ms[1..])
  }

  /** `NegativeSize`: the prefix was narrowed to a negative number, for which no read is defined. */
  datatype Message = Message(body: seq<byte>, used: nat) | NoMessage | NegativeSize

  /** A message whose body is cut short by the end of the file is delivered as it is. */
  function DecodeMessage(s: seq<byte>): Message {
    var d := Decode(s);
    if !d.Value? || d.value == 0 then NoMessage
    else if d.value < 0 then NegativeSize
    else
      DecodeUsed(s);
      var end := if d.used + d.value <= |s| then d.used + d.value else |s|;
      Message(s[d.used..end], end)
  }

  lemma DecodeUsed(s: seq<byte>)
    requires Decode(s).Value?
    ensures 0 < Decode(s).used <= |s|
  {
    var whole, used := DecodedBound(s, 0, 0);
  }

  function DecodeAll(s: seq<byte>): seq<seq<byte>>
    decreases |s|
  {
    var m := DecodeMessage(s);
    if !m.Message? then []
    else
      DecodeUsed(s);
      [m.body] + DecodeAll(s[m.used..])
  }

  // ---------- files ----------

  class OutFile {
    var data: seq<byte>

    method EncodeVarint(v: nat)
      modifies this
      ensures data == old(data) + Encoded(v)
    {
      var bits, value := v % 128, v / 128;
      ghost var out: seq<byte> := [];
      while value != 0
        invariant value >= 0 && 0 <= bits < 128
        invariant data == old(data) + out && out + Encoded(value * 128 + bits) == Encoded(v)
      {
        ghost var whole := value * 128 + bits;
        assert whole % 128 == bits && whole / 128 == value;
        data := data + [128 + bits];
        out := out + [128 + bits];
        bits, value := value % 128, value / 128;
      }
      data := data + [bits];
    }

    method EncodeMessage(m: seq<byte>)
      modifies this
      ensures data == old(data) + Frame(m)
    {
      EncodeVarint(|m|);
      data := data + m;
    }
  }

  class InFile {
    const data: seq<byte>
    var at: nat

    constructor (bytes: seq<byte>)
      ensures data == bytes && at == 0
    {
      data, at := bytes, 0;
    }

    ghost predicate Valid()
      reads this
    {
      at <= |data|
    }

    ghost function Rest(): seq<byte>
      reads this
      requires Valid()
    {
      data[at..]
    }

    method Read(n: nat) returns (buf: seq<byte>)
      requires Valid()
      modifies this
      ensures Valid() && buf + Rest() == old(Rest())
      ensures |buf| == n || (|buf| < n && Rest() == [])
    {
      var end := if at + n <= |data| then at + n else |data|;
      buf := data[at..end];
      at := end;
    }

    method DecodeVarint() returns (d: Decoded)
      requires Valid()
      modifies this
      ensures Valid() && d == Decode(old(Rest()))
      ensures d.Value? ==> d.used <= |old(Rest())| && Rest() == old(Rest())[d.used..]
    {
      ghost var s := Rest();
      var result, shift, p := 0, 0, 0;
      while true
        invariant Valid() && 0 <= p <= |s| && Rest() == s[p..]
        invariant p <= 9 && shift == 7 * p && 0 <= result < Pow128(p)
        invariant Decode(s) == DecodeFrom(s, p, result)
        decreases |s| - p
      {
        var c := Read(1);
        if |c| == 0 {
          return EndOfFile;
        }
        var b := c[0];
        assert b == s[p];
        BitsAbove(result, p, b);
        result := result + (b % 128) * Pow128(p);
        p := p + 1;
        if b < 128 {
          return Value(Narrowed(result), p);
        }
        shift := shift + 7;
        if shift >= 64 {
          return TooManyBytes;
        }
      }
    }

    method ReadMessage() returns (m: Message)
      requires Valid()
      modifies this
      ensures Valid() && m == DecodeMessage(old(Rest()))
      ensures m.Message? ==> m.used <= |old(Rest())| && Rest() == old(Rest())[m.used..]
    {
      ghost var s := Rest();
      var d := DecodeVarint();
      if !d.Value? || d.value == 0 {
        return NoMessage;
      }
      if d.value < 0 {
        return NegativeSize;
      }
      DecodeUsed(s);
      var body := Read(d.value);
      assert body == s[d.used..d.used + |body|];
      m := Message(body, d.used + |body|);
    }
  }

  /** Reads a file to its end. */
  method ReadAll(bytes: seq<byte>) returns (ms: seq<seq<byte>>)
    ensures ms == DecodeAll(bytes)
  {
    var f := new InFile(bytes);
    ms := [];
    while true
      invariant f.Valid() && f.data == bytes
      invariant ms + DecodeAll(f.Rest()) == DecodeAll(bytes)
      decreases |f.Rest()|
    {
      ghost var s := f.Rest();
      var m := f.ReadMessage();
      if !m.Message? {
        return;
      }
      DecodeUsed(s);
      assert ms + ([m.body] + DecodeAll(s[m.used..])) == ms + [m.body] + DecodeAll(s[m.used..]);
      ms := ms + [m.body];
    }
  }

  /** What is read from any bytes: nothing if no size can be read or it is not positive, and otherwise as many bytes as
      the size says and there are, and then the rest. `DecodeIs` says which size is read. */
  lemma DecodeAllIs(s: seq<byte>, d: Decoded)
    requires d == Decode(s)
    ensures !d.Value? || d.value <= 0 ==> DecodeAll(s) == []
    ensures d.Value? && d.value > 0 ==>
              d.used <= |s| && var end := Min(d.used + d.value, |s|);
              DecodeAll(s) == [s[d.used..end]] + DecodeAll(s[end..])
  {
    if d.Value? && d.value > 0 {
      DecodeUsed(s);
      var m := DecodeMessage(s);
      assert m == Message(s[d.used..m.used], m.used) && m.used == Min(d.used + d.value, |s|);
    }
  }

  // ---------- the round trip ----------

  function UntilEmpty(ms: seq<seq<byte>>): seq<seq<byte>> {
    if ms == [] || ms[0] == [] then [] else [ms[0]] + UntilEmpty(ms[1..])
  }

  lemma DecodeFrame(m: seq<byte>, rest: seq<byte>)
    requires |m| < TWO_32
    ensures DecodeMessage(Frame(m) + rest) ==
            if m == [] then NoMessage else Message(m, |Frame(m)|)
  {
    var s := Frame(m) + rest;
    assert s == Encoded(|m|) + (m + rest);
    RoundTripIff(|m|, m + rest);
    if m != [] {
      assert s[|Encoded(|m|)|..|Encoded(|m|)| + |m|] == m;
    }
  }

  /** Everything before the first empty message comes back, and nothing after it. */
  lemma {:induction false} StreamRoundTrip(ms: seq<seq<byte>>)
    requires forall m :: m in ms ==> |m| < TWO_32
    ensures DecodeAll(Stream(ms)) == UntilEmpty(ms)
  {
    if ms == [] {
      assert Decode([]) == EndOfFile;
    } else {
      var m, rest := ms[0], Stream(ms[1..]);
      assert m in ms;
      DecodeFrame(m, rest);
      if m != [] {
        assert Stream(ms)[|Frame(m)|..] == rest;
        StreamRoundTrip(ms[1..]);
      }
    }
  }

  lemma {:induction false} UntilEmptyIsAll(ms: seq<seq<byte>>)
    ensures UntilEmpty(ms) == ms <==> forall m :: m in ms ==> m != []
  {
    if ms != [] {
      UntilEmptyIsAll(ms[1..]);
      assert ms[0] in ms && forall m :: m in ms <==> m == ms[0] || m in ms[1..];
      if ms[0] != [] {
        assert ms == [ms[0]] + ms[1..];
        assert UntilEmpty(ms)[1..] == UntilEmpty(ms[1..]);
      }
    }
  }

  /** A trace survives the round trip exactly when it holds no empty message. */
  lemma StreamRoundTripIff(ms: seq<seq<byte>>)
    requires forall m :: m in ms ==> |m| < TWO_32
    ensures DecodeAll(Stream(ms)) == ms <==> forall m :: m in ms ==> m != []
  {
    StreamRoundTrip(ms);
    UntilEmptyIsAll(ms);
  }

  // ---------- files that are cut short ----------

  lemma {:induction false} CutVarint(v: nat, cut: nat, k: nat, result: nat)
    requires k <= cut < |Encoded(v)| <= 10
    ensures DecodeFrom(Encoded(v)[..cut], k, result) == EndOfFile
    decreases cut - k
  {
    if k < cut {
      ContinuationBytes(v, k);
      CutVarint(v, cut, k + 1, result + (Encoded(v)[k] % 128) * Pow128(k));
    }
  }

  lemma {:induction false} ContinuationBytes(v: nat, k: nat)
    requires k + 1 < |Encoded(v)|
    ensures Encoded(v)[k] >= 128
  {
    if k > 0 { ContinuationBytes(v / 128, k - 1); }
  }

  /** What survives of `ms` if the file ends after `cut` bytes: whole messages, then as much of the next one
      as there is, or nothing of it if its size is cut already. */
  function Surviving(ms: seq<seq<byte>>, cut: nat): seq<seq<byte>> {
    if ms == [] then []
    else if |Frame(ms[0])| <= cut then [ms[0]] + Surviving(ms[1..], cut - |Frame(ms[0])|)
    else if cut < |Encoded(|ms[0]|)| then []
    else [ms[0][..cut - |Encoded(|ms[0]|)|]]
  }

  /** Reading a file that was cut anywhere. */
  lemma {:induction false} CutStream(ms: seq<seq<byte>>, cut: nat)
    requires forall m :: m in ms ==> 0 < |m| < TWO_32
    requires cut <= |Stream(ms)|
    ensures DecodeAll(Stream(ms)[..cut]) == Surviving(ms, cut)
  {
    if ms == [] {
      assert Stream(ms)[..cut] == [] && Decode([]) == EndOfFile;
    } else {
      var m, rest := ms[0], Stream(ms[1..]);
      assert m in ms;
      var n := |Frame(m)|;
      if cut < n {
        assert Stream(ms)[..cut] == Frame(m)[..cut];
        CutFrame(m, cut);
      } else {
        assert Stream(ms)[..cut] == Frame(m) + rest[..cut - n];
        DecodeFrame(m, rest[..cut - n]);
        assert (Frame(m) + rest[..cut - n])[n..] == rest[..cut - n];
        CutStream(ms[1..], cut - n);
      }
    }
  }

  /** Hence a cut file gives the messages of the whole one up to some point, and at most one more body that is
      shorter than it was: the framing does not tell it from a whole one. */
  lemma {:induction false} CutGivesBeginning(ms: seq<seq<byte>>, cut: nat) returns (j: nat, t: nat)
    ensures j <= |ms|
    ensures Surviving(ms, cut) == ms[..j] ||
            (j < |ms| && t < |ms[j]| && Surviving(ms, cut) == ms[..j] + [ms[j][..t]])
  {
    if ms == [] || cut < |Encoded(|ms[0]|)| {
      j, t := 0, 0;
    } else if cut < |Frame(ms[0])| {
      j, t := 0, cut - |Encoded(|ms[0]|)|;
    } else {
      j, t := CutGivesBeginning(ms[1..], cut - |Frame(ms[0])|);
      LaterMessage(ms, j, t);
      j := j + 1;
    }
  }

  lemma LaterMessage(ms: seq<seq<byte>>, j: nat, t: nat)
    requires ms != [] && j <= |ms| - 1
    ensures [ms[0]] + ms[1..][..j] == ms[..j + 1]
    ensures j < |ms| - 1 && t <= |ms[1..][j]| ==>
              [ms[0]] + (ms[1..][..j] + [ms[1..][j][..t]]) == ms[..j + 1] + [ms[j + 1][..t]]
  {
  }

  lemma CutFrame(m: seq<byte>, cut: nat)
    requires 0 < |m| < TWO_32 && cut < |Frame(m)|
    ensures DecodeAll(Frame(m)[..cut]) == if cut < |Encoded(|m|)| then [] else [m[..cut - |Encoded(|m|)|]]
  {
    var prefix := Encoded(|m|);
    if cut < |prefix| {
      assert Frame(m)[..cut] == prefix[..cut];
      RoundTripIff(|m|, []);
      DecodeEncoded(|m|, []);
      CutVarint(|m|, cut, 0, 0);
    } else {
      var t := cut - |prefix|;
      assert Frame(m)[..cut] == prefix + m[..t];
      CutBody(m, t);
    }
  }

  lemma CutBody(m: seq<byte>, t: nat)
    requires 0 < |m| < TWO_32 && t < |m|
    ensures DecodeAll(Encoded(|m|) + m[..t]) == [m[..t]]
  {
    var prefix, body := Encoded(|m|), m[..t];
    assert Decode(prefix + body) == Value(|m|, |prefix|) by { RoundTripIff(|m|, body); }
    ShortBody(prefix, body, |m|);
    OnlyMessage(prefix + body, body);
  }

  lemma ShortBody(prefix: seq<byte>, body: seq<byte>, size: nat)
    requires prefix != [] && |body| < size && Decode(prefix + body) == Value(size, |prefix|)
    ensures DecodeMessage(prefix + body) == Message(body, |prefix + body|)
  {
    assert (prefix + body)[|prefix|..] == body;
  }

  lemma OnlyMessage(s: seq<byte>, m: seq<byte>)
    requires s != [] && DecodeMessage(s) == Message(m, |s|)
    ensures DecodeAll(s) == [m]
  {
    assert s[|s|..] == [] && Decode([]) == EndOfFile;
  }
}
