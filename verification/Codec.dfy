/** The stream codecs of src/codec/codec.cpp: a varint length prefix and a 4-byte one. */
module Codec {
  import opened Wrappers
  import opened Framing

  const WORD32: int := 0x1_0000_0000

  // ---------------------------------------------------------------- varint32

  /** The base-128 varint of a number: seven bits a byte, low bits first, the top bit set on all
    bytes but the last. */
  function Varint(v: nat): (b: seq<byte>)
    ensures b != []
  {
    if v < 128 then [v] else [v % 128 + 128] + Varint(v / 128)
  }

  method AppendVarint32(out: seq<byte>, value: nat) returns (b: seq<byte>)
    ensures b == out + Varint(value)
  {
    b := out;
    var v := value;
    while v >= 128
      invariant b + Varint(v) == out + Varint(value)
    {
      assert Varint(v) == [v % 128 + 128] + Varint(v / 128);
      b := b + [v % 128 + 128];
      v := v / 128;
    }
    b := b + [v];
  }

  /** A varint takes as few bytes as possible, each but the last with its top bit set, and byte i holds
    the i-th seven bits. */
  lemma VarintBytes(v: nat)
    requires v < WORD32
    ensures |Varint(v)| == if v < 128 then 1 else if v < 16384 then 2 else if v < 2097152 then 3 else if v < 268435456 then 4 else 5
    ensures forall i :: 0 <= i < |Varint(v)| ==> (Varint(v)[i] >= 128 <==> i < |Varint(v)| - 1)
    ensures var b := Varint(v);
            && (b[0] as int) % 128 == v % 128
            && (|b| > 1 ==> (b[1] as int) % 128 == v / 128 % 128)
            && (|b| > 2 ==> (b[2] as int) % 128 == v / 16384 % 128)
            && (|b| > 3 ==> (b[3] as int) % 128 == v / 2097152 % 128)
            && (|b| > 4 ==> (b[4] as int) == v / 268435456)
  {
    var v1, v2, v3, v4 := v / 128, v / 128 / 128, v / 128 / 128 / 128, v / 128 / 128 / 128 / 128;
    assert v2 == v / 16384 && v3 == v / 2097152 && v4 == v / 268435456 && v4 < 16;
    VarintStep(v);
    if v >= 128 {
      VarintStep(v1);
      if v1 >= 128 {
        VarintStep(v2);
        if v2 >= 128 {
          VarintStep(v3);
          if v3 >= 128 { VarintStep(v4); }
        }
      }
    }
  }

  lemma VarintStep(v: nat)
    ensures Varint(v) == if v < 128 then [v] else [v % 128 + 128] + Varint(v / 128)
  {}

  /** 128 to the power `i`, for the shifts 0, 7, 14, 21 and 28. */
  function Weight(i: nat): nat {
    if i == 0 then 1 else 128 * Weight(i - 1)
  }

  datatype Parsed = Parsed(value: nat, size: nat)

  /** The parse loop from its i-th byte on, `acc` accumulated so far. The bits or-ed in are above
    those of `acc`, so the or is a sum; the fifth byte loses what does not fit 32 bits. */
  function ParseFrom(b: seq<byte>, i: nat, acc: nat): Option<Parsed>
    decreases 5 - i
  {
    if i >= |b| || i >= 5 then None
    else
      var result := acc + ((b[i] as int) % 128 * Weight(i)) % WORD32;
      if b[i] < 128 then Some(Parsed(result, i + 1)) else ParseFrom(b, i + 1, result)
  }

  /** parse_varint32 at some position of a buffer. */
  method ParseVarint32(buf: seq<byte>, pos: nat) returns (len: Option<nat>, next: nat)
    requires pos <= |buf|
    ensures var p := ParseFrom(buf[pos..], 0, 0);
            if p.None? then len.None? else len == Some(p.value.value) && next == pos + p.value.size <= |buf|
  {
    var result: nat, shift, weight := 0, 0, 1;
    next := pos;
    ghost var unread := buf[pos..];
    while next < |buf| && shift <= 28
      invariant pos <= next <= |buf| && shift == 7 * (next - pos) && shift <= 35
      invariant weight == Weight(next - pos)
      invariant ParseFrom(unread, 0, 0) == ParseFrom(unread, next - pos, result)
      decreases |buf| - next
    {
      var b := buf[next];
      assert b == unread[next - pos];
      next := next + 1;
      result := result + ((b as int) % 128 * weight) % WORD32;
      if b < 128 {
        return Some(result), next;
      }
      shift := shift + 7;
      weight := 128 * weight;
    }
    len := None;
  }

  /** The value of the first `n` bytes, without their top bits and cut to 32 bits. */
  lemma {:induction false} ParsedBytes(b: seq<byte>, n: nat)
    requires 1 <= n <= 5 && n <= |b| && b[n - 1] < 128 && forall i :: 0 <= i < n - 1 ==> b[i] >= 128
    ensures var d0, d1, d2 := (b[0] as int) % 128, if n > 1 then (b[1] as int) % 128 else 0, if n > 2 then (b[2] as int) % 128 else 0;
            var d3, d4 := if n > 3 then (b[3] as int) % 128 else 0, if n > 4 then (b[4] as int) % 16 else 0;
            ParseFrom(b, 0, 0) == Some(Parsed(d0 + 128 * d1 + 16384 * d2 + 2097152 * d3 + 268435456 * d4, n))
  {
    hide ParseFrom, Weight;
    Weights();
    var d0 := (b[0] as int) % 128;
    ShiftedBits(d0);
    ParseStep(b, 0, 0, d0);
    if n > 1 {
      var d1 := (b[1] as int) % 128;
      ShiftedBits(d1);
      ParseStep(b, 1, d0, 128 * d1);
      if n > 2 {
        var d2 := (b[2] as int) % 128;
        ShiftedBits(d2);
        ParseStep(b, 2, d0 + 128 * d1, 16384 * d2);
        if n > 3 { ParsedLate(b, n, d0 + 128 * d1 + 16384 * d2); }
      }
    }
  }

  /** The fourth byte and the fifth. */
  lemma ParsedLate(b: seq<byte>, n: nat, acc: nat)
    requires 4 <= n <= 5 && n <= |b| && b[n - 1] < 128 && forall i :: 0 <= i < n - 1 ==> b[i] >= 128
    ensures ParseFrom(b, 3, acc) ==
              Some(Parsed(acc + 2097152 * ((b[3] as int) % 128) + if n > 4 then 268435456 * ((b[4] as int) % 16) else 0, n))
  {
    hide ParseFrom, Weight;
    Weights();
    var d3 := (b[3] as int) % 128;
    ShiftedBits(d3);
    ParseStep(b, 3, acc, 2097152 * d3);
    if n > 4 {
      var d4 := (b[4] as int) % 128;
      ShiftedBits(d4);
      ParseStep(b, 4, acc + 2097152 * d3, 268435456 * (d4 % 16));
    }
  }

  /** Seven bits at their places; of the fifth seven only four are left. */
  lemma ShiftedBits(d: nat)
    requires d < 128
    ensures d * 1 % WORD32 == d && d * 128 % WORD32 == 128 * d && d * 16384 % WORD32 == 16384 * d
    ensures d * 2097152 % WORD32 == 2097152 * d && d * 268435456 % WORD32 == 268435456 * (d % 16)
  {}

  /** Without an end within five bytes nothing is parsed. */
  lemma NothingParsed(b: seq<byte>)
    requires forall i :: 0 <= i < |b| && i < 5 ==> b[i] >= 128
    ensures ParseFrom(b, 0, 0).None?
  {
    NothingFrom(b, 0, 0);
  }

  lemma {:induction false} NothingFrom(b: seq<byte>, i: nat, acc: nat)
    requires i <= 5 && forall j :: i <= j < |b| && j < 5 ==> b[j] >= 128
    ensures ParseFrom(b, i, acc).None?
    decreases 5 - i
  {
    if i < |b| && i < 5 {
      NothingFrom(b, i + 1, acc + ((b[i] as int) % 128 * Weight(i)) % WORD32);
    }
  }

  lemma ParseStep(b: seq<byte>, i: nat, acc: nat, bits: nat)
    requires i < |b| && i < 5 && bits == ((b[i] as int) % 128 * Weight(i)) % WORD32
    ensures ParseFrom(b, i, acc) == if b[i] < 128 then Some(Parsed(acc + bits, i + 1)) else ParseFrom(b, i + 1, acc + bits)
  {}

  lemma Weights()
    ensures Weight(0) == 1 && Weight(1) == 128 && Weight(2) == 16384 && Weight(3) == 2097152 && Weight(4) == 268435456
  {
    assert Weight(1) == 128 * Weight(0);
    assert Weight(2) == 128 * Weight(1);
    assert Weight(3) == 128 * Weight(2);
    assert Weight(4) == 128 * Weight(3);
  }

  /** Parsing inverts appending, from any byte of the number on. */
  lemma {:induction false} ParseVarint(pre: seq<byte>, v: nat, tail: seq<byte>, acc: nat)
    requires |pre| < 5 && v * Weight(|pre|) < WORD32
    ensures ParseFrom(pre + Varint(v) + tail, |pre|, acc) ==
            Some(Parsed(acc + v * Weight(|pre|), |pre| + |Varint(v)|))
    decreases v
  {
    var i, b := |pre|, pre + Varint(v) + tail;
    assert b[i] == Varint(v)[0] && i < |b|;
    WholeByte(v, i);
    if v >= 128 {
      var low, high := v % 128, v / 128;
      SplitVarint(v, i);
      ParseVarint(pre + [low + 128], high, tail, acc + low * Weight(i));
      assert pre + [low + 128] + Varint(high) + tail == b;
      hide Weight;
      assert (low + 128) % 128 == low;
      assert ParseFrom(b, i, acc) == ParseFrom(b, i + 1, acc + low * Weight(i));
    }
  }

  /** The or-ed in bits of a byte fit the 32 bits of the result. */
  lemma WholeByte(v: nat, i: nat)
    requires i < 5 && v * Weight(i) < WORD32
    ensures (v % 128 * Weight(i)) % WORD32 == v % 128 * Weight(i)
    ensures v < 128 ==> v % 128 == v
  {
    hide Weight;
    PositiveWeight(i);
    Smaller(v % 128, v, Weight(i));
  }

  lemma {:induction false} PositiveWeight(i: nat)
    ensures 0 < Weight(i)
  {
    if i > 0 { PositiveWeight(i - 1); }
  }

  lemma Smaller(a: nat, b: nat, w: nat)
    requires a <= b
    ensures 0 <= a * w <= b * w
  {}

  lemma SplitVarint(v: nat, i: nat)
    requires i < 5 && 128 <= v && v * Weight(i) < WORD32
    ensures i < 4 && (v / 128) * Weight(i + 1) < WORD32 && (v % 128) * Weight(i) < WORD32
    ensures v * Weight(i) == (v % 128) * Weight(i) + (v / 128) * Weight(i + 1)
  {
    Weights();
    assert v == 128 * (v / 128) + v % 128;
    assert Weight(i) > 0;
    assert v * Weight(i) == (v % 128) * Weight(i) + (v / 128) * (128 * Weight(i));
    assert 0 <= (v / 128) * Weight(i + 1) && 0 <= (v % 128) * Weight(i);
    assert i == 4 ==> v * 268435456 >= 128 * 268435456;
  }

  /** A varint cut short does not parse. */
  lemma {:induction false} CutVarint(pre: seq<byte>, v: nat, k: nat, acc: nat)
    requires k < |Varint(v)|
    ensures ParseFrom(pre + Varint(v)[..k], |pre|, acc).None?
    decreases v
  {
    if k > 0 && |pre| < 5 {
      var i, b := |pre|, pre + Varint(v)[..k];
      var rest := Varint(v / 128);
      assert b[i] == v % 128 + 128;
      assert pre + [v % 128 + 128] + rest[..k - 1] == b;
      CutVarint(pre + [v % 128 + 128], v / 128, k - 1, acc + ((b[i] as int) % 128 * Weight(i)) % WORD32);
    }
  }

  /** Parsing inverts appending, and no strict prefix of a varint parses. */
  lemma VarintRoundTrip(v: nat, tail: seq<byte>)
    requires v < WORD32
    ensures ParseFrom(Varint(v) + tail, 0, 0) == Some(Parsed(v, |Varint(v)|))
    ensures forall k :: 0 <= k < |Varint(v)| ==> ParseFrom(Varint(v)[..k], 0, 0).None?
  {
    ParseVarint([], v, tail, 0);
    assert [] + Varint(v) + tail == Varint(v) + tail;
    forall k | 0 <= k < |Varint(v)| ensures ParseFrom(Varint(v)[..k], 0, 0).None? {
      CutVarint([], v, k, 0);
      assert [] + Varint(v)[..k] == Varint(v)[..k];
    }
  }

  lemma {:induction false} ParseMore(b: seq<byte>, c: seq<byte>, i: nat, acc: nat)
    requires ParseFrom(b, i, acc).Some?
    ensures ParseFrom(b + c, i, acc) == ParseFrom(b, i, acc) && i < ParseFrom(b, i, acc).value.size <= |b|
    decreases 5 - i
  {
    if b[i] >= 128 {
      ParseMore(b, c, i + 1, acc + ((b[i] as int) % 128 * Weight(i)) % WORD32);
    }
  }

  // ---------------------------------------------------------------- the varint framer

  /** ProtobufCodec::encode; the length is cast to 32 bits. */
  function VarintEncoded(m: seq<byte>): seq<byte> {
    Varint(|m| % WORD32) + m
  }

  function NextVarint(b: seq<byte>): Option<Frame<seq<byte>>> {
    var len := ParseFrom(b, 0, 0);
    if len.None? || len.value.size > |b| || |b| - len.value.size < len.value.value then None
    else Some(Frame(b[len.value.size..len.value.size + len.value.value], len.value.size + len.value.value))
  }

  /** What decode reads at a varint of `n` bytes, the shortest or not: its value says how many bytes make
    the message behind it. */
  lemma NextVarintIs(b: seq<byte>, n: nat)
    requires 1 <= n <= 5 && n <= |b| && b[n - 1] < 128 && forall i :: 0 <= i < n - 1 ==> b[i] >= 128
    ensures var d0, d1, d2 := (b[0] as int) % 128, if n > 1 then (b[1] as int) % 128 else 0, if n > 2 then (b[2] as int) % 128 else 0;
            var d3, d4 := if n > 3 then (b[3] as int) % 128 else 0, if n > 4 then (b[4] as int) % 16 else 0;
            var len: nat := d0 + 128 * d1 + 16384 * d2 + 2097152 * d3 + 268435456 * d4;
            NextVarint(b) == if |b| < n + len then None else Some(Frame(b[n..n + len], n + len))
  {
    ParsedBytes(b, n);
    hide ParseFrom;
  }

  lemma VarintMore(b: seq<byte>, c: seq<byte>)
    requires NextVarint(b).Some?
    ensures 0 < NextVarint(b).value.size <= |b| && NextVarint(b + c) == NextVarint(b)
  {
    ParseMore(b, c, 0, 0);
    hide ParseFrom;
    var p := ParseFrom(b, 0, 0).value;
    assert (b + c)[p.size..p.size + p.value] == b[p.size..p.size + p.value];
  }

  lemma VarintIncremental()
    ensures Incremental(NextVarint)
  {
    hide NextVarint;
    forall b: seq<byte>, c: seq<byte> | NextVarint(b).Some?
      ensures NextVarint(b + c) == NextVarint(b) && 0 < NextVarint(b).value.size <= |b|
    {
      VarintMore(b, c);
    }
    forall b: seq<byte> | NextVarint(b).Some? ensures 0 < NextVarint(b).value.size <= |b| {
      VarintMore(b, []);
    }
  }

  lemma VarintSize(m: seq<byte>)
    ensures |VarintEncoded(m)| == |Varint(|m| % WORD32)| + |m|
    ensures |m| < WORD32 ==> |m| % WORD32 == |m|
  {}

  lemma VarintFrame(m: seq<byte>, tail: seq<byte>)
    ensures var n := |m| % WORD32; var head := |Varint(n)|;
            NextVarint(VarintEncoded(m) + tail) == Some(Frame((m + tail)[..n], head + n))
  {
    var n := |m| % WORD32;
    Weights();
    ParseVarint([], n, m + tail, 0);
    var b := VarintEncoded(m) + tail;
    assert [] + Varint(n) + (m + tail) == b;
    assert b[|Varint(n)|..|Varint(n)| + n] == (m + tail)[..n];
  }

  /** A message is read back exactly if its length fits 32 bits. */
  lemma VarintReadBackIff(m: seq<byte>)
    ensures ReadBack(NextVarint, VarintEncoded, m) <==> |m| < WORD32
  {
    VarintSize(m);
    hide NextVarint, VarintEncoded;
    if |m| < WORD32 {
      forall tail: seq<byte> ensures NextVarint(VarintEncoded(m) + tail) == Some(Frame(m, |VarintEncoded(m)|)) {
        VarintFrame(m, tail);
        assert (m + tail)[..|m|] == m;
      }
    } else {
      VarintFrame(m, []);
      assert NextVarint(VarintEncoded(m) + []) != Some(Frame(m, |VarintEncoded(m)|));
    }
  }

  lemma ProtobufCodecInverts(messages: seq<seq<byte>>, chunks: seq<seq<byte>>)
    requires forall i :: 0 <= i < |messages| ==> |messages[i]| < WORD32
    requires Flatten(chunks) == EncodeAll(VarintEncoded, messages)
    ensures FeedAll(NextVarint, [], chunks) == Decoded(messages, [])
  {
    VarintIncremental();
    forall i | 0 <= i < |messages| ensures ReadBack(NextVarint, VarintEncoded, messages[i]) {
      VarintReadBackIff(messages[i]);
    }
    AnyCutDecodes(NextVarint, VarintEncoded, messages, chunks);
  }

  class ProtobufCodec {
    var buffer: seq<byte>
    var head: nat

    ghost predicate Valid()
      reads this
    {
      Compacted(buffer, head) && Stuck(NextVarint, Unread())
    }

    ghost function Unread(): seq<byte>
      requires head <= |buffer|
      reads this
    {
      buffer[head..]
    }

    constructor ()
      ensures Valid() && Unread() == []
    {
      buffer, head := [], 0;
    }

    method Encode(message: seq<byte>) returns (out: seq<byte>)
      ensures out == VarintEncoded(message)
    {
      out := AppendVarint32([], |message| % WORD32);
      if message != [] {
        out := out + message;
      }
    }

    method Decode(data: seq<byte>) returns (result: seq<seq<byte>>)
      requires Valid()
      modifies this
      ensures Valid()
      ensures Decoded(result, Unread()) == DecodeAll(NextVarint, old(Unread()) + data)
    {
      hide DecodeAll, ParseFrom;
      result := [];
      ghost var all := DecodeAll(NextVarint, Unread() + data);
      buffer := buffer + data;
      assert buffer[head..] == old(Unread()) + data;
      RestIsStuck(NextVarint, old(Unread()) + data);
      var pos: nat := head;
      var more := true;
      while more && pos < |buffer|
        invariant pos <= |buffer|
        invariant all == Decoded(result + DecodeAll(NextVarint, buffer[pos..]).messages,
                                 DecodeAll(NextVarint, buffer[pos..]).rest)
        invariant !more ==> DecodeAll(NextVarint, buffer[pos..]) == Decoded([], buffer[pos..])
        decreases |buffer| - pos, more
      {
        DecodeStep(NextVarint, buffer[pos..]);
        ParseSize(buffer[pos..]);
        var len, after := ParseVarint32(buffer, pos);
        if len.None? || |buffer| - after < len.value {
          more := false;
        } else {
          assert buffer[pos..][after - pos..after - pos + len.value] == buffer[after..after + len.value];
          assert buffer[pos..][after - pos + len.value..] == buffer[after + len.value..];
          result := result + [buffer[after..after + len.value]];
          pos := after + len.value;
        }
      }
      if pos == |buffer| { DecodeStep(NextVarint, buffer[pos..]); NothingYet(); }
      head := pos;
      buffer, head := CompactPrefix(buffer, head);
    }
  }

  lemma ParseSize(b: seq<byte>)
    ensures ParseFrom(b, 0, 0).Some? ==> 0 < ParseFrom(b, 0, 0).value.size <= |b|
  {
    if ParseFrom(b, 0, 0).Some? { ParseMore(b, [], 0, 0); }
  }

  lemma NothingYet()
    ensures NextVarint([]).None? && ReadHead([]).TooShort?
  {}

  // ---------------------------------------------------------------- the 4-byte framer

  /** Four bytes, most significant first. */
  function HostToNet32(v: nat): (b: seq<byte>)
    requires v < WORD32
    ensures |b| == 4 && NetToHost32(b) == v
  {
    var high, low := v / 0x1_0000, v % 0x1_0000;
    [high / 256, high % 256, low / 256, low % 256]
  }

  function NetToHost32(b: seq<byte>): (v: nat)
    requires |b| == 4
    ensures v < WORD32
  {
    ((b[0] as int) * 256 + b[1] as int) * 0x1_0000 + ((b[2] as int) * 256 + b[3] as int)
  }

  /** The number four bytes stand for, each by its weight. */
  lemma BigEndian(b: seq<byte>)
    requires |b| == 4
    ensures NetToHost32(b) == 16777216 * b[0] as int + 65536 * b[1] as int + 256 * b[2] as int + b[3] as int
  {}

  function LengthEncoded(m: seq<byte>): seq<byte> {
    HostToNet32(|m| % WORD32) + m
  }

  /** The sum of header and body size, in 32 bits. */
  function FrameSize32(bodyLen: nat): (size: nat)
    ensures size < WORD32
  {
    (4 + bodyLen) % WORD32
  }

  /** What the loop of decode meets at the front of some bytes: too few of them, a body within them
    and how far to go on, or a body that is read past their end. The last happens because the check
    is on the 32-bit sum; the same sum says how far to go on. */
  datatype Head = TooShort | Whole(message: seq<byte>, size: nat) | Overrun

  function ReadHead(b: seq<byte>): Head {
    if |b| < 4 then TooShort
    else
      var n := NetToHost32(b[..4]);
      if |b| < FrameSize32(n) then TooShort
      else if |b| - 4 < n then Overrun
      else Whole(b[4..4 + n], FrameSize32(n))
  }

  /** How a call of decode goes: it waits for more bytes, reads past its buffer, or turns round for
    ever on a header that takes it no further. */
  datatype Fate = Waits(rest: seq<byte>) | Overruns | Endless

  datatype Decoding = Decoding(messages: seq<seq<byte>>, fate: Fate)

  function LengthDecoding(b: seq<byte>): Decoding
    decreases |b|
  {
    match ReadHead(b)
    case TooShort => Decoding([], Waits(b))
    case Overrun => Decoding([], Overruns)
    case Whole(message, size) =>
      if size == 0 || size > |b| then Decoding([message], Endless)
      else
        var tail := LengthDecoding(b[size..]);
        Decoding([message] + tail.messages, tail.fate)
  }

  lemma Announced(n: nat)
    requires n < WORD32
    ensures FrameSize32(n) == if n < WORD32 - 4 then 4 + n else 4 + n - WORD32
  {}

  /** What decode meets at a header that stands for `n` below 2^32 - 4: too few bytes, or a body of `n`
    bytes behind which it goes on. */
  lemma HeadIs(b: seq<byte>)
    requires |b| >= 4
    ensures var n := 16777216 * b[0] as int + 65536 * b[1] as int + 256 * b[2] as int + b[3] as int;
            n < 0xFFFF_FFFC ==> ReadHead(b) == if |b| < 4 + n then TooShort else Whole(b[4..4 + n], 4 + n)
  {
    BigEndian(b[..4]);
    hide NetToHost32;
    Announced(NetToHost32(b[..4]));
  }

  /** The read past the end happens exactly at a header of at least 2^32 - 4 with fewer bytes than it
    announces. */
  lemma OverrunHeadIff(b: seq<byte>)
    ensures ReadHead(b).Overrun? <==>
            |b| >= 4 && NetToHost32(b[..4]) >= WORD32 - 4 && |b| < 4 + NetToHost32(b[..4])
  {
    hide NetToHost32;
    if |b| >= 4 { Announced(NetToHost32(b[..4])); }
  }

  /** Decoding gets to offset `p` of the bytes. */
  ghost predicate Reaches(b: seq<byte>, p: nat)
    decreases |b|
  {
    p == 0 || match ReadHead(b)
              case Whole(_, size) => 0 < size <= |b| && size <= p && Reaches(b[size..], p - size)
              case _ => false
  }

  ghost predicate OverrunAt(b: seq<byte>, p: nat) {
    p <= |b| && Reaches(b, p) && ReadHead(b[p..]).Overrun?
  }

  /** Decoding overruns its buffer exactly if it reaches such a header. */
  lemma {:induction false} OverrunIff(b: seq<byte>)
    ensures LengthDecoding(b).fate.Overruns? <==> exists p: nat :: OverrunAt(b, p)
    decreases |b|
  {
    DecodingStep(b);
    OverrunFirst(b);
    hide ReadHead, LengthDecoding, OverrunAt;
    var head := ReadHead(b);
    if head.Whole? && 0 < head.size <= |b| {
      OverrunIff(b[head.size..]);
      forall p: nat ensures OverrunAt(b[head.size..], p) <==> OverrunAt(b, head.size + p) { OverrunShift(b, p); }
      if p: nat :| OverrunAt(b, p) { assert OverrunAt(b[head.size..], p - head.size); }
    }
  }

  /** Where a read past the end can happen: at the front, or behind the first message. */
  lemma OverrunFirst(b: seq<byte>)
    ensures var head := ReadHead(b);
            && (head.Overrun? ==> OverrunAt(b, 0))
            && forall p: nat :: OverrunAt(b, p) ==>
                 if head.Overrun? then p == 0 else head.Whole? && 0 < head.size <= |b| && head.size <= p
  {
    assert b[0..] == b;
    hide ReadHead;
    forall p: nat | OverrunAt(b, p)
      ensures if ReadHead(b).Overrun? then p == 0
              else ReadHead(b).Whole? && 0 < ReadHead(b).size <= |b| && ReadHead(b).size <= p
    {
      assert p == 0 ==> b[p..] == b;
    }
  }

  lemma OverrunShift(b: seq<byte>, p: nat)
    requires ReadHead(b).Whole? && 0 < ReadHead(b).size <= |b|
    ensures OverrunAt(b[ReadHead(b).size..], p) <==> OverrunAt(b, ReadHead(b).size + p)
  {
    var k := ReadHead(b).size;
    hide ReadHead;
    if k + p <= |b| { assert b[k..][p..] == b[k + p..]; }
  }

  /** A header takes the loop no further exactly if it is 2^32 - 4 and all those bytes are there. */
  lemma EndlessHeadIff(b: seq<byte>)
    ensures ReadHead(b).Whole? ==> ReadHead(b).size <= |b|
    ensures ReadHead(b).Whole? && ReadHead(b).size == 0 <==> |b| >= WORD32 && NetToHost32(b[..4]) == WORD32 - 4
  {
    hide NetToHost32;
    if |b| >= 4 { Announced(NetToHost32(b[..4])); }
  }

  ghost predicate EndlessAt(b: seq<byte>, p: nat) {
    p <= |b| && Reaches(b, p) && |b[p..]| >= WORD32 && NetToHost32(b[p..][..4]) == WORD32 - 4
  }

  /** Decoding goes on for ever exactly if it reaches a header of 2^32 - 4 with all its bytes. */
  lemma {:induction false} EndlessIff(b: seq<byte>)
    ensures LengthDecoding(b).fate.Endless? <==> exists p: nat :: EndlessAt(b, p)
    decreases |b|
  {
    EndlessHeadIff(b);
    DecodingStep(b);
    EndlessFirst(b);
    hide ReadHead, LengthDecoding, NetToHost32, EndlessAt;
    var head := ReadHead(b);
    if head.Whole? && 0 < head.size {
      EndlessIff(b[head.size..]);
      forall p: nat ensures EndlessAt(b[head.size..], p) <==> EndlessAt(b, head.size + p) { EndlessShift(b, p); }
      if p: nat :| EndlessAt(b, p) { assert EndlessAt(b[head.size..], p - head.size); }
    }
  }

  /** Where an endless header can be: at the front, or behind the first message. */
  lemma EndlessFirst(b: seq<byte>)
    ensures var head := ReadHead(b);
            && (head.Whole? && head.size == 0 ==> EndlessAt(b, 0))
            && forall p: nat :: EndlessAt(b, p) ==>
                 head.Whole? && (if head.size == 0 then p == 0 else head.size <= p)
  {
    EndlessHeadIff(b);
    assert b[0..] == b;
    hide ReadHead, NetToHost32;
    forall p: nat | EndlessAt(b, p) ensures ReadHead(b).Whole? && if ReadHead(b).size == 0 then p == 0 else ReadHead(b).size <= p {
      assert p == 0 ==> b[p..] == b;
    }
  }

  lemma EndlessShift(b: seq<byte>, p: nat)
    requires ReadHead(b).Whole? && 0 < ReadHead(b).size <= |b|
    ensures EndlessAt(b[ReadHead(b).size..], p) <==> EndlessAt(b, ReadHead(b).size + p)
  {
    var k := ReadHead(b).size;
    hide ReadHead, NetToHost32;
    if k + p <= |b| { assert b[k..][p..] == b[k + p..]; }
  }

  /** Four bytes FF FF FF FC are read as a header whose sum with 4 is 0: decode goes on to read
    2^32 - 4 bytes that are not there. */
  lemma OverrunInput()
    ensures LengthDecoding([0xFF, 0xFF, 0xFF, 0xFC]) == Decoding([], Overruns)
  {
    var b: seq<byte> := [0xFF, 0xFF, 0xFF, 0xFC];
    assert b[..4] == b;
    OverrunHeadIff(b);
  }

  function NextLength(b: seq<byte>): Option<Frame<seq<byte>>> {
    match ReadHead(b)
    case Whole(message, size) => Some(Frame(message, size))
    case _ => None
  }

  lemma EncodedHead(m: seq<byte>, tail: seq<byte>)
    ensures var n := |m| % WORD32; var b := LengthEncoded(m) + tail;
            && |b| == 4 + |m| + |tail| && NetToHost32(b[..4]) == n && ReadHead(b) == Whole((m + tail)[..n], FrameSize32(n))
  {
    hide HostToNet32, NetToHost32;
    var n, b := |m| % WORD32, LengthEncoded(m) + tail;
    assert b[..4] == HostToNet32(n);
    Announced(n);
    assert b[4..4 + n] == (m + tail)[..n];
  }

  /** A message is read back exactly if it is shorter than 2^32 - 4 bytes. */
  lemma LengthReadBackIff(m: seq<byte>)
    ensures ReadBack(NextLength, LengthEncoded, m) <==> |m| < WORD32 - 4
  {
    hide HostToNet32, NetToHost32, ReadHead;
    var n := |m| % WORD32;
    Announced(n);
    EncodedHead(m, []);
    if |m| < WORD32 - 4 {
      forall tail: seq<byte> ensures NextLength(LengthEncoded(m) + tail) == Some(Frame(m, |LengthEncoded(m)|)) {
        EncodedHead(m, tail);
        assert (m + tail)[..|m|] == m;
      }
    } else {
      assert |LengthEncoded(m) + []| == |LengthEncoded(m)|;
      assert NextLength(LengthEncoded(m) + []) != Some(Frame(m, |LengthEncoded(m)|));
    }
  }

  /** Decoding chunk by chunk, up to where it goes wrong. */
  function LengthFeed(rest: seq<byte>, chunks: seq<seq<byte>>): Decoding
    decreases |chunks|
  {
    if chunks == [] then Decoding([], Waits(rest))
    else
      var first := LengthDecoding(rest + chunks[0]);
      if first.fate.Waits? then
        var others := LengthFeed(first.fate.rest, chunks[1..]);
        Decoding(first.messages + others.messages, others.fate)
      else first
  }

  lemma HeadMore(b: seq<byte>, c: seq<byte>)
    requires ReadHead(b).Whole?
    ensures ReadHead(b + c) == ReadHead(b)
  {
    hide NetToHost32;
    assert (b + c)[..4] == b[..4];
    var n := NetToHost32(b[..4]);
    assert (b + c)[4..4 + n] == b[4..4 + n];
  }

  /** As long as decoding has only waited, bytes that come later change nothing about it. */
  lemma {:induction false} DecodingConcat(b: seq<byte>, c: seq<byte>)
    requires LengthDecoding(b).fate.Waits?
    ensures var d := LengthDecoding(b);
            var e := LengthDecoding(d.fate.rest + c);
            LengthDecoding(b + c) == Decoding(d.messages + e.messages, e.fate)
    decreases |b|
  {
    hide ReadHead, LengthDecoding;
    var head := ReadHead(b);
    DecodingStep(b);
    if head.Whole? {
      var n := head.size;
      HeadMore(b, c);
      DecodingStep(b + c);
      assert (b + c)[n..] == b[n..] + c;
      DecodingConcat(b[n..], c);
      var d, e := LengthDecoding(b[n..]), LengthDecoding(LengthDecoding(b[n..]).fate.rest + c);
      assert [head.message] + (d.messages + e.messages) == ([head.message] + d.messages) + e.messages;
    }
  }

  ghost predicate Alright(rest: seq<byte>, chunks: seq<seq<byte>>, i: nat)
    requires i <= |chunks|
  {
    LengthDecoding(rest + Flatten(chunks[..i])).fate.Waits?
  }

  ghost predicate WrongAfter(rest: seq<byte>, chunks: seq<seq<byte>>, i: nat, fate: Fate) {
    && i <= |chunks| && LengthDecoding(rest + Flatten(chunks[..i])).fate == fate
    && forall j: nat :: j < i ==> Alright(rest, chunks, j)
  }

  /** Fed in chunks, the decoder overruns its buffer, or goes on for ever, exactly if decoding all
    that has arrived by some cut does so, and by no cut before. */
  lemma {:induction false} FeedWrongIff(rest: seq<byte>, chunks: seq<seq<byte>>, fate: Fate)
    requires LengthDecoding(rest) == Decoding([], Waits(rest)) && !fate.Waits?
    ensures LengthFeed(rest, chunks).fate == fate <==> exists i: nat :: WrongAfter(rest, chunks, i, fate)
    decreases |chunks|
  {
    hide LengthDecoding;
    assert chunks[..0] == [] && rest + Flatten([]) == rest;
    if chunks != [] {
      var first := LengthDecoding(rest + chunks[0]);
      FirstCut(rest, chunks);
      assert Alright(rest, chunks, 0);
      if first.fate.Waits? {
        DecodingRest(rest + chunks[0]);
        FeedWrongIff(first.fate.rest, chunks[1..], fate);
        forall i: nat | 1 <= i <= |chunks|
          ensures LengthDecoding(rest + Flatten(chunks[..i])).fate ==
                  LengthDecoding(first.fate.rest + Flatten(chunks[1..][..i - 1])).fate
        {
          LaterCut(rest, chunks, i);
        }
        if i: nat :| WrongAfter(first.fate.rest, chunks[1..], i, fate) {
          forall j: nat | j < i + 1 ensures Alright(rest, chunks, j) {
            if j > 0 { assert Alright(first.fate.rest, chunks[1..], j - 1); }
          }
          assert WrongAfter(rest, chunks, i + 1, fate);
        }
        if i: nat :| WrongAfter(rest, chunks, i, fate) {
          assert i != 0 && i != 1;
          forall j: nat | j < i - 1 ensures Alright(first.fate.rest, chunks[1..], j) {
            assert Alright(rest, chunks, j + 1);
          }
          assert WrongAfter(first.fate.rest, chunks[1..], i - 1, fate);
        }
      } else {
        if first.fate == fate { assert WrongAfter(rest, chunks, 1, fate); }
        if i: nat :| WrongAfter(rest, chunks, i, fate) {
          assert i != 0;
          assert i > 1 ==> Alright(rest, chunks, 1);
        }
      }
    }
  }

  lemma FirstCut(rest: seq<byte>, chunks: seq<seq<byte>>)
    requires chunks != []
    ensures rest + Flatten(chunks[..1]) == rest + chunks[0]
  {
    assert chunks[..1] == [chunks[0]];
    var none: seq<seq<byte>> := [];
    assert chunks[..1][1..] == none;
    assert Flatten(chunks[..1]) == chunks[0] + Flatten(none);
  }

  lemma LaterCut(rest: seq<byte>, chunks: seq<seq<byte>>, i: nat)
    requires 1 <= i <= |chunks| && LengthDecoding(rest + chunks[0]).fate.Waits?
    ensures LengthDecoding(rest + Flatten(chunks[..i])).fate ==
            LengthDecoding(LengthDecoding(rest + chunks[0]).fate.rest + Flatten(chunks[1..][..i - 1])).fate
  {
    hide LengthDecoding;
    DecodingConcat(rest + chunks[0], Flatten(chunks[1..][..i - 1]));
    assert chunks[..i][0] == chunks[0] && chunks[..i][1..] == chunks[1..][..i - 1];
    assert rest + Flatten(chunks[..i]) == rest + chunks[0] + Flatten(chunks[1..][..i - 1]);
  }

  /** The bytes decoding waits with are stuck until more come. */
  lemma {:induction false} DecodingRest(b: seq<byte>)
    ensures var d := LengthDecoding(b);
            d.fate.Waits? ==> LengthDecoding(d.fate.rest) == Decoding([], Waits(d.fate.rest))
    decreases |b|
  {
    var head := ReadHead(b);
    if head.Whole? && 0 < head.size <= |b| { DecodingRest(b[head.size..]); }
  }

  lemma DecodingStep(b: seq<byte>)
    ensures ReadHead(b).TooShort? ==> LengthDecoding(b) == Decoding([], Waits(b))
    ensures ReadHead(b).Overrun? ==> LengthDecoding(b) == Decoding([], Overruns)
    ensures ReadHead(b).Whole? && !(0 < ReadHead(b).size <= |b|) ==> LengthDecoding(b) == Decoding([ReadHead(b).message], Endless)
    ensures ReadHead(b).Whole? && 0 < ReadHead(b).size <= |b| ==>
              var tail := LengthDecoding(b[ReadHead(b).size..]);
              LengthDecoding(b) == Decoding([ReadHead(b).message] + tail.messages, tail.fate)
  {}

  // ---------------------------------------------------------------- streams of messages that fit

  ghost predicate AllFit(messages: seq<seq<byte>>) {
    forall i :: 0 <= i < |messages| ==> |messages[i]| < WORD32 - 4
  }

  /** Part of the encoding of one message is not enough. */
  lemma PartOfOne(m: seq<byte>, b: seq<byte>, c: seq<byte>)
    requires |m| < WORD32 - 4 && b + c == LengthEncoded(m) && c != []
    ensures ReadHead(b).TooShort?
  {
    EncodedHead(m, []);
    assert LengthEncoded(m) + [] == LengthEncoded(m);
    hide HostToNet32, NetToHost32;
    Announced(|m|);
    if |b| >= 4 { assert b[..4] == LengthEncoded(m)[..4]; }
  }

  lemma SplitStream(b: seq<byte>, c: seq<byte>, first: seq<byte>, others: seq<byte>)
    requires b + c == first + others
    ensures |b| < |first| ==> b + first[|b|..] == first
    ensures |first| <= |b| ==> b == first + b[|first|..] && b[|first|..] + c == others
  {
    assert (b + c)[..|first|] == first && (b + c)[|first|..] == others;
  }

  /** Of the front part of a stream of messages the first ones are decoded, and with the rest of the
    bytes what is still to come encodes the others. */
  lemma {:induction false} FrontDecoded(b: seq<byte>, c: seq<byte>, messages: seq<seq<byte>>)
    requires AllFit(messages) && b + c == EncodeAll(LengthEncoded, messages)
    ensures var d := LengthDecoding(b);
            && d.fate.Waits? && |d.messages| <= |messages| && d.messages == messages[..|d.messages|]
            && d.fate.rest + c == EncodeAll(LengthEncoded, messages[|d.messages|..])
    decreases |messages|
  {
    hide LengthDecoding, ReadHead, LengthEncoded;
    DecodingStep(b);
    if messages == [] {
      NothingYet();
    } else {
      var m, others := messages[0], EncodeAll(LengthEncoded, messages[1..]);
      var first := LengthEncoded(m);
      EncodedHead(m, []);
      assert first + [] == first;
      SplitStream(b, c, first, others);
      if |b| < |first| {
        PartOfOne(m, b, first[|b|..]);
      } else {
        Announced(|m|);
        var tail := b[|first|..];
        EncodedHead(m, tail);
        assert (m + tail)[..|m|] == m;
        FrontDecoded(tail, c, messages[1..]);
        var d := LengthDecoding(tail);
        assert [m] + messages[1..][..|d.messages|] == messages[..|d.messages| + 1];
        assert messages[1..][|d.messages|..] == messages[|d.messages| + 1..];
      }
    }
  }

  /** However the encodings of messages below 2^32 - 4 bytes are cut into chunks, decoding the chunks
    gives back exactly those messages and leaves nothing. */
  lemma {:induction false} LengthFeedInverts(rest: seq<byte>, chunks: seq<seq<byte>>, messages: seq<seq<byte>>)
    requires AllFit(messages) && rest + Flatten(chunks) == EncodeAll(LengthEncoded, messages)
    requires LengthDecoding(rest) == Decoding([], Waits(rest))
    ensures LengthFeed(rest, chunks) == Decoding(messages, Waits([]))
    decreases |chunks|
  {
    hide LengthDecoding, LengthEncoded;
    if chunks == [] {
      assert rest + [] == rest;
      FrontDecoded(rest, [], messages);
      AllOrNothing(rest, messages);
    } else {
      var later := Flatten(chunks[1..]);
      assert rest + chunks[0] + later == rest + Flatten(chunks);
      FrontDecoded(rest + chunks[0], later, messages);
      DecodingRest(rest + chunks[0]);
      var d := LengthDecoding(rest + chunks[0]);
      LengthFeedInverts(d.fate.rest, chunks[1..], messages[|d.messages|..]);
      assert messages[..|d.messages|] + messages[|d.messages|..] == messages;
    }
  }

  /** A whole stream with nothing in it to decode is empty. */
  lemma AllOrNothing(b: seq<byte>, messages: seq<seq<byte>>)
    requires AllFit(messages) && b == EncodeAll(LengthEncoded, messages)
    requires LengthDecoding(b) == Decoding([], Waits(b))
    ensures messages == [] && b == []
  {
    if messages != [] {
      var others := EncodeAll(LengthEncoded, messages[1..]);
      Announced(|messages[0]|);
      DecodingStep(b);
      EncodedHead(messages[0], others);
    }
  }

  lemma LengthHeaderCodecInverts(messages: seq<seq<byte>>, chunks: seq<seq<byte>>)
    requires forall i :: 0 <= i < |messages| ==> |messages[i]| < WORD32 - 4
    requires Flatten(chunks) == EncodeAll(LengthEncoded, messages)
    ensures LengthFeed([], chunks) == Decoding(messages, Waits([]))
  {
    NothingYet();
    DecodingStep([]);
    assert [] + Flatten(chunks) == Flatten(chunks);
    LengthFeedInverts([], chunks, messages);
  }

  /** What the loop of decode does at a position of its buffer. */
  lemma DecodingAt(buffer: seq<byte>, head: nat)
    requires head <= |buffer|
    ensures |buffer| - head < 4 ==> LengthDecoding(buffer[head..]) == Decoding([], Waits(buffer[head..]))
    ensures |buffer| - head >= 4 ==>
              var n, avail := NetToHost32(buffer[head..head + 4]), |buffer| - head;
              LengthDecoding(buffer[head..]) ==
                if avail < FrameSize32(n) then Decoding([], Waits(buffer[head..]))
                else if avail - 4 < n then Decoding([], Overruns)
                else if FrameSize32(n) == 0 then Decoding([buffer[head + 4..head + 4 + n]], Endless)
                else
                  var tail := LengthDecoding(buffer[head + FrameSize32(n)..]);
                  Decoding([buffer[head + 4..head + 4 + n]] + tail.messages, tail.fate)
  {
    hide LengthDecoding, ReadHead, NetToHost32, FrameSize32;
    DecodingStep(buffer[head..]);
    HeadAt(buffer, head);
    if |buffer| - head >= 4 {
      var size := FrameSize32(NetToHost32(buffer[head..head + 4]));
      if head + size <= |buffer| { assert buffer[head..][size..] == buffer[head + size..]; }
    }
  }

  lemma HeadAt(buffer: seq<byte>, head: nat)
    requires head <= |buffer|
    ensures |buffer| - head < 4 ==> ReadHead(buffer[head..]).TooShort?
    ensures |buffer| - head >= 4 ==>
              var n, avail := NetToHost32(buffer[head..head + 4]), |buffer| - head;
              ReadHead(buffer[head..]) ==
                if avail < FrameSize32(n) then TooShort
                else if avail - 4 < n then Overrun
                else Whole(buffer[head + 4..head + 4 + n], FrameSize32(n))
  {
    if |buffer| - head >= 4 {
      var rest := buffer[head..];
      assert rest[..4] == buffer[head..head + 4];
      hide NetToHost32;
      var n := NetToHost32(rest[..4]);
      if n <= |rest| - 4 { assert rest[4..4 + n] == buffer[head + 4..head + 4 + n]; }
    }
  }

  class LengthHeaderCodec {
    var buffer: seq<byte>
    var head: nat

    ghost predicate Valid()
      reads this
    {
      Compacted(buffer, head) && LengthDecoding(Unread()) == Decoding([], Waits(Unread()))
    }

    ghost function Unread(): seq<byte>
      requires head <= |buffer|
      reads this
    {
      buffer[head..]
    }

    constructor ()
      ensures Valid() && Unread() == []
    {
      buffer, head := [], 0;
    }

    method Encode(message: seq<byte>) returns (result: seq<byte>)
      ensures result == LengthEncoded(message)
      ensures |result| == 4 + |message| && result[4..] == message
      ensures 16777216 * result[0] as int + 65536 * result[1] as int + 256 * result[2] as int + result[3] as int ==
              |message| % 0x1_0000_0000
    {
      BigEndian(HostToNet32(|message| % WORD32));
      var len := |message| % WORD32;
      result := HostToNet32(len);
      if message != [] {
        result := result + message;
      }
    }

    /** decode, for any bytes. If it does not end, or reads past the buffer, it says so where that
      happens; in the source nothing is defined from there on. */
    method Decode(data: seq<byte>) returns (messages: seq<seq<byte>>, wrong: Option<Fate>)
      requires Valid()
      modifies this
      ensures wrong.None? ==> Valid() && LengthDecoding(old(Unread()) + data) == Decoding(messages, Waits(Unread()))
      ensures wrong.Some? ==> !wrong.value.Waits? && LengthDecoding(old(Unread()) + data) == Decoding(messages, wrong.value)
    {
      hide LengthDecoding, NetToHost32, FrameSize32;
      messages, wrong := [], None;
      ghost var all := LengthDecoding(Unread() + data);
      buffer := buffer + data;
      assert buffer[head..] == old(Unread()) + data;
      while true
        invariant head <= |buffer|
        invariant all == Decoding(messages + LengthDecoding(buffer[head..]).messages, LengthDecoding(buffer[head..]).fate)
        decreases |buffer| - head
      {
        DecodingAt(buffer, head);
        var avail := |buffer| - head;
        if avail < 4 {
          break;
        }
        var bodyLen := NetToHost32(buffer[head..head + 4]);
        if avail < FrameSize32(bodyLen) {
          break;
        }
        if avail - 4 < bodyLen {
          return messages, Some(Overruns);
        }
        messages := messages + [buffer[head + 4..head + 4 + bodyLen]];
        if FrameSize32(bodyLen) == 0 {
          return messages, Some(Endless);
        }
        head := head + FrameSize32(bodyLen);
      }
      DecodingRest(old(Unread()) + data);
      buffer, head := CompactPrefix(buffer, head);
    }
  }
}
