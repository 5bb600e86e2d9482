/** The command frames of src/protocol: two bytes of command, two bytes of length, body. */
module Protocol {
  import opened Wrappers
  import opened Framing

  type Word = w: int | 0 <= w < 0x1_0000

  datatype Message = Message(cmd: Word, body: seq<byte>)

  /** Two bytes, most significant first. */
  function HostToNet16(w: Word): (b: seq<byte>)
    ensures |b| == 2 && NetToHost16(b) == w
  {
    [w / 256, w % 256]
  }

  function NetToHost16(b: seq<byte>): Word
    requires |b| == 2
  {
    (b[0] as int) * 256 + b[1] as int
  }

  /** What serialize writes; the length field keeps only the low 16 bits of the body size. */
  function Serialized(m: Message): (b: seq<byte>)
    ensures |b| == 4 + |m.body|
  {
    HostToNet16(m.cmd) + HostToNet16(|m.body| % 0x1_0000) + m.body
  }

  /** The bytes of a frame, each by its weight. */
  method Serialize(m: Message) returns (result: seq<byte>)
    ensures result == Serialized(m)
    ensures |result| == 4 + |m.body| && result[4..] == m.body
    ensures (result[0] as int) * 256 + result[1] as int == m.cmd
    ensures (result[2] as int) * 256 + result[3] as int == |m.body| % 65536
  {
    result := [];
    result := result + HostToNet16(m.cmd);
    result := result + HostToNet16(|m.body| % 0x1_0000);
    result := result + m.body;
  }

  /** The frame at the front of some bytes. */
  function NextMessage(b: seq<byte>): Option<Frame<Message>> {
    if |b| < 4 then None
    else
      var bodyLen: nat := NetToHost16(b[2..4]);
      if |b| < 4 + bodyLen then None
      else Some(Frame(Message(NetToHost16(b[0..2]), b[4..4 + bodyLen]), 4 + bodyLen))
  }

  /** deserialize reads the first frame and does not mind what follows it. */
  method Deserialize(data: seq<byte>) returns (m: Option<Message>)
    ensures m == if NextMessage(data).Some? then Some(NextMessage(data).value.message) else None
    ensures m.Some? <==> |data| >= 4 && |data| >= 4 + (data[2] as int) * 256 + data[3] as int
    ensures m.Some? ==>
              var n := (data[2] as int) * 256 + data[3] as int;
              m.value.cmd == (data[0] as int) * 256 + data[1] as int && m.value.body == data[4..4 + n]
  {
    if |data| < 4 {
      return None;
    }
    var cmd := NetToHost16(data[0..2]);
    var bodyLen: nat := NetToHost16(data[2..4]);
    if |data| < 4 + bodyLen {
      return None;
    }
    m := Some(Message(cmd, data[4..4 + bodyLen]));
  }

  lemma MessagesIncremental()
    ensures Incremental(NextMessage)
  {
    forall b: seq<byte>, c: seq<byte> | NextMessage(b).Some? ensures NextMessage(b + c) == NextMessage(b) {
      assert (b + c)[0..2] == b[0..2] && (b + c)[2..4] == b[2..4];
      var n := NetToHost16(b[2..4]);
      assert (b + c)[4..4 + n] == b[4..4 + n];
    }
  }

  lemma SerializedFields(m: Message, tail: seq<byte>)
    ensures var b := Serialized(m) + tail;
            && b[0..2] == HostToNet16(m.cmd) && b[2..4] == HostToNet16(|m.body| % 0x1_0000)
            && b[4..4 + |m.body|] == m.body && b[4..] == m.body + tail
  {}

  /** A message is read back exactly if its body fits the length field. */
  lemma ReadBackIff(m: Message)
    ensures ReadBack(NextMessage, Serialized, m) <==> |m.body| < 0x1_0000
  {
    if |m.body| < 0x1_0000 {
      forall tail: seq<byte> ensures NextMessage(Serialized(m) + tail) == Some(Frame(m, |Serialized(m)|)) {
        SerializedFields(m, tail);
      }
    } else {
      SerializedFields(m, []);
      var b := Serialized(m) + [];
      assert NextMessage(b).value.size == 4 + |m.body| % 0x1_0000;
      assert NextMessage(b) != Some(Frame(m, |Serialized(m)|));
    }
  }

  /** Any cutting of any list of serialized messages parses back to that list. */
  lemma ParserInvertsSerialize(messages: seq<Message>, chunks: seq<seq<byte>>)
    requires forall i :: 0 <= i < |messages| ==> |messages[i].body| < 0x1_0000
    requires Flatten(chunks) == EncodeAll(Serialized, messages)
    ensures FeedAll(NextMessage, [], chunks) == Decoded(messages, [])
  {
    MessagesIncremental();
    forall i | 0 <= i < |messages| ensures ReadBack(NextMessage, Serialized, messages[i]) {
      ReadBackIff(messages[i]);
    }
    AnyCutDecodes(NextMessage, Serialized, messages, chunks);
  }

  /** What feed reads in place at the head of its buffer is the next frame of the unread bytes. */
  lemma HeadFrame(buffer: seq<byte>, head: nat)
    requires head <= |buffer|
    ensures |buffer| - head < 4 ==> NextMessage(buffer[head..]).None?
    ensures |buffer| - head >= 4 ==>
              var n: nat := NetToHost16(buffer[head + 2..head + 4]);
              if |buffer| - head < 4 + n then NextMessage(buffer[head..]).None?
              else && NextMessage(buffer[head..]) ==
                      Some(Frame(Message(NetToHost16(buffer[head..head + 2]), buffer[head + 4..head + 4 + n]), 4 + n))
                   && buffer[head..][4 + n..] == buffer[head + 4 + n..]
  {
    if |buffer| - head >= 4 {
      var unread := buffer[head..];
      assert unread[2..4] == buffer[head + 2..head + 4] && unread[0..2] == buffer[head..head + 2];
      var n: nat := NetToHost16(unread[2..4]);
      if |unread| >= 4 + n {
        assert unread[4..4 + n] == buffer[head + 4..head + 4 + n];
      }
    }
  }

  class Parser {
    var buffer: seq<byte>
    var head: nat

    /** The buffer is compacted and holds no complete message. */
    ghost predicate Valid()
      reads this
    {
      Compacted(buffer, head) && Stuck(NextMessage, Unread())
    }

    ghost function Unread(): seq<byte>
      requires head <= |buffer|
      reads this
    {
      buffer[head..]
    }

    constructor ()
      ensures Valid() && Unread() == []
    {
      buffer, head := [], 0;
    }

    method Reset()
      modifies this
      ensures Valid() && Unread() == []
    {
      buffer, head := [], 0;
    }

    /** feed: returns every message completed by the new data and keeps the rest. */
    method Feed(data: seq<byte>) returns (messages: seq<Message>)
      requires Valid()
      modifies this
      ensures Valid()
      ensures Decoded(messages, Unread()) == DecodeAll(NextMessage, old(Unread()) + data)
    {
      hide DecodeAll, NextMessage, NetToHost16;
      messages := [];
      ghost var all := DecodeAll(NextMessage, Unread() + data);
      buffer := buffer + data;
      assert buffer[head..] == old(Unread()) + data;
      while true
        invariant head <= |buffer|
        invariant all == Decoded(messages + DecodeAll(NextMessage, buffer[head..]).messages,
                                 DecodeAll(NextMessage, buffer[head..]).rest)
        decreases |buffer| - head
      {
        HeadFrame(buffer, head);
        DecodeStep(NextMessage, buffer[head..]);
        var avail := |buffer| - head;
        if avail < 4 {
          break;
        }
        var bodyLen: nat := NetToHost16(buffer[head + 2..head + 4]);
        if avail < 4 + bodyLen {
          break;
        }
        var m := Message(NetToHost16(buffer[head..head + 2]), buffer[head + 4..head + 4 + bodyLen]);
        messages := messages + [m];
        head := head + 4 + bodyLen;
      }
      RestIsStuck(NextMessage, old(Unread()) + data);
      buffer, head := CompactPrefix(buffer, head);
    }
  }

  /** Feeding a parser chunk by chunk, as a connection does. */
  method ParseChunks(parser: Parser, chunks: seq<seq<byte>>) returns (messages: seq<Message>)
    requires parser.Valid()
    modifies parser
    ensures parser.Valid()
    ensures Decoded(messages, parser.Unread()) == FeedAll(NextMessage, old(parser.Unread()), chunks)
  {
    messages := [];
    for i := 0 to |chunks|
      invariant parser.Valid()
      invariant Decoded(messages, parser.Unread()) == FeedAll(NextMessage, old(parser.Unread()), chunks[..i])
    {
      FeedSnoc(NextMessage, old(parser.Unread()), chunks[..i], chunks[i]);
      assert chunks[..i + 1] == chunks[..i] + [chunks[i]];
      var more := parser.Feed(chunks[i]);
      messages := messages + more;
    }
    assert chunks[..|chunks|] == chunks;
  }

  // ---------------------------------------------------------------- consuming by message sizes

  /** What the receivers of src/rpc take for consumed: header and body of every message. */
  function Consumed(messages: seq<Message>): nat {
    if messages == [] then 0 else 4 + |messages[0].body| + Consumed(messages[1..])
  }

  /** Summing message sizes finds exactly the bytes a persistent parser would have passed. */
  lemma {:induction false} ConsumedIsParsed(b: seq<byte>)
    ensures var d := DecodeAll(NextMessage, b);
            Consumed(d.messages) <= |b| && b[Consumed(d.messages)..] == d.rest
    decreases |b|
  {
    var frame := NextMessage(b);
    DecodeStep(NextMessage, b);
    if frame.Some? {
      var n := frame.value.size;
      ConsumedIsParsed(b[n..]);
      assert n == 4 + |frame.value.message.body|;
      hide NextMessage, DecodeAll;
      var d, e := DecodeAll(NextMessage, b), DecodeAll(NextMessage, b[n..]);
      assert d.messages[1..] == e.messages;
      assert b[n..][Consumed(e.messages)..] == b[n + Consumed(e.messages)..];
    }
  }

  /** The receive step of the RPC client and server: a fresh parser over all buffered bytes, then
    the consumed bytes erased. It does what one persistent parser would. */
  method ParseBuffered(buffer: seq<byte>, data: seq<byte>) returns (messages: seq<Message>, rest: seq<byte>)
    ensures Decoded(messages, rest) == DecodeAll(NextMessage, buffer + data)
  {
    hide NextMessage, DecodeAll;
    var buf := buffer + data;
    var parser := new Parser();
    messages := parser.Feed(buf);
    assert [] + buf == buf;
    rest := buf;
    ConsumedIsParsed(buf);
    if messages != [] {
      var consumed := 0;
      for i := 0 to |messages|
        invariant consumed + Consumed(messages[i..]) == Consumed(messages)
      {
        consumed := consumed + 4 + |messages[i].body|;
        assert messages[i..][1..] == messages[i + 1..];
      }
      if consumed <= |rest| {
        rest := rest[consumed..];
      }
    }
  }
}
