/** Cutting a byte stream into frames, whatever the frame format: the laws that make incremental
  decoding independent of how the stream arrives. */
module Framing {
  import opened Wrappers

  type byte = b: int | 0 <= b < 256

  /** A decoded message and the number of bytes it took. */
  datatype Frame<+M> = Frame(message: M, size: nat)

  type Framer<!M> = seq<byte> -> Option<Frame<M>>

  /** A frame is read from the bytes it covers alone: it is there however much follows. */
  ghost predicate Incremental<M(!new)>(next: Framer<M>) {
    && (forall b :: next(b).Some? ==> 0 < next(b).value.size <= |b|)
    && (forall b, c {:trigger next(b + c)} :: next(b).Some? ==> next(b + c) == next(b))
  }

  datatype Decoded<+M> = Decoded(messages: seq<M>, rest: seq<byte>)

  /** Takes frames off the front as long as there is one. */
  function DecodeAll<M>(next: Framer<M>, b: seq<byte>): Decoded<M>
    decreases |b|
  {
    var frame := next(b);
    if frame.None? || frame.value.size == 0 || frame.value.size > |b| then Decoded([], b)
    else
      var tail := DecodeAll(next, b[frame.value.size..]);
      Decoded([frame.value.message] + tail.messages, tail.rest)
  }

  lemma DecodeStep<M>(next: Framer<M>, b: seq<byte>)
    ensures next(b).None? ==> DecodeAll(next, b) == Decoded([], b)
    ensures next(b).Some? && 0 < next(b).value.size <= |b| ==>
              var tail := DecodeAll(next, b[next(b).value.size..]);
              DecodeAll(next, b) == Decoded([next(b).value.message] + tail.messages, tail.rest)
  {}

  /** Decoding chunk by chunk, carrying the undecoded rest along. */
  function FeedAll<M>(next: Framer<M>, rest: seq<byte>, chunks: seq<seq<byte>>): Decoded<M>
    decreases |chunks|
  {
    if chunks == [] then Decoded([], rest)
    else
      var first := DecodeAll(next, rest + chunks[0]);
      var others := FeedAll(next, first.rest, chunks[1..]);
      Decoded(first.messages + others.messages, others.rest)
  }

  function Flatten(chunks: seq<seq<byte>>): seq<byte> {
    if chunks == [] then [] else chunks[0] + Flatten(chunks[1..])
  }

  function EncodeAll<M>(encode: M -> seq<byte>, messages: seq<M>): seq<byte> {
    if messages == [] then [] else encode(messages[0]) + EncodeAll(encode, messages[1..])
  }

  /** Nothing can be decoded yet. */
  ghost predicate Stuck<M>(next: Framer<M>, b: seq<byte>) {
    DecodeAll(next, b) == Decoded([], b)
  }

  lemma {:induction false} RestIsStuck<M>(next: Framer<M>, b: seq<byte>)
    ensures Stuck(next, DecodeAll(next, b).rest)
    decreases |b|
  {
    var frame := next(b);
    if frame.Some? && 0 < frame.value.size <= |b| {
      RestIsStuck(next, b[frame.value.size..]);
    }
  }

  /** Bytes that arrive later change nothing about what was decoded before. */
  lemma {:induction false} DecodeConcat<M(!new)>(next: Framer<M>, b: seq<byte>, c: seq<byte>)
    requires Incremental(next)
    ensures var d := DecodeAll(next, b);
            var e := DecodeAll(next, d.rest + c);
            DecodeAll(next, b + c) == Decoded(d.messages + e.messages, e.rest)
    decreases |b|
  {
    var frame := next(b);
    if frame.Some? {
      var n := frame.value.size;
      assert next(b + c) == frame;
      assert (b + c)[n..] == b[n..] + c;
      DecodeConcat(next, b[n..], c);
      var d, e := DecodeAll(next, b[n..]), DecodeAll(next, DecodeAll(next, b[n..]).rest + c);
      assert [frame.value.message] + (d.messages + e.messages) == ([frame.value.message] + d.messages) + e.messages;
    }
  }

  /** Feeding a stream in chunks is feeding it whole. */
  lemma {:induction false} ChunksDoNotMatter<M(!new)>(next: Framer<M>, rest: seq<byte>, chunks: seq<seq<byte>>)
    requires Incremental(next) && Stuck(next, rest)
    ensures FeedAll(next, rest, chunks) == DecodeAll(next, rest + Flatten(chunks))
    decreases |chunks|
  {
    hide DecodeAll;
    if chunks == [] {
      assert rest + Flatten(chunks) == rest;
    } else {
      var first := DecodeAll(next, rest + chunks[0]);
      RestIsStuck(next, rest + chunks[0]);
      ChunksDoNotMatter(next, first.rest, chunks[1..]);
      DecodeConcat(next, rest + chunks[0], Flatten(chunks[1..]));
      assert rest + Flatten(chunks) == rest + chunks[0] + Flatten(chunks[1..]);
    }
  }

  /** A message whose encoding is read back as one frame, whatever follows it. */
  ghost predicate ReadBack<M>(next: Framer<M>, encode: M -> seq<byte>, m: M) {
    && encode(m) != []
    && forall tail :: next(encode(m) + tail) == Some(Frame(m, |encode(m)|))
  }

  lemma {:induction false} DecodeEncoded<M>(next: Framer<M>, encode: M -> seq<byte>, messages: seq<M>, tail: seq<byte>)
    requires forall i :: 0 <= i < |messages| ==> ReadBack(next, encode, messages[i])
    ensures var d := DecodeAll(next, tail);
            DecodeAll(next, EncodeAll(encode, messages) + tail) == Decoded(messages + d.messages, d.rest)
  {
    hide DecodeAll;
    if messages == [] {
      assert EncodeAll(encode, messages) + tail == tail;
    } else {
      var first, others := encode(messages[0]), EncodeAll(encode, messages[1..]);
      assert ReadBack(next, encode, messages[0]);
      DecodeEncoded(next, encode, messages[1..], tail);
      FirstFrame(next, first, messages[0], others + tail);
      assert EncodeAll(encode, messages) + tail == first + (others + tail);
      var d := DecodeAll(next, tail);
      assert [messages[0]] + (messages[1..] + d.messages) == messages + d.messages;
    }
  }

  lemma FirstFrame<M>(next: Framer<M>, first: seq<byte>, m: M, others: seq<byte>)
    requires first != [] && next(first + others) == Some(Frame(m, |first|))
    ensures var d := DecodeAll(next, others);
            DecodeAll(next, first + others) == Decoded([m] + d.messages, d.rest)
  {
    assert (first + others)[|first|..] == others;
  }

  /** However the encodings of some messages are cut into chunks, decoding the chunks gives back
    exactly those messages. */
  lemma EmptyDecodes<M>(next: Framer<M>)
    requires next([]).None?
    ensures DecodeAll(next, []) == Decoded([], []) && Stuck(next, [])
  {}

  lemma AnyCutDecodes<M(!new)>(next: Framer<M>, encode: M -> seq<byte>, messages: seq<M>, chunks: seq<seq<byte>>)
    requires Incremental(next) && next([]).None?
    requires forall i :: 0 <= i < |messages| ==> ReadBack(next, encode, messages[i])
    requires Flatten(chunks) == EncodeAll(encode, messages)
    ensures FeedAll(next, [], chunks) == Decoded(messages, [])
  {
    hide FeedAll, DecodeAll, EncodeAll, Flatten, ReadBack, Incremental;
    EmptyDecodes(next);
    ChunksDoNotMatter(next, [], chunks);
    DecodeEncoded(next, encode, messages, []);
    assert [] + Flatten(chunks) == EncodeAll(encode, messages) + [];
    assert messages + [] == messages;
  }

  lemma {:induction false} FeedSnoc<M>(next: Framer<M>, rest: seq<byte>, chunks: seq<seq<byte>>, chunk: seq<byte>)
    ensures var f := FeedAll(next, rest, chunks);
            var d := DecodeAll(next, f.rest + chunk);
            FeedAll(next, rest, chunks + [chunk]) == Decoded(f.messages + d.messages, d.rest)
    decreases |chunks|
  {
    if chunks == [] {
      assert chunks + [chunk] == [chunk];
      assert FeedAll(next, DecodeAll(next, rest + chunk).rest, []) == Decoded([], DecodeAll(next, rest + chunk).rest);
      assert [chunk][1..] == [];
    } else {
      assert (chunks + [chunk])[1..] == chunks[1..] + [chunk];
      var first := DecodeAll(next, rest + chunks[0]);
      FeedSnoc(next, first.rest, chunks[1..], chunk);
      var f := FeedAll(next, first.rest, chunks[1..]);
      var d := DecodeAll(next, f.rest + chunk);
      assert first.messages + (f.messages + d.messages) == (first.messages + f.messages) + d.messages;
    }
  }

  // ---------------------------------------------------------------- the shared receive buffer

  const COMPACT_AT := 4096

  /** compact_prefix, the same in all decoders: drops the consumed prefix once it is long and
    makes up half the buffer. */
  method CompactPrefix(buffer: seq<byte>, head: nat) returns (b: seq<byte>, h: nat)
    requires head <= |buffer|
    ensures h <= |b| && b[h..] == buffer[head..]
    ensures Compacted(b, h)
  {
    b, h := buffer, head;
    if head == 0 {
      return;
    }
    if head >= COMPACT_AT && head * 2 >= |buffer| {
      b, h := buffer[head..], 0;
    }
  }

  /** The consumed prefix is shorter than the limit or than what is left to read. */
  ghost predicate Compacted(buffer: seq<byte>, head: nat) {
    head <= |buffer| && (head < COMPACT_AT || head < |buffer| - head)
  }
}
