/** The RPC server (src/rpc/rpc_server.cpp), and client and server joined by two byte streams. */
module RpcSystem {
  import opened Wrappers
  import opened Framing
  import opened Protocol
  import opened Codec
  import opened Rpc

  /** A method's handler; an exception it throws has become its answer text. */
  type Handler = seq<byte> -> seq<byte>

  type Methods = map<Word, Handler>

  // ---------------------------------------------------------------- the server

  function Reply(methods: Methods, cmd: Word, payload: seq<byte>): seq<byte> {
    if cmd in methods then methods[cmd](payload) else []
  }

  /** The answer to one request: the id prefix, if there is one, is echoed in front of what the
    handler makes of the rest. */
  function Answer(methods: Methods, request: Message): Message {
    var prefix := if |request.body| >= 4 then request.body[..4] else [];
    var body := if |request.body| >= 4 then request.body[4..] else request.body;
    Message(request.cmd, prefix + Reply(methods, request.cmd, body))
  }

  /** An answer, written out. */
  lemma AnswerIs(methods: Methods, request: Message)
    ensures var prefix, body := if |request.body| >= 4 then request.body[..4] else [],
                                if |request.body| >= 4 then request.body[4..] else request.body;
            var reply := if request.cmd in methods then methods[request.cmd](body) else [];
            Answer(methods, request) == Message(request.cmd, prefix + reply)
  {}

  function AnswerAll(methods: Methods, requests: seq<Message>): (r: seq<Message>)
    ensures |r| == |requests|
  {
    if requests == [] then [] else [Answer(methods, requests[0])] + AnswerAll(methods, requests[1..])
  }

  lemma {:induction false} AnswerAllConcat(methods: Methods, a: seq<Message>, b: seq<Message>)
    ensures AnswerAll(methods, a + b) == AnswerAll(methods, a) + AnswerAll(methods, b)
  {
    hide Answer;
    if a == [] {
      assert a + b == b;
    } else {
      AnswerAllConcat(methods, a[1..], b);
      assert (a + b)[1..] == a[1..] + b;
    }
  }

  class RpcServer {
    var methods: Methods
    /** Undecoded bytes and answers sent, by connection. */
    var buffers: map<nat, seq<byte>>
    var sent: map<nat, seq<byte>>
    var totalRequests: nat

    constructor ()
      ensures methods == map[] && buffers == map[] && sent == map[] && totalRequests == 0
    {
      methods, buffers, sent, totalRequests := map[], map[], map[], 0;
    }

    method RegisterMethod(id: Word, handler: Handler)
      modifies `methods
      ensures methods == old(methods)[id := handler]
    {
      methods := methods[id := handler];
    }

    function Buffered(conn: nat): seq<byte>
      reads `buffers
    {
      if conn in buffers then buffers[conn] else []
    }

    function Sent(conn: nat): seq<byte>
      reads `sent
    {
      if conn in sent then sent[conn] else []
    }

    /** handle_message: answers every request the new data completes, in order, and keeps the rest. */
    method HandleMessage(conn: nat, data: seq<byte>)
      modifies `buffers, `sent, `totalRequests
      ensures var d := DecodeAll(NextMessage, old(Buffered(conn)) + data);
              && buffers == old(buffers)[conn := d.rest]
              && Sent(conn) == old(Sent(conn)) + EncodeAll(Serialized, AnswerAll(methods, d.messages))
              && totalRequests == old(totalRequests) + |d.messages|
      ensures forall c :: c != conn ==> Sent(c) == old(Sent(c))
    {
      hide DecodeAll, NextMessage, Serialized, Answer, AnswerAll, EncodeAll, Sent;
      var messages, rest := ParseBuffered(Buffered(conn), data);
      RespondToAll(conn, messages);
      buffers := buffers[conn := rest];
    }

    /** The loop of handle_message. */
    method RespondToAll(conn: nat, messages: seq<Message>)
      modifies `sent, `totalRequests
      ensures Sent(conn) == old(Sent(conn)) + EncodeAll(Serialized, AnswerAll(methods, messages))
      ensures totalRequests == old(totalRequests) + |messages|
      ensures forall c :: c != conn ==> Sent(c) == old(Sent(c))
    {
      hide DecodeAll, NextMessage, Serialized, Answer, AnswerAll, EncodeAll;
      AnswerNone(methods);
      for i := 0 to |messages|
        invariant totalRequests == old(totalRequests) + i
        invariant Sent(conn) == old(Sent(conn)) + EncodeAll(Serialized, AnswerAll(methods, messages[..i]))
        invariant forall c :: c != conn ==> Sent(c) == old(Sent(c))
      {
        AnswerOneMore(methods, messages, i);
        totalRequests := totalRequests + 1;
        Respond(conn, messages[i]);
      }
      assert messages[..|messages|] == messages;
    }

    method Respond(conn: nat, msg: Message)
      modifies `sent
      ensures sent == old(sent)[conn := old(Sent(conn)) + Serialized(Answer(methods, msg))]
    {
      AnswerIs(methods, msg);
      hide Serialized, Answer;
      HandleRequest(conn, msg);
    }

    /** The body of the loop: the id prefix is echoed in front of what the handler makes of the rest. */
    method HandleRequest(conn: nat, msg: Message)
      modifies `sent
      ensures var prefix, body := if |msg.body| >= 4 then msg.body[..4] else [],
                                  if |msg.body| >= 4 then msg.body[4..] else msg.body;
              var reply := if msg.cmd in methods then methods[msg.cmd](body) else [];
              sent == old(sent)[conn := old(Sent(conn)) + Serialized(Message(msg.cmd, prefix + reply))]
    {
      var handlerBody, requestIdPrefix := msg.body, [];
      if |msg.body| >= 4 {
        requestIdPrefix, handlerBody := msg.body[..4], msg.body[4..];
      }
      var response := requestIdPrefix;
      if msg.cmd in methods {
        response := response + methods[msg.cmd](handlerBody);
      } else {
        assert requestIdPrefix + [] == requestIdPrefix;
      }
      var serialized := Serialize(Message(msg.cmd, response));
      sent := sent[conn := Sent(conn) + serialized];
    }

    method HandleDisconnect(conn: nat)
      modifies `buffers
      ensures buffers == old(buffers) - {conn}
    {
      buffers := buffers - {conn};
    }
  }

  lemma {:induction false} EncodeConcat(a: seq<Message>, b: seq<Message>)
    ensures EncodeAll(Serialized, a + b) == EncodeAll(Serialized, a) + EncodeAll(Serialized, b)
  {
    hide Serialized;
    if a == [] {
      assert a + b == b;
    } else {
      EncodeConcat(a[1..], b);
      assert (a + b)[1..] == a[1..] + b;
      Append(Serialized(a[0]), EncodeAll(Serialized, a[1..]), EncodeAll(Serialized, b));
    }
  }

  lemma EncodeSnoc(a: seq<Message>, m: Message)
    ensures EncodeAll(Serialized, a + [m]) == EncodeAll(Serialized, a) + Serialized(m)
  {
    EncodeConcat(a, [m]);
    assert EncodeAll(Serialized, [m]) == Serialized(m) + EncodeAll(Serialized, []);
  }

  lemma AnswerNone(methods: Methods)
    ensures EncodeAll(Serialized, AnswerAll(methods, [])) == []
  {}

  lemma AnswerOneMore(methods: Methods, messages: seq<Message>, i: nat)
    requires i < |messages|
    ensures EncodeAll(Serialized, AnswerAll(methods, messages[..i + 1])) ==
            EncodeAll(Serialized, AnswerAll(methods, messages[..i])) + Serialized(Answer(methods, messages[i]))
  {
    AnswerAllConcat(methods, messages[..i], [messages[i]]);
    assert messages[..i + 1] == messages[..i] + [messages[i]];
    assert AnswerAll(methods, [messages[i]]) == [Answer(methods, messages[i])];
    EncodeSnoc(AnswerAll(methods, messages[..i]), Answer(methods, messages[i]));
  }

  // ---------------------------------------------------------------- parsing part of a stream

  /** A decoded frame is the serialization of its message. */
  lemma FrameIsSerialized(b: seq<byte>)
    requires NextMessage(b).Some?
    ensures var f := NextMessage(b).value; f.size <= |b| && b[..f.size] == Serialized(f.message)
  {
    var n: nat := NetToHost16(b[2..4]);
    WordBytes(b[0..2]);
    WordBytes(b[2..4]);
    assert b[..4 + n] == b[0..2] + b[2..4] + b[4..4 + n];
  }

  lemma WordBytes(b: seq<byte>)
    requires |b| == 2
    ensures HostToNet16(NetToHost16(b)) == b
  {}

  lemma {:induction false} DecodedEncodes(b: seq<byte>)
    ensures var d := DecodeAll(NextMessage, b); b == EncodeAll(Serialized, d.messages) + d.rest
    decreases |b|
  {
    var frame := NextMessage(b);
    if frame.Some? {
      FrameIsSerialized(b);
      FrameSize(b);
      hide DecodeAll, NextMessage, Serialized;
      var n := frame.value.size;
      DecodeStep(NextMessage, b);
      DecodedEncodes(b[n..]);
      var e := DecodeAll(NextMessage, b[n..]);
      EncodeCons(frame.value.message, e.messages);
      Rejoin(b, n, EncodeAll(Serialized, e.messages), e.rest);
    } else {
      DecodeStep(NextMessage, b);
      assert EncodeAll(Serialized, []) + b == b;
    }
  }

  lemma Rejoin(b: seq<byte>, n: nat, middle: seq<byte>, end: seq<byte>)
    requires n <= |b| && b[n..] == middle + end
    ensures b == b[..n] + middle + end
  {}

  lemma FrameSize(b: seq<byte>)
    ensures NextMessage(b).Some? ==> 0 < NextMessage(b).value.size <= |b|
  {}

  lemma EncodeCons(m: Message, others: seq<Message>)
    ensures EncodeAll(Serialized, [m] + others) == Serialized(m) + EncodeAll(Serialized, others)
  {
    assert ([m] + others)[1..] == others;
  }

  ghost predicate Fitting(messages: seq<Message>) {
    forall i :: 0 <= i < |messages| ==> |messages[i].body| < 0x1_0000
  }

  /** Decoding the front part of a stream of serialized messages yields the first of them, and the
    rest with what is still to come encodes the others. */
  lemma FrontOfStream(b: seq<byte>, c: seq<byte>, messages: seq<Message>)
    requires Fitting(messages) && b + c == EncodeAll(Serialized, messages)
    ensures var d := DecodeAll(NextMessage, b);
            && |d.messages| <= |messages| && d.messages == messages[..|d.messages|]
            && d.rest + c == EncodeAll(Serialized, messages[|d.messages|..])
  {
    NothingInNothing();
    hide DecodeAll, NextMessage, Serialized, ReadBack, Incremental, EncodeAll;
    WholeStream(b, c, messages);
    DecodedEncodes(b);
    var d := DecodeAll(NextMessage, b);
    var k := |d.messages|;
    EncodeConcat(d.messages, messages[k..]);
    Cancel(b, c, EncodeAll(Serialized, d.messages), d.rest, EncodeAll(Serialized, messages[k..]));
    Front(messages, k);
  }

  lemma Front<T>(s: seq<T>, k: nat)
    requires k <= |s|
    ensures forall front :: |front| == k && s == front + s[k..] ==> front == s[..k]
  {}

  lemma Cancel(b: seq<byte>, c: seq<byte>, front: seq<byte>, rest: seq<byte>, others: seq<byte>)
    requires b == front + rest && b + c == front + others
    ensures rest + c == others
  {
    assert (b + c)[|front|..] == rest + c;
    assert (front + others)[|front|..] == others;
  }

  /** Of a whole stream, the messages decoded from its front part are the first ones. */
  lemma WholeStream(b: seq<byte>, c: seq<byte>, messages: seq<Message>)
    requires Fitting(messages) && b + c == EncodeAll(Serialized, messages)
    ensures var d := DecodeAll(NextMessage, b);
            |d.messages| <= |messages| && messages == d.messages + messages[|d.messages|..]
  {
    NothingInNothing();
    hide DecodeAll, NextMessage, Serialized, ReadBack, Incremental, EncodeAll;
    MessagesIncremental();
    DecodeConcat(NextMessage, b, c);
    forall i | 0 <= i < |messages| ensures ReadBack(NextMessage, Serialized, messages[i]) {
      ReadBackIff(messages[i]);
    }
    DecodeEncoded(NextMessage, Serialized, messages, []);
    DecodeStep(NextMessage, []);
    assert EncodeAll(Serialized, messages) + [] == EncodeAll(Serialized, messages);
    var d := DecodeAll(NextMessage, b);
    var e := DecodeAll(NextMessage, d.rest + c);
    assert d.messages + e.messages == messages + [] == messages;
  }

  lemma NothingInNothing()
    ensures NextMessage([]).None?
  {}

  // ---------------------------------------------------------------- client and server together

  datatype Invocation = Invocation(cmd: Word, payload: seq<byte>)

  /** The client, the server's buffer for it, the bytes under way in both directions, and what
    every accepted call asked for. `asked` and `replied` keep the books: the calls whose requests and
    whose answers are on their way and not read yet, in order. */
  datatype System = System(client: Client, serverBuffer: seq<byte>, toServer: seq<byte>, toClient: seq<byte>,
                           calls: map<nat, Invocation>, asked: seq<nat>, replied: seq<nat>)

  datatype Step =
    | DoCall(cmd: Word, payload: seq<byte>, deadline: int)
    | ToServer(count: nat)
    | ToClient(count: nat)
    | Sweep(now: int)
    | Disconnect

  function Request(calls: map<nat, Invocation>, call: nat): Message
    requires call in calls
  {
    Message(calls[call].cmd, EncodeBody(Id(call), calls[call].payload))
  }

  /** What a callback gets if all goes well. */
  function Response(methods: Methods, i: Invocation): Message {
    Message(i.cmd, Reply(methods, i.cmd, i.payload))
  }

  /** One step; a step that cannot be taken leaves the system as it is. */
  function Next(methods: Methods, s: System, step: Step): System
  {
    match step
    case DoCall(cmd, payload, deadline) =>
      if s.client.connected then
        var call := s.client.nextCall;
        var calls := s.calls[call := Invocation(cmd, payload)];
        s.(client := Issue(s.client, deadline), calls := calls, asked := s.asked + [call],
           toServer := s.toServer + Serialized(Request(calls, call)))
      else s
    case ToServer(count) =>
      if count <= |s.toServer| then
        var d := DecodeAll(NextMessage, s.serverBuffer + s.toServer[..count]);
        var k := Least(|d.messages|, |s.asked|);
        s.(serverBuffer := d.rest, toServer := s.toServer[count..],
           toClient := s.toClient + EncodeAll(Serialized, AnswerAll(methods, d.messages)),
           asked := s.asked[k..], replied := s.replied + s.asked[..k])
      else s
    case ToClient(count) =>
      if count <= |s.toClient| then
        var d := DecodeAll(NextMessage, s.client.recv + s.toClient[..count]);
        var k := Least(|d.messages|, |s.replied|);
        s.(client := Receive(s.client, s.toClient[..count]), toClient := s.toClient[count..],
           replied := s.replied[k..])
      else s
    case Sweep(now) => s.(client := Fail(s.client, Expired(s.client, now)))
    case Disconnect => s.(client := Drop(s.client))
  }

  function Least(a: nat, b: nat): nat {
    if a < b then a else b
  }

  function Start(): System {
    System(Fresh(), [], [], [], map[], [], [])
  }

  function Run(methods: Methods, s: System, steps: seq<Step>): System
    decreases |steps|
  {
    if steps == [] then s else Run(methods, Next(methods, s, steps[0]), steps[1..])
  }

  /** The request and the answer of a call fit the length field of a frame. */
  predicate Fits(methods: Methods, i: Invocation) {
    |i.payload| <= 0xFFFF - 4 && |Reply(methods, i.cmd, i.payload)| <= 0xFFFF - 4
  }

  /** The next call's id belongs to no request that is pending or under way. */
  predicate IdIsFree(s: System) {
    && Id(s.client.nextCall) !in s.client.pending
    && (forall i :: 0 <= i < |s.asked| ==> Id(s.asked[i]) != Id(s.client.nextCall))
    && (forall i :: 0 <= i < |s.replied| ==> Id(s.replied[i]) != Id(s.client.nextCall))
  }

  predicate Regular(methods: Methods, s: System, step: Step) {
    step.DoCall? && s.client.connected ==> Fits(methods, Invocation(step.cmd, step.payload)) && IdIsFree(s)
  }

  /** Every call made fits the frames and gets a free id. */
  predicate AllRegular(methods: Methods, s: System, steps: seq<Step>)
    decreases |steps|
  {
    steps == [] || (Regular(methods, s, steps[0]) && AllRegular(methods, Next(methods, s, steps[0]), steps[1..]))
  }

  ghost predicate AllCalled(calls: map<nat, Invocation>, ids: seq<nat>) {
    forall i :: 0 <= i < |ids| ==> ids[i] in calls
  }

  ghost function Requests(calls: map<nat, Invocation>, ids: seq<nat>): (r: seq<Message>)
    requires AllCalled(calls, ids)
    ensures |r| == |ids|
  {
    seq(|ids|, i requires 0 <= i < |ids| => Request(calls, ids[i]))
  }

  /** The stream to the server is the requests under way. */
  ghost predicate Asked(s: System) {
    AllCalled(s.calls, s.asked) && s.serverBuffer + s.toServer == EncodeAll(Serialized, Requests(s.calls, s.asked))
  }

  /** The stream to the client is the answers under way. */
  ghost predicate Replied(methods: Methods, s: System) {
    AllCalled(s.calls, s.replied) &&
    s.client.recv + s.toClient == EncodeAll(Serialized, AnswerAll(methods, Requests(s.calls, s.replied)))
  }

  /** An answer finds its own call under its id, or none. */
  ghost predicate Unmistakable(c: Client, ids: seq<nat>) {
    forall i :: 0 <= i < |ids| && Id(ids[i]) in c.pending ==> Awaits(c, ids[i])
  }

  /** A callback run with success got the handler's answer to its own request. */
  ghost predicate RightAnswers(methods: Methods, calls: map<nat, Invocation>, runs: map<nat, seq<Outcome>>) {
    forall call, i :: call in runs && 0 <= i < |runs[call]| && runs[call][i].Answered? ==>
      call in calls && runs[call][i].response == Response(methods, calls[call])
  }

  ghost predicate Inv(methods: Methods, s: System) {
    && ExactlyOnce(s.client)
    && (forall call :: call in s.calls <==> call in s.client.runs)
    && (forall call :: call in s.calls ==> Fits(methods, s.calls[call]))
    && RightAnswers(methods, s.calls, s.client.runs)
    && Asked(s) && Replied(methods, s)
    && Unmistakable(s.client, s.asked) && Unmistakable(s.client, s.replied)
  }

  lemma StartInv(methods: Methods)
    ensures Inv(methods, Start())
  {}

  // ---------------------------------------------------------------- every step keeps the invariant

  lemma SameRequests(before: map<nat, Invocation>, after: map<nat, Invocation>, ids: seq<nat>)
    requires AllCalled(before, ids) && forall call :: call in before ==> call in after && after[call] == before[call]
    ensures AllCalled(after, ids) && Requests(after, ids) == Requests(before, ids)
  {}

  lemma RequestsConcat(calls: map<nat, Invocation>, a: seq<nat>, b: seq<nat>)
    requires AllCalled(calls, a) && AllCalled(calls, b)
    ensures AllCalled(calls, a + b) && Requests(calls, a + b) == Requests(calls, a) + Requests(calls, b)
  {}

  lemma RequestsSplit(calls: map<nat, Invocation>, ids: seq<nat>, k: nat)
    requires AllCalled(calls, ids) && k <= |ids|
    ensures AllCalled(calls, ids[..k]) && AllCalled(calls, ids[k..])
    ensures Requests(calls, ids[..k]) == Requests(calls, ids)[..k] && Requests(calls, ids[k..]) == Requests(calls, ids)[k..]
  {}

  lemma CallKeeps(methods: Methods, s: System, step: Step)
    requires Inv(methods, s) && step.DoCall? && Regular(methods, s, step)
    ensures Inv(methods, Next(methods, s, step))
  {
    var t := Next(methods, s, step);
    if t != s {
      CallIsOnce(methods, s, step);
      CallStreams(methods, s, step);
    }
  }

  /** The client's side of a call. */
  lemma CallIsOnce(methods: Methods, s: System, step: Step)
    requires Inv(methods, s) && step.DoCall? && Regular(methods, s, step) && s.client.connected
    ensures var t := Next(methods, s, step);
            && ExactlyOnce(t.client)
            && (forall call :: call in t.calls <==> call in t.client.runs)
            && (forall call :: call in t.calls ==> Fits(methods, t.calls[call]))
            && RightAnswers(methods, t.calls, t.client.runs)
            && Unmistakable(t.client, t.asked) && Unmistakable(t.client, t.replied)
  {
    hide Serialized, EncodeAll, AnswerAll, EncodeBody, Fits, Reply, Response;
    IssueSane(s.client, step.deadline);
    OnceIsNoneLost(s.client);
    OnceIsNoneLost(Issue(s.client, step.deadline));
  }

  /** The bytes of a call. */
  lemma CallStreams(methods: Methods, s: System, step: Step)
    requires Inv(methods, s) && step.DoCall? && s.client.connected
    ensures Asked(Next(methods, s, step)) && Replied(methods, Next(methods, s, step))
  {
    hide Serialized, EncodeAll, AnswerAll, EncodeBody;
    var t := Next(methods, s, step);
    var call := s.client.nextCall;
    SameRequests(s.calls, t.calls, s.asked);
    SameRequests(s.calls, t.calls, s.replied);
    assert AllCalled(t.calls, [call]);
    RequestsConcat(t.calls, s.asked, [call]);
    assert Requests(t.calls, [call]) == [Request(t.calls, call)];
    EncodeSnoc(Requests(t.calls, s.asked), Request(t.calls, call));
    Append(s.serverBuffer, s.toServer, Serialized(Request(t.calls, call)));
  }

  lemma Append(a: seq<byte>, b: seq<byte>, c: seq<byte>)
    ensures a + (b + c) == a + b + c
  {}

  lemma {:induction false} RequestsFit(methods: Methods, calls: map<nat, Invocation>, ids: seq<nat>)
    requires AllCalled(calls, ids) && forall call :: call in calls ==> Fits(methods, calls[call])
    ensures Fitting(Requests(calls, ids)) && Fitting(AnswerAll(methods, Requests(calls, ids)))
    decreases |ids|
  {
    if ids != [] {
      AnswerOfRequest(methods, calls, ids[0]);
      RequestsSplit(calls, ids, 1);
      RequestsFit(methods, calls, ids[1..]);
    }
  }

  lemma ToServerKeeps(methods: Methods, s: System, step: Step)
    requires Inv(methods, s) && step.ToServer?
    ensures Inv(methods, Next(methods, s, step))
  {
    hide DecodeAll, NextMessage, Serialized, EncodeAll, AnswerAll, ExactlyOnce, RightAnswers, Fits, Fitting;
    if step.count <= |s.toServer| {
      var t := Next(methods, s, step);
      var chunk, later := s.toServer[..step.count], s.toServer[step.count..];
      var requests := Requests(s.calls, s.asked);
      RequestsFit(methods, s.calls, s.asked);
      Cut(s.serverBuffer, s.toServer, step.count);
      FrontOfStream(s.serverBuffer + chunk, later, requests);
      var k := |DecodeAll(NextMessage, s.serverBuffer + chunk).messages|;
      RequestsSplit(s.calls, s.asked, k);
      assert Asked(t);
      RequestsConcat(s.calls, s.replied, s.asked[..k]);
      AnswerAllConcat(methods, Requests(s.calls, s.replied), requests[..k]);
      EncodeConcat(AnswerAll(methods, Requests(s.calls, s.replied)), AnswerAll(methods, requests[..k]));
      Append(s.client.recv, s.toClient, EncodeAll(Serialized, AnswerAll(methods, requests[..k])));
    }
  }

  lemma Cut(a: seq<byte>, b: seq<byte>, n: nat)
    requires n <= |b|
    ensures a + b == (a + b[..n]) + b[n..]
  {}

  /** The answer to the request of a call carries the call's id and its reply. */
  lemma AnswerOfRequest(methods: Methods, calls: map<nat, Invocation>, call: nat)
    requires call in calls
    ensures var a, reply := Answer(methods, Request(calls, call)), Reply(methods, calls[call].cmd, calls[call].payload);
            && a.cmd == calls[call].cmd && a.body == EncodeBody(Id(call), reply)
            && DecodeBody(a.body) == Some(Body(Id(call), reply))
  {
    var body := Request(calls, call).body;
    assert body[..4] == HostToNet32(Id(call)) && body[4..] == calls[call].payload;
    BodyRoundTrip(Id(call), Reply(methods, calls[call].cmd, calls[call].payload));
  }

  /** Answers that find their own call or none run callbacks with the right responses. */
  lemma {:induction false} RespondRightly(methods: Methods, calls: map<nat, Invocation>, c: Client, ids: seq<nat>)
    requires RightAnswers(methods, calls, c.runs) && AllCalled(calls, ids) && Unmistakable(c, ids)
    ensures RightAnswers(methods, calls, RespondAll(c, AnswerAll(methods, Requests(calls, ids))).runs)
    decreases |ids|
  {
    if ids != [] {
      AnswerOfRequest(methods, calls, ids[0]);
      hide Answer, DecodeBody, Reply, Request;
      var next := Respond(c, Answer(methods, Request(calls, ids[0])));
      assert RightAnswers(methods, calls, next.runs);
      RequestsSplit(calls, ids, 1);
      assert Unmistakable(next, ids[1..]);
      RespondRightly(methods, calls, next, ids[1..]);
      assert Requests(calls, ids)[0] == Request(calls, ids[0]);
    }
  }

  lemma {:induction false} AnswerAllTake(methods: Methods, requests: seq<Message>, k: nat)
    requires k <= |requests|
    ensures AnswerAll(methods, requests[..k]) == AnswerAll(methods, requests)[..k]
    ensures AnswerAll(methods, requests[k..]) == AnswerAll(methods, requests)[k..]
  {
    assert requests == requests[..k] + requests[k..];
    AnswerAllConcat(methods, requests[..k], requests[k..]);
  }

  lemma ToClientKeeps(methods: Methods, s: System, step: Step)
    requires Inv(methods, s) && step.ToClient?
    ensures Inv(methods, Next(methods, s, step))
  {
    hide DecodeAll, NextMessage, Serialized, EncodeAll, AnswerAll, ExactlyOnce, Sane, RespondAll, Fitting, RightAnswers, Fits;
    if step.count <= |s.toClient| {
      var t := Next(methods, s, step);
      var chunk, later := s.toClient[..step.count], s.toClient[step.count..];
      RequestsFit(methods, s.calls, s.replied);
      Cut(s.client.recv, s.toClient, step.count);
      FrontOfStream(s.client.recv + chunk, later, AnswerAll(methods, Requests(s.calls, s.replied)));
      var d := DecodeAll(NextMessage, s.client.recv + chunk);
      var k := |d.messages|;
      RequestsSplit(s.calls, s.replied, k);
      AnswerAllTake(methods, Requests(s.calls, s.replied), k);
      var c := s.client.(recv := d.rest);
      RespondKeeps(s.client, d.rest, d.messages);
      RespondRightly(methods, s.calls, c, s.replied[..k]);
    }
  }

  /** What answers leave as it is. */
  lemma RespondKeeps(c: Client, rest: seq<byte>, messages: seq<Message>)
    requires ExactlyOnce(c)
    ensures var d := RespondAll(c.(recv := rest), messages);
            && ExactlyOnce(d) && d.recv == rest && d.runs.Keys == c.runs.Keys
            && forall id :: id in d.pending ==> id in c.pending && d.pending[id] == c.pending[id]
  {
    var e := c.(recv := rest);
    SaneAnyBuffer(c, rest);
    RespondAllSane(e, messages);
    OnceIsNoneLost(c);
    OnceIsNoneLost(RespondAll(e, messages));
  }

  lemma FailKeeps(methods: Methods, s: System, requests: map<nat, Pending>, connected: bool)
    requires Inv(methods, s) && forall id :: id in requests ==> id in s.client.pending && requests[id] == s.client.pending[id]
    ensures Inv(methods, s.(client := Fail(s.client, requests).(connected := connected)))
  {
    hide EncodeAll, AnswerAll, Fits, RightAnswers, Unmistakable, ExactlyOnce, Sane, Lost, Failing;
    FailKeepsRuns(methods, s.calls, s.client, requests, connected);
    FailKeepsIds(s.client, requests, connected, s.asked);
    FailKeepsIds(s.client, requests, connected, s.replied);
  }

  lemma FailKeepsRuns(methods: Methods, calls: map<nat, Invocation>, c: Client, requests: map<nat, Pending>, connected: bool)
    requires ExactlyOnce(c) && RightAnswers(methods, calls, c.runs)
    requires forall id :: id in requests ==> id in c.pending && requests[id] == c.pending[id]
    ensures var d := Fail(c, requests).(connected := connected);
            ExactlyOnce(d) && d.runs.Keys == c.runs.Keys && RightAnswers(methods, calls, d.runs)
  {
    hide Response;
    FailSane(c, requests, connected);
    OnceIsNoneLost(c);
    OnceIsNoneLost(Fail(c, requests).(connected := connected));
    hide ExactlyOnce, Sane, Lost, Awaits, Id;
  }

  lemma FailKeepsIds(c: Client, requests: map<nat, Pending>, connected: bool, ids: seq<nat>)
    requires Unmistakable(c, ids)
    ensures Unmistakable(Fail(c, requests).(connected := connected), ids)
  {
    hide Failing;
  }

  lemma NextKeeps(methods: Methods, s: System, step: Step)
    requires Inv(methods, s) && Regular(methods, s, step)
    ensures Inv(methods, Next(methods, s, step))
  {
    hide Inv, Regular;
    match step
    case DoCall(_, _, _) => CallKeeps(methods, s, step);
    case ToServer(_) => ToServerKeeps(methods, s, step);
    case ToClient(_) => ToClientKeeps(methods, s, step);
    case Sweep(now) => FailKeeps(methods, s, Expired(s.client, now), s.client.connected);
    case Disconnect => FailKeeps(methods, s, s.client.pending, false);
  }

  lemma {:induction false} RunKeeps(methods: Methods, s: System, steps: seq<Step>)
    requires Inv(methods, s) && AllRegular(methods, s, steps)
    ensures Inv(methods, Run(methods, s, steps))
    decreases |steps|
  {
    if steps != [] {
      NextKeeps(methods, s, steps[0]);
      hide Inv, Next, Regular;
      RunKeeps(methods, Next(methods, s, steps[0]), steps[1..]);
    }
  }

  lemma {:induction false} RunConcat(methods: Methods, s: System, a: seq<Step>, b: seq<Step>)
    ensures Run(methods, s, a + b) == Run(methods, Run(methods, s, a), b)
    ensures AllRegular(methods, s, a + b) <==> AllRegular(methods, s, a) && AllRegular(methods, Run(methods, s, a), b)
    decreases |a|
  {
    hide Next, Regular;
    if a == [] {
      assert a + b == b;
    } else {
      assert (a + b)[1..] == a[1..] + b;
      RunConcat(methods, Next(methods, s, a[0]), a[1..], b);
    }
  }

  /** What a call asked for stays on record. */
  lemma {:induction false} CallStays(methods: Methods, s: System, steps: seq<Step>, call: nat)
    requires Inv(methods, s) && AllRegular(methods, s, steps) && call in s.calls
    ensures var t := Run(methods, s, steps); call in t.calls && t.calls[call] == s.calls[call]
    decreases |steps|
  {
    hide Inv, Next, Regular;
    if steps != [] {
      NextKeeps(methods, s, steps[0]);
      CallStaysNext(methods, s, steps[0], call);
      CallStays(methods, Next(methods, s, steps[0]), steps[1..], call);
    }
  }

  lemma CallStaysNext(methods: Methods, s: System, step: Step, call: nat)
    requires Inv(methods, s) && call in s.calls
    ensures var t := Next(methods, s, step); call in t.calls && t.calls[call] == s.calls[call]
  {
    hide Serialized, DecodeAll, NextMessage, EncodeAll, AnswerAll, Receive, Asked, Replied, Unmistakable, RightAnswers, Fits;
    assert call in s.client.runs && call < s.client.nextCall;
  }

  /** For any order of deliveries and any cutting of both byte streams, with other calls, sweeps and a
    disconnect anywhere before and after, if every call fits the frames and gets a free id: the
    callback of a call is still to be run, or it has been run once, with failure or with what the
    handler of the call's method makes of the call's payload. */
  lemma OwnAnswers(methods: Methods, before: seq<Step>, cmd: Word, payload: seq<byte>, deadline: int, after: seq<Step>)
    requires AllRegular(methods, Start(), before + [DoCall(cmd, payload, deadline)] + after)
    requires Run(methods, Start(), before).client.connected
    ensures var call := Run(methods, Start(), before).client.nextCall;
            var c := Run(methods, Start(), before + [DoCall(cmd, payload, deadline)] + after).client;
            var reply := if cmd in methods then methods[cmd](payload) else [];
            call in c.runs && if Awaits(c, call) then c.runs[call] == []
                              else c.runs[call] == [Failed] || c.runs[call] == [Answered(Message(cmd, reply))]
  {
    var made := [DoCall(cmd, payload, deadline)];
    RunConcat(methods, Start(), before + made, after);
    RunConcat(methods, Start(), before, made);
    StartInv(methods);
    RunKeeps(methods, Start(), before);
    var s := Run(methods, Start(), before);
    assert Run(methods, s, made) == Run(methods, Next(methods, s, made[0]), []);
    NextKeeps(methods, s, made[0]);
    var t := Next(methods, s, made[0]);
    CallStays(methods, t, after, s.client.nextCall);
    RunKeeps(methods, t, after);
    OneOutcome(methods, Run(methods, t, after), s.client.nextCall);
    ReplyIs(methods, Invocation(cmd, payload));
  }

  lemma OneOutcome(methods: Methods, s: System, call: nat)
    requires Inv(methods, s) && call in s.calls
    ensures var runs := s.client.runs;
            call in runs && if Awaits(s.client, call) then runs[call] == []
                            else runs[call] == [Failed] || runs[call] == [Answered(Response(methods, s.calls[call]))]
  {
    hide Asked, Replied, Unmistakable, Fits, Response, Awaits;
    if !Awaits(s.client, call) {
      var run := s.client.runs[call];
      assert |run| == 1 && run == [run[0]];
      if run[0].Answered? {
        assert run[0].response == Response(methods, s.calls[call]);
      } else {
        assert run[0] == Failed;
      }
    }
  }

  /** The same with nothing but bounds to check: fewer than 2^32 steps, and no payload and no reply
    above 65531 bytes. */
  lemma OwnAnswersOfFew(methods: Methods, before: seq<Step>, cmd: Word, payload: seq<byte>, deadline: int,
                        after: seq<Step>)
    requires |before| + |after| < 0xFFFF_FFFE && Run(methods, Start(), before).client.connected
    requires forall step :: step in before + [DoCall(cmd, payload, deadline)] + after && step.DoCall? ==>
               && |step.payload| <= 0xFFFF - 4
               && |if step.cmd in methods then methods[step.cmd](step.payload) else []| <= 0xFFFF - 4
    ensures var call := Run(methods, Start(), before).client.nextCall;
            var c := Run(methods, Start(), before + [DoCall(cmd, payload, deadline)] + after).client;
            var reply := if cmd in methods then methods[cmd](payload) else [];
            call in c.runs && if Awaits(c, call) then c.runs[call] == []
                              else c.runs[call] == [Failed] || c.runs[call] == [Answered(Message(cmd, reply))]
  {
    var steps := before + [DoCall(cmd, payload, deadline)] + after;
    StartInv(methods);
    forall i | 0 <= i < |steps| && steps[i].DoCall?
      ensures Fits(methods, Invocation(steps[i].cmd, steps[i].payload))
    {
      ReplyIs(methods, Invocation(steps[i].cmd, steps[i].payload));
      assert steps[i] in steps;
    }
    FewCallsAreRegular(methods, Start(), steps);
    OwnAnswers(methods, before, cmd, payload, deadline, after);
  }

  /** Fewer than 2^32 calls always get free ids. */
  lemma {:induction false} FewCallsAreRegular(methods: Methods, s: System, steps: seq<Step>)
    requires Inv(methods, s) && s.client.nextCall + |steps| <= WORD32
    requires forall i :: 0 <= i < |steps| && steps[i].DoCall? ==> Fits(methods, Invocation(steps[i].cmd, steps[i].payload))
    ensures AllRegular(methods, s, steps)
    decreases |steps|
  {
    if steps != [] {
      FreeWhenFew(methods, s);
      assert Regular(methods, s, steps[0]);
      NextKeeps(methods, s, steps[0]);
      CallsGrow(methods, s, steps[0]);
      hide Inv, Next, Regular, Fits;
      FewCallsAreRegular(methods, Next(methods, s, steps[0]), steps[1..]);
    }
  }

  lemma FreeWhenFew(methods: Methods, s: System)
    requires Inv(methods, s) && s.client.nextCall < WORD32
    ensures IdIsFree(s)
  {
    SmallIds();
    hide EncodeAll, AnswerAll, Requests, RightAnswers, Fits, Id, Unmistakable;
    assert forall call :: call in s.calls ==> 1 <= call < s.client.nextCall;
  }

  lemma SmallIds()
    ensures forall call: nat :: call < WORD32 ==> Id(call) == call
  {}

  lemma SameId(call: nat)
    ensures Id(call + WORD32) == Id(call)
  {}

  lemma CallsGrow(methods: Methods, s: System, step: Step)
    ensures Next(methods, s, step).client.nextCall <= s.client.nextCall + 1
  {
    hide DecodeAll, NextMessage, Serialized, EncodeAll, AnswerAll, RespondAll, Request;
    if step.ToClient? && step.count <= |s.toClient| {
      var d := DecodeAll(NextMessage, s.client.recv + s.toClient[..step.count]);
      RespondKeepsCount(s.client.(recv := d.rest), d.messages);
    }
  }

  lemma {:induction false} RespondKeepsCount(c: Client, messages: seq<Message>)
    ensures RespondAll(c, messages).nextCall == c.nextCall
    decreases |messages|
  {
    if messages != [] { RespondKeepsCount(Respond(c, messages[0]), messages[1..]); }
  }

  // ---------------------------------------------------------------- answers that do not fit

  /** No callback gets more than a frame can hold, whatever bytes arrive. */
  ghost predicate ShortAnswers(runs: map<nat, seq<Outcome>>) {
    forall call, i :: call in runs && 0 <= i < |runs[call]| && runs[call][i].Answered? ==>
      |runs[call][i].response.body| <= 0xFFFF - 4
  }

  lemma {:induction false} DecodedAreShort(b: seq<byte>)
    ensures Fitting(DecodeAll(NextMessage, b).messages)
    decreases |b|
  {
    DecodeStep(NextMessage, b);
    FrameSize(b);
    if NextMessage(b).Some? {
      var n := NextMessage(b).value.size;
      DecodedAreShort(b[n..]);
      assert |NextMessage(b).value.message.body| < 0x1_0000;
    }
  }

  lemma {:induction false} RespondShort(c: Client, messages: seq<Message>)
    requires ShortAnswers(c.runs) && Fitting(messages)
    ensures ShortAnswers(RespondAll(c, messages).runs)
    decreases |messages|
  {
    if messages != [] {
      assert ShortAnswers(Respond(c, messages[0]).runs);
      RespondShort(Respond(c, messages[0]), messages[1..]);
    }
  }

  lemma ReceiveShort(c: Client, data: seq<byte>)
    requires ShortAnswers(c.runs)
    ensures ShortAnswers(Receive(c, data).runs)
  {
    var d := DecodeAll(NextMessage, c.recv + data);
    DecodedAreShort(c.recv + data);
    RespondShort(c.(recv := d.rest), d.messages);
  }

  /** In every run of a client, whatever bytes arrive, a longer answer never reaches a callback. */
  lemma {:induction false} AlwaysShort(c: Client, steps: seq<ClientStep>)
    requires ShortAnswers(c.runs)
    ensures ShortAnswers(ClientRun(c, steps).runs)
    decreases |steps|
  {
    if steps != [] {
      if steps[0].DoReceive? { ReceiveShort(c, steps[0].data); }
      assert ShortAnswers(ClientNext(c, steps[0]).runs) by { hide Receive; }
      AlwaysShort(ClientNext(c, steps[0]), steps[1..]);
    }
  }

  /** An answer that comes after its own call was given up, 2^32 calls later, runs the callback of the
    call that has got the same id. */
  lemma LateAnswer(methods: Methods, calls: map<nat, Invocation>, c: Client, call: nat)
    requires ExactlyOnce(c) && call in calls && Awaits(c, call + WORD32) && call + WORD32 in c.runs
    ensures var d := Respond(c, Answer(methods, Request(calls, call)));
            d.runs[call + WORD32] == [Answered(Message(calls[call].cmd,
              if calls[call].cmd in methods then methods[calls[call].cmd](calls[call].payload) else []))]
  {
    AnswerOfRequest(methods, calls, call);
    SameId(call);
    hide Answer, Request, DecodeBody, EncodeBody, Id;
    assert c.runs[call + WORD32] == [];
    assert [] + [Answered(Response(methods, calls[call]))] == [Answered(Response(methods, calls[call]))];
  }

  lemma OneDecoded(m: Message)
    requires |m.body| < 0x1_0000
    ensures DecodeAll(NextMessage, Serialized(m)) == Decoded([m], [])
  {
    var b := Serialized(m);
    ReadBackIff(m);
    assert NextMessage(b + []) == Some(Frame(m, |b|)) && b + [] == b;
    NothingInNothing();
    hide NextMessage, Serialized;
    DecodeStep(NextMessage, b);
    DecodeStep(NextMessage, b[|b|..]);
  }

  /** A call, delivered to the server in one piece, and its answer, delivered in one piece. */
  function Exchange(methods: Methods, call: Invocation, deadline: int): System {
    var s := Next(methods, Start(), DoCall(call.cmd, call.payload, deadline));
    var t := Next(methods, s, ToServer(|s.toServer|));
    Next(methods, t, ToClient(|t.toClient|))
  }

  lemma Exchanged(methods: Methods, call: Invocation, deadline: int)
    requires |call.payload| <= 0xFFFF - 4
    ensures Exchange(methods, call, deadline).client ==
              Receive(Issue(Fresh(), deadline), Serialized(Answer(methods, Request(map[1 := call], 1))))
  {
    var s := Next(methods, Start(), DoCall(call.cmd, call.payload, deadline));
    assert [] + Serialized(Request(map[1 := call], 1)) == Serialized(Request(map[1 := call], 1));
    hide DecodeAll, NextMessage, Serialized, Answer, Receive, EncodeBody;
    assert s.calls == map[1 := call] && s.toServer == Serialized(Request(s.calls, 1));
    Delivered(methods, s, Request(s.calls, 1));
    var t := Next(methods, s, ToServer(|s.toServer|));
    assert t.toClient[..|t.toClient|] == t.toClient;
  }

  /** A single request delivered in one piece. */
  lemma Delivered(methods: Methods, s: System, request: Message)
    requires |request.body| < 0x1_0000 && s.toServer == Serialized(request) && s.serverBuffer == s.toClient == []
    ensures var t := Next(methods, s, ToServer(|s.toServer|));
            t.toClient == Serialized(Answer(methods, request)) && t.client == s.client
  {
    hide DecodeAll, NextMessage, Serialized, Answer;
    assert s.serverBuffer + s.toServer[..|s.toServer|] == Serialized(request);
    OneDecoded(request);
    assert AnswerAll(methods, [request]) == [Answer(methods, request)] + [];
    assert EncodeAll(Serialized, [Answer(methods, request)]) == Serialized(Answer(methods, request)) + [];
  }

  /** A first call whose request fits is answered: its callback gets the handler's answer if and only
    if that fits the frame. */
  lemma AnsweredIff(methods: Methods, call: Invocation, deadline: int)
    requires |call.payload| <= 0xFFFF - 4
    ensures var runs := Exchange(methods, call, deadline).client.runs;
            var reply := if call.cmd in methods then methods[call.cmd](call.payload) else [];
            1 in runs && (runs[1] == [Answered(Message(call.cmd, reply))] <==> |reply| <= 0xFFFF - 4)
  {
    ReplyIs(methods, call);
    hide *;
    Exchanged(methods, call, deadline);
    if Fits(methods, call) {
      FittingAnswer(methods, call, deadline);
    } else {
      LongNeverComes(methods, call, deadline, Serialized(Answer(methods, Request(map[1 := call], 1))));
    }
  }

  /** What a call comes to: the handler of its method on its payload, or nothing. */
  lemma ReplyIs(methods: Methods, call: Invocation)
    ensures var reply := if call.cmd in methods then methods[call.cmd](call.payload) else [];
            && Response(methods, call) == Message(call.cmd, reply)
            && (Fits(methods, call) <==> |call.payload| <= 0xFFFF - 4 && |reply| <= 0xFFFF - 4)
  {}

  /** Whatever bytes arrive. */
  lemma LongNeverComes(methods: Methods, call: Invocation, deadline: int, data: seq<byte>)
    requires |call.payload| <= 0xFFFF - 4 && !Fits(methods, call)
    ensures var runs := Receive(Issue(Fresh(), deadline), data).runs;
            1 in runs && runs[1] != [Answered(Response(methods, call))]
  {
    var c := Issue(Fresh(), deadline);
    RunsKept(c, data);
    ReceiveShort(c, data);
    hide Receive;
    var outcome := Answered(Response(methods, call));
    assert [outcome][0] == outcome && |outcome.response.body| > 0xFFFF - 4;
  }

  lemma RunsKept(c: Client, data: seq<byte>)
    requires ExactlyOnce(c)
    ensures Receive(c, data).runs.Keys == c.runs.Keys
  {
    var d := DecodeAll(NextMessage, c.recv + data);
    RespondKeeps(c, d.rest, d.messages);
  }

  lemma FittingAnswer(methods: Methods, call: Invocation, deadline: int)
    requires Fits(methods, call)
    ensures var c := Receive(Issue(Fresh(), deadline), Serialized(Answer(methods, Request(map[1 := call], 1))));
            1 in c.runs && c.runs[1] == [Answered(Response(methods, call))]
  {
    var c, calls := Issue(Fresh(), deadline), map[1 := call];
    var answer := Answer(methods, Request(calls, 1));
    AnswerOfRequest(methods, calls, 1);
    AnswerFits(methods, call);
    hide Answer, Request, Serialized, NextMessage, DecodeBody, DecodeAll, EncodeBody;
    OneDecoded(answer);
    assert c.recv + Serialized(answer) == Serialized(answer);
    assert RespondAll(c, [answer]) == RespondAll(Respond(c, answer), []);
    assert Respond(c, answer).runs[1] == [] + [Answered(Response(methods, call))];
  }

  lemma AnswerFits(methods: Methods, call: Invocation)
    requires Fits(methods, call)
    ensures |Answer(methods, Request(map[1 := call], 1)).body| < 0x1_0000
  {
    AnswerOfRequest(methods, map[1 := call], 1);
  }
}
