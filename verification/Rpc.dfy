/** RPC calls over command frames (src/rpc): request ids, answers, timeouts and disconnects. */
module Rpc {
  import opened Wrappers
  import opened Framing
  import opened Protocol
  import opened Codec

  // ---------------------------------------------------------------- bodies with a request id

  /** encode_rpc_body: the id, most significant byte first, then the payload. */
  function EncodeBody(id: nat, payload: seq<byte>): seq<byte>
    requires id < WORD32
  {
    HostToNet32(id) + payload
  }

  datatype Body = Body(id: nat, payload: seq<byte>)

  function DecodeBody(body: seq<byte>): Option<Body> {
    if |body| < 4 then None else Some(Body(NetToHost32(body[..4]), body[4..]))
  }

  lemma BodyRoundTrip(id: nat, payload: seq<byte>)
    requires id < WORD32
    ensures DecodeBody(EncodeBody(id, payload)) == Some(Body(id, payload))
    ensures var b := EncodeBody(id, payload);
            && |b| == 4 + |payload| && b[4..] == payload
            && 16777216 * b[0] as int + 65536 * b[1] as int + 256 * b[2] as int + b[3] as int == id
  {
    BigEndian(HostToNet32(id));
    assert EncodeBody(id, payload)[..4] == HostToNet32(id);
  }

  // ---------------------------------------------------------------- the client, step by step

  /** How a callback was run. */
  datatype Outcome = Failed | Answered(response: Message)

  /** An open request: the accepted call whose callback it holds, and when it times out. */
  datatype Pending = Pending(call: nat, deadline: int)

  /** Accepted calls are numbered from 1; `nextCall` is the next number. `pending` is by request id,
    `runs` is what the callback of every accepted call has been run with so far. */
  datatype Client = Client(connected: bool, nextCall: nat, pending: map<nat, Pending>, recv: seq<byte>,
                           runs: map<nat, seq<Outcome>>)

  /** The id a call is sent under: the counter has 32 bits. */
  function Id(call: nat): (id: nat)
    ensures id < WORD32
  {
    call % WORD32
  }

  function Fresh(): Client {
    Client(true, 1, map[], [], map[])
  }

  /** The callback of an accepted call is kept for an answer. */
  predicate Awaits(c: Client, call: nat) {
    Id(call) in c.pending && c.pending[Id(call)].call == call
  }

  /** A request still pending under the same id is overwritten, with its callback. */
  function Issue(c: Client, deadline: int): Client {
    c.(nextCall := c.nextCall + 1,
       pending := c.pending[Id(c.nextCall) := Pending(c.nextCall, deadline)],
       runs := c.runs[c.nextCall := []])
  }

  /** One answer: a short body or an unknown id is ignored. */
  function Respond(c: Client, m: Message): Client {
    match DecodeBody(m.body)
    case None => c
    case Some(body) =>
      if body.id in c.pending && c.pending[body.id].call in c.runs then
        var call := c.pending[body.id].call;
        c.(pending := c.pending - {body.id},
           runs := c.runs[call := c.runs[call] + [Answered(Message(m.cmd, body.payload))]])
      else c
  }

  function RespondAll(c: Client, messages: seq<Message>): Client
    decreases |messages|
  {
    if messages == [] then c else RespondAll(Respond(c, messages[0]), messages[1..])
  }

  function Receive(c: Client, data: seq<byte>): Client {
    var d := DecodeAll(NextMessage, c.recv + data);
    RespondAll(c.(recv := d.rest), d.messages)
  }

  function Failing(runs: map<nat, seq<Outcome>>, requests: map<nat, Pending>): map<nat, seq<Outcome>> {
    map call | call in runs ::
      if Id(call) in requests && requests[Id(call)].call == call then runs[call] + [Failed] else runs[call]
  }

  /** Some requests are no longer pending and their callbacks run with failure. */
  function Fail(c: Client, requests: map<nat, Pending>): Client {
    c.(pending := c.pending - requests.Keys, runs := Failing(c.runs, requests))
  }

  function Expired(c: Client, now: int): map<nat, Pending> {
    map id | id in c.pending && now >= c.pending[id].deadline :: c.pending[id]
  }

  function Drop(c: Client): Client {
    Fail(c, c.pending).(connected := false)
  }

  /** A request is pending under the id of its call, and no callback has run twice or early. */
  ghost predicate Sane(c: Client) {
    && 1 <= c.nextCall
    && (forall call :: call in c.runs <==> 1 <= call < c.nextCall)
    && (forall id :: id in c.pending ==> c.pending[id].call in c.runs && Id(c.pending[id].call) == id)
    && (forall call :: call in c.runs ==> |c.runs[call]| <= if Awaits(c, call) then 0 else 1)
  }

  /** Each accepted call is pending and its callback has not run, or is not pending and its
    callback has run once. */
  ghost predicate ExactlyOnce(c: Client) {
    Sane(c) && forall call :: call in c.runs ==> |c.runs[call]| == if Awaits(c, call) then 0 else 1
  }

  /** A call that is not pending and whose callback has not run. */
  ghost predicate Lost(c: Client, call: nat) {
    call in c.runs && c.runs[call] == [] && !Awaits(c, call)
  }

  datatype ClientStep = DoIssue(deadline: int) | DoReceive(data: seq<byte>) | DoSweep(now: int) | DoDrop

  function ClientNext(c: Client, step: ClientStep): Client {
    match step
    case DoIssue(deadline) => if c.connected then Issue(c, deadline) else c
    case DoReceive(data) => Receive(c, data)
    case DoSweep(now) => Fail(c, Expired(c, now))
    case DoDrop => Drop(c)
  }

  function ClientRun(c: Client, steps: seq<ClientStep>): Client
    decreases |steps|
  {
    if steps == [] then c else ClientRun(ClientNext(c, steps[0]), steps[1..])
  }

  /** A call is made while a request is pending under the id it gets. */
  predicate Reuses(c: Client, step: ClientStep) {
    step.DoIssue? && c.connected && Id(c.nextCall) in c.pending
  }

  predicate NeverReuses(c: Client, steps: seq<ClientStep>)
    decreases |steps|
  {
    steps == [] || (!Reuses(c, steps[0]) && NeverReuses(ClientNext(c, steps[0]), steps[1..]))
  }

  lemma {:induction false} RespondAllSane(c: Client, messages: seq<Message>)
    requires Sane(c)
    ensures var d := RespondAll(c, messages);
            && Sane(d) && d.nextCall == c.nextCall && d.recv == c.recv && d.connected == c.connected
            && d.pending.Keys <= c.pending.Keys && (forall id :: id in d.pending ==> d.pending[id] == c.pending[id])
            && (forall call :: Lost(d, call) <==> Lost(c, call))
    decreases |messages|
  {
    if messages != [] {
      RespondSane(c, messages[0]);
      RespondAllSane(Respond(c, messages[0]), messages[1..]);
    }
  }

  lemma RespondSane(c: Client, m: Message)
    requires Sane(c)
    ensures var d := Respond(c, m);
            Sane(d) && d.pending.Keys <= c.pending.Keys && forall call :: Lost(d, call) <==> Lost(c, call)
  {}

  lemma IssueSane(c: Client, deadline: int)
    requires Sane(c)
    ensures var d := Issue(c, deadline);
            && Sane(d)
            && forall call :: Lost(d, call) <==>
                 Lost(c, call) || (Id(c.nextCall) in c.pending && call == c.pending[Id(c.nextCall)].call)
  {}

  lemma FailSane(c: Client, requests: map<nat, Pending>, connected: bool)
    requires Sane(c) && forall id :: id in requests ==> id in c.pending && requests[id] == c.pending[id]
    ensures var d := Fail(c, requests).(connected := connected);
            Sane(d) && forall call :: Lost(d, call) <==> Lost(c, call)
  {}

  /** A step makes a call lost exactly if it reuses its id; what is lost stays lost. */
  lemma StepSane(c: Client, step: ClientStep)
    requires Sane(c)
    ensures var d := ClientNext(c, step);
            && Sane(d)
            && forall call :: Lost(d, call) <==> Lost(c, call) || (Reuses(c, step) && call == c.pending[Id(c.nextCall)].call)
  {
    match step
    case DoIssue(deadline) => IssueSane(c, deadline);
    case DoReceive(data) =>
      var d := DecodeAll(NextMessage, c.recv + data);
      SaneAnyBuffer(c, d.rest);
      hide Sane, Lost, Awaits;
      RespondAllSane(c.(recv := d.rest), d.messages);
    case DoSweep(now) => FailSane(c, Expired(c, now), c.connected);
    case DoDrop => FailSane(c, c.pending, false);
  }

  /** A sweep runs with failure exactly the callbacks of the calls that wait and whose deadline has
    come. */
  lemma SweptIff(c: Client, now: int, call: nat)
    requires Sane(c) && call in c.runs
    ensures var d := ClientNext(c, DoSweep(now));
            if Awaits(c, call) && c.pending[Id(call)].deadline <= now
            then d.runs[call] == [Failed] && !Awaits(d, call)
            else d.runs[call] == c.runs[call] && (Awaits(d, call) <==> Awaits(c, call))
  {}

  lemma SaneAnyBuffer(c: Client, recv: seq<byte>)
    requires Sane(c)
    ensures Sane(c.(recv := recv)) && forall call :: Lost(c.(recv := recv), call) <==> Lost(c, call)
  {}

  lemma OnceIsNoneLost(c: Client)
    requires Sane(c)
    ensures ExactlyOnce(c) <==> forall call :: !Lost(c, call)
  {
    if forall call :: !Lost(c, call) {
      forall call | call in c.runs ensures |c.runs[call]| == if Awaits(c, call) then 0 else 1 {
        assert !Lost(c, call);
      }
    }
  }

  lemma {:induction false} LostForGood(c: Client, steps: seq<ClientStep>, call: nat)
    requires Sane(c) && Lost(c, call)
    ensures Lost(ClientRun(c, steps), call)
    decreases |steps|
  {
    if steps != [] {
      StepSane(c, steps[0]);
      LostForGood(ClientNext(c, steps[0]), steps[1..], call);
    }
  }

  /** Whatever bytes arrive and however sweeps and disconnects interleave: every accepted call is
    pending or its callback has run, exactly once, if and only if no call was made while a request
    was pending under its id. */
  lemma {:induction false} ExactlyOnceIff(c: Client, steps: seq<ClientStep>)
    requires ExactlyOnce(c)
    ensures Sane(ClientRun(c, steps))
    ensures ExactlyOnce(ClientRun(c, steps)) <==> NeverReuses(c, steps)
    decreases |steps|
  {
    hide Sane, ExactlyOnce, Lost, ClientNext;
    SaneIfOnce(c);
    RunSane(c, steps);
    if steps != [] {
      var next := ClientNext(c, steps[0]);
      StepSane(c, steps[0]);
      OnceIsNoneLost(c);
      OnceIsNoneLost(next);
      if Reuses(c, steps[0]) {
        LostForGood(next, steps[1..], c.pending[Id(c.nextCall)].call);
        OnceIsNoneLost(ClientRun(c, steps));
      } else {
        ExactlyOnceIff(next, steps[1..]);
      }
    }
  }

  lemma SaneIfOnce(c: Client)
    requires ExactlyOnce(c)
    ensures Sane(c)
  {}

  lemma {:induction false} RunSane(c: Client, steps: seq<ClientStep>)
    requires Sane(c)
    ensures Sane(ClientRun(c, steps))
    decreases |steps|
  {
    if steps != [] {
      StepSane(c, steps[0]);
      RunSane(ClientNext(c, steps[0]), steps[1..]);
    }
  }

  /** A client that has made fewer than 2^32 calls has not reused an id. */
  lemma {:induction false} FewCallsAreOnce(c: Client, steps: seq<ClientStep>)
    requires Sane(c) && c.nextCall + |steps| <= WORD32
    ensures NeverReuses(c, steps)
    decreases |steps|
  {
    if steps != [] {
      assert !Reuses(c, steps[0]);
      StepSane(c, steps[0]);
      NextCallGrows(c, steps[0]);
      FewCallsAreOnce(ClientNext(c, steps[0]), steps[1..]);
    }
  }

  lemma NextCallGrows(c: Client, step: ClientStep)
    requires Sane(c)
    ensures c.nextCall <= ClientNext(c, step).nextCall <= c.nextCall + 1
  {
    if step.DoReceive? {
      var d := DecodeAll(NextMessage, c.recv + step.data);
      RespondAllSane(c.(recv := d.rest), d.messages);
    }
  }

  lemma {:induction false} RunConcat(c: Client, a: seq<ClientStep>, b: seq<ClientStep>)
    ensures ClientRun(c, a + b) == ClientRun(ClientRun(c, a), b)
    decreases |a|
  {
    if a == [] {
      assert a + b == b;
    } else {
      assert (a + b)[1..] == a[1..] + b;
      RunConcat(ClientNext(c, a[0]), a[1..], b);
    }
  }

  /** A call with a long deadline, then `k` calls that time out at once. */
  function Overtaken(k: nat): seq<ClientStep> {
    if k == 0 then [DoIssue(10)] else Overtaken(k - 1) + [DoIssue(0), DoSweep(0)]
  }

  /** What the first of these steps leaves, but for the callbacks of the others. */
  ghost predicate FirstWaits(c: Client, calls: nat) {
    c.connected && c.nextCall == calls + 1 && c.pending == map[1 := Pending(1, 10)] && 1 in c.runs && c.runs[1] == []
  }

  lemma {:induction false} StillWaiting(k: nat)
    requires k < WORD32
    ensures FirstWaits(ClientRun(Fresh(), Overtaken(k)), k + 1)
  {
    if k == 0 {
      assert ClientRun(Fresh(), [DoIssue(10)]) == ClientRun(Issue(Fresh(), 10), []);
    } else {
      StillWaiting(k - 1);
      RunConcat(Fresh(), Overtaken(k - 1), [DoIssue(0), DoSweep(0)]);
      TimesOut(ClientRun(Fresh(), Overtaken(k - 1)), k);
    }
  }

  lemma TimesOut(c: Client, calls: nat)
    requires FirstWaits(c, calls) && 1 <= calls < WORD32
    ensures FirstWaits(ClientRun(c, [DoIssue(0), DoSweep(0)]), calls + 1)
  {
    var d := Issue(c, 0);
    assert ClientRun(c, [DoIssue(0), DoSweep(0)]) == ClientRun(d, [DoSweep(0)]) == ClientRun(Fail(d, Expired(d, 0)), []);
    var id := Id(calls + 1);
    assert id != 1 && d.pending == map[1 := Pending(1, 10), id := Pending(calls + 1, 0)];
    assert Expired(d, 0) == map[id := Pending(calls + 1, 0)];
  }

  /** 2^32 calls after the first, which is still pending, the first is lost. */
  lemma LostInput()
    ensures Lost(ClientRun(Fresh(), Overtaken(WORD32 - 1) + [DoIssue(10)]), 1)
  {
    StillWaiting(WORD32 - 1);
    var c := ClientRun(Fresh(), Overtaken(WORD32 - 1));
    RunConcat(Fresh(), Overtaken(WORD32 - 1), [DoIssue(10)]);
    assert ClientRun(c, [DoIssue(10)]) == ClientRun(Issue(c, 10), []);
  }

  /** A disconnect leaves nothing pending and no later step makes a callback run again. */
  lemma {:induction false} DroppedForGood(c: Client, steps: seq<ClientStep>)
    requires c.pending == map[] && !c.connected
    ensures ClientRun(c, steps).pending == map[] && ClientRun(c, steps).runs == c.runs
    decreases |steps|
  {
    if steps != [] {
      var next := ClientNext(c, steps[0]);
      if steps[0].DoReceive? {
        var d := DecodeAll(NextMessage, c.recv + steps[0].data);
        NothingPending(c.(recv := d.rest), d.messages);
      }
      assert next.runs == c.runs;
      DroppedForGood(next, steps[1..]);
    }
  }

  lemma {:induction false} NothingPending(c: Client, messages: seq<Message>)
    requires c.pending == map[]
    ensures RespondAll(c, messages) == c
    decreases |messages|
  {
    if messages != [] { NothingPending(c, messages[1..]); }
  }

  // ---------------------------------------------------------------- the client object

  class RpcClient {
    var connected: bool
    var nextRequestId: nat
    const defaultTimeout: int
    var pendingRequests: map<nat, Pending>
    var recvBuffer: seq<byte>
    /** The number of the next accepted call: it stands for the call's callback. */
    var nextCall: nat
    var runs: map<nat, seq<Outcome>>
    /** Callbacks of calls turned away at once. */
    var rejections: nat
    /** The bytes handed to the connection. */
    var sent: seq<byte>

    ghost function State(): Client
      reads this
    {
      Client(connected, nextCall, pendingRequests, recvBuffer, runs)
    }

    ghost predicate Valid()
      reads this
    {
      Sane(State()) && nextRequestId == Id(nextCall)
    }

    /** A client just connected. */
    constructor (defaultTimeout: int)
      ensures Valid() && ExactlyOnce(State()) && State() == Fresh() && sent == [] && rejections == 0
      ensures this.defaultTimeout == defaultTimeout
    {
      this.defaultTimeout := defaultTimeout;
      connected, nextRequestId, pendingRequests, recvBuffer := true, 1, map[], [];
      nextCall, runs, rejections, sent := 1, map[], 0, [];
    }

    /** call: registers the request before its bytes go out. `admitted` is what the circuit breaker
      and the rate limiter say. */
    method Call(cmd: Word, payload: seq<byte>, now: int, timeoutSeconds: int, admitted: bool) returns (accepted: bool)
      requires Valid()
      modifies this
      ensures Valid() && accepted == (old(connected) && admitted)
      ensures accepted ==>
        var timeout := if timeoutSeconds < 0 then defaultTimeout else timeoutSeconds;
        && State() == Issue(old(State()), now + timeout)
        && pendingRequests == old(pendingRequests)[old(nextRequestId) := Pending(old(nextCall), now + timeout)]
        && runs == old(runs)[old(nextCall) := []] && nextCall == old(nextCall) + 1
        && nextRequestId == (old(nextRequestId) + 1) % 0x1_0000_0000
        && sent == old(sent) + Serialized(Message(cmd, EncodeBody(old(nextRequestId), payload)))
        && rejections == old(rejections)
      ensures !accepted ==> State() == old(State()) && sent == old(sent) && rejections == old(rejections) + 1
      ensures old(ExactlyOnce(State())) ==>
                (ExactlyOnce(State()) <==> !accepted || old(nextRequestId !in pendingRequests))
    {
      hide Sane, ExactlyOnce, Lost, Serialized, EncodeBody;
      OneMoreCall(now + if timeoutSeconds < 0 then defaultTimeout else timeoutSeconds);
      if !connected || !admitted {
        rejections := rejections + 1;
        return false;
      }
      var requestId := nextRequestId;
      nextRequestId := (nextRequestId + 1) % WORD32;
      var effectiveTimeout := if timeoutSeconds < 0 then defaultTimeout else timeoutSeconds;
      pendingRequests := pendingRequests[requestId := Pending(nextCall, now + effectiveTimeout)];
      runs := runs[nextCall := []];
      nextCall := nextCall + 1;
      var data := Serialize(Message(cmd, EncodeBody(requestId, payload)));
      sent := sent + data;
      return true;
    }

    lemma OneMoreCall(deadline: int)
      requires Valid()
      ensures Sane(Issue(State(), deadline)) && Id(nextCall + 1) == (nextRequestId + 1) % WORD32
      ensures ExactlyOnce(State()) ==> (ExactlyOnce(Issue(State(), deadline)) <==> nextRequestId !in pendingRequests)
    {
      hide Sane, ExactlyOnce, Lost, Issue;
      IssueSane(State(), deadline);
      OnceIsNoneLost(State());
      OnceIsNoneLost(Issue(State(), deadline));
      if nextRequestId in pendingRequests {
        assert Lost(Issue(State(), deadline), pendingRequests[nextRequestId].call);
      }
    }

    /** on_message: whatever the bytes, it does what Receive says. */
    method OnMessage(data: seq<byte>)
      requires Valid()
      modifies this
      ensures Valid() && State() == Receive(old(State()), data)
      ensures sent == old(sent) && rejections == old(rejections)
    {
      hide DecodeAll, NextMessage;
      var messages;
      messages, recvBuffer := ParseBuffered(recvBuffer, data);
      ghost var start := State();
      for i := 0 to |messages|
        invariant Valid() && sent == old(sent) && rejections == old(rejections)
        invariant RespondAll(State(), messages[i..]) == RespondAll(start, messages)
      {
        assert messages[i..][0] == messages[i] && messages[i..][1..] == messages[i + 1..];
        HandleResponse(messages[i]);
      }
    }

    method HandleResponse(m: Message)
      requires Valid()
      modifies `pendingRequests, `runs
      ensures Valid() && State() == Respond(old(State()), m)
      ensures |m.body| < 4 || NetToHost32(m.body[..4]) !in old(pendingRequests) ==>
                pendingRequests == old(pendingRequests) && runs == old(runs)
      ensures |m.body| >= 4 && NetToHost32(m.body[..4]) in old(pendingRequests) ==>
                var id := NetToHost32(m.body[..4]);
                var call := old(pendingRequests)[id].call;
                && pendingRequests == old(pendingRequests) - {id} && call in old(runs)
                && runs == old(runs)[call := old(runs)[call] + [Answered(Message(m.cmd, m.body[4..]))]]
    {
      if |m.body| < 4 {
        return;
      }
      var requestId, payload := NetToHost32(m.body[..4]), m.body[4..];
      if requestId !in pendingRequests {
        return;
      }
      var call := pendingRequests[requestId].call;
      pendingRequests := pendingRequests - {requestId};
      RunCallback(call, Answered(Message(m.cmd, payload)));
    }

    method RunCallback(call: nat, outcome: Outcome)
      requires call in runs
      modifies `runs
      ensures runs == old(runs)[call := old(runs)[call] + [outcome]]
    {
      runs := runs[call := runs[call] + [outcome]];
    }

    /** Runs the callbacks of some requests, in any order, with failure. */
    method FailCallbacks(requests: map<nat, Pending>)
      requires forall id :: id in requests ==> requests[id].call in runs && Id(requests[id].call) == id
      modifies `runs
      ensures runs == Failing(old(runs), requests)
    {
      var left := requests.Keys;
      while left != {}
        invariant left <= requests.Keys && runs.Keys == old(runs).Keys
        invariant forall call :: call in runs ==>
          runs[call] == if Id(call) in requests.Keys - left && requests[Id(call)].call == call
                        then old(runs)[call] + [Failed] else old(runs)[call]
        decreases left
      {
        var id :| id in left;
        RunCallback(requests[id].call, Failed);
        left := left - {id};
      }
    }

    lemma PendingCalls()
      requires Sane(State())
      ensures forall id :: id in pendingRequests ==>
                pendingRequests[id].call in runs && Id(pendingRequests[id].call) == id
    {}

    lemma WhoFails(requests: map<nat, Pending>)
      requires forall id :: id in requests ==> id in pendingRequests && requests[id] == pendingRequests[id]
      ensures forall call :: call in runs ==>
                Failing(runs, requests)[call] ==
                  runs[call] + if Id(call) in requests && requests[Id(call)].call == call then [Failed] else []
      ensures Failing(runs, requests).Keys == runs.Keys
    {
      assert forall run: seq<Outcome> :: run + [] == run;
    }

    /** on_disconnect and disconnect: all pending requests fail. */
    method OnDisconnect()
      requires Valid()
      modifies this
      ensures Valid() && State() == Drop(old(State())) && pendingRequests == map[] && !connected
      ensures runs.Keys == old(runs).Keys
      ensures forall call :: call in runs ==>
                runs[call] == old(runs)[call] + if old(Awaits(State(), call)) then [Failed] else []
      ensures sent == old(sent) && rejections == old(rejections)
    {
      hide Sane, Lost, Failing, Id;
      FailSane(State(), pendingRequests, false);
      PendingCalls();
      WhoFails(pendingRequests);
      var pending := pendingRequests;
      pendingRequests := map[];
      FailCallbacks(pending);
      connected := false;
      assert pendingRequests == old(pendingRequests) - old(pendingRequests).Keys;
    }

    /** cleanup_expired_requests: the requests whose deadline has come fail. */
    method CleanupExpiredRequests(now: int)
      requires Valid()
      modifies this
      ensures Valid() && State() == Fail(old(State()), Expired(old(State()), now))
      ensures forall id :: id in pendingRequests <==> id in old(pendingRequests) && now < old(pendingRequests)[id].deadline
      ensures forall id :: id in pendingRequests ==> pendingRequests[id] == old(pendingRequests)[id]
      ensures runs.Keys == old(runs).Keys
      ensures forall call :: call in runs ==>
                runs[call] == old(runs)[call] +
                  if old(Awaits(State(), call) && pendingRequests[Id(call)].deadline <= now) then [Failed] else []
      ensures sent == old(sent) && rejections == old(rejections)
    {
      hide Sane, Lost, Failing, Id;
      FailSane(State(), Expired(State(), now), connected);
      PendingCalls();
      WhoFails(Expired(State(), now));
      var expired := TakeExpired(now);
      FailCallbacks(expired);
    }

    /** The locked part of cleanup_expired_requests. */
    method TakeExpired(now: int) returns (expired: map<nat, Pending>)
      modifies `pendingRequests
      ensures expired == Expired(old(State()), now) && pendingRequests == old(pendingRequests) - expired.Keys
    {
      expired := map[];
      var left := pendingRequests.Keys;
      while left != {}
        invariant left <= old(pendingRequests).Keys
        invariant expired == map id | id in old(pendingRequests).Keys - left && now >= old(pendingRequests)[id].deadline
                               :: old(pendingRequests)[id]
        invariant pendingRequests == old(pendingRequests) - expired.Keys
        decreases left
      {
        var id :| id in left;
        var request := pendingRequests[id];
        if now >= request.deadline {
          expired := expired[id := request];
          pendingRequests := pendingRequests - {id};
        }
        left := left - {id};
      }
    }
  }
}
