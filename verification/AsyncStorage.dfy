/** The asynchronous storage adapter (src/storage/async_storage_adapter.cpp): submitters and
  workers around a bounded queue, with a shutdown that drains it. Every region under the queue
  lock and every call of the storage is one step. */
module AsyncStorage {

  datatype StoredDocument = StoredDocument(key: string, value: string, expireAt: int)

  datatype StorageResult = StorageResult(ok: bool, errorMsg: string, value: string)

  datatype Operation =
    | Get(key: string)
    | Put(key: string, value: string, expireAt: int)
    | Remove(key: string)
    | Exists(key: string)
    | MGet(keys: seq<string>)
    | MPut(docs: seq<StoredDocument>)

  /** What the promise of an operation is set to. */
  datatype Reply = One(result: StorageResult) | Flag(found: bool) | Many(results: seq<StorageResult>)

  datatype Attempt = Returned(reply: Reply) | Threw(what: string) | ThrewOther

  /** The wrapped storage, an arbitrary state machine. */
  type Backend<!S> = (S, Operation) -> (S, Attempt)

  const SHUTDOWN_MSG := "AsyncStorageAdapter is shutting down"
  const NULL_STORAGE_MSG := "AsyncStorageAdapter: storage is null"

  function Failure(message: string): StorageResult {
    StorageResult(false, message, "")
  }

  /** The reply has the type of the operation's future. */
  predicate Fits(op: Operation, r: Reply) {
    match op
    case Exists(_) => r.Flag?
    case MGet(_) => r.Many?
    case _ => r.One?
  }

  ghost predicate Fails(r: Reply) {
    match r
    case One(result) => !result.ok
    case Flag(found) => !found
    case Many(results) => forall i :: 0 <= i < |results| ==> !results[i].ok
  }

  /** The reply to an operation that is turned away: one failure a key for mget. */
  function Refusal(op: Operation, message: string): (r: Reply)
    ensures Fits(op, r) && Fails(r) && (op.MGet? ==> |r.results| == |op.keys|)
  {
    match op
    case Exists(_) => Flag(false)
    case MGet(keys) => Many(seq(|keys|, _ => Failure(message)))
    case _ => One(Failure(message))
  }

  /** The reply to an operation that threw: a single failure even for mget. */
  function Thrown(op: Operation, message: string): (r: Reply)
    ensures Fits(op, r) && Fails(r) && (op.MGet? ==> |r.results| == 1)
  {
    match op
    case Exists(_) => Flag(false)
    case MGet(_) => Many([Failure(message)])
    case _ => One(Failure(message))
  }

  /** The fulfill helpers: a storage that throws does not lose the promise. */
  function Fulfilled(op: Operation, attempt: Attempt): Reply {
    match attempt
    case Returned(reply) => reply
    case Threw(what) => Thrown(op, what)
    case ThrewOther => Thrown(op, "unknown exception")
  }

  // ---------------------------------------------------------------- state and steps

  /** A queued closure: the operation, and the call whose promise it will set. */
  datatype Task = Task(id: nat, op: Operation)

  datatype Worker = Idle | Running(task: Task) | Exited

  /** The storage, or its absence, and the queue limit; 0 is no limit. */
  datatype Setup<!S> = Setup(backend: Backend<S>, initial: S, present: bool, maxQueueSize: nat)

  /** `waiting` are the submitters blocked on a full queue; `calls` and `promises` are indexed by
    call; `accepted`, `executed` and `refused` record the tasks pushed, run and turned away. */
  datatype State<S> = State(
    queue: seq<Task>, stopping: bool, workers: seq<Worker>, waiting: seq<Task>, storage: S,
    calls: seq<Operation>, promises: seq<seq<Reply>>,
    accepted: seq<Task>, executed: seq<Task>, refused: seq<Task>)

  function Start<S>(setup: Setup<S>, threads: nat): State<S> {
    State([], false, seq(threads, _ => Idle), [], setup.initial, [], [], [], [], [])
  }

  function Settle(promises: seq<seq<Reply>>, id: nat, reply: Reply): seq<seq<Reply>> {
    if id < |promises| then promises[id := promises[id] + [reply]] else promises
  }

  function RefusalMsg<S>(setup: Setup<S>): string {
    if setup.present then SHUTDOWN_MSG else NULL_STORAGE_MSG
  }

  function Refuse<S>(setup: Setup<S>, s: State<S>, t: Task): State<S> {
    s.(refused := s.refused + [t], promises := Settle(s.promises, t.id, Refusal(t.op, RefusalMsg(setup))))
  }

  function Push<S>(s: State<S>, t: Task): State<S> {
    s.(queue := s.queue + [t], accepted := s.accepted + [t])
  }

  predicate HasRoom<S>(setup: Setup<S>, queue: seq<Task>) {
    setup.maxQueueSize == 0 || |queue| < setup.maxQueueSize
  }

  /** A submitter looks at the queue: it is turned away, lets its task in, or waits. */
  function Knock<S>(setup: Setup<S>, s: State<S>, t: Task): State<S> {
    if !setup.present || s.stopping then Refuse(setup, s, t)
    else if HasRoom(setup, s.queue) then Push(s, t)
    else s.(waiting := s.waiting + [t])
  }

  function NewCall<S>(s: State<S>, op: Operation): State<S> {
    s.(calls := s.calls + [op], promises := s.promises + [[]])
  }

  function Submit<S>(setup: Setup<S>, s: State<S>, op: Operation): State<S> {
    Knock(setup, NewCall(s, op), Task(|s.calls|, op))
  }

  /** A waiting submitter wakes and looks again. */
  function Retry<S>(setup: Setup<S>, s: State<S>, i: nat): State<S> {
    if i < |s.waiting| && (s.stopping || HasRoom(setup, s.queue)) then
      Knock(setup, s.(waiting := s.waiting[..i] + s.waiting[i + 1..]), s.waiting[i])
    else s
  }

  /** An idle worker takes the front task, leaves if there is none and the adapter is stopping, or
    waits. */
  function Take<S>(s: State<S>, w: nat): State<S> {
    if w >= |s.workers| || !s.workers[w].Idle? then s
    else if s.queue != [] then s.(queue := s.queue[1..], workers := s.workers[w := Running(s.queue[0])])
    else if s.stopping then s.(workers := s.workers[w := Exited])
    else s
  }

  /** A worker runs its task on the storage and sets the promise. */
  function Work<S>(setup: Setup<S>, s: State<S>, w: nat): State<S> {
    if w >= |s.workers| || !s.workers[w].Running? then s
    else
      var t := s.workers[w].task;
      var (storage, attempt) := setup.backend(s.storage, t.op);
      s.(storage := storage, workers := s.workers[w := Idle], executed := s.executed + [t],
         promises := Settle(s.promises, t.id, Fulfilled(t.op, attempt)))
  }

  datatype Step = DoSubmit(op: Operation) | DoRetry(i: nat) | DoTake(w: nat) | DoWork(w: nat) | DoStop

  function Next<S>(setup: Setup<S>, s: State<S>, step: Step): State<S> {
    match step
    case DoSubmit(op) => Submit(setup, s, op)
    case DoRetry(i) => Retry(setup, s, i)
    case DoTake(w) => Take(s, w)
    case DoWork(w) => Work(setup, s, w)
    case DoStop => s.(stopping := true)
  }

  function Run<S>(setup: Setup<S>, s: State<S>, steps: seq<Step>): State<S>
    decreases |steps|
  {
    if steps == [] then s else Run(setup, Next(setup, s, steps[0]), steps[1..])
  }

  // ---------------------------------------------------------------- running tasks one after the other

  function Replay<S>(setup: Setup<S>, tasks: seq<Task>): S {
    if tasks == [] then setup.initial
    else setup.backend(Replay(setup, tasks[..|tasks| - 1]), tasks[|tasks| - 1].op).0
  }

  /** What the i-th of some tasks is answered when they are run one after the other. */
  function ReplyAt<S>(setup: Setup<S>, tasks: seq<Task>, i: nat): Reply
    requires i < |tasks|
  {
    Fulfilled(tasks[i].op, setup.backend(Replay(setup, tasks[..i]), tasks[i].op).1)
  }

  /** The storage before each of some tasks and after the last. */
  ghost predicate Runs<S>(setup: Setup<S>, tasks: seq<Task>, states: seq<S>) {
    && |states| == |tasks| + 1 && states[0] == setup.initial
    && forall i :: 0 <= i < |tasks| ==> states[i + 1] == setup.backend(states[i], tasks[i].op).0
  }

  lemma Replayed<S>(setup: Setup<S>, tasks: seq<Task>) returns (states: seq<S>)
    ensures Runs(setup, tasks, states) && forall i :: 0 <= i <= |tasks| ==> states[i] == Replay(setup, tasks[..i])
  {
    states := seq(|tasks| + 1, i requires 0 <= i <= |tasks| => Replay(setup, tasks[..i]));
    forall i | 0 <= i < |tasks| ensures states[i + 1] == setup.backend(states[i], tasks[i].op).0 {
      assert tasks[..i + 1][..i] == tasks[..i];
    }
  }

  /** The reply to an attempt, written out. */
  lemma FulfilledIs(op: Operation, attempt: Attempt)
    ensures var message := if attempt.Threw? then attempt.what else "unknown exception";
            Fulfilled(op, attempt) ==
              if attempt.Returned? then attempt.reply
              else match op
                   case Exists(_) => Flag(false)
                   case MGet(_) => Many([StorageResult(false, message, "")])
                   case _ => One(StorageResult(false, message, ""))
  {}

  lemma ReplyIs<S>(setup: Setup<S>, tasks: seq<Task>, i: nat)
    requires i < |tasks|
    ensures var op, attempt := tasks[i].op, setup.backend(Replay(setup, tasks[..i]), tasks[i].op).1;
            ReplyAt(setup, tasks, i) ==
              if attempt.Returned? then attempt.reply
              else
                var message := if attempt.Threw? then attempt.what else "unknown exception";
                match op
                case Exists(_) => Flag(false)
                case MGet(_) => Many([StorageResult(false, message, "")])
                case _ => One(StorageResult(false, message, ""))
  {}

  lemma RefusalIs<S>(setup: Setup<S>, op: Operation)
    ensures var message := if setup.present then "AsyncStorageAdapter is shutting down"
                           else "AsyncStorageAdapter: storage is null";
            Refusal(op, RefusalMsg(setup)) ==
              match op
              case Exists(_) => Flag(false)
              case MGet(keys) => Many(seq(|keys|, _ => StorageResult(false, message, "")))
              case _ => One(StorageResult(false, message, ""))
  {}

  function Replies<S>(setup: Setup<S>, tasks: seq<Task>, id: nat): seq<Reply> {
    if tasks == [] then []
    else
      var n := |tasks| - 1;
      Replies(setup, tasks[..n], id) + if tasks[n].id == id then [ReplyAt(setup, tasks, n)] else []
  }

  function Refusals<S>(setup: Setup<S>, tasks: seq<Task>, id: nat): seq<Reply> {
    if tasks == [] then []
    else
      var n := |tasks| - 1;
      Refusals(setup, tasks[..n], id) + if tasks[n].id == id then [Refusal(tasks[n].op, RefusalMsg(setup))] else []
  }

  // ---------------------------------------------------------------- counting tasks

  ghost function Count(tasks: seq<Task>, id: nat): nat {
    if tasks == [] then 0
    else Count(tasks[..|tasks| - 1], id) + if tasks[|tasks| - 1].id == id then 1 else 0
  }

  lemma {:induction false} CountConcat(a: seq<Task>, b: seq<Task>, id: nat)
    ensures Count(a + b, id) == Count(a, id) + Count(b, id)
    decreases |b|
  {
    if b == [] {
      assert a + b == a;
    } else {
      var n := |b| - 1;
      CountConcat(a, b[..n], id);
      assert (a + b)[..|a + b| - 1] == a + b[..n];
    }
  }

  lemma CountOne(t: Task, id: nat)
    ensures Count([t], id) == if t.id == id then 1 else 0
  {
    assert [t][..0] == [];
  }

  lemma CountSnoc(tasks: seq<Task>, t: Task, id: nat)
    ensures Count(tasks + [t], id) == Count(tasks, id) + if t.id == id then 1 else 0
  {
    CountConcat(tasks, [t], id);
    CountOne(t, id);
  }

  lemma CountWithout(tasks: seq<Task>, i: nat, id: nat)
    requires i < |tasks|
    ensures Count(tasks, id) == Count(tasks[..i] + tasks[i + 1..], id) + if tasks[i].id == id then 1 else 0
  {
    hide Count;
    CountConcat(tasks[..i], tasks[i + 1..], id);
    CountConcat(tasks[..i] + [tasks[i]], tasks[i + 1..], id);
    CountSnoc(tasks[..i], tasks[i], id);
    assert tasks[..i] + [tasks[i]] + tasks[i + 1..] == tasks;
  }

  lemma {:induction false} CountIn(tasks: seq<Task>, i: nat)
    requires i < |tasks|
    ensures Count(tasks, tasks[i].id) > 0
  {
    CountWithout(tasks, i, tasks[i].id);
  }

  /** The tasks workers have in hand. */
  ghost function InHand(w: Worker): seq<Task> {
    if w.Running? then [w.task] else []
  }

  ghost function Held(workers: seq<Worker>): seq<Task> {
    if workers == [] then [] else InHand(workers[0]) + Held(workers[1..])
  }

  lemma {:induction false} HeldConcat(a: seq<Worker>, b: seq<Worker>)
    ensures Held(a + b) == Held(a) + Held(b)
  {
    hide InHand;
    if a == [] {
      assert a + b == b;
    } else {
      HeldConcat(a[1..], b);
      assert (a + b)[1..] == a[1..] + b;
      Associative(InHand(a[0]), Held(a[1..]), Held(b));
    }
  }

  lemma Associative(a: seq<Task>, b: seq<Task>, c: seq<Task>)
    ensures (a + b) + c == a + (b + c)
  {}

  lemma HeldSplit(workers: seq<Worker>, w: nat)
    requires w < |workers|
    ensures Held(workers) == Held(workers[..w]) + InHand(workers[w]) + Held(workers[w + 1..])
  {
    HeldStep(workers[w..]);
    hide Held, InHand;
    assert workers == workers[..w] + workers[w..];
    HeldConcat(workers[..w], workers[w..]);
    assert workers[w..][1..] == workers[w + 1..] && workers[w..][0] == workers[w];
    Associative(Held(workers[..w]), InHand(workers[w]), Held(workers[w + 1..]));
  }

  lemma HeldStep(workers: seq<Worker>)
    requires workers != []
    ensures Held(workers) == InHand(workers[0]) + Held(workers[1..])
  {}

  lemma HeldUpdate(workers: seq<Worker>, w: nat, x: Worker, id: nat)
    requires w < |workers|
    ensures Count(Held(workers[w := x]), id) + Count(InHand(workers[w]), id) ==
            Count(Held(workers), id) + Count(InHand(x), id)
  {
    hide Count, Held, InHand;
    var after := workers[w := x];
    HeldSplit(workers, w);
    HeldSplit(after, w);
    assert after[..w] == workers[..w] && after[w + 1..] == workers[w + 1..];
    var front, back := Held(workers[..w]), Held(workers[w + 1..]);
    CountConcat(front + InHand(workers[w]), back, id);
    CountConcat(front, InHand(workers[w]), id);
    CountConcat(front + InHand(x), back, id);
    CountConcat(front, InHand(x), id);
  }

  lemma {:induction false} NothingHeld(workers: seq<Worker>)
    requires forall w :: 0 <= w < |workers| ==> !workers[w].Running?
    ensures Held(workers) == []
  {
    if workers != [] { NothingHeld(workers[1..]); }
  }

  // ---------------------------------------------------------------- the invariant

  /** How often a call's task is somewhere: waiting, queued, in a worker's hand, run or refused. */
  ghost function Places<S>(s: State<S>, id: nat): nat {
    Open(s, id) + Count(s.executed, id) + Count(s.refused, id)
  }

  ghost function Open<S>(s: State<S>, id: nat): nat {
    Count(s.waiting, id) + Count(s.queue, id) + Count(Held(s.workers), id)
  }

  /** Every call's task is in exactly one place. */
  ghost predicate Conserved<S>(s: State<S>) {
    forall id: nat :: Places(s, id) == if id < |s.calls| then 1 else 0
  }

  ghost predicate OwnOp(calls: seq<Operation>, tasks: seq<Task>) {
    forall i :: 0 <= i < |tasks| ==> tasks[i].id < |calls| && tasks[i].op == calls[tasks[i].id]
  }

  /** Tasks carry the operation of their call. */
  ghost predicate Labelled<S>(s: State<S>) {
    && OwnOp(s.calls, s.waiting) && OwnOp(s.calls, s.accepted) && OwnOp(s.calls, s.refused)
    && OwnOp(s.calls, s.executed) && OwnOp(s.calls, s.queue) && OwnOp(s.calls, Held(s.workers))
  }

  /** The storage and the promises are what running the executed tasks one after the other makes
    of them, and refusals. */
  ghost predicate Sequential<S>(setup: Setup<S>, s: State<S>) {
    && s.storage == Replay(setup, s.executed)
    && |s.promises| == |s.calls|
    && forall id :: 0 <= id < |s.calls| ==>
         s.promises[id] == Replies(setup, s.executed, id) + Refusals(setup, s.refused, id)
  }

  /** The tasks taken off the queue so far, in order. */
  ghost function Taken<S>(s: State<S>): seq<Task>
    requires |s.queue| <= |s.accepted|
  {
    s.accepted[..|s.accepted| - |s.queue|]
  }

  /** First in, first out; what has been taken is in hand or has run. */
  ghost predicate Fifo<S>(s: State<S>) {
    && |s.queue| <= |s.accepted| && s.accepted == Taken(s) + s.queue
    && (forall id :: Count(Taken(s), id) == Count(Held(s.workers), id) + Count(s.executed, id))
    && (|s.workers| == 1 ==> Taken(s) == s.executed + Held(s.workers))
  }

  ghost predicate Limits<S>(setup: Setup<S>, s: State<S>) {
    && (setup.maxQueueSize > 0 ==> |s.queue| <= setup.maxQueueSize)
    && (forall w :: 0 <= w < |s.workers| && s.workers[w].Exited? ==> s.stopping && s.queue == [])
    && (s.refused != [] ==> s.stopping || !setup.present)
    && (!setup.present ==> s.accepted == [] && s.waiting == [])
    && (setup.maxQueueSize == 0 ==> s.waiting == [])
  }

  /** Without a limit the queue takes the calls in their order. */
  ghost predicate CallOrder<S>(setup: Setup<S>, s: State<S>) {
    setup.maxQueueSize == 0 ==>
      forall i, j :: 0 <= i < j < |s.accepted| ==> s.accepted[i].id < s.accepted[j].id
  }

  ghost predicate Inv<S>(setup: Setup<S>, s: State<S>) {
    Conserved(s) && Labelled(s) && Sequential(setup, s) && Fifo(s) && Limits(setup, s) && CallOrder(setup, s)
  }

  lemma StartInv<S>(setup: Setup<S>, threads: nat)
    ensures Inv(setup, Start(setup, threads))
  {
    hide Count, Held, Replies, Refusals;
    NothingHeld(Start(setup, threads).workers);
    forall id: nat ensures Count([], id) == 0 { CountNone(id); }
    forall id: nat ensures Replies(setup, [], id) == [] && Refusals(setup, [], id) == [] { CountNone(id); NoneYet(setup, [], id); }
  }

  // ---------------------------------------------------------------- steps of a submitter

  /** A task at the door: its call is made, it is in no place yet and its promise is not set. */
  ghost predicate AtDoor<S>(setup: Setup<S>, s: State<S>, t: Task) {
    && (forall id: nat :: Places(s, id) == if id < |s.calls| && id != t.id then 1 else 0)
    && t.id < |s.calls| && t.op == s.calls[t.id]
    && Labelled(s) && Sequential(setup, s) && Fifo(s) && Limits(setup, s) && CallOrder(setup, s)
    && (setup.maxQueueSize == 0 ==> forall i :: 0 <= i < |s.accepted| ==> s.accepted[i].id < t.id)
  }

  lemma RefuseKeeps<S>(setup: Setup<S>, s: State<S>, t: Task)
    requires AtDoor(setup, s, t) && (!setup.present || s.stopping)
    ensures Inv(setup, Refuse(setup, s, t))
  {
    hide Count, Held, Sequential, Conserved, Places, Refusal, Settle;
    RefuseSequential(setup, s, t);
    RefuseConserved(setup, s, t);
    assert Taken(Refuse(setup, s, t)) == Taken(s);
  }

  lemma RefuseConserved<S>(setup: Setup<S>, s: State<S>, t: Task)
    requires AtDoor(setup, s, t)
    ensures Conserved(Refuse(setup, s, t))
  {
    hide Count, Held, Labelled, Sequential, Fifo, Limits, CallOrder, Refusal, Settle;
    var n := Refuse(setup, s, t);
    forall id: nat ensures Places(n, id) == if id < |n.calls| then 1 else 0 {
      CountSnoc(s.refused, t, id);
      assert Places(n, id) == Places(s, id) + if t.id == id then 1 else 0;
    }
  }

  lemma RefuseSequential<S>(setup: Setup<S>, s: State<S>, t: Task)
    requires Sequential(setup, s) && t.id < |s.calls|
    ensures Sequential(setup, Refuse(setup, s, t))
  {
    hide Count, Replay, Replies, ReplyAt, Refusal;
    var n := Refuse(setup, s, t);
    assert n.refused[..|s.refused|] == s.refused;
    var before := Replies(setup, s.executed, t.id) + Refusals(setup, s.refused, t.id);
    assert n.promises[t.id] == before + [Refusal(t.op, RefusalMsg(setup))];
  }

  lemma PushKeeps<S>(setup: Setup<S>, s: State<S>, t: Task)
    requires AtDoor(setup, s, t) && setup.present && !s.stopping && HasRoom(setup, s.queue)
    ensures Inv(setup, Push(s, t))
  {
    var n := Push(s, t);
    hide Count, Held, Replay, Replies, ReplyAt, Refusal, Refusals;
    forall id: nat ensures Places(n, id) == if id < |n.calls| then 1 else 0 {
      CountSnoc(s.queue, t, id);
      assert Places(n, id) == Places(s, id) + if t.id == id then 1 else 0;
    }
    assert Taken(n) == Taken(s);
  }

  lemma WaitKeeps<S>(setup: Setup<S>, s: State<S>, t: Task)
    requires AtDoor(setup, s, t) && setup.present && !HasRoom(setup, s.queue)
    ensures Inv(setup, s.(waiting := s.waiting + [t]))
  {
    var n := s.(waiting := s.waiting + [t]);
    hide Count, Held, Replay, Replies, ReplyAt, Refusal, Refusals;
    forall id: nat ensures Places(n, id) == if id < |n.calls| then 1 else 0 {
      CountSnoc(s.waiting, t, id);
      assert Places(n, id) == Places(s, id) + if t.id == id then 1 else 0;
    }
    assert Taken(n) == Taken(s);
  }

  lemma KnockKeeps<S>(setup: Setup<S>, s: State<S>, t: Task)
    requires AtDoor(setup, s, t)
    ensures Inv(setup, Knock(setup, s, t))
  {
    hide AtDoor, Inv;
    if !setup.present || s.stopping {
      RefuseKeeps(setup, s, t);
    } else if HasRoom(setup, s.queue) {
      PushKeeps(setup, s, t);
    } else {
      WaitKeeps(setup, s, t);
    }
  }

  lemma {:induction false} NoneYet<S>(setup: Setup<S>, tasks: seq<Task>, id: nat)
    requires Count(tasks, id) == 0
    ensures Replies(setup, tasks, id) == [] && Refusals(setup, tasks, id) == []
  {
    if tasks != [] { NoneYet(setup, tasks[..|tasks| - 1], id); }
  }

  lemma SubmitKeeps<S>(setup: Setup<S>, s: State<S>, op: Operation)
    requires Inv(setup, s)
    ensures Inv(setup, Submit(setup, s, op))
  {
    CallAtDoor(setup, s, op);
    hide Inv, AtDoor, Knock, NewCall;
    KnockKeeps(setup, NewCall(s, op), Task(|s.calls|, op));
  }

  lemma CallAtDoor<S>(setup: Setup<S>, s: State<S>, op: Operation)
    requires Inv(setup, s)
    ensures AtDoor(setup, NewCall(s, op), Task(|s.calls|, op))
  {
    hide Count, Held, Sequential, Fifo, Limits, CallOrder, Labelled, Replay, Replies, Refusals;
    var n := NewCall(s, op);
    CallElsewhere(setup, s, op);
    CallSequential(setup, s, op);
    assert forall id :: Places(n, id) == Places(s, id);
  }

  /** A new call leaves the queue and the workers alone. */
  lemma CallElsewhere<S>(setup: Setup<S>, s: State<S>, op: Operation)
    requires Inv(setup, s)
    ensures var n := NewCall(s, op);
            && Labelled(n) && Fifo(n) && Limits(setup, n) && CallOrder(setup, n)
            && forall i :: 0 <= i < |s.accepted| ==> s.accepted[i].id < |s.calls|
  {
    hide Count, Held, Sequential, Conserved, Replay, Replies, Refusals, Fifo, OwnOp, CallOrder;
    CallFifo(setup, s, op);
    OwnOpGrows(s.calls, op, s.waiting);
    OwnOpGrows(s.calls, op, s.accepted);
    OwnOpGrows(s.calls, op, s.refused);
    OwnOpGrows(s.calls, op, s.executed);
    OwnOpGrows(s.calls, op, s.queue);
    OwnOpGrows(s.calls, op, Held(s.workers));
    CallOrderKept(setup, s, op);
  }

  lemma OwnOpGrows(calls: seq<Operation>, op: Operation, tasks: seq<Task>)
    requires OwnOp(calls, tasks)
    ensures OwnOp(calls + [op], tasks) && forall i :: 0 <= i < |tasks| ==> tasks[i].id < |calls|
  {}

  lemma CallOrderKept<S>(setup: Setup<S>, s: State<S>, op: Operation)
    requires CallOrder(setup, s)
    ensures CallOrder(setup, NewCall(s, op))
  {}

  lemma CallFifo<S>(setup: Setup<S>, s: State<S>, op: Operation)
    requires Inv(setup, s)
    ensures Fifo(NewCall(s, op))
  {
    hide Count, Held, Sequential, Conserved, Labelled, Limits, CallOrder;
    assert Taken(NewCall(s, op)) == Taken(s);
  }

  lemma CallSequential<S>(setup: Setup<S>, s: State<S>, op: Operation)
    requires Sequential(setup, s) && Conserved(s)
    ensures Sequential(setup, NewCall(s, op))
  {
    hide Count, Held, Replay, Replies, ReplyAt, Refusals;
    assert Places(s, |s.calls|) == 0;
    NoneYet(setup, s.executed, |s.calls|);
    NoneYet(setup, s.refused, |s.calls|);
  }

  lemma RetryKeeps<S>(setup: Setup<S>, s: State<S>, i: nat)
    requires Inv(setup, s)
    ensures Inv(setup, Retry(setup, s, i))
  {
    if i < |s.waiting| && (s.stopping || HasRoom(setup, s.queue)) {
      WaiterAtDoor(setup, s, i);
      hide Inv, AtDoor, Knock;
      KnockKeeps(setup, s.(waiting := s.waiting[..i] + s.waiting[i + 1..]), s.waiting[i]);
    }
  }

  lemma WaiterAtDoor<S>(setup: Setup<S>, s: State<S>, i: nat)
    requires Inv(setup, s) && i < |s.waiting|
    ensures AtDoor(setup, s.(waiting := s.waiting[..i] + s.waiting[i + 1..]), s.waiting[i])
  {
    hide Count, Held, Replay, Replies, ReplyAt, Refusals;
    var n, t := s.(waiting := s.waiting[..i] + s.waiting[i + 1..]), s.waiting[i];
    forall id: nat ensures Places(n, id) == if id < |n.calls| && id != t.id then 1 else 0 {
      CountWithout(s.waiting, i, id);
      assert Places(s, id) == Places(n, id) + if t.id == id then 1 else 0;
    }
    assert Taken(n) == Taken(s);
    assert OwnOp(s.calls, n.waiting);
  }

  // ---------------------------------------------------------------- steps of a worker

  lemma TakeKeeps<S>(setup: Setup<S>, s: State<S>, w: nat)
    requires Inv(setup, s)
    ensures Inv(setup, Take(s, w))
  {
    hide Inv;
    if w < |s.workers| && s.workers[w].Idle? {
      if s.queue != [] {
        TakeFrontKeeps(setup, s, w);
      } else if s.stopping {
        ExitKeeps(setup, s, w);
      }
    }
  }

  lemma TakeFrontKeeps<S>(setup: Setup<S>, s: State<S>, w: nat)
    requires Inv(setup, s) && w < |s.workers| && s.workers[w].Idle? && s.queue != []
    ensures Inv(setup, Take(s, w))
  {
    QueueAccepted(setup, s);
    hide Count, Held, Sequential, Fifo, Limits, CallOrder, Replay, Replies, Refusals;
    TakeCounts(s, w);
    HeldAfter(s.workers, w, Running(s.queue[0]), s.calls);
    TakeElsewhere(setup, s, w);
    TakeFifo(setup, s, w);
    hide Labelled;
    var n := Take(s, w);
    forall id: nat ensures Places(n, id) == if id < |n.calls| then 1 else 0 {
      assert Places(n, id) == Places(s, id);
    }
  }

  lemma QueueAccepted<S>(setup: Setup<S>, s: State<S>)
    requires Inv(setup, s)
    ensures |s.queue| <= |s.accepted|
  {
    hide Count, Held, Conserved, Labelled, Sequential, Limits, CallOrder;
  }

  /** The front task goes from the queue into a worker's hand. */
  lemma TakeCounts<S>(s: State<S>, w: nat)
    requires w < |s.workers| && s.workers[w].Idle? && s.queue != [] && |s.queue| <= |s.accepted|
    ensures var n, t := Take(s, w), s.queue[0];
            forall id: nat ::
              && Count(Held(n.workers), id) == Count(Held(s.workers), id) + (if t.id == id then 1 else 0)
              && Count(s.queue, id) == Count(n.queue, id) + (if t.id == id then 1 else 0)
              && Count(Taken(s) + [t], id) == Count(Taken(s), id) + (if t.id == id then 1 else 0)
  {
    hide Count, Held;
    var n, t := Take(s, w), s.queue[0];
    forall id: nat
      ensures Count(Held(n.workers), id) == Count(Held(s.workers), id) + if t.id == id then 1 else 0
      ensures Count(s.queue, id) == Count(n.queue, id) + if t.id == id then 1 else 0
      ensures Count(Taken(s) + [t], id) == Count(Taken(s), id) + if t.id == id then 1 else 0
    {
      HeldUpdate(s.workers, w, Running(t), id);
      CountNone(id);
      CountOne(t, id);
      CountWithout(s.queue, 0, id);
      assert s.queue[..0] + s.queue[1..] == n.queue;
      CountSnoc(Taken(s), t, id);
    }
  }

  lemma TakeElsewhere<S>(setup: Setup<S>, s: State<S>, w: nat)
    requires Inv(setup, s) && w < |s.workers| && s.workers[w].Idle? && s.queue != []
    requires OwnOp(s.calls, Held(Take(s, w).workers))
    ensures var n := Take(s, w); Labelled(n) && Sequential(setup, n) && Limits(setup, n) && CallOrder(setup, n)
  {
    hide Count, Replay, Replies, Refusals, Held, Conserved, Fifo;
  }

  lemma TakeFifo<S>(setup: Setup<S>, s: State<S>, w: nat)
    requires Inv(setup, s) && w < |s.workers| && s.workers[w].Idle? && s.queue != []
    requires var n, t := Take(s, w), s.queue[0];
             && (|s.workers| == 1 ==> Held(s.workers) == InHand(s.workers[0]) && Held(n.workers) == [t])
             && forall id: nat ::
                  && Count(Held(n.workers), id) == Count(Held(s.workers), id) + (if t.id == id then 1 else 0)
                  && Count(Taken(s) + [t], id) == Count(Taken(s), id) + (if t.id == id then 1 else 0)
    ensures Fifo(Take(s, w))
  {
    hide Count, Held, Conserved, Labelled, Sequential, Limits, CallOrder;
    assert Taken(Take(s, w)) == Taken(s) + [s.queue[0]];
  }

  lemma CountNone(id: nat)
    ensures Count([], id) == 0
  {}

  /** A worker with a new task, or none, in hand. */
  lemma HeldAfter(workers: seq<Worker>, w: nat, x: Worker, calls: seq<Operation>)
    requires w < |workers| && OwnOp(calls, Held(workers)) && OwnOp(calls, InHand(x))
    ensures OwnOp(calls, Held(workers[w := x]))
    ensures |workers| == 1 ==> Held(workers) == InHand(workers[0]) && Held(workers[w := x]) == InHand(x)
  {
    var after := workers[w := x];
    HeldSplit(workers, w);
    HeldSplit(after, w);
    assert after[..w] == workers[..w] && after[w + 1..] == workers[w + 1..];
    var front, back := Held(workers[..w]), Held(workers[w + 1..]);
    OwnOpConcat(calls, front + InHand(workers[w]), back);
    OwnOpConcat(calls, front, InHand(workers[w]));
    OwnOpConcat(calls, front, InHand(x));
    OwnOpConcat(calls, front + InHand(x), back);
  }

  lemma OwnOpConcat(calls: seq<Operation>, a: seq<Task>, b: seq<Task>)
    ensures OwnOp(calls, a + b) <==> OwnOp(calls, a) && OwnOp(calls, b)
  {
    assert a == (a + b)[..|a|] && b == (a + b)[|a|..];
  }

  lemma ExitKeeps<S>(setup: Setup<S>, s: State<S>, w: nat)
    requires Inv(setup, s) && w < |s.workers| && s.workers[w].Idle? && s.queue == [] && s.stopping
    ensures Inv(setup, Take(s, w))
  {
    hide Count, Held, Sequential, Fifo, Limits, CallOrder, Replay, Replies, Refusals;
    ExitCounts(s, w);
    HeldAfter(s.workers, w, Exited, s.calls);
    ExitElsewhere(setup, s, w);
    ExitFifo(setup, s, w);
    hide Labelled;
    var n := Take(s, w);
    forall id: nat ensures Places(n, id) == if id < |n.calls| then 1 else 0 {
      assert Places(n, id) == Places(s, id);
    }
  }

  lemma ExitCounts<S>(s: State<S>, w: nat)
    requires w < |s.workers| && s.workers[w].Idle? && s.queue == [] && s.stopping
    ensures forall id: nat :: Count(Held(Take(s, w).workers), id) == Count(Held(s.workers), id)
  {
    hide Count, Held;
    forall id: nat ensures Count(Held(Take(s, w).workers), id) == Count(Held(s.workers), id) {
      HeldUpdate(s.workers, w, Exited, id);
    }
  }

  lemma ExitElsewhere<S>(setup: Setup<S>, s: State<S>, w: nat)
    requires Inv(setup, s) && w < |s.workers| && s.workers[w].Idle? && s.queue == [] && s.stopping
    requires OwnOp(s.calls, Held(Take(s, w).workers))
    ensures var n := Take(s, w); Labelled(n) && Sequential(setup, n) && Limits(setup, n) && CallOrder(setup, n)
  {
    hide Count, Replay, Replies, Refusals, Held, Conserved, Fifo;
  }

  lemma ExitFifo<S>(setup: Setup<S>, s: State<S>, w: nat)
    requires Inv(setup, s) && w < |s.workers| && s.workers[w].Idle? && s.queue == [] && s.stopping
    requires |s.workers| == 1 ==> Held(s.workers) == InHand(s.workers[0]) && Held(Take(s, w).workers) == []
    requires forall id: nat :: Count(Held(Take(s, w).workers), id) == Count(Held(s.workers), id)
    ensures Fifo(Take(s, w))
  {
    hide Count, Held, Conserved, Labelled, Sequential, Limits, CallOrder;
    assert Taken(Take(s, w)) == Taken(s);
  }

  lemma WorkKeeps<S>(setup: Setup<S>, s: State<S>, w: nat)
    requires Inv(setup, s)
    ensures Inv(setup, Work(setup, s, w))
  {
    hide Labelled, Sequential, Conserved, Fifo;
    if w < |s.workers| && s.workers[w].Running? {
      WorkLabelled(setup, s, w);
      WorkConserved(setup, s, w);
      WorkSequential(setup, s, w);
      WorkFifo(setup, s, w);
    }
  }

  lemma WorkLabelled<S>(setup: Setup<S>, s: State<S>, w: nat)
    requires Labelled(s) && w < |s.workers| && s.workers[w].Running?
    ensures Labelled(Work(setup, s, w)) && s.workers[w].task.id < |s.calls|
  {
    hide Count, Held, Fulfilled, Settle;
    InHandIsHeld(s.workers, w, s.calls);
    HeldAfter(s.workers, w, Idle, s.calls);
  }

  lemma WorkFifo<S>(setup: Setup<S>, s: State<S>, w: nat)
    requires Labelled(s) && Fifo(s) && w < |s.workers| && s.workers[w].Running?
    requires var n := Work(setup, s, w);
             forall id: nat :: Count(Held(n.workers), id) + Count(n.executed, id) ==
                               Count(Held(s.workers), id) + Count(s.executed, id)
    ensures Fifo(Work(setup, s, w))
  {
    hide Count, Held, Fulfilled, Settle;
    HeldAfter(s.workers, w, Idle, s.calls);
    assert Taken(Work(setup, s, w)) == Taken(s);
  }

  /** A task in hand has been executed. */
  lemma Moved<S>(setup: Setup<S>, s: State<S>, w: nat, id: nat)
    requires w < |s.workers| && s.workers[w].Running?
    ensures var n, t := Work(setup, s, w), s.workers[w].task;
            && Count(Held(n.workers), id) + (if t.id == id then 1 else 0) == Count(Held(s.workers), id)
            && Count(n.executed, id) == Count(s.executed, id) + if t.id == id then 1 else 0
  {
    HeldUpdate(s.workers, w, Idle, id);
    CountNone(id);
    CountOne(s.workers[w].task, id);
    CountSnoc(s.executed, s.workers[w].task, id);
  }

  lemma WorkConserved<S>(setup: Setup<S>, s: State<S>, w: nat)
    requires w < |s.workers| && s.workers[w].Running? && Conserved(s)
    ensures var n := Work(setup, s, w);
            && Conserved(n) && Count(s.refused, s.workers[w].task.id) == 0
            && forall id: nat :: Count(Held(n.workers), id) + Count(n.executed, id) ==
                                 Count(Held(s.workers), id) + Count(s.executed, id)
  {
    hide Count, Held, Fulfilled, Settle;
    var n, t := Work(setup, s, w), s.workers[w].task;
    forall id: nat
      ensures Count(Held(n.workers), id) + Count(n.executed, id) == Count(Held(s.workers), id) + Count(s.executed, id)
    {
      Moved(setup, s, w, id);
    }
    assert forall id :: Places(n, id) == Places(s, id);
    Moved(setup, s, w, t.id);
    assert Places(s, t.id) <= 1;
  }

  lemma InHandIsHeld(workers: seq<Worker>, w: nat, calls: seq<Operation>)
    requires w < |workers| && workers[w].Running? && OwnOp(calls, Held(workers))
    ensures var t := workers[w].task; t.id < |calls| && t.op == calls[t.id]
  {
    HeldSplit(workers, w);
    OwnOpConcat(calls, Held(workers[..w]) + InHand(workers[w]), Held(workers[w + 1..]));
    OwnOpConcat(calls, Held(workers[..w]), InHand(workers[w]));
    assert InHand(workers[w])[0] == workers[w].task;
  }

  lemma WorkSequential<S>(setup: Setup<S>, s: State<S>, w: nat)
    requires Sequential(setup, s) && w < |s.workers| && s.workers[w].Running? && s.workers[w].task.id < |s.calls|
    requires Count(s.refused, s.workers[w].task.id) == 0
    ensures Sequential(setup, Work(setup, s, w))
  {
    var n, t := Work(setup, s, w), s.workers[w].task;
    assert n.executed[..|s.executed|] == s.executed;
    NoneYet(setup, s.refused, t.id);
  }

  // ---------------------------------------------------------------- every run

  lemma NextKeeps<S>(setup: Setup<S>, s: State<S>, step: Step)
    requires Inv(setup, s)
    ensures Inv(setup, Next(setup, s, step)) && |Next(setup, s, step).workers| == |s.workers|
  {
    hide Inv, Fulfilled, Refusal, Settle;
    match step
    case DoSubmit(op) => SubmitKeeps(setup, s, op);
    case DoRetry(i) => RetryKeeps(setup, s, i);
    case DoTake(w) => TakeKeeps(setup, s, w);
    case DoWork(w) => WorkKeeps(setup, s, w);
    case DoStop => StopKeeps(setup, s);
  }

  lemma StopKeeps<S>(setup: Setup<S>, s: State<S>)
    requires Inv(setup, s)
    ensures Inv(setup, s.(stopping := true))
  {
    hide Count, Held, Labelled;
    StopSequential(setup, s);
    hide Sequential;
    assert Taken(s.(stopping := true)) == Taken(s);
    assert forall id :: Places(s.(stopping := true), id) == Places(s, id);
  }

  lemma StopSequential<S>(setup: Setup<S>, s: State<S>)
    requires Sequential(setup, s) && Labelled(s)
    ensures Sequential(setup, s.(stopping := true)) && Labelled(s.(stopping := true))
  {}

  lemma {:induction false} RunKeeps<S>(setup: Setup<S>, s: State<S>, steps: seq<Step>)
    requires Inv(setup, s)
    ensures Inv(setup, Run(setup, s, steps)) && |Run(setup, s, steps).workers| == |s.workers|
    decreases |steps|
  {
    hide Inv, Next;
    if steps != [] {
      NextKeeps(setup, s, steps[0]);
      RunKeeps(setup, Next(setup, s, steps[0]), steps[1..]);
    }
  }

  lemma {:induction false} RepliesOnce<S>(setup: Setup<S>, tasks: seq<Task>, id: nat) returns (i: nat)
    requires Count(tasks, id) == 1
    ensures i < |tasks| && tasks[i].id == id && Replies(setup, tasks, id) == [ReplyAt(setup, tasks, i)]
  {
    i := |tasks| - 1;
    if tasks[i].id == id {
      NoneYet(setup, tasks[..i], id);
    } else {
      var front := tasks[..i];
      i := RepliesOnce(setup, front, id);
      assert front[..i] == tasks[..i];
    }
  }

  lemma {:induction false} RefusedOnce<S>(setup: Setup<S>, tasks: seq<Task>, id: nat) returns (i: nat)
    requires Count(tasks, id) == 1
    ensures i < |tasks| && tasks[i].id == id
    ensures Refusals(setup, tasks, id) == [Refusal(tasks[i].op, RefusalMsg(setup))]
  {
    i := |tasks| - 1;
    if tasks[i].id == id {
      NoneYet(setup, tasks[..i], id);
    } else {
      i := RefusedOnce(setup, tasks[..i], id);
    }
  }

  /** A call's own operation was the i-th to run, and its promise holds what it was answered. */
  ghost predicate AnsweredAs<S>(setup: Setup<S>, s: State<S>, id: nat, i: nat)
    requires id < |s.calls| == |s.promises|
  {
    i < |s.executed| && s.executed[i] == Task(id, s.calls[id]) && s.promises[id] == [ReplyAt(setup, s.executed, i)]
  }

  ghost predicate WasAnswered<S>(setup: Setup<S>, s: State<S>, id: nat)
    requires id < |s.calls| == |s.promises|
  {
    exists i :: AnsweredAs(setup, s, id, i)
  }

  lemma WhatPromisesHold<S>(setup: Setup<S>, s: State<S>, id: nat)
    requires Inv(setup, s) && id < |s.calls|
    ensures Open(s, id) + |s.promises[id]| == 1
    ensures Count(s.executed, id) > 0 ==> WasAnswered(setup, s, id)
    ensures Open(s, id) == 0 && Count(s.executed, id) == 0 ==>
              && (s.stopping || !setup.present)
              && s.promises[id] == [Refusal(s.calls[id], RefusalMsg(setup))]
  {
    hide Count, Held, Replay, Replies, ReplyAt, Refusals, Refusal, Fifo, CallOrder;
    assert Places(s, id) == 1;
    if Count(s.executed, id) > 0 {
      var i := RepliesOnce(setup, s.executed, id);
      NoneYet(setup, s.refused, id);
      assert AnsweredAs(setup, s, id, i);
    } else {
      NoneYet(setup, s.executed, id);
      if Open(s, id) == 0 {
        var i := RefusedOnce(setup, s.refused, id);
      } else {
        NoneYet(setup, s.refused, id);
      }
    }
  }

  /** In every interleaving every promise is set exactly once: not while the call waits, is queued
    or runs, then to what the storage answered when the call's turn came, an exception being turned into
    a failure, or to the refusal of a call made without a storage or too late. The storage has gone
    through `states`, one operation after the other. */
  lemma EveryPromiseOnce<S>(setup: Setup<S>, threads: nat, steps: seq<Step>, id: nat) returns (states: seq<S>)
    requires id < |Run(setup, Start(setup, threads), steps).calls|
    ensures var s := Run(setup, Start(setup, threads), steps);
            && |states| == |s.executed| + 1 && states[0] == setup.initial && states[|s.executed|] == s.storage
            && forall i :: 0 <= i < |s.executed| ==> states[i + 1] == setup.backend(states[i], s.executed[i].op).0
    ensures var s := Run(setup, Start(setup, threads), steps);
            var op := s.calls[id];
            var refusal := if setup.present then "AsyncStorageAdapter is shutting down"
                           else "AsyncStorageAdapter: storage is null";
            && |s.promises| == |s.calls|
            && (|| (Open(s, id) == 1 && s.promises[id] == [])
                || (Open(s, id) == 0 && exists i ::
                      && 0 <= i < |s.executed| && s.executed[i] == Task(id, op)
                      && s.promises[id] == [
                           var attempt := setup.backend(states[i], op).1;
                           if attempt.Returned? then attempt.reply
                           else
                             var message := if attempt.Threw? then attempt.what else "unknown exception";
                             match op
                             case Exists(_) => Flag(false)
                             case MGet(_) => Many([StorageResult(false, message, "")])
                             case _ => One(StorageResult(false, message, ""))])
                || (Open(s, id) == 0 && (s.stopping || !setup.present) &&
                    s.promises[id] == [
                      match op
                      case Exists(_) => Flag(false)
                      case MGet(keys) => Many(seq(|keys|, _ => StorageResult(false, refusal, "")))
                      case _ => One(StorageResult(false, refusal, ""))]))
  {
    hide Count, Held, Replay, Replies, ReplyAt, Refusals, Refusal, RefusalMsg;
    StartInv(setup, threads);
    RunKeeps(setup, Start(setup, threads), steps);
    var s := Run(setup, Start(setup, threads), steps);
    states := Replayed(setup, s.executed);
    assert s.executed[..|s.executed|] == s.executed;
    assert Places(s, id) == 1;
    WhatPromisesHold(setup, s, id);
    RefusalIs(setup, s.calls[id]);
    if Open(s, id) == 0 && Count(s.executed, id) > 0 {
      var i :| AnsweredAs(setup, s, id, i);
      ReplyIs(setup, s.executed, i);
    }
  }

  ghost function Submitted(steps: seq<Step>): seq<Operation> {
    if steps == [] then []
    else (if steps[0].DoSubmit? then [steps[0].op] else []) + Submitted(steps[1..])
  }

  /** The calls are those submitted, in order, with their operations. */
  lemma {:induction false} CallsAreSubmitted<S>(setup: Setup<S>, s: State<S>, steps: seq<Step>)
    ensures Run(setup, s, steps).calls == s.calls + Submitted(steps)
    decreases |steps|
  {
    if steps != [] {
      CallsAreSubmitted(setup, Next(setup, s, steps[0]), steps[1..]);
    }
  }

  lemma QueueStaysBounded<S>(setup: Setup<S>, threads: nat, steps: seq<Step>)
    requires setup.maxQueueSize > 0
    ensures |Run(setup, Start(setup, threads), steps).queue| <= setup.maxQueueSize
  {
    StartInv(setup, threads);
    RunKeeps(setup, Start(setup, threads), steps);
  }

  /** Corollary: a call waits only if the queue is at its limit, and is refused only after a stop or
    without a storage. */
  lemma WaitsOnlyIfFull<S>(setup: Setup<S>, threads: nat, steps: seq<Step>, op: Operation)
    ensures var s := Run(setup, Start(setup, threads), steps);
            var n := Submit(setup, s, op);
            && (n.waiting != s.waiting ==> |s.queue| == setup.maxQueueSize > 0)
            && (n.refused != s.refused ==> s.stopping || !setup.present)
  {
    StartInv(setup, threads);
    RunKeeps(setup, Start(setup, threads), steps);
  }

  lemma OneWorkerState<S>(setup: Setup<S>, s: State<S>, i: nat)
    requires Inv(setup, s) && |s.workers| == 1 && i < |s.executed|
    ensures s.executed == s.accepted[..|s.executed|] && s.storage == Replay(setup, s.executed)
    ensures var t := s.accepted[i];
            t.id < |s.calls| && t.op == s.calls[t.id] && s.promises[t.id] == [ReplyAt(setup, s.accepted, i)]
  {
    hide Count, Held, Replay, Replies, ReplyAt, Refusals, Refusal;
    assert Taken(s)[..|s.executed|] == s.executed;
    assert s.accepted[..|s.executed|] == s.executed;
    var t := s.executed[i];
    CountIn(s.executed, i);
    assert Places(s, t.id) == 1;
    NoneYet(setup, s.refused, t.id);
    var k := RepliesOnce(setup, s.executed, t.id);
    SamePlace(s.executed, i, k);
    SamePrefix(setup, s.accepted, s.executed, i);
  }

  lemma SamePrefix<S>(setup: Setup<S>, a: seq<Task>, b: seq<Task>, i: nat)
    requires i < |b| <= |a| && b == a[..|b|]
    ensures ReplyAt(setup, a, i) == ReplyAt(setup, b, i)
  {
    assert a[..i] == b[..i];
  }

  lemma SamePlace(tasks: seq<Task>, i: nat, k: nat)
    requires i < |tasks| && k < |tasks| && tasks[i].id == tasks[k].id && Count(tasks, tasks[i].id) == 1
    ensures i == k
  {
    if i != k {
      CountWithout(tasks, i, tasks[i].id);
      var others := tasks[..i] + tasks[i + 1..];
      CountIn(others, if k < i then k else k - 1);
    }
  }

  /** With one worker the storage and every answer are those of running the accepted operations one
    after the other, in the order in which the queue took them; without a queue limit that is the
    order of the calls. */
  lemma OneWorkerIsSequential<S>(setup: Setup<S>, steps: seq<Step>) returns (states: seq<S>)
    ensures var s := Run(setup, Start(setup, 1), steps);
            var done := |s.executed|;
            && done <= |s.accepted| && |s.promises| == |s.calls|
            && |states| == done + 1 && states[0] == setup.initial && states[done] == s.storage
            && (forall i :: 0 <= i < done ==> states[i + 1] == setup.backend(states[i], s.accepted[i].op).0)
            && (forall i :: 0 <= i < done ==>
                  var t := s.accepted[i];
                  && t.id < |s.calls| && t.op == s.calls[t.id]
                  && s.promises[t.id] == [
                       var attempt := setup.backend(states[i], t.op).1;
                       if attempt.Returned? then attempt.reply
                       else
                         var message := if attempt.Threw? then attempt.what else "unknown exception";
                         match t.op
                         case Exists(_) => Flag(false)
                         case MGet(_) => Many([StorageResult(false, message, "")])
                         case _ => One(StorageResult(false, message, ""))])
            && (setup.maxQueueSize == 0 ==>
                  forall i, j :: 0 <= i < j < |s.accepted| ==> s.accepted[i].id < s.accepted[j].id)
  {
    hide Count, Held, Replay, Replies, ReplyAt, Refusals, Refusal;
    StartInv(setup, 1);
    RunKeeps(setup, Start(setup, 1), steps);
    var s := Run(setup, Start(setup, 1), steps);
    assert Taken(s)[..|s.executed|] == s.executed;
    assert s.accepted[..|s.executed|] == s.executed;
    states := Replayed(setup, s.executed);
    assert s.executed[..|s.executed|] == s.executed;
    forall i | 0 <= i < |s.executed|
      ensures var t := s.accepted[i];
                  && t.id < |s.calls| && t.op == s.calls[t.id]
                  && s.promises[t.id] == [
                       var attempt := setup.backend(states[i], t.op).1;
                       if attempt.Returned? then attempt.reply
                       else
                         var message := if attempt.Threw? then attempt.what else "unknown exception";
                         match t.op
                         case Exists(_) => Flag(false)
                         case MGet(_) => Many([StorageResult(false, message, "")])
                         case _ => One(StorageResult(false, message, ""))]
    {
      OneWorkerState(setup, s, i);
      SamePrefix(setup, s.accepted, s.executed, i);
      ReplyIs(setup, s.executed, i);
    }
  }

  // ---------------------------------------------------------------- draining

  ghost predicate AllExited<S>(s: State<S>) {
    forall w :: 0 <= w < |s.workers| ==> s.workers[w].Exited?
  }

  lemma Drained<S>(setup: Setup<S>, s: State<S>)
    requires Inv(setup, s) && s.workers != [] && AllExited(s)
    ensures s.queue == [] && Held(s.workers) == []
    ensures forall k :: 0 <= k < |s.accepted| ==> WasAnswered(setup, s, s.accepted[k].id)
    ensures |s.workers| == 1 ==> s.executed == s.accepted
  {
    hide Inv, Count, Held, WasAnswered;
    QueueEmpty(setup, s);
    NothingHeld(s.workers);
    AllRun(setup, s);
    forall k | 0 <= k < |s.accepted| ensures WasAnswered(setup, s, s.accepted[k].id) {
      WhatPromisesHold(setup, s, s.accepted[k].id);
    }
  }

  lemma QueueEmpty<S>(setup: Setup<S>, s: State<S>)
    requires Inv(setup, s) && s.workers != [] && AllExited(s)
    ensures s.queue == []
  {
    hide Conserved, Labelled, Sequential, Fifo, CallOrder;
    assert s.workers[0].Exited?;
  }

  lemma AllRun<S>(setup: Setup<S>, s: State<S>)
    requires Inv(setup, s) && s.queue == [] && Held(s.workers) == []
    ensures |s.promises| == |s.calls|
    ensures forall k :: 0 <= k < |s.accepted| ==> s.accepted[k].id < |s.calls| && Count(s.executed, s.accepted[k].id) > 0
    ensures |s.workers| == 1 ==> s.executed == s.accepted
  {
    hide Count, Held, Conserved, Replay, Replies, Refusals, Limits, CallOrder;
    assert Taken(s) == s.accepted;
    forall k | 0 <= k < |s.accepted| ensures Count(s.executed, s.accepted[k].id) > 0 {
      CountIn(s.accepted, k);
      CountNone(s.accepted[k].id);
    }
  }

  /** When all workers, at least one, have exited, the queue is empty and every accepted task has
    run and been answered; a call not answered is still waiting at the queue. */
  lemma NothingLeftUnrun<S>(setup: Setup<S>, threads: nat, steps: seq<Step>)
    requires threads > 0 && AllExited(Run(setup, Start(setup, threads), steps))
    ensures var s := Run(setup, Start(setup, threads), steps);
            && s.queue == [] && |s.promises| == |s.calls|
            && (forall k :: 0 <= k < |s.accepted| ==>
                  s.accepted[k].id < |s.calls| && WasAnswered(setup, s, s.accepted[k].id))
            && (threads == 1 ==> s.executed == s.accepted)
            && (forall id :: 0 <= id < |s.calls| && s.promises[id] == [] ==> Count(s.waiting, id) == 1)
  {
    hide Count, Held, Replay, Replies, ReplyAt, Refusals, Refusal;
    StartInv(setup, threads);
    RunKeeps(setup, Start(setup, threads), steps);
    var s := Run(setup, Start(setup, threads), steps);
    Drained(setup, s);
    StillWaiting(setup, s);
  }

  /** What is left to do after a stop. */
  ghost function Left<S>(s: State<S>): nat {
    2 * |s.queue| + Busy(s.workers) + |s.waiting|
  }

  ghost function Busy(workers: seq<Worker>): nat {
    if workers == [] then 0
    else (if workers[0].Running? then 2 else if workers[0].Idle? then 1 else 0) + Busy(workers[1..])
  }

  lemma {:induction false} BusyUpdate(workers: seq<Worker>, w: nat, x: Worker)
    requires w < |workers|
    ensures Busy(workers[w := x]) - Busy([x]) == Busy(workers) - Busy([workers[w]])
  {
    var after := workers[w := x];
    if w == 0 {
      assert after[1..] == workers[1..];
      assert Busy([]) == 0;
    } else {
      assert after[1..] == workers[1..][w - 1 := x];
      BusyUpdate(workers[1..], w - 1, x);
    }
  }

  lemma BusyOne(w: Worker)
    ensures Busy([w]) == if w.Running? then 2 else if w.Idle? then 1 else 0
  {
    assert [w][1..] == [];
  }

  lemma {:induction false} BusyZero(workers: seq<Worker>)
    ensures Busy(workers) == 0 <==> forall w :: 0 <= w < |workers| ==> workers[w].Exited?
  {
    if workers != [] {
      BusyZero(workers[1..]);
      assert forall w :: 1 <= w < |workers| ==> workers[w] == workers[1..][w - 1];
    }
  }

  /** After a stop every step of a worker or a waiting submitter that does anything brings the end
    nearer by one, so that no schedule goes on for ever. */
  lemma EveryStepDrains<S>(setup: Setup<S>, s: State<S>, step: Step)
    requires s.stopping && setup.present && !step.DoSubmit?
    ensures Next(setup, s, step) == s || Left(Next(setup, s, step)) == Left(s) - 1
    ensures Next(setup, s, step).stopping
  {
    hide Busy, Settle, Fulfilled, Refusal;
    match step
    case DoTake(w) =>
      if w < |s.workers| && s.workers[w].Idle? {
        var x := Next(setup, s, step).workers[w];
        BusyUpdate(s.workers, w, x);
        BusyOne(x);
        BusyOne(Idle);
      }
    case DoWork(w) =>
      if w < |s.workers| && s.workers[w].Running? {
        BusyUpdate(s.workers, w, Idle);
        BusyOne(s.workers[w]);
        BusyOne(Idle);
      }
    case _ =>
  }

  /** After a stop a worker that has not exited always has something to do. */
  lemma WorkerDrains<S>(setup: Setup<S>, s: State<S>, w: nat)
    requires s.stopping && w < |s.workers| && !s.workers[w].Exited?
    ensures var n := if s.workers[w].Idle? then Take(s, w) else Work(setup, s, w);
            Left(n) == Left(s) - 1 && n.stopping
  {
    hide Busy, Settle, Fulfilled;
    var x := (if s.workers[w].Idle? then Take(s, w) else Work(setup, s, w)).workers[w];
    BusyUpdate(s.workers, w, x);
    BusyOne(x);
    BusyOne(s.workers[w]);
  }

  /** As long as anything is left after a stop, some step can be taken: the shutdown never hangs. */
  lemma SomeStepDrains<S>(setup: Setup<S>, s: State<S>) returns (step: Step)
    requires Inv(setup, s) && s.stopping && s.workers != [] && Left(s) > 0
    ensures !step.DoSubmit? && Left(Next(setup, s, step)) == Left(s) - 1
  {
    hide Count, Held, Replay, Replies, ReplyAt, Refusals, Refusal, Busy, Settle, Fulfilled;
    BusyZero(s.workers);
    if w :| 0 <= w < |s.workers| && !s.workers[w].Exited? {
      step := if s.workers[w].Idle? then DoTake(w) else DoWork(w);
      WorkerDrains(setup, s, w);
    } else {
      assert s.workers[0].Exited?;
      step := DoRetry(0);
    }
  }
  // ---------------------------------------------------------------- the adapter object

  datatype Entry = Admitted | Rejected | Blocked

  class AsyncStorageAdapter<S> {
    const setup: Setup<S>
    var tasks: seq<Task>
    var stopping: bool
    var workers: seq<Worker>
    /** Submitters blocked in enqueue, each with the task it brought. */
    var waiting: seq<Task>
    var storage: S
    /** The promises of all calls so far, with what each was set to. */
    var promises: seq<seq<Reply>>
    ghost var calls: seq<Operation>
    ghost var accepted: seq<Task>
    ghost var executed: seq<Task>
    ghost var refused: seq<Task>

    ghost function Current(): State<S>
      reads this
    {
      State(tasks, stopping, workers, waiting, storage, calls, promises, accepted, executed, refused)
    }

    ghost predicate Valid()
      reads this
    {
      Inv(setup, Current())
    }

    constructor (setup: Setup<S>, numThreads: nat)
      ensures this.setup == setup && Valid() && Current() == Start(setup, numThreads)
    {
      this.setup := setup;
      tasks, stopping, workers, waiting, storage, promises := [], false, [], [], setup.initial, [];
      calls, accepted, executed, refused := [], [], [], [];
      new;
      for i := 0 to numThreads
        invariant workers == seq(i, _ => Idle)
        invariant Current().(workers := []) == Start(setup, 0) && this.setup == setup
      {
        workers := workers + [Idle];
      }
      StartInv(setup, numThreads);
    }

    /** The region of enqueue under the lock, up to where it returns or blocks. */
    method Enqueue(t: Task) returns (entry: Entry)
      modifies `tasks, `waiting, `accepted
      ensures entry == if stopping then Rejected else if HasRoom(setup, old(tasks)) then Admitted else Blocked
      ensures entry.Rejected? ==> Current() == old(Current())
      ensures entry.Admitted? ==> Current() == Push(old(Current()), t)
      ensures entry.Blocked? ==> Current() == old(Current()).(waiting := old(waiting) + [t])
    {
      if stopping {
        return Rejected;
      }
      if setup.maxQueueSize > 0 {
        if |tasks| >= setup.maxQueueSize {
          waiting := waiting + [t];
          return Blocked;
        }
      }
      tasks := tasks + [t];
      accepted := accepted + [t];
      return Admitted;
    }

    method SetValue(id: nat, reply: Reply)
      requires id < |promises|
      modifies `promises
      ensures promises == Settle(old(promises), id, reply)
    {
      promises := promises[id := promises[id] + [reply]];
    }

    /** The Future-style operations: the promise is made, then set at once if there is no storage
      or enqueue says no. */
    method AsyncCall(op: Operation) returns (future: nat)
      requires Valid()
      modifies this
      ensures Valid() && Current() == Submit(setup, old(Current()), op) && future == old(|promises|)
      ensures calls == old(calls) + [op] && |promises| == future + 1
    {
      hide Inv, Refusal;
      SubmitKeeps(setup, Current(), op);
      PromiseEach(setup, Current());
      future := |promises|;
      promises := promises + [[]];
      ghost var t := Task(future, op);
      calls := calls + [op];
      if !setup.present {
        SetValue(future, Refusal(op, NULL_STORAGE_MSG));
        refused := refused + [t];
        return;
      }
      var entry := Enqueue(Task(future, op));
      if entry.Rejected? {
        SetValue(future, Refusal(op, SHUTDOWN_MSG));
        refused := refused + [t];
      }
    }

    /** A blocked submitter is woken: it looks at the queue again and goes on if it may. */
    method Wake(i: nat)
      requires Valid() && i < |waiting|
      modifies this
      ensures Valid() && Current() == Retry(setup, old(Current()), i)
    {
      hide Inv, Refusal;
      RetryKeeps(setup, Current(), i);
      NoStorageNoWaiting(setup, Current(), i);
      if !stopping && !HasRoom(setup, tasks) {
        return;
      }
      var t := waiting[i];
      waiting := waiting[..i] + waiting[i + 1..];
      var entry := Enqueue(t);
      if entry.Rejected? {
        SetValue(t.id, Refusal(t.op, SHUTDOWN_MSG));
        refused := refused + [t];
      }
    }

    /** The region of worker_loop under the lock. */
    method WorkerTake(w: nat)
      requires Valid() && w < |workers| && workers[w].Idle?
      modifies this
      ensures Valid() && Current() == Take(old(Current()), w)
    {
      hide Inv;
      TakeKeeps(setup, Current(), w);
      if !stopping && tasks == [] {
        return;
      }
      if tasks == [] {
        workers := workers[w := Exited];
        return;
      }
      workers := workers[w := Running(tasks[0])];
      tasks := tasks[1..];
    }

    /** task(): the storage is called and the promise set, outside the lock. */
    method WorkerRun(w: nat)
      requires Valid() && w < |workers| && workers[w].Running?
      modifies this
      ensures Valid() && Current() == Work(setup, old(Current()), w)
      ensures var t := old(workers)[w].task;
              var attempt := setup.backend(old(storage), t.op).1;
              var message := if attempt.Threw? then attempt.what else "unknown exception";
              var reply := if attempt.Returned? then attempt.reply
                           else match t.op
                                case Exists(_) => Flag(false)
                                case MGet(_) => Many([StorageResult(false, message, "")])
                                case _ => One(StorageResult(false, message, ""));
              && storage == setup.backend(old(storage), t.op).0 && executed == old(executed) + [t]
              && t.id < |old(promises)| && promises == old(promises)[t.id := old(promises)[t.id] + [reply]]
    {
      hide Inv, Fulfilled;
      WorkKeeps(setup, Current(), w);
      HeldHasPromise(setup, Current(), w);
      var t := workers[w].task;
      var (after, attempt) := setup.backend(storage, t.op);
      FulfilledIs(t.op, attempt);
      storage := after;
      SetValue(t.id, Fulfilled(t.op, attempt));
      executed := executed + [t];
      workers := workers[w := Idle];
    }

    /** The destructor: stops, and joins the workers. Until all have exited they and the submitters
      still blocked in enqueue go on, in any order. */
    method Destroy()
      requires Valid()
      modifies this
      ensures Valid() && AllExited(Current()) && stopping
      ensures accepted == old(accepted) && calls == old(calls)
      ensures workers != [] ==> tasks == [] && forall k :: 0 <= k < |accepted| ==>
                accepted[k].id < |calls| == |promises| && WasAnswered(setup, Current(), accepted[k].id)
      ensures workers != [] ==> forall id :: 0 <= id < |promises| && promises[id] == [] ==> Count(waiting, id) == 1
      ensures |workers| == 1 ==> executed == accepted && storage == Replay(setup, accepted)
    {
      StopKeeps(setup, Current());
      stopping := true;
      while exists w :: 0 <= w < |workers| && !workers[w].Exited?
        invariant Valid() && stopping && accepted == old(accepted) && calls == old(calls)
        decreases Left(Current())
      {
        var w :| 0 <= w < |workers| && !workers[w].Exited?;
        if
        case true => WorkerGoesOn(w);
        case waiting != [] => var i :| 0 <= i < |waiting|; SubmitterGoesOn(i);
      }
      if workers != [] {
        Drained(setup, Current());
        StillWaiting(setup, Current());
      }
    }

    method WorkerGoesOn(w: nat)
      requires Valid() && stopping && w < |workers| && !workers[w].Exited?
      modifies this
      ensures Valid() && stopping && accepted == old(accepted) && calls == old(calls)
      ensures Left(Current()) == old(Left(Current())) - 1
    {
      hide Inv, Fulfilled;
      WorkerDrains(setup, Current(), w);
      if workers[w].Idle? {
        WorkerTake(w);
      } else {
        WorkerRun(w);
      }
    }

    method SubmitterGoesOn(i: nat)
      requires Valid() && stopping && i < |waiting|
      modifies this
      ensures Valid() && stopping && accepted == old(accepted) && calls == old(calls)
      ensures Left(Current()) == old(Left(Current())) - 1
    {
      NoStorageNoWaiting(setup, Current(), i);
      hide Inv, Refusal;
      Wake(i);
    }
  }

  /** With all workers gone, a call without an answer is still waiting. */
  lemma StillWaiting<S>(setup: Setup<S>, s: State<S>)
    requires Inv(setup, s) && s.queue == [] && Held(s.workers) == []
    ensures |s.promises| == |s.calls|
    ensures forall id :: 0 <= id < |s.calls| && s.promises[id] == [] ==> Count(s.waiting, id) == 1
  {
    hide Count, Held, Replay, Replies, ReplyAt, Refusals, Refusal;
    forall id | 0 <= id < |s.calls| && s.promises[id] == [] ensures Count(s.waiting, id) == 1 {
      WhatPromisesHold(setup, s, id);
      CountNone(id);
    }
  }

  lemma NoStorageNoWaiting<S>(setup: Setup<S>, s: State<S>, i: nat)
    requires Inv(setup, s) && i < |s.waiting|
    ensures setup.present && s.waiting[i].id < |s.promises|
  {}

  lemma PromiseEach<S>(setup: Setup<S>, s: State<S>)
    requires Inv(setup, s)
    ensures |s.promises| == |s.calls|
  {}

  lemma HeldHasPromise<S>(setup: Setup<S>, s: State<S>, w: nat)
    requires Inv(setup, s) && w < |s.workers| && s.workers[w].Running?
    ensures s.workers[w].task.id < |s.promises|
  {
    InHandIsHeld(s.workers, w, s.calls);
  }
}
