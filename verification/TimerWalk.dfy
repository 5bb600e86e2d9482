/** When does the walk of process_slot end? This module follows the walk step by step, with callbacks
  that arm and cancel timers as they like, and does not assume that it ends. */
module TimerWalks {
  import opened TimerFiling
  import opened Arithmetic

  /** What the walk reads of a task in the slot. */
  datatype Entry = Entry(id: nat, rounds: int, cancelled: bool, interval: int)

  /** The slot list, the position of the iterator in it or its end, and the counters of the wheel. */
  datatype Walk = Walk(list: seq<Entry>, at: nat, runs: nat, nextId: nat)

  predicate Ended(w: Walk) {
    w.at >= |w.list|
  }

  /** The wheel the walk happens in, and what its callbacks ask for, as in TimerWheels. */
  datatype Setting = Setting(width: seq<int>, size: int, react: (nat, nat) -> seq<Request>) {
    ghost predicate Ok() { 1 < |width| && 0 < width[0] && 1 < size }
  }

  /** A timer armed now is filed into the very slot being walked. */
  predicate LandsHere(s: Setting, delay: int)
    requires s.Ok()
  {
    var k := LayerFor(s.width, s.size, delay, 0);
    k == 0 && (delay / s.width[0]) % s.size == 0
  }

  lemma LandsHereWhenShort(s: Setting, delay: int)
    requires s.Ok() && 0 < delay
    ensures LandsHere(s, delay) <==> delay < s.width[0]
  {
    var w := s.width[0];
    MulMono(1, s.size, w);
    if delay < w {
      DivUnique(delay, w, 0, delay);
    } else if delay < w * s.size {
      WithinTurn(delay, w, s.size);
    }
  }

  // ---------------------------------------------------------------- steps

  /** add_timer and cancel_timer, as far as the slot list is concerned. An iterator at the end of the
    list stays at the end when the list grows. */
  function Served(s: Setting, w: Walk, request: Request): Walk
    requires s.Ok()
  {
    match request
    case Arm(delay, repeat) =>
      if delay <= 0 then w
      else if LandsHere(s, delay) then
        var list := w.list + [Entry(w.nextId, 0, false, if repeat then delay else 0)];
        w.(list := list, at := if Ended(w) then |list| else w.at, nextId := w.nextId + 1)
      else w.(nextId := w.nextId + 1)
    case Cancel(id) => w.(list := Revoked(w.list, id))
  }

  function Revoked(list: seq<Entry>, id: nat): (r: seq<Entry>)
    ensures |r| == |list|
    ensures forall i :: 0 <= i < |list| ==> r[i] == if list[i].id == id then list[i].(cancelled := true) else list[i]
  {
    seq(|list|, i requires 0 <= i < |list| => if list[i].id == id then list[i].(cancelled := true) else list[i])
  }

  function ServedAll(s: Setting, w: Walk, requests: seq<Request>): Walk
    requires s.Ok()
    decreases |requests|
  {
    if requests == [] then w else ServedAll(s, Served(s, w, requests[0]), requests[1..])
  }

  lemma ServedNext(s: Setting, w: Walk, requests: seq<Request>, i: nat)
    requires s.Ok() && i < |requests|
    ensures ServedAll(s, w, requests[i..]) == ServedAll(s, Served(s, w, requests[i]), requests[i + 1..])
  {
    assert requests[i..][0] == requests[i] && requests[i..][1..] == requests[i + 1..];
  }

  function Erased(w: Walk): seq<Entry>
    requires !Ended(w)
  {
    w.list[..w.at] + w.list[w.at + 1..]
  }

  /** The next step runs a callback. */
  predicate Due(w: Walk) {
    !Ended(w) && !w.list[w.at].cancelled && w.list[w.at].rounds <= 0
  }

  function Requests(s: Setting, w: Walk): seq<Request>
    requires Due(w)
  {
    s.react(w.list[w.at].id, w.runs)
  }

  /** Re-arming and erasing the task at hand, before its callback runs. */
  function Fired(s: Setting, w: Walk): Walk
    requires s.Ok() && Due(w)
  {
    var task := w.list[w.at];
    var again := if task.interval > 0 && LandsHere(s, task.interval) then [Entry(task.id, 0, false, task.interval)] else [];
    w.(list := Erased(w) + again, runs := w.runs + 1)
  }

  /** One iteration of the loop. */
  function Step(s: Setting, w: Walk): Walk
    requires s.Ok()
  {
    if Ended(w) then w
    else
      var task := w.list[w.at];
      if task.cancelled then w.(list := Erased(w))
      else if task.rounds > 0 then w.(list := w.list[w.at := task.(rounds := task.rounds - 1)], at := w.at + 1)
      else ServedAll(s, Fired(s, w), Requests(s, w))
  }

  function Steps(s: Setting, w: Walk, n: nat): Walk
    requires s.Ok()
    decreases n
  {
    if n == 0 then w else Steps(s, Step(s, w), n - 1)
  }

  /** The timer whose callback the next step runs, if any, and those of the next `n` steps in order. */
  function RunNow(w: Walk): seq<nat> {
    if Due(w) then [w.list[w.at].id] else []
  }

  function Runs(s: Setting, w: Walk, n: nat): seq<nat>
    requires s.Ok()
    decreases n
  {
    if n == 0 then [] else RunNow(w) + Runs(s, Step(s, w), n - 1)
  }

  ghost predicate Ends(s: Setting, w: Walk)
    requires s.Ok()
  {
    exists n: nat :: Ended(Steps(s, w, n))
  }

  // ---------------------------------------------------------------- what keeps a walk going

  /** A due repeat task whose interval is shorter than the base tick. */
  predicate Short(tick: int, task: Entry) {
    !task.cancelled && task.rounds <= 0 && 0 < task.interval < tick
  }

  /** Timer `id` is a due short repeat still to be walked. */
  ghost predicate ShortAhead(s: Setting, w: Walk, id: nat)
    requires s.Ok()
  {
    exists i :: w.at <= i < |w.list| && w.list[i].id == id && Short(s.width[0], w.list[i])
  }

  predicate Hasty(tick: int, request: Request) {
    request.Arm? && 0 < request.delay < tick
  }

  /** The next step runs a callback that arms a timer for less than the base tick. */
  ghost predicate Impatient(s: Setting, w: Walk)
    requires s.Ok()
  {
    Due(w) && exists i :: 0 <= i < |Requests(s, w)| && Hasty(s.width[0], Requests(s, w)[i])
  }

  /** The next step runs a callback that cancels timer `id`. */
  ghost predicate Cancels(s: Setting, w: Walk, id: nat) {
    Due(w) && Cancel(id) in Requests(s, w)
  }

  /** Serving a callback's requests keeps the listed entries, cancels those asked for, and appends. */
  lemma {:induction false} ServedEntries(s: Setting, w: Walk, requests: seq<Request>)
    requires s.Ok()
    ensures var v := ServedAll(s, w, requests);
            && Ended(v) == Ended(w) && (!Ended(w) ==> v.at == w.at) && |w.list| <= |v.list|
            && forall i :: 0 <= i < |w.list| ==>
                 v.list[i] == if Cancel(w.list[i].id) in requests then w.list[i].(cancelled := true) else w.list[i]
    decreases |requests|
  {
    if requests != [] {
      ServedEntries(s, Served(s, w, requests[0]), requests[1..]);
      assert requests == [requests[0]] + requests[1..];
      hide LandsHere;
    }
  }

  /** Patient requests append nothing. */
  lemma {:induction false} ServedPatient(s: Setting, w: Walk, requests: seq<Request>)
    requires s.Ok()
    requires forall i :: 0 <= i < |requests| ==> !Hasty(s.width[0], requests[i])
    ensures |ServedAll(s, w, requests).list| == |w.list|
    decreases |requests|
  {
    if requests != [] {
      if requests[0].Arm? && 0 < requests[0].delay { LandsHereWhenShort(s, requests[0].delay); }
      ServedPatient(s, Served(s, w, requests[0]), requests[1..]);
    }
  }

  /** A due short repeat stays in the walk until some callback cancels it. */
  lemma ShortStays(s: Setting, w: Walk, id: nat)
    requires s.Ok() && ShortAhead(s, w, id) && !Cancels(s, w, id)
    ensures ShortAhead(s, Step(s, w), id)
  {
    var i :| w.at <= i < |w.list| && w.list[i].id == id && Short(s.width[0], w.list[i]);
    var v := Step(s, w);
    if Due(w) {
      var f := Fired(s, w);
      if i == w.at { LandsHereWhenShort(s, w.list[i].interval); }
      ServedEntries(s, f, Requests(s, w));
      hide LandsHere, ServedAll;
      var j := if i == w.at then |f.list| - 1 else i - 1;
      assert f.list[j].id == id && Short(s.width[0], f.list[j]);
      assert v.list[j].id == id && Short(s.width[0], v.list[j]);
    } else {
      var j := if w.list[w.at].cancelled then i - 1 else i;
      assert v.list[j] == w.list[i];
    }
  }

  /** A patient step brings no short repeat into the walk, gets rid of those it cancels, and gets
    on unless the task at hand is a short repeat. */
  lemma PatientStep(s: Setting, w: Walk, id: nat)
    requires s.Ok() && !Ended(w) && !Impatient(s, w)
    ensures var v := Step(s, w);
            && (ShortAhead(s, v, id) ==> ShortAhead(s, w, id) && !Cancels(s, w, id))
            && (Short(s.width[0], w.list[w.at]) || Ended(v) || |v.list| - v.at == |w.list| - w.at - 1)
  {
    var v := Step(s, w);
    if Due(w) {
      PatientRun(s, w, id);
    } else if ShortAhead(s, v, id) {
      var j :| v.at <= j < |v.list| && v.list[j].id == id && Short(s.width[0], v.list[j]);
      var i := if w.list[w.at].cancelled then j + 1 else j;
      assert w.list[i] == v.list[j];
    }
  }

  lemma PatientRun(s: Setting, w: Walk, id: nat)
    requires s.Ok() && Due(w) && !Impatient(s, w)
    ensures var v := Step(s, w);
            && (ShortAhead(s, v, id) ==> ShortAhead(s, w, id) && !Cancels(s, w, id))
            && (Short(s.width[0], w.list[w.at]) || Ended(v) || |v.list| - v.at == |w.list| - w.at - 1)
  {
    PatientRequests(s, w);
    hide LandsHere, ServedAll, Impatient;
    var task := w.list[w.at];
    if task.interval > 0 { LandsHereWhenShort(s, task.interval); }
    var f, v := Fired(s, w), Step(s, w);
    ServedPatient(s, f, Requests(s, w));
    ServedEntries(s, f, Requests(s, w));
    if ShortAhead(s, v, id) {
      var j :| v.at <= j < |v.list| && v.list[j].id == id && Short(s.width[0], v.list[j]);
      assert f.list[j] == v.list[j];
      var i := if j < |w.list| - 1 then j + 1 else w.at;
      assert w.list[i].id == id && Short(s.width[0], w.list[i]);
    }
  }

  // ---------------------------------------------------------------- walks that end

  ghost predicate PatientFrom(s: Setting, w: Walk)
    requires s.Ok()
  {
    forall m: nat :: !Impatient(s, Steps(s, w, m))
  }

  ghost predicate PatientInTheEnd(s: Setting, w: Walk)
    requires s.Ok()
  {
    exists k: nat :: PatientFrom(s, Steps(s, w, k))
  }

  ghost predicate AllCancelled(s: Setting, w: Walk)
    requires s.Ok()
  {
    forall m: nat, id :: ShortAhead(s, Steps(s, w, m), id) ==> exists n: nat :: m <= n && Cancels(s, Steps(s, w, n), id)
  }

  lemma {:induction false} StepsAdd(s: Setting, w: Walk, m: nat, n: nat)
    requires s.Ok()
    ensures Steps(s, Steps(s, w, m), n) == Steps(s, w, m + n)
    decreases m
  {
    if m > 0 { StepsAdd(s, Step(s, w), m - 1, n); }
  }

  lemma StepAfter(s: Setting, w: Walk, n: nat)
    requires s.Ok()
    ensures Steps(s, w, n + 1) == Step(s, Steps(s, w, n))
  {
    StepsAdd(s, w, n, 1);
    assert Steps(s, Steps(s, w, n), 1) == Steps(s, Step(s, Steps(s, w, n)), 0);
  }

  lemma {:induction false} EndedStays(s: Setting, w: Walk, n: nat)
    requires s.Ok() && Ended(w)
    ensures Steps(s, w, n) == w
    decreases n
  {
    if n > 0 { EndedStays(s, Step(s, w), n - 1); }
  }

  lemma {:induction false} RunsAdd(s: Setting, w: Walk, m: nat, n: nat)
    requires s.Ok()
    ensures Runs(s, w, m + n) == Runs(s, w, m) + Runs(s, Steps(s, w, m), n)
    decreases m
  {
    hide Step, RunNow;
    if m > 0 { RunsAdd(s, Step(s, w), m - 1, n); }
  }

  lemma {:induction false} NoRunsAtEnd(s: Setting, w: Walk, n: nat)
    requires s.Ok() && (Ended(w) || n == 0)
    ensures Runs(s, w, n) == []
    decreases n
  {
    if n > 0 { NoRunsAtEnd(s, Step(s, w), n - 1); }
  }

  /** What holds of the walk from some step on holds from every later one on. */
  lemma LaterToo(s: Setting, w: Walk, k: nat)
    requires s.Ok()
    ensures PatientFrom(s, w) ==> PatientFrom(s, Steps(s, w, k))
    ensures AllCancelled(s, w) ==> AllCancelled(s, Steps(s, w, k))
  {
    var v := Steps(s, w, k);
    if PatientFrom(s, w) {
      forall m: nat ensures !Impatient(s, Steps(s, v, m)) { StepsAdd(s, w, k, m); }
    }
    if AllCancelled(s, w) {
      forall m: nat, id | ShortAhead(s, Steps(s, v, m), id)
        ensures exists n: nat :: m <= n && Cancels(s, Steps(s, v, n), id)
      {
        StepsAdd(s, w, k, m);
        var n: nat :| k + m <= n && Cancels(s, Steps(s, w, n), id);
        StepsAdd(s, w, k, n - k);
        assert Cancels(s, Steps(s, v, n - k), id);
      }
    }
  }

  /** How many tasks are still to be walked. */
  function Left(w: Walk): nat {
    if Ended(w) then 0 else |w.list| - w.at
  }

  /** Without short repeats and impatient callbacks a walk takes one step a task. */
  lemma {:induction false} EndsWithoutShort(s: Setting, w: Walk)
    requires s.Ok() && PatientFrom(s, w) && forall id :: !ShortAhead(s, w, id)
    ensures Ended(Steps(s, w, Left(w)))
    decreases Left(w)
  {
    if !Ended(w) {
      assert !Impatient(s, Steps(s, w, 0));
      var v := Step(s, w);
      assert !ShortAhead(s, w, w.list[w.at].id);
      forall id ensures !ShortAhead(s, v, id) { PatientStep(s, w, id); }
      PatientStep(s, w, 0);
      assert Steps(s, w, 1) == Steps(s, v, 0);
      LaterToo(s, w, 1);
      EndsWithoutShort(s, v);
      StepsAdd(s, v, Left(v), Left(w) - 1 - Left(v));
      EndedStays(s, Steps(s, v, Left(v)), Left(w) - 1 - Left(v));
    }
  }

  /** What is left of a list after a callback: the timers it cancels are cancelled. */
  function CancelledBy(list: seq<Entry>, requests: seq<Request>): (r: seq<Entry>)
    ensures |r| == |list|
    ensures forall i :: 0 <= i < |list| ==>
              r[i] == if Cancel(list[i].id) in requests then list[i].(cancelled := true) else list[i]
  {
    seq(|list|, i requires 0 <= i < |list| =>
      if Cancel(list[i].id) in requests then list[i].(cancelled := true) else list[i])
  }

  /** From front to back, the timers that are due and not cancelled before their turn. */
  function FrontToBack(s: Setting, list: seq<Entry>, runs: nat): seq<nat>
    decreases |list|
  {
    if list == [] then []
    else if list[0].cancelled || list[0].rounds > 0 then FrontToBack(s, list[1..], runs)
    else [list[0].id] + FrontToBack(s, CancelledBy(list[1..], s.react(list[0].id, runs)), runs + 1)
  }

  function StillAhead(w: Walk): seq<Entry> {
    if Ended(w) then [] else w.list[w.at..]
  }

  /** Without short repeats and impatient callbacks the due timers run once each, front to back. */
  lemma {:induction false} RunsInOrder(s: Setting, w: Walk)
    requires s.Ok() && PatientFrom(s, w) && forall id :: !ShortAhead(s, w, id)
    ensures Runs(s, w, Left(w)) == FrontToBack(s, StillAhead(w), w.runs)
    decreases Left(w)
  {
    hide Step, PatientFrom, ShortAhead, Impatient;
    if !Ended(w) {
      PatientNow(s, w);
      NothingShort(s, w);
      RunsInOrder(s, Step(s, w));
    }
  }

  lemma PatientNow(s: Setting, w: Walk)
    requires s.Ok() && PatientFrom(s, w)
    ensures !Impatient(s, w) && PatientFrom(s, Step(s, w))
  {
    assert !Impatient(s, Steps(s, w, 0));
    LaterToo(s, w, 1);
    assert Steps(s, w, 1) == Steps(s, Step(s, w), 0);
  }

  /** A patient step with no short repeat ahead takes the first task off what is ahead. */
  lemma NothingShort(s: Setting, w: Walk)
    requires s.Ok() && !Ended(w) && !Impatient(s, w) && forall id :: !ShortAhead(s, w, id)
    ensures var v, rest := Step(s, w), StillAhead(w)[1..];
            && Left(v) == Left(w) - 1 && (forall id :: !ShortAhead(s, v, id))
            && StillAhead(v) == (if Due(w) then CancelledBy(rest, Requests(s, w)) else rest)
            && v.runs == w.runs + |RunNow(w)|
  {
    NotShort(s, w);
    hide LandsHere, ServedAll, ShortAhead, Impatient;
    var v := Step(s, w);
    forall id ensures !ShortAhead(s, v, id) { PatientStep(s, w, id); }
    if Due(w) { NothingShortDue(s, w); }
  }

  lemma NotShort(s: Setting, w: Walk)
    requires s.Ok() && !Ended(w) && forall id :: !ShortAhead(s, w, id)
    ensures !Short(s.width[0], w.list[w.at])
  {
    assert !ShortAhead(s, w, w.list[w.at].id);
  }

  lemma NothingShortDue(s: Setting, w: Walk)
    requires s.Ok() && Due(w) && !Impatient(s, w) && !Short(s.width[0], w.list[w.at])
    ensures var v, rest := Step(s, w), StillAhead(w)[1..];
            Left(v) == Left(w) - 1 && StillAhead(v) == CancelledBy(rest, Requests(s, w)) && v.runs == w.runs + 1
  {
    PatientRequests(s, w);
    hide LandsHere, ServedAll, Impatient;
    var f, task := Fired(s, w), w.list[w.at];
    if task.interval > 0 { LandsHereWhenShort(s, task.interval); }
    ServedPatient(s, f, Requests(s, w));
    ServedEntries(s, f, Requests(s, w));
    ServedRuns(s, f, Requests(s, w));
  }

  lemma PatientRequests(s: Setting, w: Walk)
    requires s.Ok() && Due(w) && !Impatient(s, w)
    ensures forall i :: 0 <= i < |Requests(s, w)| ==> !Hasty(s.width[0], Requests(s, w)[i])
  {}

  lemma {:induction false} ServedRuns(s: Setting, w: Walk, requests: seq<Request>)
    requires s.Ok()
    ensures ServedAll(s, w, requests).runs == w.runs
    decreases |requests|
  {
    if requests != [] { ServedRuns(s, Served(s, w, requests[0]), requests[1..]); }
  }

  ghost function Ahead(s: Setting, w: Walk): set<nat>
    requires s.Ok()
  {
    set i | w.at <= i < |w.list| && ShortAhead(s, w, w.list[i].id) :: w.list[i].id
  }

  lemma AheadIff(s: Setting, w: Walk)
    requires s.Ok()
    ensures forall id :: id in Ahead(s, w) <==> ShortAhead(s, w, id)
  {}

  /** Along a patient walk no short repeat comes in, and a cancelled one is gone. */
  lemma {:induction false} OnlyFewer(s: Setting, w: Walk, n: nat, id: nat)
    requires s.Ok() && PatientFrom(s, w)
    ensures ShortAhead(s, Steps(s, w, n), id) ==> ShortAhead(s, w, id) && (n > 0 ==> !Cancels(s, w, id))
    decreases n
  {
    if n > 0 {
      assert !Impatient(s, Steps(s, w, 0));
      if Ended(w) {
        EndedStays(s, w, n);
      } else {
        PatientStep(s, w, id);
        assert Steps(s, w, 1) == Steps(s, Step(s, w), 0);
        LaterToo(s, w, 1);
        OnlyFewer(s, Step(s, w), n - 1, id);
      }
    }
  }

  /** After the step that cancels a short repeat there are fewer of them ahead. */
  lemma FewerAhead(s: Setting, w: Walk, id: nat, n: nat)
    requires s.Ok() && PatientFrom(s, w) && ShortAhead(s, w, id) && Cancels(s, Steps(s, w, n), id)
    ensures Ahead(s, Steps(s, w, n + 1)) < Ahead(s, w)
  {
    hide Step, ShortAhead, Cancels, PatientFrom;
    var v := Steps(s, w, n + 1);
    StepsAdd(s, w, n, 1);
    LaterToo(s, w, n);
    OnlyFewer(s, Steps(s, w, n), 1, id);
    forall other ensures ShortAhead(s, v, other) ==> ShortAhead(s, w, other) { OnlyFewer(s, w, n + 1, other); }
    AheadIff(s, w);
    AheadIff(s, v);
    hide Ahead;
    assert id in Ahead(s, w) && id !in Ahead(s, v);
  }

  /** A patient walk in which every short repeat gets cancelled ends. */
  lemma {:induction false} EndsWhenCancelled(s: Setting, w: Walk)
    requires s.Ok() && PatientFrom(s, w) && AllCancelled(s, w)
    ensures Ends(s, w)
    decreases Ahead(s, w)
  {
    hide Step, ShortAhead, Cancels, PatientFrom, Ahead, Ended;
    if id :| ShortAhead(s, w, id) {
      assert ShortAhead(s, Steps(s, w, 0), id);
      var n: nat :| Cancels(s, Steps(s, w, n), id);
      FewerAhead(s, w, id, n);
      LaterToo(s, w, n + 1);
      EndsWhenCancelled(s, Steps(s, w, n + 1));
      EndsLater(s, w, n + 1);
    } else {
      EndsWithoutShort(s, w);
    }
  }

  lemma EndsLater(s: Setting, w: Walk, n: nat)
    requires s.Ok() && Ends(s, Steps(s, w, n))
    ensures Ends(s, w)
  {
    var k: nat :| Ended(Steps(s, Steps(s, w, n), k));
    StepsAdd(s, w, n, k);
  }

  /** In a walk that ends every short repeat is cancelled by a callback. */
  lemma {:induction false} CancelledBeforeEnd(s: Setting, w: Walk, m: nat, k: nat, id: nat) returns (n: nat)
    requires s.Ok() && m <= k && Ended(Steps(s, w, k)) && ShortAhead(s, Steps(s, w, m), id)
    ensures m <= n && Cancels(s, Steps(s, w, n), id)
    decreases k - m
  {
    n := m;
    if !Cancels(s, Steps(s, w, m), id) {
      StepAfter(s, w, m);
      ShortStays(s, Steps(s, w, m), id);
      n := CancelledBeforeEnd(s, w, m + 1, k, id);
    }
  }

  lemma EndedIsCancelled(s: Setting, w: Walk, k: nat)
    requires s.Ok() && Ended(Steps(s, w, k))
    ensures PatientInTheEnd(s, w) && AllCancelled(s, w)
  {
    assert PatientFrom(s, Steps(s, w, k)) by {
      forall m: nat ensures !Impatient(s, Steps(s, Steps(s, w, k), m)) { EndedStays(s, Steps(s, w, k), m); }
    }
    forall m: nat, id | ShortAhead(s, Steps(s, w, m), id)
      ensures exists n: nat :: m <= n && Cancels(s, Steps(s, w, n), id)
    {
      if m > k {
        StepsAdd(s, w, k, m - k);
        EndedStays(s, Steps(s, w, k), m - k);
      }
      var n := CancelledBeforeEnd(s, w, m, k, id);
    }
  }

  /** Whatever the callbacks arm and cancel, the walk of a slot ends if and only if from some step on
    no callback it runs arms a timer for less than the base tick, and every due repeat timer with an
    interval below the base tick that it comes to hold is cancelled by a callback it runs. */
  lemma WalkEndsIff(s: Setting, w: Walk)
    requires s.Ok()
    ensures Ends(s, w) <==> PatientInTheEnd(s, w) && AllCancelled(s, w)
  {
    hide Step, PatientFrom, AllCancelled, Ended;
    if Ends(s, w) {
      var k: nat :| Ended(Steps(s, w, k));
      EndedIsCancelled(s, w, k);
    }
    if PatientInTheEnd(s, w) && AllCancelled(s, w) {
      var k: nat :| PatientFrom(s, Steps(s, w, k));
      LaterToo(s, w, k);
      EndsWhenCancelled(s, Steps(s, w, k));
      EndsLater(s, w, k);
    }
  }

  /** With callbacks that leave the wheel alone, it ends exactly if no due task repeats faster than
    the base tick. */
  lemma SilentWalkEndsIff(s: Setting, w: Walk)
    requires s.Ok() && forall id, n :: s.react(id, n) == []
    ensures Ends(s, w) <==> forall i :: w.at <= i < |w.list| ==> !Short(s.width[0], w.list[i])
  {
    WalkEndsIff(s, w);
    assert PatientFrom(s, Steps(s, w, 0)) && PatientInTheEnd(s, w);
    if i :| w.at <= i < |w.list| && Short(s.width[0], w.list[i]) {
      assert ShortAhead(s, Steps(s, w, 0), w.list[i].id);
      assert forall n: nat :: !Cancels(s, Steps(s, w, n), w.list[i].id);
    } else {
      EndsWithoutShort(s, w);
    }
  }

  // ---------------------------------------------------------------- three inputs

  /** Base tick 100: a repeat timer of 50 with a silent callback keeps the walk going for ever. */
  lemma EndlessInput(s: Setting)
    requires s.Ok() && s.width[0] == 100 && forall id, n :: s.react(id, n) == []
    ensures !Ends(s, Walk([Entry(1, 0, false, 50)], 0, 0, 2))
  {
    var w := Walk([Entry(1, 0, false, 50)], 0, 0, 2);
    SilentWalkEndsIff(s, w);
    assert Short(s.width[0], w.list[0]);
  }

  /** One whose callback cancels it does not. */
  lemma CancelsItself(s: Setting, id: nat, interval: int, runs: nat)
    requires s.Ok() && s.react(id, runs) == [Cancel(id)] && 0 < interval < s.width[0]
    ensures Ends(s, Walk([Entry(id, 0, false, interval)], 0, runs, id + 1))
  {
    var w := Walk([Entry(id, 0, false, interval)], 0, runs, id + 1);
    LandsHereWhenShort(s, interval);
    hide LandsHere;
    var f := Fired(s, w);
    assert f.list == [Entry(id, 0, false, interval)];
    ServedEntries(s, f, [Cancel(id)]);
    assert ServedAll(s, f, [Cancel(id)]) == ServedAll(s, Served(s, f, Cancel(id)), []);
    var v := Step(s, w);
    assert v.list == [Entry(id, 0, true, interval)] && v.at == 0;
    assert Ended(Step(s, v));
    assert Steps(s, w, 2) == Steps(s, v, 1) == Steps(s, Step(s, v), 0);
  }

  /** Base tick 100, 60 slots: the callback of a one-shot timer alone in its slot arms a timer for
    50. The walk has come to its end and does not see the new timer, which stays in the slot for the
    next turn, 6000 later: that is not in its window. */
  lemma StrandedInput(s: Setting, last: nat, index: int, clock: int)
    requires s.Ok() && s.width[0] == 100 && s.size == 60 && s.react(1, 0) == [Arm(50, false)]
    requires 0 < last && clock == (index + 1) * 100 - 100
    ensures var v := Steps(s, Walk([Entry(1, 0, false, 0)], 0, 0, 2), 1); Ended(v) && v.list == [Entry(2, 0, false, 0)]
    ensures !OnTime(0, last, 100, 60, 100, (index + 60 + 1) * 100 - 100, clock + 50, 0, 100)
  {
    var w := Walk([Entry(1, 0, false, 0)], 0, 0, 2);
    LandsHereWhenShort(s, 50);
    hide LandsHere;
    var f := Fired(s, w);
    assert f.list == [] && Ended(f);
    assert ServedAll(s, f, [Arm(50, false)]) == ServedAll(s, Served(s, f, Arm(50, false)), []);
    assert Steps(s, w, 1) == Steps(s, Step(s, w), 0);
    StrandedIff(last, 60, 100, index, clock, 50);
  }
}
