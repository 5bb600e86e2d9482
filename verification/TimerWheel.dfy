/** The hierarchical timer wheel of src/core/timer_wheel.cpp.

  Every layer keeps, besides the slot index the source stores, a ghost `absolute` index that
  counts how often the layer has moved; the slot index is `absolute % wheelSize`. A filed task
  remembers the absolute index `due` at which its layer will reach it, so the moment of that
  visit, `Visit(layer, due)`, is known the moment the task is filed. */
module TimerWheels {
  import opened Arithmetic
  import opened TimerFiling
  import opened TimerWalks

  datatype Handle = Handle(id: nat, valid: bool)

  /** What a timer is armed for: after which delay, at what time, and again at what interval; `next` is
    the time of the base tick to come, or just being made. A timer is `stranded` if it was filed into the
    slot being walked after the walk had come to its end. */
  datatype Arming = Arming(delay: int, expire: int, interval: int, stranded: bool, next: int)

  /** One callback run: who, when, and what the timer was armed for. */
  datatype Firing = Firing(id: nat, time: int, arming: Arming) {
    predicate Repeat() { arming.interval > 0 }
  }

  // ---------------------------------------------------------------- the wheel

  class TimerTask {
    const id: nat
    const interval: int
    var expire: int
    var rounds: int
    var cancelled: bool
    /** Some shared pointer still owns the task; a weak pointer locks exactly then. */
    var alive: bool
    ghost var layer: nat
    ghost var due: nat
    ghost var arming: Arming

    constructor (id: nat, interval: int, expire: int, ghost arming: Arming)
      ensures this.id == id && this.interval == interval && this.expire == expire && this.arming == arming
      ensures rounds == 0 && !cancelled && alive
    {
      this.id, this.interval, this.expire := id, interval, expire;
      rounds, cancelled, alive, this.arming := 0, false, true, arming;
    }
  }

  class TimerWheel {
    const tickMs: int
    const wheelSize: int
    /** tick_ms of every layer. */
    const width: seq<int>
    /** What the callback of timer `id` asks for in the n-th callback run overall. */
    const react: (nat, nat) -> seq<Request>

    var current: seq<int>
    var slots: seq<seq<seq<TimerTask>>>
    var taskMap: map<nat, TimerTask>
    var nextId: nat
    var clock: int
    var runs: nat

    ghost var absolute: seq<nat>
    ghost var filed: set<TimerTask>
    ghost var live: set<TimerTask>
    /** What every timer was first armed for. */
    ghost var armed: map<nat, Arming>
    ghost var fired: seq<Firing>
    /** For every cancelled id, how many callbacks had run when it was cancelled. */
    ghost var cancelledAt: map<nat, nat>

    // -------------------------------------------------------------- invariants

    ghost predicate Configured()
    {
      && 1 <= tickMs && 2 <= wheelSize && 2 <= |width| <= 4
      && width[0] == tickMs
      && (forall k :: 0 < k < |width| ==> width[k] == width[k - 1] * wheelSize)
      && (forall k :: 0 <= k < |width| ==> tickMs <= width[k])
      && (forall k :: 0 < k < |width| ==> tickMs * wheelSize <= width[k])
      && (forall j, k :: 0 <= j <= k < |width| ==> width[j] <= width[k])
    }

    /** The time at which layer `k` visits the slot of absolute index `index`. */
    ghost function Visit(k: nat, index: int): int
      requires k < |width|
    {
      (index + 1) * width[k] - tickMs
    }

    /** Every task in a slot is filed there, once, and every filed task is in its slot. */
    ghost predicate Structure()
      requires Configured()
      reads `current, `slots, `absolute, `filed, filed`layer, filed`due
    {
      && |current| == |slots| == |absolute| == |width|
      && (forall k :: 0 <= k < |width| ==> |slots[k]| == wheelSize && current[k] == absolute[k] % wheelSize)
      && (forall k, s, i :: 0 <= k < |width| && 0 <= s < wheelSize && 0 <= i < |slots[k][s]| ==>
            slots[k][s][i] in filed && slots[k][s][i].layer == k && slots[k][s][i].due % wheelSize == s)
      && (forall k, s, i, j :: 0 <= k < |width| && 0 <= s < wheelSize && 0 <= i < j < |slots[k][s]| ==>
            slots[k][s][i] != slots[k][s][j])
      && (forall t :: t in filed ==>
            && t.layer < |width|
            && absolute[t.layer] <= t.due <= absolute[t.layer] + wheelSize
            && t in slots[t.layer][t.due % wheelSize])
    }

    /** One turn of layer 0. */
    ghost function Turn(): int {
      tickMs * wheelSize
    }

    /** The slot width of the layer a delay is filed in. */
    ghost function SlotWidth(delay: int): int {
      if |width| == 0 then 0 else width[LayerFor(width, wheelSize, delay, 0)]
    }

    /** How late filing a timer in slots may make it: the width of a slot, unless it is stranded. */
    ghost function Slack(a: Arming): int {
      if a.stranded then Turn() - tickMs else SlotWidth(a.delay)
    }

    /** When a timer runs: computed from its arming alone, whatever happens in between. */
    ghost function RunTime(a: Arming): int {
      if !Layered(width, wheelSize) then 0
      else if a.stranded then a.next + Turn()
      else FirstRun(width, wheelSize, a.next, a.delay, a.expire)
    }

    /** Armed at most a base tick before the tick it counts from. */
    ghost predicate Timely(a: Arming) {
      0 < a.delay && 0 <= a.next - (a.expire - a.delay) <= tickMs && tickMs > 0 && a.next % tickMs == 0
    }

    /** The task will run when its arming says. */
    ghost predicate TaskExact(t: TimerTask)
      requires Configured()
      reads t`layer, t`due, t`expire, t`rounds, t`arming
    {
      && t.layer < |width| && Layered(width, wheelSize) && Timely(t.arming)
      && Arrival(width, wheelSize, t.layer, Visit(t.layer, t.due), t.expire, t.rounds) == RunTime(t.arming)
    }

    ghost predicate TaskOnTime(t: TimerTask)
      requires Configured()
      reads t`layer, t`due, t`expire, t`rounds, t`arming
    {
      && t.layer < |width|
      && OnTime(t.layer, |width| - 1, width[t.layer], wheelSize, tickMs,
                Visit(t.layer, t.due), t.expire, t.rounds, Slack(t.arming))
      && (t.arming.stranded ==> t.layer == 0 && t.rounds == 0 && Turn() - tickMs < Visit(0, t.due) - t.expire < Turn())
      && TaskExact(t)
    }

    /** A callback run at the time its arming says, in the window of its timer; that of a stranded timer
      is a turn late, less at most a base tick. */
    ghost predicate InTime(f: Firing) {
      && f.time == RunTime(f.arming) && Timely(f.arming)
      && -tickMs < f.time - f.arming.expire <= Slack(f.arming) + tickMs
      && (f.arming.stranded ==> Turn() - tickMs < f.time - f.arming.expire < Turn())
    }

    /** The id map reaches every live uncancelled task, and ids never clash. */
    ghost predicate Indexed()
      reads `live, `taskMap, `nextId, live`alive, live`cancelled, taskMap.Values`alive, taskMap.Values`cancelled
    {
      && (forall t :: t in live ==> t.alive && 0 < t.id < nextId && 0 <= t.interval)
      && (forall t, u :: t in live && u in live && t.id == u.id ==> t == u)
      && (forall t :: t in live && !t.cancelled ==> t.id in taskMap && taskMap[t.id] == t)
      && (forall id :: id in taskMap ==> taskMap[id].id == id && id < nextId)
      && (forall id :: id in taskMap && taskMap[id].alive ==> taskMap[id] in live && !taskMap[id].cancelled)
    }

    ghost predicate Pending(id: nat)
      reads `live, live`cancelled
    {
      exists t :: t in live && t.id == id && !t.cancelled
    }

    ghost predicate FiredOnce(id: nat)
      reads `fired
    {
      exists i :: 0 <= i < |fired| && fired[i].id == id && !fired[i].Repeat()
    }

    /** What the log of callback runs says about the whole run so far. */
    ghost predicate History()
      reads `runs, `fired, `nextId, `cancelledAt, `live, live`cancelled
    {
      && runs == |fired|
      && (forall i :: 0 <= i < |fired| ==>
            0 < fired[i].id < nextId && InTime(fired[i]))
      && (forall i, j :: 0 <= i < j < |fired| && fired[i].id == fired[j].id ==> fired[i].Repeat() && fired[j].Repeat())
      && (forall t, i :: t in live && 0 <= i < |fired| && fired[i].id == t.id ==>
            fired[i].Repeat() && t.interval > 0)
      && (forall id :: id in cancelledAt ==> id < nextId && cancelledAt[id] <= |fired| && !Pending(id))
      && (forall id, i :: id in cancelledAt && cancelledAt[id] <= i < |fired| ==> fired[i].id != id)
      && (forall id :: 0 < id < nextId ==> id in cancelledAt || Pending(id) || FiredOnce(id))
    }

    /** What a timer is armed for once it has fired: one interval from then. */
    ghost function Again(f: Firing): Arming {
      Arming(f.arming.interval, f.time + f.arming.interval, f.arming.interval, false, f.time)
    }

    /** What timer `id`, first armed for `first`, is armed for after some callback runs. */
    ghost function Rearmed(log: seq<Firing>, first: Arming, id: nat): Arming {
      if log == [] then first
      else
        var last := log[|log| - 1];
        if last.id == id then Again(last) else Rearmed(log[..|log| - 1], first, id)
    }

    lemma {:induction false} NeverFired(log: seq<Firing>, first: Arming, id: nat)
      requires forall i :: 0 <= i < |log| ==> log[i].id != id
      ensures Rearmed(log, first, id) == first
    {
      if log != [] { NeverFired(log[..|log| - 1], first, id); }
    }

    lemma RearmedSnoc(log: seq<Firing>, f: Firing, first: Arming, id: nat)
      ensures Rearmed(log + [f], first, id) == if f.id == id then Again(f) else Rearmed(log, first, id)
    {
      assert (log + [f])[..|log|] == log;
    }

    ghost predicate Booked(t: TimerTask)
      reads `armed, `fired, t`expire, t`arming
    {
      && t.expire == t.arming.expire && t.interval == t.arming.interval
      && t.id in armed && t.arming == Rearmed(fired, armed[t.id], t.id)
    }

    /** Each run of a callback was due: armed first, or one interval after its previous run. */
    ghost predicate LoggedAsArmed()
      reads `armed, `fired, `nextId
    {
      && (forall id :: id in armed <==> 0 < id < nextId)
      && (forall i :: 0 <= i < |fired| ==>
            && fired[i].id in armed
            && fired[i].arming == Rearmed(fired[..i], armed[fired[i].id], fired[i].id))
    }

    /** Every live task and every callback run carry what the timer was armed for. */
    ghost predicate Ledger()
      reads `live, `armed, `fired, `nextId, live`expire, live`arming
    {
      LoggedAsArmed() && forall t :: t in live ==> Booked(t)
    }

    /** Nothing on record is lost: callback runs, cancellations, and what timers were armed for. */
    twostate predicate RecordKept()
      reads `armed, `cancelledAt, `fired
    {
      && old(fired) <= fired
      && (forall id :: id in old(cancelledAt) ==> id in cancelledAt && cancelledAt[id] == old(cancelledAt)[id])
      && (forall id :: id in old(armed) ==> id in armed && armed[id] == old(armed)[id])
    }

    /** The clock lies between each layer's last move and its next visit. */
    ghost predicate Aligned()
      reads `absolute, `clock
      requires Configured()
    {
      |absolute| == |width| &&
      forall k :: 0 <= k < |width| ==> absolute[k] * width[k] - tickMs <= clock <= Visit(k, absolute[k])
    }

    /** Everything that holds inside a tick as well as between ticks. */
    ghost predicate Sound()
      reads this, filed, live, taskMap.Values
    {
      && Configured() && Structure() && Aligned() && Indexed() && History() && Ledger()
      && filed == live && 0 < nextId
      && (forall t :: t in live ==> TaskOnTime(t))
    }

    ghost predicate Settled()
      reads `current, `slots, `absolute, `filed, filed`layer, filed`due
      requires Configured() && Structure()
    {
      forall t :: t in filed ==> t.due < absolute[t.layer] + wheelSize
    }

    /** Each layer has moved once per turn of the layer below. */
    ghost predicate Synced()
      reads `absolute
      requires Configured() && |absolute| == |width|
    {
      forall k :: 0 < k < |width| ==> absolute[k] == absolute[k - 1] / wheelSize
    }

    /** The state between two ticks. */
    ghost predicate Valid()
      reads this, filed, live, taskMap.Values
    {
      Sound() && Settled() && Synced()
    }

    ghost function Delay(task: TimerTask): int
      reads this, task
    {
      if task.expire - clock <= 0 then 1 else task.expire - clock
    }

    /** How many slots ahead of the current one a delay lands in layer `k`. */
    ghost function Offset(k: nat, delay: int, emptied: int): nat
      requires Configured() && k < |width| && 0 < delay
    {
      var o := (delay / width[k]) % wheelSize;
      if k == emptied && o == 0 then wheelSize else o
    }

    /** How many turns of layer `k` a delay is sat out. */
    ghost function Rounds(k: nat, delay: int): int
      requires Configured() && k < |width|
    {
      (delay / width[k]) / wheelSize
    }

    /** The layers stand as they do when a timer is armed or, if layer `emptied` is above layer 0, when
      its current slot is handed down. */
    ghost predicate Poised(emptied: int)
      requires Configured()
      reads `absolute, `clock
    {
      |absolute| == |width| && if emptied <= 0 then Synced() else AtTurn(emptied) && Lagging(emptied)
    }

    /** When a task filed now for a delay runs. */
    ghost function Foreseen(delay: int, emptied: int): int
      reads `absolute, `clock
    {
      if emptied <= 0 then RunTime(Arming(delay, clock + delay, 0, emptied == 0 && delay < tickMs, NextTick()))
      else if Layered(width, wheelSize) then Handed(width, wheelSize, emptied, clock, delay, 0)
      else 0
    }

    lemma IsLayered()
      requires Configured()
      ensures Layered(width, wheelSize)
    {}

    /** The tick to come is at most a base tick away, at a multiple of it. */
    lemma TickToCome()
      requires Configured() && Aligned()
      ensures clock <= NextTick() <= clock + tickMs && NextTick() % tickMs == 0
    {
      assert NextTick() == absolute[0] * tickMs;
      DivUnique(absolute[0] * tickMs, tickMs, absolute[0], 0);
    }

    /** The index of a layer in step with those below counts its slots up to the tick to come. */
    lemma {:induction false} IndexCounts(k: nat)
      requires Configured() && |absolute| == |width| && k < |width|
      requires forall j :: 0 < j <= k ==> absolute[j] == absolute[j - 1] / wheelSize
      ensures absolute[k] == NextTick() / width[k]
    {
      if k == 0 {
        DivUnique(absolute[0] * tickMs, tickMs, absolute[0], 0);
      } else {
        IndexCounts(k - 1);
        DivDiv(NextTick(), width[k - 1], wheelSize);
      }
    }

    /** Below the layer being handed down, each layer has a whole slot before it. */
    lemma WholeSlotAhead(emptied: nat, k: nat)
      requires Configured() && AtTurn(emptied) && Lagging(emptied) && k < emptied
      ensures Visit(k, absolute[k]) == clock + width[k]
    {
      IndexCounts(k);
      IsLayered();
      Wider(width, wheelSize, k, emptied);
      hide Layered, Lagging, Configured;
      WholeSlots(clock + tickMs, absolute[emptied] + 1, width[emptied], width[k]);
    }

    static lemma WholeSlots(x: int, n: int, w: int, v: int)
      requires 1 <= v && w % v == 0 && x == n * w
      ensures (x / v + 1) * v == x + v
    {
      DivBounds(w, v);
      assert n * w == (n * (w / v)) * v;
      DivUnique(x, v, n * (w / v), 0);
    }

    /** A delay filed in its layer runs when its arming, or what is handed down, says. */
    lemma FiledExactly(k: nat, delay: int, emptied: int)
      requires Configured() && Poised(emptied) && 0 < delay && k == LayerFor(width, wheelSize, delay, 0)
      requires emptied > 0 ==> k <= emptied
      ensures Layered(width, wheelSize)
      ensures Arrival(width, wheelSize, k, Visit(k, absolute[k] + Offset(k, delay, emptied)), clock + delay, Rounds(k, delay))
              == Foreseen(delay, emptied)
    {
      hide *;
      IsLayered();
      if emptied <= 0 {
        FiledArmed(k, delay, emptied);
      } else if k < emptied {
        FiledLower(k, delay, emptied);
      } else {
        FiledAgain(k, delay);
      }
    }

    lemma FiledArmed(k: nat, delay: int, emptied: int)
      requires Configured() && Poised(emptied) && 0 < delay && k == LayerFor(width, wheelSize, delay, 0)
      requires emptied <= 0 && Layered(width, wheelSize)
      ensures Arrival(width, wheelSize, k, Visit(k, absolute[k] + Offset(k, delay, emptied)), clock + delay, Rounds(k, delay))
              == Foreseen(delay, emptied)
    {
      if k == 0 {
        FiledBase(delay, emptied);
      } else {
        FiledAbove(k, delay, emptied);
      }
    }

    lemma FiledBase(delay: int, emptied: int)
      requires Configured() && |absolute| == |width| && 0 < delay && 0 == LayerFor(width, wheelSize, delay, 0)
      requires emptied <= 0 && Layered(width, wheelSize)
      ensures Arrival(width, wheelSize, 0, Visit(0, absolute[0] + Offset(0, delay, emptied)), clock + delay, Rounds(0, delay))
              == Foreseen(delay, emptied)
    {
      var q, o := delay / tickMs, Offset(0, delay, emptied);
      FewSlots(delay, tickMs, wheelSize);
      if delay < tickMs { DivUnique(delay, tickMs, 0, delay); }
      if tickMs <= delay { WithinTurn(delay, tickMs, wheelSize); }
      assert o == if emptied == 0 && delay < tickMs then wheelSize else q;
      assert Rounds(0, delay) == 0;
      LaterSlot(0, absolute[0], o);
      ThenBase(absolute[0], o, clock + delay);
      FirstBase(delay);
      hide Offset, Rounds, Visit, Arrival, FirstRun, LayerFor, Configured;
    }

    lemma ThenBase(index: nat, o: nat, expire: int)
      requires Configured() && Layered(width, wheelSize)
      ensures Arrival(width, wheelSize, 0, Visit(0, index + o), expire, 0) == Visit(0, index + o)
    {
      hide Visit;
    }

    lemma FirstBase(delay: int)
      requires Configured() && Layered(width, wheelSize) && 0 < |absolute| && 0 == LayerFor(width, wheelSize, delay, 0)
      ensures FirstRun(width, wheelSize, NextTick(), delay, clock + delay) == Visit(0, absolute[0]) + delay / tickMs * tickMs
    {
      hide LayerFor, Visit;
    }

    lemma FiledAbove(k: nat, delay: int, emptied: int)
      requires Configured() && Poised(emptied) && 0 < delay && 0 < k == LayerFor(width, wheelSize, delay, 0)
      requires emptied <= 0 && Layered(width, wheelSize)
      ensures Arrival(width, wheelSize, k, Visit(k, absolute[k] + Offset(k, delay, emptied)), clock + delay, Rounds(k, delay))
              == Foreseen(delay, emptied)
    {
      IndexCounts(k);
      ShortIsLow(delay);
      assert absolute[k] + Offset(k, delay, emptied) + 1 == NextTick() / width[k] + 1 + delay / width[k] % wheelSize;
      hide LayerFor, Arrival, Synced, Configured, NextTick;
    }

    lemma FiledLower(k: nat, delay: int, emptied: int)
      requires Configured() && Poised(emptied) && 0 < delay && k == LayerFor(width, wheelSize, delay, 0)
      requires 0 <= k < emptied && Layered(width, wheelSize)
      ensures Arrival(width, wheelSize, k, Visit(k, absolute[k] + Offset(k, delay, emptied)), clock + delay, Rounds(k, delay))
              == Foreseen(delay, emptied)
    {
      WholeSlotAhead(emptied, k);
      FewSlots(delay, width[k], wheelSize);
      var q := delay / width[k];
      assert Offset(k, delay, emptied) == q && Rounds(k, delay) == 0;
      assert Visit(k, absolute[k]) == clock + width[k];
      LaterSlot(k, absolute[k], q);
      LowerRuns(k, q, delay, emptied);
      hide Offset, Rounds, Visit, Arrival, LayerFor, Configured, Lagging, AtTurn, Poised, Handed;
    }

    /** A lower layer visits a task once more than the slots it fits. */
    lemma LowerRuns(k: nat, q: int, delay: int, emptied: nat)
      requires Configured() && Layered(width, wheelSize) && 0 < delay && k == LayerFor(width, wheelSize, delay, 0)
      requires k < emptied < |width| && q == delay / width[k]
      ensures Arrival(width, wheelSize, k, clock + width[k] + q * width[k], clock + delay, 0) ==
              Handed(width, wheelSize, emptied, clock, delay, 0)
    {
      hide LayerFor, Handed, Arrival, Configured;
      SlotsCover(delay, width[k], q);
      HandedOn(width, wheelSize, emptied, clock, delay, 0);
      Overdue(k, clock + width[k] + q * width[k], clock + delay);
    }

    static lemma SlotsCover(delay: int, w: int, q: int)
      requires 1 <= w && q == delay / w
      ensures delay < w + q * w && (q + 1) * w == q * w + w
    {
      DivBounds(delay, w);
    }

    /** What a visit finds overdue, with no rounds left, runs at the next base tick. */
    lemma Overdue(k: nat, visit: int, expire: int)
      requires Configured() && Layered(width, wheelSize) && expire <= visit
      ensures Arrival(width, wheelSize, k, visit, expire, 0) == if k == 0 then visit else visit + width[0]
    {}

    lemma LaterSlot(k: nat, index: int, q: int)
      requires k < |width|
      ensures Visit(k, index + q) == Visit(k, index) + q * width[k]
    {
      assert (index + q + 1) * width[k] == (index + 1) * width[k] + q * width[k];
    }

    lemma FiledAgain(k: nat, delay: int)
      requires Configured() && Poised(k) && 0 < delay && k == LayerFor(width, wheelSize, delay, 0)
      requires 0 < k && Layered(width, wheelSize)
      ensures Arrival(width, wheelSize, k, Visit(k, absolute[k] + Offset(k, delay, k)), clock + delay, Rounds(k, delay))
              == Foreseen(delay, k)
    {
      LaterSlot(k, absolute[k], Offset(k, delay, k));
    }

    // -------------------------------------------------------------- filing

    /** The slot widths of the layers: each is one whole turn of the layer below. */
    static method Widths(tickMs: int, wheelSize: int, layers: nat) returns (w: seq<int>)
      requires 1 <= tickMs && 2 <= wheelSize
      ensures |w| == layers && (layers > 0 ==> w[0] == tickMs)
      ensures forall k :: 0 < k < layers ==> w[k] == w[k - 1] * wheelSize && tickMs * wheelSize <= w[k]
      ensures forall j, k :: 0 <= j <= k < layers ==> tickMs <= w[j] <= w[k]
    {
      var currentTick := tickMs;
      w := [];
      for i := 0 to layers
        invariant |w| == i && tickMs <= currentTick
        invariant currentTick == if i == 0 then tickMs else w[i - 1] * wheelSize
        invariant i > 0 ==> w[0] == tickMs && tickMs * wheelSize <= currentTick
        invariant forall k :: 0 < k < i ==> w[k] == w[k - 1] * wheelSize && tickMs * wheelSize <= w[k]
        invariant forall k :: 0 <= k < i ==> tickMs <= w[k] <= currentTick
        invariant forall j, k :: 0 <= j <= k < i ==> w[j] <= w[k]
      {
        w := w + [currentTick];
        Grow(currentTick, wheelSize, tickMs);
        currentTick := currentTick * wheelSize;
      }
    }

    constructor (tickMs: int, wheelSize: int, layers: nat, react: (nat, nat) -> seq<Request>, clock: int)
      requires 1 <= tickMs && 2 <= wheelSize && 2 <= layers <= 4
      requires -tickMs <= clock <= 0
      ensures Valid() && absolute[0] == 0 && live == {} && fired == []
      ensures this.tickMs == tickMs && this.wheelSize == wheelSize && |width| == layers && this.react == react
      ensures this.clock == clock && fresh(live) && Visit(0, absolute[0]) == 0
    {
      var w := Widths(tickMs, wheelSize, layers);
      this.tickMs, this.wheelSize, this.width, this.react := tickMs, wheelSize, w, react;
      this.current, this.absolute := Zeros(layers), Zeros(layers);
      this.slots := Empty(layers, wheelSize);
      this.taskMap, this.nextId, this.clock, this.runs := map[], 1, clock, 0;
      this.filed, this.live, this.armed, this.fired, this.cancelledAt := {}, {}, map[], [], map[];
      new;
      hide OnTime;
      Fresh();
    }

    /** A wheel that has not moved and holds nothing is valid. */
    lemma Fresh()
      requires Configured() && |current| == |slots| == |absolute| == |width|
      requires forall k :: 0 <= k < |width| ==> |slots[k]| == wheelSize && current[k] == absolute[k] == 0
      requires forall k, s :: 0 <= k < |width| && 0 <= s < wheelSize ==> slots[k][s] == []
      requires filed == {} && live == {} && fired == [] && cancelledAt == map[] && taskMap == map[] && armed == map[]
      requires nextId == 1 && runs == 0 && -tickMs <= clock <= 0
      ensures Valid()
    {
      hide OnTime;
      assert Structure();
      forall k | 0 <= k < |width| ensures absolute[k] * width[k] - tickMs <= clock <= Visit(k, absolute[k]) {
      }
    }

    static function Zeros(n: nat): (z: seq<nat>)
      ensures |z| == n && forall k :: 0 <= k < n ==> z[k] == 0
    {
      if n == 0 then [] else [0] + Zeros(n - 1)
    }

    static function Empty(layers: nat, size: nat): (e: seq<seq<seq<TimerTask>>>)
      ensures |e| == layers
      ensures forall k :: 0 <= k < layers ==> |e[k]| == size
      ensures forall k, s :: 0 <= k < layers && 0 <= s < size ==> e[k][s] == []
    {
      seq(layers, _ => seq(size, _ => []))
    }

    /** Appends a task to one slot list. */
    method Push(layer: nat, slot: nat, task: TimerTask, ghost due: nat)
      requires Configured() && Structure() && task !in filed && layer < |width|
      requires absolute[layer] <= due <= absolute[layer] + wheelSize && slot == due % wheelSize
      modifies this`slots, this`filed, task`layer, task`due
      ensures Structure() && filed == old(filed) + {task} && task.layer == layer && task.due == due
      ensures slots == old(slots)[layer := old(slots)[layer][slot := old(slots)[layer][slot] + [task]]]
    {
      assert 0 < wheelSize;
      hide Configured;
      task.layer, task.due := layer, due;
      slots := slots[layer := slots[layer][slot := slots[layer][slot] + [task]]];
      filed := filed + {task};
    }

    /** Files a task in a chosen layer. */
    method FileAt(i: nat, delay: int, task: TimerTask, ghost emptied: int)
      requires Configured() && Structure() && task !in filed && i < |width| && 0 < delay
      modifies this`slots, this`filed, task`rounds, task`layer, task`due
      ensures Structure() && filed == old(filed) + {task} && task.layer == i
      ensures task.rounds == Rounds(i, delay) && task.due == absolute[i] + Offset(i, delay, emptied)
      ensures var s := task.due % wheelSize;
              slots == old(slots)[i := old(slots)[i][s := old(slots)[i][s] + [task]]]
    {
      assert |current| == |absolute| == |width| && current[i] == absolute[i] % wheelSize;
      hide Structure;
      var ticks := delay / width[i];
      var slot := (current[i] + ticks) % wheelSize;
      task.rounds := ticks / wheelSize;
      ghost var offset := Offset(i, delay, emptied);
      SlotOfDelay(absolute[i], ticks, wheelSize, offset);
      Push(i, slot, task, absolute[i] + offset);
    }

    /** Puts a task into the layer its delay fits, on time for its expiry. */
    method AddTaskToWheel(task: TimerTask, ghost emptied: int)
      requires Configured() && Structure() && Aligned() && task !in filed
      requires width[LayerFor(width, wheelSize, Delay(task), 0)] <= Slack(task.arming)
      requires emptied == LayerFor(width, wheelSize, Delay(task), 0) ==>
                 (emptied == |width| - 1 || emptied == 0) && clock == Visit(emptied, absolute[emptied])
      requires task.arming.stranded <==> emptied == 0 && Delay(task) < tickMs
      requires Poised(emptied) && Timely(task.arming) && (emptied > 0 ==> LayerFor(width, wheelSize, Delay(task), 0) <= emptied)
      requires clock < task.expire ==> Foreseen(Delay(task), emptied) == RunTime(task.arming)
      modifies this`slots, this`filed, task`rounds, task`layer, task`due
      ensures Structure() && filed == old(filed) + {task}
      ensures task.layer == LayerFor(width, wheelSize, Delay(task), 0)
      ensures task.due == absolute[task.layer] + Offset(task.layer, Delay(task), emptied)
      ensures task.rounds == Rounds(task.layer, Delay(task))
      ensures var s := task.due % wheelSize;
              slots == old(slots)[task.layer := old(slots)[task.layer][s := old(slots)[task.layer][s] + [task]]]
      ensures clock < task.expire ==> TaskOnTime(task)
    {
      hide OnTime, LayerFor, Structure, Visit, Turn, Offset, TaskOnTime, Rounds, Poised, Timely, Foreseen, RunTime;
      var delay := task.expire - clock;
      if delay <= 0 {
        delay := 1;
      }
      for i := 0 to |width|
        invariant forall j :: 0 <= j < i ==> width[j] * wheelSize <= delay && j + 1 < |width|
        invariant slots == old(slots) && filed == old(filed)
      {
        if delay < width[i] * wheelSize || i == |width| - 1 {
          LayerFound(i, delay);
          FileInTime(i, delay, task, emptied);
          return;
        }
      }
    }

    method FileInTime(i: nat, delay: int, task: TimerTask, ghost emptied: int)
      requires Configured() && Structure() && Aligned() && task !in filed
      requires i < |width| && delay == Delay(task) && i == LayerFor(width, wheelSize, delay, 0) && width[i] <= Slack(task.arming)
      requires emptied == i ==> (emptied == |width| - 1 || emptied == 0) && clock == Visit(emptied, absolute[emptied])
      requires task.arming.stranded <==> emptied == 0 && delay < tickMs
      requires Poised(emptied) && Timely(task.arming) && (emptied > 0 ==> i <= emptied)
      requires clock < task.expire ==> Foreseen(delay, emptied) == RunTime(task.arming)
      modifies this`slots, this`filed, task`rounds, task`layer, task`due
      ensures Structure() && filed == old(filed) + {task} && task.layer == i
      ensures task.due == absolute[i] + Offset(i, delay, emptied) && task.rounds == Rounds(i, delay)
      ensures var s := task.due % wheelSize;
              slots == old(slots)[i := old(slots)[i][s := old(slots)[i][s] + [task]]]
      ensures clock < task.expire ==> TaskOnTime(task)
    {
      hide OnTime, LayerFor, Structure, Visit, Turn, Offset, Poised, Timely, Foreseen, RunTime, Arrival, Layered;
      if delay < tickMs { ShortIsLow(delay); }
      Filing(i, delay, emptied, Slack(task.arming));
      FiledExactly(i, delay, emptied);
      FileAt(i, delay, task, emptied);
    }

    lemma LayerFound(i: nat, delay: int)
      requires Configured() && i < |width|
      requires forall j :: 0 <= j < i ==> width[j] * wheelSize <= delay && j + 1 < |width|
      requires delay < width[i] * wheelSize || i == |width| - 1
      ensures i == LayerFor(width, wheelSize, delay, 0)
    {
      var found := LayerFor(width, wheelSize, delay, 0);
    }

    // -------------------------------------------------------------- arming and cancelling

    /** Which slot counts as emptied when a timer is armed: layer 0's current one at the end of its
      walk. */
    ghost function Emptied(end: bool): int {
      if end then 0 else -1
    }

    /** What a timer is armed for, at the end of the walk of layer 0's current slot or else. */
    ghost function ArmedFor(delay: int, interval: int, end: bool): Arming
      reads `clock, `absolute
    {
      Arming(delay, clock + delay, interval, end && delay < tickMs, NextTick())
    }

    /** The time of layer 0's next visit, or of the one just being made. */
    ghost function NextTick(): int
      reads `absolute
    {
      if 0 < |absolute| && 0 < |width| then Visit(0, absolute[0]) else 0
    }

    /** Arming a timer put at most fresh tasks into the wheel. A delay of at least the base tick
      leaves the slot at hand alone; a shorter one appends to it, for this visit of the slot or, at
      the end of its walk, for the next. */
    twostate predicate Undisturbed(delay: int, end: bool)
      requires Configured() && old(Structure()) && Structure()
      reads `current, `slots, `absolute, `filed, filed`layer, filed`due
    {
      && old(filed) <= filed
      && (forall t :: t in filed && t !in old(filed) ==>
            && fresh(t)
            && (!end || t.layer != 0 || t.due % wheelSize != current[0] ==> t.due < absolute[t.layer] + wheelSize))
      && (slots[0][current[0]] == old(slots[0][current[0]]) ||
            (delay < tickMs && |slots[0][current[0]]| == old(|slots[0][current[0]]|) + 1 &&
             slots[0][current[0]][..old(|slots[0][current[0]]|)] == old(slots[0][current[0]]) &&
             slots[0][current[0]][old(|slots[0][current[0]]|)].due == absolute[0] + if end then wheelSize else 0))
    }

    /** What the walk reads of a task. */
    ghost function EntryOf(t: TimerTask): Entry
      reads t`rounds, t`cancelled
    {
      Entry(t.id, t.rounds, t.cancelled, t.interval)
    }

    /** A short delay has appended a task that is not cancelled and has no rounds to the slot at hand,
      a longer one has left it alone. */
    twostate predicate Appended(delay: int, id: nat, interval: int)
      reads `current, `slots, `absolute, `filed, filed`layer, filed`due, filed`rounds, filed`cancelled
    {
      if delay < tickMs then
        var n := |old(Hand())|;
        && |Hand()| == n + 1 && Hand()[..n] == old(Hand())
        && Hand()[n] in filed && EntryOf(Hand()[n]) == Entry(id, 0, false, interval)
      else Hand() == old(Hand())
    }

    twostate lemma FiledAppended(new delay: int, new end: bool, new task: TimerTask)
      requires Configured() && old(Structure()) && Structure() && 0 < delay
      requires Undisturbed(delay, end) && (delay < tickMs ==> slots[0][current[0]] == old(slots[0][current[0]]) + [task])
      requires task in filed && !task.cancelled && task.layer == LayerFor(width, wheelSize, delay, 0)
      requires task.rounds == Rounds(task.layer, delay)
      ensures Appended(delay, task.id, task.interval)
    {
      WhereItLands(delay, task.layer, end);
      hide Structure, LayerFor, Rounds;
    }

    twostate lemma FiledUndisturbed(new delay: int, new end: bool, new task: TimerTask)
      requires Configured() && old(Structure()) && Structure() && 0 < delay
      requires task !in old(filed) && fresh(task) && filed == old(filed) + {task}
      requires absolute == old(absolute) && current == old(current)
      requires task.layer == LayerFor(width, wheelSize, delay, 0)
      requires task.due == absolute[task.layer] + Offset(task.layer, delay, Emptied(end))
      requires var s := task.due % wheelSize;
               slots == old(slots)[task.layer := old(slots)[task.layer][s := old(slots)[task.layer][s] + [task]]]
      ensures Undisturbed(delay, end)
      ensures delay < tickMs ==> slots[0][current[0]] == old(slots[0][current[0]]) + [task]
    {
      hide OnTime, LayerFor, Offset;
      WhereItLands(delay, task.layer, end);
      var o := Offset(task.layer, delay, Emptied(end));
      if task.layer == 0 {
        if delay < tickMs {
          ModAdd(absolute[0], 0, wheelSize);
        } else {
          OtherSlot(absolute[0], o);
        }
      }
    }

    /** How many slots ahead a delay lands: in the slot at hand exactly if it is below the base tick. */
    lemma WhereItLands(delay: int, layer: nat, end: bool)
      requires Configured() && 0 < delay && layer == LayerFor(width, wheelSize, delay, 0)
      ensures var o := Offset(layer, delay, Emptied(end));
              if delay < tickMs then layer == 0 && (o == if end then wheelSize else 0) && Rounds(0, delay) == 0
              else o < wheelSize && (layer == 0 ==> 0 < o)
    {
      IsLayered();
      ShortIsLow(delay);
      hide LayerFor;
      LandsIn(width[layer], wheelSize, delay);
      if tickMs <= delay && layer == 0 { WithinTurn(delay, tickMs, wheelSize); }
    }

    static lemma LandsIn(w: int, size: int, delay: int)
      requires 1 <= w && 2 <= size && 0 < delay
      ensures 0 <= (delay / w) % size < size && (delay < w ==> (delay / w) % size == 0 && (delay / w) / size == 0)
    {
      if delay < w { DivUnique(delay, w, 0, delay); }
    }

    lemma OtherSlot(index: int, offset: int)
      requires Configured() && 0 < offset < wheelSize
      ensures (index + offset) % wheelSize != index % wheelSize
    {
      if (index + offset) % wheelSize == index % wheelSize {
        ModWindow(index, index + offset, wheelSize);
      }
    }

    /** The common part of add_timer and add_repeat_timer. */
    method Schedule(delay: int, interval: int, ghost end: bool) returns (task: TimerTask)
      requires Sound() && Synced() && 0 < delay && 0 <= interval && (end ==> clock == Visit(0, absolute[0]))
      modifies this`slots, this`filed, this`live, this`taskMap, this`nextId, this`armed
      ensures Sound() && nextId == old(nextId) + 1
      ensures fresh(task) && live == old(live) + {task} && taskMap == old(taskMap)[task.id := task]
      ensures task.id == old(nextId) && task.interval == interval && task.expire == clock + delay
      ensures !task.cancelled && task.layer == LayerFor(width, wheelSize, delay, 0)
      ensures armed == old(armed)[task.id := ArmedFor(delay, interval, end)] && task.id !in old(armed)
      ensures task.due == absolute[task.layer] + Offset(task.layer, delay, Emptied(end))
      ensures task.rounds == Rounds(task.layer, delay)
      ensures var s := task.due % wheelSize;
              slots == old(slots)[task.layer := old(slots)[task.layer][s := old(slots)[task.layer][s] + [task]]]
    {
      hide Structure, Aligned, Indexed, History, Ledger, TaskOnTime, LayerFor, Offset, Visit, OnTime, Turn, Rearmed, Rounds;
      task := NewFiled(nextId, delay, interval, end);
      Register(task);
    }

    /** A new task object in the wheel. */
    method NewFiled(id: nat, delay: int, interval: int, ghost end: bool) returns (task: TimerTask)
      requires Configured() && Structure() && Aligned() && Synced() && 0 < delay && (end ==> clock == Visit(0, absolute[0]))
      modifies this`slots, this`filed
      ensures fresh(task) && task.id == id && task.interval == interval && !task.cancelled && task.alive
      ensures task.expire == clock + delay && task.arming == ArmedFor(delay, interval, end)
      ensures Structure() && filed == old(filed) + {task} && TaskOnTime(task)
      ensures task.layer == LayerFor(width, wheelSize, delay, 0)
      ensures task.due == absolute[task.layer] + Offset(task.layer, delay, Emptied(end))
      ensures task.rounds == Rounds(task.layer, delay)
      ensures var s := task.due % wheelSize;
              slots == old(slots)[task.layer := old(slots)[task.layer][s := old(slots)[task.layer][s] + [task]]]
    {
      hide Structure, Aligned, TaskOnTime, LayerFor, Offset, Visit, OnTime, Turn, Rounds, RunTime, Synced, NextTick, Poised,
           Foreseen, Timely, ArmedFor;
      ShortIsLow(delay);
      ArmingFits(delay, interval, end);
      task := new TimerTask(id, interval, clock + delay, ArmedFor(delay, interval, end));
      AddTaskToWheel(task, Emptied(end));
    }

    lemma ArmingFits(delay: int, interval: int, end: bool)
      requires Configured() && Aligned() && Synced() && 0 < delay
      ensures var a := ArmedFor(delay, interval, end);
              && Timely(a) && Foreseen(delay, Emptied(end)) == RunTime(a) && Poised(Emptied(end))
              && a.delay == delay && a.expire == clock + delay && a.interval == interval && (a.stranded <==> end && delay < tickMs)
    {
      TickToCome();
      hide FirstRun, Layered;
    }

    /** A delay below the base tick belongs to layer 0, and a turn has at least two slots. */
    lemma ShortIsLow(delay: int)
      requires Configured()
      ensures delay < tickMs ==> LayerFor(width, wheelSize, delay, 0) == 0
      ensures 2 * tickMs <= Turn()
    {
      MulMono(2, wheelSize, tickMs);
    }

    /** Enters a filed task into the id map. */
    method Register(task: TimerTask)
      requires Indexed() && History() && Ledger() && task !in live && task.alive && !task.cancelled
      requires 0 < task.id == nextId && 0 <= task.interval
      requires task.expire == task.arming.expire && task.interval == task.arming.interval
      modifies this`taskMap, this`live, this`nextId, this`armed
      ensures Indexed() && History() && Ledger() && nextId == old(nextId) + 1
      ensures armed == old(armed)[task.id := task.arming]
      ensures task.id !in old(armed)
      ensures live == old(live) + {task} && taskMap == old(taskMap)[task.id := task]
    {
      hide Indexed, History, Ledger, Rearmed;
      nextId := nextId + 1;
      taskMap := taskMap[task.id := task];
      live := live + {task};
      armed := armed[task.id := task.arming];
      RegisteredIndex(task);
      RegisteredHistory(task);
      RegisteredLedger(task);
    }

    twostate lemma RegisteredLedger(new task: TimerTask)
      requires old(History()) && old(Ledger()) && live == old(live) + {task} && 0 < task.id
      requires task.id == old(nextId) && nextId == old(nextId) + 1 && fired == old(fired)
      requires armed == old(armed)[task.id := task.arming]
      requires task.expire == task.arming.expire && task.interval == task.arming.interval
      requires forall t :: t in old(live) ==> t.expire == old(t.expire) && t.arming == old(t.arming)
      ensures Ledger() && task.id !in old(armed)
    {
      hide Rearmed;
      NeverFired(fired, armed[task.id], task.id);
    }

    /** A new timer under a fresh id keeps the id map. */
    twostate lemma RegisteredIndex(new task: TimerTask)
      requires old(Indexed()) && live == old(live) + {task} && taskMap == old(taskMap)[task.id := task]
      requires task.id == old(nextId) && nextId == old(nextId) + 1 && !task.cancelled && task.alive
      requires 0 < task.id && 0 <= task.interval
      requires forall t :: t in old(live) ==> t.alive == old(t.alive) && t.cancelled == old(t.cancelled)
      requires forall id :: id in old(taskMap) ==>
                 && old(taskMap)[id].alive == old(taskMap[id].alive)
                 && old(taskMap)[id].cancelled == old(taskMap[id].cancelled)
      ensures Indexed()
    {}

    /** A new timer under a fresh id keeps the history. */
    twostate lemma RegisteredHistory(new task: TimerTask)
      requires old(History()) && live == old(live) + {task}
      requires task.id == old(nextId) && nextId == old(nextId) + 1 && !task.cancelled
      requires fired == old(fired) && cancelledAt == old(cancelledAt) && runs == old(runs)
      requires forall t :: t in old(live) ==> t.cancelled == old(t.cancelled)
      ensures History()
    {
      hide InTime;
      forall id | old(Pending(id)) ensures Pending(id) {
        var t :| t in old(live) && t.id == id && !old(t.cancelled);
        assert t in live;
      }
      assert Pending(task.id) by { assert task in live; }
      forall id | id in cancelledAt ensures !Pending(id) {
        assert !old(Pending(id));
        assert forall t :: t in old(live) && t.id == id ==> t.cancelled;
      }
      forall id | old(FiredOnce(id)) ensures FiredOnce(id) {}
    }

    /** add_timer: refuses a delay that is not positive and an empty callback. */
    method AddTimer(delayMs: int, callback: bool, ghost end: bool) returns (handle: Handle)
      requires Sound() && Synced() && (end ==> clock == Visit(0, absolute[0]))
      modifies this`slots, this`filed, this`live, this`taskMap, this`nextId, this`armed
      ensures Sound() && old(live) <= live
      ensures Undisturbed(delayMs, end) && (!end && old(Settled()) ==> Settled())
      ensures handle.valid ==> Appended(delayMs, handle.id, 0)
      ensures forall t :: t in live && t !in old(live) ==> fresh(t) && t.interval == 0
      ensures handle.valid <==> 0 < delayMs && callback
      ensures !handle.valid ==> live == old(live) && slots == old(slots) && nextId == old(nextId)
      ensures handle.valid ==> handle.id == old(nextId) && nextId == old(nextId) + 1
      ensures handle.valid ==> Pending(handle.id)
      ensures armed == if handle.valid then old(armed)[handle.id := ArmedFor(delayMs, 0, end)] else old(armed)
      ensures RecordKept()
    {
      hide Structure, Aligned, Indexed, History, Ledger, TaskOnTime, LayerFor, Offset, Visit, OnTime, ArmedFor, Rearmed,
           Rounds, Appended;
      if delayMs <= 0 || !callback {
        return Handle(0, false);
      }
      var task := Schedule(delayMs, 0, end);
      FiledUndisturbed(delayMs, end, task);
      FiledAppended(delayMs, end, task);
      return Handle(task.id, true);
    }

    /** add_repeat_timer: like add_timer, with an interval to re-arm after. */
    method AddRepeatTimer(intervalMs: int, callback: bool, ghost end: bool) returns (handle: Handle)
      requires Sound() && Synced() && (end ==> clock == Visit(0, absolute[0]))
      modifies this`slots, this`filed, this`live, this`taskMap, this`nextId, this`armed
      ensures Sound() && old(live) <= live
      ensures Undisturbed(intervalMs, end) && (!end && old(Settled()) ==> Settled())
      ensures handle.valid ==> Appended(intervalMs, handle.id, intervalMs)
      ensures forall t :: t in live && t !in old(live) ==> fresh(t) && t.interval == intervalMs
      ensures handle.valid <==> 0 < intervalMs && callback
      ensures !handle.valid ==> live == old(live) && slots == old(slots) && nextId == old(nextId)
      ensures handle.valid ==> handle.id == old(nextId) && nextId == old(nextId) + 1
      ensures handle.valid ==> Pending(handle.id)
      ensures armed == if handle.valid then old(armed)[handle.id := ArmedFor(intervalMs, intervalMs, end)] else old(armed)
      ensures RecordKept()
    {
      hide Structure, Aligned, Indexed, History, Ledger, TaskOnTime, LayerFor, Offset, Visit, OnTime, ArmedFor, Rearmed,
           Rounds, Appended;
      if intervalMs <= 0 || !callback {
        return Handle(0, false);
      }
      var task := Schedule(intervalMs, intervalMs, end);
      FiledUndisturbed(intervalMs, end, task);
      FiledAppended(intervalMs, end, task);
      return Handle(task.id, true);
    }

    /** cancel_timer: from here on the id never fires. */
    method CancelTimer(handle: Handle) returns (h: Handle)
      requires Sound()
      modifies this`taskMap, this`cancelledAt, live`cancelled
      ensures Sound() && RecordKept() && h == Handle(handle.id, false)
      ensures handle.valid && handle.id < nextId ==> handle.id in cancelledAt && !Pending(handle.id)
      ensures cancelledAt.Keys == old(cancelledAt).Keys + if handle.valid && handle.id < nextId then {handle.id} else {}
      ensures forall t :: t in live && !(handle.valid && t.id == handle.id) ==> t.cancelled == old(t.cancelled)
      ensures forall t :: t in live && old(t.cancelled) ==> t.cancelled
    {
      hide Structure, Aligned, TaskOnTime, History, Ledger, Configured, Indexed, Pending;
      h := Handle(handle.id, false);
      if handle.valid {
        Revoke(handle.id);
        if handle.id < nextId && handle.id !in cancelledAt {
          cancelledAt := cancelledAt[handle.id := |fired|];
        }
        CancelHistory(handle.id);
      }
    }

    /** The locked part of cancel_timer. */
    method Revoke(id: nat)
      requires Indexed()
      modifies this`taskMap, live`cancelled
      ensures Indexed() && !Pending(id)
      ensures forall t :: t in live ==> t.cancelled == (old(t.cancelled) || t.id == id)
    {
      if id in taskMap {
        var task := taskMap[id];
        if task.alive {
          task.cancelled := true;
        }
        taskMap := taskMap - {id};
      }
      CancelIndexed(id);
    }

    twostate lemma CancelIndexed(id: nat)
      requires old(Indexed()) && live == old(live) && nextId == old(nextId)
      requires taskMap == old(taskMap) - {id}
      requires forall t :: t in live ==> t.alive == old(t.alive)
      requires forall i :: i in old(taskMap) ==> old(taskMap)[i].alive == old(taskMap[i].alive)
      requires forall t :: t in live ==>
                 t.cancelled == (old(t.cancelled) || (id in old(taskMap) && t == old(taskMap)[id]))
      ensures Indexed() && !Pending(id)
    {
      assert forall t :: t in live && t.id == id ==> t.cancelled;
    }

    twostate lemma CancelHistory(id: nat)
      requires old(Indexed()) && old(History()) && live == old(live) && nextId == old(nextId)
      requires fired == old(fired) && runs == old(runs) && !Pending(id)
      requires cancelledAt == if id < nextId && id !in old(cancelledAt) then old(cancelledAt)[id := |fired|] else old(cancelledAt)
      requires forall t :: t in live && t.id != id ==> t.cancelled == old(t.cancelled)
      requires forall t :: t in live && old(t.cancelled) ==> t.cancelled
      ensures History()
    {
      forall i | i != id ensures Pending(i) == old(Pending(i)) {
        if old(Pending(i)) {
          var t :| t in live && t.id == i && !old(t.cancelled);
          assert t in live && t.id == i && !t.cancelled;
        }
        if Pending(i) {
          var t :| t in live && t.id == i && !t.cancelled;
          assert t in live && t.id == i && !old(t.cancelled);
        }
      }
      forall i ensures FiredOnce(i) == old(FiredOnce(i)) {}
    }

    /** is_timer_valid. */
    method IsTimerValid(handle: Handle) returns (valid: bool)
      requires Sound()
      ensures valid <==> handle.valid && Pending(handle.id)
    {
      if !handle.valid {
        return false;
      }
      if handle.id in taskMap {
        var task := taskMap[handle.id];
        valid := task.alive && !task.cancelled;
        if valid { assert task in live && task.id == handle.id; }
      } else {
        valid := false;
      }
    }

    // -------------------------------------------------------------- firing

    ghost predicate NoShortRepeat()
      reads `live
    {
      forall t :: t in live ==> t.interval == 0 || tickMs <= t.interval
    }

    ghost predicate Patient(requests: seq<Request>)
    {
      forall i :: 0 <= i < |requests| && requests[i].Arm? ==> tickMs <= requests[i].delay
    }

    ghost predicate PatientCallbacks()
    {
      forall id, n :: Patient(react(id, n))
    }

    /** Layer 0's current slot is being walked at its visit time and the first `done` tasks in it
      have been told to wait another turn; nothing else is a full turn away. */
    ghost predicate Walking(done: nat)
      reads `current, `slots, `absolute, `filed, `clock, filed`layer, filed`due
    {
      && Configured() && Structure()
      && clock == Visit(0, absolute[0])
      && done <= |slots[0][current[0]]|
      && (forall j :: 0 <= j < done ==> slots[0][current[0]][j].due == absolute[0] + wheelSize)
      && (forall j :: done <= j < |slots[0][current[0]]| ==> slots[0][current[0]][j].due == absolute[0])
      && (forall t :: t in filed && (t.layer != 0 || t.due % wheelSize != current[0]) ==>
            t.due < absolute[t.layer] + wheelSize)
    }

    /** The list erase of process_slot. */
    method Drop(done: nat)
      requires Configured() && Structure() && Walking(done) && done < |slots[0][current[0]]|
      modifies this`slots, this`filed
      ensures Structure() && Walking(done)
      ensures filed == old(filed) - {old(slots[0][current[0]][done])}
      ensures slots[0][current[0]] == old(slots[0][current[0]])[..done] + old(slots[0][current[0]])[done + 1..]
    {
      HandBounds();
      hide OnTime, Visit, Walking, Structure, Configured;
      var list := slots[0][current[0]];
      slots := slots[0 := slots[0][current[0] := list[..done] + list[done + 1..]]];
      filed := filed - {list[done]};
      DropStructure(done);
      DropWalking(done);
    }

    twostate lemma DropStructure(new done: nat)
      requires Configured() && old(Structure()) && done < |old(Hand())|
      requires current == old(current) && absolute == old(absolute) && filed == old(filed) - {old(Hand())[done]}
      requires slots == old(slots)[0 := old(slots)[0][current[0] := old(Hand())[..done] + old(Hand())[done + 1..]]]
      requires forall t :: t in old(filed) ==> t.layer == old(t.layer) && t.due == old(t.due)
      ensures Structure() && forall t :: t in old(Hand()) ==> t in old(filed)
    {
      var list := old(Hand());
      assert list == old(slots)[0][current[0]];
      OthersStay(list, done);
      ShorterStructure(list[done], list[..done] + list[done + 1..]);
    }

    /** The slot at hand without one of its tasks. */
    twostate lemma ShorterStructure(new gone: TimerTask, new rest: seq<TimerTask>)
      requires Configured() && old(Structure()) && gone in old(Hand())
      requires current == old(current) && absolute == old(absolute) && filed == old(filed) - {gone}
      requires slots == old(slots)[0 := old(slots)[0][current[0] := rest]]
      requires forall t :: t in old(filed) ==> t.layer == old(t.layer) && t.due == old(t.due)
      requires forall t :: t in rest ==> t in old(Hand()) && t != gone
      requires forall t :: t in old(Hand()) && t != gone ==> t in rest
      requires forall i, j :: 0 <= i < j < |rest| ==> rest[i] != rest[j]
      ensures Structure() && forall t :: t in old(Hand()) ==> t in old(filed)
    {
      ShorterFiled(gone, rest);
      ShorterFound(gone, rest);
      hide Configured;
    }

    twostate lemma ShorterFiled(new gone: TimerTask, new rest: seq<TimerTask>)
      requires Configured() && old(Structure()) && gone in old(Hand())
      requires current == old(current) && absolute == old(absolute) && filed == old(filed) - {gone}
      requires slots == old(slots)[0 := old(slots)[0][current[0] := rest]]
      requires forall t :: t in old(filed) ==> t.layer == old(t.layer) && t.due == old(t.due)
      requires forall t :: t in rest ==> t in old(Hand()) && t != gone
      ensures |slots| == |width| && (forall k :: 0 <= k < |width| ==> |slots[k]| == wheelSize)
      ensures forall k, s, i :: 0 <= k < |width| && 0 <= s < wheelSize && 0 <= i < |slots[k][s]| ==>
                slots[k][s][i] in filed && slots[k][s][i].layer == k && slots[k][s][i].due % wheelSize == s
    {
      assert gone.layer == 0 && gone.due % wheelSize == current[0];
      forall k, s, i | 0 <= k < |width| && 0 <= s < wheelSize && 0 <= i < |slots[k][s]|
        ensures slots[k][s][i] in filed && slots[k][s][i].layer == k && slots[k][s][i].due % wheelSize == s
      {
        if k == 0 && s == current[0] {
          assert slots[k][s][i] in rest;
        } else {
          assert slots[k][s][i] == old(slots)[k][s][i];
        }
      }
    }

    twostate lemma ShorterFound(new gone: TimerTask, new rest: seq<TimerTask>)
      requires Configured() && old(Structure()) && gone in old(Hand())
      requires current == old(current) && absolute == old(absolute) && filed == old(filed) - {gone}
      requires slots == old(slots)[0 := old(slots)[0][current[0] := rest]]
      requires forall t :: t in old(filed) ==> t.layer == old(t.layer) && t.due == old(t.due)
      requires forall t :: t in old(Hand()) && t != gone ==> t in rest
      ensures forall t :: t in filed ==>
                && t.layer < |width| == |slots| && 0 <= t.due % wheelSize < |slots[t.layer]|
                && t in slots[t.layer][t.due % wheelSize]
    {}

    lemma OthersStay(list: seq<TimerTask>, done: nat)
      requires done < |list|
      requires forall i, j :: 0 <= i < j < |list| ==> list[i] != list[j]
      ensures var rest := list[..done] + list[done + 1..];
              && (forall t :: t in list && t != list[done] ==> t in rest)
              && (forall t :: t in rest ==> t in list && t != list[done])
              && (forall i, j :: 0 <= i < j < |rest| ==> rest[i] != rest[j])
    {
      forall t | t in list && t != list[done] ensures t in list[..done] + list[done + 1..] {
        var i :| 0 <= i < |list| && list[i] == t;
        assert (list[..done] + list[done + 1..])[if i < done then i else i - 1] == t;
      }
    }

    twostate lemma DropWalking(new done: nat)
      requires Configured() && old(Structure()) && Structure() && old(Walking(done))
      requires current == old(current) && absolute == old(absolute) && clock == old(clock)
      requires filed <= old(filed) && forall t :: t in filed ==> t.layer == old(t.layer) && t.due == old(t.due)
      requires var list := old(slots[0][current[0]]);
               done < |list| && slots[0][current[0]] == list[..done] + list[done + 1..]
      requires forall t :: t in old(slots[0][current[0]]) ==> t.due == old(t.due)
      ensures Walking(done)
    {}

    /** The slot being walked. */
    ghost function Hand(): seq<TimerTask>
      reads `current, `slots, `absolute, `filed, filed`layer, filed`due
    {
      if Configured() && Structure() then slots[0][current[0]] else []
    }

    ghost function Entries(list: seq<TimerTask>): (r: seq<Entry>)
      reads list`rounds, list`cancelled
      ensures |r| == |list| && forall j :: 0 <= j < |list| ==> r[j] == EntryOf(list[j])
    {
      if list == [] then [] else Entries(list[..|list| - 1]) + [EntryOf(list[|list| - 1])]
    }

    ghost function Rules(): Setting {
      Setting(width, wheelSize, react)
    }

    lemma RulesTick()
      requires Configured()
      ensures Rules().Ok() && Rules().width[0] == tickMs
    {}

    /** A step of the walk, and what a callback's requests make of it, by the rules of this wheel. */
    ghost function StepOf(w: Walk): Walk {
      if Rules().Ok() then Step(Rules(), w) else w
    }

    ghost function FiredOf(w: Walk): Walk {
      if Rules().Ok() && Due(w) then Fired(Rules(), w) else w
    }

    ghost function ServedOf(w: Walk, request: Request): Walk {
      if Rules().Ok() then Served(Rules(), w, request) else w
    }

    ghost function ServedAllOf(w: Walk, requests: seq<Request>): Walk {
      if Rules().Ok() then ServedAll(Rules(), w, requests) else w
    }

    /** The walk of the current slot, with the iterator at a position, as TimerWalks sees it. */
    ghost function View(at: nat): Walk
      reads `current, `slots, `absolute, `filed, filed`layer, filed`due, `runs, `nextId
      reads Hand()`rounds, Hand()`cancelled
    {
      Walk(Entries(Hand()), at, runs, nextId)
    }

    lemma AtHand(done: nat)
      requires Sound() && Walking(done) && done < |slots[0][current[0]]|
      ensures |slots| == |current| == |width| && 0 <= current[0] < |slots[0]|
      ensures var task := slots[0][current[0]][done];
              && task in live && task.layer == 0 && task.due == absolute[0] && task.due % wheelSize == current[0]
              && TaskOnTime(task) && 0 <= task.rounds && 0 <= task.interval
              && (forall i :: 0 <= i < |slots[0][current[0]]| && i != done ==> slots[0][current[0]][i] != task)
    {
      hide History, Aligned, Visit;
    }

    /** A cancelled task is only taken out of the slot. */
    method Discard(done: nat)
      requires Sound() && Walking(done) && done < |slots[0][current[0]]| && slots[0][current[0]][done].cancelled
      modifies this`slots, this`filed, this`live, live`alive
      ensures Sound() && Walking(done) && Hand() == old(Hand()[..done] + Hand()[done + 1..])
      ensures live < old(live)
    {
      hide Structure, Aligned, Indexed, History, Ledger, TaskOnTime, Walking, Visit, OnTime;
      AtHand(done);
      var task := slots[0][current[0]][done];
      Drop(done);
      task.alive := false;
      live := live - {task};
      DiscardKeeps(task);
    }

    twostate lemma DiscardKeeps(new task: TimerTask)
      requires old(Indexed() && History() && Ledger()) && task in old(live) && task.cancelled && !task.alive
      requires armed == old(armed)
      requires forall t :: t in old(live) ==> t.expire == old(t.expire) && t.arming == old(t.arming)
      requires live == old(live) - {task} && taskMap == old(taskMap) && nextId == old(nextId)
      requires fired == old(fired) && cancelledAt == old(cancelledAt) && runs == old(runs)
      requires forall t :: t in old(live) ==> t.cancelled == old(t.cancelled)
      requires forall t :: t in live ==> t.alive == old(t.alive)
      requires forall id :: id in taskMap ==>
                 && taskMap[id].cancelled == old(taskMap[id].cancelled)
                 && (taskMap[id].alive ==> old(taskMap[id].alive) && taskMap[id] != task)
      ensures Indexed() && History() && Ledger()
    {
      forall id ensures Pending(id) == old(Pending(id)) {
        if old(Pending(id)) {
          var t :| t in old(live) && t.id == id && !old(t.cancelled);
          assert t in live;
        }
      }
      forall id ensures FiredOnce(id) == old(FiredOnce(id)) {}
    }

    /** A task with rounds left sits out one more turn in the same slot. */
    method SitOut(done: nat)
      requires Sound() && Walking(done) && done < |slots[0][current[0]]| && slots[0][current[0]][done].rounds > 0
      modifies live`rounds, live`due
      ensures Sound() && Walking(done + 1) && Hand() == old(Hand())
      ensures forall t :: t in live ==> t.rounds == old(t.rounds) - if t == old(Hand()[done]) then 1 else 0
    {
      hide Structure, Aligned, Indexed, History, Ledger, TaskOnTime, Walking, Visit, OnTime;
      AtHand(done);
      var task := slots[0][current[0]][done];
      task.rounds := task.rounds - 1;
      task.due := task.due + wheelSize;
      SitOutStructure(done, task);
      SitOutOnTime(task);
    }

    twostate lemma SitOutStructure(done: nat, new task: TimerTask)
      requires Configured() && old(Structure()) && old(Walking(done))
      requires slots == old(slots) && filed == old(filed) && absolute == old(absolute) && current == old(current)
      requires done < |slots[0][current[0]]| && task == slots[0][current[0]][done] && task in filed && task.layer == 0
      requires forall i :: 0 <= i < |slots[0][current[0]]| && i != done ==> slots[0][current[0]][i] != task
      requires clock == old(clock) && task.due == absolute[0] + wheelSize && old(task.due) == absolute[0]
      requires forall t :: t in filed ==> t.layer == old(t.layer) && (t != task ==> t.due == old(t.due))
      ensures Structure() && Walking(done + 1)
    {
      ModAdd(absolute[0], 0, wheelSize);
    }

    twostate lemma SitOutOnTime(new task: TimerTask)
      requires Configured() && old(allocated(task)) && old(TaskOnTime(task)) && old(task.rounds) > 0
      requires task.layer == 0 == old(task.layer) && task.arming == old(task.arming) && task.expire == old(task.expire)
      requires task.rounds == old(task.rounds) - 1 && task.due == old(task.due) + wheelSize
      ensures TaskOnTime(task)
    {
      SkippedOnTime(|width| - 1, wheelSize, tickMs, Visit(0, old(task.due)), task.expire, old(task.rounds), Slack(task.arming));
      LaterVisit(old(task.due));
      SkippedExact(Visit(0, old(task.due)), task.expire, old(task.rounds));
      hide OnTime, Visit, Arrival, RunTime, Timely, Slack, Turn, Layered;
    }

    lemma SkippedExact(visit: int, expire: int, rounds: int)
      requires Configured() && Layered(width, wheelSize)
      ensures Arrival(width, wheelSize, 0, visit + tickMs * wheelSize, expire, rounds - 1) ==
              Arrival(width, wheelSize, 0, visit, expire, rounds)
    {
      assert (rounds - 1) * (tickMs * wheelSize) == rounds * (tickMs * wheelSize) - tickMs * wheelSize;
    }

    lemma LaterVisit(due: nat)
      requires Configured()
      ensures Visit(0, due + wheelSize) == Visit(0, due) + tickMs * wheelSize
    {
      assert (due + wheelSize + 1) * tickMs == (due + 1) * tickMs + tickMs * wheelSize;
    }

    /** A due one-shot task leaves the wheel and its callback run is logged. */
    method FireOneShot(done: nat, task: TimerTask)
      requires Sound() && Walking(done) && done < |slots[0][current[0]]| && task == slots[0][current[0]][done]
      requires !task.cancelled && task.rounds == 0 && task.interval == 0
      modifies this`slots, this`filed, this`live, this`fired, this`runs, live`alive
      ensures Sound() && Walking(done) && Hand() == old(Hand()[..done] + Hand()[done + 1..])
      ensures live == old(live) - {task} && runs == old(runs) + 1
      ensures fired == old(fired) + [Firing(task.id, clock, task.arming)]
    {
      hide Structure, Aligned, Indexed, History, Ledger, TaskOnTime, Walking, Visit, OnTime;
      AtHand(done);
      FiresInTime(done);
      Drop(done);
      task.alive := false;
      live := live - {task};
      ghost var firing := Firing(task.id, clock, task.arming);
      fired, runs := fired + [firing], runs + 1;
      OneShotIndex(task);
      OneShotHistory(task, firing);
    }

    lemma FiresInTime(done: nat)
      requires Sound() && Walking(done) && done < |slots[0][current[0]]| && slots[0][current[0]][done].rounds == 0
      ensures var t := slots[0][current[0]][done];
              t.expire == t.arming.expire && t.interval == t.arming.interval && InTime(Firing(t.id, clock, t.arming))
    {
      AtHand(done);
      assert Booked(slots[0][current[0]][done]);
      hide Structure, Indexed, History, Aligned, Ledger, Rearmed;
    }

    /** One more callback run of a pending timer extends the history. */
    twostate lemma LogGrows(new f: Firing)
      requires old(History()) && fired == old(fired) + [f] && runs == old(runs) + 1
      requires cancelledAt == old(cancelledAt) && nextId == old(nextId)
      requires 0 < f.id < nextId && InTime(f) && old(Pending(f.id))
      requires forall id :: Pending(id) ==> old(Pending(id))
      requires forall id :: old(Pending(id)) ==> Pending(id) || (id == f.id && !f.Repeat())
      requires forall i :: 0 <= i < |old(fired)| && old(fired)[i].id == f.id ==> f.Repeat()
      requires forall t :: t in live && t.id == f.id ==> f.Repeat() && t.interval > 0
      requires forall t, i :: t in live && 0 <= i < |old(fired)| && old(fired)[i].id == t.id ==>
                 old(fired)[i].Repeat() && t.interval > 0
      ensures History()
    {
      hide InTime, FiredOnce;
      var last := |old(fired)|;
      assert fired[last] == f;
      assert forall i :: 0 <= i < last ==> fired[i] == old(fired)[i];
      assert old(Pending(f.id));
      forall i | 0 <= i < last && fired[i].id == f.id ensures fired[i].Repeat() {
        assert old(fired)[i].id == f.id;
      }
      FiredOnceGrows(f);
    }

    twostate lemma FiredOnceGrows(new f: Firing)
      requires fired == old(fired) + [f]
      ensures forall id :: FiredOnce(id) <==> old(FiredOnce(id)) || (id == f.id && !f.Repeat())
    {
      var last := |old(fired)|;
      assert fired[last] == f;
      forall id | old(FiredOnce(id)) ensures FiredOnce(id) {
        var i :| 0 <= i < last && old(fired)[i].id == id && !old(fired)[i].Repeat();
        assert fired[i] == old(fired)[i];
      }
    }

    /** A callback run that was due extends the ledger and re-arms its timer. */
    twostate lemma LedgerGrows(new f: Firing)
      requires old(LoggedAsArmed()) && fired == old(fired) + [f] && armed == old(armed) && nextId == old(nextId)
      requires f.id in armed && f.arming == Rearmed(old(fired), armed[f.id], f.id)
      ensures LoggedAsArmed()
      ensures forall id :: id in armed ==>
                Rearmed(fired, armed[id], id) == if id == f.id then Again(f) else Rearmed(old(fired), armed[id], id)
    {
      hide Rearmed, Again;
      var last := |old(fired)|;
      assert fired[..last] == old(fired);
      forall i | 0 <= i < last ensures fired[..i] == old(fired)[..i] && fired[i] == old(fired)[i] {}
      forall id | id in armed
        ensures Rearmed(fired, armed[id], id) == if id == f.id then Again(f) else Rearmed(old(fired), armed[id], id)
      {
        RearmedSnoc(old(fired), f, armed[id], id);
      }
    }

    twostate lemma OneShotHistory(new task: TimerTask, new f: Firing)
      requires old(Indexed() && History() && Ledger()) && fired == old(fired) + [f] && runs == old(runs) + 1
      requires armed == old(armed) && cancelledAt == old(cancelledAt) && nextId == old(nextId)
      requires old(allocated(task)) && f.arming == old(task.arming) && old(task.arming).interval == 0
      requires forall t :: t in old(live) ==> t.expire == old(t.expire) && t.arming == old(t.arming)
      requires f.id == task.id && InTime(f)
      requires task in old(live) && task.interval == 0 && live == old(live) - {task} && old(Pending(task.id))
      requires forall id :: Pending(id) <==> old(Pending(id)) && id != task.id
      ensures History() && Ledger()
    {
      hide Pending, InTime, Rearmed;
      LogGrows(f);
      LedgerGrows(f);
    }

    twostate lemma RepeatHistory(new task: TimerTask, new f: Firing)
      requires old(Indexed() && History() && LoggedAsArmed()) && fired == old(fired) + [f] && runs == old(runs) + 1
      requires cancelledAt == old(cancelledAt) && nextId == old(nextId) && armed == old(armed)
      requires f.id == task.id && f.Repeat() && InTime(f)
      requires f.id in armed && f.arming == Rearmed(old(fired), armed[f.id], f.id)
      requires task in old(live) && task.interval > 0 && old(Pending(task.id))
      requires task.id in taskMap && taskMap[task.id].id == task.id && taskMap[task.id].interval == task.interval
      requires live == old(live) - {task} + {taskMap[task.id]}
      requires forall id :: Pending(id) <==> old(Pending(id))
      ensures History() && LoggedAsArmed()
      ensures forall id :: id in armed ==>
                Rearmed(fired, armed[id], id) == if id == f.id then Again(f) else Rearmed(old(fired), armed[id], id)
    {
      hide Pending, InTime, Rearmed, Again, LoggedAsArmed;
      LogGrows(f);
      LedgerGrows(f);
    }

    twostate lemma OneShotIndex(new task: TimerTask)
      requires old(Indexed()) && task in old(live) && !old(task.cancelled) && !task.alive
      requires live == old(live) - {task} && taskMap == old(taskMap) && nextId == old(nextId)
      requires forall t :: t in old(live) ==> t.cancelled == old(t.cancelled)
      requires forall t :: t in live ==> t.alive == old(t.alive)
      requires forall id :: id in taskMap ==>
                 && taskMap[id].cancelled == old(taskMap[id].cancelled)
                 && (taskMap[id].alive ==> old(taskMap[id].alive) && taskMap[id] != task)
      ensures Indexed() && old(Pending(task.id))
      ensures forall id :: Pending(id) <==> old(Pending(id)) && id != task.id
    {
      forall id | old(Pending(id)) && id != task.id ensures Pending(id) {
        var t :| t in old(live) && t.id == id && !old(t.cancelled);
        assert t in live;
      }
    }

    /** A due repeat task is re-armed under its own id with a new task object, and leaves the slot.
      An interval below the base tick puts the new task at the end of the same slot. */
    method FireRepeat(done: nat, task: TimerTask) returns (again: TimerTask)
      requires Sound() && Walking(done) && done < |slots[0][current[0]]| && task == slots[0][current[0]][done]
      requires !task.cancelled && task.rounds == 0 && 0 < task.interval && Synced()
      modifies this`slots, this`filed, this`live, this`fired, this`runs, this`taskMap, task`alive, task`expire
      ensures RecordKept()
      ensures Sound() && Walking(done) && runs == old(runs) + 1
      ensures Hand() == old(Hand()[..done] + Hand()[done + 1..]) + if task.interval < tickMs then [again] else []
      ensures task.interval < tickMs ==> EntryOf(again) == Entry(task.id, 0, false, task.interval)
      ensures fresh(again) && live == old(live) - {task} + {again} && taskMap == old(taskMap)[task.id := again]
      ensures again.id == task.id && again.interval == task.interval && again.expire == clock + task.interval
      ensures fired == old(fired) + [Firing(task.id, clock, task.arming)]
    {
      hide Structure, Aligned, Indexed, History, LoggedAsArmed, TaskOnTime, Walking, Visit, OnTime, LayerFor, Offset,
           Rearmed, InTime, SlotWidth, Configured, Slack;
      AtHand(done);
      FiresInTime(done);
      AllBooked();
      ghost var was := task.arming;
      task.expire := clock + task.interval;
      again := Replace(done, task);
      LogRepeat(task, again, was);
    }

    /** The copy goes into the wheel, then the task out of the slot. */
    method Replace(done: nat, task: TimerTask) returns (again: TimerTask)
      requires Configured() && Structure() && Aligned() && Walking(done)
      requires done < |slots[0][current[0]]| && task == slots[0][current[0]][done]
      requires 0 < task.interval && task.expire == clock + task.interval && Synced()
      modifies this`slots, this`filed
      ensures fresh(again) && again.id == task.id && again.interval == task.interval && again.expire == task.expire
      ensures !again.cancelled && again.alive && TaskOnTime(again)
      ensures again.arming == Arming(task.interval, task.expire, task.interval, false, clock)
      ensures Structure() && Walking(done) && filed == old(filed) - {task} + {again}
      ensures Hand() == old(Hand()[..done] + Hand()[done + 1..]) + if task.interval < tickMs then [again] else []
      ensures task.interval < tickMs ==> again.rounds == 0
    {
      hide *;
      InFiled(done);
      SlotIsHand();
      again := Rearm(done, task.id, task.interval, task.expire);
      ghost var longer := Hand();
      SlotIsHand();
      Drop(done);
      SlotIsHand();
      CutLonger(old(Hand()), longer, done, if task.interval < tickMs then [again] else []);
    }

    lemma CutLonger(list: seq<TimerTask>, longer: seq<TimerTask>, done: nat, more: seq<TimerTask>)
      requires done < |list| && longer == list + more
      ensures longer[..done] + longer[done + 1..] == list[..done] + list[done + 1..] + more
    {}

    lemma InFiled(done: nat)
      requires Configured() && Structure() && done < |slots[0][current[0]]|
      ensures slots[0][current[0]][done] in filed
    {}

    lemma AllBooked()
      requires Sound()
      ensures forall t :: t in live ==> Booked(t)
    {}

    /** Points the id map at the copy and logs the fired task's callback run. */
    method LogRepeat(task: TimerTask, again: TimerTask, ghost was: Arming)
      requires Indexed() && History() && LoggedAsArmed()
      requires task.id in armed && was == Rearmed(fired, armed[task.id], task.id) && was.interval == task.interval
      requires forall t :: t in live && t != task ==> Booked(t)
      requires task in live && !task.cancelled && 0 < task.interval
      requires again !in live && again.id == task.id && again.interval == task.interval && !again.cancelled && again.alive
      requires again.arming == Again(Firing(task.id, clock, was)) && again.expire == again.arming.expire
      requires InTime(Firing(task.id, clock, was)) && again !in taskMap.Values
      modifies this`live, this`fired, this`runs, this`taskMap, task`alive
      ensures Indexed() && History() && Ledger() && runs == old(runs) + 1
      ensures live == old(live) - {task} + {again} && taskMap == old(taskMap)[task.id := again]
      ensures fired == old(fired) + [Firing(task.id, clock, was)]
    {
      hide *;
      taskMap := taskMap[task.id := again];
      task.alive := false;
      live := live - {task} + {again};
      ghost var firing := Firing(task.id, clock, was);
      fired, runs := fired + [firing], runs + 1;
      RepeatLogged(task, again, firing);
    }

    twostate lemma RepeatLogged(new task: TimerTask, new again: TimerTask, new f: Firing)
      requires old(allocated(task)) && old(Indexed() && History() && LoggedAsArmed())
      requires task in old(live) && again !in old(live) && live == old(live) - {task} + {again} && armed == old(armed)
      requires !old(task.cancelled) && 0 < task.interval && !task.alive && again !in old(taskMap).Values
      requires forall t :: t in old(live) && t != task ==> old(Booked(t))
      requires forall t: TimerTask :: old(allocated(t)) ==>
                 && t.cancelled == old(t.cancelled) && (t != task ==> t.alive == old(t.alive))
                 && t.expire == old(t.expire) && t.arming == old(t.arming)
      requires again.id == task.id && again.interval == task.interval && !again.cancelled && again.alive
      requires taskMap == old(taskMap)[task.id := again] && nextId == old(nextId) && cancelledAt == old(cancelledAt)
      requires fired == old(fired) + [f] && runs == old(runs) + 1
      requires f.id == task.id && f.id in armed && f.arming == Rearmed(old(fired), armed[f.id], f.id)
      requires f.arming.interval == task.interval && InTime(f)
      requires again.arming == Again(f) && again.expire == again.arming.expire
      ensures Indexed() && History() && Ledger()
    {
      hide History, LoggedAsArmed, Pending, Rearmed, InTime, Booked;
      assert forall t :: t in old(live) && t != task ==> t.id != task.id;
      hide Indexed;
      RepeatIndex(task);
      RepeatHistory(task, f);
      RepeatBooked(task, again, f);
    }

    twostate lemma RepeatBooked(new task: TimerTask, new again: TimerTask, new f: Firing)
      requires old(allocated(task)) && task in old(live) && live == old(live) - {task} + {again} && armed == old(armed)
      requires forall t :: t in old(live) && t != task ==> t.id != task.id && old(Booked(t))
      requires forall t :: t in old(live) ==> t.expire == old(t.expire) && t.arming == old(t.arming)
      requires task.id in armed && f.id == task.id == again.id
      requires again.arming == Again(f) && again.expire == again.arming.expire && again.interval == again.arming.interval
      requires forall id :: id in armed ==>
                 Rearmed(fired, armed[id], id) == if id == f.id then Again(f) else Rearmed(old(fired), armed[id], id)
      ensures forall t :: t in live ==> Booked(t)
    {
      hide Rearmed, Again;
    }

    lemma TickIsNow(done: nat)
      requires Configured() && Structure() && Walking(done)
      ensures NextTick() == clock
    {}

    /** Files the copy of a repeat task. */
    method Rearm(done: nat, id: nat, interval: int, expire: int) returns (again: TimerTask)
      requires Configured() && Structure() && Aligned() && Walking(done) && done < |slots[0][current[0]]|
      requires 0 < interval && expire == clock + interval && Synced()
      modifies this`slots, this`filed
      ensures fresh(again) && again.id == id && again.interval == interval && again.expire == expire
      ensures !again.cancelled && again.alive && TaskOnTime(again)
      ensures again.arming == Arming(interval, expire, interval, false, clock)
      ensures Structure() && Walking(done) && filed == old(filed) + {again}
      ensures slots[0][current[0]] == old(slots[0][current[0]]) + if interval < tickMs then [again] else []
      ensures interval < tickMs ==> again.rounds == 0
    {
      TickIsNow(done);
      hide Structure, Aligned, TaskOnTime, Walking, Visit, OnTime, LayerFor, Offset, Rounds, NextTick, Synced;
      again := NewFiled(id, interval, interval, false);
      WhereItLands(interval, again.layer, false);
      RearmWalking(done, interval, again);
    }

    twostate lemma RearmWalking(new done: nat, new delay: int, new task: TimerTask)
      requires Configured() && old(Structure()) && Structure() && old(Walking(done)) && 0 < delay
      requires task !in old(filed) && fresh(task) && filed == old(filed) + {task}
      requires absolute == old(absolute) && current == old(current) && clock == old(clock)
      requires done < |old(slots[0][current[0]])|
      requires task.layer == LayerFor(width, wheelSize, delay, 0)
      requires task.due == absolute[task.layer] + Offset(task.layer, delay, -1)
      requires var s := task.due % wheelSize;
               slots == old(slots)[task.layer := old(slots)[task.layer][s := old(slots)[task.layer][s] + [task]]]
      requires forall t :: t in old(filed) ==> t.due == old(t.due) && t.layer == old(t.layer)
      ensures Walking(done)
      ensures slots[0][current[0]] == old(slots[0][current[0]]) + if delay < tickMs then [task] else []
    {
      hide LayerFor, Offset, OnTime;
      FiledUndisturbed(delay, false, task);
      StillWalking(done, delay, false);
    }

    twostate lemma RepeatIndex(new task: TimerTask)
      requires old(Indexed()) && task in old(live) && !old(task.cancelled) && !task.alive
      requires task.id in taskMap && taskMap[task.id] !in old(live) && taskMap[task.id].id == task.id
      requires taskMap[task.id].interval == task.interval && !taskMap[task.id].cancelled && taskMap[task.id].alive
      requires live == old(live) - {task} + {taskMap[task.id]} && nextId == old(nextId)
      requires taskMap == old(taskMap)[task.id := taskMap[task.id]]
      requires forall t: TimerTask :: old(allocated(t)) ==>
                 t.cancelled == old(t.cancelled) && (t != task ==> t.alive == old(t.alive))
      ensures Indexed() && old(Pending(task.id))
      ensures forall id :: Pending(id) <==> old(Pending(id))
    {
      forall id | old(Pending(id)) ensures Pending(id) {
        var t :| t in old(live) && t.id == id && !old(t.cancelled);
        assert (if t == task then taskMap[task.id] else t) in live;
      }
      forall id | !old(Pending(id)) ensures !Pending(id) {
        assert forall t :: t in old(live) && t.id == id ==> t.cancelled;
      }
    }

    /** The position of the walk after arming: `end()` stays the end of the list. */
    ghost function Position(done: nat, end: bool): nat
      reads `current, `slots, `absolute, `filed, filed`layer, filed`due
    {
      if end then |Hand()| else done
    }

    lemma WalkIs(at: nat)
      requires Sound() && Synced() && Walking(at)
      ensures AtWalk(at)
    {}

    /** Everything that holds while the iterator stands at a position of the slot or at its end. */
    ghost predicate AtWalk(at: nat)
      reads this, filed, live, taskMap.Values
    {
      Sound() && Synced() && Walking(at) && at <= |Hand()|
    }

    /** The same while a callback runs with the iterator at `done`, or at the end. */
    ghost predicate InWalk(done: nat, end: bool)
      reads this, filed, live, taskMap.Values
    {
      Sound() && Synced() && Walking(Position(done, end)) && (!end ==> done < |Hand()|)
    }

    lemma WalkBasics(done: nat, end: bool)
      requires InWalk(done, end)
      ensures Sound() && Configured() && Structure() && |absolute| == |width| && clock == Visit(0, absolute[0]) && Synced()
      ensures Rules().Ok() && Walking(Position(done, end)) && (!end ==> done < |Hand()|)
    {}

    lemma InWalkAgain(done: nat, end: bool)
      requires Sound() && Synced() && Walking(Position(done, end)) && (!end ==> done < |Hand()|)
      ensures InWalk(done, end)
    {}

    lemma AtBasics(at: nat)
      requires AtWalk(at)
      ensures Sound() && Configured() && Structure() && Walking(at) && Rules().Ok() && at <= |Hand()|
      ensures |absolute| == |width| && Synced()
      ensures 0 < |slots| == |current| == |absolute| == |width| && 0 <= current[0] < |slots[0]|
    {}

    /** A callback's requests are served inside the walk: what they append to the walked slot is
      still to be walked, unless the walk has come to its end. */
    method RunCallback(requests: seq<Request>, done: nat, end: bool)
      requires InWalk(done, end)
      modifies this`slots, this`filed, this`live, this`taskMap, this`nextId, this`armed, this`cancelledAt, live`cancelled
      ensures InWalk(done, end) && fresh(live - old(live)) && RecordKept()
      ensures View(Position(done, end)) == ServedAllOf(old(View(Position(done, end))), requests)
      ensures Patient(requests) && old(NoShortRepeat()) ==> NoShortRepeat()
    {
      hide InWalk, NoShortRepeat, View, Position, ServedOf, ServedAllOf;
      assert requests[0..] == requests;
      for i := 0 to |requests|
        invariant InWalk(done, end) && fresh(live - old(live)) && RecordKept()
        invariant ServedAllOf(View(Position(done, end)), requests[i..]) == ServedAllOf(old(View(Position(done, end))), requests)
        invariant Patient(requests) && old(NoShortRepeat()) ==> NoShortRepeat()
      {
        NextServed(View(Position(done, end)), requests, i);
        Serve(requests[i], done, end);
      }
      NextServed(View(Position(done, end)), requests, |requests|);
    }

    lemma NextServed(w: Walk, requests: seq<Request>, i: nat)
      requires i <= |requests|
      ensures if i < |requests| then ServedAllOf(w, requests[i..]) == ServedAllOf(ServedOf(w, requests[i]), requests[i + 1..])
              else ServedAllOf(w, requests[i..]) == w
    {
      if i < |requests| {
        if Rules().Ok() { ServedNext(Rules(), w, requests, i); }
      }
    }

    method Serve(request: Request, done: nat, end: bool)
      requires InWalk(done, end)
      modifies this`slots, this`filed, this`live, this`taskMap, this`nextId, this`armed, this`cancelledAt, live`cancelled
      ensures InWalk(done, end) && fresh(live - old(live)) && RecordKept()
      ensures View(Position(done, end)) == ServedOf(old(View(Position(done, end))), request)
      ensures (request.Arm? ==> tickMs <= request.delay) && old(NoShortRepeat()) ==> NoShortRepeat()
      ensures request.Arm? && 0 < request.delay ==>
                armed == old(armed)[old(nextId) :=
                  ArmedFor(request.delay, if request.repeat then request.delay else 0, end)]
    {
      hide *;
      match request
      case Arm(delay, repeat) => ServeArm(delay, repeat, done, end);
      case Cancel(id) => ServeCancel(id, done, end);
    }

    method ServeCancel(id: nat, done: nat, end: bool)
      requires InWalk(done, end)
      modifies this`taskMap, this`cancelledAt, live`cancelled
      ensures InWalk(done, end) && RecordKept()
      ensures View(Position(done, end)) == ServedOf(old(View(Position(done, end))), Cancel(id))
    {
      hide InWalk, Configured, Structure, Sound, Walking, Aligned, Indexed, History, Ledger, TaskOnTime, Visit, View, Hand,
           Position, ServedOf, RecordKept, Rules, Setting.Ok;
      WalkBasics(done, end);
      HandIsLive();
      ghost var hand := Hand();
      CancelEverywhere(id, hand);
      SoundBasics();
      InWalkAgain(done, end);
      CancelledView(id, done, end);
    }

    method CancelEverywhere(id: nat, ghost some: seq<TimerTask>)
      requires Sound() && forall t :: t in some ==> t in live && t.id < nextId
      modifies this`taskMap, this`cancelledAt, live`cancelled
      ensures Sound() && RecordKept()
      ensures forall t :: t in some ==> t.cancelled == (old(t.cancelled) || t.id == id)
    {
      hide Structure, Aligned, Indexed, History, Ledger, TaskOnTime, Visit, OnTime, LayerFor, Pending, RecordKept, Sound;
      var h := CancelTimer(Handle(id, true));
      CancelledAll(id);
    }

    lemma HandIsLive()
      requires Sound()
      ensures forall t :: t in Hand() ==> t in live && t.id < nextId
    {}

    /** A timer that is not pending is cancelled wherever it is. */
    lemma CancelledAll(id: nat)
      requires !Pending(id) || id >= nextId
      ensures forall t :: t in live && t.id == id && t.id < nextId ==> t.cancelled
    {}

    twostate lemma CancelledView(new id: nat, new done: nat, new end: bool)
      requires Configured() && old(Structure()) && Structure() && Hand() == old(Hand()) && Rules().Ok()
      requires runs == old(runs) && nextId == old(nextId)
      requires forall t :: t in Hand() ==>
                 t.rounds == old(t.rounds) && t.cancelled == (old(t.cancelled) || t.id == id)
      ensures View(Position(done, end)) == ServedOf(old(View(Position(done, end))), Cancel(id))
    {
      hide Entries, Structure, Configured;
      var v, w := View(Position(done, end)), old(View(Position(done, end)));
      assert v.list == Revoked(w.list, id);
    }

    method ServeArm(delay: int, repeat: bool, done: nat, end: bool)
      requires InWalk(done, end)
      modifies this`slots, this`filed, this`live, this`taskMap, this`nextId, this`armed
      ensures InWalk(done, end) && fresh(live - old(live)) && RecordKept()
      ensures View(Position(done, end)) == ServedOf(old(View(Position(done, end))), Arm(delay, repeat))
      ensures tickMs <= delay && old(NoShortRepeat()) ==> NoShortRepeat()
      ensures 0 < delay ==>
                armed == old(armed)[old(nextId) := ArmedFor(delay, if repeat then delay else 0, end)]
    {
      hide InWalk, Configured, Structure, Sound, Walking, Aligned, Indexed, History, Ledger, TaskOnTime, Visit, View, Hand,
           Position, Appended, Undisturbed, ServedOf, RecordKept, NoShortRepeat, ArmedFor, Rules, Setting.Ok;
      WalkBasics(done, end);
      HandIsLive();
      ArmTimer(delay, repeat, end);
      SoundBasics();
      StillWalking(done, delay, end);
      InWalkAgain(done, end);
      ArmedView(delay, repeat, done, end);
    }

    twostate lemma ArmedView(new delay: int, new repeat: bool, new done: nat, new end: bool)
      requires Configured() && old(Structure()) && Structure() && Rules().Ok()
      requires runs == old(runs) && nextId == old(nextId) + if 0 < delay then 1 else 0
      requires 0 < delay ==> Appended(delay, old(nextId), if repeat then delay else 0)
      requires delay <= 0 ==> Hand() == old(Hand())
      requires forall t :: t in old(Hand()) ==> t.rounds == old(t.rounds) && t.cancelled == old(t.cancelled)
      requires !end ==> done < |old(Hand())|
      ensures View(Position(done, end)) == ServedOf(old(View(Position(done, end))), Arm(delay, repeat))
    {
      hide Entries, EntryOf, LandsHere, Structure, Configured;
      RulesTick();
      if 0 < delay { LandsHereWhenShort(Rules(), delay); }
      SameEntries(old(Hand()));
      if 0 < delay < tickMs {
        var n := |old(Hand())|;
        assert Hand() == old(Hand()) + [Hand()[n]];
        EntriesConcat(old(Hand()), [Hand()[n]]);
      }
    }

    method ArmTimer(delay: int, repeat: bool, ghost end: bool)
      requires Sound() && Synced() && (end ==> clock == Visit(0, absolute[0]))
      modifies this`slots, this`filed, this`live, this`taskMap, this`nextId, this`armed
      ensures Sound() && Undisturbed(delay, end) && RecordKept() && fresh(live - old(live))
      ensures nextId == old(nextId) + if 0 < delay then 1 else 0
      ensures 0 < delay ==> Appended(delay, old(nextId), if repeat then delay else 0)
      ensures delay <= 0 ==> Hand() == old(Hand())
      ensures tickMs <= delay && old(NoShortRepeat()) ==> NoShortRepeat()
      ensures 0 < delay ==>
                armed == old(armed)[old(nextId) := ArmedFor(delay, if repeat then delay else 0, end)]
    {
      hide Structure, Aligned, Indexed, History, Ledger, TaskOnTime, Visit, OnTime, LayerFor, ArmedFor, Rearmed,
           Undisturbed, Settled;
      if repeat {
        var h := AddRepeatTimer(delay, true, end);
      } else {
        var h := AddTimer(delay, true, end);
      }
    }

    twostate lemma StillWalking(new done: nat, new delay: int, new end: bool)
      requires Configured() && old(Structure()) && Structure() && old(Walking(Position(done, end)))
      requires absolute == old(absolute) && current == old(current) && clock == old(clock)
      requires forall t :: t in old(filed) ==> t.due == old(t.due) && t.layer == old(t.layer)
      requires Undisturbed(delay, end) && (!end ==> done < |old(Hand())|)
      ensures Walking(Position(done, end)) && (!end ==> done < |Hand()|)
      ensures tickMs <= delay ==> Hand() == old(Hand())
    {
      HandFiled();
      HandBounds();
      hide Visit, Configured, Structure;
      var was := old(Hand());
      assert forall j :: 0 <= j < |was| ==> Hand()[j] == was[j];
    }

    twostate lemma HandFiled()
      requires Configured() && old(Structure()) && Structure() && current == old(current) && absolute == old(absolute)
      ensures forall t :: t in old(Hand()) ==> t in old(filed)
      ensures Hand() == slots[0][current[0]] && old(Hand()) == old(slots)[0][current[0]]
      ensures forall t :: t in filed ==> t.layer < |width|
      ensures forall t :: t in filed && t.layer == 0 && t.due % wheelSize == current[0] ==> t in Hand()
    {}

    lemma SoundBasics()
      requires Sound()
      ensures Configured() && Structure()
    {}

    lemma HandBounds()
      requires Configured() && Structure()
      ensures 0 < |slots| == |current| == |absolute| == |width| && 0 <= current[0] < |slots[0]|
      ensures current[0] == absolute[0] % wheelSize
    {}

    /** Since a log the callbacks of some timers have run now, in this order. */
    ghost predicate Logged(log: seq<Firing>, ids: seq<nat>)
      reads `fired, `clock
    {
      && |fired| == |log| + |ids| && log <= fired
      && forall i :: 0 <= i < |ids| ==> fired[|log| + i].id == ids[i] && fired[|log| + i].time == clock
    }

    twostate lemma LoggedMore(new log: seq<Firing>, new was: seq<nat>, new more: seq<nat>)
      requires old(Logged(log, was)) && Logged(old(fired), more) && clock == old(clock)
      ensures Logged(log, was + more)
    {
      var ids := was + more;
      forall i | 0 <= i < |ids| ensures fired[|log| + i].id == ids[i] && fired[|log| + i].time == clock {
        if i < |was| {
          assert old(fired)[|log| + i].id == was[i];
        } else {
          var j := i - |was|;
          assert fired[|old(fired)| + j].id == more[j];
        }
      }
    }

    /** No walk gets longer while it goes on. */
    ghost predicate Calm()
      reads `live
    {
      NoShortRepeat() && PatientCallbacks()
    }

    /** The walk of the slot ends within an iteration a task in it and `extra` more. */
    ghost predicate EndsWithin(extra: nat)
      reads `current, `slots, `absolute, `filed, filed`layer, filed`due, `runs, `nextId
      reads Hand()`rounds, Hand()`cancelled
    {
      Rules().Ok() && Ended(Steps(Rules(), View(0), |Hand()| + extra))
    }

    /** The timers whose callbacks it runs in these iterations, in order. */
    ghost function RunWithin(extra: nat): seq<nat>
      reads `current, `slots, `absolute, `filed, filed`layer, filed`due, `runs, `nextId
      reads Hand()`rounds, Hand()`cancelled
    {
      if Rules().Ok() then Runs(Rules(), View(0), |Hand()| + extra) else []
    }

    /** Exactly when process_slot ends: from some iteration on no callback arms a timer for less than
      the base tick, and every due repeat timer with a shorter interval is cancelled by a callback. */
    lemma SlotEndsIff()
      requires Sound()
      ensures Rules().Ok()
      ensures (exists extra: nat :: EndsWithin(extra)) <==>
                PatientInTheEnd(Rules(), View(0)) && AllCancelled(Rules(), View(0))
    {
      hide Steps, View, PatientInTheEnd, AllCancelled, Sound, Rules, Setting.Ok, Hand, Ended, Configured, Structure;
      SoundBasics();
      RulesTick();
      WalkEndsIff(Rules(), View(0));
      if Ends(Rules(), View(0)) {
        var n: nat :| Ended(Steps(Rules(), View(0), n));
        StepsAdd(Rules(), View(0), n, |Hand()|);
        EndedStays(Rules(), Steps(Rules(), View(0), n), |Hand()|);
        assert EndsWithin(n);
      }
    }

    /** process_slot on layer 0's current slot, at its visit time. As the loop of the source need not
      end, it is followed for at most one iteration a task in the slot and `extra` more. If it ends,
      every task left in the slot is a full turn away; if no repeat interval and no delay armed by a
      callback is below the base tick, it ends. */
    method ProcessSlot(extra: nat) returns (ended: bool)
      requires Sound() && Settled() && Synced() && clock == Visit(0, absolute[0])
      modifies this`slots, this`filed, this`live, this`fired, this`runs, this`taskMap, this`nextId, this`armed, this`cancelledAt
      modifies live
      ensures Sound() && fresh(live - old(live)) && RecordKept()
      ensures ended <==> old(EndsWithin(extra))
      ensures old(Calm()) ==> Calm() && ended
      ensures Logged(old(fired), old(RunWithin(extra)))
      ensures ended ==> |absolute| == |width| && forall t :: t in filed ==> Below(0, t)
    {
      hide AtWalk, Synced, InTime, Logged, RunNow, Structure, Configured, Sound, Walking, Aligned, Indexed, History, Ledger, TaskOnTime, Visit, View, Hand,
           Entries, Calm, NoShortRepeat, PatientCallbacks, Patient, Below, Settled, StepOf, FiredOf, ServedAllOf, Due,
           Runs, Steps, Ended, Rules, Setting.Ok;
      StartWalk();
      AtBasics(0);
      SlotIsHand();
      if Calm() { CalmEnds(extra); }
      ghost var start := View(0);
      NothingKept();
      NoStep(start);
      var i: nat, left: nat := 0, |slots[0][current[0]]| + extra;
      ghost var n, all := 0, left;
      while i < |slots[0][current[0]]| && left > 0
        invariant AtWalk(i) && 0 < |slots| && 0 < |current| && 0 <= current[0] < |slots[0]|
        invariant |slots[0][current[0]]| == |Hand()|
        invariant n + left == all && View(i) == Steps(Rules(), start, n)
        invariant fresh(live - old(live)) && RecordKept() && (old(Calm()) ==> Calm())
        invariant Logged(old(fired), Runs(Rules(), start, n))
        decreases left
      {
        NextStep(start, n);
        label before:
        i := ProcessTask(i);
        LoggedMore@before(old(fired), Runs(Rules(), start, n), RunNow(Steps(Rules(), start, n)));
        left, n := left - 1, n + 1;
        AtBasics(i);
        SlotIsHand();
      }
      AtBasics(i);
      ended := i == |slots[0][current[0]]|;
      EndedWith(start, n, left, i);
      if ended {
        EndWalk(i);
      }
    }

    lemma NoStep(w: Walk)
      requires Rules().Ok()
      ensures Steps(Rules(), w, 0) == w && Runs(Rules(), w, 0) == []
    {}

    lemma NextStep(w: Walk, n: nat)
      requires Rules().Ok()
      ensures Steps(Rules(), w, n + 1) == StepOf(Steps(Rules(), w, n))
      ensures Runs(Rules(), w, n + 1) == Runs(Rules(), w, n) + RunNow(Steps(Rules(), w, n))
    {
      RunsAdd(Rules(), w, n, 1);
      assert Runs(Rules(), Steps(Rules(), w, n), 1) == RunNow(Steps(Rules(), w, n)) + [];
      StepAfter(Rules(), w, n);
    }

    twostate lemma NothingKept()
      requires fired == old(fired) && cancelledAt == old(cancelledAt) && armed == old(armed)
      ensures RecordKept() && Logged(fired, [])
    {}

    lemma SlotIsHand()
      requires Configured() && Structure()
      ensures Hand() == slots[0][current[0]]
    {}

    /** The walk has ended exactly if the iterator is at the end, and then stays so. */
    lemma EndedWith(start: Walk, n: nat, left: nat, i: nat)
      requires Rules().Ok() && View(i) == Steps(Rules(), start, n) && i <= |Hand()| && (i < |Hand()| ==> left == 0)
      ensures i == |Hand()| <==> Ended(Steps(Rules(), start, n + left))
      ensures Runs(Rules(), start, n + left) == Runs(Rules(), start, n)
    {
      hide Entries;
      StepsAdd(Rules(), start, n, left);
      RunsAdd(Rules(), start, n, left);
      if i == |Hand()| { EndedStays(Rules(), View(i), left); }
      NoRunsAtEnd(Rules(), View(i), left);
    }

    /** Without intervals and callback delays below the base tick a walk ends within a step a task. */
    lemma CalmEnds(extra: nat)
      requires AtWalk(0) && Calm()
      ensures Ended(Steps(Rules(), View(0), |Hand()| + extra))
    {
      hide AtWalk, Step, Entries;
      AtBasics(0);
      HandIsLive();
      RulesTick();
      var w := View(0);
      forall id ensures !ShortAhead(Rules(), w, id) {}
      forall m: nat ensures !Impatient(Rules(), Steps(Rules(), w, m)) {}
      EndsWithoutShort(Rules(), w);
      StepsAdd(Rules(), w, |Hand()|, extra);
      EndedStays(Rules(), Steps(Rules(), w, |Hand()|), extra);
    }

    /** One iteration of the walk: what TimerWalks takes for a step. A callback runs after its task has
      been erased; if the iterator is then at the end, it stays there, whatever the callback appends. */
    method ProcessTask(i: nat) returns (next: nat)
      requires AtWalk(i) && i < |Hand()|
      modifies this`slots, this`filed, this`live, this`fired, this`runs, this`taskMap, this`nextId, this`armed, this`cancelledAt
      modifies live
      ensures AtWalk(next) && fresh(live - old(live)) && RecordKept()
      ensures View(next) == StepOf(old(View(i)))
      ensures old(Calm()) ==> Calm()
      ensures Logged(old(fired), RunNow(old(View(i))))
    {
      hide AtWalk, Logged, RunNow, Structure, Configured, Sound, Walking, Aligned, Indexed, History, Ledger, TaskOnTime, Visit, View, Hand,
           Entries, NoShortRepeat, PatientCallbacks, Patient, Below, Settled, StepOf, FiredOf, ServedAllOf, Due;
      AtBasics(i);
      SlotIsHand();
      ViewedTask(i);
      NothingKept();
      AtHand(i);
      var task := slots[0][current[0]][i];
      next := i;
      if task.cancelled {
        PassCancelled(i);
      } else if task.rounds > 0 {
        next := i + 1;
        PassWaiting(i);
      } else {
        next := Fire(i, task);
      }
    }

    method PassCancelled(i: nat)
      requires AtWalk(i) && i < |Hand()| && Hand()[i].cancelled
      modifies this`slots, this`filed, this`live, live`alive
      ensures AtWalk(i) && View(i) == StepOf(old(View(i))) && live <= old(live)
      ensures old(NoShortRepeat()) ==> NoShortRepeat()
    {
      hide AtWalk, Structure, Configured, Sound, Walking, Aligned, Indexed, History, Ledger, TaskOnTime, Visit, View, Hand,
           Entries, StepOf, Synced;
      AtBasics(i);
      SlotIsHand();
      HandIsLive();
      Discard(i);
      WalkIs(i);
      AtBasics(i);
      DiscardView(i);
    }

    method PassWaiting(i: nat)
      requires AtWalk(i) && i < |Hand()| && !Hand()[i].cancelled && Hand()[i].rounds > 0
      modifies live`rounds, live`due
      ensures AtWalk(i + 1) && View(i + 1) == StepOf(old(View(i)))
      ensures old(NoShortRepeat()) ==> NoShortRepeat()
    {
      hide AtWalk, Structure, Configured, Sound, Walking, Aligned, Indexed, History, Ledger, TaskOnTime, Visit, View, Hand,
           Entries, StepOf, Synced;
      AtBasics(i);
      SlotIsHand();
      AtHand(i);
      HandIsLive();
      SitOut(i);
      WalkIs(i + 1);
      AtBasics(i + 1);
      SitOutView(i);
    }

    twostate lemma SameEntries(new list: seq<TimerTask>)
      requires old(allocated(list))
      requires forall t :: t in list ==> t.rounds == old(t.rounds) && t.cancelled == old(t.cancelled)
      ensures Entries(list) == old(Entries(list))
    {
      hide Entries;
    }

    lemma EntriesWithout(list: seq<TimerTask>, i: nat, more: seq<TimerTask>)
      requires i < |list|
      ensures Entries(list[..i] + list[i + 1..] + more) == Entries(list)[..i] + Entries(list)[i + 1..] + Entries(more)
    {
      hide Entries;
      EntriesParts(list, i);
      EntriesParts(list, i + 1);
      EntriesConcat(list[..i], list[i + 1..]);
      EntriesConcat(list[..i] + list[i + 1..], more);
    }

    lemma EntriesParts(list: seq<TimerTask>, i: nat)
      requires i <= |list|
      ensures Entries(list[..i]) == Entries(list)[..i] && Entries(list[i..]) == Entries(list)[i..]
    {
      hide Entries, EntryOf;
    }

    lemma EntriesConcat(a: seq<TimerTask>, b: seq<TimerTask>)
      ensures Entries(a + b) == Entries(a) + Entries(b)
    {
      hide Entries, EntryOf;
    }

    twostate lemma DiscardView(new i: nat)
      requires Configured() && old(Structure()) && Structure() && Rules().Ok()
      requires i < |old(Hand())| && old(Hand()[i].cancelled) && Hand() == old(Hand()[..i] + Hand()[i + 1..])
      requires forall t :: t in old(Hand()) ==> t.rounds == old(t.rounds) && t.cancelled == old(t.cancelled)
      requires runs == old(runs) && nextId == old(nextId)
      ensures View(i) == StepOf(old(View(i)))
    {
      hide Entries, Structure, Configured;
      SameEntries(old(Hand()));
      EntriesWithout(old(Hand()), i, []);
      assert Hand() + [] == Hand() && Entries([]) == [];
    }

    twostate lemma SitOutView(new i: nat)
      requires Configured() && old(Structure()) && Structure() && Rules().Ok()
      requires i < |old(Hand())| && !old(Hand()[i].cancelled) && old(Hand()[i].rounds) > 0 && Hand() == old(Hand())
      requires forall j :: 0 <= j < |Hand()| && j != i ==> Hand()[j] != Hand()[i]
      requires forall t :: t in Hand() ==>
                 t.rounds == (old(t.rounds) - if t == Hand()[i] then 1 else 0) && t.cancelled == old(t.cancelled)
      requires runs == old(runs) && nextId == old(nextId)
      ensures View(i + 1) == StepOf(old(View(i)))
    {
      hide Entries, Structure, Configured;
      var w := old(View(i));
      assert View(i + 1).list == w.list[i := w.list[i].(rounds := w.list[i].rounds - 1)];
    }

    twostate lemma FiredView(new i: nat, new again: seq<TimerTask>)
      requires Configured() && old(Structure()) && Structure() && Rules().Ok() && i < |old(Hand())|
      requires Due(old(View(i)))
      requires Hand() == old(Hand()[..i] + Hand()[i + 1..]) + again
      requires if 0 < old(Hand())[i].interval < tickMs
               then |again| == 1 && EntryOf(again[0]) == Entry(old(Hand())[i].id, 0, false, old(Hand())[i].interval)
               else again == []
      requires forall t :: t in old(Hand()) ==> t.rounds == old(t.rounds) && t.cancelled == old(t.cancelled)
      requires runs == old(runs) + 1 && nextId == old(nextId)
      ensures View(i) == FiredOf(old(View(i)))
    {
      hide Entries, LandsHere, Structure, Configured, Due;
      RulesTick();
      var task := old(Hand())[i];
      if 0 < task.interval { LandsHereWhenShort(Rules(), task.interval); }
      SameEntries(old(Hand()));
      EntriesWithout(old(Hand()), i, again);
      assert Entries(again) == if 0 < task.interval < tickMs then [Entry(task.id, 0, false, task.interval)] else [];
    }

    /** What TimerWalks sees of the task at the iterator. */
    lemma ViewedTask(i: nat)
      requires i < |Hand()|
      ensures RunNow(View(i)) == if Hand()[i].cancelled || Hand()[i].rounds > 0 then [] else [Hand()[i].id]
      ensures var w, t := View(i), Hand()[i];
              && w.at == i < |w.list| && w.list[i] == EntryOf(t) && w.runs == runs
              && (!t.cancelled && t.rounds == 0 ==> Due(w))
    {
      hide Entries;
    }

    /** Runs a due task. */
    method Fire(i: nat, task: TimerTask) returns (next: nat)
      requires AtWalk(i) && i < |Hand()| && task == Hand()[i] && !task.cancelled && task.rounds == 0
      modifies this`slots, this`filed, this`live, this`fired, this`runs, this`taskMap, this`nextId, this`armed, this`cancelledAt
      modifies live
      ensures AtWalk(next) && fresh(live - old(live)) && RecordKept()
      ensures View(next) == StepOf(old(View(i)))
      ensures old(Calm()) ==> Calm()
      ensures Logged(old(fired), [task.id])
    {
      hide AtWalk, Structure, Configured, Sound, Walking, Aligned, Indexed, History, Ledger, TaskOnTime, Visit, View, Hand,
           Entries, FiredOf, Due, NoShortRepeat, Patient, StepOf, ServedAllOf;
      AtBasics(i);
      var run := runs;
      ViewedTask(i);
      FireTask(i, task);
      DueFirst(old(View(i)), i, task.id, run);
      next := CallBack(react(task.id, run), i);
    }

    method FireTask(i: nat, task: TimerTask)
      requires AtWalk(i) && i < |Hand()| && task == Hand()[i] && !task.cancelled && task.rounds == 0
      modifies this`slots, this`filed, this`live, this`fired, this`runs, this`taskMap, live
      ensures AtWalk(i) && fresh(live - old(live)) && RecordKept() && View(i) == FiredOf(old(View(i)))
      ensures old(NoShortRepeat()) ==> NoShortRepeat()
      ensures Logged(old(fired), [task.id])
    {
      hide AtWalk, Structure, Configured, Sound, Walking, Aligned, Indexed, History, Ledger, TaskOnTime, Visit, View, Hand,
           Entries, Calm, NoShortRepeat, PatientCallbacks, Patient, Below, Settled, StepOf, FiredOf, ServedAllOf, Due;
      AtBasics(i);
      SlotIsHand();
      AtHand(i);
      if task.interval > 0 {
        FireAgain(i, task);
      } else {
        FireOnce(i, task);
      }
    }

    method FireOnce(i: nat, task: TimerTask)
      requires AtWalk(i) && i < |Hand()| && task == Hand()[i] && !task.cancelled && task.rounds == 0 && task.interval == 0
      modifies this`slots, this`filed, this`live, this`fired, this`runs, live`alive
      ensures AtWalk(i) && live <= old(live) && RecordKept() && View(i) == FiredOf(old(View(i)))
      ensures old(NoShortRepeat()) ==> NoShortRepeat()
      ensures Logged(old(fired), [task.id])
    {
      hide AtWalk, Structure, Configured, Sound, Walking, Aligned, Indexed, History, Ledger, TaskOnTime, Visit, View, Hand,
           Entries, FiredOf, Due, Slack, InTime, Rearmed;
      AtBasics(i);
      SlotIsHand();
      ViewedTask(i);
      HandIsLive();
      FireOneShot(i, task);
      WalkIs(i);
      AtBasics(i);
      FiredView(i, []);
    }

    method FireAgain(i: nat, task: TimerTask)
      requires AtWalk(i) && i < |Hand()| && task == Hand()[i] && !task.cancelled && task.rounds == 0 && 0 < task.interval
      modifies this`slots, this`filed, this`live, this`fired, this`runs, this`taskMap, task`alive, task`expire
      ensures AtWalk(i) && fresh(live - old(live)) && RecordKept() && View(i) == FiredOf(old(View(i)))
      ensures old(NoShortRepeat()) ==> NoShortRepeat()
      ensures Logged(old(fired), [task.id])
    {
      hide AtWalk, Structure, Configured, Sound, Walking, Aligned, Indexed, History, Ledger, TaskOnTime, Visit, View, Hand,
           Entries, FiredOf, Due, Slack, InTime, Rearmed, RecordKept;
      AtBasics(i);
      SlotIsHand();
      ViewedTask(i);
      HandIsLive();
      var again := FireRepeat(i, task);
      WalkIs(i);
      AtBasics(i);
      FiredView(i, if task.interval < tickMs then [again] else []);
    }

    lemma DueFirst(w: Walk, i: nat, id: nat, run: nat)
      requires Configured() && Due(w) && w.at == i && w.list[i].id == id && w.runs == run
      ensures StepOf(w) == ServedAllOf(FiredOf(w), react(id, run))
    {}

    /** Runs a callback with the iterator at position `i`. */
    method CallBack(requests: seq<Request>, i: nat) returns (next: nat)
      requires AtWalk(i)
      modifies this`slots, this`filed, this`live, this`taskMap, this`nextId, this`armed, this`cancelledAt, live`cancelled
      ensures AtWalk(next) && fresh(live - old(live)) && RecordKept()
      ensures View(next) == ServedAllOf(old(View(i)), requests)
      ensures Patient(requests) && old(NoShortRepeat()) ==> NoShortRepeat()
    {
      AtBasics(i);
      var end := i == |slots[0][current[0]]|;
      WalkFromAt(i, end);
      hide View, ServedAllOf, AtWalk, InWalk, Walking, NoShortRepeat, Position, Patient, RecordKept;
      RunCallback(requests, i, end);
      AtFromWalk(i, end);
      next := if end then |slots[0][current[0]]| else i;
    }

    lemma WalkFromAt(i: nat, end: bool)
      requires AtWalk(i) && (end <==> i == |Hand()|)
      ensures InWalk(i, end) && Position(i, end) == i
    {
      hide Sound, Walking;
    }

    lemma AtFromWalk(done: nat, end: bool)
      requires InWalk(done, end)
      ensures AtWalk(Position(done, end)) && 0 < |slots| && 0 < |current| && 0 <= current[0] < |slots[0]|
      ensures Position(done, end) == if end then |slots[0][current[0]]| else done
    {
      hide Aligned, Indexed, History, Ledger, TaskOnTime;
    }

    lemma StartWalk()
      requires Sound() && Settled() && Synced() && clock == Visit(0, absolute[0])
      ensures AtWalk(0)
    {
      hide OnTime, Indexed, History, Aligned;
      var list := slots[0][current[0]];
      forall j | 0 <= j < |list| ensures list[j].due == absolute[0] {
        ModWindow(absolute[0], list[j].due, wheelSize);
      }
    }

    lemma EndWalk(done: nat)
      requires Configured() && Structure() && Walking(done) && done == |slots[0][current[0]]|
      ensures |absolute| == |width| && forall t :: t in filed ==> Below(0, t)
    {
      forall t | t in filed && t.layer == 0 && t.due % wheelSize == current[0] ensures absolute[0] < t.due {
        assert t in slots[0][current[0]];
      }
    }

    // -------------------------------------------------------------- moving the layers

    /** Where a task may be after layer `k` has been emptied: not in the slot just visited, and
      elsewhere never a full turn away. */
    ghost predicate Below(k: nat, t: TimerTask)
      requires |absolute| == |width|
      reads `absolute, t`layer, t`due
    {
      t.layer < |width| &&
      if t.layer == k then absolute[k] < t.due else t.due < absolute[t.layer] + wheelSize
    }

    method AdvanceLayer(k: nat)
      requires Configured() && Structure() && Aligned() && k < |width| && clock == Visit(k, absolute[k])
      requires forall t :: t in filed ==> Below(k, t)
      modifies this`current, this`absolute
      ensures Structure() && Aligned() && Settled()
      ensures absolute == old(absolute)[k := old(absolute)[k] + 1]
      ensures current == old(current)[k := (old(absolute)[k] + 1) % wheelSize]
    {
      hide Aligned, Visit, OnTime;
      ModAdd(absolute[k], 1, wheelSize);
      current := current[k := (current[k] + 1) % wheelSize];
      absolute := absolute[k := absolute[k] + 1];
      StillAligned(k);
    }

    twostate lemma StillAligned(new k: nat)
      requires Configured() && old(Aligned()) && k < |width| && clock == old(clock) == Visit(k, old(absolute)[k])
      requires absolute == old(absolute)[k := old(absolute)[k] + 1]
      ensures Aligned()
    {
      VisitStep(k, old(absolute)[k]);
    }

    lemma VisitStep(k: nat, index: int)
      requires k < |width|
      ensures Visit(k, index + 1) == Visit(k, index) + width[k]
    {
      assert (index + 2) * width[k] == (index + 1) * width[k] + width[k];
    }

    /** The lower layers have just completed their turn and layer `k` is due for a visit. */
    ghost predicate AtTurn(k: nat)
      requires Configured()
      reads `absolute, `clock
    {
      0 < k < |width| == |absolute| && clock == Visit(k, absolute[k]) && clock + tickMs == Visit(0, absolute[0])
    }

    /** The loop body of cascade: drop a cancelled task, hand an overdue one to layer 0, file the
      rest by the delay they have left. */
    method MoveDown(k: nat, task: TimerTask)
      requires Configured() && Structure() && Aligned() && Indexed() && History() && Ledger() && AtTurn(k) && Lagging(k)
      requires task in live && task !in filed && TaskOnTime(task) && task.layer == k && task.due == absolute[k]
      modifies this`slots, this`filed, this`live, task`alive, task`rounds, task`layer, task`due
      ensures Structure() && Indexed() && History() && Ledger()
      ensures task.cancelled ==> live == old(live) - {task} && filed == old(filed)
      ensures !task.cancelled ==> live == old(live) && filed == old(filed) + {task} && TaskOnTime(task) && Below(k, task)
    {
      hide Structure, Aligned, Indexed, History, Ledger, OnTime, Visit, LayerFor, Offset, Lagging, Layered, Arrival, RunTime,
           Timely, Foreseen, Slack;
      if task.cancelled {
        task.alive := false;
        live := live - {task};
        DiscardKeeps(task);
        return;
      }
      TimeLeft(k, task);
      var delay := task.expire - clock;
      HandBounds();
      if delay <= 0 {
        Push(0, current[0], task, absolute[0]);
      } else {
        LayerBelow(k, delay);
        AddTaskToWheel(task, k);
      }
    }

    lemma TimeLeft(k: nat, task: TimerTask)
      requires Configured() && AtTurn(k) && TaskOnTime(task) && task.layer == k && task.due == absolute[k]
      ensures width[k] <= Slack(task.arming) && (k < |width| - 1 ==> task.expire - clock < width[k])
      ensures task.expire <= clock ==>
        OnTime(0, |width| - 1, width[0], wheelSize, tickMs, Visit(0, absolute[0]), task.expire, task.rounds, Slack(task.arming))
      ensures Layered(width, wheelSize) && Timely(task.arming)
      ensures task.expire <= clock ==>
                Arrival(width, wheelSize, 0, Visit(0, absolute[0]), task.expire, task.rounds) == RunTime(task.arming)
      ensures clock < task.expire ==> Foreseen(task.expire - clock, k) == RunTime(task.arming)
    {
      hide Visit;
      if task.expire <= clock {
        OverdueOnTime(k, |width| - 1, width[k], wheelSize, tickMs, clock, task.expire, task.rounds, Slack(task.arming));
      }
    }

    /** What is left of a delay after a visit of layer `k` fits below it, or in the last layer
      away from the slot just emptied. */
    lemma LayerBelow(k: nat, delay: int)
      requires Configured() && 0 < k < |width| && 0 < delay && (k < |width| - 1 ==> delay < width[k])
      ensures var j := LayerFor(width, wheelSize, delay, 0);
              && j <= k && width[j] <= width[k] && (j == k ==> k == |width| - 1)
              && if j == k then 0 < Offset(j, delay, k) else Offset(j, delay, k) < wheelSize
    {
      var j := LayerFor(width, wheelSize, delay, 0);
      if k < |width| - 1 {
        assert width[k] == width[k - 1] * wheelSize;
      }
    }

    /** Takes all tasks out of layer `k`'s current slot. */
    method TakeSlot(k: nat) returns (moving: seq<TimerTask>)
      requires Configured() && Structure() && k < |width|
      requires forall t :: t in filed ==> t.due < absolute[t.layer] + wheelSize
      modifies this`slots, this`filed
      ensures Structure() && filed == old(filed) - (set t | t in moving)
      ensures forall t :: t in moving ==> t in old(filed) && t.layer == k && t.due == absolute[k]
      ensures forall i, j :: 0 <= i < j < |moving| ==> moving[i] != moving[j]
      ensures forall t :: t in filed ==> Below(k, t)
    {
      SlotAtTurn(k);
      hide Structure, Below, Configured;
      moving := slots[k][current[k]];
      slots := slots[k := slots[k][current[k] := []]];
      filed := filed - (set t | t in moving);
      SlotTaken(k, moving);
    }

    twostate lemma SlotTaken(new k: nat, new moving: seq<TimerTask>)
      requires Configured() && old(Structure()) && k < |width|
      requires current == old(current) && absolute == old(absolute)
      requires 0 <= current[k] < wheelSize && moving == old(slots)[k][current[k]]
      requires slots == old(slots)[k := old(slots)[k][current[k] := []]] && filed == old(filed) - (set t | t in moving)
      requires forall t :: t in old(filed) ==>
                 t.layer == old(t.layer) && t.due == old(t.due) && t.due < absolute[t.layer] + wheelSize
      requires forall t :: t in old(filed) && t.layer == k ==> (t in moving <==> t.due == absolute[k])
      ensures Structure()
      ensures forall t :: t in moving ==> t in old(filed) && t.layer == k && t.due == absolute[k]
      ensures forall i, j :: 0 <= i < j < |moving| ==> moving[i] != moving[j]
      ensures forall t :: t in filed ==> Below(k, t)
    {}

    /** With nothing a full turn away, the current slot holds exactly the tasks due now. */
    lemma SlotAtTurn(k: nat)
      requires Configured() && Structure() && k < |width|
      requires forall t :: t in filed ==> t.due < absolute[t.layer] + wheelSize
      ensures |slots| == |current| == |absolute| == |width| && |slots[k]| == wheelSize && 0 <= current[k] < wheelSize
      ensures forall t :: t in filed ==> t.layer < |width|
      ensures forall t :: t in filed && t.layer == k ==> (t in slots[k][current[k]] <==> t.due == absolute[k])
    {
      forall t | t in filed && t.layer == k && t in slots[k][current[k]] ensures t.due == absolute[k] {
        ModWindow(absolute[k], t.due, wheelSize);
      }
    }

    /** cascade of layer `k`: every task that waited in its current slot moves down. */
    method Cascade(k: nat)
      requires Sound() && AtTurn(k) && Lagging(k) && Settled()
      modifies this`slots, this`filed, this`live, live`alive, live`rounds, live`layer, live`due
      ensures Sound() && live <= old(live)
      ensures forall t :: t in filed ==> Below(k, t)
    {
      hide Structure, Aligned, Indexed, History, Ledger, TaskOnTime, OnTime, Visit, AtTurn, Lagging;
      KnowSettled(k);
      var moving := TakeSlot(k);
      for i := 0 to |moving|
        invariant Structure() && Aligned() && Indexed() && History() && Ledger() && AtTurn(k) && Lagging(k)
        invariant |absolute| == |width| && filed <= live && live <= old(live)
        invariant forall t :: t in live && t !in filed ==> t in moving[i..]
        invariant forall t :: t in moving[i..] ==> t in live && t !in filed && t.layer == k && t.due == absolute[k]
        invariant forall t :: t in live ==> TaskOnTime(t)
        invariant forall t :: t in filed ==> Below(k, t)
      {
        var task := moving[i];
        assert moving[i..] == [task] + moving[i + 1..];
        assert task !in moving[i + 1..];
        MoveDown(k, task);
      }
    }

    lemma KnowSettled(k: nat)
      requires Configured() && Structure() && Settled() && AtTurn(k)
      ensures k < |width| == |absolute| && forall t :: t in filed ==> t.layer < |width| && t.due < absolute[t.layer] + wheelSize
    {}

    /** Layer `k` is one turn of the layer below behind; all other layers are in step. */
    ghost predicate Lagging(k: nat)
      requires Configured()
      reads `absolute
    {
      |absolute| == |width| && 0 < k < |width| && absolute[k - 1] == (absolute[k] + 1) * wheelSize &&
      forall j :: 0 < j < |width| && j != k ==> absolute[j] == absolute[j - 1] / wheelSize
    }

    /** Cascades layer `k` and moves it on; the next layer lags exactly if layer `k` starts over. */
    method CascadeAndAdvance(k: nat)
      requires Sound() && Settled() && AtTurn(k) && Lagging(k)
      modifies this`slots, this`filed, this`live, this`current, this`absolute
      modifies live`alive, live`rounds, live`layer, live`due
      ensures Sound() && Settled() && live <= old(live)
      ensures |current| == |width| && current[k] == absolute[k] % wheelSize && absolute[0] == old(absolute[0])
      ensures current[k] != 0 || k + 1 == |width| ==> Synced()
      ensures current[k] == 0 && k + 1 < |width| ==> Lagging(k + 1) && AtTurn(k + 1)
    {
      hide Structure, Aligned, Indexed, History, Ledger, TaskOnTime, OnTime, Visit;
      Cascade(k);
      StepLayer(k);
    }

    method StepLayer(k: nat)
      requires Configured() && Structure() && Aligned() && AtTurn(k) && Lagging(k)
      requires forall t :: t in filed ==> Below(k, t)
      modifies this`current, this`absolute
      ensures Structure() && Aligned() && Settled()
      ensures |current| == |width| && current[k] == absolute[k] % wheelSize && absolute[0] == old(absolute[0])
      ensures current[k] != 0 || k + 1 == |width| ==> Synced()
      ensures current[k] == 0 && k + 1 < |width| ==> Lagging(k + 1) && AtTurn(k + 1)
    {
      ghost var a, b := absolute[k], absolute[k - 1];
      hide OnTime, Visit, Aligned, Structure, Settled, Below;
      NextTurn(a, wheelSize);
      AdvanceLayer(k);
      DivUnique(b, wheelSize, a + 1, 0);
      if current[k] == 0 && k + 1 < |width| {
        NextVisit(k, a + 1, absolute[k + 1]);
      }
    }

    lemma NextVisit(k: nat, lower: int, upper: int)
      requires Configured() && k + 1 < |width| && lower == (upper + 1) * wheelSize
      ensures Visit(k + 1, upper) == Visit(k, lower - 1)
    {
      assert width[k + 1] == width[k] * wheelSize;
      assert (upper + 1) * (width[k] * wheelSize) == ((upper + 1) * wheelSize) * width[k];
    }

    /** Moves layer 0 on after its slot has been walked. */
    method StepBase()
      requires Configured() && Structure() && Aligned() && Synced() && clock == Visit(0, absolute[0])
      requires forall t :: t in filed ==> Below(0, t)
      modifies this`current, this`absolute
      ensures Structure() && Aligned() && Settled()
      ensures |current| == |absolute| == |width| && current[0] == absolute[0] % wheelSize
      ensures absolute[0] == old(absolute[0]) + 1 && Visit(0, absolute[0]) == clock + tickMs
      ensures current[0] != 0 ==> Synced()
      ensures current[0] == 0 ==> Lagging(1) && AtTurn(1)
    {
      ghost var a := absolute[0];
      hide OnTime, Visit, Aligned, Settled, Below;
      NextTurn(a, wheelSize);
      VisitStep(0, a);
      AdvanceLayer(0);
      if current[0] == 0 {
        NextVisit(0, a + 1, absolute[1]);
      }
    }

    /** tick: runs what is due and moves the layers on, cascading each layer that comes to its turn.
      It gets that far only if the walk of the current slot ends. */
    method Tick(extra: nat) returns (ended: bool)
      requires Valid() && clock == Visit(0, absolute[0])
      modifies this`slots, this`filed, this`live, this`fired, this`runs, this`taskMap, this`nextId, this`armed, this`cancelledAt
      modifies this`current, this`absolute, live
      ensures Sound() && RecordKept() && fresh(live - old(live))
      ensures old(Calm()) ==> Calm() && ended
      ensures ended ==> Valid() && absolute[0] == old(absolute[0]) + 1
      ensures ended <==> old(EndsWithin(extra))
      ensures Logged(old(fired), old(RunWithin(extra)))
    {
      hide Structure, Aligned, Indexed, History, Ledger, TaskOnTime, OnTime, Visit, AtTurn, Lagging, Settled, Synced, View,
           Logged, Steps, Runs, Ended, Rules, Hand, RecordKept;
      ended := ProcessSlot(extra);
      if ended {
        StepBase();
        if current[0] == 0 {
          CascadeUp();
        }
      }
    }

    /** The layers above layer 0 that come to their turn. */
    method CascadeUp()
      requires Sound() && Settled() && AtTurn(1) && Lagging(1)
      modifies this`slots, this`filed, this`live, this`current, this`absolute
      modifies live`alive, live`rounds, live`layer, live`due
      ensures Valid() && live <= old(live) && absolute[0] == old(absolute[0])
    {
      hide Structure, Aligned, Indexed, History, Ledger, TaskOnTime, OnTime, Visit, AtTurn, Lagging, Settled, Synced;
      CascadeAndAdvance(1);
      if current[1] == 0 && |width| > 2 {
        CascadeAndAdvance(2);
        if current[2] == 0 && |width| > 3 {
          CascadeAndAdvance(3);
        }
      }
    }

    lemma Filing(k: nat, delay: int, emptied: int, slack: int)
      requires Configured() && |absolute| == |width| && Aligned() && 0 < delay
      requires k < |width| && k == LayerFor(width, wheelSize, delay, 0)
      requires k == emptied ==> (emptied == |width| - 1 || emptied == 0) && clock == Visit(emptied, absolute[emptied])
      requires k == emptied == 0 && delay < tickMs ==> Turn() - tickMs <= slack
      ensures width[k] <= slack ==>
        OnTime(k, |width| - 1, width[k], wheelSize, tickMs, Visit(k, absolute[k] + Offset(k, delay, emptied)),
               clock + delay, (delay / width[k]) / wheelSize, slack)
      ensures k == emptied == 0 && delay < tickMs ==>
        && (delay / width[0]) / wheelSize == 0
        && Turn() - tickMs < Visit(0, absolute[0] + Offset(0, delay, emptied)) - (clock + delay) < Turn()
    {
      if k == emptied == 0 && delay < tickMs {
        if width[k] <= slack { FilingStranded(delay, slack); }
        FilingStranded(delay, Turn() - tickMs);
        return;
      }
      hide Turn;
      if k == emptied == 0 { WhereItLands(delay, 0, true); }
      if width[k] <= slack {
        if k > 0 {
          assert width[k] == width[k - 1] * wheelSize && width[k - 1] * wheelSize <= delay;
        }
        FiledOnTime(k, |width| - 1, width[k], wheelSize, tickMs, absolute[k], clock, delay, k == emptied && k > 0, slack);
      }
    }

    lemma FilingStranded(delay: int, slack: int)
      requires Configured() && 0 < |absolute| && clock == Visit(0, absolute[0]) && 0 < delay < tickMs
      requires Turn() - tickMs <= slack
      ensures (delay / width[0]) / wheelSize == 0
      ensures OnTime(0, |width| - 1, width[0], wheelSize, tickMs, Visit(0, absolute[0] + Offset(0, delay, 0)),
                     clock + delay, 0, slack)
      ensures Turn() - tickMs < Visit(0, absolute[0] + Offset(0, delay, 0)) - (clock + delay) < Turn()
    {
      WhereItLands(delay, 0, true);
      ShortIsLow(delay);
      StrandedOnTime(|width| - 1, wheelSize, tickMs, absolute[0], clock, delay, slack);
    }

    /** Whatever the state and the delay, a timer armed by a callback is filed for its window,
      unless the delay is below the base tick and the walk of the slot has come to its end: then it
      is so exactly if a layer has two slots. */
    lemma ArmedInCallbackIff(delay: int, end: bool)
      requires Configured() && Aligned() && clock == Visit(0, absolute[0]) && 0 < delay
      ensures var k := LayerFor(width, wheelSize, delay, 0);
              OnTime(k, |width| - 1, width[k], wheelSize, tickMs, Visit(k, absolute[k] + Offset(k, delay, Emptied(end))),
                     clock + delay, (delay / width[k]) / wheelSize, SlotWidth(delay))
              <==> (end && delay < tickMs ==> wheelSize == 2)
    {
      var k := LayerFor(width, wheelSize, delay, 0);
      WhereItLands(delay, k, end);
      if end && delay < tickMs {
        StrandedIff(|width| - 1, wheelSize, tickMs, absolute[0], clock, delay);
        StrandedOnTime(|width| - 1, wheelSize, tickMs, absolute[0], clock, delay, tickMs);
      } else {
        Filing(k, delay, Emptied(end), width[k]);
      }
    }

    // -------------------------------------------------------------- whole runs

    /** Time passes up to the next tick at the latest. */
    method Advance(to: int)
      requires Valid() && clock <= to <= Visit(0, absolute[0])
      modifies this`clock
      ensures Valid() && clock == to
    {
      hide Structure, Indexed, History, Ledger, TaskOnTime, OnTime;
      forall k | 0 <= k < |width| ensures Visit(0, absolute[0]) <= Visit(k, absolute[k]) {
        LaterAbove(k);
      }
      clock := to;
    }

    lemma BeforeNextTick()
      requires Valid()
      ensures 0 < |absolute| == |width| && clock <= Visit(0, absolute[0]) && 0 < tickMs
    {
      hide OnTime;
    }

    lemma {:induction false} LaterAbove(k: nat)
      requires Configured() && |absolute| == |width| && Synced() && k < |width|
      ensures Visit(0, absolute[0]) <= Visit(k, absolute[k])
    {
      if k > 0 {
        LaterAbove(k - 1);
        TurnAbove(absolute[k - 1], absolute[k], wheelSize, width[k - 1]);
        assert width[k] == width[k - 1] * wheelSize;
      }
    }

    /** A task still waiting has not missed the time it runs at, nor its window. */
    lemma NotYetLate(t: TimerTask)
      requires Sound() && t in live
      ensures clock <= RunTime(t.arming) && clock <= t.expire + Slack(t.arming) + tickMs
    {
      hide Structure, Indexed, History, Ledger, Turn, RunTime, Aligned, Visit, Slack, TaskOnTime;
      assert TaskOnTime(t);
      NotYetVisited(t);
      VisitedBefore(t);
      WindowAfter(t);
    }

    lemma VisitedBefore(t: TimerTask)
      requires Configured() && TaskOnTime(t) && 0 <= wheelSize * width[0]
      ensures Visit(t.layer, t.due) <= RunTime(t.arming)
    {
      hide RunTime, Timely, Visit, Slack, Turn;
      assert 0 <= t.rounds;
      if t.layer == 0 {
        MulMono(0, t.rounds, width[0] * wheelSize);
      } else {
        HandedLater(width, wheelSize, t.layer, Visit(t.layer, t.due), t.expire - Visit(t.layer, t.due), t.rounds);
      }
    }

    lemma WindowAfter(t: TimerTask)
      requires Configured() && TaskOnTime(t) && 0 <= wheelSize * width[0]
      ensures Visit(t.layer, t.due) <= t.expire + Slack(t.arming) + tickMs
    {
      hide RunTime, Timely, Visit, Slack, Turn, TaskExact;
      if t.layer == 0 { MulMono(0, t.rounds, width[0] * wheelSize); }
    }

    lemma NotYetVisited(t: TimerTask)
      requires Sound() && t in live
      ensures Configured() && t.layer < |width| && clock <= Visit(t.layer, t.due) && 0 <= wheelSize * width[0]
    {
      hide Indexed, History, Ledger, Turn, TaskOnTime;
      assert absolute[t.layer] <= t.due;
      hide Structure;
      MulMono(absolute[t.layer] + 1, t.due + 1, width[t.layer]);
      MulMono(0, wheelSize, width[0]);
    }

    /** What has become of timer `id`. It was cancelled and has not fired since, or it waits and is not
      late, or it was a one-shot timer and has fired. All its callback runs were due, that is, armed
      first or one interval after the run before, and in their windows; a one-shot timer has run at
      most once. */
    ghost predicate Decided(id: nat)
      reads `live, `armed, `fired, `cancelledAt, `clock, live`cancelled
    {
      && id in armed
      && (id in cancelledAt || Pending(id) || FiredOnce(id))
      && (id in cancelledAt ==> !Pending(id) && forall i :: cancelledAt[id] <= i < |fired| ==> fired[i].id != id)
      && (Pending(id) ==>
            && !FiredOnce(id)
            && var due := Rearmed(fired, armed[id], id);
               clock <= RunTime(due) && clock <= due.expire + Slack(due) + tickMs)
      && (forall i :: 0 <= i < |fired| && fired[i].id == id ==>
            InTime(fired[i]) && fired[i].arming == Rearmed(fired[..i], armed[id], id))
      && (forall i, j :: 0 <= i < |fired| && 0 <= j < |fired| && fired[i].id == fired[j].id == id && i != j ==>
            fired[i].Repeat())
    }

    lemma ArmedIssued()
      requires Sound()
      ensures forall id :: id in armed <==> 0 < id < nextId
    {}

    /** In every reachable state, also while a slot is being walked, the fate of every timer ever
      issued is decided. */
    lemma Fate(id: nat)
      requires Sound() && 0 < id < nextId
      ensures Decided(id)
    {
      hide OnTime, Rearmed, InTime;
      if Pending(id) {
        var t :| t in live && t.id == id && !t.cancelled;
        NotYetLate(t);
        assert Booked(t);
      }
    }

    /** When a callback ran, by what its timer was armed for, written out: after a delay below a turn of
      layer 0 as many whole base ticks after the next one as that is long, at most a base tick early or
      late; if stranded a whole turn after it. */
    lemma RanAt(i: nat)
      requires Sound() && i < |fired|
      ensures var f, a := fired[i], fired[i].arming;
              && 0 < tickMs && 0 < a.delay && 0 <= a.next - (a.expire - a.delay) <= tickMs && a.next % tickMs == 0
              && (a.stranded ==> f.time == a.next + tickMs * wheelSize)
              && (!a.stranded && a.delay < tickMs * wheelSize ==>
                    f.time == a.next + a.delay / tickMs * tickMs && -tickMs < f.time - a.expire <= tickMs)
    {
      RanInTime(i);
      var a := fired[i].arming;
      if !a.stranded && a.delay < tickMs * wheelSize {
        RunTimeOf(a);
        DivBounds(a.delay, tickMs);
      }
      hide Sound, RunTime, SlotWidth, Configured;
    }

    lemma RanInTime(i: nat)
      requires Sound() && i < |fired|
      ensures Configured() && Layered(width, wheelSize) && InTime(fired[i])
      ensures 0 < tickMs == width[0] && 0 < wheelSize && forall j :: 0 < j < |width| ==> 0 < width[j]
      ensures fired[i].arming.stranded ==> fired[i].time == fired[i].arming.next + tickMs * wheelSize
    {
      IsLayered();
      hide Structure, Aligned, Indexed, Ledger, TaskOnTime, FirstRun, SlotWidth;
    }

    /** After a delay in the range of layer `k`: it was handed down at the visit that the whole slots of its
      delay lead to, and ran as many base ticks later as what was then left is long, or one more than as
      many whole slots of a layer between. */
    lemma RanAbove(i: nat, k: nat)
      requires Sound() && i < |fired| && !fired[i].arming.stranded
      requires 0 < k < |width| && width[k] <= fired[i].arming.delay < width[k] * wheelSize
      ensures 0 < tickMs == width[0] && forall j :: 0 < j < |width| ==> 0 < width[j]
      ensures var f, a := fired[i], fired[i].arming;
              var visit := (a.next / width[k] + 1 + a.delay / width[k]) * width[k] - width[0];
              var left := a.expire - visit;
              && (left <= 0 ==> f.time == visit + width[0])
              && (0 < left < width[0] * wheelSize ==> f.time == visit + width[0] + left / width[0] * width[0])
              && forall j :: 0 < j < |width| && width[j] <= left < width[j] * wheelSize ==>
                   f.time == visit + width[0] + (left / width[j] + 1) * width[j]
    {
      hide *;
      RanInTime(i);
      RanAt(i);
      IsFirstRun(i);
      var a := fired[i].arming;
      RunsInRange(width, wheelSize, a.next, a.delay, a.expire, k);
    }

    /** After a delay beyond the range of the wheel: it stayed in the last layer while whole slots of it
      were left. If it was then due to the millisecond, and more than a turn of that layer had been left
      at the first visit, it ran a turn of layer 0 late. */
    lemma RanBeyond(i: nat)
      requires Sound() && i < |fired| && !fired[i].arming.stranded && 1 < |width|
      requires width[|width| - 1] * wheelSize <= fired[i].arming.delay
      ensures 0 < tickMs == width[0] && 0 < wheelSize && forall j :: 0 < j < |width| ==> 0 < width[j]
      ensures var f, a, w := fired[i], fired[i].arming, width[|width| - 1];
              var visit := (a.next / w + 1 + a.delay / w % wheelSize) * w - width[0];
              var slots, rest := (a.expire - visit) / w, (a.expire - visit) % w;
              var last := visit + slots * w;
              && (rest == 0 ==> f.time == last + width[0] + if slots >= wheelSize then width[0] * wheelSize else 0)
              && (0 < rest < width[0] * wheelSize ==> f.time == last + width[0] + rest / width[0] * width[0])
              && forall j :: 0 < j < |width| && width[j] <= rest < width[j] * wheelSize ==>
                   f.time == last + width[0] + (rest / width[j] + 1) * width[j]
    {
      hide *;
      RanInTime(i);
      RanAt(i);
      IsFirstRun(i);
      var a := fired[i].arming;
      RunsBeyond(width, wheelSize, a.next, a.delay, a.expire);
    }

    lemma IsFirstRun(i: nat)
      requires Configured() && Layered(width, wheelSize) && i < |fired| && InTime(fired[i]) && !fired[i].arming.stranded
      ensures var a := fired[i].arming; fired[i].time == FirstRun(width, wheelSize, a.next, a.delay, a.expire)
    {
      hide FirstRun, SlotWidth;
    }

    /** Once its time is over a timer has run, unless it has been cancelled. */
    lemma AddedHasRun(id: nat)
      requires Sound() && id in armed && id !in cancelledAt && !armed[id].stranded && armed[id].delay < tickMs * wheelSize
      requires tickMs > 0 && armed[id].next + armed[id].delay / tickMs * tickMs < clock
      ensures exists n :: 0 <= n < |fired| && fired[n].id == id
    {
      Fate(id);
      if Pending(id) && forall n :: 0 <= n < |fired| ==> fired[n].id != id {
        var t :| t in live && t.id == id && !t.cancelled;
        assert Booked(t) && TaskOnTime(t);
        hide *;
        NeverFired(fired, armed[id], id);
        NotYetLate(t);
        TaskTimely(t);
        RunTimeOf(t.arming);
        assert false;
      }
    }

    lemma TaskTimely(t: TimerTask)
      requires Sound() && t in live
      ensures Configured() && Timely(t.arming)
    {}

    /** The first callback run of a timer in the log. */
    lemma {:induction false} FirstFiring(id: nat, i: nat) returns (j: nat)
      requires LoggedAsArmed() && i < |fired| && fired[i].id == id
      ensures j <= i && fired[j].id == id && id in armed && fired[j].arming == armed[id]
    {
      if m: nat :| m < i && fired[m].id == id {
        j := FirstFiring(id, m);
      } else {
        j := i;
        NeverFired(fired[..i], armed[id], id);
      }
    }

    /** A one-shot timer ran as it was armed by its call. */
    lemma OneShotRan(i: nat)
      requires Sound() && i < |fired| && fired[i].id in armed && armed[fired[i].id].interval == 0
      ensures fired[i].arming == armed[fired[i].id]
    {
      var j := FirstFiring(fired[i].id, i);
    }

    lemma RunTimeOf(a: Arming)
      requires Configured() && Timely(a) && !a.stranded && a.delay < tickMs * wheelSize
      ensures RunTime(a) == a.next + a.delay / tickMs * tickMs
    {
      IsLayered();
      RunsInRange(width, wheelSize, a.next, a.delay, a.expire, 0);
    }

    lemma OneShotTimes(id: nat)
      requires Sound() && id in armed && armed[id].interval == 0
      requires !armed[id].stranded && armed[id].delay < tickMs * wheelSize && 0 < tickMs
      ensures forall n :: 0 <= n < |fired| && fired[n].id == id ==>
                fired[n].time == armed[id].next + armed[id].delay / tickMs * tickMs
    {
      hide Sound;
      forall n | 0 <= n < |fired| && fired[n].id == id
        ensures fired[n].time == armed[id].next + armed[id].delay / tickMs * tickMs
      {
        OneShotRan(n);
        RanAt(n);
      }
    }

    lemma {:induction false} LastFiring(log: seq<Firing>, first: Arming, i: nat)
      requires i < |log| && forall m :: i < m < |log| ==> log[m].id != log[i].id
      ensures Rearmed(log, first, log[i].id) == Again(log[i])
    {
      if i < |log| - 1 { LastFiring(log[..|log| - 1], first, i); }
    }

    /** A repeat timer runs again as many whole base ticks after a run as its interval is long, if that
      is below a turn of layer 0. */
    lemma RanAgain(i: nat, j: nat)
      requires Sound() && i < j < |fired| && fired[i].id == fired[j].id
      requires forall m :: i < m < j ==> fired[m].id != fired[i].id
      ensures var interval := fired[i].arming.interval;
              && 0 < interval == fired[j].arming.interval
              && fired[j].arming.next == fired[i].time && fired[j].arming.expire == fired[i].time + interval
              && (interval < tickMs * wheelSize ==> fired[j].time == fired[i].time + interval / tickMs * tickMs)
    {
      assert fired[i].Repeat();
      assert fired[..j][i] == fired[i];
      LastFiring(fired[..j], armed[fired[j].id], i);
      RanAt(j);
    }

    /** A stranded timer ran within two base ticks of its expiry exactly if a layer has two slots. */
    lemma StrandedRunLate(i: nat)
      requires Sound() && i < |fired| && fired[i].arming.stranded
      ensures fired[i].time - fired[i].arming.expire <= 2 * tickMs <==> wheelSize == 2
    {
      assert InTime(fired[i]);
      LateTurn(fired[i].time - fired[i].arming.expire);
    }

    lemma LateTurn(late: int)
      requires Configured() && Turn() - tickMs < late < Turn()
      ensures late <= 2 * tickMs <==> wheelSize == 2
    {
      if wheelSize >= 3 { MulMono(3, wheelSize, tickMs); }
    }
  }

  datatype Command = Add(delay: int) | AddRepeat(interval: int) | CancelId(id: nat) | Elapse(ms: nat)

  /** The base ticks come at `first` and every `tick` after; `next` is the first one not before `now`. */
  ghost predicate IsNext(tick: int, first: int, now: int, next: int)
    requires tick > 0
  {
    first <= next && now <= next && (next - first) % tick == 0 && (next == first || next < now + tick)
  }

  lemma OneTickLater(tick: int, first: int, next: int)
    requires tick > 0 && (next - first) % tick == 0
    ensures (next + tick - first) % tick == 0
  {
    ModShift(next - first, 1, tick);
  }

  /** Lets time pass to `until`, ticking once every base tick; `next` is the time of the next tick.
    It stops early only in a tick that has not ended. */
  method ElapseTo(wheel: TimerWheel, until: int, next: int, ghost first: int, extra: nat) returns (after: int, ended: bool)
    requires wheel.Valid() && next == wheel.Visit(0, wheel.absolute[0]) && wheel.clock <= until
    requires IsNext(wheel.tickMs, first, wheel.clock, next)
    modifies wheel, wheel.live
    ensures wheel.Sound() && wheel.RecordKept() && fresh(wheel.live - old(wheel.live))
    ensures old(wheel.Calm()) ==> wheel.Calm() && ended
    ensures ended ==> wheel.Valid() && wheel.clock == until <= after == wheel.Visit(0, wheel.absolute[0])
    ensures wheel.tickMs > 0 && (ended ==> IsNext(wheel.tickMs, first, until, after))
  {
    hide wheel.Structure, wheel.Aligned, wheel.Indexed, wheel.History, wheel.Ledger, wheel.TaskOnTime, wheel.Calm,
         wheel.View, wheel.Logged, Steps, Runs, wheel.Rules, Setting.Ok, wheel.Hand, Ended, wheel.Settled, wheel.Synced;
    after, ended := next, true;
    wheel.BeforeNextTick();
    while after < until
      invariant wheel.Valid() && wheel.RecordKept() && (old(wheel.Calm()) ==> wheel.Calm())
      invariant |wheel.absolute| == |wheel.width| && fresh(wheel.live - old(wheel.live))
      invariant after == wheel.Visit(0, wheel.absolute[0]) && wheel.clock <= until && wheel.clock <= after
      invariant ended && wheel.tickMs > 0
      invariant first <= after && (after - first) % wheel.tickMs == 0 && (after == first || after < until + wheel.tickMs)
      decreases until - after
    {
      wheel.Advance(after);
      wheel.VisitStep(0, wheel.absolute[0]);
      ended := wheel.Tick(extra);
      if !ended {
        return;
      }
      wheel.BeforeNextTick();
      OneTickLater(wheel.tickMs, first, after);
      after := after + wheel.tickMs;
    }
    wheel.Advance(until);
  }

  /** How much time some commands let pass. */
  function Elapsed(commands: seq<Command>): nat {
    if commands == [] then 0
    else
      var last := commands[|commands| - 1];
      Elapsed(commands[..|commands| - 1]) + if last.Elapse? then last.ms else 0
  }

  /** What a command given at time `now` has left on record; the base ticks come from `first` on. */
  ghost predicate Recorded(wheel: TimerWheel, command: Command, now: int, first: int, h: Handle)
    reads wheel`armed
  {
    match command
    case Add(delay) => h.valid == (0 < delay) && (h.valid ==> ArmedAt(wheel, h.id, delay, 0, now, first))
    case AddRepeat(interval) =>
      h.valid == (0 < interval) && (h.valid ==> ArmedAt(wheel, h.id, interval, interval, now, first))
    case _ => !h.valid
  }

  ghost predicate ArmedAt(wheel: TimerWheel, id: nat, delay: int, interval: int, now: int, first: int)
    reads wheel`armed
  {
    && id in wheel.armed && 0 < wheel.tickMs
    && wheel.armed[id] == Arming(delay, now + delay, interval, false, wheel.armed[id].next)
    && IsNext(wheel.tickMs, first, now, wheel.armed[id].next)
  }

  /** Every timer was armed at the time of its call for the delay asked for, and is on record as
    cancelled if a later command cancels it. */
  ghost predicate AllRecorded(wheel: TimerWheel, commands: seq<Command>, start: int, first: int, handles: seq<Handle>)
    reads wheel`armed, wheel`cancelledAt
    requires |handles| <= |commands|
  {
    && (forall i :: 0 <= i < |handles| ==>
          Recorded(wheel, commands[i], start + Elapsed(commands[..i]), first, handles[i]))
    && (forall i, j :: 0 <= i < j < |handles| && handles[i].valid && commands[j] == CancelId(handles[i].id) ==>
          handles[i].id in wheel.cancelledAt)
  }

  /** Any run: an arbitrary list of calls, with the clock ticking in between and arbitrary callbacks.
    At the end, or wherever a tick has not ended, the fate of every timer is decided: see Decided. */
  method Run(wheel: TimerWheel, commands: seq<Command>, firstTick: int, extra: nat)
    returns (handles: seq<Handle>, ended: bool)
    requires wheel.Valid() && firstTick == wheel.Visit(0, wheel.absolute[0])
    modifies wheel, wheel.live
    ensures wheel.Sound() && wheel.RecordKept()
    ensures forall id :: 0 < id < wheel.nextId ==> wheel.Decided(id)
    ensures |handles| <= |commands| && (ended ==> |handles| == |commands| && wheel.Valid())
    ensures AllRecorded(wheel, commands, old(wheel.clock), firstTick, handles)
    ensures old(wheel.Calm()) && PatientCommands(wheel, commands) ==> ended
  {
    var next := firstTick;
    hide wheel.Structure, wheel.Aligned, wheel.Indexed, wheel.History, wheel.Ledger, wheel.TaskOnTime, wheel.Decided,
         wheel.Calm, Elapsed, Recorded, AllRecorded, wheel.Sound, wheel.Settled, wheel.Visit, IsNext;
    wheel.BeforeNextTick();
    FirstIsNext(wheel.tickMs, wheel.clock, firstTick);
    NothingRecorded(wheel, commands, wheel.clock, firstTick);
    handles, ended := [], true;
    var i := 0;
    while i < |commands| && ended
      invariant |handles| <= i <= |commands| && (ended ==> |handles| == i)
      invariant wheel.Sound() && wheel.RecordKept() && fresh(wheel.live - old(wheel.live))
      invariant ended ==> wheel.Valid() && 0 < |wheel.absolute| == |wheel.width| && next == wheel.Visit(0, wheel.absolute[0])
      invariant ended ==> wheel.clock == old(wheel.clock) + Elapsed(commands[..i])
      invariant wheel.tickMs > 0 && (ended ==> IsNext(wheel.tickMs, firstTick, wheel.clock, next))
      invariant AllRecorded(wheel, commands, old(wheel.clock), firstTick, handles)
      invariant old(wheel.Calm()) && PatientCommands(wheel, commands) ==> wheel.Calm() && ended
    {
      ElapsedStep(commands, i);
      var h;
      label before:
      next, h, ended := Execute(wheel, commands[i], next, firstTick, extra);
      RecordedOneMore@before(wheel, commands, old(wheel.clock), firstTick, handles, h);
      if ended {
        wheel.BeforeNextTick();
        handles := handles + [h];
      }
      i := i + 1;
    }
    forall id | 0 < id < wheel.nextId ensures wheel.Decided(id) {
      wheel.Fate(id);
    }
  }

  /** A timer added for less than a turn of layer 0 runs, if at all, at one time: as many whole base ticks
    after the first tick not before the call as its delay is long. Once that time is over it has run,
    unless it has been cancelled. */
  lemma AddedRunsAt(wheel: TimerWheel, commands: seq<Command>, start: int, first: int, handles: seq<Handle>, i: nat)
    returns (next: int)
    requires wheel.Sound() && |handles| <= |commands| && AllRecorded(wheel, commands, start, first, handles)
    requires i < |handles| && handles[i].valid && commands[i].Add? && commands[i].delay < wheel.tickMs * wheel.wheelSize
    ensures var now := start + Elapsed(commands[..i]);
            && wheel.tickMs > 0 && first <= next && now <= next && (next - first) % wheel.tickMs == 0
            && (next == first || next < now + wheel.tickMs)
    ensures var run := next + commands[i].delay / wheel.tickMs * wheel.tickMs;
            && (forall n :: 0 <= n < |wheel.fired| && wheel.fired[n].id == handles[i].id ==> wheel.fired[n].time == run)
            && (run < wheel.clock && handles[i].id !in wheel.cancelledAt ==>
                  exists n :: 0 <= n < |wheel.fired| && wheel.fired[n].id == handles[i].id)
  {
    next := RecordedAs(wheel, commands, start, first, handles, i);
    hide *;
    wheel.OneShotTimes(handles[i].id);
    if next + commands[i].delay / wheel.tickMs * wheel.tickMs < wheel.clock && handles[i].id !in wheel.cancelledAt {
      wheel.AddedHasRun(handles[i].id);
    }
  }

  lemma RecordedAs(wheel: TimerWheel, commands: seq<Command>, start: int, first: int, handles: seq<Handle>, i: nat)
    returns (next: int)
    requires |handles| <= |commands| && AllRecorded(wheel, commands, start, first, handles)
    requires i < |handles| && handles[i].valid && commands[i].Add?
    ensures var now := start + Elapsed(commands[..i]);
            && wheel.tickMs > 0 && first <= next && now <= next && (next - first) % wheel.tickMs == 0
            && (next == first || next < now + wheel.tickMs)
    ensures var a := Arming(commands[i].delay, start + Elapsed(commands[..i]) + commands[i].delay, 0, false, next);
            handles[i].id in wheel.armed && wheel.armed[handles[i].id] == a
  {
    hide Elapsed;
    assert Recorded(wheel, commands[i], start + Elapsed(commands[..i]), first, handles[i]);
    next := wheel.armed[handles[i].id].next;
  }

  ghost predicate PatientCommands(wheel: TimerWheel, commands: seq<Command>) {
    forall i :: 0 <= i < |commands| && commands[i].AddRepeat? ==> wheel.tickMs <= commands[i].interval
  }

  lemma ElapsedStep(commands: seq<Command>, i: nat)
    requires i < |commands|
    ensures Elapsed(commands[..i + 1]) == Elapsed(commands[..i]) + if commands[i].Elapse? then commands[i].ms else 0
  {
    assert commands[..i + 1][..i] == commands[..i];
  }

  lemma FirstIsNext(tick: int, now: int, first: int)
    requires tick > 0 && now <= first
    ensures IsNext(tick, first, now, first)
  {}

  lemma NothingRecorded(wheel: TimerWheel, commands: seq<Command>, start: int, first: int)
    ensures AllRecorded(wheel, commands, start, first, []) && Elapsed(commands[..0]) == 0
  {}

  method Execute(wheel: TimerWheel, command: Command, next: int, ghost first: int, extra: nat)
    returns (after: int, h: Handle, ended: bool)
    requires wheel.Valid() && next == wheel.Visit(0, wheel.absolute[0]) && IsNext(wheel.tickMs, first, wheel.clock, next)
    modifies wheel, wheel.live
    ensures wheel.Sound() && wheel.RecordKept() && fresh(wheel.live - old(wheel.live))
    ensures old(wheel.Calm()) && (command.AddRepeat? ==> wheel.tickMs <= command.interval) ==> wheel.Calm() && ended
    ensures ended ==> wheel.Valid() && after == wheel.Visit(0, wheel.absolute[0])
    ensures ended ==> wheel.clock == old(wheel.clock) + if command.Elapse? then command.ms else 0
    ensures Recorded(wheel, command, old(wheel.clock), first, h)
    ensures wheel.tickMs > 0 && (ended ==> IsNext(wheel.tickMs, first, wheel.clock, after))
    ensures command.CancelId? && command.id in old(wheel.armed) ==> command.id in wheel.cancelledAt
  {
    wheel.ArmedIssued();
    hide wheel.Structure, wheel.Aligned, wheel.Indexed, wheel.History, wheel.Ledger, wheel.TaskOnTime, wheel.Visit,
         wheel.SlotWidth, wheel.Turn;
    after, h, ended := next, Handle(0, false), true;
    match command
    case Add(delay) => h := ExecuteArm(wheel, command, delay, first);
    case AddRepeat(interval) => h := ExecuteArm(wheel, command, interval, first);
    case CancelId(id) => h := wheel.CancelTimer(Handle(id, true));
    case Elapse(ms) => after, ended := ElapseTo(wheel, wheel.clock + ms, next, first, extra);
  }

  method ExecuteArm(wheel: TimerWheel, command: Command, delay: int, ghost first: int) returns (h: Handle)
    requires wheel.Valid() && IsNext(wheel.tickMs, first, wheel.clock, wheel.Visit(0, wheel.absolute[0]))
    requires (command == Add(delay) || command == AddRepeat(delay))
    modifies wheel`slots, wheel`filed, wheel`live, wheel`taskMap, wheel`nextId, wheel`armed
    ensures wheel.Valid() && wheel.RecordKept() && fresh(wheel.live - old(wheel.live))
    ensures old(wheel.NoShortRepeat()) && (command.AddRepeat? ==> wheel.tickMs <= delay) ==> wheel.NoShortRepeat()
    ensures Recorded(wheel, command, wheel.clock, first, h)
  {
    hide wheel.Structure, wheel.Aligned, wheel.Indexed, wheel.History, wheel.Ledger, wheel.TaskOnTime, wheel.Visit,
         wheel.SlotWidth, wheel.Turn, wheel.Undisturbed, wheel.Pending, wheel.Settled, IsNext;
    wheel.BeforeNextTick();
    if command.Add? {
      h := wheel.AddTimer(delay, true, false);
    } else {
      h := wheel.AddRepeatTimer(delay, true, false);
    }
  }

  twostate lemma RecordedOneMore(new wheel: TimerWheel, new commands: seq<Command>, new start: int, new first: int,
                                 new handles: seq<Handle>, new h: Handle)
    requires old(allocated(wheel)) && wheel.RecordKept() && |handles| < |commands|
    requires old(AllRecorded(wheel, commands, start, first, handles))
    requires var command := commands[|handles|];
             && Recorded(wheel, command, start + Elapsed(commands[..|handles|]), first, h)
             && (command.CancelId? && command.id in old(wheel.armed) ==> command.id in wheel.cancelledAt)
    ensures AllRecorded(wheel, commands, start, first, handles) && AllRecorded(wheel, commands, start, first, handles + [h])
  {
    hide Elapsed;
    forall i | 0 <= i < |handles| ensures Recorded(wheel, commands[i], start + Elapsed(commands[..i]), first, handles[i]) {
      assert old(Recorded(wheel, commands[i], start + Elapsed(commands[..i]), first, handles[i]));
    }
    forall i | 0 <= i < |handles| && handles[i].valid ensures handles[i].id in old(wheel.armed) {
      assert old(Recorded(wheel, commands[i], start + Elapsed(commands[..i]), first, handles[i]));
    }
  }
}
