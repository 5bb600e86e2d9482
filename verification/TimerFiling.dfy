/** Filing delays in the slots of src/core/timer_wheel.cpp: the arithmetic of one layer, and the choice
  of the layer. */
module TimerFiling {
  import opened Arithmetic

  /** What a running callback may ask of the wheel. */
  datatype Request = Arm(delay: int, repeat: bool) | Cancel(id: nat)

  // ---------------------------------------------------------------- arithmetic of one layer

  /** A task that waits in a layer for a visit at time `visit` can still fire on time: in layer 0
    it fires at `visit` plus the rounds it has to sit out; higher up the visit hands it down
    neither more than a slot width late nor, except in the last layer, a slot width early. */
  ghost predicate OnTime(layer: nat, last: nat, width: int, size: int, tick: int,
                         visit: int, expire: int, rounds: int, slack: int)
  {
    && 0 <= rounds
    && width <= slack
    && (layer == 0 ==> -tick < visit + rounds * (width * size) - expire <= slack + tick)
    && (layer > 0 ==>
          && -width <= expire - visit
          && (layer < last ==> rounds == 0 && expire - visit < width)
          && (rounds > 0 ==> (rounds - 1) * (width * size) <= expire - visit))
  }

  lemma DivBounds(a: int, b: int)
    requires b > 0
    ensures a == (a / b) * b + a % b && 0 <= a % b < b
  {}

  /** A quotient and remainder are the only ones that fit. */
  lemma DivUnique(a: int, b: int, q: int, r: int)
    requires b > 0 && a == q * b + r && 0 <= r < b
    ensures a / b == q && a % b == r
  {
    DivBounds(a, b);
    assert (q - a / b) * b == a % b - r;
    if q - a / b >= 1 { MulMono(1, q - a / b, b); }
    if q - a / b <= -1 { MulMono(q - a / b, -1, b); }
  }

  lemma Regroup(q: int, t: int, o: int, width: int, size: int)
    requires q == t * size + o
    ensures q * width == t * (width * size) + o * width
  {
    assert q * width == (t * size) * width + o * width;
    assert (t * size) * width == t * (width * size);
  }

  /** Filing a delay at a layer whose slots it fits leaves it on time. `full` says that the
    layer's current slot has just been emptied, so landing on it means waiting a whole turn. */
  lemma FiledOnTime(layer: nat, last: nat, width: int, size: int, tick: int, index: int,
                    clock: int, delay: int, full: bool, slack: int)
    requires 1 <= tick <= width && 2 <= size && layer <= last && 0 < last
    requires layer == 0 ==> width == tick
    requires index * width - tick <= clock <= (index + 1) * width - tick
    requires 0 < delay && width <= slack
    requires layer < last ==> delay < width * size
    requires layer > 0 ==> width <= delay
    requires full ==> layer == last && clock == (index + 1) * width - tick
    ensures var q := delay / width;
            var offset := if full && q % size == 0 then size else q % size;
            OnTime(layer, last, width, size, tick, (index + offset + 1) * width - tick,
                   clock + delay, q / size, slack)
  {
    var q := delay / width;
    DivBounds(delay, width);
    assert 0 <= q by { if q <= -1 { MulMono(q, -1, width); } }
    assert width <= delay ==> 1 <= q by { if q <= 0 { MulMono(q, 0, width); } }
    DivBounds(q, size);
    var rounds, o := q / size, q % size;
    assert 0 <= rounds by { if rounds <= -1 { MulMono(rounds, -1, size); } }
    FiledProducts(layer, last, width, size, tick, index, clock, delay, full, slack, q, rounds, o, delay % width);
  }

  /** FiledOnTime with its quotients and remainders named. */
  lemma FiledProducts(layer: nat, last: nat, width: int, size: int, tick: int, index: int, clock: int,
                      delay: int, full: bool, slack: int, q: int, rounds: int, o: int, rest: int)
    requires 1 <= tick <= width <= slack && 2 <= size && layer <= last && 0 < last
    requires layer == 0 ==> width == tick
    requires index * width - tick <= clock <= (index + 1) * width - tick
    requires layer < last ==> delay < width * size
    requires full ==> layer == last && clock == (index + 1) * width - tick
    requires delay == q * width + rest && 0 <= rest < width
    requires q == rounds * size + o && 0 <= rounds && 0 <= o < size
    requires layer > 0 ==> 1 <= q
    ensures var offset := if full && o == 0 then size else o;
            OnTime(layer, last, width, size, tick, (index + offset + 1) * width - tick,
                   clock + delay, rounds, slack)
  {
    var offset := if full && o == 0 then size else o;
    var turn, visit := width * size, (index + offset + 1) * width - tick;
    var turns, base, steps := rounds * turn, index * width, o * width;
    Regroup(q, rounds, o, width, size);
    assert (index + 1) * width == base + width;
    assert visit == base + width + offset * width - tick;
    assert offset * width == if full && o == 0 then turn else steps;
    assert (rounds - 1) * turn == turns - turn;
    MulMono(2, size, width);
    MulMono(0, o, width);
    MulMono(0, rounds, turn);
    if rounds >= 1 { MulMono(1, rounds, turn); }
    FiledInterval(layer, last, width, turn, tick, base, clock, delay, full && o == 0,
                  slack, rounds, turns, steps, visit);
  }

  /** The linear core of FiledOnTime, with the products named. */
  lemma FiledInterval(layer: nat, last: nat, width: int, turn: int, tick: int, base: int, clock: int,
                      delay: int, whole: bool, slack: int, rounds: int, turns: int, steps: int, visit: int)
    requires 1 <= tick <= width <= slack && 2 * width <= turn && layer <= last && 0 < last
    requires layer == 0 ==> width == tick
    requires base - tick <= clock <= base + width - tick
    requires 0 <= delay - turns - steps < width
    requires 0 <= turns && 0 <= rounds && (layer < last ==> rounds == 0) && (rounds == 0 ==> turns == 0)
    requires whole ==> layer == last && clock == base + width - tick && steps == 0 && turn <= turns
    requires visit == base + width - tick + if whole then turn else steps
    ensures layer == 0 ==> -tick < visit + turns - (clock + delay) <= slack + tick
    ensures layer > 0 ==> -width <= clock + delay - visit
    ensures layer < last ==> clock + delay - visit < width
    ensures rounds > 0 ==> turns - turn <= clock + delay - visit
  {}

  /** A task found overdue by a visit is handed straight to layer 0 and stays on time, even when
    a stale `rounds_left` makes it sit out one more turn there. */
  lemma OverdueOnTime(layer: nat, last: nat, width: int, size: int, tick: int,
                      clock: int, expire: int, rounds: int, slack: int)
    requires 1 <= tick && 2 <= size && 0 < layer <= last && tick * size <= width
    requires OnTime(layer, last, width, size, tick, clock, expire, rounds, slack)
    requires expire <= clock
    ensures OnTime(0, last, tick, size, tick, clock + tick, expire, rounds, slack)
  {
    MulMono(2, size, tick);
    if rounds > 0 {
      assert rounds == 1 by {
        if rounds >= 2 {
          MulMono(2, size, width);
          MulMono(1, rounds - 1, width * size);
        }
      }
    }
  }

  /** A delay of at least a slot and less than a turn is that many slots ahead. */
  lemma WithinTurn(delay: int, tick: int, size: int)
    requires 1 <= tick <= delay < tick * size && 2 <= size
    ensures 0 < (delay / tick) % size < size
  {
    DivBounds(delay, tick);
    var q := delay / tick;
    assert 1 <= q by { if q <= 0 { MulMono(q, 0, tick); } }
    assert q < size by { if size <= q { MulMono(size, q, tick); } }
    DivUnique(q, size, 0, q);
  }

  /** A delay below the base tick, filed into the slot being walked behind the end of the walk,
    waits a whole turn of layer 0. */
  lemma StrandedOnTime(last: nat, size: int, tick: int, index: int, clock: int, delay: int, slack: int)
    requires 1 <= tick <= slack && 2 <= size && 0 < last && 0 < delay < tick && clock == (index + 1) * tick - tick
    ensures delay / tick == 0
    ensures var visit := (index + size + 1) * tick - tick;
            && visit - (clock + delay) == tick * size - delay > tick * size - tick
            && (OnTime(0, last, tick, size, tick, visit, clock + delay, 0, slack) <==> tick * size - delay <= slack + tick)
  {
    DivUnique(delay, tick, 0, delay);
    assert (index + size + 1) * tick == (index + 1) * tick + tick * size;
    MulMono(2, size, tick);
  }

  /** That is within the window of its slot exactly if the layer has two slots. */
  lemma StrandedIff(last: nat, size: int, tick: int, index: int, clock: int, delay: int)
    requires 1 <= tick && 2 <= size && 0 < last && 0 < delay < tick && clock == (index + 1) * tick - tick
    ensures OnTime(0, last, tick, size, tick, (index + size + 1) * tick - tick, clock + delay, 0, tick) <==> size == 2
  {
    StrandedOnTime(last, size, tick, index, clock, delay, tick);
    if size >= 3 { MulMono(3, size, tick); }
  }

  /** Sitting out one round in layer 0 leaves the firing time as it was. */
  lemma SkippedOnTime(last: nat, size: int, tick: int, visit: int, expire: int, rounds: int, slack: int)
    requires 0 < rounds && OnTime(0, last, tick, size, tick, visit, expire, rounds, slack)
    ensures OnTime(0, last, tick, size, tick, visit + tick * size, expire, rounds - 1, slack)
  {
    assert (rounds - 1) * (tick * size) == rounds * (tick * size) - tick * size;
  }

  lemma ModWindow(index: int, due: int, size: int)
    requires 0 < size && index <= due <= index + size && due % size == index % size
    ensures due == index || due == index + size
  {
    DivBounds(index, size);
    DivBounds(due, size);
    var d := due / size - index / size;
    assert due - index == d * size;
    if d >= 2 { MulMono(2, d, size); } else if d <= -1 { MulMono(d, -1, size); }
  }

  lemma ModAdd(index: int, offset: int, size: int)
    requires 0 < size
    ensures (index % size + offset) % size == (index + offset) % size
    ensures (index + size) % size == index % size
  {
    ModShift(index % size + offset, index / size, size);
    DivBounds(index, size);
    ModShift(index, 1, size);
  }

  lemma ModShift(a: int, k: int, size: int)
    requires 0 < size
    ensures (a + k * size) % size == a % size
  {
    DivBounds(a, size);
    assert (a / size + k) * size == (a / size) * size + k * size;
    DivUnique(a + k * size, size, a / size + k, a % size);
  }

  /** Moving one layer on: either the turn is not over and the next layer keeps its index, or the
    next layer is exactly one behind. */
  lemma NextTurn(index: int, size: int)
    requires 0 < size
    ensures (index + 1) % size != 0 ==> (index + 1) / size == index / size
    ensures (index + 1) % size == 0 ==> index + 1 == (index / size + 1) * size
  {
    DivBounds(index, size);
    DivBounds(index + 1, size);
    var d := (index + 1) / size - index / size;
    assert d * size == 1 + index % size - (index + 1) % size;
    if d >= 2 { MulMono(2, d, size); }
    if d <= -1 { MulMono(d, -1, size); }
  }

  /** The layer a delay is filed in. */
  function LayerFor(width: seq<int>, size: int, delay: int, from: nat): (k: nat)
    requires from < |width|
    ensures from <= k < |width|
    ensures k + 1 < |width| ==> delay < width[k] * size
    ensures forall j :: from <= j < k ==> width[j] * size <= delay
    decreases |width| - from
  {
    if delay < width[from] * size || from + 1 == |width| then from
    else LayerFor(width, size, delay, from + 1)
  }

  // ---------------------------------------------------------------- when a task runs

  /** Slot widths of layers, each a turn of the one below. */
  ghost predicate Layered(width: seq<int>, size: int) {
    && 1 < |width| && 2 <= size && (forall k :: 0 <= k < |width| ==> 1 <= width[k])
    && (forall k :: 0 < k < |width| ==> width[k] == width[k - 1] * size)
  }

  /** When a task runs that layer `k` hands down at time `at` with `left` of its delay left. If nothing
    is left it runs at the next base tick, or later if it still has rounds to sit out there. A lower
    layer takes what it fits, and is visited once more after that; the last layer takes a task back
    for whole slots, a turn at most. */
  ghost function Handed(width: seq<int>, size: int, k: nat, at: int, left: int, rounds: int): int
    requires Layered(width, size)
    decreases if left <= 0 then 0 else left
  {
    if left <= 0 then at + width[0] + rounds * (width[0] * size)
    else
      var j := LayerFor(width, size, left, 0);
      var q := left / width[j];
      if j == 0 then at + width[0] + q * width[0]
      else if j < k then at + width[0] + (q + 1) * width[j]
      else
        var slots := if q % size == 0 then size else q % size;
        Shorter(left, width[j], slots);
        Handed(width, size, k, at + slots * width[j], left - slots * width[j], q / size)
  }

  lemma Shorter(left: int, width: int, slots: int)
    requires 1 <= width && 1 <= slots
    ensures left - slots * width < left
  {
    MulMono(1, slots, width);
  }

  /** When a task runs that waits in layer `k` for a visit at time `visit`. */
  ghost function Arrival(width: seq<int>, size: int, k: nat, visit: int, expire: int, rounds: int): int
    requires Layered(width, size)
  {
    if k == 0 then visit + rounds * (width[0] * size) else Handed(width, size, k, visit, expire - visit, rounds)
  }

  /** When a timer runs that is armed for a delay, `next` being the time of the next base tick. */
  ghost function FirstRun(width: seq<int>, size: int, next: int, delay: int, expire: int): int
    requires Layered(width, size)
  {
    var k := LayerFor(width, size, delay, 0);
    var q := delay / width[k];
    if k == 0 then next + q * width[0]
    else Arrival(width, size, k, (next / width[k] + 1 + q % size) * width[k] - width[0], expire, q / size)
  }

  /** A task does not run before it is handed down. */
  lemma {:induction false} HandedLater(width: seq<int>, size: int, k: nat, at: int, left: int, rounds: int)
    requires Layered(width, size) && 0 <= rounds
    ensures at <= Handed(width, size, k, at, left, rounds)
    decreases if left <= 0 then 0 else left
  {
    if left <= 0 {
      MulMono(0, size, width[0]);
      MulMono(0, rounds, width[0] * size);
    } else {
      var j := LayerFor(width, size, left, 0);
      var q := left / width[j];
      var slots := if q % size == 0 then size else q % size;
      NotNegative(left, width[j]);
      NotNegative(q, size);
      Shorter(left, width[j], slots);
      HandedOn(width, size, k, at, left, rounds);
      hide Handed, LayerFor;
      if j == 0 {
        MulMono(0, q, width[0]);
      } else if j < k {
        MulMono(0, q + 1, width[j]);
      } else {
        HandedLater(width, size, k, at + slots * width[j], left - slots * width[j], q / size);
      }
    }
  }

  /** One step of handing down. */
  lemma HandedOn(width: seq<int>, size: int, k: nat, at: int, left: int, rounds: int)
    requires Layered(width, size) && 0 < left
    ensures var j := LayerFor(width, size, left, 0);
            var q := left / width[j];
            var slots := if q % size == 0 then size else q % size;
            Handed(width, size, k, at, left, rounds) ==
              if j == 0 then at + width[0] + q * width[0]
              else if j < k then at + width[0] + (q + 1) * width[j]
              else Handed(width, size, k, at + slots * width[j], left - slots * width[j], q / size)
  {
    hide LayerFor;
  }

  lemma NotNegative(a: int, b: int)
    requires 0 <= a && 1 <= b
    ensures 0 <= a / b
  {
    DivBounds(a, b);
    if a / b <= -1 { MulMono(a / b, -1, b); }
  }

  /** Layer indexes in step count whole slots of a time. */
  lemma DivDiv(x: int, w: int, size: int)
    requires 1 <= w && 1 <= size
    ensures (x / w) / size == x / (w * size)
  {
    var q := x / w;
    var r := q / size;
    DivBounds(x, w);
    DivBounds(q, size);
    MulMono(1, size, w);
    assert r * (w * size) == (r * size) * w;
    assert q * w == (r * size) * w + (q % size) * w;
    MulMono(0, q % size, w);
    MulMono(q % size + 1, size, w);
    assert (q % size + 1) * w == (q % size) * w + w;
    DivUnique(x, w * size, r, (q % size) * w + x % w);
  }

  lemma {:induction false} Wider(width: seq<int>, size: int, j: nat, k: nat)
    requires Layered(width, size) && j <= k < |width|
    ensures width[j] <= width[k] && width[k] % width[j] == 0
    decreases k - j
  {
    if j == k {
      DivUnique(width[k], width[k], 1, 0);
    } else {
      var w := width[k - 1];
      MulMono(1, size, w);
      Wider(width, size, j, k - 1);
      DivBounds(w, width[j]);
      assert w * size == (w / width[j] * size) * width[j];
      DivUnique(w * size, width[j], w / width[j] * size, 0);
    }
  }

  /** The layer a delay is filed in is the one whose slots it fills, but not their turn. */
  lemma LayerIs(width: seq<int>, size: int, delay: int, k: nat)
    requires Layered(width, size) && k < |width|
    requires (k == 0 || width[k] <= delay) && (delay < width[k] * size || k == |width| - 1)
    ensures LayerFor(width, size, delay, 0) == k
  {
    var j := LayerFor(width, size, delay, 0);
    if j < k { Wider(width, size, j + 1, k); }
  }

  /** A quotient of a delay that a slot is filled with but its turn is not. */
  lemma FewSlots(delay: int, width: int, size: int)
    requires 1 <= width && 2 <= size && 0 <= delay < width * size
    ensures 0 <= delay / width < size && (delay / width) % size == delay / width && (delay / width) / size == 0
  {
    var q := delay / width;
    DivBounds(delay, width);
    if q <= -1 { MulMono(q, -1, width); }
    if size <= q { MulMono(size, q, width); }
    DivUnique(q, size, 0, q);
  }

  /** What is left after a layer has handed a task down runs from layer 0, within a base tick of its
    expiry, or a slot of a layer between later. */
  lemma HandedBelow(width: seq<int>, size: int, k: nat, at: int, left: int, rounds: int)
    requires Layered(width, size) && 0 < k < |width| && 0 < left < width[k]
    ensures left < width[0] * size ==> Handed(width, size, k, at, left, rounds) == at + width[0] + left / width[0] * width[0]
    ensures forall j :: 0 < j < |width| && width[j] <= left < width[j] * size ==>
              Handed(width, size, k, at, left, rounds) == at + width[0] + (left / width[j] + 1) * width[j]
  {
    if left < width[0] * size { LayerIs(width, size, left, 0); }
    forall j | 0 < j < |width| && width[j] <= left < width[j] * size
      ensures Handed(width, size, k, at, left, rounds) == at + width[0] + (left / width[j] + 1) * width[j]
    {
      LayerIs(width, size, left, j);
      if k <= j { Wider(width, size, k, j); }
    }
  }

  /** Next visits of a layer come after a tick, and at a base tick before a whole slot. */
  lemma NextSlot(next: int, width: int, tick: int)
    requires 1 <= tick <= width && next % tick == 0 && width % tick == 0
    ensures next + tick <= (next / width + 1) * width <= next + width
  {
    DivBounds(next, width);
    DivBounds(next, tick);
    DivBounds(width, tick);
    var q := next / width;
    assert (q + 1) * width == q * width + width;
    assert (q + 1) * width == ((q + 1) * (width / tick)) * tick;
    var d := (q + 1) * (width / tick) - next / tick;
    assert (q + 1) * width - next == d * tick;
    if d <= 0 { MulMono(d, 0, tick); } else { MulMono(1, d, tick); }
  }

  /** When a timer runs whose delay is within the range of the wheel, written out. A delay below a turn
    of layer 0 runs as many base ticks from the next one as it is long. Any other waits for the visit of
    its layer, and what is then left of it is counted in base ticks again, or, where another layer comes
    between, in whole slots of that. */
  lemma RunsInRange(width: seq<int>, size: int, next: int, delay: int, expire: int, k: nat)
    requires Layered(width, size) && expire - delay <= next <= expire - delay + width[0] && next % width[0] == 0 && k < |width|
    requires 0 < delay < width[k] * size && (k == 0 || width[k] <= delay)
    ensures k == 0 ==> FirstRun(width, size, next, delay, expire) == next + delay / width[0] * width[0]
    ensures k > 0 ==>
              var run := FirstRun(width, size, next, delay, expire);
              var visit := (next / width[k] + 1 + delay / width[k]) * width[k] - width[0];
              var left := expire - visit;
              && (left <= 0 ==> run == visit + width[0])
              && (0 < left < width[0] * size ==> run == visit + width[0] + left / width[0] * width[0])
              && forall j :: 0 < j < |width| && width[j] <= left < width[j] * size ==>
                   run == visit + width[0] + (left / width[j] + 1) * width[j]
  {
    FirstRunIs(width, size, next, delay, expire, k);
    hide FirstRun, LayerFor, Handed;
    if k > 0 {
      var visit := (next / width[k] + 1 + delay / width[k]) * width[k] - width[0];
      Wider(width, size, 0, k);
      NextSlot(next, width[k], width[0]);
      hide Layered;
      VisitInTime(width[k], width[0], next, expire - delay, delay);
      if 0 < expire - visit { HandedBelow(width, size, k, visit, expire - visit, 0); }
    }
  }

  lemma FirstRunIs(width: seq<int>, size: int, next: int, delay: int, expire: int, k: nat)
    requires Layered(width, size) && k < |width| && 0 < delay < width[k] * size && (k == 0 || width[k] <= delay)
    ensures var q := delay / width[k];
            var visit := (next / width[k] + 1 + q) * width[k] - width[0];
            FirstRun(width, size, next, delay, expire) ==
              if k == 0 then next + q * width[0] else Handed(width, size, k, visit, expire - visit, 0)
  {
    LayerIs(width, size, delay, k);
    FewSlots(delay, width[k], size);
    hide LayerFor, Handed;
  }

  /** The first visit leaves less than a slot of the delay. */
  lemma VisitInTime(width: int, tick: int, next: int, clock: int, delay: int)
    requires 1 <= tick <= width && clock <= next && next + tick <= (next / width + 1) * width && 0 < delay
    ensures clock + delay - ((next / width + 1 + delay / width) * width - tick) < width
  {
    DivBounds(delay, width);
    assert (next / width + 1 + delay / width) * width == (next / width + 1) * width + delay / width * width;
  }

  /** What runs from the layers below the last one when `rest` is left of a delay at time `at`. */
  ghost predicate RunsBelow(width: seq<int>, size: int, at: int, rest: int, run: int)
    requires Layered(width, size)
  {
    && (rest < width[0] * size ==> run == at + width[0] + rest / width[0] * width[0])
    && forall j :: 0 < j < |width| && width[j] <= rest < width[j] * size ==>
         run == at + width[0] + (rest / width[j] + 1) * width[j]
  }

  /** When a task runs that the last layer has visited with `q` slots and a rest of its delay left: it
    stays for these slots. If it is then due to the millisecond and has been round the layer, a stale
    rounds_left costs it a turn of layer 0. */
  lemma {:induction false} HandedByLast(width: seq<int>, size: int, at: int, q: nat, whole: int, rest: int, rounds: int)
    requires Layered(width, size) && 0 <= rest < width[|width| - 1] && 0 < whole + rest
    requires Product(q, width[|width| - 1], whole)
    ensures RunsLast(width, size, at + whole, q, rest, Handed(width, size, |width| - 1, at, whole + rest, rounds))
    decreases q
  {
    hide *;
    SizeOk(width, size);
    if q == 0 {
      HandedRest(width, size, at, whole, rest, rounds);
    } else {
      var w := width[|width| - 1];
      var slots, round, taken := SlotsTaken(q, size, w, whole);
      BackToLast(width, size, at, q, whole, rest, rounds, slots, round, taken);
      var left := whole - taken;
      if 0 < left + rest {
        HandedByLast(width, size, at + taken, q - slots, left, rest, round);
        StillRunsLast(width, size, at + taken + left, q, left, rest, slots, round,
                      Handed(width, size, |width| - 1, at + taken, left + rest, round));
      } else {
        NothingLeft(width, size, at + taken, q, slots, round, left);
      }
    }
  }

  ghost predicate RunsLast(width: seq<int>, size: int, visit: int, q: int, rest: int, run: int)
    requires Layered(width, size)
  {
    if rest == 0 then run == visit + width[0] + if q >= size then width[0] * size else 0
    else RunsBelow(width, size, visit, rest, run)
  }

  /** What the last layer takes back again is still a turn away, or has a rest. */
  lemma StillRunsLast(width: seq<int>, size: int, visit: int, q: int, left: int, rest: int, slots: int, round: int, run: int)
    requires Layered(width, size) && 0 < q && TakenBack(q, size, slots, round) && 0 < left + rest
    requires Product(q - slots, width[|width| - 1], left) && RunsLast(width, size, visit, q - slots, rest, run)
    ensures RunsLast(width, size, visit, q, rest, run)
  {
    if rest == 0 { RoundsLeft(q, size, slots, round, width[|width| - 1], left); }
    hide RunsBelow;
  }

  /** How many of its slots the last layer takes a task back for, and the rounds that leaves it with. */
  ghost predicate TakenBack(q: int, size: int, slots: int, round: int) {
    2 <= size && slots == (if q % size == 0 then size else q % size) && round == q / size
  }

  lemma SizeOk(width: seq<int>, size: int)
    requires Layered(width, size)
    ensures 2 <= size && 1 < |width| && 1 <= width[|width| - 1]
  {}

  lemma HandedRest(width: seq<int>, size: int, at: int, whole: int, rest: int, rounds: int)
    requires Layered(width, size) && 0 <= rest < width[|width| - 1] && 0 < whole + rest
    requires Product(0, width[|width| - 1], whole)
    ensures RunsLast(width, size, at + whole, 0, rest, Handed(width, size, |width| - 1, at, whole + rest, rounds))
  {
    HandedBelow(width, size, |width| - 1, at, rest, rounds);
    hide Handed;
  }

  ghost predicate Product(a: int, b: int, product: int) {
    product == a * b
  }

  lemma BackToLast(width: seq<int>, size: int, at: int, q: int, whole: int, rest: int, rounds: int, slots: int, round: int,
                   taken: int)
    requires Layered(width, size) && 0 <= rest < width[|width| - 1] && 0 < q && Product(q, width[|width| - 1], whole)
    requires TakenBack(q, size, slots, round) && Product(slots, width[|width| - 1], taken)
    ensures Handed(width, size, |width| - 1, at, whole + rest, rounds) ==
            Handed(width, size, |width| - 1, at + taken, whole - taken + rest, round)
  {
    SizeOk(width, size);
    FillsLast(width, size, q, whole, rest);
    hide Layered, Product;
    HandedAgain(width, size, at, whole + rest, rounds, q, slots, taken);
  }

  lemma FillsLast(width: seq<int>, size: int, q: int, whole: int, rest: int)
    requires Layered(width, size) && 0 <= rest < width[|width| - 1] && 0 < q && Product(q, width[|width| - 1], whole)
    ensures 0 < whole + rest && (whole + rest) / width[|width| - 1] == q
    ensures LayerFor(width, size, whole + rest, 0) == |width| - 1
  {
    var w := width[|width| - 1];
    MulMono(1, q, w);
    DivUnique(whole + rest, w, q, rest);
    LayerIs(width, size, whole + rest, |width| - 1);
  }

  lemma HandedAgain(width: seq<int>, size: int, at: int, left: int, rounds: int, q: int, slots: int, taken: int)
    requires Layered(width, size) && 0 < left && LayerFor(width, size, left, 0) == |width| - 1
    requires q == left / width[|width| - 1] && slots == if q % size == 0 then size else q % size
    requires Product(slots, width[|width| - 1], taken)
    ensures Handed(width, size, |width| - 1, at, left, rounds) ==
            Handed(width, size, |width| - 1, at + taken, left - taken, q / size)
  {
    hide LayerFor;
  }

  lemma SlotsTaken(q: int, size: int, w: int, whole: int) returns (slots: int, round: int, taken: int)
    requires 2 <= size && 0 < q && Product(q, w, whole)
    ensures TakenBack(q, size, slots, round) && 1 <= slots <= q && 0 <= round
    ensures Product(slots, w, taken) && Product(q - slots, w, whole - taken)
  {
    DivBounds(q, size);
    if q < size { DivUnique(q, size, 0, q); }
    slots, round := if q % size == 0 then size else q % size, q / size;
    taken := slots * w;
    assert q * w - slots * w == (q - slots) * w;
  }

  /** Due to the millisecond. */
  lemma NothingLeft(width: seq<int>, size: int, at: int, q: int, slots: int, round: int, left: int)
    requires Layered(width, size) && 0 < q && 1 <= slots <= q && TakenBack(q, size, slots, round)
    requires Product(q - slots, width[|width| - 1], left) && left <= 0
    ensures left == 0 && RunsLast(width, size, at, q, 0, Handed(width, size, |width| - 1, at, 0, round))
  {
    if q > slots { MulMono(1, q - slots, width[|width| - 1]); }
    if q == size { DivUnique(q, size, 1, 0); } else { DivUnique(q, size, 0, q); }
  }

  /** When a timer runs whose delay is beyond the range of the wheel, written out. The last layer visits
    it once a turn, and takes it back while whole slots of it are left. What is left then is counted as
    for shorter delays; but if nothing is, and more than a turn was at the first visit, a stale
    rounds_left makes it a turn of layer 0 late. */
  lemma RunsBeyond(width: seq<int>, size: int, next: int, delay: int, expire: int)
    requires Layered(width, size) && expire - delay <= next <= expire - delay + width[0] && width[|width| - 1] * size <= delay
    ensures var w := width[|width| - 1];
            var run := FirstRun(width, size, next, delay, expire);
            var visit := (next / w + 1 + delay / w % size) * w - width[0];
            var left := expire - visit;
            var slots, rest := left / w, left % w;
            var last := visit + slots * w;
            && 0 < left
            && (rest == 0 ==> run == last + width[0] + if slots >= size then width[0] * size else 0)
            && (0 < rest < width[0] * size ==> run == last + width[0] + rest / width[0] * width[0])
            && forall j :: 0 < j < |width| && width[j] <= rest < width[j] * size ==>
                 run == last + width[0] + (rest / width[j] + 1) * width[j]
  {
    var w := width[|width| - 1];
    var visit := (next / w + 1 + delay / w % size) * w - width[0];
    SizeOk(width, size);
    FirstByLast(width, size, next, delay, expire);
    LeftBeyond(w, size, width[0], next, expire - delay, delay);
    hide *;
    LastCase(width, size, visit, expire - visit, delay / w / size);
  }

  lemma LastCase(width: seq<int>, size: int, visit: int, left: int, rounds: int)
    requires Layered(width, size) && 0 < left
    ensures var w := width[|width| - 1];
            var run := Handed(width, size, |width| - 1, visit, left, rounds);
            var slots, rest := left / w, left % w;
            var last := visit + slots * w;
            && (rest == 0 ==> run == last + width[0] + if slots >= size then width[0] * size else 0)
            && (0 < rest < width[0] * size ==> run == last + width[0] + rest / width[0] * width[0])
            && forall j :: 0 < j < |width| && width[j] <= rest < width[j] * size ==>
                 run == last + width[0] + (rest / width[j] + 1) * width[j]
  {
    var w := width[|width| - 1];
    DivBounds(left, w);
    var slots := left / w;
    if slots <= -1 { MulMono(slots, -1, w); }
    HandedByLast(width, size, visit, slots, slots * w, left % w, rounds);
    hide Handed;
  }

  lemma FirstByLast(width: seq<int>, size: int, next: int, delay: int, expire: int)
    requires Layered(width, size) && width[|width| - 1] * size <= delay
    ensures var w := width[|width| - 1];
            var visit := (next / w + 1 + delay / w % size) * w - width[0];
            FirstRun(width, size, next, delay, expire) ==
            Handed(width, size, |width| - 1, visit, expire - visit, delay / w / size)
  {
    MulMono(2, size, width[|width| - 1]);
    LayerIs(width, size, delay, |width| - 1);
    hide LayerFor, Handed;
  }

  /** The first visit comes before the expiry. */
  lemma LeftBeyond(w: int, size: int, tick: int, next: int, clock: int, delay: int)
    requires 1 <= tick && 1 <= w && 2 <= size && next <= clock + tick && w * size <= delay
    ensures 0 < clock + delay - ((next / w + 1 + delay / w % size) * w - tick)
  {
    var q, o := delay / w, delay / w % size;
    DivBounds(delay, w);
    DivBounds(next, w);
    OneTurnAtLeast(w, size, delay);
    MulMono(size + o, q, w);
    MulMono(2, size, w);
    assert (next / w + 1 + o) * w == next / w * w + w + o * w;
    assert (size + o) * w == size * w + o * w;
  }

  lemma OneTurnAtLeast(w: int, size: int, delay: int)
    requires 1 <= w && 2 <= size && w * size <= delay
    ensures size + delay / w % size <= delay / w
  {
    var q := delay / w;
    DivBounds(delay, w);
    DivBounds(q, size);
    assert (q + 1) * w == q * w + w;
    if q < size { MulMono(q + 1, size, w); }
    if q / size <= 0 { MulMono(q / size, 0, size); } else { MulMono(1, q / size, size); }
  }

  lemma RoundsLeft(q: int, size: int, slots: int, round: int, w: int, left: int)
    requires 1 <= w && 0 < q && TakenBack(q, size, slots, round)
    requires Product(q - slots, w, left) && 0 < left
    ensures q >= size && q - slots >= size
  {
    DivBounds(q, size);
    if q - slots <= 0 { MulMono(q - slots, 0, w); }
    if q < size { DivUnique(q, size, 0, q); }
    var n := if q % size == 0 then q / size - 1 else q / size;
    assert q - slots == n * size;
    if n <= 0 { MulMono(n, 0, size); } else { MulMono(1, n, size); }
  }

  lemma TurnAbove(lower: int, upper: int, size: int, width: int)
    requires 0 < size && 0 < width && upper == lower / size
    ensures (lower + 1) * width <= (upper + 1) * (width * size)
  {
    DivBounds(lower, size);
    assert (upper + 1) * size == upper * size + size;
    MulMono(lower + 1, (upper + 1) * size, width);
    assert ((upper + 1) * size) * width == (upper + 1) * (width * size);
  }

  lemma Grow(tick: int, size: int, base: int)
    requires 1 <= base <= tick && 2 <= size
    ensures base <= tick <= tick * size && base * size <= tick * size
  {
    MulMono(1, size, tick);
    MulMono(base, tick, size);
  }

  lemma SlotOfDelay(index: int, ticks: int, size: int, offset: int)
    requires 0 < size
    requires offset == ticks % size || (offset == size && ticks % size == 0)
    ensures (index % size + ticks) % size == (index + offset) % size
  {
    ModAdd(index, ticks, size);
    DivBounds(ticks, size);
    ModShift(index + ticks % size, ticks / size, size);
    ModAdd(index, 0, size);
  }
}
