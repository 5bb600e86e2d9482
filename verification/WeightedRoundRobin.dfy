/** Smooth weighted round robin (src/loadbalance/load_balancer.cpp). */
module WeightedRoundRobin {

  import opened Wrappers

  // ---------------------------------------------------------------- one selection on vectors

  function Sum(s: seq<int>): int {
    if s == [] then 0 else s[0] + Sum(s[1..])
  }

  function Raised(cur: seq<int>, w: seq<int>): (r: seq<int>)
    requires |cur| == |w|
    ensures |r| == |w|
  {
    seq(|w|, i requires 0 <= i < |w| => cur[i] + w[i])
  }

  ghost predicate FirstMax(s: seq<int>, k: nat)
  {
    && k < |s|
    && (forall j :: 0 <= j < |s| ==> s[j] <= s[k])
    && (forall j :: 0 <= j < k ==> s[j] < s[k])
  }

  /** The first position of the largest entry. */
  function Pick(s: seq<int>): (k: nat)
    requires s != []
    ensures FirstMax(s, k)
  {
    if |s| == 1 then 0
    else
      var k := Pick(s[..|s| - 1]);
      if s[|s| - 1] > s[k] then |s| - 1 else k
  }

  function Next(cur: seq<int>, w: seq<int>): (r: seq<int>)
    requires |cur| == |w| > 0
    ensures |r| == |w|
  {
    var raised := Raised(cur, w);
    var k := Pick(raised);
    raised[k := raised[k] - Sum(w)]
  }

  /** The current weights after `t` selections. */
  function After(cur: seq<int>, w: seq<int>, t: nat): (r: seq<int>)
    requires |cur| == |w| > 0
    ensures |r| == |w|
  {
    if t == 0 then cur else Next(After(cur, w, t - 1), w)
  }

  /** The positions chosen by the first `t` selections. */
  function Picks(cur: seq<int>, w: seq<int>, t: nat): (p: seq<nat>)
    requires |cur| == |w| > 0
    ensures |p| == t
  {
    if t == 0 then [] else Picks(cur, w, t - 1) + [Pick(Raised(After(cur, w, t - 1), w))]
  }

  function Count(p: seq<nat>, i: nat): nat {
    if p == [] then 0 else Count(p[..|p| - 1], i) + if p[|p| - 1] == i then 1 else 0
  }

  function Zeros(n: nat): seq<int> {
    seq(n, _ => 0)
  }

  ghost predicate Weighted(w: seq<int>)
  {
    |w| >= 2 && Sum(w) > 0 && forall i :: 0 <= i < |w| ==> w[i] >= 0
  }

  // ---------------------------------------------------------------- sums

  lemma {:induction false} SumUpdate(s: seq<int>, k: nat, x: int)
    requires k < |s|
    ensures Sum(s[k := x]) == Sum(s) - s[k] + x
  {
    if k == 0 {
      assert s[k := x][1..] == s[1..];
    } else {
      SumUpdate(s[1..], k - 1, x);
      assert s[k := x][1..] == s[1..][k - 1 := x];
    }
  }

  lemma {:induction false} SumRaised(cur: seq<int>, w: seq<int>)
    requires |cur| == |w|
    ensures Sum(Raised(cur, w)) == Sum(cur) + Sum(w)
  {
    if w != [] {
      SumRaised(cur[1..], w[1..]);
      assert Raised(cur, w)[1..] == Raised(cur[1..], w[1..]);
    }
  }

  lemma {:induction false} SumZeros(n: nat)
    ensures Sum(Zeros(n)) == 0
  {
    if n > 0 {
      SumZeros(n - 1);
      assert Zeros(n)[1..] == Zeros(n - 1);
    }
  }

  lemma {:induction false} SumAtMost(s: seq<int>, bound: int)
    requires forall i :: 0 <= i < |s| ==> s[i] <= bound
    ensures Sum(s) <= |s| * bound
  {
    if s != [] { SumAtMost(s[1..], bound); }
  }

  /** All other entries above `low`: one entry is what they leave of the sum. */
  lemma {:induction false} SumAbove(s: seq<int>, k: nat, low: int)
    requires k < |s| && forall i :: 0 <= i < |s| ==> low < s[i]
    ensures Sum(s) >= s[k] + (|s| - 1) * (low + 1)
  {
    if k > 0 {
      SumAbove(s[1..], k - 1, low);
    } else if |s| > 1 {
      SumAbove(s[1..], 0, low);
    }
  }

  lemma {:induction false} SumSame(s: seq<int>, t: seq<int>, k: nat)
    requires |s| == |t| && k < |s| && Sum(s) == Sum(t)
    requires forall i :: 0 <= i < |s| ==> s[i] <= t[i]
    ensures s[k] == t[k]
  {
    SumMono(s[1..], t[1..]);
    if k > 0 { SumSame(s[1..], t[1..], k - 1); }
  }

  lemma {:induction false} SumMono(s: seq<int>, t: seq<int>)
    requires |s| == |t| && forall i :: 0 <= i < |s| ==> s[i] <= t[i]
    ensures Sum(s) <= Sum(t)
  {
    if s != [] { SumMono(s[1..], t[1..]); }
  }

  // ---------------------------------------------------------------- what every selection keeps

  /** The current weights sum to zero and each stays above minus the total weight. */
  ghost predicate Balanced(cur: seq<int>, w: seq<int>)
  {
    |cur| == |w| && Sum(cur) == 0 && forall i :: 0 <= i < |cur| ==> -Sum(w) < cur[i]
  }

  lemma NextBalanced(cur: seq<int>, w: seq<int>)
    requires Weighted(w) && Balanced(cur, w)
    ensures Balanced(Next(cur, w), w)
  {
    var raised := Raised(cur, w);
    var k := Pick(raised);
    SumRaised(cur, w);
    SumUpdate(raised, k, raised[k] - Sum(w));
    if raised[k] <= 0 { SumAtMost(raised, 0); }
  }

  lemma {:induction false} AfterBalanced(w: seq<int>, t: nat)
    requires Weighted(w)
    ensures Balanced(After(Zeros(|w|), w, t), w)
  {
    SumZeros(|w|);
    if t > 0 {
      AfterBalanced(w, t - 1);
      NextBalanced(After(Zeros(|w|), w, t - 1), w);
    }
  }

  function Owed(total: int, t: int, weight: int, given: int): int {
    t * weight - total * given
  }

  /** A current weight is what the instance has been owed minus what it has been given. */
  lemma {:induction false} Account(w: seq<int>, t: nat, i: nat)
    requires |w| > 0 && i < |w|
    ensures After(Zeros(|w|), w, t)[i] == Owed(Sum(w), t, w[i], Count(Picks(Zeros(|w|), w, t), i))
  {
    if t > 0 {
      Account(w, t - 1, i);
      StepAt(w, t, i);
      hide *;
      AccountStep(Sum(w), t, w[i], Count(Picks(Zeros(|w|), w, t - 1), i), Count(Picks(Zeros(|w|), w, t), i));
    } else {
      AccountStart(Sum(w), w[i]);
    }
  }

  lemma AccountStart(total: int, weight: int)
    ensures Owed(total, 0, weight, 0) == 0
  {}

  lemma AccountStep(total: int, t: int, weight: int, given: int, now: int)
    ensures now == given ==> Owed(total, t, weight, now) == Owed(total, t - 1, weight, given) + weight
    ensures now == given + 1 ==> Owed(total, t, weight, now) == Owed(total, t - 1, weight, given) + weight - total
  {}

  lemma StepAt(w: seq<int>, t: nat, i: nat)
    requires |w| > 0 && i < |w| && t > 0
    ensures var before, after := After(Zeros(|w|), w, t - 1), After(Zeros(|w|), w, t);
            var p, q := Picks(Zeros(|w|), w, t - 1), Picks(Zeros(|w|), w, t);
            if Pick(Raised(before, w)) == i
            then after[i] == before[i] + w[i] - Sum(w) && Count(q, i) == Count(p, i) + 1
            else after[i] == before[i] + w[i] && Count(q, i) == Count(p, i)
  {
    hide Sum, Pick;
    var q := Picks(Zeros(|w|), w, t);
    assert q[..t - 1] == Picks(Zeros(|w|), w, t - 1);
  }

  // ---------------------------------------------------------------- the theorems

  /** After any number of selections from the cleared state, an instance has had less than one
    selection more than its share and less than n - 1 fewer. */
  lemma Fair(w: seq<int>, t: nat, i: nat)
    requires Weighted(w) && i < |w|
    ensures var c := Count(Picks(Zeros(|w|), w, t), i);
            && Sum(w) * c < t * w[i] + Sum(w)
            && Sum(w) * c > t * w[i] - (|w| - 1) * Sum(w)
  {
    AfterBalanced(w, t);
    Account(w, t, i);
    var cur := After(Zeros(|w|), w, t);
    SumAbove(cur, i, -Sum(w));
    hide *;
    ShareBounds(Sum(w), |w|, t, w[i], Count(Picks(Zeros(|w|), w, t), i));
  }

  lemma ShareBounds(total: int, n: int, t: int, weight: int, given: int)
    requires n >= 2 && -total < Owed(total, t, weight, given)
    requires 0 >= Owed(total, t, weight, given) + (n - 1) * (-total + 1)
    ensures total * given < t * weight + total && total * given > t * weight - (n - 1) * total
  {
    assert (n - 1) * (-total + 1) == (n - 1) - (n - 1) * total;
  }

  lemma WeightlessNeverChosen(w: seq<int>, t: nat, i: nat)
    requires Weighted(w) && i < |w| && w[i] == 0
    ensures Count(Picks(Zeros(|w|), w, t), i) == 0
  {
    Fair(w, t, i);
    hide After, Picks, Count, Sum;
    var c := Count(Picks(Zeros(|w|), w, t), i);
    if c >= 1 { assert Sum(w) * c == Sum(w) + Sum(w) * (c - 1); }
  }

  lemma {:induction false} CountsSum(p: seq<nat>, n: nat)
    requires forall j :: 0 <= j < |p| ==> p[j] < n
    ensures Sum(Counts(p, n)) == |p|
  {
    if p == [] {
      SumZeros(n);
      assert Counts(p, n) == Zeros(n);
    } else {
      var last := p[|p| - 1];
      CountsSum(p[..|p| - 1], n);
      var before := Counts(p[..|p| - 1], n);
      SumUpdate(before, last, before[last] + 1);
      assert Counts(p, n) == before[last := before[last] + 1];
    }
  }

  function Counts(p: seq<nat>, n: nat): seq<int> {
    seq(n, i requires 0 <= i => Count(p, i))
  }

  lemma {:induction false} PicksInRange(w: seq<int>, t: nat)
    requires |w| > 0
    ensures forall j :: 0 <= j < t ==> Picks(Zeros(|w|), w, t)[j] < |w|
  {
    if t > 0 { PicksInRange(w, t - 1); }
  }

  /** One full period from the cleared state: every instance is chosen exactly as often as its
    weight says and the state is cleared again. */
  lemma Period(w: seq<int>)
    requires Weighted(w)
    ensures After(Zeros(|w|), w, Sum(w)) == Zeros(|w|)
    ensures forall i :: 0 <= i < |w| ==> Count(Picks(Zeros(|w|), w, Sum(w)), i) == w[i]
  {
    var total := Sum(w);
    var p := Picks(Zeros(|w|), w, total);
    hide After, Picks, Count, Sum, Owed, Next;
    PicksInRange(w, total);
    CountsSum(p, |w|);
    forall i | 0 <= i < |w| ensures Counts(p, |w|)[i] <= w[i] {
      Fair(w, total, i);
      AtMost(total, Count(p, i), w[i]);
    }
    forall i | 0 <= i < |w| ensures Count(p, i) == w[i] && After(Zeros(|w|), w, total)[i] == 0 {
      SumSame(Counts(p, |w|), w, i);
      Account(w, total, i);
      OwedNothing(total, w[i]);
    }
    assert After(Zeros(|w|), w, total) == Zeros(|w|);
  }

  lemma OwedNothing(total: int, weight: int)
    ensures Owed(total, total, weight, weight) == 0
  {}

  lemma MulOrder(total: int, a: int, b: int)
    requires total > 0 && a <= b
    ensures total * a <= total * b
  {}

  lemma AtMost(total: int, c: int, weight: int)
    requires total > 0 && total * c < total * weight + total
    ensures c <= weight
  {
    if c >= weight + 1 {
      MulOrder(total, weight + 1, c);
    }
  }

  lemma {:induction false} AfterPlus(cur: seq<int>, w: seq<int>, s: nat, t: nat)
    requires |cur| == |w| > 0
    ensures After(cur, w, s + t) == After(After(cur, w, s), w, t)
  {
    hide Next, Sum;
    if t > 0 {
      AfterPlus(cur, w, s, t - 1);
      assert s + t - 1 == s + (t - 1);
    }
  }

  lemma Repeats(w: seq<int>, t: nat)
    requires Weighted(w)
    ensures After(Zeros(|w|), w, t + Sum(w)) == After(Zeros(|w|), w, t)
  {
    var total := Sum(w);
    hide After, Sum;
    Period(w);
    AfterPlus(Zeros(|w|), w, total, t);
    assert t + total == total + t;
  }

  /** Any window of one period's length, wherever it starts, is exact. */
  lemma AnyWindow(w: seq<int>, t: nat, i: nat)
    requires Weighted(w) && i < |w|
    ensures Count(Picks(Zeros(|w|), w, t + Sum(w)), i) == Count(Picks(Zeros(|w|), w, t), i) + w[i]
  {
    var total := Sum(w);
    hide After, Picks, Count, Sum, Owed;
    Repeats(w, t);
    Account(w, t, i);
    Account(w, t + total, i);
    WindowCount(total, t, w[i], Count(Picks(Zeros(|w|), w, t + total), i), Count(Picks(Zeros(|w|), w, t), i));
  }

  lemma WindowCount(total: int, t: int, weight: int, late: int, early: int)
    requires total > 0 && Owed(total, t + total, weight, late) == Owed(total, t, weight, early)
    ensures late == early + weight
  {
    assert (t + total) * weight == t * weight + total * weight;
    assert total * (late - early - weight) == 0;
  }

  // ---------------------------------------------------------------- the balancer

  datatype Id = Id(name: string)

  /** An instance without a configured weight weighs 1. */
  function WeightOf(weights: map<Id, int>, id: Id): int {
    if id in weights then weights[id] else 1
  }

  function WeightVector(weights: map<Id, int>, ids: seq<Id>): (w: seq<int>)
    ensures |w| == |ids|
    ensures forall i :: 0 <= i < |ids| ==> w[i] == if ids[i] in weights then weights[ids[i]] else 1
  {
    seq(|ids|, i requires 0 <= i < |ids| => WeightOf(weights, ids[i]))
  }

  /** The current weight of an instance; one not seen before starts from 0. */
  function At(current: map<Id, int>, id: Id): int {
    if id in current then current[id] else 0
  }

  function CurrentVector(current: map<Id, int>, ids: seq<Id>): (c: seq<int>)
    ensures |c| == |ids|
  {
    seq(|ids|, i requires 0 <= i < |ids| => At(current, ids[i]))
  }

  /** By how much going through a list raises an instance: its weight, as often as it is listed. */
  ghost function Gain(weights: map<Id, int>, ids: seq<Id>, id: Id): int {
    if ids == [] then 0
    else
      var last := ids[|ids| - 1];
      Gain(weights, ids[..|ids| - 1], id) + if last == id then WeightOf(weights, id) else 0
  }

  /** A round raises an instance by its weight, set or 1, as often as it is listed. */
  lemma {:induction false} GainIs(weights: map<Id, int>, ids: seq<Id>, id: Id)
    ensures Gain(weights, ids, id) == multiset(ids)[id] * if id in weights then weights[id] else 1
  {
    if ids != [] {
      var front, last := ids[..|ids| - 1], ids[|ids| - 1];
      GainIs(weights, front, id);
      assert ids == front + [last];
      Times(multiset(front)[id], if id in weights then weights[id] else 1);
    }
  }

  lemma Times(n: int, w: int)
    ensures (n + 1) * w == n * w + w
  {}

  /** The current weights as the selection sees them, each when its position is reached. */
  ghost function Seen(weights: map<Id, int>, current: map<Id, int>, ids: seq<Id>): (s: seq<int>)
    ensures |s| == |ids|
  {
    seq(|ids|, i requires 0 <= i < |ids| => At(current, ids[i]) + Gain(weights, ids[..i + 1], ids[i]))
  }

  /** What a selection has done to the current weights: position `k` pays the total weight. */
  ghost predicate Paid(weights: map<Id, int>, before: map<Id, int>, after: map<Id, int>, ids: seq<Id>, k: nat)
    requires k < |ids|
  {
    forall id :: id in ids ==>
      At(after, id) == At(before, id) + Gain(weights, ids, id)
                       - if id == ids[k] then Sum(WeightVector(weights, ids)) else 0
  }

  lemma GainSnoc(weights: map<Id, int>, ids: seq<Id>, i: nat, id: Id)
    requires i < |ids|
    ensures Gain(weights, ids[..i + 1], id) ==
            Gain(weights, ids[..i], id) + if ids[i] == id then WeightOf(weights, id) else 0
  {
    assert ids[..i + 1][..i] == ids[..i];
  }

  lemma {:induction false} NoGain(weights: map<Id, int>, ids: seq<Id>, id: Id)
    requires id !in ids
    ensures Gain(weights, ids, id) == 0
  {
    if ids != [] { NoGain(weights, ids[..|ids| - 1], id); }
  }

  /** An instance listed once is raised once. */
  lemma {:induction false} DistinctGain(weights: map<Id, int>, ids: seq<Id>, i: nat, n: nat)
    requires AllDistinct(ids) && i < n <= |ids|
    ensures Gain(weights, ids[..n], ids[i]) == WeightOf(weights, ids[i])
    decreases n
  {
    GainSnoc(weights, ids, n - 1, ids[i]);
    if i < n - 1 {
      DistinctGain(weights, ids, i, n - 1);
    } else {
      NoGain(weights, ids[..i], ids[i]);
    }
  }

  /** Without duplicates a selection is the one on vectors. */
  lemma DistinctSelection(weights: map<Id, int>, before: map<Id, int>, after: map<Id, int>, ids: seq<Id>)
    requires AllDistinct(ids) && ids != []
    ensures var cur, w := CurrentVector(before, ids), WeightVector(weights, ids);
            && Seen(weights, before, ids) == Raised(cur, w)
            && (Paid(weights, before, after, ids, Pick(Raised(cur, w))) ==> CurrentVector(after, ids) == Next(cur, w))
  {
    DistinctSeen(weights, before, ids);
    var k := Pick(Raised(CurrentVector(before, ids), WeightVector(weights, ids)));
    if Paid(weights, before, after, ids, k) { DistinctPaid(weights, before, after, ids, k); }
  }

  lemma DistinctSeen(weights: map<Id, int>, before: map<Id, int>, ids: seq<Id>)
    requires AllDistinct(ids)
    ensures Seen(weights, before, ids) == Raised(CurrentVector(before, ids), WeightVector(weights, ids))
  {
    hide At, WeightOf, Gain;
    forall i | 0 <= i < |ids|
      ensures Seen(weights, before, ids)[i] == Raised(CurrentVector(before, ids), WeightVector(weights, ids))[i]
    {
      DistinctGain(weights, ids, i, i + 1);
    }
  }

  lemma DistinctPaid(weights: map<Id, int>, before: map<Id, int>, after: map<Id, int>, ids: seq<Id>, k: nat)
    requires AllDistinct(ids) && k < |ids| && Paid(weights, before, after, ids, k)
    ensures var raised := Raised(CurrentVector(before, ids), WeightVector(weights, ids));
            CurrentVector(after, ids) == raised[k := raised[k] - Sum(WeightVector(weights, ids))]
  {
    hide At, WeightOf, Gain, Sum;
    assert ids[..|ids|] == ids;
    forall i | 0 <= i < |ids|
      ensures CurrentVector(after, ids)[i] ==
              Raised(CurrentVector(before, ids), WeightVector(weights, ids))[i]
              - if i == k then Sum(WeightVector(weights, ids)) else 0
    {
      DistinctGain(weights, ids, i, |ids|);
    }
  }

  /** The ids at the given positions (positions outside the list are skipped). */
  ghost function Named(ids: seq<Id>, p: seq<nat>): seq<Id> {
    if p == [] then []
    else Named(ids, p[..|p| - 1]) + if p[|p| - 1] < |ids| then [ids[p[|p| - 1]]] else []
  }

  lemma NamedNone(ids: seq<Id>, w: seq<int>)
    requires |ids| == |w| > 0
    ensures Named(ids, Picks(Zeros(|w|), w, 0)) == [] && After(Zeros(|w|), w, 0) == Zeros(|w|)
  {}

  lemma NamedStep(ids: seq<Id>, w: seq<int>, t: nat)
    requires |ids| == |w| > 0
    ensures Named(ids, Picks(Zeros(|w|), w, t + 1)) ==
            Named(ids, Picks(Zeros(|w|), w, t)) + [ids[Pick(Raised(After(Zeros(|w|), w, t), w))]]
    ensures After(Zeros(|w|), w, t + 1) == Next(After(Zeros(|w|), w, t), w)
  {
    var p := Picks(Zeros(|w|), w, t + 1);
    assert p[..t] == Picks(Zeros(|w|), w, t);
  }

  ghost predicate AllWithin(p: seq<nat>, n: nat) {
    forall j :: 0 <= j < |p| ==> p[j] < n
  }

  /** A position is named as often as it is picked. */
  lemma {:induction false} NamedCount(ids: seq<Id>, p: seq<nat>, i: nat)
    requires AllDistinct(ids) && i < |ids| && AllWithin(p, |ids|)
    ensures |Named(ids, p)| == |p| && multiset(Named(ids, p))[ids[i]] == Count(p, i)
  {
    if p != [] {
      var n := |p| - 1;
      NamedCount(ids, p[..n], i);
      assert Named(ids, p) == Named(ids, p[..n]) + [ids[p[n]]];
    }
  }

  lemma {:induction false} PicksWithin(w: seq<int>, t: nat)
    requires w != []
    ensures AllWithin(Picks(Zeros(|w|), w, t), |w|)
  {
    hide After, Raised, Pick;
    if t > 0 { PicksWithin(w, t - 1); }
  }

  /** What has been named earlier stays in front. */
  lemma {:induction false} NamedFront(ids: seq<Id>, w: seq<int>, s: nat, t: nat)
    requires |ids| == |w| > 0 && AllDistinct(ids) && s <= t
    ensures |Named(ids, Picks(Zeros(|w|), w, t))| == t
    ensures Named(ids, Picks(Zeros(|w|), w, s)) == Named(ids, Picks(Zeros(|w|), w, t))[..s]
    decreases t
  {
    hide Named, Picks, After, Pick, Raised;
    PicksWithin(w, t);
    NamedCount(ids, Picks(Zeros(|w|), w, t), 0);
    if s < t {
      NamedFront(ids, w, s, t - 1);
      NamedStep(ids, w, t - 1);
    }
  }

  /** In the sequence of selections, any window of one period's length is exact. */
  lemma Windows(ids: seq<Id>, weights: map<Id, int>, times: nat)
    requires |ids| >= 2 && AllDistinct(ids) && Sum(WeightVector(weights, ids)) > 0
    ensures var w := WeightVector(weights, ids);
            var outs := Named(ids, Picks(Zeros(|ids|), w, times));
            && |outs| == times
            && ((forall id :: id in ids && id in weights ==> weights[id] >= 0) ==>
                  forall from: nat, to: nat, id :: from <= to <= times && to - from == Sum(w) && id in ids ==>
                    multiset(outs[from..to])[id] == if id in weights then weights[id] else 1)
  {
    hide Named, Picks, Sum;
    var w := WeightVector(weights, ids);
    var outs := Named(ids, Picks(Zeros(|ids|), w, times));
    NamedFront(ids, w, 0, times);
    if forall id :: id in ids && id in weights ==> weights[id] >= 0 {
      assert Weighted(w);
      forall from: nat, to: nat, id | from <= to <= times && to - from == Sum(w) && id in ids
        ensures multiset(outs[from..to])[id] == if id in weights then weights[id] else 1
      {
        var i :| 0 <= i < |ids| && ids[i] == id;
        hide *;
        OneWindow(ids, w, times, from, to, i);
      }
    }
  }

  lemma OneWindow(ids: seq<Id>, w: seq<int>, times: nat, from: nat, to: nat, i: nat)
    requires |ids| == |w| && AllDistinct(ids) && Weighted(w) && from <= to <= times && to - from == Sum(w) && i < |ids|
    ensures var outs := Named(ids, Picks(Zeros(|w|), w, times));
            |outs| == times && multiset(outs[from..to])[ids[i]] == w[i]
  {
    hide Named, Picks, Count, Sum, AllWithin;
    var outs := Named(ids, Picks(Zeros(|w|), w, times));
    NamedFront(ids, w, from, times);
    NamedFront(ids, w, to, times);
    PicksWithin(w, from);
    PicksWithin(w, to);
    NamedCount(ids, Picks(Zeros(|w|), w, from), i);
    NamedCount(ids, Picks(Zeros(|w|), w, to), i);
    AnyWindow(w, from, i);
    assert outs[..to] == outs[..from] + outs[from..to];
  }

  ghost predicate AllDistinct(ids: seq<Id>) {
    forall i, j :: 0 <= i < j < |ids| ==> ids[i] != ids[j]
  }

  class WeightedRoundRobinLoadBalancer {
    var instances: seq<Id>
    var weights: map<Id, int>
    var currentWeights: map<Id, int>

    function Weight(id: Id): int
      reads this`weights
    {
      WeightOf(weights, id)
    }

    ghost function Weights(): (w: seq<int>)
      reads this`instances, this`weights
      ensures |w| == |instances|
      ensures forall i :: 0 <= i < |w| ==> w[i] == if instances[i] in weights then weights[instances[i]] else 1
    {
      WeightVector(weights, instances)
    }

    ghost function Current(): (c: seq<int>)
      reads this`instances, this`currentWeights
      ensures |c| == |instances|
    {
      CurrentVector(currentWeights, instances)
    }

    constructor ()
      ensures instances == [] && weights == map[] && currentWeights == map[]
    {
      instances, weights, currentWeights := [], map[], map[];
    }

    method SetWeight(id: Id, weight: int)
      modifies this`weights
      ensures weights == old(weights)[id := weight]
    {
      weights := weights[id := weight];
    }

    /** update_instances clears all current weights. */
    method UpdateInstances(list: seq<Id>)
      modifies this`instances, this`currentWeights
      ensures instances == list && Current() == Zeros(|list|)
    {
      instances, currentWeights := list, map[];
    }

    /** select_instance; `discovered` is what service discovery would answer, in id order. An instance
      listed more than once is raised as often, but there is one current weight for it. */
    method SelectInstance(discovered: seq<Id>) returns (out: Option<Id>)
      modifies this`instances, this`currentWeights
      ensures instances == if old(instances) == [] then discovered else old(instances)
      ensures |instances| == 0 ==> out == None
      ensures |instances| == 1 ==> out == Some(instances[0]) && currentWeights == old(currentWeights)
      ensures |instances| >= 2 && Sum(Weights()) <= 0 ==>
                out == None && Current() == CurrentVector(old(currentWeights), instances)
      ensures |instances| >= 2 && Sum(Weights()) > 0 ==>
                var k := Pick(Seen(weights, old(currentWeights), instances));
                && out == Some(instances[k])
                && forall id :: id in instances ==>
                     At(currentWeights, id) == At(old(currentWeights), id)
                       + multiset(instances)[id] * (if id in weights then weights[id] else 1)
                       - (if id == instances[k] then Sum(Weights()) else 0)
      ensures |instances| >= 2 && Sum(Weights()) > 0 && AllDistinct(instances) ==>
                && out == Some(instances[Pick(Raised(CurrentVector(old(currentWeights), instances), Weights()))])
                && Current() == Next(CurrentVector(old(currentWeights), instances), Weights())
    {
      if |instances| == 0 {
        instances := discovered;
        if |instances| == 0 {
          return None;
        }
      }
      if |instances| == 1 {
        return Some(instances[0]);
      }
      var totalWeight := TotalWeight();
      if totalWeight <= 0 {
        return None;
      }
      hide Pick, Seen, Paid, Raised, Next, CurrentVector, WeightVector;
      out := Choose(totalWeight, old(currentWeights));
      PaidOnce(old(currentWeights), Pick(Seen(weights, old(currentWeights), instances)));
      if AllDistinct(instances) {
        DistinctSelection(weights, old(currentWeights), currentWeights, instances);
      }
    }

    lemma PaidOnce(before: map<Id, int>, k: nat)
      requires k < |instances| && Paid(weights, before, currentWeights, instances, k)
      ensures forall id :: id in instances ==>
                At(currentWeights, id) == At(before, id)
                  + multiset(instances)[id] * (if id in weights then weights[id] else 1)
                  - (if id == instances[k] then Sum(Weights()) else 0)
    {
      hide Sum, At, Gain;
      forall id ensures Gain(weights, instances, id) == multiset(instances)[id] * if id in weights then weights[id] else 1 {
        GainIs(weights, instances, id);
      }
    }

    /** Sums the weights and enters instances not seen before with current weight 0. */
    method TotalWeight() returns (totalWeight: int)
      modifies this`currentWeights
      ensures totalWeight == Sum(Weights()) && forall id :: At(currentWeights, id) == At(old(currentWeights), id)
      ensures forall j :: 0 <= j < |instances| ==> instances[j] in currentWeights
    {
      ghost var w := Weights();
      totalWeight := 0;
      for i := 0 to |instances|
        invariant totalWeight == Sum(w[..i])
        invariant forall id :: At(currentWeights, id) == At(old(currentWeights), id)
        invariant forall j :: 0 <= j < i ==> instances[j] in currentWeights
      {
        totalWeight := totalWeight + Weight(instances[i]);
        SumSnoc(w[..i], w[i]);
        assert w[..i + 1] == w[..i] + [w[i]];
        if instances[i] !in currentWeights {
          currentWeights := currentWeights[instances[i] := 0];
        }
      }
      assert w[..|instances|] == w;
    }

    /** The selection proper: raise every current weight, take the first largest, pay it down. */
    method Choose(totalWeight: int, ghost before: map<Id, int>) returns (out: Option<Id>)
      requires |instances| >= 2 && totalWeight == Sum(Weights())
      requires forall id :: At(currentWeights, id) == At(before, id)
      requires forall j :: 0 <= j < |instances| ==> instances[j] in currentWeights
      modifies this`currentWeights
      ensures var k := Pick(Seen(weights, before, instances));
              out == Some(instances[k]) && Paid(weights, before, currentWeights, instances, k)
    {
      hide Sum, Pick, Seen, Gain, WeightVector;
      var bestIndex := RaiseAll(before);
      var best := instances[bestIndex];
      currentWeights := currentWeights[best := currentWeights[best] - totalWeight];
      out := Some(best);
    }

    /** Adds every weight to its current weight and finds the first largest. */
    method RaiseAll(ghost before: map<Id, int>) returns (bestIndex: nat)
      requires |instances| >= 2 && forall id :: At(currentWeights, id) == At(before, id)
      requires forall j :: 0 <= j < |instances| ==> instances[j] in currentWeights
      modifies this`currentWeights
      ensures bestIndex == Pick(Seen(weights, before, instances))
      ensures forall id :: At(currentWeights, id) == At(before, id) + Gain(weights, instances, id)
      ensures forall j :: 0 <= j < |instances| ==> instances[j] in currentWeights
    {
      ghost var seen := Seen(weights, before, instances);
      assert BestSoFar(seen, 0, 0, 0) && instances[..|instances|] == instances;
      hide Pick, BestSoFar, WeightOf, Gain, Seen, FirstMax;
      bestIndex := 0;
      var maxCurrentWeight := 0;
      NothingGained();
      for i := 0 to |instances|
        invariant forall j :: 0 <= j < |instances| ==> instances[j] in currentWeights
        invariant forall id :: At(currentWeights, id) == At(before, id) + Gain(weights, instances[..i], id)
        invariant BestSoFar(seen, i, bestIndex, maxCurrentWeight)
      {
        var id := instances[i];
        GainsOneMore(i);
        SeenAt(before, i);
        currentWeights := currentWeights[id := currentWeights[id] + Weight(id)];
        assert currentWeights[id] == At(currentWeights, id) == seen[i];
        BestExtends(seen, i, bestIndex, maxCurrentWeight);
        if i == 0 || currentWeights[id] > maxCurrentWeight {
          maxCurrentWeight, bestIndex := currentWeights[id], i;
        }
      }
      BestOfAll(seen, bestIndex, maxCurrentWeight);
    }

    lemma SeenAt(before: map<Id, int>, i: nat)
      requires i < |instances|
      ensures Seen(weights, before, instances)[i] ==
              At(before, instances[i]) + Gain(weights, instances[..i + 1], instances[i])
    {}

    lemma GainsOneMore(i: nat)
      requires i < |instances|
      ensures forall id :: Gain(weights, instances[..i + 1], id) ==
                Gain(weights, instances[..i], id) + if instances[i] == id then Weight(id) else 0
    {
      forall id ensures Gain(weights, instances[..i + 1], id) ==
        Gain(weights, instances[..i], id) + if instances[i] == id then Weight(id) else 0
      {
        GainSnoc(weights, instances, i, id);
      }
    }

    lemma NothingGained()
      ensures forall id :: Gain(weights, instances[..0], id) == 0
    {}

    /** `times` selections in a row from the cleared state, with the weights left alone. Of any T in a
      row, T the sum of the weights, each instance gets exactly its weight. */
    method SelectMany(times: nat) returns (outs: seq<Id>)
      requires |instances| >= 2 && AllDistinct(instances) && Sum(Weights()) > 0 && Current() == Zeros(|instances|)
      modifies this`instances, this`currentWeights
      ensures instances == old(instances)
      ensures Current() == After(Zeros(|instances|), Weights(), times)
      ensures outs == Named(instances, Picks(Zeros(|instances|), Weights(), times)) && |outs| == times
      ensures (forall id :: id in instances && id in weights ==> weights[id] >= 0) ==>
                var total := Sum(seq(|instances|, i requires 0 <= i < |instances| reads this`instances, this`weights =>
                                   if instances[i] in weights then weights[instances[i]] else 1));
                forall from: nat, to: nat, id :: from <= to <= times && to - from == total && id in instances ==>
                  multiset(outs[from..to])[id] == if id in weights then weights[id] else 1
    {
      hide Sum, Next, Pick, Raised, After, Picks, Named, WeightVector, CurrentVector;
      outs := [];
      NamedNone(instances, Weights());
      for t := 0 to times
        invariant instances == old(instances)
        invariant Current() == After(Zeros(|instances|), Weights(), t)
        invariant outs == Named(instances, Picks(Zeros(|instances|), Weights(), t))
      {
        var out := SelectInstance([]);
        NamedStep(instances, Weights(), t);
        outs := outs + [out.value];
      }
      Windows(instances, weights, times);
      assert seq(|instances|, i requires 0 <= i < |instances| reads this`instances, this`weights =>
                   if instances[i] in weights then weights[instances[i]] else 1) == Weights();
    }
  }

  lemma FirstMaxUnique(s: seq<int>, j: nat)
    requires s != [] && FirstMax(s, j)
    ensures j == Pick(s)
  {
    assert s[j] == s[Pick(s)];
  }

  /** `k` is the first largest among the first `i` entries, and `max` is its value. */
  ghost predicate BestSoFar(s: seq<int>, i: nat, k: nat, max: int)
  {
    && i <= |s|
    && (i > 0 ==>
          && k < i && max == s[k]
          && (forall j :: 0 <= j < i ==> s[j] <= max)
          && (forall j :: 0 <= j < k ==> s[j] < max))
  }

  lemma BestExtends(s: seq<int>, i: nat, k: nat, max: int)
    requires i < |s| && BestSoFar(s, i, k, max)
    ensures i == 0 || s[i] > max ==> BestSoFar(s, i + 1, i, s[i])
    ensures i > 0 && s[i] <= max ==> BestSoFar(s, i + 1, k, max)
  {}

  lemma BestOfAll(s: seq<int>, k: nat, max: int)
    requires s != [] && BestSoFar(s, |s|, k, max)
    ensures k == Pick(s)
  {
    FirstMaxUnique(s, k);
  }

  lemma {:induction false} SumSnoc(s: seq<int>, x: int)
    ensures Sum(s + [x]) == Sum(s) + x
  {
    if s != [] {
      SumSnoc(s[1..], x);
      assert (s + [x])[1..] == s[1..] + [x];
    }
  }
}
