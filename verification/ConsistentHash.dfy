/** The consistent hash ring of src/loadbalance/consistent_hash.cpp, over an arbitrary hash. */
module ConsistentHashing {

  import opened Wrappers

  const RING: int := 0x1_0000_0000

  type Hash = h: int | 0 <= h < 0x1_0000_0000 witness 0

  datatype VirtualNode = VirtualNode(instance: string, nodeId: string, hashValue: Hash)

  // ---------------------------------------------------------------- owners of a point

  /** How far clockwise of `h` a node lies. */
  function Clockwise(h: Hash, x: Hash): int {
    if h <= x then x - h else x - h + RING
  }

  /** Some node of instance `i` is at least as near clockwise of `h` as any other node. */
  ghost predicate Owns(nodes: set<VirtualNode>, h: Hash, i: string) {
    exists n :: n in nodes && n.instance == i && Nearest(nodes, h, n)
  }

  ghost predicate Nearest(nodes: set<VirtualNode>, h: Hash, n: VirtualNode) {
    forall m :: m in nodes ==> Clockwise(h, n.hashValue) <= Clockwise(h, m.hashValue)
  }

  /** No two nodes of different instances share a hash. */
  ghost predicate NoClash(nodes: set<VirtualNode>) {
    forall m, n :: m in nodes && n in nodes && m.hashValue == n.hashValue ==> m.instance == n.instance
  }

  /** Every point has one owner at most exactly if no two instances clash. */
  lemma OneOwnerIff(nodes: set<VirtualNode>)
    ensures (forall h: Hash, i, j :: Owns(nodes, h, i) && Owns(nodes, h, j) ==> i == j) <==> NoClash(nodes)
  {
    if NoClash(nodes) {
      forall h: Hash, i, j | Owns(nodes, h, i) && Owns(nodes, h, j) ensures i == j {
        OneOwner(nodes, h, i, j);
      }
    } else {
      var m, n :| m in nodes && n in nodes && m.hashValue == n.hashValue && m.instance != n.instance;
      var h := m.hashValue;
      assert Nearest(nodes, h, m) && Nearest(nodes, h, n);
      assert Owns(nodes, h, m.instance) && Owns(nodes, h, n.instance);
    }
  }

  lemma OneOwner(nodes: set<VirtualNode>, h: Hash, i: string, j: string)
    requires NoClash(nodes) && Owns(nodes, h, i) && Owns(nodes, h, j)
    ensures i == j
  {
    var m :| m in nodes && m.instance == i && Nearest(nodes, h, m);
    var n :| n in nodes && n.instance == j && Nearest(nodes, h, n);
    assert Clockwise(h, m.hashValue) == Clockwise(h, n.hashValue);
  }

  /** Adding nodes of one instance moves a point only onto that instance. */
  lemma AddMovesOntoNew(nodes: set<VirtualNode>, added: set<VirtualNode>, instance: string, h: Hash, i: string)
    requires forall n :: n in added ==> n.instance == instance
    requires Owns(nodes + added, h, i)
    ensures i == instance || Owns(nodes, h, i)
  {
    var n :| n in nodes + added && n.instance == i && Nearest(nodes + added, h, n);
    if i != instance {
      assert n in nodes && Nearest(nodes, h, n);
    }
  }

  ghost function Without(nodes: set<VirtualNode>, instance: string): set<VirtualNode> {
    set n | n in nodes && n.instance != instance
  }

  /** Removing an instance moves only the points it owned. */
  lemma RemoveMovesOwnOnly(nodes: set<VirtualNode>, instance: string, h: Hash, i: string)
    requires Owns(nodes, h, i) && i != instance
    ensures Owns(Without(nodes, instance), h, i)
  {
    var n :| n in nodes && n.instance == i && Nearest(nodes, h, n);
    assert n in Without(nodes, instance) && Nearest(Without(nodes, instance), h, n);
  }

  // ---------------------------------------------------------------- the sorted ring

  predicate Sorted(ring: seq<VirtualNode>) {
    forall i, j :: 0 <= i < j < |ring| ==> ring[i].hashValue <= ring[j].hashValue
  }

  ghost function Members(ring: seq<VirtualNode>): set<VirtualNode> {
    set n | n in ring
  }

  /** The position the search ends at: the first node at or after `h`, or the first of the ring. */
  ghost predicate Successor(ring: seq<VirtualNode>, h: Hash, k: nat) {
    && k < |ring|
    && (forall j :: 0 <= j < k ==> ring[j].hashValue < h)
    && (h <= ring[k].hashValue || (k == 0 && forall j :: 0 <= j < |ring| ==> ring[j].hashValue < h))
  }

  /** The first position from `from` on whose hash is at or after `h`, or the end. */
  function FirstFrom(ring: seq<VirtualNode>, h: Hash, from: nat): (k: nat)
    requires from <= |ring|
    ensures from <= k <= |ring|
    ensures forall j :: from <= j < k ==> ring[j].hashValue < h
    ensures k < |ring| ==> h <= ring[k].hashValue
    decreases |ring| - from
  {
    if from == |ring| || h <= ring[from].hashValue then from else FirstFrom(ring, h, from + 1)
  }

  /** Which instance a ring selects for a hash. */
  function Selected(ring: seq<VirtualNode>, h: Hash): Option<string> {
    if ring == [] then None
    else
      var k := FirstFrom(ring, h, 0);
      Some(ring[if k == |ring| then 0 else k].instance)
  }

  /** What is selected owns the hash; without a clash it is the only owner. */
  lemma SelectedOwns(ring: seq<VirtualNode>, h: Hash)
    requires Sorted(ring) && ring != []
    ensures Selected(ring, h).Some? && Owns(Members(ring), h, Selected(ring, h).value)
  {
    var k := FirstFrom(ring, h, 0);
    SuccessorIsNearest(ring, h, if k == |ring| then 0 else k);
  }

  lemma OwnerIsSelected(ring: seq<VirtualNode>, h: Hash, i: string)
    requires Sorted(ring) && NoClash(Members(ring)) && Owns(Members(ring), h, i)
    ensures Selected(ring, h) == Some(i)
  {
    assert ring != [];
    SelectedOwns(ring, h);
    hide Selected, Owns, NoClash, Sorted;
    OneOwner(Members(ring), h, i, Selected(ring, h).value);
  }

  lemma NothingSelected()
    ensures forall h: Hash :: Selected([], h) == None
  {}

  lemma NoMembers(ring: seq<VirtualNode>)
    ensures Members(ring) == {} <==> ring == []
  {
    if ring != [] { assert ring[0] in Members(ring); }
  }

  /** A selection changes, if at all, to the given instance. */
  ghost predicate MovesOnlyOnto(before: seq<VirtualNode>, after: seq<VirtualNode>, instance: string) {
    forall h: Hash :: Selected(after, h) == Selected(before, h) || Selected(after, h) == Some(instance)
  }

  ghost predicate SelectAlike(a: seq<VirtualNode>, b: seq<VirtualNode>) {
    forall h: Hash :: Selected(a, h) == Selected(b, h)
  }

  ghost predicate OfInstance(nodes: set<VirtualNode>, instance: string) {
    forall n :: n in nodes ==> n.instance == instance
  }

  /** Adding nodes of one instance changes a selection only to that instance, unless two of the
    nodes that were there before clash. */
  lemma AddSelects(before: seq<VirtualNode>, after: seq<VirtualNode>, added: set<VirtualNode>, instance: string)
    requires Sorted(before) && Sorted(after) && Members(after) == Members(before) + added
    requires NoClash(Members(before)) && OfInstance(added, instance)
    ensures MovesOnlyOnto(before, after, instance)
  {
    NoMembers(before);
    NoMembers(after);
    forall h: Hash ensures Selected(after, h) == Selected(before, h) || Selected(after, h) == Some(instance) {
      if after == [] {
        NothingSelected();
      } else {
        SelectedOwns(after, h);
        var i := Selected(after, h).value;
        AddMovesOntoNew(Members(before), added, instance, h, i);
        if i != instance { OwnerIsSelected(before, h, i); }
      }
    }
  }

  /** Sorted rings with the same nodes select alike, unless two nodes clash. */
  lemma SameSelections(a: seq<VirtualNode>, b: seq<VirtualNode>)
    requires Sorted(a) && Sorted(b) && Members(a) == Members(b) && NoClash(Members(a))
    ensures SelectAlike(a, b)
  {
    NoMembers(a);
    NoMembers(b);
    forall h: Hash ensures Selected(a, h) == Selected(b, h) {
      if a != [] {
        SelectedOwns(a, h);
        OwnerIsSelected(b, h, Selected(a, h).value);
      }
    }
  }

  lemma SuccessorIsNearest(ring: seq<VirtualNode>, h: Hash, k: nat)
    requires Sorted(ring) && Successor(ring, h, k)
    ensures Owns(Members(ring), h, ring[k].instance)
  {
    forall m | m in Members(ring) ensures Clockwise(h, ring[k].hashValue) <= Clockwise(h, m.hashValue) {
      var j :| 0 <= j < |ring| && ring[j] == m;
      if j > k { assert ring[k].hashValue <= ring[j].hashValue; }
    }
    assert Nearest(Members(ring), h, ring[k]);
  }

  /** std::sort: some sorted arrangement of the nodes. */
  method Sort(nodes: seq<VirtualNode>) returns (ring: seq<VirtualNode>)
    ensures Sorted(ring) && multiset(ring) == multiset(nodes)
  {
    SortedExists(nodes);
    ring :| multiset(ring) == multiset(nodes) && Sorted(ring);
  }

  lemma {:induction false} SortedExists(nodes: seq<VirtualNode>)
    ensures exists ring: seq<VirtualNode> :: multiset(ring) == multiset(nodes) && Sorted(ring)
  {
    if nodes == [] {
      assert multiset(nodes) == multiset(nodes) && Sorted(nodes);
    } else {
      SortedExists(nodes[1..]);
      var rest: seq<VirtualNode> :| multiset(rest) == multiset(nodes[1..]) && Sorted(rest);
      InsertSorted(rest, nodes[0]);
      InsertMembers(rest, nodes[0]);
      var ring := Insert(rest, nodes[0]);
      assert nodes == [nodes[0]] + nodes[1..];
      assert multiset(ring) == multiset(nodes) && Sorted(ring);
    }
  }

  ghost function Insert(ring: seq<VirtualNode>, n: VirtualNode): seq<VirtualNode>
  {
    if ring == [] then [n]
    else if n.hashValue <= ring[0].hashValue then [n] + ring
    else [ring[0]] + Insert(ring[1..], n)
  }

  lemma {:induction false} InsertMembers(ring: seq<VirtualNode>, n: VirtualNode)
    ensures multiset(Insert(ring, n)) == multiset(ring) + multiset{n}
    ensures forall m :: m in Insert(ring, n) ==> m == n || m in ring
  {
    if ring != [] && n.hashValue > ring[0].hashValue {
      InsertMembers(ring[1..], n);
      assert ring == [ring[0]] + ring[1..];
    }
  }

  lemma {:induction false} InsertSorted(ring: seq<VirtualNode>, n: VirtualNode)
    requires Sorted(ring)
    ensures Sorted(Insert(ring, n))
  {
    if ring != [] && n.hashValue > ring[0].hashValue {
      InsertSorted(ring[1..], n);
      InsertMembers(ring[1..], n);
      HeadSorted(ring[0], ring[1..], Insert(ring[1..], n), n);
    } else if ring != [] {
      HeadSorted(n, ring, ring, ring[0]);
    }
  }

  lemma HeadSorted(head: VirtualNode, rest: seq<VirtualNode>, r: seq<VirtualNode>, n: VirtualNode)
    requires Sorted(r) && head.hashValue <= n.hashValue
    requires forall j :: 0 <= j < |rest| ==> head.hashValue <= rest[j].hashValue
    requires forall m :: m in r ==> m == n || m in rest
    ensures Sorted([head] + r)
  {
    forall j | 0 <= j < |r| ensures head.hashValue <= r[j].hashValue {
      assert r[j] in r;
    }
  }

  // ---------------------------------------------------------------- clashes

  lemma {:induction false} SortedRing(nodes: set<VirtualNode>) returns (ring: seq<VirtualNode>)
    ensures Sorted(ring) && Members(ring) == nodes
    decreases nodes
  {
    if nodes == {} {
      ring := [];
    } else {
      var n :| n in nodes;
      var rest := SortedRing(nodes - {n});
      ring := Insert(rest, n);
      InsertSorted(rest, n);
      MembersOfInsert(rest, n);
    }
  }

  lemma MembersOfInsert(ring: seq<VirtualNode>, n: VirtualNode)
    ensures Members(Insert(ring, n)) == Members(ring) + {n}
  {
    InsertMembers(ring, n);
    forall m ensures m in Insert(ring, n) <==> m in ring || m == n {
      assert m in Insert(ring, n) <==> m in multiset(Insert(ring, n));
      assert m in ring <==> m in multiset(ring);
    }
  }

  /** An inserted node comes first among those of its hash, and is selected there. */
  lemma {:induction false} InsertSelected(ring: seq<VirtualNode>, n: VirtualNode)
    requires Sorted(ring)
    ensures var r := Insert(ring, n);
            var k := FirstFrom(r, n.hashValue, 0);
            k < |r| && r[k] == n
  {
    if ring != [] && n.hashValue > ring[0].hashValue {
      InsertSelected(ring[1..], n);
      var r, tail := Insert(ring, n), Insert(ring[1..], n);
      var k := FirstFrom(tail, n.hashValue, 0);
      assert r[k + 1] == tail[k];
      assert forall j :: 1 <= j < k + 1 ==> r[j] == tail[j - 1];
    }
  }

  /** Any node can be the one a sorted ring selects for its hash. */
  lemma RingSelecting(nodes: set<VirtualNode>, n: VirtualNode) returns (ring: seq<VirtualNode>)
    requires n in nodes
    ensures Sorted(ring) && Members(ring) == nodes && Selected(ring, n.hashValue) == Some(n.instance)
  {
    var rest := SortedRing(nodes - {n});
    ring := Insert(rest, n);
    InsertSorted(rest, n);
    MembersOfInsert(rest, n);
    InsertSelected(rest, n);
  }

  ghost predicate AllAlike(nodes: set<VirtualNode>) {
    forall a, b :: Sorted(a) && Sorted(b) && Members(a) == nodes && Members(b) == nodes ==> SelectAlike(a, b)
  }

  /** The order in which nodes are sorted makes no difference to any selection if and only if no two
    instances clash. */
  lemma SelectAlikeIff(nodes: set<VirtualNode>)
    ensures AllAlike(nodes) <==> NoClash(nodes)
  {
    if NoClash(nodes) {
      forall a, b | Sorted(a) && Sorted(b) && Members(a) == nodes && Members(b) == nodes ensures SelectAlike(a, b) {
        SameSelections(a, b);
      }
    } else {
      var m, n :| m in nodes && n in nodes && m.hashValue == n.hashValue && m.instance != n.instance;
      var a := RingSelecting(nodes, m);
      var b := RingSelecting(nodes, n);
      assert Selected(a, m.hashValue) != Selected(b, m.hashValue);
      assert !SelectAlike(a, b);
    }
  }

  ghost predicate AddingMovesOnlyOnto(nodes: set<VirtualNode>, added: set<VirtualNode>, instance: string) {
    forall before, after ::
      Sorted(before) && Sorted(after) && Members(before) == nodes && Members(after) == nodes + added ==>
        MovesOnlyOnto(before, after, instance)
  }

  /** Adding an instance moves keys only onto it, however ties are sorted, if and only if no two
    instances clash on the ring it is added to; whether its own nodes clash does not matter. */
  lemma AddSelectsIff(nodes: set<VirtualNode>, added: set<VirtualNode>, instance: string)
    requires OfInstance(added, instance)
    ensures AddingMovesOnlyOnto(nodes, added, instance) <==> NoClash(nodes)
  {
    if NoClash(nodes) {
      forall before, after |
        Sorted(before) && Sorted(after) && Members(before) == nodes && Members(after) == nodes + added
        ensures MovesOnlyOnto(before, after, instance)
      {
        AddSelects(before, after, added, instance);
      }
    } else {
      var m, n :| m in nodes && n in nodes && m.hashValue == n.hashValue && m.instance != n.instance;
      var to, from := if m.instance == instance then n else m, if m.instance == instance then m else n;
      var before := RingSelecting(nodes, from);
      var after := RingSelecting(nodes + added, to);
      assert Selected(after, to.hashValue) == Some(to.instance);
      assert !MovesOnlyOnto(before, after, instance);
    }
  }

  /** Instances "a" and "b" clash at 5. Adding "c", whose only node lies at 9, may move the keys at
    5 from "a" to "b". */
  lemma ClashInput() returns (before: seq<VirtualNode>, after: seq<VirtualNode>)
    ensures Sorted(before) && Sorted(after)
    ensures Members(before) == {VirtualNode("a", "a#0", 5), VirtualNode("b", "b#0", 5)}
    ensures Members(after) == Members(before) + {VirtualNode("c", "c#0", 9)}
    ensures Selected(before, 5) == Some("a") && Selected(after, 5) == Some("b")
  {
    var a, b, c := VirtualNode("a", "a#0", 5), VirtualNode("b", "b#0", 5), VirtualNode("c", "c#0", 9);
    before, after := [a, b], [b, a, c];
  }

  // ---------------------------------------------------------------- removing

  /** erase(remove_if(...)): drops the nodes of one instance and keeps the order of the rest. */
  function Dropping(ring: seq<VirtualNode>, instance: string): (r: seq<VirtualNode>)
    ensures forall n :: n in r <==> n in ring && n.instance != instance
  {
    if ring == [] then []
    else (if ring[0].instance == instance then [] else [ring[0]]) + Dropping(ring[1..], instance)
  }

  lemma {:induction false} DroppingSorted(ring: seq<VirtualNode>, instance: string)
    requires Sorted(ring)
    ensures Sorted(Dropping(ring, instance))
  {
    if ring != [] {
      DroppingSorted(ring[1..], instance);
      var rest := Dropping(ring[1..], instance);
      assert forall n :: n in rest ==> n in ring[1..];
    }
  }

  /** The first node at or after a hash stays the first, unless it is dropped. */
  lemma {:induction false} DroppingFirst(ring: seq<VirtualNode>, instance: string, h: Hash)
    ensures var d := Dropping(ring, instance);
            var k, l := FirstFrom(ring, h, 0), FirstFrom(d, h, 0);
            && (k < |ring| && ring[k].instance != instance ==> l < |d| && d[l] == ring[k])
            && (k == |ring| ==> l == |d|)
  {
    if ring != [] {
      DroppingFirst(ring[1..], instance, h);
      var d, e := Dropping(ring, instance), Dropping(ring[1..], instance);
      if ring[0].hashValue < h {
        FirstShift(ring, h);
        if ring[0].instance == instance {
          assert d == e;
        } else {
          assert d == [ring[0]] + e && d[1..] == e;
          FirstShift(d, h);
        }
      }
    }
  }

  lemma FirstShift(ring: seq<VirtualNode>, h: Hash)
    requires ring != [] && ring[0].hashValue < h
    ensures FirstFrom(ring, h, 0) == FirstFrom(ring[1..], h, 0) + 1
  {
    var k := FirstFrom(ring[1..], h, 0);
    assert forall j :: 1 <= j <= k ==> ring[j] == ring[1..][j - 1];
    assert k + 1 < |ring| ==> ring[k + 1] == ring[1..][k];
  }

  /** Removing an instance changes only its own selections, with clashes or without. */
  lemma RemoveSelects(ring: seq<VirtualNode>, instance: string, h: Hash)
    ensures Selected(Dropping(ring, instance), h) == Selected(ring, h) || Selected(ring, h) == Some(instance)
  {
    DroppingFirst(ring, instance, h);
  }

  ghost predicate Restoring(nodes: set<VirtualNode>, added: set<VirtualNode>, instance: string) {
    forall before, ring :: Sorted(before) && Sorted(ring) && Members(before) == nodes && Members(ring) == nodes + added ==>
      SelectAlike(before, Dropping(ring, instance))
  }

  /** Adding a fresh instance and dropping it again restores every selection, however ties are sorted,
    if and only if no two of the others clash. */
  lemma RestoringIff(nodes: set<VirtualNode>, added: set<VirtualNode>, instance: string)
    requires OfInstance(added, instance) && forall n :: n in nodes ==> n.instance != instance
    ensures Restoring(nodes, added, instance) <==> NoClash(nodes)
  {
    SelectAlikeIff(nodes);
    if NoClash(nodes) {
      forall before, ring |
        Sorted(before) && Sorted(ring) && Members(before) == nodes && Members(ring) == nodes + added
        ensures SelectAlike(before, Dropping(ring, instance))
      {
        DroppingSorted(ring, instance);
        DroppedMembers(ring, nodes, added, instance);
        SameSelections(before, Dropping(ring, instance));
      }
    } else {
      var a, b :| Sorted(a) && Sorted(b) && Members(a) == nodes && Members(b) == nodes && !SelectAlike(a, b);
      var ring := InsertAll(b, added, instance);
      assert !SelectAlike(a, Dropping(ring, instance));
    }
  }

  lemma DroppedMembers(ring: seq<VirtualNode>, nodes: set<VirtualNode>, added: set<VirtualNode>, instance: string)
    requires Members(ring) == nodes + added && OfInstance(added, instance)
    requires forall n :: n in nodes ==> n.instance != instance
    ensures Members(Dropping(ring, instance)) == nodes
  {
    forall n ensures n in Dropping(ring, instance) <==> n in nodes {
      assert n in ring <==> n in Members(ring);
    }
  }

  /** A ring with the nodes of a fresh instance sorted in. */
  lemma {:induction false} InsertAll(ring: seq<VirtualNode>, added: set<VirtualNode>, instance: string)
    returns (r: seq<VirtualNode>)
    requires Sorted(ring) && OfInstance(added, instance) && forall n :: n in ring ==> n.instance != instance
    ensures Sorted(r) && Members(r) == Members(ring) + added && Dropping(r, instance) == ring
    decreases added
  {
    if added == {} {
      r := ring;
      NothingDropped(ring, instance);
    } else {
      var n :| n in added;
      var rest := InsertAll(ring, added - {n}, instance);
      r := Insert(rest, n);
      InsertSorted(rest, n);
      MembersOfInsert(rest, n);
      InsertDropped(rest, n);
    }
  }

  lemma {:induction false} NothingDropped(ring: seq<VirtualNode>, instance: string)
    requires forall n :: n in ring ==> n.instance != instance
    ensures Dropping(ring, instance) == ring
  {
    if ring != [] {
      NothingDropped(ring[1..], instance);
      assert ring == [ring[0]] + ring[1..];
    }
  }

  lemma {:induction false} InsertDropped(ring: seq<VirtualNode>, n: VirtualNode)
    ensures Dropping(Insert(ring, n), n.instance) == Dropping(ring, n.instance)
  {
    if ring != [] && n.hashValue > ring[0].hashValue {
      InsertDropped(ring[1..], n);
      assert Insert(ring, n)[1..] == Insert(ring[1..], n);
    } else {
      assert Insert(ring, n)[1..] == ring;
    }
  }

  lemma {:induction false} DroppingSame(a: seq<VirtualNode>, b: seq<VirtualNode>, instance: string)
    requires multiset(a) == multiset(b)
    ensures multiset(Dropping(a, instance)) == multiset(Dropping(b, instance))
  {
    forall n ensures multiset(Dropping(a, instance))[n] == multiset(Dropping(b, instance))[n] {
      DroppingCount(a, instance, n);
      DroppingCount(b, instance, n);
    }
  }

  lemma {:induction false} DroppingCount(ring: seq<VirtualNode>, instance: string, n: VirtualNode)
    ensures multiset(Dropping(ring, instance))[n] == if n.instance == instance then 0 else multiset(ring)[n]
  {
    if ring != [] {
      DroppingCount(ring[1..], instance, n);
      assert ring == [ring[0]] + ring[1..];
    }
  }

  // ---------------------------------------------------------------- the balancer

  function Decimal(n: nat): string {
    (if n < 10 then "" else Decimal(n / 10)) + [(n % 10) as char + '0']
  }

  function VirtualNodeId(instance: string, index: nat): string {
    instance + "#" + Decimal(index)
  }

  /** The number a text of digits stands for. */
  ghost function Value(digits: string): int {
    if digits == "" then 0 else 10 * Value(digits[..|digits| - 1]) + (digits[|digits| - 1] as int - '0' as int)
  }

  /** The decimal of a number: digits only, no leading zero, and it stands for the number. */
  lemma {:induction false} DecimalStandsFor(n: nat)
    ensures var d := Decimal(n);
            && Value(d) == n && d != "" && (forall i :: 0 <= i < |d| ==> '0' <= d[i] <= '9')
            && (d[0] == '0' <==> n == 0) && (n == 0 ==> d == "0")
  {
    var d := Decimal(n);
    if n >= 10 { DecimalStandsFor(n / 10); }
    assert d[..|d| - 1] == if n < 10 then "" else Decimal(n / 10);
  }

  /** Two nodes of an instance have different ids. */
  lemma NodeIdsDiffer(instance: string, j: nat, k: nat)
    requires VirtualNodeId(instance, j) == VirtualNodeId(instance, k)
    ensures j == k
  {
    DecimalStandsFor(j);
    DecimalStandsFor(k);
    assert VirtualNodeId(instance, j)[|instance| + 1..] == Decimal(j);
    assert VirtualNodeId(instance, k)[|instance| + 1..] == Decimal(k);
  }

  /** The virtual nodes an instance of some weight puts on the ring. */
  function NodesOf(hash: string -> Hash, instance: string, count: nat): (nodes: seq<VirtualNode>)
    ensures |nodes| == count && forall n :: n in nodes ==> n.instance == instance
  {
    if count == 0 then []
    else
      var id := VirtualNodeId(instance, count - 1);
      NodesOf(hash, instance, count - 1) + [VirtualNode(instance, id, hash(id))]
  }

  ghost predicate RingFits(service: string, instances: map<string, seq<VirtualNode>>, rings: map<string, seq<VirtualNode>>) {
    if service in rings
    then Sorted(rings[service]) &&
         multiset(rings[service]) == multiset(if service in instances then instances[service] else [])
    else service !in instances
  }

  lemma MembersConcat(a: seq<VirtualNode>, b: seq<VirtualNode>)
    ensures Members(a + b) == Members(a) + Members(b) && Members([]) == {}
  {}

  lemma MembersOfInstance(hash: string -> Hash, instance: string, count: nat)
    ensures forall n :: n in Members(NodesOf(hash, instance, count)) ==> n.instance == instance
  {}

  /** Node k has its own id, made of the instance's name and the decimal of k, and that id's hash. */
  lemma {:induction false} NodesOfAre(hash: string -> Hash, instance: string, count: nat, k: nat)
    requires k < count
    ensures var id := instance + "#" + Decimal(k); NodesOf(hash, instance, count)[k] == VirtualNode(instance, id, hash(id))
  {
    if k < count - 1 { NodesOfAre(hash, instance, count - 1, k); }
  }

  ghost predicate IsNodeOf(hash: string -> Hash, instance: string, k: int, n: VirtualNode) {
    0 <= k && var id := instance + "#" + Decimal(k); n == VirtualNode(instance, id, hash(id))
  }

  lemma MembersOfNodes(hash: string -> Hash, instance: string, count: nat)
    ensures forall n :: n in Members(NodesOf(hash, instance, count)) <==>
                          exists k :: 0 <= k < count && IsNodeOf(hash, instance, k, n)
  {
    var nodes := NodesOf(hash, instance, count);
    forall k: nat | k < count ensures IsNodeOf(hash, instance, k, nodes[k]) { NodesOfAre(hash, instance, count, k); }
    forall n | n in nodes ensures exists k :: 0 <= k < count && IsNodeOf(hash, instance, k, n) {
      var k :| 0 <= k < |nodes| && nodes[k] == n;
      assert IsNodeOf(hash, instance, k, n);
    }
    forall n, k | 0 <= k < count && IsNodeOf(hash, instance, k, n) ensures n in nodes {
      assert IsNodeOf(hash, instance, k, nodes[k]);
    }
  }

  lemma NodesStep(hash: string -> Hash, instance: string, count: nat)
    ensures NodesOf(hash, instance, 0) == []
    ensures var id := VirtualNodeId(instance, count);
            NodesOf(hash, instance, count + 1) == NodesOf(hash, instance, count) + [VirtualNode(instance, id, hash(id))]
  {}

  class ConsistentHashLoadBalancer {
    const virtualNodes: int
    const hash: string -> Hash
    var serviceInstances: map<string, seq<VirtualNode>>
    var serviceRing: map<string, seq<VirtualNode>>

    /** A service's ring is sorted and holds the nodes of its instance list. */
    ghost predicate RingOk(service: string)
      reads this
    {
      RingFits(service, serviceInstances, serviceRing)
    }

    ghost predicate Valid()
      reads this
    {
      forall s :: RingOk(s)
    }

    ghost function Instances(service: string): seq<VirtualNode>
      reads this
    {
      if service in serviceInstances then serviceInstances[service] else []
    }

    /** The nodes on a service's ring. */
    ghost function Nodes(service: string): set<VirtualNode>
      reads this
    {
      if service in serviceRing then Members(serviceRing[service]) else {}
    }

    /** What select_instance returns for a key. */
    ghost function Selection(service: string, key: string): Option<string>
      reads this
    {
      if service in serviceRing then Selected(serviceRing[service], hash(key)) else None
    }

    ghost function NodeCount(weight: int): nat {
      if virtualNodes * weight > 0 then virtualNodes * weight else 0
    }

    constructor (virtualNodes: int, hash: string -> Hash)
      ensures Valid() && this.virtualNodes == virtualNodes && this.hash == hash
      ensures forall s :: Nodes(s) == {}
    {
      this.virtualNodes, this.hash := virtualNodes, hash;
      serviceInstances, serviceRing := map[], map[];
    }

    /** add_instance: unless two instances clash on the old ring, a key moves only onto the new one. */
    method AddInstance(service: string, instance: string, weight: int)
      requires Valid()
      modifies this
      ensures Valid()
      ensures forall n :: n in Nodes(service) <==>
                n in old(Nodes(service)) || exists k :: 0 <= k < virtualNodes * weight && IsNodeOf(hash, instance, k, n)
      ensures forall s :: s != service ==> Nodes(s) == old(Nodes(s))
      ensures NoClash(old(Nodes(service))) ==> forall key ::
                Selection(service, key) == old(Selection(service, key)) || Selection(service, key) == Some(instance)
    {
      hide Owns, Nearest, Members, NodesOf, Sorted;
      assert RingOk(service);
      assert old(Nodes(service)) == Nodes(service);
      var instances := if service in serviceInstances then serviceInstances[service] else [];
      var ring := if service in serviceRing then serviceRing[service] else [];
      var nodeCount := virtualNodes * weight;
      assert NodeCount(weight) == if nodeCount > 0 then nodeCount else 0;
      hide NodeCount, Valid;
      ghost var was, put := ring, NodesOf(hash, instance, NodeCount(weight));
      instances, ring := PushNodes(instances, ring, instance, nodeCount);
      var sorted := Sort(ring);
      SameMembers(sorted, ring);
      MembersConcat(was, put);
      MembersOfInstance(hash, instance, NodeCount(weight));
      Enter(service, instances, sorted, nodeCount);
      NothingSelected();
      MembersOfNodes(hash, instance, if nodeCount > 0 then nodeCount else 0);
      hide Selected, IsNodeOf;
      if NoClash(Members(was)) {
        AddSelects(was, sorted, Members(put), instance);
      }
    }

    /** Writes the new list (if any node was pushed) and the sorted ring back. */
    method Enter(service: string, instances: seq<VirtualNode>, sorted: seq<VirtualNode>, nodeCount: int)
      requires Valid() && Sorted(sorted) && multiset(sorted) == multiset(instances)
      requires nodeCount <= 0 ==> instances == Instances(service)
      modifies this
      ensures Valid() && Nodes(service) == Members(sorted) && service in serviceRing && serviceRing[service] == sorted
      ensures forall s :: s != service ==> Nodes(s) == old(Nodes(s))
    {
      hide Sorted, Members;
      if nodeCount > 0 {
        serviceInstances := serviceInstances[service := instances];
      }
      serviceRing := serviceRing[service := sorted];
      forall s ensures RingOk(s) {
        assert old(RingOk(s));
      }
    }

    /** The loop of add_instance. */
    method PushNodes(instances: seq<VirtualNode>, ring: seq<VirtualNode>, instance: string, nodeCount: int)
      returns (list: seq<VirtualNode>, longer: seq<VirtualNode>)
      requires multiset(ring) == multiset(instances)
      ensures multiset(longer) == multiset(list)
      ensures longer == ring + NodesOf(hash, instance, if nodeCount > 0 then nodeCount else 0)
      ensures nodeCount <= 0 ==> list == instances
    {
      hide NodesOf, VirtualNodeId;
      list, longer := instances, ring;
      NodesStep(hash, instance, 0);
      var i: nat := 0;
      while i < nodeCount
        invariant i <= if nodeCount > 0 then nodeCount else 0
        invariant longer == ring + NodesOf(hash, instance, i)
        invariant multiset(longer) == multiset(list)
        invariant nodeCount <= 0 ==> list == instances
      {
        var virtualId := VirtualNodeId(instance, i);
        var node := VirtualNode(instance, virtualId, hash(virtualId));
        NodesStep(hash, instance, i);
        list, longer := list + [node], longer + [node];
        i := i + 1;
      }
    }

    /** remove_instance: only keys of the removed instance move. */
    method RemoveInstance(service: string, instance: string)
      requires Valid()
      modifies this
      ensures Valid()
      ensures forall n :: n in Nodes(service) <==> n in old(Nodes(service)) && n.instance != instance
      ensures forall s :: s != service ==> Nodes(s) == old(Nodes(s))
      ensures forall key ::
                Selection(service, key) == old(Selection(service, key)) || old(Selection(service, key)) == Some(instance)
    {
      hide Owns, Nearest, Sorted;
      assert RingOk(service);
      if service in serviceInstances {
        var instances, ring := serviceInstances[service], serviceRing[service];
        DroppingSorted(ring, instance);
        DroppingSame(ring, instances, instance);
        serviceInstances := serviceInstances[service := Dropping(instances, instance)];
        serviceRing := serviceRing[service := Dropping(ring, instance)];
        forall s ensures RingOk(s) {
          assert old(RingOk(s));
        }
      }
      if service in serviceInstances {
        forall key
          ensures Selection(service, key) == old(Selection(service, key)) || old(Selection(service, key)) == Some(instance)
        {
          RemoveSelects(old(serviceRing[service]), instance, hash(key));
        }
      }
    }

    /** std::lower_bound over the sorted ring. */
    method LowerBound(ring: seq<VirtualNode>, h: Hash) returns (k: nat)
      requires Sorted(ring)
      ensures k <= |ring|
      ensures forall j :: 0 <= j < k ==> ring[j].hashValue < h
      ensures forall j :: k <= j < |ring| ==> h <= ring[j].hashValue
    {
      k := 0;
      var end := |ring|;
      while k < end
        invariant 0 <= k <= end <= |ring|
        invariant forall j :: 0 <= j < k ==> ring[j].hashValue < h
        invariant forall j :: end <= j < |ring| ==> h <= ring[j].hashValue
      {
        var mid := (k + end) / 2;
        if ring[mid].hashValue < h { k := mid + 1; } else { end := mid; }
      }
    }

    /** select_instance: the clockwise successor's instance, or nothing on an empty ring. */
    method SelectInstance(service: string, key: string) returns (instance: Option<string>)
      requires Valid()
      ensures instance.None? <==> Nodes(service) == {}
      ensures instance.Some? ==> Owns(Nodes(service), hash(key), instance.value)
      ensures instance.Some? ==>
                exists n :: (&& n in Nodes(service) && n.instance == instance.value
                             && if hash(key) <= n.hashValue
                                then forall m :: m in Nodes(service) ==> m.hashValue < hash(key) || n.hashValue <= m.hashValue
                                else forall m :: m in Nodes(service) ==> n.hashValue <= m.hashValue < hash(key))
      ensures instance == Selection(service, key)
    {
      assert RingOk(service);
      if service !in serviceRing || |serviceRing[service]| == 0 {
        return None;
      }
      var ring := serviceRing[service];
      assert ring[0] in Nodes(service);
      var k := LowerBound(ring, hash(key));
      if k == |ring| {
        k := 0;
      }
      SuccessorIsNearest(ring, hash(key), k);
      assert k == if FirstFrom(ring, hash(key), 0) == |ring| then 0 else FirstFrom(ring, hash(key), 0);
      assert ring[k] in Nodes(service);
      return Some(ring[k].instance);
    }

    /** Adding a fresh instance and removing it again restores the ring's nodes, and with them,
      if no instances clash, every selection. */
    method AddThenRemove(service: string, instance: string, weight: int)
      requires Valid() && forall n :: n in Nodes(service) ==> n.instance != instance
      modifies this
      ensures Valid() && Nodes(service) == old(Nodes(service))
      ensures NoClash(Nodes(service)) ==> forall key :: Selection(service, key) == old(Selection(service, key))
    {
      AddInstance(service, instance, weight);
      RemoveInstance(service, instance);
      hide *;
      SelectsAlike(service);
    }

    /** The same nodes are selected alike. */
    twostate lemma SelectsAlike(new service: string)
      requires old(Valid()) && Valid() && Nodes(service) == old(Nodes(service))
      ensures NoClash(Nodes(service)) ==> forall key :: Selection(service, key) == old(Selection(service, key))
    {
      assert old(RingOk(service)) && RingOk(service);
      NothingSelected();
      if NoClash(Nodes(service)) {
        hide Sorted, NoClash, Selected, Valid;
        SameSelections(old(if service in serviceRing then serviceRing[service] else []),
                       if service in serviceRing then serviceRing[service] else []);
      }
    }
  }

  lemma SameMembers(a: seq<VirtualNode>, b: seq<VirtualNode>)
    requires multiset(a) == multiset(b)
    ensures Members(a) == Members(b)
  {
    forall n ensures n in a <==> n in b {
      assert n in a <==> n in multiset(a);
      assert n in b <==> n in multiset(b);
    }
  }
}
