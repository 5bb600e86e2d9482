/** The cross list of src/aoi/aoi.cpp: every entity is a node of two intrusive doubly linked lists,
  one sorted by x and one by y. */
module CrossListAois {

  import opened AoiEntities

  class Node {
    const id: nat
    var x: int
    var y: int
    var prevX: Node?
    var nextX: Node?
    var prevY: Node?
    var nextY: Node?

    constructor (e: Entity)
      ensures id == e.id && x == e.x && y == e.y
      ensures prevX == null && nextX == null && prevY == null && nextY == null
    {
      id, x, y := e.id, e.x, e.y;
      prevX, nextX, prevY, nextY := null, null, null, null;
    }
  }

  lemma Removed<T>(s: seq<T>, k: nat)
    requires k < |s| && forall i, j :: 0 <= i < j < |s| ==> s[i] != s[j]
    ensures forall n :: n in s[..k] + s[k + 1..] <==> n in s && n != s[k]
  {
    var r := s[..k] + s[k + 1..];
    forall n | n in s && n != s[k] ensures n in r {
      var i :| 0 <= i < |s| && s[i] == n;
      assert r[if i < k then i else i - 1] == n;
    }
  }

  /** The node at a position of a list, or no node off its ends. */
  ghost function At(s: seq<Node>, i: int): Node? {
    if 0 <= i < |s| then s[i] else null
  }

  lemma AtIn(s: seq<Node>, i: nat)
    requires i < |s|
    ensures At(s, i) == s[i]
  {}

  lemma AtZero(s: seq<Node>)
    ensures At(s, -1) == null && At(s, |s|) == null
  {}

  lemma AtEnds(s: seq<Node>, k: nat)
    requires k < |s|
    ensures |s| == 1 ==> At(s, k - 1) == null && At(s, k + 1) == null
  {}

  lemma RemovedAt(s: seq<Node>, k: nat)
    requires k < |s|
    ensures var r := s[..k] + s[k + 1..];
            && (forall i :: i < k ==> At(r, i) == At(s, i))
            && (forall i :: k <= i ==> At(r, i) == At(s, i + 1))
  {}

  lemma Neighbours(s: seq<Node>, k: nat)
    requires k <= |s|
    ensures At(s, k) != null ==> At(s, k) in s
    ensures At(s, k - 1) != null ==> At(s, k - 1) in s
  {}

  lemma Spliced(s: seq<Node>, k: nat, node: Node)
    requires k <= |s| && node !in s
    ensures var r := s[..k] + [node] + s[k..];
            && |r| == |s| + 1 && At(r, k) == node
            && (forall i :: i < k ==> At(r, i) == At(s, i))
            && (forall i :: k < i ==> At(r, i) == At(s, i - 1))
            && (forall n :: n in r <==> n in s || n == node)
  {
    var r := s[..k] + [node] + s[k..];
    forall n | n in s ensures n in r {
      var i :| 0 <= i < |s| && s[i] == n;
      assert r[if i < k then i else i + 1] == n;
    }
  }

  predicate InRange(x: int, y: int, range: int, e: Entity) {
    x - range <= e.x <= x + range && y - range <= e.y <= y + range
  }

  class CrossListAoi {
    const viewRange: int
    var nodes: map<nat, Node>
    var headX: Node?
    var headY: Node?
    ghost var xs: seq<Node>
    ghost var ys: seq<Node>

    constructor (viewRange: int)
      ensures Valid() && nodes == map[] && this.viewRange == viewRange && Entities() == map[]
    {
      this.viewRange := viewRange;
      nodes, headX, headY, xs, ys := map[], null, null, [], [];
    }

    /** Both lists hold exactly the nodes of the id map. */
    ghost predicate Members()
      reads `nodes, `xs, `ys
    {
      && (forall id :: id in nodes ==> nodes[id].id == id && nodes[id] in xs && nodes[id] in ys)
      && (forall n :: n in xs ==> n.id in nodes && nodes[n.id] == n)
      && (forall n :: n in ys ==> n.id in nodes && nodes[n.id] == n)
    }

    ghost predicate Valid()
      reads this, xs, ys
    {
      && LinkedX() && SortedX()
      && LinkedY() && SortedY()
      && Members()
    }

    /** The stored entities. */
    ghost function Entities(): map<nat, Entity>
      reads `nodes, nodes.Values`x, nodes.Values`y
    {
      map id | id in nodes :: Entity(id, nodes[id].x, nodes[id].y)
    }

    /** The x list runs through `xs`: forward and backward links are each other's inverses. */
    ghost predicate LinkedX()
      reads `headX, `xs, xs`prevX, xs`nextX
    {
      && headX == At(xs, 0)
      && (forall i {:trigger xs[i].prevX} :: 0 <= i < |xs| ==> xs[i].prevX == At(xs, i - 1))
      && (forall i {:trigger xs[i].nextX} :: 0 <= i < |xs| ==> xs[i].nextX == At(xs, i + 1))
      && (forall i, j :: 0 <= i < j < |xs| ==> xs[i] != xs[j])
    }

    ghost predicate SortedX()
      reads `xs, xs`x
    {
      forall i, j :: 0 <= i < j < |xs| ==> xs[i].x <= xs[j].x
    }

    /** insert_to_x_list: in front of the first node that is not smaller. */
    method InsertToXList(node: Node)
      requires LinkedX() && SortedX() && node !in xs
      requires xs == [] ==> node.prevX == null && node.nextX == null
      modifies `headX, `xs, node`prevX, node`nextX, xs`prevX, xs`nextX
      ensures LinkedX() && SortedX()
      ensures forall n :: n in xs <==> n in old(xs) || n == node
    {
      if headX == null {
        headX := node;
        xs := [node];
        return;
      }
      var prev: Node? := null;
      var curr := headX;
      ghost var k := 0;
      while curr != null && curr.x < node.x
        invariant 0 <= k <= |xs|
        invariant curr == At(xs, k) && prev == At(xs, k - 1)
        invariant forall i :: 0 <= i < k ==> xs[i].x < node.x
        decreases |xs| - k
      {
        prev := curr;
        curr := curr.nextX;
        k := k + 1;
      }
      SpliceX(node, prev, curr, k);
    }

    /** Links a node in between two neighbours. */
    method SpliceX(node: Node, prev: Node?, curr: Node?, ghost k: nat)
      requires LinkedX() && SortedX() && node !in xs && k <= |xs| && xs != []
      requires curr == At(xs, k) && prev == At(xs, k - 1)
      requires forall i :: 0 <= i < k ==> xs[i].x < node.x
      requires k < |xs| ==> node.x <= xs[k].x
      modifies `headX, `xs, node`prevX, node`nextX, xs`prevX, xs`nextX
      ensures LinkedX() && SortedX() && xs == old(xs)[..k] + [node] + old(xs)[k..]
    {
      AttachX(node, prev, curr, k);
      xs := xs[..k] + [node] + xs[k..];
      SplicedLinksX(node, k);
      Spliced(old(xs), k, node);
    }

    method AttachX(node: Node, prev: Node?, curr: Node?, ghost k: nat)
      requires LinkedX() && node !in xs && k <= |xs|
      requires curr == At(xs, k) && prev == At(xs, k - 1)
      modifies `headX, node`prevX, node`nextX, xs`prevX, xs`nextX
      ensures node.prevX == prev && node.nextX == curr && headX == if k == 0 then node else old(headX)
      ensures forall i {:trigger xs[i].prevX} :: 0 <= i < |xs| ==>
                xs[i].prevX == if i == k then node else At(xs, i - 1)
      ensures forall i {:trigger xs[i].nextX} :: 0 <= i < |xs| ==>
                xs[i].nextX == if i == k - 1 then node else At(xs, i + 1)
    {
      Neighbours(xs, k);
      node.prevX := prev;
      node.nextX := curr;
      if prev != null {
        prev.nextX := node;
      } else {
        headX := node;
      }
      if curr != null {
        curr.prevX := node;
      }
    }

    twostate lemma SplicedLinksX(new node: Node, new k: nat)
      requires old(LinkedX()) && old(SortedX()) && node !in old(xs) && k <= |old(xs)|
      requires xs == old(xs)[..k] + [node] + old(xs)[k..]
      requires headX == if k == 0 then node else old(headX)
      requires node.prevX == At(old(xs), k - 1) && node.nextX == At(old(xs), k)
      requires forall i {:trigger old(xs)[i].prevX} :: 0 <= i < |old(xs)| ==>
                 old(xs)[i].prevX == if i == k then node else At(old(xs), i - 1)
      requires forall i {:trigger old(xs)[i].nextX} :: 0 <= i < |old(xs)| ==>
                 old(xs)[i].nextX == if i == k - 1 then node else At(old(xs), i + 1)
      requires forall n :: n in old(xs) ==> n.x == old(n.x)
      requires forall i :: 0 <= i < k ==> old(xs)[i].x < node.x
      requires k < |old(xs)| ==> node.x <= old(xs)[k].x
      ensures LinkedX() && SortedX()
    {
      hide SortedX, At;
      Spliced(old(xs), k, node);
      AtZero(xs);
      AtZero(old(xs));
      forall i {:trigger xs[i].prevX} | 0 <= i < |xs| ensures xs[i].prevX == At(xs, i - 1) {
        AtIn(xs, i);
        if i < k { AtIn(old(xs), i); } else if i > k { AtIn(old(xs), i - 1); }
      }
      forall i {:trigger xs[i].nextX} | 0 <= i < |xs| ensures xs[i].nextX == At(xs, i + 1) {
        AtIn(xs, i);
        if i < k { AtIn(old(xs), i); } else if i > k { AtIn(old(xs), i - 1); }
      }
      SplicedSortedX(k, node);
    }

    twostate lemma SplicedSortedX(new k: nat, new node: Node)
      requires old(SortedX()) && k <= |old(xs)| && xs == old(xs)[..k] + [node] + old(xs)[k..]
      requires forall n :: n in old(xs) ==> n.x == old(n.x)
      requires forall i :: 0 <= i < k ==> old(xs)[i].x < node.x
      requires k < |old(xs)| ==> node.x <= old(xs)[k].x
      ensures SortedX()
    {}

    /** The x half of remove_from_lists; the node keeps its own stale links. */
    method RemoveFromXList(node: Node)
      requires LinkedX() && SortedX() && node in xs
      modifies `headX, `xs, xs`prevX, xs`nextX
      ensures LinkedX() && SortedX()
      ensures forall n :: n in xs <==> n in old(xs) && n != node
      ensures node.prevX == old(node.prevX) && node.nextX == old(node.nextX)
      ensures xs == [] ==> node.prevX == null && node.nextX == null
    {
      ghost var k: nat :| k < |xs| && xs[k] == node;
      hide SortedX, At;
      AtEnds(xs, k);
      DetachX(node, k);
      xs := xs[..k] + xs[k + 1..];
      Removed(old(xs), k);
      RemovedLinksX(k);
    }

    method DetachX(node: Node, ghost k: nat)
      requires LinkedX() && k < |xs| && xs[k] == node
      modifies `headX, xs`prevX, xs`nextX
      ensures node.prevX == old(node.prevX) == At(xs, k - 1) && node.nextX == old(node.nextX) == At(xs, k + 1)
      ensures headX == if k == 0 then At(xs, 1) else old(headX)
      ensures forall i {:trigger xs[i].prevX} :: 0 <= i < |xs| && i != k ==>
                xs[i].prevX == if i == k + 1 then At(xs, k - 1) else At(xs, i - 1)
      ensures forall i {:trigger xs[i].nextX} :: 0 <= i < |xs| && i != k ==>
                xs[i].nextX == if i == k - 1 then At(xs, k + 1) else At(xs, i + 1)
    {
      Neighbours(xs, k);
      Neighbours(xs, k + 1);
      if node.prevX != null {
        node.prevX.nextX := node.nextX;
      } else {
        headX := node.nextX;
      }
      if node.nextX != null {
        node.nextX.prevX := node.prevX;
      }
    }

    twostate lemma RemovedLinksX(new k: nat)
      requires old(LinkedX()) && old(SortedX()) && k < |old(xs)|
      requires xs == old(xs)[..k] + old(xs)[k + 1..]
      requires headX == if k == 0 then At(old(xs), 1) else old(headX)
      requires forall i {:trigger old(xs)[i].prevX} :: 0 <= i < |old(xs)| && i != k ==>
                 old(xs)[i].prevX == if i == k + 1 then At(old(xs), k - 1) else At(old(xs), i - 1)
      requires forall i {:trigger old(xs)[i].nextX} :: 0 <= i < |old(xs)| && i != k ==>
                 old(xs)[i].nextX == if i == k - 1 then At(old(xs), k + 1) else At(old(xs), i + 1)
      requires forall n :: n in old(xs) ==> n.x == old(n.x)
      ensures LinkedX() && SortedX()
    {
      hide SortedX, At;
      RemovedAt(old(xs), k);
      AtZero(xs);
      AtZero(old(xs));
      forall i {:trigger xs[i].prevX} | 0 <= i < |xs| ensures xs[i].prevX == At(xs, i - 1) {
        AtIn(xs, i);
        AtIn(old(xs), if i < k then i else i + 1);
      }
      forall i {:trigger xs[i].nextX} | 0 <= i < |xs| ensures xs[i].nextX == At(xs, i + 1) {
        AtIn(xs, i);
        AtIn(old(xs), if i < k then i else i + 1);
      }
      RemovedSortedX(k);
    }

    twostate lemma RemovedSortedX(new k: nat)
      requires old(SortedX()) && k < |old(xs)| && xs == old(xs)[..k] + old(xs)[k + 1..]
      requires forall n :: n in old(xs) ==> n.x == old(n.x)
      ensures SortedX()
    {}

    /** The y list runs through `ys`: forward and backward links are each other's inverses. */
    ghost predicate LinkedY()
      reads `headY, `ys, ys`prevY, ys`nextY
    {
      && headY == At(ys, 0)
      && (forall i {:trigger ys[i].prevY} :: 0 <= i < |ys| ==> ys[i].prevY == At(ys, i - 1))
      && (forall i {:trigger ys[i].nextY} :: 0 <= i < |ys| ==> ys[i].nextY == At(ys, i + 1))
      && (forall i, j :: 0 <= i < j < |ys| ==> ys[i] != ys[j])
    }

    ghost predicate SortedY()
      reads `ys, ys`y
    {
      forall i, j :: 0 <= i < j < |ys| ==> ys[i].y <= ys[j].y
    }

    /** insert_to_y_list: in front of the first node that is not smaller. */
    method InsertToYList(node: Node)
      requires LinkedY() && SortedY() && node !in ys
      requires ys == [] ==> node.prevY == null && node.nextY == null
      modifies `headY, `ys, node`prevY, node`nextY, ys`prevY, ys`nextY
      ensures LinkedY() && SortedY()
      ensures forall n :: n in ys <==> n in old(ys) || n == node
    {
      if headY == null {
        headY := node;
        ys := [node];
        return;
      }
      var prev: Node? := null;
      var curr := headY;
      ghost var k := 0;
      while curr != null && curr.y < node.y
        invariant 0 <= k <= |ys|
        invariant curr == At(ys, k) && prev == At(ys, k - 1)
        invariant forall i :: 0 <= i < k ==> ys[i].y < node.y
        decreases |ys| - k
      {
        prev := curr;
        curr := curr.nextY;
        k := k + 1;
      }
      SpliceY(node, prev, curr, k);
    }

    /** Links a node in between two neighbours. */
    method SpliceY(node: Node, prev: Node?, curr: Node?, ghost k: nat)
      requires LinkedY() && SortedY() && node !in ys && k <= |ys| && ys != []
      requires curr == At(ys, k) && prev == At(ys, k - 1)
      requires forall i :: 0 <= i < k ==> ys[i].y < node.y
      requires k < |ys| ==> node.y <= ys[k].y
      modifies `headY, `ys, node`prevY, node`nextY, ys`prevY, ys`nextY
      ensures LinkedY() && SortedY() && ys == old(ys)[..k] + [node] + old(ys)[k..]
    {
      AttachY(node, prev, curr, k);
      ys := ys[..k] + [node] + ys[k..];
      SplicedLinksY(node, k);
      Spliced(old(ys), k, node);
    }

    method AttachY(node: Node, prev: Node?, curr: Node?, ghost k: nat)
      requires LinkedY() && node !in ys && k <= |ys|
      requires curr == At(ys, k) && prev == At(ys, k - 1)
      modifies `headY, node`prevY, node`nextY, ys`prevY, ys`nextY
      ensures node.prevY == prev && node.nextY == curr && headY == if k == 0 then node else old(headY)
      ensures forall i {:trigger ys[i].prevY} :: 0 <= i < |ys| ==>
                ys[i].prevY == if i == k then node else At(ys, i - 1)
      ensures forall i {:trigger ys[i].nextY} :: 0 <= i < |ys| ==>
                ys[i].nextY == if i == k - 1 then node else At(ys, i + 1)
    {
      Neighbours(ys, k);
      node.prevY := prev;
      node.nextY := curr;
      if prev != null {
        prev.nextY := node;
      } else {
        headY := node;
      }
      if curr != null {
        curr.prevY := node;
      }
    }

    twostate lemma SplicedLinksY(new node: Node, new k: nat)
      requires old(LinkedY()) && old(SortedY()) && node !in old(ys) && k <= |old(ys)|
      requires ys == old(ys)[..k] + [node] + old(ys)[k..]
      requires headY == if k == 0 then node else old(headY)
      requires node.prevY == At(old(ys), k - 1) && node.nextY == At(old(ys), k)
      requires forall i {:trigger old(ys)[i].prevY} :: 0 <= i < |old(ys)| ==>
                 old(ys)[i].prevY == if i == k then node else At(old(ys), i - 1)
      requires forall i {:trigger old(ys)[i].nextY} :: 0 <= i < |old(ys)| ==>
                 old(ys)[i].nextY == if i == k - 1 then node else At(old(ys), i + 1)
      requires forall n :: n in old(ys) ==> n.y == old(n.y)
      requires forall i :: 0 <= i < k ==> old(ys)[i].y < node.y
      requires k < |old(ys)| ==> node.y <= old(ys)[k].y
      ensures LinkedY() && SortedY()
    {
      hide SortedY, At;
      Spliced(old(ys), k, node);
      AtZero(ys);
      AtZero(old(ys));
      forall i {:trigger ys[i].prevY} | 0 <= i < |ys| ensures ys[i].prevY == At(ys, i - 1) {
        AtIn(ys, i);
        if i < k { AtIn(old(ys), i); } else if i > k { AtIn(old(ys), i - 1); }
      }
      forall i {:trigger ys[i].nextY} | 0 <= i < |ys| ensures ys[i].nextY == At(ys, i + 1) {
        AtIn(ys, i);
        if i < k { AtIn(old(ys), i); } else if i > k { AtIn(old(ys), i - 1); }
      }
      SplicedSortedY(k, node);
    }

    twostate lemma SplicedSortedY(new k: nat, new node: Node)
      requires old(SortedY()) && k <= |old(ys)| && ys == old(ys)[..k] + [node] + old(ys)[k..]
      requires forall n :: n in old(ys) ==> n.y == old(n.y)
      requires forall i :: 0 <= i < k ==> old(ys)[i].y < node.y
      requires k < |old(ys)| ==> node.y <= old(ys)[k].y
      ensures SortedY()
    {}

    /** The y half of remove_from_lists; the node keeps its own stale links. */
    method RemoveFromYList(node: Node)
      requires LinkedY() && SortedY() && node in ys
      modifies `headY, `ys, ys`prevY, ys`nextY
      ensures LinkedY() && SortedY()
      ensures forall n :: n in ys <==> n in old(ys) && n != node
      ensures node.prevY == old(node.prevY) && node.nextY == old(node.nextY)
      ensures ys == [] ==> node.prevY == null && node.nextY == null
    {
      ghost var k: nat :| k < |ys| && ys[k] == node;
      hide SortedY, At;
      AtEnds(ys, k);
      DetachY(node, k);
      ys := ys[..k] + ys[k + 1..];
      Removed(old(ys), k);
      RemovedLinksY(k);
    }

    method DetachY(node: Node, ghost k: nat)
      requires LinkedY() && k < |ys| && ys[k] == node
      modifies `headY, ys`prevY, ys`nextY
      ensures node.prevY == old(node.prevY) == At(ys, k - 1) && node.nextY == old(node.nextY) == At(ys, k + 1)
      ensures headY == if k == 0 then At(ys, 1) else old(headY)
      ensures forall i {:trigger ys[i].prevY} :: 0 <= i < |ys| && i != k ==>
                ys[i].prevY == if i == k + 1 then At(ys, k - 1) else At(ys, i - 1)
      ensures forall i {:trigger ys[i].nextY} :: 0 <= i < |ys| && i != k ==>
                ys[i].nextY == if i == k - 1 then At(ys, k + 1) else At(ys, i + 1)
    {
      Neighbours(ys, k);
      Neighbours(ys, k + 1);
      if node.prevY != null {
        node.prevY.nextY := node.nextY;
      } else {
        headY := node.nextY;
      }
      if node.nextY != null {
        node.nextY.prevY := node.prevY;
      }
    }

    twostate lemma RemovedLinksY(new k: nat)
      requires old(LinkedY()) && old(SortedY()) && k < |old(ys)|
      requires ys == old(ys)[..k] + old(ys)[k + 1..]
      requires headY == if k == 0 then At(old(ys), 1) else old(headY)
      requires forall i {:trigger old(ys)[i].prevY} :: 0 <= i < |old(ys)| && i != k ==>
                 old(ys)[i].prevY == if i == k + 1 then At(old(ys), k - 1) else At(old(ys), i - 1)
      requires forall i {:trigger old(ys)[i].nextY} :: 0 <= i < |old(ys)| && i != k ==>
                 old(ys)[i].nextY == if i == k - 1 then At(old(ys), k + 1) else At(old(ys), i + 1)
      requires forall n :: n in old(ys) ==> n.y == old(n.y)
      ensures LinkedY() && SortedY()
    {
      hide SortedY, At;
      RemovedAt(old(ys), k);
      AtZero(ys);
      AtZero(old(ys));
      forall i {:trigger ys[i].prevY} | 0 <= i < |ys| ensures ys[i].prevY == At(ys, i - 1) {
        AtIn(ys, i);
        AtIn(old(ys), if i < k then i else i + 1);
      }
      forall i {:trigger ys[i].nextY} | 0 <= i < |ys| ensures ys[i].nextY == At(ys, i + 1) {
        AtIn(ys, i);
        AtIn(old(ys), if i < k then i else i + 1);
      }
      RemovedSortedY(k);
    }

    twostate lemma RemovedSortedY(new k: nat)
      requires old(SortedY()) && k < |old(ys)| && ys == old(ys)[..k] + old(ys)[k + 1..]
      requires forall n :: n in old(ys) ==> n.y == old(n.y)
      ensures SortedY()
    {}

    // -------------------------------------------------------------- operations

    /** Both lists are sound and hold the same nodes. */
    ghost predicate Woven()
      reads `headX, `headY, `xs, `ys, xs, ys
    {
      LinkedX() && SortedX() && LinkedY() && SortedY() && (forall n :: n in xs ==> n in ys) && (forall n :: n in ys ==> n in xs)
    }

    /** Puts a node into both lists. */
    method Insert(node: Node, ghost region: set<Node>)
      requires Woven() && node !in xs && node in region && forall n :: n in xs ==> n in region
      requires xs == [] ==> node.prevX == null && node.nextX == null && node.prevY == null && node.nextY == null
      modifies `headX, `headY, `xs, `ys, region`prevX, region`nextX, region`prevY, region`nextY
      ensures Woven() && forall n :: n in xs <==> n in old(xs) || n == node
    {
      hide LinkedX, LinkedY, SortedX, SortedY;
      assert (ys != [] ==> ys[0] in ys) && (xs != [] ==> xs[0] in xs);
      InsertToXList(node);
      InsertToYList(node);
    }

    /** remove_from_lists. */
    method RemoveFromLists(node: Node)
      requires Woven() && node in xs
      modifies `headX, `headY, `xs, `ys, xs`prevX, xs`nextX, ys`prevY, ys`nextY
      ensures Woven() && forall n :: n in xs <==> n in old(xs) && n != node
      ensures xs == [] ==> node.prevX == null && node.nextX == null && node.prevY == null && node.nextY == null
    {
      hide LinkedX, LinkedY, SortedX, SortedY;
      RemoveFromXList(node);
      RemoveFromYList(node);
      assert ys != [] ==> ys[0] in ys;
    }

    lemma ValidIsWoven()
      requires Members() && LinkedX() && SortedX() && LinkedY() && SortedY()
      ensures Woven()
    {}

    method AddEntity(entity: Entity) returns (added: bool)
      requires Valid()
      modifies this, xs`prevX, xs`nextX, ys`prevY, ys`nextY
      ensures Valid()
      ensures added <==> entity.id != 0 && entity.id !in old(nodes)
      ensures Entities() == if added then old(Entities())[entity.id := entity] else old(Entities())
    {
      hide LinkedX, LinkedY, SortedX, SortedY, Members;
      if entity.id == 0 || entity.id in nodes {
        return false;
      }
      ValidIsWoven();
      var node := new Node(entity);
      Insert(node, {node} + set n | n in xs);
      nodes := nodes[entity.id := node];
      AddedMember(node);
      return true;
    }

    twostate lemma AddedMember(new node: Node)
      requires old(Members()) && Woven() && fresh(node) && node.id !in old(nodes) && nodes == old(nodes)[node.id := node]
      requires forall n :: n in xs <==> n in old(xs) || n == node
      requires forall id :: id in old(nodes) ==> nodes[id].x == old(nodes[id].x) && nodes[id].y == old(nodes[id].y)
      ensures Members() && Entities() == old(Entities())[node.id := Entity(node.id, node.x, node.y)]
    {
      hide LinkedX, LinkedY, SortedX, SortedY;
    }

    method RemoveEntity(id: nat) returns (removed: bool)
      requires Valid()
      modifies this, xs`prevX, xs`nextX, ys`prevY, ys`nextY
      ensures Valid()
      ensures removed <==> id in old(nodes)
      ensures Entities() == old(Entities()) - {id}
    {
      hide LinkedX, LinkedY, SortedX, SortedY;
      if id !in nodes {
        return false;
      }
      ValidIsWoven();
      var node := nodes[id];
      RemoveFromLists(node);
      nodes := nodes - {id};
      assert Entities() == old(Entities()) - {id};
      return true;
    }

    /** update_entity: out of both lists, moved, and back in at its new places. */
    method UpdateEntity(id: nat, newX: int, newY: int) returns (updated: bool)
      requires Valid()
      modifies this, xs, ys
      ensures Valid()
      ensures updated <==> id in old(nodes)
      ensures Entities() == if updated then old(Entities())[id := Entity(id, newX, newY)] else old(Entities())
    {
      hide LinkedX, LinkedY, SortedX, SortedY, Members, Entities;
      if id !in nodes {
        return false;
      }
      ValidIsWoven();
      MemberInLists(id);
      var node := nodes[id];
      ghost var region := set n | n in xs;
      RemoveFromLists(node);
      Shift(node, newX, newY);
      Insert(node, region);
      MovedMember(id);
      return true;
    }

    lemma MemberInLists(id: nat)
      requires Members() && id in nodes
      ensures nodes[id] in xs && nodes[id] in ys && nodes[id].id == id
    {}

    twostate lemma MovedMember(id: nat)
      requires old(Members()) && Woven() && id in old(nodes) && nodes == old(nodes)
      requires forall n :: n in xs <==> n in old(xs)
      requires forall i :: i in nodes && nodes[i] != nodes[id] ==> nodes[i].x == old(nodes[i].x) && nodes[i].y == old(nodes[i].y)
      ensures Members() && Entities() == old(Entities())[id := Entity(id, nodes[id].x, nodes[id].y)]
    {
      hide LinkedX, LinkedY, SortedX, SortedY;
    }

    method Shift(node: Node, newX: int, newY: int)
      requires Woven() && node !in xs
      modifies node`x, node`y
      ensures Woven() && node.x == newX && node.y == newY
    {
      node.x := newX;
      node.y := newY;
    }

    /** get_entities_in_view: the walk along the x list may stop early and still returns every
      entity in range, once. */
    method GetEntitiesInView(x: int, y: int) returns (result: seq<Entity>)
      requires Valid()
      ensures forall e :: e in result <==>
        && e.id in nodes && e == Entity(e.id, nodes[e.id].x, nodes[e.id].y)
        && x - viewRange <= e.x <= x + viewRange && y - viewRange <= e.y <= y + viewRange
      ensures forall i, j :: 0 <= i < j < |result| ==> result[i].id != result[j].id
    {
      UniqueIds();
      result := [];
      var minX, maxX := x - viewRange, x + viewRange;
      var minY, maxY := y - viewRange, y + viewRange;
      var curr := headX;
      ghost var k: nat, passed: set<nat> := 0, {};
      while curr != null
        invariant k <= |xs| && curr == At(xs, k)
        invariant forall i :: 0 <= i < k ==> xs[i].id in passed
        invariant forall i :: k <= i < |xs| ==> xs[i].id !in passed
        invariant forall e :: e in result <==>
          e.id in passed && e.id in nodes && e == EntityOf(nodes[e.id]) && InRange(x, y, viewRange, e)
        invariant forall i, j :: 0 <= i < j < |result| ==> result[i].id != result[j].id
        decreases |xs| - k
      {
        if curr.x > maxX {
          break;
        }
        assert curr == xs[k] && nodes[curr.id] == curr;
        if curr.x >= minX && curr.y >= minY && curr.y <= maxY {
          result := result + [Entity(curr.id, curr.x, curr.y)];
        }
        passed := passed + {curr.id};
        curr := curr.nextX;
        k := k + 1;
      }
      AllPassed(k, passed, x, y);
    }

    lemma UniqueIds()
      requires LinkedX() && Members()
      ensures forall i, j :: 0 <= i < j < |xs| ==> xs[i].id != xs[j].id
    {}

    /** Nodes at or behind a node beyond the range are beyond the range. */
    lemma AllPassed(k: nat, passed: set<nat>, x: int, y: int)
      requires LinkedX() && SortedX() && Members() && k <= |xs|
      requires k < |xs| ==> xs[k].x > x + viewRange
      requires forall i :: 0 <= i < k ==> xs[i].id in passed
      ensures forall id :: id in nodes && InRange(x, y, viewRange, EntityOf(nodes[id])) ==> id in passed
    {
      assert forall i :: k <= i < |xs| ==> xs[i].x > x + viewRange;
      forall id | id in nodes ensures InRange(x, y, viewRange, EntityOf(nodes[id])) ==> id in passed {
        var i :| 0 <= i < |xs| && xs[i] == nodes[id];
      }
    }

    /** The same around a stored entity; nothing for an unknown watcher. */
    method GetEntitiesInViewOf(watcher: nat) returns (result: seq<Entity>)
      requires Valid()
      ensures watcher !in nodes ==> result == []
      ensures forall i, j :: 0 <= i < j < |result| ==> result[i].id != result[j].id
      ensures watcher in nodes ==> forall e :: e in result <==>
        && e.id in nodes && e == Entity(e.id, nodes[e.id].x, nodes[e.id].y)
        && nodes[watcher].x - viewRange <= e.x <= nodes[watcher].x + viewRange
        && nodes[watcher].y - viewRange <= e.y <= nodes[watcher].y + viewRange
    {
      if watcher !in nodes {
        return [];
      }
      result := GetEntitiesInView(nodes[watcher].x, nodes[watcher].y);
    }

    ghost function EntityOf(n: Node): Entity
      reads n`x, n`y
    {
      Entity(n.id, n.x, n.y)
    }
  }
}
