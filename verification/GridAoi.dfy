/** The grid index of src/aoi/aoi.cpp and its stream of ENTER and LEAVE events. */
module GridAois {

  import opened Wrappers
  import opened AoiEntities
  import opened Arithmetic

  datatype Config = Config(mapWidth: int, mapHeight: int, gridSize: int, viewRange: int) {
    ghost predicate Ok() { 1 <= mapWidth && 1 <= mapHeight && 1 <= gridSize }

    function XCount(): int requires gridSize > 0 { (mapWidth + gridSize - 1) / gridSize }

    function YCount(): int requires gridSize > 0 { (mapHeight + gridSize - 1) / gridSize }
  }

  datatype Cell = Cell(gx: int, gy: int)

  /** A rectangle of cells, borders included. */
  datatype Rect = Rect(minX: int, minY: int, maxX: int, maxY: int)

  datatype Event =
    | Enter(watcher: nat, target: nat, x: int, y: int)
    | Leave(watcher: nat, target: nat)
    | Move(watcher: nat, target: nat, oldX: int, oldY: int, x: int, y: int)

  // ---------------------------------------------------------------- cells

  /** Integer division as the source has it: the fraction is cut off towards zero. */
  function Truncated(a: int, b: int): int
    requires b > 0
  {
    if a >= 0 then a / b else -((-a) / b)
  }

  function Clamp(v: int, count: int): int {
    var low := if v < count - 1 then v else count - 1;
    if 0 > low then 0 else low
  }

  function PosToGrid(c: Config, x: int, y: int): Cell
    requires c.gridSize > 0
  {
    Cell(Clamp(Truncated(x, c.gridSize), c.XCount()), Clamp(Truncated(y, c.gridSize), c.YCount()))
  }

  function Max(a: int, b: int): int { if a > b then a else b }

  function Min(a: int, b: int): int { if a < b then a else b }

  function GridsInView(c: Config, x: int, y: int): Rect
    requires c.gridSize > 0
  {
    var center := PosToGrid(c, x, y);
    Rect(Max(0, center.gx - c.viewRange), Max(0, center.gy - c.viewRange),
         Min(c.XCount() - 1, center.gx + c.viewRange), Min(c.YCount() - 1, center.gy + c.viewRange))
  }

  predicate Within(r: Rect, cell: Cell) {
    r.minX <= cell.gx <= r.maxX && r.minY <= cell.gy <= r.maxY
  }

  predicate Skipped(except: Option<Rect>, cell: Cell) {
    except.Some? && Within(except.value, cell)
  }

  ghost predicate OnMap(c: Config, cell: Cell)
    requires c.gridSize > 0
  {
    0 <= cell.gx < c.XCount() && 0 <= cell.gy < c.YCount()
  }

  /** The cells differ by at most the view range on both axes. */
  ghost predicate Near(c: Config, a: Cell, b: Cell) {
    -c.viewRange <= a.gx - b.gx <= c.viewRange && -c.viewRange <= a.gy - b.gy <= c.viewRange
  }

  lemma Counts(c: Config)
    requires c.Ok()
    ensures 1 <= c.XCount() && 1 <= c.YCount()
  {}

  /** Every position, on the map or off it, has a cell on the map. */
  lemma AlwaysOnMap(c: Config, x: int, y: int)
    requires c.Ok()
    ensures OnMap(c, PosToGrid(c, x, y))
  {
    Counts(c);
  }

  /** The view rectangle holds exactly the map cells near the centre. */
  lemma ViewIsNear(c: Config, x: int, y: int, cell: Cell)
    requires c.Ok() && OnMap(c, cell)
    ensures Within(GridsInView(c, x, y), cell) <==> Near(c, cell, PosToGrid(c, x, y))
  {}

  /** The columns cover the map and none of them lies beyond it. */
  lemma {:induction false} Cover(size: int, extent: int)
    requires 1 <= size && 1 <= extent
    ensures var count := (extent + size - 1) / size; (count - 1) * size < extent <= count * size
  {
    Quotient(extent + size - 1, size);
  }

  lemma Quotient(a: int, b: int)
    requires b > 0
    ensures a / b * b <= a < a / b * b + b
  {}

  lemma CountsCover(c: Config)
    requires c.Ok()
    ensures (c.XCount() - 1) * c.gridSize < c.mapWidth <= c.XCount() * c.gridSize
    ensures (c.YCount() - 1) * c.gridSize < c.mapHeight <= c.YCount() * c.gridSize
  {
    Cover(c.gridSize, c.mapWidth);
    Cover(c.gridSize, c.mapHeight);
  }

  /** A position belongs to exactly one cell: the one whose columns and rows it lies in, where the
    first and the last reach out beyond the map. */
  lemma CellIff(c: Config, x: int, y: int, cell: Cell)
    requires c.Ok()
    ensures PosToGrid(c, x, y) == cell <==>
              && 0 <= cell.gx < c.XCount() && 0 <= cell.gy < c.YCount()
              && (cell.gx == 0 || cell.gx * c.gridSize <= x) && (cell.gx == c.XCount() - 1 || x < (cell.gx + 1) * c.gridSize)
              && (cell.gy == 0 || cell.gy * c.gridSize <= y) && (cell.gy == c.YCount() - 1 || y < (cell.gy + 1) * c.gridSize)
  {
    Counts(c);
    ColumnIff(c.gridSize, c.XCount(), x, cell.gx);
    ColumnIff(c.gridSize, c.YCount(), y, cell.gy);
  }

  lemma ColumnIff(size: int, count: int, v: int, g: int)
    requires 1 <= size && 1 <= count
    ensures Clamp(Truncated(v, size), count) == g <==>
              0 <= g < count && (g == 0 || g * size <= v) && (g == count - 1 || v < (g + 1) * size)
  {
    ColumnOf(size, count, v);
    var c := Clamp(Truncated(v, size), count);
    hide *;
    if 0 <= g < count && (g == 0 || g * size <= v) && (g == count - 1 || v < (g + 1) * size) {
      if g < c { MulMono(g + 1, c, size); }
      if c < g { MulMono(c + 1, g, size); }
    }
  }

  lemma ColumnOf(size: int, count: int, v: int)
    requires 1 <= size && 1 <= count
    ensures var g := Clamp(Truncated(v, size), count);
            0 <= g < count && (g == 0 || g * size <= v) && (g == count - 1 || v < (g + 1) * size)
  {
    if v < 0 {
      OffMap(size, count, v);
    } else {
      var q := v / size;
      Quotient(v, size);
      assert (q + 1) * size == q * size + size;
      if q < 0 { MulMono(q + 1, 0, size); }
      if count - 1 < q { MulMono(count - 1, q, size); }
    }
  }

  lemma OffMap(size: int, count: int, v: int)
    requires 1 <= size && 1 <= count && v < 0
    ensures Clamp(Truncated(v, size), count) == 0 && v < 1 * size
  {
    Quotient(-v, size);
    if (-v) / size < 0 { MulMono((-v) / size + 1, 0, size); }
  }

  /** Of two places on the map, at most the view range in cell sizes apart on both axes, each is near
    the other; one more cell size apart on some axis, they are not. */
  lemma NearInCoordinates(c: Config, x: int, y: int, u: int, v: int)
    requires c.Ok() && 0 <= x < c.mapWidth && 0 <= u < c.mapWidth && 0 <= y < c.mapHeight && 0 <= v < c.mapHeight
    ensures var d := c.viewRange * c.gridSize;
            -d <= x - u <= d && -d <= y - v <= d ==> Near(c, PosToGrid(c, x, y), PosToGrid(c, u, v))
    ensures var d := (c.viewRange + 1) * c.gridSize;
            x - u >= d || u - x >= d || y - v >= d || v - y >= d ==> !Near(c, PosToGrid(c, x, y), PosToGrid(c, u, v))
  {
    CountsCover(c);
    ColumnsApart(c.gridSize, c.XCount(), x, u, c.viewRange);
    ColumnsApart(c.gridSize, c.XCount(), u, x, c.viewRange);
    ColumnsApart(c.gridSize, c.YCount(), y, v, c.viewRange);
    ColumnsApart(c.gridSize, c.YCount(), v, y, c.viewRange);
  }

  lemma ColumnsApart(size: int, count: int, x: int, u: int, range: int)
    requires 1 <= size && 1 <= count && 0 <= x < count * size && 0 <= u < count * size
    ensures var g, h := Clamp(Truncated(x, size), count), Clamp(Truncated(u, size), count);
            (x - u <= range * size ==> g - h <= range) && (x - u >= (range + 1) * size ==> g - h > range)
  {
    var g, h := Clamp(Truncated(x, size), count), Clamp(Truncated(u, size), count);
    OnMapColumn(size, count, x);
    OnMapColumn(size, count, u);
    hide Clamp, Truncated;
    Apart(size, g, h, range, x, u);
  }

  lemma OnMapColumn(size: int, count: int, x: int)
    requires 1 <= size && 1 <= count && 0 <= x < count * size
    ensures var g := Clamp(Truncated(x, size), count); g * size <= x < g * size + size
  {
    var g := Clamp(Truncated(x, size), count);
    ColumnIff(size, count, x, g);
    assert (g + 1) * size == g * size + size;
  }

  lemma Apart(size: int, g: int, h: int, range: int, x: int, u: int)
    requires 1 <= size && g * size <= x < g * size + size && h * size <= u < h * size + size
    ensures x - u <= range * size ==> g - h <= range
    ensures x - u >= (range + 1) * size ==> g - h > range
  {
    assert (range + 1) * size == range * size + size;
    assert (h + range + 1) * size == h * size + range * size + size && (h + range) * size == h * size + range * size;
    if g - h > range { MulMono(h + range + 1, g, size); } else { MulMono(g, h + range, size); }
  }

  function GridIndex(c: Config, cell: Cell): int
    requires c.gridSize > 0
  {
    cell.gy * c.XCount() + cell.gx
  }

  lemma IndexInRange(width: int, height: int, x: int, y: int)
    requires 0 <= x < width && 0 <= y < height
    ensures 0 <= y * width + x < height * width
  {
    MulMono(0, y, width);
    MulMono(y + 1, height, width);
    assert (y + 1) * width == y * width + width;
  }

  lemma IndexInjective(width: int, x: int, y: int, u: int, v: int)
    requires 0 <= x < width && 0 <= u < width && y * width + x == v * width + u
    ensures x == u && y == v
  {
    if y > v { MulMono(v + 1, y, width); } else if v > y { MulMono(y + 1, v, width); }
  }

  lemma GridIndexOk(c: Config, a: Cell, b: Cell)
    requires c.Ok() && OnMap(c, a) && OnMap(c, b)
    ensures 0 <= GridIndex(c, a) < c.YCount() * c.XCount()
    ensures GridIndex(c, a) == GridIndex(c, b) <==> a == b
  {
    IndexInRange(c.XCount(), c.YCount(), a.gx, a.gy);
    if GridIndex(c, a) == GridIndex(c, b) {
      IndexInjective(c.XCount(), a.gx, a.gy, b.gx, b.gy);
    }
  }

  // ---------------------------------------------------------------- the event stream

  /** Why a walk tells about an entity, with the coordinates its events carry. */
  datatype Kind = Arrives(x: int, y: int) | Departs | Loses | Gains(x: int, y: int)
                | Stays(oldX: int, oldY: int, x: int, y: int)

  /** An unordered pair of ids. */
  datatype Pair = Pair(low: nat, high: nat)

  function Unordered(a: nat, b: nat): Pair {
    if a < b then Pair(a, b) else Pair(b, a)
  }

  /** What a listener knows who inserts on ENTER and deletes on LEAVE. */
  ghost function Fold(events: seq<Event>): set<Pair> {
    if events == [] then {} else Applied(Fold(events[..|events| - 1]), events[|events| - 1])
  }

  ghost function Applied(known: set<Pair>, e: Event): set<Pair> {
    match e
    case Enter(w, t, _, _) => known + {Unordered(w, t)}
    case Leave(w, t) => known - {Unordered(w, t)}
    case Move(_, _, _, _, _, _) => known
  }

  lemma FoldSnoc(events: seq<Event>, e: Event)
    ensures Fold(events + [e]) == Applied(Fold(events), e)
  {
    assert (events + [e])[..|events|] == events;
  }

  ghost function Changed(kind: Kind, known: set<Pair>, pairs: set<Pair>): set<Pair> {
    match kind
    case Arrives(_, _) => known + pairs
    case Gains(_, _) => known + pairs
    case Departs => known - pairs
    case Loses => known - pairs
    case Stays(_, _, _, _) => known
  }

  /** The pairs of `id` with the other members of a set. */
  ghost function PairsWith(id: nat, others: set<nat>): set<Pair> {
    set o | o in others && o != id :: Unordered(o, id)
  }

  lemma PairsWithUnion(id: nat, a: set<nat>, b: set<nat>)
    ensures PairsWith(id, a + b) == PairsWith(id, a) + PairsWith(id, b)
    ensures PairsWith(id, {}) == {}
  {
    assert forall o :: o in a + b <==> o in a || o in b;
  }

  /** The pairs of distinct stored entities whose cells are near each other. */
  ghost predicate Seen(c: Config, entities: map<nat, Entity>, p: Pair)
    requires c.gridSize > 0
  {
    && p.low < p.high && p.low in entities && p.high in entities
    && Near(c, PosToGrid(c, entities[p.low].x, entities[p.low].y), PosToGrid(c, entities[p.high].x, entities[p.high].y))
  }

  /** Who is near a place. */
  ghost predicate NearBy(c: Config, entities: map<nat, Entity>, o: nat, x: int, y: int)
    requires c.gridSize > 0
  {
    o in entities && Near(c, PosToGrid(c, entities[o].x, entities[o].y), PosToGrid(c, x, y))
  }

  ghost predicate OnTheMap(c: Config, e: Entity) {
    0 <= e.x < c.mapWidth && 0 <= e.y < c.mapHeight
  }

  /** Who sees whom on the map, in coordinates: certainly those at most the view range in cell sizes
    apart on both axes, and certainly not those one cell size farther apart on some axis. */
  lemma SightInCoordinates(c: Config, entities: map<nat, Entity>, p: nat, q: nat)
    requires c.Ok() && p in entities && q in entities && p < q
    requires OnTheMap(c, entities[p]) && OnTheMap(c, entities[q])
    ensures var a, b, d := entities[p], entities[q], c.viewRange * c.gridSize;
            -d <= a.x - b.x <= d && -d <= a.y - b.y <= d ==>
              Seen(c, entities, Pair(p, q)) && NearBy(c, entities, p, b.x, b.y) && NearBy(c, entities, q, a.x, a.y)
    ensures var a, b, d := entities[p], entities[q], (c.viewRange + 1) * c.gridSize;
            a.x - b.x >= d || b.x - a.x >= d || a.y - b.y >= d || b.y - a.y >= d ==>
              !Seen(c, entities, Pair(p, q)) && !NearBy(c, entities, p, b.x, b.y) && !NearBy(c, entities, q, a.x, a.y)
  {
    var a, b := entities[p], entities[q];
    NearInCoordinates(c, a.x, a.y, b.x, b.y);
    NearInCoordinates(c, b.x, b.y, a.x, a.y);
    hide PosToGrid, Near;
  }

  lemma FoldAbout(events: seq<Event>, kind: Kind, entities: map<nat, Entity>, id: nat, other: nat)
    ensures Fold(events + About(kind, entities, id, other)) == Changed(kind, Fold(events), {Unordered(other, id)})
  {
    var about := About(kind, entities, id, other);
    FoldSnoc(events, about[0]);
    if |about| == 1 {
      assert events + about == events + [about[0]];
    } else {
      assert events + about == events + [about[0]] + [about[1]];
      FoldSnoc(events + [about[0]], about[1]);
    }
  }

  lemma NothingChanged(kind: Kind, known: set<Pair>, id: nat)
    ensures Changed(kind, known, PairsWith(id, {})) == known && Changed(kind, known, {}) == known
  {}

  lemma ChangedTwice(kind: Kind, known: set<Pair>, a: set<Pair>, b: set<Pair>)
    ensures Changed(kind, Changed(kind, known, a), b) == Changed(kind, known, a + b)
  {}

  ghost function InSight(c: Config, entities: map<nat, Entity>, x: int, y: int): set<nat>
    requires c.gridSize > 0
  {
    set o | o in entities && NearBy(c, entities, o, x, y)
  }

  /** The events about `id` and one other entity. Arrivals and departures are told to the other
    only; those who lose or find each other are both told, each of the other's place. */
  ghost function About(kind: Kind, entities: map<nat, Entity>, id: nat, o: nat): seq<Event> {
    match kind
    case Arrives(x, y) => [Enter(o, id, x, y)]
    case Departs => [Leave(o, id)]
    case Loses => [Leave(o, id), Leave(id, o)]
    case Gains(x, y) =>
      [Enter(o, id, x, y)] + if o in entities then [Enter(id, o, entities[o].x, entities[o].y)] else []
    case Stays(oldX, oldY, x, y) => [Move(o, id, oldX, oldY, x, y)]
  }

  /** An event due when `id` and the others in `told` are concerned. */
  ghost predicate Due(kind: Kind, entities: map<nat, Entity>, id: nat, told: set<nat>, e: Event) {
    var o := if e.watcher == id then e.target else e.watcher;
    o != id && o in told && e in About(kind, entities, id, o)
  }

  /** Every event due has been sent once more, and no other. */
  ghost predicate OnceMore(before: seq<Event>, after: seq<Event>, kind: Kind, entities: map<nat, Entity>, id: nat,
                           told: set<nat>)
  {
    forall e :: multiset(after)[e] == multiset(before)[e] + if Due(kind, entities, id, told, e) then 1 else 0
  }

  lemma NoneDue(events: seq<Event>, kind: Kind, entities: map<nat, Entity>, id: nat)
    ensures OnceMore(events, events, kind, entities, id, {})
  {}

  lemma IdNotDue(events: seq<Event>, kind: Kind, entities: map<nat, Entity>, id: nat)
    ensures OnceMore(events, events, kind, entities, id, {id})
  {}

  lemma OneDue(events: seq<Event>, kind: Kind, entities: map<nat, Entity>, id: nat, other: nat)
    requires other != id
    ensures OnceMore(events, events + About(kind, entities, id, other), kind, entities, id, {other})
  {
    var about := About(kind, entities, id, other);
    assert |about| == 2 ==> about == [about[0], about[1]] && about[0] != about[1];
    assert |about| == 1 ==> about == [about[0]];
    assert multiset(events + about) == multiset(events) + multiset(about);
  }

  lemma DueTogether(a: seq<Event>, b: seq<Event>, c: seq<Event>, kind: Kind, entities: map<nat, Entity>, id: nat,
                    s: set<nat>, t: set<nat>)
    requires OnceMore(a, b, kind, entities, id, s) && OnceMore(b, c, kind, entities, id, t)
    requires forall o :: o in s && o in t ==> o == id
    ensures OnceMore(a, c, kind, entities, id, s + t)
  {
    hide About;
    forall e ensures multiset(c)[e] == multiset(a)[e] + if Due(kind, entities, id, s + t, e) then 1 else 0 {
      assert multiset(b)[e] == multiset(a)[e] + if Due(kind, entities, id, s, e) then 1 else 0;
    }
  }

  // ---------------------------------------------------------------- the index

  ghost function CellOfEntity(c: Config, e: Entity): Cell
    requires c.gridSize > 0
  {
    PosToGrid(c, e.x, e.y)
  }

  /** An id is in cell g exactly if it is stored and g is the cell of its position. */
  ghost predicate Fits(c: Config, entities: map<nat, Entity>, grids: seq<set<nat>>, entityToGrid: map<nat, int>)
  {
    && c.Ok()
    && |grids| == c.YCount() * c.XCount()
    && entityToGrid.Keys == entities.Keys
    && (forall id :: id in entities ==>
          entities[id].id == id && entityToGrid[id] == GridIndex(c, CellOfEntity(c, entities[id])))
    && (forall g, id :: 0 <= g < |grids| ==> (id in grids[g] <==> id in entities && entityToGrid[id] == g))
  }

  class GridAoi {
    const config: Config
    /** A callback was installed before the first operation. */
    const callback: bool
    var entities: map<nat, Entity>
    var grids: seq<set<nat>>
    var entityToGrid: map<nat, int>
    /** What the callback has been told. */
    var events: seq<Event>

    ghost function CellOf(id: nat): Cell
      requires config.gridSize > 0 && id in entities
      reads this`entities
    {
      CellOfEntity(config, entities[id])
    }

    ghost predicate Indexed()
      reads this`entities, this`grids, this`entityToGrid
    {
      Fits(config, entities, grids, entityToGrid)
    }

    /** The listener knows exactly the pairs that see each other. */
    ghost predicate Told()
      requires config.gridSize > 0
      reads this`entities, this`events
    {
      callback ==> forall p :: p in Fold(events) <==> Seen(config, entities, p)
    }

    ghost predicate Valid()
      reads this
    {
      Indexed() && Told()
    }

    constructor (config: Config, callback: bool)
      requires config.Ok()
      ensures Valid() && entities == map[] && this.config == config && this.callback == callback && events == []
    {
      Counts(config);
      IndexInRange(config.XCount(), config.YCount(), 0, 0);
      this.config, this.callback := config, callback;
      entities, entityToGrid, events := map[], map[], [];
      grids := seq(config.YCount() * config.XCount(), _ => {});
    }

    /** The members of one map cell are the entities whose position lies in it. */
    lemma InCell(cell: Cell)
      requires Indexed() && OnMap(config, cell)
      ensures 0 <= GridIndex(config, cell) < |grids|
      ensures forall id :: id in grids[GridIndex(config, cell)] <==> id in entities && CellOf(id) == cell
    {
      GridIndexOk(config, cell, cell);
      forall id | id in entities ensures id in grids[GridIndex(config, cell)] <==> CellOf(id) == cell {
        AlwaysOnMap(config, entities[id].x, entities[id].y);
        GridIndexOk(config, cell, CellOf(id));
      }
    }

    // -------------------------------------------------------------- events

    /** One cell of a walk: tells the callback about `id` and every other member. */
    method TellCell(members: set<nat>, id: nat, kind: Kind)
      modifies this`events
      ensures Fold(events) == Changed(kind, old(Fold(events)), PairsWith(id, members))
      ensures OnceMore(old(events), events, kind, entities, id, members)
    {
      hide OnceMore, Fold, Changed;
      var left := members;
      ghost var done: set<nat> := {};
      PairsWithUnion(id, {}, {});
      NothingChanged(kind, Fold(events), id);
      NoneDue(events, kind, entities, id);
      while left != {}
        invariant done + left == members && done !! left
        invariant Fold(events) == Changed(kind, old(Fold(events)), PairsWith(id, done))
        invariant OnceMore(old(events), events, kind, entities, id, done)
        decreases left
      {
        var other :| other in left;
        ghost var sent := events;
        if other != id {
          Tell(other, id, kind);
        } else {
          IdNotDue(events, kind, entities, id);
          NothingChanged(kind, Fold(events), id);
        }
        PairsWithUnion(id, done, {other});
        OnePair(id, other);
        ChangedTwice(kind, old(Fold(events)), PairsWith(id, done), PairsWith(id, {other}));
        DueTogether(old(events), sent, events, kind, entities, id, done, {other});
        left, done := left - {other}, done + {other};
      }
      assert done == members;
    }

    /** The events about one other entity. */
    method Tell(other: nat, id: nat, kind: Kind)
      requires other != id
      modifies this`events
      ensures Fold(events) == Changed(kind, old(Fold(events)), {Unordered(other, id)})
      ensures OnceMore(old(events), events, kind, entities, id, {other})
    {
      hide OnceMore, Fold, Changed;
      OneDue(events, kind, entities, id, other);
      FoldAbout(events, kind, entities, id, other);
      match kind
      case Arrives(x, y) =>
        events := events + [Enter(other, id, x, y)];
      case Departs =>
        events := events + [Leave(other, id)];
      case Loses =>
        events := events + [Leave(other, id)];
        events := events + [Leave(id, other)];
        assert events == old(events) + [Leave(other, id), Leave(id, other)];
      case Gains(x, y) =>
        events := events + [Enter(other, id, x, y)];
        if other in entities {
          var e := entities[other];
          events := events + [Enter(id, other, e.x, e.y)];
          assert events == old(events) + ([Enter(other, id, x, y)] + [Enter(id, other, e.x, e.y)]);
        } else {
          assert events == old(events) + ([Enter(other, id, x, y)] + []);
        }
      case Stays(oldX, oldY, x, y) =>
        events := events + [Move(other, id, oldX, oldY, x, y)];
    }

    /** Walks the cells of `area` that lie outside `except`, row by row. */
    method Walk(area: Rect, except: Option<Rect>, id: nat, kind: Kind) returns (ghost told: set<nat>)
      requires config.Ok() && Indexed() && 0 <= area.minX && 0 <= area.minY
      requires area.maxX < config.XCount() && area.maxY < config.YCount()
      modifies this`events
      ensures Fold(events) == Changed(kind, old(Fold(events)), PairsWith(id, told))
      ensures OnceMore(old(events), events, kind, entities, id, told)
      ensures forall o :: o in told <==> o in entities && Within(area, CellOf(o)) && !Skipped(except, CellOf(o))
    {
      hide Fold, Indexed, PosToGrid, GridIndex, OnceMore, Changed, PairsWith;
      told := {};
      PairsWithUnion(id, {}, {});
      NothingChanged(kind, Fold(events), id);
      NoneDue(events, kind, entities, id);
      var gy := area.minY;
      while gy <= area.maxY
        invariant area.minY <= gy
        invariant Fold(events) == Changed(kind, old(Fold(events)), PairsWith(id, told))
        invariant OnceMore(old(events), events, kind, entities, id, told)
        invariant forall o :: o in told <==>
          o in entities && Within(area, CellOf(o)) && !Skipped(except, CellOf(o)) && CellOf(o).gy < gy
        decreases area.maxY - gy
      {
        ghost var sent := events;
        ghost var row := WalkRow(area, gy, except, id, kind);
        PairsWithUnion(id, told, row);
        ChangedTwice(kind, old(Fold(events)), PairsWith(id, told), PairsWith(id, row));
        DueTogether(old(events), sent, events, kind, entities, id, told, row);
        told := told + row;
        gy := gy + 1;
      }
    }

    method WalkRow(area: Rect, gy: int, except: Option<Rect>, id: nat, kind: Kind) returns (ghost told: set<nat>)
      requires config.Ok() && Indexed() && 0 <= area.minX && area.maxX < config.XCount() && 0 <= gy < config.YCount()
      requires area.minY <= gy <= area.maxY
      modifies this`events
      ensures Fold(events) == Changed(kind, old(Fold(events)), PairsWith(id, told))
      ensures OnceMore(old(events), events, kind, entities, id, told)
      ensures forall o :: o in told <==>
        o in entities && Within(area, CellOf(o)) && !Skipped(except, CellOf(o)) && CellOf(o).gy == gy
    {
      hide Fold, Indexed, PosToGrid, OnceMore, Changed, PairsWith;
      told := {};
      PairsWithUnion(id, {}, {});
      NothingChanged(kind, Fold(events), id);
      NoneDue(events, kind, entities, id);
      var gx := area.minX;
      while gx <= area.maxX
        invariant area.minX <= gx
        invariant Fold(events) == Changed(kind, old(Fold(events)), PairsWith(id, told))
        invariant OnceMore(old(events), events, kind, entities, id, told)
        invariant forall o :: o in told <==>
          o in entities && Within(area, CellOf(o)) && !Skipped(except, CellOf(o)) && CellOf(o).gy == gy && CellOf(o).gx < gx
        decreases area.maxX - gx
      {
        if !Skipped(except, Cell(gx, gy)) {
          InCell(Cell(gx, gy));
          var members := grids[GridIndex(config, Cell(gx, gy))];
          ghost var sent := events;
          TellCell(members, id, kind);
          PairsWithUnion(id, told, members);
          ChangedTwice(kind, old(Fold(events)), PairsWith(id, told), PairsWith(id, members));
          DueTogether(old(events), sent, events, kind, entities, id, told, members);
          told := told + members;
        }
        gx := gx + 1;
      }
    }

    // -------------------------------------------------------------- operations

    /** add_entity: everybody who sees the place is told of the arrival. */
    method AddEntity(entity: Entity) returns (added: bool)
      requires Valid()
      modifies `entities, `grids, `entityToGrid, `events
      ensures Valid()
      ensures added <==> entity.id != 0 && entity.id !in old(entities)
      ensures entities == if added then old(entities)[entity.id := entity] else old(entities)
      ensures !added || !callback ==> events == old(events)
      ensures added && callback ==>
                forall e :: multiset(events)[e] == multiset(old(events))[e] +
                              (if && e == Enter(e.watcher, entity.id, entity.x, entity.y) && e.watcher != entity.id
                                  && NearBy(config, entities, e.watcher, entity.x, entity.y) then 1 else 0)
    {
      if entity.id == 0 {
        return false;
      }
      if entity.id in entities {
        return false;
      }
      Place(entity);
      if callback {
        var view := GridsInView(config, entity.x, entity.y);
        ViewOnMap(entity.x, entity.y);
        ghost var told := Walk(view, None, entity.id, Arrives(entity.x, entity.y));
        EveryoneInView(view, None, told, entity.x, entity.y);
        ArrivalTold(old(entities), entity, told, old(Fold(events)));
      }
      return true;
    }

    /** Stores a new entity under its cell. */
    method Place(entity: Entity)
      requires Indexed() && entity.id !in entities
      modifies `entities, `grids, `entityToGrid
      ensures Indexed() && entities == old(entities)[entity.id := entity]
    {
      hide PosToGrid, GridIndex;
      var cell := PosToGrid(config, entity.x, entity.y);
      AlwaysOnMap(config, entity.x, entity.y);
      GridIndexOk(config, cell, cell);
      var idx := GridIndex(config, cell);
      entities := entities[entity.id := entity];
      grids := grids[idx := grids[idx] + {entity.id}];
      entityToGrid := entityToGrid[entity.id := idx];
    }

    /** remove_entity: everybody who sees the place is told of the departure. */
    method RemoveEntity(id: nat) returns (removed: bool)
      requires Valid()
      modifies `entities, `grids, `entityToGrid, `events
      ensures Valid()
      ensures removed <==> id in old(entities)
      ensures entities == old(entities) - {id}
      ensures !removed || !callback ==> events == old(events)
      ensures removed && callback ==>
                forall e :: multiset(events)[e] == multiset(old(events))[e] +
                              (if && e == Leave(e.watcher, id) && e.watcher != id
                                  && NearBy(config, old(entities), e.watcher, old(entities)[id].x, old(entities)[id].y)
                               then 1 else 0)
    {
      if id !in entities {
        return false;
      }
      var entity := entities[id];
      if callback {
        var view := GridsInView(config, entity.x, entity.y);
        ViewOnMap(entity.x, entity.y);
        ghost var told := Walk(view, None, id, Departs);
        EveryoneInView(view, None, told, entity.x, entity.y);
        DepartureTold(entities, entity, told, old(Fold(events)));
      }
      Unplace(id);
      return true;
    }

    method Unplace(id: nat)
      requires Indexed() && id in entities
      modifies `entities, `grids, `entityToGrid
      ensures Indexed() && entities == old(entities) - {id}
    {
      AlwaysOnMap(config, entities[id].x, entities[id].y);
      GridIndexOk(config, CellOf(id), CellOf(id));
      hide PosToGrid, GridIndex;
      if id in entityToGrid {
        var g := entityToGrid[id];
        grids := grids[g := grids[g] - {id}];
        entityToGrid := entityToGrid - {id};
      }
      entities := entities - {id};
    }

    /** update_entity: those who see the old place but not the new one lose each other, those who
      see the new place but not the old one find each other. */
    method UpdateEntity(id: nat, newX: int, newY: int) returns (updated: bool)
      requires Valid()
      modifies `entities, `grids, `entityToGrid, `events
      ensures Valid()
      ensures updated <==> id in old(entities)
      ensures entities == if updated then old(entities)[id := Entity(id, newX, newY)] else old(entities)
      ensures !updated || !callback ==> events == old(events)
      ensures updated && callback ==>
                var oldX, oldY := old(entities)[id].x, old(entities)[id].y;
                forall e :: multiset(events)[e] == multiset(old(events))[e] +
                              (var o := if e.watcher == id then e.target else e.watcher;
                               if o == id then 0
                               else if PosToGrid(config, oldX, oldY) == PosToGrid(config, newX, newY) then
                                 if && e == Move(o, id, oldX, oldY, newX, newY) && o in entities
                                    && PosToGrid(config, entities[o].x, entities[o].y) == PosToGrid(config, newX, newY)
                                 then 1 else 0
                               else
                                 var from, to := NearBy(config, entities, o, oldX, oldY), NearBy(config, entities, o, newX, newY);
                                 if || (from && !to && (e == Leave(o, id) || e == Leave(id, o)))
                                    || (to && !from && e == Enter(o, id, newX, newY))
                                    || (to && !from && e == Enter(id, o, entities[o].x, entities[o].y))
                                    || (from && to && e == Move(o, id, oldX, oldY, newX, newY))
                                 then 1 else 0)
    {
      if id !in entities {
        return false;
      }
      updated := true;
      var oldX, oldY := entities[id].x, entities[id].y;
      var oldCell, newCell := PosToGrid(config, oldX, oldY), PosToGrid(config, newX, newY);
      AlwaysOnMap(config, oldX, oldY);
      AlwaysOnMap(config, newX, newY);
      hide PosToGrid, Indexed, Fold, Seen, OnceMore, Crossed;
      if oldCell == newCell {
        MoveWithin(id, newX, newY, oldCell);
        if callback { WithinEvents(old(events), oldX, oldY, Entity(id, newX, newY)); }
      } else {
        MoveAcross(id, newX, newY, oldCell, newCell);
        if callback { CrossedEvents(old(events), Entity(id, oldX, oldY), Entity(id, newX, newY)); }
      }
    }

    lemma WithinEvents(before: seq<Event>, oldX: int, oldY: int, now: Entity)
      requires config.gridSize > 0
      requires OnceMore(before, events, Stays(oldX, oldY, now.x, now.y), entities, now.id, SameCell(now.x, now.y))
      ensures forall e :: multiset(events)[e] == multiset(before)[e] +
                            (var o := if e.watcher == now.id then e.target else e.watcher;
                             if && o != now.id && e == Move(o, now.id, oldX, oldY, now.x, now.y) && o in entities
                                && PosToGrid(config, entities[o].x, entities[o].y) == PosToGrid(config, now.x, now.y)
                             then 1 else 0)
    {
      hide PosToGrid;
    }

    lemma CrossedEvents(before: seq<Event>, was: Entity, now: Entity)
      requires config.gridSize > 0 && was.id == now.id && Crossed(before, events, was, now)
      ensures forall e :: multiset(events)[e] == multiset(before)[e] +
                            (var o := if e.watcher == now.id then e.target else e.watcher;
                             var from, to := NearBy(config, entities, o, was.x, was.y), NearBy(config, entities, o, now.x, now.y);
                             if o != now.id && (
                                || (from && !to && (e == Leave(o, now.id) || e == Leave(now.id, o)))
                                || (to && !from && e == Enter(o, now.id, now.x, now.y))
                                || (to && !from && e == Enter(now.id, o, entities[o].x, entities[o].y))
                                || (from && to && e == Move(o, now.id, was.x, was.y, now.x, now.y)))
                             then 1 else 0)
    {
      hide PosToGrid, Near;
    }

    method MoveWithin(id: nat, newX: int, newY: int, cell: Cell)
      requires Valid() && id in entities && cell == CellOf(id) == PosToGrid(config, newX, newY) && OnMap(config, cell)
      modifies `entities, `events
      ensures Valid() && entities == old(entities)[id := Entity(id, newX, newY)]
      ensures !callback ==> events == old(events)
      ensures callback ==> var e := old(entities)[id];
        OnceMore(old(events), events, Stays(e.x, e.y, newX, newY), entities, id, SameCell(newX, newY))
    {
      var oldX, oldY := entities[id].x, entities[id].y;
      Shift(id, newX, newY);
      if callback {
        GridIndexOk(config, cell, cell);
        InCell(cell);
        assert grids[GridIndex(config, cell)] == SameCell(newX, newY);
        TellCell(grids[GridIndex(config, cell)], id, Stays(oldX, oldY, newX, newY));
      }
    }

    method MoveAcross(id: nat, newX: int, newY: int, oldCell: Cell, newCell: Cell)
      requires Valid() && id in entities && oldCell == CellOf(id) && newCell == PosToGrid(config, newX, newY)
      requires oldCell != newCell && OnMap(config, oldCell) && OnMap(config, newCell)
      modifies `entities, `grids, `entityToGrid, `events
      ensures Valid() && entities == old(entities)[id := Entity(id, newX, newY)]
      ensures !callback ==> events == old(events)
      ensures callback ==> Crossed(old(events), events, old(entities)[id], Entity(id, newX, newY))
    {
      var oldX, oldY := entities[id].x, entities[id].y;
      hide PosToGrid, Fold, Seen, Crossed;
      Relocate(id, newX, newY, oldCell, newCell);
      if callback {
        TellChange(id, oldX, oldY, newX, newY, old(entities));
      }
    }

    /** A move within a cell changes the position only. */
    method Shift(id: nat, newX: int, newY: int)
      requires Indexed() && id in entities && PosToGrid(config, newX, newY) == CellOf(id)
      modifies `entities
      ensures Indexed() && entities == old(entities)[id := Entity(id, newX, newY)]
      ensures forall p :: Seen(config, entities, p) <==> Seen(config, old(entities), p)
    {
      hide PosToGrid, GridIndex;
      entities := entities[id := Entity(id, newX, newY)];
    }

    method Relocate(id: nat, newX: int, newY: int, oldCell: Cell, newCell: Cell)
      requires Indexed() && id in entities && oldCell == CellOf(id) && newCell == PosToGrid(config, newX, newY)
      requires oldCell != newCell && OnMap(config, oldCell) && OnMap(config, newCell)
      modifies `entities, `grids, `entityToGrid
      ensures Indexed() && entities == old(entities)[id := Entity(id, newX, newY)]
    {
      GridIndexOk(config, oldCell, newCell);
      GridIndexOk(config, newCell, oldCell);
      var oldIdx, newIdx := GridIndex(config, oldCell), GridIndex(config, newCell);
      var moved := grids[oldIdx := grids[oldIdx] - {id}];
      Moved(config, entities, grids, entityToGrid, Entity(id, newX, newY), oldIdx, newIdx);
      hide *;
      entities := entities[id := Entity(id, newX, newY)];
      grids := moved;
      grids := grids[newIdx := grids[newIdx] + {id}];
      entityToGrid := entityToGrid[id := newIdx];
    }

    /** The events of a change of cell: the old view less the new, the new less the old, and MOVEs
      where they overlap. */
    method TellChange(id: nat, oldX: int, oldY: int, newX: int, newY: int, ghost before: map<nat, Entity>)
      requires config.Ok() && Indexed() && id in before && before[id] == Entity(id, oldX, oldY)
      requires entities == before[id := Entity(id, newX, newY)]
      requires forall p :: p in Fold(events) <==> Seen(config, before, p)
      modifies `events
      ensures forall p :: p in Fold(events) <==> Seen(config, entities, p)
      ensures Crossed(old(events), events, before[id], Entity(id, newX, newY))
    {
      hide Fold, Indexed, PosToGrid, GridsInView, Seen, NearBy, Near, OnceMore, Crossed, PairsWith, NearOther;
      ghost var known, start := Fold(events), events;
      var oldView, newView := GridsInView(config, oldX, oldY), GridsInView(config, newX, newY);
      ghost var lost, parted, gained, met, both := TellViews(id, oldX, oldY, newX, newY, oldView, newView);
      ChangeTold(before, before[id], Entity(id, newX, newY), lost, gained, known);
      CrossedInSteps(start, parted, met, events, before[id], Entity(id, newX, newY), lost, gained, both);
    }

    /** The three walks, with the events as they were after the first and the second. */
    method TellViews(id: nat, oldX: int, oldY: int, newX: int, newY: int, oldView: Rect, newView: Rect)
      returns (ghost lost: set<nat>, ghost parted: seq<Event>, ghost gained: set<nat>, ghost met: seq<Event>,
               ghost both: set<nat>)
      requires config.Ok() && Indexed()
      requires oldView == GridsInView(config, oldX, oldY) && newView == GridsInView(config, newX, newY)
      modifies `events
      ensures Fold(events) == old(Fold(events)) - PairsWith(id, lost) + PairsWith(id, gained)
      ensures OnceMore(old(events), parted, Loses, entities, id, lost)
      ensures OnceMore(parted, met, Gains(newX, newY), entities, id, gained)
      ensures OnceMore(met, events, Stays(oldX, oldY, newX, newY), entities, id, both)
      ensures forall o :: o in lost <==> NearBy(config, entities, o, oldX, oldY) && !NearOther(o, Some((newX, newY)))
      ensures forall o :: o in gained <==> NearBy(config, entities, o, newX, newY) && !NearOther(o, Some((oldX, oldY)))
      ensures forall o :: o in both <==> NearBy(config, entities, o, oldX, oldY) && NearBy(config, entities, o, newX, newY)
    {
      hide Fold, Indexed, PosToGrid, GridsInView, NearBy, Near, OnceMore, PairsWith, NearOther;
      ViewOnMap(oldX, oldY);
      ViewOnMap(newX, newY);
      lost := Walk(oldView, Some(newView), id, Loses);
      EveryoneInView(oldView, Some((newX, newY)), lost, oldX, oldY);
      parted := events;
      gained := Walk(newView, Some(oldView), id, Gains(newX, newY));
      EveryoneInView(newView, Some((oldX, oldY)), gained, newX, newY);
      met := events;
      var overlap := Rect(Max(oldView.minX, newView.minX), Max(oldView.minY, newView.minY),
                          Min(oldView.maxX, newView.maxX), Min(oldView.maxY, newView.maxY));
      both := Walk(overlap, None, id, Stays(oldX, oldY, newX, newY));
      EveryoneInBoth(oldView, newView, overlap, both, oldX, oldY, newX, newY);
    }

    ghost function SameCell(x: int, y: int): set<nat>
      requires config.gridSize > 0
      reads `entities
    {
      set o | o in entities && CellOf(o) == PosToGrid(config, x, y)
    }

    /** The events of a move to another cell: those in sight of the old place only are parted from
      the entity, those in sight of the new place only meet it, those in sight of both see it move. */
    ghost predicate Crossed(before: seq<Event>, after: seq<Event>, was: Entity, now: Entity)
      requires config.gridSize > 0
      reads `entities
    {
      var from, to := InSight(config, entities, was.x, was.y), InSight(config, entities, now.x, now.y);
      forall e :: multiset(after)[e] == multiset(before)[e]
        + (if Due(Loses, entities, now.id, from - to, e) then 1 else 0)
        + (if Due(Gains(now.x, now.y), entities, now.id, to - from, e) then 1 else 0)
        + (if Due(Stays(was.x, was.y, now.x, now.y), entities, now.id, from * to, e) then 1 else 0)
    }

    lemma CrossedInSteps(a: seq<Event>, b: seq<Event>, c: seq<Event>, d: seq<Event>, was: Entity, now: Entity,
                         lost: set<nat>, gained: set<nat>, both: set<nat>)
      requires config.gridSize > 0
      requires OnceMore(a, b, Loses, entities, now.id, lost)
      requires OnceMore(b, c, Gains(now.x, now.y), entities, now.id, gained)
      requires OnceMore(c, d, Stays(was.x, was.y, now.x, now.y), entities, now.id, both)
      requires forall o :: o in lost <==> NearBy(config, entities, o, was.x, was.y) && !NearOther(o, Some((now.x, now.y)))
      requires forall o :: o in gained <==> NearBy(config, entities, o, now.x, now.y) && !NearOther(o, Some((was.x, was.y)))
      requires forall o :: o in both <==> NearBy(config, entities, o, was.x, was.y) && NearBy(config, entities, o, now.x, now.y)
      ensures Crossed(a, d, was, now)
    {
      hide Due, PosToGrid, Near;
      assert lost == InSight(config, entities, was.x, was.y) - InSight(config, entities, now.x, now.y);
      assert gained == InSight(config, entities, now.x, now.y) - InSight(config, entities, was.x, was.y);
      assert both == InSight(config, entities, was.x, was.y) * InSight(config, entities, now.x, now.y);
    }

    lemma EveryoneInBoth(oldView: Rect, newView: Rect, overlap: Rect, both: set<nat>, oldX: int, oldY: int, newX: int, newY: int)
      requires config.Ok() && oldView == GridsInView(config, oldX, oldY) && newView == GridsInView(config, newX, newY)
      requires overlap == Rect(Max(oldView.minX, newView.minX), Max(oldView.minY, newView.minY),
                               Min(oldView.maxX, newView.maxX), Min(oldView.maxY, newView.maxY))
      requires forall o :: o in both <==> o in entities && Within(overlap, CellOf(o)) && !Skipped(None, CellOf(o))
      ensures forall o :: o in both <==> NearBy(config, entities, o, oldX, oldY) && NearBy(config, entities, o, newX, newY)
    {
      hide PosToGrid, GridsInView, Near;
      forall o | o in entities
        ensures o in both <==> NearBy(config, entities, o, oldX, oldY) && NearBy(config, entities, o, newX, newY)
      {
        AlwaysOnMap(config, entities[o].x, entities[o].y);
        ViewIsNear(config, oldX, oldY, CellOf(o));
        ViewIsNear(config, newX, newY, CellOf(o));
      }
    }

    lemma ViewOnMap(x: int, y: int)
      requires config.Ok()
      ensures var view := GridsInView(config, x, y);
              0 <= view.minX && 0 <= view.minY && view.maxX < config.XCount() && view.maxY < config.YCount()
    {}

    ghost function ViewOf(place: Option<(int, int)>): Option<Rect>
      requires config.gridSize > 0
    {
      if place.Some? then Some(GridsInView(config, place.value.0, place.value.1)) else None
    }

    ghost predicate NearOther(o: nat, place: Option<(int, int)>)
      requires config.gridSize > 0
      reads `entities
    {
      place.Some? && NearBy(config, entities, o, place.value.0, place.value.1)
    }

    /** A walk over a view, skipping another, reaches those near the one place but not the other. */
    lemma EveryoneInView(view: Rect, except: Option<(int, int)>, told: set<nat>, x: int, y: int)
      requires config.Ok() && view == GridsInView(config, x, y)
      requires forall o :: o in told <==>
        o in entities && Within(view, CellOf(o)) && !Skipped(ViewOf(except), CellOf(o))
      ensures forall o :: o in told <==> NearBy(config, entities, o, x, y) && !NearOther(o, except)
    {
      forall o | o in entities ensures o in told <==> NearBy(config, entities, o, x, y) && !NearOther(o, except) {
        var e := entities[o];
        AlwaysOnMap(config, e.x, e.y);
        ViewIsNear(config, x, y, CellOf(o));
        if except.Some? { ViewIsNear(config, except.value.0, except.value.1, CellOf(o)); }
      }
    }

    lemma ArrivalTold(before: map<nat, Entity>, entity: Entity, told: set<nat>, known: set<Pair>)
      requires config.Ok() && entity.id !in before && entities == before[entity.id := entity]
      requires forall p :: p in known <==> Seen(config, before, p)
      requires forall o :: o in told <==> NearBy(config, entities, o, entity.x, entity.y)
      ensures forall p :: p in known + PairsWith(entity.id, told) <==> Seen(config, entities, p)
    {
      hide PosToGrid, PairsWith;
      forall p ensures p in known + PairsWith(entity.id, told) <==> Seen(config, entities, p) {
        InPairs(entity.id, told, p);
      }
    }

    lemma DepartureTold(before: map<nat, Entity>, entity: Entity, told: set<nat>, known: set<Pair>)
      requires config.Ok() && entity.id in before && before[entity.id] == entity
      requires forall p :: p in known <==> Seen(config, before, p)
      requires forall o :: o in told <==> NearBy(config, before, o, entity.x, entity.y)
      ensures forall p :: p in known - PairsWith(entity.id, told) <==> Seen(config, before - {entity.id}, p)
    {
      hide PosToGrid, PairsWith;
      forall p ensures p in known - PairsWith(entity.id, told) <==> Seen(config, before - {entity.id}, p) {
        InPairs(entity.id, told, p);
      }
    }

    lemma ChangeTold(before: map<nat, Entity>, was: Entity, now: Entity, lost: set<nat>, gained: set<nat>, known: set<Pair>)
      requires config.Ok() && was.id == now.id && was.id in before && before[was.id] == was && entities == before[now.id := now]
      requires forall p :: p in known <==> Seen(config, before, p)
      requires forall o :: o in lost <==> NearBy(config, entities, o, was.x, was.y) && !NearOther(o, Some((now.x, now.y)))
      requires forall o :: o in gained <==> NearBy(config, entities, o, now.x, now.y) && !NearOther(o, Some((was.x, was.y)))
      ensures forall p :: p in known - PairsWith(now.id, lost) + PairsWith(now.id, gained) <==> Seen(config, entities, p)
    {
      hide PosToGrid, PairsWith;
      forall p ensures p in known - PairsWith(now.id, lost) + PairsWith(now.id, gained) <==> Seen(config, entities, p) {
        InPairs(now.id, lost, p);
        InPairs(now.id, gained, p);
      }
    }

    // -------------------------------------------------------------- queries

    /** get_entity_ids_in_view: every stored id near the place, once. */
    method GetEntityIdsInView(x: int, y: int) returns (result: seq<nat>)
      requires Indexed()
      ensures forall id :: id in result <==> NearBy(config, entities, id, x, y)
      ensures NoRepeats(result)
    {
      result := [];
      var view := GridsInView(config, x, y);
      ViewOnMap(x, y);
      hide Indexed, PosToGrid, GridIndex, GridsInView;
      var gy := view.minY;
      while gy <= view.maxY
        invariant view.minY <= gy && NoRepeats(result)
        invariant forall id :: id in result <==> id in entities && Within(view, CellOf(id)) && CellOf(id).gy < gy
        decreases view.maxY - gy
      {
        result := CollectRow(view, gy, result);
        gy := gy + 1;
      }
      EveryoneInView(view, None, (set id | id in result), x, y);
    }

    method CollectRow(view: Rect, gy: int, before: seq<nat>) returns (result: seq<nat>)
      requires config.Ok() && Indexed() && 0 <= view.minX && view.maxX < config.XCount() && 0 <= gy < config.YCount()
      requires view.minY <= gy <= view.maxY && NoRepeats(before)
      requires forall id :: id in before <==> id in entities && Within(view, CellOf(id)) && CellOf(id).gy < gy
      ensures NoRepeats(result)
      ensures forall id :: id in result <==> id in entities && Within(view, CellOf(id)) && CellOf(id).gy < gy + 1
    {
      hide Indexed, PosToGrid;
      result := before;
      var gx := view.minX;
      while gx <= view.maxX
        invariant view.minX <= gx && NoRepeats(result)
        invariant forall id :: id in result <==>
          id in entities && Within(view, CellOf(id)) && (CellOf(id).gy < gy || (CellOf(id).gy == gy && CellOf(id).gx < gx))
        decreases view.maxX - gx
      {
        InCell(Cell(gx, gy));
        result := CollectCell(grids[GridIndex(config, Cell(gx, gy))], result);
        gx := gx + 1;
      }
    }

    method CollectCell(members: set<nat>, before: seq<nat>) returns (result: seq<nat>)
      requires NoRepeats(before) && forall id :: id in before ==> id !in members
      ensures NoRepeats(result) && forall id :: id in result <==> id in before || id in members
    {
      result := before;
      var left := members;
      while left != {}
        invariant left <= members && NoRepeats(result)
        invariant forall id :: id in result <==> id in before || id in members - left
        decreases left
      {
        var id :| id in left;
        result := result + [id];
        left := left - {id};
      }
    }

    /** The same around a stored entity; nothing for an unknown watcher. */
    method GetEntityIdsInViewOf(watcher: nat) returns (result: seq<nat>)
      requires Indexed()
      ensures watcher !in entities ==> result == []
      ensures NoRepeats(result)
      ensures watcher in entities ==>
        forall id :: id in result <==> NearBy(config, entities, id, entities[watcher].x, entities[watcher].y)
    {
      if watcher !in entities {
        return [];
      }
      result := GetEntityIdsInView(entities[watcher].x, entities[watcher].y);
    }
  }

  lemma Moved(c: Config, entities: map<nat, Entity>, grids: seq<set<nat>>, at: map<nat, int>, now: Entity, from: int, to: int)
    requires Fits(c, entities, grids, at) && now.id in entities && at[now.id] == from
    requires 0 <= from < |grids| && 0 <= to < |grids| && from != to && to == GridIndex(c, CellOfEntity(c, now))
    ensures var moved := grids[from := grids[from] - {now.id}];
            Fits(c, entities[now.id := now], moved[to := moved[to] + {now.id}], at[now.id := to])
  {
    hide CellOfEntity, GridIndex;
  }

  ghost predicate NoRepeats(s: seq<nat>) {
    forall i, j :: 0 <= i < j < |s| ==> s[i] != s[j]
  }

  lemma InPairs(id: nat, others: set<nat>, p: Pair)
    ensures p in PairsWith(id, others) <==>
            p.low < p.high && ((p.low == id && p.high in others) || (p.high == id && p.low in others))
  {
    if p.low < p.high && p.low == id && p.high in others { assert p == Unordered(p.high, id); }
    if p.low < p.high && p.high == id && p.low in others { assert p == Unordered(p.low, id); }
  }

  lemma OnePair(id: nat, other: nat)
    ensures PairsWith(id, {other}) == if other == id then {} else {Unordered(other, id)}
  {}
}
