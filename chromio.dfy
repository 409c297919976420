/**
  The flood fill of the Chromio game (main.py, ChromioGrid.start_fill): the
  region of cells joined to the centre cell through cells of the centre's
  colour is repainted in the chosen colour.
*/
module Chromio {
  import opened Results
  import opened Hexagons
  import opened HexGrid

  /** The spiral index of neighbour k of the cell at spiral index x. */
  function NeighbourSlotAt(x: int, k: int): int
    requires 0 <= k < 6
  {
    PolarToSpiral(Neighbours(SpiralToPolar(Spiral(x))).value[k]).index
  }

  /** The spiral indices of the six neighbours of the cell at spiral index x. */
  function NeighbourSlots(x: int): (ns: seq<int>)
    ensures |ns| == 6
  {
    seq(6, k requires 0 <= k < 6 => NeighbourSlotAt(x, k))
  }

  /**
    Which slots neighbour which. The fill is stated over any adjacency; the
    game's is NeighbourSlots.
  */
  type Adjacency = int -> seq<int>

  /**
    One step of the fill: y is a neighbour of x inside the grid holding cs,
    and has the colour being replaced.
  */
  predicate Joins(adj: Adjacency, cs: seq<Option<int>>, current: Option<int>, x: int, y: int) {
    y in adj(x) && 0 <= y < |cs| && cs[y] == current
  }

  /** A walk from the centre cell 0 along which every step Joins. */
  ghost predicate IsRegionPath(adj: Adjacency, cs: seq<Option<int>>, current: Option<int>, path: seq<int>) {
    && |path| >= 1 && path[0] == 0
    && forall k :: 0 <= k < |path| - 1 ==> Joins(adj, cs, current, path[k], path[k + 1])
  }

  /** x is reached from the centre through cells of colour current. */
  ghost predicate InRegion(adj: Adjacency, cs: seq<Option<int>>, current: Option<int>, x: int) {
    exists path :: IsRegionPath(adj, cs, current, path) && path[|path| - 1] == x
  }

  /** The slots 0 .. n - 1 of a grid of n cells. */
  function Slots(n: nat): (s: set<int>)
    ensures forall i :: i in s <==> 0 <= i < n
  {
    if n == 0 then {} else Slots(n - 1) + {n - 1}
  }

  /** A set containing every cell that Joins one of its members. */
  ghost predicate Closed(adj: Adjacency, cs: seq<Option<int>>, current: Option<int>, s: set<int>) {
    forall x, y :: x in s && Joins(adj, cs, current, x, y) ==> y in s
  }

  /** Dropping the last cell of a region path of two or more cells leaves a region path. */
  lemma PathPrefix(adj: Adjacency, cs: seq<Option<int>>, current: Option<int>, path: seq<int>)
    requires IsRegionPath(adj, cs, current, path) && |path| > 1
    ensures IsRegionPath(adj, cs, current, path[..|path| - 1])
    ensures Joins(adj, cs, current, path[|path| - 2], path[|path| - 1])
  {
    var front := path[..|path| - 1];
    forall k | 0 <= k < |front| - 1
      ensures Joins(adj, cs, current, front[k], front[k + 1])
    {
      assert front[k] == path[k] && front[k + 1] == path[k + 1];
    }
  }

  lemma {:induction false} PathInClosedSet(adj: Adjacency, cs: seq<Option<int>>, current: Option<int>, s: set<int>, path: seq<int>)
    requires Closed(adj, cs, current, s) && 0 in s
    requires IsRegionPath(adj, cs, current, path)
    ensures forall k :: 0 <= k < |path| ==> path[k] in s
    decreases |path|
  {
    if |path| > 1 {
      var front := path[..|path| - 1];
      PathPrefix(adj, cs, current, path);
      PathInClosedSet(adj, cs, current, s, front);
      assert path[|path| - 2] == front[|front| - 1];
      assert Joins(adj, cs, current, path[|path| - 2], path[|path| - 1]);
    }
  }

  /** Every cell of a region lies in the grid. */
  lemma RegionInGrid(adj: Adjacency, cs: seq<Option<int>>, current: Option<int>, x: int)
    requires |cs| >= 1 && InRegion(adj, cs, current, x)
    ensures 0 <= x < |cs|
  {
    var path :| IsRegionPath(adj, cs, current, path) && path[|path| - 1] == x;
    if |path| > 1 {
      assert Joins(adj, cs, current, path[|path| - 2], path[|path| - 1]);
    }
  }

  /** Every queued slot is a region cell of the grid. */
  ghost predicate Queued(adj: Adjacency, cs: seq<Option<int>>, current: Option<int>, agenda: seq<int>) {
    forall y :: y in agenda ==> 0 <= y < |cs| && InRegion(adj, cs, current, y)
  }

  /**
    The invariant of the search: seen and queued slots are region cells of
    the grid, the centre is seen or queued, and every cell that Joins a seen
    cell is itself seen or queued.
  */
  ghost predicate SearchInv(adj: Adjacency, cs: seq<Option<int>>, current: Option<int>, seen: set<int>, agenda: seq<int>) {
    && Queued(adj, cs, current, agenda)
    && (forall x :: x in seen ==> 0 <= x < |cs| && InRegion(adj, cs, current, x))
    && (0 in seen || 0 in agenda)
    && (forall x, y :: x in seen && Joins(adj, cs, current, x, y) ==> y in seen || y in agenda)
  }

  /**
    One neighbour n in the inner loop of start_fill: its slot is appended to
    the queue when `grid[n]` equals current; when n lies beyond the grid,
    `grid[n]` raises IndexError, which is caught and the neighbour passed over.
  */
  method QueueIfCurrent(g: HexagonGrid<int>, current: Option<int>, n: HexPolar, agenda: seq<int>)
    returns (agenda': seq<int>)
    requires n.IsCell()
    ensures var slot := PolarToSpiral(n).index;
            agenda' == if 0 <= slot < |g.contents| && g.contents[slot] == current then agenda + [slot] else agenda
  {
    var slot := PolarToSpiral(n).index;
    SpiralNonNegative(n);
    agenda' := agenda;
    match g.Get(Polar(n)) {
      case Err(_) =>
      case Ok(v) =>
        DivModUnique(slot, |g.contents|, 0, slot);
        if v == current {
          agenda' := agenda + [slot];
        }
    }
  }

  /**
    The inner loop of start_fill: the neighbours of the region cell at slot
    cur that Join it are appended to the queue.
  */
  method QueueNeighbours(g: HexagonGrid<int>, current: Option<int>, cur: int, nbrs: seq<HexPolar>,
                         agenda: seq<int>)
    returns (agenda': seq<int>)
    requires nbrs == Neighbours(SpiralToPolar(Spiral(cur))).value
    requires InRegion(NeighbourSlots, g.contents, current, cur) && Queued(NeighbourSlots, g.contents, current, agenda)
    ensures Queued(NeighbourSlots, g.contents, current, agenda')
    ensures forall y :: y in agenda ==> y in agenda'
    ensures forall y :: Joins(NeighbourSlots, g.contents, current, cur, y) ==> y in agenda'
  {
    ghost var cs := g.contents;
    ghost var ns := NeighbourSlots(cur);
    NeighbourSlotsOf(cur, nbrs);
    agenda' := agenda;
    for k := 0 to 6
      invariant Progress(NeighbourSlots, cs, current, ns, agenda, agenda', k)
    {
      ghost var prev := agenda';
      agenda' := QueueIfCurrent(g, current, nbrs[k], agenda');
      ProgressStep(NeighbourSlots, cs, current, cur, ns, agenda, prev, agenda', k);
    }
    JoinsQueued(NeighbourSlots, cs, current, cur, ns, agenda');
  }

  /**
    The inner loop's invariant after k neighbours: the queue is still made of
    region cells, nothing queued before was lost, and each of the first k
    neighbours that lies in the grid with colour current has been queued.
  */
  ghost predicate Progress(adj: Adjacency, cs: seq<Option<int>>, current: Option<int>, ns: seq<int>, agenda: seq<int>,
                           agenda': seq<int>, k: int)
    requires 0 <= k <= |ns|
  {
    && Queued(adj, cs, current, agenda')
    && (forall y :: y in agenda ==> y in agenda')
    && (forall j :: 0 <= j < k && 0 <= ns[j] < |cs| && cs[ns[j]] == current ==> ns[j] in agenda')
  }

  lemma ProgressStep(adj: Adjacency, cs: seq<Option<int>>, current: Option<int>, cur: int, ns: seq<int>, agenda: seq<int>,
                     prev: seq<int>, next: seq<int>, k: int)
    requires InRegion(adj, cs, current, cur) && ns == adj(cur) && 0 <= k < |ns|
    requires Progress(adj, cs, current, ns, agenda, prev, k)
    requires next == if 0 <= ns[k] < |cs| && cs[ns[k]] == current then prev + [ns[k]] else prev
    ensures Progress(adj, cs, current, ns, agenda, next, k + 1)
  {
    if 0 <= ns[k] < |cs| && cs[ns[k]] == current {
      RegionStep(adj, cs, current, cur, ns, k);
    }
  }

  lemma NeighbourSlotsOf(cur: int, nbrs: seq<HexPolar>)
    requires nbrs == Neighbours(SpiralToPolar(Spiral(cur))).value
    ensures |nbrs| == 6
    ensures forall k :: 0 <= k < 6 ==> nbrs[k].IsCell() && PolarToSpiral(nbrs[k]).index == NeighbourSlots(cur)[k]
  {
  }

  /** A neighbour of a region cell that lies in the grid with colour current is a region cell. */
  lemma RegionStep(adj: Adjacency, cs: seq<Option<int>>, current: Option<int>, cur: int, ns: seq<int>, k: int)
    requires InRegion(adj, cs, current, cur)
    requires ns == adj(cur) && 0 <= k < |ns|
    requires 0 <= ns[k] < |cs| && cs[ns[k]] == current
    ensures InRegion(adj, cs, current, ns[k])
  {
    var path :| IsRegionPath(adj, cs, current, path) && path[|path| - 1] == cur;
    assert Joins(adj, cs, current, cur, ns[k]);
    ExtendPath(adj, cs, current, path, ns[k]);
  }

  lemma JoinsQueued(adj: Adjacency, cs: seq<Option<int>>, current: Option<int>, cur: int, ns: seq<int>, agenda: seq<int>)
    requires ns == adj(cur)
    requires forall j :: 0 <= j < |ns| && 0 <= ns[j] < |cs| && cs[ns[j]] == current ==> ns[j] in agenda
    ensures forall y :: Joins(adj, cs, current, cur, y) ==> y in agenda
  {
    forall y | Joins(adj, cs, current, cur, y)
      ensures y in agenda
    {
      var j :| 0 <= j < |ns| && ns[j] == y;
    }
  }

  /**
    One round of the while loop of start_fill: the slot at the front of the
    queue is taken off; unless already seen, it is marked seen and the
    neighbours that Join it are queued.
  */
  method Visit(g: HexagonGrid<int>, current: Option<int>, agenda: seq<int>, seen: set<int>)
    returns (agenda': seq<int>, seen': set<int>)
    requires agenda != [] && SearchInv(NeighbourSlots, g.contents, current, seen, agenda)
    ensures SearchInv(NeighbourSlots, g.contents, current, seen', agenda')
    ensures || (seen' == seen && |agenda'| < |agenda|)
            || (agenda[0] !in seen && 0 <= agenda[0] < |g.contents| && seen' == seen + {agenda[0]})
  {
    ghost var cs := g.contents;
    var cur := agenda[0];
    agenda' := agenda[1..];
    assert agenda == [cur] + agenda';
    seen' := seen;
    if cur in seen {
      PopSeen(NeighbourSlots, cs, current, seen, agenda);
      return;
    }
    assert cur in agenda;
    var cell := SpiralHexPolar(Spiral(cur));
    var nbrs := Neighbours(cell).value;
    seen' := seen + {cur};
    ghost var rest := agenda';
    QueuedSuffix(NeighbourSlots, cs, current, agenda);
    agenda' := QueueNeighbours(g, current, cur, nbrs, agenda');
    VisitCloses(NeighbourSlots, cs, current, seen, agenda, cur, rest, agenda');
  }

  lemma QueuedSuffix(adj: Adjacency, cs: seq<Option<int>>, current: Option<int>, agenda: seq<int>)
    requires agenda != [] && Queued(adj, cs, current, agenda)
    ensures Queued(adj, cs, current, agenda[1..])
  {
    assert forall y :: y in agenda[1..] ==> y in agenda;
  }

  /** Dropping a front slot that is already seen keeps the search invariant. */
  lemma PopSeen(adj: Adjacency, cs: seq<Option<int>>, current: Option<int>, seen: set<int>, agenda: seq<int>)
    requires agenda != [] && agenda[0] in seen && SearchInv(adj, cs, current, seen, agenda)
    ensures SearchInv(adj, cs, current, seen, agenda[1..])
  {
    assert agenda == [agenda[0]] + agenda[1..];
    QueuedSuffix(adj, cs, current, agenda);
  }

  /** Marking the front slot seen after queueing what Joins it keeps the search invariant. */
  lemma VisitCloses(adj: Adjacency, cs: seq<Option<int>>, current: Option<int>, seen: set<int>, agenda: seq<int>,
                    cur: int, rest: seq<int>, agenda': seq<int>)
    requires agenda == [cur] + rest && SearchInv(adj, cs, current, seen, agenda)
    requires Queued(adj, cs, current, agenda')
    requires forall y :: y in rest ==> y in agenda'
    requires forall y :: Joins(adj, cs, current, cur, y) ==> y in agenda'
    ensures SearchInv(adj, cs, current, seen + {cur}, agenda')
  {
    assert cur in agenda;
    forall x, y | x in seen + {cur} && Joins(adj, cs, current, x, y)
      ensures y in seen + {cur} || y in agenda'
    {
      if x != cur {
        assert y in seen || y == cur || y in rest;
      }
    }
    if 0 !in seen + {cur} {
      assert 0 in rest;
    }
  }

  /**
    The breadth-first search of start_fill: a queue started at the centre,
    each slot taken from its front expanded once. The cells it marks seen are
    exactly the region.
  */
  method Explore(g: HexagonGrid<int>, current: Option<int>) returns (seen: set<int>)
    requires g.Valid() && |g.contents| >= 1
    ensures forall x :: x in seen ==> 0 <= x < |g.contents|
    ensures forall x :: x in seen <==> InRegion(NeighbourSlots, g.contents, current, x)
  {
    ghost var cs := g.contents;
    ghost var slots := Slots(|cs|);
    var agenda := [0];
    seen := {};
    assert IsRegionPath(NeighbourSlots, cs, current, [0]);
    while agenda != []
      invariant SearchInv(NeighbourSlots, cs, current, seen, agenda)
      decreases slots - seen, |agenda|
    {
      agenda, seen := Visit(g, current, agenda, seen);
    }
    forall x | InRegion(NeighbourSlots, cs, current, x)
      ensures x in seen
    {
      var path :| IsRegionPath(NeighbourSlots, cs, current, path) && path[|path| - 1] == x;
      PathInClosedSet(NeighbourSlots, cs, current, seen, path);
    }
  }

  lemma ExtendPath(adj: Adjacency, cs: seq<Option<int>>, current: Option<int>, path: seq<int>, y: int)
    requires IsRegionPath(adj, cs, current, path) && Joins(adj, cs, current, path[|path| - 1], y)
    ensures IsRegionPath(adj, cs, current, path + [y]) && (path + [y])[|path|] == y
  {
    var ext := path + [y];
    forall k | 0 <= k < |ext| - 1
      ensures Joins(adj, cs, current, ext[k], ext[k + 1])
    {
      if k < |path| - 1 {
        assert ext[k] == path[k] && ext[k + 1] == path[k + 1];
      }
    }
  }

  /** The grid after a fill of colour c: the centre's region repainted, every other cell kept. */
  ghost function Flooded(adj: Adjacency, cs: seq<Option<int>>, c: int): (r: seq<Option<int>>)
    requires |cs| >= 1
    ensures |r| == |cs|
  {
    seq(|cs|, j requires 0 <= j < |cs| => if InRegion(adj, cs, cs[0], j) then Some(c) else cs[j])
  }

  /** What start_fill did. */
  datatype FillOutcome =
    | Busy          // a fill was already running
    | NoCentre      // the grid is empty: reading grid[0] raised IndexError
    | SameColour    // the centre already has the chosen colour
    | Filled

  class ChromioGrid {
    var grid: HexagonGrid<int>
    var filling: bool

    ghost predicate Valid()
      reads this, grid
    {
      grid.Valid()
    }

    /** A game over a grid whose colours are already dealt; no fill is running. */
    constructor (g: HexagonGrid<int>)
      requires g.Valid()
      ensures Valid() && grid == g && !filling
    {
      grid := g;
      filling := false;
    }

    /** start_fill(colour) */
    method StartFill(colour: int) returns (outcome: FillOutcome)
      requires Valid()
      modifies this, grid
      ensures Valid() && grid == old(grid) && grid.maxradius == old(grid.maxradius)
      ensures old(filling) ==> outcome == Busy
      ensures !old(filling) && |old(grid.contents)| == 0 ==> outcome == NoCentre
      ensures !old(filling) && |old(grid.contents)| >= 1 ==>
                (outcome == SameColour <==> old(grid.contents[0]) == Some(colour))
      ensures !old(filling) && |old(grid.contents)| >= 1 && old(grid.contents[0]) != Some(colour) ==>
                outcome == Filled
      ensures outcome != Filled ==> grid.contents == old(grid.contents) && filling == old(filling)
      ensures outcome == Filled ==> !filling && grid.contents == Flooded(NeighbourSlots, old(grid.contents), colour)
    {
      if filling {
        return Busy;
      }
      var centre := grid.Get(Raw(0));
      if centre.Err? {
        return NoCentre;
      }
      var current := centre.value;
      if current == Some(colour) {
        return SameColour;
      }
      filling := true;
      ghost var cs := grid.contents;
      assert current == cs[0];
      var seen := Explore(grid, current);
      var n := |grid.contents|;
      for i := 0 to n
        invariant grid == old(grid)
        invariant grid.Valid() && grid.maxradius == old(grid.maxradius) && |grid.contents| == |cs|
        invariant forall j :: 0 <= j < |cs| ==>
                    grid.contents[j] == if j in seen && j < i then Some(colour) else cs[j]
      {
        if i in seen {
          DivModUnique(i, |cs|, 0, i);
          var _ := grid.Set(Raw(i), Some(colour));
        }
      }
      filling := false;
      outcome := Filled;
    }
  }

  /** After a fill the centre has the chosen colour, so the same button again does nothing. */
  lemma FloodedCentre(adj: Adjacency, cs: seq<Option<int>>, c: int)
    requires |cs| >= 1
    ensures Flooded(adj, cs, c)[0] == Some(c)
  {
    assert IsRegionPath(adj, cs, cs[0], [0]);
  }

  /**
    A fill changes a cell only if the cell is in the centre's region, and then
    the cell held the centre's old colour.
  */
  lemma FloodedChangesOnlyRegion(adj: Adjacency, cs: seq<Option<int>>, c: int, j: int)
    requires |cs| >= 1 && 0 <= j < |cs|
    ensures Flooded(adj, cs, c)[j] != cs[j] ==> InRegion(adj, cs, cs[0], j) && cs[j] == cs[0]
  {
    if InRegion(adj, cs, cs[0], j) {
      var path :| IsRegionPath(adj, cs, cs[0], path) && path[|path| - 1] == j;
      if |path| > 1 {
        PathPrefix(adj, cs, cs[0], path);
      }
    }
  }

  /** A region cell's neighbour in the grid that stays outside it has a different colour. */
  lemma RegionBoundary(adj: Adjacency, cs: seq<Option<int>>, current: Option<int>, x: int, y: int)
    requires InRegion(adj, cs, current, x)
    requires y in adj(x) && 0 <= y < |cs| && !InRegion(adj, cs, current, y)
    ensures cs[y] != current
  {
    if cs[y] == current {
      var path :| IsRegionPath(adj, cs, current, path) && path[|path| - 1] == x;
      ExtendPath(adj, cs, current, path, y);
    }
  }

  /**
    Filling only grows the centre's region: every cell of the old region is
    in the region of the new colour afterwards.
  */
  lemma FloodedRegionGrows(adj: Adjacency, cs: seq<Option<int>>, c: int, x: int)
    requires |cs| >= 1 && InRegion(adj, cs, cs[0], x)
    ensures InRegion(adj, Flooded(adj, cs, c), Some(c), x)
  {
    var path :| IsRegionPath(adj, cs, cs[0], path) && path[|path| - 1] == x;
    RepaintPath(adj, cs, c, path);
  }

  /** The last cell of a region path is repainted. */
  lemma FloodedRegionCell(adj: Adjacency, cs: seq<Option<int>>, c: int, path: seq<int>)
    requires |cs| >= 1 && IsRegionPath(adj, cs, cs[0], path)
    ensures 0 <= path[|path| - 1] < |cs| && Flooded(adj, cs, c)[path[|path| - 1]] == Some(c)
  {
    RegionInGrid(adj, cs, cs[0], path[|path| - 1]);
  }

  lemma {:induction false} RepaintPath(adj: Adjacency, cs: seq<Option<int>>, c: int, path: seq<int>)
    requires |cs| >= 1 && IsRegionPath(adj, cs, cs[0], path)
    ensures IsRegionPath(adj, Flooded(adj, cs, c), Some(c), path)
    decreases |path|
  {
    var fl := Flooded(adj, cs, c);
    if |path| > 1 {
      var front := path[..|path| - 1];
      PathPrefix(adj, cs, cs[0], path);
      RepaintPath(adj, cs, c, front);
      var x, y := path[|path| - 2], path[|path| - 1];
      FloodedRegionCell(adj, cs, c, path);
      assert front[|front| - 1] == x && Joins(adj, fl, Some(c), x, y);
      ExtendPath(adj, fl, Some(c), front, y);
      assert path == front + [y];
    } else {
      FloodedRegionCell(adj, cs, c, path);
    }
  }

  /** Neighbourhood between slots is symmetric, as it is between cells. */
  lemma NeighbourSlotsSymmetric(x: int, y: int)
    requires x >= 0 && y in NeighbourSlots(x)
    ensures x in NeighbourSlots(y)
  {
    var p := SpiralToPolar(Spiral(x));
    NeighbourSlotCell(x, y);
    NeighboursSymmetric(p, SpiralToPolar(Spiral(y)));
    SlotOfNeighbour(y, p);
  }

  /** A neighbour slot of x names a neighbour of x's cell. */
  lemma NeighbourSlotCell(x: int, y: int)
    requires y in NeighbourSlots(x)
    ensures SpiralToPolar(Spiral(y)) in Neighbours(SpiralToPolar(Spiral(x))).value
  {
    var ns := Neighbours(SpiralToPolar(Spiral(x))).value;
    NeighbourSlotsOf(x, ns);
    var k :| 0 <= k < 6 && NeighbourSlots(x)[k] == y;
    PolarSpiralRoundTrip(ns[k]);
    assert SpiralToPolar(Spiral(y)) == ns[k];
  }

  /** The slot of each neighbour of y's cell is among y's neighbour slots. */
  lemma SlotOfNeighbour(y: int, p: HexPolar)
    requires p in Neighbours(SpiralToPolar(Spiral(y))).value
    ensures PolarToSpiral(p).index in NeighbourSlots(y)
  {
    var ms := Neighbours(SpiralToPolar(Spiral(y))).value;
    NeighbourSlotsOf(y, ms);
    var m :| 0 <= m < 6 && ms[m] == p;
    assert NeighbourSlots(y)[m] == PolarToSpiral(p).index;
  }
}
