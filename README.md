# Chromio hex grid, modelled in Dafny

Chromio is a colour flood game played on a hexagonal board. This project models
its core in three modules.

- `Hexagons` (`hexagons.dfy`) is the coordinate algebra of `hexagons.py`. It covers:
  - three ways of naming a cell: `HexPolar(ring, sector, number)`, `Spiral(index)` and `HexSkew(u, v)`;
  - the validating `HexPolar` constructor;
  - the closed-form conversions, the six-way case splits and the ring-search loop of `Spiral.hexpolar`;
  - the neighbour rule.

  The module proves the round trips between the three forms. It also proves that the
  neighbours of a cell are exactly the six cells one unit step away in skew space,
  and that neighbourhood is therefore symmetric.
- `HexGrid` (`hexgrid.dfy`) is the `HexagonGrid` class of `hexgrid.py`:
  - a flat list of `3M(M+1)+1` slots, where `M` is the maximum radius;
  - indexed by a raw int with Python list semantics (a negative index wraps, an index past the end raises `IndexError`), or by any coordinate through its spiral index;
  - `fill` and `subgrid`.
- `Chromio` (`chromio.dfy`) is `ChromioGrid.start_fill` of `main.py`. It is a
  breadth-first flood fill from the centre cell, guarded by the `filling` flag. The
  search is proved to mark exactly the cells joined to the centre through cells of
  the centre's colour. The fill is proved to repaint exactly those cells.

`results.dfy` holds the `Option` and `Result` types shared by the modules. Python's
`None` is `Option.None`. An exception raised by a coordinate or grid operation is a
`Result.Err`. The one exception `start_fill` can raise (IndexError when reading
`grid[0]` of an empty grid) is the `NoCentre` outcome of `Chromio.ChromioGrid.StartFill`.

Some choices follow the code rather than its comments:
- `HexPolar`'s constructor rejects only `number > 0 && number >= ring`, so a negative
  `number` is accepted (`HexPolar.Valid`). The round trips hold for cells, which are
  valid triples with `number >= 0` (`HexPolar.IsCell`).
- The comment on the side branch of `neighbours` says "number > 1", but the branch
  handles every nonzero number, including the negative numbers the constructor accepts.
  The model follows the branch.

The flood fill is stated over an `Adjacency`, a function from a slot to its
neighbour slots. The game's adjacency is `Chromio.NeighbourSlots`: the spiral indices
of `neighbours()` of the cell at that spiral index.

## Model

| member | source | states |
|---|---|---|
| Hexagons.MakePolar | hexagons.py:41-49 | The constructor raises exactly when ring < 0, or ring is 0 with a nonzero sector, or the sector is outside 0..5, or number > 0 and number >= ring. The checks run in source order, so a negative ring is always reported as such. Otherwise the constructor returns the triple unchanged. |
| Hexagons.CellShape | hexagons.py:41-49 | A valid triple with a non-negative number is either the origin (0,0,0) or has ring >= 1, sector in 0..5 and 0 <= number < ring. |
| Hexagons.PolarToSpiral | hexagons.py:57-62 | `HexPolar.spiral()`: r(3(r-1)+s)+n+1 for ring r > 0 and 0 at the origin. SpiralWithinRing bounds it to its ring's index range, and PolarSpiralRoundTrip shows `hexpolar` inverts it on cells. |
| Hexagons.SpiralWithinRing | hexagons.py:57-62 | `spiral()` sends the origin to 0 and a cell of ring r >= 1 into [3r(r-1)+1, 3r(r+1)+1), the index range of ring r. |
| Hexagons.SpiralBelowRing | hexagons.py:57-62 | A cell's spiral index is below 3m(m+1)+1 exactly when its ring is at most m. |
| Hexagons.SpiralExamples | hexagons.py:57-62 | Worked values: (1,0,0)↦1, (1,5,0)↦6, (2,0,0)↦7, Spiral(0) is the origin, Spiral(7) is (2,0,0), and (2,1,1) has skew (-1,2). |
| Hexagons.RingSearch | hexagons.py:125-128 | The ring-search loop as a function: from ring r, step while 3r(r+1)+1 <= i. RingSearchBounds shows the ring it stops at holds i, and RingSearchFinds that it is the only such ring. |
| Hexagons.RingSearchFinds | hexagons.py:126-128 | The ring search started at r stops at the unique R >= r with 3R(R-1)+1 <= i < 3R(R+1)+1 (or R = 0 when i < 1). |
| Hexagons.SpiralToPolar | hexagons.py:124-133 | `Spiral(i).hexpolar()` is always a cell. For i >= 0 its `spiral()` is Spiral(i) again. For i < 0 it is the origin. |
| Hexagons.SpiralHexPolar | hexagons.py:124-133 | The `while` loop that searches for the ring returns the same cell as SpiralToPolar. The result is a cell whose spiral index is i when i >= 0. |
| Hexagons.SpiralPolarRoundTrip | hexagons.py:124-133 | For every i >= 0, `Spiral(i).hexpolar().spiral().index == i`. |
| Hexagons.PolarSpiralRoundTrip | hexagons.py:57-62 | For every cell p, `p.spiral().hexpolar()` is p. |
| Hexagons.PolarToSkew | hexagons.py:64-79 | `HexPolar.hexskew()`: one linear map of (ring, number) per sector. SkewToPolar inverts it on all of ℤ², PolarSkewRoundTrip on all cells, and SkewInjective shows no two cells share a skew vector. |
| Hexagons.SkewToPolar | hexagons.py:158-184 | For every integer pair (u,v), `HexSkew(u,v).hexpolar()` passes every constructor check, is a cell, and its `hexskew()` is (u,v). |
| Hexagons.PolarSkewRoundTrip | hexagons.py:64-79 | For every cell p, `p.hexskew().hexpolar()` is p. |
| Hexagons.SkewInjective | hexagons.py:64-79 | Two cells with the same skew coordinates are the same cell. |
| Hexagons.SkewToSpiral | hexagons.py:152-153 | `HexSkew.spiral()` never gives a negative index. |
| Hexagons.SkewSpiralRoundTrip | hexagons.py:152-153 | For every (u,v), `HexSkew(u,v).spiral().hexskew()` is (u,v). |
| Hexagons.SpiralToSkew | hexagons.py:135-136 | `Spiral.hexskew()`: `hexpolar()` then `hexskew()`. SkewSpiralRoundTrip and SpiralSkewRoundTrip show it and SkewToSpiral are inverse, on non-negative indices. |
| Hexagons.SpiralSkewRoundTrip | hexagons.py:135-136 | For every i >= 0, `Spiral(i).hexskew().spiral()` is Spiral(i). |
| Hexagons.NeighbourArgs | hexagons.py:83-105 | The six argument triples `neighbours()` passes to the constructor, in list order, for the origin, corner and side branches; there are always six. NeighbourArgsAreCells shows each names a cell when the input is one. |
| Hexagons.ConstructAll | hexagons.py:84-105 | Constructing the triples in order, as the list display does, succeeds exactly when every triple passes the constructor's checks, and then yields those triples in order. |
| Hexagons.Neighbours | hexagons.py:81-105 | For every cell, `neighbours()` raises on none of its six constructor calls and returns six cells. |
| Hexagons.DirectionsAreUnitSteps | hexagons.py:87-105 | `Directions`, the list of the six unit skew vectors (1,0), (0,1), (-1,1), (-1,0), (0,-1), (1,-1), holds exactly the nonzero skew vectors (du,dv) with du, dv and du+dv all in -1..1. |
| Hexagons.TurnNeighbours | hexagons.py:85-105 | Turning a cell of ring >= 1 one sector anticlockwise turns each of its six neighbours, position by position. |
| Hexagons.NeighbourSteps | hexagons.py:83-105 | The six skew steps from a cell to its neighbours are unit steps, pairwise distinct, and cover all six directions. |
| Hexagons.NeighbourIffUnitStep | hexagons.py:81-105 | For cells p and q, q is among p's neighbours exactly when q's skew minus p's skew is a unit step. |
| Hexagons.NeighboursSymmetric | hexagons.py:81-105 | If q is a neighbour of p then p is a neighbour of q. |
| Hexagons.NeighboursDistinct | hexagons.py:81-105 | A cell is not its own neighbour, and its six neighbours are pairwise distinct. |
| Hexagons.NegativeNumberAccepted | hexagons.py:48 | The constructor accepts (1,0,-1). That triple is not a cell, its spiral index is 0, and the spiral round trip does not return it. |
| Hexagons.NeighboursOfNonCellRaise | hexagons.py:95-101 | The accepted triple (1,3,-1) has `neighbours()` raising, because the side branch builds ring 0 with sector 3. |
| HexGrid.SlotOf | hexgrid.py:19-29 | The subscript a grid access uses: the int itself, or `index.spiral().index` for a coordinate. Get and Set act on exactly this slot, and CapacityCountsCells shows a cell's slot fits exactly when its ring is within the radius. |
| HexGrid.ListIndex | hexgrid.py:19-21 | A Python list access of length n succeeds exactly for -n <= i < n, and then reads slot i mod n. |
| HexGrid.Capacity | hexgrid.py:11-14 | A grid of radius M has 3M(M+1)+1 slots, and none for M = -1. |
| HexGrid.CapacityCountsCells | hexgrid.py:11-14 | A cell's spiral index fits in a grid of radius M exactly when its ring is at most M. |
| HexGrid.CapacityGrows | hexgrid.py:11-14 | A larger radius never gives fewer slots. |
| HexGrid.HexagonGrid.constructor | hexgrid.py:11-14 | A new grid keeps its radius and has Capacity(M) slots, every one None. |
| HexGrid.HexagonGrid.Length | hexgrid.py:16-17 | `len` is 3M(M+1)+1 for the grid's radius M. |
| HexGrid.HexagonGrid.Get | hexgrid.py:19-23 | A read succeeds exactly when the slot (the int itself, or the coordinate's spiral index) is within -len..len-1, and returns that slot with Python's wrap. Otherwise it is IndexError. |
| HexGrid.HexagonGrid.Set | hexgrid.py:25-29 | The grid invariant (length Capacity(radius)) is kept. A write in range replaces exactly that slot, leaving the length and every other slot unchanged. Out of range it raises and changes nothing. |
| HexGrid.GetCellInRange | hexgrid.py:19-23 | Reading by a cell succeeds exactly when the cell's ring is within the grid's radius. |
| HexGrid.HexagonGrid.Fill | hexgrid.py:31-32 | After `fill(x)` every slot is x, and the length, the radius and the grid invariant are unchanged. |
| HexGrid.SkewOf | hexgrid.py:38-40 | `at.hexskew()`, with an int centre read as `Spiral(at)`. HexSkewOf shows the loop-based computation equals it, and SubgridNegativeCentre that a negative int lands on the origin's vector. |
| HexGrid.HexSkewOf | hexgrid.py:38-40 | `at.hexskew()`, with a Spiral run through the ring-search loop, equals SkewOf(at): the skew vector of the coordinate, with an int read as a spiral index. |
| HexGrid.HexagonGrid.Subgrid | hexgrid.py:35-49 | With the source's defaults radius 1 and `defval` None, returns a fresh grid of the requested radius. Slot i holds the source slot at (centre's skew + Spiral(i)'s skew) when that index is below the source's length, and `defval` otherwise. The source is not changed. |
| HexGrid.SubgridEntry | hexgrid.py:41-48 | What entry i of a subgrid receives: the source slot at the centre's skew plus Spiral(i)'s skew, or `defval` when that slot index is at least the source's length. Subgrid fills every entry with it, and SubgridCentre, SubgridAtOriginCopies and SubgridBeyondEdge state what it is in each case. |
| HexGrid.SubgridCentre | hexgrid.py:38-48 | Slot 0 of a subgrid is the source's value at the centre when the centre's slot is in 0..len-1 and, if the centre is a polar coordinate, it is a cell (number >= 0). |
| HexGrid.SubgridNonCellCentre | hexgrid.py:38-48 | The cell condition is needed: the accepted, non-cell HexPolar(1,0,-1) is read at slot 0, but entry 0 of a subgrid centred on it comes from slot 18, because its skew vector (2,-1) is cell (2,5,1). |
| HexGrid.SubgridAtOriginCopies | hexgrid.py:40-48 | A subgrid at slot 0 no larger than the source is a copy of the source's first slots. |
| HexGrid.SubgridNegativeCentre | hexgrid.py:38-40 | A negative int centre reads as `Spiral(i)`, whose cell is the origin, so the subgrid is the one centred at 0. |
| HexGrid.SubgridBeyondEdge | hexgrid.py:44-46 | A subgrid slot whose source cell lies outside the source's radius holds `defval`. |
| Chromio.NeighbourSlots | main.py:79-84 | The six spiral indices of `Spiral(x).hexpolar().neighbours()`, the adjacency the fill follows. NeighbourSlotsSymmetric shows it is symmetric, and NeighbourSlotCell/SlotOfNeighbour tie each slot to a neighbouring cell. |
| Chromio.QueueIfCurrent | main.py:82-86 | A neighbour is appended to the agenda exactly when its spiral index is on the grid and holds the colour being replaced. An index past the end is skipped. |
| Chromio.QueueNeighbours | main.py:79-86 | Expanding a region cell keeps the agenda inside the region, keeps everything already queued, and queues every in-grid neighbour with the colour being replaced. |
| Chromio.Visit | main.py:75-86 | One pass of the `while` body keeps the search invariant. Either it skips an already seen slot and shortens the agenda, or it adds exactly one new in-grid slot to `seen`. |
| Chromio.Explore | main.py:73-86 | The search terminates. Its `seen` set lies within the grid and is exactly the set of cells joined to the centre by a path of neighbours that all hold the centre's colour. |
| Chromio.RegionBoundary | main.py:81-84 | An in-grid neighbour of a region cell that is outside the region holds a colour other than the one replaced. |
| Chromio.NeighbourSlotsSymmetric | main.py:79-84 | The slot adjacency the fill uses is symmetric. |
| Chromio.ChromioGrid.constructor | main.py:39-44 | A game over a grid starts with no fill running. |
| Chromio.ChromioGrid.StartFill | main.py:64-91 | If a fill is running, the call returns and changes nothing. On an empty grid reading slot 0 raises. If the centre already has the colour, nothing changes. Otherwise the fill always happens: the grid becomes Flooded (the centre's region repainted, every other cell kept) and `filling` is false again. |
| Chromio.Flooded | main.py:88-89 | The grid after a fill, of the same length: each slot in the centre's region gets the colour and every other slot is kept. StartFill ends with exactly this grid, and FloodedCentre, FloodedChangesOnlyRegion and FloodedRegionGrows state its properties. |
| Chromio.FloodedCentre | main.py:88-89 | After a fill the centre holds the chosen colour. |
| Chromio.FloodedChangesOnlyRegion | main.py:88-89 | A fill changes only cells of the centre's region, and each of them held the centre's old colour. |
| Chromio.FloodedRegionGrows | main.py:88-89 | Every cell of the old region belongs to the region of the new colour after the fill. |

## Left out

- The Kivy user interface (`ColourButton`, `ChromioApp`, the widget layout, and the `images` grid with its `.source` updates in `start_fill`) is not modelled. It is rendering through a foreign library.
- `ChromioGrid.randomise` is not modelled. It draws from `random` and computes float widget positions. `Chromio.ChromioGrid.constructor` therefore takes a grid whose colours are already dealt.
- `centre`, `near` and `SIN60` are not modelled. They are floating-point trigonometry and rounding.
- Python's `isinstance` dispatch on indices is the datatype `HexGrid.Coord`: a raw int, a polar, a spiral or a skew coordinate, normalised by `HexGrid.SlotOf`.
- HexGrid.HexagonGrid.constructor: requires `maxradius >= -1`. Below that `HexPolar(maxradius+1, 0, 0)` has a negative ring and raises `ValueError`, and no caller does so.
- HexGrid.HexagonGrid.Subgrid: requires `radius >= -1`, for the same reason, since it builds its result with the constructor.
- Chromio.ChromioGrid.StartFill: the final write loop visits `seen` in ascending slot order instead of the set's iteration order. The writes touch distinct slots, so the result is the same. The widget writes interleaved with them are left out, as above.
- Chromio.ChromioGrid.StartFill: `start_fill` returns nothing. The `FillOutcome` result is added by the model and only names which exit was taken: `Busy` for the `filling` guard, `NoCentre` for the IndexError raised by `grid[0]` on an empty grid, `SameColour` for the early return, and `Filled` for a completed fill.
- Chromio.ChromioGrid.StartFill: `butn.index` is the colour argument, and grid values are `Option<int>`, so a slot still holding `None` compares unequal to every colour, as in Python.
- Chromio.Explore: the `deque` is a sequence, with `popleft` reading its head and `append` its end. The search is proved to mark the region. The claim that each slot is expanded at most once is carried by `Chromio.Visit`, not stated on the whole loop.
- Integers are unbounded, as in Python, so there is no overflow to model.
