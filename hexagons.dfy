/**
  Hexagon coordinates: conversions between three ways of naming a cell of a
  hexagonal grid.

  - HexPolar(ring, sector, number): the origin is (0,0,0), the only cell of
    ring 0; ring R >= 1 has six sectors 0..5 of R cells each, numbered
    0..R-1 anticlockwise from the sector's corner.
  - Spiral(index): the position of a cell when the cells are enumerated in
    an anticlockwise spiral outward from the origin (index 0).
  - HexSkew(u, v): integer multiples of the unit vectors U = (1, 0) and
    V = (1/2, sin 60°).
*/
module Hexagons {
  import opened Results

  datatype HexPolar = HexPolar(ring: int, sector: int, number: int)
  {
    /** The checks made by the HexPolar constructor; a negative number passes them. */
    predicate Valid() {
      && !(ring < 0)
      && !(ring == 0 && sector != 0)
      && 0 <= sector <= 5
      && !(number > 0 && number >= ring)
    }

    /** A valid triple whose number is not negative: the triples every conversion produces. */
    predicate IsCell() {
      Valid() && number >= 0
    }
  }

  datatype Spiral = Spiral(index: int)

  datatype HexSkew = HexSkew(u: int, v: int)

  const Origin := HexPolar(0, 0, 0)

  /** The ValueError raised by the HexPolar constructor, one kind per check. */
  datatype PolarError = RingNegative | OriginSectorNonZero | SectorOutOfRange | NumberNotBelowRing

  /** The HexPolar constructor: checks its arguments in order and raises on the first failure. */
  function MakePolar(ring: int, sector: int, number: int): (r: Result<HexPolar, PolarError>)
    ensures r.Err? <==> ring < 0 || (ring == 0 && sector != 0) || !(0 <= sector <= 5)
                        || (number > 0 && number >= ring)
    ensures r.Ok? <==> HexPolar(ring, sector, number).Valid()
    ensures r.Ok? ==> r.value == HexPolar(ring, sector, number)
    ensures r == Err(RingNegative) <==> ring < 0
    ensures r == Err(NumberNotBelowRing) ==> ring >= 0 && 0 <= sector <= 5 && number >= ring
  {
    if ring < 0 then Err(RingNegative)
    else if ring == 0 && sector != 0 then Err(OriginSectorNonZero)
    else if !(0 <= sector <= 5) then Err(SectorOutOfRange)
    else if number > 0 && number >= ring then Err(NumberNotBelowRing)
    else Ok(HexPolar(ring, sector, number))
  }

  /** The triples that denote cells are exactly those of the grid's design. */
  lemma CellShape(p: HexPolar)
    ensures p.IsCell() <==>
              (p.ring == 0 && p.sector == 0 && p.number == 0)
              || (p.ring >= 1 && 0 <= p.sector <= 5 && 0 <= p.number < p.ring)
  {
  }

  // ---------------------------------------------------------------------
  // HexPolar <-> Spiral

  /** First spiral index of ring r (r >= 1); ring r + 1 starts at RingStart(r + 1). */
  function RingStart(r: int): int {
    3 * r * (r - 1) + 1
  }

  /** HexPolar.spiral */
  function PolarToSpiral(p: HexPolar): Spiral {
    if p.ring != 0 then Spiral(p.ring * (3 * (p.ring - 1) + p.sector) + p.number + 1)
    else Spiral(0)
  }

  lemma {:induction false} RingStartGrows(a: int, b: int)
    requires 0 <= a <= b
    ensures RingStart(a) <= RingStart(b)
    decreases b - a
  {
    if a < b {
      RingStartGrows(a, b - 1);
      assert RingStart(b) - RingStart(b - 1) == 6 * (b - 1);
    }
  }

  lemma MulSector(r: int, s: int)
    requires r >= 1 && 0 <= s <= 5
    ensures 0 <= r * s <= 5 * r
  {
    if s == 0 {} else if s == 1 {} else if s == 2 {} else if s == 3 {} else if s == 4 {} else {}
  }

  /** The cells of ring R >= 1 occupy the spiral indices RingStart(R) .. RingStart(R + 1) - 1. */
  lemma SpiralWithinRing(p: HexPolar)
    requires p.IsCell()
    ensures p.ring == 0 ==> PolarToSpiral(p).index == 0
    ensures p.ring >= 1 ==> RingStart(p.ring) <= PolarToSpiral(p).index < RingStart(p.ring + 1)
  {
    if p.ring >= 1 {
      var r, s, n := p.ring, p.sector, p.number;
      assert r * (3 * (r - 1) + s) == 3 * r * (r - 1) + r * s;
      MulSector(r, s);
      assert RingStart(r + 1) - RingStart(r) == 6 * r;
    }
  }

  lemma SpiralNonNegative(p: HexPolar)
    requires p.IsCell()
    ensures PolarToSpiral(p).index >= 0
  {
    if p.ring >= 1 {
      MulGrows(p.ring, 3 * (p.ring - 1) + p.sector);
    }
  }

  /** A cell lies within the first m + 1 rings exactly when its spiral index is below RingStart(m + 1). */
  lemma SpiralBelowRing(p: HexPolar, m: int)
    requires p.IsCell() && m >= 0
    ensures PolarToSpiral(p).index < RingStart(m + 1) <==> p.ring <= m
  {
    SpiralWithinRing(p);
    if p.ring <= m {
      RingStartGrows(p.ring + 1, m + 1);
    } else {
      RingStartGrows(m + 1, p.ring);
    }
  }

  /**
    The ring search of Spiral.hexpolar, started at ring r: the least ring
    r' >= r with i < 3 r' (r' + 1) + 1.
  */
  function RingSearch(r: nat, i: int): nat
    decreases i - r
  {
    if 3 * r * (r + 1) + 1 <= i then
      RingStartAbove(r);
      RingSearch(r + 1, i)
    else r
  }

  /** Ring r + 1 starts beyond index r, and 3 r (r + 1) + 1 is where it starts. */
  lemma RingStartAbove(r: nat)
    ensures RingStart(r + 1) == 3 * r * (r + 1) + 1 && RingStart(r + 1) > r
  {
    if r > 0 {
      MulGrows(3 * r, r + 1);
    }
  }

  lemma {:induction false} RingSearchBounds(r: nat, i: int)
    requires r == 0 || RingStart(r) <= i
    ensures var R := RingSearch(r, i);
            r <= R && i < RingStart(R + 1) && (R == 0 || RingStart(R) <= i)
    decreases i - r
  {
    RingStartAbove(r);
    if 3 * r * (r + 1) + 1 <= i {
      RingSearchBounds(r + 1, i);
    }
  }

  lemma {:induction false} RingSearchFinds(r: nat, i: int, R: nat)
    requires r <= R
    requires R == 0 || RingStart(R) <= i
    requires i < RingStart(R + 1)
    ensures RingSearch(r, i) == R
    decreases R - r
  {
    RingStartAbove(r);
    if r < R {
      RingStartGrows(r + 1, R);
      RingSearchFinds(r + 1, i, R);
    }
  }

  lemma {:induction false} MulGrows(a: int, d: int)
    requires a >= 1 && d >= 0
    ensures a * d >= d
    decreases a
  {
    if a > 1 {
      MulGrows(a - 1, d);
      assert a * d == (a - 1) * d + d;
    }
  }

  /** x == q * d + m with 0 <= m < d fixes the quotient and remainder. */
  lemma DivModUnique(x: int, d: int, q: int, m: int)
    requires d > 0 && 0 <= m < d && x == q * d + m
    ensures x / d == q && x % d == m
  {
    var q', m' := x / d, x % d;
    assert x == q' * d + m';
    if q > q' {
      MulGrows(q - q', d);
    } else if q < q' {
      MulGrows(q' - q, d);
    }
  }

  /** The quotient of 0 <= x < 6d by d lies in 0..5. */
  lemma SectorInRange(x: int, d: int)
    requires d > 0 && 0 <= x < 6 * d
    ensures 0 <= x / d <= 5 && 0 <= x % d < d
  {
    var q, m := x / d, x % d;
    assert x == q * d + m;
    if q > 5 {
      MulGrows(q - 5, d);
    }
  }

  /** Splitting an index of ring r into sector and number gives back that index. */
  lemma RingDecompose(i: int, r: int)
    requires r >= 1 && RingStart(r) <= i < RingStart(r + 1)
    ensures var pos := i - RingStart(r);
            && 0 <= pos / r <= 5 && 0 <= pos % r < r
            && r * (3 * (r - 1) + pos / r) + pos % r + 1 == i
  {
    var pos := i - RingStart(r);
    assert RingStart(r + 1) - RingStart(r) == 6 * r;
    SectorInRange(pos, r);
    RingOffset(r, pos / r, pos % r);
  }

  lemma RingOffset(r: int, s: int, n: int)
    ensures r * (3 * (r - 1) + s) + n + 1 == RingStart(r) + (s * r + n)
  {
  }

  /**
    Spiral.hexpolar. For every index >= 0 the result is a cell whose spiral
    index is that index; a negative index gives the origin.
  */
  function SpiralToPolar(s: Spiral): (p: HexPolar)
    ensures p.IsCell()
    ensures s.index >= 0 ==> PolarToSpiral(p) == s
    ensures s.index < 0 ==> p == Origin
  {
    var i := s.index;
    var r := RingSearch(0, i);
    RingSearchBounds(0, i);
    if r != 0 then
      var pos := i - RingStart(r);
      RingDecompose(i, r);
      HexPolar(r, pos / r, pos % r)
    else
      Origin
  }

  /** Spiral.hexpolar as written: a while loop that walks outward ring by ring. */
  method SpiralHexPolar(s: Spiral) returns (p: HexPolar)
    ensures p == SpiralToPolar(s)
    ensures p.IsCell()
    ensures s.index >= 0 ==> PolarToSpiral(p) == s
  {
    var r: nat := 0;
    var i := s.index;
    while 3 * r * (r + 1) + 1 <= i
      invariant RingSearch(r, i) == RingSearch(0, i)
      decreases i - r
    {
      RingStartAbove(r);
      r := r + 1;
    }
    assert RingSearch(r, i) == r;
    if r != 0 {
      var pos := i - (3 * r * (r - 1) + 1);
      p := HexPolar(r, pos / r, pos % r);
    } else {
      p := Origin;
    }
    assert p == SpiralToPolar(s);
  }

  /** Spiral -> HexPolar -> Spiral is the identity on indices >= 0 (cf. hexgrid's raw indices). */
  lemma SpiralPolarRoundTrip(i: int)
    requires i >= 0
    ensures PolarToSpiral(SpiralToPolar(Spiral(i))).index == i
  {
  }

  lemma SpiralOffset(r: int, s: int, n: int)
    requires r >= 1
    ensures r * (3 * (r - 1) + s) + n + 1 - RingStart(r) == s * r + n
  {
    assert r * (3 * (r - 1) + s) == 3 * r * (r - 1) + s * r;
  }

  /** HexPolar -> Spiral -> HexPolar is the identity on cells. */
  lemma PolarSpiralRoundTrip(p: HexPolar)
    requires p.IsCell()
    ensures SpiralToPolar(PolarToSpiral(p)) == p
  {
    var i := PolarToSpiral(p).index;
    SpiralWithinRing(p);
    if p.ring == 0 {
      RingSearchFinds(0, i, 0);
    } else {
      var r, s, n := p.ring, p.sector, p.number;
      RingSearchFinds(0, i, r);
      var pos := i - RingStart(r);
      SpiralOffset(r, s, n);
      DivModUnique(pos, r, s, n);
      assert SpiralToPolar(Spiral(i)) == HexPolar(r, pos / r, pos % r);
    }
  }

  // ---------------------------------------------------------------------
  // HexPolar <-> HexSkew

  /** HexPolar.hexskew: one linear map of (ring, number) per sector. */
  function PolarToSkew(p: HexPolar): HexSkew
    requires p.Valid()
  {
    var r, n := p.ring, p.number;
    match p.sector
    case 0 => HexSkew(r - n, n)
    case 1 => HexSkew(-n, r)
    case 2 => HexSkew(-r, r - n)
    case 3 => HexSkew(n - r, -n)
    case 4 => HexSkew(n, -r)
    case 5 => HexSkew(r, n - r)
  }

  function Abs(x: int): (a: int)
    ensures a >= 0 && (a == x || a == -x)
  {
    if x < 0 then -x else x
  }

  /**
    HexSkew.hexpolar: a case split on the signs of u and v and on which is
    larger. Every result passes the constructor's checks, and converting it
    back gives (u, v): every integer vector names exactly one cell.
  */
  function SkewToPolar(k: HexSkew): (p: HexPolar)
    ensures p.IsCell()
    ensures PolarToSkew(p) == k
  {
    var u, v := k.u, k.v;
    if u == 0 then
      if v == 0 then HexPolar(0, 0, 0)
      else if v > 0 then HexPolar(v, 1, 0)
      else HexPolar(-v, 4, 0)
    else if u > 0 then
      if v == 0 then HexPolar(u, 0, 0)
      else if v > 0 then HexPolar(u + v, 0, v)
      else if u >= Abs(v) then HexPolar(u, 5, u + v)
      else HexPolar(-v, 4, u)
    else
      if v == 0 then HexPolar(Abs(u), 3, 0)
      else if v < 0 then HexPolar(-(u + v), 3, -v)
      else if v > Abs(u) then HexPolar(v, 1, -u)
      else HexPolar(-u, 2, -u - v)
  }

  /** HexPolar -> HexSkew -> HexPolar is the identity on cells. */
  lemma PolarSkewRoundTrip(p: HexPolar)
    requires p.IsCell()
    ensures SkewToPolar(PolarToSkew(p)) == p
  {
    var r, n := p.ring, p.number;
    match p.sector
    case 0 => assert PolarToSkew(p) == HexSkew(r - n, n);
    case 1 => assert PolarToSkew(p) == HexSkew(-n, r);
    case 2 => assert PolarToSkew(p) == HexSkew(-r, r - n);
    case 3 => assert PolarToSkew(p) == HexSkew(n - r, -n);
    case 4 => assert PolarToSkew(p) == HexSkew(n, -r);
    case 5 => assert PolarToSkew(p) == HexSkew(r, n - r);
  }

  /** HexSkew.spiral */
  function SkewToSpiral(k: HexSkew): (s: Spiral)
    ensures s.index >= 0
  {
    SpiralNonNegative(SkewToPolar(k));
    PolarToSpiral(SkewToPolar(k))
  }

  /** Spiral.hexskew */
  function SpiralToSkew(s: Spiral): HexSkew {
    PolarToSkew(SpiralToPolar(s))
  }

  /** HexSkew -> Spiral -> HexSkew is the identity on all of Z x Z. */
  lemma SkewSpiralRoundTrip(k: HexSkew)
    ensures SpiralToSkew(SkewToSpiral(k)) == k
  {
    PolarSpiralRoundTrip(SkewToPolar(k));
  }

  /** Spiral -> HexSkew -> Spiral is the identity on indices >= 0. */
  lemma SpiralSkewRoundTrip(i: int)
    requires i >= 0
    ensures SkewToSpiral(SpiralToSkew(Spiral(i))) == Spiral(i)
  {
    PolarSkewRoundTrip(SpiralToPolar(Spiral(i)));
  }

  /** Two cells with the same skew vector are the same cell. */
  lemma SkewInjective(p: HexPolar, q: HexPolar)
    requires p.IsCell() && q.IsCell()
    requires PolarToSkew(p) == PolarToSkew(q)
    ensures p == q
  {
    PolarSkewRoundTrip(p);
    PolarSkewRoundTrip(q);
  }

  // ---------------------------------------------------------------------
  // Neighbours

  /**
    The argument triples of the six HexPolar constructor calls made by
    HexPolar.neighbours: the origin, a corner (number 0) and a side cell.
  */
  function NeighbourArgs(p: HexPolar): (args: seq<(int, int, int)>)
    requires p.Valid()
    ensures |args| == 6
  {
    var ring, sector, number := p.ring, p.sector, p.number;
    if ring == 0 then
      [(1, 0, 0), (1, 1, 0), (1, 2, 0), (1, 3, 0), (1, 4, 0), (1, 5, 0)]
    else if number == 0 then
      var ring1 := ring == 1;
      [ (ring - 1, if ring1 then 0 else sector, 0),                       // same corner, one ring in
        (ring + 1, sector, 0),                                           // same corner, one ring out
        (ring, if ring1 then (sector + 1) % 6 else sector, if ring1 then 0 else 1), // anticlockwise
        (ring, (sector + 5) % 6, ring - 1),                              // clockwise
        (ring + 1, sector, 1),                                           // anticlockwise and out
        (ring + 1, (sector + 5) % 6, ring) ]                             // clockwise and out
    else
      var end := number + 1 == ring;
      var splus := if end then (sector + 1) % 6 else sector;
      [ (ring, sector, number - 1),                // clockwise
        (ring, splus, (number + 1) % ring),        // anticlockwise
        (ring - 1, sector, number - 1),            // clockwise and in
        (ring - 1, splus, if end then 0 else number), // one ring in
        (ring + 1, sector, number),                // one ring out
        (ring + 1, sector, number + 1) ]           // anticlockwise and out
  }

  /**
    Constructs a HexPolar from each triple in order, as a Python list display
    does: the first constructor call that raises ends the whole expression.
  */
  function ConstructAll(args: seq<(int, int, int)>): (r: Result<seq<HexPolar>, PolarError>)
    ensures r.Ok? <==> forall k :: 0 <= k < |args| ==> HexPolar(args[k].0, args[k].1, args[k].2).Valid()
    ensures r.Ok? ==> |r.value| == |args|
    ensures r.Ok? ==> forall k :: 0 <= k < |args| ==> r.value[k] == HexPolar(args[k].0, args[k].1, args[k].2)
  {
    if args == [] then Ok([])
    else
      match MakePolar(args[0].0, args[0].1, args[0].2)
      case Err(e) => Err(e)
      case Ok(first) =>
        match ConstructAll(args[1..])
        case Err(e) => Err(e)
        case Ok(rest) => Ok([first] + rest)
  }

  /**
    HexPolar.neighbours. For a cell, none of the six constructor calls
    raises and every neighbour is again a cell.
  */
  function Neighbours(p: HexPolar): (r: Result<seq<HexPolar>, PolarError>)
    requires p.Valid()
    ensures p.IsCell() ==> r.Ok? && |r.value| == 6
    ensures p.IsCell() ==> forall k :: 0 <= k < 6 ==> r.value[k].IsCell()
  {
    NeighbourArgsAreCells(p);
    ConstructAll(NeighbourArgs(p))
  }

  /** Every argument triple neighbours builds for a cell names a cell. */
  lemma NeighbourArgsAreCells(p: HexPolar)
    requires p.Valid()
    ensures p.IsCell() ==>
              var a := NeighbourArgs(p);
              forall k :: 0 <= k < 6 ==> HexPolar(a[k].0, a[k].1, a[k].2).IsCell()
  {
    if p.IsCell() && p.ring >= 1 && p.number >= 1 {
      var r, n := p.ring, p.number;
      if n + 1 == r {
        DivModUnique(n + 1, r, 1, 0);
      } else {
        DivModUnique(n + 1, r, 0, n + 1);
      }
    }
  }

  /** The six unit skew vectors of the lattice, anticlockwise from (1, 0). */
  const Directions: seq<HexSkew> :=
    [HexSkew(1, 0), HexSkew(0, 1), HexSkew(-1, 1), HexSkew(-1, 0), HexSkew(0, -1), HexSkew(1, -1)]

  /** The skew vector from one cell to another. */
  function Step(from: HexPolar, to: HexPolar): HexSkew
    requires from.Valid() && to.Valid()
  {
    var a, b := PolarToSkew(from), PolarToSkew(to);
    HexSkew(b.u - a.u, b.v - a.v)
  }

  /** The steps from a cell to its six neighbours, in the order neighbours lists them. */
  function Steps(p: HexPolar): seq<HexSkew>
    requires p.IsCell()
  {
    var ns := Neighbours(p).value;
    [Step(p, ns[0]), Step(p, ns[1]), Step(p, ns[2]), Step(p, ns[3]), Step(p, ns[4]), Step(p, ns[5])]
  }

  /** A step to an adjacent cell: a nonzero vector with u, v and u + v each in -1..1. */
  predicate IsUnitStep(d: HexSkew) {
    && d != HexSkew(0, 0)
    && -1 <= d.u <= 1 && -1 <= d.v <= 1 && -1 <= d.u + d.v <= 1
  }

  /** Directions lists the unit steps, each once. */
  lemma DirectionsAreUnitSteps(d: HexSkew)
    ensures IsUnitStep(d) <==> d in Directions
  {
    if IsUnitStep(d) {
      if d.u == 1 {
        assert d == Directions[0] || d == Directions[5];
      } else if d.u == 0 {
        assert d == Directions[1] || d == Directions[4];
      } else {
        assert d == Directions[2] || d == Directions[3];
      }
    }
  }

  /**
    Six steps that include every direction: each direction occurs exactly
    once, and nothing else occurs.
  */
  ghost predicate StepsCoverDirections(steps: seq<HexSkew>) {
    && |steps| == 6
    && (forall j :: 0 <= j < 6 ==> Directions[j] in steps)
    && (forall k :: 0 <= k < 6 ==> IsUnitStep(steps[k]))
    && (forall j, k :: 0 <= j < k < 6 ==> steps[j] != steps[k])
  }

  /** A sixth of a turn anticlockwise, in skew coordinates. */
  function Rotate(k: HexSkew): HexSkew {
    HexSkew(-k.v, k.u + k.v)
  }

  function Unrotate(k: HexSkew): (r: HexSkew)
    ensures Rotate(r) == k
  {
    HexSkew(k.u + k.v, -k.u)
  }

  /** The same position one sector further anticlockwise; the origin stays put. */
  function Turn(p: HexPolar): HexPolar {
    if p.ring == 0 then p else HexPolar(p.ring, (p.sector + 1) % 6, p.number)
  }

  /** Turning a cell rotates its skew vector. */
  lemma TurnRotates(p: HexPolar)
    requires p.IsCell()
    ensures Turn(p).IsCell()
    ensures PolarToSkew(Turn(p)) == Rotate(PolarToSkew(p))
  {
    match p.sector {
      case 0 => case 1 => case 2 => case 3 => case 4 => case 5 =>
    }
  }

  /** An argument triple turned by a sixth of a turn; ring 0 stays put. */
  predicate TripleTurned(a: (int, int, int), t: (int, int, int)) {
    t == if a.0 == 0 then a else (a.0, (a.1 + 1) % 6, a.2)
  }

  /** Turning a cell turns each of its neighbours' argument triples, in the same order. */
  ghost predicate ArgsTurned(p: HexPolar)
    requires p.Valid()
  {
    var a, ta := NeighbourArgs(p), NeighbourArgs(Turn(p));
    && TripleTurned(a[0], ta[0]) && TripleTurned(a[1], ta[1]) && TripleTurned(a[2], ta[2])
    && TripleTurned(a[3], ta[3]) && TripleTurned(a[4], ta[4]) && TripleTurned(a[5], ta[5])
  }

  lemma TurnNeighbourArgs(p: HexPolar)
    requires p.IsCell() && p.ring >= 1
    ensures ArgsTurned(p)
  {
    if p.number != 0 {
      TurnSideArgs(p);
    } else if p.ring == 1 {
      TurnInnerCornerArgs(p);
    } else {
      TurnOuterCornerArgs(p);
    }
  }

  lemma TurnSideArgs(p: HexPolar)
    requires p.IsCell() && p.ring >= 1 && p.number != 0
    ensures ArgsTurned(p)
  {
    match p.sector {
      case 0 =>
      case 1 =>
      case 2 =>
      case 3 =>
      case 4 =>
      case 5 =>
    }
  }

  lemma TurnInnerCornerArgs(p: HexPolar)
    requires p.IsCell() && p.ring == 1 && p.number == 0
    ensures ArgsTurned(p)
  {
    var s := p.sector;
    var t := (s + 1) % 6;
    SectorTurn(s);
    assert Turn(p) == HexPolar(1, t, 0);
    assert NeighbourArgs(p) == [(0, 0, 0), (2, s, 0), (1, t, 0), (1, (s + 5) % 6, 0), (2, s, 1), (2, (s + 5) % 6, 1)];
    assert NeighbourArgs(Turn(p)) == [(0, 0, 0), (2, t, 0), (1, (t + 1) % 6, 0), (1, s, 0), (2, t, 1), (2, s, 1)];
  }

  /** Sector arithmetic: one step anticlockwise, and the step back. */
  lemma SectorTurn(s: int)
    requires 0 <= s <= 5
    ensures 0 <= (s + 1) % 6 <= 5 && ((s + 1) % 6 + 5) % 6 == s && ((s + 5) % 6 + 1) % 6 == s
  {
    match s {
      case 0 =>
      case 1 =>
      case 2 =>
      case 3 =>
      case 4 =>
      case 5 =>
    }
  }

  lemma TurnOuterCornerArgs(p: HexPolar)
    requires p.IsCell() && p.ring >= 2 && p.number == 0
    ensures ArgsTurned(p)
  {
    match p.sector {
      case 0 =>
      case 1 =>
      case 2 =>
      case 3 =>
      case 4 =>
      case 5 =>
    }
  }

  /** Turning a cell turns each of its neighbours, in the same order. */
  lemma TurnNeighbours(p: HexPolar)
    requires p.IsCell() && p.ring >= 1
    ensures Turn(p).IsCell()
    ensures var ns, tns := Neighbours(p).value, Neighbours(Turn(p)).value;
            forall k :: 0 <= k < 6 ==> tns[k] == Turn(ns[k])
  {
    TurnRotates(p);
    TurnNeighbourArgs(p);
    NeighboursFromArgs(p);
    NeighboursFromArgs(Turn(p));
    TurnConstructed(NeighbourArgs(p), NeighbourArgs(Turn(p)), Neighbours(p).value, Neighbours(Turn(p)).value);
  }

  /** Each neighbour of a cell is the cell its argument triple names. */
  lemma NeighboursFromArgs(p: HexPolar)
    requires p.IsCell()
    ensures var a, ns := NeighbourArgs(p), Neighbours(p).value;
            |ns| == 6 && forall k :: 0 <= k < 6 ==> ns[k] == HexPolar(a[k].0, a[k].1, a[k].2)
  {
  }

  /** Six argument triples turned one by one name the turned cells. */
  lemma TurnConstructed(a: seq<(int, int, int)>, ta: seq<(int, int, int)>, ns: seq<HexPolar>, tns: seq<HexPolar>)
    requires |a| == 6 && |ta| == 6 && |ns| == 6 && |tns| == 6
    requires && TripleTurned(a[0], ta[0]) && TripleTurned(a[1], ta[1]) && TripleTurned(a[2], ta[2])
             && TripleTurned(a[3], ta[3]) && TripleTurned(a[4], ta[4]) && TripleTurned(a[5], ta[5])
    requires forall k :: 0 <= k < 6 ==> ns[k] == HexPolar(a[k].0, a[k].1, a[k].2)
    requires forall k :: 0 <= k < 6 ==> tns[k] == HexPolar(ta[k].0, ta[k].1, ta[k].2)
    ensures forall k :: 0 <= k < 6 ==> tns[k] == Turn(ns[k])
  {
    forall k | 0 <= k < 6
      ensures tns[k] == Turn(ns[k])
    {
      assert TripleTurned(a[k], ta[k]) by {
        if k == 0 {} else if k == 1 {} else if k == 2 {} else if k == 3 {} else if k == 4 {} else {}
      }
    }
  }

  /** Turning both ends of a step rotates the step. */
  lemma TurnStep(p: HexPolar, q: HexPolar)
    requires p.IsCell() && q.IsCell()
    ensures Turn(p).IsCell() && Turn(q).IsCell()
    ensures Step(Turn(p), Turn(q)) == Rotate(Step(p, q))
  {
    TurnRotates(p);
    TurnRotates(q);
  }

  /** Turning a cell rotates each of its steps. */
  lemma TurnSteps(p: HexPolar)
    requires p.IsCell() && p.ring >= 1
    ensures Turn(p).IsCell()
    ensures forall k :: 0 <= k < 6 ==> Steps(Turn(p))[k] == Rotate(Steps(p)[k])
  {
    TurnNeighbours(p);
    StepsAt(p);
    StepsAt(Turn(p));
    var ns := Neighbours(p).value;
    forall k | 0 <= k < 6
      ensures Steps(Turn(p))[k] == Rotate(Steps(p)[k])
    {
      TurnStep(p, ns[k]);
    }
  }

  /** Rotating a direction gives the next one in Directions. */
  lemma RotateNext(j: int)
    requires 0 <= j < 6
    ensures Rotate(Directions[j]) == Directions[if j == 5 then 0 else j + 1]
  {
  }

  /** Rotation permutes the unit steps, so it keeps StepsCoverDirections. */
  lemma RotationKeepsCover(steps: seq<HexSkew>, turned: seq<HexSkew>)
    requires StepsCoverDirections(steps)
    requires |turned| == 6 && forall k :: 0 <= k < 6 ==> turned[k] == Rotate(steps[k])
    ensures StepsCoverDirections(turned)
  {
    forall j | 0 <= j < 6
      ensures Directions[j] in turned
    {
      var i := if j == 0 then 5 else j - 1;
      RotateNext(i);
      assert Directions[i] in steps;
      var k :| 0 <= k < 6 && steps[k] == Directions[i];
      assert turned[k] == Directions[j];
    }
    forall k | 0 <= k < 6
      ensures IsUnitStep(turned[k])
    {
      assert IsUnitStep(steps[k]);
    }
    forall j, k | 0 <= j < k < 6
      ensures turned[j] != turned[k]
    {
      assert Unrotate(turned[j]) == steps[j] && Unrotate(turned[k]) == steps[k];
    }
  }

  /** The steps of a sector-0 corner and of a sector-0 side cell, in neighbours' order. */
  const CornerRow: seq<HexSkew> :=
    [HexSkew(-1, 0), HexSkew(1, 0), HexSkew(-1, 1), HexSkew(0, -1), HexSkew(0, 1), HexSkew(1, -1)]
  const SideRow: seq<HexSkew> :=
    [HexSkew(1, -1), HexSkew(-1, 1), HexSkew(0, -1), HexSkew(-1, 0), HexSkew(1, 0), HexSkew(0, 1)]

  lemma DirectionsCover()
    ensures StepsCoverDirections(Directions)
  {
  }

  lemma CornerRowCovers()
    ensures StepsCoverDirections(CornerRow)
  {
  }

  lemma SideRowCovers()
    ensures StepsCoverDirections(SideRow)
  {
  }

  lemma CornerStepsSector0(p: HexPolar)
    requires p.IsCell() && p.ring >= 2 && p.number == 0 && p.sector == 0
    ensures StepsCoverDirections(Steps(p))
  {
    CornerRowCovers();
    var r := p.ring;
    assert Neighbours(p).value == [HexPolar(r - 1, 0, 0), HexPolar(r + 1, 0, 0), HexPolar(r, 0, 1),
                                   HexPolar(r, 5, r - 1), HexPolar(r + 1, 0, 1), HexPolar(r + 1, 5, r)];
    assert Steps(p) == CornerRow;
  }

  lemma OriginSteps()
    ensures StepsCoverDirections(Steps(Origin))
  {
    DirectionsCover();
    assert Steps(Origin) == Directions;
  }

  lemma FirstCornerSteps()
    ensures StepsCoverDirections(Steps(HexPolar(1, 0, 0)))
  {
    CornerRowCovers();
    assert Steps(HexPolar(1, 0, 0)) == CornerRow;
  }

  lemma SideEndNeighboursSector0(p: HexPolar)
    requires p.IsCell() && p.number >= 1 && p.number + 1 == p.ring && p.sector == 0
    ensures var r, n := p.ring, p.number;
            Neighbours(p).value == [HexPolar(r, 0, n - 1), HexPolar(r, 1, 0), HexPolar(r - 1, 0, n - 1),
                                    HexPolar(r - 1, 1, 0), HexPolar(r + 1, 0, n), HexPolar(r + 1, 0, n + 1)]
  {
    var r, n := p.ring, p.number;
    DivModUnique(n + 1, r, 1, 0);
    assert NeighbourArgs(p) == [(r, 0, n - 1), (r, 1, 0), (r - 1, 0, n - 1),
                                (r - 1, 1, 0), (r + 1, 0, n), (r + 1, 0, n + 1)];
  }

  lemma SideEndStepsSector0(p: HexPolar)
    requires p.IsCell() && p.number >= 1 && p.number + 1 == p.ring && p.sector == 0
    ensures StepsCoverDirections(Steps(p))
  {
    SideRowCovers();
    SideEndNeighboursSector0(p);
    var r := p.ring;
    assert PolarToSkew(p) == HexSkew(1, r - 1);
    var ns := Neighbours(p).value;
    assert PolarToSkew(ns[0]) == HexSkew(2, r - 2);
    assert PolarToSkew(ns[1]) == HexSkew(0, r);
    assert PolarToSkew(ns[2]) == HexSkew(1, r - 2);
    assert PolarToSkew(ns[3]) == HexSkew(0, r - 1);
    assert PolarToSkew(ns[4]) == HexSkew(2, r - 1);
    assert PolarToSkew(ns[5]) == HexSkew(1, r);
    assert Steps(p) == SideRow;
  }

  lemma SideStepsSector0(p: HexPolar)
    requires p.IsCell() && p.number >= 1 && p.number + 1 < p.ring && p.sector == 0
    ensures StepsCoverDirections(Steps(p))
  {
    SideRowCovers();
    var r, n := p.ring, p.number;
    DivModUnique(n + 1, r, 0, n + 1);
    assert Neighbours(p).value == [HexPolar(r, 0, n - 1), HexPolar(r, 0, n + 1), HexPolar(r - 1, 0, n - 1),
                                   HexPolar(r - 1, 0, n), HexPolar(r + 1, 0, n), HexPolar(r + 1, 0, n + 1)];
    assert Steps(p) == SideRow;
  }

  /**
    The neighbours of a cell lie one unit step away from it, one in each of
    the six directions: six distinct steps, each one of Directions.
  */
  lemma {:induction false} NeighbourSteps(p: HexPolar)
    requires p.IsCell()
    ensures StepsCoverDirections(Steps(p))
    decreases p.sector
  {
    if p.ring == 0 {
      assert p == Origin;
      OriginSteps();
    } else if p.sector == 0 {
      if p.number >= 1 && p.number + 1 == p.ring {
        SideEndStepsSector0(p);
      } else if p.number >= 1 {
        SideStepsSector0(p);
      } else if p.ring == 1 {
        FirstCornerSteps();
      } else {
        CornerStepsSector0(p);
      }
    } else {
      var q := HexPolar(p.ring, p.sector - 1, p.number);
      assert Turn(q) == p;
      NeighbourSteps(q);
      TurnKeepsCover(q);
    }
  }

  /** The induction step: turning a covering cell gives a covering cell. */
  lemma TurnKeepsCover(q: HexPolar)
    requires q.IsCell() && q.ring >= 1
    requires StepsCoverDirections(Steps(q))
    ensures Turn(q).IsCell() && StepsCoverDirections(Steps(Turn(q)))
  {
    TurnSteps(q);
    RotationKeepsCover(Steps(q), Steps(Turn(q)));
  }

  /**
    The neighbours of a cell are exactly the cells one unit step away from it.
  */
  lemma NeighbourIffUnitStep(p: HexPolar, q: HexPolar)
    requires p.IsCell() && q.IsCell()
    ensures q in Neighbours(p).value <==> IsUnitStep(Step(p, q))
  {
    if q in Neighbours(p).value {
      NeighbourIsUnitStep(p, q);
    }
    if IsUnitStep(Step(p, q)) {
      UnitStepIsNeighbour(p, q);
    }
  }

  /** NeighbourSteps restated over the neighbours themselves rather than the Steps sequence. */
  lemma NeighbourStepFacts(p: HexPolar)
    requires p.IsCell()
    ensures var ns := Neighbours(p).value;
            && |ns| == 6
            && (forall k :: 0 <= k < 6 ==> ns[k].IsCell() && IsUnitStep(Step(p, ns[k])))
            && (forall d :: IsUnitStep(d) ==> exists k :: 0 <= k < 6 && Step(p, ns[k]) == d)
  {
    NeighbourSteps(p);
    StepsAt(p);
    NeighbourStepsUnit(p, Neighbours(p).value, Steps(p));
    NeighbourStepsReach(p, Neighbours(p).value, Steps(p));
  }

  lemma NeighbourStepsUnit(p: HexPolar, ns: seq<HexPolar>, steps: seq<HexSkew>)
    requires p.IsCell() && |ns| == 6 && forall k :: 0 <= k < 6 ==> ns[k].Valid()
    requires StepsCoverDirections(steps)
    requires forall k :: 0 <= k < 6 ==> steps[k] == Step(p, ns[k])
    ensures forall k :: 0 <= k < 6 ==> IsUnitStep(Step(p, ns[k]))
  {
    forall k | 0 <= k < 6
      ensures IsUnitStep(Step(p, ns[k]))
    {
      assert steps[k] == Step(p, ns[k]);
    }
  }

  lemma NeighbourStepsReach(p: HexPolar, ns: seq<HexPolar>, steps: seq<HexSkew>)
    requires p.IsCell() && |ns| == 6 && forall k :: 0 <= k < 6 ==> ns[k].Valid()
    requires StepsCoverDirections(steps)
    requires forall k :: 0 <= k < 6 ==> steps[k] == Step(p, ns[k])
    ensures forall d :: IsUnitStep(d) ==> exists k :: 0 <= k < 6 && Step(p, ns[k]) == d
  {
    forall d | IsUnitStep(d)
      ensures exists k :: 0 <= k < 6 && Step(p, ns[k]) == d
    {
      DirectionsAreUnitSteps(d);
      var j :| 0 <= j < 6 && Directions[j] == d;
      assert d in steps;
      var k :| 0 <= k < 6 && steps[k] == d;
      assert Step(p, ns[k]) == d;
    }
  }

  lemma StepsAt(p: HexPolar)
    requires p.IsCell()
    ensures forall k :: 0 <= k < 6 ==> Steps(p)[k] == Step(p, Neighbours(p).value[k])
  {
  }

  /** Equal steps from one cell lead to the same cell. */
  lemma StepCancel(p: HexPolar, a: HexPolar, b: HexPolar)
    requires p.IsCell() && a.IsCell() && b.IsCell()
    requires Step(p, a) == Step(p, b)
    ensures a == b
  {
    assert PolarToSkew(a) == PolarToSkew(b);
    SkewInjective(a, b);
  }

  lemma NeighbourIsUnitStep(p: HexPolar, q: HexPolar)
    requires p.IsCell() && q.IsCell()
    requires q in Neighbours(p).value
    ensures IsUnitStep(Step(p, q))
  {
    var ns := Neighbours(p).value;
    NeighbourStepFacts(p);
    var k :| 0 <= k < 6 && ns[k] == q;
    assert IsUnitStep(Step(p, ns[k]));
  }

  lemma UnitStepIsNeighbour(p: HexPolar, q: HexPolar)
    requires p.IsCell() && q.IsCell()
    requires IsUnitStep(Step(p, q))
    ensures q in Neighbours(p).value
  {
    var ns := Neighbours(p).value;
    NeighbourStepFacts(p);
    var m :| 0 <= m < 6 && Step(p, ns[m]) == Step(p, q);
    StepCancel(p, ns[m], q);
  }

  /** hexagons.py never lists q beside p without also listing p beside q. */
  lemma NeighboursSymmetric(p: HexPolar, q: HexPolar)
    requires p.IsCell() && q.IsCell()
    requires q in Neighbours(p).value
    ensures p in Neighbours(q).value
  {
    NeighbourIffUnitStep(p, q);
    NeighbourIffUnitStep(q, p);
  }

  /** A cell is never its own neighbour, and its six neighbours are distinct. */
  lemma NeighboursDistinct(p: HexPolar)
    requires p.IsCell()
    ensures p !in Neighbours(p).value
    ensures var ns := Neighbours(p).value;
            forall j, k :: 0 <= j < k < 6 ==> ns[j] != ns[k]
  {
    if p in Neighbours(p).value {
      NeighbourIsUnitStep(p, p);
    }
    NeighbourSteps(p);
    StepsAt(p);
    var ns := Neighbours(p).value;
    forall j, k | 0 <= j < k < 6
      ensures ns[j] != ns[k]
    {
      assert Steps(p)[j] != Steps(p)[k];
    }
  }

  /** Worked values: the first cells of rings 1 and 2, and the origin. */
  lemma SpiralExamples()
    ensures PolarToSpiral(HexPolar(1, 0, 0)) == Spiral(1)
    ensures PolarToSpiral(HexPolar(1, 5, 0)) == Spiral(6)
    ensures PolarToSpiral(HexPolar(2, 0, 0)) == Spiral(7)
    ensures SpiralToPolar(Spiral(0)) == Origin
    ensures SpiralToPolar(Spiral(7)) == HexPolar(2, 0, 0)
    ensures PolarToSkew(HexPolar(2, 1, 1)) == HexSkew(-1, 2)
  {
    RingSearchFinds(0, 0, 0);
    RingSearchFinds(0, 7, 2);
  }

  /**
    The constructor lets a negative number through: HexPolar(1, 0, -1) is
    accepted, lands on spiral index 0 and so does not come back from it.
  */
  lemma NegativeNumberAccepted()
    ensures MakePolar(1, 0, -1) == Ok(HexPolar(1, 0, -1))
    ensures !HexPolar(1, 0, -1).IsCell()
    ensures PolarToSpiral(HexPolar(1, 0, -1)) == Spiral(0)
    ensures SpiralToPolar(PolarToSpiral(HexPolar(1, 0, -1))) != HexPolar(1, 0, -1)
  {
  }

  /** Asking a constructed but non-cell position for its neighbours can raise. */
  lemma NeighboursOfNonCellRaise()
    ensures HexPolar(1, 3, -1).Valid()
    ensures Neighbours(HexPolar(1, 3, -1)).Err?
  {
  }
}
