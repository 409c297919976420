/**
  The hexagon grid of hexgrid.py: a flat list of cells, one per spiral index
  of the first maxradius + 1 rings, addressed by a plain integer (with Python
  list semantics) or by any of the three coordinate systems.
*/
module HexGrid {
  import opened Results
  import opened Hexagons

  /** The index a grid is subscripted with: a bare int or a coordinate object. */
  datatype Coord = Raw(i: int) | Polar(p: HexPolar) | SpiralAt(s: Spiral) | Skew(k: HexSkew)
  {
    /** Every HexPolar in the program went through the constructor's checks. */
    predicate WellFormed() {
      Polar? ==> p.Valid()
    }
  }

  /** The list subscript a grid access uses: the int itself, or `index.spiral().index`. */
  function SlotOf(c: Coord): int
    requires c.WellFormed()
  {
    match c
    case Raw(i) => i
    case Polar(p) => PolarToSpiral(p).index
    case SpiralAt(s) => s.index
    case Skew(k) => SkewToSpiral(k).index
  }

  /**
    Python's subscript of a list of length len: indices -len .. -1 count from
    the end, anything outside -len .. len - 1 raises IndexError (None here).
    The position reached is the subscript modulo len.
  */
  function ListIndex(len: nat, i: int): (r: Option<nat>)
    ensures r.Some? <==> -(len as int) <= i < len
    ensures r.Some? ==> r.value < len && r.value == i % len
  {
    if 0 <= i < len then Some(i)
    else if -(len as int) <= i < 0 then Some(len + i)
    else None
  }

  /** The number of cells in rings 0 .. m: the spiral index of the first cell of ring m + 1. */
  function Capacity(m: int): (n: nat)
    requires m >= -1
    ensures m == -1 ==> n == 0
    ensures m >= 0 ==> n == 3 * m * (m + 1) + 1
  {
    assert m >= 0 ==> (m + 1) * (3 * m) >= 0;
    PolarToSpiral(HexPolar(m + 1, 0, 0)).index
  }

  /** A grid of maxradius m holds exactly the cells of rings 0 .. m. */
  lemma CapacityCountsCells(m: int, p: HexPolar)
    requires m >= -1 && p.IsCell()
    ensures PolarToSpiral(p).index < Capacity(m) <==> p.ring <= m
  {
    if m >= 0 {
      assert Capacity(m) == RingStart(m + 1);
      SpiralBelowRing(p, m);
    }
  }

  lemma {:induction false} CapacityGrows(a: int, b: int)
    requires -1 <= a <= b
    ensures Capacity(a) <= Capacity(b)
  {
    if a >= 0 {
      RingStartGrows(a + 1, b + 1);
    }
  }

  datatype GridError = IndexError

  /** A coordinate as a skew vector: `c.hexskew()`, an int being read as a Spiral. */
  function SkewOf(c: Coord): HexSkew
    requires c.WellFormed()
  {
    match c
    case Raw(i) => SpiralToSkew(Spiral(i))
    case Polar(p) => PolarToSkew(p)
    case SpiralAt(s) => SpiralToSkew(s)
    case Skew(k) => k
  }

  /** `c.hexskew()` as the source runs it: a Spiral goes through the ring search of Spiral.hexpolar. */
  method HexSkewOf(c: Coord) returns (k: HexSkew)
    requires c.WellFormed()
    ensures k == SkewOf(c)
  {
    match c {
      case Raw(i) =>
        var q := SpiralHexPolar(Spiral(i));
        k := PolarToSkew(q);
      case Polar(p) =>
        k := PolarToSkew(p);
      case SpiralAt(s) =>
        var q := SpiralHexPolar(s);
        k := PolarToSkew(q);
      case Skew(k0) =>
        k := k0;
    }
  }

  /** The source spiral index that entry i of a subgrid centred on `at` is copied from. */
  function SubgridSource(at: Coord, i: int): (j: int)
    requires at.WellFormed()
    ensures j >= 0
  {
    var c, rel := SkewOf(at), SpiralToSkew(Spiral(i));
    SkewToSpiral(HexSkew(c.u + rel.u, c.v + rel.v)).index
  }

  /**
    The value entry i of grid.subgrid(at, radius, defval) receives from a grid
    holding cs: the cell at the same offset from `at` as spiral cell i is from
    the origin, or defval when that cell lies beyond the grid.
  */
  function SubgridEntry<T>(cs: seq<Option<T>>, at: Coord, i: int, defval: Option<T>): Option<T>
    requires at.WellFormed()
  {
    var j := SubgridSource(at, i);
    if j >= |cs| then defval else cs[j]
  }

  class HexagonGrid<T> {
    var maxradius: int
    var contents: seq<Option<T>>

    ghost predicate Valid()
      reads this
    {
      maxradius >= -1 && |contents| == Capacity(maxradius)
    }

    /** HexagonGrid(maxradius): every cell of rings 0 .. maxradius, all None. */
    constructor (maxradius: int)
      requires maxradius >= -1
      ensures Valid()
      ensures this.maxradius == maxradius
      ensures |contents| == Capacity(maxradius)
      ensures forall i :: 0 <= i < |contents| ==> contents[i] == None
    {
      this.maxradius := maxradius;
      var length := PolarToSpiral(HexPolar(maxradius + 1, 0, 0)).index;
      contents := seq(length, _ => None);
    }

    /** len(grid): the number of cells in rings 0 .. maxradius. */
    function Length(): (n: nat)
      reads this
      requires Valid()
      ensures n == Capacity(maxradius)
      ensures maxradius >= 0 ==> n == 3 * maxradius * (maxradius + 1) + 1
    {
      |contents|
    }

    /** grid[index]: the cell's value, or IndexError when the subscript is out of range. */
    function Get(c: Coord): (r: Result<Option<T>, GridError>)
      reads this
      requires c.WellFormed()
      ensures r.Ok? <==> -|contents| <= SlotOf(c) < |contents|
      ensures r.Ok? ==> r.value == contents[SlotOf(c) % |contents|]
    {
      match ListIndex(|contents|, SlotOf(c))
      case None => Err(IndexError)
      case Some(j) => Ok(contents[j])
    }

    /** grid[index] = value: overwrites the one cell addressed, or raises IndexError. */
    method Set(c: Coord, value: Option<T>) returns (r: Result<(), GridError>)
      requires c.WellFormed()
      modifies this
      ensures old(Valid()) ==> Valid()
      ensures maxradius == old(maxradius)
      ensures r.Ok? <==> -|old(contents)| <= SlotOf(c) < |old(contents)|
      ensures r.Err? ==> contents == old(contents)
      ensures r.Ok? ==> contents == old(contents)[SlotOf(c) % |old(contents)| := value]
    {
      match ListIndex(|contents|, SlotOf(c))
      case None =>
        r := Err(IndexError);
      case Some(j) =>
        contents := contents[j := value];
        r := Ok(());
    }

    /** grid.fill(value): every cell gets value, the size is kept. */
    method Fill(value: Option<T>)
      modifies this
      ensures old(Valid()) ==> Valid()
      ensures maxradius == old(maxradius)
      ensures |contents| == |old(contents)|
      ensures forall i :: 0 <= i < |contents| ==> contents[i] == value
    {
      contents := seq(|contents|, _ => value);
    }

    /** grid.subgrid(at, radius=1, defval=None) */
    method Subgrid(at: Coord, radius: int := 1, defval: Option<T> := None) returns (ret: HexagonGrid<T>)
      requires at.WellFormed() && radius >= -1
      ensures fresh(ret) && ret.Valid() && ret.maxradius == radius
      ensures forall i :: 0 <= i < |ret.contents| ==> ret.contents[i] == SubgridEntry(contents, at, i, defval)
    {
      ret := new HexagonGrid(radius);
      var shs := HexSkewOf(at);
      var n := |ret.contents|;
      ghost var cs := contents;
      for i := 0 to n
        invariant ret.Valid() && ret.maxradius == radius && |ret.contents| == n
        invariant forall k :: 0 <= k < i ==> ret.contents[k] == SubgridEntry(cs, at, k, defval)
      {
        var rel := HexSkewOf(SpiralAt(Spiral(i)));
        var src := HexSkew(shs.u + rel.u, shs.v + rel.v);
        var index := SkewToSpiral(src).index;
        assert index == SubgridSource(at, i);
        var value;
        if index >= |contents| {
          value := defval;
        } else {
          var got := Get(Raw(index));
          DivModUnique(index, |contents|, 0, index);
          value := got.value;
        }
        assert value == SubgridEntry(cs, at, i, defval);
        DivModUnique(i, n, 0, i);
        var _ := ret.Set(Raw(i), value);
      }
    }
  }

  /** Entry 0 of a subgrid is the cell it is centred on, whenever that cell is in the grid. */
  lemma SubgridCentre<T>(g: HexagonGrid<T>, at: Coord, defval: Option<T>)
    requires g.Valid() && at.WellFormed()
    requires at.Polar? ==> at.p.IsCell()
    requires 0 <= SlotOf(at) < |g.contents|
    ensures SubgridEntry(g.contents, at, 0, defval) == g.Get(at).value
  {
    CentreSlot(at);
    DivModUnique(SlotOf(at), |g.contents|, 0, SlotOf(at));
  }

  /**
    The centre of a subgrid must be a cell for entry 0 to be the centre's own
    slot: the accepted HexPolar(1, 0, -1) is read at slot 0, but its skew
    vector (2, -1) is cell (2, 5, 1), so entry 0 of its subgrid comes from slot 18.
  */
  lemma SubgridNonCellCentre()
    ensures HexPolar(1, 0, -1).Valid() && !HexPolar(1, 0, -1).IsCell()
    ensures SlotOf(Polar(HexPolar(1, 0, -1))) == 0
    ensures SubgridSource(Polar(HexPolar(1, 0, -1)), 0) == 18
  {
    OriginSkew();
    assert SkewOf(Polar(HexPolar(1, 0, -1))) == HexSkew(2, -1);
    assert SkewToPolar(HexSkew(2, -1)) == HexPolar(2, 5, 1);
  }

  lemma OriginSkew()
    ensures SpiralToSkew(Spiral(0)) == HexSkew(0, 0)
  {
    assert SpiralToPolar(Spiral(0)) == Origin;
  }

  /** Entry 0 of a subgrid is copied from the slot of its centre. */
  lemma CentreSlot(at: Coord)
    requires at.WellFormed() && (at.Polar? ==> at.p.IsCell()) && SlotOf(at) >= 0
    ensures SubgridSource(at, 0) == SlotOf(at)
  {
    OriginSkew();
    var c := SkewOf(at);
    assert SubgridSource(at, 0) == SkewToSpiral(HexSkew(c.u, c.v)).index;
    match at {
      case Raw(i) =>
        SpiralSkewRoundTrip(i);
      case Polar(p) =>
        PolarSkewRoundTrip(p);
      case SpiralAt(s) =>
        SpiralSkewRoundTrip(s.index);
      case Skew(k) =>
    }
  }

  /**
    A subgrid centred on the origin whose radius does not exceed the grid's is
    a copy of the grid's first rings.
  */
  lemma SubgridAtOriginCopies<T>(g: HexagonGrid<T>, radius: int, defval: Option<T>, i: int)
    requires g.Valid() && -1 <= radius <= g.maxradius
    requires 0 <= i < Capacity(radius)
    ensures i < |g.contents| && SubgridEntry(g.contents, Raw(0), i, defval) == g.contents[i]
  {
    assert SpiralToPolar(Spiral(0)) == Origin;
    SpiralSkewRoundTrip(i);
    CapacityGrows(radius, g.maxradius);
  }

  /**
    An int centre is read as a Spiral, not as a list subscript: a negative one
    centres the subgrid on the origin, although grid[-1] is the last cell.
  */
  lemma SubgridNegativeCentre<T>(g: HexagonGrid<T>, at: int, defval: Option<T>, i: int)
    requires g.Valid() && at < 0
    ensures SubgridEntry(g.contents, Raw(at), i, defval) == SubgridEntry(g.contents, Raw(0), i, defval)
  {
    assert SpiralToPolar(Spiral(0)) == Origin;
    assert SkewOf(Raw(at)) == SkewOf(Raw(0));
    assert SubgridSource(Raw(at), i) == SubgridSource(Raw(0), i);
  }

  /** A subgrid entry whose source lies beyond the grid's rings receives defval. */
  lemma SubgridBeyondEdge<T>(g: HexagonGrid<T>, at: Coord, i: int, defval: Option<T>)
    requires g.Valid() && at.WellFormed()
    requires SkewToPolar(HexSkew(SkewOf(at).u + SpiralToSkew(Spiral(i)).u,
                                 SkewOf(at).v + SpiralToSkew(Spiral(i)).v)).ring > g.maxradius
    ensures SubgridEntry(g.contents, at, i, defval) == defval
  {
    var c, rel := SkewOf(at), SpiralToSkew(Spiral(i));
    CapacityCountsCells(g.maxradius, SkewToPolar(HexSkew(c.u + rel.u, c.v + rel.v)));
  }

  /** Grid cells addressed by a cell coordinate exist exactly for rings 0 .. maxradius. */
  lemma GetCellInRange<T>(g: HexagonGrid<T>, p: HexPolar)
    requires g.Valid() && p.IsCell()
    ensures g.Get(Polar(p)).Ok? <==> p.ring <= g.maxradius
  {
    CapacityCountsCells(g.maxradius, p);
  }
}
