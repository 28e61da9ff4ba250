/** The polygons with 3 up to `m` edges that share one circumradius `R`
    (class `Polygons` in learning.py), and the one among them with the largest
    area-to-perimeter ratio. The list is built once by the constructor and
    no method of the class changes it. */
module PolygonCollection {
  import opened Py
  import opened RegularPolygon
  import StableSort

  /** The fields `_m`, `_R` and `_polygons`. */
  datatype Polygons = Polygons(m: int, r: real, polygons: seq<Polygon>)

  /** Every element came out of the polygon constructor. */
  ghost predicate AllValid(ps: seq<Polygon>) {
    forall k :: 0 <= k < |ps| ==> ps[k].Valid()
  }

  /** `[Polygon(k, R) for k in range(i, m + 1)]`: built left to right, the
      first constructor that raises aborts the whole list. */
  function Build(i: int, m: int, R: real): (r: Result<seq<Polygon>>)
    decreases m + 1 - i
    ensures r.Err? <==> i <= m && (i < 3 || R < 0.0)
    ensures r.Ok? ==> |r.value| == (if i <= m then m + 1 - i else 0)
    ensures r.Ok? ==> forall k :: 0 <= k < |r.value| ==> r.value[k] == Polygon(i + k, R)
  {
    if i > m then Ok([])
    else
      match NewPolygon(i, R)
      case Err(e) => Err(e)
      case Ok(p) =>
        match Build(i + 1, m, R)
        case Err(e) => Err(e)
        case Ok(ps) => Ok([p] + ps)
  }

  /** `Polygons(m, R)`: the edge bound is checked first. */
  function NewPolygons(m: int, R: real): (r: Result<Polygons>)
    ensures r.Ok? <==> m >= 3 && R >= 0.0
    ensures m < 3 ==> r == Err(ValueError(TooFewEdges))
    ensures m >= 3 && R < 0.0 ==> r == Err(ValueError(NegativeCircumradius))
    ensures r.Ok? ==> r.value.m == m && r.value.r == R
    ensures r.Ok? ==> |r.value.polygons| == m - 2 && AllValid(r.value.polygons)
    ensures r.Ok? ==> forall k :: 0 <= k < m - 2 ==> r.value.polygons[k] == Polygon(k + 3, R)
  {
    if m < 3 then Err(ValueError(TooFewEdges))
    else if R < 0.0 then Err(ValueError(NegativeCircumradius))
    else
      match Build(3, m, R)
      case Err(e) => Err(e)
      case Ok(ps) => Ok(Polygons(m, R, ps))
  }

  /** `details`: the list itself, in order of increasing edge count. */
  function Details(c: Polygons): (r: seq<Polygon>)
    ensures |r| == Len(c)
    ensures forall k :: 0 <= k < |r| ==> GetItem(c, k) == Ok(r[k])
  {
    c.polygons
  }

  /** `len(c)`. */
  function Len(c: Polygons): (r: nat)
    ensures r == 0 <==> c.polygons == []
    ensures r == |multiset(c.polygons)|
  {
    |c.polygons|
  }

  /** `c[i]`, with Python's negative subscripts. */
  function GetItem(c: Polygons, i: int): (r: Result<Polygon>)
    ensures r.Ok? <==> -(Len(c) as int) <= i < Len(c)
    ensures r.Ok? ==> r.value == c.polygons[if i < 0 then Len(c) + i else i]
    ensures r.Err? ==> r.error == IndexError
  {
    Index(c.polygons, i)
  }

  /** What a constructed collection looks like from outside: `m - 2`
      polygons, the one at position `k` (or `k - (m - 2)`) has `k + 3` edges
      and radius `R`, and every other subscript raises IndexError. */
  lemma ConstructedShape(m: int, R: real, c: Polygons)
    requires NewPolygons(m, R) == Ok(c)
    ensures Len(c) == m - 2
    ensures forall k :: 0 <= k < m - 2 ==> GetItem(c, k) == Ok(Polygon(k + 3, R))
    ensures forall i :: -(m - 2) <= i < 0 ==> GetItem(c, i) == Ok(Polygon(i + m + 1, R))
    ensures forall i :: i < -(m - 2) || m - 2 <= i ==> GetItem(c, i) == Err(IndexError)
  {
    forall i | -(m - 2) <= i < 0 ensures GetItem(c, i) == Ok(Polygon(i + m + 1, R)) {
      assert Index(c.polygons, i).value == c.polygons[i + (m - 2)];
    }
  }

  /** `Polygons(3, R)` holds just the triangle `Polygon(3, R)`. */
  lemma SmallestCollection(R: real)
    requires R >= 0.0
    ensures NewPolygons(3, R).Ok?
    ensures Len(NewPolygons(3, R).value) == 1
    ensures GetItem(NewPolygons(3, R).value, 0) == Ok(Polygon(3, R))
    ensures NewPolygon(3, R) == Ok(Polygon(3, R))
  {
  }

  /** The list is strictly increasing under `>`. */
  lemma ConstructedIncreasing(m: int, R: real, c: Polygons)
    requires NewPolygons(m, R) == Ok(c)
    ensures forall i, j :: 0 <= i < j < Len(c) ==> Gt(c.polygons[j], PolygonArg(c.polygons[i])) == Ok(true)
  {
  }

  /** `[p.ratio for p in ps]`, the sort keys, computed left to right before
      any comparison; the first ZeroDivisionError aborts. */
  function Ratios(mt: Math, ps: seq<Polygon>): (r: Result<seq<real>>)
    requires AllValid(ps)
    ensures r.Ok? <==> forall k :: 0 <= k < |ps| ==> Ratio(mt, ps[k]).Ok?
    ensures r.Err? ==> r.error == ZeroDivisionError
    ensures r.Ok? ==> |r.value| == |ps|
    ensures r.Ok? ==> forall k :: 0 <= k < |ps| ==> r.value[k] == Ratio(mt, ps[k]).value
  {
    if ps == [] then Ok([])
    else
      match Ratio(mt, ps[0])
      case Err(e) => Err(e)
      case Ok(x) =>
        match Ratios(mt, ps[1..])
        case Err(e) => Err(e)
        case Ok(xs) =>
          assert forall k :: 1 <= k < |ps| ==> ps[k] == ps[1..][k - 1];
          Ok([x] + xs)
  }

  /** `k` is the first position whose ratio is at least every ratio in `ps`. */
  ghost predicate IsMostEfficient(mt: Math, ps: seq<Polygon>, k: int)
    requires AllValid(ps)
  {
    && 0 <= k < |ps|
    && (forall j :: 0 <= j < |ps| ==> Ratio(mt, ps[j]).Ok?)
    && (forall j :: 0 <= j < |ps| ==> Ratio(mt, ps[j]).value <= Ratio(mt, ps[k]).value)
    && (forall j :: 0 <= j < k ==> Ratio(mt, ps[j]).value < Ratio(mt, ps[k]).value)
  }

  /** At most one position is the most efficient one. */
  lemma MostEfficientIsUnique(mt: Math, ps: seq<Polygon>, k1: int, k2: int)
    requires AllValid(ps) && IsMostEfficient(mt, ps, k1) && IsMostEfficient(mt, ps, k2)
    ensures k1 == k2
  {
    assert Ratio(mt, ps[k1]).value <= Ratio(mt, ps[k2]).value;
    assert Ratio(mt, ps[k2]).value <= Ratio(mt, ps[k1]).value;
  }

  /** The first of the polygons sorted by decreasing ratio is the most efficient one. */
  lemma HeadIsMostEfficient(mt: Math, ps: seq<Polygon>, keys: seq<real>)
    requires AllValid(ps) && ps != [] && Ratios(mt, ps) == Ok(keys)
    ensures exists k :: IsMostEfficient(mt, ps, k) && StableSort.SortedReverse(keys, ps)[0] == ps[k]
  {
    StableSort.SortedReverseHead(keys, ps);
    var k :| StableSort.IsFirstMax(keys, k) && StableSort.SortedReverse(keys, ps)[0] == ps[k];
    forall j | 0 <= j < |ps|
      ensures Ratio(mt, ps[j]).Ok?
      ensures Ratio(mt, ps[j]).value <= Ratio(mt, ps[k]).value
      ensures j < k ==> Ratio(mt, ps[j]).value < Ratio(mt, ps[k]).value
    {
      assert keys[j] == Ratio(mt, ps[j]).value && keys[k] == Ratio(mt, ps[k]).value;
      assert keys[j] <= keys[k];
    }
    assert IsMostEfficient(mt, ps, k);
  }

  /** `efficiency`: the head of `sorted(polygons, key=ratio, reverse=True)`.
      It raises ZeroDivisionError as soon as one ratio does, and ValueError
      on an empty list; otherwise it is the earliest polygon of largest ratio. */
  function Efficiency(mt: Math, c: Polygons): (r: Result<Polygon>)
    requires AllValid(c.polygons)
    ensures r.Err? <==> c.polygons == [] || exists k :: 0 <= k < |c.polygons| && Ratio(mt, c.polygons[k]).Err?
    ensures r.Err? && c.polygons != [] ==> r.error == ZeroDivisionError
    ensures c.polygons == [] ==> r == Err(ValueError(NotEnoughValuesToUnpack))
    ensures r.Ok? ==> exists k :: IsMostEfficient(mt, c.polygons, k) && r.value == c.polygons[k]
  {
    match Ratios(mt, c.polygons)
    case Err(e) => Err(e)
    case Ok(keys) =>
      var sorted := StableSort.SortedReverse(keys, c.polygons);
      if sorted == [] then Err(ValueError(NotEnoughValuesToUnpack))
      else
        HeadIsMostEfficient(mt, c.polygons, keys);
        Ok(sorted[0])
  }

  /** With circumradius 0 every perimeter is 0, so `efficiency` raises
      ZeroDivisionError although the constructor accepted `R = 0`. */
  lemma EfficiencyOfZeroRadius(mt: Math, m: int, c: Polygons)
    requires NewPolygons(m, 0.0) == Ok(c)
    ensures Efficiency(mt, c) == Err(ZeroDivisionError)
  {
    assert Ratio(mt, c.polygons[0]).Err?;
  }

  /** Every polygon of positive circumradius has a ratio: half its apothem. */
  lemma RatiosDefined(mt: Math, ps: seq<Polygon>)
    requires AllValid(ps) && SineOfPiOverNPositive(mt)
    requires forall j :: 0 <= j < |ps| ==> ps[j].r > 0.0
    ensures forall j :: 0 <= j < |ps| ==> Ratio(mt, ps[j]) == Ok(Apothem(mt, ps[j]) / 2.0)
  {
    forall j | 0 <= j < |ps| ensures Ratio(mt, ps[j]) == Ok(Apothem(mt, ps[j]) / 2.0) {
      RatioDefined(mt, ps[j]);
    }
  }

  /** When every ratio is half the apothem, the most efficient polygon is the
      first of largest apothem. */
  lemma MostEfficientHasLargestApothem(mt: Math, ps: seq<Polygon>, k: int)
    requires AllValid(ps)
    requires forall j :: 0 <= j < |ps| ==> Ratio(mt, ps[j]) == Ok(Apothem(mt, ps[j]) / 2.0)
    requires IsMostEfficient(mt, ps, k)
    ensures forall j :: 0 <= j < |ps| ==> Apothem(mt, ps[j]) <= Apothem(mt, ps[k])
    ensures forall j :: 0 <= j < k ==> Apothem(mt, ps[j]) < Apothem(mt, ps[k])
  {
    forall j | 0 <= j < |ps|
      ensures Apothem(mt, ps[j]) <= Apothem(mt, ps[k])
      ensures j < k ==> Apothem(mt, ps[j]) < Apothem(mt, ps[k])
    {
      assert Ratio(mt, ps[j]).value <= Ratio(mt, ps[k]).value;
    }
  }

  /** With a positive circumradius `efficiency` succeeds and returns the
      polygon with the fewest edges among those of largest apothem. */
  lemma EfficiencyOfPositiveRadius(mt: Math, m: int, R: real, c: Polygons) returns (k: int)
    requires NewPolygons(m, R) == Ok(c) && R > 0.0 && SineOfPiOverNPositive(mt)
    ensures 0 <= k < |c.polygons| && Efficiency(mt, c) == Ok(c.polygons[k]) && Edges(c.polygons[k]) == k + 3
    ensures forall j :: 0 <= j < |c.polygons| ==> Apothem(mt, c.polygons[j]) <= Apothem(mt, c.polygons[k])
    ensures forall j :: 0 <= j < k ==> Apothem(mt, c.polygons[j]) < Apothem(mt, c.polygons[k])
  {
    var ps := c.polygons;
    RatiosDefined(mt, ps);
    assert Efficiency(mt, c).Ok?;
    k :| IsMostEfficient(mt, ps, k) && Efficiency(mt, c) == Ok(ps[k]);
    MostEfficientHasLargestApothem(mt, ps, k);
  }

  /** A tie is decided by the stable sort: when every polygon has the same
      apothem, hence the same ratio, the triangle wins. */
  lemma TieGoesToTriangle(mt: Math, m: int, R: real, c: Polygons)
    requires NewPolygons(m, R) == Ok(c) && R > 0.0 && SineOfPiOverNPositive(mt)
    requires forall n :: 3 <= n <= m ==> Apothem(mt, Polygon(n, R)) == Apothem(mt, Polygon(3, R))
    ensures Efficiency(mt, c) == Ok(Polygon(3, R))
  {
    var ps := c.polygons;
    forall j | 0 <= j < |ps| ensures Ratio(mt, ps[j]) == Ratio(mt, ps[0]) {
      RatioDefined(mt, ps[j]);
      RatioDefined(mt, ps[0]);
      assert ps[j] == Polygon(j + 3, R);
    }
    forall k | IsMostEfficient(mt, ps, k) ensures k == 0 {
      assert Ratio(mt, ps[k]) == Ratio(mt, ps[0]);
    }
  }
}
