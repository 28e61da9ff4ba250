/** A regular polygon fixed by its number of edges `n` and its circumradius
    `R` (class `Polygon` in learning.py). Every derived quantity is computed on
    demand from those two values; nothing is ever updated. */
module RegularPolygon {
  import opened Py

  /** The parts of Python's `math` module and built-ins that the formulas use.
      Their floating-point values are not modelled: the lemmas below hold for
      whatever `pi`, `sin`, `cos` and `round` stand for, assuming at most
      SineOfPiOverNPositive where they say so. */
  datatype Math = Math(pi: real, sin: real -> real, cos: real -> real, round: (real, int) -> real)

  /** sin(pi / n) is positive for every n >= 3; true of the real sine, and the
      only fact about it that the model ever needs. */
  ghost predicate SineOfPiOverNPositive(mt: Math) {
    forall n: int :: n >= 3 ==> mt.sin(PiOver(mt, n)) > 0.0
  }

  /** `math.pi / n`. */
  function PiOver(mt: Math, n: int): real
    requires n != 0
  {
    mt.pi / n as real
  }

  /** The fields `_n` and `_R`. */
  datatype Polygon = Polygon(n: int, r: real) {
    /** What the constructor guarantees of every polygon it lets through. */
    predicate Valid() {
      n >= 3 && r >= 0.0
    }
  }

  /** The right-hand operand of `==` or `>`: a polygon, or any other Python value. */
  datatype Operand = PolygonArg(p: Polygon) | OtherArg

  /** An entry of the pair `_pt = (n, R)`. */
  datatype Item = EdgeCount(n: int) | Radius(r: real)

  /** `Polygon(edge, circumradius)`: the edge count is checked first. */
  function NewPolygon(edge: int, circumradius: real): (r: Result<Polygon>)
    ensures r.Ok? <==> edge >= 3 && circumradius >= 0.0
    ensures edge < 3 ==> r == Err(ValueError(TooFewEdges))
    ensures edge >= 3 && circumradius < 0.0 ==> r == Err(ValueError(NegativeCircumradius))
    ensures r.Ok? ==> r.value.Valid() && Edges(r.value) == edge && Circumradius(r.value) == circumradius
  {
    if edge < 3 then Err(ValueError(TooFewEdges))
    else if circumradius < 0.0 then Err(ValueError(NegativeCircumradius))
    else Ok(Polygon(edge, circumradius))
  }

  function Edges(p: Polygon): (r: int)
    ensures p.Valid() ==> r >= 3
  {
    p.n
  }

  /** A polygon has as many vertices as edges. */
  function Vertices(p: Polygon): (r: int)
    ensures r == Edges(p)
  {
    p.n
  }

  function Circumradius(p: Polygon): (r: real)
    ensures p.Valid() ==> r >= 0.0
  {
    p.r
  }

  /** `p[i]`, that is `_pt[i]` with `_pt == (n, R)`. */
  function GetItem(p: Polygon, i: int): (r: Result<Item>)
    ensures r.Ok? <==> -2 <= i < 2
    ensures (i == 0 || i == -2) ==> r == Ok(EdgeCount(Edges(p)))
    ensures (i == 1 || i == -1) ==> r == Ok(Radius(Circumradius(p)))
    ensures r.Err? ==> r.error == IndexError
  {
    Index([EdgeCount(p.n), Radius(p.r)], i)
  }

  /** The accessors and the positional view agree: `edges` and `vertices`
      are both the edge count, which is `p[0]`, and `circumradius` is `p[1]`. */
  lemma AccessorsMatchIndexing(p: Polygon)
    ensures Edges(p) == Vertices(p) == p.n && Circumradius(p) == p.r
    ensures GetItem(p, 0) == Ok(EdgeCount(Vertices(p)))
    ensures GetItem(p, 1) == Ok(Radius(Circumradius(p)))
  {
  }

  /** Interior angle in degrees, by Python's true division. */
  function InteriorAngle(p: Polygon): (r: real)
    requires p.Valid()
    ensures 60.0 <= r < 180.0
    ensures r == 180.0 - 360.0 / p.n as real
  {
    var n := p.n as real;
    assert (180 * (p.n - 2)) as real == 180.0 * n - 360.0;
    assert (180.0 * n - 360.0) / n == 180.0 - 360.0 / n;
    assert 360.0 / n <= 120.0 by {
      assert 120.0 * n >= 360.0;
    }
    (180 * (p.n - 2)) as real / n
  }

  lemma InteriorAngleOfTriangleAndSquare(r: real)
    requires r >= 0.0
    ensures InteriorAngle(Polygon(3, r)) == 60.0
    ensures InteriorAngle(Polygon(4, r)) == 90.0
  {
  }

  /** More edges, a wider interior angle, whatever the circumradii. */
  lemma {:induction false} InteriorAngleIncreases(p: Polygon, q: Polygon)
    requires p.Valid() && q.Valid() && p.n < q.n
    ensures InteriorAngle(p) < InteriorAngle(q)
  {
    var a, b := p.n as real, q.n as real;
    assert 360.0 / b < 360.0 / a by {
      var x, y := 360.0 / a, 360.0 / b;
      assert x * a == 360.0 && y * b == 360.0;
      assert y * b == x * a;
      assert a > 0.0 && b > a;
      assert y > 0.0;
      assert y * (b - a) == y * b - y * a > 0.0;
      var d := (x - y) * a;
      assert d == x * a - y * a == y * b - y * a;
      assert d > 0.0;
      assert x - y == d / a;
    }
  }

  /** `2 * R * sin(pi / n)`. */
  function EdgeLength(mt: Math, p: Polygon): (r: real)
    requires p.Valid()
    ensures p.r == 0.0 ==> r == 0.0
    ensures SineOfPiOverNPositive(mt) && p.r > 0.0 ==> r > 0.0
  {
    var s := mt.sin(PiOver(mt, p.n));
    assert SineOfPiOverNPositive(mt) && p.r > 0.0 ==> 2.0 * p.r * s > 0.0 by {
      if SineOfPiOverNPositive(mt) && p.r > 0.0 {
        assert s > 0.0;
        assert 2.0 * p.r > 0.0;
      }
    }
    2.0 * p.r * s
  }

  /** `round(R * cos(pi / n), 2)`: the rounded apothem, which area uses. */
  function Apothem(mt: Math, p: Polygon): (r: real)
    requires p.Valid()
    ensures p.r == 0.0 ==> r == mt.round(0.0, 2)
  {
    mt.round(p.r * mt.cos(PiOver(mt, p.n)), 2)
  }

  /** `n * edge_length`. */
  function Perimeter(mt: Math, p: Polygon): (r: real)
    requires p.Valid()
    ensures r == 0.0 <==> EdgeLength(mt, p) == 0.0
    ensures p.r == 0.0 ==> r == 0.0
  {
    var s := EdgeLength(mt, p);
    assert p.n as real * s == 0.0 ==> s == 0.0 by {
      if s != 0.0 {
        assert p.n as real > 0.0;
        if s > 0.0 { assert p.n as real * s > 0.0; }
        else { assert p.n as real * s < 0.0; }
      }
    }
    p.n as real * s
  }

  /** `n * edge_length * apothem / 2`: half the perimeter times the (rounded) apothem. */
  function Area(mt: Math, p: Polygon): (r: real)
    requires p.Valid()
    ensures r == Perimeter(mt, p) * Apothem(mt, p) / 2.0
  {
    p.n as real * EdgeLength(mt, p) * Apothem(mt, p) / 2.0
  }

  /** `area / perimeter`. Python raises ZeroDivisionError when the perimeter
      is zero, which happens exactly when the edge length is zero (R == 0
      in particular); otherwise the ratio is half the apothem. */
  function Ratio(mt: Math, p: Polygon): (r: Result<real>)
    requires p.Valid()
    ensures r.Err? <==> EdgeLength(mt, p) == 0.0
    ensures r.Err? ==> r.error == ZeroDivisionError
    ensures p.r == 0.0 ==> r.Err?
    ensures r.Ok? ==> r.value == Apothem(mt, p) / 2.0
  {
    var per := Perimeter(mt, p);
    if per == 0.0 then Err(ZeroDivisionError)
    else
      var a := Apothem(mt, p);
      assert Area(mt, p) / per == a / 2.0 by {
        assert Area(mt, p) == per * (a / 2.0);
      }
      Ok(Area(mt, p) / per)
  }

  /** With a positive circumradius the ratio is defined. */
  lemma RatioDefined(mt: Math, p: Polygon)
    requires p.Valid() && p.r > 0.0 && SineOfPiOverNPositive(mt)
    ensures Ratio(mt, p) == Ok(Apothem(mt, p) / 2.0)
  {
  }

  /** `p == other`: TypeError unless `other` is a polygon; otherwise true
      exactly when edge count and circumradius both match. */
  function Eq(p: Polygon, other: Operand): (r: Result<bool>)
    ensures r.Err? <==> other.OtherArg?
    ensures r.Err? ==> r.error == TypeError
    ensures r == Ok(true) <==> other == PolygonArg(p)
  {
    match other
    case OtherArg => Err(TypeError)
    case PolygonArg(q) => Ok(Vertices(p) == Vertices(q) && Circumradius(p) == Circumradius(q))
  }

  /** `==` between polygons is an equivalence relation. */
  lemma EqIsEquivalence(p: Polygon, q: Polygon, s: Polygon)
    ensures Eq(p, PolygonArg(p)) == Ok(true)
    ensures Eq(p, PolygonArg(q)) == Eq(q, PolygonArg(p))
    ensures Eq(p, PolygonArg(q)) == Ok(true) && Eq(q, PolygonArg(s)) == Ok(true) ==> Eq(p, PolygonArg(s)) == Ok(true)
  {
  }

  /** `p > other`: TypeError unless `other` is a polygon; otherwise compares
      edge counts only. */
  function Gt(p: Polygon, other: Operand): (r: Result<bool>)
    ensures r.Err? <==> other.OtherArg?
    ensures r.Err? ==> r.error == TypeError
    ensures r == Ok(true) <==> other.PolygonArg? && Edges(p) > Edges(other.p)
  {
    match other
    case OtherArg => Err(TypeError)
    case PolygonArg(q) => Ok(Vertices(p) > Vertices(q))
  }

  /** `>` is a strict order on polygons that ignores the circumradius and
      never holds between equal polygons. */
  lemma GtIsStrictOrder(p: Polygon, q: Polygon, s: Polygon)
    ensures Gt(p, PolygonArg(p)) == Ok(false)
    ensures Gt(p, PolygonArg(q)) == Ok(true) ==> Gt(q, PolygonArg(p)) == Ok(false)
    ensures Gt(p, PolygonArg(q)) == Ok(true) && Gt(q, PolygonArg(s)) == Ok(true) ==> Gt(p, PolygonArg(s)) == Ok(true)
    ensures Eq(p, PolygonArg(q)) == Ok(true) ==> Gt(p, PolygonArg(q)) == Ok(false)
    ensures Gt(p, PolygonArg(q)) == Ok(false) && Gt(q, PolygonArg(p)) == Ok(false) <==> p.n == q.n
  {
  }

  lemma GtIgnoresCircumradius(p: Polygon, q: Polygon, r1: real, r2: real)
    ensures Gt(p, PolygonArg(q)) == Gt(Polygon(p.n, r1), PolygonArg(Polygon(q.n, r2)))
  {
  }
}
