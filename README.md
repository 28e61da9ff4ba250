# Regular polygons and the most efficient one

A Dafny model of `learning.py`, a small Python library with two classes:

- `Polygon(n, R)`: a regular polygon with `n` edges and circumradius `R`. It
  computes interior angle, edge length, apothem, area, perimeter and the
  area-to-perimeter ratio. It compares with `==` and `>`, and it can be
  indexed as the pair `(n, R)`.
- `Polygons(m, R)`: the polygons with 3 to `m` edges that share one
  circumradius. It has a length, indexing, and `efficiency`: the polygon with
  the largest ratio, taken as the head of `sorted(..., key=ratio, reverse=True)`.

Both classes set their fields once in the constructor, and no method of
either class changes them (see `PolygonCollection.Details` under "Left out"
for the list that `details` hands out). So they are modelled as datatypes (`RegularPolygon.Polygon`,
`PolygonCollection.Polygons`) with pure functions. Python exceptions become
`Py.Result` values: `ValueError` (with its reason), `TypeError`, `IndexError`
and `ZeroDivisionError`.

The formulas call `math.sin`, `math.cos`, `math.pi` and `round`. These are
passed in as a `RegularPolygon.Math` value, and no property of them is
assumed. The only exception is that some lemmas require sin(pi/n) > 0 for
n >= 3 (`SineOfPiOverNPositive`). What is proved is the algebra on top:

- the area is half the perimeter times the rounded apothem;
- the ratio is half the apothem;
- the ratio raises ZeroDivisionError exactly when the edge length is 0.

`sorted` is modelled as a stable descending insertion sort over
(key, position, item) entries (module `StableSort`).
`StableSort.StableSortIsUnique` proves that a stable descending order is
unique. So any stable sort, Python's own included, returns the same sequence.

Modules and files:

- `py.dfy`: errors, `Result`, Python subscripts.
- `regular_polygon.dfy`: `Polygon`.
- `stable_sort.dfy`: `sorted(..., reverse=True)`.
- `polygon_collection.dfy`: `Polygons`.

Two behaviours of the code are easy to miss, and the model keeps both:

- `Polygon.__getitem__` and `Polygons.__getitem__` index a Python tuple or
  list, so negative subscripts work: `p[-1]` is `R` and `p[-2]` is `n`. Only
  subscripts outside the valid range raise IndexError.
- The code accepts `R == 0`. Every perimeter is then 0, so `ratio`, and
  therefore `efficiency`, raises ZeroDivisionError
  (`PolygonCollection.EfficiencyOfZeroRadius`). The code defines no other
  behaviour for this case.

## Model

| member | source | states |
|---|---|---|
| `Py.Index` | learning.py:79 | a subscript `i` succeeds exactly when `-len <= i < len`; a negative `i` counts from the end; any other `i` raises IndexError |
| `RegularPolygon.NewPolygon` | learning.py:8-15 | construction fails exactly when `edge < 3` or `R < 0`; the edge check comes first (TooFewEdges wins when both fail); otherwise `edges` and `circumradius` return the arguments unchanged and the polygon is valid |
| `RegularPolygon.Edges` | learning.py:17-19 | `edges` of a constructed polygon is at least 3 |
| `RegularPolygon.Vertices` | learning.py:21-23 | `vertices` always equals `edges` |
| `RegularPolygon.Circumradius` | learning.py:25-27 | `circumradius` of a constructed polygon is non-negative |
| `RegularPolygon.Apothem` | learning.py:37-39 | `round(R * cos(pi / n), 2)` over the abstract `Math`; the only property proved is that for `R = 0` it is `round(0, 2)`, whatever `cos` is |
| `RegularPolygon.AccessorsMatchIndexing` | learning.py:17-27 | `edges` and `vertices` are both the stored edge count; `p[0]` is that count and `p[1]` is `circumradius` |
| `RegularPolygon.GetItem` | learning.py:78-79 | `p[0]` and `p[-2]` give the edge count; `p[1]` and `p[-1]` give the circumradius; every other subscript raises IndexError |
| `RegularPolygon.InteriorAngle` | learning.py:29-31 | for every valid polygon the angle lies in `[60, 180)` and equals `180 - 360/n` |
| `RegularPolygon.InteriorAngleOfTriangleAndSquare` | learning.py:29-31 | the angle is 60 degrees for `n = 3` and 90 degrees for `n = 4`, whatever `R` is |
| `RegularPolygon.InteriorAngleIncreases` | learning.py:29-31 | the interior angle strictly increases with the edge count |
| `RegularPolygon.EdgeLength` | learning.py:33-35 | the edge length is 0 when `R = 0`, and positive when `R > 0` and sin(pi/n) > 0 |
| `RegularPolygon.Perimeter` | learning.py:45-47 | the perimeter is 0 exactly when the edge length is 0, so it is 0 when `R = 0` |
| `RegularPolygon.Area` | learning.py:41-43 | area equals perimeter times the rounded apothem over 2 |
| `RegularPolygon.Ratio` | learning.py:49-51 | `area / perimeter` raises ZeroDivisionError exactly when the edge length is 0 (always when `R = 0`); otherwise it is half the apothem |
| `RegularPolygon.RatioDefined` | learning.py:49-51 | with `R > 0` and sin(pi/n) > 0 the ratio exists and equals half the apothem |
| `RegularPolygon.Eq` | learning.py:67-71 | TypeError exactly when the operand is not a polygon; otherwise true exactly when the operand has the same edge count and circumradius |
| `RegularPolygon.EqIsEquivalence` | learning.py:67-71 | `==` on polygons is reflexive, symmetric and transitive |
| `RegularPolygon.Gt` | learning.py:73-76 | TypeError exactly when the operand is not a polygon; otherwise true exactly when this polygon has more edges |
| `RegularPolygon.GtIsStrictOrder` | learning.py:73-76 | `>` is irreflexive, asymmetric and transitive; it never holds between equal polygons; neither direction holds exactly when the edge counts are equal |
| `RegularPolygon.GtIgnoresCircumradius` | learning.py:73-76 | the result of `>` does not depend on either circumradius |
| `StableSort.InsertionSortOrdered` | learning.py:149 | sorting entries given in input order yields larger keys first and equal keys in input order |
| `StableSort.SortedReverse` | learning.py:149 | `sorted(..., reverse=True)` returns as many items as it is given, each the item of the ordered permutation of the decorated input |
| `StableSort.SortedReverseHead` | learning.py:149 | the first item of the sorted output is the item at the first position that holds a largest key |
| `StableSort.InsertionSort` | learning.py:149 | the sorted entries are a permutation of the input entries (same multiset) |
| `StableSort.SortedEntries` | learning.py:149 | the decorated input, sorted: ordered by larger key first and equal keys in input order, and a permutation of the decorated input |
| `StableSort.StableSortIsUnique` | learning.py:149 | two stable descending arrangements of the same entries are equal, so the insertion sort and the library sort agree |
| `PolygonCollection.Build` | learning.py:135 | the comprehension over `range(i, m + 1)` fails exactly when the range is non-empty and `i < 3` or `R < 0`; otherwise element `k` is `Polygon(i + k, R)` and the length is that of the range |
| `PolygonCollection.NewPolygons` | learning.py:128-135 | construction fails exactly when `m < 3` or `R < 0`, with the `m` check first; otherwise it holds `m - 2` valid polygons, element `k` being `Polygon(k + 3, R)` |
| `PolygonCollection.Details` | learning.py:140-142 | `details` has `len(c)` elements, and element `k` is `c[k]` |
| `PolygonCollection.GetItem` | learning.py:152-153 | `c[i]` succeeds exactly when `-len(c) <= i < len(c)`; it returns element `i`, or element `len(c) + i` for a negative `i`; otherwise it raises IndexError |
| `PolygonCollection.Len` | learning.py:144-145 | `len(c)` is the number of polygons held, counting repeats, and is 0 exactly when the list is empty |
| `PolygonCollection.ConstructedShape` | learning.py:144-145 | for `Polygons(m, R)`: `len` is `m - 2`; `c[k]` is `Polygon(k + 3, R)`; negative subscripts count from the end; every other subscript raises IndexError |
| `PolygonCollection.SmallestCollection` | learning.py:128-135 | `Polygons(3, R)` has length 1 and its only element equals `Polygon(3, R)` |
| `PolygonCollection.ConstructedIncreasing` | learning.py:135 | each polygon in the list is `>` every polygon before it |
| `PolygonCollection.Ratios` | learning.py:149 | the sort keys exist exactly when every polygon's ratio does; key `k` is the ratio of polygon `k`; otherwise ZeroDivisionError |
| `PolygonCollection.HeadIsMostEfficient` | learning.py:149-150 | the head of the polygons sorted by decreasing ratio is the first polygon whose ratio is at least every other ratio |
| `PolygonCollection.MostEfficientIsUnique` | learning.py:147-150 | at most one position is the first position of largest ratio, so the polygon `efficiency` returns is determined |
| `PolygonCollection.Efficiency` | learning.py:147-150 | `efficiency` fails exactly when the list is empty (ValueError on unpacking) or some ratio raises (ZeroDivisionError); otherwise it returns the polygon at the first position of largest ratio |
| `PolygonCollection.EfficiencyOfZeroRadius` | learning.py:147-150 | for `Polygons(m, 0)`, `efficiency` raises ZeroDivisionError |
| `PolygonCollection.RatiosDefined` | learning.py:49-51 | when every circumradius is positive, every ratio exists and is half the apothem |
| `PolygonCollection.MostEfficientHasLargestApothem` | learning.py:147-150 | when ratios are half the apothems, the most efficient polygon is the first of largest apothem |
| `PolygonCollection.EfficiencyOfPositiveRadius` | learning.py:147-150 | for `Polygons(m, R)` with `R > 0`, `efficiency` succeeds; it returns element `k`, with `k + 3` edges, which has the largest apothem and strictly larger apothem than every element before it |
| `PolygonCollection.TieGoesToTriangle` | learning.py:147-150 | when all the polygons tie on apothem, `efficiency` returns the triangle `Polygon(3, R)`, the one with the fewest edges |

## Left out

- The values of `sin`, `cos`, `pi` and `round` are not modelled. `RegularPolygon.Apothem` and `RegularPolygon.EdgeLength` are defined over them, so no concrete number (such as an edge length of about 14.142 for `Polygon(4, 10)`) is proved.
- Floating-point arithmetic is modelled with exact reals. Consequences:
  - rounding, overflow and NaN are not modelled;
  - a tiny positive `R` whose edge length underflows to 0 is not modelled;
  - `area / perimeter` is exactly half the apothem here, but only approximately so in floats.
- PolygonCollection.MostEfficientHasLargestApothem: depends on the ratio being exactly half the apothem. In floats, `((P * a) / 2) / P` can differ from `a / 2` in the last bit, so equal rounded apothems need not give equal ratios.
- PolygonCollection.EfficiencyOfPositiveRadius: picks by apothem, so it depends on the same exact-real identity. With floats, `sorted` may pick a later polygon when two apothems are equal or nearly equal.
- PolygonCollection.TieGoesToTriangle: states the tie in terms of equal apothems, which relies on the same exact-real identity. A tie in float ratios is covered by `PolygonCollection.Efficiency` itself.
- Only integer edge counts are modelled. Python would also accept a float `edge` in `Polygon`.
- Only integer subscripts are modelled: slices and non-integer subscripts are left out.
- The strings of `details` and `__repr__` in both classes are formatting only and are left out.
- PolygonCollection.Details: returns the list as an immutable value. The source's `Polygons.details` returns the live `_polygons` list itself. A caller who changes that list changes `len(c)`, `c[i]` and `efficiency`. Clearing it is the only way to reach the ValueError-on-unpacking case that `PolygonCollection.Efficiency` models. The model does not capture this sharing.
- The commented-out earlier `Polygons` class and its `reduce`-based efficiency are dead code and are left out. The `reduce` import is unused.
- Exception messages are reduced to a `Reason` on `ValueError`.
- The comparison operators Python derives from `==` and `>` (`!=`, and `<` by reflection) are not modelled.
