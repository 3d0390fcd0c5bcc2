/** `hotelSearch`: draw `n` random points, stable-sort them by squared distance to a query,
    keep the first `k`, and tag each kept point with the run id and one more random draw. */
module HotelSearch {
  import opened Results
  import opened StableSort

  datatype Point = Point(x: real, y: real)

  /** The `uuid4()` drawn once per call; it seeds the random stream and tags every result. */
  type RunId = string

  /** The optional request fields, as read with `_in.get(name, default)`. */
  datatype SearchInput = SearchInput(n: Option<int>, k: Option<int>, queryX: Option<real>, queryY: Option<real>)

  /** One returned record: `{"brand": ..., "coords": ..., "value": ...}`. */
  datatype Neighbour = Neighbour(brand: RunId, coords: Point, value: real)

  datatype SearchOutput = SearchOutput(points: seq<Neighbour>)

  const DefaultCount := 1000
  const DefaultK := 10
  const DefaultQueryX: real := 10.0
  const DefaultQueryY: real := 20.0

  /** The code's `euclidean_distance`: the squared distance, no square root. */
  function SqDist(p1: Point, p2: Point): (r: real)
  {
    (p1.x - p2.x) * (p1.x - p2.x) + (p1.y - p2.y) * (p1.y - p2.y)
  }

  lemma SqDistSymmetric(p1: Point, p2: Point)
    ensures SqDist(p1, p2) == SqDist(p2, p1)
  {
    assert (p1.x - p2.x) * (p1.x - p2.x) == (p2.x - p1.x) * (p2.x - p1.x);
    assert (p1.y - p2.y) * (p1.y - p2.y) == (p2.y - p1.y) * (p2.y - p1.y);
  }

  /** A point is at distance zero from itself. */
  lemma SqDistZero(p: Point)
    ensures SqDist(p, p) == 0.0
  {
  }

  /** The squared distance is never negative. */
  lemma SqDistNonNeg(p1: Point, p2: Point)
    ensures SqDist(p1, p2) >= 0.0
  {
    var a, b := p1.x - p2.x, p1.y - p2.y;
    assert a * a >= 0.0;
    assert b * b >= 0.0;
  }

  /** The sort key `lambda x: x[1]` applied to `(point, euclidean_distance(query, point))`. */
  function DistanceFrom(query: Point): (r: Point -> real)
  {
    p => SqDist(query, p)
  }

  /** The candidate points: `uniform(i)` is the i-th draw of the stream seeded by the run id;
      point `i` takes draws `2i` (x) and `2i + 1` (y). `range(n)` is empty for `n <= 0`. */
  function Candidates(n: int, uniform: nat -> real): (ps: seq<Point>)
    ensures |ps| == Max(n, 0)
    ensures forall i :: 0 <= i < |ps| ==> ps[i] == Point(uniform(2 * i), uniform(2 * i + 1))
  {
    seq(Max(n, 0), (i: nat) => Point(uniform(2 * i), uniform(2 * i + 1)))
  }

  function QueryOf(input: SearchInput): (r: Point)
  {
    Point(input.queryX.ValueOr(DefaultQueryX), input.queryY.ValueOr(DefaultQueryY))
  }

  function CoordsOf(points: seq<Neighbour>): (cs: seq<Point>)
    ensures |cs| == |points|
    ensures forall i :: 0 <= i < |cs| ==> cs[i] == points[i].coords
  {
    seq(|points|, i requires 0 <= i < |points| => points[i].coords)
  }

  /** The whole handler. After the `2n` coordinate draws, the stream supplies one `value`
      per returned point, in result order. */
  function Search(input: SearchInput, runId: RunId, uniform: nat -> real): (out: SearchOutput)
    ensures |out.points| == SliceEnd(Max(input.n.ValueOr(DefaultCount), 0), input.k.ValueOr(DefaultK))
    ensures input.k.ValueOr(DefaultK) >= 0 ==>
              |out.points| == Min(input.k.ValueOr(DefaultK), Max(input.n.ValueOr(DefaultCount), 0))
    ensures forall i :: 0 <= i < |out.points| ==> out.points[i].brand == runId
    ensures forall i :: 0 <= i < |out.points| ==>
              out.points[i].value == uniform(2 * Max(input.n.ValueOr(DefaultCount), 0) + i)
  {
    var n := input.n.ValueOr(DefaultCount);
    var cands := Candidates(n, uniform);
    var top := SortedPrefix(cands, DistanceFrom(QueryOf(input)), input.k.ValueOr(DefaultK));
    SortedPrefixLength(cands, DistanceFrom(QueryOf(input)), input.k.ValueOr(DefaultK));
    SearchOutput(Decorate(top, runId, uniform, 2 * Max(n, 0)))
  }

  /** The returned coordinates are the top-k selection from the candidates. */
  lemma SearchCoords(input: SearchInput, runId: RunId, uniform: nat -> real)
    ensures CoordsOf(Search(input, runId, uniform).points)
              == SortedPrefix(Candidates(input.n.ValueOr(DefaultCount), uniform), DistanceFrom(QueryOf(input)), input.k.ValueOr(DefaultK))
  {
  }

  /** The returned points are candidates, listed nearest first. */
  lemma SearchSorted(input: SearchInput, runId: RunId, uniform: nat -> real)
    ensures var out := Search(input, runId, uniform); var q := QueryOf(input);
      && (forall i, j :: 0 <= i < j < |out.points| ==> SqDist(q, out.points[i].coords) <= SqDist(q, out.points[j].coords))
      && (forall i :: 0 <= i < |out.points| ==> out.points[i].coords in Candidates(input.n.ValueOr(DefaultCount), uniform))
  {
    var q := QueryOf(input);
    var cands := Candidates(input.n.ValueOr(DefaultCount), uniform);
    var top := SortedPrefix(cands, DistanceFrom(q), input.k.ValueOr(DefaultK));
    SortedPrefixSpec(cands, DistanceFrom(q), input.k.ValueOr(DefaultK));
    SearchCoords(input, runId, uniform);
    var pts := Search(input, runId, uniform).points;
    assert forall i :: 0 <= i < |pts| ==> pts[i].coords == top[i];
    forall i, j | 0 <= i < j < |pts| ensures SqDist(q, pts[i].coords) <= SqDist(q, pts[j].coords) {
      assert DistanceFrom(q)(top[i]) <= DistanceFrom(q)(top[j]);
    }
    forall i | 0 <= i < |pts| ensures pts[i].coords in cands {
      assert top[i] in multiset(cands);
    }
  }

  /** The list comprehension building the records: every kept point, tagged with the run id,
      with values taken from the stream starting at draw `first`. */
  function Decorate(top: seq<Point>, runId: RunId, uniform: nat -> real, first: nat): (rs: seq<Neighbour>)
    ensures CoordsOf(rs) == top
    ensures forall i :: 0 <= i < |rs| ==> rs[i].brand == runId && rs[i].value == uniform(first + i)
  {
    var rs := seq(|top|, i requires 0 <= i < |top| => Neighbour(runId, top[i], uniform(first + i)));
    assert CoordsOf(rs) == top;
    rs
  }

  /** The top-k contract: the returned points are drawn from the candidates without
      duplication, no candidate left out is nearer than one returned, and points at equal
      distance come in generation order. */
  lemma SearchSelectsNearest(input: SearchInput, runId: RunId, uniform: nat -> real)
    ensures var q := QueryOf(input);
            var cands := Candidates(input.n.ValueOr(DefaultCount), uniform);
            var cs := CoordsOf(Search(input, runId, uniform).points);
      && multiset(cs) <= multiset(cands)
      && (forall p, i :: p in multiset(cands) - multiset(cs) && 0 <= i < |cs| ==> SqDist(q, cs[i]) <= SqDist(q, p))
      && (forall d :: IsPrefix(WithKey(cs, DistanceFrom(q), d), WithKey(cands, DistanceFrom(q), d)))
  {
    var q := QueryOf(input);
    var cands := Candidates(input.n.ValueOr(DefaultCount), uniform);
    SortedPrefixSpec(cands, DistanceFrom(q), input.k.ValueOr(DefaultK));
    SearchCoords(input, runId, uniform);
    var cs := CoordsOf(Search(input, runId, uniform).points);
    forall p, i | p in multiset(cands) - multiset(cs) && 0 <= i < |cs| ensures SqDist(q, cs[i]) <= SqDist(q, p) {
      assert DistanceFrom(q)(cs[i]) <= DistanceFrom(q)(p);
    }
  }

  /** The returned coordinates are the first `k` elements of ANY stable sort of the candidates
      by distance, in particular of Python's `list.sort`. */
  lemma SearchTakesFirstKOfStableSort(input: SearchInput, runId: RunId, uniform: nat -> real, sorted: seq<Point>)
    requires IsStableSortOf(Candidates(input.n.ValueOr(DefaultCount), uniform), sorted, DistanceFrom(QueryOf(input)))
    ensures CoordsOf(Search(input, runId, uniform).points) == Take(sorted, input.k.ValueOr(DefaultK))
  {
    var cands := Candidates(input.n.ValueOr(DefaultCount), uniform);
    StableSortsAgree(cands, sorted, DistanceFrom(QueryOf(input)));
    SearchCoords(input, runId, uniform);
    var out := Search(input, runId, uniform);
    var top := SortedPrefix(cands, DistanceFrom(QueryOf(input)), input.k.ValueOr(DefaultK));
    assert |CoordsOf(out.points)| == |top|;
  }

  /** An empty request searches 1000 candidates around (10, 20) and returns 10 records. */
  lemma DefaultSearch(runId: RunId, uniform: nat -> real)
    ensures var out := Search(SearchInput(None, None, None, None), runId, uniform);
      && |out.points| == 10
      && (forall i :: 0 <= i < 10 ==> out.points[i].value == uniform(2000 + i))
      && (forall i, j :: 0 <= i < j < 10 ==>
            SqDist(Point(10.0, 20.0), out.points[i].coords) <= SqDist(Point(10.0, 20.0), out.points[j].coords))
  {
    SearchSorted(SearchInput(None, None, None, None), runId, uniform);
  }

  /** `k = 0` returns no points, and so does a count of zero or less, whatever `k` is. */
  lemma EmptySearches(input: SearchInput, runId: RunId, uniform: nat -> real)
    requires input.k == Some(0) || (input.n.Some? && input.n.value <= 0)
    ensures Search(input, runId, uniform).points == []
  {
  }
}
