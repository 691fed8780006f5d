/**
 * The value-level logic of L.GridLayer: flooring pixel bounds to tile bounds,
 * the row-major enumeration of a tile rectangle and the queue of tiles still to
 * add, the ordering of that queue by distance to the rectangle's centre, the
 * `isValidTile` combination, and the auto z-index fold. The stateful methods that
 * use these are in module Lifecycle.
 */
module GridLayer {
  import opened Wrappers
  import opened Geometry
  import opened TileKey

  // ---------------------------------------------------------------------------
  // Tile bounds (`_update`, bounds.min/max.divideBy(tileSize)._floor())

  /**
   * Math.floor(p / tileSize). Dafny's `/` is Euclidean, which is the floor when the
   * divisor is positive.
   */
  function FloorDiv(p: int, tileSize: int): int
    requires tileSize > 0
  {
    p / tileSize
  }

  /** The inclusive tile rectangle covering pixel bounds `pixels`. */
  function TileBounds(pixels: Bounds, tileSize: int): Bounds
    requires tileSize > 0
  {
    Bounds(Point(FloorDiv(pixels.min.x, tileSize), FloorDiv(pixels.min.y, tileSize)),
           Point(FloorDiv(pixels.max.x, tileSize), FloorDiv(pixels.max.y, tileSize)))
  }

  lemma MulBelowDivisor(a: int, tileSize: int)
    requires tileSize > 0 && a * tileSize < tileSize
    ensures a <= 0
  {
  }

  /** The tile index of a pixel is the unique t with t * tileSize <= p < (t + 1) * tileSize. */
  lemma FloorDivBracket(p: int, tileSize: int, t: int)
    requires tileSize > 0
    ensures t == FloorDiv(p, tileSize) <==> t * tileSize <= p < (t + 1) * tileSize
  {
    var q, r := p / tileSize, p % tileSize;
    assert p == q * tileSize + r && 0 <= r < tileSize;
    assert (q + 1) * tileSize == q * tileSize + tileSize;
    assert (t + 1) * tileSize == t * tileSize + tileSize;
    if t * tileSize <= p < (t + 1) * tileSize {
      assert (t - q) * tileSize == t * tileSize - q * tileSize;
      assert (q - t) * tileSize == q * tileSize - t * tileSize;
      MulBelowDivisor(t - q, tileSize);
      MulBelowDivisor(q - t, tileSize);
    }
  }

  lemma FloorDivMonotone(p: int, p': int, tileSize: int)
    requires tileSize > 0 && p <= p'
    ensures FloorDiv(p, tileSize) <= FloorDiv(p', tileSize)
  {
    var t, t' := FloorDiv(p, tileSize), FloorDiv(p', tileSize);
    FloorDivBracket(p, tileSize, t);
    FloorDivBracket(p', tileSize, t');
    assert (t - t') * tileSize == t * tileSize - t' * tileSize;
    assert (t' + 1) * tileSize == t' * tileSize + tileSize;
    MulBelowDivisor(t - t', tileSize);
  }

  /**
   * Every pixel of `pixels` lies in a tile of the tile rectangle, and ordered pixel
   * bounds give ordered tile bounds.
   */
  lemma TileBoundsCover(pixels: Bounds, tileSize: int, p: Point)
    requires tileSize > 0
    requires Contains(pixels, p)
    ensures Ordered(TileBounds(pixels, tileSize))
    ensures Contains(TileBounds(pixels, tileSize), Point(FloorDiv(p.x, tileSize), FloorDiv(p.y, tileSize)))
  {
    FloorDivMonotone(pixels.min.x, p.x, tileSize);
    FloorDivMonotone(p.x, pixels.max.x, tileSize);
    FloorDivMonotone(pixels.min.y, p.y, tileSize);
    FloorDivMonotone(p.y, pixels.max.y, tileSize);
  }

  // ---------------------------------------------------------------------------
  // isValidTile

  /**
   * The boolean of `isValidTile`: the latitude overlap is tested under wrapX and the
   * longitude overlap under wrapY, and the two axes are joined with OR. The overlap
   * tests themselves need the map projection and are inputs here.
   */
  function IsValidTile(wrapX: bool, wrapY: bool, latOverlap: bool, lngOverlap: bool): (valid: bool)
    ensures wrapX || wrapY ==> valid
    ensures latOverlap || lngOverlap ==> valid
    ensures !wrapX && !wrapY && !latOverlap && !lngOverlap ==> !valid
  {
    (wrapX || latOverlap) || (wrapY || lngOverlap)
  }

  /** `isValidTile` as a predicate on tile points, given the two overlap tests. */
  function ValidTiles(wrapX: bool, wrapY: bool, latOverlap: Point -> bool, lngOverlap: Point -> bool): Point -> bool {
    p => IsValidTile(wrapX, wrapY, latOverlap(p), lngOverlap(p))
  }

  // ---------------------------------------------------------------------------
  // Row-major enumeration of a tile rectangle

  predicate Distinct<T(==)>(s: seq<T>) {
    forall i, j :: 0 <= i < j < |s| ==> s[i] != s[j]
  }

  function Width(b: Bounds): nat {
    if b.max.x < b.min.x then 0 else b.max.x - b.min.x + 1
  }

  function Height(b: Bounds): nat {
    if b.max.y < b.min.y then 0 else b.max.y - b.min.y + 1
  }

  /** The first n points of row y, from column x0 rightwards. */
  function Row(y: int, x0: int, n: nat): seq<Point> {
    if n == 0 then [] else Row(y, x0, n - 1) + [Point(x0 + n - 1, y)]
  }

  /** The first m rows of `b`, top to bottom. */
  function Rows(b: Bounds, m: nat): seq<Point> {
    if m == 0 then [] else Rows(b, m - 1) + Row(b.min.y + m - 1, b.min.x, Width(b))
  }

  lemma RowsSnoc(b: Bounds, m: nat)
    ensures Rows(b, m + 1) == Rows(b, m) + Row(b.min.y + m, b.min.x, Width(b))
  {
  }

  /** The points of `b` in the order of `_addTilesFromCenterOut`'s nested loops. */
  function Rect(b: Bounds): seq<Point> {
    Rows(b, Height(b))
  }

  lemma {:induction false} RowMembers(y: int, x0: int, n: nat, p: Point)
    ensures p in Row(y, x0, n) <==> p.y == y && x0 <= p.x < x0 + n
  {
    if n > 0 {
      RowMembers(y, x0, n - 1, p);
    }
  }

  lemma {:induction false} RowDistinct(y: int, x0: int, n: nat)
    ensures Distinct(Row(y, x0, n))
  {
    if n > 0 {
      RowDistinct(y, x0, n - 1);
      RowMembers(y, x0, n - 1, Point(x0 + n - 1, y));
    }
  }

  lemma {:induction false} RowsMembers(b: Bounds, m: nat, p: Point)
    ensures p in Rows(b, m) <==> b.min.y <= p.y < b.min.y + m && b.min.x <= p.x < b.min.x + Width(b)
  {
    if m > 0 {
      RowsMembers(b, m - 1, p);
      RowMembers(b.min.y + m - 1, b.min.x, Width(b), p);
    }
  }

  lemma {:induction false} RowsDistinct(b: Bounds, m: nat)
    ensures Distinct(Rows(b, m))
  {
    if m > 0 {
      RowsDistinct(b, m - 1);
      var row := Row(b.min.y + m - 1, b.min.x, Width(b));
      RowDistinct(b.min.y + m - 1, b.min.x, Width(b));
      var s := Rows(b, m - 1) + row;
      forall i, j | 0 <= i < j < |s| ensures s[i] != s[j] {
        var k := |Rows(b, m - 1)|;
        if i < k <= j {
          RowsMembers(b, m - 1, s[i]);
          RowMembers(b.min.y + m - 1, b.min.x, Width(b), s[j]);
        }
      }
    }
  }

  /** A rectangle enumerates exactly its points, each once. */
  lemma RectExactly(b: Bounds, p: Point)
    ensures p in Rect(b) <==> Contains(b, p)
    ensures Distinct(Rect(b))
  {
    RowsMembers(b, Height(b), p);
    RowsDistinct(b, Height(b));
  }

  // ---------------------------------------------------------------------------
  // The tile queue

  /** A tile the queue takes: not yet added to the layer, and valid. */
  predicate Wanted(p: Point, added: set<Point>, valid: Point -> bool) {
    p !in added && valid(p)
  }

  /** `!this._tileIsAdded(point) && this._isValidTile(point)` as a test on points. */
  function WantedBy(added: set<Point>, valid: Point -> bool): Point -> bool {
    p => Wanted(p, added, valid)
  }

  /** The wanted points of `ps`, in order. */
  function Keep(ps: seq<Point>, wanted: Point -> bool): seq<Point> {
    if ps == [] then []
    else
      var last := ps[|ps| - 1];
      Keep(ps[..|ps| - 1], wanted) + (if wanted(last) then [last] else [])
  }

  /** Keep looks at one more point at the end. */
  lemma KeepSnoc(ps: seq<Point>, p: Point, wanted: Point -> bool)
    ensures Keep(ps + [p], wanted) == Keep(ps, wanted) + (if wanted(p) then [p] else [])
  {
    assert (ps + [p])[..|ps|] == ps;
  }

  /** The queue `_addTilesFromCenterOut` builds for tile bounds `b`, before sorting. */
  function Candidates(b: Bounds, added: set<Point>, valid: Point -> bool): seq<Point> {
    Keep(Rect(b), WantedBy(added, valid))
  }

  lemma {:induction false} KeepMembers(ps: seq<Point>, wanted: Point -> bool, p: Point)
    ensures p in Keep(ps, wanted) <==> p in ps && wanted(p)
  {
    if ps != [] {
      KeepMembers(ps[..|ps| - 1], wanted, p);
      assert ps == ps[..|ps| - 1] + [ps[|ps| - 1]];
    }
  }

  lemma {:induction false} KeepDistinct(ps: seq<Point>, wanted: Point -> bool)
    requires Distinct(ps)
    ensures Distinct(Keep(ps, wanted))
  {
    if ps != [] {
      var init, last := ps[..|ps| - 1], ps[|ps| - 1];
      KeepDistinct(init, wanted);
      KeepMembers(init, wanted, last);
      assert last !in init;
    }
  }

  /**
   * The queue holds exactly the points of the rectangle that are not yet added and
   * are valid, each once.
   */
  lemma CandidatesExactly(b: Bounds, added: set<Point>, valid: Point -> bool, p: Point)
    ensures p in Candidates(b, added, valid) <==> Contains(b, p) && p !in added && valid(p)
    ensures Distinct(Candidates(b, added, valid))
  {
    RectExactly(b, p);
    KeepMembers(Rect(b), WantedBy(added, valid), p);
    KeepDistinct(Rect(b), WantedBy(added, valid));
  }

  // ---------------------------------------------------------------------------
  // Sorting the queue by distance to the centre

  predicate SortedByDistance(b: Bounds, s: seq<Point>) {
    forall i, j :: 0 <= i < j < |s| ==> CenterDistance(b, s[i]) <= CenterDistance(b, s[j])
  }

  /** Inserts p before the first point farther from the centre than p. */
  function Insert(b: Bounds, p: Point, s: seq<Point>): (r: seq<Point>)
    requires SortedByDistance(b, s)
    ensures multiset(r) == multiset(s) + multiset{p}
    ensures SortedByDistance(b, r)
  {
    if s == [] then [p]
    else if CenterDistance(b, p) <= CenterDistance(b, s[0]) then [p] + s
    else
      var tail := Insert(b, p, s[1..]);
      assert s == [s[0]] + s[1..];
      InsertBehindHead(b, p, s, tail);
      [s[0]] + tail
  }

  lemma InsertBehindHead(b: Bounds, p: Point, s: seq<Point>, tail: seq<Point>)
    requires s != [] && SortedByDistance(b, s)
    requires CenterDistance(b, s[0]) < CenterDistance(b, p)
    requires multiset(tail) == multiset(s[1..]) + multiset{p} && SortedByDistance(b, tail)
    ensures SortedByDistance(b, [s[0]] + tail)
  {
    forall j | 0 <= j < |tail| ensures CenterDistance(b, s[0]) <= CenterDistance(b, tail[j]) {
      assert tail[j] in multiset(tail);
      if tail[j] != p {
        assert tail[j] in multiset(s[1..]);
        var k :| 0 <= k < |s[1..]| && s[1..][k] == tail[j];
        assert s[k + 1] == tail[j];
      }
    }
  }

  /**
   * `queue.sort` by `distanceTo(center)`: a permutation of the queue in non-decreasing
   * distance to the centre. The order among equally distant points is not specified
   * by the source (Array.prototype.sort was not required to be stable).
   */
  function SortByDistance(b: Bounds, q: seq<Point>): (r: seq<Point>)
    ensures multiset(r) == multiset(q)
    ensures SortedByDistance(b, r)
  {
    if q == [] then []
    else
      assert q == [q[0]] + q[1..];
      Insert(b, q[0], SortByDistance(b, q[1..]))
  }

  /** A permutation of a sequence without repetitions has none either. */
  lemma PermutationDistinct<T>(a: seq<T>, r: seq<T>)
    requires Distinct(a) && multiset(a) == multiset(r)
    ensures Distinct(r)
  {
    forall i, j | 0 <= i < j < |r| ensures r[i] != r[j] {
      if r[i] == r[j] {
        var x := r[i];
        assert r == r[..i] + [x] + r[i + 1..j] + [x] + r[j + 1..];
        assert multiset(r)[x] >= 2;
        DistinctCount(a, x);
      }
    }
  }

  lemma {:induction false} DistinctCount<T>(a: seq<T>, x: T)
    requires Distinct(a)
    ensures multiset(a)[x] <= 1
  {
    if a != [] {
      assert a == [a[0]] + a[1..];
      DistinctCount(a[1..], x);
      if a[0] == x {
        assert x !in a[1..];
      }
    }
  }

  /** Nothing is queued when no point of the sequence is wanted. */
  lemma {:induction false} KeepNone(ps: seq<Point>, wanted: Point -> bool)
    requires forall p :: p in ps ==> !wanted(p)
    ensures Keep(ps, wanted) == []
  {
    if ps != [] {
      var init := ps[..|ps| - 1];
      assert forall p :: p in init ==> p in ps;
      assert ps[|ps| - 1] in ps;
      KeepNone(init, wanted);
    }
  }

  /** Once every valid point of `b` has a key, the queue for `b` is empty. */
  lemma CandidatesNone(b: Bounds, added: set<Point>, valid: Point -> bool)
    requires forall p :: Contains(b, p) && valid(p) ==> p in added
    ensures Candidates(b, added, valid) == []
  {
    forall p | p in Rect(b) ensures !Wanted(p, added, valid) {
      RectExactly(b, p);
    }
    KeepNone(Rect(b), WantedBy(added, valid));
  }

  /**
   * The sorted queue holds each missing valid point of `b` once, nearest to the
   * centre first.
   */
  lemma SortedQueue(b: Bounds, added: set<Point>, valid: Point -> bool)
    ensures var q := SortByDistance(b, Candidates(b, added, valid));
      && SortedByDistance(b, q)
      && Distinct(q)
      && (forall p :: p in q ==> Contains(b, p) && p !in added && valid(p))
      && (forall p :: Contains(b, p) && p !in added && valid(p) ==> p in q)
  {
    var c := Candidates(b, added, valid);
    forall p ensures p in SortByDistance(b, c) <==> Contains(b, p) && p !in added && valid(p) {
      CandidatesExactly(b, added, valid, p);
      assert p in c <==> p in multiset(c);
    }
    CandidatesExactly(b, added, valid, Point(0, 0));
    PermutationDistinct(c, SortByDistance(b, c));
  }

  /** Once the queued points have added, nothing of `b` is left to queue. */
  lemma QueueFillsBounds(b: Bounds, added: set<Point>, valid: Point -> bool, queue: seq<Point>, added': set<Point>)
    requires forall p :: Contains(b, p) && p !in added && valid(p) ==> p in queue
    requires added' == added + (set p | p in queue)
    ensures Candidates(b, added', valid) == []
  {
    forall p | Contains(b, p) && valid(p) ensures p in added' {
      if p !in added {
        assert p in queue;
      }
    }
    CandidatesNone(b, added', valid);
  }

  // ---------------------------------------------------------------------------
  // Auto z-index (`_setAutoZIndex`)

  /** The `compare` argument: Math.max for bringToFront, Math.min for bringToBack. */
  datatype Comparison = Max | Min

  /** A child of the tile pane: the identity of its element and its style.zIndex text. */
  datatype PaneChild = PaneChild(id: nat, zIndex: string)

  function Compare(c: Comparison, a: int, b: int): int {
    match c
    case Max => if a < b then b else a
    case Min => if a < b then a else b
  }

  /**
   * The numeric z-indices of the pane's children other than the layer's own container
   * (element `self`), in order; NaN results of parseInt are skipped.
   */
  function OtherZIndices(children: seq<PaneChild>, self: nat): seq<int> {
    if children == [] then []
    else
      var last := children[|children| - 1];
      var z := ParseInt(last.zIndex);
      OtherZIndices(children[..|children| - 1], self) + (if last.id != self && z.Some? then [z.value] else [])
  }

  /**
   * `edgeZIndex` after the loop over the first |children| children: None while no child
   * has yet bounded it, i.e. it is still the unbounded start value.
   */
  function Edge(c: Comparison, children: seq<PaneChild>, self: nat): Option<int> {
    if children == [] then None
    else
      var e := Edge(c, children[..|children| - 1], self);
      var last := children[|children| - 1];
      var z := ParseInt(last.zIndex);
      if last.id == self || z.None? then e
      else if e.None? then Some(z.value)
      else Some(Compare(c, e.value, z.value))
  }

  /** One more child of the loop over the pane's children. */
  lemma EdgeSnoc(c: Comparison, children: seq<PaneChild>, i: nat, self: nat)
    requires i < |children|
    ensures var e, z := Edge(c, children[..i], self), ParseInt(children[i].zIndex);
            Edge(c, children[..i + 1], self)
              == if children[i].id == self || z.None? then e
                 else if e.None? then Some(z.value)
                 else Some(Compare(c, e.value, z.value))
  {
    assert children[..i + 1][..i] == children[..i];
  }

  /** The z-index `_setAutoZIndex` assigns: (isFinite(edge) ? edge : 0) + compare(1, -1). */
  function AutoZIndex(c: Comparison, children: seq<PaneChild>, self: nat): int {
    Edge(c, children, self).GetOr(0) + (if c == Max then 1 else -1)
  }

  lemma {:induction false} EdgeIsExtreme(c: Comparison, children: seq<PaneChild>, self: nat)
    ensures Edge(c, children, self).None? <==> OtherZIndices(children, self) == []
    ensures Edge(c, children, self).Some? ==> Edge(c, children, self).value in OtherZIndices(children, self)
    ensures Edge(c, children, self).Some? ==> forall z :: z in OtherZIndices(children, self) ==>
      if c == Max then z <= Edge(c, children, self).value else Edge(c, children, self).value <= z
  {
    if children != [] {
      var init, last := children[..|children| - 1], children[|children| - 1];
      EdgeIsExtreme(c, init, self);
      var e, zs := Edge(c, init, self), OtherZIndices(init, self);
      var z := ParseInt(last.zIndex);
      if last.id != self && z.Some? {
        assert OtherZIndices(children, self) == zs + [z.value];
      } else {
        assert OtherZIndices(children, self) == zs;
      }
    }
  }

  /**
   * In max mode the layer goes one above the highest other numeric z-index (1 when
   * there is none); in min mode one below the lowest (-1 when there is none).
   */
  lemma AutoZIndexSpec(c: Comparison, children: seq<PaneChild>, self: nat)
    ensures OtherZIndices(children, self) == [] ==> AutoZIndex(c, children, self) == (if c == Max then 1 else -1)
    ensures OtherZIndices(children, self) != [] && c == Max ==>
      && AutoZIndex(c, children, self) - 1 in OtherZIndices(children, self)
      && forall z :: z in OtherZIndices(children, self) ==> z < AutoZIndex(c, children, self)
    ensures OtherZIndices(children, self) != [] && c == Min ==>
      && AutoZIndex(c, children, self) + 1 in OtherZIndices(children, self)
      && forall z :: z in OtherZIndices(children, self) ==> AutoZIndex(c, children, self) < z
  {
    EdgeIsExtreme(c, children, self);
  }
}
