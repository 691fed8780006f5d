/**
 * The state of one TileLayer object (TileLayer extends GridLayer, so the object
 * runs GridLayer's methods with TileLayer's overrides of `_removeTile` and
 * `_prepareBgBuffer`): the `_tiles` map, the `_tilesToLoad` counter, the front
 * and background tile containers of the zoom transition, and the events fired,
 * kept as an appended log. The map, the browser and the timer are outside the
 * model: what they supply (pixel bounds, zoom, animation flags, tile callbacks,
 * the timer firing) arrives as method parameters or method calls.
 *
 * `_tiles` is keyed by `_tileCoordsToKey(point)`. That encoding is injective and
 * `_keyToTileCoords` inverts it (TileKey.KeyInjective, TileKey.KeyRoundTrip), so
 * a key stands for exactly one point and decodes back to it: the model keys the
 * map by the point itself, and `bounds.contains(this._keyToTileCoords(key))` is
 * `Contains(bounds, p)` for the point `p` of the key.
 */
module Lifecycle {
  import opened Wrappers
  import opened Geometry
  import opened TileKey
  import opened GridLayer
  import opened TileOptions
  import opened Tiles

  /** The events the layer fires, in firing order. */
  datatype Event = Loading | Load | TileLoad(tile: Tile) | TileError(tile: Tile) | TileUnload(tile: Tile)

  /** One `tileunload` per key, in the given order. */
  function Unloads(keys: seq<Point>, m: map<Point, Tile>): seq<Event>
    requires forall k :: k in keys ==> k in m
  {
    if keys == [] then [] else Unloads(keys[..|keys| - 1], m) + [TileUnload(m[keys[|keys| - 1]])]
  }

  /** The keys of `m` outside `b`: what `_removeOtherTiles` evicts. */
  function Outside(b: Bounds, m: map<Point, Tile>): set<Point> {
    set k | k in m && !Contains(b, k)
  }

  /** What `_update` evicts: the keys outside `b` when unloadInvisibleTiles is set, else none. */
  function Evicted(b: Bounds, m: map<Point, Tile>, unload: bool): set<Point> {
    if unload then Outside(b, m) else {}
  }

  /** The tiles under the keys `keys` of `m`. */
  function IdsOf(keys: set<Point>, m: map<Point, Tile>): set<nat> {
    set k | k in keys && k in m :: m[k].id
  }

  function PointOf(t: Tile): Point {
    Point(t.coords.x, t.coords.y)
  }

  /** The images `_addTile` appends for `queue`, numbered from `firstId`, none loaded yet. */
  function NewImgs(queue: seq<Point>, firstId: nat, zoom: int): seq<Img> {
    if queue == [] then []
    else
      var n := |queue| - 1;
      NewImgs(queue[..n], firstId, zoom) + [Img(Tile(firstId + n, Coords(queue[n].x, queue[n].y, zoom)), false)]
  }

  lemma UnloadsSnoc(keys: seq<Point>, key: Point, m: map<Point, Tile>)
    requires (forall k :: k in keys ==> k in m) && key in m
    ensures Unloads(keys + [key], m) == Unloads(keys, m) + [TileUnload(m[key])]
  {
    assert (keys + [key])[..|keys|] == keys;
  }

  /** The points of a queue, as a set. */
  function Elements(queue: seq<Point>): set<Point> {
    set p | p in queue
  }

  lemma ElementsSnoc(queue: seq<Point>, i: nat)
    requires i < |queue|
    ensures Elements(queue[..i + 1]) == Elements(queue[..i]) + {queue[i]}
  {
    assert queue[..i + 1] == queue[..i] + [queue[i]];
  }

  lemma NewImgsSnoc(queue: seq<Point>, i: nat, firstId: nat, zoom: int)
    requires i < |queue|
    ensures NewImgs(queue[..i + 1], firstId, zoom)
         == NewImgs(queue[..i], firstId, zoom) + [Img(Tile(firstId + i, Coords(queue[i].x, queue[i].y, zoom)), false)]
  {
    assert queue[..i + 1][..i] == queue[..i];
  }

  /** None of the images `_addTile` appends has finished loading. */
  lemma {:induction false} NewImgsIncomplete(queue: seq<Point>, firstId: nat, zoom: int)
    ensures CompleteOnly(NewImgs(queue, firstId, zoom)) == []
  {
    if queue != [] {
      var n := |queue| - 1;
      var init := NewImgs(queue[..n], firstId, zoom);
      var img := Img(Tile(firstId + n, Coords(queue[n].x, queue[n].y, zoom)), false);
      NewImgsIncomplete(queue[..n], firstId, zoom);
      assert (init + [img])[..|init + [img]| - 1] == init;
    }
  }

  /**
   * `_stopLoadingImages` on a container right after a batch of `_addTile` calls
   * keeps just the images that were complete before the batch, in their order:
   * the batch's images are all removed.
   */
  lemma BatchNeverSurvivesStop(imgs: seq<Img>, queue: seq<Point>, firstId: nat, zoom: int)
    ensures CompleteOnly(imgs + NewImgs(queue, firstId, zoom)) == CompleteOnly(imgs)
  {
    CompleteOnlyAppend(imgs, NewImgs(queue, firstId, zoom));
    NewImgsIncomplete(queue, firstId, zoom);
  }

  lemma EventsSnoc(log: seq<Event>, evs: seq<Event>, e: Event)
    ensures (log + evs) + [e] == log + (evs + [e])
  {
  }

  lemma UnionSnoc(a: set<nat>, b: set<nat>, x: nat)
    ensures (a + b) + {x} == a + (b + {x})
  {
  }

  /** Detaching one more tile from a container that has already lost `ids`. */
  lemma ContainerStep(c0: Container, c: Container, ids: set<nat>, id: nat)
    requires c == c0.(imgs := WithoutIds(c0.imgs, ids))
    ensures c.(imgs := WithoutIds(c.imgs, {id})) == c0.(imgs := WithoutIds(c0.imgs, ids + {id}))
  {
    WithoutIdsTwice(c0.imgs, ids, {id});
  }

  /** `m` with the keys `ks` deleted one after another. */
  function Drop(m: map<Point, Tile>, ks: seq<Point>): map<Point, Tile> {
    if ks == [] then m else Drop(m, ks[..|ks| - 1]) - {ks[|ks| - 1]}
  }

  /** The ids of the tiles under the keys `ks` of `m`. */
  function IdsAlong(ks: seq<Point>, m: map<Point, Tile>): set<nat> {
    if ks == [] then {}
    else
      var last := ks[|ks| - 1];
      IdsAlong(ks[..|ks| - 1], m) + (if last in m then {m[last].id} else {})
  }

  lemma AlongSnoc(ks: seq<Point>, key: Point, m: map<Point, Tile>)
    requires key in m
    ensures Drop(m, ks + [key]) == Drop(m, ks) - {key}
    ensures IdsAlong(ks + [key], m) == IdsAlong(ks, m) + {m[key].id}
  {
    assert (ks + [key])[..|ks|] == ks;
  }

  /** Deleting keys one by one deletes the set of them. */
  lemma {:induction false} AlongElements(ks: seq<Point>, m: map<Point, Tile>)
    ensures Drop(m, ks) == m - Elements(ks)
    ensures IdsAlong(ks, m) == IdsOf(Elements(ks), m)
  {
    if ks != [] {
      var init, last := ks[..|ks| - 1], ks[|ks| - 1];
      AlongElements(init, m);
      assert ks == init + [last];
      assert Elements(ks) == Elements(init) + {last};
    }
  }

  /** `removed` holds exactly the keys of `m` outside `b` that are no longer `pending`. */
  ghost predicate EvictedSoFar(b: Bounds, m: map<Point, Tile>, pending: set<Point>, removed: seq<Point>) {
    forall k :: k in removed <==> k in m && k !in pending && !Contains(b, k)
  }

  lemma EvictedStep(b: Bounds, m: map<Point, Tile>, pending: set<Point>, removed: seq<Point>, key: Point)
    requires Distinct(removed) && EvictedSoFar(b, m, pending, removed) && key in pending && key in m
    ensures var removed' := if Contains(b, key) then removed else removed + [key];
            Distinct(removed') && EvictedSoFar(b, m, pending - {key}, removed')
  {
  }

  /** Unloads reads only the entries under its keys. */
  lemma {:induction false} UnloadsAgree(keys: seq<Point>, m0: map<Point, Tile>, m1: map<Point, Tile>)
    requires forall k :: k in keys ==> k in m0 && k in m1 && m0[k] == m1[k]
    ensures Unloads(keys, m0) == Unloads(keys, m1)
  {
    if keys != [] {
      UnloadsAgree(keys[..|keys| - 1], m0, m1);
    }
  }

  /**
   * Adding entries inside `b` (and changing no existing entry) leaves the entries
   * outside `b` as they were: the same keys, the same tiles.
   */
  lemma OutsideKeptByAdd(b: Bounds, m0: map<Point, Tile>, m1: map<Point, Tile>)
    requires forall k :: k in m0 ==> k in m1 && m1[k] == m0[k]
    requires forall k :: k in m1 && k !in m0 ==> Contains(b, k)
    ensures Outside(b, m1) == Outside(b, m0)
    ensures IdsOf(Outside(b, m1), m1) == IdsOf(Outside(b, m0), m0)
  {
  }

  /**
   * The two phases of `_update` on the `_tiles` map: `t1` is `t0` with one new entry
   * per queued point, all inside `b`, and `t2` is `t1` with the entries outside `b`
   * evicted (in the order `removed`) when `unload` holds. Since the new entries lie
   * inside `b`, exactly the old entries outside `b` are evicted, with their old tiles.
   */
  lemma UpdatePhases(b: Bounds, unload: bool, t0: map<Point, Tile>, t1: map<Point, Tile>, t2: map<Point, Tile>,
                     queue: seq<Point>, removed: seq<Point>, firstId: nat, zoom: int)
    requires forall p :: p in queue ==> Contains(b, p) && p !in t0
    requires t1.Keys == t0.Keys + Elements(queue) && forall k :: k in t0 ==> t1[k] == t0[k]
    requires forall i :: 0 <= i < |queue| ==> t1[queue[i]] == Tile(firstId + i, Coords(queue[i].x, queue[i].y, zoom))
    requires unload ==> t2 == t1 - Outside(b, t1) && forall k :: k in removed <==> k in Outside(b, t1)
    requires !unload ==> t2 == t1 && removed == []
    ensures t2.Keys == (t0.Keys - Evicted(b, t0, unload)) + Elements(queue)
    ensures forall k :: k in t0 && k !in Evicted(b, t0, unload) ==> t2[k] == t0[k]
    ensures forall i :: 0 <= i < |queue| ==> t2[queue[i]] == Tile(firstId + i, Coords(queue[i].x, queue[i].y, zoom))
    ensures forall k :: k in removed <==> k in Evicted(b, t0, unload)
    ensures Unloads(removed, t1) == Unloads(removed, t0)
    ensures unload ==> IdsOf(Outside(b, t1), t1) == IdsOf(Evicted(b, t0, unload), t0)
    ensures !unload ==> IdsOf(Evicted(b, t0, unload), t0) == {}
  {
    OutsideKeptByAdd(b, t0, t1);
    UnloadsAgree(removed, t0, t1);
  }

  /**
   * The nested loops of `_addTilesFromCenterOut`: the points of `b` in row-major
   * order that pass `wanted`, which is `WantedBy(added, valid)` when the layer calls
   * it (not `_tileIsAdded` and `_isValidTile`).
   */
  method CollectQueue(b: Bounds, wanted: Point -> bool) returns (queue: seq<Point>)
    ensures queue == Keep(Rect(b), wanted)
  {
    queue := [];
    var j := b.min.y;
    while j <= b.max.y
      invariant b.min.y <= j <= b.min.y + Height(b)
      invariant queue == Keep(Rows(b, j - b.min.y), wanted)
    {
      ghost var done := Rows(b, j - b.min.y);
      assert done + Row(j, b.min.x, 0) == done;
      var i := b.min.x;
      while i <= b.max.x
        invariant b.min.x <= i <= b.min.x + Width(b)
        invariant queue == Keep(done + Row(j, b.min.x, i - b.min.x), wanted)
      {
        var p := Point(i, j);
        ghost var seen := done + Row(j, b.min.x, i - b.min.x);
        assert done + Row(j, b.min.x, i + 1 - b.min.x) == seen + [p];
        KeepSnoc(seen, p, wanted);
        if wanted(p) {
          queue := queue + [p];
        }
        i := i + 1;
      }
      assert i - b.min.x == Width(b);
      RowsSnoc(b, j - b.min.y);
      j := j + 1;
    }
  }

  /**
   * The queue of `_addTilesFromCenterOut` after `queue.sort`: the points of `b`
   * that pass `WantedBy(added, valid)`, each once, nearest to the centre first.
   */
  method PlanQueue(b: Bounds, added: set<Point>, valid: Point -> bool) returns (queue: seq<Point>)
    ensures multiset(queue) == multiset(Candidates(b, added, valid))
    ensures SortedByDistance(b, queue) && Distinct(queue)
    ensures forall p :: p in queue ==> Contains(b, p) && p !in added && valid(p)
    ensures forall p :: Contains(b, p) && p !in added && valid(p) ==> p in queue
  {
    queue := CollectQueue(b, WantedBy(added, valid));
    queue := SortByDistance(b, queue);
    SortedQueue(b, added, valid);
  }

  /** The loop of `_reset`: one `tileunload` for every entry of `m`, keys in some order. */
  method UnloadEvents(m: map<Point, Tile>) returns (ghost order: seq<Point>, evs: seq<Event>)
    ensures Distinct(order) && forall k :: k in order <==> k in m
    ensures evs == Unloads(order, m)
    ensures |evs| == |order| == |m|
    ensures forall i :: 0 <= i < |evs| ==> evs[i].TileUnload? && evs[i].tile in m.Values
  {
    order, evs := [], [];
    var keys := m.Keys;
    while keys != {}
      decreases |keys|
      invariant keys <= m.Keys
      invariant Distinct(order) && forall k :: k in order <==> k in m && k !in keys
      invariant evs == Unloads(order, m) && |evs| == |order|
      invariant |order| + |keys| == |m|
      invariant forall i :: 0 <= i < |evs| ==> evs[i].TileUnload? && evs[i].tile in m.Values
    {
      var key :| key in keys;
      keys := keys - {key};
      assert (order + [key])[..|order|] == order;
      evs := evs + [TileUnload(m[key])];
      order := order + [key];
    }
  }

  /** The loop of `_setAutoZIndex`: the extreme z-index among the pane's other children. */
  method FindEdge(children: seq<PaneChild>, compare: Comparison, self: nat) returns (edge: Option<int>)
    ensures edge == Edge(compare, children, self)
  {
    edge := None;
    var i := 0;
    while i < |children|
      invariant 0 <= i <= |children|
      invariant edge == Edge(compare, children[..i], self)
    {
      EdgeSnoc(compare, children, i, self);
      if children[i].id != self {
        var zIndex := ParseInt(children[i].zIndex);
        if zIndex.Some? {
          edge := Some(if edge.None? then zIndex.value else Compare(compare, edge.value, zIndex.value));
        }
      }
      i := i + 1;
    }
    assert children[..i] == children;
  }

  /**
   * The retina branch of `initialize`, one option at a time: a high-density screen
   * gets half-size tiles requested from one zoom level deeper.
   */
  method AdjustForRetina(o: Options) returns (opts: Options)
    ensures opts == RetinaRewrite(o)
  {
    opts := o;
    opts := opts.(tileSize := opts.tileSize / 2);
    opts := opts.(zoomOffset := opts.zoomOffset + 1);
    if opts.minZoom > 0 {
      opts := opts.(minZoom := opts.minZoom - 1);
    }
    opts := opts.(maxZoom := opts.maxZoom - 1);
  }

  class TileLayer {
    var options: Options
    /** map.options.zoomAnimation && L.Browser.any3d: whether the zoom buffers exist. */
    const animated: bool
    /** The identity of `_container` among the children of the tile pane. */
    const containerId: nat
    var containerZIndex: Option<int>

    var tiles: map<Point, Tile>
    var tilesToLoad: int
    var events: seq<Event>

    var tileContainer: Container
    var bgBuffer: Container
    var animating: bool
    /** A `_clearBgBufferTimer` is scheduled and has not yet fired or been cancelled. */
    var clearPending: bool

    /** Tiles whose onload/onerror handlers `_cleanupTile` replaced with a no-op. */
    var detached: set<nat>
    /** The identity the next created tile element gets. */
    var nextId: nat

    /**
     * Every tile sits under its own key, every tile was created by this layer, and no
     * tile element is tracked under two keys.
     */
    ghost predicate Valid()
      reads this
    {
      && (forall k :: k in tiles ==> PointOf(tiles[k]) == k && tiles[k].id < nextId)
      && (forall k, k' :: k in tiles && k' in tiles && k != k' ==> tiles[k].id != tiles[k'].id)
    }

    /** `initialize` with the option defaults resolved, plus the containers `onAdd` creates. */
    constructor (o: Options, retinaScreen: bool, animated: bool, containerId: nat)
      ensures Valid()
      ensures options == Initialized(o, retinaScreen)
      ensures this.animated == animated && this.containerId == containerId
      ensures tiles == map[] && tilesToLoad == 0 && events == [] && detached == {} && nextId == 0
      ensures tileContainer == EmptyContainer() && bgBuffer == EmptyContainer()
      ensures !animating && !clearPending && containerZIndex == None
    {
      var opts := o;
      if opts.detectRetina && retinaScreen && opts.maxZoom > 0 {
        opts := AdjustForRetina(opts);
      }
      opts := opts.(subdomains := SplitSubdomains(opts.subdomains));
      options := opts;
      this.animated := animated;
      this.containerId := containerId;
      containerZIndex := None;
      tiles := map[];
      tilesToLoad := 0;
      events := [];
      tileContainer := EmptyContainer();
      bgBuffer := EmptyContainer();
      animating := false;
      clearPending := false;
      detached := {};
      nextId := 0;
    }

    // -------------------------------------------------------------------------
    // Planning and adding tiles

    /** `_addTile`: create the tile element, file it under its key, append it to `fragment`. */
    method AddTile(p: Point, zoom: int, fragment: seq<Img>) returns (fragment': seq<Img>)
      requires Valid()
      modifies this`tiles, this`nextId
      ensures Valid()
      ensures nextId == old(nextId) + 1
      ensures tiles == old(tiles)[p := Tile(old(nextId), Coords(p.x, p.y, zoom))]
      ensures fragment' == fragment + [Img(Tile(old(nextId), Coords(p.x, p.y, zoom)), false)]
    {
      var tile := Tile(nextId, Coords(p.x, p.y, zoom));
      nextId := nextId + 1;
      tiles := tiles[p := tile];
      fragment' := fragment + [Img(tile, false)];
    }

    /** The add loop of `_addTilesFromCenterOut`: `_addTile` for every queued point, in order. */
    method AddQueue(queue: seq<Point>, zoom: int) returns (fragment: seq<Img>)
      requires Valid() && Distinct(queue) && forall p :: p in queue ==> p !in tiles
      modifies this`tiles, this`nextId
      ensures Valid()
      ensures nextId == old(nextId) + |queue|
      ensures tiles.Keys == old(tiles).Keys + Elements(queue)
      ensures forall k :: k in old(tiles) ==> tiles[k] == old(tiles)[k]
      ensures forall i :: 0 <= i < |queue| ==>
        tiles[queue[i]] == Tile(old(nextId) + i, Coords(queue[i].x, queue[i].y, zoom))
      ensures fragment == NewImgs(queue, old(nextId), zoom)
    {
      fragment := [];
      var i := 0;
      while i < |queue|
        invariant 0 <= i <= |queue|
        invariant Valid()
        invariant nextId == old(nextId) + i
        invariant tiles.Keys == old(tiles).Keys + Elements(queue[..i])
        invariant forall k :: k in old(tiles) ==> tiles[k] == old(tiles)[k]
        invariant forall j :: 0 <= j < i ==>
          tiles[queue[j]] == Tile(old(nextId) + j, Coords(queue[j].x, queue[j].y, zoom))
        invariant fragment == NewImgs(queue[..i], old(nextId), zoom)
      {
        ElementsSnoc(queue, i);
        NewImgsSnoc(queue, i, old(nextId), zoom);
        fragment := AddTile(queue[i], zoom, fragment);
        i := i + 1;
      }
      assert queue[..i] == queue;
    }

    /**
     * `_addTilesFromCenterOut`: queue the missing valid tiles of `b`, nearest to the
     * centre first, count them as loading (firing `loading` when nothing was loading),
     * and add them all. The source's add loop runs to the undeclared `tilesToLoad`;
     * its evident intent, modelled here, is `queue.length`. The returned queue is the
     * order in which the tiles were added.
     */
    method AddTilesFromCenterOut(b: Bounds, zoom: int, valid: Point -> bool) returns (queue: seq<Point>)
      requires Valid()
      modifies this`tiles, this`tilesToLoad, this`events, this`tileContainer, this`nextId
      ensures Valid()
      ensures multiset(queue) == multiset(Candidates(b, old(tiles).Keys, valid))
      ensures SortedByDistance(b, queue) && Distinct(queue)
      ensures forall p :: p in queue ==> Contains(b, p) && p !in old(tiles) && valid(p)
      ensures queue == [] ==> tilesToLoad == old(tilesToLoad) && events == old(events)
      ensures queue != [] ==> tilesToLoad == old(tilesToLoad) + |queue|
      ensures queue != [] ==> events == old(events) + (if old(tilesToLoad) == 0 then [Loading] else [])
      ensures tiles.Keys == old(tiles).Keys + Elements(queue)
      ensures forall k :: k in old(tiles) ==> tiles[k] == old(tiles)[k]
      ensures forall i :: 0 <= i < |queue| ==>
        tiles[queue[i]] == Tile(old(nextId) + i, Coords(queue[i].x, queue[i].y, zoom))
      ensures tileContainer == old(tileContainer).(imgs := old(tileContainer).imgs + NewImgs(queue, old(nextId), zoom))
      ensures nextId == old(nextId) + |queue|
      ensures Candidates(b, tiles.Keys, valid) == []
    {
      ghost var keys0 := tiles.Keys;
      queue := PlanQueue(b, tiles.Keys, valid);
      if |queue| == 0 {
        assert |multiset(Candidates(b, keys0, valid))| == 0;
        return;
      }
      AddBatch(queue, zoom);
      QueueFillsBounds(b, keys0, valid, queue, tiles.Keys);
    }

    /**
     * The second half of `_addTilesFromCenterOut`, for a non-empty queue: count the
     * queued tiles as loading, firing `loading` when nothing was loading, add them in
     * queue order and append their images to the front container.
     */
    method AddBatch(queue: seq<Point>, zoom: int)
      requires Valid() && queue != [] && Distinct(queue) && forall p :: p in queue ==> p !in tiles
      modifies this`tiles, this`tilesToLoad, this`events, this`tileContainer, this`nextId
      ensures Valid()
      ensures tilesToLoad == old(tilesToLoad) + |queue|
      ensures events == old(events) + (if old(tilesToLoad) == 0 then [Loading] else [])
      ensures tiles.Keys == old(tiles).Keys + Elements(queue)
      ensures forall k :: k in old(tiles) ==> tiles[k] == old(tiles)[k]
      ensures forall i :: 0 <= i < |queue| ==>
        tiles[queue[i]] == Tile(old(nextId) + i, Coords(queue[i].x, queue[i].y, zoom))
      ensures tileContainer == old(tileContainer).(imgs := old(tileContainer).imgs + NewImgs(queue, old(nextId), zoom))
      ensures nextId == old(nextId) + |queue|
    {
      // `loading` fires only when this batch starts from an idle counter
      if tilesToLoad == 0 {
        events := events + [Loading];
      }
      tilesToLoad := tilesToLoad + |queue|;
      var fragment := AddQueue(queue, zoom);
      tileContainer := tileContainer.(imgs := tileContainer.imgs + fragment);
    }

    // -------------------------------------------------------------------------
    // Removing tiles

    /** `_cleanupTile` (not on Android): the tile's load and error handlers become no-ops. */
    method CleanupTile(t: Tile)
      modifies this`detached
      ensures detached == old(detached) + {t.id}
    {
      detached := detached + {t.id};
    }

    /** GridLayer's `_removeTile`: detach the tile from its container, forget it, fire `tileunload`. */
    method GridRemoveTile(key: Point)
      requires Valid() && key in tiles
      modifies this`tiles, this`events, this`tileContainer, this`bgBuffer
      ensures Valid()
      ensures tiles == old(tiles) - {key}
      ensures events == old(events) + [TileUnload(old(tiles)[key])]
      ensures tileContainer == old(tileContainer).(imgs := WithoutIds(old(tileContainer).imgs, {old(tiles)[key].id}))
      ensures bgBuffer == old(bgBuffer).(imgs := WithoutIds(old(bgBuffer).imgs, {old(tiles)[key].id}))
    {
      var tile := tiles[key];
      // tile.parentNode is whichever container holds it, if any
      tileContainer := tileContainer.(imgs := WithoutIds(tileContainer.imgs, {tile.id}));
      bgBuffer := bgBuffer.(imgs := WithoutIds(bgBuffer.imgs, {tile.id}));
      tiles := tiles - {key};
      events := events + [TileUnload(tile)];
    }

    /** TileLayer's `_removeTile`: GridLayer's, then `_cleanupTile`. */
    method RemoveTile(key: Point)
      requires Valid() && key in tiles
      modifies this`tiles, this`events, this`tileContainer, this`bgBuffer, this`detached
      ensures Valid()
      ensures tiles == old(tiles) - {key}
      ensures events == old(events) + [TileUnload(old(tiles)[key])]
      ensures tileContainer == old(tileContainer).(imgs := WithoutIds(old(tileContainer).imgs, {old(tiles)[key].id}))
      ensures bgBuffer == old(bgBuffer).(imgs := WithoutIds(old(bgBuffer).imgs, {old(tiles)[key].id}))
      ensures detached == old(detached) + {old(tiles)[key].id}
    {
      var tile := tiles[key];
      GridRemoveTile(key);
      CleanupTile(tile);
    }

    /**
     * One `_removeTile` of `_removeOtherTiles`, with its effect stated on the totals
     * accumulated since the loop began from `tiles0`: the keys `removed` so far.
     */
    method Evict(key: Point, ghost tiles0: map<Point, Tile>, ghost events0: seq<Event>, ghost front0: Container,
                 ghost bg0: Container, ghost detached0: set<nat>, ghost removed: seq<Point>)
      requires Valid() && key in tiles0 && key !in removed && forall k :: k in removed ==> k in tiles0
      requires tiles == Drop(tiles0, removed) && events == events0 + Unloads(removed, tiles0)
      requires tileContainer == front0.(imgs := WithoutIds(front0.imgs, IdsAlong(removed, tiles0)))
      requires bgBuffer == bg0.(imgs := WithoutIds(bg0.imgs, IdsAlong(removed, tiles0)))
      requires detached == detached0 + IdsAlong(removed, tiles0)
      modifies this`tiles, this`events, this`tileContainer, this`bgBuffer, this`detached
      ensures Valid()
      ensures tiles == Drop(tiles0, removed + [key]) && events == events0 + Unloads(removed + [key], tiles0)
      ensures tileContainer == front0.(imgs := WithoutIds(front0.imgs, IdsAlong(removed + [key], tiles0)))
      ensures bgBuffer == bg0.(imgs := WithoutIds(bg0.imgs, IdsAlong(removed + [key], tiles0)))
      ensures detached == detached0 + IdsAlong(removed + [key], tiles0)
    {
      var id := tiles0[key].id;
      ghost var ids := IdsAlong(removed, tiles0);
      AlongSnoc(removed, key, tiles0);
      UnloadsSnoc(removed, key, tiles0);
      EventsSnoc(events0, Unloads(removed, tiles0), TileUnload(tiles0[key]));
      UnionSnoc(detached0, ids, id);
      ContainerStep(front0, tileContainer, ids, id);
      ContainerStep(bg0, bgBuffer, ids, id);
      AlongElements(removed, tiles0);
      assert key in tiles && tiles[key] == tiles0[key];
      RemoveTile(key);
    }

    /**
     * The loop of `_removeOtherTiles`: visit every key once, in an unspecified order,
     * and evict it when it lies outside `b`; `removed` is the order of the evictions.
     * The effect is stated along `removed`.
     */
    method EvictionLoop(b: Bounds) returns (ghost removed: seq<Point>)
      requires Valid()
      modifies this`tiles, this`events, this`tileContainer, this`bgBuffer, this`detached
      ensures Valid()
      ensures Distinct(removed) && EvictedSoFar(b, old(tiles), {}, removed)
      ensures tiles == Drop(old(tiles), removed) && events == old(events) + Unloads(removed, old(tiles))
      ensures tileContainer == old(tileContainer).(imgs := WithoutIds(old(tileContainer).imgs, IdsAlong(removed, old(tiles))))
      ensures bgBuffer == old(bgBuffer).(imgs := WithoutIds(old(bgBuffer).imgs, IdsAlong(removed, old(tiles))))
      ensures detached == old(detached) + IdsAlong(removed, old(tiles))
    {
      ghost var tiles0, events0, front0, bg0, detached0 := tiles, events, tileContainer, bgBuffer, detached;
      removed := [];
      WithoutNoIds(front0.imgs);
      WithoutNoIds(bg0.imgs);
      var keys := tiles.Keys;
      while keys != {}
        decreases |keys|
        invariant keys <= tiles0.Keys
        invariant Valid()
        invariant Distinct(removed) && EvictedSoFar(b, tiles0, keys, removed)
        invariant tiles == Drop(tiles0, removed) && events == events0 + Unloads(removed, tiles0)
        invariant tileContainer == front0.(imgs := WithoutIds(front0.imgs, IdsAlong(removed, tiles0)))
        invariant bgBuffer == bg0.(imgs := WithoutIds(bg0.imgs, IdsAlong(removed, tiles0)))
        invariant detached == detached0 + IdsAlong(removed, tiles0)
      {
        var key :| key in keys;
        EvictedStep(b, tiles0, keys, removed, key);
        keys := keys - {key};
        if !Contains(b, key) {
          Evict(key, tiles0, events0, front0, bg0, detached0, removed);
          removed := removed + [key];
        }
      }
    }

    /**
     * `_removeOtherTiles`: evict every tile whose key decodes to a point outside `b`,
     * one `tileunload` each, keeping every other entry as it was. The keys are visited
     * in an unspecified order; `removed` is the order of the evictions.
     */
    method RemoveOtherTiles(b: Bounds) returns (ghost removed: seq<Point>)
      requires Valid()
      modifies this`tiles, this`events, this`tileContainer, this`bgBuffer, this`detached
      ensures Valid()
      ensures tiles == old(tiles) - Outside(b, old(tiles))
      ensures forall k :: k in tiles ==> Contains(b, PointOf(tiles[k]))
      ensures forall k :: k in old(tiles) && Contains(b, PointOf(old(tiles)[k])) ==> k in tiles && tiles[k] == old(tiles)[k]
      ensures Distinct(removed) && forall k :: k in removed <==> k in Outside(b, old(tiles))
      ensures events == old(events) + Unloads(removed, old(tiles))
      ensures tileContainer == old(tileContainer).(imgs := WithoutIds(old(tileContainer).imgs, IdsOf(Outside(b, old(tiles)), old(tiles))))
      ensures bgBuffer == old(bgBuffer).(imgs := WithoutIds(old(bgBuffer).imgs, IdsOf(Outside(b, old(tiles)), old(tiles))))
      ensures detached == old(detached) + IdsOf(Outside(b, old(tiles)), old(tiles))
    {
      ghost var tiles0 := tiles;
      removed := EvictionLoop(b);
      AlongElements(removed, tiles0);
      assert Elements(removed) == Outside(b, tiles0);
    }

    /**
     * `_reset`: fire `tileunload` for every tracked tile (in an unspecified order,
     * returned as `order`), forget them all, zero the counter, empty the front
     * container, and on a hard reset of an animated layer clear the background.
     */
    method Reset(hard: bool, mapAnimatingZoom: bool, touchZooming: bool) returns (ghost order: seq<Point>)
      requires Valid()
      modifies this`tiles, this`tilesToLoad, this`events, this`tileContainer, this`bgBuffer
      ensures Valid()
      ensures tiles == map[] && tilesToLoad == 0
      ensures Distinct(order) && forall k :: k in order <==> k in old(tiles)
      ensures events == old(events) + Unloads(order, old(tiles))
      ensures tileContainer == old(tileContainer).(imgs := [])
      ensures bgBuffer == if animated && hard && !mapAnimatingZoom && !touchZooming
                          then old(bgBuffer).(imgs := [], transformed := false)
                          else old(bgBuffer)
    {
      var unloads;
      order, unloads := UnloadEvents(tiles);
      events := events + unloads;
      tiles := map[];
      tilesToLoad := 0;
      tileContainer := tileContainer.(imgs := []);
      if animated && hard {
        ClearBgBuffer(mapAnimatingZoom, touchZooming);
      }
    }

    /**
     * The body of `_update` once the zoom is in range: add the missing valid tiles of
     * the tile bounds `tb` (`_addTilesFromCenterOut`, whose queue is returned) and, when
     * `unload` (unloadInvisibleTiles) holds, evict the tiles outside them
     * (`_removeOtherTiles`, whose eviction order is returned). Afterwards a second pass
     * over the same bounds has nothing to add and nothing to evict.
     */
    method UpdateBounds(tb: Bounds, zoom: int, valid: Point -> bool, unload: bool)
      returns (ghost queue: seq<Point>, ghost removed: seq<Point>)
      requires Valid()
      modifies this`tiles, this`tilesToLoad, this`events, this`tileContainer, this`bgBuffer, this`detached, this`nextId
      ensures Valid()
      // the queue: the missing valid tiles of the bounds, nearest first
      ensures multiset(queue) == multiset(Candidates(tb, old(tiles).Keys, valid))
      ensures SortedByDistance(tb, queue) && Distinct(queue)
      ensures forall p :: p in queue ==> Contains(tb, p) && p !in old(tiles) && valid(p)
      // `_tiles`: the old entries minus the evicted ones, plus one new tile per queued point
      ensures tiles.Keys == (old(tiles).Keys - Evicted(tb, old(tiles), unload)) + Elements(queue)
      ensures forall k :: k in old(tiles) && k !in Evicted(tb, old(tiles), unload) ==> tiles[k] == old(tiles)[k]
      ensures forall i :: 0 <= i < |queue| ==>
        tiles[queue[i]] == Tile(old(nextId) + i, Coords(queue[i].x, queue[i].y, zoom))
      ensures nextId == old(nextId) + |queue|
      // the counter and the events: `loading` if the counter was idle, then the unloads
      ensures tilesToLoad == old(tilesToLoad) + |queue|
      ensures Distinct(removed) && forall k :: k in removed <==> k in Evicted(tb, old(tiles), unload)
      ensures events == old(events) + (if queue != [] && old(tilesToLoad) == 0 then [Loading] else [])
                        + Unloads(removed, old(tiles))
      // the containers: the new images join the front; the evicted tiles leave both
      ensures tileContainer == old(tileContainer).(imgs :=
        WithoutIds(old(tileContainer).imgs + NewImgs(queue, old(nextId), zoom), IdsOf(Evicted(tb, old(tiles), unload), old(tiles))))
      ensures bgBuffer == old(bgBuffer).(imgs := WithoutIds(old(bgBuffer).imgs, IdsOf(Evicted(tb, old(tiles), unload), old(tiles))))
      ensures detached == old(detached) + IdsOf(Evicted(tb, old(tiles), unload), old(tiles))
      // a fixed point: every valid tile of the bounds is present, and nothing is left outside
      ensures forall p :: Contains(tb, p) && valid(p) ==> p in tiles
      ensures Candidates(tb, tiles.Keys, valid) == []
      ensures unload ==> Outside(tb, tiles) == {}
    {
      ghost var tiles0, nextId0 := tiles, nextId;
      queue := AddTilesFromCenterOut(tb, zoom, valid);
      ghost var tiles1 := tiles;
      forall p | Contains(tb, p) && valid(p) ensures p in tiles {
        CandidatesExactly(tb, tiles.Keys, valid, p);
      }
      if unload {
        removed := RemoveOtherTiles(tb);
      } else {
        removed := [];
        WithoutNoIds(tileContainer.imgs);
        WithoutNoIds(bgBuffer.imgs);
      }
      UpdatePhases(tb, unload, tiles0, tiles1, tiles, queue, removed, nextId0, zoom);
      CandidatesNone(tb, tiles.Keys, valid);
    }

    /**
     * `_update`: nothing without a map or outside [minZoom, maxZoom]; otherwise
     * `UpdateBounds` on the floored tile bounds, with the overlap tests of
     * `isValidTile` as inputs.
     */
    method Update(hasMap: bool, pixels: Bounds, zoom: int, latOverlap: Point -> bool, lngOverlap: Point -> bool)
      returns (ghost queue: seq<Point>, ghost removed: seq<Point>)
      requires Valid() && options.tileSize > 0
      modifies this`tiles, this`tilesToLoad, this`events, this`tileContainer, this`bgBuffer, this`detached, this`nextId
      ensures Valid()
      ensures !hasMap || zoom > options.maxZoom || zoom < options.minZoom ==>
        && queue == [] && removed == []
        && tiles == old(tiles) && tilesToLoad == old(tilesToLoad) && events == old(events)
        && tileContainer == old(tileContainer) && bgBuffer == old(bgBuffer)
        && detached == old(detached) && nextId == old(nextId)
      ensures hasMap && options.minZoom <= zoom <= options.maxZoom ==>
        var tb := TileBounds(pixels, options.tileSize);
        var valid := ValidTiles(options.wrapX, options.wrapY, latOverlap, lngOverlap);
        var evicted := Evicted(tb, old(tiles), options.unloadInvisibleTiles);
        && multiset(queue) == multiset(Candidates(tb, old(tiles).Keys, valid))
        && SortedByDistance(tb, queue)
        && tiles.Keys == (old(tiles).Keys - evicted) + Elements(queue)
        && (forall k :: k in old(tiles) && k !in evicted ==> tiles[k] == old(tiles)[k])
        && (forall i :: 0 <= i < |queue| ==>
              queue[i] in tiles && tiles[queue[i]] == Tile(old(nextId) + i, Coords(queue[i].x, queue[i].y, zoom)))
        && nextId == old(nextId) + |queue|
        && tilesToLoad == old(tilesToLoad) + |queue|
        && (forall k :: k in removed <==> k in evicted)
        && events == old(events) + (if queue != [] && old(tilesToLoad) == 0 then [Loading] else [])
                     + Unloads(removed, old(tiles))
        && tileContainer == old(tileContainer).(imgs :=
             WithoutIds(old(tileContainer).imgs + NewImgs(queue, old(nextId), zoom), IdsOf(evicted, old(tiles))))
        && bgBuffer == old(bgBuffer).(imgs := WithoutIds(old(bgBuffer).imgs, IdsOf(evicted, old(tiles))))
        && detached == old(detached) + IdsOf(evicted, old(tiles))
        && Candidates(tb, tiles.Keys, valid) == []
        && (options.unloadInvisibleTiles ==> Outside(tb, tiles) == {})
    {
      queue, removed := [], [];
      if !hasMap {
        return;
      }
      if zoom > options.maxZoom || zoom < options.minZoom {
        return;
      }
      var tileBounds := TileBounds(pixels, options.tileSize);
      var valid := ValidTiles(options.wrapX, options.wrapY, latOverlap, lngOverlap);
      queue, removed := UpdateBounds(tileBounds, zoom, valid, options.unloadInvisibleTiles);
    }

    // -------------------------------------------------------------------------
    // The pending-load counter

    /**
     * `_tileLoaded`: one tile less to load; at zero fire `load` and, when animated,
     * cancel any scheduled background clear and schedule a new one.
     */
    method TileLoaded()
      modifies this`tilesToLoad, this`events, this`clearPending
      ensures tilesToLoad == old(tilesToLoad) - 1
      ensures events == old(events) + (if tilesToLoad == 0 then [Load] else [])
      ensures clearPending == (if tilesToLoad == 0 && animated then true else old(clearPending))
    {
      tilesToLoad := tilesToLoad - 1;
      if tilesToLoad == 0 {
        events := events + [Load];
        if animated {
          clearPending := true;
        }
      }
    }

    /**
     * The image of tile `t` has loaded: its handler `_tileOnLoad` marks it loaded,
     * fires `tileload` and counts it — unless `_cleanupTile` detached the handler.
     */
    method TileOnLoad(t: Tile)
      modifies this`tilesToLoad, this`events, this`clearPending, this`tileContainer, this`bgBuffer
      ensures t.id in old(detached) ==>
        && tilesToLoad == old(tilesToLoad) && events == old(events) && clearPending == old(clearPending)
        && tileContainer == old(tileContainer) && bgBuffer == old(bgBuffer)
      ensures t.id !in old(detached) ==>
        && tilesToLoad == old(tilesToLoad) - 1
        && events == old(events) + [TileLoad(t)] + (if tilesToLoad == 0 then [Load] else [])
        && clearPending == (if tilesToLoad == 0 && animated then true else old(clearPending))
        && tileContainer == old(tileContainer).(imgs := MarkComplete(old(tileContainer).imgs, t.id))
        && bgBuffer == old(bgBuffer).(imgs := MarkComplete(old(bgBuffer).imgs, t.id))
    {
      if t.id in detached {
        return;
      }
      tileContainer := tileContainer.(imgs := MarkComplete(tileContainer.imgs, t.id));
      bgBuffer := bgBuffer.(imgs := MarkComplete(bgBuffer.imgs, t.id));
      events := events + [TileLoad(t)];
      TileLoaded();
    }

    /**
     * The image of tile `t` has failed: `_tileOnError` fires `tileerror`, swaps in the
     * error image (which is loading again, so the image stays incomplete) and counts
     * the tile as resolved — unless the handler was detached. The `onload` handler
     * stays attached, so the error image's own load is a later `TileOnLoad(t)`, which
     * counts the tile again (see ErrorTileCountedTwice).
     */
    method TileOnError(t: Tile)
      modifies this`tilesToLoad, this`events, this`clearPending
      ensures t.id in old(detached) ==>
        tilesToLoad == old(tilesToLoad) && events == old(events) && clearPending == old(clearPending)
      ensures t.id !in old(detached) ==>
        && tilesToLoad == old(tilesToLoad) - 1
        && events == old(events) + [TileError(t)] + (if tilesToLoad == 0 then [Load] else [])
        && clearPending == (if tilesToLoad == 0 && animated then true else old(clearPending))
    {
      if t.id in detached {
        return;
      }
      events := events + [TileError(t)];
      TileLoaded();
    }

    // -------------------------------------------------------------------------
    // The zoom double buffer

    /** `_getLoadedTilesPercentage` as the fraction count / len of complete images. */
    method LoadedTilesPercentage(c: Container) returns (count: nat, len: nat)
      ensures count == CompleteCount(c.imgs) && len == |c.imgs|
      ensures count <= len
    {
      var imgs := c.imgs;
      count, len := 0, |imgs|;
      var i := 0;
      while i < len
        invariant 0 <= i <= len
        invariant count == CompleteCount(imgs[..i]) && count <= i
      {
        assert imgs[..i + 1][..i] == imgs[..i];
        if imgs[i].complete {
          count := count + 1;
        }
        i := i + 1;
      }
      assert imgs[..i] == imgs;
    }

    /**
     * `_stopLoadingImages`: remove every image still loading from the container and
     * clean it up; the complete ones stay, in order.
     */
    method StopLoadingImages(c: Container) returns (kept: Container)
      modifies this`detached
      ensures kept == c.(imgs := CompleteOnly(c.imgs))
      ensures detached == old(detached) + IncompleteIds(c.imgs)
    {
      var imgs := c.imgs;
      kept := c.(imgs := []);
      var i := 0;
      while i < |imgs|
        invariant 0 <= i <= |imgs|
        invariant kept == c.(imgs := CompleteOnly(imgs[..i]))
        invariant detached == old(detached) + IncompleteIds(imgs[..i])
      {
        assert imgs[..i + 1][..i] == imgs[..i];
        var img := imgs[i];
        if img.complete {
          kept := kept.(imgs := kept.imgs + [img]);
        } else {
          // tile.parentNode.removeChild(tile): the image is not carried over
          CleanupTile(img.tile);
        }
        i := i + 1;
      }
      assert imgs[..i] == imgs;
    }

    /** `_swapBgBuffer`: hide the background, clear its transform, exchange the two roles. */
    method SwapBgBuffer()
      modifies this`tileContainer, this`bgBuffer
      ensures (tileContainer, bgBuffer) == Swapped(old(tileContainer), old(bgBuffer))
    {
      var front, bg := tileContainer, bgBuffer;
      bg := bg.(hidden := true, transformed := false);
      tileContainer := bg;
      bgBuffer := front;
    }

    /**
     * TileLayer's `_prepareBgBuffer`: when the background is more than half loaded and
     * the front less than half, keep the background, hide the front and stop its
     * loading images; otherwise swap and stop the loading images of the new background.
     * (The source also tests that the background exists; an animated layer always has one.)
     */
    method PrepareBgBuffer()
      modifies this`tileContainer, this`bgBuffer, this`detached
      ensures (tileContainer, bgBuffer) == PreparedBuffers(old(tileContainer), old(bgBuffer))
      ensures detached == old(detached) + IncompleteIds(old(tileContainer).imgs)
    {
      var front, bg := tileContainer, bgBuffer;
      var keep := false;
      var bgCount, bgLen := LoadedTilesPercentage(bg);
      if MoreThanHalf(bgCount, bgLen) {
        var frontCount, frontLen := LoadedTilesPercentage(front);
        keep := LessThanHalf(frontCount, frontLen);
      }
      if keep {
        tileContainer := front.(hidden := true);
        tileContainer := StopLoadingImages(tileContainer);
        return;
      }
      SwapBgBuffer();
      bgBuffer := StopLoadingImages(bgBuffer);
    }

    /**
     * `_animateZoom`, on every frame of a zoom animation: only the first frame (when
     * not yet animating) prepares the buffers and cancels a scheduled background clear;
     * every frame applies the zoom transform to the background.
     */
    method AnimateZoom()
      requires animated
      modifies this`animating, this`tileContainer, this`bgBuffer, this`detached, this`clearPending
      ensures animating
      ensures old(animating) ==>
        && tileContainer == old(tileContainer) && bgBuffer == old(bgBuffer).(transformed := true)
        && detached == old(detached) && clearPending == old(clearPending)
      ensures !old(animating) ==>
        && tileContainer == PreparedBuffers(old(tileContainer), old(bgBuffer)).0
        && bgBuffer == PreparedBuffers(old(tileContainer), old(bgBuffer)).1.(transformed := true)
        && detached == old(detached) + IncompleteIds(old(tileContainer).imgs)
        && !clearPending
    {
      var firstFrame := false;
      if !animating {
        animating := true;
        firstFrame := true;
      }
      if firstFrame {
        PrepareBgBuffer();
      }
      if firstFrame {
        // the first frame cancels a background clear that is still scheduled
        clearPending := false;
      }
      bgBuffer := bgBuffer.(transformed := true);
    }

    /** `_endZoomAnim`: show the front above the background (z-index 2 over 1); stop animating. */
    method EndZoomAnim()
      requires animated
      modifies this`tileContainer, this`bgBuffer, this`animating
      ensures tileContainer == old(tileContainer).(hidden := false, zIndex := Some(2))
      ensures bgBuffer == old(bgBuffer).(zIndex := Some(1))
      ensures !animating
    {
      tileContainer := tileContainer.(hidden := false, zIndex := Some(2));
      bgBuffer := bgBuffer.(zIndex := Some(1));
      animating := false;
    }

    /** `_clearBgBuffer`: empty the background unless the map is zooming (animation or touch). */
    method ClearBgBuffer(mapAnimatingZoom: bool, touchZooming: bool)
      modifies this`bgBuffer
      ensures bgBuffer == if !mapAnimatingZoom && !touchZooming
                          then old(bgBuffer).(imgs := [], transformed := false)
                          else old(bgBuffer)
    {
      if !mapAnimatingZoom && !touchZooming {
        bgBuffer := bgBuffer.(imgs := [], transformed := false);
      }
    }

    /** The `_clearBgBufferTimer` timeout firing: it runs `_clearBgBuffer` once. */
    method OnClearTimer(mapAnimatingZoom: bool, touchZooming: bool)
      modifies this`bgBuffer, this`clearPending
      ensures !clearPending
      ensures bgBuffer == if old(clearPending) && !mapAnimatingZoom && !touchZooming
                          then old(bgBuffer).(imgs := [], transformed := false)
                          else old(bgBuffer)
    {
      if clearPending {
        clearPending := false;
        ClearBgBuffer(mapAnimatingZoom, touchZooming);
      }
    }

    // -------------------------------------------------------------------------
    // z-index

    /**
     * `_setAutoZIndex(compare)`: the edge z-index among the other children of the
     * pane, plus compare(1, -1). The source's signature also names a `pane`
     * parameter that its callers never pass; the pane's children are read instead.
     */
    method SetAutoZIndex(children: seq<PaneChild>, compare: Comparison)
      modifies this`options, this`containerZIndex
      ensures options == old(options).(zIndex := Some(AutoZIndex(compare, children, containerId)))
      ensures containerZIndex == Some(AutoZIndex(compare, children, containerId))
    {
      var edge := FindEdge(children, compare, containerId);
      var z := edge.GetOr(0) + (if compare == Max then 1 else -1);
      options := options.(zIndex := Some(z));
      containerZIndex := Some(z);
    }
  }

  // ---------------------------------------------------------------------------
  // Two ways the load counter misses zero, as the source is written

  /** `_reset` and `_removeOtherTiles` fire only `tileunload`, never `load`. */
  lemma {:induction false} UnloadsOnly(keys: seq<Point>, m: map<Point, Tile>)
    requires forall k :: k in keys ==> k in m
    ensures forall e :: e in Unloads(keys, m) ==> e.TileUnload?
  {
    if keys != [] {
      UnloadsOnly(keys[..|keys| - 1], m);
    }
  }

  /**
   * A tile evicted by `_removeOtherTiles` while it is still loading is never counted
   * as resolved: `_cleanupTile` detached its handlers, so its later load changes
   * nothing. The counter keeps the count it had for that tile, and no `load` fires.
   */
  method EvictedWhileLoading(layer: TileLayer, b: Bounds, key: Point) returns (ghost removed: seq<Point>)
    requires layer.Valid() && key in layer.tiles && !Contains(b, key)
    modifies layer
    ensures layer.tilesToLoad == old(layer.tilesToLoad)
    ensures key !in layer.tiles && forall k :: k in removed ==> k in old(layer.tiles)
    ensures layer.events == old(layer.events) + Unloads(removed, old(layer.tiles))
    ensures forall e :: e in layer.events[|old(layer.events)|..] ==> e.TileUnload?
  {
    var tile := layer.tiles[key];
    assert key in Outside(b, layer.tiles);
    ghost var events0, tiles0 := layer.events, layer.tiles;
    removed := layer.RemoveOtherTiles(b);
    assert tile.id in layer.detached;
    UnloadsOnly(removed, tiles0);
    layer.TileOnLoad(tile);
    assert layer.events[|events0|..] == Unloads(removed, tiles0);
  }

  /**
   * `_tileOnError` swaps in the error image but leaves `onload` attached, so when
   * the error image loads, `_tileOnLoad` counts the same tile a second time.
   */
  method ErrorTileCountedTwice(layer: TileLayer, t: Tile)
    requires t.id !in layer.detached
    modifies layer
    ensures layer.tilesToLoad == old(layer.tilesToLoad) - 2
    ensures |layer.events| >= |old(layer.events)| + 2
    ensures layer.events[|old(layer.events)|] == TileError(t)
    ensures TileLoad(t) in layer.events[|old(layer.events)|..]
  {
    ghost var n := |layer.events|;
    layer.TileOnError(t);
    ghost var m := |layer.events|;
    assert layer.events[n] == TileError(t);
    layer.TileOnLoad(t);
    assert layer.events[m] == TileLoad(t) && layer.events[n] == TileError(t);
    assert layer.events[n..][m - n] == TileLoad(t);
  }
}
