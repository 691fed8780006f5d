# Leaflet tile-grid bookkeeping in Dafny

This project models the tile bookkeeping of Leaflet's `L.GridLayer` and of
`L.TileLayer`, which extends it, and proves properties of that model. It covers:

- how the visible pixel bounds become an inclusive rectangle of tile coordinates;
- which tiles of that rectangle are queued, and in what order (nearest to the centre first);
- how tiles are filed in the `_tiles` map under their `"x:y"` keys, and evicted again;
- the `_tilesToLoad` counter and the `loading` / `load` / `tileload` / `tileerror` /
  `tileunload` events;
- the double buffer (`_tileContainer` and `_bgBuffer`) used during a zoom animation;
- the coordinate arithmetic of `getTileUrl`, and the retina rewrite of the options;
- the automatic z-index of the layer's container.

Modules, following the structure of the two source files:

- `Wrappers`: `Option`.
- `Geometry`: points, tile coordinates, inclusive bounds, doubled distance to the centre
  (so that centres of even-sized rectangles stay integral).
- `TileKey`: `_tileCoordsToKey` and `_keyToTileCoords`, with JavaScript's number-to-string,
  `split(':')` and `parseInt(s, 10)` written out.
- `GridLayer`: the pure parts of GridLayer.js. These are the flooring of the pixel bounds,
  `isValidTile`'s boolean combination, the row-major rectangle, the candidate queue, the
  sort by distance, and the fold of `_setAutoZIndex`.
- `TileOptions`: the options, the retina rewrite in `initialize`, and the arithmetic of
  `getTileUrl`.
- `Tiles`: tile records, the images of a container, and the filters and swaps on containers.
- `Lifecycle`: the class `TileLayer`, whose fields are the state the source methods
  update in place. The source's loops are methods with loop invariants. Each is proved
  against the functions of the modules above.

A TileLayer object runs GridLayer's methods with TileLayer's overrides of `_removeTile`
and `_prepareBgBuffer`, so one class models it. GridLayer's `_removeTile` is
`GridRemoveTile`; TileLayer's is `RemoveTile`.

What the map and the browser supply becomes parameters:

- the pixel bounds, the zoom and whether a map is present;
- the two geographic overlap tests of `isValidTile`;
- the animation and touch-zoom flags;
- whether the screen is a retina screen;
- the z-indices of the pane's children.

An image's load or error is a call of `TileOnLoad` / `TileOnError`. The
`_clearBgBufferTimer` timeout is the flag `clearPending`, and its firing is the method
`OnClearTimer`. Fired events are appended to a log. A tile is identified by a serial
number, because in the source every tile is a distinct DOM element.

The `_tiles` map is keyed by the tile's point rather than by the string
`_tileCoordsToKey(point)`. This loses nothing:

- the encoding is injective (`TileKey.KeyInjective`);
- `_keyToTileCoords` inverts it for every integer pair, negatives included (`TileKey.KeyRoundTrip`).

So a key names exactly one point, and `bounds.contains(this._keyToTileCoords(key))` is
`Contains(bounds, p)` for the point `p` that the key names.

The source has several defects. The model follows the evident intent in each case, and a
comment at the place says so:

- The add loop of `_addTilesFromCenterOut` runs to the undeclared `tilesToLoad`
  (GridLayer.js:277); the model adds `queue.length` tiles.
- `getTileUrl` reads the undeclared `tilePoint` (TileLayer.js:99); the model reads `coords`.
- `getTileUrl` leaves `x` / `y` unassigned when neither wrapping nor TMS applies
  (TileLayer.js:80-97); the model uses `coords.x` / `coords.y`.
- `_setAutoZIndex(pane, compare)` is called with one argument (GridLayer.js:77, 88 against
  128). The model takes the comparison and the pane's children.
- `_initTile` reads the undeclared `size` (GridLayer.js:326). Tile styling is not modelled.
- `_tileCoordsToBounds` reads `tilePoint` (GridLayer.js:292). The geography it computes is
  an input here.

Other places where the model resolves what the source leaves implicit:

- `isValidTile` lets any tile through when `wrapX` or `wrapY` is set, because the source
  combines the two axes with `||` (GridLayer.js:66-67). The model keeps that `||`.
- An empty container makes `count / len` NaN. Both comparisons with 0.5 are then false,
  and the model says so with `len > 0`.
- `_reset` fires `tileunload` for each tile but does not clean the tiles up. So a tile
  that is still loading can later call `_tileLoaded` on the zeroed counter. The model keeps
  this: `TileOnLoad` on such a tile lowers the counter below zero.

The counter is meant to return to zero, and `load` to fire, exactly when every pending
tile has resolved. Besides the `_reset` case above, the source breaks this in two more
ways. The model keeps the source's behaviour, and two scenario methods exhibit it:

- A tile still loading when `_removeOtherTiles` evicts it (or when `_stopLoadingImages`
  drops it) is cleaned up: its handlers become no-ops (TileLayer.js:141-146), so it is
  never counted and `load` never fires for its batch (`Lifecycle.EvictedWhileLoading`).
- `_tileOnError` replaces `src` but leaves `onload` attached (TileLayer.js:181-185). When
  the error image loads, `_tileOnLoad` runs for the same tile and counts it a second time
  (`Lifecycle.ErrorTileCountedTwice`).

## Model

| member | source | states |
|---|---|---|
| TileKey.KeyRoundTrip | src/layer/tile/GridLayer.js:301-311 | decoding the key of any point, negative coordinates included, gives that point back |
| TileKey.KeyInjective | src/layer/tile/GridLayer.js:301-303 | two points have the same key exactly when they are the same point |
| TileKey.ParseIntToString | src/layer/tile/GridLayer.js:305-311 | `parseInt(_, 10)` reads back the decimal text of any integer, with or without a minus sign, whatever non-digit follows it |
| TileKey.DigitsValueOfNat | src/layer/tile/GridLayer.js:301-311 | the digits printed for a natural number have that number as their value |
| TileKey.NatToString | src/layer/tile/GridLayer.js:301-303 | the decimal text of a natural number is non-empty and all digits |
| TileKey.IntToString | src/layer/tile/GridLayer.js:301-303 | the text of an integer never contains the separator `:` |
| TileKey.DigitPrefix | src/layer/tile/GridLayer.js:305-311 | the digit run `parseInt` reads is all digits and a prefix of its input |
| TileKey.SplitAtColon | src/layer/tile/GridLayer.js:305-307 | `split(':')` of `a + ':' + b`, with no colon in `a`, yields `a` and then the pieces of `b` |
| TileKey.SplitNoColon | src/layer/tile/GridLayer.js:305-307 | `split(':')` of a colon-free string is that string alone |
| GridLayer.FloorDivBracket | src/layer/tile/GridLayer.js:230-232 | `t` is the floor of `p / tileSize` exactly when `t*tileSize <= p < (t+1)*tileSize` |
| GridLayer.FloorDivMonotone | src/layer/tile/GridLayer.js:230-232 | flooring by a positive tile size preserves `<=` |
| GridLayer.TileBoundsCover | src/layer/tile/GridLayer.js:224-232 | the tile bounds of non-empty pixel bounds keep `min <= max`, and contain the tile of every pixel inside |
| GridLayer.IsValidTile | src/layer/tile/GridLayer.js:56-68 | a tile is valid exactly when `wrapX`, `wrapY` or one of the two overlap tests holds, as the source joins them with OR; with no wrap flag and neither overlap it is rejected |
| GridLayer.RectExactly | src/layer/tile/GridLayer.js:249-251 | the row-major enumeration of the inclusive rectangle holds exactly its points, each once |
| GridLayer.RowsMembers | src/layer/tile/GridLayer.js:249-251 | the first `m` rows hold exactly the points of those rows within the x range |
| GridLayer.KeepMembers | src/layer/tile/GridLayer.js:255-257 | filtering keeps exactly the elements that pass the test |
| GridLayer.CandidatesExactly | src/layer/tile/GridLayer.js:249-259 | the queue before sorting holds exactly the points of the bounds that are not in `_tiles` (`_tileIsAdded`, lines 284-286) and are valid, each once |
| GridLayer.Insert | src/layer/tile/GridLayer.js:271-273 | inserting into a queue sorted by distance keeps it sorted and adds exactly that point |
| GridLayer.SortByDistance | src/layer/tile/GridLayer.js:271-273 | the sorted queue is a permutation of the queue, in non-decreasing distance to the centre |
| GridLayer.SortedQueue | src/layer/tile/GridLayer.js:249-273 | the sorted queue is duplicate-free, sorted by distance, and holds exactly the missing valid points of the bounds |
| GridLayer.CandidatesNone | src/layer/tile/GridLayer.js:255-261 | when every valid point of the bounds is in `_tiles`, nothing is queued |
| GridLayer.QueueFillsBounds | src/layer/tile/GridLayer.js:275-279 | once every queued point is added, a second pass over the same bounds queues nothing |
| GridLayer.EdgeIsExtreme | src/layer/tile/GridLayer.js:128-143 | the edge z-index is infinite exactly when no other child has a numeric z-index; otherwise it is one of those z-indices and the largest (max) or smallest (min) of them |
| GridLayer.AutoZIndexSpec | src/layer/tile/GridLayer.js:145-146 | the z-index assigned is the maximum plus 1 or the minimum minus 1, and 1 or -1 when no other child has a numeric z-index |
| TileOptions.Defaults | src/layer/tile/TileLayer.js:8-32 | the merged defaults of GridLayer and TileLayer have a positive tile size and `0 <= minZoom <= maxZoom` |
| TileOptions.RetinaRewriteSpec | src/layer/tile/TileLayer.js:38-47 | on a retina screen with `detectRetina` and `maxZoom > 0`: the tile size is halved (floor), `maxZoom` drops by one, `minZoom` drops by one only when positive, `zoomOffset` rises by one so `maxZoom + zoomOffset` is unchanged, sane zoom limits stay sane, and every other option is kept; otherwise only the subdomains change |
| TileOptions.SplitSubdomains | src/layer/tile/TileLayer.js:55-59 | a subdomain string becomes one name per character, in order; a list is kept |
| TileOptions.JsRem | src/layer/tile/TileLayer.js:90-92 | JavaScript's `%` takes the sign of the dividend, is smaller in size than the divisor, and `a == trunc(a/b)*b + a % b` |
| TileOptions.WrapXSpec | src/layer/tile/TileLayer.js:89-92 | the wrapped x lies in `[0, limit)`, is congruent to x modulo `limit`, and is x when x is already in range |
| TileOptions.TmsYSpec | src/layer/tile/TileLayer.js:94-97 | `limit - y - 1` maps `[0, limit)` onto itself and undoes itself |
| TileOptions.TileUrlZoom | src/layer/tile/TileLayer.js:78-87 | the emitted z is `coords.z + zoomOffset`, mirrored against `maxZoom` under `zoomReverse` |
| TileOptions.TileUrlX | src/layer/tile/TileLayer.js:83-92 | unless `continuousWorld` or `noWrap`, the emitted x is `coords.x` wrapped into `[0, 2^z)`; otherwise it is `coords.x` |
| TileOptions.TileUrlY | src/layer/tile/TileLayer.js:83-97 | under `tms` the emitted y is `2^z - y - 1` for every `coords.y`, which maps back to `coords.y` and keeps a row of the grid inside it; otherwise it is `coords.y` |
| TileOptions.TileUrlSubdomain | src/layer/tile/TileLayer.js:99-100 | a subdomain is emitted exactly when the list is non-empty, and it is one of the configured names |
| TileOptions.ZoomReverseKeepsLimit | src/layer/tile/TileLayer.js:81-87 | `zoomReverse` changes neither the wrapped x nor the TMS y, since `limit` comes from the unreversed z |
| Tiles.CompleteOnlyExactly | src/layer/tile/TileLayer.js:223-235 | the images left after stopping the loads are exactly the complete ones, as many as `_getLoadedTilesPercentage` counts |
| Tiles.CompleteOnlyAppend | src/layer/tile/TileLayer.js:223-235 | the complete images of a concatenation are those of the first part followed by those of the second |
| Lifecycle.NewImgsIncomplete | src/layer/tile/GridLayer.js:263-281 | none of the images a batch of `_addTile` calls appends is complete |
| Lifecycle.BatchNeverSurvivesStop | src/layer/tile/TileLayer.js:223-235 | stopping the loads of a container right after a batch of `_addTile` calls leaves exactly the images that were complete before the batch, in their order |
| Tiles.WithoutIdsMembers | src/layer/tile/GridLayer.js:364-366 | detaching tiles from a container leaves exactly its other images |
| Tiles.WithoutIdsTwice | src/layer/tile/GridLayer.js:313-321 | detaching tiles one group after another detaches their union |
| Tiles.MarkComplete | src/layer/tile/TileLayer.js:163-171 | a load marks exactly the images of that tile complete and changes nothing else |
| Tiles.SwapTwice | src/layer/tile/GridLayer.js:462-473 | a swap exchanges the two containers, and two swaps give back the images and z-indices of both |
| Tiles.PreparedBuffersSpec | src/layer/tile/TileLayer.js:189-207 | the background is kept exactly when it is more than half loaded and the front less than half; when kept, the old front is hidden and cut down to its complete images; when swapped, the old background becomes the front and is hidden, and the old front, cut down to its complete images, becomes the background |
| Lifecycle.CollectQueue | src/layer/tile/GridLayer.js:247-259 | the nested loops queue the points of the bounds, in row-major order, that pass the test |
| Lifecycle.PlanQueue | src/layer/tile/GridLayer.js:247-273 | the sorted queue is a permutation of the candidates, duplicate-free, sorted by distance, and holds exactly the missing valid points |
| Lifecycle.UnloadEvents | src/layer/tile/GridLayer.js:199-205 | the loop of `_reset` produces exactly as many events as there are entries, each a `tileunload` of one of the map's tiles, visiting each key once |
| Lifecycle.FindEdge | src/layer/tile/GridLayer.js:130-143 | the loop of `_setAutoZIndex` computes the edge z-index of the other children |
| Lifecycle.TileLayer.constructor | src/layer/tile/TileLayer.js:34-60 | the options after `initialize` are the retina rewrite and subdomain split of the given ones; no tiles, counter zero, empty containers |
| Lifecycle.AdjustForRetina | src/layer/tile/TileLayer.js:38-47 | the option-by-option updates of the retina branch produce exactly the retina rewrite that `TileOptions.RetinaRewriteSpec` characterises |
| Lifecycle.TileLayer.AddTile | src/layer/tile/GridLayer.js:337-359 | a new tile is filed under its point and appended to the fragment |
| Lifecycle.TileLayer.AddQueue | src/layer/tile/GridLayer.js:275-279 | every queued point gets a tile with the queue's coordinates and zoom, in queue order; earlier entries stay unchanged |
| Lifecycle.TileLayer.AddTilesFromCenterOut | src/layer/tile/GridLayer.js:241-282 | an empty queue changes nothing; otherwise the counter grows by the queue's length, `loading` fires exactly when it was 0, and every queued tile is added and appended to the front container; the queue is duplicate-free, holds only missing valid points of the bounds, and leaves no valid tile of the bounds missing |
| Lifecycle.TileLayer.AddBatch | src/layer/tile/GridLayer.js:263-281 | for a non-empty queue the counter grows by its length, `loading` fires exactly when the counter was 0, each queued point gets a fresh tile in queue order, and the images are appended to the front container |
| Lifecycle.TileLayer.CleanupTile | src/layer/tile/TileLayer.js:137-147 | the tile's load and error handlers become no-ops |
| Lifecycle.TileLayer.GridRemoveTile | src/layer/tile/GridLayer.js:361-371 | the tile leaves its container and `_tiles`, and one `tileunload` fires |
| Lifecycle.TileLayer.RemoveTile | src/layer/tile/TileLayer.js:129-135 | GridLayer's removal, then the tile is cleaned up |
| Lifecycle.TileLayer.EvictionLoop | src/layer/tile/GridLayer.js:313-321 | the loop visits every key once and evicts exactly those outside the bounds, each once, with one `tileunload`, container removal and cleanup per eviction in eviction order |
| Lifecycle.TileLayer.RemoveOtherTiles | src/layer/tile/GridLayer.js:313-321 | exactly the keys outside the bounds are evicted, one `tileunload` each; entries inside are untouched; the evicted tiles leave both containers and are cleaned up |
| Lifecycle.TileLayer.Reset | src/layer/tile/GridLayer.js:196-217 | one `tileunload` per prior entry; `_tiles` empty, counter 0, front emptied; a hard reset of an animated layer clears the background |
| Lifecycle.TileLayer.Update | src/layer/tile/GridLayer.js:219-239 | nothing happens without a map or outside `[minZoom, maxZoom]`; otherwise, on the floored tile bounds, the queue, `_tiles` (kept entries and the new entries' tiles), the next tile identity, the counter, the events, both containers and the cleaned-up tiles are as `UpdateBounds` states, and a second update would add and evict nothing |
| Lifecycle.TileLayer.UpdateBounds | src/layer/tile/GridLayer.js:234-238 | the queue is the missing valid tiles of the bounds, nearest first; `_tiles` becomes the old entries minus the evicted ones (those outside the bounds, under `unloadInvisibleTiles`) plus one new tile per queued point; the counter grows by the queue's length; the events are `loading` when the counter was idle, then one `tileunload` per evicted entry; the new images join the front and the evicted ones leave both containers and are cleaned up; afterwards a second pass would add and evict nothing |
| Lifecycle.UpdatePhases | src/layer/tile/GridLayer.js:234-238 | since every added tile lies inside the bounds, the eviction after the add removes exactly the old entries outside the bounds, with their old tiles |
| Lifecycle.TileLayer.TileLoaded | src/layer/tile/TileLayer.js:149-161 | the counter drops by one; `load` fires exactly at 0, and an animated layer then reschedules the background clear |
| Lifecycle.TileLayer.TileOnLoad | src/layer/tile/TileLayer.js:163-171 | a live tile's load marks it complete, fires `tileload` and counts it once; a cleaned-up tile's load changes nothing |
| Lifecycle.TileLayer.TileOnError | src/layer/tile/TileLayer.js:173-187 | a live tile's error fires `tileerror` and counts the tile as resolved; a cleaned-up tile's error changes nothing |
| Lifecycle.EvictedWhileLoading | src/layer/tile/TileLayer.js:129-147 | a tile evicted by `_removeOtherTiles` before it loads is never counted: after the eviction and its load the counter is unchanged and only `tileunload` events have fired |
| Lifecycle.ErrorTileCountedTwice | src/layer/tile/TileLayer.js:163-187 | a failed tile whose error image then loads lowers the counter twice, firing `tileerror` and then `tileload` |
| Lifecycle.UnloadsOnly | src/layer/tile/GridLayer.js:313-321 | the eviction and reset loops fire nothing but `tileunload` |
| Lifecycle.TileLayer.LoadedTilesPercentage | src/layer/tile/TileLayer.js:209-220 | the loop counts the complete images among all images |
| Lifecycle.TileLayer.StopLoadingImages | src/layer/tile/TileLayer.js:223-235 | the container keeps exactly its complete images in order, and every incomplete one is cleaned up |
| Lifecycle.TileLayer.SwapBgBuffer | src/layer/tile/GridLayer.js:462-473 | the background, hidden and untransformed, becomes the front, and the front becomes the background |
| Lifecycle.TileLayer.PrepareBgBuffer | src/layer/tile/TileLayer.js:189-207 | the containers become the prepared pair, and exactly the old front's incomplete tiles are cleaned up |
| Lifecycle.TileLayer.AnimateZoom | src/layer/tile/GridLayer.js:403-432 | only the first frame prepares the buffers and cancels the pending clear; every frame transforms the background; afterwards the layer is animating |
| Lifecycle.TileLayer.EndZoomAnim | src/layer/tile/GridLayer.js:434-447 | the front is shown with z-index 2 over the background's 1; the animation is over |
| Lifecycle.TileLayer.ClearBgBuffer | src/layer/tile/GridLayer.js:449-456 | the background is emptied and untransformed exactly when the map is neither animating a zoom nor touch-zooming |
| Lifecycle.TileLayer.OnClearTimer | src/layer/tile/TileLayer.js:157-159 | a pending background clear runs once, and then nothing is pending |
| Lifecycle.TileLayer.SetAutoZIndex | src/layer/tile/GridLayer.js:128-147 | the option and the container get the same z-index, the one `AutoZIndex` defines |

## Left out

- Keys: `_tiles` is keyed by the point, not by its string. This is justified by
  `TileKey.KeyInjective` and `TileKey.KeyRoundTrip`. JavaScript's exponent notation for
  numbers of 21 or more digits is not modelled; tile coordinates stay far below that.
- DOM work is not modelled. This covers `createTile`'s image cloning, `_initTile`,
  `_initContainer`, `_getTilePos` and `setPosition`, `setOpacity` / `_updateOpacity` with
  its IE and WebKit hacks, and the transform and scale strings of `_animateZoom`. A
  container is its sequence of images plus the hidden, transformed and z-index flags.
- `_cleanupTile`'s Android branch is not modelled; the model takes the non-Android path.
- The geography behind `isValidTile` is an input: `_tileCoordsToBounds`, `map.unproject`
  and the lat/lng comparisons are floating-point projection. Only the boolean combination
  is modelled.
- `L.Util.template` and `L.extend` in `getTileUrl` are not modelled; only the computed
  `s`, `z`, `x` and `y` values are.
- Timers: `setTimeout` / `clearTimeout` become the `clearPending` flag, and
  `limitExecByInterval` is not modelled.
- Event wiring is not modelled: `onAdd` / `onRemove`, `_getEvents`, `map.on` / `off`, and
  the listener mechanics of `fire`. Events are an appended log.
- `bringToFront`, `bringToBack`, `setZIndex`, `_updateZIndex`, `getAttribution`, `addTo`
  and `getContainer` are not modelled; they move DOM nodes or return fields.
- `redraw` (src/layer/tile/GridLayer.js:101-107) is not a member of its own: it is
  `_reset({hard: true})` followed by `_update()` when the layer is on a map, and both are
  modelled (`Lifecycle.TileLayer.Reset`, `Lifecycle.TileLayer.Update`). `setUrl` stores
  the template and calls `redraw` unless told not to.
- `split('')` in `initialize` splits a subdomain string into UTF-16 code units; a Dafny
  `char` is a Unicode scalar value, so the two differ for subdomain letters outside the
  Basic Multilingual Plane. `TileOptions.SplitSubdomains` splits by scalar value.
- GridLayer's own `_prepareBgBuffer` (GridLayer.js:458-460) is not modelled separately: a
  TileLayer runs its override, and the swap it performs is `SwapBgBuffer`.
- Lifecycle.PlanQueue: the source sorts after raising the counter and firing `loading`.
  The model sorts first; neither step reads the other's result.
- GridLayer.SortByDistance: ties in distance may come out in any order, because
  `Array.prototype.sort` promised no stability. The model proves sortedness and
  permutation, not tie order.
- Lifecycle.TileLayer.Update requires `tileSize > 0`. A zero tile size divides by zero in
  the source; the default is 256 (`TileOptions.Defaults`), and the retina rewrite leaves any
  tile size of 2 or more positive.
- Lifecycle.TileLayer.Update takes integer pixel bounds; `map.getPixelBounds()` gives
  integers in practice, but fractional bounds are not modelled.
- TileOptions.TileUrlValues requires `coords.z + zoomOffset >= 0`. `Math.pow(2, z)` with a
  negative z is a fraction, and `%` on it is floating point, which is not modelled.
- Lifecycle.TileLayer.AnimateZoom and Lifecycle.TileLayer.EndZoomAnim require an animated
  layer: the zoom-animation events are registered only when the buffers exist.
- The order in which for-in visits keys is not fixed by the model. `Reset` and
  `RemoveOtherTiles` return the visiting order as a ghost result, and their contracts hold
  for every order.
