/**
 * Tile elements and the containers that hold them, as values. A tile element is
 * identified by a serial number (JavaScript tiles are distinct DOM objects) and
 * carries its tile coordinates. A container is the sequence of its images, each
 * with the browser's `complete` flag, plus the style properties the zoom
 * transition sets.
 */
module Tiles {
  import opened Wrappers
  import opened Geometry

  /** A tile element created for tile coordinates `coords`. */
  datatype Tile = Tile(id: nat, coords: Coords)

  /** An image child of a container and whether the browser has finished loading it. */
  datatype Img = Img(tile: Tile, complete: bool)

  /**
   * A tile container: its images in document order, whether style.visibility is
   * 'hidden', whether a zoom transform is applied, and its style.zIndex.
   */
  datatype Container = Container(imgs: seq<Img>, hidden: bool, transformed: bool, zIndex: Option<int>)

  function EmptyContainer(): Container {
    Container([], false, false, None)
  }

  // ---------------------------------------------------------------------------
  // Complete images

  /** The number of complete images (the `count` of `_getLoadedTilesPercentage`). */
  function CompleteCount(imgs: seq<Img>): nat {
    if imgs == [] then 0
    else CompleteCount(imgs[..|imgs| - 1]) + (if imgs[|imgs| - 1].complete then 1 else 0)
  }

  /** The complete images, in document order. */
  function CompleteOnly(imgs: seq<Img>): seq<Img> {
    if imgs == [] then []
    else
      var last := imgs[|imgs| - 1];
      CompleteOnly(imgs[..|imgs| - 1]) + (if last.complete then [last] else [])
  }

  /** The tiles of the images that are still loading. */
  function IncompleteIds(imgs: seq<Img>): set<nat> {
    if imgs == [] then {}
    else
      var last := imgs[|imgs| - 1];
      IncompleteIds(imgs[..|imgs| - 1]) + (if last.complete then {} else {last.tile.id})
  }

  /** count / len > 0.5 in floating point; 0 / 0 is NaN, for which it is false. */
  predicate MoreThanHalf(count: nat, len: nat) {
    len > 0 && 2 * count > len
  }

  /** count / len < 0.5 in floating point; false for NaN. */
  predicate LessThanHalf(count: nat, len: nat) {
    len > 0 && 2 * count < len
  }

  /**
   * Keeping the images that are complete keeps their order: filtering a concatenation
   * is the concatenation of the filtered parts.
   */
  lemma {:induction false} CompleteOnlyAppend(a: seq<Img>, b: seq<Img>)
    ensures CompleteOnly(a + b) == CompleteOnly(a) + CompleteOnly(b)
  {
    if b != [] {
      var n := |b| - 1;
      assert (a + b)[..|a + b| - 1] == a + b[..n];
      assert (a + b)[|a + b| - 1] == b[n];
      CompleteOnlyAppend(a, b[..n]);
    } else {
      assert a + b == a;
    }
  }

  /**
   * The images kept are exactly the complete ones, there are CompleteCount of them,
   * and none of the dropped ones is complete.
   */
  lemma {:induction false} CompleteOnlyExactly(imgs: seq<Img>, x: Img)
    ensures x in CompleteOnly(imgs) <==> x in imgs && x.complete
    ensures |CompleteOnly(imgs)| == CompleteCount(imgs)
    ensures multiset(CompleteOnly(imgs)) <= multiset(imgs)
  {
    if imgs != [] {
      var init := imgs[..|imgs| - 1];
      CompleteOnlyExactly(init, x);
      assert imgs == init + [imgs[|imgs| - 1]];
    }
  }

  // ---------------------------------------------------------------------------
  // Removing tiles and finishing loads

  /** The images whose tiles are not in `ids`, in order. */
  function WithoutIds(imgs: seq<Img>, ids: set<nat>): seq<Img> {
    if imgs == [] then []
    else
      var last := imgs[|imgs| - 1];
      WithoutIds(imgs[..|imgs| - 1], ids) + (if last.tile.id in ids then [] else [last])
  }

  /** Removing tiles one after another removes the set of them. */
  lemma {:induction false} WithoutIdsTwice(imgs: seq<Img>, ids: set<nat>, more: set<nat>)
    ensures WithoutIds(WithoutIds(imgs, ids), more) == WithoutIds(imgs, ids + more)
  {
    if imgs != [] {
      var init, last := imgs[..|imgs| - 1], imgs[|imgs| - 1];
      WithoutIdsTwice(init, ids, more);
      var w := WithoutIds(init, ids);
      if last.tile.id !in ids {
        assert WithoutIds(imgs, ids) == w + [last];
        assert (w + [last])[..|w + [last]| - 1] == w;
        assert (w + [last])[|w + [last]| - 1] == last;
        assert WithoutIds(w + [last], more) == WithoutIds(w, more) + (if last.tile.id in more then [] else [last]);
      } else {
        assert WithoutIds(imgs, ids) == w;
      }
    }
  }

  lemma {:induction false} WithoutNoIds(imgs: seq<Img>)
    ensures WithoutIds(imgs, {}) == imgs
  {
    if imgs != [] {
      WithoutNoIds(imgs[..|imgs| - 1]);
    }
  }

  lemma {:induction false} WithoutIdsMembers(imgs: seq<Img>, ids: set<nat>, x: Img)
    ensures x in WithoutIds(imgs, ids) <==> x in imgs && x.tile.id !in ids
  {
    if imgs != [] {
      WithoutIdsMembers(imgs[..|imgs| - 1], ids, x);
      assert imgs == imgs[..|imgs| - 1] + [imgs[|imgs| - 1]];
    }
  }

  /** The images after tile `id` has loaded: its image becomes complete. */
  function MarkComplete(imgs: seq<Img>, id: nat): (r: seq<Img>)
    ensures |r| == |imgs|
    ensures forall i :: 0 <= i < |imgs| ==> r[i].tile == imgs[i].tile
    ensures forall i :: 0 <= i < |imgs| ==> r[i].complete == (imgs[i].complete || imgs[i].tile.id == id)
  {
    seq(|imgs|, i requires 0 <= i < |imgs| => if imgs[i].tile.id == id then imgs[i].(complete := true) else imgs[i])
  }

  // ---------------------------------------------------------------------------
  // The double buffer

  /**
   * `_swapBgBuffer` on (front, bg): the background, hidden and with its transform
   * cleared, becomes the front; the front becomes the background.
   */
  function Swapped(front: Container, bg: Container): (Container, Container) {
    (bg.(hidden := true, transformed := false), front)
  }

  /** Swapping twice gives each container its place back, with its images and z-index. */
  lemma SwapTwice(front: Container, bg: Container)
    ensures var (f, b) := Swapped(front, bg); var (f2, b2) := Swapped(f, b);
      f2.imgs == front.imgs && b2.imgs == bg.imgs && f2.zIndex == front.zIndex && b2.zIndex == bg.zIndex
    ensures Swapped(front, bg).0.imgs == bg.imgs && Swapped(front, bg).1 == front
  {
  }

  /**
   * The "keep old buffer" test of TileLayer's `_prepareBgBuffer`: the background is
   * more than half loaded and the front less than half.
   */
  predicate KeepsBackground(front: Container, bg: Container) {
    MoreThanHalf(CompleteCount(bg.imgs), |bg.imgs|) && LessThanHalf(CompleteCount(front.imgs), |front.imgs|)
  }

  /**
   * The containers after `_prepareBgBuffer`: either the front is hidden and stripped of
   * its incomplete images and the background kept, or the two are swapped and the new
   * background (the old front) is stripped of its incomplete images.
   */
  function PreparedBuffers(front: Container, bg: Container): (Container, Container) {
    if KeepsBackground(front, bg) then
      (front.(hidden := true, imgs := CompleteOnly(front.imgs)), bg)
    else
      var (f, b) := Swapped(front, bg);
      (f, b.(imgs := CompleteOnly(b.imgs)))
  }

  /**
   * Either way the old front loses exactly its incomplete images; the old background
   * becomes the front exactly when the test fails.
   */
  lemma PreparedBuffersSpec(front: Container, bg: Container)
    ensures var (f, b) := PreparedBuffers(front, bg);
      && (KeepsBackground(front, bg) ==> b == bg && f.hidden && f.imgs == CompleteOnly(front.imgs))
      && (!KeepsBackground(front, bg) ==> f.imgs == bg.imgs && f.hidden && b.imgs == CompleteOnly(front.imgs))
      && (forall x :: x in (if KeepsBackground(front, bg) then f.imgs else b.imgs) ==> x.complete)
  {
    forall x | x in CompleteOnly(front.imgs) ensures x.complete {
      CompleteOnlyExactly(front.imgs, x);
    }
  }
}
