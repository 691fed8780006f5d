/**
 * The value-level logic of L.TileLayer: its options and the retina rewrite that
 * `initialize` applies to them, the splitting of a subdomain string, and the
 * integer arithmetic of `getTileUrl` (zoom offset and reverse, x wrapping, TMS y
 * inversion, subdomain choice). The stateful parts of L.TileLayer are in the
 * class Lifecycle.TileLayer.
 */
module TileOptions {
  import opened Wrappers
  import opened Geometry
  import GridLayer

  /** `options.subdomains`: a string of one-letter subdomains, or a list. */
  datatype Subdomains = Letters(text: string) | Names(names: seq<string>)

  /** The layer options the tile code reads (GridLayer's and TileLayer's together). */
  datatype Options = Options(
    tileSize: int,
    minZoom: int,
    maxZoom: int,
    zoomOffset: int,
    zoomReverse: bool,
    tms: bool,
    continuousWorld: bool,
    noWrap: bool,
    subdomains: Subdomains,
    detectRetina: bool,
    wrapX: bool,
    wrapY: bool,
    unloadInvisibleTiles: bool,
    zIndex: Option<int>)

  /**
   * The defaults of GridLayer and TileLayer; on mobile browsers unloadInvisibleTiles
   * defaults to true.
   */
  function Defaults(mobile: bool): (o: Options)
    ensures o.tileSize > 0 && 0 <= o.minZoom <= o.maxZoom
  {
    Options(256, 0, 18, 0, false, false, false, false, Letters("abc"), false, true, false, mobile, None)
  }

  // ---------------------------------------------------------------------------
  // initialize

  /** The retina rewrite happens for detectRetina on a retina screen with maxZoom > 0. */
  predicate RetinaApplies(o: Options, retinaScreen: bool) {
    o.detectRetina && retinaScreen && o.maxZoom > 0
  }

  /** 'abc'.split(''): one entry per character; a list is kept as it is. */
  function SplitSubdomains(s: Subdomains): (r: Subdomains)
    ensures r.Names?
    ensures s.Letters? ==> |r.names| == |s.text| && forall i :: 0 <= i < |s.text| ==> r.names[i] == [s.text[i]]
    ensures s.Names? ==> r == s
  {
    match s
    case Letters(text) => Names(seq(|text|, i requires 0 <= i < |text| => [text[i]]))
    case Names(_) => s
  }

  /**
   * The options after the retina rewrite of `initialize`: half the tile size (rounded
   * down), one more zoom offset, one less maxZoom, and one less minZoom when it is
   * positive.
   */
  function RetinaRewrite(o: Options): Options {
    o.(tileSize := o.tileSize / 2,
       zoomOffset := o.zoomOffset + 1,
       minZoom := if o.minZoom > 0 then o.minZoom - 1 else o.minZoom,
       maxZoom := o.maxZoom - 1)
  }

  /** The options `initialize` leaves: the retina rewrite if it applies, then the subdomain split. */
  function Initialized(o: Options, retinaScreen: bool): Options {
    var r := if RetinaApplies(o, retinaScreen) then RetinaRewrite(o) else o;
    r.(subdomains := SplitSubdomains(o.subdomains))
  }

  /**
   * The retina rewrite halves the tile size with rounding down, lowers maxZoom by one
   * and minZoom by one unless it is already 0 or below, and raises zoomOffset by one,
   * so the highest zoom requested from the server (maxZoom + zoomOffset) is kept and
   * a zoom range that was ordered and non-negative stays so. Every other option is
   * kept, and nothing but the subdomain split happens when the rewrite does not apply.
   */
  lemma RetinaRewriteSpec(o: Options, retinaScreen: bool)
    ensures var r := Initialized(o, retinaScreen);
      && r.subdomains == SplitSubdomains(o.subdomains)
      && (RetinaApplies(o, retinaScreen) ==>
            && 2 * r.tileSize <= o.tileSize < 2 * r.tileSize + 2
            && r.maxZoom == o.maxZoom - 1
            && r.minZoom == (if o.minZoom > 0 then o.minZoom - 1 else o.minZoom)
            && r.maxZoom + r.zoomOffset == o.maxZoom + o.zoomOffset
            && (0 <= o.minZoom <= o.maxZoom ==> 0 <= r.minZoom <= r.maxZoom)
            && r.(tileSize := o.tileSize, minZoom := o.minZoom, maxZoom := o.maxZoom,
                  zoomOffset := o.zoomOffset, subdomains := o.subdomains) == o)
      && (!RetinaApplies(o, retinaScreen) ==>
            r == o.(subdomains := SplitSubdomains(o.subdomains)))
  {
  }

  // ---------------------------------------------------------------------------
  // getTileUrl

  function Pow2(n: nat): (r: nat)
    ensures r >= 1
  {
    if n == 0 then 1 else 2 * Pow2(n - 1)
  }

  /** The quotient of JavaScript's `%`: truncated toward zero. */
  function TruncQuot(a: int, b: int): int
    requires b > 0
  {
    if a >= 0 then a / b else -((-a) / b)
  }

  /** JavaScript's `%` on integers: the remainder takes the sign of the dividend. */
  function JsRem(a: int, b: int): (r: int)
    requires b > 0
    ensures -b < r < b && (a >= 0 ==> r >= 0) && (a <= 0 ==> r <= 0)
    ensures a == TruncQuot(a, b) * b + r
  {
    if a >= 0 then a % b
    else
      assert -a == ((-a) / b) * b + (-a) % b;
      -((-a) % b)
  }

  /** ((x % limit) + limit) % limit, with JavaScript's `%`. */
  function WrapX(x: int, limit: int): int
    requires limit > 0
  {
    JsRem(JsRem(x, limit) + limit, limit)
  }

  lemma ModUnique(x: int, limit: int, k: int, r: int)
    requires limit > 0 && 0 <= r < limit && x == k * limit + r
    ensures x % limit == r
  {
    var q, m := x / limit, x % limit;
    assert x == q * limit + m;
    assert (q - k) * limit == q * limit - k * limit;
    assert (k - q) * limit == k * limit - q * limit;
    GridLayer.MulBelowDivisor(q - k, limit);
    GridLayer.MulBelowDivisor(k - q, limit);
  }

  /**
   * The wrapped x lies in [0, limit) and is congruent to x modulo limit (Dafny's `%` is
   * the non-negative remainder), so an x already in range is unchanged.
   */
  lemma WrapXSpec(x: int, limit: int)
    requires limit > 0
    ensures 0 <= WrapX(x, limit) < limit
    ensures WrapX(x, limit) == x % limit
    ensures 0 <= x < limit ==> WrapX(x, limit) == x
  {
    var r1 := JsRem(x, limit);
    var t := r1 + limit;
    var r2 := WrapX(x, limit);
    var q1, q2 := TruncQuot(x, limit), TruncQuot(t, limit);
    assert x == q1 * limit + r1;
    assert t == q2 * limit + r2;
    assert x == (q1 + q2 - 1) * limit + r2 by {
      assert (q1 + q2 - 1) * limit == q1 * limit + q2 * limit - limit;
    }
    ModUnique(x, limit, q1 + q2 - 1, r2);
    if 0 <= x < limit {
      ModUnique(x, limit, 0, x);
    }
  }

  /** TMS row numbering: the rows of a 2^z grid counted from the bottom. */
  function TmsY(y: int, limit: int): int {
    limit - y - 1
  }

  /** TmsY maps [0, limit) onto itself and is its own inverse. */
  lemma TmsYSpec(y: int, limit: int)
    ensures 0 <= y < limit ==> 0 <= TmsY(y, limit) < limit
    ensures TmsY(TmsY(y, limit), limit) == y
  {
  }

  function SubdomainCount(s: Subdomains): nat {
    match s
    case Letters(text) => |text|
    case Names(names) => |names|
  }

  /** options.subdomains[i]: a one-letter string or a list entry. */
  function SubdomainAt(s: Subdomains, i: nat): string
    requires i < SubdomainCount(s)
  {
    match s
    case Letters(text) => [text[i]]
    case Names(names) => names[i]
  }

  /** The values `getTileUrl` passes to the URL template. */
  datatype UrlValues = UrlValues(s: Option<string>, z: int, x: int, y: int)

  function Abs(n: int): nat {
    if n < 0 then -n else n
  }

  /**
   * The arithmetic of `getTileUrl`. The source leaves x and y unassigned when no
   * wrapping or TMS applies and reads the undeclared `tilePoint` for the subdomain;
   * the evident intent, modelled here, is coords.x, coords.y and coords. An empty
   * subdomain list gives NaN % 0 and an undefined subdomain (None).
   */
  function TileUrlValues(o: Options, c: Coords): (u: UrlValues)
    requires c.z + o.zoomOffset >= 0
  {
    var z := c.z + o.zoomOffset;
    var limit := Pow2(z);
    var n := SubdomainCount(o.subdomains);
    UrlValues(
      s := if n == 0 then None else Some(SubdomainAt(o.subdomains, Abs(c.x + c.y) % n)),
      z := if o.zoomReverse then o.maxZoom - z else z,
      x := if !o.continuousWorld && !o.noWrap then WrapX(c.x, limit) else c.x,
      y := if o.tms then TmsY(c.y, limit) else c.y)
  }

  /** The emitted zoom: coords.z + zoomOffset, mirrored against maxZoom under zoomReverse. */
  lemma TileUrlZoom(o: Options, c: Coords)
    requires c.z + o.zoomOffset >= 0
    ensures o.zoomReverse ==> TileUrlValues(o, c).z + c.z + o.zoomOffset == o.maxZoom
    ensures !o.zoomReverse ==> TileUrlValues(o, c).z == c.z + o.zoomOffset
  {
  }

  /** The emitted x is wrapped into [0, 2^z), keeping its residue, unless wrapping is off. */
  lemma TileUrlX(o: Options, c: Coords)
    requires c.z + o.zoomOffset >= 0
    ensures var x, limit := TileUrlValues(o, c).x, Pow2(c.z + o.zoomOffset);
      && (!o.continuousWorld && !o.noWrap ==> 0 <= x < limit && x == c.x % limit)
      && (o.continuousWorld || o.noWrap ==> x == c.x)
  {
    WrapXSpec(c.x, Pow2(c.z + o.zoomOffset));
  }

  /**
   * Under tms the emitted y is the TMS row of coords.y for every y, which maps back to
   * it, and a row of the 2^z grid stays a row of it; otherwise y is coords.y.
   */
  lemma TileUrlY(o: Options, c: Coords)
    requires c.z + o.zoomOffset >= 0
    ensures var y, limit := TileUrlValues(o, c).y, Pow2(c.z + o.zoomOffset);
      && (o.tms ==> y == TmsY(c.y, limit) && TmsY(y, limit) == c.y)
      && (o.tms && 0 <= c.y < limit ==> 0 <= y < limit)
      && (!o.tms ==> y == c.y)
  {
    TmsYSpec(c.y, Pow2(c.z + o.zoomOffset));
  }

  /** A subdomain is chosen exactly when there is one, and it is one of the configured ones. */
  lemma TileUrlSubdomain(o: Options, c: Coords)
    requires c.z + o.zoomOffset >= 0
    ensures SubdomainCount(o.subdomains) == 0 <==> TileUrlValues(o, c).s.None?
    ensures o.subdomains.Names? && TileUrlValues(o, c).s.Some? ==> TileUrlValues(o, c).s.value in o.subdomains.names
  {
  }

  /** zoomReverse changes only the emitted z: the wrap limit comes from the unreversed zoom. */
  lemma ZoomReverseKeepsLimit(o: Options, c: Coords)
    requires c.z + o.zoomOffset >= 0
    ensures TileUrlValues(o.(zoomReverse := true), c).x == TileUrlValues(o.(zoomReverse := false), c).x
    ensures TileUrlValues(o.(zoomReverse := true), c).y == TileUrlValues(o.(zoomReverse := false), c).y
  {
  }
}
