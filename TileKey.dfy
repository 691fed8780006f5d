/**
 * The tile key codec of GridLayer: `_tileCoordsToKey` writes "x:y" and
 * `_keyToTileCoords` splits the key at ':' and reads each part with parseInt.
 * JavaScript's number-to-string conversion (for integers) and parseInt with radix 10
 * are modelled explicitly, so the round trip is proved for every integer pair,
 * negative ones included.
 */
module TileKey {
  import opened Wrappers
  import opened Geometry

  predicate IsDigit(c: char) {
    '0' <= c <= '9'
  }

  predicate AllDigits(s: string) {
    forall i :: 0 <= i < |s| ==> IsDigit(s[i])
  }

  function DigitChar(d: nat): (c: char)
    requires d < 10
    ensures IsDigit(c)
  {
    ['0', '1', '2', '3', '4', '5', '6', '7', '8', '9'][d]
  }

  function DigitValue(c: char): (d: nat)
    requires IsDigit(c)
    ensures d < 10
  {
    (c as int - '0' as int)
  }

  /** Decimal digits of a natural number, most significant first, no leading zeros. */
  function NatToString(n: nat): (s: string)
    ensures |s| > 0 && AllDigits(s)
  {
    if n < 10 then [DigitChar(n)] else NatToString(n / 10) + [DigitChar(n % 10)]
  }

  /** String(x) for an integer-valued JavaScript number. */
  function IntToString(x: int): (s: string)
    ensures ':' !in s
  {
    if x < 0 then "-" + NatToString(-x) else NatToString(x)
  }

  /** The value of a string of decimal digits. */
  function DigitsValue(s: string): nat
    requires AllDigits(s)
  {
    if s == [] then 0 else DigitsValue(s[..|s| - 1]) * 10 + DigitValue(s[|s| - 1])
  }

  /** The longest prefix of `s` made of decimal digits: what parseInt consumes. */
  function DigitPrefix(s: string): (p: string)
    ensures AllDigits(p) && p <= s
  {
    if s == [] || !IsDigit(s[0]) then [] else [s[0]] + DigitPrefix(s[1..])
  }

  /** parseInt of an unsigned digit run: NaN (None) when there are no digits. */
  function ParseDigits(s: string): Option<nat> {
    var p := DigitPrefix(s);
    if p == [] then None else Some(DigitsValue(p))
  }

  /**
   * parseInt(s, 10): an optional sign, then the longest run of digits; the rest of the
   * string is ignored; NaN (None) when no digit follows the sign. JavaScript's parseInt
   * also skips leading white space first. Neither kind of string parsed here begins with
   * any: the halves of a key are decimal numbers, and a `style.zIndex` read through
   * OtherZIndices is the browser's serialised value ('', 'auto' or an integer), which
   * carries no surrounding white space. So that step is left out.
   */
  function ParseInt(s: string): Option<int> {
    var signed := |s| > 0 && (s[0] == '-' || s[0] == '+');
    var negative := signed && s[0] == '-';
    match ParseDigits(if signed then s[1..] else s)
    case None => None
    case Some(n) => Some(if negative then 0 - n else n)
  }

  /** s.split(':'): the pieces between separators, always at least one. */
  function Split(s: string): (parts: seq<string>)
    ensures |parts| > 0
  {
    if s == [] then [""]
    else
      var rest := Split(s[1..]);
      if s[0] == ':' then [""] + rest else [[s[0]] + rest[0]] + rest[1..]
  }

  /** `_tileCoordsToKey`: coords.x + ':' + coords.y. */
  function ToKey(p: Point): (key: string) {
    IntToString(p.x) + ":" + IntToString(p.y)
  }

  /**
   * `_keyToTileCoords`: split at ':' and parse the first two pieces. A missing second
   * piece (undefined) or a piece without digits gives NaN; the model returns None then.
   */
  function FromKey(key: string): Option<Point> {
    var parts := Split(key);
    var x := ParseInt(parts[0]);
    var y := if |parts| > 1 then ParseInt(parts[1]) else None;
    if x.Some? && y.Some? then Some(Point(x.value, y.value)) else None
  }

  // ---------------------------------------------------------------------------
  // Number printing and parsing agree

  lemma {:induction false} DigitsValueOfNat(n: nat)
    ensures DigitsValue(NatToString(n)) == n
  {
    var s := NatToString(n);
    if n >= 10 {
      DigitsValueOfNat(n / 10);
      assert s[..|s| - 1] == NatToString(n / 10);
      assert s[|s| - 1] == DigitChar(n % 10);
    }
  }

  lemma {:induction false} DigitPrefixOf(digits: string, rest: string)
    requires AllDigits(digits)
    requires rest == [] || !IsDigit(rest[0])
    ensures DigitPrefix(digits + rest) == digits
  {
    if digits != [] {
      assert (digits + rest)[1..] == digits[1..] + rest;
      DigitPrefixOf(digits[1..], rest);
    } else {
      assert digits + rest == rest;
    }
  }

  /** parseInt reads back the decimal text of any integer, whatever non-digit follows. */
  lemma ParseDigitsOfNat(n: nat, rest: string)
    requires rest == [] || !IsDigit(rest[0])
    ensures ParseDigits(NatToString(n) + rest) == Some(n)
  {
    DigitPrefixOf(NatToString(n), rest);
    DigitsValueOfNat(n);
  }

  lemma ParseIntNegative(t: string, n: nat)
    requires ParseDigits(t) == Some(n)
    ensures ParseInt(['-'] + t) == Some(0 - n)
  {
    assert (['-'] + t)[1..] == t;
  }

  lemma ParseIntNonNegative(t: string, n: nat)
    requires ParseDigits(t) == Some(n) && |t| > 0 && IsDigit(t[0])
    ensures ParseInt(t) == Some(n)
  {
  }

  lemma NegativeText(x: int, rest: string)
    requires x < 0
    ensures IntToString(x) + rest == ['-'] + (NatToString(-x) + rest)
  {
  }

  /** parseInt reads back the decimal text of any integer, whatever non-digit follows it. */
  lemma ParseIntToString(x: int, rest: string)
    requires rest == [] || !IsDigit(rest[0])
    ensures ParseInt(IntToString(x) + rest) == Some(x)
  {
    if x < 0 {
      NegativeText(x, rest);
      ParseDigitsOfNat(-x, rest);
      ParseIntNegative(NatToString(-x) + rest, -x);
    } else {
      ParseDigitsOfNat(x, rest);
      assert IsDigit((NatToString(x) + rest)[0]);
      ParseIntNonNegative(NatToString(x) + rest, x);
    }
  }

  // ---------------------------------------------------------------------------
  // Splitting at ':'

  lemma {:induction false} SplitNoColon(s: string)
    requires ':' !in s
    ensures Split(s) == [s]
  {
    if s != [] {
      assert s[0] in s;
      SplitNoColon(s[1..]);
      assert [s[0]] + s[1..] == s;
    }
  }

  lemma {:induction false} SplitAtColon(a: string, b: string)
    requires ':' !in a
    ensures Split(a + ":" + b) == [a] + Split(b)
  {
    if a == [] {
      assert a + ":" + b == [':'] + b;
      assert ([':'] + b)[1..] == b;
    } else {
      assert (a + ":" + b)[1..] == a[1..] + ":" + b;
      SplitAtColon(a[1..], b);
      assert [a[0]] + a[1..] == a;
    }
  }

  // ---------------------------------------------------------------------------
  // The codec

  /** Decoding a key gives back the coordinates it was made from, negatives included. */
  lemma KeyRoundTrip(p: Point)
    ensures FromKey(ToKey(p)) == Some(p)
  {
    var xs, ys := IntToString(p.x), IntToString(p.y);
    SplitAtColon(xs, ys);
    SplitNoColon(ys);
    assert Split(ToKey(p)) == [xs, ys];
    ParseIntToString(p.x, []);
    ParseIntToString(p.y, []);
    assert xs + [] == xs && ys + [] == ys;
  }

  /** Distinct coordinates never share a key. */
  lemma KeyInjective(p: Point, q: Point)
    ensures ToKey(p) == ToKey(q) <==> p == q
  {
    if ToKey(p) == ToKey(q) {
      KeyRoundTrip(p);
      KeyRoundTrip(q);
    }
  }
}
