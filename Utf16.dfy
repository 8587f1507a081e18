/** JavaScript strings are sequences of UTF-16 code units, and `Array.prototype.sort()`
    compares strings unit by unit. The model's strings are sequences of characters; this
    module encodes them in UTF-16 and shows that `Text.StrLe` is exactly the unit-by-unit
    order of the encodings. */
module Utf16 {
  import opened Text

  /** The UTF-16 code units of a character: one below U+10000, otherwise a high and a
      low surrogate. */
  function Units(c: char): (us: seq<int>)
    ensures |us| == if c as int < 0x10000 then 1 else 2
    ensures us[0] == LeadUnit(c)
    ensures forall u <- us :: 0 <= u < 0x10000
    ensures |us| == 2 ==> 0xDC00 <= us[1] < 0xE000
  {
    if c as int < 0x10000 then [c as int]
    else [LeadUnit(c), 0xDC00 + (c as int - 0x10000) % 0x400]
  }

  /** The code point one or two units stand for. */
  function DecodeUnits(us: seq<int>): int
    requires 1 <= |us| <= 2
  {
    if |us| == 1 then us[0] else 0x10000 + (us[0] - 0xD800) * 0x400 + (us[1] - 0xDC00)
  }

  /** The units of a character decode to it. */
  lemma UnitsRoundTrip(c: char)
    ensures DecodeUnits(Units(c)) == c as int
  {
    if c as int >= 0x10000 {
      var k := c as int - 0x10000;
      assert k == (k / 0x400) * 0x400 + k % 0x400;
    }
  }

  /** The code units of a string. */
  function Encode(s: string): (us: seq<int>)
    ensures |us| >= |s|
  {
    if |s| == 0 then [] else Units(s[0]) + Encode(s[1..])
  }

  /** JavaScript's comparison of two strings: lexicographic on code units, a prefix
      coming first. */
  predicate UnitsLe(a: seq<int>, b: seq<int>) {
    |a| == 0 || (|b| > 0 && (a[0] < b[0] || (a[0] == b[0] && UnitsLe(a[1..], b[1..]))))
  }

  /** A common prefix does not change the comparison. */
  lemma {:induction false} CommonPrefix(p: seq<int>, x: seq<int>, y: seq<int>)
    ensures UnitsLe(p + x, p + y) <==> UnitsLe(x, y)
  {
    if |p| > 0 {
      assert (p + x)[0] == p[0] == (p + y)[0];
      assert (p + x)[1..] == p[1..] + x;
      assert (p + y)[1..] == p[1..] + y;
      CommonPrefix(p[1..], x, y);
    } else {
      assert p + x == x && p + y == y;
    }
  }

  /** Two different characters decide the comparison of what starts with their units,
      and they decide it as `CharBefore` does. */
  lemma DistinctChars(c: char, d: char, x: seq<int>, y: seq<int>)
    requires c != d
    ensures UnitsLe(Units(c) + x, Units(d) + y) <==> CharBefore(c, d)
  {
    var a := Units(c) + x;
    var b := Units(d) + y;
    assert a[0] == LeadUnit(c) && b[0] == LeadUnit(d);
    if LeadUnit(c) == LeadUnit(d) {
      // a character below U+10000 is never a surrogate, so both are above U+FFFF
      assert c as int >= 0x10000 && d as int >= 0x10000;
      var kc := c as int - 0x10000;
      var kd := d as int - 0x10000;
      assert kc / 0x400 == kd / 0x400;
      assert kc == (kc / 0x400) * 0x400 + kc % 0x400;
      assert kd == (kd / 0x400) * 0x400 + kd % 0x400;
      assert a[1..][0] == Units(c)[1] && b[1..][0] == Units(d)[1];
      assert (c < d) == (kc % 0x400 < kd % 0x400);
    }
  }

  /** `StrLe` is JavaScript's order of the UTF-16 encodings. */
  lemma {:induction false} StrLeIsUnitOrder(a: string, b: string)
    ensures StrLe(a, b) <==> UnitsLe(Encode(a), Encode(b))
  {
    if |a| > 0 && |b| > 0 {
      if a[0] == b[0] {
        CommonPrefix(Units(a[0]), Encode(a[1..]), Encode(b[1..]));
        StrLeIsUnitOrder(a[1..], b[1..]);
      } else {
        DistinctChars(a[0], b[0], Encode(a[1..]), Encode(b[1..]));
      }
    }
  }

  /** A full-width exclamation mark (U+FF01) sorts after an emoji (U+1F600), whose high
      surrogate is below it, although its code point is smaller. */
  lemma FullwidthAfterEmoji()
    ensures StrLe("\U{1F600}", "\U{FF01}") && !StrLe("\U{FF01}", "\U{1F600}")
  {
    assert LeadUnit('\U{1F600}') == 0xD83D;
  }
}
