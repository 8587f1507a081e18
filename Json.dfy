/** `JSON.stringify` of a string and of an array of strings, as the sync server writes
    them into front matter, with the reading side of `JSON.parse` for the same values. */
module Json {
  import opened Wrappers
  import opened Text

  const HexDigits: string := "0123456789abcdef"

  /** The value of a hexadecimal digit of either case. */
  function HexValue(c: char): Option<nat> {
    if '0' <= c <= '9' then Some(c as nat - '0' as nat)
    else if 'a' <= c <= 'f' then Some(c as nat - 'a' as nat + 10)
    else if 'A' <= c <= 'F' then Some(c as nat - 'A' as nat + 10)
    else None
  }

  lemma HexDigitValue(d: nat)
    requires d < 16
    ensures HexValue(HexDigits[d]) == Some(d)
  {
  }

  /** The characters `JSON.stringify` writes as a two-character escape. */
  function ShortEscape(c: char): Option<char> {
    if c == '"' then Some('"')
    else if c == '\\' then Some('\\')
    else if c == '\U{8}' then Some('b')
    else if c == '\U{C}' then Some('f')
    else if c == '\n' then Some('n')
    else if c == '\r' then Some('r')
    else if c == '\t' then Some('t')
    else None
  }

  /** The character a two-character escape stands for, `\/` included. */
  function ShortUnescape(e: char): Option<char> {
    if e == '"' then Some('"')
    else if e == '\\' then Some('\\')
    else if e == '/' then Some('/')
    else if e == 'b' then Some('\U{8}')
    else if e == 'f' then Some('\U{C}')
    else if e == 'n' then Some('\n')
    else if e == 'r' then Some('\r')
    else if e == 't' then Some('\t')
    else None
  }

  /** One character as `JSON.stringify` writes it inside quotes: the short escapes, a
      `\u00xx` escape with lower-case digits for the other control characters, and any
      other character as it is. */
  function EscapeChar(c: char): string {
    var s := ShortEscape(c);
    if s.Some? then ['\\', s.value]
    else if c < ' ' then
      var v := c as nat;
      ['\\', 'u', '0', '0', HexDigits[v / 16], HexDigits[v % 16]]
    else [c]
  }

  function EscapeBody(t: string): string {
    if |t| == 0 then "" else EscapeChar(t[0]) + EscapeBody(t[1..])
  }

  /** `JSON.stringify` of a string. */
  function Quote(t: string): string {
    "\"" + EscapeBody(t) + "\""
  }

  /** Reads the rest of a JSON string whose opening quote is already consumed: its value
      and what follows the closing quote. Control characters must be escaped; a `\u`
      escape naming a surrogate is rejected, as it is no character on its own. */
  function DecodeString(s: string): (r: Option<(string, string)>)
    ensures r.Some? ==> |r.value.1| < |s|
    decreases |s|
  {
    if |s| == 0 then None
    else if s[0] == '"' then Some(("", s[1..]))
    else if s[0] == '\\' then
      if |s| >= 2 && ShortUnescape(s[1]).Some? then Prepend(ShortUnescape(s[1]).value, DecodeString(s[2..]))
      else if |s| >= 6 && s[1] == 'u' then
        var h := CodeUnit(s[2..6]);
        if h.Some? && (h.value < 0xD800 || 0xE000 <= h.value) then Prepend(h.value as char, DecodeString(s[6..]))
        else None
      else None
    else if s[0] < ' ' then None
    else Prepend(s[0], DecodeString(s[1..]))
  }

  function Prepend(c: char, r: Option<(string, string)>): (p: Option<(string, string)>)
    ensures p.Some? <==> r.Some?
    ensures p.Some? ==> p.value.1 == r.value.1
  {
    if r.Some? then Some(([c] + r.value.0, r.value.1)) else None
  }

  /** The value of four hexadecimal digits. */
  function CodeUnit(h: string): (r: Option<nat>)
    requires |h| == 4
    ensures r.Some? ==> r.value < 0x10000
  {
    var a := HexValue(h[0]);
    var b := HexValue(h[1]);
    var c := HexValue(h[2]);
    var d := HexValue(h[3]);
    if a.Some? && b.Some? && c.Some? && d.Some? && a.value < 16 && b.value < 16 && c.value < 16 && d.value < 16
    then Some(((a.value * 16 + b.value) * 16 + c.value) * 16 + d.value)
    else None
  }

  /** `JSON.parse` of a JSON string literal. */
  function Unquote(s: string): Option<string> {
    if |s| > 0 && s[0] == '"' then
      var r := DecodeString(s[1..]);
      if r.Some? && r.value.1 == "" then Some(r.value.0) else None
    else None
  }

  /** Decoding one escaped character consumes exactly its escape. */
  lemma DecodeEscapeChar(c: char, tail: string)
    ensures DecodeString(EscapeChar(c) + tail) == Prepend(c, DecodeString(tail))
  {
    if ShortEscape(c).Some? {
      DecodeShortEscape(c, tail);
    } else if c < ' ' {
      DecodeControlEscape(c, tail);
    } else {
      assert ([c] + tail)[1..] == tail;
    }
  }

  lemma DecodeShortEscape(c: char, tail: string)
    requires ShortEscape(c).Some?
    ensures DecodeString(EscapeChar(c) + tail) == Prepend(c, DecodeString(tail))
  {
    var e := EscapeChar(c);
    assert (e + tail)[0] == '\\' && (e + tail)[1] == ShortEscape(c).value;
    assert ShortUnescape(ShortEscape(c).value) == Some(c);
    assert (e + tail)[2..] == tail;
  }

  lemma DecodeControlEscape(c: char, tail: string)
    requires ShortEscape(c).None? && c < ' '
    ensures DecodeString(EscapeChar(c) + tail) == Prepend(c, DecodeString(tail))
  {
    var e := EscapeChar(c);
    var v := c as nat;
    HexDigitValue(v / 16);
    HexDigitValue(v % 16);
    assert (e + tail)[0] == '\\' && (e + tail)[1] == 'u';
    assert ShortUnescape('u').None?;
    assert (e + tail)[2..6] == ['0', '0', HexDigits[v / 16], HexDigits[v % 16]];
    assert (e + tail)[6..] == tail;
    assert CodeUnit((e + tail)[2..6]) == Some(v);
    assert (v as char) == c;
  }

  /** A body followed by the closing quote decodes to the original string and leaves the
      rest untouched. */
  lemma {:induction false} DecodeEscapeBody(t: string, rest: string)
    ensures DecodeString(EscapeBody(t) + "\"" + rest) == Some((t, rest))
  {
    if |t| == 0 {
      assert EscapeBody(t) + "\"" + rest == "\"" + rest;
      assert ("\"" + rest)[1..] == rest;
    } else {
      DecodeEscapeBody(t[1..], rest);
      assert EscapeBody(t) + "\"" + rest == EscapeChar(t[0]) + (EscapeBody(t[1..]) + "\"" + rest);
      DecodeEscapeChar(t[0], EscapeBody(t[1..]) + "\"" + rest);
      assert t == [t[0]] + t[1..];
    }
  }

  /** `JSON.parse(JSON.stringify(t)) == t` for every string. */
  lemma UnquoteQuote(t: string)
    ensures Unquote(Quote(t)) == Some(t)
  {
    DecodeEscapeBody(t, "");
    assert Quote(t)[1..] == EscapeBody(t) + "\"" + "";
  }

  // ---------------------------------------------------------------------------
  // arrays of strings

  function QuoteAll(ts: seq<string>): (qs: seq<string>)
    ensures |qs| == |ts|
    ensures forall i | 0 <= i < |ts| :: qs[i] == Quote(ts[i])
  {
    if |ts| == 0 then [] else [Quote(ts[0])] + QuoteAll(ts[1..])
  }

  /** `JSON.stringify` of an array of strings: no white space between items. */
  function QuoteList(ts: seq<string>): string {
    "[" + Join(QuoteAll(ts), ",") + "]"
  }

  /** A character that is in none of the strings and that no escape produces is not in
      their `JSON.stringify`, apart from the brackets, quotes and commas it adds. */
  lemma QuoteListLacks(ts: seq<string>, c: char)
    requires c !in "[],\"\\bfnrtu" && c !in HexDigits
    requires forall t <- ts :: c !in t
    ensures c !in QuoteList(ts)
  {
    forall q <- QuoteAll(ts)
      ensures c !in q
    {
      var i :| 0 <= i < |ts| && QuoteAll(ts)[i] == q;
      assert ts[i] in ts;
      EscapeBodyLacks(ts[i], c);
    }
    JoinLacks(QuoteAll(ts), ",", c);
  }

  lemma {:induction false} EscapeBodyLacks(t: string, c: char)
    requires c !in "\"\\bfnrtu" && c !in HexDigits && c !in t
    ensures c !in EscapeBody(t)
  {
    if |t| > 0 {
      assert t[0] in t && forall d <- t[1..] :: d in t;
      EscapeCharLacks(t[0], c);
      EscapeBodyLacks(t[1..], c);
    }
  }

  /** The escape of `d` holds no `c` other than `d` itself, for `c` no escape writes. */
  lemma EscapeCharLacks(d: char, c: char)
    requires c !in "\"\\bfnrtu" && c !in HexDigits && c != d
    ensures c !in EscapeChar(d)
  {
    if ShortEscape(d).None? && d < ' ' {
      var v := d as nat;
      assert v / 16 < 16 && v % 16 < 16;
      assert HexDigits[v / 16] in HexDigits && HexDigits[v % 16] in HexDigits;
    }
  }

  /** Reads the items of an array after its `[`: string literals separated by `,` up to
      the closing `]`, which must end the text. */
  function DecodeItems(s: string): Option<seq<string>>
    decreases |s|
  {
    if |s| == 0 || s[0] != '"' then None
    else
      var r := DecodeString(s[1..]);
      if r.None? then None
      else
        var rest := r.value.1;
        if rest == "]" then Some([r.value.0])
        else if |rest| > 0 && rest[0] == ',' then
          var more := DecodeItems(rest[1..]);
          if more.Some? then Some([r.value.0] + more.value) else None
        else None
  }

  /** `JSON.parse` of an array of strings. */
  function UnquoteList(s: string): Option<seq<string>> {
    if s == "[]" then Some([])
    else if |s| > 0 && s[0] == '[' then DecodeItems(s[1..])
    else None
  }

  lemma DecodeLastItem(t: string)
    ensures DecodeItems(Quote(t) + "]") == Some([t])
  {
    var s := Quote(t) + "]";
    assert s[0] == '"' && s[1..] == EscapeBody(t) + "\"" + "]";
    DecodeEscapeBody(t, "]");
  }

  lemma DecodeNextItem(t: string, tail: string)
    ensures DecodeItems(Quote(t) + "," + tail)
            == (var m := DecodeItems(tail); if m.Some? then Some([t] + m.value) else None)
  {
    var s := Quote(t) + "," + tail;
    assert s[0] == '"' && s[1..] == EscapeBody(t) + "\"" + ("," + tail);
    DecodeEscapeBody(t, "," + tail);
    assert ("," + tail)[1..] == tail;
    assert ("," + tail)[0] == ',' && "]"[0] == ']';
  }

  lemma {:induction false} DecodeQuotedItems(ts: seq<string>)
    requires |ts| > 0
    ensures DecodeItems(Join(QuoteAll(ts), ",") + "]") == Some(ts)
  {
    if |ts| == 1 {
      assert Join(QuoteAll(ts), ",") == Quote(ts[0]);
      DecodeLastItem(ts[0]);
      assert ts == [ts[0]];
    } else {
      DecodeQuotedItems(ts[1..]);
      var tail := Join(QuoteAll(ts[1..]), ",") + "]";
      assert QuoteAll(ts)[1..] == QuoteAll(ts[1..]);
      assert Join(QuoteAll(ts), ",") + "]" == Quote(ts[0]) + "," + tail;
      DecodeNextItem(ts[0], tail);
      assert ts == [ts[0]] + ts[1..];
    }
  }

  /** `JSON.parse(JSON.stringify(ts)) == ts` for every array of strings. */
  lemma UnquoteQuoteList(ts: seq<string>)
    ensures UnquoteList(QuoteList(ts)) == Some(ts)
  {
    if |ts| > 0 {
      DecodeQuotedItems(ts);
      var s := QuoteList(ts);
      assert s[1] == '"';
      assert s != "[]";
      assert s[1..] == Join(QuoteAll(ts), ",") + "]";
    }
  }
}
