/** Hand-written matchers for the regular expressions the maintenance scripts apply to
    front matter, following the backtracking order of the JavaScript engine: the leftmost
    start wins, greedy quantifiers give back one character at a time, and lazy ones take
    one more character at a time. */
module Scanners {
  import opened Wrappers
  import opened Text
  import opened ArticleMarkdown

  // ---------------------------------------------------------------------------
  // `/title:\s*["']?(.+?)["']?\s*\n/`

  predicate IsQuote(c: char) {
    c == '"' || c == '\''
  }

  /** `\s*\n` matches at `u`. */
  predicate SpacesToNewline(s: string, u: nat)
    decreases |s| - u
  {
    u < |s| && IsSpace(s[u]) && (s[u] == '\n' || SpacesToNewline(s, u + 1))
  }

  /** `["']?\s*\n` matches at `t`: what must follow the title. */
  predicate ClosesTitle(s: string, t: nat) {
    (t < |s| && IsQuote(s[t]) && SpacesToNewline(s, t + 1)) || SpacesToNewline(s, t)
  }

  /** The lazy `(.+?)` from `start`: the first end `e` or later after which the title can
      close, as long as no line terminator is crossed. */
  function LazyEnd(s: string, start: nat, e: nat): (r: Option<nat>)
    requires start < e
    ensures r.Some? ==> e <= r.value <= |s|
    decreases |s| + 1 - e
  {
    if e > |s| || IsLineTerminator(s[e - 1]) then None
    else if ClosesTitle(s, e) then Some(e)
    else LazyEnd(s, start, e + 1)
  }

  /** The end found is the first one from `e` after which the title closes, and the
      characters before it are no line terminators. */
  lemma {:induction false} LazyEndFacts(s: string, start: nat, e: nat)
    requires start < e
    ensures var r := LazyEnd(s, start, e);
            r.Some? ==> ClosesTitle(s, r.value) && (forall m | e <= m < r.value :: !ClosesTitle(s, m))
                        && forall k | e - 1 <= k < r.value :: !IsLineTerminator(s[k])
    decreases |s| + 1 - e
  {
    if e <= |s| && !IsLineTerminator(s[e - 1]) && !ClosesTitle(s, e) {
      LazyEndFacts(s, start, e + 1);
    }
  }

  /** `["']?(.+?)` from `q`: the optional quote is taken if the rest can then match. */
  function CaptureFrom(s: string, q: nat): Option<string>
    requires q <= |s|
  {
    if q < |s| && IsQuote(s[q]) && LazyEnd(s, q + 1, q + 2).Some? then Some(s[q + 1..LazyEnd(s, q + 1, q + 2).value])
    else if LazyEnd(s, q, q + 1).Some? then Some(s[q..LazyEnd(s, q, q + 1).value])
    else None
  }

  /** A title holds at least one character and no line terminator. */
  predicate OneLine(t: string) {
    t != [] && forall c <- t :: !IsLineTerminator(c)
  }

  lemma CaptureFacts(s: string, q: nat)
    requires q <= |s|
    ensures CaptureFrom(s, q).Some? ==> OneLine(CaptureFrom(s, q).value)
  {
    LazyEndFacts(s, q + 1, q + 2);
    LazyEndFacts(s, q, q + 1);
  }

  /** The greedy `\s*` after `title:` gives back one space at a time until the rest
      matches. */
  function Backtrack(s: string, base: nat, w: nat): Option<string>
    requires base + w <= |s|
  {
    var c := CaptureFrom(s, base + w);
    if c.Some? then c
    else if w == 0 then None
    else Backtrack(s, base, w - 1)
  }

  lemma {:induction false} BacktrackFacts(s: string, base: nat, w: nat)
    requires base + w <= |s|
    ensures Backtrack(s, base, w).Some? ==> OneLine(Backtrack(s, base, w).value)
  {
    CaptureFacts(s, base + w);
    if w > 0 {
      BacktrackFacts(s, base, w - 1);
    }
  }

  /** The length of the run of white space at `i`. */
  function SpaceRun(s: string, i: nat): (n: nat)
    requires i <= |s|
    ensures i + n <= |s|
    decreases |s| - i
  {
    if i == |s| || !IsSpace(s[i]) then 0 else 1 + SpaceRun(s, i + 1)
  }

  function TitleAt(s: string, p: nat): Option<string> {
    if MatchesAt(s, p, "title:") then Backtrack(s, p + 6, SpaceRun(s, p + 6)) else None
  }

  function TitleFrom(s: string, p: nat): Option<string>
    decreases |s| - p
  {
    if p > |s| then None
    else
      var t := TitleAt(s, p);
      if t.Some? then t else TitleFrom(s, p + 1)
  }

  lemma {:induction false} TitleFromFacts(s: string, p: nat)
    ensures TitleFrom(s, p).Some? ==> OneLine(TitleFrom(s, p).value)
    decreases |s| - p
  {
    if p <= |s| {
      if MatchesAt(s, p, "title:") {
        BacktrackFacts(s, p + 6, SpaceRun(s, p + 6));
      }
      TitleFromFacts(s, p + 1);
    }
  }

  /** The group of `content.match(/title:\s*["']?(.+?)["']?\s*\n/)`: tried at each
      index from the left, with the engine's order of choices. */
  function TitleOf(content: string): Option<string> {
    TitleFrom(content, 0)
  }

  /** A title read from an article is one non-empty line. */
  lemma TitleOfFacts(content: string)
    ensures TitleOf(content).Some? ==> OneLine(TitleOf(content).value)
  {
    TitleFromFacts(content, 0);
  }

  /** White space that reaches a non-space character before any newline does not match
      `\s*\n`. */
  lemma {:induction false} NoNewlineBefore(s: string, u: nat, j: nat)
    requires u <= j < |s| && !IsSpace(s[j])
    requires forall k | u <= k < j :: s[k] != '\n'
    ensures !SpacesToNewline(s, u)
    decreases j - u
  {
    if u < j {
      NoNewlineBefore(s, u + 1, j);
    }
  }

  lemma {:induction false} LazyEndReaches(s: string, start: nat, e: nat, end: nat)
    requires start < e <= end < |s|
    requires forall k | e - 1 <= k < end :: !IsLineTerminator(s[k])
    requires forall m | e <= m < end :: !ClosesTitle(s, m)
    requires ClosesTitle(s, end)
    ensures LazyEnd(s, start, e) == Some(end)
    decreases end - e
  {
    if e < end {
      LazyEndReaches(s, start, e + 1, end);
    }
  }

  /** A title that neither starts nor ends with white space or a quote and holds no line
      break is read back whole from a title line, quoted or not. */
  predicate PlainTitle(t: string) {
    |t| > 0 && !IsSpace(t[0]) && !IsQuote(t[0]) && !IsSpace(t[|t| - 1]) && !IsQuote(t[|t| - 1])
    && forall c <- t :: !IsLineTerminator(c)
  }

  /** Where a title sits in `s`: from `b` on, followed by `["']?\n`. */
  lemma TitleEnds(s: string, b: nat, t: string, quote: string)
    requires PlainTitle(t)
    requires quote == "" || quote == "'" || quote == "\""
    requires b + |t| + |quote| < |s| && s[b..b + |t|] == t && s[b + |t|..b + |t| + |quote|] == quote
    requires s[b + |t| + |quote|] == '\n'
    ensures LazyEnd(s, b, b + 1) == Some(b + |t|)
  {
    var end := b + |t|;
    forall m | b + 1 <= m < end
      ensures !ClosesTitle(s, m)
    {
      assert s[end - 1] == t[|t| - 1];
      forall k | m <= k < end - 1
        ensures s[k] != '\n'
      {
        assert s[k] == t[k - b] && t[k - b] in t;
      }
      NoNewlineBefore(s, m, end - 1);
      if m + 1 < end {
        NoNewlineBefore(s, m + 1, end - 1);
      }
    }
    forall k | b <= k < end
      ensures !IsLineTerminator(s[k])
    {
      assert s[k] == t[k - b] && t[k - b] in t;
    }
    if quote == "" {
      assert s[end] == '\n';
    } else {
      assert s[end] == quote[0];
      assert s[end + 1] == '\n';
    }
    LazyEndReaches(s, b, b + 1, end);
  }

  /** A plain title, quoted or not, is captured whole from where its quote would be. */
  lemma CaptureTitle(s: string, q: nat, t: string, quote: string)
    requires PlainTitle(t)
    requires quote == "" || quote == "'" || quote == "\""
    requires q + |quote| + |t| + |quote| < |s|
    requires s[q..q + |quote|] == quote && s[q + |quote|..q + |quote| + |t|] == t
    requires s[q + |quote| + |t|..q + |quote| + |t| + |quote|] == quote
    requires s[q + |quote| + |t| + |quote|] == '\n'
    ensures CaptureFrom(s, q) == Some(t) && !IsSpace(s[q])
  {
    TitleEnds(s, q + |quote|, t, quote);
    if quote == "" {
      assert s[q] == t[0];
    } else {
      assert s[q] == quote[0];
    }
  }

  lemma TitleAtFour(s: string, t: string)
    requires |s| > 11 && s[..11] == "---\ntitle: "
    requires CaptureFrom(s, 11) == Some(t) && !IsSpace(s[11])
    ensures TitleAt(s, 4) == Some(t)
  {
    assert SpaceRun(s, 10) == 1;
    assert s[4..10] == "title:";
  }

  /** A front matter that opens with a title line whose value is captured whole gives
      that value. */
  lemma TitleAfterOpening(s: string, t: string)
    requires |s| > 11 && s[..11] == "---\ntitle: "
    requires CaptureFrom(s, 11) == Some(t) && !IsSpace(s[11])
    ensures TitleOf(s) == Some(t)
  {
    TitleAtFour(s, t);
    assert TitleFrom(s, 4) == Some(t);
    TitleFromBack(s, 3, t);
    TitleFromBack(s, 2, t);
    TitleFromBack(s, 1, t);
    TitleFromBack(s, 0, t);
  }

  /** A position that does not start `title:` defers to the next one. */
  lemma TitleFromBack(s: string, p: nat, t: string)
    requires p < |s| && s[p] != 't' && TitleFrom(s, p + 1) == Some(t)
    ensures TitleFrom(s, p) == Some(t)
  {
  }

  /** A front matter whose first line after `---` is the title line gives that title:
      `title: <t>`, `title: '<t>'` or `title: "<t>"`. */
  lemma TitleOfFrontMatter(t: string, quote: string, rest: string)
    requires PlainTitle(t)
    requires quote == "" || quote == "'" || quote == "\""
    ensures TitleOf("---\ntitle: " + quote + t + quote + "\n" + rest) == Some(t)
  {
    var s := "---\ntitle: " + quote + t + quote + "\n" + rest;
    var q := 11;
    assert s[..11] == "---\ntitle: ";
    assert s[q..q + |quote|] == quote;
    assert s[q + |quote|..q + |quote| + |t|] == t;
    assert s[q + |quote| + |t|..q + |quote| + |t| + |quote|] == quote;
    assert s[q + |quote| + |t| + |quote|] == '\n';
    CaptureTitle(s, q, t, quote);
    TitleAfterOpening(s, t);
  }

  /** The run of white space at `i` holds only white space and ends at a character that
      is not. */
  lemma {:induction false} SpaceRunFacts(s: string, i: nat)
    requires i <= |s|
    ensures forall k | i <= k < i + SpaceRun(s, i) :: IsSpace(s[k])
    ensures i + SpaceRun(s, i) < |s| ==> !IsSpace(s[i + SpaceRun(s, i)])
    decreases |s| - i
  {
    if i < |s| && IsSpace(s[i]) {
      SpaceRunFacts(s, i + 1);
    }
  }

  // ---------------------------------------------------------------------------
  // a lazy group up to a stop character

  /** `(.*?)` followed by one of `stops`, from `c`: the index of the first stop character.
      Without `dotAll` the group's `.` refuses line terminators, so the search gives up at
      the first of them. */
  function LazyUntil(s: string, c: nat, stops: set<char>, dotAll: bool): (r: Option<nat>)
    ensures r.Some? ==> c <= r.value < |s| && s[r.value] in stops
    decreases |s| - c
  {
    if c >= |s| then None
    else if s[c] in stops then Some(c)
    else if !dotAll && IsLineTerminator(s[c]) then None
    else LazyUntil(s, c + 1, stops, dotAll)
  }

  /** The stop found is the first one from `c`, and the group before it is one the `.`
      accepts; with `dotAll` the search fails only when no stop follows. */
  lemma {:induction false} LazyUntilFacts(s: string, c: nat, stops: set<char>, dotAll: bool)
    ensures var r := LazyUntil(s, c, stops, dotAll);
            r.Some? ==> forall k | c <= k < r.value :: s[k] !in stops && (dotAll || !IsLineTerminator(s[k]))
    ensures dotAll && LazyUntil(s, c, stops, dotAll).None? ==> forall k | c <= k < |s| :: s[k] !in stops
    decreases |s| - c
  {
    if c < |s| && s[c] !in stops && (dotAll || !IsLineTerminator(s[c])) {
      LazyUntilFacts(s, c + 1, stops, dotAll);
    }
  }

  /** A stop reached over characters the group accepts is the one found. */
  lemma {:induction false} LazyUntilReaches(s: string, c: nat, e: nat, stops: set<char>, dotAll: bool)
    requires c <= e < |s| && s[e] in stops
    requires forall k | c <= k < e :: s[k] !in stops && (dotAll || !IsLineTerminator(s[k]))
    ensures LazyUntil(s, c, stops, dotAll) == Some(e)
    decreases e - c
  {
    if c < e {
      LazyUntilReaches(s, c + 1, e, stops, dotAll);
    }
  }

  // ---------------------------------------------------------------------------
  // `/tags:\s*\[(.*?)\]/s` and `/tags:\s*\[(.+?)\]/`

  /** Where a tag list matched: `tags:` at `start`, the group from `open` (just after the
      `[`) up to `close`, the index of the `]`. */
  datatype Span = Span(start: nat, open: nat, close: nat)

  /** The tag-list pattern tried at `p`. With `plus` it is `(.+?)` without the `s` flag
      (auto_categorize.js): at least one character and no line terminator in the group;
      otherwise `(.*?)` with the `s` flag. */
  function TagsAt(s: string, p: nat, plus: bool): (r: Option<Span>)
    ensures r.Some? ==> r.value.start == p && p + 5 < r.value.open <= r.value.close < |s|
                        && s[r.value.close] == ']' && s[r.value.open - 1] == '['
  {
    if !MatchesAt(s, p, "tags:") then None
    else
      var b := p + 5 + SpaceRun(s, p + 5);
      if b >= |s| || s[b] != '[' then None
      else if !plus then
        var c := LazyUntil(s, b + 1, {']'}, true);
        if c.Some? then Some(Span(p, b + 1, c.value)) else None
      else if b + 1 < |s| && !IsLineTerminator(s[b + 1]) then
        var c := LazyUntil(s, b + 2, {']'}, false);
        if c.Some? then Some(Span(p, b + 1, c.value)) else None
      else None
  }

  function TagsFrom(s: string, p: nat, plus: bool): (r: Option<Span>)
    ensures r.Some? ==> p <= r.value.start && TagsAt(s, r.value.start, plus) == r
    decreases |s| - p
  {
    if p > |s| then None
    else
      var m := TagsAt(s, p, plus);
      if m.Some? then m else TagsFrom(s, p + 1, plus)
  }

  /** `s.match(pattern)` for the tag-list pattern: the leftmost match. */
  function TagsMatch(s: string, plus: bool): Option<Span> {
    TagsFrom(s, 0, plus)
  }

  /** No match starts before the one found. */
  lemma {:induction false} TagsFromLeftmost(s: string, p: nat, plus: bool)
    ensures var r := TagsFrom(s, p, plus);
            forall q | p <= q && (r.None? || q < r.value.start) :: TagsAt(s, q, plus).None?
    decreases |s| - p
  {
    if p <= |s| && TagsAt(s, p, plus).None? {
      TagsFromLeftmost(s, p + 1, plus);
    }
  }

  /** `s.replace(pattern, text)` once the match is known: the matched text from `tags:`
      to `]` gives way to `text`. */
  function ReplaceSpan(s: string, m: Span, text: string): string
    requires m.start <= m.close < |s|
  {
    s[..m.start] + text + s[m.close + 1..]
  }

  /** Two texts with the same first `n` characters, the last of which is not white
      space, have the same run of white space anywhere before it. */
  lemma {:induction false} SpaceRunAgree(s: string, s2: string, i: nat, n: nat)
    requires i < n <= |s| && n <= |s2| && s[..n] == s2[..n] && !IsSpace(s[n - 1])
    ensures SpaceRun(s, i) == SpaceRun(s2, i)
    decreases n - i
  {
    assert s[i] == s[..n][i] && s2[i] == s2[..n][i];
    if IsSpace(s[i]) {
      SpaceRunAgree(s, s2, i + 1, n);
    }
  }

  /** `tags:` cannot start within five characters before another `tags:`. */
  lemma TagsKeyApart(s: string, q: nat, st: nat)
    requires q < st && MatchesAt(s, q, "tags:") && MatchesAt(s, st, "tags:")
    ensures q + 5 <= st
  {
    assert forall k | q <= k < q + 5 :: s[k] == "tags:"[k - q];
    assert s[st] == s[st..st + 5][0];
  }

  /** A position before the leftmost match that fails in `s` fails in any text that
      agrees with `s` up to the end of the `tags:` that matched. */
  lemma TagsAtBeforeMatch(s: string, s2: string, q: nat, m: Span)
    requires TagsMatch(s, false) == Some(m) && q < m.start
    requires m.start + 5 <= |s2| && s[..m.start + 5] == s2[..m.start + 5]
    ensures TagsAt(s2, q, false).None?
  {
    TagsFromLeftmost(s, 0, false);
    if MatchesAt(s2, q, "tags:") {
      KeyBeforeMatch(s, s2, q, m);
    }
  }

  /** The step of `TagsAtBeforeMatch` where the key is found at `q` in the new text. */
  lemma KeyBeforeMatch(s: string, s2: string, q: nat, m: Span)
    requires TagsAt(s, m.start, false) == Some(m) && TagsAt(s, q, false).None? && q < m.start
    requires m.start + 5 <= |s2| && s[..m.start + 5] == s2[..m.start + 5]
    requires MatchesAt(s2, q, "tags:")
    ensures TagsAt(s2, q, false).None?
  {
    var st := m.start;
    KeyInBoth(s, s2, q, st);
    SpaceRunAgree(s, s2, q + 5, st + 1) by {
      assert s[..st + 1] == s[..st + 5][..st + 1] && s2[..st + 1] == s2[..st + 5][..st + 1];
    }
    var b := q + 5 + SpaceRun(s, q + 5);
    SpaceRunBefore(s, q + 5, st);
    NoBracketAt(s, q, b, m.close);
    assert s2[b] == s[b] by {
      assert s2[b] == s2[..st + 5][b] && s[b] == s[..st + 5][b];
    }
    NoListAt(s2, q, b);
  }

  /** The pattern fails after a `tags:` whose white space is not followed by a `[`. */
  lemma NoListAt(s: string, q: nat, b: nat)
    requires MatchesAt(s, q, "tags:") && b == q + 5 + SpaceRun(s, q + 5) && b < |s| && s[b] != '['
    ensures TagsAt(s, q, false).None?
  {
  }

  /** A run of white space that starts before a character that is not white space ends
      at that character or before it. */
  lemma SpaceRunBefore(s: string, i: nat, e: nat)
    requires i <= e < |s| && !IsSpace(s[e])
    ensures i + SpaceRun(s, i) <= e
  {
    SpaceRunFacts(s, i);
  }

  /** Where the pattern fails after a `tags:` although a `]` follows, no `[` comes after
      the white space. */
  lemma NoBracketAt(s: string, q: nat, b: nat, e: nat)
    requires MatchesAt(s, q, "tags:") && TagsAt(s, q, false).None?
    requires b == q + 5 + SpaceRun(s, q + 5) && b < e < |s| && s[e] == ']'
    ensures s[b] != '['
  {
    CloseFound(s, b + 1, e);
  }

  /** With the `s` flag, a `]` anywhere after `c` is found. */
  lemma CloseFound(s: string, c: nat, e: nat)
    requires c <= e < |s| && s[e] == ']'
    ensures LazyUntil(s, c, {']'}, true).Some?
  {
    LazyUntilFacts(s, c, {']'}, true);
  }

  /** A `tags:` at `q` in the new text, before the key of the match at `st`, is one in the
      old text too, and it ends before `st`. */
  lemma KeyInBoth(s: string, s2: string, q: nat, st: nat)
    requires q < st && MatchesAt(s, st, "tags:")
    requires st + 5 <= |s2| && s[..st + 5] == s2[..st + 5]
    requires MatchesAt(s2, q, "tags:")
    ensures MatchesAt(s, q, "tags:") && q + 5 <= st && s[st] == 't'
  {
    assert s[q..q + 5] == s2[q..q + 5] by {
      assert s[q..q + 5] == s[..st + 5][q..q + 5] && s2[q..q + 5] == s2[..st + 5][q..q + 5];
    }
    TagsKeyApart(s, q, st);
    assert s[st] == s[st..st + 5][0];
  }

  /** Replacing the matched tag list with `tags: [text]` puts the new list where the old
      one was, and matching again finds exactly it. */
  lemma TagsRefind(s: string, text: string, m: Span, r: string)
    requires TagsMatch(s, false) == Some(m) && ']' !in text
    requires r == ReplaceSpan(s, m, "tags: [" + text + "]")
    ensures TagsMatch(r, false) == Some(Span(m.start, m.start + 7, m.start + 7 + |text|))
    ensures m.start + 7 + |text| <= |r| && r[m.start + 7..m.start + 7 + |text|] == text
  {
    var st := m.start;
    ReplacedKeyKept(s, m, "tags: [" + text + "]", r);
    forall q: nat | q < st
      ensures TagsAt(r, q, false).None?
    {
      TagsAtBeforeMatch(s, r, q, m);
    }
    TagsAtRewritten(r, st, text);
    TagsFromSkips(r, 0, st);
  }

  /** Replacing a match by a text that starts with `tags:` keeps everything up to the end
      of that key and puts the text at the start of the match. */
  lemma ReplacedKeyKept(s: string, m: Span, rep: string, r: string)
    requires m.start + 5 < m.close < |s| && MatchesAt(s, m.start, "tags:")
    requires |rep| >= 5 && rep[..5] == "tags:" && r == ReplaceSpan(s, m, rep)
    ensures m.start + |rep| <= |r| && r[m.start..m.start + |rep|] == rep
    ensures m.start + 5 <= |r| && s[..m.start + 5] == r[..m.start + 5]
  {
    var st := m.start;
    assert r[..st] == s[..st];
    assert r[st..st + |rep|] == rep;
    assert r[st..st + 5] == rep[..5];
    assert s[..st + 5] == s[..st] + s[st..st + 5];
    assert r[..st + 5] == r[..st] + r[st..st + 5];
  }

  /** At the rewritten position the new list matches. */
  lemma TagsAtRewritten(r: string, st: nat, text: string)
    requires ']' !in text
    requires st + 8 + |text| <= |r| && r[st..st + 8 + |text|] == "tags: [" + text + "]"
    ensures TagsAt(r, st, false) == Some(Span(st, st + 7, st + 7 + |text|))
    ensures r[st + 7..st + 7 + |text|] == text
  {
    var rep := "tags: [" + text + "]";
    assert r[st..st + 5] == rep[..5] == "tags:";
    assert r[st + 5] == rep[5] == ' ' && r[st + 6] == rep[6] == '[';
    assert SpaceRun(r, st + 6) == 0;
    assert SpaceRun(r, st + 5) == 1;
    forall k | st + 7 <= k < st + 7 + |text|
      ensures r[k] != ']' && r[k] == text[k - st - 7]
    {
      assert r[k] == rep[k - st] == text[k - st - 7];
    }
    assert r[st + 7 + |text|] == rep[7 + |text|] == ']';
    LazyUntilReaches(r, st + 7, st + 7 + |text|, {']'}, true);
    assert r[st + 7..st + 7 + |text|] == text;
  }

  /** A search that meets no match before `st` reaches the match at `st`. */
  lemma {:induction false} TagsFromSkips(s: string, p: nat, st: nat)
    requires p <= st <= |s| && TagsAt(s, st, false).Some?
    requires forall q | p <= q < st :: TagsAt(s, q, false).None?
    ensures TagsFrom(s, p, false) == TagsAt(s, st, false)
    decreases st - p
  {
    if p < st {
      TagsFromSkips(s, p + 1, st);
    }
  }

  // ---------------------------------------------------------------------------
  // the text of a tag list

  /** `t.replace(/^['"]|['"]$/g, '')`: one quote taken off each end. */
  function StripQuotes(t: string): string {
    var a := if |t| > 0 && IsQuote(t[0]) then t[1..] else t;
    if |a| > 0 && IsQuote(a[|a| - 1]) then a[..|a| - 1] else a
  }

  /** One item of a tag list: trimmed, then its quotes taken off. */
  function TagItem(piece: string): string {
    StripQuotes(Trim(piece))
  }

  /** `text.split(',').map(t => t.trim().replace(/^['"]|['"]$/g, ''))`. */
  function TagItems(text: string): (r: seq<string>)
    ensures |r| == |Split(text, ',')|
    ensures forall i | 0 <= i < |r| :: r[i] == TagItem(Split(text, ',')[i])
  {
    var pieces := Split(text, ',');
    seq(|pieces|, i requires 0 <= i < |pieces| => TagItem(pieces[i]))
  }

  /** The same followed by `.filter(t => t)`: the tags a tag list names. */
  function ParseTags(text: string): seq<string> {
    Filter(TagItems(text), NonEmpty)
  }

  /** Every tag read from a list is writable again, and holds no character the list
      text lacks. */
  lemma ParseTagsClean(text: string, c: char)
    ensures forall t <- ParseTags(text) :: Writable(t)
    ensures c !in text ==> forall t <- ParseTags(text) :: c !in t
  {
    TagItemsClean(text, c);
  }

  /** No item of a list holds a comma, or a character the list text lacks. */
  lemma TagItemsClean(text: string, c: char)
    ensures forall t <- TagItems(text) :: ',' !in t && (c !in text ==> c !in t)
  {
    var pieces := Split(text, ',');
    SplitAnyWithin(text, {','});
    forall t <- TagItems(text)
      ensures ',' !in t && (c !in text ==> c !in t)
    {
      var i :| 0 <= i < |pieces| && TagItems(text)[i] == t;
      var p := pieces[i];
      assert p in pieces;
      ItemWithin(p, t);
    }
  }

  /** A tag item is a slice of its piece. */
  lemma ItemWithin(p: string, t: string)
    requires t == TagItem(p)
    ensures forall ch <- t :: ch in p
  {
    var r := Trim(p);
    var a := LeadingSpace(p);
    forall ch <- t
      ensures ch in p
    {
      var k :| 0 <= k < |t| && t[k] == ch;
      var j: nat := if |r| > 0 && IsQuote(r[0]) then k + 1 else k;
      assert r[j] == ch;
      assert p[a + j] == ch;
    }
  }

  /** `"${t}"`. */
  function QuoteTag(t: string): string {
    "\"" + t + "\""
  }

  /** `tags.map(t => `"${t}"`).join(', ')`: how the scripts write a tag list. */
  function TagListText(tags: seq<string>): string {
    Join(Quoted(tags), ", ")
  }

  function Quoted(tags: seq<string>): (r: seq<string>)
    ensures |r| == |tags| && forall i | 0 <= i < |tags| :: r[i] == QuoteTag(tags[i])
  {
    seq(|tags|, i requires 0 <= i < |tags| => QuoteTag(tags[i]))
  }

  /** A tag the list syntax can carry: not empty and without a comma. */
  predicate Writable(t: string) {
    t != "" && ',' !in t
  }

  /** The pieces `split(',')` cuts from a list joined with `", "`: all but the first keep
      the space. */
  function PadRest(ps: seq<string>): (r: seq<string>)
    requires |ps| > 0
    ensures |r| == |ps| && r[0] == ps[0] && forall i | 0 < i < |ps| :: r[i] == " " + ps[i]
  {
    seq(|ps|, i requires 0 <= i < |ps| => if i == 0 then ps[0] else " " + ps[i])
  }

  lemma {:induction false} JoinCommaSpace(ps: seq<string>)
    requires |ps| > 0
    ensures Join(ps, ", ") == Join(PadRest(ps), ",")
  {
    if |ps| > 1 {
      var rest := ps[1..];
      JoinCommaSpace(rest);
      var pr := PadRest(ps);
      var rr := PadRest(rest);
      assert pr[1..] == [" " + rr[0]] + rr[1..];
      JoinPadHead(rr, " ", ",");
      assert Join(pr, ",") == ps[0] + "," + Join(pr[1..], ",");
    }
  }

  lemma JoinPadHead(ps: seq<string>, pad: string, sep: string)
    requires |ps| > 0
    ensures Join([pad + ps[0]] + ps[1..], sep) == pad + Join(ps, sep)
  {
    var qs := [pad + ps[0]] + ps[1..];
    if |ps| == 1 {
      assert qs == [pad + ps[0]];
    } else {
      var j := Join(ps[1..], sep);
      assert qs[1..] == ps[1..];
      assert Join(qs, sep) == (pad + ps[0]) + sep + j;
      assert Join(ps, sep) == ps[0] + sep + j;
    }
  }

  /** A quoted tag, with or without a space before it, reads back as the tag. */
  lemma TagItemQuoted(t: string, padded: bool)
    ensures TagItem((if padded then " " else "") + QuoteTag(t)) == t
  {
    var q := QuoteTag(t);
    assert q[0] == '"' && q[|q| - 1] == '"';
    TrimOfTrimmed(q);
    if padded {
      TrimOneSpace(q);
    } else {
      assert "" + q == q;
    }
    StripQuoteTag(t);
  }

  lemma TrimOneSpace(x: string)
    requires |x| > 0 && !IsSpace(x[0]) && !IsSpace(x[|x| - 1])
    ensures Trim(" " + x) == x
  {
    var s := " " + x;
    assert s[1..] == x;
    assert LeadingSpace(s) == 1;
    assert TrailingSpace(x) == 0;
  }

  lemma StripQuoteTag(t: string)
    ensures StripQuotes(QuoteTag(t)) == t
  {
    var q := QuoteTag(t);
    assert q[1..] == t + "\"";
    assert (t + "\"")[..|t|] == t;
  }

  /** Writing a tag list and reading it back gives the same tags. */
  lemma ParseTagListText(tags: seq<string>)
    requires forall t <- tags :: Writable(t)
    ensures ParseTags(TagListText(tags)) == tags
  {
    if |tags| == 0 {
      assert Split("", ',') == [""];
      TrimOfTrimmed("");
      assert TagItems("") == [""];
    } else {
      TagItemsOfList(tags);
      FilterKeepsAll(tags);
    }
  }

  /** Splitting a written, non-empty tag list on commas and cleaning each piece gives
      back the tags, empty ones included. */
  lemma TagItemsOfList(tags: seq<string>)
    requires |tags| > 0 && forall t <- tags :: ',' !in t
    ensures TagItems(TagListText(tags)) == tags
  {
    var qs := Quoted(tags);
    JoinCommaSpace(qs);
    var sp := PadRest(qs);
    forall p <- sp
      ensures ',' !in p
    {
      var i :| 0 <= i < |sp| && sp[i] == p;
      assert tags[i] in tags;
    }
    SplitJoin(sp, ',');
    var items := TagItems(TagListText(tags));
    forall i | 0 <= i < |tags|
      ensures items[i] == tags[i]
    {
      TagItemQuoted(tags[i], i > 0);
      assert sp[i] == (if i > 0 then " " else "") + QuoteTag(tags[i]);
    }
  }

  /** The tags named by the first tag list of `s` (the `s`-flag pattern), if it has one. */
  function ReadTags(s: string): Option<seq<string>> {
    var m := TagsMatch(s, false);
    if m.Some? then Some(ParseTags(s[m.value.open..m.value.close])) else None
  }

  /** The tags read from a text can be written back: none is empty or holds a comma or
      a `]`. */
  lemma ReadTagsClean(s: string)
    requires ReadTags(s).Some?
    ensures forall t <- ReadTags(s).value :: Writable(t) && ']' !in t
  {
    var m := TagsMatch(s, false).value;
    MatchedTextLacksBracket(s, m);
    ParseTagsClean(s[m.open..m.close], ']');
  }

  /** The text of a tag list holds no `]`. */
  lemma MatchedTextLacksBracket(s: string, m: Span)
    requires TagsMatch(s, false) == Some(m)
    ensures ']' !in s[m.open..m.close]
  {
    LazyUntilFacts(s, m.open, {']'}, true);
    var text := s[m.open..m.close];
    forall k | 0 <= k < |text|
      ensures text[k] != ']'
    {
      assert text[k] == s[m.open + k];
    }
  }

  /** `s.replace(/tags:\s*\[.*?\]/s, `tags: [${...}]`)`: the first tag list rewritten
      with `tags`; a text without one is returned as it is. */
  function RewriteTags(s: string, tags: seq<string>): string {
    var m := TagsMatch(s, false);
    if m.Some? then ReplaceSpan(s, m.value, "tags: [" + TagListText(tags) + "]") else s
  }

  /** A tag list written from tags without `c` has no `c`, when `c` is no quote, comma or
      space. */
  lemma TagListLacks(tags: seq<string>, c: char)
    requires c !in ", \"" && forall t <- tags :: c !in t
    ensures c !in TagListText(tags)
  {
    forall p <- Quoted(tags)
      ensures c !in p
    {
      var i :| 0 <= i < |tags| && Quoted(tags)[i] == p;
      assert tags[i] in tags;
    }
    JoinLacks(Quoted(tags), ", ", c);
  }

  /** After the first tag list is replaced with `tags: [text]`, reading the tags gives
      those of `text`. */
  lemma RereadRewritten(s: string, text: string)
    requires TagsMatch(s, false).Some? && ']' !in text
    ensures ReadTags(ReplaceSpan(s, TagsMatch(s, false).value, "tags: [" + text + "]")) == Some(ParseTags(text))
  {
    var m := TagsMatch(s, false).value;
    var r := ReplaceSpan(s, m, "tags: [" + text + "]");
    TagsRefind(s, text, m, r);
    ReadTagsAt(r, Span(m.start, m.start + 7, m.start + 7 + |text|), text);
  }

  /** The tags read where the first match holds `text`. */
  lemma ReadTagsAt(r: string, m: Span, text: string)
    requires TagsMatch(r, false) == Some(m) && m.open <= m.close <= |r| && r[m.open..m.close] == text
    ensures ReadTags(r) == Some(ParseTags(text))
  {
  }

  /** A rewritten tag list reads back as the tags written, as long as none of them holds
      a comma or a `]` or is empty. */
  lemma RewriteReadsBack(s: string, tags: seq<string>)
    requires ReadTags(s).Some?
    requires forall t <- tags :: Writable(t) && ']' !in t
    ensures ReadTags(RewriteTags(s, tags)) == Some(tags)
  {
    TagListLacks(tags, ']');
    RereadRewritten(s, TagListText(tags));
    ParseTagListText(tags);
  }
}
