/** The front-matter block of a post and the patterns the scripts look for inside it:
    the block itself (`/^---\n([\s\S]*?)\n---/`), a quoted value
    (`/title:\s*["'](.+?)["']/` and the same for other keys), and the tag list of the block as seen from the whole
    post. */
module FrontMatter {
  import opened Wrappers
  import opened Text
  import opened Scanners

  // ---------------------------------------------------------------------------
  // `/^---\n([\s\S]*?)\n---/`

  /** The group of `content.match(/^---\n([\s\S]*?)\n---/)`: what lies between the
      opening `---` line and the first `\n---` after it. */
  function Block(content: string): Option<string> {
    if !StartsWith(content, "---\n") then None
    else
      var e := IndexOfFrom(content, "\n---", 4);
      if e >= 0 then Some(content[4..e]) else None
  }

  /** A block found is the text right after the opening line, it is followed by `\n---`,
      and it holds no `\n---` itself. */
  lemma BlockFacts(content: string)
    requires Block(content).Some?
    ensures var fm := Block(content).value;
            content == "---\n" + fm + content[4 + |fm|..]
            && MatchesAt(content, 4 + |fm|, "\n---") && !Contains(fm, "\n---")
  {
    var fm := Block(content).value;
    var e := IndexOfFrom(content, "\n---", 4);
    assert content[..4] == "---\n";
    assert content == content[..4] + content[4..e] + content[e..];
    if Contains(fm, "\n---") {
      var i :| MatchesAt(fm, i, "\n---");
      assert content[4 + i..4 + i + 4] == fm[i..i + 4];
      assert MatchesAt(content, 4 + i, "\n---");
    }
  }

  lemma BlockSplit(content: string)
    requires Block(content).Some?
    ensures content == "---\n" + Block(content).value + content[4 + |Block(content).value|..]
  {
    var e := IndexOfFrom(content, "\n---", 4);
    assert content[..4] == "---\n";
    assert content == content[..4] + content[4..e] + content[e..];
  }

  /** A post made of an opening line, a block without `\n---` and a closing `\n---` has
      that block. */
  lemma BlockOfPost(fm: string, rest: string)
    requires !Contains(fm, "\n---")
    ensures Block("---\n" + fm + "\n---" + rest) == Some(fm)
  {
    var c := "---\n" + fm + "\n---" + rest;
    assert c[..4] == "---\n";
    assert c[4 + |fm|..4 + |fm| + 4] == "\n---";
    forall i | 4 <= i < 4 + |fm|
      ensures !MatchesAt(c, i, "\n---")
    {
      if i + 4 <= 4 + |fm| {
        assert fm[i - 4..i] == c[i..i + 4];
        assert MatchesAt(c, i, "\n---") ==> MatchesAt(fm, i - 4, "\n---");
      } else {
        // the closing `\n` would have to be one of the dashes
        assert c[i..i + 4][4 + |fm| - i] == c[4 + |fm|] == '\n';
      }
    }
    IndexOfFromFirst(c, "\n---", 4, 4 + |fm|);
    assert c[4..4 + |fm|] == fm;
  }

  // ---------------------------------------------------------------------------
  // `/title:\s*["'](.+?)["']/`, for any key in place of `title:`

  /** The pattern tried at `p`: the key with its colon, white space, an opening quote, at least one
      character and everything up to the next quote of either kind on the same line.
      Giving back white space cannot help, as a quote is no white space. */
  function QuotedAt(s: string, p: nat, key: string): Option<string> {
    if !MatchesAt(s, p, key) then None
    else
      var b := p + |key| + SpaceRun(s, p + |key|);
      if b + 1 < |s| && IsQuote(s[b]) && !IsLineTerminator(s[b + 1]) then
        var e := LazyUntil(s, b + 2, {'"', '\''}, false);
        if e.Some? then Some(s[b + 1..e.value]) else None
      else None
  }

  function QuotedFrom(s: string, p: nat, key: string): Option<string>
    decreases |s| - p
  {
    if p > |s| then None
    else
      var v := QuotedAt(s, p, key);
      if v.Some? then v else QuotedFrom(s, p + 1, key)
  }

  /** The group of `s.match(/title:\s*["'](.+?)["']/)` with `key` in place of `title:`. */
  function QuotedValue(s: string, key: string): Option<string> {
    QuotedFrom(s, 0, key)
  }

  /** A value read is one non-empty line, and no quote follows its first character. */
  lemma {:induction false} QuotedFromFacts(s: string, p: nat, key: string)
    ensures var v := QuotedFrom(s, p, key);
            v.Some? ==> OneLine(v.value) && forall k | 1 <= k < |v.value| :: !IsQuote(v.value[k])
    decreases |s| - p
  {
    if p <= |s| {
      if MatchesAt(s, p, key) {
        var b := p + |key| + SpaceRun(s, p + |key|);
        if b + 1 < |s| {
          LazyUntilFacts(s, b + 2, {'"', '\''}, false);
        }
      }
      QuotedFromFacts(s, p + 1, key);
    }
  }

  /** A line `key "value"` at the start of a text gives back its value, when the value
      has no quote and no line break (`key` holds the colon, as in `title:`). */
  lemma QuotedValueOfLine(key: string, v: string, rest: string)
    requires |key| > 0 && OneLine(v) && forall c <- v :: !IsQuote(c)
    ensures QuotedValue(key + " \"" + v + "\"" + rest, key) == Some(v)
  {
    var tail := " \"" + (v + "\"" + rest);
    var s := key + tail;
    assert s == key + " \"" + v + "\"" + rest;
    var n := |key|;
    assert s[..n] == key;
    assert tail[0] == ' ' && tail[1] == '"';
    assert s[n] == ' ' && s[n + 1] == '"';
    assert SpaceRun(s, n + 1) == 0;
    assert SpaceRun(s, n) == 1;
    assert s[n + 2] == v[0];
    assert v[0] in v;
    forall k | n + 3 <= k < n + 2 + |v|
      ensures s[k] !in {'"', '\''} && !IsLineTerminator(s[k])
    {
      assert s[k] == v[k - n - 2];
      assert v[k - n - 2] in v;
    }
    assert s[n + 2 + |v|] == '"';
    LazyUntilReaches(s, n + 3, n + 2 + |v|, {'"', '\''}, false);
    assert s[n + 2..n + 2 + |v|] == v;
  }

  // ---------------------------------------------------------------------------
  // the tag list of the block, seen from the whole post

  function ShiftSpan(m: Span, n: nat): Span {
    Span(m.start + n, m.open + n, m.close + n)
  }

  lemma {:induction false} SpaceRunShift(pre: string, x: string, i: nat)
    requires i <= |x|
    ensures SpaceRun(pre + x, |pre| + i) == SpaceRun(x, i)
    decreases |x| - i
  {
    if i < |x| {
      assert (pre + x)[|pre| + i] == x[i];
      SpaceRunShift(pre, x, i + 1);
    }
  }

  lemma {:induction false} LazyUntilShift(pre: string, x: string, c: nat, stops: set<char>, dotAll: bool)
    ensures LazyUntil(pre + x, |pre| + c, stops, dotAll)
            == (var r := LazyUntil(x, c, stops, dotAll); if r.Some? then Some(|pre| + r.value) else None)
    decreases |x| - c
  {
    if c < |x| {
      assert (pre + x)[|pre| + c] == x[c];
      LazyUntilShift(pre, x, c + 1, stops, dotAll);
    }
  }

  lemma MatchesAtShift(pre: string, x: string, q: nat, pat: string)
    ensures MatchesAt(pre + x, |pre| + q, pat) == MatchesAt(x, q, pat)
  {
    if q + |pat| <= |x| {
      assert (pre + x)[|pre| + q..|pre| + q + |pat|] == x[q..q + |pat|];
    }
  }

  /** The tag-list pattern sees the same thing in `x` as in `x` with text put in front,
      moved by the length of that text. */
  lemma TagsAtShift(pre: string, x: string, q: nat)
    ensures TagsAt(pre + x, |pre| + q, false)
            == (var r := TagsAt(x, q, false); if r.Some? then Some(ShiftSpan(r.value, |pre|)) else None)
  {
    MatchesAtShift(pre, x, q, "tags:");
    if MatchesAt(x, q, "tags:") {
      SpaceRunShift(pre, x, q + 5);
      var b := q + 5 + SpaceRun(x, q + 5);
      if b < |x| {
        assert (pre + x)[|pre| + b] == x[b];
      }
      LazyUntilShift(pre, x, b + 1, {']'}, true);
    }
  }

  /** Text appended after a tag list does not change its match at the same place. */
  lemma TagsAtExtend(s: string, t: string, m: Span)
    requires TagsAt(s, m.start, false) == Some(m)
    ensures TagsAt(s + t, m.start, false) == Some(m)
  {
    var s2 := s + t;
    var st := m.start;
    assert s2[st..st + 5] == s[st..st + 5];
    var b := st + 5 + SpaceRun(s, st + 5);
    assert s[b] == '[';
    SpaceRunAgree(s, s2, st + 5, b + 1) by {
      assert s[..b + 1] == s2[..b + 1];
    }
    LazyUntilFacts(s, b + 1, {']'}, true);
    forall k | b + 1 <= k < m.close
      ensures s2[k] !in {']'}
    {
      assert s2[k] == s[k];
    }
    LazyUntilReaches(s2, b + 1, m.close, {']'}, true);
  }

  /** The first tag list of a text is still the first once text is appended. */
  lemma TagsMatchExtend(s: string, t: string)
    requires TagsMatch(s, false).Some?
    ensures TagsMatch(s + t, false) == TagsMatch(s, false)
  {
    var m := TagsMatch(s, false).value;
    var s2 := s + t;
    assert s[..m.start + 5] == s2[..m.start + 5];
    forall q: nat | q < m.start
      ensures TagsAt(s2, q, false).None?
    {
      TagsAtBeforeMatch(s, s2, q, m);
    }
    TagsAtExtend(s, t, m);
    TagsFromSkips(s2, 0, m.start);
  }

  /** The first tag list after the opening line is the first of the whole text. */
  lemma TagsMatchAfterOpening(x: string)
    requires TagsMatch(x, false).Some?
    ensures TagsMatch("---\n" + x, false) == Some(ShiftSpan(TagsMatch(x, false).value, 4))
  {
    var m := TagsMatch(x, false).value;
    var content := "---\n" + x;
    forall q: nat | q < m.start + 4
      ensures TagsAt(content, q, false).None?
    {
      BeforeBlockMatch(x, q);
    }
    assert TagsAt(x, m.start, false) == Some(m);
    TagsAtShift("---\n", x, m.start);
    TagsFromSkips(content, 0, m.start + 4);
  }

  /** The first tag list of a block is the first tag list of a post made of the opening
      line, that block and anything after it, four characters further on. */
  lemma TagsMatchInPost(content: string, fm: string, rest: string)
    requires content == "---\n" + (fm + rest) && TagsMatch(fm, false).Some?
    ensures var m := TagsMatch(fm, false).value;
            TagsMatch(content, false) == Some(ShiftSpan(m, 4))
            && content[m.open + 4..m.close + 4] == fm[m.open..m.close]
  {
    var m := TagsMatch(fm, false).value;
    var x := fm + rest;
    TagsMatchExtend(fm, rest);
    TagsMatchAfterOpening(x);
    SliceShift("---\n", x, m.open, m.close);
    assert x[m.open..m.close] == fm[m.open..m.close];
  }

  /** Reading the tags of the post reads those of its block. */
  lemma ReadTagsInBlock(content: string)
    requires Block(content).Some? && TagsMatch(Block(content).value, false).Some?
    ensures ReadTags(content) == ReadTags(Block(content).value)
  {
    var fm := Block(content).value;
    BlockSplit(content);
    ReadTagsInPost(content, fm, content[4 + |fm|..]);
  }

  /** The tags read from a post are those of the text after its opening line, when that
      text starts with a list. */
  lemma ReadTagsInPost(content: string, fm: string, rest: string)
    requires content == "---\n" + fm + rest && TagsMatch(fm, false).Some?
    ensures ReadTags(content) == ReadTags(fm)
  {
    assert content == "---\n" + (fm + rest);
    TagsMatchInPost(content, fm, rest);
    ReadTagsShifted(content, fm, TagsMatch(fm, false).value);
  }

  /** A text whose match is that of another one moved by the opening line reads the
      same tags. */
  lemma ReadTagsShifted(content: string, fm: string, m: Span)
    requires TagsMatch(fm, false) == Some(m) && TagsMatch(content, false) == Some(ShiftSpan(m, 4))
    requires content[m.open + 4..m.close + 4] == fm[m.open..m.close]
    ensures ReadTags(content) == ReadTags(fm)
  {
    var t := fm[m.open..m.close];
    assert ReadTags(fm) == Some(ParseTags(t));
    assert ReadTags(content) == Some(ParseTags(t));
  }

  lemma SliceShift(pre: string, x: string, a: nat, b: nat)
    requires a <= b <= |x|
    ensures (pre + x)[|pre| + a..|pre| + b] == x[a..b]
  {
  }

  /** No tag list starts in the opening line, nor before the first one of the rest. */
  lemma BeforeBlockMatch(x: string, q: nat)
    requires TagsMatch(x, false).Some? && q < TagsMatch(x, false).value.start + 4
    ensures TagsAt("---\n" + x, q, false).None?
  {
    var content := "---\n" + x;
    if q < 4 {
      assert content[q] != 't';
      if q + 5 <= |content| {
        assert content[q..q + 5][0] == content[q];
      }
    } else {
      TagsFromLeftmost(x, 0, false);
      TagsAtShift("---\n", x, q - 4);
    }
  }

}
