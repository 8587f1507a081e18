/** The title categoriser: the tag line of a post's front matter is replaced by `pixnet`
    and the topics its title names, with `life` standing in when it names none. */
module CategorizePosts {
  import opened Wrappers
  import opened Text
  import opened FrontMatter
  import Json

  /** A topic and the keywords that put a title in it. */
  type Rule = (string, seq<string>)

  const FoodWords: seq<string> :=
    ["美食", "好吃", "美味", "食記", "餐廳", "蛋糕", "甜點", "咖啡", "火鍋", "燒肉", "小吃", "板橋", "新北", "台北"]
  const TravelWords: seq<string> :=
    ["旅遊", "遊記", "一日遊", "景點", "住宿", "飯店", "民宿", "觀光", "宜蘭", "花蓮", "台南", "台中"]
  const LifeWords: seq<string> :=
    ["開箱", "生活", "日常", "推薦", "好物", "髮廊", "體驗", "親子"]

  /** The topics in the order `getCategory` tries them. */
  const Topics: seq<Rule> := [("food", FoodWords), ("travel", TravelWords), ("life", LifeWords)]

  /** Every tag `getCategory` can return. */
  const TopicTags: seq<string> := ["pixnet", "food", "travel", "life"]

  /** `keywords.some(k => title.includes(k))`. */
  predicate Mentions(title: string, keywords: seq<string>) {
    exists k <- keywords :: Contains(title, k)
  }

  /** The set `getCategory` has built after trying `rules`: `pixnet`, then each topic the
      title mentions, in table order, a name already present being left where it is. */
  function Matched(rules: seq<Rule>, title: string): seq<string>
    decreases |rules|
  {
    if |rules| == 0 then ["pixnet"]
    else
      var m := Matched(rules[..|rules| - 1], title);
      var rule := rules[|rules| - 1];
      if Mentions(title, rule.1) && rule.0 !in m then m + [rule.0] else m
  }

  /** `pixnet` comes first, no name twice, and a topic is there exactly when the title
      mentions one of its keywords. */
  lemma {:induction false} MatchedMembers(rules: seq<Rule>, title: string)
    ensures var m := Matched(rules, title);
            |m| > 0 && m[0] == "pixnet" && Distinct(m)
            && forall c :: c in m <==> c == "pixnet" || exists rule <- rules :: rule.0 == c && Mentions(title, rule.1)
    decreases |rules|
  {
    if |rules| > 0 {
      MatchedMembers(rules[..|rules| - 1], title);
      InInitOrLast(rules);
    }
  }

  /** What `getCategory` returns for a title: the topics it mentions after `pixnet`, or
      `life` when it mentions none. */
  function CategoryOf(title: string): seq<string> {
    var m := Matched(Topics, title);
    if |m| == 1 then m + ["life"] else m
  }

  /** `getCategory`: fills the set topic by topic, then adds `life` to a set that holds
      `pixnet` alone. */
  method GetCategory(title: string) returns (matched: seq<string>)
    ensures matched == CategoryOf(title)
  {
    matched := ["pixnet"];
    for i := 0 to |Topics|
      invariant matched == Matched(Topics[..i], title)
    {
      var cat, keywords := Topics[i].0, Topics[i].1;
      assert Topics[..i + 1][..i] == Topics[..i];
      if Mentions(title, keywords) {
        if cat !in matched {
          matched := matched + [cat];
        }
      }
    }
    assert Topics[..|Topics|] == Topics;
    if |matched| == 1 {
      matched := matched + ["life"];
    }
  }

  /** `[x]` when `b` holds, otherwise nothing. */
  function When(b: bool, x: string): seq<string> {
    if b then [x] else []
  }

  /** With a table of three topics the set holds `pixnet` and then each topic whose
      keywords the title names, in table order. */
  lemma MatchedThree(rules: seq<Rule>, title: string)
    requires |rules| == 3 && rules[0].0 == "food" && rules[1].0 == "travel" && rules[2].0 == "life"
    ensures Matched(rules, title)
            == ["pixnet"] + When(Mentions(title, rules[0].1), "food")
               + When(Mentions(title, rules[1].1), "travel") + When(Mentions(title, rules[2].1), "life")
  {
    assert rules[..2][..1] == rules[..1] && rules[..1][..0] == [];
    assert rules[..3] == rules;
    assert Matched(rules[..1], title) == ["pixnet"] + When(Mentions(title, rules[0].1), "food");
  }

  /** The answer built from which of the three topics the title names. */
  function Assemble(food: bool, travel: bool, life: bool): seq<string> {
    var m := ["pixnet"] + When(food, "food") + When(travel, "travel") + When(life, "life");
    if |m| == 1 then m + ["life"] else m
  }

  lemma AssembleFacts(food: bool, travel: bool, life: bool)
    ensures var r := Assemble(food, travel, life);
            |r| >= 2 && r[0] == "pixnet" && Distinct(r)
            && ("food" in r <==> food) && ("travel" in r <==> travel)
            && ("life" in r <==> life || !(food || travel))
            && forall t <- r :: t in TopicTags
  {
    var r := Assemble(food, travel, life);
    if food && travel && life {
      assert r == ["pixnet", "food", "travel", "life"];
    } else if food && travel {
      assert r == ["pixnet", "food", "travel"];
    } else if food && life {
      assert r == ["pixnet", "food", "life"];
    } else if travel && life {
      assert r == ["pixnet", "travel", "life"];
    } else if food {
      assert r == ["pixnet", "food"];
    } else if travel {
      assert r == ["pixnet", "travel"];
    } else {
      assert r == ["pixnet", "life"];
    }
  }

  /** The result always holds `pixnet` first and at least two distinct tags; `food` and
      `travel` are there exactly when the title names one of their keywords, and `life`
      when it names one of its own or none of the others. */
  lemma CategoryOfFacts(title: string)
    ensures var r := CategoryOf(title);
            |r| >= 2 && r[0] == "pixnet" && Distinct(r)
            && ("food" in r <==> Mentions(title, FoodWords))
            && ("travel" in r <==> Mentions(title, TravelWords))
            && ("life" in r <==> Mentions(title, LifeWords) || !(Mentions(title, FoodWords) || Mentions(title, TravelWords)))
            && forall t <- r :: t in TopicTags
  {
    var food, travel, life := Mentions(title, FoodWords), Mentions(title, TravelWords), Mentions(title, LifeWords);
    MatchedThree(Topics, title);
    assert CategoryOf(title) == Assemble(food, travel, life);
    AssembleFacts(food, travel, life);
  }

  // ---------------------------------------------------------------------------
  // greedy `.*` up to the last given character of the line

  /** The index of the first line terminator at or after `i`, or the length. */
  function LineEnd(s: string, i: nat): (e: nat)
    requires i <= |s|
    ensures i <= e <= |s|
    decreases |s| - i
  {
    if i == |s| || IsLineTerminator(s[i]) then i else LineEnd(s, i + 1)
  }

  /** The line from `i` holds no terminator and ends at one or at the end of the text. */
  lemma {:induction false} LineEndFacts(s: string, i: nat)
    requires i <= |s|
    ensures var e := LineEnd(s, i);
            (e < |s| ==> IsLineTerminator(s[e])) && forall k | i <= k < e :: !IsLineTerminator(s[k])
    decreases |s| - i
  {
    if i < |s| && !IsLineTerminator(s[i]) {
      LineEndFacts(s, i + 1);
    }
  }

  /** The line ends where the first terminator is. */
  lemma {:induction false} LineEndReaches(s: string, i: nat, e: nat)
    requires i <= e <= |s| && (e < |s| ==> IsLineTerminator(s[e]))
    requires forall k | i <= k < e :: !IsLineTerminator(s[k])
    ensures LineEnd(s, i) == e
    decreases e - i
  {
    if i < e {
      LineEndReaches(s, i + 1, e);
    }
  }

  /** The last index in `[from, e)` holding `c`. */
  function LastBefore(s: string, from: nat, e: nat, c: char): (r: Option<nat>)
    requires e <= |s|
    ensures r.Some? ==> from <= r.value < e && s[r.value] == c
    decreases e
  {
    if e <= from then None
    else if s[e - 1] == c then Some(e - 1)
    else LastBefore(s, from, e - 1, c)
  }

  /** Nothing after the index found holds `c`; when none is found, nothing does. */
  lemma {:induction false} LastBeforeFacts(s: string, from: nat, e: nat, c: char)
    requires e <= |s|
    ensures var r := LastBefore(s, from, e, c);
            (r.Some? ==> forall k | r.value < k < e :: s[k] != c)
            && (r.None? ==> forall k | from <= k < e :: s[k] != c)
    decreases e
  {
    if e > from && s[e - 1] != c {
      LastBeforeFacts(s, from, e - 1, c);
    }
  }

  lemma {:induction false} LastBeforeReaches(s: string, from: nat, e: nat, c: char, k: nat)
    requires from <= k < e <= |s| && s[k] == c
    requires forall j | k < j < e :: s[j] != c
    ensures LastBefore(s, from, e, c) == Some(k)
    decreases e
  {
    if k < e - 1 {
      LastBeforeReaches(s, from, e - 1, c, k);
    }
  }

  /** `key` at `p`, then greedy `.*`, then `c`: the index of the last `c` on the rest of
      the line. */
  function GreedyAt(s: string, p: nat, key: string, c: char): (r: Option<nat>)
    ensures r.Some? ==> MatchesAt(s, p, key) && p + |key| <= r.value < |s| && s[r.value] == c
  {
    if MatchesAt(s, p, key) then LastBefore(s, p + |key|, LineEnd(s, p + |key|), c) else None
  }

  /** A match: where its key starts and the index of its last character. */
  datatype Hit = Hit(start: nat, last: nat)

  function GreedyFrom(s: string, p: nat, key: string, c: char): (r: Option<Hit>)
    ensures r.Some? ==> p <= r.value.start && GreedyAt(s, r.value.start, key, c) == Some(r.value.last)
    decreases |s| - p
  {
    if p > |s| then None
    else
      var g := GreedyAt(s, p, key, c);
      if g.Some? then Some(Hit(p, g.value)) else GreedyFrom(s, p + 1, key, c)
  }

  lemma {:induction false} GreedyFromLeftmost(s: string, p: nat, key: string, c: char)
    ensures var r := GreedyFrom(s, p, key, c);
            forall q | p <= q && (r.None? || q < r.value.start) :: GreedyAt(s, q, key, c).None?
    decreases |s| - p
  {
    if p <= |s| && GreedyAt(s, p, key, c).None? {
      GreedyFromLeftmost(s, p + 1, key, c);
    }
  }

  lemma {:induction false} GreedyFromFirst(s: string, p: nat, e: nat, key: string, c: char)
    requires p <= e && GreedyAt(s, e, key, c).Some?
    requires forall q | p <= q < e :: GreedyAt(s, q, key, c).None?
    ensures GreedyFrom(s, p, key, c) == Some(Hit(e, GreedyAt(s, e, key, c).value))
    decreases e - p
  {
    if p < e {
      GreedyFromFirst(s, p + 1, e, key, c);
    }
  }

  /** The group of `fm.match(/title: "(.*)"/)`: up to the last `"` of the line. */
  function TitleIn(fm: string): Option<string> {
    var h := GreedyFrom(fm, 0, "title: \"", '"');
    if h.Some? then Some(fm[h.value.start + 8..h.value.last]) else None
  }

  /** The list part of the first match of `/tags: \[.*\]/`: from its `[` to the last `]`
      of the line. */
  function TagsLineList(fm: string): Option<string> {
    var h := GreedyFrom(fm, 0, "tags: [", ']');
    if h.Some? then Some(fm[h.value.start + 6..h.value.last + 1]) else None
  }

  /** `fm.replace(/tags: \[.*\]/, `tags: ${JSON.stringify(tags)}`)`. */
  function ReplaceTagsLine(fm: string, tags: seq<string>): string {
    var h := GreedyFrom(fm, 0, "tags: [", ']');
    if h.Some? then fm[..h.value.start] + "tags: " + Json.QuoteList(tags) + fm[h.value.last + 1..] else fm
  }

  // ---------------------------------------------------------------------------
  // one file of processFiles

  /** What the loop of `processFiles` writes for a post: `None` when it has no front
      matter or no `title: "..."` in it, otherwise the post with its tag line replaced. */
  function FileOutcome(content: string): Option<string> {
    var fm := Block(content);
    if fm.None? then None
    else
      var title := TitleIn(fm.value);
      if title.None? then None
      else Some(ReplaceFirst(content, fm.value, ReplaceTagsLine(fm.value, CategoryOf(title.value))))
  }

  /** The body of the loop of `processFiles` for one post. */
  method ProcessFile(content: string) returns (written: Option<string>)
    ensures written == FileOutcome(content)
  {
    var fm := Block(content);
    if fm.None? {
      return None;
    }
    var title := TitleIn(fm.value);
    if title.None? {
      return None;
    }
    var newTags := GetCategory(title.value);
    var newFm := ReplaceTagsLine(fm.value, newTags);
    written := Some(ReplaceFirst(content, fm.value, newFm));
  }

  /** Text that matches at `i < 4` and at 4 after `---\n` is made of `-` and newlines
      only. */
  lemma {:induction false} OverlapIsDashes(content: string, fm: string, i: nat, k: nat)
    requires MatchesAt(content, 4, fm) && content[..4] == "---\n" && i < 4 && MatchesAt(content, i, fm)
    requires k < |fm|
    ensures fm[k] == '-' || fm[k] == '\n'
    decreases k
  {
    assert content[i..i + |fm|][k] == fm[k];
    if i + k < 4 {
      assert content[..4][i + k] == content[i + k];
    } else {
      assert content[4..4 + |fm|][i + k - 4] == fm[i + k - 4];
      OverlapIsDashes(content, fm, i, i + k - 4);
    }
  }

  /** Front matter holding a `t` does not occur before its own place in the post, so the
      script's `content.replace(frontmatter, ...)` rewrites the front matter itself. */
  lemma BlockIsFirstOccurrence(content: string, fm: string)
    requires MatchesAt(content, 4, fm) && content[..4] == "---\n" && 't' in fm
    ensures IndexOfFrom(content, fm, 0) == 4
  {
    forall i | 0 <= i < 4
      ensures !MatchesAt(content, i, fm)
    {
      if MatchesAt(content, i, fm) {
        var k :| 0 <= k < |fm| && fm[k] == 't';
        OverlapIsDashes(content, fm, i, k);
      }
    }
    IndexOfFromFirst(content, fm, 0, 4);
  }

  /** Replacing the front matter of a post that has a title replaces it in place. */
  lemma ReplaceBlockInPlace(content: string, fm: string, newFm: string)
    requires Block(content) == Some(fm) && TitleIn(fm).Some?
    ensures ReplaceFirst(content, fm, newFm) == content[..4] + newFm + content[4 + |fm|..]
  {
    BlockFacts(content);
    TitleHasT(fm);
    assert content[4..4 + |fm|] == fm;
    BlockIsFirstOccurrence(content, fm);
  }

  lemma TitleHasT(fm: string)
    requires TitleIn(fm).Some?
    ensures 't' in fm
  {
    var h := GreedyFrom(fm, 0, "title: \"", '"').value;
    assert fm[h.start] == fm[h.start..h.start + 8][0];
  }

  /** A post is written exactly when it has front matter with a `title: "..."` line, and
      then only its front matter changes: the text before and after it is kept. */
  lemma FileOutcomeShape(content: string)
    ensures FileOutcome(content).Some? <==> Block(content).Some? && TitleIn(Block(content).value).Some?
    ensures FileOutcome(content).Some? ==>
              var fm := Block(content).value;
              FileOutcome(content).value
              == content[..4] + ReplaceTagsLine(fm, CategoryOf(TitleIn(fm).value)) + content[4 + |fm|..]
  {
    if FileOutcome(content).Some? {
      var fm := Block(content).value;
      ReplaceBlockInPlace(content, fm, ReplaceTagsLine(fm, CategoryOf(TitleIn(fm).value)));
    }
  }

  /** Replacing text by itself changes nothing. */
  lemma ReplaceFirstSelf(s: string, pat: string)
    ensures ReplaceFirst(s, pat, pat) == s
  {
    var i := IndexOfFrom(s, pat, 0);
    if i >= 0 {
      assert s[i..i + |pat|] == pat;
      assert s[..i] + pat + s[i + |pat|..] == s;
    }
  }

  /** Front matter without a tag line is written back unchanged. */
  lemma NoTagLineUnchanged(content: string)
    requires FileOutcome(content).Some? && TagsLineList(Block(content).value).None?
    ensures FileOutcome(content) == Some(content)
  {
    ReplaceFirstSelf(content, Block(content).value);
  }

  // ---------------------------------------------------------------------------
  // the tag line after the rewrite

  /** A match of the tag-line pattern runs within one line. */
  lemma MatchOnOneLine(fm: string, p: nat, last: nat, k: nat)
    requires GreedyAt(fm, p, "tags: [", ']') == Some(last)
    requires p <= k <= last
    ensures !IsLineTerminator(fm[k])
  {
    LineEndFacts(fm, p + 7);
    if k < p + 7 {
      assert fm[p..p + 7][k - p] == fm[k];
    }
  }

  /** A `tags: [` before the first match sits on an earlier line, which ends before the
      match starts. */
  lemma EarlierKeyEarlierLine(fm: string, h: Hit, q: nat)
    requires GreedyFrom(fm, 0, "tags: [", ']') == Some(h)
    requires q < h.start && MatchesAt(fm, q, "tags: [")
    ensures LineEnd(fm, q + 7) < h.start
  {
    var e2 := LineEnd(fm, q + 7);
    GreedyFromLeftmost(fm, 0, "tags: [", ']');
    assert GreedyAt(fm, q, "tags: [", ']').None?;
    LastBeforeFacts(fm, q + 7, e2, ']');
    LineEndFacts(fm, q + 7);
    if h.start <= e2 <= h.last {
      MatchOnOneLine(fm, h.start, h.last, e2);
    }
  }

  /** `tags: [` holds a single `t`, so a `t` after the start of a match lies past it. */
  lemma KeyOnce(n: string, q: nat, p: nat)
    requires MatchesAt(n, q, "tags: [") && q < p < |n| && n[p] == 't'
    ensures q + 7 <= p
  {
    forall j | q < j < q + 7
      ensures n[j] != 't'
    {
      assert n[j] == n[q..q + 7][j - q];
    }
  }

  lemma {:induction false} LastBeforeAgree(s: string, t: string, from: nat, e: nat, c: char)
    requires e <= |s| && e <= |t|
    requires forall k | from <= k < e :: s[k] == t[k]
    ensures LastBefore(s, from, e, c) == LastBefore(t, from, e, c)
    decreases e
  {
    if e > from && s[e - 1] != c {
      LastBeforeAgree(s, t, from, e - 1, c);
    }
  }

  /** A match whose line ends before `b` is a match, with the same end, in any text that
      agrees on the first `b` characters. */
  lemma GreedyAgrees(fm: string, n: string, b: nat, q: nat)
    requires b <= |fm| && b <= |n| && fm[..b] == n[..b]
    requires MatchesAt(fm, q, "tags: [") && q + 7 <= b && LineEnd(fm, q + 7) < b
    ensures GreedyAt(n, q, "tags: [", ']') == GreedyAt(fm, q, "tags: [", ']')
  {
    var e := LineEnd(fm, q + 7);
    LineEndFacts(fm, q + 7);
    forall k | 0 <= k < b
      ensures n[k] == fm[k]
    {
      assert n[k] == n[..b][k];
    }
    assert n[q..q + 7] == fm[q..q + 7];
    LineEndReaches(n, q + 7, e);
    LastBeforeAgree(fm, n, q + 7, e, ']');
  }

  /** No match of the tag-line pattern starts before the rewritten one. */
  lemma NoEarlierTagLine(fm: string, n: string, h: Hit, line: string, q: nat)
    requires GreedyFrom(fm, 0, "tags: [", ']') == Some(h)
    requires n == fm[..h.start] + line + fm[h.last + 1..] && |line| >= 7 && line[0] == 't'
    requires q < h.start
    ensures GreedyAt(n, q, "tags: [", ']').None?
  {
    var key := "tags: [";
    if MatchesAt(n, q, key) {
      assert n[h.start] == 't';
      KeyOnce(n, q, h.start);
      assert n[..h.start] == fm[..h.start];
      assert fm[q..q + 7] == n[q..q + 7] by {
        assert fm[q..q + 7] == fm[..h.start][q..q + 7];
        assert n[q..q + 7] == n[..h.start][q..q + 7];
      }
      EarlierKeyEarlierLine(fm, h, q);
      GreedyAgrees(fm, n, h.start, q);
      GreedyFromLeftmost(fm, 0, key, ']');
    }
  }

  /** The rewritten tag line is found where the old one was and ends at its own `]`. */
  lemma TagLineAtSameSpot(fm: string, n: string, h: Hit, list: string)
    requires GreedyFrom(fm, 0, "tags: [", ']') == Some(h)
    requires n == fm[..h.start] + ("tags: " + list) + fm[h.last + 1..]
    requires |list| >= 2 && list[0] == '[' && list[|list| - 1] == ']'
    requires forall c <- list :: !IsLineTerminator(c)
    ensures GreedyAt(n, h.start, "tags: [", ']') == Some(h.start + 6 + |list| - 1)
  {
    var p := h.start;
    var pre := fm[..p];
    var line := "tags: " + list;
    var post := fm[h.last + 1..];
    assert |pre| == p;
    var e1 := LineEnd(fm, p + 7);
    RestOfTagLine(fm, h, e1, post);
    ListLine(list, line);
    var r := e1 - (h.last + 1);
    assert n == pre + line + post;
    assert line[..7] == "tags: [" by {
      assert line[6] == list[0];
    }
    GreedyOnNewLine(n, pre, line, post, r, p);
  }

  /** The greedy match on a line `line` that starts with `tags: [` and ends with `]`, when
      no other `]` follows before the end of the line. */
  lemma GreedyOnNewLine(n: string, pre: string, line: string, post: string, r: nat, p: nat)
    requires n == pre + line + post && p == |pre|
    requires |line| >= 8 && line[..7] == "tags: [" && line[|line| - 1] == ']'
    requires forall k | 0 <= k < |line| :: !IsLineTerminator(line[k])
    requires r <= |post| && (r < |post| ==> IsLineTerminator(post[r]))
    requires forall k | 0 <= k < r :: !IsLineTerminator(post[k]) && post[k] != ']'
    ensures GreedyAt(n, p, "tags: [", ']') == Some(p + |line| - 1)
  {
    LineAcross(n, pre, line, post, r, p);
    assert MatchesAt(n, p, "tags: [") by {
      assert n[p..p + 7] == line[..7];
    }
    GreedyAtParts(n, p, p + |line| + r, p + |line| - 1);
  }

  /** The greedy match at `p`, from its key, its line end and its last `]`. */
  lemma GreedyAtParts(n: string, p: nat, e: nat, k: nat)
    requires MatchesAt(n, p, "tags: [") && LineEnd(n, p + 7) == e
    requires LastBefore(n, p + 7, e, ']') == Some(k)
    ensures GreedyAt(n, p, "tags: [", ']') == Some(k)
  {
  }

  /** What follows the last `]` of the first tag line, up to its end, is neither a
      terminator nor a `]`. */
  lemma RestOfTagLine(fm: string, h: Hit, e: nat, post: string)
    requires GreedyFrom(fm, 0, "tags: [", ']') == Some(h)
    requires h.start + 7 <= |fm| && e == LineEnd(fm, h.start + 7) && post == fm[h.last + 1..]
    ensures h.last < e && e - (h.last + 1) <= |post|
    ensures e - (h.last + 1) < |post| ==> IsLineTerminator(post[e - (h.last + 1)])
    ensures forall k | 0 <= k < e - (h.last + 1) :: !IsLineTerminator(post[k]) && post[k] != ']'
  {
    LineEndFacts(fm, h.start + 7);
    LastBeforeFacts(fm, h.start + 7, e, ']');
    forall k | 0 <= k < e - (h.last + 1)
      ensures !IsLineTerminator(post[k]) && post[k] != ']'
    {
      assert post[k] == fm[h.last + 1 + k];
    }
  }

  lemma ListLine(list: string, line: string)
    requires line == "tags: " + list
    requires forall c <- list :: !IsLineTerminator(c)
    ensures forall k | 0 <= k < |line| :: !IsLineTerminator(line[k])
  {
    forall k | 0 <= k < |line|
      ensures !IsLineTerminator(line[k])
    {
      if k >= 6 {
        assert line[k] == list[k - 6] && list[k - 6] in list;
      }
    }
  }

  /** A line `line` ending in `]` put between `pre` and text whose first `r` characters
      hold neither a terminator nor a `]`: the line from just after its `tags: [` runs
      `r` characters into that text, and its last `]` is the one closing `line`. */
  lemma LineAcross(n: string, pre: string, line: string, post: string, r: nat, p: nat)
    requires n == pre + line + post && p == |pre|
    requires |line| >= 8 && line[|line| - 1] == ']'
    requires forall k | 0 <= k < |line| :: !IsLineTerminator(line[k])
    requires r <= |post| && (r < |post| ==> IsLineTerminator(post[r]))
    requires forall k | 0 <= k < r :: !IsLineTerminator(post[k]) && post[k] != ']'
    ensures LineEnd(n, p + 7) == p + |line| + r
    ensures LastBefore(n, p + 7, p + |line| + r, ']') == Some(p + |line| - 1)
  {
    var e := p + |line| + r;
    forall k | p + 7 <= k < e
      ensures !IsLineTerminator(n[k]) && (k >= p + |line| ==> n[k] != ']')
    {
      if k < p + |line| {
        assert n[k] == line[k - p];
      } else {
        assert n[k] == post[k - p - |line|];
      }
    }
    if e < |n| {
      assert n[e] == post[r];
    }
    LineEndReaches(n, p + 7, e);
    var k := p + |line| - 1;
    assert n[k] == ']';
    assert p + 7 <= k < e <= |n|;
    assert forall j | k < j < e :: n[j] != ']';
    LastBeforeReaches(n, p + 7, e, ']', k);
  }

  /** After the rewrite the tag line holds exactly `JSON.stringify(tags)`: whatever the
      line held before is gone. */
  lemma TagLineRewritten(fm: string, tags: seq<string>)
    requires TagsLineList(fm).Some?
    requires forall t <- tags, c <- t :: !IsLineTerminator(c)
    ensures TagsLineList(ReplaceTagsLine(fm, tags)) == Some(Json.QuoteList(tags))
  {
    var h := GreedyFrom(fm, 0, "tags: [", ']').value;
    QuoteListOneLine(tags);
    RewrittenLineRead(fm, ReplaceTagsLine(fm, tags), h, Json.QuoteList(tags));
  }

  lemma RewrittenLineRead(fm: string, n: string, h: Hit, list: string)
    requires GreedyFrom(fm, 0, "tags: [", ']') == Some(h)
    requires n == fm[..h.start] + "tags: " + list + fm[h.last + 1..]
    requires |list| >= 2 && list[0] == '[' && list[|list| - 1] == ']'
    requires forall c <- list :: !IsLineTerminator(c)
    ensures TagsLineList(n) == Some(list)
  {
    assert n == fm[..h.start] + ("tags: " + list) + fm[h.last + 1..];
    RewrittenLineFound(fm, n, h, list);
    assert n[h.start + 6..h.start + 6 + |list|] == list;
  }

  /** The rewritten one-line list is the first match of the tag-line pattern. */
  lemma RewrittenLineFound(fm: string, n: string, h: Hit, list: string)
    requires GreedyFrom(fm, 0, "tags: [", ']') == Some(h)
    requires n == fm[..h.start] + ("tags: " + list) + fm[h.last + 1..]
    requires |list| >= 2 && list[0] == '[' && list[|list| - 1] == ']'
    requires forall c <- list :: !IsLineTerminator(c)
    ensures GreedyFrom(n, 0, "tags: [", ']') == Some(Hit(h.start, h.start + 6 + |list| - 1))
  {
    TagLineAtSameSpot(fm, n, h, list);
    NoTagLineBefore(fm, n, h, list);
    GreedyFromFirst(n, 0, h.start, "tags: [", ']');
  }

  /** A list of one-line tags is written on one line, between its brackets. */
  lemma QuoteListOneLine(tags: seq<string>)
    requires forall t <- tags, c <- t :: !IsLineTerminator(c)
    ensures var list := Json.QuoteList(tags);
            |list| >= 2 && list[0] == '[' && list[|list| - 1] == ']'
            && forall c <- list :: !IsLineTerminator(c)
  {
    var list := Json.QuoteList(tags);
    forall c | IsLineTerminator(c)
      ensures c !in list
    {
      Json.QuoteListLacks(tags, c);
    }
    assert list[0] == '[' && list[|list| - 1] == ']';
  }

  lemma NoTagLineBefore(fm: string, n: string, h: Hit, list: string)
    requires GreedyFrom(fm, 0, "tags: [", ']') == Some(h)
    requires n == fm[..h.start] + ("tags: " + list) + fm[h.last + 1..]
    requires |list| > 0
    ensures forall q | 0 <= q < h.start :: GreedyAt(n, q, "tags: [", ']').None?
  {
    forall q | 0 <= q < h.start
      ensures GreedyAt(n, q, "tags: [", ']').None?
    {
      NoEarlierTagLine(fm, n, h, "tags: " + list, q);
    }
  }

  /** The tags `getCategory` can return are plain words on one line. */
  lemma TopicTagsOneLine()
    ensures forall t <- TopicTags, c <- t :: 'a' <= c <= 'z'
  {
    forall t <- TopicTags, c <- t
      ensures 'a' <= c <= 'z'
    {
      assert t == "pixnet" || t == "food" || t == "travel" || t == "life";
    }
  }

  /** The tags `getCategory` returns are plain words, so the rewritten tag line of a
      titled front matter reads back as exactly those tags. */
  lemma WrittenTagsReadBack(fm: string)
    requires TitleIn(fm).Some? && TagsLineList(fm).Some?
    ensures var tags := CategoryOf(TitleIn(fm).value);
            TagsLineList(ReplaceTagsLine(fm, tags)) == Some(Json.QuoteList(tags))
            && Json.UnquoteList(Json.QuoteList(tags)) == Some(tags)
  {
    var tags := CategoryOf(TitleIn(fm).value);
    assert forall t <- tags, c <- t :: !IsLineTerminator(c) by {
      CategoryOfFacts(TitleIn(fm).value);
      TopicTagsOneLine();
    }
    TagLineRewritten(fm, tags);
    Json.UnquoteQuoteList(tags);
  }
}
