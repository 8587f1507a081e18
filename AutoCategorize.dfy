/** The keyword categoriser: a post gets `pixnet` and every category one of whose
    keywords occurs in its title or the start of its body; those tags are merged into the
    tags it already has, and the post is rewritten when the merge adds something. */
module AutoCategorize {
  import opened Wrappers
  import opened Text
  import opened Scanners

  /** A category and the keywords that put a post in it. */
  type Rule = (string, seq<string>)

  /** The categories in the order the script tries them. */
  const CategoryKeywords: seq<Rule> := [
    ("taipei", ["台北", "北投", "士林", "天母", "西門", "中山", "信義", "大安", "內湖", "松山", "中正", "萬華"]),
    ("newtaipei", ["新北", "板橋", "新莊", "三重", "淡水", "三峽", "中和", "永和", "蘆洲", "林口", "萬里", "瑞芳", "九份", "烏來"]),
    ("taoyuan", ["桃園", "大溪", "中壢", "龍潭", "復興"]),
    ("yilan", ["宜蘭", "礁溪", "羅東", "頭城", "冬山", "五結", "員山", "三星"]),
    ("hsinchu", ["新竹", "竹東", "寶山"]),
    ("miaoli", ["苗栗", "三義", "頭屋", "南庄"]),
    ("taichung", ["台中", "逢甲", "梧棲"]),
    ("nantou", ["南投", "清境", "日月潭", "埔里"]),
    ("changhua", ["彰化", "鹿港"]),
    ("chiayi", ["嘉義", "阿里山"]),
    ("yunlin", ["雲林"]),
    ("tainan", ["台南", "玉井", "赤崁"]),
    ("kaohsiung", ["高雄"]),
    ("pingtung", ["屏東", "墾丁"]),
    ("hualien", ["花蓮"]),
    ("taitung", ["台東"]),
    ("food", ["美食", "餐廳", "小吃", "火鍋", "燒烤", "燒肉", "吃到飽", "早午餐", "咖啡", "甜點", "拉麵", "牛肉麵", "牛排", "居酒屋", "料理", "飲茶", "港點", "義大利麵", "披薩", "韓式", "泰式", "日式", "冰品", "鍋物", "串燒"]),
    ("travel", ["景點", "一日遊", "二日遊", "兩日遊", "旅遊", "行程", "步道", "農場", "博物館", "老街", "公園", "樂園", "打卡"]),
    ("life", ["生活", "育兒", "親子", "住宿", "飯店", "民宿", "月子", "嬰兒", "寶寶", "婚紗", "染髮", "髮型", "保健", "推薦", "開箱", "團購"]),
    ("japan", ["日本", "東京", "大阪", "京都", "沖繩", "北海道", "九州", "福岡"]),
    ("hongkong", ["香港", "港澳"]),
    ("singapore", ["新加坡"])
  ]

  /** Some keyword of the list occurs in the text. */
  predicate Mentions(text: string, keywords: seq<string>) {
    exists k <- keywords :: Contains(text, k)
  }

  /** The category names of the rules, in order. */
  function Names(rules: seq<Rule>): (r: seq<string>)
    ensures |r| == |rules| && forall i | 0 <= i < |rules| :: r[i] == rules[i].0
  {
    seq(|rules|, i requires 0 <= i < |rules| => rules[i].0)
  }

  /** The tags of a text under the rules, as the set in `categorizePost` fills up:
      `pixnet`, then each category the text mentions a keyword of, in rule order, a name
      already present being left where it is. */
  function Categories(rules: seq<Rule>, text: string): seq<string>
    decreases |rules|
  {
    if |rules| == 0 then ["pixnet"]
    else
      var r := Categories(rules[..|rules| - 1], text);
      var rule := rules[|rules| - 1];
      if Mentions(text, rule.1) && rule.0 !in r then r + [rule.0] else r
  }

  /** `pixnet` comes first, no tag comes twice, and a category is there exactly when the
      text mentions one of its keywords. */
  lemma {:induction false} CategoriesMembers(rules: seq<Rule>, text: string)
    ensures var r := Categories(rules, text);
            |r| > 0 && r[0] == "pixnet" && Distinct(r)
            && forall c :: c in r <==> c == "pixnet" || exists rule <- rules :: rule.0 == c && Mentions(text, rule.1)
    decreases |rules|
  {
    if |rules| > 0 {
      var init := rules[..|rules| - 1];
      CategoriesMembers(init, text);
      InInitOrLast(rules);
    }
  }

  /** After `pixnet`, the categories come in the order of the rules. */
  lemma {:induction false} CategoriesInRuleOrder(rules: seq<Rule>, text: string)
    ensures IsSubsequence(Categories(rules, text), ["pixnet"] + Names(rules))
    decreases |rules|
  {
    if |rules| == 0 {
      assert ["pixnet"][1..] == [];
    } else {
      var init := rules[..|rules| - 1];
      var rule := rules[|rules| - 1];
      CategoriesInRuleOrder(init, text);
      assert ["pixnet"] + Names(rules) == (["pixnet"] + Names(init)) + [rule.0];
      var r := Categories(init, text);
      if Mentions(text, rule.1) && rule.0 !in r {
        SubsequenceAppendBoth(r, ["pixnet"] + Names(init), rule.0);
      } else {
        SubsequenceAppendRight(r, ["pixnet"] + Names(init), rule.0);
      }
    }
  }

  /** `title + ' ' + content.substring(0, 500)`: what the keywords are looked for in. */
  function SearchText(title: string, content: string): string {
    title + " " + content[..if |content| < 500 then |content| else 500]
  }

  /** `categorizePost`: the tags the keyword table gives a post. */
  method CategorizePost(title: string, content: string) returns (tags: seq<string>)
    ensures tags == Categories(CategoryKeywords, SearchText(title, content))
  {
    tags := CategorizeBy(CategoryKeywords, title, content);
  }

  /** The loops of `categorizePost` over a table of rules: for each rule, the keywords
      are tried in order and the first one found adds the category to the set. */
  method CategorizeBy(rules: seq<Rule>, title: string, content: string) returns (tags: seq<string>)
    ensures tags == Categories(rules, SearchText(title, content))
  {
    tags := ["pixnet"];
    var text := SearchText(title, content);
    var i := 0;
    while i < |rules|
      invariant i <= |rules|
      invariant tags == Categories(rules[..i], text)
    {
      var category, keywords := rules[i].0, rules[i].1;
      assert rules[..i + 1][..i] == rules[..i];
      var j := 0;
      while j < |keywords|
        invariant j <= |keywords|
        invariant tags == Categories(rules[..i], text)
        invariant forall k <- keywords[..j] :: !Contains(text, k)
      {
        if Contains(text, keywords[j]) {
          if category !in tags {
            tags := tags + [category];
          }
          break;
        }
        assert keywords[..j + 1] == keywords[..j] + [keywords[j]];
        j := j + 1;
      }
      if j == |keywords| {
        assert keywords[..j] == keywords;
      }
      i := i + 1;
    }
    assert rules[..i] == rules;
  }

  // ---------------------------------------------------------------------------
  // processPost

  predicate NotQuote(c: char) {
    !IsQuote(c)
  }

  /** `t.trim().replace(/["']/g, '')`: one item of the list, every quote removed. */
  function LooseItem(piece: string): (r: string)
    ensures forall c <- r :: !IsQuote(c)
  {
    Filter(Trim(piece), NotQuote)
  }

  /** The tags the post already has: the items of its first one-line tag list
      (`/tags:\s*\[(.+?)\]/`), empty ones included, or `pixnet` alone. */
  function CurrentTags(content: string): seq<string> {
    var m := TagsMatch(content, true);
    if m.Some? then
      var pieces := Split(content[m.value.open..m.value.close], ',');
      seq(|pieces|, i requires 0 <= i < |pieces| => LooseItem(pieces[i]))
    else ["pixnet"]
  }

  // `/(date:\s*.+?\n)/`: the index just after the date line

  /** `.+?\n` from `base + w`, giving back white space from `w` down to 0 as the engine
      does after `\s*` took `w` characters. */
  function DateBack(s: string, base: nat, w: nat): (r: Option<nat>)
    ensures r.Some? ==> base < r.value <= |s| && s[r.value - 1] == '\n'
    decreases w
  {
    var b := base + w;
    var e := if b < |s| && !IsLineTerminator(s[b]) then LazyUntil(s, b + 1, {'\n'}, false) else None;
    if e.Some? then Some(e.value + 1)
    else if w == 0 then None
    else DateBack(s, base, w - 1)
  }

  function DateAt(s: string, p: nat): (r: Option<nat>)
    ensures r.Some? ==> p < r.value <= |s| && s[r.value - 1] == '\n'
  {
    if MatchesAt(s, p, "date:") then DateBack(s, p + 5, SpaceRun(s, p + 5)) else None
  }

  function DateFrom(s: string, p: nat): (r: Option<nat>)
    ensures r.Some? ==> p < r.value <= |s| && s[r.value - 1] == '\n'
    decreases |s| - p
  {
    if p > |s| then None
    else
      var e := DateAt(s, p);
      if e.Some? then e else DateFrom(s, p + 1)
  }

  /** Where the first date line of the post ends (just after its newline), if it has one. */
  function DateLineEnd(s: string): (r: Option<nat>)
    ensures r.Some? ==> 0 < r.value <= |s| && s[r.value - 1] == '\n'
  {
    DateFrom(s, 0)
  }

  /** A post that opens with a one-line date gets its tag line right after it. */
  lemma DateLineOfPost(d: string, rest: string)
    requires |d| > 0 && OneLine(d) && !IsSpace(d[0])
    ensures DateLineEnd("date: " + d + "\n" + rest) == Some(7 + |d|)
  {
    var s := "date: " + d + "\n" + rest;
    assert MatchesAt(s, 0, "date:") by { assert s[..5] == "date:"; }
    assert s[5] == ' ' && s[6] == d[0];
    assert SpaceRun(s, 6) == 0;
    assert SpaceRun(s, 5) == 1;
    forall k | 7 <= k < 6 + |d|
      ensures s[k] != '\n' && !IsLineTerminator(s[k])
    {
      assert s[k] == d[k - 6] && d[k - 6] in d;
    }
    assert s[6 + |d|] == '\n';
    LazyUntilReaches(s, 7, 6 + |d|, {'\n'}, false);
  }

  /** `content.replace(/(date:\s*.+?\n)/, `$1${line}`)`: `line` put after the first date
      line; a post without one is returned as it is. */
  function InsertAfterDate(content: string, line: string): string {
    var e := DateLineEnd(content);
    if e.Some? then content[..e.value] + line + content[e.value..] else content
  }

  /** What `processPost` reports, with the new text when it writes the post. */
  datatype PostResult =
    | NoTitle
    | Unchanged(tags: seq<string>)
    | Modified(content: string, tags: seq<string>, title: string)

  /** The tags `categorizePost` gives a post with this title. */
  function NewTags(title: string, content: string): seq<string> {
    Categories(CategoryKeywords, SearchText(title, content))
  }

  /** `processPost` on the text of a post, as a function of that text. */
  function PostOutcome(content: string): PostResult {
    var title := TitleOf(content);
    if title.None? then NoTitle
    else
      var current := CurrentTags(content);
      var merged := Dedupe(current + NewTags(title.value, content));
      var sortedCurrent := SortStrings(current);
      var sortedMerged := SortStrings(merged);
      if sortedCurrent == sortedMerged then Unchanged(sortedCurrent)
      else
        var line := "tags: [" + TagListText(sortedMerged) + "]";
        var m := TagsMatch(content, true);
        var written := if m.Some? then ReplaceSpan(content, m.value, line)
                       else InsertAfterDate(content, line + "\n");
        Modified(written, sortedMerged, title.value)
  }

  /** `processPost`: reads the title and the current tags, categorises the post, and
      rewrites it when the merged list differs from the current one. */
  method ProcessPost(content: string) returns (r: PostResult)
    ensures r == PostOutcome(content)
  {
    var title := TitleOf(content);
    if title.None? {
      return NoTitle;
    }
    var current := CurrentTags(content);
    var newTags := CategorizePost(title.value, content);
    var merged := Dedupe(current + newTags);
    current := SortStrings(current);
    merged := SortStrings(merged);
    if current == merged {
      return Unchanged(current);
    }
    var line := "tags: [" + TagListText(merged) + "]";
    var m := TagsMatch(content, true);
    var written: string;
    if m.Some? {
      written := ReplaceSpan(content, m.value, line);
    } else {
      written := InsertAfterDate(content, line + "\n");
    }
    r := Modified(written, merged, title.value);
  }

  /** A post is left alone exactly when it has no title, or when its tags have no
      repetition and already include every category it earns; otherwise the list written
      is sorted, has no repetition, and holds exactly the current and the earned tags. */
  lemma PostOutcomeFacts(content: string)
    ensures PostOutcome(content).NoTitle? <==> TitleOf(content).None?
    ensures TitleOf(content).Some? ==>
              var current := CurrentTags(content);
              var earned := NewTags(TitleOf(content).value, content);
              (PostOutcome(content).Unchanged? <==> Distinct(current) && forall t <- earned :: t in current)
              && (PostOutcome(content).Unchanged? ==> PostOutcome(content).tags == SortStrings(current))
              && (PostOutcome(content).Modified? ==>
                    var tags := PostOutcome(content).tags;
                    SortedStrings(tags) && Distinct(tags)
                    && forall t :: t in tags <==> t in current || t in earned)
  {
    if TitleOf(content).Some? {
      var current := CurrentTags(content);
      var earned := NewTags(TitleOf(content).value, content);
      var merged := Dedupe(current + earned);
      SortEqualIffSameMultiset(current, merged);
      MergeUnchangedIff(current, earned);
      var tags := SortStrings(merged);
      SameMultisetDistinct(merged, tags);
      forall t
        ensures t in tags <==> t in merged
      {
        assert t in tags <==> t in multiset(tags);
        assert t in merged <==> t in multiset(merged);
      }
    }
  }

  /** `tags: []` at the end of a line is not a tag list to this pattern, since `(.+?)`
      needs a character before the `]`: such a post counts as having no tags, and its
      merged list goes in as a second tag line after the date. */
  lemma EmptyListUnmatched(s: string, p: nat)
    requires MatchesAt(s, p, "tags: []") && (p + 8 == |s| || IsLineTerminator(s[p + 8]))
    ensures TagsAt(s, p, true).None?
  {
    assert s[p..p + 8][5] == s[p + 5] == ' ';
    assert s[p..p + 8][6] == s[p + 6] == '[';
    assert s[p..p + 8][7] == s[p + 7] == ']';
    assert s[p..p + 8][..5] == s[p..p + 5];
    assert SpaceRun(s, p + 6) == 0;
  }
}
