/** The front-matter updater: business hours, a closed flag and a PIXNET category are
    added to a post's front matter when it lacks them, and the categories and tags the
    post has on PIXNET are merged into its tag list. */
module UpdateFrontmatter {
  import opened Wrappers
  import opened Text
  import opened Scanners

  // ---------------------------------------------------------------------------
  // normalizeBusinessHours

  /** `normalizeBusinessHours`: the hours text without surrounding white space, or `None`
      when nothing else is left (an empty text included). */
  function NormalizeBusinessHours(hours: string): (r: Option<string>)
    ensures r.None? <==> AllSpace(hours)
    ensures r.Some? ==> r.value != "" && !IsSpace(r.value[0]) && !IsSpace(r.value[|r.value| - 1])
  {
    TrimEmptyIffAllSpace(hours);
    var cleaned := Trim(hours);
    if |cleaned| > 0 then Some(cleaned) else None
  }

  /** Normalizing normalized hours changes nothing. */
  lemma NormalizeIdempotent(hours: string)
    requires NormalizeBusinessHours(hours).Some?
    ensures NormalizeBusinessHours(NormalizeBusinessHours(hours).value) == NormalizeBusinessHours(hours)
  {
    TrimIdempotent(hours);
  }

  // ---------------------------------------------------------------------------
  // the fields added when missing

  /** What `main` hands to `updateFrontmatter` for one post. An empty string or list
      stands for a field that is absent (or, for a string, falsy). */
  datatype Updates = Updates(businessHours: string, isPermanentlyClosed: bool,
                             pixnetCategory: string, pixnetCategories: seq<string>)

  /** `if (given && !frontmatter.includes(key)) frontmatter += "\n" + line`. */
  function AddField(fm: string, given: bool, key: string, line: string): string {
    if given && !Contains(fm, key) then fm + "\n" + line else fm
  }

  function HoursLine(hours: string): string {
    "businessHours: \"" + hours + "\""
  }

  const ClosedLine: string := "isPermanentlyClosed: true"

  function CategoryLine(category: string): string {
    "pixnetCategory: \"" + category + "\""
  }

  /** The three additions in the order the function makes them; each looks for its key in
      the front matter as the previous ones left it. */
  function WithFields(fm: string, u: Updates): string {
    var a := AddField(fm, u.businessHours != "", "businessHours:", HoursLine(u.businessHours));
    var b := AddField(a, u.isPermanentlyClosed, "isPermanentlyClosed:", ClosedLine);
    AddField(b, u.pixnetCategory != "", "pixnetCategory:", CategoryLine(u.pixnetCategory))
  }

  /** Text appended after `s` keeps everything `s` contains. */
  lemma ContainsExtended(s: string, pat: string, post: string)
    requires Contains(s, pat)
    ensures Contains(s + post, pat)
  {
    ContainsInContext(s, pat, "", post);
    assert "" + s + post == s + post;
  }

  /** An addition keeps the front matter it extends, leaves the key present when the
      value is given, changes something exactly when the value is given and the key
      missing, and a second addition of the same field changes nothing. */
  lemma AddFieldFacts(fm: string, given: bool, key: string, line: string)
    requires StartsWith(line, key)
    ensures var r := AddField(fm, given, key, line);
            StartsWith(r, fm)
            && (given ==> Contains(r, key))
            && (r != fm <==> given && !Contains(fm, key))
            && AddField(r, given, key, line) == r
  {
    var r := AddField(fm, given, key, line);
    if given && !Contains(fm, key) {
      assert r[|fm| + 1..|fm| + 1 + |key|] == key;
      assert MatchesAt(r, |fm| + 1, key);
    }
    assert r[..|fm|] == fm;
  }

  /** `WithFields` keeps the front matter it extends, leaves every given key present, adds
      nothing when run again, and changes nothing exactly when every given key is already
      there. */
  lemma WithFieldsFacts(fm: string, u: Updates)
    ensures var r := WithFields(fm, u);
            StartsWith(r, fm)
            && (u.businessHours != "" ==> Contains(r, "businessHours:"))
            && (u.isPermanentlyClosed ==> Contains(r, "isPermanentlyClosed:"))
            && (u.pixnetCategory != "" ==> Contains(r, "pixnetCategory:"))
            && WithFields(r, u) == r
    ensures WithFields(fm, u) == fm
            <==> (u.businessHours == "" || Contains(fm, "businessHours:"))
                 && (!u.isPermanentlyClosed || Contains(fm, "isPermanentlyClosed:"))
                 && (u.pixnetCategory == "" || Contains(fm, "pixnetCategory:"))
  {
    var l1, l3 := HoursLine(u.businessHours), CategoryLine(u.pixnetCategory);
    assert StartsWith(l1, "businessHours:") && StartsWith(l3, "pixnetCategory:");
    assert StartsWith(ClosedLine, "isPermanentlyClosed:");
    var a := AddField(fm, u.businessHours != "", "businessHours:", l1);
    var b := AddField(a, u.isPermanentlyClosed, "isPermanentlyClosed:", ClosedLine);
    var r := AddField(b, u.pixnetCategory != "", "pixnetCategory:", l3);
    AddFieldFacts(fm, u.businessHours != "", "businessHours:", l1);
    AddFieldFacts(a, u.isPermanentlyClosed, "isPermanentlyClosed:", ClosedLine);
    AddFieldFacts(b, u.pixnetCategory != "", "pixnetCategory:", l3);
    KeptByAddField(a, b, r, "businessHours:");
    KeptByAddField(b, r, r, "isPermanentlyClosed:");
    StartsWithTrans(fm, a, b, r);
  }

  /** A key present in `a` is still present in what extends it. */
  lemma KeptByAddField(a: string, b: string, r: string, key: string)
    requires StartsWith(b, a) && StartsWith(r, b)
    ensures Contains(a, key) ==> Contains(b, key) && Contains(r, key)
  {
    if Contains(a, key) {
      assert b == a + b[|a|..];
      ContainsExtended(a, key, b[|a|..]);
      assert r == b + r[|b|..];
      ContainsExtended(b, key, r[|b|..]);
    }
  }

  lemma StartsWithTrans(fm: string, a: string, b: string, r: string)
    requires StartsWith(a, fm) && StartsWith(b, a) && StartsWith(r, b)
    ensures StartsWith(r, fm)
  {
    assert r[..|fm|] == r[..|b|][..|a|][..|fm|];
  }

  // ---------------------------------------------------------------------------
  // the tag merge

  /** The tags the function finds: the text of the first `/tags:\s*\[(.*?)\]/s` match,
      split on commas, each piece trimmed and unquoted; none when there is no match or
      the text is blank. Empty items are kept. */
  function ExistingTags(fm: string): seq<string> {
    var m := TagsMatch(fm, false);
    if m.Some? && Trim(fm[m.value.open..m.value.close]) != [] then TagItems(fm[m.value.open..m.value.close])
    else []
  }

  /** `combined.sort()`: the sorted union of the existing and the new tags, which
      `.sort()` leaves in `combined` and which is what gets written. */
  function MergedList(fm: string, cats: seq<string>): seq<string> {
    SortStrings(Dedupe(ExistingTags(fm) + cats))
  }

  /** The tag step: `None` when the new tags are empty or the sorted lists agree,
      otherwise the front matter with the merged list written over the first tag list, or
      appended on a line of its own when there is none. */
  function MergeTags(fm: string, cats: seq<string>): Option<string> {
    if |cats| == 0 then None
    else
      var existing := ExistingTags(fm);
      if SortStrings(existing) == SortStrings(Dedupe(existing + cats)) then None
      else
        var written := MergedList(fm, cats);
        if TagsMatch(fm, false).Some? then Some(RewriteTags(fm, written))
        else Some(fm + "\ntags: [" + TagListText(written) + "]")
  }

  /** The list is rewritten exactly when there are new tags and the existing list either
      repeats a tag or lacks one of the new ones. */
  lemma MergeTagsWhen(fm: string, cats: seq<string>)
    ensures MergeTags(fm, cats).Some?
            <==> |cats| > 0 && !(Distinct(ExistingTags(fm)) && forall c <- cats :: c in ExistingTags(fm))
  {
    var existing := ExistingTags(fm);
    SortEqualIffSameMultiset(existing, Dedupe(existing + cats));
    MergeUnchangedIff(existing, cats);
  }

  /** The list written is sorted, has no repetition, and holds exactly the existing tags
      and the new ones: no existing tag is lost. */
  lemma MergedListFacts(fm: string, cats: seq<string>)
    ensures var w := MergedList(fm, cats);
            SortedStrings(w) && Distinct(w)
            && forall t :: t in w <==> t in ExistingTags(fm) || t in cats
  {
    var existing := ExistingTags(fm);
    var d := Dedupe(existing + cats);
    var w := MergedList(fm, cats);
    SameMultisetDistinct(d, w);
    forall t
      ensures t in w <==> t in existing || t in cats
    {
      assert t in w <==> t in multiset(w);
      assert t in d <==> t in multiset(d);
      assert t in existing + cats <==> t in existing || t in cats;
    }
  }

  /** An existing tag holds neither a comma nor a `]`. */
  lemma ExistingTagsClean(fm: string)
    ensures forall t <- ExistingTags(fm) :: ',' !in t && ']' !in t
  {
    var m := TagsMatch(fm, false);
    if m.Some? && Trim(fm[m.value.open..m.value.close]) != [] {
      MatchedTextLacksBracket(fm, m.value);
      TagItemsClean(fm[m.value.open..m.value.close], ']');
    }
  }

  /** A non-empty list of tags without commas or `]` is written as a text that is not
      blank, holds no `]`, and splits back into the tags. */
  lemma ListTextItems(w: seq<string>, text: string)
    requires |w| > 0 && forall t <- w :: ',' !in t && ']' !in t
    requires text == TagListText(w)
    ensures ']' !in text && Trim(text) != [] && TagItems(text) == w
  {
    TagListLacks(w, ']');
    TagItemsOfList(w);
    assert Quoted(w)[0] == QuoteTag(w[0]);
    assert text[0] == '"';
    TrimEmptyIffAllSpace(text);
  }

  /** The merged list holds no comma or `]` when the new tags hold none, and is not
      empty when they are not. */
  lemma MergedListClean(fm: string, cats: seq<string>)
    requires |cats| > 0 && forall c <- cats :: ',' !in c && ']' !in c
    ensures var w := MergedList(fm, cats);
            |w| > 0 && forall t <- w :: ',' !in t && ']' !in t
  {
    MergedListFacts(fm, cats);
    ExistingTagsClean(fm);
    assert cats[0] in MergedList(fm, cats);
  }

  /** After the merge rewrites an existing tag list, the tags found in it are the merged
      list, and merging the same tags again leaves the front matter alone. */
  lemma MergeTagsTwice(fm: string, cats: seq<string>)
    requires MergeTags(fm, cats).Some? && TagsMatch(fm, false).Some?
    requires forall c <- cats :: ',' !in c && ']' !in c
    ensures ExistingTags(MergeTags(fm, cats).value) == MergedList(fm, cats)
    ensures MergeTags(MergeTags(fm, cats).value, cats).None?
  {
    var w := MergedList(fm, cats);
    MergedListClean(fm, cats);
    RewrittenExisting(fm, w);
    assert MergeTags(fm, cats) == Some(RewriteTags(fm, w));
    MergeSettled(RewriteTags(fm, w), fm, cats);
  }

  /** After the merge appends a tag list to front matter without any `tags:`, the tags
      found are the merged list, and merging the same tags again leaves it alone. */
  lemma MergeTagsAppendedTwice(fm: string, cats: seq<string>)
    requires MergeTags(fm, cats).Some? && !Contains(fm, "tags:")
    requires forall c <- cats :: ',' !in c && ']' !in c
    ensures ExistingTags(MergeTags(fm, cats).value) == MergedList(fm, cats)
    ensures MergeTags(MergeTags(fm, cats).value, cats).None?
  {
    var w := MergedList(fm, cats);
    MergedListClean(fm, cats);
    AppendedExisting(fm, w);
    TagsFromLeftmost(fm, 0, false);
    assert TagsMatch(fm, false).None?;
    var g := fm + "\ntags: [" + TagListText(w) + "]";
    assert MergeTags(fm, cats) == Some(g);
    MergeSettled(g, fm, cats);
  }

  /** A list written over the first tag list is the one found there afterwards. */
  lemma RewrittenExisting(fm: string, w: seq<string>)
    requires TagsMatch(fm, false).Some?
    requires |w| > 0 && forall t <- w :: ',' !in t && ']' !in t
    ensures ExistingTags(RewriteTags(fm, w)) == w
  {
    var text := TagListText(w);
    ListTextItems(w, text);
    var m := TagsMatch(fm, false).value;
    ReplacedExisting(fm, m, text, w, RewriteTags(fm, w));
  }

  /** The tags found once the first match is replaced by a list holding `text`. */
  lemma ReplacedExisting(fm: string, m: Span, text: string, w: seq<string>, r: string)
    requires TagsMatch(fm, false) == Some(m) && ']' !in text
    requires Trim(text) != [] && TagItems(text) == w
    requires r == ReplaceSpan(fm, m, "tags: [" + text + "]")
    ensures ExistingTags(r) == w
  {
    TagsRefind(fm, text, m, r);
    ExistingAt(r, m.start, text, w);
  }

  /** A list appended on its own line to text without `tags:` is the one found. */
  lemma AppendedExisting(fm: string, w: seq<string>)
    requires !Contains(fm, "tags:")
    requires |w| > 0 && forall t <- w :: ',' !in t && ']' !in t
    ensures ExistingTags(fm + "\ntags: [" + TagListText(w) + "]") == w
  {
    var text := TagListText(w);
    ListTextItems(w, text);
    var r := fm + "\ntags: [" + text + "]";
    var st := |fm| + 1;
    AppendedListFound(fm, text, r, st);
    assert TagsMatch(r, false) == Some(Span(st, st + 7, st + 7 + |text|));
    assert st + 7 + |text| <= |r|;
    assert r[st + 7..st + 7 + |text|] == text;
    assert Trim(text) != [] && TagItems(text) == w;
    ExistingAt(r, st, text, w);
  }

  /** The tags found where the first match holds the text of a written list. */
  lemma ExistingAt(r: string, st: nat, text: string, w: seq<string>)
    requires TagsMatch(r, false) == Some(Span(st, st + 7, st + 7 + |text|))
    requires st + 7 + |text| <= |r| && r[st + 7..st + 7 + |text|] == text
    requires Trim(text) != [] && TagItems(text) == w
    ensures ExistingTags(r) == w
  {
    var m := TagsMatch(r, false).value;
    assert r[m.open..m.close] == text;
  }

  /** A list appended on its own line to text without `tags:` is the first match. */
  lemma AppendedListFound(fm: string, text: string, r: string, st: nat)
    requires !Contains(fm, "tags:") && ']' !in text
    requires r == fm + "\ntags: [" + text + "]" && st == |fm| + 1
    ensures TagsMatch(r, false) == Some(Span(st, st + 7, st + 7 + |text|))
    ensures st + 7 + |text| <= |r| && r[st + 7..st + 7 + |text|] == text
  {
    assert r[st..st + 8 + |text|] == "tags: [" + text + "]";
    TagsAtRewritten(r, st, text);
    forall q | 0 <= q < st
      ensures TagsAt(r, q, false).None?
    {
      if q + 5 <= |r| {
        if q + 5 <= |fm| {
          assert r[q..q + 5] == fm[q..q + 5];
          assert !MatchesAt(fm, q, "tags:");
        } else {
          assert r[q..q + 5][|fm| - q] == '\n';
        }
      }
    }
    TagsFromSkips(r, 0, st);
  }

  /** Front matter whose existing tags are the merged list of `fm` is left alone by a
      merge of the same tags. */
  lemma MergeSettled(g: string, fm: string, cats: seq<string>)
    requires |cats| > 0 && ExistingTags(g) == MergedList(fm, cats)
    ensures MergeTags(g, cats).None?
  {
    var w := MergedList(fm, cats);
    MergedListFacts(fm, cats);
    MergeTagsWhen(g, cats);
  }

  // ---------------------------------------------------------------------------
  // updateFrontmatter

  /** What `updateFrontmatter` does to a post: nothing without an opening `---`
      (`No frontmatter`) or without a second `---` (`Invalid frontmatter`), nothing when
      no step changed the front matter, otherwise the text it writes. */
  datatype Outcome = NoFrontmatter | InvalidFrontmatter | Unmodified | Written(content: string)

  /** `content.indexOf('---', 3)`: where the front matter ends and the body starts. */
  function Closing(content: string): int {
    IndexOfFrom(content, "---", 3)
  }

  /** The new front matter: the fields added, then the tags merged. */
  function NewFrontMatter(fm: string, u: Updates): string {
    var f := WithFields(fm, u);
    var m := MergeTags(f, u.pixnetCategories);
    if m.Some? then m.value else f
  }

  function UpdateOutcome(content: string, u: Updates): Outcome {
    if !StartsWith(content, "---") then NoFrontmatter
    else if Closing(content) < 0 then InvalidFrontmatter
    else
      var fm := Trim(content[3..Closing(content)]);
      var f := WithFields(fm, u);
      if f == fm && MergeTags(f, u.pixnetCategories).None? then Unmodified
      else Written("---\n" + NewFrontMatter(fm, u) + "\n" + content[Closing(content)..])
  }

  /** `updateFrontmatter` on the text of a post, step by step as the function reassigns
      its front matter and its `modified` flag. */
  method UpdateFrontmatterText(content: string, u: Updates) returns (r: Outcome)
    ensures r == UpdateOutcome(content, u)
  {
    if !StartsWith(content, "---") {
      return NoFrontmatter;
    }
    var endOfFrontmatter := IndexOfFrom(content, "---", 3);
    if endOfFrontmatter == -1 {
      return InvalidFrontmatter;
    }
    var frontmatter := Trim(content[3..endOfFrontmatter]);
    var body := content[endOfFrontmatter..];
    var modified, changed;
    frontmatter, modified := AddMissingFields(frontmatter, u);
    frontmatter, changed := MergeCategories(frontmatter, u.pixnetCategories);
    if modified || changed {
      r := Written("---\n" + frontmatter + "\n" + body);
    } else {
      r := Unmodified;
    }
  }

  /** The three additions of `updateFrontmatter`, with the flag they raise. */
  method AddMissingFields(fm: string, u: Updates) returns (frontmatter: string, modified: bool)
    ensures frontmatter == WithFields(fm, u)
    ensures modified <==> frontmatter != fm
  {
    frontmatter, modified := fm, false;
    if u.businessHours != "" && !Contains(frontmatter, "businessHours:") {
      frontmatter := frontmatter + "\n" + HoursLine(u.businessHours);
      modified := true;
    }
    if u.isPermanentlyClosed && !Contains(frontmatter, "isPermanentlyClosed:") {
      frontmatter := frontmatter + "\n" + ClosedLine;
      modified := true;
    }
    if u.pixnetCategory != "" && !Contains(frontmatter, "pixnetCategory:") {
      frontmatter := frontmatter + "\n" + CategoryLine(u.pixnetCategory);
      modified := true;
    }
    assert modified ==> |frontmatter| > |fm|;
  }

  /** The tag merge of `updateFrontmatter`, with whether it changed the front matter. */
  method MergeCategories(fm: string, cats: seq<string>) returns (frontmatter: string, changed: bool)
    ensures changed <==> MergeTags(fm, cats).Some?
    ensures changed ==> frontmatter == MergeTags(fm, cats).value
    ensures !changed ==> frontmatter == fm
  {
    frontmatter, changed := fm, false;
    if |cats| > 0 {
      var existingTags := ExistingTags(frontmatter);
      var combined := Dedupe(existingTags + cats);
      if SortStrings(existingTags) != SortStrings(combined) {
        var sorted := SortStrings(combined);
        if TagsMatch(frontmatter, false).Some? {
          frontmatter := RewriteTags(frontmatter, sorted);
        } else {
          frontmatter := frontmatter + "\ntags: [" + TagListText(sorted) + "]";
        }
        changed := true;
      }
    }
  }

  /** The two refusals happen exactly without an opening `---` or without a later
      one. */
  lemma RefusalsWhen(content: string, u: Updates)
    ensures UpdateOutcome(content, u) == NoFrontmatter <==> !StartsWith(content, "---")
    ensures UpdateOutcome(content, u) == InvalidFrontmatter
            <==> StartsWith(content, "---") && forall i | 3 <= i :: !MatchesAt(content, i, "---")
  {
    if StartsWith(content, "---") && Closing(content) >= 0 {
      assert MatchesAt(content, Closing(content), "---");
    }
  }

  /** A written post starts with `---` and a line break, then the new front matter, and
      ends with the original body from the closing `---` on. */
  lemma WrittenKeepsBody(content: string, u: Updates)
    requires UpdateOutcome(content, u).Written?
    ensures var c := UpdateOutcome(content, u).content;
            StartsWith(c, "---\n") && EndsWith(c, content[Closing(content)..])
  {
    var w := "---\n" + NewFrontMatter(Trim(content[3..Closing(content)]), u) + "\n";
    var body := content[Closing(content)..];
    assert (w + body)[|w|..] == body;
    assert (w + body)[..4] == "---\n";
  }

  /** Nothing is written exactly when every given field is already present and the tags
      need no merge. */
  lemma UnmodifiedWhen(content: string, u: Updates)
    requires StartsWith(content, "---") && Closing(content) >= 0
    ensures var fm := Trim(content[3..Closing(content)]);
            UpdateOutcome(content, u) == Unmodified
            <==> (u.businessHours == "" || Contains(fm, "businessHours:"))
                 && (!u.isPermanentlyClosed || Contains(fm, "isPermanentlyClosed:"))
                 && (u.pixnetCategory == "" || Contains(fm, "pixnetCategory:"))
                 && MergeTags(fm, u.pixnetCategories).None?
  {
    WithFieldsFacts(Trim(content[3..Closing(content)]), u);
  }

  // ---------------------------------------------------------------------------
  // main

  /** One entry of `pixnet_categories.json`; absent fields are empty. */
  datatype Article = Article(id: string, businessHours: string, isPermanentlyClosed: bool,
                             pixnetCategories: seq<string>, pixnetTags: seq<string>)

  /** `dataMap` after `dataMap.set(article.id, article)` for each article in turn. */
  function DataMap(articles: seq<Article>): map<string, Article>
    decreases |articles|
  {
    if |articles| == 0 then map[]
    else
      var last := articles[|articles| - 1];
      DataMap(articles[..|articles| - 1])[last.id := last]
  }

  /** `main` filling `dataMap`. */
  method BuildDataMap(articles: seq<Article>) returns (m: map<string, Article>)
    ensures m == DataMap(articles)
  {
    m := map[];
    for i := 0 to |articles|
      invariant m == DataMap(articles[..i])
    {
      assert articles[..i + 1][..i] == articles[..i];
      m := m[articles[i].id := articles[i]];
    }
    assert articles[..|articles|] == articles;
  }

  /** No article after the `k`-th has its id. */
  predicate LastWithId(articles: seq<Article>, k: nat)
    requires k < |articles|
  {
    forall j | k < j < |articles| :: articles[j].id != articles[k].id
  }

  /** An id is a key of the map exactly when some article has it. */
  lemma {:induction false} DataMapKeys(articles: seq<Article>, id: string)
    ensures id in DataMap(articles) <==> exists k | 0 <= k < |articles| :: articles[k].id == id
    decreases |articles|
  {
    if |articles| > 0 {
      var n := |articles| - 1;
      var init := articles[..n];
      DataMapKeys(init, id);
      if exists k | 0 <= k < |articles| :: articles[k].id == id {
        var k :| 0 <= k < |articles| && articles[k].id == id;
        if k < n {
          assert init[k].id == id;
        }
      }
      if exists k | 0 <= k < n :: init[k].id == id {
        var k :| 0 <= k < n && init[k].id == id;
        assert articles[k].id == id;
      }
    }
  }

  /** Under the id of an article no later article shares, the map holds that article. */
  lemma {:induction false} DataMapLast(articles: seq<Article>, k: nat)
    requires k < |articles| && LastWithId(articles, k)
    ensures articles[k].id in DataMap(articles) && DataMap(articles)[articles[k].id] == articles[k]
    decreases |articles|
  {
    var n := |articles| - 1;
    if k < n {
      var init := articles[..n];
      assert LastWithId(init, k) by {
        forall j | k < j < n
          ensures init[j].id != init[k].id
        {
          assert init[j] == articles[j];
        }
      }
      DataMapLast(init, k);
      assert articles[n].id != articles[k].id;
    }
  }

  /** `file.replace('.md', '')`: the id a post file is looked up by. */
  function IdOf(file: string): string {
    ReplaceFirst(file, ".md", "")
  }

  /** A post file named after an id without a dot maps back to that id. */
  lemma IdOfPostFile(id: string)
    requires '.' !in id
    ensures IdOf(id + ".md") == id
  {
    var f := id + ".md";
    forall i | 0 <= i < |id|
      ensures !MatchesAt(f, i, ".md")
    {
      assert f[i] == id[i];
    }
    assert f[|id|..|id| + 3] == ".md";
    IndexOfFromFirst(f, ".md", 0, |id|);
    assert f[..|id|] == id;
  }

  /** `[...new Set([...pixnetCategories, ...pixnetTags])]`. */
  function SourceTags(a: Article): seq<string> {
    Dedupe(a.pixnetCategories + a.pixnetTags)
  }

  /** The source tags hold each category and tag once, the categories first. */
  lemma SourceTagsFacts(a: Article)
    ensures var r := SourceTags(a);
            Distinct(r) && (forall t :: t in r <==> t in a.pixnetCategories || t in a.pixnetTags)
            && |Dedupe(a.pixnetCategories)| <= |r| && r[..|Dedupe(a.pixnetCategories)|] == Dedupe(a.pixnetCategories)
  {
    DedupeAppend(a.pixnetCategories, a.pixnetTags);
    var r := SourceTags(a);
    forall t
      ensures t in r <==> t in a.pixnetCategories || t in a.pixnetTags
    {
      assert t in a.pixnetCategories + a.pixnetTags <==> t in a.pixnetCategories || t in a.pixnetTags;
    }
  }

  /** The updates `main` builds for an article, `None` when it has none (and
      `updateFrontmatter` is not called). */
  function UpdatesFor(a: Article): Option<Updates> {
    var hours := if a.businessHours != "" then NormalizeBusinessHours(a.businessHours) else None;
    var tags := SourceTags(a);
    if hours.None? && !a.isPermanentlyClosed && |tags| == 0 then None
    else Some(Updates(if hours.Some? then hours.value else "", a.isPermanentlyClosed, "", tags))
  }

  /** An article yields updates exactly when its hours are not blank, it is closed, or it
      has a category or a tag; the hours passed on are trimmed, and the tags are its
      source tags. */
  lemma UpdatesForFacts(a: Article)
    ensures UpdatesFor(a).None?
            <==> AllSpace(a.businessHours) && !a.isPermanentlyClosed && a.pixnetCategories == [] && a.pixnetTags == []
    ensures UpdatesFor(a).Some? ==>
              var u := UpdatesFor(a).value;
              (u.businessHours == "" <==> AllSpace(a.businessHours))
              && (u.businessHours != "" ==> Some(u.businessHours) == NormalizeBusinessHours(a.businessHours))
              && u.isPermanentlyClosed == a.isPermanentlyClosed && u.pixnetCategory == ""
              && u.pixnetCategories == SourceTags(a)
  {
    SourceTagsFacts(a);
  }

  /** The updates for one post file, looked up by its id. */
  function PostUpdates(file: string, data: map<string, Article>): Option<Updates> {
    var id := IdOf(file);
    if id !in data then None else UpdatesFor(data[id])
  }

  /** A directory entry: its file name and its text. */
  datatype PostFile = PostFile(name: string, content: string)

  predicate IsMarkdown(f: PostFile) {
    EndsWith(f.name, ".md")
  }

  /** The text `main` writes for a post: `None` when no article has its id, the article
      yields no updates, or `updateFrontmatter` changes nothing. */
  function WriteFor(f: PostFile, data: map<string, Article>): Option<string> {
    var u := PostUpdates(f.name, data);
    if u.None? then None
    else
      var o := UpdateOutcome(f.content, u.value);
      if o.Written? then Some(o.content) else None
  }

  /** A post as `main` leaves it. */
  function AfterMain(f: PostFile, data: map<string, Article>): PostFile {
    var w := WriteFor(f, data);
    if w.Some? then PostFile(f.name, w.value) else f
  }

  /** The three counters `main` reports. */
  datatype Tally = Updated | WithHours | WithClosed

  /** Whether a post raises a counter: it was written, its article has hours that are not
      blank, or its article is closed. */
  predicate Raises(c: Tally, f: PostFile, data: map<string, Article>) {
    var id := IdOf(f.name);
    match c
    case Updated => WriteFor(f, data).Some?
    case WithHours => id in data && !AllSpace(data[id].businessHours)
    case WithClosed => id in data && data[id].isPermanentlyClosed
  }

  /** How many of the posts raise the counter. */
  function CountOf(c: Tally, posts: seq<PostFile>, data: map<string, Article>): (n: nat)
    ensures n <= |posts|
  {
    if |posts| == 0 then 0
    else CountOf(c, posts[..|posts| - 1], data) + (if Raises(c, posts[|posts| - 1], data) then 1 else 0)
  }

  /** One more post counted. */
  lemma CountOfStep(c: Tally, posts: seq<PostFile>, i: nat, data: map<string, Article>)
    requires i < |posts|
    ensures CountOf(c, posts[..i + 1], data) == CountOf(c, posts[..i], data) + (if Raises(c, posts[i], data) then 1 else 0)
  {
    assert posts[..i + 1][..i] == posts[..i];
  }

  /** One pass of the loop of `main`: the post as it is left, and which counters it
      raises. */
  method UpdatePost(file: PostFile, data: map<string, Article>)
    returns (next: PostFile, written: bool, hours: bool, closed: bool)
    ensures next == AfterMain(file, data)
    ensures written == Raises(Updated, file, data)
    ensures hours == Raises(WithHours, file, data) && closed == Raises(WithClosed, file, data)
  {
    next, written, hours, closed := file, false, false, false;
    var id := IdOf(file.name);
    if id !in data {
      assert WriteFor(file, data).None?;
      return;
    }
    var articleData := data[id];
    if articleData.businessHours != "" && NormalizeBusinessHours(articleData.businessHours).Some? {
      hours := true;
    }
    closed := articleData.isPermanentlyClosed;
    var updates := UpdatesFor(articleData);
    assert PostUpdates(file.name, data) == updates;
    if updates.Some? {
      var result := UpdateFrontmatterText(file.content, updates.value);
      if result.Written? {
        next := PostFile(file.name, result.content);
        written := true;
      }
      assert WriteFor(file, data) == if result.Written? then Some(result.content) else None;
    }
  }

  /** The loop of `main` over the Markdown posts. */
  method UpdateEach(posts: seq<PostFile>, data: map<string, Article>)
    returns (after: seq<PostFile>, updated: nat, withHours: nat, withClosed: nat)
    ensures |after| == |posts| && forall i | 0 <= i < |posts| :: after[i] == AfterMain(posts[i], data)
    ensures updated == CountOf(Updated, posts, data)
    ensures withHours == CountOf(WithHours, posts, data) && withClosed == CountOf(WithClosed, posts, data)
  {
    after, updated, withHours, withClosed := [], 0, 0, 0;
    for i := 0 to |posts|
      invariant |after| == i && forall k | 0 <= k < i :: after[k] == AfterMain(posts[k], data)
      invariant updated == CountOf(Updated, posts[..i], data)
      invariant withHours == CountOf(WithHours, posts[..i], data)
      invariant withClosed == CountOf(WithClosed, posts[..i], data)
    {
      var next, written, hours, closed := UpdatePost(posts[i], data);
      CountOfStep(Updated, posts, i, data);
      CountOfStep(WithHours, posts, i, data);
      CountOfStep(WithClosed, posts, i, data);
      after := after + [next];
      updated := updated + (if written then 1 else 0);
      withHours := withHours + (if hours then 1 else 0);
      withClosed := withClosed + (if closed then 1 else 0);
    }
    assert posts[..|posts|] == posts;
  }

  /** `main` once `dataMap` is built: every Markdown post looked up by its id and updated
      when its article yields updates, with the three counts it prints. */
  method UpdatePosts(files: seq<PostFile>, data: map<string, Article>)
    returns (after: seq<PostFile>, updated: nat, withHours: nat, withClosed: nat)
    ensures var posts := Filter(files, IsMarkdown);
            |after| == |posts| && (forall i | 0 <= i < |posts| :: after[i] == AfterMain(posts[i], data))
            && updated == CountOf(Updated, posts, data)
            && withHours == CountOf(WithHours, posts, data)
            && withClosed == CountOf(WithClosed, posts, data)
  {
    var posts := Filter(files, IsMarkdown);
    after, updated, withHours, withClosed := UpdateEach(posts, data);
  }
}
