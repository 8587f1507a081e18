/** The tag restorer: the tags a post carries on its original PIXNET page are fetched,
    merged after the post's own English system tags, and written back when some of them
    are new. */
module FixTags {
  import opened Wrappers
  import opened Text
  import opened ArticleMarkdown
  import opened Scanners
  import opened FrontMatter
  import CleanLocationTags

  // ---------------------------------------------------------------------------
  // isExcludedTag and the candidate filter

  /** Generic and place tags that PIXNET shows on every page, and `pixnet` itself. */
  const ExcludedTags: seq<string> :=
    ["美食", "旅遊", "生活", "日本", "台北", "新北", "桃園", "台中", "高雄",
     "台南", "基隆", "新竹", "嘉義", "彰化", "宜蘭", "花蓮", "台東", "屏東",
     "苗栗", "雲林", "南投", "澎湖", "金門", "馬祖", "pixnet"]

  predicate IsExcludedTag(tag: string) {
    tag in ExcludedTags
  }

  /** The list holds the generic tags the location cleaner drops, the place names it
      knows except the four outside Taiwan and Japan, and `pixnet`, and nothing else. */
  lemma ExcludedTagsFacts()
    ensures forall t <- ExcludedTags ::
              t == "pixnet" || t in CleanLocationTags.GenericTags || t in CleanLocationTags.LocationTags
    ensures forall t <- CleanLocationTags.GenericTags :: IsExcludedTag(t)
    ensures forall t <- CleanLocationTags.LocationTags ::
              IsExcludedTag(t) <==> t !in ["韓國", "泰國", "香港", "澳門"]
  {
  }

  /** The test every candidate passes before it is kept: longer than one character,
      shorter than thirty, and not excluded (the empty string fails the length test). */
  predicate Accepts(tag: string) {
    1 < |tag| < 30 && !IsExcludedTag(tag)
  }

  function Accepted(tags: seq<string>): seq<string> {
    Filter(tags, Accepts)
  }

  // ---------------------------------------------------------------------------
  // fetchOriginalTags

  /** The `keywords` of one JSON-LD block: missing (or empty), an array, or one string
      of comma-separated words. */
  datatype Keywords = NoKeywords | KeywordArray(words: seq<string>) | KeywordText(text: string)

  /** A `<script type="application/ld+json">` block: its parsed keywords, or `Unparsable`
      when `JSON.parse` throws. */
  datatype Script = Unparsable | Parsed(keywords: Keywords)

  /** What the scraper selects on a fetched page: the texts of the tag links inside the
      article content, the texts of the footer tag links, and the JSON-LD blocks, each in
      document order. */
  datatype Page = Page(articleLinks: seq<string>, footerLinks: seq<string>, scripts: seq<Script>)

  /** The words one block contributes: an array as it is, a string split on commas with
      each word trimmed. */
  function KeywordsOf(s: Script): seq<string> {
    match s
    case Unparsable => []
    case Parsed(NoKeywords) => []
    case Parsed(KeywordArray(ws)) => ws
    case Parsed(KeywordText(t)) => TrimAll(Split(t, ','))
  }

  /** The words of all blocks, in order. */
  function ScriptKeywords(scripts: seq<Script>): seq<string> {
    if |scripts| == 0 then []
    else ScriptKeywords(scripts[..|scripts| - 1]) + KeywordsOf(scripts[|scripts| - 1])
  }

  /** The tags collected from a page: the accepted article links; when there are none,
      the accepted footer links; when there are none either, the accepted keywords. */
  function Candidates(p: Page): seq<string> {
    var first := Accepted(TrimAll(p.articleLinks));
    if first != [] then first
    else
      var second := Accepted(TrimAll(p.footerLinks));
      if second != [] then second else Accepted(ScriptKeywords(p.scripts))
  }

  /** `fetchOriginalTags(url)` given what the request brought back: `None` when it failed
      (`null`), otherwise the candidates without repetitions. */
  function OriginalTags(page: Option<Page>): Option<seq<string>> {
    if page.None? then None else Some(Dedupe(Candidates(page.value)))
  }

  /** The three sources are tried in order, and the first that yields an accepted tag is
      the only one used. */
  lemma CandidatesSource(p: Page)
    ensures (exists t <- TrimAll(p.articleLinks) :: Accepts(t))
            ==> forall t :: t in Candidates(p) <==> t in TrimAll(p.articleLinks) && Accepts(t)
    ensures (forall t <- TrimAll(p.articleLinks) :: !Accepts(t))
            && (exists t <- TrimAll(p.footerLinks) :: Accepts(t))
            ==> forall t :: t in Candidates(p) <==> t in TrimAll(p.footerLinks) && Accepts(t)
    ensures (forall t <- TrimAll(p.articleLinks) :: !Accepts(t))
            && (forall t <- TrimAll(p.footerLinks) :: !Accepts(t))
            ==> forall t :: t in Candidates(p) <==> t in ScriptKeywords(p.scripts) && Accepts(t)
  {
    AcceptedFacts(TrimAll(p.articleLinks));
    AcceptedFacts(TrimAll(p.footerLinks));
    AcceptedFacts(ScriptKeywords(p.scripts));
  }

  /** The filter keeps exactly the accepted tags, so it comes out empty exactly when none
      is accepted. */
  lemma AcceptedFacts(tags: seq<string>)
    ensures forall t :: t in Accepted(tags) <==> t in tags && Accepts(t)
    ensures Accepted(tags) == [] <==> forall t <- tags :: !Accepts(t)
  {
    if Accepted(tags) != [] {
      assert Accepted(tags)[0] in Accepted(tags);
    }
  }

  /** A fetched page gives tags without repetitions, each of which passes the candidate
      test; a failed request gives none. */
  lemma OriginalTagsFacts(page: Option<Page>)
    ensures OriginalTags(page).None? <==> page.None?
    ensures page.Some? ==> Distinct(OriginalTags(page).value)
    ensures page.Some? ==> forall t :: t in OriginalTags(page).value <==> t in Candidates(page.value)
    ensures page.Some? ==> forall t <- OriginalTags(page).value :: Accepts(t)
  {
  }

  /** One more trimmed link considered. */
  lemma AcceptedLinksStep(links: seq<string>, i: nat)
    requires i < |links|
    ensures Accepted(TrimAll(links[..i + 1]))
            == Accepted(TrimAll(links[..i])) + (if Accepts(Trim(links[i])) then [Trim(links[i])] else [])
  {
    var a := links[..i];
    assert links[..i + 1] == a + [links[i]];
    TrimAllSnoc(a, links[i]);
    FilterSnoc(TrimAll(a), Trim(links[i]), Accepts);
  }

  lemma TrimAllSnoc(parts: seq<string>, p: string)
    ensures TrimAll(parts + [p]) == TrimAll(parts) + [Trim(p)]
  {
    var l := TrimAll(parts + [p]);
    var r := TrimAll(parts) + [Trim(p)];
    assert |l| == |r|;
    forall k | 0 <= k < |l|
      ensures l[k] == r[k]
    {
      assert (parts + [p])[k] == if k < |parts| then parts[k] else p;
    }
  }

  /** The tag links of one selection, trimmed and filtered, pushed one by one. */
  method CollectLinks(links: seq<string>) returns (tags: seq<string>)
    ensures tags == Accepted(TrimAll(links))
  {
    tags := [];
    for i := 0 to |links|
      invariant tags == Accepted(TrimAll(links[..i]))
    {
      var tag := Trim(links[i]);
      if Accepts(tag) {
        tags := tags + [tag];
      }
      AcceptedLinksStep(links, i);
    }
    assert links[..|links|] == links;
  }

  /** The keywords of one JSON-LD block, filtered, pushed one by one. */
  method PushAccepted(tags: seq<string>, words: seq<string>) returns (r: seq<string>)
    ensures r == tags + Accepted(words)
  {
    r := tags;
    for j := 0 to |words|
      invariant r == tags + Accepted(words[..j])
    {
      if Accepts(words[j]) {
        r := r + [words[j]];
      }
      assert words[..j + 1] == words[..j] + [words[j]];
      FilterSnoc(words[..j], words[j], Accepts);
    }
    assert words[..|words|] == words;
  }

  /** The keywords of every JSON-LD block, filtered, pushed one by one. */
  method CollectKeywords(scripts: seq<Script>) returns (tags: seq<string>)
    ensures tags == Accepted(ScriptKeywords(scripts))
  {
    tags := [];
    for i := 0 to |scripts|
      invariant tags == Accepted(ScriptKeywords(scripts[..i]))
    {
      tags := PushAccepted(tags, KeywordsOf(scripts[i]));
      assert scripts[..i + 1][..i] == scripts[..i];
      FilterAppend(ScriptKeywords(scripts[..i]), KeywordsOf(scripts[i]), Accepts);
    }
    assert scripts[..|scripts|] == scripts;
  }

  /** `fetchOriginalTags` once the request has been answered. */
  method FetchOriginalTags(page: Option<Page>) returns (r: Option<seq<string>>)
    ensures r == OriginalTags(page)
  {
    if page.None? {
      return None;
    }
    var tags := CollectLinks(page.value.articleLinks);
    if |tags| == 0 {
      tags := CollectLinks(page.value.footerLinks);
    }
    if |tags| == 0 {
      tags := CollectKeywords(page.value.scripts);
    }
    r := Some(Dedupe(tags));
  }

  // ---------------------------------------------------------------------------
  // the merge in processFile

  /** `/^[a-z]+$/`: an English system tag such as `food` or `pixnet`. */
  predicate IsLowerWord(t: string) {
    |t| > 0 && forall c <- t :: 'a' <= c <= 'z'
  }

  /** The tags of the first tag list, or none. */
  function CurrentTags(content: string): seq<string> {
    var t := ReadTags(content);
    if t.Some? then t.value else []
  }

  /** `[...new Set([...englishTags, ...originalTags])]`. */
  function MergedTags(current: seq<string>, original: seq<string>): seq<string> {
    Dedupe(Filter(current, IsLowerWord) + original)
  }

  /** `[...mergedSet].some(t => !currentSet.has(t))`. */
  predicate HasNewTags(current: seq<string>, merged: seq<string>) {
    exists t <- merged :: t !in current
  }

  /** The merge holds, once each, the English tags of the post followed by the original
      tags, and nothing else. */
  lemma MergedTagsFacts(current: seq<string>, original: seq<string>)
    ensures Distinct(MergedTags(current, original))
    ensures forall t :: t in MergedTags(current, original) <==> (t in current && IsLowerWord(t)) || t in original
    ensures var english := Dedupe(Filter(current, IsLowerWord));
            |english| <= |MergedTags(current, original)|
            && MergedTags(current, original)[..|english|] == english
  {
    DedupeAppend(Filter(current, IsLowerWord), original);
  }

  /** The merge brings something new exactly when some original tag is not on the post
      yet: the English tags kept are the post's own. */
  lemma HasNewTagsIff(current: seq<string>, original: seq<string>)
    ensures HasNewTags(current, MergedTags(current, original)) <==> exists t <- original :: t !in current
  {
    MergedTagsFacts(current, original);
  }

  /** A post whose tags are the merge has nothing new to receive from the same original
      tags. */
  lemma MergeSettled(current: seq<string>, original: seq<string>)
    ensures !HasNewTags(MergedTags(current, original), MergedTags(MergedTags(current, original), original))
  {
    var m := MergedTags(current, original);
    MergedTagsFacts(current, original);
    HasNewTagsIff(m, original);
  }

  // ---------------------------------------------------------------------------
  // writing the tags

  /** The text written: the first tag list replaced with the merged one; without a tag
      list, `tags: [...]` and a line break put just before the first `---` from index 3;
      without that either, the text as it was. */
  function WithTags(content: string, merged: seq<string>): string {
    if TagsMatch(content, false).Some? then RewriteTags(content, merged)
    else
      var e := IndexOfFrom(content, "---", 3);
      if e >= 0 then content[..e] + "tags: [" + TagListText(merged) + "]\n" + content[e..]
      else content
  }

  /** A tag list inserted into a post that has none, before the closing `---`, is the
      one read back. */
  lemma InsertedReadsBack(content: string, merged: seq<string>)
    requires !Contains(content, "tags:") && IndexOfFrom(content, "---", 3) >= 0
    requires forall t <- merged :: Writable(t) && ']' !in t
    ensures ReadTags(WithTags(content, merged)) == Some(merged)
  {
    var e := IndexOfFrom(content, "---", 3);
    var text := TagListText(merged);
    TagListLacks(merged, ']');
    NoKeyFrom(content, 0);
    var r := WithTags(content, merged);
    assert r == content[..e] + "tags: [" + text + "]\n" + content[e..];
    InsertedListFound(content, e, text, r);
    ReadTagsAt(r, Span(e, e + 7, e + 7 + |text|), text);
    ParseTagListText(merged);
  }

  /** Without `tags:` there is no tag list. */
  lemma {:induction false} NoKeyFrom(s: string, p: nat)
    requires !Contains(s, "tags:")
    ensures TagsFrom(s, p, false).None?
    decreases |s| - p
  {
    if p <= |s| {
      assert !MatchesAt(s, p, "tags:");
      NoKeyFrom(s, p + 1);
    }
  }

  /** The list inserted at `e` is the first one found. */
  lemma InsertedListFound(content: string, e: nat, text: string, r: string)
    requires !Contains(content, "tags:") && e <= |content| && ']' !in text
    requires r == content[..e] + "tags: [" + text + "]\n" + content[e..]
    ensures TagsMatch(r, false) == Some(Span(e, e + 7, e + 7 + |text|))
    ensures r[e + 7..e + 7 + |text|] == text
  {
    assert r[e..e + 8 + |text|] == "tags: [" + text + "]";
    TagsAtRewritten(r, e, text);
    forall q | 0 <= q < e
      ensures TagsAt(r, q, false).None?
    {
      InsertedNoEarlierKey(content, r, e, q);
    }
    TagsFromSkips(r, 0, e);
  }

  /** No `tags:` starts before the insertion point of a text that had none. */
  lemma InsertedNoEarlierKey(content: string, r: string, e: nat, q: nat)
    requires !Contains(content, "tags:") && q < e <= |content|
    requires e < |r| && r[..e] == content[..e] && r[e] == 't'
    ensures !MatchesAt(r, q, "tags:")
  {
    if q + 5 <= e {
      assert r[q..q + 5] == r[..e][q..q + 5] == content[..e][q..q + 5] == content[q..q + 5];
      assert !MatchesAt(content, q, "tags:");
    } else if q + 5 <= |r| {
      assert r[q..q + 5][e - q] == r[e] == 't';
      assert "tags:"[e - q] != 't';
    }
  }

  // ---------------------------------------------------------------------------
  // processFile

  /** What `processFile` does with a post: nothing without an `originalUrl`, nothing when
      no original tag came back, nothing when the merge brings no new tag, otherwise the
      text it writes (and it reports the post as updated). */
  datatype FixOutcome = NoOriginalUrl | NotFetched(url: string) | UpToDate | Written(content: string)

  /** The outcome for a post, `web` standing for what the request for each URL brings
      back. */
  function Fix(content: string, web: string -> Option<Page>): FixOutcome {
    var url := QuotedValue(content, "originalUrl:");
    if url.None? then NoOriginalUrl
    else
      var original := OriginalTags(web(url.value));
      if original.None? || original.value == [] then NotFetched(url.value)
      else
        var current := CurrentTags(content);
        var merged := MergedTags(current, original.value);
        if !HasNewTags(current, merged) then UpToDate
        else Written(WithTags(content, merged))
  }

  /** `processFile` on the text of a post. */
  method ProcessFile(content: string, web: string -> Option<Page>) returns (r: FixOutcome)
    ensures r == Fix(content, web)
  {
    var url := QuotedValue(content, "originalUrl:");
    if url.None? {
      return NoOriginalUrl;
    }
    var original := FetchOriginalTags(web(url.value));
    if original.None? || |original.value| == 0 {
      return NotFetched(url.value);
    }
    var current := CurrentTags(content);
    var merged := MergedTags(current, original.value);
    if !HasNewTags(current, merged) {
      return UpToDate;
    }
    var c := content;
    if TagsMatch(c, false).Some? {
      c := RewriteTags(c, merged);
    } else {
      var e := IndexOfFrom(c, "---", 3);
      if e != -1 {
        c := c[..e] + "tags: [" + TagListText(merged) + "]\n" + c[e..];
      }
    }
    r := Written(c);
  }

  /** A post is written exactly when it names an original URL whose page yields tags and
      one of those tags is not on the post yet. */
  lemma FixWrites(content: string, web: string -> Option<Page>)
    ensures Fix(content, web).Written?
            <==> QuotedValue(content, "originalUrl:").Some?
                 && var original := OriginalTags(web(QuotedValue(content, "originalUrl:").value));
                    original.Some? && original.value != []
                    && exists t <- original.value :: t !in CurrentTags(content)
  {
    var url := QuotedValue(content, "originalUrl:");
    if url.Some? {
      var original := OriginalTags(web(url.value));
      if original.Some? && original.value != [] {
        HasNewTagsIff(CurrentTags(content), original.value);
      }
    }
  }

  /** The original tags named by a write. */
  function WrittenOriginal(content: string, web: string -> Option<Page>): seq<string>
    requires Fix(content, web).Written?
  {
    OriginalTags(web(QuotedValue(content, "originalUrl:").value)).value
  }

  /** After a write, the tags read from a post that had a tag list, or that had none and
      no `tags:` at all, are the merged ones, provided no original tag holds a comma or a
      `]`; and a second merge with the same original tags brings nothing new. */
  lemma FixReadsBack(content: string, web: string -> Option<Page>)
    requires Fix(content, web).Written?
    requires ReadTags(content).Some? || !Contains(content, "tags:")
    requires forall t <- WrittenOriginal(content, web) :: ',' !in t && ']' !in t
    ensures var m := MergedTags(CurrentTags(content), WrittenOriginal(content, web));
            (ReadTags(content).Some? || IndexOfFrom(content, "---", 3) >= 0)
            ==> ReadTags(Fix(content, web).content) == Some(m)
                && !HasNewTags(m, MergedTags(m, WrittenOriginal(content, web)))
  {
    var original := WrittenOriginal(content, web);
    var current := CurrentTags(content);
    var m := MergedTags(current, original);
    OriginalTagsFacts(web(QuotedValue(content, "originalUrl:").value));
    MergedTagsFacts(current, original);
    if ReadTags(content).Some? {
      ReadTagsClean(content);
    }
    forall t <- m
      ensures Writable(t) && ']' !in t
    {
    }
    if ReadTags(content).Some? {
      RewriteReadsBack(content, m);
    } else if IndexOfFrom(content, "---", 3) >= 0 {
      InsertedReadsBack(content, m);
    }
    MergeSettled(current, original);
  }

  /** A post with neither a tag list nor a `---` after its first three characters is
      reported as updated although its text is written back unchanged. */
  lemma WrittenUnchanged(content: string, web: string -> Option<Page>)
    requires Fix(content, web).Written?
    requires TagsMatch(content, false).None? && IndexOfFrom(content, "---", 3) < 0
    ensures Fix(content, web).content == content
  {
  }

  // ---------------------------------------------------------------------------
  // main

  /** A directory entry: its file name and its text. */
  datatype PostFile = PostFile(name: string, content: string)

  predicate IsMarkdown(f: PostFile) {
    EndsWith(f.name, ".md")
  }

  const BatchSize: nat := 5

  /** How many of the posts `processFile` writes. */
  function CountWritten(posts: seq<PostFile>, web: string -> Option<Page>): (n: nat)
    ensures n <= |posts|
  {
    if |posts| == 0 then 0
    else
      var last := posts[|posts| - 1];
      CountWritten(posts[..|posts| - 1], web) + (if Fix(last.content, web).Written? then 1 else 0)
  }

  /** Counting over two runs of posts adds up. */
  lemma {:induction false} CountWrittenAppend(a: seq<PostFile>, b: seq<PostFile>, web: string -> Option<Page>)
    ensures CountWritten(a + b, web) == CountWritten(a, web) + CountWritten(b, web)
    decreases |b|
  {
    if |b| == 0 {
      assert a + b == a;
    } else {
      assert (a + b)[..|a + b| - 1] == a + b[..|b| - 1];
      CountWrittenAppend(a, b[..|b| - 1], web);
    }
  }

  /** One batch: every post in it processed, the written ones counted. */
  method ProcessBatch(batch: seq<PostFile>, web: string -> Option<Page>) returns (updated: nat)
    ensures updated == CountWritten(batch, web)
  {
    updated := 0;
    for j := 0 to |batch|
      invariant updated == CountWritten(batch[..j], web)
    {
      var result := ProcessFile(batch[j].content, web);
      if result.Written? {
        updated := updated + 1;
      }
      assert batch[..j + 1][..j] == batch[..j];
    }
    assert batch[..|batch|] == batch;
  }

  /** `main`: the Markdown files processed in batches of five; the counts of processed
      and of updated posts. */
  method FixAll(files: seq<PostFile>, web: string -> Option<Page>) returns (processed: nat, updated: nat)
    ensures processed == |Filter(files, IsMarkdown)|
    ensures updated == CountWritten(Filter(files, IsMarkdown), web)
    ensures updated <= processed
  {
    var posts := Filter(files, IsMarkdown);
    processed, updated := 0, 0;
    var i := 0;
    while i < |posts|
      invariant processed == (if i < |posts| then i else |posts|)
      invariant updated == CountWritten(posts[..processed], web)
      decreases |posts| - i
    {
      var end := if i + BatchSize < |posts| then i + BatchSize else |posts|;
      var batch := posts[i..end];
      var n := ProcessBatch(batch, web);
      CountWrittenAppend(posts[..i], batch, web);
      assert posts[..i] + batch == posts[..end];
      updated := updated + n;
      processed := processed + |batch|;
      i := i + BatchSize;
    }
    assert posts[..|posts|] == posts;
  }
}
