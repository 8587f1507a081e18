/** The Pixnet sync server: the article list read from the blog's front page, the tags
    read from an article page, the Markdown file it writes for an article and the sync
    round that writes only articles not synced before. */
module BlogSync {
  import opened Wrappers
  import opened Text
  import opened Json
  import opened ArticleMarkdown

  /** `CONFIG.maxArticlesPerSync`. */
  const MaxArticlesPerSync: nat := 10

  /** The anchor text that marks a "read more" link rather than an article title. */
  const ReadMore: string := "繼續閱讀"

  /** A post of the JSON list embedded in the front page. Absent or falsy fields are
      empty strings. `dateThrows` says that `published_at` is given but
      `new Date(published_at * 1000)` is no valid time, on which `toISOString` throws. */
  datatype ListedPost = ListedPost(id: string, title: string, url: string, categoryName: string, tags: seq<string>,
                                   dateThrows: bool)

  /** A link to an article found in the front page's HTML: its URL, the numeric id in
      it and its anchor text. Which anchors of the page qualify is decided by a pattern
      that is not part of this model. */
  datatype Anchor = Anchor(link: string, id: string, title: string)

  /** An article of the list. Its date is left out. */
  datatype Listing = Listing(id: string, link: string, title: string, category: string, tags: seq<string>)

  /** A post is kept only when its id, title and URL are all present. */
  predicate Kept(p: ListedPost) {
    p.id != "" && p.title != "" && p.url != ""
  }

  function FromPost(p: ListedPost): Listing {
    Listing(p.id, p.url, p.title, if p.categoryName != "" then p.categoryName else "travel", p.tags)
  }

  /** A kept post whose date throws: the exception leaves the loop over the posts. */
  predicate Throws(p: ListedPost) {
    Kept(p) && p.dateThrows
  }

  /** Some post of the list throws. */
  predicate Aborted(posts: seq<ListedPost>) {
    exists p <- posts :: Throws(p)
  }

  /** The JSON path: the kept posts, in order, up to the first one whose date throws;
      the `catch` around the loop keeps what was pushed before it. */
  function FromJson(posts: seq<ListedPost>): seq<Listing> {
    if |posts| == 0 then []
    else
      var init := posts[..|posts| - 1];
      var prev := FromJson(init);
      var p := posts[|posts| - 1];
      if Kept(p) && !p.dateThrows && !Aborted(init) then prev + [FromPost(p)] else prev
  }

  lemma AbortedLast(posts: seq<ListedPost>)
    requires |posts| > 0
    ensures Aborted(posts) <==> Aborted(posts[..|posts| - 1]) || Throws(posts[|posts| - 1])
  {
    var init := posts[..|posts| - 1];
    if Aborted(posts) {
      var q :| q in posts && Throws(q);
      var k :| 0 <= k < |posts| && posts[k] == q;
      if k < |posts| - 1 { assert init[k] == q; }
    }
    if Aborted(init) {
      var q :| q in init && Throws(q);
      assert q in posts;
    }
  }

  /** Once a post has thrown, the later posts add nothing. */
  lemma {:induction false} FromJsonCut(posts: seq<ListedPost>, i: nat)
    requires i < |posts| && Throws(posts[i])
    ensures FromJson(posts) == FromJson(posts[..i])
  {
    if |posts| - 1 == i {
      AbortedLast(posts);
    } else {
      var init := posts[..|posts| - 1];
      assert init[i] == posts[i] && init[..i] == posts[..i];
      FromJsonCut(init, i);
      assert posts[i] in init;
    }
  }

  /** Every article of the JSON path comes from a kept post whose date does not throw,
      so every article has an id, a title and a link. */
  lemma {:induction false} FromJsonFacts(posts: seq<ListedPost>)
    ensures |FromJson(posts)| <= |posts|
    ensures forall a <- FromJson(posts) :: exists p <- posts :: Kept(p) && !p.dateThrows && a == FromPost(p)
    ensures forall a <- FromJson(posts) :: a.id != "" && a.title != "" && a.link != ""
  {
    if |posts| > 0 {
      var init := posts[..|posts| - 1];
      FromJsonFacts(init);
      assert forall q <- init :: q in posts;
    }
  }

  /** Every kept post before the first post that throws gives an article. */
  lemma {:induction false} FromJsonKeeps(posts: seq<ListedPost>)
    ensures forall i | 0 <= i < |posts| :: Kept(posts[i]) && !Aborted(posts[..i + 1]) ==> FromPost(posts[i]) in FromJson(posts)
  {
    if |posts| > 0 {
      var n := |posts| - 1;
      var init := posts[..n];
      FromJsonKeeps(init);
      AbortedLast(posts);
      assert posts[..n + 1] == posts;
      forall i | 0 <= i < n && Kept(posts[i]) && !Aborted(posts[..i + 1])
        ensures FromPost(posts[i]) in FromJson(posts)
      {
        assert posts[..i + 1] == init[..i + 1] && posts[i] == init[i];
      }
    }
  }

  /** Every kept post comes at or after a post that throws: the first kept post throws,
      or there is none. */
  predicate NoKeptBeforeThrow(posts: seq<ListedPost>) {
    forall i | 0 <= i < |posts| :: Kept(posts[i]) ==> Aborted(posts[..i + 1])
  }

  lemma NoKeptBeforeThrowLast(posts: seq<ListedPost>)
    requires |posts| > 0
    ensures NoKeptBeforeThrow(posts) <==>
            NoKeptBeforeThrow(posts[..|posts| - 1]) && (Kept(posts[|posts| - 1]) ==> Aborted(posts))
  {
    var n := |posts| - 1;
    var init := posts[..n];
    assert posts[..n + 1] == posts;
    assert forall i | 0 <= i < n :: posts[..i + 1] == init[..i + 1] && posts[i] == init[i];
  }

  /** The JSON path yields nothing exactly when no kept post comes before a post that
      throws. */
  lemma {:induction false} FromJsonEmpty(posts: seq<ListedPost>)
    ensures FromJson(posts) == [] <==> NoKeptBeforeThrow(posts)
  {
    if |posts| > 0 {
      FromJsonEmpty(posts[..|posts| - 1]);
      AbortedLast(posts);
      NoKeptBeforeThrowLast(posts);
    }
  }

  lemma FromJsonStep(ps: seq<ListedPost>, i: nat)
    requires i < |ps|
    ensures FromJson(ps[..i + 1]) == if Kept(ps[i]) && !ps[i].dateThrows && !Aborted(ps[..i])
                                     then FromJson(ps[..i]) + [FromPost(ps[i])] else FromJson(ps[..i])
  {
    assert ps[..i + 1][..i] == ps[..i];
  }

  function IdsOf(xs: seq<Listing>): set<string> {
    set x <- xs :: x.id
  }

  /** A trimmed string holds no pattern that the original did not hold. */
  lemma TrimKeepsOut(t: string, pat: string)
    requires !Contains(t, pat)
    ensures !Contains(Trim(t), pat)
  {
    var r := Trim(t);
    var a := LeadingSpace(t);
    if Contains(r, pat) {
      assert t == t[..a] + r + t[a + |r|..];
      ContainsInContext(r, pat, t[..a], t[a + |r|..]);
    }
  }

  /** The article an accepted link gives. */
  function FromAnchor(a: Anchor): Listing {
    Listing(a.id, a.link, Trim(a.title), "travel", [])
  }

  /** The HTML fallback: each link whose id was not seen before and whose text is not
      "read more", with its text trimmed. */
  function FromAnchors(anchors: seq<Anchor>): seq<Listing> {
    if |anchors| == 0 then []
    else
      var prev := FromAnchors(anchors[..|anchors| - 1]);
      var a := anchors[|anchors| - 1];
      if a.id !in IdsOf(prev) && !Contains(a.title, ReadMore) then prev + [FromAnchor(a)] else prev
  }

  /** The fallback's ids are pairwise distinct and none of its titles is "read more". */
  lemma {:induction false} FromAnchorsFacts(anchors: seq<Anchor>)
    ensures |FromAnchors(anchors)| <= |anchors|
    ensures var r := FromAnchors(anchors); forall i, j | 0 <= i < j < |r| :: r[i].id != r[j].id
    ensures forall a <- FromAnchors(anchors) :: !Contains(a.title, ReadMore) && a.category == "travel" && a.tags == []
  {
    if |anchors| > 0 {
      var prev := FromAnchors(anchors[..|anchors| - 1]);
      var a := anchors[|anchors| - 1];
      FromAnchorsFacts(anchors[..|anchors| - 1]);
      if a.id !in IdsOf(prev) && !Contains(a.title, ReadMore) {
        TrimKeepsOut(a.title, ReadMore);
        var r := prev + [FromAnchor(a)];
        forall i | 0 <= i < |prev| ensures r[i].id != a.id { assert prev[i] in prev; }
      }
    }
  }

  lemma FromAnchorsStep(anchors: seq<Anchor>, i: nat)
    requires i < |anchors|
    ensures var prev := FromAnchors(anchors[..i]); var a := anchors[i];
            FromAnchors(anchors[..i + 1])
            == if a.id !in IdsOf(prev) && !Contains(a.title, ReadMore) then prev + [FromAnchor(a)] else prev
  {
    assert anchors[..i + 1][..i] == anchors[..i];
  }

  /** `parsePixnetArticles`: the JSON list when the page has one that yields an article,
      the HTML fallback otherwise, cut to `maxArticlesPerSync`. `posts` is None when the
      page has no JSON list or it does not parse. */
  function PixnetArticles(posts: Option<seq<ListedPost>>, anchors: seq<Anchor>): (r: seq<Listing>)
    ensures |r| <= MaxArticlesPerSync
  {
    var fromJson := if posts.Some? then FromJson(posts.value) else [];
    var found := if |fromJson| > 0 then fromJson else FromAnchors(anchors);
    if |found| <= MaxArticlesPerSync then found else found[..MaxArticlesPerSync]
  }

  /** `parsePixnetArticles`, with its two loops. */
  method ParsePixnetArticles(posts: Option<seq<ListedPost>>, anchors: seq<Anchor>) returns (articles: seq<Listing>)
    ensures articles == PixnetArticles(posts, anchors)
  {
    articles := [];
    if posts.Some? {
      articles := TakePosts(posts.value);
    }
    if |articles| == 0 {
      articles := TakeAnchors(anchors);
    }
    if |articles| > MaxArticlesPerSync {
      articles := articles[..MaxArticlesPerSync];
    }
  }

  /** The loop over the JSON posts; a post whose date throws leaves it for the `catch`. */
  method TakePosts(ps: seq<ListedPost>) returns (articles: seq<Listing>)
    ensures articles == FromJson(ps)
  {
    articles := [];
    var i := 0;
    while i < |ps|
      invariant 0 <= i <= |ps|
      invariant articles == FromJson(ps[..i])
      invariant !Aborted(ps[..i])
    {
      FromJsonStep(ps, i);
      if Kept(ps[i]) {
        if ps[i].dateThrows {
          FromJsonCut(ps, i);
          return;
        }
        articles := articles + [FromPost(ps[i])];
      }
      AbortedLast(ps[..i + 1]);
      assert ps[..i + 1][..i] == ps[..i];
      i := i + 1;
    }
    assert ps[..i] == ps;
  }

  /** The loop over the article links, with its set of ids seen. */
  method TakeAnchors(anchors: seq<Anchor>) returns (articles: seq<Listing>)
    ensures articles == FromAnchors(anchors)
  {
    articles := [];
    var seen: set<string> := {};
    var i := 0;
    while i < |anchors|
      invariant 0 <= i <= |anchors|
      invariant articles == FromAnchors(anchors[..i])
      invariant seen == IdsOf(articles)
    {
      FromAnchorsStep(anchors, i);
      var a := anchors[i];
      if a.id !in seen && !Contains(a.title, ReadMore) {
        seen := seen + {a.id};
        articles := articles + [FromAnchor(a)];
      }
      i := i + 1;
    }
    assert anchors[..i] == anchors;
  }

  /** The HTML fallback is read only when the JSON list yields nothing: once a kept post
      comes before any post that throws, the links of the page do not matter. */
  lemma FallbackOnlyWhenJsonEmpty(posts: Option<seq<ListedPost>>, anchors: seq<Anchor>, other: seq<Anchor>)
    requires posts.Some?
    requires !NoKeptBeforeThrow(posts.value)
    ensures PixnetArticles(posts, anchors) == PixnetArticles(posts, other)
  {
    FromJsonEmpty(posts.value);
  }

  /** Articles taken from the HTML fallback have distinct ids and no "read more" title. */
  lemma FallbackArticles(posts: Option<seq<ListedPost>>, anchors: seq<Anchor>)
    requires posts.None? || NoKeptBeforeThrow(posts.value)
    ensures var r := PixnetArticles(posts, anchors);
            (forall i, j | 0 <= i < j < |r| :: r[i].id != r[j].id)
            && forall a <- r :: !Contains(a.title, ReadMore)
  {
    var r := PixnetArticles(posts, anchors);
    var all := FromAnchors(anchors);
    FromAnchorsFacts(anchors);
    if posts.Some? {
      FromJsonEmpty(posts.value);
    }
    assert forall a <- r :: a in all;
  }

  // ---------------------------------------------------------------------------
  // tags of an article page

  /** Each trimmed, non-empty name not taken before, in order. */
  function TakeNames(names: seq<string>): seq<string> {
    if |names| == 0 then []
    else
      var prev := TakeNames(names[..|names| - 1]);
      var t := Trim(names[|names| - 1]);
      if t != "" && t !in prev then prev + [t] else prev
  }

  /** The names taken are distinct, each is a trimmed non-empty name, and every
      trimmed non-empty name is taken. */
  lemma {:induction false} TakeNamesFacts(names: seq<string>)
    ensures Distinct(TakeNames(names))
    ensures forall t <- TakeNames(names) :: exists n <- names :: t == Trim(n) && t != ""
    ensures forall n <- names :: Trim(n) != "" ==> Trim(n) in TakeNames(names)
  {
    if |names| > 0 {
      var init := names[..|names| - 1];
      var n := names[|names| - 1];
      TakeNamesFacts(init);
      InInitOrLast(names);
    }
  }

  lemma TakeNamesStep(names: seq<string>, i: nat)
    requires i < |names|
    ensures var prev := TakeNames(names[..i]); var t := Trim(names[i]);
            TakeNames(names[..i + 1]) == if t != "" && t !in prev then prev + [t] else prev
  {
    assert names[..i + 1][..i] == names[..i];
  }

  /** The tags of an article page: the names in its embedded tag lists, or, when they
      give none, the texts of its tag links. */
  function PageTags(listNames: seq<string>, linkTexts: seq<string>): seq<string> {
    var fromLists := TakeNames(listNames);
    if |fromLists| > 0 then fromLists else TakeNames(linkTexts)
  }

  /** The page's tags hold no duplicate and each is trimmed and non-empty. */
  lemma PageTagsClean(listNames: seq<string>, linkTexts: seq<string>)
    ensures Distinct(PageTags(listNames, linkTexts))
    ensures forall t <- PageTags(listNames, linkTexts) :: t != "" && Trim(t) == t
  {
    TakeNamesFacts(listNames);
    TakeNamesFacts(linkTexts);
    var r := PageTags(listNames, linkTexts);
    forall t <- r ensures t != "" && Trim(t) == t {
      var n :| (n in listNames || n in linkTexts) && t == Trim(n) && t != "";
      TrimIdempotent(n);
    }
  }

  /** The tag part of `parseArticleContent`: the embedded tag lists first, the tag
      links when those give nothing. */
  method CollectTags(listNames: seq<string>, linkTexts: seq<string>) returns (tags: seq<string>)
    ensures tags == PageTags(listNames, linkTexts)
  {
    tags := TakeListNames(listNames);
    if |tags| == 0 {
      tags := TakeLinkTexts(linkTexts);
    }
  }

  /** The loop over the embedded tag lists, which skips a name already taken. */
  method TakeListNames(names: seq<string>) returns (tags: seq<string>)
    ensures tags == TakeNames(names)
  {
    tags := [];
    var i := 0;
    while i < |names|
      invariant 0 <= i <= |names|
      invariant tags == TakeNames(names[..i])
    {
      TakeNamesStep(names, i);
      var tag := Trim(names[i]);
      if tag != "" && tag !in tags {
        tags := tags + [tag];
      }
      i := i + 1;
    }
    assert names[..i] == names;
  }

  /** The loop over the tag links, which keeps the names taken in a set. */
  method TakeLinkTexts(texts: seq<string>) returns (tags: seq<string>)
    ensures tags == TakeNames(texts)
  {
    tags := [];
    var seen: set<string> := {};
    var i := 0;
    while i < |texts|
      invariant 0 <= i <= |texts|
      invariant tags == TakeNames(texts[..i])
      invariant seen == set t <- tags
    {
      TakeNamesStep(texts, i);
      var tag := Trim(texts[i]);
      if tag != "" && tag !in seen {
        seen := seen + {tag};
        tags := tags + [tag];
      }
      i := i + 1;
    }
    assert texts[..i] == texts;
  }

  // ---------------------------------------------------------------------------
  // the article file

  /** The fields `createArticle` reads. Absent strings are empty; `lat` and `lng` are
      numbers as they print, empty when null. */
  datatype SyncArticle = SyncArticle(title: string, contentHtml: string, link: string, date: string,
                                     category: string, tags: Value, cover: string, businessHours: string,
                                     address: string, lat: string, lng: string)

  /** Truthiness of a number from the text it prints as: null, zero and NaN are falsy. */
  predicate NumberTruthy(n: string) {
    n != "" && n != "0" && n != "NaN"
  }

  /** `"${s}"`: the text between double quotes, unescaped. */
  function InQuotes(s: string): string {
    "\"" + s + "\""
  }

  /** The front matter as key/value entries: the fixed ones, then an address, latitude
      and longitude entry for each of those that is truthy. */
  function Entries(a: SyncArticle, formattedDate: string): seq<(string, string)> {
    FixedEntries(a, formattedDate)
    + (if a.address != "" then [("address", InQuotes(a.address))] else [])
    + (if NumberTruthy(a.lat) then [("lat", a.lat)] else [])
    + (if NumberTruthy(a.lng) then [("lng", a.lng)] else [])
  }

  function FixedEntries(a: SyncArticle, formattedDate: string): seq<(string, string)> {
    [ ("title", Quote(a.title)),
      ("date", InQuotes(formattedDate)),
      ("cover", InQuotes(a.cover)),
      ("tags", QuoteList(TagList(a.tags))),
      ("originalUrl", InQuotes(a.link)),
      ("businessHours", if a.businessHours != "" then Quote(a.businessHours) else "null"),
      ("category", InQuotes(a.category)) ]
  }

  /** The front matter lines: the opening `---` and a `key: value` line per entry. */
  function FrontmatterLines(a: SyncArticle, formattedDate: string): seq<string> {
    var es := Entries(a, formattedDate);
    ["---"] + seq(|es|, i requires 0 <= i < |es| => es[i].0 + ": " + es[i].1)
  }

  /** What `createArticle` gives: the written file, the failure for a missing field, or
      the `RangeError` thrown by `toISOString` on a date `Date` cannot read. */
  datatype SyncReply = Written(file: string, slug: string, text: string) | MissingField | InvalidDate

  /** `createArticle` of the sync server: a missing title or link is refused; a date that
      does not format throws; otherwise the front matter and the wrapped HTML content are
      joined with line breaks. `today`, `iso` and `suffix` stand for the clock,
      `new Date(d).toISOString()` (none when it throws) and the random part of the slug. */
  function CreateArticle(a: SyncArticle, today: string, suffix: string, iso: string -> Option<string>): (r: SyncReply)
    ensures r.MissingField? <==> a.title == "" || a.link == ""
    ensures r.InvalidDate? <==> !r.MissingField? && iso(if a.date != "" then a.date else today).None?
    ensures r.Written? ==> r.file == r.slug + ".md"
                           && r.slug == SlugFor(iso(if a.date != "" then a.date else today).value, suffix)
  {
    if a.title == "" || a.link == "" then MissingField
    else
      var date := if a.date != "" then a.date else today;
      match iso(date)
      case None => InvalidDate
      case Some(formatted) =>
        var slug := SlugFor(formatted, suffix);
        var lines := FrontmatterLines(a, formatted)
                     + ["---", "", "<div class=\"pixnet-article prose max-w-none\">", a.contentHtml, "</div>"];
        Written(slug + ".md", slug, Join(lines, "\n"))
  }

  /** The status code of the article request: 200 for a written article, 400 for the
      refusal, 500 for what `createArticle` throws. */
  function Status(r: SyncReply): (code: int)
    ensures code == 200 <==> r.Written?
    ensures code == 400 <==> r.MissingField?
    ensures code == 500 <==> r.InvalidDate?
  {
    match r
    case Written(_, _, _) => 200
    case MissingField => 400
    case InvalidDate => 500
  }

  predicate HasKey(es: seq<(string, string)>, key: string) {
    exists e <- es :: e.0 == key
  }

  lemma HasKeyConcat(a: seq<(string, string)>, b: seq<(string, string)>, key: string)
    ensures HasKey(a + b, key) <==> HasKey(a, key) || HasKey(b, key)
  {
    if HasKey(a + b, key) {
      var e :| e in a + b && e.0 == key;
      assert e in a || e in b;
    }
    if HasKey(a, key) {
      var e :| e in a && e.0 == key;
      assert e in a + b;
    }
    if HasKey(b, key) {
      var e :| e in b && e.0 == key;
      assert e in a + b;
    }
  }

  /** The fixed keys are none of the optional ones: none of them is 3 or 7 long. */
  lemma FixedKeys(a: SyncArticle, formattedDate: string)
    ensures !HasKey(FixedEntries(a, formattedDate), "address")
    ensures !HasKey(FixedEntries(a, formattedDate), "lat")
    ensures !HasKey(FixedEntries(a, formattedDate), "lng")
  {
    var fixed := FixedEntries(a, formattedDate);
    forall e <- fixed
      ensures |e.0| != 3 && |e.0| != 7
    {
      var i :| 0 <= i < |fixed| && fixed[i] == e;
      assert i < 7;
    }
  }

  /** Three optional entries after entries without their keys: each key is present iff
      its entry is. */
  lemma OptionalKeys(fixed: seq<(string, string)>, x: seq<(string, string)>, y: seq<(string, string)>,
                     z: seq<(string, string)>, kx: string, ky: string, kz: string)
    requires kx != ky && kx != kz && ky != kz
    requires !HasKey(fixed, kx) && !HasKey(fixed, ky) && !HasKey(fixed, kz)
    requires |x| <= 1 && |y| <= 1 && |z| <= 1
    requires (forall e <- x :: e.0 == kx) && (forall e <- y :: e.0 == ky) && (forall e <- z :: e.0 == kz)
    ensures HasKey(fixed + x + y + z, kx) <==> |x| == 1
    ensures HasKey(fixed + x + y + z, ky) <==> |y| == 1
    ensures HasKey(fixed + x + y + z, kz) <==> |z| == 1
  {
    HasKeyConcat(fixed + x + y, z, kx);
    HasKeyConcat(fixed + x + y, z, ky);
    HasKeyConcat(fixed + x + y, z, kz);
    HasKeyConcat(fixed + x, y, kx);
    HasKeyConcat(fixed + x, y, ky);
    HasKeyConcat(fixed + x, y, kz);
    HasKeyConcat(fixed, x, kx);
    HasKeyConcat(fixed, x, ky);
    HasKeyConcat(fixed, x, kz);
    if |x| == 1 { assert x[0] in x; }
    if |y| == 1 { assert y[0] in y; }
    if |z| == 1 { assert z[0] in z; }
  }

  /** An optional entry is there exactly when its value is truthy. */
  lemma OptionalEntries(a: SyncArticle, formattedDate: string)
    ensures HasKey(Entries(a, formattedDate), "address") <==> a.address != ""
    ensures HasKey(Entries(a, formattedDate), "lat") <==> NumberTruthy(a.lat)
    ensures HasKey(Entries(a, formattedDate), "lng") <==> NumberTruthy(a.lng)
  {
    var addr: seq<(string, string)> := if a.address != "" then [("address", InQuotes(a.address))] else [];
    var lat: seq<(string, string)> := if NumberTruthy(a.lat) then [("lat", a.lat)] else [];
    var lng: seq<(string, string)> := if NumberTruthy(a.lng) then [("lng", a.lng)] else [];
    FixedKeys(a, formattedDate);
    assert "lat"[1] != "lng"[1];
    OptionalKeys(FixedEntries(a, formattedDate), addr, lat, lng, "address", "lat", "lng");
  }

  /** The title and tag entries read back, through `JSON.parse`, as the title and the
      tag list. */
  lemma TitleAndTagsReadBack(a: SyncArticle, formattedDate: string)
    ensures var es := Entries(a, formattedDate);
            |es| >= 7 && es[0].0 == "title" && Unquote(es[0].1) == Some(a.title)
            && es[3].0 == "tags" && UnquoteList(es[3].1) == Some(TagList(a.tags))
  {
    UnquoteQuote(a.title);
    UnquoteQuoteList(TagList(a.tags));
  }

  // ---------------------------------------------------------------------------
  // the sync round

  /** The articles whose id is not among the synced ones, in order. */
  function NewArticles(articles: seq<Listing>, synced: seq<string>): (r: seq<Listing>)
    ensures |r| <= |articles|
    ensures forall a <- r :: a in articles && a.id !in synced
    ensures forall a <- articles :: a.id !in synced ==> a in r
    ensures IsSubsequence(r, articles)
  {
    if |articles| == 0 then []
    else
      var rest := NewArticles(articles[1..], synced);
      assert forall a <- articles :: a == articles[0] || a in articles[1..];
      assert articles == [articles[0]] + articles[1..];
      if articles[0].id !in synced then
        assert ([articles[0]] + rest)[1..] == rest;
        [articles[0]] + rest
      else
        SubsequenceSkip(rest, articles[1..], articles[0]);
        rest
  }

  /** An article is written when its page could be fetched and written (`io`) and it has
      the title and link `createArticle` demands. */
  predicate Delivered(a: Listing, io: Listing -> bool) {
    io(a) && a.title != "" && a.link != ""
  }

  /** The ids of the articles, in order. */
  function IdList(xs: seq<Listing>): (ids: seq<string>)
    ensures |ids| == |xs| && forall i | 0 <= i < |xs| :: ids[i] == xs[i].id
  {
    seq(|xs|, i requires 0 <= i < |xs| => xs[i].id)
  }

  /** The ids appended to the synced list: those of the written articles. */
  function WrittenIds(articles: seq<Listing>, io: Listing -> bool): seq<string> {
    if |articles| == 0 then []
    else
      var a := articles[|articles| - 1];
      WrittenIds(articles[..|articles| - 1], io) + if Delivered(a, io) then [a.id] else []
  }

  /** The appended ids are those of the written articles, each of them, in the order of
      the articles. */
  lemma {:induction false} WrittenIdsFacts(articles: seq<Listing>, io: Listing -> bool)
    ensures var ids := WrittenIds(articles, io);
            && |ids| <= |articles|
            && (forall id <- ids :: exists a <- articles :: a.id == id && Delivered(a, io))
            && (forall a <- articles :: Delivered(a, io) ==> a.id in ids)
            && IsSubsequence(ids, IdList(articles))
  {
    if |articles| > 0 {
      var init := articles[..|articles| - 1];
      var a := articles[|articles| - 1];
      var prev := WrittenIds(init, io);
      WrittenIdsFacts(init, io);
      assert articles == init + [a];
      WrittenIdsLast(init, a, io, prev);
      assert WrittenIds(articles, io) == if Delivered(a, io) then prev + [a.id] else prev;
    }
  }

  /** The step of WrittenIds: what holds of the ids of `init` holds, one article on, of
      the ids with the last one's appended when it was written. */
  lemma WrittenIdsLast(init: seq<Listing>, a: Listing, io: Listing -> bool, prev: seq<string>)
    requires |prev| <= |init|
    requires forall id <- prev :: exists b <- init :: b.id == id && Delivered(b, io)
    requires forall b <- init :: Delivered(b, io) ==> b.id in prev
    requires IsSubsequence(prev, IdList(init))
    ensures var articles, ids := init + [a], if Delivered(a, io) then prev + [a.id] else prev;
            && |ids| <= |articles|
            && (forall id <- ids :: exists b <- articles :: b.id == id && Delivered(b, io))
            && (forall b <- articles :: Delivered(b, io) ==> b.id in ids)
            && IsSubsequence(ids, IdList(articles))
  {
    var articles := init + [a];
    assert forall b <- init :: b in articles;
    assert forall b <- articles :: b == a || b in init;
    assert IdList(articles) == IdList(init) + [a.id];
    if Delivered(a, io) {
      SubsequenceAppendBoth(prev, IdList(init), a.id);
    } else {
      SubsequenceAppendRight(prev, IdList(init), a.id);
    }
  }

  /** One more article appends its id exactly when it is written. */
  lemma WrittenIdsStep(xs: seq<Listing>, i: nat, io: Listing -> bool)
    requires i < |xs|
    ensures WrittenIds(xs[..i + 1], io)
            == WrittenIds(xs[..i], io) + (if Delivered(xs[i], io) then [xs[i].id] else [])
  {
    assert xs[..i + 1][..i] == xs[..i];
  }

  /** An id is appended exactly for an article that was new and written: every such
      article is recorded, so the next round skips it. */
  lemma AppendedAreNewAndWritten(articles: seq<Listing>, synced: seq<string>, io: Listing -> bool)
    ensures forall id <- WrittenIds(NewArticles(articles, synced), io) ::
              id !in synced && exists a <- articles :: a.id == id && Delivered(a, io)
    ensures forall a <- articles :: a.id !in synced && Delivered(a, io) ==>
              a.id in WrittenIds(NewArticles(articles, synced), io)
  {
    var pending := NewArticles(articles, synced);
    WrittenIdsFacts(pending, io);
    forall id <- WrittenIds(pending, io)
      ensures id !in synced && exists a <- articles :: a.id == id && Delivered(a, io)
    {
      var a :| a in pending && a.id == id && Delivered(a, io);
      assert a in articles;
    }
  }

  /** The loop of `syncPixnetArticles` over the pending articles: each is processed in
      order, and the ids of the ones written are gathered. */
  method ProcessPending(pending: seq<Listing>, io: Listing -> bool) returns (added: seq<string>)
    ensures added == WrittenIds(pending, io)
  {
    added := [];
    var i := 0;
    while i < |pending|
      invariant 0 <= i <= |pending|
      invariant added == WrittenIds(pending[..i], io)
    {
      WrittenIdsStep(pending, i, io);
      var a := pending[i];
      if Delivered(a, io) {
        added := added + [a.id];
      }
      i := i + 1;
    }
    assert pending[..i] == pending;
  }

  /** The sync state kept between rounds. */
  class SyncState {
    var syncedArticles: seq<string>
    var lastSyncTime: string

    constructor(synced: seq<string>, last: string)
      ensures syncedArticles == synced && lastSyncTime == last
    {
      syncedArticles := synced;
      lastSyncTime := last;
    }

    /** `syncPixnetArticles` after the list is parsed: the articles not synced before are
        processed in order, each written one has its id appended to the synced list (the
        ids are gathered by the loop and the list is updated once after it), and the time
        is recorded unless there was nothing new. A deployment follows when anything was written. */
    method Sync(articles: seq<Listing>, io: Listing -> bool, now: string) returns (synced: nat, deploy: bool)
      modifies this
      ensures syncedArticles == old(syncedArticles) + WrittenIds(NewArticles(articles, old(syncedArticles)), io)
      ensures synced == |WrittenIds(NewArticles(articles, old(syncedArticles)), io)|
      ensures lastSyncTime == if |NewArticles(articles, old(syncedArticles))| == 0 then old(lastSyncTime) else now
      ensures deploy <==> synced > 0
    {
      var before := syncedArticles;
      var pending := NewArticles(articles, before);
      if |pending| == 0 {
        return 0, false;
      }
      var added := ProcessPending(pending, io);
      syncedArticles := before + added;
      synced := |added|;
      lastSyncTime := now;
      deploy := synced > 0;
    }
  }
}
