/** The HTTP article writer's `createArticle`: the check of the required fields, the
    category normalisation with its own table, and the file it writes. */
module ArticleApi {
  import opened Wrappers
  import opened Text
  import opened CategoryMapping
  import opened ArticleMarkdown

  /** `normalizeCategory` of the HTTP writer. The result is always valid. */
  function NormalizeCategory(category: string): (r: string)
    ensures r in ValidCategories
  {
    ApiTableFacts();
    NormalizeCheckedValid(ApiTable, category);
    NormalizeChecked(ApiTable, category)
  }

  /** Normalising a normalised category changes nothing. */
  lemma NormalizeCategoryIdempotent(category: string)
    ensures NormalizeCategory(NormalizeCategory(category)) == NormalizeCategory(category)
  {
    ApiTableFacts();
    NormalizeCheckedIdempotent(ApiTable, category);
  }

  /** The one row this table has beyond the command-line writer's: `創作` is `life`. */
  lemma CreativeIsLife()
    ensures NormalizeCategory("創作") == "life"
  {
  }

  /** The fields named in the failure reply, whichever of them is missing. */
  const Required: seq<string> := ["title", "content", "link", "category"]

  datatype Created = Created(file: string, slug: string, category: string, title: string, markdown: string)

  /** What `createArticle` gives: the created article, the failure naming the required
      fields, or the `RangeError` thrown by `toISOString` on a date `Date` cannot read. */
  datatype Reply = Success(created: Created) | MissingFields(required: seq<string>) | InvalidDate

  /** `date || today`: the date of the article. */
  function ArticleDate(date: string, today: string): (d: string)
    ensures date != "" ==> d == date
    ensures date == "" ==> d == today
  {
    if date != "" then date else today
  }

  /** `createArticle`. `today` is the current date, `iso` is `new Date(d).toISOString()`,
      none when that throws, `clean` is `cleanContent`, and `suffix` is the random part of
      the slug. A missing title, content, link or category yields the failure reply, which
      always names all four; otherwise a date that does not format throws; otherwise the
      file `<slug>.md` is written with a valid category and the formatted date. */
  function CreateArticle(a: Article, today: string, suffix: string,
                         iso: string -> Option<string>, clean: string -> string): (r: Reply)
    ensures r.MissingFields? <==> a.title == "" || a.content == "" || a.link == "" || a.category == ""
    ensures r.MissingFields? ==> r.required == Required
    ensures r.InvalidDate? <==> !r.MissingFields? && iso(ArticleDate(a.date, today)).None?
    ensures r.Success? ==> r.created.category in ValidCategories && r.created.title == a.title
                           && r.created.file == r.created.slug + ".md"
                           && r.created.slug == SlugFor(iso(ArticleDate(a.date, today)).value, suffix)
  {
    if a.title == "" || a.content == "" || a.link == "" || a.category == "" then MissingFields(Required)
    else
      var category := NormalizeCategory(a.category);
      var date := ArticleDate(a.date, today);
      match iso(date)
      case None => InvalidDate
      case Some(formatted) =>
        var slug := SlugFor(formatted, suffix);
        var markdown := Document(a.title, formatted, category, TagList(a.tags), a.link, clean(a.content));
        Success(Created(slug + ".md", slug, category, a.title, markdown))
  }

  /** The status code the request handler answers with: 200 for a created article, 400
      for the failure reply, 500 for what `createArticle` throws. */
  function Status(r: Reply): (code: int)
    ensures code == 200 <==> r.Success?
    ensures code == 400 <==> r.MissingFields?
    ensures code == 500 <==> r.InvalidDate?
  {
    match r
    case Success(_) => 200
    case MissingFields(_) => 400
    case InvalidDate => 500
  }

  /** A request without a date is the same request dated today. */
  lemma MissingDateIsToday(a: Article, today: string, suffix: string,
                           iso: string -> Option<string>, clean: string -> string)
    requires a.date == ""
    ensures CreateArticle(a, today, suffix, iso, clean) == CreateArticle(a.(date := today), today, suffix, iso, clean)
  {
    if today != "" {
      assert ArticleDate(today, today) == today;
    }
  }

  /** The two writers pick the same category except for `創作`, the only key the HTTP
      writer's table adds. */
  lemma SameCategoryAsCommandLine(a: Article, today: string, suffix: string,
                                  iso: string -> Option<string>, clean: string -> string)
    requires a.title != "" && a.content != "" && a.link != "" && a.category != ""
    requires a.category != "創作"
    ensures var r := CreateArticle(a, today, suffix, iso, clean);
            r.Success? ==> r.created.category == NormalizeChecked(AddArticleTable, a.category)
  {
    LookupAppendMiss(AddArticleTable, [("創作", "life")], a.category);
  }

  /** The written file opens its front matter and a YAML reader recovers the title from
      it. */
  lemma CreatedTitle(a: Article, today: string, suffix: string,
                     iso: string -> Option<string>, clean: string -> string)
    requires '\n' !in a.title
    requires CreateArticle(a, today, suffix, iso, clean).Success?
    ensures var lines := Split(CreateArticle(a, today, suffix, iso, clean).created.markdown, '\n');
            |lines| >= 3 && lines[0] == "---" && |lines[1]| >= 9
            && UnescapeTitle(lines[1][8..|lines[1]| - 1]) == a.title
  {
    var date := ArticleDate(a.date, today);
    DocumentTitleLine(a.title, iso(date).value, NormalizeCategory(a.category), TagList(a.tags), a.link, clean(a.content));
  }
}
