/** The Markdown document that the command-line writer and the HTTP writer produce for a
    new article: the tag list read from the `tags` parameter, the single-quoted title,
    the YAML tag block and the document template. */
module ArticleMarkdown {
  import opened Wrappers
  import opened Text

  /** A parameter value as the writers receive it: absent, a string, the `true` of a
      bare command-line flag, an array of strings (JSON input), or any other JSON value,
      of which only its truthiness matters here. */
  datatype Value = Missing | Str(s: string) | Flag | List(items: seq<string>) | Other(truthy: bool)

  /** JavaScript truthiness of a parameter value. */
  predicate Truthy(v: Value) {
    match v
    case Missing => false
    case Str(s) => s != ""
    case Flag => true
    case List(_) => true
    case Other(t) => t
  }

  /** The fields of an article request that the writers read. A string field that is
      absent is the empty string, which is falsy like `undefined`. */
  datatype Article = Article(title: string, content: string, link: string, date: string,
                             category: string, tags: Value)

  // ---------------------------------------------------------------------------
  // tags

  /** A tag as the comma-separated form yields it: non-empty, comma-free and without
      white space at either end. */
  predicate CleanTag(t: string) {
    t != "" && ',' !in t && !IsSpace(t[0]) && !IsSpace(t[|t| - 1])
  }

  predicate NonEmpty(t: string) {
    t != ""
  }

  function TrimAll(parts: seq<string>): (r: seq<string>)
    ensures |r| == |parts| && forall i | 0 <= i < |r| :: r[i] == Trim(parts[i])
  {
    if |parts| == 0 then [] else [Trim(parts[0])] + TrimAll(parts[1..])
  }

  /** `tags.split(',').map(t => t.trim()).filter(t => t.length > 0)`: every tag it gives
      is clean. */
  function SplitTags(s: string): (r: seq<string>)
    ensures forall t <- r :: CleanTag(t)
  {
    var parts := Split(s, ',');
    TrimmedPartsClean(parts);
    Filter(TrimAll(parts), NonEmpty)
  }

  lemma TrimmedPartsClean(parts: seq<string>)
    requires forall p <- parts :: ',' !in p
    ensures forall t <- Filter(TrimAll(parts), NonEmpty) :: CleanTag(t)
  {
    forall t <- Filter(TrimAll(parts), NonEmpty)
      ensures CleanTag(t)
    {
      var i :| 0 <= i < |parts| && TrimAll(parts)[i] == t;
      assert parts[i] in parts;
      TrimmedNoComma(parts[i]);
    }
  }

  lemma TrimmedNoComma(p: string)
    requires ',' !in p
    ensures ',' !in Trim(p)
  {
    var a := LeadingSpace(p);
    var r := Trim(p);
    forall k | 0 <= k < |r| ensures r[k] != ',' { assert r[k] == p[a + k]; }
  }

  /** The tag list of a request: a string is split on commas, an array is taken as it
      is, an absent value counts as the empty string, and anything else gives no tags. */
  function TagList(tags: Value): seq<string> {
    match tags
    case Missing => SplitTags("")
    case Str(s) => SplitTags(s)
    case List(items) => items
    case _ => []
  }

  /** An absent `tags` parameter gives no tags. */
  lemma MissingTagsEmpty()
    ensures TagList(Missing) == []
  {
    assert Split("", ',') == [""];
    assert Trim("") == "";
    assert TrimAll([""]) == [""];
  }

  /** Clean tags joined with commas read back as the same tags. */
  lemma {:induction false} SplitJoinTags(ts: seq<string>)
    requires forall t <- ts :: CleanTag(t)
    ensures SplitTags(Join(ts, ",")) == ts
  {
    if |ts| == 0 {
      MissingTagsEmpty();
    } else {
      SplitJoin(ts, ',');
      assert Split(Join(ts, ","), ',') == ts;
      forall i | 0 <= i < |ts| ensures Trim(ts[i]) == ts[i] {
        assert ts[i] in ts;
        TrimOfTrimmed(ts[i]);
      }
      assert TrimAll(ts) == ts;
      FilterKeepsAll(ts);
    }
  }

  lemma {:induction false} FilterKeepsAll(ts: seq<string>)
    requires forall t <- ts :: t != ""
    ensures Filter(ts, NonEmpty) == ts
  {
    if |ts| > 0 {
      assert forall t <- ts[1..] :: t in ts;
      FilterKeepsAll(ts[1..]);
      assert ts[0] in ts && NonEmpty(ts[0]);
      assert Filter(ts, NonEmpty) == [ts[0]] + Filter(ts[1..], NonEmpty);
      assert ts == [ts[0]] + ts[1..];
    }
  }

  // ---------------------------------------------------------------------------
  // title

  /** `title.replace(/'/g, "''")`: each single quote doubled, as a YAML single-quoted
      scalar requires. */
  function EscapeTitle(t: string): (e: string)
    ensures forall c <- e :: c in t || c == '\''
  {
    if |t| == 0 then ""
    else
      var rest := EscapeTitle(t[1..]);
      assert forall c <- rest :: c in t || c == '\'' by {
        forall c <- rest ensures c in t || c == '\'' {
          if c != '\'' { assert c in t[1..]; }
        }
      }
      (if t[0] == '\'' then "''" else [t[0]]) + rest
  }

  /** Every quote of `e` is one of a doubled pair, so `e` can sit between single quotes. */
  predicate QuotesPaired(e: string)
    decreases |e|
  {
    if |e| == 0 then true
    else if e[0] == '\'' then |e| >= 2 && e[1] == '\'' && QuotesPaired(e[2..])
    else QuotesPaired(e[1..])
  }

  /** How a YAML reader reads the body of a single-quoted scalar: a doubled quote is one
      quote. */
  function UnescapeTitle(e: string): string
    decreases |e|
  {
    if |e| == 0 then ""
    else if |e| >= 2 && e[0] == '\'' && e[1] == '\'' then "'" + UnescapeTitle(e[2..])
    else [e[0]] + UnescapeTitle(e[1..])
  }

  /** The escaped title is a well-formed single-quoted body. */
  lemma {:induction false} EscapeTitlePaired(t: string)
    ensures QuotesPaired(EscapeTitle(t))
  {
    if |t| > 0 {
      EscapeTitlePaired(t[1..]);
      var rest := EscapeTitle(t[1..]);
      if t[0] == '\'' {
        assert ("''" + rest)[2..] == rest;
      } else {
        assert ([t[0]] + rest)[1..] == rest;
      }
    }
  }

  /** A YAML reader gets the original title back. */
  lemma {:induction false} UnescapeEscapeTitle(t: string)
    ensures UnescapeTitle(EscapeTitle(t)) == t
  {
    if |t| > 0 {
      UnescapeEscapeTitle(t[1..]);
      var rest := EscapeTitle(t[1..]);
      if t[0] == '\'' {
        assert ("''" + rest)[2..] == rest;
      } else {
        assert ([t[0]] + rest)[1..] == rest;
      }
      assert t == [t[0]] + t[1..];
    }
  }

  // ---------------------------------------------------------------------------
  // tag block

  function TagLines(tags: seq<string>): (lines: seq<string>)
    ensures |lines| == |tags|
    ensures forall i | 0 <= i < |tags| :: lines[i] == "  - " + tags[i]
  {
    seq(|tags|, i requires 0 <= i < |tags| => "  - " + tags[i])
  }

  /** The `tags` entry of the front matter: an inline empty list, or one `  - tag` line
      per tag. */
  function TagsYaml(tags: seq<string>): string {
    if |tags| == 0 then "tags: []" else "tags:\n" + Join(TagLines(tags), "\n")
  }

  /** How the block is read back: the inline empty list, or a `tags:` line followed by
      `  - ` lines. */
  function ReadTagsYaml(y: string): Option<seq<string>> {
    if y == "tags: []" then Some([]) else ReadTagLines(Split(y, '\n'))
  }

  function ReadTagLines(lines: seq<string>): Option<seq<string>> {
    if |lines| >= 2 && lines[0] == "tags:" && forall i | 1 <= i < |lines| :: StartsWith(lines[i], "  - ")
    then Some(StripItems(lines[1..]))
    else None
  }

  function StripItems(lines: seq<string>): seq<string>
    requires forall i | 0 <= i < |lines| :: StartsWith(lines[i], "  - ")
  {
    if |lines| == 0 then []
    else
      assert |"  - "| == 4 && StartsWith(lines[0], "  - ");
      [lines[0][4..]] + StripItems(lines[1..])
  }

  /** Tags without line breaks are read back from their block exactly. */
  lemma TagsYamlRoundTrip(tags: seq<string>)
    requires forall t <- tags :: '\n' !in t
    ensures ReadTagsYaml(TagsYaml(tags)) == Some(tags)
  {
    if |tags| > 0 {
      TagBlockLines(tags);
      var lines := TagLines(tags);
      assert (["tags:"] + lines)[1..] == lines;
      assert forall i | 0 <= i < |lines| :: StartsWith(lines[i], "  - ");
      StripTagLines(tags);
    }
  }

  lemma {:induction false} StripTagLines(tags: seq<string>)
    ensures forall i | 0 <= i < |TagLines(tags)| :: StartsWith(TagLines(tags)[i], "  - ")
    ensures StripItems(TagLines(tags)) == tags
  {
    if |tags| > 0 {
      StripTagLines(tags[1..]);
      assert TagLines(tags)[1..] == TagLines(tags[1..]);
      assert tags == [tags[0]] + tags[1..];
    }
  }

  /** A non-empty block is its `tags:` line followed by the item lines. */
  lemma TagBlockLines(tags: seq<string>)
    requires |tags| > 0 && forall t <- tags :: '\n' !in t
    ensures TagsYaml(tags) != "tags: []"
    ensures Split(TagsYaml(tags), '\n') == ["tags:"] + TagLines(tags)
  {
    var lines := TagLines(tags);
    var y := TagsYaml(tags);
    assert y[5] == '\n';
    assert "tags: []"[5] == ' ';
    assert forall l <- lines :: '\n' !in l by {
      forall l <- lines ensures '\n' !in l {
        var i :| 0 <= i < |lines| && lines[i] == l;
        assert tags[i] in tags;
        assert l == "  - " + tags[i];
      }
    }
    SplitJoin(lines, '\n');
    assert y == "tags:" + ['\n'] + Join(lines, "\n");
    SplitPrefix("tags:", Join(lines, "\n"), '\n');
  }

  // ---------------------------------------------------------------------------
  // document

  /** Everything after the title line. */
  function DocumentBody(formattedDate: string, category: string, tags: seq<string>,
                        link: string, content: string): string
  {
    "date: '" + formattedDate + "'\ncategory: " + category + "\n" + TagsYaml(tags)
    + "\noriginalUrl: " + link + "\n---\n\n" + content
    + "\n\n---\n\n📖 [閱讀完整文章](" + link + ")\n"
  }

  /** The article file: the front matter (title, date, category, tags, original URL),
      the cleaned content and a link back to the original. */
  function Document(title: string, formattedDate: string, category: string, tags: seq<string>,
                    link: string, content: string): string
  {
    "---\n" + "title: '" + EscapeTitle(title) + "'\n" + DocumentBody(formattedDate, category, tags, link, content)
  }

  /** The document opens the front matter on its first line and a YAML reader recovers
      the title from its second line, whatever quotes the title holds. */
  lemma DocumentTitleLine(title: string, formattedDate: string, category: string,
                          tags: seq<string>, link: string, content: string)
    requires '\n' !in title
    ensures var lines := Split(Document(title, formattedDate, category, tags, link, content), '\n');
            |lines| >= 3 && lines[0] == "---" && |lines[1]| >= 9 && StartsWith(lines[1], "title: '") && EndsWith(lines[1], "'")
            && UnescapeTitle(lines[1][8..|lines[1]| - 1]) == title
  {
    var body := DocumentBody(formattedDate, category, tags, link, content);
    var line := "title: '" + EscapeTitle(title) + "'";
    assert '\n' !in line;
    assert Document(title, formattedDate, category, tags, link, content) == "---" + ['\n'] + (line + ['\n'] + body);
    SplitPrefix("---", line + ['\n'] + body, '\n');
    SplitPrefix(line, body, '\n');
    assert line[8..|line| - 1] == EscapeTitle(title);
    UnescapeEscapeTitle(title);
  }

  /** `generateSlug`: the calendar date of the ISO timestamp without its dashes, a dash,
      and a random suffix. The date part holds no dash and no `T`. */
  function SlugFor(isoDate: string, suffix: string): (slug: string)
    ensures exists d :: slug == d + "-" + suffix && '-' !in d && 'T' !in d
  {
    var d := Filter(Split(isoDate, 'T')[0], (c: char) => c != '-');
    d + "-" + suffix
  }
}
