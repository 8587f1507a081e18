/** The warning banner the closed-business marker inserts. It is kept apart from the
    marker's logic, which only relies on the banner carrying the warning class. */
module Banner {
  import opened Text

  const ClosedMarker: string := "closed-business-warning"

  /** A text that carries the warning class, as the banner does. */
  predicate Warns(banner: string) {
    Contains(banner, ClosedMarker)
  }

  const BannerHead: string := "\n<div class=\""
  const BannerTail: string :=
    "\" style=\"background: #fff3cd; border: 1px solid #ffc107; border-left: 4px solid #ff6b6b; "
    + "padding: 16px; margin: 16px 0; border-radius: 4px;\">\n"
    + "  <p style=\"margin: 0; color: #856404; font-weight: bold;\">\n"
    + "    \U{26A0}\U{FE0F} 注意：此店家已歇業/停業\n"
    + "  </p>\n"
    + "  <p style=\"margin: 8px 0 0 0; color: #856404; font-size: 14px;\">\n"
    + "    本文僅供參考，店家目前已不再營業。\n"
    + "  </p>\n"
    + "</div>\n\n"

  /** `CLOSED_BANNER_HTML`. */
  const ClosedBanner: string := BannerHead + ClosedMarker + BannerTail

  /** The banner is itself a warning. */
  lemma BannerIsWarning()
    ensures Warns(ClosedBanner)
  {
    assert MatchesAt(ClosedMarker, 0, ClosedMarker);
    ContainsInContext(ClosedMarker, ClosedMarker, BannerHead, BannerTail);
  }

}

/** The closed-business marker: it reads the status table of `business_status.md`,
    and puts a warning banner after the front matter of every article of a closed
    business, and of every article whose title says the business has closed. */
module MarkClosed {
  import opened Wrappers
  import opened Text
  import opened ArticleMarkdown
  import opened Banner
  import opened Scanners

  // ---------------------------------------------------------------------------
  // the status table

  /** A table row of a business that has closed for good or for a while. */
  datatype Closed = Closed(name: string, status: string, articleId: string)

  const ClosedForGood: string := "已歇業"
  const ClosedForNow: string := "已停業"

  /** The header row, which opens a table: it names the business and the status. */
  predicate IsHeader(line: string) {
    Contains(line, "商家名稱") && Contains(line, "狀態")
  }

  /** `line.split('|').map(p => p.trim()).filter(Boolean)`. */
  function Cells(line: string): (cells: seq<string>)
    ensures forall c <- cells :: c != "" && Trim(c) == c
  {
    var parts := Split(line, '|');
    var cells := Filter(TrimAll(parts), NonEmpty);
    assert forall c <- cells :: c != "" && Trim(c) == c by {
      forall c <- cells ensures c != "" && Trim(c) == c {
        var i :| 0 <= i < |parts| && TrimAll(parts)[i] == c;
        TrimIdempotent(parts[i]);
      }
    }
    cells
  }

  /** The entry a table row gives: with three cells or more, the first three are the
      name, the status and the article id, and only a closed status counts. */
  function Row(line: string): (r: Option<Closed>)
    ensures r.Some? ==> (r.value.status == ClosedForGood || r.value.status == ClosedForNow)
                        && r.value.name != "" && r.value.articleId != ""
    ensures r.Some? <==> |Cells(line)| >= 3 && (Cells(line)[1] == ClosedForGood || Cells(line)[1] == ClosedForNow)
  {
    var cells := Cells(line);
    if |cells| >= 3 && (cells[1] == ClosedForGood || cells[1] == ClosedForNow) then
      assert cells[2] in cells;
      Some(Closed(cells[0], cells[1], Trim(cells[2])))
    else None
  }

  /** Whether the scanner is inside a table after `line`: a header line enters the
      table, and inside it any line not starting with `|` leaves it. */
  predicate NextInTable(inTable: bool, line: string) {
    IsHeader(line) || (inTable && StartsWith(line, "|"))
  }

  /** The `inTable` flag after `lines`. */
  predicate InTable(lines: seq<string>) {
    |lines| > 0 && NextInTable(InTable(lines[..|lines| - 1]), lines[|lines| - 1])
  }

  /** A line read as a row: inside a table, starting with `|`, and neither a header nor
      a `|---` rule. */
  predicate IsRow(inTable: bool, line: string) {
    inTable && !IsHeader(line) && StartsWith(line, "|") && !StartsWith(line, "|---")
  }

  /** The entry of a row line, if it has one. */
  function RowEntry(inTable: bool, line: string): seq<Closed> {
    if IsRow(inTable, line) && Row(line).Some? then [Row(line).value] else []
  }

  /** The closed businesses listed by `lines`, in order. */
  function Entries(lines: seq<string>): seq<Closed> {
    if |lines| == 0 then []
    else
      var prev := lines[..|lines| - 1];
      Entries(prev) + RowEntry(InTable(prev), lines[|lines| - 1])
  }

  /** `parseBusinessStatus`: the closed businesses of the status file, none when the
      file is missing. */
  function BusinessStatus(file: Option<string>): seq<Closed> {
    if file.None? then [] else Entries(Split(file.value, '\n'))
  }

  lemma ScanStep(lines: seq<string>, i: nat)
    requires i < |lines|
    ensures InTable(lines[..i + 1]) == NextInTable(InTable(lines[..i]), lines[i])
    ensures Entries(lines[..i + 1]) == Entries(lines[..i]) + RowEntry(InTable(lines[..i]), lines[i])
  {
    assert lines[..i + 1][..i] == lines[..i];
  }

  /** The loop of `parseBusinessStatus`, with its `inTable` flag. */
  method ParseBusinessStatus(file: Option<string>) returns (closed: seq<Closed>)
    ensures closed == BusinessStatus(file)
  {
    closed := [];
    if file.None? {
      return;
    }
    var lines := Split(file.value, '\n');
    var inTable := false;
    var i := 0;
    while i < |lines|
      invariant 0 <= i <= |lines|
      invariant inTable == InTable(lines[..i]) && closed == Entries(lines[..i])
    {
      ScanStep(lines, i);
      var line := lines[i];
      if IsHeader(line) {
        inTable := true;
      } else if inTable && StartsWith(line, "|---") {
        RuleStartsWithPipe(line);
      } else if inTable && StartsWith(line, "|") {
        var r := Row(line);
        if r.Some? {
          closed := closed + [r.value];
        }
      } else {
        inTable := false;
      }
      i := i + 1;
    }
    assert lines[..i] == lines;
  }

  /** A `|---` rule starts with `|`. */
  lemma RuleStartsWithPipe(line: string)
    requires StartsWith(line, "|---")
    ensures StartsWith(line, "|")
  {
    assert line[..1] == line[..4][..1];
  }

  /** Line `k` is a header and every line after it starts with `|`. */
  predicate HeaderThenRows(lines: seq<string>, k: int) {
    0 <= k < |lines| && IsHeader(lines[k]) && forall j | k < j < |lines| :: StartsWith(lines[j], "|")
  }

  lemma HeaderThenRowsStep(lines: seq<string>, k: int)
    requires 0 <= k < |lines| - 1
    ensures HeaderThenRows(lines, k)
            <==> HeaderThenRows(lines[..|lines| - 1], k) && StartsWith(lines[|lines| - 1], "|")
  {
    var prev := lines[..|lines| - 1];
    assert forall j | k <= j < |prev| :: prev[j] == lines[j];
  }

  /** The scanner is inside a table exactly when some header line has been read and
      every line after it starts with `|`. */
  lemma {:induction false} InTableIff(lines: seq<string>)
    ensures InTable(lines) <==> exists k :: HeaderThenRows(lines, k)
  {
    if |lines| > 0 {
      var n := |lines| - 1;
      var prev := lines[..n];
      InTableIff(prev);
      if IsHeader(lines[n]) {
        assert HeaderThenRows(lines, n);
      } else if InTable(prev) && StartsWith(lines[n], "|") {
        var k :| HeaderThenRows(prev, k);
        HeaderThenRowsStep(lines, k);
      } else {
        forall k
          ensures !HeaderThenRows(lines, k)
        {
          if 0 <= k < n {
            HeaderThenRowsStep(lines, k);
          }
        }
      }
    }
  }

  /** Line `i` is read as a row and gives entry `e`. */
  predicate Yields(lines: seq<string>, i: int, e: Closed) {
    0 <= i < |lines| && RowEntry(InTable(lines[..i]), lines[i]) == [e]
  }

  lemma YieldsPrefix(lines: seq<string>, n: nat)
    requires n <= |lines|
    ensures forall i, e | 0 <= i < n :: Yields(lines[..n], i, e) == Yields(lines, i, e)
  {
    forall i, e | 0 <= i < n
      ensures Yields(lines[..n], i, e) == Yields(lines, i, e)
    {
      assert lines[..n][..i] == lines[..i];
    }
  }

  /** Every entry comes from a row line of a table. */
  lemma {:induction false} EntriesComeFromRows(lines: seq<string>)
    ensures forall e <- Entries(lines) :: exists i :: Yields(lines, i, e)
  {
    if |lines| > 0 {
      var n := |lines| - 1;
      var prev := lines[..n];
      EntriesComeFromRows(prev);
      YieldsPrefix(lines, n);
      forall e <- Entries(lines)
        ensures exists i :: Yields(lines, i, e)
      {
        if e in Entries(prev) {
          var i :| Yields(prev, i, e);
          assert Yields(lines, i, e);
        } else {
          assert Yields(lines, n, e);
        }
      }
    }
  }

  /** Reading more lines only appends entries. */
  lemma {:induction false} EntriesPrefix(lines: seq<string>, m: nat)
    requires m <= |lines|
    ensures Entries(lines[..m]) <= Entries(lines)
    decreases |lines| - m
  {
    if m < |lines| {
      EntriesPrefix(lines, m + 1);
      ScanStep(lines, m);
    } else {
      assert lines[..m] == lines;
    }
  }

  lemma RowGivesEntry(lines: seq<string>, i: int, e: Closed)
    requires Yields(lines, i, e)
    ensures e in Entries(lines)
  {
    ScanStep(lines, i);
    EntriesPrefix(lines, i + 1);
    var p := Entries(lines[..i + 1]);
    assert p[|p| - 1] == e;
    assert Entries(lines)[|p| - 1] == e;
  }

  /** Every row line of a table with a closed status gives its entry. */
  lemma RowsGiveEntries(lines: seq<string>)
    ensures forall i, e | Yields(lines, i, e) :: e in Entries(lines)
  {
    forall i, e | Yields(lines, i, e)
      ensures e in Entries(lines)
    {
      RowGivesEntry(lines, i, e);
    }
  }

  /** Lines before the first header give nothing: a status file without a header row
      has no closed business. */
  lemma NoHeaderNoEntries(lines: seq<string>)
    requires forall l <- lines :: !IsHeader(l)
    ensures Entries(lines) == []
  {
    EntriesComeFromRows(lines);
    forall i | 0 <= i < |lines|
      ensures !InTable(lines[..i])
    {
      InTableIff(lines[..i]);
      assert forall k | 0 <= k < i :: lines[..i][k] in lines;
    }
    if |Entries(lines)| > 0 {
      assert Entries(lines)[0] in Entries(lines);
    }
  }

  // ---------------------------------------------------------------------------
  // the banner

  const ClosedNotice: string := "店家已歇業"

  /** The article already carries a warning. */
  predicate HasWarning(content: string) {
    Contains(content, ClosedNotice) || Contains(content, ClosedMarker)
  }

  /** The banner insertion of `markClosedBusinesses` and `scanForClosedInTitles`, with
      `banner` being `ClosedBanner`: the new content and whether the file is written. An article that already has a warning, or
      whose front matter has no closing `---` after index 3, is left alone; otherwise
      `"\n\n"` and the banner go right after the first such `---`, and all text on either
      side is kept. */
  function InsertBanner(content: string, banner: string): (r: (string, bool))
    ensures !r.1 ==> r.0 == content
    ensures r.1 <==> !HasWarning(content) && IndexOfFrom(content, "---", 3) != -1
    ensures r.1 ==> exists p | 6 <= p <= |content| ::
                      content[p - 3..p] == "---" && (forall i | 3 <= i < p - 3 :: !MatchesAt(content, i, "---"))
                      && r.0 == content[..p] + "\n\n" + banner + content[p..]
  {
    if HasWarning(content) then (content, false)
    else
      var frontmatterEnd := IndexOfFrom(content, "---", 3);
      if frontmatterEnd == -1 then (content, false)
      else
        var insertPosition := frontmatterEnd + 3;
        (content[..insertPosition] + "\n\n" + banner + content[insertPosition..], true)
  }

  /** Text around a warning is a warning. */
  lemma WarningInContext(pre: string, mark: string, post: string)
    requires Contains(mark, ClosedMarker)
    ensures HasWarning(pre + mark + post)
    ensures |pre + mark + post| > |pre + post|
  {
    ContainsInContext(mark, ClosedMarker, pre, post);
  }

  /** An inserted banner makes the article longer and marks it. */
  lemma InsertedIsMarked(content: string, banner: string)
    requires Warns(banner) && InsertBanner(content, banner).1
    ensures HasWarning(InsertBanner(content, banner).0)
    ensures |InsertBanner(content, banner).0| > |content|
  {
    var p := IndexOfFrom(content, "---", 3) + 3;
    var pre := content[..p] + "\n\n";
    assert InsertBanner(content, banner).0 == pre + banner + content[p..];
    WarningInContext(pre, banner, content[p..]);
  }

  /** A second run adds nothing: the banner is never inserted twice. */
  lemma InsertBannerIdempotent(content: string, banner: string)
    requires Warns(banner)
    ensures InsertBanner(InsertBanner(content, banner).0, banner) == (InsertBanner(content, banner).0, false)
  {
    if InsertBanner(content, banner).1 {
      InsertedIsMarked(content, banner);
    }
  }

  // ---------------------------------------------------------------------------
  // marking the articles of the table

  function IdsOf(closed: seq<Closed>): set<string> {
    set b <- closed :: b.articleId
  }

  /** The articles whose content differs. */
  function Changed(posts: map<string, string>, updated: map<string, string>): set<string> {
    set id | id in posts && id in updated && updated[id] != posts[id]
  }

  /** The articles named by `ids` carry the banner, the others are as they were. */
  predicate MarkedFor(posts: map<string, string>, updated: map<string, string>, ids: set<string>, banner: string) {
    updated.Keys == posts.Keys
    && forall id <- posts :: updated[id] == if id in ids then InsertBanner(posts[id], banner).0 else posts[id]
  }

  /** One row of the table: the article it names is marked if it was not yet, and the
      count of changed articles grows by one exactly when it is. */
  lemma MarkStep(posts: map<string, string>, updated: map<string, string>, ids: set<string>, id: string, banner: string)
    requires Warns(banner) && MarkedFor(posts, updated, ids, banner) && id in posts
    ensures var r := InsertBanner(updated[id], banner);
            var next := if r.1 then updated[id := r.0] else updated;
            MarkedFor(posts, next, ids + {id}, banner)
            && |Changed(posts, next)| == |Changed(posts, updated)| + if r.1 then 1 else 0
  {
    InsertBannerIdempotent(posts[id], banner);
    var r := InsertBanner(updated[id], banner);
    if r.1 {
      InsertedIsMarked(posts[id], banner);
      ChangedGrows(posts, updated, id, r.0);
    }
  }

  /** Changing an article that was as it was adds it to the changed ones. */
  lemma ChangedGrows(posts: map<string, string>, updated: map<string, string>, id: string, v: string)
    requires id in posts && id in updated && updated[id] == posts[id] && v != posts[id]
    ensures |Changed(posts, updated[id := v])| == |Changed(posts, updated)| + 1
  {
    assert id !in Changed(posts, updated);
    assert Changed(posts, updated[id := v]) == Changed(posts, updated) + {id};
  }

  /** A row naming an article that does not exist changes nothing. */
  lemma MarkMissing(posts: map<string, string>, updated: map<string, string>, ids: set<string>, id: string, banner: string)
    requires MarkedFor(posts, updated, ids, banner) && id !in posts
    ensures MarkedFor(posts, updated, ids + {id}, banner)
  {
  }

  lemma IdsOfStep(closed: seq<Closed>, i: nat)
    requires i < |closed|
    ensures IdsOf(closed[..i + 1]) == IdsOf(closed[..i]) + {closed[i].articleId}
  {
    assert closed[..i + 1] == closed[..i] + [closed[i]];
  }

  /** `markClosedBusinesses` over the articles `posts` (keyed by article id): every article
      named in the table gets the banner once, the others are untouched, and the count is
      the number of articles changed. */
  method MarkClosedBusinesses(closed: seq<Closed>, posts: map<string, string>)
    returns (updated: map<string, string>, modifiedCount: nat)
    ensures MarkedFor(posts, updated, IdsOf(closed), ClosedBanner)
    ensures modifiedCount == |Changed(posts, updated)|
  {
    BannerIsWarning();
    updated := posts;
    modifiedCount := 0;
    var i := 0;
    while i < |closed|
      invariant 0 <= i <= |closed|
      invariant MarkedFor(posts, updated, IdsOf(closed[..i]), ClosedBanner)
      invariant modifiedCount == |Changed(posts, updated)|
    {
      var id := closed[i].articleId;
      IdsOfStep(closed, i);
      if id in updated {
        MarkStep(posts, updated, IdsOf(closed[..i]), id, ClosedBanner);
        var r := InsertBanner(updated[id], ClosedBanner);
        if r.1 {
          updated := updated[id := r.0];
          modifiedCount := modifiedCount + 1;
        }
      } else {
        MarkMissing(posts, updated, IdsOf(closed[..i]), id, ClosedBanner);
      }
      i := i + 1;
    }
    assert closed[..i] == closed;
  }

  // ---------------------------------------------------------------------------
  // marking the articles by title

  /** The title of an article, when it says the business has closed. */
  function ClosedTitle(content: string): Option<string> {
    var t := TitleOf(content);
    if t.Some? && (Contains(t.value, ClosedForGood) || Contains(t.value, ClosedForNow)) then t else None
  }

  /** `file.replace('.md', '')`: the name without its first `.md`. */
  function IdOf(name: string): string {
    var k := IndexOfFrom(name, ".md", 0);
    if k == -1 then name else name[..k] + name[k + 3..]
  }

  predicate IsPost(name: string) {
    EndsWith(name, ".md")
  }

  /** What the title scan finds in a directory entry: the id and the title of a post
      whose title says the business has closed. */
  function Hit(file: (string, string)): Option<(string, string)> {
    if IsPost(file.0) && ClosedTitle(file.1).Some? then Some((IdOf(file.0), ClosedTitle(file.1).value)) else None
  }

  /** The file a directory entry becomes. */
  function Marked(file: (string, string)): string {
    if Hit(file).Some? then InsertBanner(file.1, ClosedBanner).0 else file.1
  }

  /** The hits of a directory, in order. */
  function ClosedTitles(files: seq<(string, string)>): seq<(string, string)> {
    if |files| == 0 then []
    else
      var prev := ClosedTitles(files[..|files| - 1]);
      var h := Hit(files[|files| - 1]);
      if h.Some? then prev + [h.value] else prev
  }

  lemma ClosedTitlesStep(files: seq<(string, string)>, i: nat)
    requires i < |files|
    ensures var h := Hit(files[i]);
            ClosedTitles(files[..i + 1]) == if h.Some? then ClosedTitles(files[..i]) + [h.value] else ClosedTitles(files[..i])
  {
    assert files[..i + 1][..i] == files[..i];
  }

  /** Exactly the posts whose title says closed are found, each with that title. */
  lemma {:induction false} ClosedTitlesFacts(files: seq<(string, string)>)
    ensures forall f <- ClosedTitles(files) :: exists file <- files :: Hit(file) == Some(f)
    ensures forall file <- files :: Hit(file).Some? ==> Hit(file).value in ClosedTitles(files)
  {
    if |files| > 0 {
      var n := |files| - 1;
      var prev := files[..n];
      ClosedTitlesFacts(prev);
      ClosedTitlesStep(files, n);
      assert files[..n + 1] == files;
      InInitOrLast(files);
      forall f <- ClosedTitles(files)
        ensures exists file <- files :: Hit(file) == Some(f)
      {
        if f in ClosedTitles(prev) {
          var file :| file in prev && Hit(file) == Some(f);
        } else {
          assert Hit(files[n]) == Some(f);
        }
      }
      forall file <- files | Hit(file).Some?
        ensures Hit(file).value in ClosedTitles(files)
      {
        if file in prev {
          assert Hit(file).value in ClosedTitles(prev);
        }
      }
    }
  }

  /** The directory after the title scan: every entry keeps its name and is marked if
      it is a hit. */
  function MarkedFiles(files: seq<(string, string)>): seq<(string, string)> {
    if |files| == 0 then []
    else
      var last := files[|files| - 1];
      MarkedFiles(files[..|files| - 1]) + [(last.0, Marked(last))]
  }

  lemma MarkedFilesStep(files: seq<(string, string)>, i: nat)
    requires i < |files|
    ensures MarkedFiles(files[..i + 1]) == MarkedFiles(files[..i]) + [(files[i].0, Marked(files[i]))]
  {
    assert files[..i + 1][..i] == files[..i];
  }

  /** Entry by entry, the marked directory keeps the names and marks exactly the hits. */
  lemma {:induction false} MarkedFilesFacts(files: seq<(string, string)>)
    ensures |MarkedFiles(files)| == |files|
    ensures forall i | 0 <= i < |files| :: MarkedFiles(files)[i] == (files[i].0, Marked(files[i]))
  {
    if |files| > 0 {
      var n := |files| - 1;
      MarkedFilesFacts(files[..n]);
      var m := MarkedFiles(files);
      assert m == MarkedFiles(files[..n]) + [(files[n].0, Marked(files[n]))];
      forall i | 0 <= i < |files|
        ensures m[i] == (files[i].0, Marked(files[i]))
      {
        if i < n {
          assert m[i] == MarkedFiles(files[..n])[i] && files[..n][i] == files[i];
        }
      }
    }
  }

  /** The indices of the files whose content differs. */
  function ChangedAt(files: seq<(string, string)>, updated: seq<(string, string)>): set<nat> {
    set i: nat | i < |files| && i < |updated| && updated[i].1 != files[i].1
  }

  lemma ChangedAtStep(files: seq<(string, string)>, updated: seq<(string, string)>, next: string)
    requires |updated| < |files|
    ensures var i := |updated|;
            |ChangedAt(files, updated + [(files[i].0, next)])|
            == |ChangedAt(files, updated)| + if next != files[i].1 then 1 else 0
  {
    var i := |updated|;
    var u := updated + [(files[i].0, next)];
    var before := ChangedAt(files, updated);
    var after := ChangedAt(files, u);
    forall k | k in after
      ensures k in before || k == i
    {
      if k < i {
        assert u[k] == updated[k];
      }
    }
    forall k | k in before
      ensures k in after
    {
      assert u[k] == updated[k];
    }
    assert i !in before;
    if next != files[i].1 {
      assert i in after;
      assert after == before + {i};
    } else {
      assert after == before;
    }
  }

  /** `scanForClosedInTitles` over a directory given as (name, content) pairs: the posts
      found, the directory afterwards, and the count of articles marked. */
  method ScanForClosedInTitles(files: seq<(string, string)>)
    returns (found: seq<(string, string)>, updated: seq<(string, string)>, autoMarked: nat)
    ensures found == ClosedTitles(files)
    ensures updated == MarkedFiles(files)
    ensures autoMarked == |ChangedAt(files, updated)|
  {
    BannerIsWarning();
    found := [];
    updated := [];
    autoMarked := 0;
    var i := 0;
    while i < |files|
      invariant 0 <= i <= |files|
      invariant found == ClosedTitles(files[..i])
      invariant updated == MarkedFiles(files[..i])
      invariant |updated| == i
      invariant autoMarked == |ChangedAt(files, updated)|
    {
      ClosedTitlesStep(files, i);
      MarkedFilesStep(files, i);
      var (file, content) := files[i];
      var hit := Hit(files[i]);
      var next := content;
      if hit.Some? {
        found := found + [hit.value];
        var r := InsertBanner(content, ClosedBanner);
        if r.1 {
          InsertedIsMarked(content, ClosedBanner);
          next := r.0;
          autoMarked := autoMarked + 1;
        }
      }
      assert next == Marked(files[i]);
      ChangedAtStep(files, updated, next);
      updated := updated + [(file, next)];
      i := i + 1;
    }
    assert files[..i] == files;
  }
}
