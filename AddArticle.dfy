/** The command-line article writer: argument parsing, the check of the required
    parameters, category normalisation and the generated Markdown file. */
module AddArticle {
  import opened Wrappers
  import opened Text
  import opened CategoryMapping
  import opened ArticleMarkdown

  /** The parameters the command line yields: the text after `--json`, which is then
      parsed as JSON, or the `--key value` pairs. */
  datatype Parsed = Json(text: string) | Params(values: map<string, Value>)

  /** `args.indexOf(x)`: the first position of `x`, or -1. */
  function IndexOf(args: seq<string>, x: string): (r: int)
    ensures -1 <= r < |args|
    ensures r >= 0 ==> args[r] == x && x !in args[..r]
    ensures r == -1 <==> x !in args
  {
    if |args| == 0 then -1
    else if args[0] == x then 0
    else
      var k := IndexOf(args[1..], x);
      if k == -1 then -1
      else
        assert args[..k + 1] == [args[0]] + args[1..][..k];
        k + 1
  }

  /** The key-value loop, from some position on, with the pairs read so far: a `--key`
      token takes the next token as its value when that is a non-empty string that does
      not itself start with `--`, and `true` otherwise; other tokens are skipped. */
  function ParamsOf(args: seq<string>, acc: map<string, Value>): map<string, Value>
    decreases |args|
  {
    if |args| == 0 then acc
    else if StartsWith(args[0], "--") then
      var key := args[0][2..];
      if |args| >= 2 && args[1] != "" && !StartsWith(args[1], "--")
      then ParamsOf(args[2..], acc[key := Str(args[1])])
      else ParamsOf(args[1..], acc[key := Flag])
    else ParamsOf(args[1..], acc)
  }

  /** `parseArgs`: a non-empty token after `--json` wins; otherwise the key-value pairs. */
  function ParseArgsSpec(args: seq<string>): Parsed {
    var j := IndexOf(args, "--json");
    if j >= 0 && j + 1 < |args| && args[j + 1] != "" then Json(args[j + 1])
    else Params(ParamsOf(args, map[]))
  }

  /** `parseArgs`, as the loop over the arguments that it is. */
  method ParseArgs(args: seq<string>) returns (r: Parsed)
    ensures r == ParseArgsSpec(args)
  {
    var j := IndexOf(args, "--json");
    if j >= 0 && j + 1 < |args| && args[j + 1] != "" {
      return Json(args[j + 1]);
    }
    var params: map<string, Value> := map[];
    var i := 0;
    while i < |args|
      invariant 0 <= i <= |args|
      invariant ParamsOf(args[i..], params) == ParamsOf(args, map[])
    {
      if StartsWith(args[i], "--") {
        var key := args[i][2..];
        if i + 1 < |args| && args[i + 1] != "" && !StartsWith(args[i + 1], "--") {
          assert args[i..][2..] == args[i + 2..];
          params := params[key := Str(args[i + 1])];
          i := i + 2;
        } else {
          assert args[i..][1..] == args[i + 1..];
          params := params[key := Flag];
          i := i + 1;
        }
      } else {
        assert args[i..][1..] == args[i + 1..];
        i := i + 1;
      }
    }
    assert args[i..] == [];
    return Params(params);
  }

  /** The value of a parameter, `undefined` when it is absent. */
  function Get(params: map<string, Value>, key: string): Value {
    if key in params then params[key] else Missing
  }

  // ---------------------------------------------------------------------------
  // properties of the parser

  /** `--key value` tokens for a list of pairs. */
  function Render(pairs: seq<(string, string)>): seq<string> {
    if |pairs| == 0 then [] else ["--" + pairs[0].0, pairs[0].1] + Render(pairs[1..])
  }

  /** The pairs as a dictionary, a later pair overriding an earlier one with its key. */
  function PairsMap(acc: map<string, Value>, pairs: seq<(string, string)>): map<string, Value>
    decreases |pairs|
  {
    if |pairs| == 0 then acc else PairsMap(acc[pairs[0].0 := Str(pairs[0].1)], pairs[1..])
  }

  /** A pair whose value the parser takes as a value. */
  predicate PlainPair(p: (string, string)) {
    p.1 != "" && !StartsWith(p.1, "--")
  }

  lemma {:induction false} ParamsOfRender(pairs: seq<(string, string)>, acc: map<string, Value>)
    requires forall p <- pairs :: PlainPair(p)
    ensures ParamsOf(Render(pairs), acc) == PairsMap(acc, pairs)
  {
    if |pairs| > 0 {
      var args := Render(pairs);
      assert pairs[0] in pairs;
      assert StartsWith(args[0], "--");
      assert args[0][2..] == pairs[0].0;
      assert args[2..] == Render(pairs[1..]);
      assert forall p <- pairs[1..] :: p in pairs;
      ParamsOfRender(pairs[1..], acc[pairs[0].0 := Str(pairs[0].1)]);
    }
  }

  lemma {:induction false} RenderHasNoJson(pairs: seq<(string, string)>)
    requires forall p <- pairs :: PlainPair(p) && p.0 != "json"
    ensures "--json" !in Render(pairs)
  {
    if |pairs| > 0 {
      assert pairs[0] in pairs;
      assert forall p <- pairs[1..] :: p in pairs;
      RenderHasNoJson(pairs[1..]);
      var k := pairs[0].0;
      assert ("--" + k)[2..] == k;
      assert "--json"[2..] == "json";
      assert "--json"[..2] == "--";
    }
  }

  /** Pairs written as `--key value` are parsed back into the same dictionary, provided
      no value is empty or looks like a key and no key is `json`. */
  lemma ParseRendered(pairs: seq<(string, string)>)
    requires forall p <- pairs :: PlainPair(p) && p.0 != "json"
    ensures ParseArgsSpec(Render(pairs)) == Params(PairsMap(map[], pairs))
  {
    RenderHasNoJson(pairs);
    ParamsOfRender(pairs, map[]);
  }

  /** Every parsed key comes from a `--key` token of the command line. */
  lemma {:induction false} KeysFromTokens(args: seq<string>, acc: map<string, Value>, key: string)
    requires key in ParamsOf(args, acc)
    ensures key in acc || "--" + key in args
    decreases |args|
  {
    if |args| > 0 {
      if StartsWith(args[0], "--") {
        var k := args[0][2..];
        assert args[0] == "--" + k;
        if |args| >= 2 && args[1] != "" && !StartsWith(args[1], "--") {
          KeysFromTokens(args[2..], acc[k := Str(args[1])], key);
          if "--" + key in args[2..] { assert "--" + key in args; }
        } else {
          KeysFromTokens(args[1..], acc[k := Flag], key);
          if "--" + key in args[1..] { assert "--" + key in args; }
        }
      } else {
        KeysFromTokens(args[1..], acc, key);
        if "--" + key in args[1..] { assert "--" + key in args; }
      }
    }
  }

  /** A `--key` token at the very end is `true`, whatever comes before it. */
  lemma {:induction false} TrailingFlag(args: seq<string>, acc: map<string, Value>, key: string)
    ensures var m := ParamsOf(args + ["--" + key], acc); key in m && m[key] == Flag
    decreases |args|
  {
    var f := "--" + key;
    assert StartsWith(f, "--") && f[2..] == key;
    if |args| == 0 {
      assert args + [f] == [f];
      assert [f][1..] == args;
    } else {
      var all := args + [f];
      if StartsWith(args[0], "--") {
        var k := args[0][2..];
        if |args| >= 2 && args[1] != "" && !StartsWith(args[1], "--") {
          assert all[2..] == args[2..] + [f];
          TrailingFlag(args[2..], acc[k := Str(args[1])], key);
        } else {
          assert all[1..] == args[1..] + [f];
          TrailingFlag(args[1..], acc[k := Flag], key);
        }
      } else {
        assert all[1..] == args[1..] + [f];
        TrailingFlag(args[1..], acc, key);
      }
    }
  }

  // ---------------------------------------------------------------------------
  // required parameters and the run

  const Required: seq<string> := ["title", "content", "link", "date", "category"]

  predicate Absent(params: map<string, Value>, field: string) {
    !Truthy(Get(params, field))
  }

  /** `validateParams`: the required parameters that are absent or falsy, in the order
      of the required list. */
  function MissingParams(params: map<string, Value>): (missing: seq<string>)
    ensures forall f :: f in missing <==> f in Required && Absent(params, f)
    ensures IsSubsequence(missing, Required)
  {
    var keep := (f: string) => Absent(params, f);
    FilterIsSubsequence(Required, keep);
    Filter(Required, keep)
  }

  /** `normalizeCategory` of the command-line writer. The result is always valid. */
  function NormalizeCategory(category: string): (r: string)
    ensures r in ValidCategories
  {
    ApiTableFacts();
    NormalizeCheckedValid(AddArticleTable, category);
    NormalizeChecked(AddArticleTable, category)
  }

  /** Normalising a normalised category changes nothing. */
  lemma NormalizeCategoryIdempotent(category: string)
    ensures NormalizeCategory(NormalizeCategory(category)) == NormalizeCategory(category)
  {
    ApiTableFacts();
    NormalizeCheckedIdempotent(AddArticleTable, category);
  }

  datatype Generated = Generated(markdown: string, slug: string, category: string)

  /** `generateMarkdown`. `iso` is `new Date(d).toISOString()`, none when that throws,
      `clean` is `cleanContent`, and `suffix` is the random part of a generated slug;
      `slug` is the `--slug` parameter, empty when absent. Whether or not a slug is given,
      the date is formatted for the front matter, so a date that does not format throws. */
  function GenerateMarkdown(a: Article, slug: string, suffix: string,
                            iso: string -> Option<string>, clean: string -> string): (g: Option<Generated>)
    ensures g.None? <==> iso(a.date).None?
    ensures g.Some? ==> g.value.category in ValidCategories
    ensures g.Some? && slug != "" ==> g.value.slug == slug
    ensures g.Some? && slug == "" ==> exists d :: g.value.slug == d + "-" + suffix && '-' !in d
  {
    match iso(a.date)
    case None => None
    case Some(formatted) =>
      var category := NormalizeCategory(a.category);
      var finalSlug := if slug != "" then slug else SlugFor(formatted, suffix);
      Some(Generated(Document(a.title, formatted, category, TagList(a.tags), a.link, clean(a.content)),
                     finalSlug, category))
  }

  /** The generated file opens its front matter and a YAML reader recovers the title
      from it. */
  lemma GeneratedTitle(a: Article, slug: string, suffix: string,
                       iso: string -> Option<string>, clean: string -> string)
    requires '\n' !in a.title
    ensures var g := GenerateMarkdown(a, slug, suffix, iso, clean);
            g.Some? ==>
              var lines := Split(g.value.markdown, '\n');
              |lines| >= 3 && lines[0] == "---" && |lines[1]| >= 9
              && UnescapeTitle(lines[1][8..|lines[1]| - 1]) == a.title
  {
    if iso(a.date).Some? {
      var category := NormalizeCategory(a.category);
      DocumentTitleLine(a.title, iso(a.date).value, category, TagList(a.tags), a.link, clean(a.content));
    }
  }

  /** `main`'s `params.deploy === true || params.deploy === 'true'`. */
  predicate ShouldDeploy(v: Value) {
    v == Flag || v == Str("true")
  }

  /** A bare `--deploy` at the end of a command line without `--json` asks for a
      deployment. */
  lemma TrailingDeploy(args: seq<string>)
    requires "--json" !in args
    ensures var p := ParseArgsSpec(args + ["--deploy"]);
            p.Params? && ShouldDeploy(Get(p.values, "deploy"))
  {
    assert "--json" != "--deploy";
    assert "--json" !in args + ["--deploy"];
    TrailingFlag(args, map[], "deploy");
    assert "--" + "deploy" == "--deploy";
  }

  /** A command-line value as the template prints it: a bare flag is `true`. Command-line
      parameters are only ever strings or flags. */
  function ArgText(v: Value): string {
    match v
    case Str(s) => s
    case Flag => "true"
    case _ => ""
  }

  datatype RunOutcome =
    | JsonInput(text: string)
    | MissingRequired(fields: seq<string>)
    | Written(file: Generated, deploy: bool)
    | TypeError
    | InvalidDate

  /** `main` from the command line to the file it writes: JSON input is handed to the
      JSON parser; missing required parameters stop the run; otherwise `generateMarkdown`
      runs, in which a slug generated from a date that does not format throws first
      (`RangeError`), then a title or content given as a bare flag, which is `true`, on
      which the string methods throw (`TypeError`), then the front matter's date that
      does not format; a file that is generated is written, and a deployment follows on
      request. */
  function Run(args: seq<string>, suffix: string, iso: string -> Option<string>, clean: string -> string): (r: RunOutcome)
    ensures r.MissingRequired? ==> r.fields != [] && forall f <- r.fields :: f in Required
    ensures r.Written? ==> r.file.category in ValidCategories
    ensures ParseArgsSpec(args).Params? && !r.MissingRequired? ==>
              forall f <- Required :: Truthy(Get(ParseArgsSpec(args).values, f))
    ensures ParseArgsSpec(args).Params? && r.InvalidDate? ==>
              iso(ArgText(Get(ParseArgsSpec(args).values, "date"))).None?
    ensures ParseArgsSpec(args).Params? && r.Written? ==>
              iso(ArgText(Get(ParseArgsSpec(args).values, "date"))).Some?
    ensures (ParseArgsSpec(args).Params? && MissingParams(ParseArgsSpec(args).values) == []
             && Get(ParseArgsSpec(args).values, "title") != Flag && Get(ParseArgsSpec(args).values, "content") != Flag
             && iso(ArgText(Get(ParseArgsSpec(args).values, "date"))).Some?) ==> r.Written?
  {
    match ParseArgsSpec(args)
    case Json(text) => JsonInput(text)
    case Params(p) =>
      var missing := MissingParams(p);
      if missing != [] then MissingRequired(missing)
      else
        var a := Article(ArgText(Get(p, "title")), ArgText(Get(p, "content")), ArgText(Get(p, "link")),
                         ArgText(Get(p, "date")), ArgText(Get(p, "category")), Get(p, "tags"));
        var slug := if Truthy(Get(p, "slug")) then ArgText(Get(p, "slug")) else "";
        if slug == "" && iso(a.date).None? then InvalidDate
        else if Get(p, "title") == Flag || Get(p, "content") == Flag then TypeError
        else
          match GenerateMarkdown(a, slug, suffix, iso, clean)
          case None => InvalidDate
          case Some(g) => Written(g, ShouldDeploy(Get(p, "deploy")))
  }
}
