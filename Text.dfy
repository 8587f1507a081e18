/** String and list helpers shared by the blog's maintenance scripts: JavaScript's
    white-space class, `trim`, substring search, `split`/`join`, deduplication through
    `new Set(...)`, and the order `Array.prototype.sort()` uses on strings. */
module Text {

  /** The characters matched by JavaScript's `\s` and removed by `String.prototype.trim`. */
  predicate IsSpace(c: char) {
    if c < '\U{80}' then '\t' <= c <= '\r' || c == ' ' else IsWideSpace(c)
  }

  /** The white-space characters of `\s` outside ASCII. */
  predicate IsWideSpace(c: char) {
    || c == '\U{A0}' || c == '\U{1680}' || ('\U{2000}' <= c <= '\U{200A}')
    || c == '\U{2028}' || c == '\U{2029}' || c == '\U{202F}' || c == '\U{205F}'
    || c == '\U{3000}' || c == '\U{FEFF}'
  }

  /** The characters JavaScript's `.` refuses to match (line terminators). */
  predicate IsLineTerminator(c: char) {
    c == '\n' || c == '\r' || c == '\U{2028}' || c == '\U{2029}'
  }

  predicate IsDigit(c: char) {
    '0' <= c <= '9'
  }

  predicate AllSpace(s: string) {
    forall i | 0 <= i < |s| :: IsSpace(s[i])
  }

  // ---------------------------------------------------------------------------
  // trim

  /** Number of white-space characters at the front of `s`. */
  function LeadingSpace(s: string): (n: nat)
    ensures n <= |s|
    ensures forall i | 0 <= i < n :: IsSpace(s[i])
    ensures n < |s| ==> !IsSpace(s[n])
  {
    if |s| == 0 || !IsSpace(s[0]) then 0 else 1 + LeadingSpace(s[1..])
  }

  /** Number of white-space characters at the end of `s`. */
  function TrailingSpace(s: string): (n: nat)
    ensures n <= |s|
    ensures forall i | |s| - n <= i < |s| :: IsSpace(s[i])
    ensures n < |s| ==> !IsSpace(s[|s| - n - 1])
  {
    if |s| == 0 || !IsSpace(s[|s| - 1]) then 0 else 1 + TrailingSpace(s[..|s| - 1])
  }

  /** `String.prototype.trim`: `s` without its leading and trailing white space. The
      result is the slice of `s` that starts after the leading white space; everything
      outside it is white space, and neither of its ends is. */
  function Trim(s: string): (r: string)
    ensures LeadingSpace(s) + |r| <= |s| && r == s[LeadingSpace(s)..LeadingSpace(s) + |r|]
    ensures AllSpace(s[..LeadingSpace(s)]) && AllSpace(s[LeadingSpace(s) + |r|..])
    ensures r == [] || (!IsSpace(r[0]) && !IsSpace(r[|r| - 1]))
  {
    var a := LeadingSpace(s);
    var rest := s[a..];
    var b := TrailingSpace(rest);
    TrimParts(s, a, rest, b);
    rest[..|rest| - b]
  }

  /** The proof of `Trim`'s contract, on its parts. */
  lemma TrimParts(s: string, a: nat, rest: string, b: nat)
    requires a == LeadingSpace(s) && rest == s[a..] && b == TrailingSpace(rest)
    ensures var r := rest[..|rest| - b];
            a + |r| <= |s| && r == s[a..a + |r|]
            && AllSpace(s[..a]) && AllSpace(s[a + |r|..])
            && (r == [] || (!IsSpace(r[0]) && !IsSpace(r[|r| - 1])))
  {
    var r := rest[..|rest| - b];
    assert r == s[a..a + |r|];
    LeadingAllSpace(s, a);
    TrailingAllSpace(s, a, rest, b);
    if r != [] {
      assert r[0] == rest[0];
      assert r[|r| - 1] == rest[|rest| - b - 1];
    }
  }

  lemma LeadingAllSpace(s: string, a: nat)
    requires a == LeadingSpace(s)
    ensures AllSpace(s[..a])
  {
    forall i | 0 <= i < a ensures IsSpace(s[..a][i]) { assert s[..a][i] == s[i]; }
  }

  lemma TrailingAllSpace(s: string, a: nat, rest: string, b: nat)
    requires a <= |s| && rest == s[a..] && b == TrailingSpace(rest)
    ensures AllSpace(s[|s| - b..])
  {
    var tail := s[|s| - b..];
    forall i | 0 <= i < |tail| ensures IsSpace(tail[i]) {
      assert tail[i] == rest[|rest| - b + i];
    }
  }

  lemma {:induction false} TrimOfTrimmed(s: string)
    requires s == [] || (!IsSpace(s[0]) && !IsSpace(s[|s| - 1]))
    ensures Trim(s) == s
  {
    assert LeadingSpace(s) == 0;
    assert s[0..] == s;
    assert TrailingSpace(s) == 0;
  }

  /** Trimming twice is trimming once. */
  lemma TrimIdempotent(s: string)
    ensures Trim(Trim(s)) == Trim(s)
  {
    TrimOfTrimmed(Trim(s));
  }

  /** A trimmed string is empty exactly when the original is all white space. */
  lemma {:induction false} TrimEmptyIffAllSpace(s: string)
    ensures Trim(s) == [] <==> AllSpace(s)
  {
    var a := LeadingSpace(s);
    if !AllSpace(s) {
      var k :| 0 <= k < |s| && !IsSpace(s[k]);
      assert a <= k;
      var rest := s[a..];
      assert !IsSpace(rest[0]);
      var b := TrailingSpace(rest);
      assert b < |rest|;
    }
  }

  // ---------------------------------------------------------------------------
  // substring search

  /** `pat` occurs in `s` at index `i`. */
  predicate MatchesAt(s: string, i: int, pat: string) {
    0 <= i && i + |pat| <= |s| && s[i..i + |pat|] == pat
  }

  /** `s.indexOf(pat, from)`: the first index at or after `from` where `pat` occurs, or -1. */
  function IndexOfFrom(s: string, pat: string, from: nat): (r: int)
    ensures r == -1 || (from <= r && MatchesAt(s, r, pat))
    ensures forall i | from <= i && (r == -1 || i < r) :: !MatchesAt(s, i, pat)
    decreases |s| - from
  {
    if from + |pat| > |s| then -1
    else if s[from..from + |pat|] == pat then from
    else IndexOfFrom(s, pat, from + 1)
  }

  /** The first occurrence from `from` is the one with none before it. */
  lemma {:induction false} IndexOfFromFirst(s: string, pat: string, from: nat, e: nat)
    requires from <= e && MatchesAt(s, e, pat)
    requires forall i | from <= i < e :: !MatchesAt(s, i, pat)
    ensures IndexOfFrom(s, pat, from) == e
    decreases e - from
  {
    if from < e {
      IndexOfFromFirst(s, pat, from + 1, e);
    }
  }

  /** `s.includes(pat)`. */
  function Contains(s: string, pat: string): (b: bool)
    ensures b <==> exists i :: MatchesAt(s, i, pat)
  {
    IndexOfFrom(s, pat, 0) >= 0
  }

  /** Whatever occurs in `a` still occurs once text is added around it. */
  lemma ContainsInContext(a: string, pat: string, pre: string, post: string)
    requires Contains(a, pat)
    ensures Contains(pre + a + post, pat)
  {
    var i :| MatchesAt(a, i, pat);
    assert (pre + a + post)[|pre| + i..|pre| + i + |pat|] == a[i..i + |pat|];
    assert MatchesAt(pre + a + post, |pre| + i, pat);
  }

  /** A pattern whose first character does not occur in `s` does not occur in `s`. */
  lemma ContainsNeedsFirst(s: string, pat: string)
    requires |pat| > 0 && pat[0] !in s
    ensures !Contains(s, pat)
  {
  }

  /** `s.replace(pat, rep)` with a string pattern: its first occurrence replaced. */
  function ReplaceFirst(s: string, pat: string, rep: string): string {
    var i := IndexOfFrom(s, pat, 0);
    if i < 0 then s else s[..i] + rep + s[i + |pat|..]
  }

  /** `s.startsWith(p)`. */
  predicate StartsWith(s: string, p: string) {
    |p| <= |s| && s[..|p|] == p
  }

  /** `s.endsWith(p)`. */
  predicate EndsWith(s: string, p: string) {
    |p| <= |s| && s[|s| - |p|..] == p
  }

  // ---------------------------------------------------------------------------
  // split and join

  /** `s.split(/[...]/)` for a one-character class `seps`: the pieces between separators,
      empty pieces included. */
  function SplitAny(s: string, seps: set<char>): (parts: seq<string>)
    ensures |parts| >= 1
    ensures forall p <- parts :: forall c <- p :: c !in seps
  {
    if |s| == 0 then [""]
    else
      var rest := SplitAny(s[1..], seps);
      if s[0] in seps then [""] + rest
      else
        var head := [s[0]] + rest[0];
        assert forall c <- head :: c !in seps by {
          forall c <- head ensures c !in seps {
            if c != s[0] { assert rest[0] in rest; }
          }
        }
        var parts := [head] + rest[1..];
        assert forall p <- parts :: forall c <- p :: c !in seps by {
          forall p <- parts ensures forall c <- p :: c !in seps {
            if p != head { assert p in rest[1..]; assert p in rest; }
          }
        }
        parts
  }

  /** `s.split(sep)` for a one-character separator. */
  function Split(s: string, sep: char): (parts: seq<string>)
    ensures |parts| >= 1
    ensures forall p <- parts :: sep !in p
  {
    SplitAny(s, {sep})
  }

  /** `parts.join(sep)`. */
  function Join(parts: seq<string>, sep: string): string {
    if |parts| == 0 then ""
    else if |parts| == 1 then parts[0]
    else parts[0] + sep + Join(parts[1..], sep)
  }

  /** A character found in no piece and not in the separator is not in the join. */
  lemma {:induction false} JoinLacks(ps: seq<string>, sep: string, c: char)
    requires c !in sep && forall p <- ps :: c !in p
    ensures c !in Join(ps, sep)
  {
    if |ps| > 1 {
      assert forall p <- ps[1..] :: p in ps;
      JoinLacks(ps[1..], sep, c);
      assert ps[0] in ps;
    }
  }

  /** Every character of a piece comes from the string split. */
  lemma {:induction false} SplitAnyWithin(s: string, seps: set<char>)
    ensures forall p <- SplitAny(s, seps), c <- p :: c in s
  {
    if |s| > 0 {
      SplitAnyWithin(s[1..], seps);
      assert forall c <- s[1..] :: c in s;
    }
  }

  /** Joining the pieces back with the separator gives the original string. */
  lemma {:induction false} JoinSplit(s: string, sep: char)
    ensures Join(Split(s, sep), [sep]) == s
  {
    if |s| > 0 {
      JoinSplit(s[1..], sep);
      var rest := Split(s[1..], sep);
      if s[0] != sep {
        assert Split(s, sep) == [[s[0]] + rest[0]] + rest[1..];
        if |rest| > 1 {
          assert rest == [rest[0]] + rest[1..];
          assert Join(rest, [sep]) == rest[0] + [sep] + Join(rest[1..], [sep]);
        }
        assert s == [s[0]] + s[1..];
      } else {
        assert s == [sep] + s[1..];
      }
    }
  }

  /** Splitting a join of separator-free pieces gives the pieces back. */
  lemma {:induction false} SplitJoin(parts: seq<string>, sep: char)
    requires |parts| >= 1
    requires forall p <- parts :: sep !in p
    ensures Split(Join(parts, [sep]), sep) == parts
  {
    if |parts| == 1 {
      SplitAnyNoSeparator(parts[0], {sep});
    } else {
      SplitJoin(parts[1..], sep);
      SplitPrefix(parts[0], Join(parts[1..], [sep]), sep);
      assert parts == [parts[0]] + parts[1..];
    }
  }

  /** A string without any separator is a single piece. */
  lemma {:induction false} SplitAnyNoSeparator(s: string, seps: set<char>)
    requires forall c <- s :: c !in seps
    ensures SplitAny(s, seps) == [s]
  {
    if |s| > 0 {
      SplitAnyNoSeparator(s[1..], seps);
      assert s == [s[0]] + s[1..];
    }
  }

  lemma {:induction false} SplitPrefix(p: string, t: string, sep: char)
    requires sep !in p
    ensures Split(p + [sep] + t, sep) == [p] + Split(t, sep)
  {
    if |p| == 0 {
      assert p + [sep] + t == [sep] + t;
      assert ([sep] + t)[1..] == t;
    } else {
      SplitPrefix(p[1..], t, sep);
      assert (p + [sep] + t)[1..] == p[1..] + [sep] + t;
      assert p == [p[0]] + p[1..];
    }
  }

  // ---------------------------------------------------------------------------
  // filtering, subsequences, deduplication

  /** `xs.filter(keep)`. */
  function Filter<T>(xs: seq<T>, keep: T -> bool): (r: seq<T>)
    ensures |r| <= |xs|
    ensures forall x <- r :: x in xs && keep(x)
    ensures forall x <- xs :: keep(x) ==> x in r
  {
    if |xs| == 0 then []
    else
      var rest := Filter(xs[1..], keep);
      if keep(xs[0]) then [xs[0]] + rest else rest
  }

  /** Filtering keeps a list whose every element passes as it is. */
  lemma {:induction false} FilterAll<T>(xs: seq<T>, keep: T -> bool)
    requires forall x <- xs :: keep(x)
    ensures Filter(xs, keep) == xs
  {
    if |xs| > 0 {
      assert forall x <- xs[1..] :: x in xs;
      FilterAll(xs[1..], keep);
      assert xs[0] in xs;
      assert xs == [xs[0]] + xs[1..];
    }
  }

  /** Filtering removes nothing exactly when every element passes. */
  lemma {:induction false} FilterSameLength<T>(xs: seq<T>, keep: T -> bool)
    ensures |Filter(xs, keep)| == |xs| <==> forall x <- xs :: keep(x)
  {
    if |xs| > 0 {
      FilterSameLength(xs[1..], keep);
      assert forall x <- xs :: x == xs[0] || x in xs[1..] by {
        assert xs == [xs[0]] + xs[1..];
      }
      assert forall x <- xs[1..] :: x in xs;
    }
  }

  /** Filtering a list with one more element at its end. */
  lemma {:induction false} FilterSnoc<T>(xs: seq<T>, x: T, keep: T -> bool)
    ensures Filter(xs + [x], keep) == Filter(xs, keep) + (if keep(x) then [x] else [])
  {
    if |xs| > 0 {
      assert (xs + [x])[1..] == xs[1..] + [x];
      FilterSnoc(xs[1..], x, keep);
    } else {
      assert (xs + [x])[1..] == [];
    }
  }

  /** Filtering a concatenation filters each part. */
  lemma {:induction false} FilterAppend<T>(xs: seq<T>, ys: seq<T>, keep: T -> bool)
    ensures Filter(xs + ys, keep) == Filter(xs, keep) + Filter(ys, keep)
    decreases |ys|
  {
    if |ys| == 0 {
      assert xs + ys == xs;
    } else {
      var init := ys[..|ys| - 1];
      var y := ys[|ys| - 1];
      assert xs + ys == (xs + init) + [y];
      assert ys == init + [y];
      FilterAppend(xs, init, keep);
      FilterSnoc(xs + init, y, keep);
      FilterSnoc(init, y, keep);
    }
  }

  /** Filtering twice with the same test is filtering once. */
  lemma FilterIdempotent<T>(xs: seq<T>, keep: T -> bool)
    ensures Filter(Filter(xs, keep), keep) == Filter(xs, keep)
  {
    FilterAll(Filter(xs, keep), keep);
  }

  /** An element of a non-empty sequence is its last one or one of those before. */
  lemma InInitOrLast<T>(xs: seq<T>)
    requires |xs| > 0
    ensures forall x <- xs :: x in xs[..|xs| - 1] || x == xs[|xs| - 1]
    ensures forall x <- xs[..|xs| - 1] :: x in xs
  {
    forall x <- xs
      ensures x in xs[..|xs| - 1] || x == xs[|xs| - 1]
    {
      var k :| 0 <= k < |xs| && xs[k] == x;
      if k < |xs| - 1 {
        assert xs[..|xs| - 1][k] == x;
      }
    }
  }

  /** `a` is `b` with some elements deleted, order kept. */
  predicate IsSubsequence<T(==)>(a: seq<T>, b: seq<T>) {
    if |a| == 0 then true
    else if |b| == 0 then false
    else if a[0] == b[0] then IsSubsequence(a[1..], b[1..])
    else IsSubsequence(a, b[1..])
  }

  lemma {:induction false} FilterIsSubsequence<T>(xs: seq<T>, keep: T -> bool)
    ensures IsSubsequence(Filter(xs, keep), xs)
  {
    if |xs| > 0 {
      FilterIsSubsequence(xs[1..], keep);
      var rest := Filter(xs[1..], keep);
      if !keep(xs[0]) && |rest| > 0 {
        SubsequenceSkip(rest, xs[1..], xs[0]);
      }
    }
  }

  lemma {:induction false} SubsequenceSkip<T>(a: seq<T>, b: seq<T>, x: T)
    requires IsSubsequence(a, b)
    ensures IsSubsequence(a, [x] + b)
    decreases |a| + |b|, 1
  {
    if |a| > 0 && a[0] == x {
      // the first element may be matched against x itself
      SubsequenceDropFirst(a, b);
      assert ([x] + b)[1..] == b;
    } else if |a| > 0 {
      assert ([x] + b)[1..] == b;
    }
  }

  lemma {:induction false} SubsequenceDropFirst<T>(a: seq<T>, b: seq<T>)
    requires |a| > 0 && IsSubsequence(a, b)
    ensures IsSubsequence(a[1..], b)
    decreases |a| + |b|, 0
  {
    if a[0] == b[0] {
      SubsequenceSkip(a[1..], b[1..], b[0]);
      assert [b[0]] + b[1..] == b;
    } else {
      SubsequenceDropFirst(a, b[1..]);
      SubsequenceSkip(a[1..], b[1..], b[0]);
      assert [b[0]] + b[1..] == b;
    }
  }

  /** A subsequence stays one when an element is added after the longer list. */
  lemma {:induction false} SubsequenceAppendRight<T>(a: seq<T>, b: seq<T>, x: T)
    requires IsSubsequence(a, b)
    ensures IsSubsequence(a, b + [x])
    decreases |b|
  {
    if |a| > 0 {
      assert (b + [x])[0] == b[0] && (b + [x])[1..] == b[1..] + [x];
      if a[0] == b[0] {
        SubsequenceAppendRight(a[1..], b[1..], x);
      } else {
        SubsequenceAppendRight(a, b[1..], x);
      }
    }
  }

  /** A one-element list is a subsequence of any list that ends with it. */
  lemma {:induction false} SubsequenceLast<T>(c: seq<T>, x: T)
    ensures IsSubsequence([x], c + [x])
    decreases |c|
  {
    if |c| > 0 {
      assert (c + [x])[1..] == c[1..] + [x];
      SubsequenceLast(c[1..], x);
      if c[0] == x {
        assert [x][1..] == [];
      }
    }
  }

  /** A subsequence stays one when the same element is added after both lists. */
  lemma {:induction false} SubsequenceAppendBoth<T>(a: seq<T>, b: seq<T>, x: T)
    requires IsSubsequence(a, b)
    ensures IsSubsequence(a + [x], b + [x])
    decreases |b|
  {
    if |a| == 0 {
      assert a + [x] == [x];
      SubsequenceLast(b, x);
    } else {
      assert (b + [x])[0] == b[0] && (b + [x])[1..] == b[1..] + [x];
      assert (a + [x])[0] == a[0] && (a + [x])[1..] == a[1..] + [x];
      if a[0] == b[0] {
        SubsequenceAppendBoth(a[1..], b[1..], x);
      } else {
        SubsequenceAppendBoth(a, b[1..], x);
      }
    }
  }

  /** No element occurs twice. */
  predicate Distinct<T(==)>(xs: seq<T>) {
    forall i, j | 0 <= i < j < |xs| :: xs[i] != xs[j]
  }

  /** `[...new Set(xs)]`: the elements of `xs`, each kept at its first occurrence. */
  function Dedupe<T(==)>(xs: seq<T>): (r: seq<T>)
    ensures Distinct(r)
    ensures forall x <- r :: x in xs
    ensures forall x <- xs :: x in r
    ensures |r| <= |xs|
  {
    if |xs| == 0 then []
    else
      var d := Dedupe(xs[..|xs| - 1]);
      var last := xs[|xs| - 1];
      assert xs == xs[..|xs| - 1] + [last];
      if last in d then d else d + [last]
  }

  /** The position of the first occurrence of `x` in `xs`. */
  function FirstIndex<T(==)>(xs: seq<T>, x: T): (k: nat)
    requires x in xs
    ensures k < |xs| && xs[k] == x && x !in xs[..k]
  {
    if xs[0] == x then 0
    else
      assert x in xs[1..];
      var k := 1 + FirstIndex(xs[1..], x);
      assert xs[..k] == [xs[0]] + xs[1..][..k - 1];
      k
  }

  /** Text added after the first occurrence does not move it. */
  lemma FirstIndexAppend<T>(xs: seq<T>, ys: seq<T>, x: T)
    requires x in xs
    ensures FirstIndex(xs + ys, x) == FirstIndex(xs, x)
  {
    var k1, k2 := FirstIndex(xs + ys, x), FirstIndex(xs, x);
    assert (xs + ys)[..k2] == xs[..k2];
    assert (xs + ys)[k2] == x;
  }

  /** `new Set` keeps each element where it first occurs: the deduplicated list holds the
      elements in the order of their first occurrences. */
  lemma {:induction false} DedupeFirstOccurrence<T>(xs: seq<T>)
    ensures forall i, j | 0 <= i < j < |Dedupe(xs)| ::
              FirstIndex(xs, Dedupe(xs)[i]) < FirstIndex(xs, Dedupe(xs)[j])
  {
    if |xs| > 0 {
      var init, last := xs[..|xs| - 1], xs[|xs| - 1];
      assert xs == init + [last];
      var d := Dedupe(init);
      DedupeFirstOccurrence(init);
      forall y <- d
        ensures FirstIndex(xs, y) == FirstIndex(init, y) < |init|
      {
        FirstIndexAppend(init, [last], y);
      }
      if last !in d {
        assert last !in init;
        assert FirstIndex(xs, last) == |init|;
      }
    }
  }

  /** A list without repetitions is left unchanged by deduplication. */
  lemma {:induction false} DedupeDistinct<T>(xs: seq<T>)
    requires Distinct(xs)
    ensures Dedupe(xs) == xs
  {
    if |xs| > 0 {
      var init := xs[..|xs| - 1];
      DedupeDistinct(init);
      assert xs[|xs| - 1] !in init;
      assert init + [xs[|xs| - 1]] == xs;
    }
  }

  /** Deduplicating `a + b` keeps all of `Dedupe(a)` in front. */
  lemma {:induction false} DedupeAppend<T>(a: seq<T>, b: seq<T>)
    ensures |Dedupe(a)| <= |Dedupe(a + b)|
    ensures Dedupe(a + b)[..|Dedupe(a)|] == Dedupe(a)
    decreases |b|
  {
    if |b| == 0 {
      assert a + b == a;
    } else {
      var b' := b[..|b| - 1];
      DedupeAppend(a, b');
      assert (a + b)[..|a + b| - 1] == a + b';
    }
  }

  /** A list is without repetitions exactly when it holds no element twice as a multiset. */
  lemma DistinctIffSingleCounts<T>(xs: seq<T>)
    ensures Distinct(xs) <==> forall x :: multiset(xs)[x] <= 1
  {
    if Distinct(xs) {
      DistinctCounts(xs);
    } else {
      var i, j :| 0 <= i < j < |xs| && xs[i] == xs[j];
      assert xs == xs[..j] + xs[j..];
      assert xs[i] in xs[..j] && xs[j] in xs[j..];
      assert multiset(xs)[xs[i]] == multiset(xs[..j])[xs[i]] + multiset(xs[j..])[xs[i]];
    }
  }

  lemma {:induction false} DistinctCounts<T>(xs: seq<T>)
    requires Distinct(xs)
    ensures forall x :: multiset(xs)[x] <= 1
  {
    if |xs| > 0 {
      assert xs == [xs[0]] + xs[1..];
      DistinctCounts(xs[1..]);
      assert xs[0] !in xs[1..];
    }
  }

  /** Deduplicating a list without repetitions followed by elements it already holds gives
      the list back. */
  lemma {:induction false} DedupeCovered<T>(a: seq<T>, b: seq<T>)
    requires Distinct(a) && forall x <- b :: x in a
    ensures Dedupe(a + b) == a
    decreases |b|
  {
    if |b| == 0 {
      assert a + b == a;
      DedupeDistinct(a);
    } else {
      var b' := b[..|b| - 1];
      assert (a + b)[..|a + b| - 1] == a + b';
      assert b[|b| - 1] in b;
      DedupeCovered(a, b');
    }
  }

  /** `[...new Set([...a, ...b])]` holds the same strings as `a`, counted with repetition,
      exactly when `a` has no repetition and already holds every element of `b`: the
      condition under which the scripts see an unchanged tag list. */
  lemma MergeUnchangedIff<T>(a: seq<T>, b: seq<T>)
    ensures multiset(Dedupe(a + b)) == multiset(a) <==> Distinct(a) && forall x <- b :: x in a
  {
    var m := Dedupe(a + b);
    if Distinct(a) && forall x <- b :: x in a {
      DedupeCovered(a, b);
    }
    if multiset(m) == multiset(a) {
      DistinctIffSingleCounts(m);
      DistinctIffSingleCounts(a);
      forall x <- b
        ensures x in a
      {
        assert x in a + b;
        assert x in multiset(m);
      }
    }
  }

  /** A list holding the same strings as one without repetitions has none either. */
  lemma SameMultisetDistinct<T>(a: seq<T>, b: seq<T>)
    requires Distinct(a) && multiset(a) == multiset(b)
    ensures Distinct(b)
  {
    DistinctIffSingleCounts(a);
    DistinctIffSingleCounts(b);
  }

  // ---------------------------------------------------------------------------
  // sorting strings

  /** The first UTF-16 code unit of a character: the character itself below U+10000,
      otherwise its high surrogate. */
  function LeadUnit(c: char): (u: int)
    ensures 0 <= u < 0x10000
    ensures c as int < 0x10000 ==> u == c as int
    ensures c as int >= 0x10000 ==> 0xD800 <= u < 0xDC00
  {
    if c as int < 0x10000 then c as int else 0xD800 + (c as int - 0x10000) / 0x400
  }

  /** Characters in the order of their UTF-16 encodings: by the first code unit, and
      between two characters above U+FFFF with the same high surrogate, by the low one,
      which follows the code point. A character above U+FFFF thus comes before one in
      U+E000 to U+FFFF. */
  predicate CharBefore(c: char, d: char) {
    LeadUnit(c) < LeadUnit(d) || (LeadUnit(c) == LeadUnit(d) && c < d)
  }

  /** The order `Array.prototype.sort()` uses for strings: lexicographic on UTF-16 code
      units, which is lexicographic on characters ordered by `CharBefore`. */
  predicate StrLe(a: string, b: string) {
    |a| == 0 || (|b| > 0 && (CharBefore(a[0], b[0]) || (a[0] == b[0] && StrLe(a[1..], b[1..]))))
  }

  lemma {:induction false} StrLeReflexive(a: string)
    ensures StrLe(a, a)
  {
    if |a| > 0 { StrLeReflexive(a[1..]); }
  }

  lemma {:induction false} StrLeTotal(a: string, b: string)
    ensures StrLe(a, b) || StrLe(b, a)
  {
    if |a| > 0 && |b| > 0 && a[0] == b[0] {
      StrLeTotal(a[1..], b[1..]);
    }
  }

  lemma {:induction false} StrLeAntisymmetric(a: string, b: string)
    requires StrLe(a, b) && StrLe(b, a)
    ensures a == b
  {
    if |a| > 0 && |b| > 0 {
      StrLeAntisymmetric(a[1..], b[1..]);
      assert a == [a[0]] + a[1..] && b == [b[0]] + b[1..];
    }
  }

  lemma {:induction false} StrLeTransitive(a: string, b: string, c: string)
    requires StrLe(a, b) && StrLe(b, c)
    ensures StrLe(a, c)
  {
    if |a| > 0 && |b| > 0 && |c| > 0 && a[0] == b[0] && b[0] == c[0] {
      StrLeTransitive(a[1..], b[1..], c[1..]);
    }
  }

  predicate SortedStrings(xs: seq<string>) {
    forall i, j | 0 <= i < j < |xs| :: StrLe(xs[i], xs[j])
  }

  function InsertString(x: string, xs: seq<string>): seq<string> {
    if |xs| == 0 then [x]
    else if StrLe(x, xs[0]) then [x] + xs
    else [xs[0]] + InsertString(x, xs[1..])
  }

  lemma {:induction false} InsertStringMultiset(x: string, xs: seq<string>)
    ensures multiset(InsertString(x, xs)) == multiset(xs) + multiset{x}
  {
    if |xs| > 0 && !StrLe(x, xs[0]) {
      InsertStringMultiset(x, xs[1..]);
      assert xs == [xs[0]] + xs[1..];
    }
  }

  lemma {:induction false} InsertStringCorrect(x: string, xs: seq<string>)
    requires SortedStrings(xs)
    ensures SortedStrings(InsertString(x, xs))
    ensures multiset(InsertString(x, xs)) == multiset(xs) + multiset{x}
  {
    InsertStringMultiset(x, xs);
    if |xs| == 0 {
    } else if StrLe(x, xs[0]) {
      forall j | 0 <= j < |xs| ensures StrLe(x, xs[j]) {
        if j > 0 { StrLeTransitive(x, xs[0], xs[j]); }
      }
    } else {
      StrLeTotal(x, xs[0]);
      var tail := xs[1..];
      var rest := InsertString(x, tail);
      InsertStringCorrect(x, tail);
      forall y | y in rest ensures StrLe(xs[0], y) {
        assert y in multiset(rest);
        assert y == x || y in multiset(tail);
        if y != x {
          var k :| 0 <= k < |tail| && tail[k] == y;
          assert xs[k + 1] == y;
        }
      }
      RestSorted(xs[0], rest);
    }
  }

  lemma RestSorted(h: string, rest: seq<string>)
    requires SortedStrings(rest)
    requires forall y | y in rest :: StrLe(h, y)
    ensures SortedStrings([h] + rest)
  {
    var r := [h] + rest;
    forall i, j | 0 <= i < j < |r| ensures StrLe(r[i], r[j]) {
      if i == 0 { assert r[j] == rest[j - 1]; } else { assert r[i] == rest[i - 1] && r[j] == rest[j - 1]; }
    }
  }

  /** `xs.slice().sort()` for strings. */
  function SortStrings(xs: seq<string>): (r: seq<string>)
    ensures SortedStrings(r)
    ensures multiset(r) == multiset(xs)
  {
    if |xs| == 0 then []
    else
      assert xs == [xs[0]] + xs[1..];
      InsertStringCorrect(xs[0], SortStrings(xs[1..]));
      InsertString(xs[0], SortStrings(xs[1..]))
  }

  /** Two non-empty sorted lists with the same elements start with the same string. */
  lemma SortedHeadsEqual(a: seq<string>, b: seq<string>)
    requires SortedStrings(a) && SortedStrings(b)
    requires multiset(a) == multiset(b) && |a| > 0 && |b| > 0
    ensures a[0] == b[0]
  {
    assert a[0] in multiset(b);
    assert b[0] in multiset(a);
    var i :| 0 <= i < |b| && b[i] == a[0];
    var j :| 0 <= j < |a| && a[j] == b[0];
    StrLeReflexive(a[0]);
    StrLeReflexive(b[0]);
    assert StrLe(b[0], a[0]) by { if i > 0 { assert StrLe(b[0], b[i]); } }
    assert StrLe(a[0], b[0]) by { if j > 0 { assert StrLe(a[0], a[j]); } }
    StrLeAntisymmetric(a[0], b[0]);
  }

  /** Two sorted lists with the same elements are equal, so comparing sorted copies
      compares multisets. */
  lemma {:induction false} SortedUnique(a: seq<string>, b: seq<string>)
    requires SortedStrings(a) && SortedStrings(b)
    requires multiset(a) == multiset(b)
    ensures a == b
  {
    if |a| > 0 {
      assert |b| > 0 by { assert |multiset(a)| == |a|; }
      SortedHeadsEqual(a, b);
      SameTails(a, b);
      assert SortedStrings(a[1..]) && SortedStrings(b[1..]);
      SortedUnique(a[1..], b[1..]);
      assert a == [a[0]] + a[1..] && b == [b[0]] + b[1..];
    }
  }

  /** Lists with the same multiset and the same head have tails with the same multiset. */
  lemma SameTails(a: seq<string>, b: seq<string>)
    requires |a| > 0 && |b| > 0 && a[0] == b[0]
    requires multiset(a) == multiset(b)
    ensures multiset(a[1..]) == multiset(b[1..])
  {
    assert a == [a[0]] + a[1..] && b == [b[0]] + b[1..];
    assert multiset(a[1..]) == multiset(a) - multiset{a[0]};
    assert multiset(b[1..]) == multiset(b) - multiset{b[0]};
  }

  /** Sorted copies are equal exactly when the lists hold the same multiset of strings. */
  lemma SortEqualIffSameMultiset(a: seq<string>, b: seq<string>)
    ensures SortStrings(a) == SortStrings(b) <==> multiset(a) == multiset(b)
  {
    if multiset(a) == multiset(b) {
      SortedUnique(SortStrings(a), SortStrings(b));
    }
  }

  // ---------------------------------------------------------------------------
  // numbers and case

  /** The value of a string of decimal digits, as `parseInt` reads it. */
  function DigitsValue(s: string): nat
    requires forall c <- s :: IsDigit(c)
  {
    if |s| == 0 then 0
    else
      var last := s[|s| - 1];
      assert last in s;
      assert IsDigit(last);
      assert forall c <- s[..|s| - 1] :: IsDigit(c);
      10 * DigitsValue(s[..|s| - 1]) + (last as int - '0' as int)
  }

  /** The decimal rendering of a natural number, as template literals print it. */
  function DecimalString(n: nat): (r: string)
    ensures |r| >= 1 && forall c <- r :: IsDigit(c)
    ensures DigitsValue(r) == n
  {
    var d := ((n % 10) + '0' as int) as char;
    if n < 10 then [d]
    else
      var r := DecimalString(n / 10) + [d];
      assert r[..|r| - 1] == DecimalString(n / 10);
      r
  }

  /** `toLowerCase` restricted to ASCII letters. */
  function AsciiLower(s: string): (r: string)
    ensures |r| == |s|
    ensures forall c <- r :: !('A' <= c <= 'Z')
    ensures forall i | 0 <= i < |s| && !('A' <= s[i] <= 'Z') :: r[i] == s[i]
    ensures forall i | 0 <= i < |s| && 'A' <= s[i] <= 'Z' ::
              'a' <= r[i] <= 'z' && r[i] as int - 'a' as int == s[i] as int - 'A' as int
  {
    seq(|s|, i requires 0 <= i < |s| => if 'A' <= s[i] <= 'Z' then (s[i] as int + 32) as char else s[i])
  }

  /** Lower-casing a lower-cased string changes nothing. */
  lemma AsciiLowerIdempotent(s: string)
    ensures AsciiLower(AsciiLower(s)) == AsciiLower(s)
  {
    var r := AsciiLower(s);
    forall i | 0 <= i < |r|
      ensures AsciiLower(r)[i] == r[i]
    {
      assert r[i] in r;
    }
  }
}
