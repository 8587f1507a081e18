/** Pieces shared by the two business-hours evaluators (verify_business_status.js and
    test_business_status_logic.js): the `H:MM` time token and `parseTime`, the global
    `exec` loop that collects `HH:MM-HH:MM` ranges, the sort by start, the weekday
    characters, and the first-match ladder that turns sorted ranges and "now" into a state. */
module Hours {
  import opened Wrappers
  import opened Text

  predicate IsColon(c: char) {
    c == ':' || c == '：'
  }

  predicate IsRangeDash(c: char) {
    c == '-' || c == '~' || c == '～'
  }

  // ---------------------------------------------------------------------------
  // time tokens and parseTime

  /** `s[i..j]` has the shape `\d{1,2}[:：]\d{2}`. */
  predicate TokenShape(s: string, i: nat, j: nat) {
    && i + 4 <= j <= i + 5 && j <= |s|
    && (forall k | i <= k < j - 3 :: IsDigit(s[k]))
    && IsColon(s[j - 3]) && IsDigit(s[j - 2]) && IsDigit(s[j - 1])
  }

  /** Where a match of `\d{1,2}[:：]\d{2}` that starts exactly at `i` ends, if there is one.
      The two shapes exclude each other (the second character is a digit in one and a
      colon in the other), so the greedy `\d{1,2}` has at most one way to succeed. */
  function TimeTokenAt(s: string, i: nat): (r: Option<nat>)
    ensures r.Some? <==> TokenShape(s, i, i + 4) || TokenShape(s, i, i + 5)
    ensures r.Some? ==> TokenShape(s, i, r.value)
  {
    if i + 5 <= |s| && IsDigit(s[i]) && IsDigit(s[i + 1]) && IsColon(s[i + 2])
       && IsDigit(s[i + 3]) && IsDigit(s[i + 4])
    then Some(i + 5)
    else if i + 4 <= |s| && IsDigit(s[i]) && IsColon(s[i + 1]) && IsDigit(s[i + 2]) && IsDigit(s[i + 3])
    then Some(i + 4)
    else None
  }

  /** `parseInt(hours) * 60 + parseInt(minutes)` for the token `s[i..j]`. */
  function TokenValue(s: string, i: nat, j: nat): nat
    requires TokenShape(s, i, j)
  {
    var h := s[i..j - 3];
    var m := s[j - 2..j];
    assert forall c <- h :: IsDigit(c) by {
      forall c <- h ensures IsDigit(c) {
        var k :| 0 <= k < |h| && h[k] == c;
        assert s[i + k] == c;
      }
    }
    assert m == [s[j - 2], s[j - 1]];
    60 * DigitsValue(h) + DigitsValue(m)
  }

  /** The leftmost index at or after `from` where a time token starts, or -1. */
  function FirstTokenFrom(s: string, from: nat): (k: int)
    ensures k == -1 || (from <= k < |s| && TimeTokenAt(s, k).Some?)
    ensures forall i: nat | from <= i && (k == -1 || i < k) :: TimeTokenAt(s, i).None?
    decreases |s| - from
  {
    if from >= |s| then -1
    else if TimeTokenAt(s, from).Some? then from
    else FirstTokenFrom(s, from + 1)
  }

  /** `parseTime`: `60*h + m` for the leftmost `H:MM` or `HH:MM` token (with `:` or `：`),
      None when the string holds no token (the empty string included). Neither the hour
      nor the minute is range-checked. */
  function ParseTime(s: string): (r: Option<nat>)
    ensures r.None? <==> forall i: nat :: TimeTokenAt(s, i).None?
    ensures forall i: nat | TimeTokenAt(s, i).Some? && (forall k: nat | k < i :: TimeTokenAt(s, k).None?) ::
              r == Some(TokenValue(s, i, TimeTokenAt(s, i).value))
  {
    var k := FirstTokenFrom(s, 0);
    if k < 0 then None
    else
      Some(TokenValue(s, k, TimeTokenAt(s, k).value))
  }

  /** The value of a two-digit string. */
  lemma TwoDigitsValue(p: string)
    requires |p| == 2 && IsDigit(p[0]) && IsDigit(p[1])
    ensures forall c <- p :: IsDigit(c)
    ensures DigitsValue(p) == 10 * (p[0] as int - '0' as int) + (p[1] as int - '0' as int)
  {
    var q := p[..1];
    assert q == [p[0]];
    assert q[..0] == [];
    assert DigitsValue(q) == p[0] as int - '0' as int;
    assert DigitsValue(p) == 10 * DigitsValue(q) + (p[1] as int - '0' as int);
  }

  /** An `HH:MM` token with two-digit hours, and its value. */
  lemma TwoDigitToken(t: string)
    requires |t| == 5 && IsDigit(t[0]) && IsDigit(t[1]) && IsColon(t[2]) && IsDigit(t[3]) && IsDigit(t[4])
    ensures TokenShape(t, 0, 5)
    ensures TokenValue(t, 0, 5) == 60 * (10 * (t[0] as int - '0' as int) + (t[1] as int - '0' as int))
                                   + 10 * (t[3] as int - '0' as int) + (t[4] as int - '0' as int)
  {
    assert TokenShape(t, 0, 5);
    TwoDigitsValue(t[0..2]);
    TwoDigitsValue(t[3..5]);
    assert TokenValue(t, 0, 5) == 60 * DigitsValue(t[0..2]) + DigitsValue(t[3..5]);
  }

  /** A string that is exactly one token parses to that token's value. */
  lemma ParseTimeOfToken(t: string)
    requires TimeTokenAt(t, 0) == Some(|t|)
    ensures ParseTime(t) == Some(TokenValue(t, 0, |t|))
  {
  }

  /** Neither part is range-checked: `99:99` is read as 99 hours and 99 minutes. */
  lemma ParseTimeNoRangeCheck()
    ensures ParseTime("99:99") == Some(99 * 60 + 99)
  {
    assert TimeTokenAt("99:99", 0) == Some(5);
    assert DigitsValue("99") == 99 by { assert "99"[..1] == "9"; }
  }

  /** A one-digit hour and the full-width colon are accepted. */
  lemma ParseTimeWideColon()
    ensures ParseTime("9：05") == Some(9 * 60 + 5)
  {
    assert TimeTokenAt("9：05", 0) == Some(4);
    assert DigitsValue("05") == 5 by { assert "05"[..1] == "0"; }
    assert "9：05"[0..1] == "9";
  }

  /** An empty string, or one with no digits at all, has no time. */
  lemma ParseTimeNoToken()
    ensures ParseTime("") == None
    ensures ParseTime("營業") == None
  {
    assert forall i: nat :: TimeTokenAt("營業", i).None?;
  }

  // ---------------------------------------------------------------------------
  // HH:MM-HH:MM ranges

  /** A match of `(\d{1,2}[:：]\d{2})\s*[-~～]\s*(\d{1,2}[:：]\d{2})`: the first token is
      `s[s1..e1]`, the separator sits at `dash`, the second token is `s[s2..e2]`. */
  datatype RangeMatch = RangeMatch(s1: nat, e1: nat, dash: nat, s2: nat, e2: nat)

  predicate IsRangeMatch(s: string, m: RangeMatch) {
    && TokenShape(s, m.s1, m.e1)
    && TokenShape(s, m.s2, m.e2)
    && m.e1 <= m.dash < m.s2
    && (forall k | m.e1 <= k < m.dash :: IsSpace(s[k]))
    && IsRangeDash(s[m.dash])
    && (forall k | m.dash < k < m.s2 :: IsSpace(s[k]))
  }

  /** The first index at or after `j` that is not white space (or the end): where a
      greedy `\s*` starting at `j` stops. */
  function SkipSpace(s: string, j: nat): (d: nat)
    requires j <= |s|
    ensures j <= d <= |s|
    ensures forall k | j <= k < d :: IsSpace(s[k])
    ensures d < |s| ==> !IsSpace(s[d])
  {
    var n := LeadingSpace(s[j..]);
    assert forall k | j <= k < j + n :: IsSpace(s[k]) by {
      forall k | j <= k < j + n ensures IsSpace(s[k]) { assert s[k] == s[j..][k - j]; }
    }
    j + n
  }

  /** `\s*` stops at the first character that is not white space. */
  lemma SkipSpaceStops(s: string, j: nat, d: nat)
    requires j <= d < |s| && !IsSpace(s[d])
    requires forall k | j <= k < d :: IsSpace(s[k])
    ensures SkipSpace(s, j) == d
  {
  }

  /** The range match that starts exactly at `i`, if any. Both `\s*` are greedy; giving
      back a space never helps, since the next character must be a dash or a digit. */
  function RangeAt(s: string, i: nat): Option<RangeMatch> {
    match TimeTokenAt(s, i)
    case None => None
    case Some(j) =>
      var d := SkipSpace(s, j);
      if d < |s| && IsRangeDash(s[d]) then
        var m := SkipSpace(s, d + 1);
        match TimeTokenAt(s, m)
        case None => None
        case Some(e) => Some(RangeMatch(i, j, d, m, e))
      else None
  }

  /** Every match `RangeAt` reports starts at `i` and has the shape of the regex. */
  lemma RangeAtSound(s: string, i: nat)
    ensures RangeAt(s, i).Some? ==> RangeAt(s, i).value.s1 == i && IsRangeMatch(s, RangeAt(s, i).value)
  {
  }

  /** A token shape at `i` is what `TimeTokenAt` finds there. */
  lemma TimeTokenAtShape(s: string, i: nat, j: nat)
    requires TokenShape(s, i, j)
    ensures TimeTokenAt(s, i) == Some(j)
  {
    if j == i + 4 {
      assert IsColon(s[i + 1]);
    }
  }

  /** Every range match is found: when the regex can match at `i`, `RangeAt` reports it. */
  lemma RangeAtComplete(s: string, m: RangeMatch)
    requires IsRangeMatch(s, m)
    ensures RangeAt(s, m.s1) == Some(m)
  {
    TimeTokenAtShape(s, m.s1, m.e1);
    assert !IsSpace(s[m.dash]) by { assert IsRangeDash(s[m.dash]); }
    SkipSpaceStops(s, m.e1, m.dash);
    assert !IsSpace(s[m.s2]) by { assert IsDigit(s[m.s2]); }
    SkipSpaceStops(s, m.dash + 1, m.s2);
    TimeTokenAtShape(s, m.s2, m.e2);
    RangeAtParts(s, m.s1, m.e1, m.dash, m.s2, m.e2);
  }

  /** `RangeAt` read off its parts. */
  lemma RangeAtParts(s: string, i: nat, j: nat, d: nat, k: nat, e: nat)
    requires TimeTokenAt(s, i) == Some(j) && j <= |s|
    requires SkipSpace(s, j) == d && d < |s| && IsRangeDash(s[d])
    requires SkipSpace(s, d + 1) == k && TimeTokenAt(s, k) == Some(e)
    ensures RangeAt(s, i) == Some(RangeMatch(i, j, d, k, e))
  {
  }

  /** One pushed range object. */
  datatype Range = Range(start: int, end: int, rawStart: string, rawEnd: string)

  /** The range pushed for start `s` and end `e`: an end earlier than the start is moved
      one day on. For a start inside the day the end is then never before the start; a
      start past 24:00 (hours are not range-checked) can still leave it before. */
  function MakeRange(s: nat, e: nat, rawStart: string, rawEnd: string): (r: Range)
    ensures r.start == s && r.rawStart == rawStart && r.rawEnd == rawEnd
    ensures r.start <= r.end <==> s <= e + 24 * 60
    ensures r.end == e <==> s <= e
    ensures r.end != e ==> r.end == e + 24 * 60 && r.end - r.start < 24 * 60
  {
    Range(s, if e < s then e + 24 * 60 else e, rawStart, rawEnd)
  }

  /** What the loop body does with one match: both captures are parsed and, when both
      parse, one range is pushed. */
  function RangesOfMatch(s: string, m: RangeMatch): (rs: seq<Range>)
    requires IsRangeMatch(s, m)
    ensures |rs| == 1
    ensures rs[0].rawStart == s[m.s1..m.e1] && rs[0].rawEnd == s[m.s2..m.e2]
    ensures rs[0].start == TokenValue(s, m.s1, m.e1)
  {
    var a := ParseTime(s[m.s1..m.e1]);
    var b := ParseTime(s[m.s2..m.e2]);
    TokenAsSlice(s, m.s1, m.e1);
    TokenAsSlice(s, m.s2, m.e2);
    if a.Some? && b.Some? then [MakeRange(a.value, b.value, s[m.s1..m.e1], s[m.s2..m.e2])]
    else assert false; []
  }

  /** A token cut out of its string parses to the same value. */
  lemma TokenAsSlice(s: string, i: nat, j: nat)
    requires TokenShape(s, i, j)
    ensures TimeTokenAt(s[i..j], 0) == Some(j - i)
    ensures ParseTime(s[i..j]) == Some(TokenValue(s, i, j))
  {
    var t := s[i..j];
    assert TokenShape(t, 0, j - i);
    assert t[..j - i - 3] == s[i..j - 3];
    assert t[j - i - 2..j - i] == s[j - 2..j];
    ParseTimeOfToken(t);
  }

  /** What `regex.exec(s)` finds when `lastIndex` is `from`: the leftmost match at or
      after `from`. */
  function NextMatch(s: string, from: nat): (r: Option<RangeMatch>)
    ensures r.Some? ==> from <= r.value.s1 && IsRangeMatch(s, r.value)
    ensures forall i: nat | from <= i && (r.None? || i < r.value.s1) :: RangeAt(s, i).None?
    decreases |s| - from
  {
    if from >= |s| then None
    else
      var here := RangeAt(s, from);
      RangeAtSound(s, from);
      if here.Some? then here else NextMatch(s, from + 1)
  }

  /** The ranges the `while ((match = regex.exec(s)) !== null)` loop pushes when the
      regex's `lastIndex` starts at `pos`: one range per match, matches taken left to right,
      each search resuming where the previous match ended. */
  function ScanRanges(s: string, pos: nat): (rs: seq<Range>)
    ensures forall r <- rs :: r.start < 24 * 60 ==> r.start <= r.end
    decreases |s| - pos
  {
    match NextMatch(s, pos)
    case None => []
    case Some(m) => RangesOfMatch(s, m) + ScanRanges(s, m.e2)
  }

  /** One turn of the `exec` loop: the match found is parsed into exactly one range. */
  lemma ScanStep(s: string, pos: nat)
    requires NextMatch(s, pos).Some?
    ensures var m := NextMatch(s, pos).value;
            && pos < m.e2 <= |s|
            && ParseTime(s[m.s1..m.e1]) == Some(TokenValue(s, m.s1, m.e1))
            && ParseTime(s[m.s2..m.e2]) == Some(TokenValue(s, m.s2, m.e2))
            && ScanRanges(s, pos) == [MakeRange(TokenValue(s, m.s1, m.e1), TokenValue(s, m.s2, m.e2),
                                                s[m.s1..m.e1], s[m.s2..m.e2])] + ScanRanges(s, m.e2)
  {
    var m := NextMatch(s, pos).value;
    TokenAsSlice(s, m.s1, m.e1);
    TokenAsSlice(s, m.s2, m.e2);
  }

  /** No range is collected exactly when the regex matches nowhere in the string. */
  lemma ScanRangesEmpty(s: string)
    ensures ScanRanges(s, 0) == [] <==> forall m: RangeMatch :: !IsRangeMatch(s, m)
  {
    if ScanRanges(s, 0) == [] {
      forall m: RangeMatch | IsRangeMatch(s, m) ensures false {
        RangeAtComplete(s, m);
      }
    }
  }

  /** A five-character token copied into a longer string keeps its shape and value. */
  lemma TokenCopy(s: string, off: nat, t: string)
    requires |t| == 5 && TokenShape(t, 0, 5)
    requires off + 5 <= |s| && s[off..off + 5] == t
    ensures TokenShape(s, off, off + 5) && TokenValue(s, off, off + 5) == TokenValue(t, 0, 5)
  {
    assert forall k | 0 <= k < 5 :: s[off + k] == t[k] by {
      forall k | 0 <= k < 5 ensures s[off + k] == t[k] { assert s[off..off + 5][k] == s[off + k]; }
    }
    assert s[off..off + 2] == t[0..2];
    assert s[off + 3..off + 5] == t[3..5];
  }

  /** The two tokens of `HH:MM-HH:MM` sit at fixed places in its text. */
  lemma SingleRangePieces(a: string, b: string)
    requires |a| == 5 && TokenShape(a, 0, 5) && |b| == 5 && TokenShape(b, 0, 5)
    ensures var s := a + "-" + b;
            && |s| == 11 && s[5] == '-' && s[0..5] == a && s[6..11] == b
            && TokenShape(s, 0, 5) && TokenShape(s, 6, 11)
            && TokenValue(s, 0, 5) == TokenValue(a, 0, 5) && TokenValue(s, 6, 11) == TokenValue(b, 0, 5)
  {
    var s := a + "-" + b;
    assert s[0..5] == a && s[6..11] == b;
    TokenCopy(s, 0, a);
    TokenCopy(s, 6, b);
  }

  /** The regex finds `HH:MM-HH:MM` as one match covering the whole string. */
  lemma SingleRangeMatches(s: string)
    requires |s| == 11 && TokenShape(s, 0, 5) && s[5] == '-' && TokenShape(s, 6, 11)
    ensures NextMatch(s, 0) == Some(RangeMatch(0, 5, 5, 6, 11))
    ensures NextMatch(s, 11).None?
  {
    var m := RangeMatch(0, 5, 5, 6, 11);
    assert IsRangeMatch(s, m);
    RangeAtComplete(s, m);
  }

  /** A string that is just `HH:MM-HH:MM` yields exactly that one range. */
  lemma ScanSingleRange(a: string, b: string)
    requires |a| == 5 && TokenShape(a, 0, 5) && |b| == 5 && TokenShape(b, 0, 5)
    ensures ScanRanges(a + "-" + b, 0) == [MakeRange(TokenValue(a, 0, 5), TokenValue(b, 0, 5), a, b)]
  {
    var s := a + "-" + b;
    SingleRangePieces(a, b);
    SingleRangeMatches(s);
    ScanStep(s, 0);
  }

  /** The shape of a split shift `HH:MM-HH:MM, HH:MM-HH:MM`. */
  predicate SplitShiftShape(s: string) {
    && |s| == 24
    && TokenShape(s, 0, 5) && s[5] == '-' && TokenShape(s, 6, 11)
    && s[11] == ',' && s[12] == ' '
    && TokenShape(s, 13, 18) && s[18] == '-' && TokenShape(s, 19, 24)
  }

  /** The regex finds a split shift as two matches, resuming after the first. */
  lemma SplitShiftMatches(s: string)
    requires SplitShiftShape(s)
    ensures NextMatch(s, 0) == Some(RangeMatch(0, 5, 5, 6, 11))
    ensures NextMatch(s, 11) == Some(RangeMatch(13, 18, 18, 19, 24))
    ensures NextMatch(s, 24).None?
  {
    var m1 := RangeMatch(0, 5, 5, 6, 11);
    assert IsRangeMatch(s, m1);
    RangeAtComplete(s, m1);
    SplitShiftSecond(s);
  }

  /** The search resumed after the first shift skips `, ` and finds the second. */
  lemma SplitShiftSecond(s: string)
    requires SplitShiftShape(s)
    ensures NextMatch(s, 11) == Some(RangeMatch(13, 18, 18, 19, 24))
  {
    var m2 := RangeMatch(13, 18, 18, 19, 24);
    assert IsRangeMatch(s, m2);
    RangeAtComplete(s, m2);
    assert NextMatch(s, 13) == Some(m2);
    assert RangeAt(s, 12).None? by { assert TimeTokenAt(s, 12).None? by { assert !IsDigit(s[12]); } }
    assert RangeAt(s, 11).None? by { assert TimeTokenAt(s, 11).None? by { assert !IsDigit(s[11]); } }
  }

  /** The four tokens of a split shift sit at fixed places in its text. */
  lemma SplitShiftPieces(a: string, b: string, c: string, d: string)
    requires |a| == 5 && TokenShape(a, 0, 5) && |b| == 5 && TokenShape(b, 0, 5)
    requires |c| == 5 && TokenShape(c, 0, 5) && |d| == 5 && TokenShape(d, 0, 5)
    ensures var s := a + "-" + b + ", " + c + "-" + d;
            && SplitShiftShape(s)
            && s[0..5] == a && s[6..11] == b && s[13..18] == c && s[19..24] == d
            && TokenValue(s, 0, 5) == TokenValue(a, 0, 5) && TokenValue(s, 6, 11) == TokenValue(b, 0, 5)
            && TokenValue(s, 13, 18) == TokenValue(c, 0, 5) && TokenValue(s, 19, 24) == TokenValue(d, 0, 5)
  {
    var s := a + "-" + b + ", " + c + "-" + d;
    assert |s| == 24;
    assert s[0..5] == a;
    assert s[6..11] == b;
    assert s[13..18] == c;
    assert s[19..24] == d;
    TokenCopy(s, 0, a);
    TokenCopy(s, 6, b);
    TokenCopy(s, 13, c);
    TokenCopy(s, 19, d);
  }

  /** A split shift yields its two ranges, in the order they are written. */
  lemma ScanSplitShift(a: string, b: string, c: string, d: string)
    requires |a| == 5 && TokenShape(a, 0, 5) && |b| == 5 && TokenShape(b, 0, 5)
    requires |c| == 5 && TokenShape(c, 0, 5) && |d| == 5 && TokenShape(d, 0, 5)
    ensures ScanRanges(a + "-" + b + ", " + c + "-" + d, 0)
            == [MakeRange(TokenValue(a, 0, 5), TokenValue(b, 0, 5), a, b),
                MakeRange(TokenValue(c, 0, 5), TokenValue(d, 0, 5), c, d)]
  {
    var s := a + "-" + b + ", " + c + "-" + d;
    SplitShiftPieces(a, b, c, d);
    SplitShiftMatches(s);
    ScanStep(s, 0);
    ScanStep(s, 11);
  }

  /** The `exec` loop itself: each match found from `lastIndex` is parsed and pushed onto
      `acc`, and `lastIndex` moves to the end of the match. */
  method ExecRanges(s: string, acc: seq<Range>) returns (rs: seq<Range>)
    ensures rs == acc + ScanRanges(s, 0)
  {
    rs := acc;
    var lastIndex := 0;
    var m := NextMatch(s, lastIndex);
    while m.Some?
      invariant m == NextMatch(s, lastIndex)
      invariant rs + ScanRanges(s, lastIndex) == acc + ScanRanges(s, 0)
      decreases |s| - lastIndex
    {
      var mt := m.value;
      var rawStart := s[mt.s1..mt.e1];
      var rawEnd := s[mt.s2..mt.e2];
      var st := ParseTime(rawStart);
      var en := ParseTime(rawEnd);
      ScanStep(s, lastIndex);
      ghost var rest := ScanRanges(s, mt.e2);
      if st.Some? && en.Some? {
        var effectiveEnd := en.value;
        if effectiveEnd < st.value {
          effectiveEnd := effectiveEnd + 24 * 60;
        }
        var r := Range(st.value, effectiveEnd, rawStart, rawEnd);
        assert r == MakeRange(TokenValue(s, mt.s1, mt.e1), TokenValue(s, mt.s2, mt.e2), rawStart, rawEnd);
        assert ScanRanges(s, lastIndex) == [r] + rest;
        assert rs + ScanRanges(s, lastIndex) == (rs + [r]) + rest;
        rs := rs + [r];
      }
      lastIndex := mt.e2;
      m := NextMatch(s, lastIndex);
    }
  }

  // ---------------------------------------------------------------------------
  // sorting ranges by start

  predicate SortedByStart(rs: seq<Range>) {
    forall i, j | 0 <= i < j < |rs| :: rs[i].start <= rs[j].start
  }

  /** Inserts `x` after every range that does not start later, which keeps equal starts in
      their original order. */
  function InsertByStart(x: Range, rs: seq<Range>): seq<Range> {
    if |rs| == 0 then [x]
    else if x.start < rs[0].start then [x] + rs
    else [rs[0]] + InsertByStart(x, rs[1..])
  }

  lemma {:induction false} InsertByStartMultiset(x: Range, rs: seq<Range>)
    ensures multiset(InsertByStart(x, rs)) == multiset(rs) + multiset{x}
  {
    if |rs| > 0 && x.start >= rs[0].start {
      InsertByStartMultiset(x, rs[1..]);
      assert rs == [rs[0]] + rs[1..];
    }
  }

  lemma {:induction false} InsertByStartCorrect(x: Range, rs: seq<Range>)
    requires SortedByStart(rs)
    ensures SortedByStart(InsertByStart(x, rs))
    ensures multiset(InsertByStart(x, rs)) == multiset(rs) + multiset{x}
  {
    InsertByStartMultiset(x, rs);
    if |rs| > 0 && x.start >= rs[0].start {
      var tail := rs[1..];
      var rest := InsertByStart(x, tail);
      InsertByStartCorrect(x, tail);
      forall y | y in rest ensures rs[0].start <= y.start {
        assert y in multiset(rest);
        if y != x {
          assert y in multiset(tail);
          var k :| 0 <= k < |tail| && tail[k] == y;
          assert rs[k + 1] == y;
        }
      }
      SortedCons(rs[0], rest);
    }
  }

  lemma SortedCons(h: Range, rest: seq<Range>)
    requires SortedByStart(rest)
    requires forall y | y in rest :: h.start <= y.start
    ensures SortedByStart([h] + rest)
  {
    var r := [h] + rest;
    forall i, j | 0 <= i < j < |r| ensures r[i].start <= r[j].start {
      if i == 0 { assert r[j] == rest[j - 1]; } else { assert r[i] == rest[i - 1] && r[j] == rest[j - 1]; }
    }
  }

  /** `ranges.sort((a, b) => a.start - b.start)`: a stable sort by start. */
  function SortByStart(rs: seq<Range>): (r: seq<Range>)
    ensures SortedByStart(r)
    ensures multiset(r) == multiset(rs)
  {
    if |rs| == 0 then []
    else
      var sorted := SortByStart(rs[..|rs| - 1]);
      SortStep(rs, sorted);
      InsertByStart(rs[|rs| - 1], sorted)
  }

  /** One step of the insertion sort: the last range joins the sorted rest. */
  lemma SortStep(rs: seq<Range>, sorted: seq<Range>)
    requires |rs| > 0 && SortedByStart(sorted)
    requires multiset(sorted) == multiset(rs[..|rs| - 1])
    ensures SortedByStart(InsertByStart(rs[|rs| - 1], sorted))
    ensures multiset(InsertByStart(rs[|rs| - 1], sorted)) == multiset(rs)
  {
    InsertByStartCorrect(rs[|rs| - 1], sorted);
    assert rs == rs[..|rs| - 1] + [rs[|rs| - 1]];
  }

  /** The ranges of the list that start at minute `s`, in order. */
  function WithStart(rs: seq<Range>, s: int): seq<Range> {
    if |rs| == 0 then [] else (if rs[0].start == s then [rs[0]] else []) + WithStart(rs[1..], s)
  }

  lemma {:induction false} WithStartAppend(xs: seq<Range>, ys: seq<Range>, s: int)
    ensures WithStart(xs + ys, s) == WithStart(xs, s) + WithStart(ys, s)
  {
    if |xs| > 0 {
      assert (xs + ys)[0] == xs[0] && (xs + ys)[1..] == xs[1..] + ys;
      WithStartAppend(xs[1..], ys, s);
    } else {
      assert xs + ys == ys;
    }
  }

  lemma {:induction false} WithStartNone(rs: seq<Range>, s: int)
    requires forall r <- rs :: r.start != s
    ensures WithStart(rs, s) == []
  {
    if |rs| > 0 {
      assert rs[0] in rs;
      assert forall r <- rs[1..] :: r in rs;
      WithStartNone(rs[1..], s);
    }
  }

  lemma SortedTail(rs: seq<Range>)
    requires |rs| > 0 && SortedByStart(rs)
    ensures SortedByStart(rs[1..])
  {
    var tail := rs[1..];
    forall i, j | 0 <= i < j < |tail| ensures tail[i].start <= tail[j].start {
      assert tail[i] == rs[i + 1] && tail[j] == rs[j + 1];
    }
  }

  /** Inserting into a sorted list puts `x` after every range with the same start. */
  lemma {:induction false} InsertWithStart(x: Range, rs: seq<Range>, s: int)
    requires SortedByStart(rs)
    ensures WithStart(InsertByStart(x, rs), s) == WithStart(rs, s) + (if x.start == s then [x] else [])
  {
    if |rs| == 0 {
    } else if x.start < rs[0].start {
      InsertFront(x, rs, s);
    } else {
      SortedTail(rs);
      InsertWithStart(x, rs[1..], s);
      InsertPast(x, rs, s);
    }
  }

  /** `x` goes first when it starts before every range of the sorted list; then no range
      of the list shares its start. */
  lemma InsertFront(x: Range, rs: seq<Range>, s: int)
    requires SortedByStart(rs) && |rs| > 0 && x.start < rs[0].start
    ensures WithStart(InsertByStart(x, rs), s) == WithStart(rs, s) + (if x.start == s then [x] else [])
  {
    assert InsertByStart(x, rs) == [x] + rs;
    assert ([x] + rs)[0] == x && ([x] + rs)[1..] == rs;
    if x.start == s {
      forall r <- rs
        ensures r.start != s
      {
        var k :| 0 <= k < |rs| && rs[k] == r;
        assert rs[0].start <= rs[k].start;
      }
      WithStartNone(rs, s);
    }
  }

  /** `x` passes the first range of the list: that range stays first. */
  lemma InsertPast(x: Range, rs: seq<Range>, s: int)
    requires |rs| > 0 && x.start >= rs[0].start
    requires WithStart(InsertByStart(x, rs[1..]), s) == WithStart(rs[1..], s) + (if x.start == s then [x] else [])
    ensures WithStart(InsertByStart(x, rs), s) == WithStart(rs, s) + (if x.start == s then [x] else [])
  {
    var rest := InsertByStart(x, rs[1..]);
    var ins := [rs[0]] + rest;
    assert InsertByStart(x, rs) == ins;
    assert ins[0] == rs[0] && ins[1..] == rest;
    var h: seq<Range> := if rs[0].start == s then [rs[0]] else [];
    var t, c := WithStart(rs[1..], s), if x.start == s then [x] else [];
    assert WithStart(ins, s) == h + WithStart(rest, s);
    assert WithStart(rs, s) == h + t;
    assert h + (t + c) == (h + t) + c;
  }

  /** The sort is stable, as `Array.prototype.sort` is: ranges with the same start keep
      the order in which they were written. */
  lemma {:induction false} SortByStartStable(rs: seq<Range>, s: int)
    ensures WithStart(SortByStart(rs), s) == WithStart(rs, s)
  {
    if |rs| > 0 {
      var init, last := rs[..|rs| - 1], rs[|rs| - 1];
      assert rs == init + [last];
      WithStartAppend(init, [last], s);
      var sorted := SortByStart(init);
      assert SortByStart(rs) == InsertByStart(last, sorted);
      SortByStartStable(init, s);
      InsertWithStart(last, sorted, s);
      assert WithStart([last], s) == if last.start == s then [last] else [] by {
        assert [last][1..] == [];
      }
    }
  }

  /** Two ranges already in order of their starts stay as they are. */
  lemma SortOrderedPair(r1: Range, r2: Range)
    requires r1.start < r2.start
    ensures SortByStart([r1, r2]) == [r1, r2]
  {
    assert [r1, r2][..1] == [r1];
    assert [r1][..0] == [];
    assert SortByStart([r1]) == [r1];
  }

  /** Sorting keeps every range and adds none, so the bound `start <= end` survives it. */
  lemma SortKeepsRanges(rs: seq<Range>)
    ensures forall r <- SortByStart(rs) :: r in rs
    ensures forall r <- rs :: r in SortByStart(rs)
  {
    var sorted := SortByStart(rs);
    forall r <- sorted ensures r in rs { assert r in multiset(sorted); }
    forall r <- rs ensures r in sorted { assert r in multiset(rs); }
  }

  // ---------------------------------------------------------------------------
  // weekdays

  /** `['日', '一', '二', '三', '四', '五', '六'][day]`, Sunday first as `Date.getDay()` counts. */
  function DayChar(day: nat): (c: char)
    requires day < 7
    ensures c in "日一二三四五六"
    ensures day == 0 ==> c == '日'
    ensures day == 6 ==> c == '六'
    ensures forall d | 0 <= d < 7 && d != day :: "日一二三四五六"[d] != c
  {
    "日一二三四五六"[day]
  }

  // ---------------------------------------------------------------------------
  // "closed on day X" markers

  predicate IsDayChar(c: char) {
    c in "日一二三四五六"
  }

  /** A match of `<marker>([一二三四五六日])\s*公休` starting at `i`: the day named and where
      the match ends. */
  datatype Closure = Closure(day: char, end: nat)

  function ClosureAt(s: string, i: nat, marker: char): (r: Option<Closure>)
    ensures r.Some? ==> i + 4 <= r.value.end <= |s| && s[i] == marker && s[i + 1] == r.value.day
                        && IsDayChar(r.value.day) && s[r.value.end - 2..r.value.end] == "公休"
                        && forall k | i + 2 <= k < r.value.end - 2 :: IsSpace(s[k])
  {
    if i + 1 < |s| && s[i] == marker && IsDayChar(s[i + 1]) then
      var j := SkipSpace(s, i + 2);
      if MatchesAt(s, j, "公休") then Some(Closure(s[i + 1], j + 2)) else None
    else None
  }

  // ---------------------------------------------------------------------------
  // the status ladder

  datatype State = Open | OpeningSoon | Closed | ClosedDay | Unknown

  /** The object both `checkStatus` functions return; fields a variant never sets are None. */
  datatype Status = Status(state: State, msg: string, nextOpen: Option<string>,
                           endTime: Option<int>, startTime: Option<int>)

  /** `now.getHours() * 60 + now.getMinutes()`: the minute of the day a clock reading
      stands for. */
  function MinuteOfDay(hours: nat, minutes: nat): nat {
    hours * 60 + minutes
  }

  /** The message of the `open` state, naming the raw end of the range. */
  function OpenMessage(rawEnd: string): string {
    "營業中 (直到 " + rawEnd + ")"
  }

  /** The message of the `opening-soon` state, naming the raw start of the range. */
  function SoonMessage(rawStart: string): string {
    "即將營業 (" + rawStart + " 開門)"
  }

  predicate OpenAt(r: Range, now: int) {
    r.start <= now < r.end
  }

  predicate SoonAt(r: Range, now: int) {
    now < r.start && r.start - now <= 60
  }

  /** Which branch of the ladder is taken, and for which range. */
  datatype Step = OpenIn(k: nat) | SoonIn(k: nat) | RestUntil(k: nat) | Ended

  /** The first range at or after `from` that is open or opens within 60 minutes, or -1. */
  function FirstHit(rs: seq<Range>, now: int, from: nat): (k: int)
    ensures k == -1 || (from <= k < |rs| && (OpenAt(rs[k], now) || SoonAt(rs[k], now)))
    ensures forall j | from <= j < |rs| && (k == -1 || j < k) :: !OpenAt(rs[j], now) && !SoonAt(rs[j], now)
    decreases |rs| - from
  {
    if from >= |rs| then -1
    else if OpenAt(rs[from], now) || SoonAt(rs[from], now) then from
    else FirstHit(rs, now, from + 1)
  }

  /** `ranges.find(r => r.start > now)` as an index, or -1. */
  function FirstLater(rs: seq<Range>, now: int, from: nat): (k: int)
    ensures k == -1 || (from <= k < |rs| && rs[k].start > now)
    ensures forall j | from <= j < |rs| && (k == -1 || j < k) :: rs[j].start <= now
    decreases |rs| - from
  {
    if from >= |rs| then -1
    else if rs[from].start > now then from
    else FirstLater(rs, now, from + 1)
  }

  /** The ladder both evaluators run over their ranges: the first range (in list order)
      that is open, or opens within the hour, wins; failing that, the first range that
      starts later; failing that, the day is over. */
  function Ladder(rs: seq<Range>, now: int): (step: Step)
    ensures step.OpenIn? ==> step.k < |rs| && OpenAt(rs[step.k], now)
    ensures step.SoonIn? ==> step.k < |rs| && SoonAt(rs[step.k], now)
    ensures (step.OpenIn? || step.SoonIn?) ==>
              forall j | 0 <= j < step.k :: !OpenAt(rs[j], now) && !SoonAt(rs[j], now)
    ensures step.RestUntil? ==> step.k < |rs| && rs[step.k].start - now > 60
                                && forall j | 0 <= j < step.k :: rs[j].start <= now
    ensures (step.RestUntil? || step.Ended?) ==>
              forall j | 0 <= j < |rs| :: !OpenAt(rs[j], now) && !SoonAt(rs[j], now)
    ensures step.Ended? ==> forall j | 0 <= j < |rs| :: rs[j].start <= now && rs[j].end <= now
  {
    var h := FirstHit(rs, now, 0);
    if h >= 0 then
      if OpenAt(rs[h], now) then OpenIn(h) else SoonIn(h)
    else
      var l := FirstLater(rs, now, 0);
      if l >= 0 then RestUntil(l) else Ended
  }

  /** The loop of `checkStatus` followed by `ranges.find(r => r.start > now)`. */
  method RunLadder(rs: seq<Range>, now: int) returns (step: Step)
    ensures step == Ladder(rs, now)
  {
    var i := 0;
    while i < |rs|
      invariant 0 <= i <= |rs|
      invariant FirstHit(rs, now, i) == FirstHit(rs, now, 0)
    {
      var r := rs[i];
      if now >= r.start && now < r.end {
        return OpenIn(i);
      }
      if now < r.start && r.start - now <= 60 {
        return SoonIn(i);
      }
      i := i + 1;
    }
    var k := 0;
    while k < |rs| && !(rs[k].start > now)
      invariant 0 <= k <= |rs|
      invariant FirstLater(rs, now, k) == FirstLater(rs, now, 0)
    {
      k := k + 1;
    }
    if k < |rs| {
      return RestUntil(k);
    }
    return Ended;
  }

  /** On sorted ranges the resting branch names the earliest later opening. */
  lemma {:induction false} RestingIsEarliest(rs: seq<Range>, now: int)
    requires SortedByStart(rs)
    requires Ladder(rs, now).RestUntil?
    ensures forall j | 0 <= j < |rs| && rs[j].start > now :: rs[Ladder(rs, now).k].start <= rs[j].start
  {
  }

  /** On a single range the ladder sweeps through the day in order: resting before the
      last hour, opening soon within it, open inside the range, over from its end on. */
  lemma SingleRangeSweep(r: Range, now: int)
    requires r.start <= r.end
    ensures now < r.start - 60 ==> Ladder([r], now) == RestUntil(0)
    ensures r.start - 60 <= now < r.start ==> Ladder([r], now) == SoonIn(0)
    ensures r.start <= now < r.end ==> Ladder([r], now) == OpenIn(0)
    ensures r.end <= now ==> Ladder([r], now) == Ended
  {
  }

  /** A range pushed past midnight (its end is in the next day) is open only from its
      start onwards: with "now" inside [0, 1440) it is never open in the small hours. */
  lemma WrappedRangeOpenOnlyAfterStart(r: Range, now: int)
    requires r.end > 24 * 60 && r.end - r.start < 24 * 60
    requires 0 <= now < 24 * 60 && now < r.end - 24 * 60
    ensures !OpenAt(r, now)
  {
  }
}
