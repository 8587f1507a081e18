/** The day-agnostic business-hours evaluator: every range in the string applies on every
    day, and only an explicit "週X公休" (or "周X公休") for today closes the day. */
module DayAgnosticStatus {
  import opened Wrappers
  import opened Text
  import opened Hours

  // ---------------------------------------------------------------------------
  // closing-day matches

  /** The shape of one match of `<marker>([一二三四五六日])\s*公休`: the marker, a day, spaces,
      then 公休. */
  predicate ClosureText(m: string, marker: char) {
    && |m| >= 4
    && m[0] == marker
    && IsDayChar(m[1])
    && (forall k | 2 <= k < |m| - 2 :: IsSpace(m[k]))
    && m[|m| - 2..] == "公休"
  }

  /** Some match of the closing pattern starts at or after `from`. */
  predicate ClosureFrom(s: string, marker: char, from: nat) {
    exists i | from <= i < |s| :: ClosureAt(s, i, marker).Some?
  }

  /** Some match of the closing pattern, at or after `from`, names day `c`. */
  predicate ClosesOnFrom(s: string, marker: char, c: char, from: nat) {
    exists i | from <= i < |s| :: ClosureAt(s, i, marker).Some? && ClosureAt(s, i, marker).value.day == c
  }

  /** `s.match(/<marker>([一二三四五六日])\s*公休/g)` searched from `from`: the text of every
      match, left to right; the empty sequence stands for `null`. */
  function ClosureMatches(s: string, marker: char, from: nat): (ms: seq<string>)
    ensures forall m <- ms :: ClosureText(m, marker)
    ensures |ms| == 0 <==> !ClosureFrom(s, marker, from)
    decreases |s| - from
  {
    if from >= |s| then []
    else
      match ClosureAt(s, from, marker)
      case Some(c) =>
        var m := s[from..c.end];
        assert m[|m| - 2..] == s[c.end - 2..c.end];
        assert forall k | 2 <= k < |m| - 2 :: IsSpace(m[k]) by {
          forall k | 2 <= k < |m| - 2 ensures IsSpace(m[k]) { assert m[k] == s[from + k]; }
        }
        [m] + ClosureMatches(s, marker, c.end)
      case None =>
        var rest := ClosureMatches(s, marker, from + 1);
        assert ClosureFrom(s, marker, from) ==> ClosureFrom(s, marker, from + 1);
        rest
  }

  /** `m.includes('週' + c) || m.includes('周' + c)`. */
  predicate NamesToday(m: string, c: char) {
    Contains(m, ['週', c]) || Contains(m, ['周', c])
  }

  /** The `||` of the two `match` calls: the 週 matches, or the 周 matches when there is no
      週 match at all. */
  function ClosedMatches(raw: string): seq<string> {
    var weekly := ClosureMatches(raw, '週', 0);
    if |weekly| > 0 then weekly else ClosureMatches(raw, '周', 0)
  }

  /** The flag the `forEach` leaves behind after visiting `ms`. */
  function AnyNamesToday(ms: seq<string>, c: char): (b: bool)
    ensures b <==> exists m <- ms :: NamesToday(m, c)
  {
    if |ms| == 0 then false
    else
      assert ms == ms[..|ms| - 1] + [ms[|ms| - 1]];
      AnyNamesToday(ms[..|ms| - 1], c) || NamesToday(ms[|ms| - 1], c)
  }

  /** Whether `checkStatus` finds today named among the closing-day matches. */
  predicate IsClosedDay(raw: string, c: char) {
    AnyNamesToday(ClosedMatches(raw), c)
  }

  /** The only 週 or 周 in the text of a match is its first character. */
  lemma PairInClosureText(m: string, marker: char, w: char, c: char)
    requires w == '週' || w == '周'
    requires ClosureText(m, marker)
    requires Contains(m, [w, c])
    ensures m[1] == c
  {
    var p := [w, c];
    var i :| MatchesAt(m, i, p);
    assert m[i] == p[0] && m[i + 1] == p[1] by { assert m[i..i + 2] == p; }
    assert i == 0;
  }

  /** The text of a match names day `c` exactly when its day character is `c`. */
  lemma NamesTodayIffDay(m: string, marker: char, c: char)
    requires marker == '週' || marker == '周'
    requires ClosureText(m, marker)
    ensures NamesToday(m, c) <==> m[1] == c
  {
    if m[1] == c {
      assert MatchesAt(m, 0, [marker, c]);
    }
    if Contains(m, ['週', c]) {
      PairInClosureText(m, marker, '週', c);
    }
    if Contains(m, ['周', c]) {
      PairInClosureText(m, marker, '周', c);
    }
  }

  /** Inside a match, after its first character, no other match of the same pattern can
      start: the day, the spaces and 公休 are none of them 週 or 周. */
  lemma NoMarkerInside(s: string, marker: char, from: nat, i: nat)
    requires marker == '週' || marker == '周'
    requires ClosureAt(s, from, marker).Some?
    requires from < i < ClosureAt(s, from, marker).value.end
    ensures ClosureAt(s, i, marker).None?
  {
    var e := ClosureAt(s, from, marker).value.end;
    if i == from + 1 {
      assert IsDayChar(s[i]);
    } else if i < e - 2 {
      assert IsSpace(s[i]);
    } else {
      assert s[i] == s[e - 2..e][i - (e - 2)];
    }
  }

  /** A search that finds a match at `from` resumes at its end without missing any day. */
  lemma ClosesOnSkip(s: string, marker: char, c: char, from: nat)
    requires marker == '週' || marker == '周'
    requires ClosureAt(s, from, marker).Some?
    ensures var cl := ClosureAt(s, from, marker).value;
            ClosesOnFrom(s, marker, c, from) <==> cl.day == c || ClosesOnFrom(s, marker, c, cl.end)
  {
    var cl := ClosureAt(s, from, marker).value;
    if ClosesOnFrom(s, marker, c, from) && cl.day != c {
      var i :| from <= i < |s| && ClosureAt(s, i, marker).Some? && ClosureAt(s, i, marker).value.day == c;
      if i < cl.end {
        NoMarkerInside(s, marker, from, i);
        assert false;
      }
      assert ClosesOnFrom(s, marker, c, cl.end);
    }
    if cl.day == c {
      assert from < |s|;
      assert ClosesOnFrom(s, marker, c, from);
    } else if ClosesOnFrom(s, marker, c, cl.end) {
      var i :| cl.end <= i < |s| && ClosureAt(s, i, marker).Some? && ClosureAt(s, i, marker).value.day == c;
      assert from <= i;
    }
  }

  /** Matches never overlap a position where another match could start, so the matches
      collected from `from` name day `c` exactly when some match at or after `from` does. */
  lemma {:induction false} MatchesNameDay(s: string, marker: char, c: char, from: nat)
    requires marker == '週' || marker == '周'
    ensures (exists m <- ClosureMatches(s, marker, from) :: m[1] == c) <==> ClosesOnFrom(s, marker, c, from)
    decreases |s| - from
  {
    if from < |s| {
      match ClosureAt(s, from, marker)
      case Some(cl) =>
        MatchesNameDay(s, marker, c, cl.end);
        MatchFoundStep(s, marker, c, from);
      case None =>
        MatchesNameDay(s, marker, c, from + 1);
        NoMatchStep(s, marker, c, from);
    }
  }

  /** The step of `MatchesNameDay` where a match starts at `from`. */
  lemma MatchFoundStep(s: string, marker: char, c: char, from: nat)
    requires marker == '週' || marker == '周'
    requires from < |s| && ClosureAt(s, from, marker).Some?
    requires var e := ClosureAt(s, from, marker).value.end;
             (exists m <- ClosureMatches(s, marker, e) :: m[1] == c) <==> ClosesOnFrom(s, marker, c, e)
    ensures (exists m <- ClosureMatches(s, marker, from) :: m[1] == c) <==> ClosesOnFrom(s, marker, c, from)
  {
    var cl := ClosureAt(s, from, marker).value;
    var ms := ClosureMatches(s, marker, from);
    var m0 := s[from..cl.end];
    var rest := ClosureMatches(s, marker, cl.end);
    assert ms == [m0] + rest;
    assert m0[1] == cl.day;
    DayInCons(m0, rest, c);
    ClosesOnSkip(s, marker, c, from);
  }

  /** A day is named in `[m0] + rest` when `m0` or some element of `rest` names it. */
  lemma DayInCons(m0: string, rest: seq<string>, c: char)
    requires |m0| >= 2 && forall m <- rest :: |m| >= 2
    ensures (exists m <- [m0] + rest :: m[1] == c) <==> m0[1] == c || exists m <- rest :: m[1] == c
  {
    var ms := [m0] + rest;
    if exists m <- ms :: m[1] == c {
      var m :| m in ms && m[1] == c;
      if m != m0 {
        assert m in rest;
      }
    }
    if exists m <- rest :: m[1] == c {
      var m :| m in rest && m[1] == c;
      assert m in ms;
    }
  }

  /** The step of `MatchesNameDay` where no match starts at `from`. */
  lemma NoMatchStep(s: string, marker: char, c: char, from: nat)
    requires from < |s| && ClosureAt(s, from, marker).None?
    requires (exists m <- ClosureMatches(s, marker, from + 1) :: m[1] == c) <==> ClosesOnFrom(s, marker, c, from + 1)
    ensures (exists m <- ClosureMatches(s, marker, from) :: m[1] == c) <==> ClosesOnFrom(s, marker, c, from)
  {
    assert ClosureMatches(s, marker, from) == ClosureMatches(s, marker, from + 1);
    if ClosesOnFrom(s, marker, c, from) {
      var i :| from <= i < |s| && ClosureAt(s, i, marker).Some? && ClosureAt(s, i, marker).value.day == c;
      assert i != from;
      assert ClosesOnFrom(s, marker, c, from + 1);
    }
  }

  /** Today is a closing day exactly when a 週 match names it, or there is no 週 match at
      all and a 周 match names it. */
  lemma ClosedDayMeaning(raw: string, c: char)
    ensures IsClosedDay(raw, c) <==>
              if ClosureFrom(raw, '週', 0) then ClosesOnFrom(raw, '週', c, 0) else ClosesOnFrom(raw, '周', c, 0)
  {
    var marker := if ClosureFrom(raw, '週', 0) then '週' else '周';
    var ms := ClosedMatches(raw);
    assert ms == ClosureMatches(raw, marker, 0);
    MatchesNameDay(raw, marker, c, 0);
    forall m <- ms ensures NamesToday(m, c) <==> m[1] == c {
      NamesTodayIffDay(m, marker, c);
    }
  }

  // ---------------------------------------------------------------------------
  // checkStatus

  /** What `checkStatus` returns once the ranges are known and sorted. */
  function RangesStatus(rs: seq<Range>, now: int): Status {
    if |rs| == 0 then Status(Unknown, "請查看營業時間", None, None, None)
    else
      match Ladder(rs, now)
      case OpenIn(k) => Status(Open, OpenMessage(rs[k].rawEnd), None, Some(rs[k].end), None)
      case SoonIn(k) => Status(OpeningSoon, SoonMessage(rs[k].rawStart), None, None, Some(rs[k].start))
      case RestUntil(k) => Status(Closed, "休息中", Some(rs[k].rawStart), None, None)
      case Ended => Status(ClosedDay, "今日營業已結束", None, None, None)
  }

  /** What `checkStatus` returns on weekday `day` at minute `now` of the day. */
  function StatusAt(raw: string, day: nat, now: int): Status
    requires day < 7
  {
    if |raw| == 0 then Status(Unknown, "No hours", None, None, None)
    else if IsClosedDay(raw, DayChar(day)) then Status(ClosedDay, "今日公休", None, None, None)
    else RangesStatus(SortByStart(ScanRanges(raw, 0)), now)
  }

  /** `checkStatus(rawHours, date)` for a date on weekday `day` at `hours:minutes`. */
  method CheckStatus(raw: string, day: nat, hours: nat, minutes: nat) returns (res: Status)
    requires day < 7 && hours < 24 && minutes < 60
    ensures res == StatusAt(raw, day, MinuteOfDay(hours, minutes))
  {
    if |raw| == 0 {
      return Status(Unknown, "No hours", None, None, None);
    }
    var currentMinutes := MinuteOfDay(hours, minutes);
    var isClosedDay := FindClosedDay(raw, DayChar(day));
    if isClosedDay {
      return Status(ClosedDay, "今日公休", None, None, None);
    }
    res := OpenDayAnswer(raw, currentMinutes);
  }

  /** The range part of `checkStatus`: the `exec` loop, the sort, then the ladder. */
  method OpenDayAnswer(raw: string, currentMinutes: int) returns (res: Status)
    ensures res == RangesStatus(SortByStart(ScanRanges(raw, 0)), currentMinutes)
  {
    var allRanges := ExecRanges(raw, []);
    assert allRanges == ScanRanges(raw, 0);
    allRanges := SortByStart(allRanges);
    res := RangesAnswer(allRanges, currentMinutes);
  }

  /** The two `match` calls and the `forEach` that sets `isClosedDay`. */
  method FindClosedDay(raw: string, currentDayChar: char) returns (isClosedDay: bool)
    ensures isClosedDay == IsClosedDay(raw, currentDayChar)
  {
    var closedMatch := ClosureMatches(raw, '週', 0);
    if |closedMatch| == 0 {
      closedMatch := ClosureMatches(raw, '周', 0);
    }
    isClosedDay := ScanClosedMatches(closedMatch, currentDayChar);
  }

  /** The `forEach` over the matches: the flag is set by any match naming today. */
  method ScanClosedMatches(closedMatch: seq<string>, currentDayChar: char) returns (isClosedDay: bool)
    ensures isClosedDay == AnyNamesToday(closedMatch, currentDayChar)
  {
    isClosedDay := false;
    for i := 0 to |closedMatch|
      invariant isClosedDay == AnyNamesToday(closedMatch[..i], currentDayChar)
    {
      assert closedMatch[..i + 1][..i] == closedMatch[..i];
      var m := closedMatch[i];
      if Contains(m, ['週', currentDayChar]) || Contains(m, ['周', currentDayChar]) {
        isClosedDay := true;
      }
    }
    assert closedMatch[..|closedMatch|] == closedMatch;
  }

  /** The part of `checkStatus` after the ranges are sorted: the empty check, the ladder
      loop and the `find` of the next opening. */
  method RangesAnswer(allRanges: seq<Range>, currentMinutes: int) returns (res: Status)
    ensures res == RangesStatus(allRanges, currentMinutes)
  {
    if |allRanges| == 0 {
      return Status(Unknown, "請查看營業時間", None, None, None);
    }
    var step := RunLadder(allRanges, currentMinutes);
    match step {
      case OpenIn(k) =>
        res := Status(Open, OpenMessage(allRanges[k].rawEnd), None, Some(allRanges[k].end), None);
      case SoonIn(k) =>
        res := Status(OpeningSoon, SoonMessage(allRanges[k].rawStart), None, None, Some(allRanges[k].start));
      case RestUntil(k) =>
        res := Status(Closed, "休息中", Some(allRanges[k].rawStart), None, None);
      case Ended =>
        res := Status(ClosedDay, "今日營業已結束", None, None, None);
    }
  }

  // ---------------------------------------------------------------------------
  // properties of checkStatus

  /** The answer does not depend on the weekday unless a closing day is named. */
  lemma SameAnswerEveryOpenDay(raw: string, d1: nat, d2: nat, now: int)
    requires d1 < 7 && d2 < 7
    requires !IsClosedDay(raw, DayChar(d1)) && !IsClosedDay(raw, DayChar(d2))
    ensures StatusAt(raw, d1, now) == StatusAt(raw, d2, now)
  {
  }

  /** On a day that is not closed, the answer is read off all ranges of the string,
      sorted by start. */
  lemma OpenDayStatus(raw: string, day: nat, now: int)
    requires day < 7
    requires |raw| > 0 && !IsClosedDay(raw, DayChar(day))
    ensures StatusAt(raw, day, now) == RangesStatus(SortByStart(ScanRanges(raw, 0)), now)
  {
  }

  /** The answer in terms of the sorted ranges: `unknown` when there are none; `open`
      carries the end of a range containing now; `opening-soon` the start of a range
      opening within the hour; `closed` the earliest later start, more than an hour away;
      `closed-day` with "今日營業已結束" comes after every range has ended. */
  lemma {:induction false} RangesAnswerMeaning(rs: seq<Range>, now: int)
    requires SortedByStart(rs)
    ensures var st := RangesStatus(rs, now);
            && (|rs| == 0 <==> st.state == Unknown)
            && (st.state == Open ==>
                  exists k | 0 <= k < |rs| :: OpenAt(rs[k], now) && st.msg == OpenMessage(rs[k].rawEnd)
                                              && st.endTime == Some(rs[k].end))
            && (st.state == OpeningSoon ==>
                  exists k | 0 <= k < |rs| :: SoonAt(rs[k], now) && st.msg == SoonMessage(rs[k].rawStart)
                                              && st.startTime == Some(rs[k].start))
            && ((exists k | 0 <= k < |rs| :: OpenAt(rs[k], now) || SoonAt(rs[k], now)) <==>
                  st.state in {Open, OpeningSoon})
            && (st.state == Closed ==>
                  exists k | 0 <= k < |rs| ::
                    && rs[k].start - now > 60
                    && st.nextOpen == Some(rs[k].rawStart)
                    && forall j | 0 <= j < |rs| && rs[j].start > now :: rs[k].start <= rs[j].start)
            && (st.state == ClosedDay <==>
                  |rs| > 0 && forall j | 0 <= j < |rs| :: rs[j].start <= now && rs[j].end <= now)
  {
    if |rs| > 0 {
      var step := Ladder(rs, now);
      if step.RestUntil? {
        RestingIsEarliest(rs, now);
      }
      if step.OpenIn? || step.SoonIn? {
        assert OpenAt(rs[step.k], now) || SoonAt(rs[step.k], now);
      }
      if forall j | 0 <= j < |rs| :: rs[j].start <= now && rs[j].end <= now {
        assert !OpenAt(rs[0], now) && !SoonAt(rs[0], now);
      }
    }
  }

  // ---------------------------------------------------------------------------
  // the script's own test table

  /** A string without 週 or 周 has no closing day. */
  lemma NoClosingMatches(s: string, c: char)
    requires '週' !in s && '周' !in s
    ensures !IsClosedDay(s, c)
  {
    assert !ClosureFrom(s, '週', 0);
    assert !ClosureFrom(s, '周', 0);
  }

  /** A bare `HH:MM-HH:MM` string holds neither 週 nor 周. */
  lemma BareRangeNoMarker(a: string, b: string)
    requires |a| == 5 && TokenShape(a, 0, 5) && |b| == 5 && TokenShape(b, 0, 5)
    ensures '週' !in a + "-" + b && '周' !in a + "-" + b
  {
    var s := a + "-" + b;
    forall k | 0 <= k < |s| ensures IsDigit(s[k]) || IsColon(s[k]) || s[k] == '-' {
      if k < 5 { assert s[k] == a[k]; } else if k > 5 { assert s[k] == b[k - 6]; }
    }
  }

  /** A bare `HH:MM-HH:MM` string yields its one range. */
  lemma BareRangeSorted(a: string, b: string)
    requires |a| == 5 && TokenShape(a, 0, 5) && |b| == 5 && TokenShape(b, 0, 5)
    ensures SortByStart(ScanRanges(a + "-" + b, 0)) == [MakeRange(TokenValue(a, 0, 5), TokenValue(b, 0, 5), a, b)]
  {
    ScanSingleRange(a, b);
    var r := MakeRange(TokenValue(a, 0, 5), TokenValue(b, 0, 5), a, b);
    assert [r][..0] == [];
    assert SortByStart([r]) == [r];
  }

  /** A bare `HH:MM-HH:MM` string is answered from its one range on every day. */
  lemma BareRangeStatus(a: string, b: string, day: nat, now: int)
    requires day < 7
    requires |a| == 5 && TokenShape(a, 0, 5) && |b| == 5 && TokenShape(b, 0, 5)
    ensures StatusAt(a + "-" + b, day, now)
            == RangesStatus([MakeRange(TokenValue(a, 0, 5), TokenValue(b, 0, 5), a, b)], now)
  {
    BareRangeNoMarker(a, b);
    NoClosingMatches(a + "-" + b, DayChar(day));
    BareRangeSorted(a, b);
    OpenDayStatus(a + "-" + b, day, now);
  }

  lemma HourTokens()
    ensures TokenShape("11:00", 0, 5) && TokenValue("11:00", 0, 5) == 660
    ensures TokenShape("21:00", 0, 5) && TokenValue("21:00", 0, 5) == 1260
    ensures TokenShape("17:00", 0, 5) && TokenValue("17:00", 0, 5) == 1020
    ensures TokenShape("22:00", 0, 5) && TokenValue("22:00", 0, 5) == 1320
    ensures TokenShape("09:00", 0, 5) && TokenValue("09:00", 0, 5) == 540
    ensures TokenShape("14:00", 0, 5) && TokenValue("14:00", 0, 5) == 840
  {
    TwoDigitToken("11:00");
    TwoDigitToken("21:00");
    TwoDigitToken("17:00");
    TwoDigitToken("22:00");
    TwoDigitToken("09:00");
    TwoDigitToken("14:00");
  }

  /** Case 1, "Simple Open": `11:00-21:00` on Monday at 12:00 is open. */
  lemma SimpleOpenCase(s: string)
    requires s == "11:00-21:00"
    ensures StatusAt(s, 1, 12 * 60).state == Open
  {
    var a, b := "11:00", "21:00";
    assert s == a + "-" + b;
    HourTokens();
    BareRangeStatus(a, b, 1, 12 * 60);
    SingleRangeSweep(Range(660, 1260, a, b), 12 * 60);
  }

  /** Case 2, "Opening Soon": `17:00-22:00` on Monday at 16:30 opens soon, and says so. */
  lemma OpeningSoonCase(s: string)
    requires s == "17:00-22:00"
    ensures StatusAt(s, 1, 16 * 60 + 30).state == OpeningSoon
    ensures Contains(StatusAt(s, 1, 16 * 60 + 30).msg, "即將營業")
  {
    var a, b := "17:00", "22:00";
    assert s == a + "-" + b;
    assert MatchesAt(SoonMessage(a), 0, "即將營業");
    HourTokens();
    BareRangeStatus(a, b, 1, 16 * 60 + 30);
    SingleRangeSweep(Range(1020, 1320, a, b), 16 * 60 + 30);
  }

  /** The two ranges of `11:00-14:00, 17:00-22:00`, in order. */
  lemma SplitShiftRanges(s: string)
    requires s == "11:00-14:00, 17:00-22:00"
    ensures SortByStart(ScanRanges(s, 0))
            == [Range(660, 840, "11:00", "14:00"), Range(1020, 1320, "17:00", "22:00")]
  {
    var a, b, c, d := "11:00", "14:00", "17:00", "22:00";
    assert s == a + "-" + b + ", " + c + "-" + d;
    HourTokens();
    ScanSplitShift(a, b, c, d);
    SortOrderedPair(Range(660, 840, a, b), Range(1020, 1320, c, d));
  }

  /** Case 3, "Resting (Split Shift)": `11:00-14:00, 17:00-22:00` on Monday at 15:00 is
      between shifts and opens next at 17:00. */
  lemma SplitShiftCase(s: string)
    requires s == "11:00-14:00, 17:00-22:00"
    ensures StatusAt(s, 1, 15 * 60).state == Closed
    ensures StatusAt(s, 1, 15 * 60).nextOpen == Some("17:00")
  {
    assert '週' !in s && '周' !in s;
    SplitShiftRanges(s);
    NoClosingMatches(s, DayChar(1));
    OpenDayStatus(s, 1, 15 * 60);
    BetweenShifts(Range(660, 840, "11:00", "14:00"), Range(1020, 1320, "17:00", "22:00"), 15 * 60);
  }

  /** Between two shifts, more than an hour before the second, the answer is `closed`
      with the second shift's start. */
  lemma BetweenShifts(r1: Range, r2: Range, now: int)
    requires r1.start <= r1.end <= now && now + 60 < r2.start
    ensures RangesStatus([r1, r2], now) == Status(Closed, "休息中", Some(r2.rawStart), None, None)
  {
    var rs := [r1, r2];
    assert !OpenAt(rs[0], now) && !SoonAt(rs[0], now);
    assert !OpenAt(rs[1], now) && !SoonAt(rs[1], now);
    assert Ladder(rs, now) == RestUntil(1);
  }

  /** Case 4, "Closed Day (Explicit)": `11:00-21:00 (週一公休)` on Monday is a closing day. */
  lemma ExplicitClosedDayCase(s: string)
    requires s == "11:00-21:00 (週一公休)"
    ensures StatusAt(s, 1, 12 * 60) == Status(ClosedDay, "今日公休", None, None, None)
  {
    MondayClosureFound(s);
    ClosedDayMeaning(s, DayChar(1));
  }

  /** The 週一公休 of case 4 is a match naming Monday. */
  lemma MondayClosureFound(s: string)
    requires s == "11:00-21:00 (週一公休)"
    ensures ClosureFrom(s, '週', 0) && ClosesOnFrom(s, '週', DayChar(1), 0)
  {
    assert s[13] == '週' && s[14] == '一' && s[15] == '公' && s[16] == '休';
    AdjacentClosure(s, 13, '週');
    assert ClosureAt(s, 13, '週').value.day == DayChar(1);
  }

  /** A marker, a day and 公休 written without spaces form a match. */
  lemma AdjacentClosure(s: string, i: nat, marker: char)
    requires i + 4 <= |s| && s[i] == marker && IsDayChar(s[i + 1]) && s[i + 2] == '公' && s[i + 3] == '休'
    ensures ClosureAt(s, i, marker) == Some(Closure(s[i + 1], i + 4))
  {
    assert !IsSpace(s[i + 2]);
    assert SkipSpace(s, i + 2) == i + 2;
    assert s[i + 2..i + 4] == "公休";
    assert MatchesAt(s, i + 2, "公休");
  }

  /** Case 5, "Ended Day": `09:00-17:00` on Monday at 18:00 is over for the day. */
  lemma EndedDayCase(s: string)
    requires s == "09:00-17:00"
    ensures StatusAt(s, 1, 18 * 60) == Status(ClosedDay, "今日營業已結束", None, None, None)
  {
    var a, b := "09:00", "17:00";
    assert s == a + "-" + b;
    HourTokens();
    BareRangeStatus(a, b, 1, 18 * 60);
    SingleRangeSweep(Range(540, 1020, a, b), 18 * 60);
  }
}
