/** The day-aware business-hours evaluator of verify_business_status.js: the hours
    string is cut into clauses, each clause decides whether it applies to today's weekday,
    the `HH:MM-HH:MM` ranges of the applicable clauses are sorted by start, and the status
    ladder runs over them. */
module DayAwareStatus {
  import opened Wrappers
  import opened Text
  import opened Hours

  // ---------------------------------------------------------------------------
  // DAYS_MAP and getDayIndex

  const DaysMap: map<string, int> := map[
    "日" := 0, "一" := 1, "二" := 2, "三" := 3, "四" := 4, "五" := 5, "六" := 6,
    "Sun" := 0, "Mon" := 1, "Tue" := 2, "Wed" := 3, "Thu" := 4, "Fri" := 5, "Sat" := 6]

  /** `getDayIndex`: the weekday number of a `DAYS_MAP` key, Sunday being 0; -1 for any
      other string. */
  function DayIndex(key: string): (r: int)
    ensures -1 <= r < 7
    ensures r == -1 <==> key !in DaysMap
  {
    if key in DaysMap then DaysMap[key] else -1
  }

  /** `getDayIndex` inverts the weekday characters, and its keys are exactly the seven
      characters and the seven English abbreviations. */
  lemma DayIndexInvertsDayChar()
    ensures forall d | 0 <= d < 7 :: DayIndex([DayChar(d)]) == d
    ensures forall d | 0 <= d < 7 :: DayIndex(["Sun", "Mon", "Tue", "Wed", "Thu", "Fri", "Sat"][d]) == d
    ensures forall c | IsDayChar(c) :: 0 <= DayIndex([c]) && DayChar(DayIndex([c])) == c
  {
    forall d | 0 <= d < 7 ensures DayIndex([DayChar(d)]) == d {
      DayCharOfDayIndex(DayChar(d));
    }
    forall d | 0 <= d < 7 ensures DayIndex(["Sun", "Mon", "Tue", "Wed", "Thu", "Fri", "Sat"][d]) == d {
      EnglishDayIndex(d);
    }
    forall c | IsDayChar(c) ensures 0 <= DayIndex([c]) && DayChar(DayIndex([c])) == c {
      DayCharOfDayIndex(c);
    }
  }

  /** The key of a weekday character maps back to that character. */
  lemma DayCharOfDayIndex(c: char)
    requires IsDayChar(c)
    ensures 0 <= DayIndex([c]) < 7 && DayChar(DayIndex([c])) == c
  {
    if c == '日' { assert [c] == "日"; }
    else if c == '一' { assert [c] == "一"; }
    else if c == '二' { assert [c] == "二"; }
    else if c == '三' { assert [c] == "三"; }
    else if c == '四' { assert [c] == "四"; }
    else if c == '五' { assert [c] == "五"; }
    else { assert [c] == "六"; }
  }

  /** The English abbreviations map to the same weekday numbers. */
  lemma EnglishDayIndex(d: nat)
    requires d < 7
    ensures DayIndex(["Sun", "Mon", "Tue", "Wed", "Thu", "Fri", "Sat"][d]) == d
  {
  }

  // ---------------------------------------------------------------------------
  // isDayMatch

  predicate IsWeekend(day: nat) {
    day == 0 || day == 6
  }

  /** A match of `週([一二三四五六日])\s*[-~～]\s*週([一二三四五六日])` starting at `i`:
      the two day characters it names. */
  function DayRangeAt(s: string, i: nat): (r: Option<(char, char)>)
    ensures r.Some? ==> i + 1 < |s| && s[i] == '週' && s[i + 1] == r.value.0
                        && IsDayChar(r.value.0) && IsDayChar(r.value.1)
  {
    if i + 1 < |s| && s[i] == '週' && IsDayChar(s[i + 1]) then
      var d := SkipSpace(s, i + 2);
      if d < |s| && IsRangeDash(s[d]) then
        var k := SkipSpace(s, d + 1);
        if k + 1 < |s| && s[k] == '週' && IsDayChar(s[k + 1]) then Some((s[i + 1], s[k + 1]))
        else None
      else None
    else None
  }

  /** Where `segment.match(rangeRegex)` finds its (leftmost) match, or -1. */
  function FirstDayRangeFrom(s: string, from: nat): (k: int)
    ensures k == -1 || (from <= k < |s| && DayRangeAt(s, k).Some?)
    ensures forall i: nat | from <= i < |s| && (k == -1 || i < k) :: DayRangeAt(s, i).None?
    decreases |s| - from
  {
    if from >= |s| then -1
    else if DayRangeAt(s, from).Some? then from
    else
      var k := FirstDayRangeFrom(s, from + 1);
      FirstDayRangeStep(s, from, k);
      k
  }

  /** A search that finds nothing at `from` reports what the search from `from + 1` does. */
  lemma FirstDayRangeStep(s: string, from: nat, k: int)
    requires from < |s| && DayRangeAt(s, from).None?
    requires forall i: nat | from + 1 <= i < |s| && (k == -1 || i < k) :: DayRangeAt(s, i).None?
    ensures forall i: nat | from <= i < |s| && (k == -1 || i < k) :: DayRangeAt(s, i).None?
  {
  }

  /** The two days named by the first `週X~週Y` of the clause, if there is one. */
  function FirstDayRange(s: string): Option<(char, char)> {
    var k := FirstDayRangeFrom(s, 0);
    if k < 0 then None else DayRangeAt(s, k)
  }

  /** Whether `cur` lies in the day range from `start` to `end`, wrapping over the end of
      the week when `start` comes after `end`. */
  predicate InDayRange(start: int, end: int, cur: int) {
    if start <= end then start <= cur <= end else cur >= start || cur <= end
  }

  /** `/週|周|星期|平日|假日|週末/.test(segment)`. */
  predicate HasDayKeyword(seg: string) {
    Contains(seg, "週") || Contains(seg, "周") || Contains(seg, "星期")
    || Contains(seg, "平日") || Contains(seg, "假日") || Contains(seg, "週末")
  }

  /** The clause names today as `週X`, `周X` or `星期X`. */
  predicate NamesDay(seg: string, c: char) {
    Contains(seg, ['週', c]) || Contains(seg, ['周', c]) || Contains(seg, "星期" + [c])
  }

  predicate WeekendMarker(seg: string) {
    Contains(seg, "假日") || Contains(seg, "六日") || Contains(seg, "週末")
  }

  /** The clause's first day range, if any, covers today. */
  predicate RangeCovers(seg: string, day: nat) {
    var rm := FirstDayRange(seg);
    rm.Some? && InDayRange(DayIndex([rm.value.0]), DayIndex([rm.value.1]), day)
  }

  /** `isDayMatch`: whether a clause applies on weekday `day`. The tests run in the code's
      order: a 平日 clause is refused at weekends and a 假日/六日/週末 clause on weekdays;
      a `週X~週Y` range that does not cover today refuses; a clause without day keywords
      applies (one holding 六日 only at weekends); otherwise a covering range, a named day, 平日 on a weekday or 假日/週末 at a
      weekend accepts, and nothing else does. */
  function IsDayMatch(seg: string, day: nat): (r: bool)
    requires day < 7
    ensures !HasDayKeyword(seg) && !(Contains(seg, "六日") && !IsWeekend(day)) ==> r
    ensures Contains(seg, "平日") && IsWeekend(day) ==> !r
    ensures WeekendMarker(seg) && !IsWeekend(day) ==> !r
    ensures FirstDayRange(seg).Some? && r ==> RangeCovers(seg, day)
    ensures (&& FirstDayRange(seg).Some?
             && !(Contains(seg, "平日") && IsWeekend(day))
             && !(WeekendMarker(seg) && !IsWeekend(day))) ==> (r <==> RangeCovers(seg, day))
    ensures r && HasDayKeyword(seg) ==>
              (|| RangeCovers(seg, day)
               || NamesDay(seg, DayChar(day))
               || (Contains(seg, "平日") && !IsWeekend(day))
               || ((Contains(seg, "假日") || Contains(seg, "週末")) && IsWeekend(day)))
    ensures (&& FirstDayRange(seg).None?
             && !(Contains(seg, "平日") && IsWeekend(day))
             && !(WeekendMarker(seg) && !IsWeekend(day))
             && (|| NamesDay(seg, DayChar(day))
                 || (Contains(seg, "平日") && !IsWeekend(day))
                 || ((Contains(seg, "假日") || Contains(seg, "週末")) && IsWeekend(day)))) ==> r
  {
    var weekend := day == 0 || day == 6;
    var rangeMatch := FirstDayRange(seg);
    DayRangeHasKeyword(seg);
    if Contains(seg, "平日") && weekend then false
    else if (Contains(seg, "假日") || Contains(seg, "六日") || Contains(seg, "週末")) && !weekend then false
    else if rangeMatch.Some? && !InDayRange(DayIndex([rangeMatch.value.0]), DayIndex([rangeMatch.value.1]), day) then false
    else if !HasDayKeyword(seg) then true
    else if rangeMatch.Some? && InDayRange(DayIndex([rangeMatch.value.0]), DayIndex([rangeMatch.value.1]), day) then true
    else if NamesDay(seg, DayChar(day)) then true
    else if Contains(seg, "平日") && !weekend then true
    else if (Contains(seg, "假日") || Contains(seg, "週末")) && weekend then true
    else false
  }

  /** A day range starts with 週, so a clause holding one has a day keyword. */
  lemma DayRangeHasKeyword(seg: string)
    ensures FirstDayRange(seg).Some? ==> Contains(seg, "週")
  {
    var k := FirstDayRangeFrom(seg, 0);
    if k >= 0 {
      assert MatchesAt(seg, k, "週");
    }
  }

  /** A clause with a day range always carries the keyword 週, so whenever it passes the
      平日/假日 tests it applies exactly on the days of the range, wrap-around included. */
  lemma DayRangeClause(seg: string, day: nat)
    requires day < 7
    requires FirstDayRange(seg).Some?
    requires !Contains(seg, "平日") && !WeekendMarker(seg)
    ensures var (a, b) := FirstDayRange(seg).value;
            var start, end := DayIndex([a]), DayIndex([b]);
            && 0 <= start && 0 <= end
            && (IsDayMatch(seg, day) <==> if start <= end then start <= day <= end else day >= start || day <= end)
  {
    var (a, b) := FirstDayRange(seg).value;
    DayCharOfDayIndex(a);
    DayCharOfDayIndex(b);
  }

  /** `週六日` names Saturday as `週六`, but Sunday only through 六日, which refuses
      weekdays without accepting anything: the clause applies on Saturday, not on Sunday. */
  lemma SaturdaySundayClause()
    ensures IsDayMatch("週六日", 6)
    ensures !IsDayMatch("週六日", 0)
  {
    var s := "週六日";
    assert MatchesAt(s, 1, "六日");
    assert MatchesAt(s, 0, "週");
    assert MatchesAt(s, 0, ['週', '六']);
    assert FirstDayRangeFrom(s, 0) == -1;
    assert !Contains(s, ['週', '日']);
    assert !Contains(s, ['周', '日']);
    assert !Contains(s, "星期日");
    assert !Contains(s, "平日");
    assert !Contains(s, "假日");
    assert !Contains(s, "週末");
  }

  /** The clauses of `平日 10:00-18:00, 假日 10:00-22:00` on a Sunday: the 平日 clause is
      refused and the 假日 clause is accepted through its marker. */
  lemma WeekdayWeekendClauses()
    ensures !IsDayMatch("平日 10:00-18:00", 0)
    ensures IsDayMatch(" 假日 10:00-22:00", 0)
  {
    var a, b := "平日 10:00-18:00", " 假日 10:00-22:00";
    assert MatchesAt(a, 0, "平日");
    assert MatchesAt(b, 1, "假日");
    ContainsNeedsFirst(b, "平日");
    ContainsNeedsFirst(b, "週");
    DayRangeHasKeyword(b);
  }

  /** The same clauses on a Monday: the 平日 clause is accepted and the 假日 clause is
      refused. */
  lemma WeekdayWeekendClausesMonday()
    ensures IsDayMatch("平日 10:00-18:00", 1)
    ensures !IsDayMatch(" 假日 10:00-22:00", 1)
  {
    var a, b := "平日 10:00-18:00", " 假日 10:00-22:00";
    assert MatchesAt(a, 0, "平日");
    assert MatchesAt(b, 1, "假日");
    ContainsNeedsFirst(a, "假日");
    ContainsNeedsFirst(a, "六日");
    ContainsNeedsFirst(a, "週末");
    ContainsNeedsFirst(a, "週");
    DayRangeHasKeyword(a);
  }

  // ---------------------------------------------------------------------------
  // getTodayRanges

  /** The characters `rawHours.split(/[,，;；]/)` cuts at. */
  const Separators: set<char> := {',', '，', ';', '；'}

  /** `[週周]<c>\s*公休` matches at `i`. */
  predicate ClosedMarkAt(s: string, i: nat, c: char) {
    || (ClosureAt(s, i, '週').Some? && ClosureAt(s, i, '週').value.day == c)
    || (ClosureAt(s, i, '周').Some? && ClosureAt(s, i, '周').value.day == c)
  }

  /** `new RegExp('[週周]' + c + '\\s*公休').test(s.slice(from))`, searched position by position. */
  function ClosedFrom(s: string, c: char, from: nat): (b: bool)
    ensures b <==> exists i: nat | from <= i < |s| :: ClosedMarkAt(s, i, c)
    decreases |s| - from
  {
    if from >= |s| then false
    else ClosedMarkAt(s, from, c) || ClosedFrom(s, c, from + 1)
  }

  datatype TodayRanges = ClosedToday | Ranges(rs: seq<Range>)

  /** The ranges pushed by the clauses `segs` that apply on `day`, in clause order. */
  function CollectRanges(segs: seq<string>, day: nat): seq<Range>
    requires day < 7
  {
    if |segs| == 0 then []
    else
      var last := segs[|segs| - 1];
      CollectRanges(segs[..|segs| - 1], day) + (if IsDayMatch(last, day) then ScanRanges(last, 0) else [])
  }

  /** What `getTodayRanges` returns: no ranges for an empty string, `CLOSED_DAY` when the
      string says today is a closing day, else the ranges of the applicable clauses sorted
      by start. */
  function TodayRangesOf(raw: string, day: nat): TodayRanges
    requires day < 7
  {
    if |raw| == 0 then Ranges([])
    else if ClosedFrom(raw, DayChar(day), 0) then ClosedToday
    else Ranges(SortByStart(CollectRanges(SplitAny(raw, Separators), day)))
  }

  /** `getTodayRanges`. */
  method GetTodayRanges(raw: string, day: nat) returns (res: TodayRanges)
    requires day < 7
    ensures res == TodayRangesOf(raw, day)
  {
    if |raw| == 0 {
      return Ranges([]);
    }
    var curChar := DayChar(day);
    if ClosedFrom(raw, curChar, 0) {
      return ClosedToday;
    }
    var segments := SplitAny(raw, Separators);
    var activeRanges: seq<Range> := [];
    for i := 0 to |segments|
      invariant activeRanges == CollectRanges(segments[..i], day)
    {
      var seg := segments[i];
      assert segments[..i + 1][..i] == segments[..i];
      if IsDayMatch(seg, day) {
        activeRanges := ExecRanges(seg, activeRanges);
      }
    }
    assert segments[..|segments|] == segments;
    return Ranges(SortByStart(activeRanges));
  }

  /** Every range of the clauses is one the clause's own text yields. */
  lemma {:induction false} CollectedFromClauses(segs: seq<string>, day: nat)
    requires day < 7
    ensures forall r <- CollectRanges(segs, day) :: exists seg <- segs :: IsDayMatch(seg, day) && r in ScanRanges(seg, 0)
  {
    if |segs| > 0 {
      var init := segs[..|segs| - 1];
      var last := segs[|segs| - 1];
      CollectedFromClauses(init, day);
      forall r <- CollectRanges(segs, day) ensures exists seg <- segs :: IsDayMatch(seg, day) && r in ScanRanges(seg, 0) {
        if r in CollectRanges(init, day) {
          var seg :| seg in init && IsDayMatch(seg, day) && r in ScanRanges(seg, 0);
          assert seg in segs;
        } else {
          assert last in segs;
        }
      }
    }
  }

  /** The ranges of today come sorted by start, each one from a clause that applies today,
      and each one with a start inside the day ends no earlier than it starts. */
  lemma TodayRangesShape(raw: string, day: nat)
    requires day < 7
    requires TodayRangesOf(raw, day).Ranges?
    ensures var rs := TodayRangesOf(raw, day).rs;
            && SortedByStart(rs)
            && (forall r <- rs :: r.start < 24 * 60 ==> r.start <= r.end)
            && forall r <- rs :: exists seg <- SplitAny(raw, Separators) :: IsDayMatch(seg, day) && r in ScanRanges(seg, 0)
  {
    if |raw| > 0 {
      var segs := SplitAny(raw, Separators);
      CollectedFromClauses(segs, day);
      SortKeepsRanges(CollectRanges(segs, day));
    }
  }

  // ---------------------------------------------------------------------------
  // checkStatus

  /** The countdown `${h}小時${m}分`: each part is left out when it is zero. */
  function Countdown(diff: nat): string {
    var hours := diff / 60;
    var rem := diff % 60;
    var withHours := if hours > 0 then DecimalString(hours) + "小時" else "";
    if rem > 0 then withHours + DecimalString(rem) + "分" else withHours
  }

  /** The countdown is empty only at zero; it starts with the hours when there is at
      least one, and ends with the minutes when they are not a whole number of hours. */
  lemma CountdownShape(diff: nat)
    ensures Countdown(diff) == "" <==> diff == 0
    ensures diff >= 60 ==> StartsWith(Countdown(diff), DecimalString(diff / 60) + "小時")
    ensures diff < 60 ==> Countdown(diff) == "" || EndsWith(Countdown(diff), "分")
    ensures diff % 60 > 0 ==> EndsWith(Countdown(diff), DecimalString(diff % 60) + "分")
    ensures diff % 60 == 0 ==> Countdown(diff) == "" || EndsWith(Countdown(diff), "小時")
  {
    var hours := diff / 60;
    var rem := diff % 60;
    var withHours := if hours > 0 then DecimalString(hours) + "小時" else "";
    var r := Countdown(diff);
    if rem > 0 {
      var tail := DecimalString(rem) + "分";
      assert r == withHours + tail;
      assert r[..|withHours|] == withHours;
      assert r[|r| - |tail|..] == tail;
      assert r[|r| - 1..] == "分";
    } else {
      assert r == withHours;
      if hours > 0 {
        assert r[|r| - 2..] == "小時";
      }
    }
  }

  function RestMessage(diff: nat): string {
    "休息中 (還有" + Countdown(diff) + "開門)"
  }

  /** What `checkStatus` returns once today's ranges `rs` are known. */
  function RangesStatus(raw: string, rs: seq<Range>, now: int): Status {
    if |rs| == 0 then
      if |raw| > 5 then Status(ClosedDay, "今日未營業", None, None, None)
      else Status(Unknown, "請查看營業時間", None, None, None)
    else
      match Ladder(rs, now)
      case OpenIn(k) => Status(Open, OpenMessage(rs[k].rawEnd), None, None, None)
      case SoonIn(k) => Status(OpeningSoon, SoonMessage(rs[k].rawStart), None, None, None)
      case RestUntil(k) =>
        Status(Closed, RestMessage(rs[k].start - now), Some(rs[k].rawStart), None, None)
      case Ended => Status(ClosedDay, "今日營業已結束", None, None, None)
  }

  lemma RestingStatus(raw: string, rs: seq<Range>, now: int)
    requires |rs| > 0 && Ladder(rs, now).RestUntil?
    ensures var k := Ladder(rs, now).k;
            RangesStatus(raw, rs, now) == Status(Closed, RestMessage(rs[k].start - now), Some(rs[k].rawStart), None, None)
  {
  }

  /** What `checkStatus` returns on weekday `day` at minute `now` of the day. */
  function StatusAt(raw: string, day: nat, now: int): Status
    requires day < 7
  {
    match TodayRangesOf(raw, day)
    case ClosedToday => Status(ClosedDay, "今日公休", None, None, None)
    case Ranges(rs) => RangesStatus(raw, rs, now)
  }

  /** `checkStatus(rawHours, date)` for a date on weekday `day` at `hours:minutes`. */
  method CheckStatus(raw: string, day: nat, hours: nat, minutes: nat) returns (res: Status)
    requires day < 7 && hours < 24 && minutes < 60
    ensures res == StatusAt(raw, day, MinuteOfDay(hours, minutes))
  {
    var currentMinutes := MinuteOfDay(hours, minutes);
    var ranges := GetTodayRanges(raw, day);
    StatusOfToday(raw, day, currentMinutes);
    if ranges.ClosedToday? {
      return Status(ClosedDay, "今日公休", None, None, None);
    }
    var rs := ranges.rs;
    if |rs| == 0 {
      if |raw| > 0 && |raw| > 5 {
        return Status(ClosedDay, "今日未營業", None, None, None);
      }
      return Status(Unknown, "請查看營業時間", None, None, None);
    }
    res := LadderStatus(raw, rs, currentMinutes);
  }

  /** The answer is `closed-day` with "今日公休" when a closing mark names today, and is
      otherwise read off today's ranges. */
  lemma StatusOfToday(raw: string, day: nat, now: int)
    requires day < 7
    ensures TodayRangesOf(raw, day).ClosedToday? ==> StatusAt(raw, day, now) == Status(ClosedDay, "今日公休", None, None, None)
    ensures TodayRangesOf(raw, day).Ranges? ==> StatusAt(raw, day, now) == RangesStatus(raw, TodayRangesOf(raw, day).rs, now)
  {
  }

  /** The part of `checkStatus` after the ranges are known to be non-empty: the ladder
      loop, then the `find` of the next opening and its countdown message. */
  method LadderStatus(raw: string, rs: seq<Range>, now: int) returns (res: Status)
    requires |rs| > 0
    ensures res == RangesStatus(raw, rs, now)
  {
    var step := RunLadder(rs, now);
    match step {
      case OpenIn(k) =>
        res := Status(Open, OpenMessage(rs[k].rawEnd), None, None, None);
      case SoonIn(k) =>
        res := Status(OpeningSoon, SoonMessage(rs[k].rawStart), None, None, None);
      case RestUntil(k) =>
        var timeMsg := CountdownText(rs[k].start - now);
        res := Status(Closed, "休息中 (還有" + timeMsg + "開門)", Some(rs[k].rawStart), None, None);
        RestingStatus(raw, rs, now);
      case Ended =>
        res := Status(ClosedDay, "今日營業已結束", None, None, None);
    }
  }

  /** The `timeMsg` built for a next opening `diffMins` minutes away. */
  method CountdownText(diffMins: nat) returns (timeMsg: string)
    ensures timeMsg == Countdown(diffMins)
  {
    var diffHrs := diffMins / 60;
    var remMins := diffMins % 60;
    timeMsg := "";
    if diffHrs > 0 {
      timeMsg := timeMsg + DecimalString(diffHrs) + "小時";
    }
    if remMins > 0 {
      timeMsg := timeMsg + DecimalString(remMins) + "分";
    }
    assert "" + DecimalString(diffHrs) + "小時" == DecimalString(diffHrs) + "小時";
  }

  // ---------------------------------------------------------------------------
  // properties of checkStatus

  /** A closing-day mark for today decides the answer before any range is looked at. */
  lemma ClosingDayFirst(raw: string, day: nat, now: int)
    requires day < 7
    requires exists i: nat | i < |raw| :: ClosedMarkAt(raw, i, DayChar(day))
    ensures StatusAt(raw, day, now) == Status(ClosedDay, "今日公休", None, None, None)
  {
  }

  /** With no applicable range the length of the string decides: more than five
      characters read as "not open today", anything shorter as unknown. */
  lemma NoRangesToday(raw: string, day: nat, now: int)
    requires day < 7
    requires TodayRangesOf(raw, day) == Ranges([])
    ensures |raw| > 5 ==> StatusAt(raw, day, now) == Status(ClosedDay, "今日未營業", None, None, None)
    ensures |raw| <= 5 ==> StatusAt(raw, day, now) == Status(Unknown, "請查看營業時間", None, None, None)
  {
  }

  /** The answer in terms of today's ranges, which are sorted by start: `open` names the
      end of the first range that contains now; `opening-soon` the start of the first range
      opening within the hour; `closed` the earliest later start, more than an hour away,
      with a countdown that always shows the hours; `closed-day` comes after every range
      has ended. */
  lemma {:induction false} RangesAnswerMeaning(raw: string, rs: seq<Range>, now: int)
    requires |rs| > 0 && SortedByStart(rs)
    ensures var st := RangesStatus(raw, rs, now);
            && (st.state == Open ==> exists k | 0 <= k < |rs| :: OpenAt(rs[k], now) && st.msg == OpenMessage(rs[k].rawEnd))
            && (st.state == OpeningSoon ==> exists k | 0 <= k < |rs| :: SoonAt(rs[k], now) && st.msg == SoonMessage(rs[k].rawStart))
            && ((exists k | 0 <= k < |rs| :: OpenAt(rs[k], now) || SoonAt(rs[k], now)) <==> st.state in {Open, OpeningSoon})
            && (st.state == Closed ==>
                  exists k | 0 <= k < |rs| ::
                    && rs[k].start - now > 60
                    && st.nextOpen == Some(rs[k].rawStart)
                    && StartsWith(Countdown(rs[k].start - now), DecimalString((rs[k].start - now) / 60) + "小時")
                    && forall j | 0 <= j < |rs| && rs[j].start > now :: rs[k].start <= rs[j].start)
            && (st.state == ClosedDay <==> forall j | 0 <= j < |rs| :: rs[j].start <= now && rs[j].end <= now)
  {
    var step := Ladder(rs, now);
    if step.RestUntil? {
      RestingAnswer(raw, rs, now);
    }
    if step.OpenIn? || step.SoonIn? {
      assert OpenAt(rs[step.k], now) || SoonAt(rs[step.k], now);
    }
    if forall j | 0 <= j < |rs| :: rs[j].start <= now && rs[j].end <= now {
      assert !OpenAt(rs[0], now) && !SoonAt(rs[0], now);
    }
  }

  /** When the ladder rests, the answer names the earliest later start, more than an
      hour away, and its countdown begins with the hours. */
  lemma RestingAnswer(raw: string, rs: seq<Range>, now: int)
    requires |rs| > 0 && SortedByStart(rs) && Ladder(rs, now).RestUntil?
    ensures var st := RangesStatus(raw, rs, now);
            var k := Ladder(rs, now).k;
            && st.state == Closed
            && rs[k].start - now > 60
            && st.nextOpen == Some(rs[k].rawStart)
            && StartsWith(Countdown(rs[k].start - now), DecimalString((rs[k].start - now) / 60) + "小時")
            && forall j | 0 <= j < |rs| && rs[j].start > now :: rs[k].start <= rs[j].start
  {
    var k := Ladder(rs, now).k;
    RestingIsEarliest(rs, now);
    CountdownShape(rs[k].start - now);
    RestingStatus(raw, rs, now);
  }

  // ---------------------------------------------------------------------------
  // the script's own test table

  /** A string without 週 or 周 cannot mark any day as closed. */
  lemma NoClosingMark(s: string, c: char)
    requires '週' !in s && '周' !in s
    ensures !ClosedFrom(s, c, 0)
  {
  }

  /** A string of digits, colons and dashes marks no closing day, is one clause and
      applies on every day. */
  lemma PlainClause(s: string, day: nat)
    requires day < 7
    requires forall c <- s :: IsDigit(c) || c == ':' || c == '-'
    ensures !ClosedFrom(s, DayChar(day), 0)
    ensures SplitAny(s, Separators) == [s]
    ensures IsDayMatch(s, day)
  {
    NoClosingMark(s, DayChar(day));
    SplitAnyNoSeparator(s, Separators);
    ContainsNeedsFirst(s, "週");
    ContainsNeedsFirst(s, "周");
    ContainsNeedsFirst(s, "星期");
    ContainsNeedsFirst(s, "平日");
    ContainsNeedsFirst(s, "假日");
    ContainsNeedsFirst(s, "週末");
    ContainsNeedsFirst(s, "六日");
  }

  /** A bare `HH:MM-HH:MM` string applies every day and yields its one range. */
  lemma BareRangeToday(a: string, b: string, day: nat, va: nat, vb: nat)
    requires day < 7
    requires |a| == 5 && TokenShape(a, 0, 5) && |b| == 5 && TokenShape(b, 0, 5)
    requires a[2] == ':' && b[2] == ':'
    requires TokenValue(a, 0, 5) == va && TokenValue(b, 0, 5) == vb && va <= vb
    ensures TodayRangesOf(a + "-" + b, day) == Ranges([Range(va, vb, a, b)])
  {
    var s := a + "-" + b;
    assert forall c <- s :: IsDigit(c) || c == ':' || c == '-' by {
      forall c <- s ensures IsDigit(c) || c == ':' || c == '-' {
        var k :| 0 <= k < |s| && s[k] == c;
        if k < 5 { assert c == a[k]; }
        else if k > 5 { assert c == b[k - 6]; }
      }
    }
    PlainClause(s, day);
    ScanSingleRange(a, b);
    var r := MakeRange(va, vb, a, b);
    assert r == Range(va, vb, a, b);
    assert [s][..0] == [];
    assert CollectRanges([s], day) == [r];
    assert [r][..0] == [];
    assert SortByStart([r]) == [r];
  }

  /** `10:00-22:00` applies every day and yields the one range from 600 to 1320. */
  lemma TenToTenRanges(a: string, b: string, day: nat)
    requires |a| == 5 && a[0] == '1' && a[1] == '0' && a[2] == ':' && a[3] == '0' && a[4] == '0'
    requires |b| == 5 && b[0] == '2' && b[1] == '2' && b[2] == ':' && b[3] == '0' && b[4] == '0'
    requires day < 7
    ensures TodayRangesOf(a + "-" + b, day) == Ranges([Range(600, 1320, a, b)])
  {
    TwoDigitToken(a);
    TwoDigitToken(b);
    BareRangeToday(a, b, day, 600, 1320);
  }

  /** "Simple Range Open" and "Simple Range Closed": `10:00-22:00` on a Sunday is open
      at 12:00 and over for the day at 23:00. */
  lemma SimpleRangeCases(a: string, b: string)
    requires a == "10:00" && b == "22:00"
    ensures StatusAt(a + "-" + b, 0, 12 * 60).state == Open
    ensures StatusAt(a + "-" + b, 0, 23 * 60).state == ClosedDay
  {
    TenToTenRanges(a, b, 0);
    var r := Range(600, 1320, a, b);
    SingleRangeSweep(r, 12 * 60);
    SingleRangeSweep(r, 23 * 60);
  }

  /** "Explicit Closed Day": `10:00-22:00 (週一公休)` on a Monday is a closing day. */
  lemma ExplicitClosedDayCase()
    ensures StatusAt("10:00-22:00 (週一公休)", 1, 12 * 60).state == ClosedDay
  {
    var s := "10:00-22:00 (週一公休)";
    assert s[13] == '週' && s[14] == '一' && s[15] == '公';
    assert SkipSpace(s, 15) == 15;
    assert MatchesAt(s, 15, "公休");
    assert ClosedMarkAt(s, 13, DayChar(1));
    ClosingDayFirst(s, 1, 12 * 60);
  }
}
