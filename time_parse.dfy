/**
 * `parse_time` of the fan-sub relay (src/plugins/hxzxhelper/__init__.py): four
 * leftmost regular-expression searches (`\d{4}年`, `\d{1,2}月`, `\d{1,2}日`,
 * `\d{1,2}[:：]\d{1,2}`), the range checks `datetime(...)` performs, and the
 * timestamp the caption or translation is keyed by; plus the first-line cut the
 * caption and translation handlers apply before parsing.
 */
module TimeParse {
  import opened Wrappers
  import opened Text

  // ---------------------------------------------------------------------------
  // The four searches

  /** `\d{4}年` matches at position i. */
  predicate YearAt(s: string, i: nat)
  {
    i + 5 <= |s| && AllDigits(s[i..i + 4]) && s[i + 4] == '年'
  }

  /** Length of the `\d{1,2}<marker>` match at i (the digits only), 0 when there is none. */
  function NumberLen(s: string, i: nat, marker: char): nat
  {
    if i + 3 <= |s| && IsDigit(s[i]) && IsDigit(s[i + 1]) && s[i + 2] == marker then 2
    else if i + 2 <= |s| && IsDigit(s[i]) && s[i + 1] == marker then 1
    else 0
  }

  predicate IsColon(c: char) { c == ':' || c == '：' }

  /** Length of the hour digits of a `\d{1,2}[:：]` prefix at i, 0 when there is none. */
  function HourLen(s: string, i: nat): nat
  {
    if i + 3 <= |s| && IsDigit(s[i]) && IsDigit(s[i + 1]) && IsColon(s[i + 2]) then 2
    else if i + 2 <= |s| && IsDigit(s[i]) && IsColon(s[i + 1]) then 1
    else 0
  }

  /** `\d{1,2}[:：]\d{1,2}` matches at i. */
  predicate ClockAt(s: string, i: nat)
  {
    var h := HourLen(s, i);
    h > 0 && i + h + 1 < |s| && IsDigit(s[i + h + 1])
  }

  /** Length of the (greedy) minute digits of the clock match at i. */
  function MinuteLen(s: string, i: nat): nat
    requires ClockAt(s, i)
  {
    var j := i + HourLen(s, i) + 1;
    if j + 1 < |s| && IsDigit(s[j + 1]) then 2 else 1
  }

  /** `re.search`: the leftmost position at or after i where `\d{4}年` matches. */
  function SearchYear(s: string, i: nat): (r: Option<nat>)
    ensures r.Some? ==> i <= r.value && YearAt(s, r.value)
    decreases |s| - i
  {
    if i >= |s| then None else if YearAt(s, i) then Some(i) else SearchYear(s, i + 1)
  }

  /** The leftmost position at or after i where `\d{1,2}<marker>` matches. */
  function SearchNumber(s: string, i: nat, marker: char): (r: Option<nat>)
    ensures r.Some? ==> i <= r.value && NumberLen(s, r.value, marker) > 0
    decreases |s| - i
  {
    if i >= |s| then None
    else if NumberLen(s, i, marker) > 0 then Some(i)
    else SearchNumber(s, i + 1, marker)
  }

  /** The leftmost position at or after i where `\d{1,2}[:：]\d{1,2}` matches. */
  function SearchClock(s: string, i: nat): (r: Option<nat>)
    ensures r.Some? ==> i <= r.value && ClockAt(s, r.value)
    decreases |s| - i
  {
    if i >= |s| then None else if ClockAt(s, i) then Some(i) else SearchClock(s, i + 1)
  }

  /** The year search finds the leftmost match: there is none before it (nor at all when it fails). */
  lemma {:induction false} SearchYearLeftmost(s: string, i: nat)
    ensures var r := SearchYear(s, i);
            forall j :: i <= j && (r.None? || j < r.value) ==> !YearAt(s, j)
    decreases |s| - i
  {
    if i < |s| && !YearAt(s, i) {
      SearchYearLeftmost(s, i + 1);
    }
  }

  /** The number search finds the leftmost match. */
  lemma {:induction false} SearchNumberLeftmost(s: string, i: nat, marker: char)
    ensures var r := SearchNumber(s, i, marker);
            forall j :: i <= j && (r.None? || j < r.value) ==> NumberLen(s, j, marker) == 0
    decreases |s| - i
  {
    if i < |s| && NumberLen(s, i, marker) == 0 {
      SearchNumberLeftmost(s, i + 1, marker);
    }
  }

  /** The clock search finds the leftmost match. */
  lemma {:induction false} SearchClockLeftmost(s: string, i: nat)
    ensures var r := SearchClock(s, i);
            forall j :: i <= j && (r.None? || j < r.value) ==> !ClockAt(s, j)
    decreases |s| - i
  {
    if i < |s| && !ClockAt(s, i) {
      SearchClockLeftmost(s, i + 1);
    }
  }

  // ---------------------------------------------------------------------------
  // datetime(...) and timestamp()

  datatype DateTime = DateTime(year: int, month: int, day: int, hour: int, minute: int)

  predicate IsLeap(y: int) { (y % 4 == 0 && y % 100 != 0) || y % 400 == 0 }

  function DaysInMonth(y: int, m: int): int
    requires 1 <= m <= 12
  {
    if m == 2 then (if IsLeap(y) then 29 else 28)
    else if m == 4 || m == 6 || m == 9 || m == 11 then 30
    else 31
  }

  /** The ranges `datetime(year, month, day, hour, minute)` accepts without raising ValueError. */
  predicate ValidDateTime(d: DateTime)
  {
    && 1 <= d.year <= 9999
    && 1 <= d.month <= 12
    && 1 <= d.day <= DaysInMonth(d.year, d.month)
    && 0 <= d.hour < 24
    && 0 <= d.minute < 60
  }

  /** Days from 1970-01-01 to the given civil date (proleptic Gregorian calendar). */
  function DaysFromCivil(y: int, m: int, d: int): int
    requires 1 <= m <= 12
  {
    var y' := if m <= 2 then y - 1 else y;
    var era := y' / 400;
    var yoe := y' - era * 400;
    var doy := (153 * (if m > 2 then m - 3 else m + 9) + 2) / 5 + d - 1;
    var doe := yoe * 365 + yoe / 4 - yoe / 100 + doy;
    era * 146097 + doe - 719468
  }

  /** Seconds since the epoch of a whole-minute date and time. */
  function Stamp(d: DateTime): int
    requires 1 <= d.month <= 12
  {
    DaysFromCivil(d.year, d.month, d.day) * 86400 + d.hour * 3600 + d.minute * 60
  }

  /** A stamp counts whole minutes. */
  lemma StampWholeMinutes(d: DateTime)
    requires 1 <= d.month <= 12
    ensures Stamp(d) % 60 == 0
  {
    var minutes := DaysFromCivil(d.year, d.month, d.day) * 1440 + d.hour * 60 + d.minute;
    assert Stamp(d) == minutes * 60;
  }

  /** The four fragments, read from their leftmost matches; None when one is missing. */
  function Fragments(s: string): Option<DateTime>
  {
    match (SearchYear(s, 0), SearchNumber(s, 0, '月'), SearchNumber(s, 0, '日'), SearchClock(s, 0))
    case (Some(y), Some(mo), Some(d), Some(c)) => Some(ReadFragments(s, y, mo, d, c))
    case _ => None
  }

  /** `int(...)` of each matched group, given where the four matches start. */
  function ReadFragments(s: string, y: nat, mo: nat, d: nat, c: nat): DateTime
    requires YearAt(s, y) && NumberLen(s, mo, '月') > 0 && NumberLen(s, d, '日') > 0 && ClockAt(s, c)
  {
    var h := HourLen(s, c);
    var mi := MinuteLen(s, c);
    DateTime(DecimalValue(s[y..y + 4]),
             DecimalValue(s[mo..mo + NumberLen(s, mo, '月')]),
             DecimalValue(s[d..d + NumberLen(s, d, '日')]),
             DecimalValue(s[c..c + h]),
             DecimalValue(s[c + h + 1..c + h + 1 + mi]))
  }

  /**
   * `int(parse_time(s))`: None stands for the ValueError raised when a fragment
   * is missing or `datetime` rejects the values.
   */
  function ParseTime(s: string): (r: Option<int>)
    ensures r.Some? ==> r.value % 60 == 0
  {
    match Fragments(s)
    case Some(d) => if ValidDateTime(d) then StampWholeMinutes(d); Some(Stamp(d)) else None
    case None => None
  }

  /** A parsed time is present only when all four fragments occur in the text. */
  lemma ParseTimeNeedsAllFragments(s: string)
    requires ParseTime(s).Some?
    ensures exists i :: YearAt(s, i)
    ensures exists i :: NumberLen(s, i, '月') > 0
    ensures exists i :: NumberLen(s, i, '日') > 0
    ensures exists i :: ClockAt(s, i)
  {
    var y, mo, d, c := SearchYear(s, 0), SearchNumber(s, 0, '月'), SearchNumber(s, 0, '日'), SearchClock(s, 0);
    assert y.Some? && mo.Some? && d.Some? && c.Some?;
    assert YearAt(s, y.value);
    assert NumberLen(s, mo.value, '月') > 0;
    assert NumberLen(s, d.value, '日') > 0;
    assert ClockAt(s, c.value);
  }

  /** No parsed time equals the -1 a fresh Mail carries, so a translation never matches such a mail. */
  lemma ParsedTimeIsNotUnset(s: string)
    ensures ParseTime(s) != Some(-1)
  {
  }

  lemma DecimalExamples()
    ensures DecimalValue("2024") == 2024 && DecimalValue("10") == 10 && DecimalValue("00") == 0
    ensures DecimalValue("5") == 5 && DecimalValue("1") == 1 && DecimalValue("2") == 2
    ensures DecimalValue("30") == 30
  {
    assert "2024"[..3] == "202" && "202"[..2] == "20" && "20"[..1] == "2";
    assert "10"[..1] == "1" && "00"[..1] == "0" && "30"[..1] == "3";
    assert "5"[..0] == "" && "1"[..0] == "" && "2"[..0] == "";
  }

  /** The fragments read once the four leftmost matches are known. */
  lemma FragmentsAt(s: string, y: nat, mo: nat, d: nat, c: nat)
    requires SearchYear(s, 0) == Some(y) && SearchNumber(s, 0, '月') == Some(mo)
    requires SearchNumber(s, 0, '日') == Some(d) && SearchClock(s, 0) == Some(c)
    ensures YearAt(s, y) && NumberLen(s, mo, '月') > 0 && NumberLen(s, d, '日') > 0 && ClockAt(s, c)
    ensures Fragments(s) == Some(ReadFragments(s, y, mo, d, c))
  {
    var searches := (SearchYear(s, 0), SearchNumber(s, 0, '月'), SearchNumber(s, 0, '日'), SearchClock(s, 0));
    assert searches == (Some(y), Some(mo), Some(d), Some(c));
  }

  /** Headings of the form "2024年5月1日 10:00", with either colon. */
  predicate MayDayHeading(s: string)
  {
    s == "2024年5月1日 10:00" || s == "2024年5月1日 10：00"
  }

  lemma MayDayDate(s: string)
    requires MayDayHeading(s)
    ensures SearchYear(s, 0) == Some(0)
    ensures SearchNumber(s, 0, '月') == Some(5) && NumberLen(s, 5, '月') == 1
    ensures SearchNumber(s, 0, '日') == Some(7) && NumberLen(s, 7, '日') == 1
  {
    MayDayMonth(s);
    MayDayDay(s);
  }

  lemma MayDayMonth(s: string)
    requires MayDayHeading(s)
    ensures SearchNumber(s, 0, '月') == Some(5) && NumberLen(s, 5, '月') == 1
  {
    assert SearchNumber(s, 5, '月') == Some(5);
    assert SearchNumber(s, 3, '月') == Some(5);
    assert SearchNumber(s, 1, '月') == Some(5);
  }

  lemma MayDayDay(s: string)
    requires MayDayHeading(s)
    ensures SearchNumber(s, 0, '日') == Some(7) && NumberLen(s, 7, '日') == 1
  {
    assert SearchNumber(s, 7, '日') == Some(7);
    assert SearchNumber(s, 5, '日') == Some(7);
    assert SearchNumber(s, 3, '日') == Some(7);
    assert SearchNumber(s, 1, '日') == Some(7);
  }

  lemma MayDayClock(s: string)
    requires MayDayHeading(s)
    ensures SearchClock(s, 0) == Some(10) && HourLen(s, 10) == 2 && MinuteLen(s, 10) == 2
  {
    assert |s| == 15 && IsDigit(s[10]) && IsDigit(s[11]) && IsColon(s[12]) && IsDigit(s[13]) && IsDigit(s[14]);
    assert forall k :: 0 < k <= 11 ==> !IsColon(s[k]);
    ClockSearchSkips(s, 0, 10);
  }

  /** With no colon between i and the clock at c, the clock search from i lands on c. */
  lemma {:induction false} ClockSearchSkips(s: string, i: nat, c: nat)
    requires i <= c < |s| && ClockAt(s, c)
    requires forall k :: i < k <= c + 1 ==> !IsColon(s[k])
    ensures SearchClock(s, i) == Some(c)
    decreases c - i
  {
    if i < c {
      assert !IsColon(s[i + 1]) && !IsColon(s[i + 2]);
      ClockSearchSkips(s, i + 1, c);
    }
  }

  lemma MayDayFragments(s: string)
    requires MayDayHeading(s)
    ensures Fragments(s) == Some(DateTime(2024, 5, 1, 10, 0))
  {
    MayDayDate(s);
    MayDayClock(s);
    FragmentsAt(s, 0, 5, 7, 10);
    assert s[0..4] == "2024" && s[5..6] == "5" && s[7..8] == "1" && s[10..12] == "10" && s[13..15] == "00";
    DecimalExamples();
  }

  lemma MayDayStamp()
    ensures ValidDateTime(DateTime(2024, 5, 1, 10, 0))
    ensures Stamp(DateTime(2024, 5, 1, 10, 0)) == 1714557600
  {
  }

  /**
   * The caption heading of the documented scenario, "2024年5月1日 10:00", and the
   * same heading written with the full-width colon "：", parse to the same time.
   */
  lemma ParseTimeExample(s: string)
    requires MayDayHeading(s)
    ensures ParseTime(s) == Some(1714557600)
  {
    MayDayFragments(s);
    MayDayStamp();
  }

  /** Without a year fragment the parse fails. */
  lemma ParseTimeMissingYear(s: string)
    requires s == "5月1日 10:00"
    ensures ParseTime(s) == None
  {
    assert SearchYear(s, 8) == None;
    assert SearchYear(s, 4) == None;
    assert SearchYear(s, 0) == None;
    assert Fragments(s) == None;
  }

  lemma LeapDayHeadingParts(s: string)
    requires s == "2024年2月30日 10:00"
    ensures SearchYear(s, 0) == Some(0)
    ensures SearchNumber(s, 0, '月') == Some(5) && NumberLen(s, 5, '月') == 1
    ensures SearchNumber(s, 0, '日') == Some(7) && NumberLen(s, 7, '日') == 2
    ensures SearchClock(s, 0) == Some(11) && HourLen(s, 11) == 2 && MinuteLen(s, 11) == 2
  {
    LeapDayDate(s);
    LeapDayClock(s);
  }

  lemma LeapDayDate(s: string)
    requires s == "2024年2月30日 10:00"
    ensures SearchNumber(s, 0, '月') == Some(5) && NumberLen(s, 5, '月') == 1
    ensures SearchNumber(s, 0, '日') == Some(7) && NumberLen(s, 7, '日') == 2
  {
    assert SearchNumber(s, 5, '月') == Some(5);
    assert SearchNumber(s, 3, '月') == Some(5);
    assert SearchNumber(s, 1, '月') == Some(5);
    assert SearchNumber(s, 7, '日') == Some(7);
    assert SearchNumber(s, 5, '日') == Some(7);
    assert SearchNumber(s, 3, '日') == Some(7);
    assert SearchNumber(s, 1, '日') == Some(7);
  }

  lemma LeapDayClock(s: string)
    requires s == "2024年2月30日 10:00"
    ensures SearchClock(s, 0) == Some(11) && HourLen(s, 11) == 2 && MinuteLen(s, 11) == 2
  {
    assert |s| == 16 && IsDigit(s[11]) && IsDigit(s[12]) && IsColon(s[13]) && IsDigit(s[14]) && IsDigit(s[15]);
    assert forall k :: 0 < k <= 12 ==> !IsColon(s[k]);
    ClockSearchSkips(s, 0, 11);
  }

  /** All fragments present but there is no 30 February: `datetime` raises, so the parse fails. */
  lemma ParseTimeInvalidDay(s: string)
    requires s == "2024年2月30日 10:00"
    ensures ParseTime(s) == None
  {
    LeapDayHeadingParts(s);
    FragmentsAt(s, 0, 5, 7, 11);
    assert s[0..4] == "2024";
    assert s[5..6] == "2";
    assert s[7..9] == "30";
    assert s[11..13] == "10";
    assert s[14..16] == "00";
    DecimalExamples();
    assert Fragments(s) == Some(DateTime(2024, 2, 30, 10, 0));
  }

  // ---------------------------------------------------------------------------
  // The first line of a caption or translation

  /**
   * `raw[:firstlineend]`, where `firstlineend` is the position of the first
   * "\r\n" if there is one, else of the first "\n"; when there is neither,
   * `find` gives -1 and the slice drops the last character.
   */
  function FirstLine(raw: string): string
  {
    var crlf := Find(raw, "\r\n");
    var end := if crlf == -1 then Find(raw, "\n") else crlf;
    if end == -1 then (if raw == [] then [] else raw[..|raw| - 1]) else raw[..end]
  }

  /** With LF line ends, the cut is exactly the text before the first line break. */
  lemma FirstLineOfLines(line: string, rest: string)
    requires '\n' !in line && '\r' !in line && !Contains(rest, "\r\n")
    ensures FirstLine(line + "\n" + rest) == line
  {
    var raw := line + "\n" + rest;
    assert OccursAt(raw, "\n", |line|);
    forall j | 0 <= j < |line| ensures !OccursAt(raw, "\n", j) {
      assert raw[j] == line[j];
    }
    forall i | 0 <= i <= |raw| - 2 ensures !OccursAt(raw, "\r\n", i) {
      if i >= |line| + 1 {
        assert raw[i..i + 2] == rest[i - |line| - 1..i - |line| + 1];
        assert !OccursAt(rest, "\r\n", i - |line| - 1);
      } else if i < |line| {
        assert raw[i] == line[i] && line[i] in line;
        assert raw[i..i + 2][0] == raw[i];
      } else {
        assert raw[i..i + 2][0] == raw[i] == '\n';
      }
    }
    assert !Contains(raw, "\r\n");
  }

  /** A message without any line break loses its last character before parsing. */
  lemma SingleLineDropsLastChar(raw: string)
    requires '\n' !in raw && raw != []
    ensures FirstLine(raw) == raw[..|raw| - 1]
  {
    forall i | 0 <= i <= |raw| - 1 ensures !OccursAt(raw, "\n", i) {
      if i < |raw| {
        assert raw[i] in raw;
        assert raw[i..i + 1][0] == raw[i];
      }
    }
    forall i | 0 <= i <= |raw| - 2 ensures !OccursAt(raw, "\r\n", i) {
      assert raw[i + 1] in raw;
    }
  }
}
