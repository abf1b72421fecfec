/** The date helpers of the front end (frontend/src/lib/date-utils.ts). Parsing a date string
    and reading the clock are outside the model: a date arrives as its millisecond timestamp
    (`None` for an unparsable string, whose timestamp is `NaN`) or as its calendar day in the
    local time zone. */
module DateUtils {
  import opened Wrappers
  import opened Text

  const MsPerDay: int := 1000 * 60 * 60 * 24

  /** The label `formatRelativeTime` picks. */
  datatype Relative =
    | Today
    | Yesterday
    | DaysAgo(days: int)
    | WeeksAgo(weeks: int)
    | MonthsAgo(months: int)
    | YearsAgo(years: int)
    | NotANumber

  /** Whole days elapsed, rounded towards minus infinity (`Math.floor` of the quotient). */
  function DiffInDays(diffInMs: int): (d: int)
    ensures d * MsPerDay <= diffInMs < (d + 1) * MsPerDay
  {
    diffInMs / MsPerDay
  }

  /** The label for a whole number of days. Dates in the future give a negative number of days,
      which falls into the "days ago" case. */
  function Classify(d: int): (r: Relative)
    ensures r == Today <==> d == 0
    ensures r == Yesterday <==> d == 1
    ensures r.DaysAgo? <==> d < 0 || 2 <= d < 7
    ensures r.WeeksAgo? <==> 7 <= d < 30
    ensures r.MonthsAgo? <==> 30 <= d < 365
    ensures r.YearsAgo? <==> 365 <= d
    ensures r != NotANumber
  {
    if d == 0 then Today
    else if d == 1 then Yesterday
    else if d < 7 then DaysAgo(d)
    else if d < 30 then WeeksAgo(d / 7)
    else if d < 365 then MonthsAgo(d / 30)
    else YearsAgo(d / 365)
  }

  function Render(r: Relative): string
  {
    match r
    case Today => "今日"
    case Yesterday => "昨日"
    case DaysAgo(n) => ShowInt(n) + "日前"
    case WeeksAgo(n) => ShowInt(n) + "週間前"
    case MonthsAgo(n) => ShowInt(n) + "ヶ月前"
    case YearsAgo(n) => ShowInt(n) + "年前"
    case NotANumber => "NaN年前"
  }

  /** `formatRelativeTime`: an unparsable date fails every comparison and reaches the last
      branch with `NaN` years. */
  function FormatRelativeTime(date: Option<int>, now: int): string
  {
    match date
    case None => Render(NotANumber)
    case Some(t) => Render(Classify(DiffInDays(now - t)))
  }

  /** The numbers in the labels stay in their ranges: 2 to 6 days (or negative for a future
      date), 1 to 4 weeks, 1 to 12 months, at least one year. Each label rounds down: the
      number times the unit never exceeds the elapsed days, and one unit more does. */
  lemma {:induction false} ClassifyBounds(d: int)
    ensures var r := Classify(d);
      && (r.DaysAgo? ==> r.days == d && (d < 0 || 2 <= r.days <= 6))
      && (r.WeeksAgo? ==> 1 <= r.weeks <= 4 && 7 * r.weeks <= d < 7 * (r.weeks + 1))
      && (r.MonthsAgo? ==> 1 <= r.months <= 12 && 30 * r.months <= d < 30 * (r.months + 1))
      && (r.YearsAgo? ==> 1 <= r.years && 365 * r.years <= d < 365 * (r.years + 1))
  {
  }

  /** An order on labels: first by kind, from "today" to "years ago", then by number. */
  function Rank(r: Relative): (int, int)
  {
    match r
    case Today => (0, 0)
    case Yesterday => (1, 0)
    case DaysAgo(n) => (2, n)
    case WeeksAgo(n) => (3, n)
    case MonthsAgo(n) => (4, n)
    case YearsAgo(n) => (5, n)
    case NotANumber => (6, 0)
  }

  predicate RankLe(a: (int, int), b: (int, int))
  {
    a.0 < b.0 || (a.0 == b.0 && a.1 <= b.1)
  }

  lemma MulMonotone(x: int, y: int, k: int)
    requires x <= y && 0 <= k
    ensures x * k <= y * k
  {
    assert y * k - x * k == (y - x) * k;
  }

  lemma DivMonotone(a: int, b: int, k: int)
    requires 0 <= a <= b && 0 < k
    ensures a / k <= b / k
  {
    var q1, q2 := a / k, b / k;
    assert q1 * k <= a && b < q2 * k + k;
    if q2 + 1 <= q1 {
      MulMonotone(q2 + 1, q1, k);
    }
  }

  /** As a past date recedes, its label never moves back towards "today". */
  lemma ClassifyMonotone(d1: int, d2: int)
    requires 0 <= d1 <= d2
    ensures RankLe(Rank(Classify(d1)), Rank(Classify(d2)))
  {
    if 7 <= d1 < 30 && d2 < 30 {
      DivMonotone(d1, d2, 7);
    } else if 30 <= d1 < 365 && d2 < 365 {
      DivMonotone(d1, d2, 30);
    } else if 365 <= d1 {
      DivMonotone(d1, d2, 365);
    }
  }

  /** The character before the final 前, or the first character of 今日 and 昨日, tells the kind. */
  function KindMark(r: Relative): char
  {
    match r
    case Today => '今'
    case Yesterday => '昨'
    case DaysAgo(_) => '日'
    case WeeksAgo(_) => '間'
    case MonthsAgo(_) => '月'
    case YearsAgo(_) | NotANumber => '年'
  }

  lemma RenderMark(r: Relative)
    ensures |Render(r)| >= 2 && Render(r)[|Render(r)| - 2] == KindMark(r)
  {
  }

  lemma StripSuffix(a: string, b: string, suffix: string)
    requires a + suffix == b + suffix
    ensures a == b
  {
    assert a == (a + suffix)[..|a|];
    assert |a| == |b|;
    assert b == (b + suffix)[..|b|];
  }

  /** Different labels render as different texts, so the text determines the label. */
  lemma RenderInjective(a: Relative, b: Relative)
    requires Render(a) == Render(b)
    ensures a == b
  {
    RenderMark(a);
    RenderMark(b);
    assert KindMark(a) == KindMark(b);
    match a
    case DaysAgo(n) =>
      var m := b.days;
      StripSuffix(ShowInt(n), ShowInt(m), "日前");
      ShowIntInjective(n, m);
    case WeeksAgo(n) =>
      var m := b.weeks;
      StripSuffix(ShowInt(n), ShowInt(m), "週間前");
      ShowIntInjective(n, m);
    case MonthsAgo(n) =>
      var m := b.months;
      StripSuffix(ShowInt(n), ShowInt(m), "ヶ月前");
      ShowIntInjective(n, m);
    case YearsAgo(n) =>
      if b.YearsAgo? {
        var m := b.years;
        StripSuffix(ShowInt(n), ShowInt(m), "年前");
        ShowIntInjective(n, m);
      } else {
        StripSuffix(ShowInt(n), "NaN", "年前");
      }
    case NotANumber =>
      if b.YearsAgo? {
        StripSuffix(ShowInt(b.years), "NaN", "年前");
      }
    case _ =>
  }

  /** The relative time for a parsable date, stated against the elapsed milliseconds. */
  lemma FormatRelativeTimeSpec(t: int, now: int)
    ensures var s := FormatRelativeTime(Some(t), now);
      && (s == "今日" <==> 0 <= now - t < MsPerDay)
      && (s == "昨日" <==> MsPerDay <= now - t < 2 * MsPerDay)
      && s != "0年前"
  {
    var d := DiffInDays(now - t);
    FirstTwoDays(now - t);
    RendersAs(Classify(d), Today);
    RendersAs(Classify(d), Yesterday);
    if Render(Classify(d)) == "0年前" {
      RenderInjective(Classify(d), YearsAgo(0));
      ClassifyBounds(d);
    }
  }

  /** The difference falls on day 0 or day 1 exactly when it lies in the first or second day. */
  lemma FirstTwoDays(diffInMs: int)
    ensures DiffInDays(diffInMs) == 0 <==> 0 <= diffInMs < MsPerDay
    ensures DiffInDays(diffInMs) == 1 <==> MsPerDay <= diffInMs < 2 * MsPerDay
  {
  }

  /** Two classifications render alike exactly when they are the same. */
  lemma RendersAs(r: Relative, expected: Relative)
    ensures Render(r) == Render(expected) <==> r == expected
  {
    if Render(r) == Render(expected) {
      RenderInjective(r, expected);
    }
  }

  /** The calendar day of a valid date in the local time zone. */
  datatype CalendarDay = CalendarDay(year: nat, month: nat, day: nat)

  /** `formatDate`: `toLocaleDateString('ja-JP')` with numeric parts, as in "2025/7/12"; an
      unparsable string gives the invalid date. */
  function FormatDate(date: Option<CalendarDay>): string
  {
    match date
    case None => "Invalid Date"
    case Some(c) => ShowNat(c.year) + "/" + ShowNat(c.month) + "/" + ShowNat(c.day)
  }

  lemma NoSlashInDigits(n: nat)
    ensures '/' !in ShowNat(n)
  {
  }

  /** The formatted day reads back: its three `/`-pieces parse to the year, month and day. */
  lemma FormatDateReadsBack(c: CalendarDay)
    ensures var pieces := Split(FormatDate(Some(c)), '/');
      && |pieces| == 3
      && ParseInt(pieces[0]) == Some(c.year as int)
      && ParseInt(pieces[1]) == Some(c.month as int)
      && ParseInt(pieces[2]) == Some(c.day as int)
  {
    var y, m, d := ShowNat(c.year), ShowNat(c.month), ShowNat(c.day);
    NoSlashInDigits(c.year);
    NoSlashInDigits(c.month);
    NoSlashInDigits(c.day);
    SlashJoined(y, m, d);
    var pieces := Split(FormatDate(Some(c)), '/');
    assert pieces == [y, m, d];
    NatReadsBack(c.year);
    NatReadsBack(c.month);
    NatReadsBack(c.day);
    assert pieces[0] == y && pieces[1] == m && pieces[2] == d;
  }

  /** Three `/`-free texts joined by `/` split back into themselves. */
  lemma SlashJoined(y: string, m: string, d: string)
    requires '/' !in y && '/' !in m && '/' !in d
    ensures Split(y + "/" + m + "/" + d, '/') == [y, m, d]
  {
    assert y + "/" + m + "/" + d == y + ['/'] + (m + ['/'] + d);
    SplitAfterWord(y, '/', m + ['/'] + d);
    SplitAfterWord(m, '/', d);
    SplitWithoutSeparator(d, '/');
  }

  lemma NatReadsBack(n: nat)
    ensures ParseInt(ShowNat(n)) == Some(n as int)
  {
    assert ShowInt(n) == ShowNat(n);
    ParseIntShowInt(n);
  }

}
