/**
 * The class-period clock: `ACADEMIC_TIME`, the margins and
 * `getAcademicTime`, plus the output file name built from them at start-up.
 */
module AcademicTime {
  import opened Base
  import opened Text
  import opened Timestamp

  /** `ACADEMIC_TIME`: (hour, minute) starts; entry 0 is the "no period" slot at 00:00. */
  const Periods: seq<(int, int)> := [(0, 0), (9, 0), (10, 40), (13, 10), (14, 50), (16, 30), (18, 10)]

  const EarlyMargin: int := 10
  const LateMargin: int := 90

  function Start(i: nat): int
    requires i < |Periods|
  {
    Periods[i].0 * 60 + Periods[i].1
  }

  /** `now.hour * 60 + now.min`. */
  function MinuteOfDay(hour: int, minute: int): int
  {
    hour * 60 + minute
  }

  /** The minute of the day lies in period `i`'s window `[start - early, start + late]`. */
  predicate InWindow(i: nat, nowTime: int, early: int, late: int)
    requires i < |Periods|
  {
    Start(i) - early <= nowTime && nowTime <= Start(i) + late
  }

  /** The `each_with_index` scan from entry `i` on: the first entry whose window holds the time, else 0. */
  function ScanFrom(nowTime: int, early: int, late: int, i: nat): (r: nat)
    requires i <= |Periods|
    ensures r < |Periods|
    ensures (exists j :: i <= j < |Periods| && InWindow(j, nowTime, early, late)) ==>
      i <= r && InWindow(r, nowTime, early, late)
      && forall j :: i <= j < r ==> !InWindow(j, nowTime, early, late)
    ensures (forall j :: i <= j < |Periods| ==> !InWindow(j, nowTime, early, late)) ==> r == 0
    decreases |Periods| - i
  {
    if i == |Periods| then 0
    else if InWindow(i, nowTime, early, late) then i
    else ScanFrom(nowTime, early, late, i + 1)
  }

  /**
   * `getAcademicTime(now, early_margin, late_margin)` on `now.hour` and
   * `now.min`: the smallest index whose window holds the time, or 0 when
   * none does.
   */
  function GetAcademicTime(hour: int, minute: int, early: int, late: int): (r: nat)
    ensures r < |Periods|
    ensures (exists j :: 0 <= j < |Periods| && InWindow(j, MinuteOfDay(hour, minute), early, late)) ==>
      InWindow(r, MinuteOfDay(hour, minute), early, late)
      && forall j :: 0 <= j < r ==> !InWindow(j, MinuteOfDay(hour, minute), early, late)
    ensures (forall j :: 0 <= j < |Periods| ==> !InWindow(j, MinuteOfDay(hour, minute), early, late)) ==> r == 0
  {
    ScanFrom(MinuteOfDay(hour, minute), early, late, 0)
  }

  /**
   * `getAcademicTime(now)` with the default margins: the first period whose
   * window, 10 minutes before its start to 90 after, holds the time; 0 when
   * there is none.
   */
  function PeriodOf(now: Time): (r: nat)
    ensures r < |Periods|
    ensures r > 0 ==> InWindow(r, MinuteOfDay(now.hour, now.min), EarlyMargin, LateMargin)
    ensures forall j :: 0 < j < |Periods| && InWindow(j, MinuteOfDay(now.hour, now.min), EarlyMargin, LateMargin) ==>
      0 < r <= j
  {
    GetAcademicTime(now.hour, now.min, EarlyMargin, LateMargin)
  }

  /**
   * `now.strftime("%Y-%m-%d-%a-") + getAcademicTime(now).to_s + ".csv"`: a
   * file in the working directory, named by the date, whose period can be
   * read back from the digits between the date and `.csv`.
   */
  function SessionFileName(now: Time): (r: string)
    requires now.Valid()
    ensures Free(r, {'/'})
    ensures |DateStem(now)| + 4 < |r| && r[..|DateStem(now)|] == DateStem(now) && r[|r| - 4..] == ".csv"
    ensures ParseDecimal(r[|DateStem(now)|..|r| - 4]) == Some(PeriodOf(now))
  {
    var stem, digits := DateStem(now), Decimal(PeriodOf(now));
    var r := stem + digits + ".csv";
    DecimalRoundTrip(PeriodOf(now));
    assert r[|stem|..|r| - 4] == digits;
    r
  }

  /** Where windows overlap the earlier entry wins: 10:30 is in periods 1 and 2 and gives 1. */
  lemma OverlapEarlierWins()
    ensures InWindow(1, MinuteOfDay(10, 30), EarlyMargin, LateMargin) && InWindow(2, MinuteOfDay(10, 30), EarlyMargin, LateMargin)
    ensures GetAcademicTime(10, 30, EarlyMargin, LateMargin) == 1
  {
  }

  /** From 01:31 to 08:49 no period's window applies. */
  lemma NightIsOutside(hour: int, minute: int)
    requires MinuteOfDay(1, 31) <= MinuteOfDay(hour, minute) <= MinuteOfDay(8, 49)
    ensures GetAcademicTime(hour, minute, EarlyMargin, LateMargin) == 0
  {
    var t := MinuteOfDay(hour, minute);
    assert forall j :: 0 <= j < |Periods| ==> !InWindow(j, t, EarlyMargin, LateMargin);
  }

  /** Period 1 (09:00) answers from 08:50 through 10:30. */
  lemma FirstPeriodWindow(hour: int, minute: int)
    requires MinuteOfDay(8, 50) <= MinuteOfDay(hour, minute) <= MinuteOfDay(10, 30)
    ensures GetAcademicTime(hour, minute, EarlyMargin, LateMargin) == 1
  {
    var t := MinuteOfDay(hour, minute);
    assert InWindow(1, t, EarlyMargin, LateMargin) && !InWindow(0, t, EarlyMargin, LateMargin);
  }

  /** On one date, the file name tells the period: two names agree only when the periods do. */
  lemma FileNameFixesPeriod(t1: Time, t2: Time)
    requires t1.Valid() && t2.Valid() && DateStem(t1) == DateStem(t2)
    ensures SessionFileName(t1) == SessionFileName(t2) <==> PeriodOf(t1) == PeriodOf(t2)
  {
    var p := DateStem(t1);
    var d1, d2 := Decimal(PeriodOf(t1)), Decimal(PeriodOf(t2));
    if SessionFileName(t1) == SessionFileName(t2) {
      var n1, n2 := SessionFileName(t1), SessionFileName(t2);
      assert |d1| == |d2|;
      assert d1 == n1[|p|..|p| + |d1|] == n2[|p|..|p| + |d2|] == d2;
      DecimalRoundTrip(PeriodOf(t1));
      DecimalRoundTrip(PeriodOf(t2));
    }
  }
}
