/**
 * The Ruby `Time` values the reader writes and reads back: the
 * `strftime("%Y-%m-%d-%a %H:%M:%S")` text stored in the attendance file,
 * and the `split(/[\s\-\:]/)` plus `Time.mktime` that turns it into a time
 * again.
 */
module Timestamp {
  import opened Base
  import opened Text

  /** A local wall-clock time; `nsec` is the sub-second part `Time.new` carries. */
  datatype Time = Time(year: nat, mon: nat, day: nat, hour: nat, min: nat, sec: nat, nsec: nat)
  {
    predicate Valid()
    {
      && 1 <= mon <= 12
      && 1 <= day <= DaysInMonth(year, mon)
      && hour < 24 && min < 60 && sec < 60
      && nsec < 1_000_000_000
    }
  }

  predicate IsLeap(year: nat)
  {
    year % 4 == 0 && (year % 100 != 0 || year % 400 == 0)
  }

  function DaysInMonth(year: nat, mon: nat): (n: nat)
    ensures 28 <= n <= 31
  {
    if mon == 2 then (if IsLeap(year) then 29 else 28)
    else if mon == 4 || mon == 6 || mon == 9 || mon == 11 then 30
    else 31
  }

  /** The time truncated to the whole second, which is all the stored text keeps. */
  function ToSecond(t: Time): (r: Time)
    ensures r.nsec == 0 && (t.Valid() ==> r.Valid())
    ensures r.(nsec := t.nsec) == t
  {
    t.(nsec := 0)
  }

  /** Day of the week, 0 = Sunday, in the proleptic Gregorian calendar. */
  function Weekday(year: nat, mon: nat, day: nat): (w: nat)
    requires 1 <= mon <= 12
    ensures w < 7
  {
    var offsets := [0, 3, 2, 5, 0, 3, 5, 1, 4, 6, 2, 4];
    var y: int := if mon < 3 then year - 1 else year;
    (y + y / 4 - y / 100 + y / 400 + offsets[mon - 1] + day) % 7
  }

  const DayNames: seq<string> := ["Sun", "Mon", "Tue", "Wed", "Thu", "Fri", "Sat"]

  /** `%a`: the abbreviated weekday name. */
  function DayName(t: Time): string
    requires 1 <= t.mon <= 12
  {
    DayNames[Weekday(t.year, t.mon, t.day)]
  }

  /** `[\s\-\:]`: the characters the stored time is split at. */
  const StampSeps: set<char> := {' ', '\t', '\n', 11 as char, 12 as char, '\r', '-', ':'}

  /**
   * `strftime("%Y-%m-%d-%a %H:%M:%S")`: the stored text holds no tab, comma
   * or line break, and starts with a digit of the year.
   */
  function Format(t: Time): (r: string)
    requires t.Valid()
    ensures Free(r, {'\t', '\r', '\n', ','})
    ensures |r| > 0 && IsDigit(r[0])
  {
    var bad := {'\t', '\r', '\n', ','};
    var y, mo, d, w := Padded(t.year, 4), Padded(t.mon, 2), Padded(t.day, 2), DayName(t);
    var h, mi, s := Padded(t.hour, 2), Padded(t.min, 2), Padded(t.sec, 2);
    DigitsFree(y); DigitsFree(mo); DigitsFree(d); DayNameFree(t);
    DigitsFree(h); DigitsFree(mi); DigitsFree(s);
    var g5 := Glue(mi, ':', s);
    GlueFree(mi, ':', s, bad);
    var g4 := Glue(h, ':', g5);
    GlueFree(h, ':', g5, bad);
    var g3 := Glue(w, ' ', g4);
    GlueFree(w, ' ', g4, bad);
    var g2 := Glue(d, '-', g3);
    GlueFree(d, '-', g3, bad);
    var g1 := Glue(mo, '-', g2);
    GlueFree(mo, '-', g2, bad);
    GlueFree(y, '-', g1, bad);
    Glue(y, '-', g1)
  }

  /**
   * `strftime("%Y-%m-%d-%a-")`: the date part of the output file name, a
   * name with no directory separator that ends in `-`.
   */
  function DateStem(t: Time): (r: string)
    requires t.Valid()
    ensures Free(r, {'/'})
    ensures |r| > 0 && r[|r| - 1] == '-'
  {
    Padded(t.year, 4) + "-" + Padded(t.mon, 2) + "-" + Padded(t.day, 2) + "-" + DayName(t) + "-"
  }

  /**
   * `Time.mktime(year, mon, day, hour, min, sec)` on numbers: out-of-range
   * fields raise (None); a day past the month's end rolls into the next month.
   */
  function MkTime(year: nat, mon: nat, day: nat, hour: nat, min: nat, sec: nat): (r: Option<Time>)
    ensures r.Some? <==> 1 <= mon <= 12 && 1 <= day <= 31 && hour < 24 && min < 60 && sec < 60
    ensures r.Some? ==> r.value.Valid() && r.value.nsec == 0
    ensures r.Some? ==> r.value.hour == hour && r.value.min == min && r.value.sec == sec
    ensures Time(year, mon, day, hour, min, sec, 0).Valid() ==> r == Some(Time(year, mon, day, hour, min, sec, 0))
  {
    if !(1 <= mon <= 12 && 1 <= day <= 31 && hour < 24 && min < 60 && sec < 60) then None
    else if day <= DaysInMonth(year, mon) then Some(Time(year, mon, day, hour, min, sec, 0))
    else if mon < 12 then Some(Time(year, mon + 1, day - DaysInMonth(year, mon), hour, min, sec, 0))
    else Some(Time(year + 1, 1, day - 31, hour, min, sec, 0))
  }

  /**
   * `ftime.split(/[\s\-\:]/)` into year, mon, day, wday, hour, min, sec and
   * `Time.mktime` of all but the weekday. None is the case where the source
   * raises.
   */
  function ParseStamp(ftime: string): (r: Option<Time>)
    ensures r.Some? ==> r.value.Valid() && r.value.nsec == 0
  {
    var tok := Split(ftime, StampSeps);
    if |tok| < 7 then None
    else
      match (ParseDecimal(tok[0]), ParseDecimal(tok[1]), ParseDecimal(tok[2]),
             ParseDecimal(tok[4]), ParseDecimal(tok[5]), ParseDecimal(tok[6]))
      case (Some(y), Some(mo), Some(d), Some(h), Some(mi), Some(s)) => MkTime(y, mo, d, h, mi, s)
      case _ => None
  }

  lemma DigitsFree(s: string)
    requires AllDigits(s)
    ensures Free(s, StampSeps) && Free(s, {'\t', '\r', '\n', ','})
  {
  }

  lemma DayNameFree(t: Time)
    requires 1 <= t.mon <= 12
    ensures Free(DayName(t), StampSeps) && Free(DayName(t), {'\t', '\r', '\n', ','})
  {
  }

  /** Reading back the stored text recovers the time to the second. */
  lemma StampRoundTrip(t: Time)
    requires t.Valid()
    ensures ParseStamp(Format(t)) == Some(ToSecond(t))
  {
    StampTokens(t);
    PaddedRoundTrip(t.year, 4);
    PaddedRoundTrip(t.mon, 2);
    PaddedRoundTrip(t.day, 2);
    PaddedRoundTrip(t.hour, 2);
    PaddedRoundTrip(t.min, 2);
    PaddedRoundTrip(t.sec, 2);
  }

  /** The stored text splits into the seven fields `strftime` wrote. */
  lemma StampTokens(t: Time)
    requires t.Valid()
    ensures Split(Format(t), StampSeps) ==
      [Padded(t.year, 4), Padded(t.mon, 2), Padded(t.day, 2), DayName(t), Padded(t.hour, 2), Padded(t.min, 2), Padded(t.sec, 2)]
  {
    var y, mo, d, w := Padded(t.year, 4), Padded(t.mon, 2), Padded(t.day, 2), DayName(t);
    var h, mi, s := Padded(t.hour, 2), Padded(t.min, 2), Padded(t.sec, 2);
    var clock := Glue(h, ':', Glue(mi, ':', s));
    assert Format(t) == Glue(y, '-', Glue(mo, '-', Glue(d, '-', Glue(w, ' ', clock))));
    DayNameFree(t);
    ClockFields(h, mi, s);
    DateFields(y, mo, d, w, clock);
    assert Fields(Format(t), StampSeps) == [y, mo, d, w, h, mi, s];
  }

  /** `%H:%M:%S` splits into its three numbers. */
  lemma ClockFields(h: string, mi: string, s: string)
    requires AllDigits(h) && AllDigits(mi) && AllDigits(s)
    ensures Fields(Glue(h, ':', Glue(mi, ':', s)), StampSeps) == [h, mi, s]
  {
    DigitsFree(h); DigitsFree(mi); DigitsFree(s);
    FieldsFree(s, StampSeps);
    FieldsGlue(mi, ':', s, StampSeps);
    FieldsGlue(h, ':', Glue(mi, ':', s), StampSeps);
  }

  /** `%Y-%m-%d-%a ` in front of the clock gives four fields ahead of the clock's. */
  lemma DateFields(y: string, mo: string, d: string, w: string, rest: string)
    requires AllDigits(y) && AllDigits(mo) && AllDigits(d) && Free(w, StampSeps)
    ensures Fields(Glue(y, '-', Glue(mo, '-', Glue(d, '-', Glue(w, ' ', rest)))), StampSeps) ==
      [y, mo, d, w] + Fields(rest, StampSeps)
  {
    DigitsFree(y); DigitsFree(mo); DigitsFree(d);
    var g3 := Glue(w, ' ', rest);
    var g2 := Glue(d, '-', g3);
    var g1 := Glue(mo, '-', g2);
    var f := Fields(rest, StampSeps);
    FieldsGlue(w, ' ', rest, StampSeps);
    FieldsGlue(d, '-', g3, StampSeps);
    FieldsGlue(mo, '-', g2, StampSeps);
    FieldsGlue(y, '-', g1, StampSeps);
    assert [y] + ([mo] + ([d] + ([w] + f))) == [y, mo, d, w] + f;
  }
}
