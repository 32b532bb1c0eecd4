/** utils/formatAge.ts: a minute count rendered as a "d / h / min" label. */
module AgeLabel {
  import opened Wrappers
  import opened Strings
  import opened TicketSorting

  /** JavaScript's `%`: the remainder truncated toward zero, signed like the dividend. */
  function JsRem(a: int, b: int): (r: int)
    requires b > 0
    ensures a >= 0 ==> r == a % b
    ensures a < 0 ==> -b < r <= 0
  {
    if a >= 0 then a % b else -((-a) % b)
  }

  /** The three quantities the formatter derives. */
  datatype AgeParts = AgeParts(days: int, hours: int, mins: int)

  /**
   * `Math.floor(m / 1440)`, `Math.floor((m % 1440) / 60)` and `m % 60`. For a
   * non-negative count they are whole days, the hours of the last day and the
   * minutes of the last hour.
   */
  function SplitAge(minutes: int): (p: AgeParts)
    ensures minutes >= 0 ==> minutes == p.days * 1440 + p.hours * 60 + p.mins
    ensures minutes >= 0 ==> p.days >= 0 && 0 <= p.hours < 24 && 0 <= p.mins < 60
    ensures minutes < 0 ==> p.days < 0 && p.hours <= 0 && -60 < p.mins <= 0
  {
    var p := AgeParts(minutes / 1440, JsRem(minutes, 1440) / 60, JsRem(minutes, 60));
    if minutes >= 0 then
      DecomposeMinutes(minutes);
      p
    else
      var r := JsRem(minutes, 1440);
      assert r <= 0 ==> r / 60 <= 0;
      p
  }

  lemma DecomposeMinutes(n: nat)
    ensures n == n / 1440 * 1440 + n % 1440 / 60 * 60 + n % 60
    ensures 0 <= n % 1440 / 60 < 24
  {
  }

  /** `formatAge`: "<d> d <h> hrs" from one day on, "<h> h <m> min" from one hour on, otherwise "<m> min". */
  function FormatAge(age: int): (r: string)
    ensures 0 <= age < 60 ==> r == NatToString(age) + " min"
    ensures 60 <= age < 1440 ==> r == NatToString(age / 60) + " h " + NatToString(age % 60) + " min"
    ensures age >= 1440 ==> r == NatToString(age / 1440) + " d " + NatToString(age % 1440 / 60) + " hrs"
    ensures age < 0 ==> r == IntToString(JsRem(age, 60)) + " min"
  {
    var p := SplitAge(age);
    if p.days > 0 then IntToString(p.days) + " d " + IntToString(p.hours) + " hrs"
    else if p.hours > 0 then IntToString(p.hours) + " h " + IntToString(p.mins) + " min"
    else IntToString(p.mins) + " min"
  }

  lemma RoundTripMinutes(n: nat)
    requires n < 60
    ensures AgeToMinutes(Some(FormatAge(n))) == n
  {
    var s := FormatAge(n);
    assert s == NatToString(n) + [' ', 'm'] + "in";
    NoDigitsNoMatch("in", 'd');
    NoDigitsNoMatch("in", 'h');
    NumberThenUnit(n, 'm', "in", 'd');
    NumberThenUnit(n, 'm', "in", 'h');
    NumberThenUnit(n, 'm', "in", 'm');
  }

  lemma HoursLabelLayout(a: string, b: string)
    ensures a + " h " + b + " min" == a + [' ', 'h'] + (" " + (b + [' ', 'm'] + "in"))
  {
  }

  lemma DaysLabelLayout(a: string, b: string)
    ensures a + " d " + b + " hrs" == a + [' ', 'd'] + (" " + (b + [' ', 'h'] + "rs"))
  {
  }

  /** The label "<h> h <m> min". */
  function HoursLabel(h: nat, m: nat): string {
    NatToString(h) + " h " + NatToString(m) + " min"
  }

  lemma HoursLabelDays(h: nat, m: nat)
    ensures FirstUnitMatch(HoursLabel(h, m), 'd') == None
  {
    var minutesPart := NatToString(m) + [' ', 'm'] + "in";
    HoursLabelLayout(NatToString(h), NatToString(m));
    NumberThenUnit(h, 'h', " " + minutesPart, 'd');
    BlankThenRest(minutesPart, 'd');
    NumberThenUnit(m, 'm', "in", 'd');
    NoDigitsNoMatch("in", 'd');
  }

  lemma HoursLabelHours(h: nat, m: nat)
    ensures FirstUnitMatch(HoursLabel(h, m), 'h') == Some(h)
  {
    var minutesPart := NatToString(m) + [' ', 'm'] + "in";
    HoursLabelLayout(NatToString(h), NatToString(m));
    NumberThenUnit(h, 'h', " " + minutesPart, 'h');
  }

  lemma HoursLabelMinutes(h: nat, m: nat)
    ensures FirstUnitMatch(HoursLabel(h, m), 'm') == Some(m)
  {
    var minutesPart := NatToString(m) + [' ', 'm'] + "in";
    HoursLabelLayout(NatToString(h), NatToString(m));
    NumberThenUnit(h, 'h', " " + minutesPart, 'm');
    BlankThenRest(minutesPart, 'm');
    NumberThenUnit(m, 'm', "in", 'm');
  }

  /** An "<h> h <m> min" label reads back as `60 * h + m` minutes. */
  lemma HoursLabelValue(h: nat, m: nat)
    ensures AgeToMinutes(Some(HoursLabel(h, m))) == 60 * h + m
  {
    HoursLabelDays(h, m);
    HoursLabelHours(h, m);
    HoursLabelMinutes(h, m);
  }

  lemma RoundTripHours(n: nat)
    requires 60 <= n < 1440
    ensures AgeToMinutes(Some(FormatAge(n))) == n
  {
    HoursLabelValue(n / 60, n % 60);
  }

  /** The label "<d> d <h> hrs". */
  function DaysLabel(d: nat, h: nat): string {
    NatToString(d) + " d " + NatToString(h) + " hrs"
  }

  lemma DaysLabelDays(d: nat, h: nat)
    ensures FirstUnitMatch(DaysLabel(d, h), 'd') == Some(d)
  {
    var hoursPart := NatToString(h) + [' ', 'h'] + "rs";
    DaysLabelLayout(NatToString(d), NatToString(h));
    NumberThenUnit(d, 'd', " " + hoursPart, 'd');
  }

  lemma DaysLabelHours(d: nat, h: nat)
    ensures FirstUnitMatch(DaysLabel(d, h), 'h') == Some(h)
  {
    var hoursPart := NatToString(h) + [' ', 'h'] + "rs";
    DaysLabelLayout(NatToString(d), NatToString(h));
    NumberThenUnit(d, 'd', " " + hoursPart, 'h');
    BlankThenRest(hoursPart, 'h');
    NumberThenUnit(h, 'h', "rs", 'h');
  }

  lemma DaysLabelMinutes(d: nat, h: nat)
    ensures FirstUnitMatch(DaysLabel(d, h), 'm') == None
  {
    var hoursPart := NatToString(h) + [' ', 'h'] + "rs";
    DaysLabelLayout(NatToString(d), NatToString(h));
    NumberThenUnit(d, 'd', " " + hoursPart, 'm');
    BlankThenRest(hoursPart, 'm');
    NumberThenUnit(h, 'h', "rs", 'm');
    NoDigitsNoMatch("rs", 'm');
  }

  /** A "<d> d <h> hrs" label reads back as `1440 * d + 60 * h` minutes. */
  lemma DaysLabelValue(d: nat, h: nat)
    ensures AgeToMinutes(Some(DaysLabel(d, h))) == 1440 * d + 60 * h
  {
    DaysLabelDays(d, h);
    DaysLabelHours(d, h);
    DaysLabelMinutes(d, h);
  }

  lemma RoundTripDays(n: nat)
    requires n >= 1440
    ensures AgeToMinutes(Some(FormatAge(n))) == n - n % 60
  {
    DaysLabelValue(n / 1440, n % 1440 / 60);
    DecomposeMinutes(n);
  }

  /**
   * Reading a rendered label back gives the count for anything under a day,
   * and the count rounded down to whole hours from a day on (the minutes are dropped).
   */
  lemma ParseFormatRoundTrip(n: nat)
    ensures AgeToMinutes(Some(FormatAge(n))) == if n < 1440 then n else n - n % 60
  {
    if n < 60 {
      RoundTripMinutes(n);
    } else if n < 1440 {
      RoundTripHours(n);
    } else {
      RoundTripDays(n);
    }
  }
}
