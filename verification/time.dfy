/**
 * Human-readable rendering of a count of simulated seconds.
 *
 * `FormatTime` names the largest non-zero calendar unit and, when it is
 * non-zero, the next smaller one ("2 days and 1 hour"); `FormatTimeOrd`
 * names a year and a day, or a day and an hour, as ordinals
 * ("1st year and 3rd day"). A year is 365 days of 24 hours.
 */
module Time {
  import opened Arith
  import opened Decimal

  const MINUTE: nat := 60
  const HOUR: nat := MINUTE * 60
  const DAY: nat := HOUR * 24
  const YEAR: nat := DAY * 365

  /** A count of seconds split into calendar units. */
  datatype Units = Units(years: nat, days: nat, hours: nat, minutes: nat, seconds: nat)

  /** Every unit below the year is smaller than the number that makes up the next unit. */
  predicate Bounded(u: Units) {
    u.days < 365 && u.hours < 24 && u.minutes < 60 && u.seconds < 60
  }

  /** The number of seconds the units stand for. */
  function Compose(u: Units): nat {
    u.years * YEAR + u.days * DAY + u.hours * HOUR + u.minutes * MINUTE + u.seconds
  }

  /**
   * The unit split both formatters start from. Each unit is the count of
   * whole units of its size in `t`, reduced modulo the next larger unit, and
   * the split adds back up to `t`.
   */
  function Decompose(t: nat): (u: Units)
    ensures u.years == t / YEAR
    ensures u.days == t / DAY % 365
    ensures u.hours == t / HOUR % 24
    ensures u.minutes == t / MINUTE % 60
    ensures u.seconds == t % 60
    ensures Bounded(u) && Compose(u) == t
  {
    ModMulDiv(t, DAY, 365);
    ModMulDiv(t, HOUR, 24);
    ModMulDiv(t, MINUTE, 60);
    Units(t / YEAR, t % YEAR / DAY, t % DAY / HOUR, t % HOUR / MINUTE, t % MINUTE)
  }

  /** A bounded split is the split of the seconds it stands for: `Decompose` inverts `Compose`. */
  lemma DecomposeCompose(u: Units)
    requires Bounded(u)
    ensures Decompose(Compose(u)) == u
  {
    var t := Compose(u);
    var inDay := u.hours * HOUR + u.minutes * MINUTE + u.seconds;
    var inHour := u.minutes * MINUTE + u.seconds;
    var dayCount := u.years * 365 + u.days;
    var hourCount := dayCount * 24 + u.hours;
    var minuteCount := hourCount * 60 + u.minutes;
    assert t == u.years * YEAR + (u.days * DAY + inDay);
    DivModUnique(t, YEAR, u.years, u.days * DAY + inDay);
    assert t == dayCount * DAY + inDay;
    DivModUnique(t, DAY, dayCount, inDay);
    DivModUnique(dayCount, 365, u.years, u.days);
    assert t == hourCount * HOUR + inHour;
    DivModUnique(t, HOUR, hourCount, inHour);
    DivModUnique(hourCount, 24, dayCount, u.hours);
    assert t == minuteCount * MINUTE + u.seconds;
    DivModUnique(t, MINUTE, minuteCount, u.seconds);
    DivModUnique(minuteCount, 60, hourCount, u.minutes);
  }

  /** The plural ending of a unit name: none for exactly one, "s" for every other count, zero included. */
  function PluralSuffix(n: nat): (s: string)
    ensures s == "" <==> n == 1
    ensures s == "s" <==> n != 1
  {
    if n == 1 then "" else "s"
  }

  /**
   * "{n} {unit}{plural}", as in "1 day" or "0 seconds": the decimal count, a
   * space, the unit name, then "s" unless the count is exactly one.
   */
  function Quantity(n: nat, unit: string): (s: string)
    ensures NatToString(n) + " " + unit <= s
    ensures |s| == |NatToString(n)| + 1 + |unit| + (if n == 1 then 0 else 1)
    ensures n != 1 ==> s[|s| - 1] == 's'
  {
    NatToString(n) + " " + unit + PluralSuffix(n)
  }

  /**
   * The English ordinal ending of `n`: "th" for every number whose last two
   * digits are 11, 12 or 13, otherwise chosen by the last digit alone.
   */
  function OrdIndicator(n: nat): (s: string)
    ensures s in {"st", "nd", "rd", "th"}
    ensures 11 <= n % 100 <= 13 ==> s == "th"
    ensures !(11 <= n % 100 <= 13) ==>
      (s == "st" <==> n % 10 == 1) && (s == "nd" <==> n % 10 == 2) && (s == "rd" <==> n % 10 == 3)
  {
    if 11 <= n % 100 <= 13 then "th"
    else match n % 10
      case 1 => "st"
      case 2 => "nd"
      case 3 => "rd"
      case _ => "th"
  }

  /**
   * The ordinal rule as a grammar book states it, on the decimal digits:
   * numbers whose tens digit is 1 ("teens") take "th"; otherwise a last
   * digit of 1, 2 or 3 takes "st", "nd" or "rd", and any other takes "th".
   */
  function EnglishOrdinalSuffix(n: nat): string {
    var tens, units := n / 10 % 10, n % 10;
    if tens == 1 then "th"
    else if units == 1 then "st"
    else if units == 2 then "nd"
    else if units == 3 then "rd"
    else "th"
  }

  /** The remainder-by-100 test agrees with the tens-digit rule on every number. */
  lemma OrdIndicatorIsEnglishRule(n: nat)
    ensures OrdIndicator(n) == EnglishOrdinalSuffix(n)
  {
  }

  /** "{n}{ord}", as in "1st" or "12th": the decimal digits of `n`, then its two-letter ending. */
  function Ordinal(n: nat): (s: string)
    ensures NatToString(n) <= s && |s| == |NatToString(n)| + 2
  {
    NatToString(n) + OrdIndicator(n)
  }

  /** An ordinal is the number's digits followed by a two-letter ending, and reads back as the number. */
  lemma OrdinalReadsBack(n: nat)
    ensures |Ordinal(n)| >= 3
    ensures Ordinal(n)[|Ordinal(n)| - 2..] == OrdIndicator(n)
    ensures AllDigits(Ordinal(n)[..|Ordinal(n)| - 2])
    ensures ParseDecimal(Ordinal(n)[..|Ordinal(n)| - 2]) == n
  {
    var o := Ordinal(n);
    assert o[..|o| - 2] == NatToString(n);
    assert o[|o| - 2..] == OrdIndicator(n);
    ParseNatToString(n);
  }

  /**
   * Ordinal rendering of `t`: the year and the day of the year once at
   * least a year has passed, the day and the hour of the day before that.
   */
  function FormatTimeOrd(t: nat): (s: string)
    ensures t >= YEAR ==> s == Ordinal(t / YEAR) + " year and " + Ordinal(t / DAY % 365) + " day"
    ensures t < YEAR ==> s == Ordinal(t / DAY) + " day and " + Ordinal(t / HOUR % 24) + " hour"
  {
    var u := Decompose(t);
    BelowYear(t);
    if u.years > 0 then
      Ordinal(u.years) + " year and " + Ordinal(u.days) + " day"
    else
      Ordinal(u.days) + " day and " + Ordinal(u.hours) + " hour"
  }

  /** Before the first year is complete, the day of the year is the count of whole days. */
  lemma BelowYear(t: nat)
    ensures t / YEAR > 0 <==> t >= YEAR
    ensures t < YEAR ==> t / DAY % 365 == t / DAY
  {
  }

  lemma PrefixOfPieces(a: string, b: string, c: string, d: string)
    ensures a <= a + b + c + d && |a + b + c + d| >= |a|
  {
    assert (a + b + c + d)[..|a|] == a;
  }

  /** The output of `FormatTimeOrd` opens with the ordinal of its leading count. */
  lemma FormatTimeOrdLeads(t: nat)
    ensures var lead := if t >= YEAR then t / YEAR else t / DAY;
      Ordinal(lead) <= FormatTimeOrd(t) && |FormatTimeOrd(t)| > 0
  {
    var lead := if t >= YEAR then t / YEAR else t / DAY;
    var second := if t >= YEAR then t / DAY % 365 else t / HOUR % 24;
    var a := Ordinal(lead);
    assert |a| > 0;
    if t >= YEAR {
      PrefixOfPieces(a, " year and ", Ordinal(second), " day");
    } else {
      PrefixOfPieces(a, " day and ", Ordinal(second), " hour");
    }
  }

  /**
   * Plural-aware rendering of `t`: the largest non-zero unit and, only when
   * it is non-zero, the next smaller unit; zero seconds when all are zero.
   */
  function FormatTime(t: nat): (s: string)
    ensures s == FormatSpec(Decompose(t))
  {
    FormatUnitsMatchesSpec(Decompose(t));
    FormatUnits(Decompose(t))
  }

  /**
   * The choice of units to show and their rendering, once `t` is split. The
   * text always opens with a decimal count.
   */
  function FormatUnits(u: Units): (s: string)
    ensures |s| > 0 && IsDigit(s[0])
  {
    var years, days, hours, minutes, seconds := u.years, u.days, u.hours, u.minutes, u.seconds;
    if years > 0 && days > 0 then
      Quantity(years, "year") + " and " + Quantity(days, "day")
    else if years > 0 then
      Quantity(years, "year")
    else if days > 0 && hours > 0 then
      Quantity(days, "day") + " and " + Quantity(hours, "hour")
    else if days > 0 then
      Quantity(days, "day")
    else if hours > 0 && minutes > 0 then
      Quantity(hours, "hour") + " and " + Quantity(minutes, "minute")
    else if hours > 0 then
      Quantity(hours, "hour")
    else if minutes > 0 && seconds > 0 then
      Quantity(minutes, "minute") + " and " + Quantity(seconds, "second")
    else if minutes > 0 then
      Quantity(minutes, "minute")
    else
      Quantity(seconds, "second")
  }

  const UnitNames: seq<string> := ["year", "day", "hour", "minute", "second"]

  /** The unit counts from largest to smallest, in the order of `UnitNames`. */
  function Counts(u: Units): (c: seq<nat>)
    ensures |c| == |UnitNames|
  {
    [u.years, u.days, u.hours, u.minutes, u.seconds]
  }

  /** The first position from `i` on whose count is non-zero, or the last position when none is. */
  function LeadingUnit(c: seq<nat>, i: nat): (k: nat)
    requires i < |c|
    ensures i <= k < |c|
    ensures forall j :: i <= j < k ==> c[j] == 0
    ensures k < |c| - 1 ==> c[k] > 0
    decreases |c| - i
  {
    if i == |c| - 1 || c[i] > 0 then i else LeadingUnit(c, i + 1)
  }

  /**
   * Reference statement of `FormatTime`: the leading unit, then " and " and
   * the next smaller unit exactly when that unit exists and is non-zero.
   */
  function FormatSpec(u: Units): string {
    var c := Counts(u);
    var k := LeadingUnit(c, 0);
    Quantity(c[k], UnitNames[k])
      + (if k + 1 < |c| && c[k + 1] > 0 then " and " + Quantity(c[k + 1], UnitNames[k + 1]) else "")
  }

  /** The if-chain of `FormatTime` implements the reference statement for every split. */
  lemma FormatUnitsMatchesSpec(u: Units)
    ensures FormatUnits(u) == FormatSpec(u)
  {
    var c := Counts(u);
    var k := LeadingUnit(c, 0);
    if c[0] > 0 {
      assert k == 0;
    } else if c[1] > 0 {
      assert k == 1;
    } else if c[2] > 0 {
      assert k == 2;
    } else if c[3] > 0 {
      assert k == 3;
    } else {
      assert k == 4;
    }
  }

  /**
   * The output of `FormatTime` is never empty and opens with the decimal
   * count of the largest non-zero unit, a space and that unit's name.
   */
  lemma FormatTimeLeads(t: nat)
    ensures var c := Counts(Decompose(t));
      var k := LeadingUnit(c, 0);
      |FormatTime(t)| > 0 && NatToString(c[k]) + " " + UnitNames[k] <= FormatTime(t)
  {
  }

  /** Zero renders as "0 seconds". */
  lemma FormatTimeZero()
    ensures FormatTime(0) == "0 seconds"
  {
  }

  /**
   * Only two units are ever shown. When years lead, the hours, minutes and
   * seconds make no difference to the text.
   */
  lemma YearsLeadDropHours(t: nat)
    requires Decompose(t).years > 0
    ensures FormatTime(t) == FormatTime(t - t % DAY)
  {
    var u := Decompose(t);
    var v := Units(u.years, u.days, 0, 0, 0);
    var q := u.years * 365 + u.days;
    assert Compose(v) == q * DAY;
    DivModUnique(t, DAY, q, u.hours * HOUR + u.minutes * MINUTE + u.seconds);
    DecomposeCompose(v);
    assert Decompose(t - t % DAY) == v;
  }

  /** When days lead, the minutes and seconds make no difference to the text. */
  lemma DaysLeadDropMinutes(t: nat)
    requires Decompose(t).years == 0 && Decompose(t).days > 0
    ensures FormatTime(t) == FormatTime(t - t % HOUR)
  {
    var u := Decompose(t);
    var v := Units(0, u.days, u.hours, 0, 0);
    var q := u.days * 24 + u.hours;
    assert Compose(v) == q * HOUR;
    DivModUnique(t, HOUR, q, u.minutes * MINUTE + u.seconds);
    DecomposeCompose(v);
    assert Decompose(t - t % HOUR) == v;
  }

  /** When hours lead, the seconds make no difference to the text. */
  lemma HoursLeadDropSeconds(t: nat)
    requires Decompose(t).years == 0 && Decompose(t).days == 0 && Decompose(t).hours > 0
    ensures FormatTime(t) == FormatTime(t - t % MINUTE)
  {
    var u := Decompose(t);
    var v := Units(0, 0, u.hours, u.minutes, 0);
    var q := u.hours * 60 + u.minutes;
    assert Compose(v) == q * MINUTE;
    DivModUnique(t, MINUTE, q, u.seconds);
    DecomposeCompose(v);
    assert Decompose(t - t % MINUTE) == v;
  }
}
