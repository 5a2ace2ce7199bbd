/** The formatter on the concrete inputs of its unit tests. */
module Examples {
  import opened Wrappers
  import opened Decimal
  import opened TimeFormatter

  /** Uniqueness of quotient and remainder. */
  lemma DivisionOf(x: nat, d: nat, q: nat, rest: nat)
    requires d >= 1 && x == q * d + rest && rest < d
    ensures x / d == q && x % d == rest
  {
    var q', rest' := x / d, x % d;
    assert q' * d + rest' == x;
    if q' < q {
      MultiplyMonotone(q' + 1, q, d);
    } else if q < q' {
      MultiplyMonotone(q + 1, q', d);
    }
  }

  lemma MultiplyMonotone(a: nat, b: nat, d: nat)
    requires a <= b
    ensures a * d <= b * d
  {
    assert b * d == a * d + (b - a) * d;
  }

  /** A step of the greedy decomposition where the unit does not fit: nothing is emitted. */
  lemma Skip(remaining: nat, i: nat, d: nat)
    requires i < |UNITS| && d == UNITS[i].Seconds()
    requires remaining / d == 0
    ensures DecomposeFrom(remaining, i) == DecomposeFrom(remaining, i + 1)
  {
  }

  /** A step of the greedy decomposition where the unit fits `q` times, leaving `rest`. */
  lemma Take(remaining: nat, i: nat, d: nat, q: nat, rest: nat)
    requires i < |UNITS| && d == UNITS[i].Seconds()
    requires remaining / d == q > 0 && remaining % d == rest
    ensures DecomposeFrom(remaining, i) == [Part(UNITS[i], q)] + DecomposeFrom(rest, i + 1)
  {
  }

  /** The formatter's result once the parts of a positive input are known. */
  lemma FormatDurationOf(n: Int32, parts: seq<Part>)
    requires n > 0 && Decompose(n) == parts
    ensures FormatDuration(n) == Success(JoinWithCommasAndAnd(Render(parts)))
  {
  }

  lemma JoinTwo(xs: seq<string>)
    requires |xs| == 2
    ensures JoinWithCommasAndAnd(xs) == xs[0] + " and " + xs[1]
  {
    assert xs[..1] == [xs[0]];
  }

  lemma JoinThree(xs: seq<string>)
    requires |xs| == 3
    ensures JoinWithCommasAndAnd(xs) == xs[0] + ", " + xs[1] + " and " + xs[2]
  {
    var init := xs[..2];
    assert init[1..] == [xs[1]];
    assert Join(init, ", ") == xs[0] + ", " + Join([xs[1]], ", ");
  }

  lemma JoinFour(xs: seq<string>)
    requires |xs| == 4
    ensures JoinWithCommasAndAnd(xs) == xs[0] + ", " + xs[1] + ", " + xs[2] + " and " + xs[3]
  {
    var init := xs[..3];
    assert init[1..] == xs[1..3];
    assert xs[1..3][1..] == [xs[2]];
    assert Join(init, ", ") == xs[0] + ", " + Join(xs[1..3], ", ");
    assert Join(xs[1..3], ", ") == xs[1] + ", " + Join([xs[2]], ", ");
  }

  lemma JoinFive(xs: seq<string>)
    requires |xs| == 5
    ensures JoinWithCommasAndAnd(xs) == xs[0] + ", " + xs[1] + ", " + xs[2] + ", " + xs[3] + " and " + xs[4]
  {
    var init := xs[..4];
    assert init[1..] == xs[1..4];
    assert xs[1..4][1..] == xs[2..4];
    assert xs[2..4][1..] == [xs[3]];
    assert Join(init, ", ") == xs[0] + ", " + Join(xs[1..4], ", ");
    assert Join(xs[1..4], ", ") == xs[1] + ", " + Join(xs[2..4], ", ");
    assert Join(xs[2..4], ", ") == xs[2] + ", " + Join([xs[3]], ", ");
  }

  lemma OneSecondParts()
    ensures Decompose(1) == [Part(Second, 1)]
  {
    DivisionOf(1, 31536000, 0, 1);
    Skip(1, 0, 31536000);
    DivisionOf(1, 86400, 0, 1);
    Skip(1, 1, 86400);
    DivisionOf(1, 3600, 0, 1);
    Skip(1, 2, 3600);
    DivisionOf(1, 60, 0, 1);
    Skip(1, 3, 60);
    DivisionOf(1, 1, 1, 0);
    Take(1, 4, 1, 1, 0);
  }

  lemma OneSecond()
    ensures FormatDuration(1) == Success("1 second")
  {
    OneSecondParts();
    FormatDurationOf(1, [Part(Second, 1)]);
    RenderAt([Part(Second, 1)]);
    FragmentOneSecond();
  }

  lemma OneMinuteAndTwoSecondsParts()
    ensures Decompose(62) == [Part(Minute, 1), Part(Second, 2)]
  {
    DivisionOf(62, 31536000, 0, 62);
    Skip(62, 0, 31536000);
    DivisionOf(62, 86400, 0, 62);
    Skip(62, 1, 86400);
    DivisionOf(62, 3600, 0, 62);
    Skip(62, 2, 3600);
    DivisionOf(62, 60, 1, 2);
    Take(62, 3, 60, 1, 2);
    DivisionOf(2, 1, 2, 0);
    Take(2, 4, 1, 2, 0);
  }

  lemma OneMinuteAndTwoSeconds()
    ensures FormatDuration(62) == Success("1 minute and 2 seconds")
  {
    OneMinuteAndTwoSecondsParts();
    FormatDurationOf(62, [Part(Minute, 1), Part(Second, 2)]);
    RenderAt([Part(Minute, 1), Part(Second, 2)]);
    FragmentOneMinute();
    FragmentSeconds2();
    JoinTwo(Render([Part(Minute, 1), Part(Second, 2)]));
    OneMinuteAndTwoSecondsPhrase();
  }

  lemma TwoMinutesParts()
    ensures Decompose(120) == [Part(Minute, 2)]
  {
    DivisionOf(120, 31536000, 0, 120);
    Skip(120, 0, 31536000);
    DivisionOf(120, 86400, 0, 120);
    Skip(120, 1, 86400);
    DivisionOf(120, 3600, 0, 120);
    Skip(120, 2, 3600);
    DivisionOf(120, 60, 2, 0);
    Take(120, 3, 60, 2, 0);
    DivisionOf(0, 1, 0, 0);
    Skip(0, 4, 1);
  }

  lemma TwoMinutes()
    ensures FormatDuration(120) == Success("2 minutes")
  {
    TwoMinutesParts();
    FormatDurationOf(120, [Part(Minute, 2)]);
    RenderAt([Part(Minute, 2)]);
    FragmentMinutes2();
  }

  lemma OneHourOneMinuteTwoSecondsParts()
    ensures Decompose(3662) == [Part(Hour, 1), Part(Minute, 1), Part(Second, 2)]
  {
    DivisionOf(3662, 31536000, 0, 3662);
    Skip(3662, 0, 31536000);
    DivisionOf(3662, 86400, 0, 3662);
    Skip(3662, 1, 86400);
    DivisionOf(3662, 3600, 1, 62);
    Take(3662, 2, 3600, 1, 62);
    DivisionOf(62, 60, 1, 2);
    Take(62, 3, 60, 1, 2);
    DivisionOf(2, 1, 2, 0);
    Take(2, 4, 1, 2, 0);
  }

  lemma OneHourOneMinuteTwoSeconds()
    ensures FormatDuration(3662) == Success("1 hour, 1 minute and 2 seconds")
  {
    OneHourOneMinuteTwoSecondsParts();
    FormatDurationOf(3662, [Part(Hour, 1), Part(Minute, 1), Part(Second, 2)]);
    RenderAt([Part(Hour, 1), Part(Minute, 1), Part(Second, 2)]);
    FragmentOneHour();
    FragmentOneMinute();
    FragmentSeconds2();
    JoinThree(Render([Part(Hour, 1), Part(Minute, 1), Part(Second, 2)]));
    OneHourOneMinuteTwoSecondsPhrase();
  }

  lemma DaysHoursMinutesSecondsParts()
    ensures Decompose(15731080) == [Part(Day, 182), Part(Hour, 1), Part(Minute, 44), Part(Second, 40)]
  {
    DivisionOf(15731080, 31536000, 0, 15731080);
    Skip(15731080, 0, 31536000);
    DivisionOf(15731080, 86400, 182, 6280);
    Take(15731080, 1, 86400, 182, 6280);
    DivisionOf(6280, 3600, 1, 2680);
    Take(6280, 2, 3600, 1, 2680);
    DivisionOf(2680, 60, 44, 40);
    Take(2680, 3, 60, 44, 40);
    DivisionOf(40, 1, 40, 0);
    Take(40, 4, 1, 40, 0);
  }

  lemma DaysHoursMinutesSeconds()
    ensures FormatDuration(15731080) == Success("182 days, 1 hour, 44 minutes and 40 seconds")
  {
    DaysHoursMinutesSecondsParts();
    FormatDurationOf(15731080, [Part(Day, 182), Part(Hour, 1), Part(Minute, 44), Part(Second, 40)]);
    RenderAt([Part(Day, 182), Part(Hour, 1), Part(Minute, 44), Part(Second, 40)]);
    FragmentDays182();
    FragmentOneHour();
    FragmentMinutes44();
    FragmentSeconds40();
    JoinFour(Render([Part(Day, 182), Part(Hour, 1), Part(Minute, 44), Part(Second, 40)]));
    DaysHoursMinutesSecondsPhrase();
  }

  lemma YearsDaysHoursMinutesParts()
    ensures Decompose(132030240) == [Part(Year, 4), Part(Day, 68), Part(Hour, 3), Part(Minute, 4)]
  {
    DivisionOf(132030240, 31536000, 4, 5886240);
    Take(132030240, 0, 31536000, 4, 5886240);
    DivisionOf(5886240, 86400, 68, 11040);
    Take(5886240, 1, 86400, 68, 11040);
    DivisionOf(11040, 3600, 3, 240);
    Take(11040, 2, 3600, 3, 240);
    DivisionOf(240, 60, 4, 0);
    Take(240, 3, 60, 4, 0);
    DivisionOf(0, 1, 0, 0);
    Skip(0, 4, 1);
  }

  lemma YearsDaysHoursMinutes()
    ensures FormatDuration(132030240) == Success("4 years, 68 days, 3 hours and 4 minutes")
  {
    YearsDaysHoursMinutesParts();
    FormatDurationOf(132030240, [Part(Year, 4), Part(Day, 68), Part(Hour, 3), Part(Minute, 4)]);
    RenderAt([Part(Year, 4), Part(Day, 68), Part(Hour, 3), Part(Minute, 4)]);
    FragmentYears4();
    FragmentDays68();
    FragmentHours3();
    FragmentMinutes4();
    JoinFour(Render([Part(Year, 4), Part(Day, 68), Part(Hour, 3), Part(Minute, 4)]));
    YearsDaysHoursMinutesPhrase();
  }

  lemma OneMinuteParts()
    ensures Decompose(60) == [Part(Minute, 1)]
  {
    DivisionOf(60, 31536000, 0, 60);
    Skip(60, 0, 31536000);
    DivisionOf(60, 86400, 0, 60);
    Skip(60, 1, 86400);
    DivisionOf(60, 3600, 0, 60);
    Skip(60, 2, 3600);
    DivisionOf(60, 60, 1, 0);
    Take(60, 3, 60, 1, 0);
    DivisionOf(0, 1, 0, 0);
    Skip(0, 4, 1);
  }

  lemma OneMinute()
    ensures FormatDuration(60) == Success("1 minute")
  {
    OneMinuteParts();
    FormatDurationOf(60, [Part(Minute, 1)]);
    RenderAt([Part(Minute, 1)]);
    FragmentOneMinute();
  }

  lemma OneHourParts()
    ensures Decompose(3600) == [Part(Hour, 1)]
  {
    DivisionOf(3600, 31536000, 0, 3600);
    Skip(3600, 0, 31536000);
    DivisionOf(3600, 86400, 0, 3600);
    Skip(3600, 1, 86400);
    DivisionOf(3600, 3600, 1, 0);
    Take(3600, 2, 3600, 1, 0);
    DivisionOf(0, 60, 0, 0);
    Skip(0, 3, 60);
    DivisionOf(0, 1, 0, 0);
    Skip(0, 4, 1);
  }

  lemma OneHour()
    ensures FormatDuration(3600) == Success("1 hour")
  {
    OneHourParts();
    FormatDurationOf(3600, [Part(Hour, 1)]);
    RenderAt([Part(Hour, 1)]);
    FragmentOneHour();
  }

  lemma OneDayParts()
    ensures Decompose(86400) == [Part(Day, 1)]
  {
    DivisionOf(86400, 31536000, 0, 86400);
    Skip(86400, 0, 31536000);
    DivisionOf(86400, 86400, 1, 0);
    Take(86400, 1, 86400, 1, 0);
    DivisionOf(0, 3600, 0, 0);
    Skip(0, 2, 3600);
    DivisionOf(0, 60, 0, 0);
    Skip(0, 3, 60);
    DivisionOf(0, 1, 0, 0);
    Skip(0, 4, 1);
  }

  lemma OneDay()
    ensures FormatDuration(86400) == Success("1 day")
  {
    OneDayParts();
    FormatDurationOf(86400, [Part(Day, 1)]);
    RenderAt([Part(Day, 1)]);
    FragmentOneDay();
  }

  lemma OneYearParts()
    ensures Decompose(31536000) == [Part(Year, 1)]
  {
    DivisionOf(31536000, 31536000, 1, 0);
    Take(31536000, 0, 31536000, 1, 0);
    DivisionOf(0, 86400, 0, 0);
    Skip(0, 1, 86400);
    DivisionOf(0, 3600, 0, 0);
    Skip(0, 2, 3600);
    DivisionOf(0, 60, 0, 0);
    Skip(0, 3, 60);
    DivisionOf(0, 1, 0, 0);
    Skip(0, 4, 1);
  }

  lemma OneYear()
    ensures FormatDuration(31536000) == Success("1 year")
  {
    OneYearParts();
    FormatDurationOf(31536000, [Part(Year, 1)]);
    RenderAt([Part(Year, 1)]);
    FragmentOneYear();
  }

  lemma TwoSecondsParts()
    ensures Decompose(2) == [Part(Second, 2)]
  {
    DivisionOf(2, 31536000, 0, 2);
    Skip(2, 0, 31536000);
    DivisionOf(2, 86400, 0, 2);
    Skip(2, 1, 86400);
    DivisionOf(2, 3600, 0, 2);
    Skip(2, 2, 3600);
    DivisionOf(2, 60, 0, 2);
    Skip(2, 3, 60);
    DivisionOf(2, 1, 2, 0);
    Take(2, 4, 1, 2, 0);
  }

  lemma TwoSeconds()
    ensures FormatDuration(2) == Success("2 seconds")
  {
    TwoSecondsParts();
    FormatDurationOf(2, [Part(Second, 2)]);
    RenderAt([Part(Second, 2)]);
    FragmentSeconds2();
  }

  lemma TwoHoursParts()
    ensures Decompose(7200) == [Part(Hour, 2)]
  {
    DivisionOf(7200, 31536000, 0, 7200);
    Skip(7200, 0, 31536000);
    DivisionOf(7200, 86400, 0, 7200);
    Skip(7200, 1, 86400);
    DivisionOf(7200, 3600, 2, 0);
    Take(7200, 2, 3600, 2, 0);
    DivisionOf(0, 60, 0, 0);
    Skip(0, 3, 60);
    DivisionOf(0, 1, 0, 0);
    Skip(0, 4, 1);
  }

  lemma TwoHours()
    ensures FormatDuration(7200) == Success("2 hours")
  {
    TwoHoursParts();
    FormatDurationOf(7200, [Part(Hour, 2)]);
    RenderAt([Part(Hour, 2)]);
    FragmentHours2();
  }

  lemma TwoDaysParts()
    ensures Decompose(172800) == [Part(Day, 2)]
  {
    DivisionOf(172800, 31536000, 0, 172800);
    Skip(172800, 0, 31536000);
    DivisionOf(172800, 86400, 2, 0);
    Take(172800, 1, 86400, 2, 0);
    DivisionOf(0, 3600, 0, 0);
    Skip(0, 2, 3600);
    DivisionOf(0, 60, 0, 0);
    Skip(0, 3, 60);
    DivisionOf(0, 1, 0, 0);
    Skip(0, 4, 1);
  }

  lemma TwoDays()
    ensures FormatDuration(172800) == Success("2 days")
  {
    TwoDaysParts();
    FormatDurationOf(172800, [Part(Day, 2)]);
    RenderAt([Part(Day, 2)]);
    FragmentDays2();
  }

  lemma TwoYearsParts()
    ensures Decompose(63072000) == [Part(Year, 2)]
  {
    DivisionOf(63072000, 31536000, 2, 0);
    Take(63072000, 0, 31536000, 2, 0);
    DivisionOf(0, 86400, 0, 0);
    Skip(0, 1, 86400);
    DivisionOf(0, 3600, 0, 0);
    Skip(0, 2, 3600);
    DivisionOf(0, 60, 0, 0);
    Skip(0, 3, 60);
    DivisionOf(0, 1, 0, 0);
    Skip(0, 4, 1);
  }

  lemma TwoYears()
    ensures FormatDuration(63072000) == Success("2 years")
  {
    TwoYearsParts();
    FormatDurationOf(63072000, [Part(Year, 2)]);
    RenderAt([Part(Year, 2)]);
    FragmentYears2();
  }

  lemma FiftyNineSecondsParts()
    ensures Decompose(59) == [Part(Second, 59)]
  {
    DivisionOf(59, 31536000, 0, 59);
    Skip(59, 0, 31536000);
    DivisionOf(59, 86400, 0, 59);
    Skip(59, 1, 86400);
    DivisionOf(59, 3600, 0, 59);
    Skip(59, 2, 3600);
    DivisionOf(59, 60, 0, 59);
    Skip(59, 3, 60);
    DivisionOf(59, 1, 59, 0);
    Take(59, 4, 1, 59, 0);
  }

  lemma FiftyNineSeconds()
    ensures FormatDuration(59) == Success("59 seconds")
  {
    FiftyNineSecondsParts();
    FormatDurationOf(59, [Part(Second, 59)]);
    RenderAt([Part(Second, 59)]);
    FragmentSeconds59();
  }

  lemma SixtyOneSecondsParts()
    ensures Decompose(61) == [Part(Minute, 1), Part(Second, 1)]
  {
    DivisionOf(61, 31536000, 0, 61);
    Skip(61, 0, 31536000);
    DivisionOf(61, 86400, 0, 61);
    Skip(61, 1, 86400);
    DivisionOf(61, 3600, 0, 61);
    Skip(61, 2, 3600);
    DivisionOf(61, 60, 1, 1);
    Take(61, 3, 60, 1, 1);
    DivisionOf(1, 1, 1, 0);
    Take(1, 4, 1, 1, 0);
  }

  lemma SixtyOneSeconds()
    ensures FormatDuration(61) == Success("1 minute and 1 second")
  {
    SixtyOneSecondsParts();
    FormatDurationOf(61, [Part(Minute, 1), Part(Second, 1)]);
    RenderAt([Part(Minute, 1), Part(Second, 1)]);
    FragmentOneMinute();
    FragmentOneSecond();
    JoinTwo(Render([Part(Minute, 1), Part(Second, 1)]));
    SixtyOneSecondsPhrase();
  }

  lemma JustUnderOneHourParts()
    ensures Decompose(3599) == [Part(Minute, 59), Part(Second, 59)]
  {
    DivisionOf(3599, 31536000, 0, 3599);
    Skip(3599, 0, 31536000);
    DivisionOf(3599, 86400, 0, 3599);
    Skip(3599, 1, 86400);
    DivisionOf(3599, 3600, 0, 3599);
    Skip(3599, 2, 3600);
    DivisionOf(3599, 60, 59, 59);
    Take(3599, 3, 60, 59, 59);
    DivisionOf(59, 1, 59, 0);
    Take(59, 4, 1, 59, 0);
  }

  lemma JustUnderOneHour()
    ensures FormatDuration(3599) == Success("59 minutes and 59 seconds")
  {
    JustUnderOneHourParts();
    FormatDurationOf(3599, [Part(Minute, 59), Part(Second, 59)]);
    RenderAt([Part(Minute, 59), Part(Second, 59)]);
    FragmentMinutes59();
    FragmentSeconds59();
    JoinTwo(Render([Part(Minute, 59), Part(Second, 59)]));
    JustUnderOneHourPhrase();
  }

  lemma OneHourAndOneSecondParts()
    ensures Decompose(3601) == [Part(Hour, 1), Part(Second, 1)]
  {
    DivisionOf(3601, 31536000, 0, 3601);
    Skip(3601, 0, 31536000);
    DivisionOf(3601, 86400, 0, 3601);
    Skip(3601, 1, 86400);
    DivisionOf(3601, 3600, 1, 1);
    Take(3601, 2, 3600, 1, 1);
    DivisionOf(1, 60, 0, 1);
    Skip(1, 3, 60);
    DivisionOf(1, 1, 1, 0);
    Take(1, 4, 1, 1, 0);
  }

  lemma OneHourAndOneSecond()
    ensures FormatDuration(3601) == Success("1 hour and 1 second")
  {
    OneHourAndOneSecondParts();
    FormatDurationOf(3601, [Part(Hour, 1), Part(Second, 1)]);
    RenderAt([Part(Hour, 1), Part(Second, 1)]);
    FragmentOneHour();
    FragmentOneSecond();
    JoinTwo(Render([Part(Hour, 1), Part(Second, 1)]));
    OneHourAndOneSecondPhrase();
  }

  lemma AllUnitsSingularParts()
    ensures Decompose(31626061) == [Part(Year, 1), Part(Day, 1), Part(Hour, 1), Part(Minute, 1), Part(Second, 1)]
  {
    DivisionOf(31626061, 31536000, 1, 90061);
    Take(31626061, 0, 31536000, 1, 90061);
    DivisionOf(90061, 86400, 1, 3661);
    Take(90061, 1, 86400, 1, 3661);
    DivisionOf(3661, 3600, 1, 61);
    Take(3661, 2, 3600, 1, 61);
    DivisionOf(61, 60, 1, 1);
    Take(61, 3, 60, 1, 1);
    DivisionOf(1, 1, 1, 0);
    Take(1, 4, 1, 1, 0);
  }

  lemma AllUnitsSingular()
    ensures FormatDuration(31626061) == Success("1 year, 1 day, 1 hour, 1 minute and 1 second")
  {
    AllUnitsSingularParts();
    FormatDurationOf(31626061, [Part(Year, 1), Part(Day, 1), Part(Hour, 1), Part(Minute, 1), Part(Second, 1)]);
    RenderAt([Part(Year, 1), Part(Day, 1), Part(Hour, 1), Part(Minute, 1), Part(Second, 1)]);
    FragmentOneYear();
    FragmentOneDay();
    FragmentOneHour();
    FragmentOneMinute();
    FragmentOneSecond();
    JoinFive(Render([Part(Year, 1), Part(Day, 1), Part(Hour, 1), Part(Minute, 1), Part(Second, 1)]));
    AllUnitsSingularPhrase();
  }

  lemma AllUnitsPluralParts()
    ensures Decompose(63252122) == [Part(Year, 2), Part(Day, 2), Part(Hour, 2), Part(Minute, 2), Part(Second, 2)]
  {
    DivisionOf(63252122, 31536000, 2, 180122);
    Take(63252122, 0, 31536000, 2, 180122);
    DivisionOf(180122, 86400, 2, 7322);
    Take(180122, 1, 86400, 2, 7322);
    DivisionOf(7322, 3600, 2, 122);
    Take(7322, 2, 3600, 2, 122);
    DivisionOf(122, 60, 2, 2);
    Take(122, 3, 60, 2, 2);
    DivisionOf(2, 1, 2, 0);
    Take(2, 4, 1, 2, 0);
  }

  lemma AllUnitsPlural()
    ensures FormatDuration(63252122) == Success("2 years, 2 days, 2 hours, 2 minutes and 2 seconds")
  {
    AllUnitsPluralParts();
    FormatDurationOf(63252122, [Part(Year, 2), Part(Day, 2), Part(Hour, 2), Part(Minute, 2), Part(Second, 2)]);
    RenderAt([Part(Year, 2), Part(Day, 2), Part(Hour, 2), Part(Minute, 2), Part(Second, 2)]);
    FragmentYears2();
    FragmentDays2();
    FragmentHours2();
    FragmentMinutes2();
    FragmentSeconds2();
    JoinFive(Render([Part(Year, 2), Part(Day, 2), Part(Hour, 2), Part(Minute, 2), Part(Second, 2)]));
    AllUnitsPluralPhrase();
  }

  lemma FragmentOneSecond()
    ensures Second.Format(1) == "1 second"
  {
    assert NatToString(1) == "1";
  }

  lemma FragmentOneMinute()
    ensures Minute.Format(1) == "1 minute"
  {
    assert NatToString(1) == "1";
  }

  lemma FragmentSeconds2()
    ensures Second.Format(2) == "2 seconds"
  {
    assert NatToString(2) == "2";
  }

  lemma FragmentMinutes2()
    ensures Minute.Format(2) == "2 minutes"
  {
    assert NatToString(2) == "2";
  }

  lemma FragmentOneHour()
    ensures Hour.Format(1) == "1 hour"
  {
    assert NatToString(1) == "1";
  }

  lemma FragmentDays182()
    ensures Day.Format(182) == "182 days"
  {
    assert NatToString(182) == "182";
  }

  lemma FragmentMinutes44()
    ensures Minute.Format(44) == "44 minutes"
  {
    assert NatToString(44) == "44";
  }

  lemma FragmentSeconds40()
    ensures Second.Format(40) == "40 seconds"
  {
    assert NatToString(40) == "40";
  }

  lemma FragmentYears4()
    ensures Year.Format(4) == "4 years"
  {
    assert NatToString(4) == "4";
  }

  lemma FragmentDays68()
    ensures Day.Format(68) == "68 days"
  {
    assert NatToString(68) == "68";
  }

  lemma FragmentHours3()
    ensures Hour.Format(3) == "3 hours"
  {
    assert NatToString(3) == "3";
  }

  lemma FragmentMinutes4()
    ensures Minute.Format(4) == "4 minutes"
  {
    assert NatToString(4) == "4";
  }

  lemma FragmentOneDay()
    ensures Day.Format(1) == "1 day"
  {
    assert NatToString(1) == "1";
  }

  lemma FragmentOneYear()
    ensures Year.Format(1) == "1 year"
  {
    assert NatToString(1) == "1";
  }

  lemma FragmentHours2()
    ensures Hour.Format(2) == "2 hours"
  {
    assert NatToString(2) == "2";
  }

  lemma FragmentDays2()
    ensures Day.Format(2) == "2 days"
  {
    assert NatToString(2) == "2";
  }

  lemma FragmentYears2()
    ensures Year.Format(2) == "2 years"
  {
    assert NatToString(2) == "2";
  }

  lemma FragmentSeconds59()
    ensures Second.Format(59) == "59 seconds"
  {
    assert NatToString(59) == "59";
  }

  lemma FragmentMinutes59()
    ensures Minute.Format(59) == "59 minutes"
  {
    assert NatToString(59) == "59";
  }

  /*
   * The lemmas below only spell out concatenations of string literals: they add no fact about
   * the formatter and are there so that each case above checks its expected text in small steps.
   */
  lemma OneMinuteAndTwoSecondsPhrase()
    ensures "1 minute" + " and " + "2 seconds" == "1 minute and 2 seconds"
  {
  }

  lemma OneHourOneMinuteTwoSecondsPhrase()
    ensures "1 hour" + ", " + "1 minute" + " and " + "2 seconds" == "1 hour, 1 minute and 2 seconds"
  {
    assert "1 hour" + ", " + "1 minute" == "1 hour, 1 minute";
  }

  lemma DaysHoursMinutesSecondsPhrase()
    ensures "182 days" + ", " + "1 hour" + ", " + "44 minutes" + " and " + "40 seconds" == "182 days, 1 hour, 44 minutes and 40 seconds"
  {
    assert "182 days" + ", " + "1 hour" == "182 days, 1 hour";
    assert "182 days" + ", " + "1 hour" + ", " + "44 minutes" == "182 days, 1 hour, 44 minutes";
  }

  lemma YearsDaysHoursMinutesPhrase()
    ensures "4 years" + ", " + "68 days" + ", " + "3 hours" + " and " + "4 minutes" == "4 years, 68 days, 3 hours and 4 minutes"
  {
    assert "4 years" + ", " + "68 days" == "4 years, 68 days";
    assert "4 years" + ", " + "68 days" + ", " + "3 hours" == "4 years, 68 days, 3 hours";
  }

  lemma SixtyOneSecondsPhrase()
    ensures "1 minute" + " and " + "1 second" == "1 minute and 1 second"
  {
  }

  lemma JustUnderOneHourPhrase()
    ensures "59 minutes" + " and " + "59 seconds" == "59 minutes and 59 seconds"
  {
  }

  lemma OneHourAndOneSecondPhrase()
    ensures "1 hour" + " and " + "1 second" == "1 hour and 1 second"
  {
  }

  lemma AllUnitsSingularPhrase()
    ensures "1 year" + ", " + "1 day" + ", " + "1 hour" + ", " + "1 minute" + " and " + "1 second" == "1 year, 1 day, 1 hour, 1 minute and 1 second"
  {
    assert "1 year" + ", " + "1 day" == "1 year, 1 day";
    assert "1 year" + ", " + "1 day" + ", " + "1 hour" == "1 year, 1 day, 1 hour";
    assert "1 year" + ", " + "1 day" + ", " + "1 hour" + ", " + "1 minute" == "1 year, 1 day, 1 hour, 1 minute";
  }

  lemma AllUnitsPluralPhrase()
    ensures "2 years" + ", " + "2 days" + ", " + "2 hours" + ", " + "2 minutes" + " and " + "2 seconds" == "2 years, 2 days, 2 hours, 2 minutes and 2 seconds"
  {
    assert "2 years" + ", " + "2 days" == "2 years, 2 days";
    assert "2 years" + ", " + "2 days" + ", " + "2 hours" == "2 years, 2 days, 2 hours";
    assert "2 years" + ", " + "2 days" + ", " + "2 hours" + ", " + "2 minutes" == "2 years, 2 days, 2 hours, 2 minutes";
  }

  lemma Zero()
    ensures FormatDuration(0) == Success("now")
  {
  }

  lemma MinusOne()
    ensures FormatDuration(-1) == Failure(IllegalArgumentException("Duration cannot be negative: -1"))
  {
    assert NatToString(1) == "1";
    assert IntToString(-1) == "-1";
    assert NEGATIVE_MESSAGE + "-1" == "Duration cannot be negative: -1";
  }

  lemma MinimumInt()
    ensures FormatDuration(-0x8000_0000).Failure?
  {
  }
}
