/**
 * The duration formatter: a non-negative count of seconds becomes an English phrase such as
 * "1 hour, 1 minute and 2 seconds". Three stages: greedy decomposition over a fixed table of
 * units (ExtractTimeParts), rendering of one fragment (TimeUnit.Format) and joining the
 * fragments with commas and a final "and" (JoinWithCommasAndAnd).
 */
module TimeFormatter {
  import opened Wrappers
  import opened Decimal

  /** The range of a Java `int`, the type of the public entry point's argument. */
  type Int32 = x: int | -0x8000_0000 <= x < 0x8000_0000

  const NOW: string := "now"
  const SEPARATOR: string := ", "
  const LAST_SEPARATOR: string := " and "
  const NEGATIVE_MESSAGE: string := "Duration cannot be negative: "

  const SECONDS_PER_MINUTE: nat := 60
  const SECONDS_PER_HOUR: nat := 60 * SECONDS_PER_MINUTE
  const SECONDS_PER_DAY: nat := 24 * SECONDS_PER_HOUR
  const SECONDS_PER_YEAR: nat := 365 * SECONDS_PER_DAY

  /** The unit table, largest unit first. */
  datatype TimeUnit = Year | Day | Hour | Minute | Second {

    /** How many seconds one of this unit holds; never zero. */
    function Seconds(): (s: nat)
      ensures s >= 1
      ensures this == Second <==> s == 1
    {
      match this
      case Year => SECONDS_PER_YEAR
      case Day => SECONDS_PER_DAY
      case Hour => SECONDS_PER_HOUR
      case Minute => SECONDS_PER_MINUTE
      case Second => 1
    }

    /** The singular name; every name is a lower-case word that does not end in 's'. */
    function Singular(): (name: string)
      ensures |name| >= 3
      ensures forall i :: 0 <= i < |name| ==> 'a' <= name[i] <= 'z'
      ensures name[|name| - 1] != 's'
    {
      match this
      case Year => "year"
      case Day => "day"
      case Hour => "hour"
      case Minute => "minute"
      case Second => "second"
    }

    /** One fragment of the phrase: the count, a space and the unit name, plural unless the count is 1. */
    function Format(count: int): (r: string)
      ensures var stem := IntToString(count) + " " + Singular();
              |r| >= |stem| && r[..|stem|] == stem
      ensures |r| == |IntToString(count)| + 1 + |Singular()| + (if count == 1 then 0 else 1)
      ensures r[|r| - 1] == 's' <==> count != 1
    {
      if count == 1 then IntToString(count) + " " + Singular()
      else IntToString(count) + " " + Singular() + "s"
    }
  }

  /** `TimeUnit.values()`: the declaration order of the enumeration. */
  const UNITS: seq<TimeUnit> := [Year, Day, Hour, Minute, Second]

  /** A unit with the count the decomposition found for it. */
  datatype Part = Part(unit: TimeUnit, count: nat)

  /** The exception raised for a negative duration, with its message. */
  datatype IllegalArgumentException = IllegalArgumentException(message: string)

  /**
   * The greedy decomposition of `remaining` over the units from index `i` on: a unit whose
   * count is positive yields a part and leaves the remainder modulo its size; a unit whose
   * count is zero yields nothing and leaves `remaining` alone.
   */
  function DecomposeFrom(remaining: nat, i: nat): (r: seq<Part>)
    requires i <= |UNITS|
    ensures |r| <= |UNITS| - i
    ensures 0 < remaining && i < |UNITS| ==> |r| >= 1
    ensures remaining == 0 ==> r == []
    decreases |UNITS| - i
  {
    if i == |UNITS| then []
    else
      var unit := UNITS[i];
      var count := remaining / unit.Seconds();
      if count > 0 then [Part(unit, count)] + DecomposeFrom(remaining % unit.Seconds(), i + 1)
      else DecomposeFrom(remaining, i + 1)
  }

  /**
   * The parts `extractTimeParts` produces for `totalSeconds`, before rendering: none for zero,
   * otherwise at least one and at most one per unit.
   */
  function Decompose(totalSeconds: nat): (r: seq<Part>)
    ensures |r| == 0 <==> totalSeconds == 0
    ensures |r| <= |UNITS|
  {
    DecomposeFrom(totalSeconds, 0)
  }

  /** Renders every part, in order. */
  function Render(parts: seq<Part>): (r: seq<string>)
    ensures |r| == |parts|
  {
    if parts == [] then [] else [parts[0].unit.Format(parts[0].count)] + Render(parts[1..])
  }

  /** Rendering maps each part to its fragment, in order. */
  lemma {:induction false} RenderAt(parts: seq<Part>)
    ensures forall k :: 0 <= k < |parts| ==> Render(parts)[k] == parts[k].unit.Format(parts[k].count)
  {
    if parts != [] {
      RenderAt(parts[1..]);
    }
  }

  /** The seconds the parts stand for: the sum of count times unit size. */
  function Total(parts: seq<Part>): nat {
    if parts == [] then 0 else parts[0].count * parts[0].unit.Seconds() + Total(parts[1..])
  }

  /** Each unit's size is a multiple of the next smaller unit's size. */
  lemma RemainderOfPrevious(n: nat, i: nat)
    requires 1 <= i < |UNITS|
    ensures (n % UNITS[i - 1].Seconds()) % UNITS[i].Seconds() == n % UNITS[i].Seconds()
  {
    if i == 1 {
      DaysWithinYear(n);
    } else if i == 2 {
      HoursWithinDay(n);
    } else if i == 3 {
      MinutesWithinHour(n);
    }
  }

  lemma DaysWithinYear(n: nat)
    ensures (n % SECONDS_PER_YEAR) % SECONDS_PER_DAY == n % SECONDS_PER_DAY
  {
  }

  lemma HoursWithinDay(n: nat)
    ensures (n % SECONDS_PER_DAY) % SECONDS_PER_HOUR == n % SECONDS_PER_HOUR
  {
  }

  lemma MinutesWithinHour(n: nat)
    ensures (n % SECONDS_PER_HOUR) % SECONDS_PER_MINUTE == n % SECONDS_PER_MINUTE
  {
  }

  /**
   * What is left of `n` before the unit at index `i` is processed: `n` itself before the first
   * unit, afterwards `n` modulo the previous unit's size (so less than that size).
   */
  function Remainder(n: nat, i: nat): (r: nat)
    requires i <= |UNITS|
    ensures i > 0 ==> r < UNITS[i - 1].Seconds()
  {
    if i == 0 then n else n % UNITS[i - 1].Seconds()
  }

  /** Processing unit `i` greedily turns `Remainder(n, i)` into `Remainder(n, i + 1)`. */
  lemma RemainderStep(n: nat, i: nat)
    requires i < |UNITS|
    ensures var r, s := Remainder(n, i), UNITS[i].Seconds();
            (if r / s > 0 then r % s else r) == Remainder(n, i + 1)
  {
    var r, s := Remainder(n, i), UNITS[i].Seconds();
    if r / s == 0 {
      assert r % s == r;
    }
    if i > 0 {
      RemainderOfPrevious(n, i);
    }
  }

  /** Rendering a list is rendering its first part followed by rendering the rest. */
  lemma RenderCons(p: Part, rest: seq<Part>)
    ensures Render([p] + rest) == [p.unit.Format(p.count)] + Render(rest)
  {
    assert ([p] + rest)[1..] == rest;
  }

  /**
   * One iteration of `extractTimeParts` keeps its loop invariant: the remainder is the input
   * modulo the previous unit, and the fragments so far followed by the rendering of what is
   * left make up the rendering of the whole decomposition.
   */
  lemma ExtractStep(total: nat, parts: seq<string>, remaining: nat, i: nat)
    requires i < |UNITS|
    requires remaining == Remainder(total, i)
    requires parts + Render(DecomposeFrom(remaining, i)) == Render(Decompose(total))
    ensures var unit := UNITS[i];
            var count := remaining / unit.Seconds();
            var parts' := if count > 0 then parts + [unit.Format(count)] else parts;
            var remaining' := if count > 0 then remaining % unit.Seconds() else remaining;
            remaining' == Remainder(total, i + 1) &&
            parts' + Render(DecomposeFrom(remaining', i + 1)) == Render(Decompose(total))
  {
    RemainderStep(total, i);
    FragmentStep(parts, remaining, i);
  }

  /** One greedy step moves the fragment of unit `i`, if any, from what is left to what is emitted. */
  lemma FragmentStep(parts: seq<string>, remaining: nat, i: nat)
    requires i < |UNITS|
    ensures var unit := UNITS[i];
            var count := remaining / unit.Seconds();
            var parts' := if count > 0 then parts + [unit.Format(count)] else parts;
            var remaining' := if count > 0 then remaining % unit.Seconds() else remaining;
            parts' + Render(DecomposeFrom(remaining', i + 1)) == parts + Render(DecomposeFrom(remaining, i))
  {
    var unit := UNITS[i];
    var count := remaining / unit.Seconds();
    if count > 0 {
      var fragment := unit.Format(count);
      var rest := DecomposeFrom(remaining % unit.Seconds(), i + 1);
      assert DecomposeFrom(remaining, i) == [Part(unit, count)] + rest;
      RenderCons(Part(unit, count), rest);
      assert (parts + [fragment]) + Render(rest) == parts + ([fragment] + Render(rest));
    }
  }

  /**
   * `extractTimeParts`: walks the unit table once, emitting a fragment for each unit whose
   * count is positive and keeping the remainder. Before unit `i` is processed, `remaining` is
   * the input modulo the previous unit's size, hence smaller than that size.
   */
  method ExtractTimeParts(totalSeconds: nat) returns (parts: seq<string>)
    ensures parts == Render(Decompose(totalSeconds))
  {
    parts := [];
    var remaining := totalSeconds;
    for i := 0 to |UNITS|
      invariant remaining == Remainder(totalSeconds, i)
      invariant parts + Render(DecomposeFrom(remaining, i)) == Render(Decompose(totalSeconds))
    {
      ExtractStep(totalSeconds, parts, remaining, i);
      var unit := UNITS[i];
      var count := remaining / unit.Seconds();
      if count > 0 {
        parts := parts + [unit.Format(count)];
        remaining := remaining % unit.Seconds();
      }
    }
  }

  /**
   * `String.join`: the strings with `separator` between neighbours. The result is empty for
   * no strings, is the string itself for one, and otherwise starts with the first string.
   */
  function Join(parts: seq<string>, separator: string): (r: string)
    ensures |parts| == 0 ==> r == ""
    ensures |parts| == 1 ==> r == parts[0]
    ensures |parts| >= 1 ==> |r| >= |parts[0]| && r[..|parts[0]|] == parts[0]
  {
    if |parts| == 0 then ""
    else if |parts| == 1 then parts[0]
    else parts[0] + separator + Join(parts[1..], separator)
  }

  /**
   * Joining grows at the end as well: all but the last string joined, then the separator, then
   * the last string.
   */
  lemma {:induction false} JoinSnoc(parts: seq<string>, separator: string)
    requires |parts| >= 2
    ensures Join(parts, separator) == Join(parts[..|parts| - 1], separator) + separator + parts[|parts| - 1]
    decreases |parts|
  {
    var init := parts[..|parts| - 1];
    var last := parts[|parts| - 1];
    if |parts| == 2 {
      assert init == [parts[0]];
    } else {
      var tail := parts[1..];
      assert tail[..|tail| - 1] == init[1..];
      assert tail[|tail| - 1] == last;
      calc {
        Join(parts, separator);
        parts[0] + separator + Join(tail, separator);
        { JoinSnoc(tail, separator); }
        parts[0] + separator + (Join(init[1..], separator) + separator + last);
        (parts[0] + separator + Join(init[1..], separator)) + separator + last;
        { assert init[0] == parts[0]; }
        Join(init, separator) + separator + last;
      }
    }
  }

  /** Hence a non-empty join ends with the last string. */
  lemma {:induction false} JoinEndsWithLast(parts: seq<string>, separator: string)
    requires |parts| >= 1
    ensures var r, last := Join(parts, separator), parts[|parts| - 1];
            |r| >= |last| && r[|r| - |last|..] == last
  {
    if |parts| >= 2 {
      JoinSnoc(parts, separator);
    }
  }

  /**
   * `joinWithCommasAndAnd`: one fragment is returned as it is; otherwise all but the last are
   * joined with ", " and the last is appended after " and ".
   */
  function JoinWithCommasAndAnd(parts: seq<string>): (r: string)
    requires |parts| >= 1
    ensures |parts| == 1 ==> r == parts[0]
    ensures var last := parts[|parts| - 1];
            |parts| >= 2 ==> |r| >= |last| + 5 && r[|r| - |last| - 5..] == LAST_SEPARATOR + last
  {
    if |parts| == 1 then parts[0]
    else Join(parts[..|parts| - 1], SEPARATOR) + LAST_SEPARATOR + parts[|parts| - 1]
  }

  /** `formatDuration`: rejects a negative count, says "now" for zero, otherwise decomposes and joins. */
  function FormatDuration(seconds: Int32): (r: Result<string, IllegalArgumentException>)
    ensures r.Failure? <==> seconds < 0
    ensures seconds == 0 ==> r == Success(NOW)
  {
    if seconds < 0 then Failure(IllegalArgumentException(NEGATIVE_MESSAGE + IntToString(seconds)))
    else if seconds == 0 then Success(NOW)
    else Success(JoinWithCommasAndAnd(Render(Decompose(seconds))))
  }
}
