/**
 * What the greedy decomposition computes, stated independently of the loop: each unit's count
 * in closed form, the conservation law, the bounds on each count, the order of the parts and
 * the omission of zero counts.
 */
module Decomposition {
  import opened TimeFormatter

  /** The position of a unit in the table (0 for years, 4 for seconds). */
  function Rank(u: TimeUnit): (i: nat)
    ensures i < |UNITS| && UNITS[i] == u
  {
    match u
    case Year => 0
    case Day => 1
    case Hour => 2
    case Minute => 3
    case Second => 4
  }

  /**
   * The count of the unit at index `i` in closed form: whole years of `n`, and for each smaller
   * unit the whole units in what is left over after the next larger unit.
   */
  function CountAt(n: nat, i: nat): nat
    requires i < |UNITS|
  {
    if i == 0 then n / UNITS[0].Seconds() else (n % UNITS[i - 1].Seconds()) / UNITS[i].Seconds()
  }

  /** The units from index `i` on whose closed-form count is positive, with those counts. */
  function ReferenceFrom(n: nat, i: nat): seq<Part>
    requires i <= |UNITS|
    decreases |UNITS| - i
  {
    if i == |UNITS| then []
    else (if CountAt(n, i) > 0 then [Part(UNITS[i], CountAt(n, i))] else []) + ReferenceFrom(n, i + 1)
  }

  lemma {:induction false} DecomposeFromIsReference(n: nat, i: nat)
    requires i <= |UNITS|
    ensures DecomposeFrom(Remainder(n, i), i) == ReferenceFrom(n, i)
    decreases |UNITS| - i
  {
    if i < |UNITS| {
      RemainderStep(n, i);
      DecomposeFromIsReference(n, i + 1);
    }
  }

  /** The greedy loop yields exactly the units with a positive closed-form count. */
  lemma DecomposeIsReference(n: nat)
    ensures Decompose(n) == ReferenceFrom(n, 0)
  {
    DecomposeFromIsReference(n, 0);
  }

  lemma DivisionSplits(x: nat, d: nat)
    requires d >= 1
    ensures (x / d) * d + x % d == x
  {
  }

  /** One unit of the greedy decomposition, as seconds accounted for. */
  lemma TotalStep(remaining: nat, i: nat)
    requires i < |UNITS|
    ensures var unit := UNITS[i];
            var count := remaining / unit.Seconds();
            Total(DecomposeFrom(remaining, i)) ==
              if count > 0 then count * unit.Seconds() + Total(DecomposeFrom(remaining % unit.Seconds(), i + 1))
              else Total(DecomposeFrom(remaining, i + 1))
  {
    var unit := UNITS[i];
    var count := remaining / unit.Seconds();
    if count > 0 {
      var rest := DecomposeFrom(remaining % unit.Seconds(), i + 1);
      assert ([Part(unit, count)] + rest)[1..] == rest;
    }
  }

  lemma {:induction false} TotalOfDecomposeFrom(remaining: nat, i: nat)
    requires i < |UNITS|
    ensures Total(DecomposeFrom(remaining, i)) == remaining
    decreases |UNITS| - i
  {
    TotalStep(remaining, i);
    var s := UNITS[i].Seconds();
    var count := remaining / s;
    if i == |UNITS| - 1 {
      assert s == 1;
    } else if count > 0 {
      TotalOfDecomposeFrom(remaining % s, i + 1);
      DivisionSplits(remaining, s);
    } else {
      TotalOfDecomposeFrom(remaining, i + 1);
    }
  }

  /** Conservation: the counts times the unit sizes add back up to the input. */
  lemma Conservation(n: nat)
    ensures Total(Decompose(n)) == n
  {
    TotalOfDecomposeFrom(n, 0);
  }

  /** Zero has no parts; a positive input has between one and five. */
  lemma PartCount(n: nat)
    ensures n == 0 <==> Decompose(n) == []
    ensures |Decompose(n)| <= |UNITS|
  {
    Conservation(n);
  }

  /** Every count of the closed form stays below the number of such units in the next larger unit. */
  lemma CountAtBounds(n: nat, i: nat)
    requires i < |UNITS|
    ensures i == 1 ==> CountAt(n, i) < 365
    ensures i == 2 ==> CountAt(n, i) < 24
    ensures i == 3 ==> CountAt(n, i) < 60
    ensures i == 4 ==> CountAt(n, i) < 60
  {
  }

  lemma RankOfUnit(i: nat)
    requires i < |UNITS|
    ensures Rank(UNITS[i]) == i
  {
  }

  /** Unfolds one step of the reference list. */
  lemma ReferenceFromStep(n: nat, i: nat)
    requires i < |UNITS|
    ensures CountAt(n, i) > 0 ==> ReferenceFrom(n, i) == [Part(UNITS[i], CountAt(n, i))] + ReferenceFrom(n, i + 1)
    ensures CountAt(n, i) == 0 ==> ReferenceFrom(n, i) == ReferenceFrom(n, i + 1)
  {
  }

  /** Every part of the reference list has rank at least `i` and its positive closed-form count. */
  lemma {:induction false} ReferenceFromCounts(n: nat, i: nat)
    requires i <= |UNITS|
    ensures var r := ReferenceFrom(n, i);
            forall j :: 0 <= j < |r| ==> i <= Rank(r[j].unit) && r[j].count == CountAt(n, Rank(r[j].unit)) > 0
    decreases |UNITS| - i
  {
    if i < |UNITS| {
      ReferenceFromCounts(n, i + 1);
      ReferenceFromStep(n, i);
      RankOfUnit(i);
      var rest, r := ReferenceFrom(n, i + 1), ReferenceFrom(n, i);
      if CountAt(n, i) > 0 {
        forall j | 0 <= j < |r|
          ensures i <= Rank(r[j].unit) && r[j].count == CountAt(n, Rank(r[j].unit)) > 0
        {
          if j > 0 {
            assert r[j] == rest[j - 1];
          }
        }
      }
    }
  }

  /** Every part of `r` has rank at least `i`. */
  predicate RanksFrom(r: seq<Part>, i: nat) {
    forall j :: 0 <= j < |r| ==> i <= Rank(r[j].unit)
  }

  /** Every part of the reference list has rank at least `i`. */
  lemma {:induction false} ReferenceFromRanks(n: nat, i: nat)
    requires i <= |UNITS|
    ensures RanksFrom(ReferenceFrom(n, i), i)
    decreases |UNITS| - i
  {
    if i < |UNITS| {
      ReferenceFromRanks(n, i + 1);
      ReferenceFromStep(n, i);
      RankOfUnit(i);
      var rest, r := ReferenceFrom(n, i + 1), ReferenceFrom(n, i);
      if CountAt(n, i) > 0 {
        forall j | 0 < j < |r|
          ensures i <= Rank(r[j].unit)
        {
          assert r[j] == rest[j - 1];
        }
      }
    }
  }

  /** Ranks strictly increasing along the list. */
  predicate RanksIncrease(r: seq<Part>) {
    forall j, k :: 0 <= j < k < |r| ==> Rank(r[j].unit) < Rank(r[k].unit)
  }

  lemma ConsIncreases(p: Part, rest: seq<Part>)
    requires RanksIncrease(rest)
    requires forall j :: 0 <= j < |rest| ==> Rank(p.unit) < Rank(rest[j].unit)
    ensures RanksIncrease([p] + rest)
  {
    var r := [p] + rest;
    forall j, k | 0 <= j < k < |r|
      ensures Rank(r[j].unit) < Rank(r[k].unit)
    {
      assert r[k] == rest[k - 1];
      if j > 0 {
        assert r[j] == rest[j - 1];
      }
    }
  }

  /** The ranks in the reference list strictly increase. */
  lemma {:induction false} ReferenceFromOrdered(n: nat, i: nat)
    requires i <= |UNITS|
    ensures RanksIncrease(ReferenceFrom(n, i))
    decreases |UNITS| - i
  {
    if i < |UNITS| {
      ReferenceFromOrdered(n, i + 1);
      ReferenceFromRanks(n, i + 1);
      StepIncreases(i, CountAt(n, i), ReferenceFrom(n, i + 1));
    }
  }

  /** Putting unit `i` (if its count is positive) before parts of larger rank keeps ranks increasing. */
  lemma StepIncreases(i: nat, c: nat, rest: seq<Part>)
    requires i < |UNITS|
    requires RanksIncrease(rest)
    requires RanksFrom(rest, i + 1)
    ensures RanksIncrease((if c > 0 then [Part(UNITS[i], c)] else []) + rest)
  {
    if c > 0 {
      RankOfUnit(i);
      ConsIncreases(Part(UNITS[i], c), rest);
    } else {
      assert [] + rest == rest;
    }
  }

  /** Every unit from index `i` on with a positive closed-form count appears in the reference list. */
  lemma {:induction false} ReferenceFromComplete(n: nat, i: nat)
    requires i <= |UNITS|
    ensures var r := ReferenceFrom(n, i);
            forall u :: i <= Rank(u) && CountAt(n, Rank(u)) > 0 ==> exists j :: 0 <= j < |r| && r[j].unit == u
    decreases |UNITS| - i
  {
    if i < |UNITS| {
      ReferenceFromComplete(n, i + 1);
      ReferenceFromStep(n, i);
      var rest, r := ReferenceFrom(n, i + 1), ReferenceFrom(n, i);
      forall u | i <= Rank(u) && CountAt(n, Rank(u)) > 0
        ensures exists j :: 0 <= j < |r| && r[j].unit == u
      {
        if Rank(u) == i {
          assert r[0].unit == u;
        } else {
          var j :| 0 <= j < |rest| && rest[j].unit == u;
          if CountAt(n, i) > 0 {
            assert r[j + 1].unit == u;
          } else {
            assert r[j].unit == u;
          }
        }
      }
    }
  }

  /**
   * Every part has a positive count, the count of its unit in closed form, and that count is
   * below the number of such units in the next larger unit (60 seconds, 60 minutes, 24 hours,
   * 365 days).
   */
  lemma CountsInRange(n: nat)
    ensures forall p :: p in Decompose(n) ==>
              && 1 <= p.count
              && p.count == CountAt(n, Rank(p.unit))
              && (p.unit == Second ==> p.count < 60)
              && (p.unit == Minute ==> p.count < 60)
              && (p.unit == Hour ==> p.count < 24)
              && (p.unit == Day ==> p.count < 365)
  {
    DecomposeIsReference(n);
    ReferenceFromCounts(n, 0);
    forall p | p in Decompose(n)
      ensures p.count == CountAt(n, Rank(p.unit))
      ensures 1 <= p.count
      ensures p.unit == Second ==> p.count < 60
      ensures p.unit == Minute ==> p.count < 60
      ensures p.unit == Hour ==> p.count < 24
      ensures p.unit == Day ==> p.count < 365
    {
      CountAtBounds(n, Rank(p.unit));
    }
  }

  /** For a Java `int` input the year count is at most 68. */
  lemma YearsInInt32(n: Int32)
    requires n >= 0
    ensures forall p :: p in Decompose(n) && p.unit == Year ==> p.count <= 68
  {
    CountsInRange(n);
    var years := CountAt(n, 0);
    assert years == n / SECONDS_PER_YEAR;
    assert years <= 68 by {
      assert n < 69 * SECONDS_PER_YEAR;
    }
    forall p | p in Decompose(n) && p.unit == Year
      ensures p.count <= 68
    {
      assert Rank(p.unit) == 0;
    }
  }

  /** The parts come in strictly descending unit size: years, days, hours, minutes, seconds. */
  lemma DescendingUnits(n: nat)
    ensures var d := Decompose(n);
            forall j, k :: 0 <= j < k < |d| ==> d[j].unit.Seconds() > d[k].unit.Seconds()
  {
    DecomposeIsReference(n);
    ReferenceFromOrdered(n, 0);
  }

  /** A unit appears exactly when its closed-form count is positive: zero counts are omitted. */
  lemma OmitsExactlyZeroCounts(n: nat)
    ensures var d := Decompose(n);
            forall u :: (exists j :: 0 <= j < |d| && d[j].unit == u) <==> CountAt(n, Rank(u)) > 0
  {
    DecomposeIsReference(n);
    ReferenceFromCounts(n, 0);
    ReferenceFromComplete(n, 0);
  }
}
