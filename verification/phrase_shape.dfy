/**
 * The textual shape of a joined phrase: it starts with a digit and ends with a letter (no
 * surrounding whitespace), " and " occurs only as the last separator, exactly once when there
 * are two or more fragments and never when there is one, and it is never preceded by a comma
 * (no serial comma).
 */
module PhraseShape {
  import opened Decimal
  import opened TimeFormatter
  import opened DurationPhrase

  /** A space is never directly followed by the letter 'a'. */
  predicate NoSpaceBeforeA(s: string) {
    forall i :: 0 <= i < |s| - 1 ==> s[i] == ' ' ==> s[i + 1] != 'a'
  }

  /** Text built from fragments: digit first, letter last, no space before an 'a'. */
  predicate IsChunk(s: string) {
    |s| >= 1 && IsDigit(s[0]) && IsLetter(s[|s| - 1]) && NoSpaceBeforeA(s)
  }

  /** " and " starts at index `i` of `s`. */
  predicate IsAndAt(s: string, i: int) {
    0 <= i && i + |LAST_SEPARATOR| <= |s| && s[i..i + |LAST_SEPARATOR|] == LAST_SEPARATOR
  }

  lemma AndStartsWithSpaceA(s: string, i: int)
    requires IsAndAt(s, i)
    ensures s[i] == ' ' && s[i + 1] == 'a'
  {
    assert s[i..i + |LAST_SEPARATOR|][0] == s[i];
    assert s[i..i + |LAST_SEPARATOR|][1] == s[i + 1];
  }

  /** Text without a space before an 'a' contains no " and ". */
  lemma NoAndInChunk(s: string)
    requires NoSpaceBeforeA(s)
    ensures forall i :: !IsAndAt(s, i)
  {
    forall i | IsAndAt(s, i) ensures false {
      AndStartsWithSpaceA(s, i);
    }
  }

  /** Every rendered fragment is a chunk: digits, one space, then a unit word that does not start with 'a'. */
  lemma FragmentIsChunk(u: TimeUnit, count: nat)
    ensures IsChunk(u.Format(count))
  {
    var digits := NatToString(count);
    var word := if count == 1 then u.Singular() else u.Singular() + "s";
    var f := u.Format(count);
    assert f == digits + " " + word;
    assert word[0] != 'a' by {
      assert word[0] == u.Singular()[0];
    }
    assert f[|f| - 1] == word[|word| - 1];
  }

  lemma ChunkComma(a: string, b: string)
    requires IsChunk(a) && IsChunk(b)
    ensures IsChunk(a + SEPARATOR + b)
  {
    var s := a + SEPARATOR + b;
    forall i | 0 <= i < |s| - 1 && s[i] == ' '
      ensures s[i + 1] != 'a'
    {
      if i < |a| - 1 {
        assert s[i] == a[i] && s[i + 1] == a[i + 1];
      } else if i == |a| + 1 {
        assert s[i + 1] == b[0];
      } else if i >= |a| + 2 {
        assert s[i] == b[i - |a| - 2] && s[i + 1] == b[i - |a| - 1];
      }
    }
  }

  lemma {:induction false} JoinIsChunk(xs: seq<string>)
    requires |xs| >= 1
    requires forall j :: 0 <= j < |xs| ==> IsChunk(xs[j])
    ensures IsChunk(Join(xs, SEPARATOR))
    decreases |xs|
  {
    if |xs| >= 2 {
      JoinIsChunk(xs[1..]);
      ChunkComma(xs[0], Join(xs[1..], SEPARATOR));
    }
  }

  /** Where " and " can stand in `a + " and " + b`: only between `a` and `b`. */
  lemma AndBetweenChunks(a: string, b: string)
    requires IsChunk(a) && IsChunk(b)
    ensures var s := a + LAST_SEPARATOR + b;
            IsAndAt(s, |a|) && s[|a| - 1] != ',' && forall i :: IsAndAt(s, i) ==> i == |a|
  {
    var s := a + LAST_SEPARATOR + b;
    assert s[|a|..|a| + |LAST_SEPARATOR|] == LAST_SEPARATOR;
    assert s[|a| - 1] == a[|a| - 1];
    forall i | IsAndAt(s, i)
      ensures i == |a|
    {
      AndStartsWithSpaceA(s, i);
    }
  }

  /**
   * Joining fragments: the result has no surrounding whitespace; with one fragment " and " does
   * not occur; with two or more it occurs exactly once, right after the comma-joined leading
   * fragments, and is not preceded by a comma.
   */
  lemma JoinShape(parts: seq<string>)
    requires |parts| >= 1
    requires forall j :: 0 <= j < |parts| ==> IsChunk(parts[j])
    ensures var r := JoinWithCommasAndAnd(parts);
            |r| >= 1 && IsDigit(r[0]) && IsLetter(r[|r| - 1])
    ensures var r := JoinWithCommasAndAnd(parts);
            var k := |Join(parts[..|parts| - 1], SEPARATOR)|;
            && (forall i :: IsAndAt(r, i) ==> |parts| >= 2 && i == k && r[i - 1] != ',')
            && (|parts| >= 2 ==> IsAndAt(r, k))
  {
    var n := |parts|;
    if n == 1 {
      NoAndInChunk(parts[0]);
    } else {
      var init := parts[..n - 1];
      JoinIsChunk(init);
      AndBetweenChunks(Join(init, SEPARATOR), parts[n - 1]);
    }
  }

  lemma RenderedAreChunks(ps: seq<Part>)
    ensures forall j :: 0 <= j < |ps| ==> IsChunk(Render(ps)[j])
  {
    RenderAt(ps);
    forall j | 0 <= j < |ps| ensures IsChunk(Render(ps)[j]) {
      FragmentIsChunk(ps[j].unit, ps[j].count);
    }
  }

  /**
   * The output for a positive input: no surrounding whitespace, at most one " and ", exactly
   * one when there are two or more parts, and never a comma directly before it.
   */
  lemma FormatDurationShape(seconds: Int32)
    requires seconds > 0
    ensures FormatDuration(seconds).Success?
    ensures var r := FormatDuration(seconds).value;
            && |r| >= 1 && IsDigit(r[0]) && IsLetter(r[|r| - 1])
            && (forall i, j :: IsAndAt(r, i) && IsAndAt(r, j) ==> i == j)
            && (forall i :: IsAndAt(r, i) ==> 0 < i && r[i - 1] != ',')
            && (|Decompose(seconds)| >= 2 <==> exists i :: IsAndAt(r, i))
  {
    var ps := Decompose(seconds);
    RenderedAreChunks(ps);
    JoinShape(Render(ps));
    var r := FormatDuration(seconds).value;
    if |ps| >= 2 {
      assert IsAndAt(r, |Join(Render(ps)[..|ps| - 1], SEPARATOR)|);
    }
  }
}
