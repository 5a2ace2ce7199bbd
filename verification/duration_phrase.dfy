/**
 * Reading a formatted phrase back. The parser is the inverse of the formatter: it recovers the
 * parts from the text, so the counts printed in the output, times their unit sizes, add back
 * up to the input. The module also states the textual shape of the joined phrase.
 */
module DurationPhrase {
  import opened Wrappers
  import opened Decimal
  import opened TimeFormatter
  import opened Decomposition

  predicate IsLetter(c: char) {
    'a' <= c <= 'z'
  }

  predicate AllLetters(s: string) {
    forall i :: 0 <= i < |s| ==> IsLetter(s[i])
  }

  predicate StartsWith(s: string, prefix: string) {
    |prefix| <= |s| && s[..|prefix|] == prefix
  }

  /** The length of the longest prefix of `s` made of digits. */
  function SpanDigits(s: string): (k: nat)
    ensures k <= |s| && AllDigits(s[..k])
    ensures k < |s| ==> !IsDigit(s[k])
    decreases |s|
  {
    if |s| > 0 && IsDigit(s[0]) then 1 + SpanDigits(s[1..]) else 0
  }

  /** The length of the longest prefix of `s` made of lower-case letters. */
  function SpanLetters(s: string): (k: nat)
    ensures k <= |s| && AllLetters(s[..k])
    ensures k < |s| ==> !IsLetter(s[k])
    decreases |s|
  {
    if |s| > 0 && IsLetter(s[0]) then 1 + SpanLetters(s[1..]) else 0
  }

  /** The unit whose singular name is `name`, if any. */
  function UnitNamed(name: string): (u: Option<TimeUnit>)
    ensures u.Some? ==> u.value.Singular() == name
  {
    if name == Year.Singular() then Some(Year)
    else if name == Day.Singular() then Some(Day)
    else if name == Hour.Singular() then Some(Hour)
    else if name == Minute.Singular() then Some(Minute)
    else if name == Second.Singular() then Some(Second)
    else None
  }

  /** The unit a word names, given the count before it: singular for 1, plural otherwise. */
  function UnitOfWord(word: string, count: nat): Option<TimeUnit> {
    if count == 1 then UnitNamed(word)
    else if |word| >= 1 && word[|word| - 1] == 's' then UnitNamed(word[..|word| - 1])
    else None
  }

  /** Reads the word after a count from the front of `s`; returns the part and the rest. */
  function ParseUnitWord(count: nat, s: string): (r: Option<(Part, string)>)
    ensures r.Some? ==> |r.value.1| <= |s| && s[|s| - |r.value.1|..] == r.value.1
  {
    var m := SpanLetters(s);
    match UnitOfWord(s[..m], count)
    case None => None
    case Some(u) => Some((Part(u, count), s[m..]))
  }

  /** Reads one fragment "<digits> <word>" from the front of `s`; returns the part and the rest. */
  function ParseFragment(s: string): (r: Option<(Part, string)>)
    ensures r.Some? ==> |r.value.1| < |s| && s[|s| - |r.value.1|..] == r.value.1
  {
    var k := SpanDigits(s);
    if k == 0 || k == |s| || s[k] != ' ' then None
    else ParseUnitWord(DigitsValue(s[..k]), s[k + 1..])
  }

  /**
   * Reads a whole phrase: one fragment, or fragments separated by ", " with " and " before the
   * last one (no comma before "and").
   */
  function ParsePhrase(s: string): (r: Option<seq<Part>>)
    ensures r.Some? ==> |r.value| >= 1
    decreases |s|, 1
  {
    match ParseFragment(s)
    case None => None
    case Some((p, rest)) => ParseAfterFragment(p, rest)
  }

  /** What may follow a fragment `p`: the end, " and " and a final fragment, or ", " and a phrase of two or more. */
  function ParseAfterFragment(p: Part, rest: string): (r: Option<seq<Part>>)
    ensures r.Some? ==> |r.value| >= 1 && r.value[0] == p
    decreases |rest|, 0
  {
    if rest == [] then Some([p])
    else if StartsWith(rest, LAST_SEPARATOR) then
      match ParseFragment(rest[|LAST_SEPARATOR|..])
      case Some((q, tail)) => if tail == [] then Some([p, q]) else None
      case None => None
    else if StartsWith(rest, SEPARATOR) then
      match ParsePhrase(rest[|SEPARATOR|..])
      case Some(ps) => if |ps| >= 2 then Some([p] + ps) else None
      case None => None
    else None
  }

  /** Reads back a formatted duration as a number of seconds. */
  function ParseDuration(text: string): Option<nat> {
    match ParsePhrase(text)
    case Some(parts) => Some(Total(parts))
    case None => if text == NOW then Some(0) else None
  }

  lemma {:induction false} SpanDigitsOfConcat(a: string, b: string)
    requires AllDigits(a) && (b == [] || !IsDigit(b[0]))
    ensures SpanDigits(a + b) == |a|
  {
    if a != [] {
      assert (a + b)[1..] == a[1..] + b;
      SpanDigitsOfConcat(a[1..], b);
    }
  }

  lemma {:induction false} SpanLettersOfConcat(a: string, b: string)
    requires AllLetters(a) && (b == [] || !IsLetter(b[0]))
    ensures SpanLetters(a + b) == |a|
  {
    if a != [] {
      assert (a + b)[1..] == a[1..] + b;
      SpanLettersOfConcat(a[1..], b);
    }
  }

  lemma UnitOfWordRoundTrip(u: TimeUnit, count: nat)
    ensures var word := if count == 1 then u.Singular() else u.Singular() + "s";
            UnitOfWord(word, count) == Some(u)
  {
    var word := if count == 1 then u.Singular() else u.Singular() + "s";
    if count != 1 {
      assert word[..|word| - 1] == u.Singular();
    }
  }

  /** Reading "<digits> <word>" followed by a non-letter consumes exactly the digits, the space and the word. */
  lemma ParseFragmentOf(digits: string, word: string, tail: string)
    requires |digits| >= 1 && AllDigits(digits) && AllLetters(word)
    requires tail == [] || !IsLetter(tail[0])
    ensures ParseFragment(digits + " " + word + tail) == ParseUnitWord(DigitsValue(digits), word + tail)
  {
    var rest := " " + (word + tail);
    var s := digits + rest;
    assert digits + " " + word + tail == s;
    SpanDigitsOfConcat(digits, rest);
    var k := |digits|;
    assert s[k] == rest[0] == ' ';
    assert s[..k] == digits;
    assert s[k + 1..] == rest[1..] == word + tail;
  }

  lemma ParseUnitWordOf(count: nat, word: string, tail: string)
    requires AllLetters(word)
    requires tail == [] || !IsLetter(tail[0])
    ensures ParseUnitWord(count, word + tail) ==
              match UnitOfWord(word, count)
              case None => None
              case Some(u) => Some((Part(u, count), tail))
  {
    SpanLettersOfConcat(word, tail);
    assert (word + tail)[..|word|] == word;
    assert (word + tail)[|word|..] == tail;
  }

  /** A fragment followed by anything that does not continue its word reads back as its part. */
  lemma FragmentRoundTrip(p: Part, tail: string)
    requires tail == [] || !IsLetter(tail[0])
    ensures ParseFragment(p.unit.Format(p.count) + tail) == Some((p, tail))
  {
    var digits := NatToString(p.count);
    var word := if p.count == 1 then p.unit.Singular() else p.unit.Singular() + "s";
    assert p.unit.Format(p.count) == digits + " " + word;
    ParseFragmentOf(digits, word, tail);
    ParseUnitWordOf(p.count, word, tail);
    NatToStringRoundTrip(p.count);
    UnitOfWordRoundTrip(p.unit, p.count);
  }

  /** From three fragments on, the joined phrase is the first fragment, ", " and the joined rest. */
  lemma JoinStep(parts: seq<string>)
    requires |parts| >= 3
    ensures JoinWithCommasAndAnd(parts) == parts[0] + SEPARATOR + JoinWithCommasAndAnd(parts[1..])
  {
    var n := |parts|;
    assert parts[..n - 1][1..] == parts[1..][..n - 2];
  }

  lemma {:induction false} ParsePhraseSingle(p: Part)
    ensures ParsePhrase(p.unit.Format(p.count)) == Some([p])
  {
    var f := p.unit.Format(p.count);
    FragmentRoundTrip(p, []);
    assert f + [] == f;
  }

  lemma {:induction false} ParsePhrasePair(p: Part, q: Part)
    ensures ParsePhrase(p.unit.Format(p.count) + LAST_SEPARATOR + q.unit.Format(q.count)) == Some([p, q])
  {
    var f, g := p.unit.Format(p.count), q.unit.Format(q.count);
    var tail := LAST_SEPARATOR + g;
    assert f + LAST_SEPARATOR + g == f + tail;
    assert tail[0] == ' ';
    FragmentRoundTrip(p, tail);
    AfterAnd(p, q);
  }

  /** After a fragment, " and " and a final fragment complete a phrase of two. */
  lemma AfterAnd(p: Part, q: Part)
    ensures ParseAfterFragment(p, LAST_SEPARATOR + q.unit.Format(q.count)) == Some([p, q])
  {
    var g := q.unit.Format(q.count);
    var tail := LAST_SEPARATOR + g;
    assert tail[..|LAST_SEPARATOR|] == LAST_SEPARATOR;
    assert tail[|LAST_SEPARATOR|..] == g + [];
    FragmentRoundTrip(q, []);
  }

  lemma CommaTail(rest: string)
    ensures var tail := SEPARATOR + rest;
            StartsWith(tail, SEPARATOR) && tail[|SEPARATOR|..] == rest && !StartsWith(tail, LAST_SEPARATOR)
  {
    var tail := SEPARATOR + rest;
    assert tail[..|SEPARATOR|] == SEPARATOR;
    if |tail| >= |LAST_SEPARATOR| {
      assert tail[..|LAST_SEPARATOR|][0] == ',';
    }
  }

  lemma AfterComma(p: Part, rest: string, ps: seq<Part>)
    requires ParsePhrase(rest) == Some(ps) && |ps| >= 2
    ensures ParseAfterFragment(p, SEPARATOR + rest) == Some([p] + ps)
  {
    CommaTail(rest);
  }

  lemma {:induction false} ParsePhraseCons(p: Part, rest: string, ps: seq<Part>)
    requires ParsePhrase(rest) == Some(ps) && |ps| >= 2
    ensures ParsePhrase(p.unit.Format(p.count) + SEPARATOR + rest) == Some([p] + ps)
  {
    var f := p.unit.Format(p.count);
    var tail := SEPARATOR + rest;
    assert f + SEPARATOR + rest == f + tail;
    FragmentRoundTrip(p, tail);
    AfterComma(p, rest, ps);
  }

  /** One rendered part joins to its fragment. */
  lemma JoinRenderedOne(p: Part)
    ensures JoinWithCommasAndAnd(Render([p])) == p.unit.Format(p.count)
  {
    RenderCons(p, []);
  }

  /** Two rendered parts join to their fragments around " and ". */
  lemma JoinRenderedTwo(p: Part, q: Part)
    ensures JoinWithCommasAndAnd(Render([p, q])) == p.unit.Format(p.count) + LAST_SEPARATOR + q.unit.Format(q.count)
  {
    RenderCons(q, []);
    RenderCons(p, [q]);
    assert [p] + [q] == [p, q];
    var r := Render([p, q]);
    assert r[..1] == [p.unit.Format(p.count)];
  }

  /** From three parts on, the joined phrase is the first fragment, ", " and the joined rest. */
  lemma JoinRenderedMany(ps: seq<Part>)
    requires |ps| >= 3
    ensures JoinWithCommasAndAnd(Render(ps)) == ps[0].unit.Format(ps[0].count) + SEPARATOR + JoinWithCommasAndAnd(Render(ps[1..]))
  {
    var r, rest := Render(ps), Render(ps[1..]);
    assert r == [ps[0].unit.Format(ps[0].count)] + rest;
    assert r[1..] == rest;
    JoinStep(r);
  }

  lemma {:induction false} RoundTripOfMany(ps: seq<Part>)
    requires |ps| >= 3
    requires ParsePhrase(JoinWithCommasAndAnd(Render(ps[1..]))) == Some(ps[1..])
    ensures ParsePhrase(JoinWithCommasAndAnd(Render(ps))) == Some(ps)
  {
    var tail := ps[1..];
    assert [ps[0]] + tail == ps;
    JoinRenderedMany(ps);
    ParsePhraseCons(ps[0], JoinWithCommasAndAnd(Render(tail)), tail);
  }

  lemma {:induction false} RoundTripOfOne(ps: seq<Part>)
    requires |ps| == 1
    ensures ParsePhrase(JoinWithCommasAndAnd(Render(ps))) == Some(ps)
  {
    assert ps == [ps[0]];
    JoinRenderedOne(ps[0]);
    ParsePhraseSingle(ps[0]);
  }

  lemma {:induction false} RoundTripOfTwo(ps: seq<Part>)
    requires |ps| == 2
    ensures ParsePhrase(JoinWithCommasAndAnd(Render(ps))) == Some(ps)
  {
    assert ps == [ps[0], ps[1]];
    JoinRenderedTwo(ps[0], ps[1]);
    ParsePhrasePair(ps[0], ps[1]);
  }

  /** Parsing inverts joining: the rendered parts, joined, read back as the same parts. */
  lemma {:induction false} PhraseRoundTrip(ps: seq<Part>)
    requires |ps| >= 1
    ensures ParsePhrase(JoinWithCommasAndAnd(Render(ps))) == Some(ps)
    decreases |ps|
  {
    if |ps| == 1 {
      RoundTripOfOne(ps);
    } else if |ps| == 2 {
      RoundTripOfTwo(ps);
    } else {
      PhraseRoundTrip(ps[1..]);
      RoundTripOfMany(ps);
    }
  }

  /**
   * The round trip of the whole formatter: every non-negative input is formatted without error,
   * and reading the output back gives the input.
   */
  lemma FormatDurationRoundTrip(seconds: Int32)
    requires seconds >= 0
    ensures FormatDuration(seconds).Success?
    ensures ParseDuration(FormatDuration(seconds).value) == Some(seconds as nat)
  {
    if seconds == 0 {
      assert SpanDigits(NOW) == 0;
    } else {
      PhraseRoundTrip(Decompose(seconds));
      Conservation(seconds);
    }
  }

  /** Different non-negative inputs are formatted differently. */
  lemma FormatDurationInjective(m: Int32, n: Int32)
    requires m >= 0 && n >= 0
    requires FormatDuration(m) == FormatDuration(n)
    ensures m == n
  {
    FormatDurationRoundTrip(m);
    FormatDurationRoundTrip(n);
  }

  /**
   * A negative input fails with exactly "Duration cannot be negative: " followed by Java's
   * numeral for the input: a minus sign, then digits without a leading zero that read back as
   * the input.
   */
  lemma NegativeRejected(seconds: Int32)
    requires seconds < 0
    ensures FormatDuration(seconds).Failure?
    ensures var message := FormatDuration(seconds).error.message;
            && message == NEGATIVE_MESSAGE + IntToString(seconds)
            && StartsWith(message, NEGATIVE_MESSAGE)
            && var numeral := message[|NEGATIVE_MESSAGE|..];
            && |numeral| >= 2 && numeral[0] == '-' && AllDigits(numeral[1..]) && numeral[1] != '0'
            && ParseInt(numeral) == Some(seconds as int)
  {
    var message := FormatDuration(seconds).error.message;
    assert message[..|NEGATIVE_MESSAGE|] == NEGATIVE_MESSAGE;
    assert message[|NEGATIVE_MESSAGE|..] == IntToString(seconds);
    IntToStringRoundTrip(seconds);
  }
}
