/** Text handling of the input field: the comma normalisation applied on every
    edit, and the number recogniser applied on commit, which takes the leftmost
    match of the pattern -?\d+(\.\d+)? and reads it as an exact decimal. */
module Numerals {

  datatype Option<T> = None | Some(value: T)

  predicate IsDigit(c: char) { '0' <= c <= '9' }

  function DigitValue(c: char): (d: nat)
    requires IsDigit(c)
    ensures d < 10
  {
    c as int - '0' as int
  }

  predicate AllDigits(t: string) { forall k :: 0 <= k < |t| ==> IsDigit(t[k]) }

  // ---------------------------------------------------------------------------
  // Edit normalisation

  /** The staged text after an edit: the first comma becomes a period and every
      other character, later commas included, is kept. */
  function ReplaceFirstComma(t: string): (r: string)
    ensures |r| == |t|
    ensures forall k :: 0 <= k < |t| ==>
      r[k] == (if t[k] == ',' && ',' !in t[..k] then '.' else t[k])
  {
    if t == [] then []
    else if t[0] == ',' then "." + t[1..]
    else
      PrefixesOfTail(t);
      [t[0]] + ReplaceFirstComma(t[1..])
  }

  /** A prefix of t past its first character holds a comma exactly when the
      first character is one or the matching prefix of t[1..] holds one. */
  lemma PrefixesOfTail(t: string)
    requires t != []
    ensures forall k :: 1 <= k <= |t| ==> t[..k] == [t[0]] + t[1..][..k - 1]
  {
  }

  /** Text without a comma is stored verbatim. */
  lemma NoCommaVerbatim(t: string)
    requires ',' !in t
    ensures ReplaceFirstComma(t) == t
  {
    var r := ReplaceFirstComma(t);
    forall k | 0 <= k < |t| ensures r[k] == t[k] {
      assert t[k] != ',';
    }
  }

  /** Only the first comma is replaced: a comma after an earlier comma
      survives the edit. */
  lemma OnlyFirstCommaReplaced(t: string, i: nat, j: nat)
    requires i < j < |t| && t[i] == ',' && t[j] == ','
    ensures ReplaceFirstComma(t)[j] == ','
  {
    assert t[..j][i] == ',';
  }

  // ---------------------------------------------------------------------------
  // Reference recogniser: a finite automaton for -?\d+(\.\d+)?

  datatype State = Start | Sign | Whole | Point | Fraction | Dead

  function Step(q: State, c: char): State {
    match q
    case Start => if c == '-' then Sign else if IsDigit(c) then Whole else Dead
    case Sign => if IsDigit(c) then Whole else Dead
    case Whole => if IsDigit(c) then Whole else if c == '.' then Point else Dead
    case Point => if IsDigit(c) then Fraction else Dead
    case Fraction => if IsDigit(c) then Fraction else Dead
    case Dead => Dead
  }

  function Run(q: State, t: string): State
    decreases |t|
  {
    if t == [] then q else Run(Step(q, t[0]), t[1..])
  }

  /** t is, as a whole, a word of the pattern -?\d+(\.\d+)? */
  ghost predicate Accepts(t: string) {
    var q := Run(Start, t);
    q == Whole || q == Fraction
  }

  lemma {:induction false} RunConcat(q: State, a: string, b: string)
    ensures Run(q, a + b) == Run(Run(q, a), b)
    decreases |a|
  {
    if a == [] {
      assert a + b == b;
    } else {
      assert (a + b)[0] == a[0];
      assert (a + b)[1..] == a[1..] + b;
      RunConcat(Step(q, a[0]), a[1..], b);
    }
  }

  lemma RunSplit(q: State, s: string, i: nat, m: nat, j: nat)
    requires i <= m <= j <= |s|
    ensures Run(q, s[i..j]) == Run(Run(q, s[i..m]), s[m..j])
  {
    assert s[i..j] == s[i..m] + s[m..j];
    RunConcat(q, s[i..m], s[m..j]);
  }

  lemma RunFirst(q: State, s: string, i: nat, j: nat)
    requires i < j <= |s|
    ensures Run(q, s[i..j]) == Run(Step(q, s[i]), s[i + 1..j])
  {
    assert s[i..j][0] == s[i];
    assert s[i..j][1..] == s[i + 1..j];
  }

  lemma {:induction false} DeadStaysDead(t: string)
    ensures Run(Dead, t) == Dead
    decreases |t|
  {
    if t != [] {
      DeadStaysDead(t[1..]);
    }
  }

  /** Digits keep the automaton in either of its two digit-reading states. */
  lemma {:induction false} DigitsStay(q: State, s: string, i: nat, j: nat)
    requires q == Whole || q == Fraction
    requires i <= j <= |s|
    requires forall k :: i <= k < j ==> IsDigit(s[k])
    ensures Run(q, s[i..j]) == q
    decreases j - i
  {
    if i < j {
      RunFirst(q, s, i, j);
      DigitsStay(q, s, i + 1, j);
    }
  }

  /** Once the automaton is dead, no extension of the text is accepted. */
  lemma DeadAfter(s: string, i: nat, m: nat, j: nat)
    requires i <= m <= j <= |s|
    requires Run(Start, s[i..m]) == Dead
    ensures !Accepts(s[i..j])
  {
    RunSplit(Start, s, i, m, j);
    DeadStaysDead(s[m..j]);
  }

  // ---------------------------------------------------------------------------
  // The scanner

  /** A match of the pattern inside the scanned text: it spans s[start..end]
      and consists of an optional minus sign, the whole digits and, when
      present, a period and the fraction digits. */
  datatype Match = Match(start: nat, end: nat, negative: bool, whole: string, fraction: string) {

    ghost predicate Valid() {
      whole != [] && AllDigits(whole) && AllDigits(fraction)
    }

    function Text(): string {
      (if negative then "-" else "") + whole + (if fraction == [] then "" else "." + fraction)
    }

    function Magnitude(): real
      requires Valid()
    {
      DigitsValue(whole) as real + DigitsValue(fraction) as real / Pow10(|fraction|) as real
    }

    /** The exact value parseFloat reads from the matched text. */
    function Value(): real
      requires Valid()
    {
      if negative then -Magnitude() else Magnitude()
    }
  }

  /** A match begins at position i: a digit, or a minus sign before a digit. */
  predicate StartsAt(s: string, i: nat) {
    i < |s| && (IsDigit(s[i]) || (s[i] == '-' && i + 1 < |s| && IsDigit(s[i + 1])))
  }

  /** The end of the longest run of digits that begins at i. */
  function DigitRun(s: string, i: nat): (j: nat)
    requires i <= |s|
    ensures i <= j <= |s|
    ensures forall k :: i <= k < j ==> IsDigit(s[k])
    ensures j == |s| || !IsDigit(s[j])
    decreases |s| - i
  {
    if i < |s| && IsDigit(s[i]) then DigitRun(s, i + 1) else i
  }

  /** The match that begins at i: greedy on the sign, the whole digits and the
      optional fraction, which is the order a backtracking matcher tries. */
  function MatchAt(s: string, i: nat): (m: Match)
    requires StartsAt(s, i)
    ensures m.start == i && i < m.end <= |s|
    ensures m.Valid()
    ensures s[i..m.end] == m.Text()
  {
    var negative := s[i] == '-';
    var d := if negative then i + 1 else i;
    var k := DigitRun(s, d);
    if k + 1 < |s| && s[k] == '.' && IsDigit(s[k + 1]) then
      var e := DigitRun(s, k + 1);
      SignSlice(s, i, d);
      FractionSlices(s, i, d, k, e);
      Match(i, e, negative, s[d..k], s[k + 1..e])
    else
      SignSlice(s, i, d);
      WholeSlices(s, i, d, k);
      Match(i, k, negative, s[d..k], [])
  }

  lemma SignSlice(s: string, i: nat, d: nat)
    requires i < |s| && d == (if s[i] == '-' then i + 1 else i)
    ensures s[i..d] == if s[i] == '-' then "-" else ""
  {
  }

  lemma WholeSlices(s: string, i: nat, d: nat, k: nat)
    requires i <= d <= k <= |s|
    ensures s[i..k] == s[i..d] + s[d..k] + ""
  {
    assert s[i..d] + s[d..k] + "" == s[i..d] + s[d..k];
  }

  lemma FractionSlices(s: string, i: nat, d: nat, k: nat, e: nat)
    requires i <= d <= k < e <= |s| && s[k] == '.'
    ensures s[i..e] == s[i..d] + s[d..k] + ("." + s[k + 1..e])
  {
    assert s[k..e] == "." + s[k + 1..e];
    assert s[i..e] == s[i..d] + s[d..k] + s[k..e];
  }

  /** The sign and the whole digits of a match leave the automaton in Whole. */
  lemma WholePartRun(s: string, i: nat)
    requires StartsAt(s, i)
    ensures var d := if s[i] == '-' then i + 1 else i;
      Run(Start, s[i..DigitRun(s, d)]) == Whole
  {
    var d := if s[i] == '-' then i + 1 else i;
    var k := DigitRun(s, d);
    RunFirst(Start, s, i, d + 1);
    if s[i] == '-' {
      RunFirst(Sign, s, i + 1, d + 1);
    }
    DigitsStay(Whole, s, d + 1, k);
    RunSplit(Start, s, i, d + 1, k);
  }

  /** After the fraction digits, every extension is rejected. */
  lemma FractionEnds(s: string, i: nat, k: nat)
    requires i <= k && k + 1 < |s| && s[k] == '.' && IsDigit(s[k + 1])
    requires Run(Start, s[i..k]) == Whole
    ensures Run(Start, s[i..DigitRun(s, k + 1)]) == Fraction
    ensures forall j :: DigitRun(s, k + 1) < j <= |s| ==> !Accepts(s[i..j])
  {
    var e := DigitRun(s, k + 1);
    RunFirst(Whole, s, k, e);
    RunFirst(Point, s, k + 1, e);
    DigitsStay(Fraction, s, k + 2, e);
    RunSplit(Start, s, i, k, e);
    forall j | e < j <= |s| ensures !Accepts(s[i..j]) {
      RunFirst(Fraction, s, e, e + 1);
      RunSplit(Start, s, i, e, e + 1);
      DeadAfter(s, i, e + 1, j);
    }
  }

  /** Without a fraction, every extension of the whole digits is rejected. */
  lemma WholeEnds(s: string, i: nat, k: nat)
    requires i <= k <= |s| && (k == |s| || !IsDigit(s[k]))
    requires !(k + 1 < |s| && s[k] == '.' && IsDigit(s[k + 1]))
    requires Run(Start, s[i..k]) == Whole
    ensures forall j :: k < j <= |s| ==> !Accepts(s[i..j])
  {
    forall j | k < j <= |s| ensures !Accepts(s[i..j]) {
      RunFirst(Whole, s, k, k + 1);
      RunSplit(Start, s, i, k, k + 1);
      if s[k] == '.' {
        if j == k + 1 {
          assert Run(Start, s[i..j]) == Point;
        } else {
          RunFirst(Point, s, k + 1, k + 2);
          RunSplit(Start, s, i, k + 1, k + 2);
          DeadAfter(s, i, k + 2, j);
        }
      } else {
        DeadAfter(s, i, k + 1, j);
      }
    }
  }

  /** The match found at i is a word of the pattern and no longer prefix of
      s[i..] is. */
  lemma MatchAtIsLongest(s: string, i: nat)
    requires StartsAt(s, i)
    ensures Accepts(s[i..MatchAt(s, i).end])
    ensures forall j :: MatchAt(s, i).end < j <= |s| ==> !Accepts(s[i..j])
  {
    var d := if s[i] == '-' then i + 1 else i;
    var k := DigitRun(s, d);
    WholePartRun(s, i);
    if k + 1 < |s| && s[k] == '.' && IsDigit(s[k + 1]) {
      assert MatchAt(s, i).end == DigitRun(s, k + 1);
      FractionEnds(s, i, k);
    } else {
      assert MatchAt(s, i).end == k;
      WholeEnds(s, i, k);
    }
  }

  /** Where no match begins, no word of the pattern begins either. */
  lemma NoMatchAt(s: string, i: nat)
    requires i <= |s| && !StartsAt(s, i)
    ensures forall j :: i <= j <= |s| ==> !Accepts(s[i..j])
  {
    forall j | i <= j <= |s| ensures !Accepts(s[i..j]) {
      if j == i {
        assert s[i..j] == [];
      } else {
        RunFirst(Start, s, i, i + 1);
        if s[i] == '-' {
          if j == i + 1 {
            assert Run(Start, s[i..j]) == Sign;
          } else {
            RunFirst(Sign, s, i + 1, i + 2);
            RunSplit(Start, s, i, i + 1, i + 2);
            DeadAfter(s, i, i + 2, j);
          }
        } else {
          DeadAfter(s, i, i + 1, j);
        }
      }
    }
  }

  /** The leftmost match that begins at or after i. */
  function FindFrom(s: string, i: nat): (r: Option<Match>)
    requires i <= |s|
    ensures r.None? ==> forall a, b :: i <= a <= b <= |s| ==> !Accepts(s[a..b])
    ensures r.Some? ==>
      var m := r.value;
      && i <= m.start < m.end <= |s| && m.Valid() && s[m.start..m.end] == m.Text()
      && Accepts(s[m.start..m.end])
      && (forall a, b :: i <= a < m.start && a <= b <= |s| ==> !Accepts(s[a..b]))
      && (forall b :: m.end < b <= |s| ==> !Accepts(s[m.start..b]))
    decreases |s| - i
  {
    if i == |s| then
      NoMatchAt(s, i);
      None
    else if StartsAt(s, i) then
      MatchAtIsLongest(s, i);
      Some(MatchAt(s, i))
    else
      NoMatchAt(s, i);
      FindFrom(s, i + 1)
  }

  /** String.prototype.match with -?\d+(\.\d+)?: the match that starts
      leftmost, and among the matches there the longest; none exactly when no
      piece of the text is a word of the pattern. */
  function FirstMatch(s: string): (r: Option<Match>)
    ensures r.None? <==> forall a, b :: 0 <= a <= b <= |s| ==> !Accepts(s[a..b])
    ensures r.Some? ==>
      var m := r.value;
      && m.start < m.end <= |s| && m.Valid() && s[m.start..m.end] == m.Text()
      && Accepts(s[m.start..m.end])
      && (forall a, b :: 0 <= a < m.start && a <= b <= |s| ==> !Accepts(s[a..b]))
      && (forall b :: m.end < b <= |s| ==> !Accepts(s[m.start..b]))
  {
    FindFrom(s, 0)
  }

  /** The number a commit reads from the staged text: the value of the first
      match, or 0 when there is none. */
  function ParsedNumber(s: string): (x: real)
    ensures (forall a, b :: 0 <= a <= b <= |s| ==> !Accepts(s[a..b])) ==> x == 0.0
    ensures FirstMatch(s).Some? && !FirstMatch(s).value.negative ==> x >= 0.0
    ensures FirstMatch(s).Some? && FirstMatch(s).value.negative ==> x <= 0.0
    ensures FirstMatch(s).Some? ==> x == FirstMatch(s).value.Value()
  {
    match FirstMatch(s)
    case None => 0.0
    case Some(m) => m.Value()
  }

  /** A text that starts with a match is read from that match. */
  lemma ReadsFromStart(s: string)
    requires StartsAt(s, 0)
    ensures ParsedNumber(s) == MatchAt(s, 0).Value()
  {
  }

  /** A maximal run of digits from i to j is what DigitRun finds. */
  lemma DigitRunSpans(s: string, i: nat, j: nat)
    requires i <= j <= |s|
    requires forall k :: i <= k < j ==> IsDigit(s[k])
    requires j == |s| || !IsDigit(s[j])
    ensures DigitRun(s, i) == j
  {
  }

  /** The match of a run of digits is the whole run. */
  lemma MatchOfDigits(ds: string)
    requires ds != [] && AllDigits(ds)
    ensures StartsAt(ds, 0) && MatchAt(ds, 0) == Match(0, |ds|, false, ds, [])
  {
    DigitRunSpans(ds, 0, |ds|);
    assert ds[0..|ds|] == ds;
  }

  /** Without fraction digits the magnitude is the value of the whole digits. */
  lemma NoFractionMagnitude(m: Match)
    requires m.Valid() && m.fraction == []
    ensures m.Magnitude() == DigitsValue(m.whole) as real
  {
    var z := DigitsValue(m.fraction) as real;
    var p := Pow10(|m.fraction|) as real;
    assert z == 0.0 && p == 1.0;
    assert z / p == 0.0;
  }

  /** A run of digits is read as its value. */
  lemma ReadsDigits(ds: string)
    requires ds != [] && AllDigits(ds)
    ensures ParsedNumber(ds) == DigitsValue(ds) as real
  {
    MatchOfDigits(ds);
    ReadsFromStart(ds);
    var m := Match(0, |ds|, false, ds, []);
    NoFractionMagnitude(m);
  }

  /** The match of a minus sign and a run of digits is all of it. */
  lemma MatchOfNegative(ds: string)
    requires ds != [] && AllDigits(ds)
    ensures StartsAt("-" + ds, 0) && MatchAt("-" + ds, 0) == Match(0, |ds| + 1, true, ds, [])
  {
    var s := "-" + ds;
    assert forall k :: 1 <= k < |s| ==> s[k] == ds[k - 1];
    DigitRunSpans(s, 1, |s|);
    assert s[1..|s|] == ds;
  }

  /** A minus sign before a run of digits is read as the negated value. */
  lemma ReadsNegativeDigits(ds: string)
    requires ds != [] && AllDigits(ds)
    ensures ParsedNumber("-" + ds) == -(DigitsValue(ds) as real)
  {
    MatchOfNegative(ds);
    ReadsFromStart("-" + ds);
    NoFractionMagnitude(Match(0, |ds| + 1, true, ds, []));
  }

  /** The match of whole digits, a period and fraction digits ends before a
      tail that does not start with a digit. */
  lemma MatchOfDecimal(w: string, f: string, rest: string)
    requires w != [] && AllDigits(w) && f != [] && AllDigits(f)
    requires rest == [] || !IsDigit(rest[0])
    ensures StartsAt(w + "." + f + rest, 0)
    ensures MatchAt(w + "." + f + rest, 0) == Match(0, |w| + 1 + |f|, false, w, f)
  {
    var s := w + "." + f + rest;
    var k := |w|;
    assert forall j :: 0 <= j < k ==> s[j] == w[j];
    assert s[k] == '.';
    assert forall j :: k + 1 <= j < k + 1 + |f| ==> s[j] == f[j - k - 1];
    assert k + 1 + |f| < |s| ==> s[k + 1 + |f|] == rest[0];
    DigitRunSpans(s, 0, k);
    DigitRunSpans(s, k + 1, k + 1 + |f|);
    assert s[0..k] == w;
    assert s[k + 1..k + 1 + |f|] == f;
  }

  /** Whole digits, a period and fraction digits, followed by anything that
      does not start with a digit, are read as the decimal they spell. */
  lemma ReadsDecimal(w: string, f: string, rest: string)
    requires w != [] && AllDigits(w) && f != [] && AllDigits(f)
    requires rest == [] || !IsDigit(rest[0])
    ensures ParsedNumber(w + "." + f + rest) ==
      DigitsValue(w) as real + DigitsValue(f) as real / Pow10(|f|) as real
  {
    var s := w + "." + f + rest;
    MatchOfDecimal(w, f, rest);
    ReadsFromStart(s);
    var m := MatchAt(s, 0);
    assert m.Value() == m.Magnitude();
  }

  // ---------------------------------------------------------------------------
  // Decimal values

  function Pow10(n: nat): (p: nat)
    ensures p >= 1
  {
    if n == 0 then 1 else 10 * Pow10(n - 1)
  }

  /** The value of a string of decimal digits, most significant first. */
  function DigitsValue(ds: string): nat
    requires AllDigits(ds)
  {
    if ds == [] then 0 else DigitsValue(ds[..|ds| - 1]) * 10 + DigitValue(ds[|ds| - 1])
  }

  lemma {:induction false} DigitsBelowPow10(ds: string)
    requires AllDigits(ds)
    ensures DigitsValue(ds) < Pow10(|ds|)
    decreases |ds|
  {
    if ds != [] {
      DigitsBelowPow10(ds[..|ds| - 1]);
    }
  }

  /** A proper fraction of a positive denominator lies in [0, 1). */
  lemma ProperFraction(f: real, p: real)
    requires 0.0 <= f < p
    ensures 0.0 <= f / p < 1.0
  {
    var q := f / p;
    assert q * p == f;
    assert (1.0 - q) * p == p - f;
  }

  /** The whole digits are the integer part of the matched magnitude: the
      fraction digits contribute less than one. */
  lemma MagnitudeBounds(m: Match)
    requires m.Valid()
    ensures DigitsValue(m.whole) as real <= m.Magnitude() < DigitsValue(m.whole) as real + 1.0
    ensures m.Magnitude().Floor == DigitsValue(m.whole)
  {
    DigitsBelowPow10(m.fraction);
    ProperFraction(DigitsValue(m.fraction) as real, Pow10(|m.fraction|) as real);
  }
}
