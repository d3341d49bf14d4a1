/** The commit record the changelog pipeline consumes, and the calendar
    month a commit belongs to (src/lib/openai.ts:8-14, 32-33). */
module Commits {
  import opened Text

  type MonthNum = m: int | 1 <= m <= 12 witness 1
  type DayNum = d: int | 1 <= d <= 31 witness 1

  /** A JavaScript `Date` seen through the fields the source reads from it:
      the local calendar date (`getFullYear`, `getMonth() + 1`, `getDate`)
      and the epoch time in milliseconds (`getTime`). */
  datatype Instant = Instant(year: int, month: MonthNum, day: DayNum, millis: int)

  datatype Commit = Commit(
    sha: string,
    message: string,
    authorName: string,
    authorEmail: string,
    committedAt: Instant)

  /** A calendar month, the bucket key of the month grouping. */
  datatype MonthId = MonthId(year: int, month: MonthNum)

  function MonthOf(c: Commit): MonthId {
    MonthId(c.committedAt.year, c.committedAt.month)
  }

  /** `a` is a strictly later calendar month than `b`. */
  predicate Later(a: MonthId, b: MonthId) {
    a.year > b.year || (a.year == b.year && a.month > b.month)
  }

  /** The bucket key `${year}-${month padded to two digits}`. */
  function MonthKey(m: MonthId): string {
    IntToString(m.year) + "-" + Pad2(m.month)
  }

  predicate IsMonthKey(k: string) {
    && |k| >= 4
    && k[|k| - 3] == '-'
    && IsIntLiteral(k[..|k| - 3])
    && AllDigits(k[|k| - 2..])
    && 1 <= DigitsValue(k[|k| - 2..]) <= 12
  }

  /** Reads a month key back into the month it names. */
  function ParseMonthKey(k: string): MonthId
    requires IsMonthKey(k)
  {
    MonthId(ParseInt(k[..|k| - 3]), DigitsValue(k[|k| - 2..]))
  }

  /** Every key parses back to its month, so distinct months have distinct keys. */
  lemma MonthKeyRoundTrip(m: MonthId)
    ensures IsMonthKey(MonthKey(m)) && ParseMonthKey(MonthKey(m)) == m
  {
    var y, p := IntToString(m.year), Pad2(m.month);
    var k := MonthKey(m);
    IntRoundTrip(m.year);
    Pad2RoundTrip(m.month);
    assert k == y + "-" + p && |k| == |y| + 3;
    assert k[..|k| - 3] == y;
    assert k[|k| - 3] == '-';
    assert k[|k| - 2..] == p;
    assert IsMonthKey(k);
  }

  lemma MonthKeyInjective(a: MonthId, b: MonthId)
    ensures MonthKey(a) == MonthKey(b) <==> a == b
  {
    MonthKeyRoundTrip(a);
    MonthKeyRoundTrip(b);
  }

  // ---------------------------------------------------------------------------
  // The keys' string order agrees with calendar order for four-digit years.
  // ---------------------------------------------------------------------------

  /** Lexicographic order on strings of equal length. */
  predicate LexLess(a: string, b: string)
    requires |a| == |b|
    decreases |a|
  {
    |a| > 0 && (a[0] < b[0] || (a[0] == b[0] && LexLess(a[1..], b[1..])))
  }

  function Pow10(n: nat): (p: nat)
    ensures p >= 1
  {
    if n == 0 then 1 else 10 * Pow10(n - 1)
  }

  lemma {:induction false} LexConcat(x: string, y: string, x': string, y': string)
    requires |x| == |x'| && |y| == |y'|
    ensures LexLess(x + y, x' + y') <==> LexLess(x, x') || (x == x' && LexLess(y, y'))
    decreases |x|
  {
    if |x| > 0 {
      assert (x + y)[1..] == x[1..] + y;
      assert (x' + y')[1..] == x'[1..] + y';
      LexConcat(x[1..], y, x'[1..], y');
      if x[0] == x'[0] && x[1..] == x'[1..] {
        assert x == x';
      }
    } else {
      assert x + y == y && x' + y' == y';
    }
  }

  /** Appending a digit to a numeral with a leading digit `d`. */
  lemma ShiftDigit(d: int, p: int, r: int, e: int)
    ensures (d * p + r) * 10 + e == d * (10 * p) + (r * 10 + e)
  {
  }

  lemma {:induction false} DigitsValueFront(s: string)
    requires |s| > 0 && AllDigits(s)
    ensures DigitsValue(s) == (s[0] as int - '0' as int) * Pow10(|s| - 1) + DigitsValue(s[1..])
    decreases |s|
  {
    if |s| > 1 {
      var init := s[..|s| - 1];
      DigitsValueFront(init);
      assert init[1..] == s[1..][..|s[1..]| - 1];
      assert init[0] == s[0];
      ShiftDigit(s[0] as int - '0' as int, Pow10(|s| - 2), DigitsValue(init[1..]), s[|s| - 1] as int - '0' as int);
    }
  }

  lemma {:induction false} DigitsValueBound(s: string)
    requires AllDigits(s)
    ensures DigitsValue(s) < Pow10(|s|)
    decreases |s|
  {
    if s != [] {
      DigitsValueBound(s[..|s| - 1]);
    }
  }

  /** A smaller leading digit outweighs anything the lower digits contribute. */
  lemma LeadingDigitDominates(da: int, db: int, p: nat, ra: nat, rb: nat)
    requires 0 <= da < db && ra < p
    ensures da * p + ra < db * p + rb
  {
    calc {
      da * p + ra;
    <
      da * p + p;
    ==
      (da + 1) * p;
    <=  { assert da + 1 <= db; }
      db * p;
    }
  }

  /** For digit strings of equal length, string order is numeric order. */
  lemma {:induction false} DigitsLex(a: string, b: string)
    requires |a| == |b| && AllDigits(a) && AllDigits(b)
    ensures LexLess(a, b) <==> DigitsValue(a) < DigitsValue(b)
    decreases |a|
  {
    if |a| > 0 {
      var p := Pow10(|a| - 1);
      var da, db := a[0] as int - '0' as int, b[0] as int - '0' as int;
      var ra, rb := DigitsValue(a[1..]), DigitsValue(b[1..]);
      DigitsValueFront(a);
      DigitsValueFront(b);
      DigitsValueBound(a[1..]);
      DigitsValueBound(b[1..]);
      DigitsLex(a[1..], b[1..]);
      if da < db {
        LeadingDigitDominates(da, db, p, ra, rb);
      } else if db < da {
        LeadingDigitDominates(db, da, p, rb, ra);
      }
    }
  }

  lemma FourDigits(n: nat)
    requires 1000 <= n <= 9999
    ensures |NatToDigits(n)| == 4
  {
    var a := n / 10;
    var b := a / 10;
    var c := b / 10;
    assert 1 <= c <= 9;
    assert |NatToDigits(c)| == 1;
    assert |NatToDigits(b)| == 2;
    assert |NatToDigits(a)| == 3;
  }

  /** With four-digit years every key is seven characters `YYYY-MM`, and the
      descending string order of keys is the descending calendar order. */
  lemma MonthKeyOrder(a: MonthId, b: MonthId)
    requires 1000 <= a.year <= 9999 && 1000 <= b.year <= 9999
    ensures |MonthKey(a)| == 7 && |MonthKey(b)| == 7
    ensures LexLess(MonthKey(b), MonthKey(a)) <==> Later(a, b)
  {
    var ya, yb := NatToDigits(a.year), NatToDigits(b.year);
    FourDigits(a.year);
    FourDigits(b.year);
    Pad2RoundTrip(a.month);
    Pad2RoundTrip(b.month);
    DigitsRoundTrip(a.year);
    DigitsRoundTrip(b.year);
    assert MonthKey(a) == ya + ("-" + Pad2(a.month));
    assert MonthKey(b) == yb + ("-" + Pad2(b.month));
    LexConcat(yb, "-" + Pad2(b.month), ya, "-" + Pad2(a.month));
    LexConcat("-", Pad2(b.month), "-", Pad2(a.month));
    assert !LexLess("-", "-");
    DigitsLex(yb, ya);
    DigitsLex(Pad2(b.month), Pad2(a.month));
  }
}
