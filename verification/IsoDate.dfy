/**
 * Deadlines in the extended calendar-date format `yyyy-MM-dd` of ISO 8601
 * (section 4.1.2.2 of ISO 8601:2004, "calendar date, complete
 * representation, extended format"). Because every field has a fixed width,
 * comparing two such dates as strings compares them as dates.
 */
module IsoDate {
  import opened PyStr

  predicate IsDigit(c: char) {
    '0' <= c <= '9'
  }

  /** Four year digits, hyphen, two month digits, hyphen, two day digits. */
  predicate IsIsoDate(d: string) {
    |d| == 10 && d[4] == '-' && d[7] == '-'
    && forall i :: 0 <= i < 10 && i != 4 && i != 7 ==> IsDigit(d[i])
  }

  /** The value of a decimal digit; other characters weigh nothing. */
  function Digit(c: char): nat {
    if IsDigit(c) then c as int - '0' as int else 0
  }

  function Year(d: string): nat
    requires IsIsoDate(d)
  {
    1000 * Digit(d[0]) + 100 * Digit(d[1]) + 10 * Digit(d[2]) + Digit(d[3])
  }

  function Month(d: string): nat
    requires IsIsoDate(d)
  {
    10 * Digit(d[5]) + Digit(d[6])
  }

  function Day(d: string): nat
    requires IsIsoDate(d)
  {
    10 * Digit(d[8]) + Digit(d[9])
  }

  /** Date `a` is on or before date `b`, comparing year, then month, then day. */
  predicate OnOrBefore(a: string, b: string)
    requires IsIsoDate(a) && IsIsoDate(b)
  {
    Year(a) < Year(b)
    || (Year(a) == Year(b) && (Month(a) < Month(b) || (Month(a) == Month(b) && Day(a) <= Day(b))))
  }

  /** String order on `yyyy-MM-dd` dates is chronological order. */
  lemma StrLeIsChronological(a: string, b: string)
    requires IsIsoDate(a) && IsIsoDate(b)
    ensures StrLe(a, b) <==> OnOrBefore(a, b)
  {
    forall i | 0 <= i < |a| ensures a[i] == b[i] || (IsDigit(a[i]) && IsDigit(b[i])) {
      if i != 4 && i != 7 {
        assert IsDigit(a[i]) && IsDigit(b[i]);
      }
    }
    StrLeIsNumeric(a, b);
    DateValue(a);
    DateValue(b);
  }

  /** A date contains no `|` and no `:` and has no surrounding whitespace. */
  lemma IsoDateIsPlain(d: string)
    requires IsIsoDate(d)
    ensures '|' !in d && ':' !in d && Stripped(d)
  {
    forall c | c in d ensures c != '|' && c != ':' {
      var i :| 0 <= i < |d| && d[i] == c;
      if i != 4 && i != 7 { assert IsDigit(d[i]); }
    }
    assert IsDigit(d[0]) && IsDigit(d[9]);
  }

  function Pow10(n: nat): (p: nat)
    ensures p >= 1
  {
    if n == 0 then 1 else 10 * Pow10(n - 1)
  }

  /** `s` read as a decimal numeral, each non-digit counting as a zero digit. */
  function Value(s: string): (v: nat)
    ensures v < Pow10(|s|)
  {
    if s == [] then 0
    else
      var p := Pow10(|s| - 1);
      var rest := Value(s[1..]);
      assert Digit(s[0]) * p + rest < Pow10(|s|) by {
        MulUpper(Digit(s[0]), p);
      }
      Digit(s[0]) * p + rest
  }

  lemma MulUpper(d: nat, p: nat)
    requires d <= 9
    ensures d * p + p <= 10 * p
  {
  }

  lemma {:induction false} MulStep(x: nat, y: nat, p: nat)
    requires x < y
    ensures x * p + p <= y * p
    decreases y - x
  {
    assert (y - 1) * p + p == y * p;
    if x < y - 1 {
      MulStep(x, y - 1, p);
    }
  }

  /**
   * For strings of equal length that agree wherever one of them is not a
   * digit, string order is numeric order.
   */
  lemma {:induction false} StrLeIsNumeric(a: string, b: string)
    requires |a| == |b|
    requires forall i :: 0 <= i < |a| ==> a[i] == b[i] || (IsDigit(a[i]) && IsDigit(b[i]))
    ensures StrLe(a, b) <==> Value(a) <= Value(b)
    decreases |a|
  {
    if a != [] {
      var p := Pow10(|a| - 1);
      StrLeIsNumeric(a[1..], b[1..]);
      if a[0] < b[0] {
        MulStep(Digit(a[0]), Digit(b[0]), p);
      } else if b[0] < a[0] {
        MulStep(Digit(b[0]), Digit(a[0]), p);
      }
    }
  }

  /** The numeral value of a date is its year, month and day in fixed decimal places. */
  lemma DateValue(d: string)
    requires IsIsoDate(d)
    ensures Value(d) == Year(d) * 1000000 + Month(d) * 1000 + Day(d)
  {
    assert Value(d[10..]) == 0;
    assert Value(d[9..]) == Digit(d[9]);
    assert Value(d[8..]) == Digit(d[8]) * 10 + Value(d[9..]);
    assert Value(d[7..]) == Value(d[8..]);
    assert Value(d[6..]) == Digit(d[6]) * 1000 + Value(d[7..]);
    assert Value(d[5..]) == Digit(d[5]) * 10000 + Value(d[6..]);
    assert Value(d[4..]) == Value(d[5..]);
    assert Value(d[3..]) == Digit(d[3]) * 1000000 + Value(d[4..]);
    assert Value(d[2..]) == Digit(d[2]) * 10000000 + Value(d[3..]);
    assert Value(d[1..]) == Digit(d[1]) * 100000000 + Value(d[2..]);
    assert Value(d) == Digit(d[0]) * 1000000000 + Value(d[1..]);
  }
}
