/** Dates as the external parser returns them, and the two `strftime`
    layouts the detectors print them in.
 */
module Dates {
  import opened Wrappers
  import opened Text

  datatype DateTime = DateTime(year: nat, month: nat, day: nat)

  /** The external free-form date parser; `None` stands for the `ValueError`
      it raises on text it cannot read. */
  type DateParser = string -> Option<DateTime>

  predicate IsDigit(c: char) { '0' <= c <= '9' }

  predicate AllDigits(s: string) {
    forall i :: 0 <= i < |s| ==> IsDigit(s[i])
  }

  function Digit(d: nat): (c: char)
    requires d < 10
    ensures IsDigit(c)
  {
    ('0' as int + d) as char
  }

  /** Decimal value of a digit string, most significant digit first. */
  function ValueOf(s: string): nat
    requires AllDigits(s)
    decreases |s|
  {
    if |s| == 0 then 0
    else 10 * ValueOf(s[..|s| - 1]) + (s[|s| - 1] as int - '0' as int)
  }

  /** The decimal numeral of `n`, without leading zeros. */
  function Decimal(n: nat): (r: string)
    ensures |r| > 0 && AllDigits(r)
    decreases n
  {
    if n < 10 then [Digit(n)] else Decimal(n / 10) + [Digit(n % 10)]
  }

  /** `%m` / `%d`: at least two digits, zero-padded. */
  function Pad2(n: nat): (r: string)
    ensures |r| >= 2 && AllDigits(r)
  {
    if n < 10 then "0" + Decimal(n) else Decimal(n)
  }

  /** `strftime("%Y")` */
  function FormatYear(dt: DateTime): string {
    Decimal(dt.year)
  }

  /** `strftime("%Y/%m/%d")` */
  function FormatFull(dt: DateTime): string {
    Decimal(dt.year) + "/" + Pad2(dt.month) + "/" + Pad2(dt.day)
  }

  lemma {:induction false} DecimalRoundTrip(n: nat)
    ensures ValueOf(Decimal(n)) == n
    decreases n
  {
    if n >= 10 {
      DecimalRoundTrip(n / 10);
      var s := Decimal(n);
      assert s[..|s| - 1] == Decimal(n / 10);
    }
  }

  /** A leading zero does not change the value. */
  lemma {:induction false} LeadingZero(s: string)
    requires AllDigits(s)
    ensures ValueOf("0" + s) == ValueOf(s)
    decreases |s|
  {
    if |s| > 0 {
      var t := "0" + s;
      assert t[..|t| - 1] == "0" + s[..|s| - 1];
      LeadingZero(s[..|s| - 1]);
    }
  }

  lemma Pad2RoundTrip(n: nat)
    ensures ValueOf(Pad2(n)) == n
  {
    DecimalRoundTrip(n);
    if n < 10 {
      LeadingZero(Decimal(n));
    }
  }

  lemma NoSlashInDigits(s: string)
    requires AllDigits(s)
    ensures '/' !in s
  {
    assert forall i :: 0 <= i < |s| ==> s[i] != '/';
  }

  /** A formatted date reads back as its year, month and day: three
      '/'-separated numerals. */
  lemma FormatFullRoundTrip(dt: DateTime)
    ensures |SplitOn(FormatFull(dt), '/')| == 3
    ensures forall k :: 0 <= k < 3 ==> AllDigits(SplitOn(FormatFull(dt), '/')[k])
    ensures ValueOf(SplitOn(FormatFull(dt), '/')[0]) == dt.year
    ensures ValueOf(SplitOn(FormatFull(dt), '/')[1]) == dt.month
    ensures ValueOf(SplitOn(FormatFull(dt), '/')[2]) == dt.day
  {
    var y, m, d := Decimal(dt.year), Pad2(dt.month), Pad2(dt.day);
    NoSlashInDigits(y);
    NoSlashInDigits(m);
    NoSlashInDigits(d);
    var tail := m + ['/'] + d;
    assert FormatFull(dt) == y + ['/'] + tail;
    SplitOnFirst(y, '/', tail);
    SplitOnFirst(m, '/', d);
    SplitOnAbsent(d, '/');
    assert SplitOn(tail, '/') == [m, d];
    assert SplitOn(FormatFull(dt), '/') == [y, m, d];
    DecimalRoundTrip(dt.year);
    Pad2RoundTrip(dt.month);
    Pad2RoundTrip(dt.day);
  }
}
