/** The `Date Added` value both front ends write: a local date and time
    rendered by `strftime("%Y-%m-%d %H:%M:%S")`. The clock itself is not part
    of the model; callers pass the moment in. */
module Timestamp {

  import opened Wrappers

  datatype DateTime = DateTime(year: nat, month: nat, day: nat, hour: nat, minute: nat, second: nat)

  predicate IsLeapYear(y: nat) {
    y % 4 == 0 && (y % 100 != 0 || y % 400 == 0)
  }

  function DaysInMonth(y: nat, m: nat): nat
    requires 1 <= m <= 12
  {
    if m == 2 then (if IsLeapYear(y) then 29 else 28)
    else if m == 4 || m == 6 || m == 9 || m == 11 then 30
    else 31
  }

  /** The moments Python's `datetime` can represent (years 1 to 9999). */
  predicate Valid(t: DateTime) {
    && 1 <= t.year <= 9999
    && 1 <= t.month <= 12
    && 1 <= t.day <= DaysInMonth(t.year, t.month)
    && t.hour < 24 && t.minute < 60 && t.second < 60
  }

  predicate IsDigit(c: char) {
    '0' <= c <= '9'
  }

  predicate AllDigits(s: string) {
    forall k :: 0 <= k < |s| ==> IsDigit(s[k])
  }

  function DigitChar(d: nat): (c: char)
    requires d < 10
    ensures IsDigit(c)
  {
    ('0' as int + d) as char
  }

  function DigitValue(c: char): (d: nat)
    requires IsDigit(c)
    ensures d < 10 && DigitChar(d) == c
  {
    c as int - '0' as int
  }

  /** The shortest decimal numeral of `n`, as `%d` writes it. */
  function Decimal(n: nat): (r: string)
    ensures |r| >= 1 && AllDigits(r)
    ensures |r| == 1 <==> n < 10
    ensures r[0] != '0' || n == 0
  {
    if n < 10 then [DigitChar(n)] else Decimal(n / 10) + [DigitChar(n % 10)]
  }

  /** The number a string of decimal digits denotes. */
  function DecimalValue(s: string): nat
    requires AllDigits(s)
  {
    if s == [] then 0 else DecimalValue(s[..|s| - 1]) * 10 + DigitValue(s[|s| - 1])
  }

  /** `%m`, `%d`, `%H`, `%M`, `%S`: zero-padded to two digits. */
  function Pad2(n: nat): (r: string)
    ensures n < 100 ==> |r| == 2
  {
    if n < 10 then ['0'] + Decimal(n) else Decimal(n)
  }

  /** `strftime("%Y-%m-%d %H:%M:%S")`. On the GNU C library `%Y` writes the
      year without padding, so only four-digit years give the usual 19
      characters. */
  function Format(t: DateTime): (r: string)
    ensures |r| >= 16
    ensures Valid(t) ==> |r| == |Decimal(t.year)| + 15
  {
    Decimal(t.year) + "-" + Pad2(t.month) + "-" + Pad2(t.day) + " "
    + Pad2(t.hour) + ":" + Pad2(t.minute) + ":" + Pad2(t.second)
  }

  /** `YYYY-MM-DD HH:MM:SS`: 19 characters, digits everywhere except the
      separators at positions 4, 7, 10, 13 and 16. */
  predicate WellShaped(s: string) {
    && |s| == 19
    && s[4] == '-' && s[7] == '-' && s[10] == ' ' && s[13] == ':' && s[16] == ':'
    && AllDigits(s[0..4]) && AllDigits(s[5..7]) && AllDigits(s[8..10])
    && AllDigits(s[11..13]) && AllDigits(s[14..16]) && AllDigits(s[17..19])
  }

  /** Reads a `Date Added` value back; `None` unless it is well shaped, has a
      four-digit year and names a real moment. */
  function Parse(s: string): (r: Option<DateTime>)
    ensures r.Some? ==> Valid(r.value) && 1000 <= r.value.year
  {
    if WellShaped(s) && s[0] != '0' then
      var t := DateTime(DecimalValue(s[0..4]), DecimalValue(s[5..7]), DecimalValue(s[8..10]),
                        DecimalValue(s[11..13]), DecimalValue(s[14..16]), DecimalValue(s[17..19]));
      LeadingDigitBound(s[0..4]);
      if Valid(t) then Some(t) else None
    else None
  }

  lemma {:induction false} DecimalRoundTrip(n: nat)
    ensures DecimalValue(Decimal(n)) == n
  {
    if n >= 10 {
      var d := Decimal(n);
      assert d[..|d| - 1] == Decimal(n / 10);
      DecimalRoundTrip(n / 10);
    }
  }

  /** A numeral of `k` digits whose first digit is not `0` is at least 10^(k-1). */
  lemma {:induction false} LeadingDigitBound(s: string)
    requires AllDigits(s) && |s| >= 1 && s[0] != '0'
    ensures DecimalValue(s) >= Pow10(|s| - 1)
  {
    if |s| > 1 {
      LeadingDigitBound(s[..|s| - 1]);
    }
  }

  function Pow10(k: nat): nat {
    if k == 0 then 1 else 10 * Pow10(k - 1)
  }

  /** Numerals without a leading zero are exactly the ones `Decimal` writes. */
  lemma {:induction false} DecimalOfValue(s: string)
    requires AllDigits(s) && |s| >= 1 && (s[0] != '0' || |s| == 1)
    ensures Decimal(DecimalValue(s)) == s
  {
    if |s| > 1 {
      var p := s[..|s| - 1];
      LeadingDigitBound(p);
      DecimalOfValue(p);
      var n := DecimalValue(s);
      assert n / 10 == DecimalValue(p) && n % 10 == DigitValue(s[|s| - 1]);
      assert s == p + [s[|s| - 1]];
    }
  }

  lemma Pad2OfValue(s: string)
    requires AllDigits(s) && |s| == 2
    ensures Pad2(DecimalValue(s)) == s
  {
    if s[0] == '0' {
      DecimalOfValue(s[1..]);
      assert s == ['0'] + s[1..];
    } else {
      DecimalOfValue(s);
    }
  }

  lemma Pad2Shape(n: nat)
    requires n < 100
    ensures |Pad2(n)| == 2 && AllDigits(Pad2(n))
    ensures DecimalValue(Pad2(n)) == n
  {
    DecimalRoundTrip(n);
    if n < 10 {
      assert Pad2(n)[..1] == "0";
    }
  }

  lemma FourDigitYear(y: nat)
    requires 1000 <= y <= 9999
    ensures |Decimal(y)| == 4 && Decimal(y)[0] != '0'
    ensures DecimalValue(Decimal(y)) == y
  {
    DecimalRoundTrip(y);
    assert y / 10 / 10 / 10 < 10 && y / 10 / 10 >= 10;
    assert |Decimal(y / 10 / 10)| == 2;
  }

  /** Where each field of a timestamp with a four-digit year sits in the text. */
  lemma FormatFields(t: DateTime)
    requires Valid(t) && 1000 <= t.year
    ensures var s := Format(t);
      && |s| == 19
      && s[4] == '-' && s[7] == '-' && s[10] == ' ' && s[13] == ':' && s[16] == ':'
      && s[0..4] == Decimal(t.year) && s[5..7] == Pad2(t.month) && s[8..10] == Pad2(t.day)
      && s[11..13] == Pad2(t.hour) && s[14..16] == Pad2(t.minute) && s[17..19] == Pad2(t.second)
  {
    FormatSeparators(t);
    FormatSlices(t);
  }

  lemma FormatSeparators(t: DateTime)
    requires Valid(t) && 1000 <= t.year
    ensures var s := Format(t);
      && |s| == 19
      && s[4] == '-' && s[7] == '-' && s[10] == ' ' && s[13] == ':' && s[16] == ':'
  {
    FourDigitYear(t.year);
    Pad2Shape(t.month); Pad2Shape(t.day); Pad2Shape(t.hour); Pad2Shape(t.minute); Pad2Shape(t.second);
  }

  lemma FormatSlices(t: DateTime)
    requires Valid(t) && 1000 <= t.year
    ensures var s := Format(t);
      && |s| == 19
      && s[0..4] == Decimal(t.year) && s[5..7] == Pad2(t.month) && s[8..10] == Pad2(t.day)
      && s[11..13] == Pad2(t.hour) && s[14..16] == Pad2(t.minute) && s[17..19] == Pad2(t.second)
  {
    FourDigitYear(t.year);
    Pad2Shape(t.month); Pad2Shape(t.day); Pad2Shape(t.hour); Pad2Shape(t.minute); Pad2Shape(t.second);
  }

  /** Every `Date Added` value with a four-digit year has the fixed
      `YYYY-MM-DD HH:MM:SS` layout. */
  lemma FormatShape(t: DateTime)
    requires Valid(t) && 1000 <= t.year
    ensures WellShaped(Format(t))
  {
    FormatFields(t);
    FourDigitYear(t.year);
    Pad2Shape(t.month); Pad2Shape(t.day); Pad2Shape(t.hour); Pad2Shape(t.minute); Pad2Shape(t.second);
  }

  /** Reading a written timestamp gives back the moment it was written from. */
  lemma ParseFormat(t: DateTime)
    requires Valid(t) && 1000 <= t.year
    ensures Parse(Format(t)) == Some(t)
  {
    FormatShape(t);
    FormatFields(t);
    FourDigitYear(t.year);
    Pad2Shape(t.month); Pad2Shape(t.day); Pad2Shape(t.hour); Pad2Shape(t.minute); Pad2Shape(t.second);
  }

  /** Conversely, every string `Parse` accepts is exactly the text `Format`
      writes for the moment it denotes. */
  lemma FormatParse(s: string)
    requires Parse(s).Some?
    ensures Format(Parse(s).value) == s
  {
    var t := Parse(s).value;
    FormatFields(t);
    DecimalOfValue(s[0..4]);
    Pad2OfValue(s[5..7]); Pad2OfValue(s[8..10]); Pad2OfValue(s[11..13]);
    Pad2OfValue(s[14..16]); Pad2OfValue(s[17..19]);
    SameLayout(Format(t), s);
  }

  /** Two texts of the timestamp's length that agree on every field and
      every separator are equal. */
  lemma SameLayout(a: string, b: string)
    requires |a| == |b| == 19
    requires a[4] == b[4] && a[7] == b[7] && a[10] == b[10] && a[13] == b[13] && a[16] == b[16]
    requires a[0..4] == b[0..4] && a[5..7] == b[5..7] && a[8..10] == b[8..10]
    requires a[11..13] == b[11..13] && a[14..16] == b[14..16] && a[17..19] == b[17..19]
    ensures a == b
  {
    forall k | 0 <= k < 19 ensures a[k] == b[k] {
      if k < 4 { assert a[k] == a[0..4][k]; }
      else if 5 <= k < 7 { assert a[k] == a[5..7][k - 5] && b[k] == b[5..7][k - 5]; }
      else if 8 <= k < 10 { assert a[k] == a[8..10][k - 8] && b[k] == b[8..10][k - 8]; }
      else if 11 <= k < 13 { assert a[k] == a[11..13][k - 11] && b[k] == b[11..13][k - 11]; }
      else if 14 <= k < 16 { assert a[k] == a[14..16][k - 14] && b[k] == b[14..16][k - 14]; }
      else if 17 <= k { assert a[k] == a[17..19][k - 17] && b[k] == b[17..19][k - 17]; }
    }
  }

}
