/** Calendar dates as Joda-Time's LocalDate holds them (ISO chronology, that
    is the proleptic Gregorian calendar), and their rendering with the
    pattern "dd.MM.yyyy": day and month as two digits, the year as at least
    four digits, separated by dots. The parser is the rendering's inverse. */
module LocalDates {
  import opened Wrappers

  // ----------------------------------------------------------------------
  // Decimal digits

  predicate IsDigit(c: char) {
    '0' <= c <= '9'
  }

  function DigitChar(k: nat): (c: char)
    requires k < 10
    ensures IsDigit(c)
  {
    (('0' as int) + k) as char
  }

  function DigitValue(c: char): (k: nat)
    requires IsDigit(c)
    ensures k < 10
  {
    (c as int) - ('0' as int)
  }

  /** The shortest decimal numeral of n: "0" for zero, otherwise no leading zero. */
  function Digits(n: nat): (s: string)
    ensures 1 <= |s|
    ensures forall i :: 0 <= i < |s| ==> IsDigit(s[i])
    ensures n < 10 ==> |s| == 1
    ensures n < 100 ==> |s| <= 2
  {
    if n < 10 then [DigitChar(n)] else Digits(n / 10) + [DigitChar(n % 10)]
  }

  /** The number a string of digits denotes. */
  function Value(s: string): nat
    requires forall i :: 0 <= i < |s| ==> IsDigit(s[i])
  {
    if s == [] then 0 else Value(s[..|s| - 1]) * 10 + DigitValue(s[|s| - 1])
  }

  function Zeros(k: nat): (s: string)
    ensures |s| == k
    ensures forall i :: 0 <= i < k ==> s[i] == '0'
  {
    if k == 0 then [] else Zeros(k - 1) + ['0']
  }

  /** The numeral of n padded on the left with zeros to at least `width`
      characters: Joda-Time's rendering of a field whose pattern letter is
      repeated `width` times. */
  function Pad(n: nat, width: nat): (s: string)
    ensures |s| == if |Digits(n)| < width then width else |Digits(n)|
    ensures forall i :: 0 <= i < |s| ==> IsDigit(s[i])
  {
    var digits := Digits(n);
    (if |digits| < width then Zeros(width - |digits|) else []) + digits
  }

  lemma {:induction false} ValueOfDigits(n: nat)
    ensures Value(Digits(n)) == n
  {
    if n >= 10 {
      var s := Digits(n);
      assert s[..|s| - 1] == Digits(n / 10);
      ValueOfDigits(n / 10);
    }
  }

  /** Leading zeros do not change the value. */
  lemma {:induction false} ValueIgnoresLeadingZeros(k: nat, s: string)
    requires forall i :: 0 <= i < |s| ==> IsDigit(s[i])
    ensures Value(Zeros(k) + s) == Value(s)
    decreases |s|
  {
    var z := Zeros(k) + s;
    if s == [] {
      assert z == Zeros(k);
      ValueOfZeros(k);
    } else {
      assert z[..|z| - 1] == Zeros(k) + s[..|s| - 1];
      ValueIgnoresLeadingZeros(k, s[..|s| - 1]);
    }
  }

  lemma {:induction false} ValueOfZeros(k: nat)
    ensures Value(Zeros(k)) == 0
  {
    if k > 0 {
      assert Zeros(k)[..k - 1] == Zeros(k - 1);
      ValueOfZeros(k - 1);
    }
  }

  /** Padding keeps the value: the padded numeral still denotes n. */
  lemma ValueOfPad(n: nat, width: nat)
    ensures Value(Pad(n, width)) == n
  {
    var digits := Digits(n);
    ValueOfDigits(n);
    if |digits| < width {
      ValueIgnoresLeadingZeros(width - |digits|, digits);
    } else {
      assert Pad(n, width) == digits;
    }
  }

  /** A non-empty run of digits read as a number; anything else is refused. */
  function ParseNat(s: string): (r: Option<nat>)
    ensures r.Some? <==> s != [] && forall i :: 0 <= i < |s| ==> IsDigit(s[i])
  {
    if s != [] && forall i :: 0 <= i < |s| ==> IsDigit(s[i]) then Some(Value(s)) else None
  }

  lemma ParsePad(n: nat, width: nat)
    ensures ParseNat(Pad(n, width)) == Some(n)
  {
    ValueOfPad(n, width);
  }

  // ----------------------------------------------------------------------
  // Dates

  datatype LocalDate = LocalDate(year: int, month: int, day: int)

  predicate IsLeapYear(year: int) {
    year % 4 == 0 && (year % 100 != 0 || year % 400 == 0)
  }

  function DaysInMonth(year: int, month: int): (days: int)
    requires 1 <= month <= 12
    ensures 28 <= days <= 31
  {
    if month == 2 then (if IsLeapYear(year) then 29 else 28)
    else if month == 4 || month == 6 || month == 9 || month == 11 then 30
    else 31
  }

  /** A day that exists in the calendar, in the years 1 and later. */
  predicate ValidDate(d: LocalDate) {
    && 1 <= d.year
    && 1 <= d.month <= 12
    && 1 <= d.day <= DaysInMonth(d.year, d.month)
  }

  type Date = d: LocalDate | ValidDate(d) witness LocalDate(1970, 1, 1)

  /** LocalDate.toString("dd.MM.yyyy"), the pattern Akdb.DatumOhneZeit names:
      dd and MM print the day and the month as two digits, yyyy prints the
      year as at least four digits. */
  function FormatDate(d: Date): (s: string)
    ensures |s| >= 10 && s[2] == '.' && s[5] == '.'
    ensures s[..2] == Pad(d.day, 2) && s[3..5] == Pad(d.month, 2) && s[6..] == Pad(d.year, 4)
    ensures forall i :: 0 <= i < |s| ==> IsDigit(s[i]) || s[i] == '.'
  {
    Pad(d.day, 2) + "." + Pad(d.month, 2) + "." + Pad(d.year, 4)
  }

  /** Reads "dd.MM.yyyy" back: two digits of day, two of month, at least
      four of year, and only a day that exists is accepted. */
  function ParseDate(s: string): (r: Option<Date>)
    ensures r.Some? ==> |s| >= 10 && s[2] == '.' && s[5] == '.'
    ensures r.Some? ==> ParseNat(s[..2]) == Some(r.value.day as nat) && ParseNat(s[3..5]) == Some(r.value.month as nat)
                        && ParseNat(s[6..]) == Some(r.value.year as nat)
  {
    if |s| < 10 || s[2] != '.' || s[5] != '.' then None
    else
      match (ParseNat(s[..2]), ParseNat(s[3..5]), ParseNat(s[6..]))
      case (Some(day), Some(month), Some(year)) =>
        var d := LocalDate(year, month, day);
        if ValidDate(d) then Some(d) else None
      case _ => None
  }

  /** Rendering then reading gives the date back. */
  lemma ParseFormatDate(d: Date)
    ensures ParseDate(FormatDate(d)) == Some(d)
  {
    var s := FormatDate(d);
    ParsePad(d.day, 2);
    ParsePad(d.month, 2);
    ParsePad(d.year, 4);
  }

  /** Different dates render differently. */
  lemma FormatDateInjective(d1: Date, d2: Date)
    requires FormatDate(d1) == FormatDate(d2)
    ensures d1 == d2
  {
    ParseFormatDate(d1);
    ParseFormatDate(d2);
  }
}
