/** The `modified` date of a listing entry: the part of an ISO 8601 timestamp
    (as produced by `Date.prototype.toISOString`) before its first `T`, which
    for a well-formed timestamp is the `full-date` of section 5.6 of RFC 3339. */
module IsoDate {
  import Text

  predicate IsDigit(c: char)
  {
    '0' <= c <= '9'
  }

  predicate AllDigits(s: string)
  {
    forall i :: 0 <= i < |s| ==> IsDigit(s[i])
  }

  function DigitValue(c: char): nat
    requires IsDigit(c)
  {
    c as int - '0' as int
  }

  /** The number written by a two-digit field. */
  function Value2(s: string): nat
    requires |s| == 2 && AllDigits(s)
  {
    10 * DigitValue(s[0]) + DigitValue(s[1])
  }

  /** The number written by a four-digit field. */
  function Value4(s: string): nat
    requires |s| == 4 && AllDigits(s)
  {
    1000 * DigitValue(s[0]) + 100 * DigitValue(s[1]) + 10 * DigitValue(s[2]) + DigitValue(s[3])
  }

  /** The leap-year rule of the Gregorian calendar (appendix C of RFC 3339). */
  predicate IsLeapYear(year: nat)
  {
    year % 4 == 0 && (year % 100 != 0 || year % 400 == 0)
  }

  /** The largest `date-mday` allowed for a month of a year (section 5.7 of RFC 3339). */
  function DaysInMonth(year: nat, month: nat): nat
    requires 1 <= month <= 12
  {
    if month == 2 then (if IsLeapYear(year) then 29 else 28)
    else if month == 4 || month == 6 || month == 9 || month == 11 then 30
    else 31
  }

  /** `full-date = date-fullyear "-" date-month "-" date-mday` (section 5.6 of
      RFC 3339), with the month and day limits of section 5.7. */
  predicate IsFullDate(s: string)
  {
    && |s| == 10
    && AllDigits(s[0..4]) && s[4] == '-'
    && AllDigits(s[5..7]) && s[7] == '-'
    && AllDigits(s[8..10])
    && 1 <= Value2(s[5..7]) <= 12
    && 1 <= Value2(s[8..10]) <= DaysInMonth(Value4(s[0..4]), Value2(s[5..7]))
  }

  /** The time part `HH:mm:ss.sssZ` that `toISOString` writes after the `T`. */
  predicate IsIsoTime(t: string)
  {
    && |t| == 13
    && AllDigits(t[0..2]) && t[2] == ':'
    && AllDigits(t[3..5]) && t[5] == ':'
    && AllDigits(t[6..8]) && t[8] == '.'
    && AllDigits(t[9..12]) && t[12] == 'Z'
    && Value2(t[0..2]) <= 23
    && Value2(t[3..5]) <= 59
    && Value2(t[6..8]) <= 59
  }

  /** A timestamp as `toISOString` writes it for a year from 0 to 9999:
      `YYYY-MM-DDTHH:mm:ss.sssZ`. */
  predicate IsIsoTimestamp(s: string)
  {
    |s| == 24 && IsFullDate(s[..10]) && s[10] == 'T' && IsIsoTime(s[11..])
  }

  /** `iso.split('T')[0]`: the longest prefix of `iso` without a `T`. For a
      well-formed timestamp it is exactly the ten-character full-date. */
  function DatePart(iso: string): (d: string)
    ensures d <= iso
    ensures 'T' !in d
    ensures |d| == |iso| || iso[|d|] == 'T'
    ensures IsIsoTimestamp(iso) ==> |d| == 10 && d == iso[..10] && IsFullDate(d)
  {
    Text.FirstPieceIsPrefix(iso, 'T');
    var d := Text.Split(iso, 'T')[0];
    assert IsIsoTimestamp(iso) ==> 'T' !in iso[..10] by {
      if IsIsoTimestamp(iso) {
        FullDateHasNoT(iso[..10]);
      }
    }
    d
  }

  /** A full-date consists of digits and dashes only, so it holds no `T`. */
  lemma FullDateHasNoT(s: string)
    requires IsFullDate(s)
    ensures 'T' !in s
  {
    forall i | 0 <= i < |s|
      ensures s[i] != 'T'
    {
      if i < 4 {
        assert s[0..4][i] == s[i];
      } else if 5 <= i < 7 {
        assert s[5..7][i - 5] == s[i];
      } else if 8 <= i {
        assert s[8..10][i - 8] == s[i];
      }
    }
  }

  /** A concrete instance: a timestamp written on 22 January 2024. */
  lemma DatePartExample()
    ensures DatePart("2024-01-22T08:30:00.000Z") == "2024-01-22"
  {
    var iso := "2024-01-22T08:30:00.000Z";
    assert iso[..10] == "2024-01-22";
    assert IsFullDate(iso[..10]);
    assert iso[11..] == "08:30:00.000Z";
    assert IsIsoTime(iso[11..]);
  }

  /** A concrete instance: a timestamp written on 20 January 2024. */
  lemma DatePartExample2()
    ensures DatePart("2024-01-20T09:15:00.000Z") == "2024-01-20"
  {
    var iso := "2024-01-20T09:15:00.000Z";
    assert iso[..10] == "2024-01-20";
    assert IsFullDate(iso[..10]);
    assert iso[11..] == "09:15:00.000Z";
    assert IsIsoTime(iso[11..]);
  }
}
