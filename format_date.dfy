/**
 * The date token of utils/formatDate.js: year, month and day of the server
 * clock followed by a six-digit random number, with no separators.
 * The clock and `Math.random` are parameters: a `DateParts` value carries
 * what one call reads from them.
 */
module FormatDate {
  import opened Text

  /** `Date.prototype.getMonth()`: 0 for January. */
  type MonthIndex = m: int | 0 <= m < 12

  /** `Date.prototype.getDate()`. */
  type DayOfMonth = d: int | 1 <= d <= 31 witness 1

  /** The range of `Math.floor(100000 + Math.random() * 900000)`. */
  type SixDigits = r: int | 100000 <= r <= 999999 witness 100000

  /** What one call reads from the clock and the random source. */
  datatype DateParts = DateParts(year: int, monthIndex: MonthIndex, day: DayOfMonth, randomNum: SixDigits)

  /** `Math.floor(100000 + u * 900000)` for a draw `u` in [0, 1), on exact
      reals: the result always has six digits. */
  function RandomNumber(u: real): (r: int)
    requires 0.0 <= u < 1.0
    ensures 100000 <= r <= 999999
    ensures |NatToString(r)| == 6
  {
    var x := 100000.0 + u * 900000.0;
    assert 100000.0 <= x < 1000000.0;
    var r := x.Floor;
    Pow10Values();
    NatToStringLength(r, 6);
    r
  }

  /** `String(n).padStart(2, "0")`. */
  function TwoDigits(n: nat): (s: string)
    requires n < 100
    ensures |s| == 2 && AllDigits(s) && DigitsValue(s) == n
  {
    var digits := NatToString(n);
    DigitsValueOfNatToString(n);
    Pow10Values();
    if n < 10 then
      DigitsValueLeadingZero(digits);
      PadStart(digits, 2, '0')
    else
      NatToStringLength(n, 2);
      PadStart(digits, 2, '0')
  }

  /** Where the four parts of a token sit in their concatenation, and what
      reading each slice back gives. */
  lemma TokenLayout(d: DateParts, year: string, month: string, day: string, random: string)
    requires year == IntToString(d.year)
    requires |month| == 2 && AllDigits(month) && DigitsValue(month) == d.monthIndex + 1
    requires |day| == 2 && AllDigits(day) && DigitsValue(day) == d.day
    requires |random| == 6 && AllDigits(random) && DigitsValue(random) == d.randomNum
    ensures var token := year + month + day + random;
      && |token| == |year| + 10
      && token[..|token| - 10] == year
      && AllDigits(token[|token| - 10..])
      && DigitsValue(token[|token| - 10..|token| - 8]) == d.monthIndex + 1
      && DigitsValue(token[|token| - 8..|token| - 6]) == d.day
      && DigitsValue(token[|token| - 6..]) == d.randomNum
  {
    var token := year + month + day + random;
    assert token[|token| - 10..|token| - 8] == month;
    assert token[|token| - 8..|token| - 6] == day;
    assert token[|token| - 6..] == random;
    assert token[|token| - 10..] == month + day + random;
  }

  /** `getFormattedDate()`: the year as printed (not padded), then month
      (1-based) and day of month in two digits each, then the random number.
      Reading the last ten characters back gives month, day and random
      number, and what precedes them is the year. */
  function FormattedDate(d: DateParts): (token: string)
    ensures |token| == |IntToString(d.year)| + 10
    ensures token[..|token| - 10] == IntToString(d.year)
    ensures AllDigits(token[|token| - 10..])
    ensures DigitsValue(token[|token| - 10..|token| - 8]) == d.monthIndex + 1
    ensures DigitsValue(token[|token| - 8..|token| - 6]) == d.day
    ensures DigitsValue(token[|token| - 6..]) == d.randomNum
  {
    var year := IntToString(d.year);
    var month := TwoDigits(d.monthIndex + 1);
    var day := TwoDigits(d.day);
    var random := NatToString(d.randomNum);
    Pow10Values();
    NatToStringLength(d.randomNum, 6);
    DigitsValueOfNatToString(d.randomNum);
    TokenLayout(d, year, month, day, random);
    year + month + day + random
  }

  /** For a four-digit year the token is exactly fourteen decimal digits,
      `YYYYMMDD` followed by the random number. */
  lemma FourDigitYearToken(d: DateParts)
    requires 1000 <= d.year <= 9999
    ensures var token := FormattedDate(d);
      && |token| == 14 && AllDigits(token)
      && DigitsValue(token[..4]) == d.year
      && DigitsValue(token[4..6]) == d.monthIndex + 1
      && DigitsValue(token[6..8]) == d.day
      && DigitsValue(token[8..]) == d.randomNum
  {
    Pow10Values();
    NatToStringLength(d.year, 4);
    var token := FormattedDate(d);
    assert token == token[..4] + token[4..];
  }
}
