/**
 * `format_date` of the tag generator: `datetime.strptime(text, "%m/%d/%Y")`
 * followed by `strftime("%b%Y").lower()`, and `None` for a cell that does
 * not hold text.
 *
 * The parser follows CPython's `_strptime`: the format becomes the regular
 * expression `(1[0-2]|0[1-9]|[1-9])/(3[01]|[12]\d|0[1-9]|[1-9]| [1-9])/(\d\d\d\d)`,
 * matched at the start of the text; text left over after the match is an
 * error of its own; the fields then go through the calendar checks of
 * `datetime.date` (year at least 1, day within the month).
 */
module DateFormat {
  import opened Wrappers

  /** A calendar date as `strptime` reads it from the three fields. */
  datatype Date = Date(year: int, month: int, day: int)

  /** The reasons `strptime` raises `ValueError`. */
  datatype ParseFailure =
    | DoesNotMatchFormat  // no prefix of the text matches the format
    | UnconvertedData     // the format matches a proper prefix only
    | YearOutOfRange      // year 0000: below `datetime.MINYEAR`
    | DayOutOfRange       // a day the month does not have

  /** What `format_date` does with one cell of the `Date` column. */
  datatype FormatResult =
    | Formatted(text: string)          // returns the formatted date
    | NotText                          // returns None: the cell is not text
    | ParseError(failure: ParseFailure) // strptime raises

  predicate IsDigit(c: char)
  {
    '0' <= c <= '9'
  }

  function DigitValue(c: char): (v: nat)
    requires IsDigit(c)
    ensures v < 10
  {
    c as int - '0' as int
  }

  function DigitChar(v: nat): (c: char)
    requires v < 10
    ensures IsDigit(c) && DigitValue(c) == v
  {
    ('0' as int + v) as char
  }

  /** Gregorian leap years, as `datetime` counts them. */
  predicate IsLeapYear(y: int)
  {
    y % 4 == 0 && (y % 100 != 0 || y % 400 == 0)
  }

  function DaysInMonth(y: int, m: int): (n: int)
    requires 1 <= m <= 12
    ensures 28 <= n <= 31
  {
    if m == 2 then (if IsLeapYear(y) then 29 else 28)
    else if m == 4 || m == 6 || m == 9 || m == 11 then 30
    else 31
  }

  /** A date `datetime.date` accepts. */
  predicate ValidDate(d: Date)
  {
    1 <= d.year <= 9999 && 1 <= d.month <= 12 && 1 <= d.day <= DaysInMonth(d.year, d.month)
  }

  /** Two decimal digits, zero-padded. */
  function Pad2(n: nat): (t: string)
    requires n < 100
    ensures |t| == 2
  {
    [DigitChar(n / 10), DigitChar(n % 10)]
  }

  /** Four decimal digits, zero-padded: what `%Y` prints. */
  function Pad4(n: nat): (t: string)
    requires n < 10000
    ensures |t| == 4
  {
    var tens := n / 10;
    var hundreds := tens / 10;
    [DigitChar(hundreds / 10), DigitChar(hundreds % 10), DigitChar(tens % 10), DigitChar(n % 10)]
  }

  /** The texts `%m` reads as month `m`: "07" or "7", "12". */
  ghost predicate MonthText(t: string, m: int)
  {
    1 <= m <= 12 && (t == Pad2(m) || (m < 10 && t == [DigitChar(m)]))
  }

  /** The texts `%d` reads as day `d`: "05", "5" or " 5", "31". */
  ghost predicate DayText(t: string, d: int)
  {
    1 <= d <= 31 && (t == Pad2(d) || (d < 10 && (t == [DigitChar(d)] || t == [' ', DigitChar(d)])))
  }

  /** `s` is one way of writing date `d` in the `%m/%d/%Y` format. */
  ghost predicate Spells(s: string, d: Date)
  {
    0 <= d.year < 10000 &&
    exists mt, dt :: MonthText(mt, d.month) && DayText(dt, d.day) && s == mt + "/" + dt + "/" + Pad4(d.year)
  }

  /** A field read by one piece of the format: its value and how many characters it spans. */
  datatype Field = Field(value: int, width: nat)

  /** `%m` at index `i`: the alternatives `1[0-2]`, `0[1-9]`, `[1-9]`, in that order. */
  function MatchMonth(s: string, i: nat): (f: Option<Field>)
    requires i <= |s|
    ensures f.Some? ==> i + f.value.width <= |s|
  {
    if i + 2 <= |s| && s[i] == '1' && '0' <= s[i + 1] <= '2' then
      Some(Field(10 + DigitValue(s[i + 1]), 2))
    else if i + 2 <= |s| && s[i] == '0' && '1' <= s[i + 1] <= '9' then
      Some(Field(DigitValue(s[i + 1]), 2))
    else if i + 1 <= |s| && '1' <= s[i] <= '9' then
      Some(Field(DigitValue(s[i]), 1))
    else
      None
  }

  /** `%d` at index `i`: the alternatives `3[01]`, `[12]\d`, `0[1-9]`, `[1-9]`, ` [1-9]`, in that order. */
  function MatchDay(s: string, i: nat): (f: Option<Field>)
    requires i <= |s|
    ensures f.Some? ==> i + f.value.width <= |s|
  {
    if i + 2 <= |s| && s[i] == '3' && '0' <= s[i + 1] <= '1' then
      Some(Field(30 + DigitValue(s[i + 1]), 2))
    else if i + 2 <= |s| && '1' <= s[i] <= '2' && IsDigit(s[i + 1]) then
      Some(Field(10 * DigitValue(s[i]) + DigitValue(s[i + 1]), 2))
    else if i + 2 <= |s| && s[i] == '0' && '1' <= s[i + 1] <= '9' then
      Some(Field(DigitValue(s[i + 1]), 2))
    else if i + 1 <= |s| && '1' <= s[i] <= '9' then
      Some(Field(DigitValue(s[i]), 1))
    else if i + 2 <= |s| && s[i] == ' ' && '1' <= s[i + 1] <= '9' then
      Some(Field(DigitValue(s[i + 1]), 2))
    else
      None
  }

  /** `%Y` at index `i`: exactly four digits. */
  function MatchYear(s: string, i: nat): (f: Option<Field>)
    requires i <= |s|
    ensures f.Some? ==> f.value.width == 4 && i + 4 <= |s| && 0 <= f.value.value < 10000
  {
    if i + 4 <= |s| && IsDigit(s[i]) && IsDigit(s[i + 1]) && IsDigit(s[i + 2]) && IsDigit(s[i + 3]) then
      Some(Field(1000 * DigitValue(s[i]) + 100 * DigitValue(s[i + 1]) + 10 * DigitValue(s[i + 2]) + DigitValue(s[i + 3]), 4))
    else
      None
  }

  /** What `%m` reads is a way of writing the month it returns. */
  lemma MatchMonthReads(s: string, i: nat)
    requires i <= |s| && MatchMonth(s, i).Some?
    ensures MonthText(s[i..i + MatchMonth(s, i).value.width], MatchMonth(s, i).value.value)
  {
    if i + 2 <= |s| && s[i] == '1' && '0' <= s[i + 1] <= '2' {
      assert s[i..i + 2] == Pad2(10 + DigitValue(s[i + 1]));
    } else if i + 2 <= |s| && s[i] == '0' && '1' <= s[i + 1] <= '9' {
      assert s[i..i + 2] == Pad2(DigitValue(s[i + 1]));
    } else {
      assert s[i..i + 1] == [DigitChar(DigitValue(s[i]))];
    }
  }

  /** What `%d` reads is a way of writing the day it returns. */
  lemma MatchDayReads(s: string, i: nat)
    requires i <= |s| && MatchDay(s, i).Some?
    ensures DayText(s[i..i + MatchDay(s, i).value.width], MatchDay(s, i).value.value)
  {
    if i + 2 <= |s| && s[i] == '3' && '0' <= s[i + 1] <= '1' {
      assert s[i..i + 2] == Pad2(30 + DigitValue(s[i + 1]));
    } else if i + 2 <= |s| && '1' <= s[i] <= '2' && IsDigit(s[i + 1]) {
      assert s[i..i + 2] == Pad2(10 * DigitValue(s[i]) + DigitValue(s[i + 1]));
    } else if i + 2 <= |s| && s[i] == '0' && '1' <= s[i + 1] <= '9' {
      assert s[i..i + 2] == Pad2(DigitValue(s[i + 1]));
    } else if i + 1 <= |s| && '1' <= s[i] <= '9' {
      assert s[i..i + 1] == [DigitChar(DigitValue(s[i]))];
    } else {
      assert s[i..i + 2] == [' ', DigitChar(DigitValue(s[i + 1]))];
    }
  }

  /** The four digits `%Y` reads are the four digits `%Y` prints for the year it returns. */
  lemma MatchYearReads(s: string, i: nat)
    requires i <= |s| && MatchYear(s, i).Some?
    ensures s[i..i + 4] == Pad4(MatchYear(s, i).value.value)
  {
    Pad4OfDigits(DigitValue(s[i]), DigitValue(s[i + 1]), DigitValue(s[i + 2]), DigitValue(s[i + 3]));
  }

  /** Printing the number four digits make gives back those digits. */
  lemma Pad4OfDigits(a: nat, b: nat, c: nat, d: nat)
    requires a < 10 && b < 10 && c < 10 && d < 10
    ensures Pad4(1000 * a + 100 * b + 10 * c + d) == [DigitChar(a), DigitChar(b), DigitChar(c), DigitChar(d)]
  {
    var n := 1000 * a + 100 * b + 10 * c + d;
    assert n / 10 == 100 * a + 10 * b + c;
    assert n / 10 / 10 == 10 * a + b;
  }

  /**
   * The regular-expression match of `%m/%d/%Y` at the start of `s`: the
   * date read and the index where the match ends.
   */
  function MatchFormat(s: string): (r: Option<(Date, nat)>)
    ensures r.Some? ==> r.value.1 <= |s|
    ensures r.Some? ==> 1 <= r.value.0.month <= 12 && 1 <= r.value.0.day <= 31 && 0 <= r.value.0.year < 10000
  {
    match MatchMonth(s, 0)
    case None => None
    case Some(m) =>
      var i := m.width;
      if i >= |s| || s[i] != '/' then None
      else
        match MatchDay(s, i + 1)
        case None => None
        case Some(d) =>
          var j := i + 1 + d.width;
          if j >= |s| || s[j] != '/' then None
          else
            match MatchYear(s, j + 1)
            case None => None
            case Some(y) => Some((Date(y.value, m.value, d.value), j + 5))
  }

  /** `datetime.strptime(s, "%m/%d/%Y")`: the date, or the reason it raises. */
  function Strptime(s: string): (r: Result<Date, ParseFailure>)
    ensures r.Ok? ==> ValidDate(r.value)
  {
    match MatchFormat(s)
    case None => Err(DoesNotMatchFormat)
    case Some((d, end)) =>
      if end != |s| then Err(UnconvertedData)
      else if d.year < 1 then Err(YearOutOfRange)
      else if d.day > DaysInMonth(d.year, d.month) then Err(DayOutOfRange)
      else Ok(d)
  }

  /** `strftime("%b")` in English, lowered. */
  function MonthAbbrev(m: int): (t: string)
    requires 1 <= m <= 12
    ensures |t| == 3
  {
    ["jan", "feb", "mar", "apr", "may", "jun", "jul", "aug", "sep", "oct", "nov", "dec"][m - 1]
  }

  /** `format_date`: the lowered `%b%Y` of a parsed date, `None` for a non-text cell, or the parse error. */
  function FormatDate(cell: Option<string>): (r: FormatResult)
    ensures r.NotText? <==> cell.None?
    ensures r.Formatted? ==> |r.text| == 7
  {
    match cell
    case None => NotText
    case Some(s) =>
      match Strptime(s)
      case Err(e) => ParseError(e)
      case Ok(d) => Formatted(MonthAbbrev(d.month) + Pad4(d.year))
  }

  /** What `strptime` accepts is a valid date written in the format. */
  lemma StrptimeSound(s: string)
    requires Strptime(s).Ok?
    ensures ValidDate(Strptime(s).value) && Spells(s, Strptime(s).value)
  {
    var d := Strptime(s).value;
    var m := MatchMonth(s, 0).value;
    var i := m.width;
    var dd := MatchDay(s, i + 1).value;
    var j := i + 1 + dd.width;
    var mt, dt := s[..i], s[i + 1..j];
    MatchMonthReads(s, 0);
    MatchDayReads(s, i + 1);
    MatchYearReads(s, j + 1);
    assert MonthText(mt, d.month) && DayText(dt, d.day);
    assert s == mt + "/" + dt + "/" + s[j + 1..j + 5];
  }

  /** `%m` reads every spelling of a month, up to the slash after it. */
  lemma MatchMonthText(s: string, t: string, m: int)
    requires MonthText(t, m) && |t| < |s| && s[..|t|] == t && s[|t|] == '/'
    ensures MatchMonth(s, 0) == Some(Field(m, |t|))
  {
    if |t| == 2 {
      assert s[0] == t[0] && s[1] == t[1];
    } else {
      assert s[0] == t[0];
    }
  }

  /** `%d` reads every spelling of a day, up to the slash after it. */
  lemma MatchDayText(s: string, i: nat, t: string, d: int)
    requires DayText(t, d) && i + |t| < |s| && s[i..i + |t|] == t && s[i + |t|] == '/'
    ensures MatchDay(s, i) == Some(Field(d, |t|))
  {
    assert s[i] == t[0];
    if |t| == 2 {
      assert s[i + 1] == t[1];
    }
  }

  /** `%Y` reads back the four digits `%Y` prints. */
  lemma MatchYearPad4(s: string, i: nat, y: int)
    requires 0 <= y < 10000 && i + 4 <= |s| && s[i..i + 4] == Pad4(y)
    ensures MatchYear(s, i) == Some(Field(y, 4))
  {
    assert s[i] == Pad4(y)[0] && s[i + 1] == Pad4(y)[1] && s[i + 2] == Pad4(y)[2] && s[i + 3] == Pad4(y)[3];
    var v := MatchYear(s, i).value.value;
    MatchYearReads(s, i);
    assert Pad4(v) == Pad4(y);
    Pad4Injective(v, y);
  }

  /** Distinct years print differently. */
  lemma Pad4Injective(a: int, b: int)
    requires 0 <= a < 10000 && 0 <= b < 10000 && Pad4(a) == Pad4(b)
    ensures a == b
  {
    assert a == 10 * (a / 10) + a % 10 && a / 10 == 10 * (a / 10 / 10) + a / 10 % 10;
    assert a / 10 / 10 == 10 * (a / 10 / 10 / 10) + a / 10 / 10 % 10;
    assert b == 10 * (b / 10) + b % 10 && b / 10 == 10 * (b / 10 / 10) + b / 10 % 10;
    assert b / 10 / 10 == 10 * (b / 10 / 10 / 10) + b / 10 / 10 % 10;
    assert DigitValue(Pad4(a)[0]) == DigitValue(Pad4(b)[0]) && DigitValue(Pad4(a)[1]) == DigitValue(Pad4(b)[1]);
    assert DigitValue(Pad4(a)[2]) == DigitValue(Pad4(b)[2]) && DigitValue(Pad4(a)[3]) == DigitValue(Pad4(b)[3]);
  }

  /** Where the three fields and the two slashes of `a/b/c` lie. */
  lemma SlashPieces(a: string, b: string, c: string)
    ensures var s := a + "/" + b + "/" + c;
            var j := |a| + 1 + |b|;
            |s| == j + 1 + |c| && s[..|a|] == a && s[|a|] == '/' &&
            s[|a| + 1..j] == b && s[j] == '/' && s[j + 1..] == c
  {
  }

  /** The format matches every text that starts with a date written in it, up to the end of that date. */
  lemma MatchFormatOfPrefix(s: string, mt: string, dt: string, d: Date, rest: string)
    requires MonthText(mt, d.month) && DayText(dt, d.day) && 0 <= d.year < 10000
    requires s == mt + "/" + dt + "/" + Pad4(d.year) + rest
    ensures MatchFormat(s) == Some((d, |s| - |rest|))
  {
    var i, j := |mt|, |mt| + 1 + |dt|;
    assert s == mt + "/" + dt + "/" + (Pad4(d.year) + rest);
    SlashPieces(mt, dt, Pad4(d.year) + rest);
    MatchMonthText(s, mt, d.month);
    MatchDayText(s, i + 1, dt, d.day);
    assert s[j + 1..j + 5] == Pad4(d.year);
    MatchYearPad4(s, j + 1, d.year);
  }

  /** The format matches the whole of every text that writes a date in it. */
  lemma MatchFormatOfSpelling(s: string, mt: string, dt: string, d: Date)
    requires MonthText(mt, d.month) && DayText(dt, d.day) && 0 <= d.year < 10000
    requires s == mt + "/" + dt + "/" + Pad4(d.year)
    ensures MatchFormat(s) == Some((d, |s|))
  {
    assert s == mt + "/" + dt + "/" + Pad4(d.year) + "";
    MatchFormatOfPrefix(s, mt, dt, d, "");
  }

  /** What each field of a match of the format reads, and where the two slashes lie. */
  lemma MatchFormatFields(s: string)
    requires MatchFormat(s).Some?
    ensures var i := MatchMonth(s, 0).value.width;
            var j := i + 1 + MatchDay(s, i + 1).value.width;
            var d := MatchFormat(s).value.0;
            0 < i < j && j + 5 == MatchFormat(s).value.1 && s[i] == '/' && s[j] == '/' &&
            MonthText(s[..i], d.month) && DayText(s[i + 1..j], d.day) && s[j + 1..j + 5] == Pad4(d.year)
  {
    var i := MatchMonth(s, 0).value.width;
    MatchMonthReads(s, 0);
    MatchDayReads(s, i + 1);
    MatchYearReads(s, i + 1 + MatchDay(s, i + 1).value.width + 1);
  }

  /** A text cut at two slashes and four characters after the second one is the concatenation of its pieces. */
  lemma CutAtSlashes(s: string, i: nat, j: nat)
    requires i < j && j + 5 <= |s| && s[i] == '/' && s[j] == '/'
    ensures s == s[..i] + "/" + s[i + 1..j] + "/" + s[j + 1..j + 5] + s[j + 5..]
  {
  }

  /** Whatever the format matches starts with a date written in it, and the match ends where that date does. */
  lemma MatchFormatSound(s: string)
    requires MatchFormat(s).Some?
    ensures var (d, e) := MatchFormat(s).value;
            exists mt, dt, rest :: MonthText(mt, d.month) && DayText(dt, d.day) &&
                                   s == mt + "/" + dt + "/" + Pad4(d.year) + rest && e == |s| - |rest|
  {
    var d := MatchFormat(s).value.0;
    var i := MatchMonth(s, 0).value.width;
    var j := i + 1 + MatchDay(s, i + 1).value.width;
    MatchFormatFields(s);
    CutAtSlashes(s, i, j);
    var mt, dt, rest := s[..i], s[i + 1..j], s[j + 5..];
    assert s == mt + "/" + dt + "/" + Pad4(d.year) + rest;
  }

  /** `strptime` raises "does not match format" exactly when no prefix of the text writes fields in the format. */
  lemma StrptimeNoMatch(s: string)
    ensures Strptime(s) == Err(DoesNotMatchFormat) <==>
            !exists mt, dt, d: Date, rest :: MonthText(mt, d.month) && DayText(dt, d.day) && 0 <= d.year < 10000 &&
                                            s == mt + "/" + dt + "/" + Pad4(d.year) + rest
  {
    if MatchFormat(s).Some? {
      MatchFormatSound(s);
    } else if exists mt, dt, d: Date, rest :: MonthText(mt, d.month) && DayText(dt, d.day) && 0 <= d.year < 10000 &&
                                            s == mt + "/" + dt + "/" + Pad4(d.year) + rest {
      var mt, dt, d: Date, rest :| MonthText(mt, d.month) && DayText(dt, d.day) && 0 <= d.year < 10000 &&
                                  s == mt + "/" + dt + "/" + Pad4(d.year) + rest;
      MatchFormatOfPrefix(s, mt, dt, d, rest);
    }
  }

  /**
   * Which error `strptime` raises for a text that starts with fields in the
   * format: text after the year leaves unconverted data; otherwise year 0
   * is out of range, and a day past the end of its month is out of range.
   */
  lemma StrptimeRejects(s: string, mt: string, dt: string, d: Date, rest: string)
    requires MonthText(mt, d.month) && DayText(dt, d.day) && 0 <= d.year < 10000
    requires s == mt + "/" + dt + "/" + Pad4(d.year) + rest
    ensures rest != [] ==> Strptime(s) == Err(UnconvertedData)
    ensures rest == [] && d.year == 0 ==> Strptime(s) == Err(YearOutOfRange)
    ensures rest == [] && 1 <= d.year && d.day > DaysInMonth(d.year, d.month) ==> Strptime(s) == Err(DayOutOfRange)
  {
    MatchFormatOfPrefix(s, mt, dt, d, rest);
  }

  /** Every valid date, in every way the format lets one write it, is accepted as that date. */
  lemma StrptimeComplete(s: string, d: Date)
    requires ValidDate(d) && Spells(s, d)
    ensures Strptime(s) == Ok(d)
  {
    var mt, dt :| MonthText(mt, d.month) && DayText(dt, d.day) && s == mt + "/" + dt + "/" + Pad4(d.year);
    MatchFormatOfSpelling(s, mt, dt, d);
  }

  /** February 29th is a date exactly in the leap years. */
  lemma LeapDayRule(y: int)
    ensures ValidDate(Date(y, 2, 29)) <==> 1 <= y <= 9999 && IsLeapYear(y)
  {
  }

  /** `strptime` succeeds with `d` exactly when `s` writes the valid date `d` in the format. */
  lemma StrptimeAccepts(s: string, d: Date)
    ensures Strptime(s) == Ok(d) <==> ValidDate(d) && Spells(s, d)
  {
    if Strptime(s) == Ok(d) {
      StrptimeSound(s);
    }
    if ValidDate(d) && Spells(s, d) {
      StrptimeComplete(s, d);
    }
  }

  /** A valid date written in the format is reformatted as its month's abbreviation and its year. */
  lemma FormatDateOfSpelling(s: string, d: Date)
    requires ValidDate(d) && Spells(s, d)
    ensures FormatDate(Some(s)) == Formatted(MonthAbbrev(d.month) + Pad4(d.year))
  {
    StrptimeComplete(s, d);
  }

  /**
   * A text cell is reformatted exactly when it writes a valid date; the
   * result then ends with the cell's own four year digits.
   */
  lemma FormatDateOfText(s: string)
    ensures FormatDate(Some(s)).Formatted? <==> exists d :: ValidDate(d) && Spells(s, d)
    ensures FormatDate(Some(s)).Formatted? ==> |s| >= 4 && FormatDate(Some(s)).text[3..] == s[|s| - 4..]
  {
    if Strptime(s).Ok? {
      var d := Strptime(s).value;
      StrptimeSound(s);
      var m := MatchMonth(s, 0).value;
      var j := m.width + 1 + MatchDay(s, m.width + 1).value.width;
      MatchYearReads(s, j + 1);
      assert s[|s| - 4..] == s[j + 1..j + 5] == Pad4(d.year);
    } else if d :| ValidDate(d) && Spells(s, d) {
      StrptimeComplete(s, d);
    }
  }

  /** A formatted date is a month abbreviation followed by four digits, so it holds no comma. */
  lemma FormattedText(cell: Option<string>)
    requires FormatDate(cell).Formatted?
    ensures exists m :: 1 <= m <= 12 && FormatDate(cell).text[..3] == MonthAbbrev(m)
    ensures forall k :: 3 <= k < 7 ==> IsDigit(FormatDate(cell).text[k])
    ensures ',' !in FormatDate(cell).text
  {
    var d := Strptime(cell.value).value;
    var t := FormatDate(cell).text;
    assert t[..3] == MonthAbbrev(d.month) && t[3..] == Pad4(d.year);
    assert forall k :: 3 <= k < 7 ==> t[k] == Pad4(d.year)[k - 3];
    assert ',' !in MonthAbbrev(d.month);
  }

  /** A cell that is not text is never an error: it becomes `None`. */
  lemma FormatDateOfMissing()
    ensures FormatDate(None) == NotText
  {
  }

  /** A two-digit month and day: the source's own sample. */
  lemma SampleJanuary()
    ensures FormatDate(Some("01/15/2024")) == Formatted("jan2024")
  {
    var s := "01/15/2024";
    assert MatchMonth(s, 0) == Some(Field(1, 2));
    assert MatchDay(s, 3) == Some(Field(15, 2));
    assert MatchYear(s, 6) == Some(Field(2024, 4));
  }

  /** Leading zeros in month and day. */
  lemma SampleMarch()
    ensures FormatDate(Some("03/05/2024")) == Formatted("mar2024")
  {
    var s := "03/05/2024";
    assert MatchMonth(s, 0) == Some(Field(3, 2));
    assert MatchDay(s, 3) == Some(Field(5, 2));
    assert MatchYear(s, 6) == Some(Field(2024, 4));
  }

  /** `strptime` also takes one-digit months and days. */
  lemma OneDigitFields()
    ensures FormatDate(Some("1/5/2024")) == Formatted("jan2024")
  {
    var s := "1/5/2024";
    assert MatchMonth(s, 0) == Some(Field(1, 1));
    assert MatchDay(s, 2) == Some(Field(5, 1));
    assert MatchYear(s, 4) == Some(Field(2024, 4));
  }

  /** `%d` also takes a day padded with a space. */
  lemma SpacePaddedDay()
    ensures FormatDate(Some("12/ 5/1999")) == Formatted("dec1999")
  {
    var s := "12/ 5/1999";
    assert MatchMonth(s, 0) == Some(Field(12, 2));
    assert MatchDay(s, 3) == Some(Field(5, 2));
    assert MatchYear(s, 6) == Some(Field(1999, 4));
  }

  /** Other centuries are not leap years. */
  lemma NonLeapCentury()
    ensures FormatDate(Some("02/29/1900")) == ParseError(DayOutOfRange)
  {
    var s := "02/29/1900";
    assert MatchMonth(s, 0) == Some(Field(2, 2));
    assert MatchDay(s, 3) == Some(Field(29, 2));
    assert MatchYear(s, 6) == Some(Field(1900, 4));
  }

  /** No month has more days than the calendar gives it. */
  lemma NoFebruary30()
    ensures FormatDate(Some("02/30/2023")) == ParseError(DayOutOfRange)
  {
    var s := "02/30/2023";
    assert MatchMonth(s, 0) == Some(Field(2, 2));
    assert MatchDay(s, 3) == Some(Field(30, 2));
    assert MatchYear(s, 6) == Some(Field(2023, 4));
  }

  /** Year 0000 is below the first year `datetime` allows. */
  lemma NoYearZero()
    ensures FormatDate(Some("01/01/0000")) == ParseError(YearOutOfRange)
  {
    var s := "01/01/0000";
    assert MatchMonth(s, 0) == Some(Field(1, 2));
    assert MatchDay(s, 3) == Some(Field(1, 2));
    assert MatchYear(s, 6) == Some(Field(0, 4));
  }

  /** A month above 12 does not match `%m`. */
  lemma NoMonth13()
    ensures FormatDate(Some("13/01/2024")) == ParseError(DoesNotMatchFormat)
  {
  }

  /** Text that is no date does not match. */
  lemma NoDateText()
    ensures FormatDate(Some("not-a-date")) == ParseError(DoesNotMatchFormat)
  {
  }

  /** The empty text does not match. */
  lemma NoEmptyText()
    ensures FormatDate(Some("")) == ParseError(DoesNotMatchFormat)
  {
  }

  /** Characters after the year are unconverted data. */
  lemma NoTrailingText()
    ensures FormatDate(Some("01/15/20245")) == ParseError(UnconvertedData)
  {
  }
}
