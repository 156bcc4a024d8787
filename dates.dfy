/** Calendar days as the modelled code sees them through JavaScript `Date`
    objects and date-fns: a day, or an `Invalid Date`. Time of day and time
    zones are not represented. */
module Dates {
  import opened JsBase
  import opened JsStrings

  /** A JavaScript `Date` reduced to its calendar day; `Invalid` is a `Date`
      whose time value is NaN. */
  datatype Date = Invalid | Day(year: nat, month: nat, day: nat)

  /** A day that date-fns can produce from `yyyy-MM-dd` text: a year of the
      common era, a month and a day of the month. */
  predicate IsCalendarDay(d: Date) {
    d.Day? && 1 <= d.year && 1 <= d.month <= 12 && 1 <= d.day <= 31
  }

  /** The year that the `y` tokens of date-fns write: the year of the era, so
      that the year 0 (1 BC) is written as 1. */
  function EraYear(y: nat): (r: nat)
    ensures r >= 1
    ensures y >= 1 ==> r == y
  {
    if y > 0 then y else 1 - y
  }

  /** `a < b` on two `Date` objects. The operands are converted to their time
      values; NaN makes every relational comparison false. */
  predicate Before(a: Date, b: Date) {
    && a.Day? && b.Day?
    && (|| a.year < b.year
        || (a.year == b.year && a.month < b.month)
        || (a.year == b.year && a.month == b.month && a.day < b.day))
  }

  /** The message of the `RangeError` that date-fns `format` throws for an invalid date. */
  const InvalidTimeValue: string := "Invalid time value"

  /** The tokens of a date-fns format pattern that the modelled code uses: a
      zero-padded calendar field of a given width, or literal text. */
  datatype Token = Year(width: nat) | Month(width: nat) | DayOfMonth(width: nat) | Text(text: string)

  /** The pattern `yyyy-MM-dd`. */
  const YmdPattern: seq<Token> := [Year(4), Text("-"), Month(2), Text("-"), DayOfMonth(2)]

  /** The text of one token for the day `y`-`m`-`d`. */
  function TokenText(t: Token, y: nat, m: nat, d: nat): string {
    match t
    case Year(w) => PadStart(NatToString(EraYear(y)), w, '0')
    case Month(w) => PadStart(NatToString(m), w, '0')
    case DayOfMonth(w) => PadStart(NatToString(d), w, '0')
    case Text(s) => s
  }

  /** `format` on a valid date: the texts of the tokens, in pattern order. */
  function FormatTokens(tokens: seq<Token>, y: nat, m: nat, d: nat): (r: string)
    ensures tokens == [] ==> r == []
  {
    if tokens == [] then [] else TokenText(tokens[0], y, m, d) + FormatTokens(tokens[1..], y, m, d)
  }

  /** date-fns `format(d, 'yyyy-MM-dd')`, which throws a `RangeError` on an invalid date. */
  function FormatYmd(d: Date): (r: Completion<string>)
    ensures d == Invalid <==> r == Throw(InvalidTimeValue)
  {
    match d
    case Invalid => Throw(InvalidTimeValue)
    case Day(y, m, dd) => Normal(FormatTokens(YmdPattern, y, m, dd))
  }

  /** The text `format(d, 'yyyy-MM-dd')` gives for a day: the padded year of
      the era, month and day, joined by dashes, at least ten characters long. */
  lemma FormatYmdText(d: Date)
    requires d.Day?
    ensures FormatYmd(d) == Normal(PadStart(NatToString(EraYear(d.year)), 4, '0') + ("-" + (PadStart(NatToString(d.month), 2, '0')
                                   + ("-" + PadStart(NatToString(d.day), 2, '0')))))
    ensures |FormatYmd(d).value| >= 10
  {
    var p := YmdPattern;
    var y, m, dd := PadStart(NatToString(EraYear(d.year)), 4, '0'), PadStart(NatToString(d.month), 2, '0'),
      PadStart(NatToString(d.day), 2, '0');
    var year, month, day := d.year, d.month, d.day;
    assert p[1..][1..][1..][1..][1..] == [];
    assert FormatTokens(p[1..][1..][1..][1..], year, month, day) == dd;
    assert FormatTokens(p[1..][1..][1..], year, month, day) == "-" + dd;
    assert FormatTokens(p[1..][1..], year, month, day) == m + ("-" + dd);
    assert FormatTokens(p[1..], year, month, day) == "-" + (m + ("-" + dd));
    assert FormatTokens(p, year, month, day) == y + ("-" + (m + ("-" + dd)));
  }

  /** Any comparison that involves an invalid date is false. */
  lemma InvalidNeverCompares(a: Date)
    ensures !Before(a, Invalid) && !Before(Invalid, a)
  {
  }

  /** On valid dates `Before` is a strict total order. */
  lemma BeforeIsStrictTotalOrder(a: Date, b: Date, c: Date)
    requires a.Day? && b.Day? && c.Day?
    ensures !Before(a, a)
    ensures Before(a, b) && Before(b, c) ==> Before(a, c)
    ensures a == b || Before(a, b) || Before(b, a)
  {
  }

  /** Two calendar days format to the same `yyyy-MM-dd` text exactly when
      they are the same day, so comparing formatted days compares days. */
  lemma {:induction false} FormatYmdInjective(a: Date, b: Date)
    requires IsCalendarDay(a) && IsCalendarDay(b)
    ensures FormatYmd(a) == FormatYmd(b) <==> a == b
  {
    FormatYmdText(a);
    FormatYmdText(b);
    if FormatYmd(a) == FormatYmd(b) {
      var s := FormatYmd(a).value;
      FormatFields(a);
      FormatFields(b);
      assert Field(s, 0) == PadStart(NatToString(EraYear(a.year)), 4, '0') == PadStart(NatToString(EraYear(b.year)), 4, '0');
      assert Field(s, 1) == PadStart(NatToString(a.month), 2, '0') == PadStart(NatToString(b.month), 2, '0');
      assert Field(s, 2) == PadStart(NatToString(a.day), 2, '0') == PadStart(NatToString(b.day), 2, '0');
      PaddedNumberReadsBack(EraYear(a.year), 4);
      PaddedNumberReadsBack(EraYear(b.year), 4);
      PaddedNumberReadsBack(a.month, 2);
      PaddedNumberReadsBack(b.month, 2);
      PaddedNumberReadsBack(a.day, 2);
      PaddedNumberReadsBack(b.day, 2);
    }
  }

  /** The year (0), month (1) and day (2) fields of formatted `yyyy-MM-dd` text. */
  function Field(s: string, k: nat): string
    requires |s| >= 6 && k < 3
  {
    if k == 0 then s[..|s| - 6] else if k == 1 then s[|s| - 5..|s| - 3] else s[|s| - 2..]
  }

  /** The fields of a formatted day are its padded year of the era, month and day. */
  lemma FormatFields(d: Date)
    requires d.Day? && 1 <= d.month <= 12 && 1 <= d.day <= 31
    ensures FormatYmd(d).Normal? && |FormatYmd(d).value| >= 6
    ensures Field(FormatYmd(d).value, 0) == PadStart(NatToString(EraYear(d.year)), 4, '0')
    ensures Field(FormatYmd(d).value, 1) == PadStart(NatToString(d.month), 2, '0')
    ensures Field(FormatYmd(d).value, 2) == PadStart(NatToString(d.day), 2, '0')
  {
    var y, m, dd := PadStart(NatToString(EraYear(d.year)), 4, '0'), PadStart(NatToString(d.month), 2, '0'),
      PadStart(NatToString(d.day), 2, '0');
    assert |m| == 2 && |dd| == 2;
    var s := y + ("-" + (m + ("-" + dd)));
    FormatYmdText(d);
    assert s == FormatYmd(d).value;
    assert s[..|s| - 6] == y;
    assert s[|s| - 5..|s| - 3] == m;
    assert s[|s| - 2..] == dd;
  }

  /** The year 0 and the year 1 are both written `0001`: on days outside the
      common era, equal text does not mean the same day. */
  lemma {:induction false} YearZeroFormatsAsOne(a: Date, b: Date)
    requires a.Day? && b.Day? && a.year == 0 && b.year == 1 && a.month == b.month && a.day == b.day
    ensures a != b && FormatYmd(a) == FormatYmd(b)
  {
    FormatYmdText(a);
    FormatYmdText(b);
  }
}
