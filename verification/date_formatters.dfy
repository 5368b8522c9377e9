/**
 * The month-year formatters of src/utils/dateFormatters.js: `YYYY-MM` (the
 * value of an `<input type="month">`) to the card's `Mon-YYYY` display text
 * and back, and the one-year advance used for the derived "valid upto" and
 * "valid to" dates.
 */
module DateFormatters {
  import opened JsValues
  import opened Text

  const MonthNames: seq<string> :=
    ["Jan", "Feb", "Mar", "Apr", "May", "Jun", "Jul", "Aug", "Sep", "Oct", "Nov", "Dec"]

  /** A JavaScript number as `Number(piece)` produces it from a piece of a
      split date string: a string of decimal digits (the empty string
      included) gives its value, anything else gives NaN. */
  datatype Num = Int(n: nat) | NaN

  function ToNumber(s: string): (x: Num)
    ensures AllDigits(s) <==> x.Int?
    ensures x.Int? ==> x.n == ParseNat(s)
    ensures s == "" ==> x == Int(0)
  {
    if AllDigits(s) then Int(ParseNat(s)) else NaN
  }

  /** `${x}` for a number. */
  function NumToString(x: Num): string {
    match x
    case Int(n) => NatToString(n)
    case NaN => "NaN"
  }

  /** `Number` reads back what `${n}` prints, and prints back a digit string
      without a leading zero. */
  lemma NumberText(n: nat, s: string)
    ensures ToNumber(NatToString(n)) == Int(n)
    ensures AllDigits(s) && |s| >= 1 && (|s| > 1 ==> s[0] != '0') ==> NumToString(ToNumber(s)) == s
  {
    ParseNatToString(n);
    if AllDigits(s) && |s| >= 1 && (|s| > 1 ==> s[0] != '0') {
      NatToStringParse(s);
    }
  }

  /** Index of the first `-` in `s`, or `|s|` when there is none. */
  function DashIndex(s: string): (i: nat)
    ensures i <= |s|
    ensures i < |s| ==> s[i] == '-'
    ensures forall j :: 0 <= j < i ==> s[j] != '-'
  {
    if s == [] then 0 else if s[0] == '-' then 0 else 1 + DashIndex(s[1..])
  }

  /** `s.split("-")[0]`. */
  function FirstPiece(s: string): string {
    s[..DashIndex(s)]
  }

  /** `s.split("-")[1]`, absent when `s` has no dash. */
  function SecondPiece(s: string): Option<string> {
    var i := DashIndex(s);
    if i == |s| then None else Some(FirstPiece(s[i + 1..]))
  }

  /** `(m || 1)` for the month number `m` of a destructured split: an absent
      piece (`undefined`), 0 and NaN all fall back to 1. */
  function MonthOrJan(m: Option<string>): (k: nat)
    ensures k >= 1
  {
    match m
    case None => 1
    case Some(p) =>
      match ToNumber(p)
      case NaN => 1
      case Int(n) => if n == 0 then 1 else n
  }

  /** `${MONTH_NAMES[k - 1]}`, which reads `undefined` past December. */
  function MonthText(k: nat): (t: string)
    requires k >= 1
    ensures t != ""
  {
    if k <= 12 then MonthNames[k - 1] else "undefined"
  }

  /** `formatMonthYear(value)`. */
  function FormatMonthYear(value: string): (r: string)
    ensures r == "" <==> value == ""
  {
    if value == "" then ""
    else MonthText(MonthOrJan(SecondPiece(value))) + "-" + NumToString(ToNumber(FirstPiece(value)))
  }

  /** `addOneYear(value)`: the text `${fy}-${mm}` of the advanced date,
      formatted again. */
  function AddOneYear(value: string): (r: string)
    ensures r == "" <==> value == ""
  {
    if value == "" then "" else FormatMonthYear(AdvancedYearMonth(value))
  }

  /** `${fy}-${mm}` in `addOneYear`: the pieces go through
      `new Date(y, (m || 1) - 1, 1)`, which maps the years 0..99 to
      1900..1999 and carries months past December into the year, and
      `setFullYear` adds one year.  A NaN year gives an Invalid Date, whose
      year and month both print as NaN. */
  function AdvancedYearMonth(value: string): string {
    var y := ToNumber(FirstPiece(value));
    var mi := MonthOrJan(SecondPiece(value)) - 1;
    if y.NaN? then
      var t := NumToString(y);
      t + "-" + t
    else RenderAdvanced(y.n, mi)
  }

  /** `${fy}-${mm}` for the year `y` and month index `mi` given to the Date
      constructor, one year on. */
  function RenderAdvanced(y: nat, mi: nat): string {
    YearMonth(NatToString(DateYear(y, mi) + 1), Pad2(mi % 12 + 1))
  }

  /** The full year of `new Date(y, mi, 1)`. */
  function DateYear(y: nat, mi: nat): nat {
    (if y <= 99 then 1900 + y else y) + mi / 12
  }

  predicate IsAsciiLetter(c: char) {
    ('A' <= c <= 'Z') || ('a' <= c <= 'z')
  }

  /** `/^[A-Za-z]{3}-\d{4}$/.test(s)`. */
  predicate MatchesDisplayRegex(s: string) {
    && |s| == 8
    && IsAsciiLetter(s[0]) && IsAsciiLetter(s[1]) && IsAsciiLetter(s[2])
    && s[3] == '-'
    && AllDigits(s[4..])
  }

  /** `names.indexOf(x)`: the first position holding `x`, or -1. */
  function IndexOf(names: seq<string>, x: string): (i: int)
    ensures -1 <= i < |names|
    ensures i >= 0 ==> names[i] == x && forall j :: 0 <= j < i ==> names[j] != x
    ensures i == -1 ==> x !in names
  {
    if names == [] then -1
    else if names[0] == x then 0
    else var j := IndexOf(names[1..], x); if j == -1 then -1 else j + 1
  }

  /** `displayToInputValue(value)`. */
  function DisplayToInputValue(value: string): (r: string)
    ensures !MatchesDisplayRegex(value) ==> r == value
  {
    if value == "" then ""
    else if MatchesDisplayRegex(value) then
      var mm := FirstPiece(value);
      var yy := SecondPiece(value).GetOr("");
      yy + "-" + Pad2(IndexOf(MonthNames, mm) + 1)
    else value
  }

  /** `YYYY-MM` text as an `<input type="month">` holds it. */
  function YearMonth(ys: string, ms: string): string {
    ys + "-" + ms
  }

  lemma PiecesOfYearMonth(ys: string, ms: string)
    requires AllDigits(ys) && AllDigits(ms)
    ensures FirstPiece(YearMonth(ys, ms)) == ys
    ensures SecondPiece(YearMonth(ys, ms)) == Some(ms)
  {
    var s := YearMonth(ys, ms);
    assert s[|ys|] == '-';
    assert forall j :: 0 <= j < |ys| ==> s[j] == ys[j];
    assert DashIndex(s) == |ys|;
    assert s[..|ys|] == ys;
    var t := s[|ys| + 1..];
    assert t == ms;
    assert DashIndex(t) == |t|;
    assert t[..|t|] == t;
  }

  /** A `YYYY-MM` value with a month in 1..12 reads `<month name>-<year>`,
      the year written without leading zeros. */
  lemma FormatYearMonth(ys: string, ms: string)
    requires AllDigits(ys) && AllDigits(ms) && 1 <= ParseNat(ms) <= 12
    ensures FormatMonthYear(YearMonth(ys, ms)) == MonthNames[ParseNat(ms) - 1] + "-" + NatToString(ParseNat(ys))
  {
    PiecesOfYearMonth(ys, ms);
  }

  /** Formatting the text of a rendered year and padded month. */
  lemma FormatRendered(y: nat, m: nat)
    requires 1 <= m <= 12
    ensures FormatMonthYear(YearMonth(NatToString(y), Pad2(m))) == MonthNames[m - 1] + "-" + NatToString(y)
  {
    FormatYearMonth(NatToString(y), Pad2(m));
    ParseNatToString(y);
  }

  /** A missing month (no dash) or a zero month defaults to January. */
  lemma FormatDefaultsToJan(value: string)
    requires value != ""
    requires SecondPiece(value) == None || ToNumber(SecondPiece(value).value) == Int(0)
    ensures FormatMonthYear(value) == "Jan-" + NumToString(ToNumber(FirstPiece(value)))
  {
  }

  /** `formatMonthYear("2025-01") == "Jan-2025"`. */
  lemma FormatExample(ys: string, ms: string)
    requires ys == "2025" && ms == "01"
    ensures FormatMonthYear(YearMonth(ys, ms)) == "Jan-2025"
  {
    FormatExampleDigits(ys, ms);
    FormatYearMonth(ys, ms);
    assert ParseNat(ms) - 1 == 0;
    FormatExampleRendering();
  }

  lemma FormatExampleDigits(ys: string, ms: string)
    requires ys == "2025" && ms == "01"
    ensures AllDigits(ys) && AllDigits(ms) && ParseNat(ys) == 2025 && ParseNat(ms) == 1
  {
    assert ms == Pad2(1);
    assert ys == NatToString(2025);
    ParseNatToString(2025);
  }

  lemma FormatExampleRendering()
    ensures MonthNames[0] + "-" + NatToString(2025) == "Jan-2025"
  {
  }

  /** `addOneYear` of a value whose year piece reads y and whose month
      piece gives the month index mi: the month m is the index reduced
      modulo 12, plus one, and the year fy is the Date constructor's year
      plus one. */
  lemma AddOneYearOfPieces(value: string, y: nat, mi: nat, fy: nat, m: nat)
    requires value != "" && ToNumber(FirstPiece(value)) == Int(y) && MonthOrJan(SecondPiece(value)) == mi + 1
    requires fy == DateYear(y, mi) + 1 && m == mi % 12 + 1
    ensures AddOneYear(value) == MonthNames[m - 1] + "-" + NatToString(fy)
  {
    assert AdvancedYearMonth(value) == RenderAdvanced(y, mi);
    assert NatToString(fy) == NatToString(DateYear(y, mi) + 1);
    assert Pad2(m) == Pad2(mi % 12 + 1);
    assert AdvancedYearMonth(value) == YearMonth(NatToString(fy), Pad2(m));
    FormatRendered(fy, m);
  }

  /** `addOneYear` on `YYYY-MM` digits with a month k >= 1. */
  lemma AddOneYearOfDigits(ys: string, ms: string, fy: nat, m: nat)
    requires AllDigits(ys) && AllDigits(ms) && ParseNat(ms) >= 1
    requires fy == DateYear(ParseNat(ys), ParseNat(ms) - 1) + 1
    requires m == (ParseNat(ms) - 1) % 12 + 1
    ensures AddOneYear(YearMonth(ys, ms)) == MonthNames[m - 1] + "-" + NatToString(fy)
  {
    YearMonthNumbers(ys, ms);
    AddOneYearOfPieces(YearMonth(ys, ms), ParseNat(ys), ParseNat(ms) - 1, fy, m);
  }

  /** What the pieces of a `YYYY-MM` value read as numbers. */
  lemma YearMonthNumbers(ys: string, ms: string)
    requires AllDigits(ys) && AllDigits(ms) && ParseNat(ms) >= 1
    ensures var v := YearMonth(ys, ms);
      && v != ""
      && ToNumber(FirstPiece(v)) == Int(ParseNat(ys))
      && MonthOrJan(SecondPiece(v)) == ParseNat(ms)
  {
    var v := YearMonth(ys, ms);
    assert v[|ys|] == '-';
    PiecesOfYearMonth(ys, ms);
  }

  /** From the year 100 on, the Date constructor takes the year as given. */
  lemma DateYearFrom100(y: nat, mi: nat)
    requires y >= 100
    ensures DateYear(y, mi) == y + mi / 12
  {
  }

  /** For years from 100 on, `addOneYear` advances the date by exactly twelve
      months: month k of year y becomes month k of year y + 1, with months
      past December carried into the year as the Date constructor does. */
  lemma AddOneYearAdvances(ys: string, ms: string, y: nat, k: nat)
    requires AllDigits(ys) && AllDigits(ms) && y == ParseNat(ys) && k == ParseNat(ms)
    requires y >= 100 && k >= 1
    ensures AddOneYear(YearMonth(ys, ms)) == MonthNames[(k - 1) % 12] + "-" + NatToString(y + (k - 1) / 12 + 1)
  {
    YearMonthNumbers(ys, ms);
    AdvancesOfPieces(YearMonth(ys, ms), y, k);
  }

  lemma AdvancesOfPieces(value: string, y: nat, k: nat)
    requires value != "" && ToNumber(FirstPiece(value)) == Int(y) && MonthOrJan(SecondPiece(value)) == k
    requires y >= 100 && k >= 1
    ensures AddOneYear(value) == MonthNames[(k - 1) % 12] + "-" + NatToString(y + (k - 1) / 12 + 1)
  {
    var mi, m := k - 1, (k - 1) % 12 + 1;
    assert m - 1 == mi % 12;
    DateYearFrom100(y, mi);
    AddOneYearOfPieces(value, y, mi, y + mi / 12 + 1, m);
  }

  /** For a month in 1..12 the month is kept and the year grows by one. */
  lemma AddOneYearKeepsMonth(ys: string, ms: string, y: nat, k: nat)
    requires AllDigits(ys) && AllDigits(ms) && y == ParseNat(ys) && k == ParseNat(ms)
    requires y >= 100 && 1 <= k <= 12
    ensures AddOneYear(YearMonth(ys, ms)) == MonthNames[k - 1] + "-" + NatToString(y + 1)
  {
    YearMonthNumbers(ys, ms);
    KeepsMonthOfPieces(YearMonth(ys, ms), y, k);
  }

  lemma KeepsMonthOfPieces(value: string, y: nat, k: nat)
    requires value != "" && ToNumber(FirstPiece(value)) == Int(y) && MonthOrJan(SecondPiece(value)) == k
    requires y >= 100 && 1 <= k <= 12
    ensures AddOneYear(value) == MonthNames[k - 1] + "-" + NatToString(y + 1)
  {
    DateYearFrom100(y, k - 1);
    assert (k - 1) % 12 == k - 1 && (k - 1) / 12 == 0;
    AddOneYearOfPieces(value, y, k - 1, y + 1, k);
  }

  /** The years 0..99 are read as 1900..1999 by the Date constructor. */
  lemma AddOneYearTwoDigitYear(ys: string, ms: string)
    requires AllDigits(ys) && AllDigits(ms)
    requires ParseNat(ys) <= 99 && 1 <= ParseNat(ms) <= 12
    ensures AddOneYear(YearMonth(ys, ms)) == MonthNames[ParseNat(ms) - 1] + "-" + NatToString(1900 + ParseNat(ys) + 1)
  {
    YearMonthNumbers(ys, ms);
    TwoDigitYearOfPieces(YearMonth(ys, ms), ParseNat(ys), ParseNat(ms));
  }

  lemma TwoDigitYearOfPieces(value: string, y: nat, k: nat)
    requires value != "" && ToNumber(FirstPiece(value)) == Int(y) && MonthOrJan(SecondPiece(value)) == k
    requires y <= 99 && 1 <= k <= 12
    ensures AddOneYear(value) == MonthNames[k - 1] + "-" + NatToString(1900 + y + 1)
  {
    DateYearTwoDigit(y, k - 1);
    AddOneYearOfPieces(value, y, k - 1, 1900 + y + 1, k);
  }

  /** A two-digit year within its first twelve months is a 1900s year. */
  lemma DateYearTwoDigit(y: nat, mi: nat)
    requires y <= 99 && mi < 12
    ensures DateYear(y, mi) == 1900 + y
    ensures mi % 12 + 1 == mi + 1
  {
  }

  lemma ExampleDigits(ys: string, ms: string)
    requires ys == "2024" && ms == "12"
    ensures AllDigits(ys) && AllDigits(ms) && ParseNat(ys) == 2024 && ParseNat(ms) == 12
  {
    assert ms == Pad2(12);
    assert ys == NatToString(2024);
    ParseNatToString(2024);
  }

  lemma ExampleRendering()
    ensures MonthNames[11] + "-" + NatToString(2025) == "Dec-2025"
  {
  }

  /** `addOneYear("2024-12") == "Dec-2025"`. */
  lemma AddOneYearExample(ys: string, ms: string)
    requires ys == "2024" && ms == "12"
    ensures AddOneYear(YearMonth(ys, ms)) == "Dec-2025"
  {
    ExampleDigits(ys, ms);
    AddOneYearOfDigits(ys, ms, 2025, 12);
    ExampleRendering();
  }

  lemma MonthNamesDistinct()
    ensures forall i, j :: 0 <= i < j < 12 ==> MonthNames[i] != MonthNames[j]
  {
  }

  lemma MonthNamesShape()
    ensures forall i :: 0 <= i < 12 ==>
      |MonthNames[i]| == 3 && IsAsciiLetter(MonthNames[i][0]) && IsAsciiLetter(MonthNames[i][1]) && IsAsciiLetter(MonthNames[i][2])
  {
  }

  /** `displayToInputValue` on a value the regex accepts, in terms of its
      two pieces. */
  lemma DisplayOfPieces(value: string, name: string, yyyy: string)
    requires MatchesDisplayRegex(value) && FirstPiece(value) == name && SecondPiece(value) == Some(yyyy)
    ensures DisplayToInputValue(value) == yyyy + "-" + Pad2(IndexOf(MonthNames, name) + 1)
  {
    assert |value| == 8;
  }

  lemma DisplayShape(name: string, yyyy: string)
    requires |name| == 3 && IsAsciiLetter(name[0]) && IsAsciiLetter(name[1]) && IsAsciiLetter(name[2])
    requires |yyyy| == 4 && AllDigits(yyyy)
    ensures MatchesDisplayRegex(name + "-" + yyyy)
    ensures FirstPiece(name + "-" + yyyy) == name
    ensures SecondPiece(name + "-" + yyyy) == Some(yyyy)
  {
    var s := name + "-" + yyyy;
    assert s[0] == name[0] && s[1] == name[1] && s[2] == name[2] && s[3] == '-';
    assert s[4..] == yyyy;
    assert DashIndex(s) == 3;
    assert s[..3] == name;
    assert DashIndex(yyyy) == 4;
    assert yyyy[..4] == yyyy;
  }

  /** The pieces of `"<three letters>-<four digits>"`. */
  lemma DisplayPieces(name: string, yyyy: string)
    requires |name| == 3 && IsAsciiLetter(name[0]) && IsAsciiLetter(name[1]) && IsAsciiLetter(name[2])
    requires |yyyy| == 4 && AllDigits(yyyy)
    ensures DisplayToInputValue(name + "-" + yyyy) == yyyy + "-" + Pad2(IndexOf(MonthNames, name) + 1)
  {
    DisplayShape(name, yyyy);
    DisplayOfPieces(name + "-" + yyyy, name, yyyy);
  }

  lemma IndexOfMonthName(i: nat)
    requires i < 12
    ensures IndexOf(MonthNames, MonthNames[i]) == i
  {
    MonthNamesDistinct();
  }

  /** `"<MONTH_NAMES[i]>-YYYY"` becomes `"YYYY-"` and the zero-padded i + 1. */
  lemma DisplayParsesMonth(i: nat, yyyy: string)
    requires i < 12 && |yyyy| == 4 && AllDigits(yyyy)
    ensures DisplayToInputValue(MonthNames[i] + "-" + yyyy) == yyyy + "-" + Pad2(i + 1)
  {
    MonthNamesShape();
    DisplayPieces(MonthNames[i], yyyy);
    IndexOfMonthName(i);
  }

  /** A three-letter prefix that is not a month name (the comparison is
      case-sensitive) gives the month `00`. */
  lemma DisplayUnknownMonth(mm: string, yyyy: string)
    requires |mm| == 3 && IsAsciiLetter(mm[0]) && IsAsciiLetter(mm[1]) && IsAsciiLetter(mm[2]) && mm !in MonthNames
    requires |yyyy| == 4 && AllDigits(yyyy)
    ensures DisplayToInputValue(mm + "-" + yyyy) == yyyy + "-00"
  {
    DisplayPieces(mm, yyyy);
    assert IndexOf(MonthNames, mm) == -1;
    assert Pad2(0) == "00";
  }

  /** Round trip over every month 1..12 and every four-digit year:
      `displayToInputValue(formatMonthYear("YYYY-MM")) == "YYYY-MM"`. */
  lemma InputDisplayRoundTrip(y: nat, m: nat)
    requires 1000 <= y <= 9999 && 1 <= m <= 12
    ensures DisplayToInputValue(FormatMonthYear(YearMonth(NatToString(y), Pad2(m)))) == YearMonth(NatToString(y), Pad2(m))
  {
    var i := m - 1;
    assert i + 1 == m;
    ParseNatToString(y);
    FormatYearMonth(NatToString(y), Pad2(m));
    FourDigitYear(y);
    DisplayParsesMonth(i, NatToString(y));
  }

  /** The other direction: `formatMonthYear(displayToInputValue("Mon-YYYY"))`
      gives the display text back. */
  lemma DisplayInputRoundTrip(m: nat, y: nat)
    requires 1 <= m <= 12 && 1000 <= y <= 9999
    ensures FormatMonthYear(DisplayToInputValue(MonthNames[m - 1] + "-" + NatToString(y))) == MonthNames[m - 1] + "-" + NatToString(y)
  {
    var i, ys := m - 1, NatToString(y);
    assert i + 1 == m;
    FourDigitYear(y);
    DisplayParsesMonth(i, ys);
    assert DisplayToInputValue(MonthNames[i] + "-" + ys) == YearMonth(ys, Pad2(m));
    FormatYearMonth(ys, Pad2(m));
    ParseNatToString(y);
    assert ParseNat(Pad2(m)) - 1 == i;
  }
}
