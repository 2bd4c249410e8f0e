/**
 * One cell of a pandas table read from CSV, Excel or JSON: missing (`NaN`/`None`),
 * a whole number, or text. A cell pandas read as a float is given by the text it was read from.
 */
module Cells {
  import opened Wrappers
  import Text
  import Seqs

  datatype Cell = Missing | Num(n: int) | Str(s: string)

  /** `pd.to_numeric(cell, errors='coerce')` then `.fillna(0).astype(int)`: unparsable text and gaps become 0, fractions are cut toward zero. */
  function ToInt(c: Cell): int
  {
    match c
    case Missing => 0
    case Num(n) => n
    case Str(s) =>
      match ToNumeric(s)
      case None => 0
      case Some(x) => TruncToInt(x)
  }

  /** `astype(int)` on a float: the fraction is dropped, toward zero. */
  function TruncToInt(x: real): (r: int)
    ensures x >= 0.0 ==> r as real <= x < r as real + 1.0
    ensures x < 0.0 ==> r as real - 1.0 < x <= r as real
  {
    if x >= 0.0 then x.Floor else -((-x).Floor)
  }

  /** The position of the first character of `s` in `marks`, or `|s|` when there is none. */
  function FirstOf(s: string, marks: set<char>): (r: nat)
    ensures r <= |s| && (r < |s| ==> s[r] in marks)
    ensures forall j :: 0 <= j < r ==> s[j] !in marks
  {
    if |s| == 0 then 0
    else if s[0] in marks then 0
    else 1 + FirstOf(s[1..], marks)
  }

  const POINT: set<char> := {'.'}

  const EXPONENT_MARKS: set<char> := {'e', 'E'}

  /**
   * A number as `pd.to_numeric` reads it from text: a sign, the digits before and after
   * the decimal point, and a power of ten (`-12.5e3` is `Numeral(true, "12", "5", 3)`).
   */
  datatype Numeral = Numeral(negative: bool, whole: string, fraction: string, exponent: int)

  /** Digits on either side of the point, and at least one digit: `12`, `12.5`, `.5`, `12.`. */
  predicate WellFormed(n: Numeral)
  {
    Text.AllDigits(n.whole) && Text.AllDigits(n.fraction) && |n.whole| + |n.fraction| > 0
  }

  /**
   * The numbers `pd.to_numeric` reads from text: surrounding whitespace, an optional sign,
   * a decimal numeral with an optional fraction, and an optional exponent (`1e3`, `2.5E-1`).
   * Anything else is `None`, the `NaN` that `errors='coerce'` puts there.
   */
  function ToNumeric(s: string): Option<real>
  {
    match ParseNumeral(Text.Strip(s))
    case None => None
    case Some(n) => Some(NumeralValue(n))
  }

  /** Reads an optional sign, then the rest of the numeral. */
  function ParseNumeral(t: string): (r: Option<Numeral>)
    ensures r.Some? ==> WellFormed(r.value)
  {
    if |t| > 0 && (t[0] == '-' || t[0] == '+') then ParseUnsigned(t[0] == '-', t[1..])
    else ParseUnsigned(false, t)
  }

  /** Reads a decimal numeral with an optional exponent. */
  function ParseUnsigned(negative: bool, body: string): (r: Option<Numeral>)
    ensures r.Some? ==> WellFormed(r.value)
  {
    var e := FirstOf(body, EXPONENT_MARKS);
    var mantissa := body[..e];
    var p := FirstOf(mantissa, POINT);
    var exponent := if e < |body| then ExponentValue(body[e + 1..]) else Some(0);
    var n := Numeral(negative, mantissa[..p], if p < |mantissa| then mantissa[p + 1..] else "", if exponent.Some? then exponent.value else 0);
    if exponent.Some? && WellFormed(n) then Some(n) else None
  }

  /** `u` after a minus sign when `negative`. */
  function WithSign(negative: bool, u: string): string
  {
    if negative then "-" + u else u
  }

  /** The value a numeral denotes. */
  function NumeralValue(n: Numeral): real
    requires WellFormed(n)
  {
    var magnitude := Scaled(Text.DigitsValue(n.whole) as real + FractionValue(n.fraction), n.exponent);
    if n.negative then -magnitude else magnitude
  }

  /** Digits after the decimal point: `5` is 0.5, `25` is 0.25. */
  function FractionValue(f: string): real
    requires Text.AllDigits(f)
  {
    if |f| == 0 then 0.0 else (Text.DigitValue(f[0]) as real + FractionValue(f[1..])) / 10.0
  }

  /** An exponent: an optional sign and one or more digits. */
  function ExponentValue(x: string): Option<int>
  {
    var negative := |x| > 0 && x[0] == '-';
    var digits := if |x| > 0 && (x[0] == '-' || x[0] == '+') then x[1..] else x;
    if |digits| > 0 && Text.AllDigits(digits) then
      Some(if negative then -(Text.DigitsValue(digits) as int) else Text.DigitsValue(digits) as int)
    else None
  }

  /** `m` times ten to the power `e`. */
  function Scaled(m: real, e: int): real
    decreases if e < 0 then -e else e
  {
    if e == 0 then m
    else if e > 0 then Scaled(m * 10.0, e - 1)
    else Scaled(m / 10.0, e + 1)
  }

  /** `str(cell)` for a present cell. */
  function CellText(c: Cell): string
    requires !c.Missing?
  {
    match c
    case Num(n) => Text.IntToString(n)
    case Str(s) => s
  }

  /** An integer written out by `str` reads back as itself. */
  lemma ToNumericOfIntToString(n: int)
    ensures ToNumeric(Text.IntToString(n)) == Some(n as real)
  {
    var m: nat := if n < 0 then -n else n;
    var digits := Text.NatToString(m);
    var s := Text.IntToString(n);
    IntToStringShape(n);
    ParseOfDigits(digits, n < 0);
    ToNumericOfParsed(s, Numeral(n < 0, digits, "", 0));
    Text.NatToStringValue(m);
    WholeNumeralValue(n < 0, digits);
  }

  /** `str(n)` is the digits of `|n|`, after a minus sign when `n` is negative. */
  lemma IntToStringShape(n: int)
    ensures var s := Text.IntToString(n); |s| > 0 && !Text.IsSpace(s[0]) && !Text.IsSpace(s[|s| - 1])
    ensures Text.IntToString(n) == WithSign(n < 0, Text.NatToString(if n < 0 then -n else n))
  {
    var s := Text.IntToString(n);
    assert Text.IsDigit(s[|s| - 1]) && (Text.IsDigit(s[0]) || s[0] == '-');
  }

  /** Text whose stripped form parses reads as the value of what it parses to. */
  lemma ToNumericOfParsed(s: string, n: Numeral)
    requires |s| > 0 && !Text.IsSpace(s[0]) && !Text.IsSpace(s[|s| - 1])
    requires ParseNumeral(s) == Some(n)
    ensures ToNumeric(s) == Some(NumeralValue(n))
  {
    Text.StripNoSpace(s);
  }

  /** A numeral without fraction or exponent is worth its digits. */
  lemma WholeNumeralValue(negative: bool, digits: string)
    requires Text.AllDigits(digits) && |digits| > 0
    ensures NumeralValue(Numeral(negative, digits, "", 0))
            == if negative then -(Text.DigitsValue(digits) as real) else Text.DigitsValue(digits) as real
  {
  }

  /** A numeral of digits, possibly after a minus sign, reads as those digits. */
  lemma ParseOfDigits(digits: string, negative: bool)
    requires Text.AllDigits(digits) && |digits| > 0
    ensures ParseNumeral(WithSign(negative, digits)) == Some(Numeral(negative, digits, "", 0))
  {
    ParseSigned(digits, negative);
    NoMarkInDigits(digits);
    assert digits[..|digits|] == digits;
  }

  /** A minus sign in front of a numeral sets its sign; without one the numeral is read as it is. */
  lemma ParseSigned(body: string, negative: bool)
    requires |body| > 0 && Text.IsDigit(body[0])
    ensures ParseNumeral(WithSign(negative, body)) == ParseUnsigned(negative, body)
  {
    if negative {
      assert ("-" + body)[1..] == body;
    }
  }

  /** A numeral has neither a decimal point nor an exponent mark. */
  lemma NoMarkInDigits(d: string)
    requires Text.AllDigits(d)
    ensures FirstOf(d, EXPONENT_MARKS) == |d| && FirstOf(d, POINT) == |d|
  {
  }

  /** A decimal numeral, possibly after a minus sign, reads as its whole part and fraction. */
  lemma ParseOfDecimal(whole: string, fraction: string, negative: bool)
    requires Text.AllDigits(whole) && |whole| > 0 && Text.AllDigits(fraction)
    ensures ParseNumeral(WithSign(negative, whole + "." + fraction)) == Some(Numeral(negative, whole, fraction, 0))
  {
    var u := whole + "." + fraction;
    assert u[0] == whole[0];
    ParseSigned(u, negative);
    NoMarkInDecimal(whole, fraction);
    assert u[..|u|] == u;
    FirstPointAfter(whole, fraction);
    assert u[..|whole|] == whole && u[|whole| + 1..] == fraction;
  }

  /** The point of a decimal numeral is the first point in it. */
  lemma FirstPointAfter(whole: string, fraction: string)
    requires Text.AllDigits(whole)
    ensures FirstOf(whole + "." + fraction, POINT) == |whole|
  {
    var u := whole + "." + fraction;
    assert u[|whole|] == '.';
    assert forall j :: 0 <= j < |whole| ==> u[j] == whole[j];
  }

  /** A decimal numeral has no exponent mark. */
  lemma NoMarkInDecimal(whole: string, fraction: string)
    requires Text.AllDigits(whole) && Text.AllDigits(fraction)
    ensures FirstOf(whole + "." + fraction, EXPONENT_MARKS) == |whole + "." + fraction|
  {
    var u := whole + "." + fraction;
    assert forall j :: 0 <= j < |u| ==> Text.IsDigit(u[j]) || u[j] == '.';
  }

  /** A whole numeral with an exponent, possibly after a minus sign, reads as the digits and the power. */
  lemma ParseOfExponent(whole: string, k: nat, negative: bool)
    requires Text.AllDigits(whole) && |whole| > 0
    ensures ParseNumeral(WithSign(negative, whole + ("e" + Text.NatToString(k)))) == Some(Numeral(negative, whole, "", k))
  {
    var digits := Text.NatToString(k);
    var u := whole + ("e" + digits);
    assert u[0] == whole[0];
    ParseSigned(u, negative);
    FirstMarkAfter(whole, 'e', digits, EXPONENT_MARKS);
    assert u[..|whole|] == whole && u[|whole| + 1..] == digits;
    ExponentOfNumeral(k);
    UnsignedWithExponent(negative, u, whole, digits, k);
  }

  /** A numeral split at its exponent mark into digits and an exponent reads as those parts. */
  lemma UnsignedWithExponent(negative: bool, u: string, whole: string, digits: string, k: int)
    requires Text.AllDigits(whole) && |whole| > 0
    requires FirstOf(u, EXPONENT_MARKS) == |whole| < |u| && u[..|whole|] == whole && u[|whole| + 1..] == digits
    requires ExponentValue(digits) == Some(k)
    ensures ParseUnsigned(negative, u) == Some(Numeral(negative, whole, "", k))
  {
    NoMarkInDigits(whole);
    assert whole[..|whole|] == whole;
  }

  /** A mark after a run free of marks is the first mark. */
  lemma FirstMarkAfter(prefix: string, mark: char, rest: string, marks: set<char>)
    requires mark in marks && forall j :: 0 <= j < |prefix| ==> prefix[j] !in marks
    ensures FirstOf(prefix + ([mark] + rest), marks) == |prefix|
  {
    var u := prefix + ([mark] + rest);
    assert u[|prefix|] == mark;
    assert forall j :: 0 <= j < |prefix| ==> u[j] == prefix[j];
  }

  /** An exponent written without sign reads as its value. */
  lemma ExponentOfNumeral(k: nat)
    ensures ExponentValue(Text.NatToString(k)) == Some(k)
  {
    var digits := Text.NatToString(k);
    Text.NatToStringValue(k);
    assert Text.IsDigit(digits[0]);
  }

  /** The digits after a decimal point are worth less than one. */
  lemma {:induction false} FractionBounds(f: string)
    requires Text.AllDigits(f)
    ensures 0.0 <= FractionValue(f) < 1.0
  {
    if |f| > 0 {
      FractionBounds(f[1..]);
    }
  }

  /** `n` followed by `k` zeros: `n` times ten to the `k`. */
  function TimesPow10(n: nat, k: nat): nat
    decreases k
  {
    if k == 0 then n else TimesPow10(10 * n, k - 1)
  }

  /** Scaling a whole number up by `k` places appends `k` zeros. */
  lemma {:induction false} ScaledWhole(n: nat, k: nat)
    ensures Scaled(n as real, k) == TimesPow10(n, k) as real
    decreases k
  {
    if k > 0 {
      ScaledWhole(10 * n, k - 1);
    }
  }

  /** Text whose stripped form parses coerces to its value, cut toward zero. */
  lemma ToIntOfParsed(s: string, n: Numeral)
    requires |s| > 0 && !Text.IsSpace(s[0]) && !Text.IsSpace(s[|s| - 1])
    requires ParseNumeral(s) == Some(n)
    ensures ToInt(Str(s)) == TruncToInt(NumeralValue(n))
  {
    ToNumericOfParsed(s, n);
  }

  /** A whole number plus a fraction in [0, 1) truncates to the whole number, on either side of zero. */
  lemma TruncOfWholeAndFraction(w: nat, f: real)
    requires 0.0 <= f < 1.0
    ensures TruncToInt(w as real + f) == w && TruncToInt(-(w as real + f)) == -(w as int)
  {
  }

  /** A decimal numeral coerces to its whole part: `astype(int)` drops the fraction, toward zero. */
  lemma ToIntOfDecimal(whole: string, fraction: string, negative: bool)
    requires Text.AllDigits(whole) && |whole| > 0 && Text.AllDigits(fraction)
    ensures ToInt(Str(WithSign(negative, whole + "." + fraction)))
            == if negative then -(Text.DigitsValue(whole) as int) else Text.DigitsValue(whole) as int
  {
    var s := WithSign(negative, whole + "." + fraction);
    DecimalStripped(whole, fraction, negative);
    ParseOfDecimal(whole, fraction, negative);
    ToIntOfParsed(s, Numeral(negative, whole, fraction, 0));
    DecimalTruncates(whole, fraction, negative);
  }

  /** A numeral without exponent truncates to its signed whole part. */
  lemma DecimalTruncates(whole: string, fraction: string, negative: bool)
    requires Text.AllDigits(whole) && |whole| > 0 && Text.AllDigits(fraction)
    ensures TruncToInt(NumeralValue(Numeral(negative, whole, fraction, 0)))
            == if negative then -(Text.DigitsValue(whole) as int) else Text.DigitsValue(whole) as int
  {
    FractionBounds(fraction);
    TruncOfWholeAndFraction(Text.DigitsValue(whole), FractionValue(fraction));
  }

  /** A decimal numeral, signed or not, neither starts nor ends with whitespace. */
  lemma DecimalStripped(whole: string, fraction: string, negative: bool)
    requires Text.AllDigits(whole) && |whole| > 0 && Text.AllDigits(fraction)
    ensures var s := WithSign(negative, whole + "." + fraction); !Text.IsSpace(s[0]) && !Text.IsSpace(s[|s| - 1])
  {
    var s := WithSign(negative, whole + "." + fraction);
    assert Text.IsDigit(s[0]) || s[0] == '-' by {
      if !negative {
        assert s[0] == whole[0];
      }
    }
    assert Text.IsDigit(s[|s| - 1]) || s[|s| - 1] == '.' by {
      if |fraction| > 0 {
        assert s[|s| - 1] == fraction[|fraction| - 1];
      }
    }
  }

  /** A whole numeral with a non-negative exponent coerces to the whole number followed by that many zeros. */
  lemma ToIntOfExponent(whole: string, k: nat, negative: bool)
    requires Text.AllDigits(whole) && |whole| > 0
    ensures ToInt(Str(WithSign(negative, whole + ("e" + Text.NatToString(k)))))
            == if negative then -(TimesPow10(Text.DigitsValue(whole), k) as int) else TimesPow10(Text.DigitsValue(whole), k)
  {
    var s := WithSign(negative, whole + ("e" + Text.NatToString(k)));
    var m := TimesPow10(Text.DigitsValue(whole), k);
    ExponentStripped(whole, Text.NatToString(k), negative);
    ParseOfExponent(whole, k, negative);
    ToIntOfParsed(s, Numeral(negative, whole, "", k));
    ScaledWhole(Text.DigitsValue(whole), k);
    assert Text.DigitsValue(whole) as real + FractionValue("") == Text.DigitsValue(whole) as real;
    TruncOfWholeAndFraction(m, 0.0);
  }

  /** A numeral with an exponent, signed or not, neither starts nor ends with whitespace. */
  lemma ExponentStripped(whole: string, exponent: string, negative: bool)
    requires Text.AllDigits(whole) && |whole| > 0 && Text.AllDigits(exponent) && |exponent| > 0
    ensures var s := WithSign(negative, whole + ("e" + exponent)); !Text.IsSpace(s[0]) && !Text.IsSpace(s[|s| - 1])
  {
    var s := WithSign(negative, whole + ("e" + exponent));
    assert Text.IsDigit(s[0]) || s[0] == '-' by {
      if !negative {
        assert s[0] == whole[0];
      }
    }
    assert s[|s| - 1] == exponent[|exponent| - 1];
  }

  /** Coercion keeps every integer, whether it was stored as a number or written out as text. */
  lemma ToIntKeepsIntegers(n: int)
    ensures ToInt(Num(n)) == n
    ensures ToInt(Str(Text.IntToString(n))) == n
    ensures ToInt(Str(CellText(Num(n)))) == n
  {
    ToNumericOfIntToString(n);
  }

  /** Text that is not a number, and a gap, both coerce to 0. */
  lemma ToIntCoercesToZero(c: Cell)
    requires c.Missing? || (c.Str? && ToNumeric(c.s).None?)
    ensures ToInt(c) == 0
  {
  }

  // ---------------------------------------------------------------- tables and id files

  /** A table read by pandas: its column names in order, and each column's cells. */
  datatype Table = Table(columns: seq<string>, data: map<string, seq<Cell>>)

  /** `df[name]`, empty for a column the table does not hold. */
  function Column(t: Table, name: string): seq<Cell>
  {
    if name in t.data then t.data[name] else []
  }

  /** The first of `candidates` that names a column, as the `for col in [...]: if col in df.columns` loops pick it. */
  function FirstColumn(columns: seq<string>, candidates: seq<string>): (r: Option<string>)
    ensures r.Some? ==> r.value in columns
    ensures r.Some? ==> exists i :: 0 <= i < |candidates| && candidates[i] == r.value
                          && forall j :: 0 <= j < i ==> candidates[j] !in columns
    ensures r.None? <==> forall i :: 0 <= i < |candidates| ==> candidates[i] !in columns
  {
    if |candidates| == 0 then None
    else if candidates[0] in columns then Some(candidates[0])
    else
      var r := FirstColumn(columns, candidates[1..]);
      assert forall i :: 1 <= i < |candidates| ==> candidates[i] == candidates[1..][i - 1];
      r
  }

  function PresentText(c: Cell): Option<string>
  {
    if c.Missing? then None else Some(CellText(c))
  }

  /** `s` is the text of some present cell of `cells`. */
  predicate TextOfSome(cells: seq<Cell>, s: string)
  {
    exists j :: 0 <= j < |cells| && !cells[j].Missing? && CellText(cells[j]) == s
  }

  /** `column.dropna().astype(str)`: the text of every present cell, in order. */
  function PresentTexts(cells: seq<Cell>): (r: seq<string>)
    ensures |r| <= |cells|
    ensures forall i :: 0 <= i < |r| ==> TextOfSome(cells, r[i])
    ensures forall j :: 0 <= j < |cells| && !cells[j].Missing? ==> CellText(cells[j]) in r
  {
    var r := Seqs.Successes(cells, PresentText);
    assert forall j :: 0 <= j < |cells| && !cells[j].Missing? ==> PresentText(cells[j]) == Some(CellText(cells[j]));
    forall i | 0 <= i < |r|
      ensures TextOfSome(cells, r[i])
    {
      var j :| 0 <= j < |cells| && PresentText(cells[j]) == Some(r[i]);
    }
    r
  }

  function NonBlank(line: string): Option<string>
  {
    var t := Text.Strip(line);
    if t == "" then None else Some(t)
  }

  /** `[line.strip() for line in f if line.strip()]`: the non-blank lines, stripped, in order. */
  function LineIds(lines: seq<string>): (r: seq<string>)
    ensures |r| <= |lines|
    ensures forall i :: 0 <= i < |r| ==> r[i] != "" && Text.Strip(r[i]) == r[i]
    ensures forall i :: 0 <= i < |r| ==> exists j :: 0 <= j < |lines| && Text.Strip(lines[j]) == r[i]
    ensures forall j :: 0 <= j < |lines| && Text.Strip(lines[j]) != "" ==> Text.Strip(lines[j]) in r
  {
    var r := Seqs.Successes(lines, NonBlank);
    NonBlankLines(lines, r);
    r
  }

  /** Each kept line is the stripped form of some line, and is neither blank nor padded. */
  lemma NonBlankLines(lines: seq<string>, r: seq<string>)
    requires r == Seqs.Successes(lines, NonBlank)
    ensures forall i :: 0 <= i < |r| ==> r[i] != "" && Text.Strip(r[i]) == r[i]
    ensures forall i :: 0 <= i < |r| ==> exists j :: 0 <= j < |lines| && Text.Strip(lines[j]) == r[i]
  {
    forall i | 0 <= i < |r|
      ensures r[i] != "" && Text.Strip(r[i]) == r[i]
      ensures exists j :: 0 <= j < |lines| && Text.Strip(lines[j]) == r[i]
    {
      var j :| 0 <= j < |lines| && NonBlank(lines[j]) == Some(r[i]);
      NonBlankLine(lines[j], r[i]);
    }
  }

  /** A kept line is the stripped line, neither blank nor padded. */
  lemma NonBlankLine(line: string, t: string)
    requires NonBlank(line) == Some(t)
    ensures t != "" && Text.Strip(t) == t && Text.Strip(line) == t
  {
    Text.StripIdempotent(line);
  }

  /** An id list on disk: a spreadsheet (CSV or Excel) or plain text with one id per line. */
  datatype IdFile = Sheet(table: Table) | PlainText(lines: seq<string>)
}
