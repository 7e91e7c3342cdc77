/** Conversion between tk text indices (`"line.column"` strings with a
    1-based line) and tree-sitter points (0-based row and column). */
module Coordinates {
  import opened Wrappers
  import opened Strings
  import opened Tree

  /** A tk text index: 1-based line, 0-based column. */
  datatype TkIndex = TkIndex(line: int, column: int)

  /** The point of a tk index: one row lower, same column. */
  function ToPoint(t: TkIndex): Point
  {
    Point(t.line - 1, t.column)
  }

  /** The tk index of a point, inverse of `ToPoint`. */
  function ToTk(p: Point): (t: TkIndex)
    ensures ToPoint(t) == p
  {
    TkIndex(p.row + 1, p.column)
  }

  lemma TkRoundTrip(t: TkIndex)
    ensures ToTk(ToPoint(t)) == t
  {
  }

  // ---------------------------------------------------------------------
  // Decimal text of integers, as `str(i)` writes it and `int(s)` reads it.

  predicate IsDigit(c: char) {
    '0' <= c <= '9'
  }

  predicate AllDigits(s: string) {
    forall i :: 0 <= i < |s| ==> IsDigit(s[i])
  }

  function DigitChar(d: nat): (c: char)
    requires d < 10
    ensures IsDigit(c) && DigitValue(c) == d
  {
    ('0' as int + d) as char
  }

  function DigitValue(c: char): nat
    requires IsDigit(c)
  {
    c as int - '0' as int
  }

  /** Decimal digits of `n`, without leading zeros. */
  function NatToDecimal(n: nat): (s: string)
    ensures |s| > 0 && AllDigits(s)
    decreases n
  {
    if n < 10 then [DigitChar(n)] else NatToDecimal(n / 10) + [DigitChar(n % 10)]
  }

  /** Value of a string of decimal digits (leading zeros allowed). */
  function DecimalValue(s: string): nat
    requires AllDigits(s)
    decreases |s|
  {
    if |s| == 0 then 0 else DecimalValue(s[..|s| - 1]) * 10 + DigitValue(s[|s| - 1])
  }

  lemma {:induction false} DecimalRoundTrip(n: nat)
    ensures DecimalValue(NatToDecimal(n)) == n
    decreases n
  {
    if n >= 10 {
      var s := NatToDecimal(n);
      DecimalRoundTrip(n / 10);
      assert s[..|s| - 1] == NatToDecimal(n / 10);
    }
  }

  /** `str(i)` for an integer. */
  function IntToString(i: int): (s: string)
    ensures |s| > 0 && '.' !in s
  {
    if i < 0 then "-" + NatToDecimal(-i) else NatToDecimal(i)
  }

  /** `int(s)` on an optional sign followed by ASCII digits; `None` for the
      inputs on which `int` raises. */
  function ParseInt(s: string): (r: Option<int>)
    ensures r.Some? ==> |s| > 0
  {
    if |s| > 0 && (s[0] == '-' || s[0] == '+') then
      var body := s[1..];
      if |body| > 0 && AllDigits(body) then
        var magnitude: int := DecimalValue(body);
        Some(if s[0] == '-' then -magnitude else magnitude)
      else None
    else if |s| > 0 && AllDigits(s) then Some(DecimalValue(s))
    else None
  }

  lemma IntRoundTrip(i: int)
    ensures ParseInt(IntToString(i)) == Some(i)
  {
    if i < 0 {
      var s := IntToString(i);
      assert s[1..] == NatToDecimal(-i);
      DecimalRoundTrip(-i);
    } else {
      DecimalRoundTrip(i);
    }
  }

  /** `f"{line}.{column}"` */
  function FormatIndex(t: TkIndex): string
  {
    IntToString(t.line) + "." + IntToString(t.column)
  }

  /** `map(int, s.split("."))` unpacked into a line and a column: fails unless
      there is exactly one dot and both sides are integers. */
  function ParseIndex(s: string): (r: Option<TkIndex>)
    ensures r.Some? ==> IndexOf(s, '.') < |s| && '.' !in s[IndexOf(s, '.') + 1..]
  {
    var dot := IndexOf(s, '.');
    if dot == |s| || '.' in s[dot + 1..] then None
    else
      match (ParseInt(s[..dot]), ParseInt(s[dot + 1..]))
      case (Some(line), Some(column)) => Some(TkIndex(line, column))
      case _ => None
  }

  /** Formatting a tk index and parsing it back gives the same index. */
  lemma IndexRoundTrip(t: TkIndex)
    ensures ParseIndex(FormatIndex(t)) == Some(t)
  {
    var a, b := IntToString(t.line), IntToString(t.column);
    var s := FormatIndex(t);
    assert s[|a|] == '.';
    assert forall i :: 0 <= i < |a| ==> s[i] == a[i];
    assert IndexOf(s, '.') == |a|;
    assert s[..|a|] == a;
    assert s[|a| + 1..] == b;
    IntRoundTrip(t.line);
    IntRoundTrip(t.column);
  }

  /** A tree-sitter point survives the trip through a tk index string. */
  lemma PointRoundTrip(p: Point)
    ensures ParseIndex(FormatIndex(ToTk(p))).Some?
    ensures ToPoint(ParseIndex(FormatIndex(ToTk(p))).value) == p
  {
    IndexRoundTrip(ToTk(p));
  }
}
