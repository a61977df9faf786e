/** Spreadsheet cells as pandas hands them over, and the two conversions the
    loader applies to a column: `pd.to_numeric(..., errors='coerce')` and
    `astype(str)`. */
module Cells {
  import opened Wrappers

  /** A cell: missing (NaN), a number, or text. A number keeps the text
      Python's `str()` gives for it in its column (`"1"` in a column of
      integers and text, `"1.0"` in a float column). */
  datatype Cell = Empty | Number(value: real, shown: string) | Text(text: string)

  predicate IsDigit(c: char) {
    '0' <= c <= '9'
  }

  predicate AllDigits(s: string) {
    forall i :: 0 <= i < |s| ==> IsDigit(s[i])
  }

  /** The value of a string of decimal digits, most significant first. */
  function DigitsValue(s: string): nat
    requires AllDigits(s)
  {
    if s == [] then 0 else DigitsValue(s[..|s| - 1]) * 10 + (s[|s| - 1] as int - '0' as int)
  }

  function Pow10(k: nat): (r: nat)
    ensures r >= 1
  {
    if k == 0 then 1 else 10 * Pow10(k - 1)
  }

  /** An unsigned decimal: digits, optionally followed by `.` and more digits,
      with at least one digit in all (`"12"`, `"12."`, `".5"`, `"3.25"`). */
  function ParseUnsigned(s: string): Option<real> {
    var dot := if '.' in s then IndexOf(s, '.') else |s|;
    var whole := s[..dot];
    var frac := if dot < |s| then s[dot + 1..] else "";
    if AllDigits(whole) && AllDigits(frac) && |whole| + |frac| > 0 then
      Some(DigitsValue(whole) as real + DigitsValue(frac) as real / Pow10(|frac|) as real)
    else
      None
  }

  function IndexOf(s: string, c: char): (i: nat)
    requires c in s
    ensures i < |s| && s[i] == c && c !in s[..i]
  {
    if s[0] == c then 0 else 1 + IndexOf(s[1..], c)
  }

  /** The numbers `pd.to_numeric` reads from text: an optional sign followed by
      an unsigned decimal. `None` is the NaN that `errors='coerce'` produces. */
  function ParseNumber(s: string): Option<real> {
    if |s| > 0 && s[0] == '-' then
      match ParseUnsigned(s[1..])
      case Some(v) => Some(-v)
      case None => None
    else if |s| > 0 && s[0] == '+' then ParseUnsigned(s[1..])
    else ParseUnsigned(s)
  }

  /** `pd.to_numeric(cell, errors='coerce')`: `None` stands for NaN. */
  function ToNumeric(c: Cell): Option<real> {
    match c
    case Empty => None
    case Number(v, _) => Some(v)
    case Text(s) => ParseNumber(s)
  }

  /** `pd.to_numeric(cell, errors='coerce').fillna(0)`: a count cell that is
      missing or not a number counts as 0; the row is kept. */
  function CountValue(c: Cell): (v: real)
    ensures c.Number? ==> v == c.value
    ensures c.Empty? ==> v == 0.0
    ensures c.Text? && ParseNumber(c.text).None? ==> v == 0.0
    ensures c.Text? && ParseNumber(c.text).Some? ==> v == ParseNumber(c.text).value
  {
    match ToNumeric(c)
    case Some(v) => v
    case None => 0.0
  }

  /** `astype(str)` of one cell: a missing cell becomes the text `"nan"`. */
  function CellText(c: Cell): string {
    match c
    case Empty => "nan"
    case Number(_, shown) => shown
    case Text(s) => s
  }

  /** Decimal digits of a natural number, as Python's `str()` writes it. */
  function NatString(n: nat): (s: string)
    ensures |s| > 0 && AllDigits(s)
  {
    if n < 10 then ['0' + n as char] else NatString(n / 10) + ['0' + (n % 10) as char]
  }

  /** Reading the digits back gives the number. */
  lemma {:induction false} DigitsValueOfNatString(n: nat)
    ensures DigitsValue(NatString(n)) == n
  {
    if n >= 10 {
      DigitsValueOfNatString(n / 10);
      var s := NatString(n);
      assert s[..|s| - 1] == NatString(n / 10);
    }
  }

  /** `pd.to_numeric` reads back any integer written in decimal. */
  lemma ParseNumberOfInteger(n: nat)
    ensures ParseNumber(NatString(n)) == Some(n as real)
    ensures ParseNumber("-" + NatString(n)) == Some(-(n as real))
  {
    var s := NatString(n);
    DigitsValueOfNatString(n);
    assert '.' !in s;
    assert s[..|s|] == s;
    assert DigitsValue("") == 0 && Pow10(0) == 1;
    assert ParseUnsigned(s) == Some(n as real);
    assert ("-" + s)[1..] == s;
  }

  /** Text that is not a number is coerced to a count of 0. */
  lemma WordCountIsZero()
    ensures CountValue(Text("abc")) == 0.0
  {
    assert '.' !in "abc";
    assert !IsDigit("abc"[0]);
  }

  /** A thousands separator makes the text unreadable as a number, so the
      count becomes 0. */
  lemma SeparatedCountIsZero()
    ensures CountValue(Text("1,234")) == 0.0
  {
    assert '.' !in "1,234";
    assert !IsDigit("1,234"[1]);
  }

  lemma DecimalCount()
    ensures CountValue(Text("12.5")) == 12.5
  {
    assert IndexOf("12.5", '.') == 2;
    assert "12.5"[..2] == "12";
    assert "12.5"[3..] == "5";
    assert DigitsValue("12") == 12 by {
      assert "12"[..1] == "1";
    }
  }
}
