/**
 * PHP 8 numeric strings, as `is_numeric` recognises them and as the `(int)`
 * cast and a numeric comparison in the store read them.
 *
 * A numeric string is: optional leading whitespace, an optional sign, digits
 * with at most one decimal point and at least one digit, an optional
 * exponent (`e` or `E`, optional sign, at least one digit), and optional
 * trailing whitespace. The note id of a request is modelled by its text: the
 * contents of a JSON string, or the literal of a JSON number (JSON number
 * literals are numeric strings).
 */
module PhpNumeric {
  import opened Wrappers
  import opened Text

  /** Whitespace allowed around a numeric string: space, tab, newline, carriage return, vertical tab, form feed. */
  predicate IsNumericSpace(c: char)
  {
    c == ' ' || c == '\t' || c == '\n' || c == '\r' || c == '\U{B}' || c == '\U{C}'
  }

  /** The exact value `(if negative then -1 else 1) * digits * 10^scale`. */
  datatype Number = Number(negative: bool, digits: nat, scale: int)

  /** End of the run of whitespace starting at `i`. */
  function SpaceEnd(s: string, i: nat): (j: nat)
    requires i <= |s|
    ensures i <= j <= |s|
    ensures forall k :: i <= k < j ==> IsNumericSpace(s[k])
    ensures j < |s| ==> !IsNumericSpace(s[j])
    decreases |s| - i
  {
    if i < |s| && IsNumericSpace(s[i]) then SpaceEnd(s, i + 1) else i
  }

  /** End of the run of decimal digits starting at `i`. */
  function DigitEnd(s: string, i: nat): (j: nat)
    requires i <= |s|
    ensures i <= j <= |s|
    ensures AllDigits(s[i..j])
    ensures j < |s| ==> !IsDigit(s[j])
    decreases |s| - i
  {
    if i < |s| && IsDigit(s[i]) then DigitEnd(s, i + 1) else i
  }

  /** Reads the exponent part that starts at `e` (just after the `e`/`E`) and the trailing whitespace. */
  function ParseExponent(s: string, e: nat): (r: Option<int>)
    requires e <= |s|
  {
    var negative := e < |s| && s[e] == '-';
    var d := if e < |s| && (s[e] == '+' || s[e] == '-') then e + 1 else e;
    var d' := DigitEnd(s, d);
    if d' == d || SpaceEnd(s, d') != |s| then None
    else Some(if negative then -(DigitsValue(s[d..d']) as int) else DigitsValue(s[d..d']))
  }

  /** The value of `s` when `is_numeric(s)` holds, `None` otherwise. */
  function ParseNumeric(s: string): Option<Number>
  {
    var i0 := SpaceEnd(s, 0);
    var negative := i0 < |s| && s[i0] == '-';
    var i1 := if i0 < |s| && (s[i0] == '+' || s[i0] == '-') then i0 + 1 else i0;
    var i2 := DigitEnd(s, i1);
    var point := i2 < |s| && s[i2] == '.';
    var f := if point then i2 + 1 else i2;
    var i3 := DigitEnd(s, f);
    if i2 == i1 && i3 == f then None
    else
      var mantissa := DigitsValue(s[i1..i2] + s[f..i3]);
      var fraction := i3 - f;
      if i3 < |s| && (s[i3] == 'e' || s[i3] == 'E') then
        match ParseExponent(s, i3 + 1)
        case None => None
        case Some(x) => Some(Number(negative, mantissa, x - fraction))
      else if SpaceEnd(s, i3) != |s| then None
      else Some(Number(negative, mantissa, -fraction))
  }

  /** PHP `is_numeric` on a string. */
  predicate IsNumeric(s: string)
  {
    ParseNumeric(s).Some?
  }

  /** The value as a signed integer numerator over `10^-scale` (or times `10^scale`). */
  function Signed(n: Number): int
  {
    if n.negative then -(n.digits as int) else n.digits as int
  }

  /** The value has no fractional part. */
  predicate IsIntegral(n: Number)
  {
    n.scale >= 0 || n.digits % Pow10(-n.scale) == 0
  }

  /** PHP's `(int)` cast: the value truncated toward zero. */
  function IntCast(n: Number): int
  {
    var magnitude := if n.scale >= 0 then n.digits * Pow10(n.scale) else n.digits / Pow10(-n.scale);
    if n.negative then -magnitude else magnitude
  }

  /** The exact value equals the integer `k`: what the store's `WHERE id = ?` asks of each row. */
  predicate ValueEquals(n: Number, k: int)
  {
    if n.scale >= 0 then Signed(n) * Pow10(n.scale) == k
    else Signed(n) == k * Pow10(-n.scale)
  }

  /**
   * A row id matches a numeric id exactly when the id has no fractional part
   * and its `(int)` cast is that row id. So a lookup by value finds at most
   * one row, the one the cast names.
   */
  lemma ValueEqualsIffIntegralCast(n: Number, k: int)
    ensures ValueEquals(n, k) <==> IsIntegral(n) && IntCast(n) == k
  {
    if n.scale < 0 {
      var p := Pow10(-n.scale);
      var q, r := n.digits / p, n.digits % p;
      assert n.digits == q * p + r;
      if ValueEquals(n, k) {
        var m := if n.negative then -k else k;
        assert n.digits == m * p;
        assert m >= 0 by {
          if m < 0 { MulNegative(m, p); }
        }
        LemmaDivModUnique(n.digits, p, m, 0);
      }
      if IsIntegral(n) && IntCast(n) == k {
        assert n.digits == q * p;
        if n.negative {
          assert -(q * p) == (-q) * p;
        }
      }
    }
  }

  lemma MulNegative(m: int, p: int)
    requires m < 0 && p > 0
    ensures m * p < 0
  {
    assert (-m) * p > 0 by { MulAtLeast(-m, p); }
  }

  /** The decimal text of an integer, as a JSON number literal writes it. */
  function DecimalText(k: int): string
  {
    if k < 0 then "-" + NatDigits(-k) else NatDigits(k)
  }

  lemma {:induction false} DigitEndOfDigits(s: string, i: nat)
    requires i <= |s| && AllDigits(s[i..])
    ensures DigitEnd(s, i) == |s|
    decreases |s| - i
  {
    if i < |s| {
      assert s[i] == s[i..][0];
      assert s[i + 1..] == s[i..][1..];
      DigitEndOfDigits(s, i + 1);
    }
  }

  /** A JSON integer literal is numeric and reads back as that integer, so the cast and the comparison agree on it. */
  lemma DecimalTextRoundTrip(k: int)
    ensures ParseNumeric(DecimalText(k)) == Some(Number(k < 0, if k < 0 then -k else k, 0))
    ensures IsNumeric(DecimalText(k)) && IntCast(ParseNumeric(DecimalText(k)).value) == k
    ensures ValueEquals(ParseNumeric(DecimalText(k)).value, k)
  {
    var s := DecimalText(k);
    var m: nat := if k < 0 then -k else k;
    var i1 := if k < 0 then 1 else 0;
    assert s[i1..] == NatDigits(m);
    assert SpaceEnd(s, 0) == 0;
    DigitEndOfDigits(s, i1);
    assert s[i1..|s|] + s[|s|..|s|] == NatDigits(m);
    NatDigitsRoundTrip(m);
  }

  /** Strings the id check turns away: empty, words, a lone point, a dangling exponent, hexadecimal. */
  lemma NotNumericExamples()
    ensures !IsNumeric("") && !IsNumeric("abc") && !IsNumeric(".")
  {
  }

  lemma DanglingExponentIsNotNumeric()
    ensures !IsNumeric("1e")
  {
    var s := "1e";
    assert DigitEnd(s, 1) == 1;
    assert DigitEnd(s, 0) == 1;
    assert SpaceEnd(s, 2) == 2 && DigitEnd(s, 2) == 2;
    assert ParseExponent(s, 2) == None;
  }

  lemma HexadecimalIsNotNumeric()
    ensures !IsNumeric("0x1A")
  {
    var s := "0x1A";
    assert DigitEnd(s, 1) == 1;
    assert DigitEnd(s, 0) == 1;
    assert SpaceEnd(s, 1) == 1;
  }

  /** Surrounding whitespace is allowed. */
  lemma SpacedIntegerExample()
    ensures ParseNumeric(" 12 ") == Some(Number(false, 12, 0))
  {
    var a := " 12 ";
    assert SpaceEnd(a, 0) == 1;
    assert DigitEnd(a, 3) == 3 && DigitEnd(a, 2) == 3 && DigitEnd(a, 1) == 3;
    assert SpaceEnd(a, 4) == 4 && SpaceEnd(a, 3) == 4;
    assert a[1..3] + a[3..3] == "12";
    assert DigitsValue("12") == 12 by { assert "12"[..1] == "1"; }
  }

  /** A fractional id keeps its fraction: 12.5 is 125 * 10^-1. */
  lemma FractionExample()
    ensures ParseNumeric("12.5") == Some(Number(false, 125, -1))
  {
    var b := "12.5";
    assert DigitEnd(b, 2) == 2 && DigitEnd(b, 1) == 2 && DigitEnd(b, 0) == 2;
    assert DigitEnd(b, 4) == 4 && DigitEnd(b, 3) == 4;
    assert SpaceEnd(b, 4) == 4;
    assert b[0..2] + b[3..4] == "125";
    assert DigitsValue("125") == 125 by {
      assert "125"[..2] == "12";
      assert "12"[..1] == "1";
    }
  }

  /** Exponent notation is numeric: 1e3 is 1 * 10^3. */
  lemma ExponentExample()
    ensures ParseNumeric("1e3") == Some(Number(false, 1, 3))
  {
    var c := "1e3";
    assert DigitEnd(c, 1) == 1 && DigitEnd(c, 0) == 1;
    assert DigitEnd(c, 3) == 3 && DigitEnd(c, 2) == 3;
    assert SpaceEnd(c, 3) == 3;
    assert c[0..1] + c[1..1] == "1";
    assert c[2..3] == "3";
    assert DigitsValue("3") == 3 by { assert "3"[..0] == ""; }
    assert ParseExponent(c, 2) == Some(3);
  }
}
