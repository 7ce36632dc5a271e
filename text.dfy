/**
 * String helpers shared by the PHP backend and the JavaScript screens:
 * trimming with a given whitespace set, decimal digits, and lexicographic
 * comparison. Strings are sequences of Unicode scalar values.
 */
module Text {

  /** Strips leading characters that satisfy `isSpace`. */
  function TrimStart(s: string, isSpace: char -> bool): string
  {
    if s != [] && isSpace(s[0]) then TrimStart(s[1..], isSpace) else s
  }

  /** Strips trailing characters that satisfy `isSpace`. */
  function TrimEnd(s: string, isSpace: char -> bool): string
  {
    if s != [] && isSpace(s[|s| - 1]) then TrimEnd(s[..|s| - 1], isSpace) else s
  }

  /** `TrimStart` removes a prefix made only of whitespace and stops at the first other character. */
  lemma TrimStartIsSpacePrefix(s: string, isSpace: char -> bool)
    ensures var r := TrimStart(s, isSpace);
            && |r| <= |s| && r == s[|s| - |r|..]
            && (forall k :: 0 <= k < |s| - |r| ==> isSpace(s[k]))
            && (r != [] ==> !isSpace(r[0]))
  {
    TrimStartIsSuffix(s, isSpace);
    TrimStartSkipsSpaces(s, isSpace);
    TrimStartStops(s, isSpace);
  }

  lemma {:induction false} TrimStartIsSuffix(s: string, isSpace: char -> bool)
    ensures var r := TrimStart(s, isSpace);
            |r| <= |s| && r == s[|s| - |r|..]
  {
    if s != [] && isSpace(s[0]) {
      var t, r := s[1..], TrimStart(s[1..], isSpace);
      TrimStartIsSuffix(t, isSpace);
      assert TrimStart(s, isSpace) == r;
      assert t[|t| - |r|..] == s[|s| - |r|..];
    }
  }

  lemma {:induction false} TrimStartSkipsSpaces(s: string, isSpace: char -> bool)
    ensures var r := TrimStart(s, isSpace);
            forall k :: 0 <= k < |s| - |r| ==> isSpace(s[k])
  {
    if s != [] && isSpace(s[0]) {
      var t, r := s[1..], TrimStart(s[1..], isSpace);
      TrimStartSkipsSpaces(t, isSpace);
      assert TrimStart(s, isSpace) == r;
      assert forall k :: 1 <= k < |s| - |r| ==> s[k] == t[k - 1];
    }
  }

  lemma {:induction false} TrimStartStops(s: string, isSpace: char -> bool)
    ensures var r := TrimStart(s, isSpace);
            r != [] ==> !isSpace(r[0])
  {
    if s != [] && isSpace(s[0]) {
      TrimStartStops(s[1..], isSpace);
    }
  }

  /** `TrimEnd` removes a suffix made only of whitespace and stops at the last other character. */
  lemma TrimEndIsSpaceSuffix(s: string, isSpace: char -> bool)
    ensures var r := TrimEnd(s, isSpace);
            && |r| <= |s| && r == s[..|r|]
            && (forall k :: |r| <= k < |s| ==> isSpace(s[k]))
            && (r != [] ==> !isSpace(r[|r| - 1]))
  {
    TrimEndIsPrefix(s, isSpace);
    TrimEndSkipsSpaces(s, isSpace);
    TrimEndStops(s, isSpace);
  }

  lemma {:induction false} TrimEndIsPrefix(s: string, isSpace: char -> bool)
    ensures var r := TrimEnd(s, isSpace);
            |r| <= |s| && r == s[..|r|]
  {
    if s != [] && isSpace(s[|s| - 1]) {
      var t, r := s[..|s| - 1], TrimEnd(s[..|s| - 1], isSpace);
      TrimEndIsPrefix(t, isSpace);
      assert TrimEnd(s, isSpace) == r;
      assert t[..|r|] == s[..|r|];
    }
  }

  lemma {:induction false} TrimEndSkipsSpaces(s: string, isSpace: char -> bool)
    ensures var r := TrimEnd(s, isSpace);
            forall k :: |r| <= k < |s| ==> isSpace(s[k])
  {
    if s != [] && isSpace(s[|s| - 1]) {
      var t, r := s[..|s| - 1], TrimEnd(s[..|s| - 1], isSpace);
      TrimEndIsPrefix(t, isSpace);
      TrimEndSkipsSpaces(t, isSpace);
      assert TrimEnd(s, isSpace) == r;
      assert forall k :: |r| <= k < |s| - 1 ==> s[k] == t[k];
    }
  }

  lemma {:induction false} TrimEndStops(s: string, isSpace: char -> bool)
    ensures var r := TrimEnd(s, isSpace);
            r != [] ==> !isSpace(r[|r| - 1])
  {
    if s != [] && isSpace(s[|s| - 1]) {
      TrimEndStops(s[..|s| - 1], isSpace);
    }
  }

  /** Strips whitespace at both ends, as PHP's `trim` and JavaScript's `String.prototype.trim` do. */
  function Trim(s: string, isSpace: char -> bool): string
  {
    TrimEnd(TrimStart(s, isSpace), isSpace)
  }

  /** Trimming leaves nothing exactly when every character is whitespace. */
  lemma TrimEmptyIffAllSpace(s: string, isSpace: char -> bool)
    ensures Trim(s, isSpace) == [] <==> forall k :: 0 <= k < |s| ==> isSpace(s[k])
  {
    var t := TrimStart(s, isSpace);
    TrimStartIsSpacePrefix(s, isSpace);
    TrimEndIsSpaceSuffix(t, isSpace);
    if Trim(s, isSpace) == [] {
      assert t == [];
    } else {
      var r := Trim(s, isSpace);
      assert !isSpace(r[0]);
      assert r[0] == t[0] == s[|s| - |t|];
    }
  }

  /** The trimmed string is a contiguous piece of the original with no whitespace at either end. */
  lemma TrimIsInnerSlice(s: string, isSpace: char -> bool)
    ensures exists i, j :: 0 <= i <= j <= |s| && Trim(s, isSpace) == s[i..j]
    ensures Trim(s, isSpace) != [] ==>
              !isSpace(Trim(s, isSpace)[0]) && !isSpace(Trim(s, isSpace)[|Trim(s, isSpace)| - 1])
  {
    var t := TrimStart(s, isSpace);
    var r := TrimEnd(t, isSpace);
    TrimStartIsSpacePrefix(s, isSpace);
    TrimEndIsSpaceSuffix(t, isSpace);
    var i := |s| - |t|;
    assert r == s[i..i + |r|];
    if r != [] {
      assert r[0] == t[0];
    }
  }

  /** A string that neither starts nor ends with whitespace is its own trim. */
  lemma TrimOfTrimmed(s: string, isSpace: char -> bool)
    requires s == [] || (!isSpace(s[0]) && !isSpace(s[|s| - 1]))
    ensures Trim(s, isSpace) == s
  {
  }

  // ---------------------------------------------------------------- digits

  predicate IsDigit(c: char) { '0' <= c <= '9' }

  predicate AllDigits(s: string) { forall k :: 0 <= k < |s| ==> IsDigit(s[k]) }

  function DigitValue(c: char): (d: nat)
    requires IsDigit(c)
    ensures d < 10
  {
    c as int - '0' as int
  }

  function DigitChar(d: nat): (c: char)
    requires d < 10
    ensures IsDigit(c) && DigitValue(c) == d
  {
    ('0' as int + d) as char
  }

  /** The number a string of decimal digits denotes (leading zeros allowed; the empty string denotes 0). */
  function DigitsValue(s: string): nat
    requires AllDigits(s)
  {
    if s == [] then 0 else DigitsValue(s[..|s| - 1]) * 10 + DigitValue(s[|s| - 1])
  }

  /** The shortest decimal representation of `n`, without sign or leading zeros. */
  function NatDigits(n: nat): (s: string)
    ensures |s| >= 1 && AllDigits(s)
    ensures |s| > 1 ==> s[0] != '0'
  {
    if n < 10 then [DigitChar(n)] else NatDigits(n / 10) + [DigitChar(n % 10)]
  }

  /** Reading back the digits of `n` gives `n`. */
  lemma {:induction false} NatDigitsRoundTrip(n: nat)
    ensures DigitsValue(NatDigits(n)) == n
  {
    if n >= 10 {
      var s := NatDigits(n);
      assert s[..|s| - 1] == NatDigits(n / 10);
      NatDigitsRoundTrip(n / 10);
    }
  }

  /** Zero-padded decimal representation of `n` in exactly `width` digits. */
  function PaddedDigits(n: nat, width: nat): (s: string)
    ensures |s| == width && AllDigits(s)
  {
    if width == 0 then [] else PaddedDigits(n / 10, width - 1) + [DigitChar(n % 10)]
  }

  /** Padded digits read back as the number modulo 10^width. */
  lemma {:induction false} PaddedDigitsRoundTrip(n: nat, width: nat)
    ensures DigitsValue(PaddedDigits(n, width)) == n % Pow10(width)
  {
    if width > 0 {
      var s := PaddedDigits(n, width);
      assert s[..|s| - 1] == PaddedDigits(n / 10, width - 1);
      PaddedDigitsRoundTrip(n / 10, width - 1);
      ModPow10Step(n, width);
    }
  }

  /** Re-padding the value of a digit string to its own width gives the string back. */
  lemma {:induction false} DigitsPaddedRoundTrip(t: string)
    requires AllDigits(t)
    ensures PaddedDigits(DigitsValue(t), |t|) == t
  {
    if t != [] {
      var init, last := t[..|t| - 1], t[|t| - 1];
      var v := DigitsValue(init) * 10 + DigitValue(last);
      assert v / 10 == DigitsValue(init) && v % 10 == DigitValue(last);
      DigitsPaddedRoundTrip(init);
      assert t == init + [last];
    }
  }

  function Pow10(e: nat): (p: nat)
    ensures p >= 1
  {
    if e == 0 then 1 else 10 * Pow10(e - 1)
  }

  lemma ModPow10Step(n: nat, width: nat)
    requires width > 0
    ensures n % Pow10(width) == (n / 10) % Pow10(width - 1) * 10 + n % 10
  {
    var p := Pow10(width - 1);
    var q := (n / 10) / p;
    var r := (n / 10) % p;
    assert n / 10 == q * p + r;
    assert n == (q * p + r) * 10 + n % 10;
    assert n == q * (10 * p) + (r * 10 + n % 10);
    assert 0 <= r * 10 + n % 10 < 10 * p;
    LemmaDivModUnique(n, 10 * p, q, r * 10 + n % 10);
  }

  lemma LemmaDivModUnique(n: int, d: int, q: int, r: int)
    requires d > 0 && 0 <= r < d && n == q * d + r
    ensures n % d == r && n / d == q
  {
    var q', r' := n / d, n % d;
    assert (q - q') * d == r' - r;
    if q > q' {
      MulAtLeast(q - q', d);
    } else if q < q' {
      MulAtLeast(q' - q, d);
    }
  }

  lemma MulAtLeast(a: int, d: int)
    requires a >= 1 && d > 0
    ensures a * d >= d
  {
  }

  /** Digits read back from a string of equal length keep their lexicographic order as numeric order. */
  lemma {:induction false} DigitsOrder(s: string, t: string)
    requires AllDigits(s) && AllDigits(t) && |s| == |t|
    ensures LexCompare(s, t) < 0 <==> DigitsValue(s) < DigitsValue(t)
    ensures LexCompare(s, t) == 0 <==> DigitsValue(s) == DigitsValue(t)
    decreases |s|
  {
    if s != [] {
      var p := Pow10(|s| - 1);
      var a, b := DigitValue(s[0]), DigitValue(t[0]);
      var x, y := DigitsValue(s[1..]), DigitsValue(t[1..]);
      DigitsBound(s[1..]);
      DigitsBound(t[1..]);
      DigitsSplitFirst(s);
      DigitsSplitFirst(t);
      DigitsOrder(s[1..], t[1..]);
      if a < b {
        LeadingDigitDecides(a, b, x, y, p);
      } else if b < a {
        LeadingDigitDecides(b, a, y, x, p);
      }
    }
  }

  lemma LeadingDigitDecides(a: nat, b: nat, x: nat, y: nat, p: nat)
    requires a < b && x < p && y < p
    ensures a * p + x < b * p + y
  {
    assert (b - a) * p >= p by { MulAtLeast(b - a, p); }
  }

  lemma {:induction false} DigitsBound(s: string)
    requires AllDigits(s)
    ensures DigitsValue(s) < Pow10(|s|)
  {
    if s != [] {
      DigitsBound(s[..|s| - 1]);
    }
  }

  /** The leading digit weighs 10^(|s|-1). */
  lemma {:induction false} DigitsSplitFirst(s: string)
    requires AllDigits(s) && s != []
    ensures DigitsValue(s) == DigitValue(s[0]) * Pow10(|s| - 1) + DigitsValue(s[1..])
  {
    if |s| > 1 {
      var init, tail := s[..|s| - 1], s[1..];
      var d := DigitValue(s[|s| - 1]);
      assert init[1..] == tail[..|tail| - 1];
      assert tail[|tail| - 1] == s[|s| - 1];
      DigitsSplitFirst(init);
      var x := DigitsValue(init[1..]);
      assert DigitsValue(init) == DigitValue(s[0]) * Pow10(|s| - 2) + x;
      assert DigitsValue(tail) == x * 10 + d;
      ShiftDigit(DigitValue(s[0]), Pow10(|s| - 2), x, d);
    }
  }

  /** Appending a digit to `a·p + x` multiplies the leading part's weight by ten. */
  lemma ShiftDigit(a: nat, p: nat, x: nat, d: nat)
    ensures (a * p + x) * 10 + d == a * (10 * p) + (x * 10 + d)
  {
  }

  /** `DigitsValue` over a concatenation. */
  lemma {:induction false} DigitsAppend(a: string, b: string)
    requires AllDigits(a) && AllDigits(b)
    ensures AllDigits(a + b) && DigitsValue(a + b) == DigitsValue(a) * Pow10(|b|) + DigitsValue(b)
  {
    assert AllDigits(a + b) by {
      forall k | 0 <= k < |a + b| ensures IsDigit((a + b)[k]) {
        if k < |a| { assert (a + b)[k] == a[k]; } else { assert (a + b)[k] == b[k - |a|]; }
      }
    }
    if b != [] {
      var init := b[..|b| - 1];
      var d := DigitValue(b[|b| - 1]);
      assert (a + b)[..|a + b| - 1] == a + init;
      assert (a + b)[|a + b| - 1] == b[|b| - 1];
      DigitsAppend(a, init);
      assert DigitsValue(a + b) == DigitsValue(a + init) * 10 + d;
      assert DigitsValue(a + init) == DigitsValue(a) * Pow10(|init|) + DigitsValue(init);
      ShiftDigit(DigitsValue(a), Pow10(|init|), DigitsValue(init), d);
    } else {
      assert a + b == a;
    }
  }

  // ------------------------------------------------- lexicographic ordering

  /**
   * Three-way lexicographic comparison by character code: negative when
   * `s` sorts first, zero when equal, positive when `t` sorts first.
   */
  function LexCompare(s: string, t: string): (c: int)
    ensures -1 <= c <= 1
  {
    if s == [] && t == [] then 0
    else if s == [] then -1
    else if t == [] then 1
    else if s[0] < t[0] then -1
    else if s[0] > t[0] then 1
    else LexCompare(s[1..], t[1..])
  }

  /** Comparison is antisymmetric and identifies only equal strings. */
  lemma {:induction false} LexCompareAntisymmetric(s: string, t: string)
    ensures LexCompare(t, s) == -LexCompare(s, t)
    ensures LexCompare(s, t) == 0 <==> s == t
  {
    if s != [] && t != [] && s[0] == t[0] {
      LexCompareAntisymmetric(s[1..], t[1..]);
      if s[1..] == t[1..] {
        assert s == [s[0]] + s[1..] && t == [t[0]] + t[1..];
      }
    }
  }

  /** "sorts no later than" is transitive. */
  lemma {:induction false} LexCompareTransitive(s: string, t: string, u: string)
    requires LexCompare(s, t) <= 0 && LexCompare(t, u) <= 0
    ensures LexCompare(s, u) <= 0
  {
    if s != [] && t != [] && u != [] && s[0] == t[0] == u[0] {
      LexCompareTransitive(s[1..], t[1..], u[1..]);
    }
  }

  /** On equal-length prefixes, comparison is decided by the prefixes first. */
  lemma {:induction false} LexCompareAppend(a: string, b: string, c: string, d: string)
    requires |a| == |c|
    ensures LexCompare(a + b, c + d) ==
              if LexCompare(a, c) != 0 then LexCompare(a, c) else LexCompare(b, d)
  {
    if a != [] {
      assert (a + b)[1..] == a[1..] + b && (c + d)[1..] == c[1..] + d;
      LexCompareAppend(a[1..], b, c[1..], d);
    } else {
      assert a + b == b && c + d == d;
    }
  }
}
