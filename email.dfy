/**
 * `isValidEmail` of screens/SignupScreen.js and screens/LoginScreen.js, which
 * both test `/^[^\s@]+@[^\s@]+\.[^\s@]+$/`. `IsValidEmail` decides it by
 * scanning for the '@'; `MatchesEmailRegex` states the pattern's language
 * directly, as a split of the string into its three pieces; the two are
 * proved equal.
 */
module Email {
  import opened JsText

  /** `[^\s@]+` without the `+`: no whitespace and no '@' anywhere in `t`. */
  predicate NoSpaceOrAt(t: string)
  {
    forall k :: 0 <= k < |t| ==> t[k] != '@' && !IsJsSpace(t[k])
  }

  /** The index of the first `c` in `s`, or `|s|` when there is none. */
  function IndexOf(s: string, c: char): (r: nat)
    ensures r <= |s|
    ensures r < |s| ==> s[r] == c
    ensures forall k :: 0 <= k < r ==> s[k] != c
  {
    if s == [] then 0
    else if s[0] == c then 0
    else 1 + IndexOf(s[1..], c)
  }

  /**
   * The validator: one '@' with something before it, no whitespace, and a
   * domain of at least three characters with a '.' that is neither its first
   * nor its last.
   */
  predicate IsValidEmail(email: string)
  {
    var at := IndexOf(email, '@');
    && 0 < at < |email|
    && (forall k :: 0 <= k < |email| ==> !IsJsSpace(email[k]))
    && '@' !in email[at + 1..]
    && var domain := email[at + 1..];
       |domain| >= 3 && '.' in domain[1..|domain| - 1]
  }

  /** The regular expression's language: local part, '@', name, '.', suffix, each non-empty and free of whitespace and '@'. */
  ghost predicate MatchesEmailRegex(s: string)
  {
    exists i, j :: 0 < i && i + 1 < j && j + 1 < |s| && s[i] == '@' && s[j] == '.' &&
                   NoSpaceOrAt(s[..i]) && NoSpaceOrAt(s[i + 1..j]) && NoSpaceOrAt(s[j + 1..])
  }

  /** A slice is free of whitespace and '@' when every character in its range of the whole string is. */
  lemma NoSpaceOrAtSlice(s: string, lo: nat, hi: nat)
    requires lo <= hi <= |s|
    requires forall k :: lo <= k < hi ==> s[k] != '@' && !IsJsSpace(s[k])
    ensures NoSpaceOrAt(s[lo..hi])
  {
    var t := s[lo..hi];
    forall k | 0 <= k < |t| ensures t[k] != '@' && !IsJsSpace(t[k]) {
      assert t[k] == s[lo + k];
    }
  }

  /** The characters of a clean slice are clean characters of the whole string. */
  lemma SliceNoSpaceOrAt(s: string, lo: nat, hi: nat)
    requires lo <= hi <= |s| && NoSpaceOrAt(s[lo..hi])
    ensures forall k :: lo <= k < hi ==> s[k] != '@' && !IsJsSpace(s[k])
  {
    var t := s[lo..hi];
    forall k | lo <= k < hi ensures s[k] != '@' && !IsJsSpace(s[k]) {
      assert t[k - lo] == s[k];
    }
  }

  /** Every address the validator accepts matches the regular expression. */
  lemma ValidEmailMatchesRegex(s: string)
    requires IsValidEmail(s)
    ensures MatchesEmailRegex(s)
  {
    var at := IndexOf(s, '@');
    var domain := s[at + 1..];
    var p :| 0 <= p < |domain| - 2 && domain[1..|domain| - 1][p] == '.';
    var j := at + 2 + p;
    assert s[j] == '.';
    assert forall k :: at < k < |s| ==> s[k] != '@' by {
      forall k | at < k < |s| ensures s[k] != '@' {
        assert domain[k - (at + 1)] == s[k];
      }
    }
    NoSpaceOrAtSlice(s, 0, at);
    NoSpaceOrAtSlice(s, at + 1, j);
    NoSpaceOrAtSlice(s, j + 1, |s|);
    assert s[j + 1..|s|] == s[j + 1..];
  }

  /** Every string the regular expression matches is accepted by the validator. */
  lemma RegexMatchIsValidEmail(s: string)
    requires MatchesEmailRegex(s)
    ensures IsValidEmail(s)
  {
    var i, j :| 0 < i && i + 1 < j && j + 1 < |s| && s[i] == '@' && s[j] == '.' &&
                NoSpaceOrAt(s[..i]) && NoSpaceOrAt(s[i + 1..j]) && NoSpaceOrAt(s[j + 1..]);
    assert s[0..i] == s[..i] && s[j + 1..|s|] == s[j + 1..];
    SliceNoSpaceOrAt(s, 0, i);
    SliceNoSpaceOrAt(s, i + 1, j);
    SliceNoSpaceOrAt(s, j + 1, |s|);
    SplitIsValidEmail(s, i, j);
  }

  /** A string with one '@' at `i`, a '.' at `j` further on, non-empty pieces between, and no whitespace is accepted. */
  lemma SplitIsValidEmail(s: string, i: nat, j: nat)
    requires 0 < i && i + 1 < j && j + 1 < |s| && s[i] == '@' && s[j] == '.'
    requires forall k :: 0 <= k < |s| && k != i && k != j ==> s[k] != '@' && !IsJsSpace(s[k])
    ensures IsValidEmail(s)
  {
    assert IndexOf(s, '@') == i;
    var domain := s[i + 1..];
    assert forall k :: 0 <= k < |domain| ==> domain[k] == s[i + 1 + k];
    assert '@' !in domain;
    assert domain[1..|domain| - 1][j - i - 2] == '.';
  }

  /** The scanning validator accepts exactly the strings the regular expression matches. */
  lemma ValidEmailIffRegex(s: string)
    ensures IsValidEmail(s) <==> MatchesEmailRegex(s)
  {
    if IsValidEmail(s) {
      ValidEmailMatchesRegex(s);
    }
    if MatchesEmailRegex(s) {
      RegexMatchIsValidEmail(s);
    }
  }

  /** A valid email is never blank, so the "required" check never hides the format check's verdict. */
  lemma ValidEmailIsNotBlank(s: string)
    requires IsValidEmail(s)
    ensures !IsBlank(s)
  {
    BlankIffAllSpace(s);
    assert !IsJsSpace(s[0]);
  }

  lemma AcceptedExample()
    ensures IsValidEmail("a@b.co")
  {
    var s := "a@b.co";
    assert IndexOf(s, '@') == 1 by { assert s[1..][0] == '@'; }
    assert s[2..] == "b.co";
    assert "b.co"[1..3][0] == '.';
  }

  /** Two '@', a dot right after the '@', and a space each make the address invalid. */
  lemma RejectedExamples()
    ensures !IsValidEmail("a@b@c.d")
    ensures !IsValidEmail("a@.co")
    ensures !IsValidEmail("a @b.co")
  {
    assert IndexOf("a@b@c.d", '@') == 1 by { assert "a@b@c.d"[1..][0] == '@'; }
    assert "a@b@c.d"[2..][1] == '@';
    assert IndexOf("a@.co", '@') == 1 by { assert "a@.co"[1..][0] == '@'; }
    assert "a@.co"[2..] == ".co";
    assert ".co"[1..2] == "c";
    assert IsJsSpace("a @b.co"[1]);
  }
}
