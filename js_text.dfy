/**
 * The JavaScript string facts the screens' validators rely on: the
 * whitespace set shared by `String.prototype.trim` and the regular
 * expression class `\s`, truthiness of a string, and `length`, which counts
 * UTF-16 code units.
 */
module JsText {
  import Text

  /** WhiteSpace and LineTerminator code points of ECMAScript: what `trim` strips and `\s` matches. */
  predicate IsJsSpace(c: char)
  {
    || ('\U{9}' <= c <= '\U{D}')
    || c == ' ' || c == '\U{A0}' || c == '\U{1680}'
    || ('\U{2000}' <= c <= '\U{200A}')
    || c == '\U{2028}' || c == '\U{2029}' || c == '\U{202F}' || c == '\U{205F}'
    || c == '\U{3000}' || c == '\U{FEFF}'
  }

  function JsTrim(s: string): string
  {
    Text.Trim(s, IsJsSpace)
  }

  /** `!s.trim()`: the string is empty once trimmed. */
  predicate IsBlank(s: string)
  {
    JsTrim(s) == ""
  }

  /** A string is blank exactly when every character is JavaScript whitespace; "0" is not blank here. */
  lemma BlankIffAllSpace(s: string)
    ensures IsBlank(s) <==> forall k :: 0 <= k < |s| ==> IsJsSpace(s[k])
  {
    Text.TrimEmptyIffAllSpace(s, IsJsSpace);
  }

  /** `s.length`: characters outside the Basic Multilingual Plane take two code units. */
  function Utf16Length(s: string): (n: nat)
    ensures |s| <= n <= 2 * |s|
  {
    if s == [] then 0
    else Utf16Length(s[..|s| - 1]) + (if s[|s| - 1] as int >= 0x1_0000 then 2 else 1)
  }

  /** Three emoji are six code units: `length` counts more than the characters a user sees. */
  lemma EmojiCountTwice()
    ensures Utf16Length("\U{1F600}\U{1F600}\U{1F600}") == 6
  {
    var s := "\U{1F600}\U{1F600}\U{1F600}";
    assert s[..2] == "\U{1F600}\U{1F600}" && s[..2][..1] == "\U{1F600}" && s[..2][..1][..0] == "";
  }
}
