/**
 * The two PHP string built-ins the backend's field checks are made of:
 * `trim` with its default character list, and `empty` applied to a string.
 */
module PhpText {
  import Text

  /** PHP `trim`'s default list: space, tab, newline, carriage return, NUL and vertical tab. */
  predicate IsTrimChar(c: char)
  {
    c == ' ' || c == '\t' || c == '\n' || c == '\r' || c == '\U{0}' || c == '\U{B}'
  }

  function PhpTrim(s: string): string
  {
    Text.Trim(s, IsTrimChar)
  }

  /** PHP `empty` on a string: true for "" and for "0". */
  predicate IsEmptyString(s: string)
  {
    s == "" || s == "0"
  }

  /** `empty(trim($x))`: the condition under which backend/db.php and backend/update_note.php treat a value as missing. */
  predicate IsBlank(s: string)
  {
    IsEmptyString(PhpTrim(s))
  }

  /**
   * A value is blank exactly when it is all trim characters, or when what is
   * left after trimming is the single character '0'.
   */
  lemma BlankCharacterised(s: string)
    ensures IsBlank(s) <==>
              (forall k :: 0 <= k < |s| ==> IsTrimChar(s[k])) || PhpTrim(s) == "0"
  {
    Text.TrimEmptyIffAllSpace(s, IsTrimChar);
  }

  /** The `empty("0")` quirk: a zero surrounded by spaces counts as missing. */
  lemma SpacedZeroIsBlank()
    ensures IsBlank(" 0 ")
  {
    var s := " 0 ";
    assert s[1..] == "0 ";
    assert Text.TrimStart("0 ", IsTrimChar) == "0 ";
    assert Text.TrimStart(s, IsTrimChar) == "0 ";
    assert "0 "[..1] == "0";
    assert Text.TrimEnd("0", IsTrimChar) == "0";
    assert Text.TrimEnd("0 ", IsTrimChar) == "0";
  }

  /** A doubled zero is not blank: only the exact string "0" is `empty`. */
  lemma DoubleZeroIsNotBlank()
    ensures !IsBlank("00")
  {
    Text.TrimOfTrimmed("00", IsTrimChar);
  }
}
