/**
 * screens/LoginScreen.js: the login form's state, its validator and its
 * change handler. `LoginErrors` is what `validateForm` collects; the
 * screen's methods are proved to set the state it describes. The token
 * storage and the navigation after a valid submission are not part of this
 * model.
 */
module LoginScreen {
  import opened JsText
  import opened Email
  import opened FormState
  import opened Wrappers

  const EmailRequired := "Email is required"
  const InvalidEmail := "Please enter a valid email"
  const PasswordRequired := "Password is required"
  const PasswordTooShort := "Password must be at least 6 characters"

  /** The messages `validateForm` collects: at most one for the email and one for the password. */
  function LoginErrors(email: string, password: string): (r: map<string, string>)
    ensures r.Keys <= {"email", "password"}
    ensures forall f :: f in r ==> r[f] != ""
  {
    var withEmail :=
      if IsBlank(email) then map["email" := EmailRequired]
      else if !IsValidEmail(email) then map["email" := InvalidEmail]
      else map[];
    if password == "" then withEmail["password" := PasswordRequired]
    else if Utf16Length(password) < 6 then withEmail["password" := PasswordTooShort]
    else withEmail
  }

  /**
   * The email is reported when it is blank after trimming ("required") or,
   * failing that, when the untrimmed text is not a valid address; the
   * untrimmed password when it has fewer than six code units.
   */
  lemma LoginFieldsChecked(email: string, password: string)
    ensures var r := LoginErrors(email, password);
            && ("email" in r <==> IsBlank(email) || !IsValidEmail(email))
            && ("email" in r ==> r["email"] == if IsBlank(email) then EmailRequired else InvalidEmail)
            && ("password" in r <==> Utf16Length(password) < 6)
            && ("password" in r ==> r["password"] == if password == "" then PasswordRequired else PasswordTooShort)
  {
    if password == "" {
      assert Utf16Length(password) == 0;
    }
  }

  /** The form is accepted exactly when the email is valid and the password has at least six code units. */
  lemma LoginAcceptsExactly(email: string, password: string)
    ensures LoginErrors(email, password) == map[] <==> IsValidEmail(email) && Utf16Length(password) >= 6
  {
    LoginFieldsChecked(email, password);
    if IsValidEmail(email) {
      ValidEmailIsNotBlank(email);
    }
    var r := LoginErrors(email, password);
    if r != map[] {
      var f :| f in r;
    }
  }

  /** A padded address passes the "required" check but fails the format check: only the emptiness test trims. */
  lemma PaddedEmailIsInvalid(password: string)
    ensures LoginErrors(" a@b.co", password)["email"] == InvalidEmail
  {
    assert IsJsSpace(" a@b.co"[0]);
    assert !IsJsSpace(" a@b.co"[1]);
    BlankIffAllSpace(" a@b.co");
    LoginFieldsChecked(" a@b.co", password);
  }

  /** Three emoji pass the length check: `length` counts code units, not the characters a user sees. */
  lemma EmojiPasswordIsLongEnough(email: string)
    ensures "password" !in LoginErrors(email, "\U{1F600}\U{1F600}\U{1F600}")
  {
    EmojiCountTwice();
    LoginFieldsChecked(email, "\U{1F600}\U{1F600}\U{1F600}");
  }

  class LoginScreen {
    /** `formData`: the text of each input, by field name. */
    var formData: map<string, string>
    /** `errors`: the messages on display, by field name. */
    var errors: ErrorState

    ghost predicate Valid()
      reads this
    {
      "email" in formData && "password" in formData
    }

    /** The messages the current form would produce. */
    ghost function CurrentErrors(): map<string, string>
      reads this
      requires Valid()
    {
      LoginErrors(formData["email"], formData["password"])
    }

    /** Both fields start empty, with no errors. */
    constructor ()
      ensures Valid()
      ensures formData == map["email" := "", "password" := ""]
      ensures errors == map[]
    {
      formData := map["email" := "", "password" := ""];
      errors := map[];
    }

    /** `validateForm`: collects the messages, shows them, and answers whether there were none (no keys). */
    method ValidateForm() returns (ok: bool)
      requires Valid()
      modifies this`errors
      ensures errors == AsErrorState(CurrentErrors())
      ensures ok <==> CurrentErrors() == map[]
    {
      var email, password := formData["email"], formData["password"];
      var newErrors: map<string, string> := map[];
      if IsBlank(email) {
        newErrors := newErrors["email" := EmailRequired];
      } else if !IsValidEmail(email) {
        newErrors := newErrors["email" := InvalidEmail];
      }
      if password == "" {
        newErrors := newErrors["password" := PasswordRequired];
      } else if Utf16Length(password) < 6 {
        newErrors := newErrors["password" := PasswordTooShort];
      }
      errors := AsErrorState(newErrors);
      ok := newErrors == map[];
    }

    /** `handleLogin` up to its early return: it goes on only when the form is valid. */
    method HandleLogin() returns (proceeds: bool)
      requires Valid()
      modifies this`errors
      ensures errors == AsErrorState(CurrentErrors())
      ensures proceeds <==> CurrentErrors() == map[]
    {
      var ok := ValidateForm();
      if !ok {
        return false;
      }
      proceeds := true;
    }

    /** `handleChange(field, value)`: the field takes the value, and its error is cleared if one is shown. */
    method HandleChange(field: string, value: string)
      requires Valid()
      modifies this
      ensures Valid()
      ensures formData == old(formData)[field := value]
      ensures errors == ClearError(old(errors), field)
    {
      formData := formData[field := value];
      if HasError(errors, field) {
        errors := errors[field := None];
      }
    }
  }
}
