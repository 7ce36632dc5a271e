/**
 * screens/SignupScreen.js: the sign-up form's state, its validator and its
 * change handler. `SignupErrors` is what `validateForm` collects, as a
 * function of the four fields; the screen's methods are proved to set the
 * state it describes. The simulated request, the alert and the navigation
 * after a valid submission are not part of this model.
 */
module SignupScreen {
  import opened JsText
  import opened Email
  import opened FormState
  import opened Wrappers

  const NameRequired := "Name is required"
  const EmailRequired := "Email is required"
  const InvalidEmail := "Please enter a valid email"
  const PasswordRequired := "Password is required"
  const PasswordTooShort := "Password must be at least 6 characters"
  const ConfirmRequired := "Please confirm your password"
  const PasswordsDiffer := "Passwords do not match"

  /**
   * The messages `validateForm` collects: at most one per field, the name and
   * email checked after trimming, the password and its confirmation as typed.
   */
  function SignupErrors(name: string, email: string, password: string, confirmPassword: string): (r: map<string, string>)
    ensures r.Keys <= {"name", "email", "password", "confirmPassword"}
    ensures forall f :: f in r ==> r[f] != ""
  {
    var withName := if IsBlank(name) then map["name" := NameRequired] else map[];
    var withEmail :=
      if IsBlank(email) then withName["email" := EmailRequired]
      else if !IsValidEmail(email) then withName["email" := InvalidEmail]
      else withName;
    var withPassword :=
      if password == "" then withEmail["password" := PasswordRequired]
      else if Utf16Length(password) < 6 then withEmail["password" := PasswordTooShort]
      else withEmail;
    if confirmPassword == "" then withPassword["confirmPassword" := ConfirmRequired]
    else if password != confirmPassword then withPassword["confirmPassword" := PasswordsDiffer]
    else withPassword
  }

  /** The name is reported, as required, exactly when it is blank after trimming. */
  lemma NameChecked(name: string, email: string, password: string, confirmPassword: string)
    ensures var r := SignupErrors(name, email, password, confirmPassword);
            && ("name" in r <==> IsBlank(name))
            && ("name" in r ==> r["name"] == NameRequired)
  {
  }

  /**
   * The email is reported when it is blank after trimming ("required") or,
   * failing that, when the untrimmed text is not a valid address.
   */
  lemma EmailChecked(name: string, email: string, password: string, confirmPassword: string)
    ensures var r := SignupErrors(name, email, password, confirmPassword);
            && ("email" in r <==> IsBlank(email) || !IsValidEmail(email))
            && ("email" in r ==> r["email"] == if IsBlank(email) then EmailRequired else InvalidEmail)
  {
  }

  /** The untrimmed password is reported exactly when it has fewer than six code units; empty is "required". */
  lemma PasswordChecked(name: string, email: string, password: string, confirmPassword: string)
    ensures var r := SignupErrors(name, email, password, confirmPassword);
            && ("password" in r <==> Utf16Length(password) < 6)
            && ("password" in r ==> r["password"] == if password == "" then PasswordRequired else PasswordTooShort)
  {
    if password == "" {
      assert Utf16Length(password) == 0;
    }
  }

  /** The confirmation is reported when it is empty or differs from the password. */
  lemma ConfirmationChecked(name: string, email: string, password: string, confirmPassword: string)
    ensures var r := SignupErrors(name, email, password, confirmPassword);
            && ("confirmPassword" in r <==> confirmPassword == "" || confirmPassword != password)
            && ("confirmPassword" in r ==>
                  r["confirmPassword"] == if confirmPassword == "" then ConfirmRequired else PasswordsDiffer)
  {
  }

  /**
   * The form is accepted exactly when the trimmed name is not empty, the
   * email is valid, the password has at least six UTF-16 code units and the
   * confirmation equals it.
   */
  lemma SignupAcceptsExactly(name: string, email: string, password: string, confirmPassword: string)
    ensures SignupErrors(name, email, password, confirmPassword) == map[] <==>
              !IsBlank(name) && IsValidEmail(email) && Utf16Length(password) >= 6 && confirmPassword == password
  {
    var r := SignupErrors(name, email, password, confirmPassword);
    NameChecked(name, email, password, confirmPassword);
    EmailChecked(name, email, password, confirmPassword);
    PasswordChecked(name, email, password, confirmPassword);
    ConfirmationChecked(name, email, password, confirmPassword);
    if IsValidEmail(email) {
      ValidEmailIsNotBlank(email);
    }
    if r != map[] {
      var f :| f in r;
    }
  }

  /** A blank name is reported whatever else is typed, and a mismatched confirmation is never accepted. */
  lemma SignupRejectsExamples(email: string, password: string)
    ensures "name" in SignupErrors(" \t", email, password, password)
    ensures password != "" ==> SignupErrors("Ann", email, password, password + "x")["confirmPassword"] == PasswordsDiffer
  {
    BlankIffAllSpace(" \t");
    NameChecked(" \t", email, password, password);
    ConfirmationChecked("Ann", email, password, password + "x");
    assert password + "x" != password by { assert |password + "x"| == |password| + 1; }
  }

  class SignupScreen {
    /** `formData`: the text of each input, by field name. */
    var formData: map<string, string>
    /** `errors`: the messages on display, by field name. */
    var errors: ErrorState

    ghost predicate Valid()
      reads this
    {
      "name" in formData && "email" in formData && "password" in formData && "confirmPassword" in formData
    }

    /** The messages the current form would produce. */
    ghost function CurrentErrors(): map<string, string>
      reads this
      requires Valid()
    {
      SignupErrors(formData["name"], formData["email"], formData["password"], formData["confirmPassword"])
    }

    /** The four fields start empty, with no errors. */
    constructor ()
      ensures Valid()
      ensures formData == map["name" := "", "email" := "", "password" := "", "confirmPassword" := ""]
      ensures errors == map[]
    {
      formData := map["name" := "", "email" := "", "password" := "", "confirmPassword" := ""];
      errors := map[];
    }

    /** `validateForm`: collects the messages, shows them, and answers whether there were none (no keys). */
    method ValidateForm() returns (ok: bool)
      requires Valid()
      modifies this`errors
      ensures errors == AsErrorState(CurrentErrors())
      ensures ok <==> CurrentErrors() == map[]
    {
      var name, email := formData["name"], formData["email"];
      var password, confirmPassword := formData["password"], formData["confirmPassword"];
      var newErrors: map<string, string> := map[];
      if IsBlank(name) {
        newErrors := newErrors["name" := NameRequired];
      }
      if IsBlank(email) {
        newErrors := newErrors["email" := EmailRequired];
      } else if !IsValidEmail(email) {
        newErrors := newErrors["email" := InvalidEmail];
      }
      if password == "" {
        newErrors := newErrors["password" := PasswordRequired];
      } else if Utf16Length(password) < 6 {
        newErrors := newErrors["password" := PasswordTooShort];
      }
      if confirmPassword == "" {
        newErrors := newErrors["confirmPassword" := ConfirmRequired];
      } else if password != confirmPassword {
        newErrors := newErrors["confirmPassword" := PasswordsDiffer];
      }
      errors := AsErrorState(newErrors);
      ok := newErrors == map[];
    }

    /** `handleSignUp` up to its early return: it goes on only when the form is valid. */
    method HandleSignUp() returns (proceeds: bool)
      requires Valid()
      modifies this`errors
      ensures errors == AsErrorState(CurrentErrors())
      ensures proceeds <==> CurrentErrors() == map[]
    {
      var ok := ValidateForm();
      if !ok {
        return false;
      }
      proceeds := true;
    }

    /** `handleChange(field, value)`: the field takes the value, and its error is cleared if one is shown. */
    method HandleChange(field: string, value: string)
      requires Valid()
      modifies this
      ensures Valid()
      ensures formData == old(formData)[field := value]
      ensures errors == ClearError(old(errors), field)
    {
      formData := formData[field := value];
      if HasError(errors, field) {
        errors := errors[field := None];
      }
    }
  }
}
