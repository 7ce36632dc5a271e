/**
 * The form and error state every screen keeps, and the `handleChange`
 * update they share: the form is an object of text fields, the error state
 * an object whose members are messages or `null`.
 */
module FormState {
  import opened Wrappers

  /** The `errors` state: a member holds a message, or `null` once cleared. */
  type ErrorState = map<string, Option<string>>

  /** `errors[field]` is truthy: present, not `null`, and not the empty string. */
  predicate HasError(errors: ErrorState, field: string)
  {
    field in errors && errors[field].Some? && errors[field].value != ""
  }

  /** `setErrors(newErrors)`: every message collected by a validator becomes a member. */
  function AsErrorState(newErrors: map<string, string>): (e: ErrorState)
    ensures e.Keys == newErrors.Keys
    ensures forall f :: f in newErrors ==> e[f] == Some(newErrors[f])
  {
    map f | f in newErrors :: Some(newErrors[f])
  }

  /**
   * The error half of `handleChange(field, value)`: the field's error is set
   * to `null` when it is truthy, and the state is left as it was otherwise.
   */
  function ClearError(errors: ErrorState, field: string): (e: ErrorState)
    ensures !HasError(e, field)
    ensures forall f :: f != field ==> (f in e <==> f in errors) && (f in e ==> e[f] == errors[f])
    ensures HasError(errors, field) ==> field in e && e[field] == None
    ensures !HasError(errors, field) ==> e == errors
  {
    if HasError(errors, field) then errors[field := None] else errors
  }

  /** Clearing is idempotent: typing into the same field again changes no error. */
  lemma ClearErrorIdempotent(errors: ErrorState, field: string)
    ensures ClearError(ClearError(errors, field), field) == ClearError(errors, field)
  {
  }

  /** After a validation, typing into a field removes exactly that field's message. */
  lemma ClearAfterValidation(newErrors: map<string, string>, field: string)
    requires forall f :: f in newErrors ==> newErrors[f] != ""
    ensures var e := ClearError(AsErrorState(newErrors), field);
            && (field in newErrors ==> e == AsErrorState(newErrors)[field := None])
            && (field !in newErrors ==> e == AsErrorState(newErrors))
  {
  }
}
