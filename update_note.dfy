/**
 * backend/update_note.php as a function of the table's rows: the verb is
 * checked, then the body, the id and the row's existence; then the fields to
 * set are chosen, and a supplied date that fails the calendar check rejects
 * the whole update.
 *
 * `sanitize` stands for `filter_var(..., FILTER_SANITIZE_STRING)`;
 * `dbFault` is the message of the PDOException the first statement throws,
 * if it throws; `env` is `getenv('ENVIRONMENT')`.
 */
module UpdateNote {
  import opened Wrappers
  import opened Db
  import PhpText
  import opened PhpNumeric
  import YmdDate

  /**
   * The decoded body's members; `None` is an absent member or a JSON null.
   * The id is its text (a JSON string's contents or a JSON number's literal).
   */
  datatype UpdateBody = UpdateBody(id: Option<string>, title: Option<string>, content: Option<string>,
                                   category: Option<string>, date: Option<string>)

  const MethodNotAllowed := "Method not allowed. Please use PUT or POST."
  const InvalidJson := "Invalid JSON data provided"
  const InvalidId := "Valid note ID is required"
  const NotFound := "Note not found"
  const InvalidDate := "Invalid date format. Please use YYYY-MM-DD"
  const NoFields := "No valid fields provided for update"
  const DatabaseError := "Database error occurred"
  const Updated := "Note updated successfully"

  /** `isset($v) && !empty(trim($v))`: a text field that is set. */
  predicate Qualifies(v: Option<string>)
  {
    v.Some? && !PhpText.IsBlank(v.value)
  }

  /** Some column would be set. */
  predicate HasUpdatableField(b: UpdateBody)
  {
    Qualifies(b.title) || Qualifies(b.content) || Qualifies(b.category) || b.date.Some?
  }

  /** The stored row after the UPDATE: each qualifying text field sanitized, a supplied date as given. */
  function Merge(n: Note, b: UpdateBody, sanitize: string -> string): (r: Note)
    ensures forall c :: (ColumnValue(r, c) == ColumnValue(n, c) || Supplies(b, c))
  {
    Note(if Qualifies(b.title) then sanitize(b.title.value) else n.title,
         if Qualifies(b.content) then sanitize(b.content.value) else n.content,
         if Qualifies(b.category) then sanitize(b.category.value) else n.category,
         if b.date.Some? then b.date.value else n.date)
  }

  /** The body sets column `c`. */
  predicate Supplies(b: UpdateBody, c: Column)
  {
    match c
    case Title => Qualifies(b.title)
    case Content => Qualifies(b.content)
    case Category => Qualifies(b.category)
    case Date => b.date.Some?
  }

  /** The value `$params` holds for column `c` when the body sets it. */
  function SuppliedValue(b: UpdateBody, c: Column, sanitize: string -> string): string
    requires Supplies(b, c)
  {
    match c
    case Title => sanitize(b.title.value)
    case Content => sanitize(b.content.value)
    case Category => sanitize(b.category.value)
    case Date => b.date.value
  }

  /** Column by column: a supplied column takes its supplied value, every other keeps the stored one. */
  lemma MergeByColumn(n: Note, b: UpdateBody, sanitize: string -> string, c: Column)
    ensures ColumnValue(Merge(n, b, sanitize), c) ==
              if Supplies(b, c) then SuppliedValue(b, c, sanitize) else ColumnValue(n, c)
  {
  }

  /** The row id the request names: the id's value, when it is a whole number. */
  function Target(n: Number): Option<int>
  {
    if IsIntegral(n) then Some(IntCast(n)) else None
  }

  /** The handler: the response and the rows afterwards. */
  function HandleUpdate(rows: map<int, Note>, verb: string, body: Option<UpdateBody>,
                        sanitize: string -> string, env: Option<string>, dbFault: Option<string>): (h: Handled)
    ensures h.rows.Keys == rows.Keys
    ensures !Succeeded(h.response) ==> h.rows == rows
    ensures forall k :: k in rows && h.rows[k] != rows[k] ==>
              h.response.body == Some(Envelope("success", Updated, Some(NoteRow(k, h.rows[k])), None))
  {
    if verb == "OPTIONS" then Handled(Response(200, None), rows)
    else if verb != "PUT" && verb != "POST" then Handled(Response(405, Some(ErrorEnvelope(MethodNotAllowed))), rows)
    else if body.None? then Handled(Response(400, Some(HandleError(InvalidJson, None, env))), rows)
    else
      var b := body.value;
      if b.id.None? || !IsNumeric(b.id.value) then Handled(Response(400, Some(HandleError(InvalidId, None, env))), rows)
      else if dbFault.Some? then Handled(Response(500, Some(HandleError(DatabaseError, dbFault, env))), rows)
      else
        var target := Target(ParseNumeric(b.id.value).value);
        if target.None? || target.value !in rows then Handled(Response(404, Some(ErrorEnvelope(NotFound))), rows)
        else if b.date.Some? && !YmdDate.IsValidYmdDate(b.date.value) then
          Handled(Response(400, Some(HandleError(InvalidDate, None, env))), rows)
        else if !HasUpdatableField(b) then Handled(Response(400, Some(HandleError(NoFields, None, env))), rows)
        else
          var k := target.value;
          var merged := Merge(rows[k], b, sanitize);
          Handled(Response(200, Some(Envelope("success", Updated, Some(NoteRow(k, merged)), None))), rows[k := merged])
  }

  /**
   * The existence check `SELECT id FROM note WHERE id = ?` compares each row
   * id with the id's exact value; that finds a row exactly when `Target` names
   * one, and then it is that row.
   */
  lemma TargetIsTheRowWithThatValue(rows: map<int, Note>, n: Number)
    ensures (Target(n).Some? && Target(n).value in rows) <==> exists k :: k in rows && ValueEquals(n, k)
    ensures forall k :: k in rows && ValueEquals(n, k) ==> Target(n) == Some(k)
  {
    forall k | k in rows
      ensures ValueEquals(n, k) <==> Target(n) == Some(k)
    {
      ValueEqualsIffIntegralCast(n, k);
    }
  }

  /** A preflight OPTIONS request: 200, empty body, nothing changes. */
  lemma UpdatePreflight(rows: map<int, Note>, body: Option<UpdateBody>, sanitize: string -> string,
                        env: Option<string>, dbFault: Option<string>)
    ensures HandleUpdate(rows, "OPTIONS", body, sanitize, env, dbFault) == Handled(Response(200, None), rows)
  {
  }

  /** Any verb but OPTIONS, PUT and POST: 405 with an error envelope, nothing changes. */
  lemma UpdateWrongVerb(rows: map<int, Note>, verb: string, body: Option<UpdateBody>, sanitize: string -> string,
                        env: Option<string>, dbFault: Option<string>)
    requires verb != "OPTIONS" && verb != "PUT" && verb != "POST"
    ensures var h := HandleUpdate(rows, verb, body, sanitize, env, dbFault);
            h.response.code == 405 && h.response.body.Some? && h.response.body.value.status == "error" && h.rows == rows
  {
  }

  /** A missing or non-numeric id: 400 "Valid note ID is required", nothing changes. */
  lemma UpdateRejectsBadId(rows: map<int, Note>, verb: string, b: UpdateBody, sanitize: string -> string,
                           env: Option<string>, dbFault: Option<string>)
    requires verb == "PUT" || verb == "POST"
    requires b.id.None? || !IsNumeric(b.id.value)
    ensures HandleUpdate(rows, verb, Some(b), sanitize, env, dbFault) ==
              Handled(Response(400, Some(ErrorEnvelope(InvalidId))), rows)
  {
  }

  /** A numeric id that names no row: 404 "Note not found", nothing changes, whatever else the body holds. */
  lemma UpdateUnknownId(rows: map<int, Note>, verb: string, b: UpdateBody, sanitize: string -> string,
                        env: Option<string>)
    requires verb == "PUT" || verb == "POST"
    requires b.id.Some? && IsNumeric(b.id.value)
    requires forall k :: k in rows ==> !ValueEquals(ParseNumeric(b.id.value).value, k)
    ensures HandleUpdate(rows, verb, Some(b), sanitize, env, None) ==
              Handled(Response(404, Some(ErrorEnvelope(NotFound))), rows)
  {
    TargetIsTheRowWithThatValue(rows, ParseNumeric(b.id.value).value);
  }

  /**
   * A supplied date that fails the calendar check rejects the whole update
   * with 400, even when other fields qualify: no column changes.
   */
  lemma UpdateBadDateRejectsAll(rows: map<int, Note>, verb: string, b: UpdateBody, sanitize: string -> string,
                                env: Option<string>, k: int)
    requires verb == "PUT" || verb == "POST"
    requires b.id.Some? && IsNumeric(b.id.value) && k in rows && ValueEquals(ParseNumeric(b.id.value).value, k)
    requires b.date.Some? && !YmdDate.IsValidYmdDate(b.date.value)
    ensures HandleUpdate(rows, verb, Some(b), sanitize, env, None) ==
              Handled(Response(400, Some(ErrorEnvelope(InvalidDate))), rows)
  {
    TargetIsTheRowWithThatValue(rows, ParseNumeric(b.id.value).value);
  }

  /** No qualifying field and no date (say, only whitespace titles): 400 "No valid fields provided for update". */
  lemma UpdateNothingToSet(rows: map<int, Note>, verb: string, b: UpdateBody, sanitize: string -> string,
                           env: Option<string>, k: int)
    requires verb == "PUT" || verb == "POST"
    requires b.id.Some? && IsNumeric(b.id.value) && k in rows && ValueEquals(ParseNumeric(b.id.value).value, k)
    requires !HasUpdatableField(b)
    ensures HandleUpdate(rows, verb, Some(b), sanitize, env, None) ==
              Handled(Response(400, Some(ErrorEnvelope(NoFields))), rows)
  {
    TargetIsTheRowWithThatValue(rows, ParseNumeric(b.id.value).value);
  }

  /**
   * A successful update: "success" with the merged row as data, stored under
   * the same id; every supplied column takes its supplied value, every other
   * column and every other row is unchanged.
   */
  lemma UpdateSuccess(rows: map<int, Note>, verb: string, b: UpdateBody, sanitize: string -> string,
                      env: Option<string>, k: int)
    requires verb == "PUT" || verb == "POST"
    requires b.id.Some? && IsNumeric(b.id.value) && k in rows && ValueEquals(ParseNumeric(b.id.value).value, k)
    requires b.date.Some? ==> YmdDate.IsValidYmdDate(b.date.value)
    requires HasUpdatableField(b)
    ensures var h := HandleUpdate(rows, verb, Some(b), sanitize, env, None);
            && Succeeded(h.response)
            && h.response.body.value.data == Some(NoteRow(k, h.rows[k]))
            && h.rows == rows[k := h.rows[k]]
            && forall c ::
                 ColumnValue(h.rows[k], c) ==
                   if Supplies(b, c) then SuppliedValue(b, c, sanitize) else ColumnValue(rows[k], c)
  {
    TargetIsTheRowWithThatValue(rows, ParseNumeric(b.id.value).value);
    forall c {
      MergeByColumn(rows[k], b, sanitize, c);
    }
  }

  /** Sending only a new category changes the category and leaves title, content and date as they were. */
  lemma UpdateOnlyCategory(rows: map<int, Note>, k: int, category: string, sanitize: string -> string,
                           env: Option<string>)
    requires k in rows && !PhpText.IsBlank(category)
    ensures var b := UpdateBody(Some(DecimalText(k)), None, None, Some(category), None);
            var h := HandleUpdate(rows, "PUT", Some(b), sanitize, env, None);
            && Succeeded(h.response)
            && h.rows == rows[k := rows[k].(category := sanitize(category))]
  {
    DecimalTextRoundTrip(k);
  }
}
