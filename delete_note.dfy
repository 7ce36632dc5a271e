/**
 * backend/delete_note.php as a function of the table's rows: the verb is
 * checked, then the id, which is cast to an integer; then the row's
 * existence; then the DELETE, whose affected-row count decides between
 * success and failure.
 *
 * `dbFault` is the message of the PDOException the first statement throws,
 * if it throws; `env` is `getenv('ENVIRONMENT')`.
 */
module DeleteNote {
  import opened Wrappers
  import opened Db
  import opened PhpNumeric

  /** The decoded body's `id` member, as text; `None` when absent or null. */
  datatype DeleteBody = DeleteBody(id: Option<string>)

  const MethodNotAllowed := "Method not allowed. Please use DELETE or POST."
  const InvalidId := "Valid note ID is required"
  const NotFound := "Note not found"
  const DeleteFailed := "Failed to delete note"
  const DatabaseError := "Database error occurred"
  const Deleted := "Note deleted successfully"

  /** `DELETE FROM note WHERE id = ?`: the rows afterwards and `rowCount()`. */
  function DeleteRow(rows: map<int, Note>, k: int): (r: (map<int, Note>, nat))
    ensures r.0 == rows - {k}
    ensures r.1 > 0 <==> k in rows
  {
    (rows - {k}, if k in rows then 1 else 0)
  }

  /** `(int)$data->id` for an id that passed `is_numeric`. */
  function NoteId(id: string): int
    requires IsNumeric(id)
  {
    IntCast(ParseNumeric(id).value)
  }

  /** The handler: the response and the rows afterwards. */
  function HandleDelete(rows: map<int, Note>, verb: string, body: Option<DeleteBody>,
                        env: Option<string>, dbFault: Option<string>): (h: Handled)
    ensures h.rows.Keys <= rows.Keys
    ensures forall k :: k in h.rows ==> h.rows[k] == rows[k]
    ensures Succeeded(h.response) <==> h.rows != rows
    ensures Succeeded(h.response) ==>
              exists k :: k in rows && h.rows == rows - {k} &&
                          h.response.body == Some(Envelope("success", Deleted, Some(DeletedId(k)), None))
  {
    if verb == "OPTIONS" then Handled(Response(200, None), rows)
    else if verb != "DELETE" && verb != "POST" then Handled(Response(405, Some(ErrorEnvelope(MethodNotAllowed))), rows)
    else if body.None? || body.value.id.None? || !IsNumeric(body.value.id.value) then
      Handled(Response(400, Some(HandleError(InvalidId, None, env))), rows)
    else
      var noteId := NoteId(body.value.id.value);
      if dbFault.Some? then Handled(Response(500, Some(HandleError(DatabaseError, dbFault, env))), rows)
      else if noteId !in rows then Handled(Response(404, Some(ErrorEnvelope(NotFound))), rows)
      else
        var (rows', affected) := DeleteRow(rows, noteId);
        if affected > 0 then
          assert noteId in rows && noteId !in rows';
          Handled(Response(200, Some(Envelope("success", Deleted, Some(DeletedId(noteId)), None))), rows')
        else
          Handled(Response(400, Some(HandleError(DeleteFailed, None, env))), rows)
  }

  /** A preflight OPTIONS request: 200, empty body, nothing changes. */
  lemma DeletePreflight(rows: map<int, Note>, body: Option<DeleteBody>, env: Option<string>, dbFault: Option<string>)
    ensures HandleDelete(rows, "OPTIONS", body, env, dbFault) == Handled(Response(200, None), rows)
  {
  }

  /** Any verb but OPTIONS, DELETE and POST: 405 with an error envelope, nothing changes. */
  lemma DeleteWrongVerb(rows: map<int, Note>, verb: string, body: Option<DeleteBody>,
                        env: Option<string>, dbFault: Option<string>)
    requires verb != "OPTIONS" && verb != "DELETE" && verb != "POST"
    ensures var h := HandleDelete(rows, verb, body, env, dbFault);
            h.response.code == 405 && h.response.body.Some? && h.response.body.value.status == "error" && h.rows == rows
  {
  }

  /** A missing, null or non-numeric id (or an undecodable body): 400 "Valid note ID is required". */
  lemma DeleteRejectsBadId(rows: map<int, Note>, verb: string, body: Option<DeleteBody>,
                           env: Option<string>, dbFault: Option<string>)
    requires verb == "DELETE" || verb == "POST"
    requires body.None? || body.value.id.None? || !IsNumeric(body.value.id.value)
    ensures HandleDelete(rows, verb, body, env, dbFault) == Handled(Response(400, Some(ErrorEnvelope(InvalidId))), rows)
  {
  }

  /** An id whose integer cast names no row: 404 "Note not found", nothing changes. */
  lemma DeleteUnknownId(rows: map<int, Note>, verb: string, id: string, env: Option<string>)
    requires verb == "DELETE" || verb == "POST"
    requires IsNumeric(id) && NoteId(id) !in rows
    ensures HandleDelete(rows, verb, Some(DeleteBody(Some(id))), env, None) ==
              Handled(Response(404, Some(ErrorEnvelope(NotFound))), rows)
  {
  }

  /**
   * Deleting an existing row removes exactly the row the integer cast of the
   * id names, keeps every other row, and reports that integer id.
   */
  lemma DeleteRemovesExactlyThatRow(rows: map<int, Note>, verb: string, id: string, env: Option<string>)
    requires verb == "DELETE" || verb == "POST"
    requires IsNumeric(id) && NoteId(id) in rows
    ensures var h := HandleDelete(rows, verb, Some(DeleteBody(Some(id))), env, None);
            && h.rows == rows - {NoteId(id)}
            && |h.rows| == |rows| - 1
            && h.response == Response(200, Some(Envelope("success", Deleted, Some(DeletedId(NoteId(id))), None)))
  {
  }

  /** Delete is not idempotent: whatever the first call did, a second with the same id finds nothing. */
  lemma {:induction false} DeleteTwiceIsNotFound(rows: map<int, Note>, verb: string, id: string, env: Option<string>)
    requires verb == "DELETE" || verb == "POST"
    requires IsNumeric(id)
    ensures var first := HandleDelete(rows, verb, Some(DeleteBody(Some(id))), env, None);
            var second := HandleDelete(first.rows, verb, Some(DeleteBody(Some(id))), env, None);
            second == Handled(Response(404, Some(ErrorEnvelope(NotFound))), first.rows)
  {
    var first := HandleDelete(rows, verb, Some(DeleteBody(Some(id))), env, None);
    assert NoteId(id) !in first.rows;
  }
}
