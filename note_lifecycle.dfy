/**
 * How the three write handlers compose over one table: a note created by
 * backend/add_note.php is found by the other two under the id it was given,
 * and the two id-taking handlers read a fractional id differently.
 */
module NoteLifecycle {
  import opened Wrappers
  import opened Db
  import opened PhpNumeric
  import PhpText
  import Text
  import AddNote
  import UpdateNote
  import DeleteNote

  /**
   * Creating a note and then changing its category by the id it was given
   * changes that note's category only: the other columns keep the received
   * values and every older row is untouched.
   */
  lemma CreateThenChangeCategory(t: AddNote.Table, body: AddNote.AddBody, category: string,
                                 sanitize: string -> string, env: Option<string>)
    requires AddNote.ValidTable(t) && !PhpText.IsBlank(category)
    ensures var created := AddNote.HandleAdd(t, "POST", body, None).table.rows;
            var request := UpdateNote.UpdateBody(Some(DecimalText(t.nextId)), None, None, Some(category), None);
            var h := UpdateNote.HandleUpdate(created, "PUT", Some(request), sanitize, env, None);
            && Succeeded(h.response)
            && h.rows == t.rows[t.nextId := AddNote.ReceivedNote(body).(category := sanitize(category))]
  {
    var created := AddNote.HandleAdd(t, "POST", body, None).table.rows;
    assert created == t.rows[t.nextId := AddNote.ReceivedNote(body)];
    UpdateNote.UpdateOnlyCategory(created, t.nextId, category, sanitize, env);
    assert created[t.nextId := created[t.nextId].(category := sanitize(category))] ==
           t.rows[t.nextId := AddNote.ReceivedNote(body).(category := sanitize(category))];
  }

  /** Creating a note and then deleting it by the id it was given leaves the rows as they were. */
  lemma CreateThenDeleteRestoresRows(t: AddNote.Table, body: AddNote.AddBody, env: Option<string>)
    requires AddNote.ValidTable(t)
    ensures var created := AddNote.HandleAdd(t, "POST", body, None).table.rows;
            var h := DeleteNote.HandleDelete(created, "DELETE", Some(DeleteNote.DeleteBody(Some(DecimalText(t.nextId)))), env, None);
            && Succeeded(h.response)
            && h.rows == t.rows
  {
    var created := AddNote.HandleAdd(t, "POST", body, None).table.rows;
    DecimalTextRoundTrip(t.nextId);
    assert t.nextId !in t.rows;
    assert created - {t.nextId} == t.rows;
  }

  /**
   * The id "12.5" passes `is_numeric` in both handlers. The update looks the
   * row up by the id's exact value and finds no row 12.5, so it answers 404;
   * the delete casts the id to the integer 12 first, so it deletes row 12.
   */
  lemma FractionalIdDivergence(rows: map<int, Note>, sanitize: string -> string, env: Option<string>)
    requires 12 in rows
    ensures var u := UpdateNote.HandleUpdate(rows, "PUT",
                       Some(UpdateNote.UpdateBody(Some("12.5"), Some("x"), None, None, None)), sanitize, env, None);
            u == Handled(Response(404, Some(ErrorEnvelope(UpdateNote.NotFound))), rows)
    ensures var d := DeleteNote.HandleDelete(rows, "DELETE", Some(DeleteNote.DeleteBody(Some("12.5"))), env, None);
            d.rows == rows - {12} && Succeeded(d.response)
  {
    FractionExample();
    var n := Number(false, 125, -1);
    assert Text.Pow10(1) == 10;
    assert !IsIntegral(n);
    assert IntCast(n) == 12;
  }
}
