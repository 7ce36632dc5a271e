/**
 * The `note` table as an object the three write handlers change in place,
 * one request at a time. Each handler method follows its PHP script step by
 * step and is proved to answer and to leave the table exactly as the
 * handler's function (AddNote.HandleAdd, UpdateNote.HandleUpdate,
 * DeleteNote.HandleDelete) says.
 */
module NoteStore {
  import opened Wrappers
  import opened Db
  import opened PhpNumeric
  import PhpText
  import YmdDate
  import AddNote
  import UpdateNote
  import DeleteNote

  class NoteStore {
    /** The rows of the table by id. */
    var rows: map<int, Note>
    /** The AUTO_INCREMENT counter: the id the next INSERT receives. */
    var nextId: int

    ghost predicate Valid()
      reads this
    {
      AddNote.ValidTable(AddNote.Table(rows, nextId))
    }

    /** An empty table whose first id is 1. */
    constructor ()
      ensures Valid() && rows == map[] && nextId == 1
    {
      rows := map[];
      nextId := 1;
    }

    /** backend/add_note.php. */
    method Add(verb: string, body: AddNote.AddBody, storeFault: Option<string>)
      returns (reply: Option<map<string, string>>)
      requires Valid()
      modifies this
      ensures Valid()
      ensures AddNote.AddResult(reply, AddNote.Table(rows, nextId)) ==
                AddNote.HandleAdd(AddNote.Table(old(rows), old(nextId)), verb, body, storeFault)
    {
      reply := None;
      if verb == "POST" {
        var title, content, category, date := body.title, body.content, body.category, body.date;
        if storeFault.None? {
          rows := rows[nextId := Note(title, content, category, date)];
          nextId := nextId + 1;
          reply := Some(map["success" := AddNote.AddedMessage]);
        } else {
          reply := Some(map["error" := storeFault.value]);
        }
      }
    }

    /** `SELECT id FROM note WHERE id = ?` with a numeric id: the row whose id equals the id's value. */
    method FindById(n: Number) returns (found: Option<int>)
      ensures found.Some? <==> exists k :: k in rows && ValueEquals(n, k)
      ensures found.Some? ==> found.value in rows && ValueEquals(n, found.value)
      ensures found == (if UpdateNote.Target(n).Some? && UpdateNote.Target(n).value in rows
                        then UpdateNote.Target(n) else None)
    {
      UpdateNote.TargetIsTheRowWithThatValue(rows, n);
      if IsIntegral(n) && IntCast(n) in rows {
        found := Some(IntCast(n));
        ValueEqualsIffIntegralCast(n, IntCast(n));
      } else {
        found := None;
      }
    }

    /** backend/update_note.php. */
    method Update(verb: string, body: Option<UpdateNote.UpdateBody>, sanitize: string -> string,
                  env: Option<string>, dbFault: Option<string>) returns (r: Response)
      requires Valid()
      modifies this`rows
      ensures Valid()
      ensures Handled(r, rows) == UpdateNote.HandleUpdate(old(rows), verb, body, sanitize, env, dbFault)
    {
      if verb == "OPTIONS" {
        return Response(200, None);
      }
      if verb != "PUT" && verb != "POST" {
        return Response(405, Some(ErrorEnvelope(UpdateNote.MethodNotAllowed)));
      }
      if body.None? {
        return Response(400, Some(HandleError(UpdateNote.InvalidJson, None, env)));
      }
      var data := body.value;
      if data.id.None? || !IsNumeric(data.id.value) {
        return Response(400, Some(HandleError(UpdateNote.InvalidId, None, env)));
      }
      if dbFault.Some? {
        return Response(500, Some(HandleError(UpdateNote.DatabaseError, dbFault, env)));
      }
      var found := FindById(ParseNumeric(data.id.value).value);
      if found.None? {
        return Response(404, Some(ErrorEnvelope(UpdateNote.NotFound)));
      }
      var k := found.value;
      var dateOk, updateFields, params := CollectFields(data, sanitize);
      if !dateOk {
        return Response(400, Some(HandleError(UpdateNote.InvalidDate, None, env)));
      }
      if updateFields == [] {
        return Response(400, Some(HandleError(UpdateNote.NoFields, None, env)));
      }
      // UPDATE note SET <updateFields> WHERE id = ?
      WriteFields(k, data, sanitize, updateFields, params);

      // SELECT * FROM note WHERE id = ?
      var updatedNote := rows[k];
      r := Response(200, Some(Envelope("success", UpdateNote.Updated, Some(NoteRow(k, updatedNote)), None)));
    }

    /** The `UPDATE`: writing the collected columns gives row `k` the merge of the request into it. */
    method WriteFields(k: int, data: UpdateNote.UpdateBody, sanitize: string -> string,
                       updateFields: seq<Column>, params: seq<string>)
      requires Valid() && k in rows && |updateFields| == |params|
      requires forall j :: 0 <= j < |updateFields| ==>
                 UpdateNote.Supplies(data, updateFields[j]) &&
                 params[j] == UpdateNote.SuppliedValue(data, updateFields[j], sanitize)
      requires forall c :: (c in updateFields <==> UpdateNote.Supplies(data, c))
      modifies this`rows
      ensures Valid()
      ensures rows == old(rows)[k := UpdateNote.Merge(old(rows)[k], data, sanitize)]
    {
      ghost var merged := UpdateNote.Merge(rows[k], data, sanitize);
      forall j | 0 <= j < |updateFields|
        ensures params[j] == ColumnValue(merged, updateFields[j])
      {
        UpdateNote.MergeByColumn(old(rows)[k], data, sanitize, updateFields[j]);
      }
      SetColumns(k, updateFields, params, merged);
      forall c
        ensures ColumnValue(rows[k], c) == ColumnValue(merged, c)
      {
        UpdateNote.MergeByColumn(old(rows)[k], data, sanitize, c);
      }
      RowsEqualByColumns(rows[k], merged);
    }

    /**
     * The building of `$updateFields` and `$params`: each text field that is
     * set and not blank contributes its column and its sanitized value, in the
     * order title, content, category; a supplied date contributes itself once
     * it passes the calendar check, and one that fails it stops the update.
     */
    static method CollectFields(data: UpdateNote.UpdateBody, sanitize: string -> string)
      returns (dateOk: bool, updateFields: seq<Column>, params: seq<string>)
      ensures dateOk <==> data.date.None? || YmdDate.IsValidYmdDate(data.date.value)
      ensures dateOk ==> |updateFields| == |params|
      ensures dateOk ==> forall j :: 0 <= j < |updateFields| ==>
                UpdateNote.Supplies(data, updateFields[j]) &&
                params[j] == UpdateNote.SuppliedValue(data, updateFields[j], sanitize)
      ensures dateOk ==> forall c :: (c in updateFields <==> UpdateNote.Supplies(data, c))
      ensures dateOk ==> (updateFields == [] <==> !UpdateNote.HasUpdatableField(data))
    {
      updateFields, params := [], [];
      if data.title.Some? && !PhpText.IsBlank(data.title.value) {
        updateFields, params := updateFields + [Title], params + [sanitize(data.title.value)];
      }
      CheckedStep(data, sanitize, [], [], {}, Title, updateFields, params);
      ghost var fields1, params1 := updateFields, params;
      if data.content.Some? && !PhpText.IsBlank(data.content.value) {
        updateFields, params := updateFields + [Content], params + [sanitize(data.content.value)];
      }
      CheckedStep(data, sanitize, fields1, params1, {Title}, Content, updateFields, params);
      ghost var fields2, params2 := updateFields, params;
      if data.category.Some? && !PhpText.IsBlank(data.category.value) {
        updateFields, params := updateFields + [Category], params + [sanitize(data.category.value)];
      }
      CheckedStep(data, sanitize, fields2, params2, {Title, Content}, Category, updateFields, params);
      ghost var fields3, params3 := updateFields, params;
      dateOk := true;
      if data.date.Some? {
        if !YmdDate.IsValidYmdDate(data.date.value) {
          dateOk := false;
          return;
        }
        updateFields, params := updateFields + [Date], params + [data.date.value];
      }
      CheckedStep(data, sanitize, fields3, params3, {Title, Content, Category}, Date, updateFields, params);
      AllChecked(data, sanitize, updateFields, params);
    }

    /** After the checks of the columns in `done`: the lists hold exactly those of them the body sets, with their values. */
    static ghost predicate Invariant(data: UpdateNote.UpdateBody, sanitize: string -> string,
                                     updateFields: seq<Column>, params: seq<string>, done: set<Column>)
    {
      && |updateFields| == |params|
      && (forall j :: 0 <= j < |updateFields| ==>
            updateFields[j] in done && UpdateNote.Supplies(data, updateFields[j]) &&
            params[j] == UpdateNote.SuppliedValue(data, updateFields[j], sanitize))
      && (forall c :: c in done ==> (c in updateFields <==> UpdateNote.Supplies(data, c)))
    }

    /** Once every column is checked, the lists name exactly the columns the body sets. */
    static lemma AllChecked(data: UpdateNote.UpdateBody, sanitize: string -> string,
                            fields: seq<Column>, params: seq<string>)
      requires Invariant(data, sanitize, fields, params, {Title, Content, Category, Date})
      ensures forall c :: (c in fields <==> UpdateNote.Supplies(data, c))
      ensures fields == [] <==> !UpdateNote.HasUpdatableField(data)
    {
      forall c ensures c in fields <==> UpdateNote.Supplies(data, c) {
        assert c in {Title, Content, Category, Date} by {
          match c
          case Title =>
          case Content =>
          case Category =>
          case Date =>
        }
      }
      if fields != [] {
        assert fields[0] in fields;
      } else {
        assert Title !in fields && Content !in fields && Category !in fields && Date !in fields;
      }
    }

    /** Checking one more column keeps the lists exact: it is appended, with its value, when the body sets it. */
    static lemma CheckedStep(data: UpdateNote.UpdateBody, sanitize: string -> string,
                             fields: seq<Column>, params: seq<string>, done: set<Column>, c: Column,
                             fields': seq<Column>, params': seq<string>)
      requires Invariant(data, sanitize, fields, params, done) && c !in done
      requires if UpdateNote.Supplies(data, c)
               then fields' == fields + [c] && params' == params + [UpdateNote.SuppliedValue(data, c, sanitize)]
               else fields' == fields && params' == params
      ensures Invariant(data, sanitize, fields', params', done + {c})
    {
    }

    /**
     * `UPDATE note SET c1 = ?, ... WHERE id = ?`: each listed column of row
     * `k` takes its parameter. The columns are distinct, and every parameter
     * is `target`'s value for its column, so afterwards the listed columns
     * hold `target`'s values and the others are unchanged.
     */
    method SetColumns(k: int, updateFields: seq<Column>, params: seq<string>, ghost target: Note)
      requires k in rows && |updateFields| == |params|
      requires forall j :: 0 <= j < |updateFields| ==> params[j] == ColumnValue(target, updateFields[j])
      modifies this`rows
      ensures rows.Keys == old(rows).Keys
      ensures forall j :: j in rows && j != k ==> rows[j] == old(rows)[j]
      ensures forall c ::
                ColumnValue(rows[k], c) == if c in updateFields then ColumnValue(target, c) else ColumnValue(old(rows)[k], c)
    {
      var row := rows[k];
      for i := 0 to |updateFields|
        invariant forall c ::
                    ColumnValue(row, c) ==
                      if c in updateFields[..i] then ColumnValue(target, c) else ColumnValue(old(rows)[k], c)
      {
        row := SetColumn(row, updateFields[i], params[i]);
        assert updateFields[..i + 1] == updateFields[..i] + [updateFields[i]];
      }
      assert updateFields[..|updateFields|] == updateFields;
      rows := rows[k := row];
    }

    /** `DELETE FROM note WHERE id = ?` followed by `rowCount()`. */
    method RemoveRow(k: int) returns (affected: nat)
      modifies this`rows
      ensures (rows, affected) == DeleteNote.DeleteRow(old(rows), k)
    {
      affected := if k in rows then 1 else 0;
      rows := rows - {k};
    }

    /** backend/delete_note.php. */
    method Delete(verb: string, body: Option<DeleteNote.DeleteBody>, env: Option<string>, dbFault: Option<string>)
      returns (r: Response)
      requires Valid()
      modifies this`rows
      ensures Valid()
      ensures Handled(r, rows) == DeleteNote.HandleDelete(old(rows), verb, body, env, dbFault)
    {
      if verb == "OPTIONS" {
        return Response(200, None);
      }
      if verb != "DELETE" && verb != "POST" {
        return Response(405, Some(ErrorEnvelope(DeleteNote.MethodNotAllowed)));
      }
      if body.None? || body.value.id.None? || !IsNumeric(body.value.id.value) {
        return Response(400, Some(HandleError(DeleteNote.InvalidId, None, env)));
      }
      var noteId := IntCast(ParseNumeric(body.value.id.value).value);
      if dbFault.Some? {
        return Response(500, Some(HandleError(DeleteNote.DatabaseError, dbFault, env)));
      }
      if noteId !in rows {
        return Response(404, Some(ErrorEnvelope(DeleteNote.NotFound)));
      }
      var affected := RemoveRow(noteId);
      if affected > 0 {
        r := Response(200, Some(Envelope("success", DeleteNote.Deleted, Some(DeletedId(noteId)), None)));
      } else {
        r := Response(400, Some(HandleError(DeleteNote.DeleteFailed, None, env)));
      }
    }
  }
}
