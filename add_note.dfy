/**
 * backend/add_note.php: a POST inserts the four received values as a new row,
 * with no trimming and no validation; any other verb produces no output. The
 * reply is a JSON object with one string member.
 */
module AddNote {
  import opened Wrappers
  import opened Db

  /** The note table: its rows by id and its AUTO_INCREMENT counter. */
  datatype Table = Table(rows: map<int, Note>, nextId: int)

  /** Every id in use is below the counter, so the counter names a fresh id. */
  predicate ValidTable(t: Table)
  {
    forall k :: k in t.rows ==> k < t.nextId
  }

  /** The four members `$data->title`, `->content`, `->category`, `->date`, as received. */
  datatype AddBody = AddBody(title: string, content: string, category: string, date: string)

  /** The reply (`None`: nothing is echoed) and the table afterwards. */
  datatype AddResult = AddResult(reply: Option<map<string, string>>, table: Table)

  const AddedMessage := "Note added successfully"

  /** The row the INSERT writes: exactly the received values. */
  function ReceivedNote(body: AddBody): Note
  {
    Note(body.title, body.content, body.category, body.date)
  }

  /**
   * The handler. `storeFault` is the message of the PDOException the INSERT
   * throws, if it throws.
   */
  function HandleAdd(t: Table, verb: string, body: AddBody, storeFault: Option<string>): (h: AddResult)
    ensures ValidTable(t) ==> ValidTable(h.table)
    ensures h.table.rows.Keys == t.rows.Keys + (if h.table == t then {} else {t.nextId})
    ensures ValidTable(t) ==> forall k :: k in t.rows ==> k in h.table.rows && h.table.rows[k] == t.rows[k]
    ensures (h.reply.Some? && "success" in h.reply.value) <==> h.table != t
  {
    if verb == "POST" then
      if storeFault.None? then
        AddResult(Some(map["success" := AddedMessage]),
                  Table(t.rows[t.nextId := ReceivedNote(body)], t.nextId + 1))
      else
        AddResult(Some(map["error" := storeFault.value]), t)
    else
      AddResult(None, t)
  }

  /** Only POST has an effect; every other verb is answered with nothing and changes nothing. */
  lemma AddOnlyOnPost(t: Table, verb: string, body: AddBody, storeFault: Option<string>)
    requires verb != "POST"
    ensures HandleAdd(t, verb, body, storeFault) == AddResult(None, t)
  {
  }

  /** A stored POST adds exactly one row, holding exactly the received values, under a fresh id. */
  lemma AddStoresOneNoteAsReceived(t: Table, body: AddBody)
    requires ValidTable(t)
    ensures var h := HandleAdd(t, "POST", body, None);
            && t.nextId !in t.rows
            && h.table.rows == t.rows[t.nextId := ReceivedNote(body)]
            && |h.table.rows| == |t.rows| + 1
            && h.reply == Some(map["success" := AddedMessage])
  {
  }

  /** A failing INSERT answers `{"error": message}`, never the success member, and changes nothing. */
  lemma AddStoreFailure(t: Table, verb: string, body: AddBody, message: string)
    requires verb == "POST"
    ensures HandleAdd(t, verb, body, Some(message)) == AddResult(Some(map["error" := message]), t)
    ensures "success" !in HandleAdd(t, verb, body, Some(message)).reply.value
  {
  }
}
