/**
 * screens/CreateNoteScreen.js: the new-note form's state, its validator, its
 * change handler, and what `handleSaveNote` does with backend/add_note.php's
 * reply. The POST itself is `AddNote.HandleAdd`; the network, the alerts'
 * display and the navigation are not part of this model.
 */
module CreateNoteScreen {
  import opened JsText
  import opened FormState
  import opened Wrappers
  import AddNote

  const TitleRequired := "Title is required"
  const ContentRequired := "Content is required"
  const CategoryRequired := "Category is required"
  const FillInAll := "Please fill in all required fields"
  const NoteCreated := "Note created successfully"
  const CreateFailed := "Failed to create note"

  /** An `Alert.alert(title, message)`. */
  datatype Alert = Alert(title: string, message: string)

  /** What a press of the save button leads to: an alert without a request, or the POST of the form. */
  datatype Save = Rejected(alert: Alert) | Posted(body: AddNote.AddBody)

  /** The messages `validateForm` collects: title and content after trimming, the category as is; the date never. */
  function NoteErrors(title: string, content: string, category: string): (r: map<string, string>)
    ensures r.Keys <= {"title", "content", "category"}
    ensures forall f :: f in r ==> r[f] != ""
  {
    var withTitle := if IsBlank(title) then map["title" := TitleRequired] else map[];
    var withContent := if IsBlank(content) then withTitle["content" := ContentRequired] else withTitle;
    if category == "" then withContent["category" := CategoryRequired] else withContent
  }

  /**
   * Each of title and content is reported exactly when it is blank after
   * trimming; the category only when it is the empty string, so a category
   * of spaces passes.
   */
  lemma NoteFieldsChecked(title: string, content: string, category: string)
    ensures var r := NoteErrors(title, content, category);
            && ("title" in r <==> IsBlank(title)) && ("title" in r ==> r["title"] == TitleRequired)
            && ("content" in r <==> IsBlank(content)) && ("content" in r ==> r["content"] == ContentRequired)
            && ("category" in r <==> category == "") && ("category" in r ==> r["category"] == CategoryRequired)
  {
  }

  /** The form is accepted exactly when title and content have a non-space character and a category is chosen. */
  lemma NoteAcceptsExactly(title: string, content: string, category: string)
    ensures NoteErrors(title, content, category) == map[] <==> !IsBlank(title) && !IsBlank(content) && category != ""
  {
    NoteFieldsChecked(title, content, category);
    var r := NoteErrors(title, content, category);
    if r != map[] {
      var f :| f in r;
    }
  }

  /**
   * `handleSaveNote`'s reading of the reply, as written: success only when
   * the reply's `status` member is "success"; otherwise the error thrown
   * carries the reply's `message`, or "Failed to create note" when it has
   * none.
   */
  function SaveAlertAsWritten(reply: map<string, string>): (a: Alert)
    ensures a.title == "Success" <==> "status" in reply && reply["status"] == "success"
  {
    if "status" in reply && reply["status"] == "success" then Alert("Success", NoteCreated)
    else Alert("Error", if "message" in reply && reply["message"] != "" then reply["message"] else CreateFailed)
  }

  /**
   * backend/add_note.php answers `{"success": ...}` or `{"error": ...}`,
   * never a `status` or a `message` member: as written, every save is
   * reported as "Failed to create note", including one that stored the note.
   */
  lemma SaveAlwaysReportedAsFailure(t: AddNote.Table, body: AddNote.AddBody, storeFault: Option<string>)
    ensures var h := AddNote.HandleAdd(t, "POST", body, storeFault);
            && h.reply.Some?
            && SaveAlertAsWritten(h.reply.value) == Alert("Error", CreateFailed)
  {
  }

  /** The evident intent: the reply's own members decide, `success` for a stored note, `error` for a failure. */
  function SaveAlert(reply: map<string, string>): (a: Alert)
    ensures a.title == "Success" <==> "success" in reply
  {
    if "success" in reply then Alert("Success", NoteCreated)
    else Alert("Error", if "error" in reply && reply["error"] != "" then reply["error"] else CreateFailed)
  }

  /**
   * With the corrected reading, the screen reports success exactly when the
   * backend stored the note, and otherwise shows the store's own message.
   */
  lemma SaveReportedAsStored(t: AddNote.Table, body: AddNote.AddBody, storeFault: Option<string>)
    requires AddNote.ValidTable(t)
    ensures var h := AddNote.HandleAdd(t, "POST", body, storeFault);
            && h.reply.Some?
            && (SaveAlert(h.reply.value).title == "Success" <==> h.table != t)
            && (storeFault.Some? && storeFault.value != "" ==> SaveAlert(h.reply.value) == Alert("Error", storeFault.value))
  {
  }

  class CreateNoteScreen {
    /** `formData`: the text of each input, by field name. */
    var formData: map<string, string>
    /** `errors`: the messages on display, by field name. */
    var errors: ErrorState

    ghost predicate Valid()
      reads this
    {
      "title" in formData && "content" in formData && "category" in formData && "date" in formData
    }

    /** The messages the current form would produce. */
    ghost function CurrentErrors(): map<string, string>
      reads this
      requires Valid()
    {
      NoteErrors(formData["title"], formData["content"], formData["category"])
    }

    /**
     * Empty title and content, category "Personal", and today's date;
     * `today` is `new Date().toISOString().split('T')[0]`, the clock's UTC date.
     */
    constructor (today: string)
      ensures Valid()
      ensures formData == map["title" := "", "content" := "", "category" := "Personal", "date" := today]
      ensures errors == map[]
    {
      formData := map["title" := "", "content" := "", "category" := "Personal", "date" := today];
      errors := map[];
    }

    /** `validateForm`: collects the messages, shows them, and answers whether there were none (no keys). */
    method ValidateForm() returns (ok: bool)
      requires Valid()
      modifies this`errors
      ensures errors == AsErrorState(CurrentErrors())
      ensures ok <==> CurrentErrors() == map[]
    {
      var title, content, category := formData["title"], formData["content"], formData["category"];
      var newErrors: map<string, string> := map[];
      if IsBlank(title) {
        newErrors := newErrors["title" := TitleRequired];
      }
      if IsBlank(content) {
        newErrors := newErrors["content" := ContentRequired];
      }
      if category == "" {
        newErrors := newErrors["category" := CategoryRequired];
      }
      errors := AsErrorState(newErrors);
      ok := newErrors == map[];
    }

    /**
     * `handleSaveNote` up to the request: an invalid form is answered with an
     * alert and never posted; a valid one posts the form's four fields as they
     * are, date included.
     */
    method HandleSaveNote() returns (save: Save)
      requires Valid()
      modifies this`errors
      ensures errors == AsErrorState(CurrentErrors())
      ensures save.Posted? <==> CurrentErrors() == map[]
      ensures save.Rejected? ==> save.alert == Alert("Error", FillInAll)
      ensures save.Posted? ==>
                save.body == AddNote.AddBody(formData["title"], formData["content"], formData["category"], formData["date"])
    {
      var ok := ValidateForm();
      if !ok {
        return Rejected(Alert("Error", FillInAll));
      }
      save := Posted(AddNote.AddBody(formData["title"], formData["content"], formData["category"], formData["date"]));
    }

    /** `handleChange(field, value)`: the field takes the value, and its error is cleared if one is shown. */
    method HandleChange(field: string, value: string)
      requires Valid()
      modifies this
      ensures Valid()
      ensures formData == old(formData)[field := value]
      ensures errors == ClearError(old(errors), field)
    {
      formData := formData[field := value];
      if HasError(errors, field) {
        errors := errors[field := None];
      }
    }
  }
}
