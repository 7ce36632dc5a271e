/**
 * backend/db.php: the note row, the JSON envelope the handlers answer with,
 * `handleError` and `validateFields`. The connection set-up and the CORS
 * headers are not part of this model.
 */
module Db {
  import opened Wrappers
  import PhpText

  /** A row of the `note` table, without its id. */
  datatype Note = Note(title: string, content: string, category: string, date: string)

  /** The columns of the `note` table that a request can set; `Name` is the column's SQL name. */
  datatype Column = Title | Content | Category | Date
  {
    function Name(): string
    {
      match this
      case Title => "title"
      case Content => "content"
      case Category => "category"
      case Date => "date"
    }
  }

  /** The value of column `c` of a row. */
  function ColumnValue(n: Note, c: Column): string
  {
    match c
    case Title => n.title
    case Content => n.content
    case Category => n.category
    case Date => n.date
  }

  /** `SET c = v`: column `c` takes `v`, the other columns keep their values. */
  function SetColumn(n: Note, c: Column, v: string): (r: Note)
    ensures ColumnValue(r, c) == v
    ensures forall c' :: c' != c ==> ColumnValue(r, c') == ColumnValue(n, c')
  {
    match c
    case Title => n.(title := v)
    case Content => n.(content := v)
    case Category => n.(category := v)
    case Date => n.(date := v)
  }

  /** Rows are equal when all their columns are. */
  lemma RowsEqualByColumns(a: Note, b: Note)
    requires forall c :: ColumnValue(a, c) == ColumnValue(b, c)
    ensures a == b
  {
    assert ColumnValue(a, Title) == ColumnValue(b, Title);
    assert ColumnValue(a, Content) == ColumnValue(b, Content);
    assert ColumnValue(a, Category) == ColumnValue(b, Category);
    assert ColumnValue(a, Date) == ColumnValue(b, Date);
  }

  /** What the `data` member of a success envelope holds. */
  datatype Payload = NoteRow(id: int, note: Note) | DeletedId(id: int)

  /** `{"status": ..., "message": ..., "data"?: ..., "debug"?: ...}` */
  datatype Envelope = Envelope(status: string, message: string, data: Option<Payload>, debug: Option<string>)

  /** An HTTP status code and a body; `None` is an empty body. */
  datatype Response = Response(code: int, body: Option<Envelope>)

  /** A request handled against the table's rows: what is answered, and the rows afterwards. */
  datatype Handled = Handled(response: Response, rows: map<int, Note>)

  /** A 200 answer whose envelope says "success". */
  predicate Succeeded(r: Response)
  {
    r.code == 200 && r.body.Some? && r.body.value.status == "success"
  }

  /** An error envelope without a debug field, as the handlers build inline. */
  function ErrorEnvelope(message: string): Envelope
  {
    Envelope("error", message, None, None)
  }

  /**
   * `handleError($message, $error)`: `error` is the message of the caught
   * exception when one is passed, and `environment` is `getenv('ENVIRONMENT')`
   * (`None` when the variable is unset).
   */
  function HandleError(message: string, error: Option<string>, environment: Option<string>): (e: Envelope)
    ensures e.status == "error" && e.message == message && e.data == None
    ensures e.debug.Some? <==> error.Some? && environment != Some("production")
    ensures e.debug.Some? ==> e.debug == error
  {
    var debug := if error.Some? && environment != Some("production") then error else None;
    Envelope("error", message, None, debug)
  }

  /** The debug detail never reaches a client when ENVIRONMENT is "production". */
  lemma ProductionHidesDebug(message: string, error: Option<string>)
    ensures HandleError(message, error, Some("production")) == ErrorEnvelope(message)
  {
  }

  // ------------------------------------------------------------ validateFields

  /** `!isset($data->$field) || empty(trim($data->$field))`; a JSON null is absent. */
  predicate IsMissing(data: map<string, string>, field: string)
  {
    field !in data || PhpText.IsBlank(data[field])
  }

  /** The required fields that are missing, in the order of `required` (repeats included). */
  function MissingFields(data: map<string, string>, required: seq<string>): (r: seq<string>)
    ensures |r| <= |required|
  {
    if required == [] then []
    else
      var last := required[|required| - 1];
      MissingFields(data, required[..|required| - 1]) + (if IsMissing(data, last) then [last] else [])
  }

  /** `"$field is required"` */
  function RequiredMessage(field: string): string
  {
    field + " is required"
  }

  /** Missing fields are collected in list order: the check of a concatenation is the concatenation of the checks. */
  lemma {:induction false} MissingFieldsConcat(data: map<string, string>, a: seq<string>, b: seq<string>)
    ensures MissingFields(data, a + b) == MissingFields(data, a) + MissingFields(data, b)
    decreases |b|
  {
    if b == [] {
      assert a + b == a;
    } else {
      var init := b[..|b| - 1];
      assert (a + b)[..|a + b| - 1] == a + init;
      MissingFieldsConcat(data, a, init);
    }
  }

  /** Each field is reported as often as it is listed when it is missing, and never otherwise. */
  lemma {:induction false} MissingFieldsCount(data: map<string, string>, required: seq<string>, f: string)
    ensures multiset(MissingFields(data, required))[f] ==
              if IsMissing(data, f) then multiset(required)[f] else 0
  {
    if required != [] {
      var init, last := required[..|required| - 1], required[|required| - 1];
      MissingFieldsCount(data, init, f);
      assert required == init + [last];
      assert multiset(required) == multiset(init) + multiset{last};
      if IsMissing(data, last) {
        assert MissingFields(data, required) == MissingFields(data, init) + [last];
      } else {
        assert MissingFields(data, required) == MissingFields(data, init);
      }
    }
  }

  /** A field is reported exactly when it is listed and missing. */
  lemma {:induction false} MissingFieldsMembers(data: map<string, string>, required: seq<string>)
    ensures forall f :: f in MissingFields(data, required) <==> f in required && IsMissing(data, f)
  {
    if required != [] {
      var init, last := required[..|required| - 1], required[|required| - 1];
      MissingFieldsMembers(data, init);
      assert required == init + [last];
    }
  }

  /** Nothing is reported exactly when every required field is set and not blank. */
  lemma NoMissingFields(data: map<string, string>, required: seq<string>)
    ensures MissingFields(data, required) == [] <==>
              forall f :: f in required ==> f in data && !PhpText.IsBlank(data[f])
  {
    MissingFieldsMembers(data, required);
    if MissingFields(data, required) != [] {
      var f := MissingFields(data, required)[0];
      assert f in MissingFields(data, required);
    }
  }

  /**
   * `validateFields($data, $required_fields)`: one "<field> is required"
   * message per required field that is absent or blank after trimming.
   */
  method ValidateFields(data: map<string, string>, required: seq<string>) returns (errors: seq<string>)
    ensures |errors| == |MissingFields(data, required)|
    ensures forall k :: 0 <= k < |errors| ==> errors[k] == RequiredMessage(MissingFields(data, required)[k])
    ensures errors == [] <==> forall f :: f in required ==> f in data && !PhpText.IsBlank(data[f])
  {
    errors := [];
    for i := 0 to |required|
      invariant |errors| == |MissingFields(data, required[..i])|
      invariant forall k :: 0 <= k < |errors| ==> errors[k] == RequiredMessage(MissingFields(data, required[..i])[k])
    {
      var field := required[i];
      assert required[..i + 1][..i] == required[..i];
      if field !in data || PhpText.IsBlank(data[field]) {
        errors := errors + [RequiredMessage(field)];
      }
    }
    assert required[..|required|] == required;
    NoMissingFields(data, required);
  }
}
