/**
 * The edit-tag request: its "at least one field" validator, which pydantic
 * runs on the raw request values before the fields are checked, and the
 * field checks that follow it.
 */
module SchemaTag {
  import opened Wrappers
  import opened PyValue

  const AtLeastOneMessage := "Either 'name' or 'description' must be provided"

  /** What validating a request can raise: the validator's ValueError, or a field that is missing or not a str. */
  datatype RequestError = ValueError(message: string) | FieldError(field: string)

  /**
   * at_least_one: the raw values are refused exactly when neither the name
   * nor the description is truthy (missing, None and "" all count as not
   * given), and are otherwise passed on as they came.
   */
  function AtLeastOne(values: seq<(string, Value)>): (r: Result<seq<(string, Value)>, RequestError>)
    ensures r.Success? <==>
              exists f :: f in ["name", "description"] && f in KeysOf(values) && Truthy(DictGet(values, f))
    ensures r.Failure? ==> r.error == ValueError(AtLeastOneMessage)
    ensures r.Success? ==> r.value == values
  {
    if !Truthy(DictGet(values, "name")) && !Truthy(DictGet(values, "description")) then
      Failure(ValueError(AtLeastOneMessage))
    else
      Success(values)
  }

  /** A field typed `str | None` with no default: it must be present, and None or a str. */
  function TextField(values: seq<(string, Value)>, f: string): (r: Result<Option<string>, RequestError>)
    ensures r.Success? <==> f in KeysOf(values) && (DictGet(values, f).VNone? || DictGet(values, f).VStr?)
    ensures r.Success? ==> r.value == (if DictGet(values, f).VStr? then Some(DictGet(values, f).s) else None)
    ensures r.Failure? ==> r.error == FieldError(f)
  {
    match DictLookup(values, f)
    case None => Failure(FieldError(f))
    case Some(VNone) => Success(None)
    case Some(VStr(s)) => Success(Some(s))
    case Some(_) => Failure(FieldError(f))
  }

  /** EditTagRequst built from the request body: the validator first, then the two fields. */
  function EditTagRequest(values: seq<(string, Value)>): Result<(Option<string>, Option<string>), RequestError>
  {
    match AtLeastOne(values)
    case Failure(e) => Failure(e)
    case Success(checked) =>
      match TextField(checked, "name")
      case Failure(e) => Failure(e)
      case Success(name) =>
        match TextField(checked, "description")
        case Failure(e) => Failure(e)
        case Success(description) => Success((name, description))
  }

  /**
   * An accepted request always carries a truthy name or description, so
   * edit_tag never takes its "nothing to update" exit for it and the cached
   * copy, when there is one, gets at least one field.
   */
  lemma AcceptedRequestHasField(values: seq<(string, Value)>)
    requires EditTagRequest(values).Success?
    ensures var (name, description) := EditTagRequest(values).value;
            TruthyText(name) || TruthyText(description)
  {
    var name := DictGet(values, "name");
    var description := DictGet(values, "description");
    assert Truthy(name) || Truthy(description);
    assert name.VNone? || name.VStr?;
    assert description.VNone? || description.VStr?;
  }

  /** A truthy name alone is enough, whatever else the request holds. */
  lemma NameAloneAccepted(values: seq<(string, Value)>, name: string)
    requires DictGet(values, "name") == VStr(name)
    requires name != ""
    ensures AtLeastOne(values) == Success(values)
    ensures DictLookup(values, "description") == Some(VNone) ==> EditTagRequest(values) == Success((Some(name), None))
    ensures "description" !in KeysOf(values) ==> EditTagRequest(values) == Failure(FieldError("description"))
  {
    assert "name" in KeysOf(values);
    assert Truthy(DictGet(values, "name"));
  }

  /** A truthy description alone is enough, whatever else the request holds. */
  lemma DescriptionAloneAccepted(values: seq<(string, Value)>, description: string)
    requires DictGet(values, "description") == VStr(description)
    requires description != ""
    ensures AtLeastOne(values) == Success(values)
    ensures DictLookup(values, "name") == Some(VNone) ==> EditTagRequest(values) == Success((None, Some(description)))
    ensures "name" !in KeysOf(values) ==> EditTagRequest(values) == Failure(FieldError("name"))
  {
    assert "description" in KeysOf(values);
    assert Truthy(DictGet(values, "description"));
  }

  /** Missing, None and empty fields are refused alike, with the validator's message. */
  lemma FalsyFieldsRefused(values: seq<(string, Value)>)
    requires forall f :: f in ["name", "description"] && f in KeysOf(values) ==>
               DictGet(values, f) == VNone || DictGet(values, f) == VStr("")
    ensures EditTagRequest(values) == Failure(ValueError(AtLeastOneMessage))
  {
  }
}
