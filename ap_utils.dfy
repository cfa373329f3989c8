/**
 * Application parameters as the service loads them: the value-type check,
 * and the flattening of the nested JSON description into a list of
 * parameters named by their dot-joined key paths.
 */
module ApUtils {
  import opened Wrappers
  import opened PyValue

  /** AP_type. */
  datatype ApType = String | Bool | Integer | Float | List | Datetime | Uuid | Url

  /** AP_visibility. */
  datatype Visibility = Public | Protected | Private

  function TypeValue(t: ApType): string
  {
    match t
    case String => "str"
    case Bool => "bool"
    case Integer => "int"
    case Float => "float"
    case List => "list"
    case Datetime => "datetime"
    case Uuid => "uuid"
    case Url => "url"
  }

  function VisibilityValue(v: Visibility): string
  {
    match v
    case Public => "public"
    case Protected => "protected"
    case Private => "private"
  }

  /** What urlparse yields that validate_data looks at. */
  datatype UrlParts = UrlParts(scheme: string, netloc: string)

  /** urlparse of a value that is not a str calls .decode on it unless it is falsy. */
  datatype ValidateError = AttributeError

  /**
   * validate_data. A data type that matches none of the cases is given as
   * None. `urlparse` stands for the library's parser on strings.
   */
  function ValidateData(data: Value, dataType: Option<ApType>, urlparse: string -> UrlParts): (r: Result<bool, ValidateError>)
    ensures r.Failure? <==> dataType == Some(Url) && !data.VStr? && Truthy(data)
    ensures dataType == Some(String) || dataType == None ==> r == Success(dataType.Some?)
    ensures dataType == Some(Url) && r == Success(true) ==>
              data.VStr? && urlparse(data.s).scheme != "" && urlparse(data.s).netloc != ""
  {
    match dataType
    case None => Success(false)
    case Some(String) => Success(true)
    case Some(Bool) => Success(data.VBool?)
    case Some(Integer) => Success(data.VInt? || data.VBool?)
    case Some(Float) => Success(data.VFloat?)
    case Some(List) => Success(data.VList?)
    case Some(Datetime) => Success(data.VDatetime?)
    case Some(Uuid) => Success(data.VUuid?)
    case Some(Url) =>
      if data.VStr? then
        var parsed := urlparse(data.s);
        Success(parsed.scheme != "" && parsed.netloc != "")
      else if Truthy(data) then Failure(AttributeError)
      else Success(false)
  }

  /**
   * A str is accepted only as a string or as a URL: every other type's
   * isinstance check refuses it.
   */
  lemma TextPassesOnlyStringOrUrl(s: string, t: ApType, urlparse: string -> UrlParts)
    requires ValidateData(VStr(s), Some(t), urlparse) == Success(true)
    ensures t == String || t == Url
  {
  }

  /** A bool passes the integer check as well, since bool is a subclass of int. */
  lemma BoolIsInteger(b: bool, urlparse: string -> UrlParts)
    ensures ValidateData(VBool(b), Some(Integer), urlparse) == Success(true)
    ensures ValidateData(VInt(if b then 1 else 0), Some(Bool), urlparse) == Success(false)
  {
  }

  // ---------------------------------------------------------------------------
  // parse_parameters

  /** ApplicationParameterDC. */
  datatype ApplicationParameter = ApplicationParameter(
    name: string, kind: string, defaultValue: Value, apType: ApType, visibility: Visibility)

  /** The exceptions parse_parameters raises; a list or dict looked up among an enum's values raises TypeError. */
  datatype ParseError =
    | NotADict
    | Incomplete(path: string)
    | UnknownType
    | UnknownKind
    | UnknownVisibility
    | Unhashable

  function ErrorMessage(e: ParseError): string
  {
    match e
    case NotADict => "Unable to parse AP json"
    case Incomplete(path) => "Incomplete AP " + path
    case UnknownType => "Unknown AP type"
    case UnknownKind => "Unknown AP kind"
    case UnknownVisibility => "Unknown AP visibility value"
    case Unhashable => "unhashable type"
  }

  /** f"{path}.{key}" if path else key. */
  function JoinPath(path: string, key: string): string
  {
    if path == "" then key else path + "." + key
  }

  /** A dict value is a group to recurse into unless its "parameter" entry equals 1. */
  predicate IsGroup(v: Value)
  {
    v.VDict? && !EqualsOne(DictGet(v.entries, "parameter"))
  }

  /** v in AP_type._value2member_map_, as a parsed type. */
  function ParseType(v: Value): (r: Result<ApType, ParseError>)
    ensures r.Success? <==> exists t :: v == VStr(TypeValue(t))
    ensures r.Success? ==> v == VStr(TypeValue(r.value))
    ensures r.Failure? ==> r.error == (if Hashable(v) then UnknownType else Unhashable)
  {
    if !Hashable(v) then Failure(Unhashable)
    else if v == VStr(TypeValue(String)) then Success(String)
    else if v == VStr(TypeValue(Bool)) then Success(Bool)
    else if v == VStr(TypeValue(Integer)) then Success(Integer)
    else if v == VStr(TypeValue(Float)) then Success(Float)
    else if v == VStr(TypeValue(List)) then Success(List)
    else if v == VStr(TypeValue(Datetime)) then Success(Datetime)
    else if v == VStr(TypeValue(Uuid)) then Success(Uuid)
    else if v == VStr(TypeValue(Url)) then Success(Url)
    else
      assert forall t :: v != VStr(TypeValue(t));
      Failure(UnknownType)
  }

  /** v in AP_visibility._value2member_map_, as a parsed visibility. */
  function ParseVisibility(v: Value): (r: Result<Visibility, ParseError>)
    ensures r.Success? <==> exists w :: v == VStr(VisibilityValue(w))
    ensures r.Success? ==> v == VStr(VisibilityValue(r.value))
    ensures r.Failure? ==> r.error == (if Hashable(v) then UnknownVisibility else Unhashable)
  {
    if !Hashable(v) then Failure(Unhashable)
    else if v == VStr(VisibilityValue(Public)) then Success(Public)
    else if v == VStr(VisibilityValue(Protected)) then Success(Protected)
    else if v == VStr(VisibilityValue(Private)) then Success(Private)
    else
      assert forall w :: v != VStr(VisibilityValue(w));
      Failure(UnknownVisibility)
  }

  /** v in AP_kind._value2member_map_, the kinds' values being given. */
  function ParseKind(v: Value, kinds: set<string>): (r: Result<string, ParseError>)
    ensures r.Success? <==> v.VStr? && v.s in kinds
    ensures r.Success? ==> v == VStr(r.value)
    ensures r.Failure? ==> r.error == (if Hashable(v) then UnknownKind else Unhashable)
  {
    if !Hashable(v) then Failure(Unhashable)
    else if v.VStr? && v.s in kinds then Success(v.s)
    else Failure(UnknownKind)
  }

  /** The four fields a leaf must have; a field holding None counts as missing. */
  predicate Complete(entries: seq<(string, Value)>)
  {
    && DictGet(entries, "kind") != VNone
    && DictGet(entries, "type") != VNone
    && DictGet(entries, "visibility") != VNone
    && DictGet(entries, "default_value") != VNone
  }

  /**
   * One leaf of parse_parameters: complete, with a known type, kind and
   * visibility (checked in that order), it becomes a parameter named by its
   * path whose empty-string default is replaced by None.
   */
  function Leaf(path: string, entries: seq<(string, Value)>, kinds: set<string>): (r: Result<ApplicationParameter, ParseError>)
    ensures !Complete(entries) ==> r == Failure(Incomplete(path))
    ensures r.Success? <==>
              && Complete(entries)
              && ParseType(DictGet(entries, "type")).Success?
              && ParseKind(DictGet(entries, "kind"), kinds).Success?
              && ParseVisibility(DictGet(entries, "visibility")).Success?
    ensures r.Success? ==> r.value.name == path
    ensures r.Success? ==> (r.value.defaultValue == VNone <==> DictGet(entries, "default_value") == VStr(""))
    ensures r.Success? && r.value.defaultValue != VNone ==> r.value.defaultValue == DictGet(entries, "default_value")
  {
    var kind := DictGet(entries, "kind");
    var apType := DictGet(entries, "type");
    var visibility := DictGet(entries, "visibility");
    var default := DictGet(entries, "default_value");
    if kind == VNone || apType == VNone || visibility == VNone || default == VNone then Failure(Incomplete(path))
    else match ParseType(apType)
      case Failure(e) => Failure(e)
      case Success(t) =>
        match ParseKind(kind, kinds)
        case Failure(e) => Failure(e)
        case Success(k) =>
          match ParseVisibility(visibility)
          case Failure(e) => Failure(e)
          case Success(v) =>
            Success(ApplicationParameter(path, k, if default == VStr("") then VNone else default, t, v))
  }

  /** The parameters of the entries of d from the i-th on, or the first exception. */
  function ParseFrom(d: Value, i: nat, path: string, kinds: set<string>): Result<seq<ApplicationParameter>, ParseError>
    requires d.VDict? && i <= |d.entries|
    decreases d, |d.entries| - i
  {
    if i == |d.entries| then Success([])
    else
      assert d.entries[i] in d.entries;
      Then(ParseEntry(d.entries[i].1, JoinPath(path, d.entries[i].0), kinds), ParseFrom(d, i + 1, path, kinds))
  }

  /** The parameters one value at `path` gives: a group's, a leaf's own, or NotADict. */
  function ParseEntry(value: Value, path: string, kinds: set<string>): (r: Result<seq<ApplicationParameter>, ParseError>)
    ensures r.Success? ==> value.VDict?
    ensures !value.VDict? ==> r == Failure(NotADict)
    decreases value, if value.VDict? then |value.entries| + 1 else 0
  {
    if IsGroup(value) then ParseFrom(value, 0, path, kinds)
    else if !value.VDict? then Failure(NotADict)
    else match Leaf(path, value.entries, kinds)
      case Failure(e) => Failure(e)
      case Success(p) => Success([p])
  }

  /** The head's parameters before the rest's, unless either raised (the head first). */
  function Then<T, E>(head: Result<seq<T>, E>, rest: Result<seq<T>, E>): Result<seq<T>, E>
  {
    match head
    case Failure(e) => Failure(e)
    case Success(ps) => Prepend(ps, rest)
  }

  /** params + the rest, unless the rest raised. */
  function Prepend<T, E>(ps: seq<T>, rest: Result<seq<T>, E>): Result<seq<T>, E>
  {
    match rest
    case Failure(e) => Failure(e)
    case Success(qs) => Success(ps + qs)
  }

  /**
   * parse_parameters: the entries in order, a group's parameters spliced in
   * where the group stands, a leaf appended as it is met; the first
   * exception ends the walk.
   */
  method ParseParameters(data: Value, path: string, kinds: set<string>) returns (r: Result<seq<ApplicationParameter>, ParseError>)
    requires data.VDict?
    ensures r == ParseFrom(data, 0, path, kinds)
    decreases data
  {
    var params: seq<ApplicationParameter> := [];
    var i := 0;
    PrependNil(ParseFrom(data, 0, path, kinds));
    while i < |data.entries|
      invariant 0 <= i <= |data.entries|
      invariant ParseFrom(data, 0, path, kinds) == Prepend(params, ParseFrom(data, i, path, kinds))
    {
      var key := data.entries[i].0;
      var value := data.entries[i].1;
      assert data.entries[i] in data.entries;
      var currentPath := JoinPath(path, key);
      if IsGroup(value) {
        var nested := ParseParameters(value, currentPath, kinds);
        if nested.Failure? {
          return Failure(nested.error);
        }
        PrependAssoc(params, nested.value, ParseFrom(data, i + 1, path, kinds));
        params := params + nested.value;
        i := i + 1;
        continue;
      }
      if !value.VDict? {
        return Failure(NotADict);
      }
      var leaf := Leaf(currentPath, value.entries, kinds);
      if leaf.Failure? {
        return Failure(leaf.error);
      }
      PrependAssoc(params, [leaf.value], ParseFrom(data, i + 1, path, kinds));
      params := params + [leaf.value];
      i := i + 1;
    }
    assert params + [] == params;
    return Success(params);
  }

  lemma PrependNil<T, E>(rest: Result<seq<T>, E>)
    ensures Prepend([], rest) == rest
  {
    if rest.Success? {
      assert [] + rest.value == rest.value;
    }
  }

  lemma PrependAssoc<T, E>(ps: seq<T>, qs: seq<T>, rest: Result<seq<T>, E>)
    ensures Prepend(ps, Prepend(qs, rest)) == Prepend(ps + qs, rest)
  {
    if rest.Success? {
      assert ps + (qs + rest.value) == (ps + qs) + rest.value;
    }
  }

  // ---------------------------------------------------------------------------
  // What the parse produces

  /**
   * The dot-joined paths of the leaves under the entries of d from the i-th
   * on, depth first in key order; values that are not dicts contribute
   * nothing.
   */
  function LeafPaths(d: Value, i: nat, path: string): seq<string>
    requires d.VDict? && i <= |d.entries|
    decreases d, |d.entries| - i
  {
    if i == |d.entries| then []
    else
      assert d.entries[i] in d.entries;
      EntryPaths(d.entries[i].1, JoinPath(path, d.entries[i].0)) + LeafPaths(d, i + 1, path)
  }

  /** The leaf paths under one value at `path`. */
  function EntryPaths(value: Value, path: string): seq<string>
    decreases value, if value.VDict? then |value.entries| + 1 else 0
  {
    if IsGroup(value) then LeafPaths(value, 0, path) else if value.VDict? then [path] else []
  }

  function Names(ps: seq<ApplicationParameter>): seq<string>
  {
    if ps == [] then [] else [ps[0].name] + Names(ps[1..])
  }

  lemma NamesAppend(ps: seq<ApplicationParameter>, qs: seq<ApplicationParameter>)
    ensures Names(ps + qs) == Names(ps) + Names(qs)
  {
    if ps == [] {
      assert ps + qs == qs;
    } else {
      assert (ps + qs)[0] == ps[0];
      assert (ps + qs)[1..] == ps[1..] + qs;
      NamesAppend(ps[1..], qs);
    }
  }

  /**
   * A successful parse yields one parameter per leaf, named by the leaf's
   * dot-joined key path, in depth-first key order.
   */
  lemma {:induction false} ParsedNamesArePaths(d: Value, i: nat, path: string, kinds: set<string>)
    requires d.VDict? && i <= |d.entries|
    requires ParseFrom(d, i, path, kinds).Success?
    ensures Names(ParseFrom(d, i, path, kinds).value) == LeafPaths(d, i, path)
    decreases d, |d.entries| - i
  {
    if i < |d.entries| {
      var value := d.entries[i].1;
      assert d.entries[i] in d.entries;
      var cur := JoinPath(path, d.entries[i].0);
      var head := ParseEntry(value, cur, kinds);
      ParsedNamesArePaths(d, i + 1, path, kinds);
      if IsGroup(value) {
        ParsedNamesArePaths(value, 0, cur, kinds);
      }
      NamesAppend(head.value, ParseFrom(d, i + 1, path, kinds).value);
    }
  }

  /** A successful parse keeps no empty-string default: each became None. */
  lemma {:induction false} ParsedDefaultsNotEmpty(d: Value, i: nat, path: string, kinds: set<string>)
    requires d.VDict? && i <= |d.entries|
    requires ParseFrom(d, i, path, kinds).Success?
    ensures forall p :: p in ParseFrom(d, i, path, kinds).value ==> p.defaultValue != VStr("")
    decreases d, |d.entries| - i
  {
    if i < |d.entries| {
      var value := d.entries[i].1;
      assert d.entries[i] in d.entries;
      var cur := JoinPath(path, d.entries[i].0);
      ParsedDefaultsNotEmpty(d, i + 1, path, kinds);
      if IsGroup(value) {
        ParsedDefaultsNotEmpty(value, 0, cur, kinds);
      }
      var head := ParseEntry(value, cur, kinds).value;
      assert ParseFrom(d, i, path, kinds).value == head + ParseFrom(d, i + 1, path, kinds).value;
    }
  }

  /** A successful parse met no value that is not a dict among the entries it walked. */
  lemma {:induction false} ParsedValuesAreDicts(d: Value, i: nat, path: string, kinds: set<string>)
    requires d.VDict? && i <= |d.entries|
    requires ParseFrom(d, i, path, kinds).Success?
    ensures forall j :: i <= j < |d.entries| ==> d.entries[j].1.VDict?
    decreases |d.entries| - i
  {
    if i < |d.entries| {
      assert ParseEntry(d.entries[i].1, JoinPath(path, d.entries[i].0), kinds).Success?;
      ParsedValuesAreDicts(d, i + 1, path, kinds);
    }
  }
}
