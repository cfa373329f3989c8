/**
 * The application-parameter queries: the visibility rule and the choice
 * between the default and the overriding value when a user reads a
 * parameter, the value rows that add and delete change, the default-value
 * update, and the start-up insertion of the parameters the service knows.
 */
module ApDb {
  import opened Wrappers
  import opened PyValue
  import opened ApUtils
  import opened Collections

  /** UserRoles. */
  datatype Role = Admin | User | Moderator

  /**
   * An application_parameters row apart from its id. The type and the
   * visibility are String(20) columns: the service writes the enums'
   * values, but the seeding migration writes whatever text its JSON holds.
   */
  datatype ApRow = ApRow(name: string, kind: string, apType: string, visibility: string, defaultValue: Value)

  /** An ap_value row apart from its id; ap_id is not unique. */
  datatype ValueRow = ValueRow(apId: int, value: Option<string>, override: bool)

  /** ApplicationParameterValue. */
  datatype ParameterValue = ParameterValue(value: string, valueType: ApType)

  /**
   * What the queries raise: ApplicationParameterNotFound, ValueError,
   * MultipleResultsFound from scalar_one_or_none, pydantic's
   * ValidationError, and the AttributeError of `.type` on a missing row.
   */
  datatype ApError = NotFound | ValueError | MultipleResultsFound | ValidationError | AttributeError

  // ---------------------------------------------------------------------------
  // Reading a parameter

  /** How far up the roles a user stands. */
  function Rank(role: Role): nat
  {
    match role
    case User => 0
    case Moderator => 1
    case Admin => 2
  }

  /** The rank a stored visibility asks of a reader who is not turned away as unknown; none for a text outside the enum. */
  function Clearance(v: string): nat
  {
    if v == VisibilityValue(Protected) then 1
    else if v == VisibilityValue(Private) then 2
    else 0
  }

  /**
   * Who may read a parameter: anyone when it is public, otherwise a known
   * user (a user id of 0 counts as no user) whose rank reaches the
   * visibility's clearance.
   */
  predicate CanSee(v: string, userId: Option<int>, users: map<int, Role>)
  {
    v == VisibilityValue(Public) || (userId.Some? && userId.value != 0 && userId.value in users && Rank(users[userId.value]) >= Clearance(v))
  }

  /**
   * The AP_type member a stored type text is the value of: what both
   * pydantic's value_type field and validate_data's match recognise.
   */
  function StoredType(t: string): (r: Option<ApType>)
    ensures r.Some? <==> exists x :: t == TypeValue(x)
    ensures r.Some? ==> TypeValue(r.value) == t
  {
    match ParseType(VStr(t))
    case Success(x) => Some(x)
    case Failure(_) => None
  }

  /** A Text column as the Python value it loads as. */
  function TextValue(t: Option<string>): Value
  {
    if t.Some? then VStr(t.value) else VNone
  }

  /** The value a reader is given: the joined row's when it overrides, the default otherwise. */
  function Shown(ap: ApRow, joined: Option<ValueRow>): Value
  {
    if joined.Some? && joined.value.override then TextValue(joined.value.value) else ap.defaultValue
  }

  /**
   * user_get_application_parameter once the parameter and its overriding
   * value row (if the outer join found one) are in hand: None for a reader
   * who may not see it, the shown value and its type when the value is a
   * str and the type text is an AP_type value, and a validation error
   * otherwise (a null column, a default stored as something else, or a type
   * outside the enum).
   */
  function UserView(ap: ApRow, joined: Option<ValueRow>, userId: Option<int>, users: map<int, Role>)
    : (r: Result<Option<ParameterValue>, ApError>)
    ensures r == Success(None) <==> !CanSee(ap.visibility, userId, users)
    ensures r.Failure? <==>
              CanSee(ap.visibility, userId, users) && (!Shown(ap, joined).VStr? || StoredType(ap.apType).None?)
    ensures r.Failure? ==> r.error == ValidationError
    ensures r.Success? && r.value.Some? ==>
              VStr(r.value.value.value) == Shown(ap, joined) && TypeValue(r.value.value.valueType) == ap.apType
  {
    if ap.visibility != VisibilityValue(Public) && (userId.None? || userId.value == 0) then Success(None)
    else if ap.visibility != VisibilityValue(Public) && userId.value !in users then Success(None)
    else if ap.visibility == VisibilityValue(Protected) && users[userId.value] != Moderator && users[userId.value] != Admin then Success(None)
    else if ap.visibility == VisibilityValue(Private) && users[userId.value] != Admin then Success(None)
    else
      var chosen := if joined.None? || !joined.value.override then ap.defaultValue else TextValue(joined.value.value);
      var valueType := StoredType(ap.apType);
      if chosen.VStr? && valueType.Some? then Success(Some(ParameterValue(chosen.s, valueType.value))) else Failure(ValidationError)
  }

  /**
   * The visibility rules one by one: public parameters are for everyone,
   * no user id sees only public ones, protected ones are for moderators and
   * admins, private ones for admins, an admin sees everything, and a text
   * outside the enum is let through for every known user.
   */
  lemma VisibilityRules(userId: Option<int>, users: map<int, Role>)
    ensures CanSee(VisibilityValue(Public), userId, users)
    ensures userId.None? || userId == Some(0) || (userId.Some? && userId.value !in users) ==>
              forall v :: v != VisibilityValue(Public) ==> !CanSee(v, userId, users)
    ensures userId.Some? && userId.value in users ==>
              (CanSee(VisibilityValue(Protected), userId, users) <==> userId.value != 0 && users[userId.value] in {Moderator, Admin})
    ensures userId.Some? && userId.value in users ==>
              (CanSee(VisibilityValue(Private), userId, users) <==> userId.value != 0 && users[userId.value] == Admin)
    ensures userId.Some? && userId.value != 0 && userId.value in users && users[userId.value] == Admin ==>
              forall v :: CanSee(v, userId, users)
    ensures forall v :: ParseVisibility(VStr(v)).Failure? ==>
              (CanSee(v, userId, users) <==> userId.Some? && userId.value != 0 && userId.value in users)
  {
  }

  /**
   * Rows the seeding migration can write but the service never does: a
   * visibility outside the enum hides the parameter from no known user, and
   * a type outside the enum makes every reader who may see it get a
   * validation error instead of a value.
   */
  lemma OutOfEnumRows(ap: ApRow, joined: Option<ValueRow>, userId: Option<int>, users: map<int, Role>)
    ensures ParseVisibility(VStr(ap.visibility)).Failure? && userId.Some? && userId.value != 0 && userId.value in users ==>
              UserView(ap, joined, userId, users) != Success(None)
    ensures ParseType(VStr(ap.apType)).Failure? ==>
              UserView(ap, joined, userId, users) == if CanSee(ap.visibility, userId, users) then Failure(ValidationError) else Success(None)
  {
    if ParseVisibility(VStr(ap.visibility)).Failure? {
      assert ap.visibility != VisibilityValue(Public);
    }
  }

  // ---------------------------------------------------------------------------
  // The ap_value table

  /** Every value row of a parameter. */
  function RowsOf(values: map<int, ValueRow>, apId: int): set<int>
  {
    set id | id in values && values[id].apId == apId
  }

  /** The value rows of a parameter that the outer join picks up. */
  function OverrideRows(values: map<int, ValueRow>, apId: int): set<int>
  {
    set id | id in values && values[id].apId == apId && values[id].override
  }

  /** No parameter has two overriding rows: the outer join finds at most one row. */
  predicate AtMostOneOverride(values: map<int, ValueRow>)
  {
    forall a, b :: a in values && b in values && values[a].apId == values[b].apId && values[a].override && values[b].override ==> a == b
  }

  /** No parameter has two value rows at all: the lookup by ap_id finds at most one. */
  predicate AtMostOneRow(values: map<int, ValueRow>)
  {
    forall a, b :: a in values && b in values && values[a].apId == values[b].apId ==> a == b
  }

  /** A set whose elements are all equal has at most one. */
  lemma AtMostOne(s: set<int>)
    requires forall a, b :: a in s && b in s ==> a == b
    ensures |s| <= 1
  {
    if s != {} {
      var x := Pick(s);
      forall y | y in s ensures y == x {
      }
      assert s == {x};
    }
  }

  /** Writing one row changes the row sets of a parameter at that id only. */
  lemma WriteRows(values: map<int, ValueRow>, id: int, row: ValueRow, apId: int)
    ensures RowsOf(values[id := row], apId) == RowsOf(values, apId) - {id} + (if row.apId == apId then {id} else {})
    ensures OverrideRows(values[id := row], apId)
            == OverrideRows(values, apId) - {id} + (if row.apId == apId && row.override then {id} else {})
    ensures OverrideRows(values, apId) <= RowsOf(values, apId)
  {
  }

  /** A write keeps one overriding row per parameter when the written row meets no other. */
  lemma WriteKeepsOneOverride(values: map<int, ValueRow>, id: int, row: ValueRow)
    requires AtMostOneOverride(values)
    requires row.override ==> OverrideRows(values, row.apId) <= {id}
    ensures AtMostOneOverride(values[id := row])
  {
    var r := values[id := row];
    forall a, b | a in r && b in r && r[a].apId == r[b].apId && r[a].override && r[b].override
      ensures a == b
    {
      WriteRows(values, id, row, r[a].apId);
      assert a in OverrideRows(r, r[a].apId) && b in OverrideRows(r, r[a].apId);
    }
  }

  /** A write keeps one row per parameter when the written row meets no other. */
  lemma WriteKeepsOneRow(values: map<int, ValueRow>, id: int, row: ValueRow)
    requires AtMostOneRow(values)
    requires RowsOf(values, row.apId) <= {id}
    ensures AtMostOneRow(values[id := row])
  {
    var r := values[id := row];
    forall a, b | a in r && b in r && r[a].apId == r[b].apId
      ensures a == b
    {
      WriteRows(values, id, row, r[a].apId);
      assert a in RowsOf(r, r[a].apId) && b in RowsOf(r, r[a].apId);
    }
  }

  /**
   * The value rows add_application_parameter_value leaves: the overriding
   * row, when the join finds one, takes the new value; otherwise a new
   * overriding row is inserted, beside any row a delete switched off.
   */
  ghost function Added(values: map<int, ValueRow>, newId: int, apId: int, value: string): (r: map<int, ValueRow>)
    requires newId !in values && AtMostOneOverride(values)
    ensures AtMostOneOverride(r)
    ensures exists id :: OverrideRows(r, apId) == {id} && r[id] == ValueRow(apId, Some(value), true)
    ensures RowsOf(values, apId) <= RowsOf(r, apId)
    ensures OverrideRows(values, apId) == {} ==> r == values[newId := ValueRow(apId, Some(value), true)]
    ensures forall id :: id in values && values[id].apId != apId ==> id in r && r[id] == values[id]
    ensures forall id :: id in r && r[id].apId != apId ==> id in values && values[id] == r[id]
  {
    var row := ValueRow(apId, Some(value), true);
    if OverrideRows(values, apId) == {} then
      WriteRows(values, newId, row, apId);
      WriteKeepsOneOverride(values, newId, row);
      values[newId := row]
    else
      var id := Pick(OverrideRows(values, apId));
      AtMostOne(OverrideRows(values, apId));
      SingletonElement(OverrideRows(values, apId), id);
      WriteRows(values, id, row, apId);
      WriteKeepsOneOverride(values, id, row);
      values[id := row]
  }

  /**
   * delete_application_parameter_value on the value rows: no row of the
   * parameter is a ValueError, more than one is MultipleResultsFound, and a
   * single row stops overriding, its value emptied when `wipe` is set.
   */
  ghost function Deleted(values: map<int, ValueRow>, apId: int, wipe: bool): (r: Result<map<int, ValueRow>, ApError>)
    ensures r == Failure(ValueError) <==> RowsOf(values, apId) == {}
    ensures r == Failure(MultipleResultsFound) <==> |RowsOf(values, apId)| > 1
    ensures r.Success? ==> r.value.Keys == values.Keys && OverrideRows(r.value, apId) == {}
    ensures r.Success? ==> forall id :: id in values && values[id].apId != apId ==> r.value[id] == values[id]
    ensures r.Success? ==> forall id :: id in RowsOf(values, apId) ==>
              r.value[id].value == (if wipe then Some("") else values[id].value)
  {
    var rows := RowsOf(values, apId);
    if rows == {} then Failure(ValueError)
    else if |rows| > 1 then Failure(MultipleResultsFound)
    else
      var id := Pick(rows);
      SingletonElement(rows, id);
      var row := values[id].(value := if wipe then Some("") else values[id].value, override := false);
      WriteRows(values, id, row, apId);
      Success(values[id := values[id].(value := if wipe then Some("") else values[id].value, override := false)])
  }

  /** After a delete the join finds no row, so readers are given the default again. */
  lemma DeletedShowsDefault(values: map<int, ValueRow>, apId: int, wipe: bool, ap: ApRow, id: int)
    requires Deleted(values, apId, wipe).Success?
    requires id in Deleted(values, apId, wipe).value && Deleted(values, apId, wipe).value[id].apId == apId
    ensures Shown(ap, Some(Deleted(values, apId, wipe).value[id])) == ap.defaultValue
  {
    assert id !in OverrideRows(Deleted(values, apId, wipe).value, apId);
  }

  /** After an add every visible reader is given the added value, or a validation error when the type text is outside the enum. */
  lemma AddedValueIsShown(values: map<int, ValueRow>, newId: int, apId: int, value: string,
                          ap: ApRow, userId: Option<int>, users: map<int, Role>)
    requires newId !in values && AtMostOneOverride(values)
    requires CanSee(ap.visibility, userId, users)
    ensures forall id :: id in OverrideRows(Added(values, newId, apId, value), apId) ==>
              UserView(ap, Some(Added(values, newId, apId, value)[id]), userId, users) ==
                if StoredType(ap.apType).Some? then Success(Some(ParameterValue(value, StoredType(ap.apType).value)))
                else Failure(ValidationError)
  {
    var r := Added(values, newId, apId, value);
    var only :| OverrideRows(r, apId) == {only} && r[only] == ValueRow(apId, Some(value), true);
    forall id | id in OverrideRows(r, apId)
      ensures UserView(ap, Some(r[id]), userId, users) ==
                if StoredType(ap.apType).Some? then Success(Some(ParameterValue(value, StoredType(ap.apType).value)))
                else Failure(ValidationError)
    {
      assert id == only;
      assert Shown(ap, Some(r[id])) == VStr(value);
    }
  }

  /**
   * Adding a value, deleting it, adding another and deleting again fails:
   * the first delete leaves its row behind with override off, the join of
   * the second add does not see that row and inserts a second one, and the
   * lookup of the second delete then finds two rows for the parameter.
   */
  lemma ReAddedValueCannotBeDeleted(apId: int, v: string, w: string)
    ensures var first := Added(map[], 0, apId, v);
            var cleared := Deleted(first, apId, false);
            && cleared.Success?
            && 1 !in cleared.value
            && AtMostOneOverride(cleared.value)
            && Deleted(Added(cleared.value, 1, apId, w), apId, false) == Failure(MultipleResultsFound)
  {
    var first := Added(map[], 0, apId, v);
    assert OverrideRows(map[], apId) == {};
    assert first == map[0 := ValueRow(apId, Some(v), true)];
    assert RowsOf(first, apId) == {0};
    var cleared := Deleted(first, apId, false);
    assert cleared.Success?;
    assert cleared.value.Keys == {0};
    assert cleared.value[0].apId == apId && !cleared.value[0].override;
    assert OverrideRows(cleared.value, apId) == {};
    var second := Added(cleared.value, 1, apId, w);
    assert second == cleared.value[1 := ValueRow(apId, Some(w), true)];
    assert RowsOf(second, apId) == {0, 1};
  }

  /**
   * add_application_parameter_value as evidently intended: the value row
   * of the parameter, whether or not it overrides, takes the new value and
   * overrides again; a row is inserted only when the parameter has none.
   */
  ghost function AddedReusing(values: map<int, ValueRow>, newId: int, apId: int, value: string): (r: map<int, ValueRow>)
    requires newId !in values && AtMostOneRow(values)
    ensures AtMostOneRow(r)
    ensures exists id :: RowsOf(r, apId) == {id} && OverrideRows(r, apId) == {id} && r[id] == ValueRow(apId, Some(value), true)
    ensures forall id :: id in values && values[id].apId != apId ==> id in r && r[id] == values[id]
    ensures forall id :: id in r && r[id].apId != apId ==> id in values && values[id] == r[id]
  {
    var row := ValueRow(apId, Some(value), true);
    if RowsOf(values, apId) == {} then
      WriteRows(values, newId, row, apId);
      WriteKeepsOneRow(values, newId, row);
      values[newId := row]
    else
      var id := Pick(RowsOf(values, apId));
      AtMostOne(RowsOf(values, apId));
      SingletonElement(RowsOf(values, apId), id);
      WriteRows(values, id, row, apId);
      WriteKeepsOneRow(values, id, row);
      values[id := row]
  }

  /** With one row per parameter a delete never finds two rows, and keeps it at one. */
  lemma DeleteNeverAmbiguous(values: map<int, ValueRow>, apId: int, wipe: bool)
    requires AtMostOneRow(values)
    ensures Deleted(values, apId, wipe) != Failure(MultipleResultsFound)
    ensures Deleted(values, apId, wipe).Success? ==> AtMostOneRow(Deleted(values, apId, wipe).value)
  {
    AtMostOne(RowsOf(values, apId));
  }

  /** The corrected add keeps the sequence add, delete, add, delete free of MultipleResultsFound. */
  lemma ReAddedValueIsDeleted(apId: int, v: string, w: string)
    ensures var first := AddedReusing(map[], 0, apId, v);
            var cleared := Deleted(first, apId, false);
            && cleared.Success?
            && 1 !in cleared.value
            && AtMostOneRow(cleared.value)
            && Deleted(AddedReusing(cleared.value, 1, apId, w), apId, false).Success?
  {
    var first := AddedReusing(map[], 0, apId, v);
    assert RowsOf(map[], apId) == {};
    assert first == map[0 := ValueRow(apId, Some(v), true)];
    DeleteNeverAmbiguous(first, apId, false);
    var cleared := Deleted(first, apId, false);
    assert RowsOf(first, apId) == {0};
    assert cleared.value.Keys == {0};
    var second := AddedReusing(cleared.value, 1, apId, w);
    DeleteNeverAmbiguous(second, apId, false);
    var only :| RowsOf(second, apId) == {only} && second[only] == ValueRow(apId, Some(w), true);
    assert RowsOf(second, apId) != {};
  }

  // ---------------------------------------------------------------------------
  // The tables

  /** The row init_ap inserts for a parameter the service knows. */
  function NewRow(dc: ApplicationParameter): ApRow
  {
    ApRow(dc.name, dc.kind, TypeValue(dc.apType), VisibilityValue(dc.visibility), dc.defaultValue)
  }

  /** No earlier parameter in the list has the name of the i-th: the occurrence init_ap inserts. */
  predicate FirstNamed(dcs: seq<ApplicationParameter>, i: int)
    requires 0 <= i < |dcs|
  {
    forall k :: 0 <= k < i ==> dcs[k].name != dcs[i].name
  }

  /** Every row of `params` that `start` lacks is the first occurrence of a name among dcs[..i] that `start` lacks. */
  predicate InsertedFirst(start: map<int, ApRow>, params: map<int, ApRow>, dcs: seq<ApplicationParameter>, i: int)
    requires 0 <= i <= |dcs|
  {
    forall x :: x in params && x !in start ==>
      exists j :: 0 <= j < i && params[x] == NewRow(dcs[j]) && dcs[j].name !in ParamNames(start) && FirstNamed(dcs, j)
  }

  /**
   * One insertion step of init_ap: inserting the i-th parameter, whose name
   * the table lacks, keeps every earlier name present and every inserted
   * row the first occurrence of its name.
   */
  lemma InsertFirstNamed(start: map<int, ApRow>, before: map<int, ApRow>, dcs: seq<ApplicationParameter>, i: int, id: int)
    requires 0 <= i < |dcs| && id !in before
    requires forall x :: x in start ==> x in before && before[x] == start[x]
    requires InsertedFirst(start, before, dcs, i)
    requires forall j :: 0 <= j < i ==> dcs[j].name in ParamNames(before)
    requires dcs[i].name !in ParamNames(before)
    ensures var after := before[id := NewRow(dcs[i])];
            && (forall j :: 0 <= j < i + 1 ==> dcs[j].name in ParamNames(after))
            && InsertedFirst(start, after, dcs, i + 1)
  {
    var after := before[id := NewRow(dcs[i])];
    forall k | 0 <= k < i ensures dcs[k].name != dcs[i].name {
      assert dcs[k].name in ParamNames(before);
    }
    assert FirstNamed(dcs, i);
    forall y | y in start ensures start[y].name != dcs[i].name {
      assert before[y].name in ParamNames(before);
    }
    forall j | 0 <= j < i + 1 ensures dcs[j].name in ParamNames(after) {
      if j < i {
        assert dcs[j].name in ParamNames(before);
        var y :| y in before && before[y].name == dcs[j].name;
        assert after[y].name == dcs[j].name;
      } else {
        assert after[id].name == dcs[j].name;
      }
    }
    forall x | x in after && x !in start
      ensures exists j :: 0 <= j < i + 1 && after[x] == NewRow(dcs[j]) && dcs[j].name !in ParamNames(start) && FirstNamed(dcs, j)
    {
      if x == id {
        assert after[x] == NewRow(dcs[i]);
      } else {
        var j :| 0 <= j < i && before[x] == NewRow(dcs[j]) && dcs[j].name !in ParamNames(start) && FirstNamed(dcs, j);
        assert after[x] == NewRow(dcs[j]);
      }
    }
  }

  /** The parameter names a table holds. */
  function ParamNames(params: map<int, ApRow>): set<string>
  {
    set id | id in params :: params[id].name
  }

  class ParameterTables {
    var params: map<int, ApRow>
    var values: map<int, ValueRow>
    /** The role column of the users table. */
    var users: map<int, Role>
    /** Ids not handed out yet, standing for the uuid4 defaults. */
    var nextParamId: int
    var nextValueId: int

    /** Names are unique, ids are newId below the counters, ap_value's foreign key holds, and the join finds at most one row. */
    ghost predicate Valid()
      reads this
    {
      && (forall a, b :: a in params && b in params && params[a].name == params[b].name ==> a == b)
      && (forall id :: id in params ==> id < nextParamId)
      && (forall id :: id in values ==> id < nextValueId && values[id].apId in params)
      && AtMostOneOverride(values)
    }

    constructor (users: map<int, Role>)
      ensures Valid()
      ensures params == map[] && values == map[] && this.users == users
    {
      params, values, this.users := map[], map[], users;
      nextParamId, nextValueId := 0, 0;
    }

    /** The parameter with this name, if any (names are unique). */
    ghost function Named(name: string): (r: Option<int>)
      reads this
      ensures r.None? <==> name !in ParamNames(params)
      ensures r.Some? ==> r.value in params && params[r.value].name == name
    {
      if exists id :: id in params && params[id].name == name then
        var id :| id in params && params[id].name == name; Some(id)
      else None
    }

    /** The overriding value row the outer join attaches to a parameter, if any. */
    ghost function Joined(apId: int): (r: Option<ValueRow>)
      reads this
      ensures r.None? <==> OverrideRows(values, apId) == {}
      ensures r.Some? ==> exists id :: id in OverrideRows(values, apId) && values[id] == r.value
    {
      if OverrideRows(values, apId) == {} then None
      else var id := Pick(OverrideRows(values, apId)); Some(values[id])
    }

    /** get_application_parameter_by_name and its existence check. */
    method FindByName(name: string) returns (id: Option<int>)
      requires Valid()
      ensures id == Named(name)
    {
      var ids := set i | i in params && params[i].name == name;
      if ids == {} {
        assert forall j :: j in params && params[j].name == name ==> j in ids;
        return None;
      }
      var i := Choose(ids);
      return Some(i);
    }

    /** The outer join of get_application_parameter_with_value[_by_id] for a known parameter. */
    method JoinedRow(apId: int) returns (joined: Option<ValueRow>)
      requires Valid()
      ensures joined == Joined(apId)
    {
      var rows := OverrideRows(values, apId);
      if rows == {} {
        return None;
      }
      var id := Choose(rows);
      return Some(values[id]);
    }

    /** user_get_application_parameter: None for an unknown name, otherwise the view of that reader. */
    method UserGetApplicationParameter(name: string, userId: Option<int>) returns (r: Result<Option<ParameterValue>, ApError>)
      requires Valid()
      ensures Named(name).None? ==> r == Success(None)
      ensures Named(name).Some? ==> r == UserView(params[Named(name).value], Joined(Named(name).value), userId, users)
    {
      var id := FindByName(name);
      if id.None? {
        return Success(None);
      }
      var joined := JoinedRow(id.value);
      r := UserView(params[id.value], joined, userId, users);
    }

    /**
     * add_application_parameter_value: ApplicationParameterNotFound for an
     * unknown id, ValueError when the text does not validate as the
     * parameter's type, and otherwise the value rows of Added, the
     * answer being the overriding row that now holds the value.
     */
    method AddApplicationParameterValue(apId: int, value: string, urlparse: string -> UrlParts) returns (r: Result<int, ApError>)
      requires Valid()
      modifies this
      ensures Valid()
      ensures r == Failure(NotFound) <==> apId !in old(params)
      ensures r == Failure(ValueError) <==> apId in old(params) && ValidateData(VStr(value), StoredType(old(params)[apId].apType), urlparse) != Success(true)
      ensures r.Failure? ==> values == old(values) && nextValueId == old(nextValueId)
      ensures r.Success? ==> values == Added(old(values), old(nextValueId), apId, value)
      ensures r.Success? ==> OverrideRows(values, apId) == {r.value} && values[r.value] == ValueRow(apId, Some(value), true)
      ensures params == old(params) && users == old(users) && nextParamId == old(nextParamId)
    {
      if apId !in params {
        return Failure(NotFound);
      }
      var valid := ValidateData(VStr(value), StoredType(params[apId].apType), urlparse);
      if valid != Success(true) {
        return Failure(ValueError);
      }
      var row := ValueRow(apId, Some(value), true);
      var rows := OverrideRows(values, apId);
      var id;
      if rows == {} {
        id := nextValueId;
        nextValueId := nextValueId + 1;
      } else {
        id := Choose(rows);
        forall other | other in rows ensures other == id {
        }
      }
      assert Added(old(values), old(nextValueId), apId, value) == values[id := row];
      values := values[id := row];
      assert OverrideRows(values, apId) == {id};
      return Success(id);
    }

    /**
     * The corrected add: the parameter's row is reused whether or not it
     * overrides, so a parameter that had at most one value row keeps at
     * most one.
     */
    method AddApplicationParameterValueReusing(apId: int, value: string, urlparse: string -> UrlParts) returns (r: Result<int, ApError>)
      requires Valid() && AtMostOneRow(values)
      modifies this
      ensures Valid() && AtMostOneRow(values)
      ensures r == Failure(NotFound) <==> apId !in old(params)
      ensures r == Failure(ValueError) <==> apId in old(params) && ValidateData(VStr(value), StoredType(old(params)[apId].apType), urlparse) != Success(true)
      ensures r.Failure? ==> values == old(values) && nextValueId == old(nextValueId)
      ensures r.Success? ==> values == AddedReusing(old(values), old(nextValueId), apId, value)
      ensures r.Success? ==> RowsOf(values, apId) == {r.value} && values[r.value] == ValueRow(apId, Some(value), true)
      ensures params == old(params) && users == old(users) && nextParamId == old(nextParamId)
    {
      if apId !in params {
        return Failure(NotFound);
      }
      var valid := ValidateData(VStr(value), StoredType(params[apId].apType), urlparse);
      if valid != Success(true) {
        return Failure(ValueError);
      }
      var row := ValueRow(apId, Some(value), true);
      var rows := RowsOf(values, apId);
      var id;
      if rows == {} {
        id := nextValueId;
        nextValueId := nextValueId + 1;
      } else {
        id := Choose(rows);
      }
      assert AddedReusing(old(values), old(nextValueId), apId, value) == values[id := row];
      values := values[id := row];
      assert RowsOf(values, apId) == {id};
      return Success(id);
    }

    /**
     * delete_application_parameter_value: the outcome and the value rows of
     * Deleted; with one row per parameter it never raises
     * MultipleResultsFound.
     */
    method DeleteApplicationParameterValue(apId: int, wipe: bool) returns (r: Result<(), ApError>)
      requires Valid()
      modifies this
      ensures Valid()
      ensures var d := Deleted(old(values), apId, wipe);
              && (r.Success? <==> d.Success?)
              && (d.Failure? ==> r == Failure(d.error) && values == old(values))
              && (d.Success? ==> values == d.value)
      ensures AtMostOneRow(old(values)) ==> r != Failure(MultipleResultsFound) && AtMostOneRow(values)
      ensures params == old(params) && users == old(users) && nextParamId == old(nextParamId) && nextValueId == old(nextValueId)
    {
      var rows := RowsOf(values, apId);
      if AtMostOneRow(values) {
        DeleteNeverAmbiguous(values, apId, wipe);
      }
      if rows == {} {
        return Failure(ValueError);
      }
      if |rows| > 1 {
        return Failure(MultipleResultsFound);
      }
      var id := Choose(rows);
      SingletonElement(rows, id);
      var old_row := values[id];
      values := values[id := old_row.(value := if wipe then Some("") else old_row.value, override := false)];
      return Success(());
    }

    /**
     * set_default_value: an unknown name fails on the missing row's `.type`
     * (AttributeError), a value that does not validate as the parameter's
     * type is a ValueError (or the AttributeError validate_data raises for a
     * URL parameter given a truthy non-str), and otherwise the default
     * becomes the value's text, `rendered`.
     */
    method SetDefaultValue(name: string, value: Value, rendered: string, urlparse: string -> UrlParts) returns (r: Result<(), ApError>)
      requires Valid()
      requires value.VStr? ==> rendered == value.s
      modifies this
      ensures Valid()
      ensures old(Named(name)).None? ==> r == Failure(ApError.AttributeError)
      ensures old(Named(name)).Some? ==>
                var id := old(Named(name)).value;
                var valid := ValidateData(value, StoredType(old(params)[id].apType), urlparse);
                && (valid.Failure? ==> r == Failure(ApError.AttributeError))
                && (valid == Success(false) ==> r == Failure(ValueError))
                && (valid == Success(true) ==> r.Success? && params == old(params)[id := old(params)[id].(defaultValue := VStr(rendered))])
      ensures r.Success? && value.VStr? ==> params[old(Named(name)).value].defaultValue == value
      ensures r.Failure? ==> params == old(params)
      ensures values == old(values) && users == old(users) && nextParamId == old(nextParamId) && nextValueId == old(nextValueId)
    {
      var found := FindByName(name);
      if found.None? {
        return Failure(ApError.AttributeError);
      }
      var id := found.value;
      var valid := ValidateData(value, StoredType(params[id].apType), urlparse);
      if valid.Failure? {
        return Failure(ApError.AttributeError);
      }
      if !valid.value {
        return Failure(ValueError);
      }
      params := params[id := params[id].(defaultValue := VStr(rendered))];
      return Success(());
    }

    /** db.add of a new application_parameters row for a name the table lacks. */
    method AddParameter(dc: ApplicationParameter) returns (id: int)
      requires Valid()
      requires dc.name !in ParamNames(params)
      modifies this
      ensures Valid()
      ensures id == old(nextParamId) && id !in old(params)
      ensures params == old(params)[id := NewRow(dc)]
      ensures values == old(values) && users == old(users) && nextValueId == old(nextValueId)
    {
      id := nextParamId;
      nextParamId := nextParamId + 1;
      params := params[id := NewRow(dc)];
      assert params[id].name == dc.name;
    }

    /**
     * init_ap: every parameter the service knows ends up in the table; rows
     * already there are left as they are, and a name is inserted only when
     * no row has it yet, so a second run inserts nothing.
     */
    method InitAp(dcs: seq<ApplicationParameter>)
      requires Valid()
      modifies this
      ensures Valid()
      ensures forall i :: 0 <= i < |dcs| ==> dcs[i].name in ParamNames(params)
      ensures forall id :: id in old(params) ==> id in params && params[id] == old(params)[id]
      ensures forall id :: id in params && id !in old(params) ==>
                exists i :: 0 <= i < |dcs| && params[id] == NewRow(dcs[i]) && dcs[i].name !in ParamNames(old(params)) && FirstNamed(dcs, i)
      ensures (forall i :: 0 <= i < |dcs| ==> dcs[i].name in ParamNames(old(params))) ==> params == old(params)
      ensures values == old(values) && users == old(users) && nextValueId == old(nextValueId)
    {
      var i := 0;
      while i < |dcs|
        invariant 0 <= i <= |dcs|
        invariant Valid()
        invariant forall j :: 0 <= j < i ==> dcs[j].name in ParamNames(params)
        invariant forall id :: id in old(params) ==> id in params && params[id] == old(params)[id]
        invariant InsertedFirst(old(params), params, dcs, i)
        invariant (forall j :: 0 <= j < i ==> dcs[j].name in ParamNames(old(params))) ==> params == old(params)
        invariant values == old(values) && users == old(users) && nextValueId == old(nextValueId)
      {
        var dc := dcs[i];
        if exists id :: id in params && params[id].name == dc.name {
          i := i + 1;
          continue;
        }
        assert dc.name !in ParamNames(params);
        assert dc.name !in ParamNames(old(params));
        ghost var before := params;
        var id := AddParameter(dc);
        InsertFirstNamed(old(params), before, dcs, i, id);
        i := i + 1;
      }
    }
  }
}
