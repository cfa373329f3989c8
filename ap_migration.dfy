/**
 * The migration that seeds the application_parameters table: its own
 * flattener, which keeps each leaf's fields as a dict keyed by the leaf's
 * dot-joined path, and the rows it inserts with their defaults.
 */
module ApMigration {
  import opened Wrappers
  import opened PyValue
  import opened ApUtils
  import opened Collections

  /** .items() on a value that is not a dict. */
  datatype CleanError = NoItems

  /** The params dict: a leaf's path to the leaf's fields other than "parameter". */
  type Cleaned = map<string, seq<(string, Value)>>

  /** params.update(...) of the entries from the i-th on, over what the earlier entries wrote. */
  function CleanFrom(d: Value, i: nat, path: string): Result<Cleaned, CleanError>
    requires d.VDict? && i <= |d.entries|
    decreases d, |d.entries| - i
  {
    if i == |d.entries| then Success(map[])
    else
      assert d.entries[i] in d.entries;
      Merge(CleanEntry(d.entries[i].1, JoinPath(path, d.entries[i].0)), CleanFrom(d, i + 1, path))
  }

  /**
   * What one value at `path` contributes: a dict whose "parameter" equals 1
   * maps the path to itself without that key, any other dict is flattened,
   * and anything else has no .items().
   */
  function CleanEntry(value: Value, path: string): (r: Result<Cleaned, CleanError>)
    ensures value.VDict? && !IsGroup(value) ==> r == Success(map[path := Without(value.entries, "parameter")])
    ensures !value.VDict? ==> r == Failure(NoItems)
    decreases value, if value.VDict? then |value.entries| + 1 else 0
  {
    if !value.VDict? then Failure(NoItems)
    else if EqualsOne(DictGet(value.entries, "parameter")) then Success(map[path := Without(value.entries, "parameter")])
    else CleanFrom(value, 0, path)
  }

  /** The earlier entries' params, then the later ones written over them. */
  function Merge(earlier: Result<Cleaned, CleanError>, later: Result<Cleaned, CleanError>): Result<Cleaned, CleanError>
  {
    match earlier
    case Failure(e) => Failure(e)
    case Success(m) =>
      match later
      case Failure(e) => Failure(e)
      case Success(m') => Success(m + m')
  }

  /** parse_parameters_clean of any value: only a dict has items to walk. */
  function Clean(data: Value, path: string): Result<Cleaned, CleanError>
  {
    if data.VDict? then CleanFrom(data, 0, path) else Failure(NoItems)
  }

  lemma MergeAssoc(p: Cleaned, m: Cleaned, rest: Result<Cleaned, CleanError>)
    ensures Merge(Success(p), Merge(Success(m), rest)) == Merge(Success(p + m), rest)
  {
    if rest.Success? {
      var r := rest.value;
      assert (p + m) + r == p + (m + r);
    }
  }

  lemma MergeEmpty(rest: Result<Cleaned, CleanError>)
    ensures Merge(Success(map[]), rest) == rest
  {
    if rest.Success? {
      assert map[] + rest.value == rest.value;
    }
  }

  /**
   * parse_parameters_clean: walks the entries in order, assigning a leaf's
   * cleaned fields to its path and updating params with a nested group's
   * result; a value that is not a dict is walked too and fails.
   */
  method ParseParametersClean(data: Value, path: string) returns (r: Result<Cleaned, CleanError>)
    ensures r == Clean(data, path)
    decreases data
  {
    if !data.VDict? {
      return Failure(NoItems);
    }
    var params: Cleaned := map[];
    var i := 0;
    MergeEmpty(CleanFrom(data, 0, path));
    while i < |data.entries|
      invariant 0 <= i <= |data.entries|
      invariant CleanFrom(data, 0, path) == Merge(Success(params), CleanFrom(data, i, path))
    {
      var key := data.entries[i].0;
      var value := data.entries[i].1;
      assert data.entries[i] in data.entries;
      var currentPath := JoinPath(path, key);
      if value.VDict? && EqualsOne(DictGet(value.entries, "parameter")) {
        var cleanValue := Without(value.entries, "parameter");
        MergeAssoc(params, map[currentPath := cleanValue], CleanFrom(data, i + 1, path));
        assert params + map[currentPath := cleanValue] == params[currentPath := cleanValue];
        params := params[currentPath := cleanValue];
      } else {
        var nested := ParseParametersClean(value, currentPath);
        if nested.Failure? {
          return Failure(nested.error);
        }
        MergeAssoc(params, nested.value, CleanFrom(data, i + 1, path));
        params := params + nested.value;
      }
      i := i + 1;
    }
    assert params + map[] == params;
    return Success(params);
  }

  /**
   * Flattened entries are written over the earlier ones: whatever the
   * entries from the k-th on yield, the whole walk from the i-th yields
   * the same, whatever the entries between i and k gave for those paths.
   */
  lemma {:induction false} LaterEntriesWin(d: Value, i: nat, k: nat, path: string)
    requires d.VDict? && i <= k <= |d.entries|
    requires CleanFrom(d, i, path).Success?
    ensures CleanFrom(d, k, path).Success?
    ensures forall p :: p in CleanFrom(d, k, path).value ==>
              p in CleanFrom(d, i, path).value && CleanFrom(d, i, path).value[p] == CleanFrom(d, k, path).value[p]
    decreases k - i
  {
    if i < k {
      assert d.entries[i] in d.entries;
      LaterEntriesWin(d, i + 1, k, path);
    }
  }

  /**
   * The collision the dot-joined paths allow: a nested x/y leaf followed
   * by a literal "x.y" leaf give one path, and the later fields win.
   */
  lemma LaterDuplicateWins(a: seq<(string, Value)>, b: seq<(string, Value)>)
    requires EqualsOne(DictGet(a, "parameter")) && EqualsOne(DictGet(b, "parameter"))
    ensures var d := VDict([("x", VDict([("y", VDict(a))])), ("x.y", VDict(b))]);
            Clean(d, "") == Success(map["x.y" := Without(b, "parameter")])
  {
    var inner := VDict([("y", VDict(a))]);
    var d := VDict([("x", inner), ("x.y", VDict(b))]);
    assert JoinPath("x", "y") == "x.y";
    assert JoinPath("", "x") == "x" && JoinPath("", "x.y") == "x.y";
    assert DictLookup(inner.entries, "parameter") == None;
    var first := map["x.y" := Without(a, "parameter")];
    var second := map["x.y" := Without(b, "parameter")];
    assert CleanEntry(VDict(a), "x.y") == Success(first);
    assert CleanFrom(inner, 1, "x") == Success(map[]);
    assert CleanFrom(inner, 0, "x") == Success(first + map[]);
    assert first + map[] == first;
    assert CleanEntry(inner, "x") == Success(first);
    assert CleanEntry(VDict(b), "x.y") == Success(second);
    assert CleanFrom(d, 2, "") == Success(map[]);
    assert CleanFrom(d, 1, "") == Success(second + map[]);
    assert CleanFrom(d, 0, "") == Success(first + (second + map[]));
    assert first + (second + map[]) == second;
  }

  // ---------------------------------------------------------------------------
  // upgrade

  /** A row as the migration inserts it; the id is a fresh uuid4 and is left out. */
  datatype InsertedRow = InsertedRow(name: string, kind: Value, defaultValue: Value, apType: Value, visibility: Value)

  /**
   * Why an INSERT fails: a column the row cannot store (kind, type and
   * visibility are NOT NULL String(20)), a name the unique index already
   * holds, or a description with no .items().
   */
  datatype UpgradeError = ColumnViolation(column: string) | UniqueViolation(name: string) | CleanFailed(error: CleanError)

  /**
   * The row upgrade builds from one cleaned parameter: dict.get with the
   * defaults None, None, "str" and "public", which apply only to a missing
   * key, not to one holding null.
   */
  function RowFor(name: string, param: seq<(string, Value)>): (row: InsertedRow)
    ensures "type" !in KeysOf(param) ==> row.apType == VStr("str")
    ensures "visibility" !in KeysOf(param) ==> row.visibility == VStr("public")
    ensures "kind" !in KeysOf(param) ==> row.kind == VNone
    ensures "type" in KeysOf(param) ==> row.apType == DictGet(param, "type")
    ensures "visibility" in KeysOf(param) ==> row.visibility == DictGet(param, "visibility")
  {
    InsertedRow(name,
                DictGetOr(param, "kind", VNone),
                DictGetOr(param, "default_value", VNone),
                DictGetOr(param, "type", VStr("str")),
                DictGetOr(param, "visibility", VStr("public")))
  }

  /** A value a NOT NULL String(20) column cannot store: null, or text longer than 20 characters. */
  predicate Unstorable(v: Value)
  {
    v == VNone || (v.VStr? && |v.s| > 20)
  }

  /** The first of kind, type and visibility, in table order, that the row cannot store. */
  function Violation(row: InsertedRow): Option<string>
  {
    if Unstorable(row.kind) then Some("kind")
    else if Unstorable(row.apType) then Some("type")
    else if Unstorable(row.visibility) then Some("visibility")
    else None
  }

  /** Every cleaned parameter makes a row every column can store. */
  predicate Insertable(cleaned: Cleaned)
  {
    forall n :: n in cleaned ==> Violation(RowFor(n, cleaned[n])).None?
  }

  /** No cleaned parameter has a name the table already holds. */
  predicate NamesFree(cleaned: Cleaned, existing: set<string>)
  {
    forall n :: n in cleaned ==> n !in existing
  }

  /** The rows upgrade inserts, by name. */
  function InsertedRows(cleaned: Cleaned): map<string, InsertedRow>
  {
    map n | n in cleaned :: RowFor(n, cleaned[n])
  }

  /**
   * upgrade: one INSERT per cleaned parameter into a table whose rows
   * already carry the names `existing`. The migration runs in one
   * transaction, so the table gets every row or, at the first INSERT that
   * fails, none.
   */
  method Upgrade(data: Value, existing: set<string>) returns (r: Result<map<string, InsertedRow>, UpgradeError>)
    ensures Clean(data, "").Failure? ==> r == Failure(CleanFailed(Clean(data, "").error))
    ensures r.Success? <==>
              Clean(data, "").Success? && Insertable(Clean(data, "").value) && NamesFree(Clean(data, "").value, existing)
    ensures r.Failure? && r.error.UniqueViolation? ==> r.error.name in existing && r.error.name in Clean(data, "").value
    ensures r.Success? ==> r.value == InsertedRows(Clean(data, "").value)
  {
    var parameters := ParseParametersClean(data, "");
    if parameters.Failure? {
      return Failure(CleanFailed(parameters.error));
    }
    var cleaned := parameters.value;
    var rows: map<string, InsertedRow> := map[];
    var rest := cleaned.Keys;
    while rest != {}
      invariant rest <= cleaned.Keys
      invariant rows.Keys == cleaned.Keys - rest
      invariant forall n :: n in rows ==> rows[n] == RowFor(n, cleaned[n]) && Violation(rows[n]).None? && n !in existing
      decreases rest
    {
      var name := Choose(rest);
      var row := RowFor(name, cleaned[name]);
      var violation := Violation(row);
      if violation.Some? {
        assert !Insertable(cleaned);
        return Failure(ColumnViolation(violation.value));
      }
      if name in existing {
        assert !NamesFree(cleaned, existing);
        return Failure(UniqueViolation(name));
      }
      rows := rows[name := row];
      rest := rest - {name};
    }
    assert rows == InsertedRows(cleaned);
    return Success(rows);
  }

  /**
   * A type key holding null is not defaulted: the row cannot be inserted,
   * and with a kind that fits it is the type column that fails; without the
   * key the type becomes "str".
   */
  lemma NullTypeNotDefaulted(kind: string)
    ensures Violation(RowFor("p", [("kind", VStr(kind)), ("type", VNone)])).Some?
    ensures |kind| <= 20 ==> Violation(RowFor("p", [("kind", VStr(kind)), ("type", VNone)])) == Some("type")
    ensures |kind| <= 20 <==> Violation(RowFor("p", [("kind", VStr(kind))])) == None
    ensures RowFor("p", [("kind", VStr(kind))]).apType == VStr("str")
  {
    var two := [("kind", VStr(kind)), ("type", VNone)];
    var one := [("kind", VStr(kind))];
    assert two[1..] == [("type", VNone)] && two[1..][1..] == [] && one[1..] == [];
    assert KeysOf(two[1..]) == ["type"];
    assert KeysOf(two) == ["kind", "type"];
    assert KeysOf(one) == ["kind"];
  }

  // ---------------------------------------------------------------------------
  // The two flatteners agree

  /**
   * The fields of a leaf that parse_parameters accepts make a row every
   * column can store, provided each kind fits the kind column.
   */
  lemma AcceptedLeafInserts(path: string, entries: seq<(string, Value)>, kinds: set<string>)
    requires forall k :: k in kinds ==> |k| <= 20
    requires Leaf(path, entries, kinds).Success?
    ensures Violation(RowFor(path, Without(entries, "parameter"))).None?
  {
    var clean := Without(entries, "parameter");
    assert DictLookup(clean, "kind") == DictLookup(entries, "kind");
    assert DictLookup(clean, "type") == DictLookup(entries, "type");
    assert DictLookup(clean, "visibility") == DictLookup(entries, "visibility");
    var row := RowFor(path, clean);
    assert row.kind == DictGet(entries, "kind") && ParseKind(row.kind, kinds).Success?;
    assert row.apType == DictGet(entries, "type") && ParseType(row.apType).Success?;
    assert row.visibility == DictGet(entries, "visibility") && ParseVisibility(row.visibility).Success?;
    ShortTypeValue(ParseType(row.apType).value);
    ShortVisibilityValue(ParseVisibility(row.visibility).value);
  }

  lemma ShortTypeValue(t: ApType)
    ensures |TypeValue(t)| <= 20
  {
  }

  lemma ShortVisibilityValue(v: Visibility)
    ensures |VisibilityValue(v)| <= 20
  {
  }

  /**
   * On a description parse_parameters accepts, the migration's flattener
   * succeeds as well, yields exactly the parameter names the service's
   * parser produces, and inserts every one of them without a column
   * violation, as long as each kind fits the kind column.
   */
  lemma {:induction false} FlattenersAgree(d: Value, i: nat, path: string, kinds: set<string>)
    requires forall k :: k in kinds ==> |k| <= 20
    requires d.VDict? && i <= |d.entries|
    requires ParseFrom(d, i, path, kinds).Success?
    ensures CleanFrom(d, i, path).Success?
    ensures CleanFrom(d, i, path).value.Keys == Elements(LeafPaths(d, i, path))
    ensures Insertable(CleanFrom(d, i, path).value)
    decreases d, |d.entries| - i
  {
    if i < |d.entries| {
      assert d.entries[i] in d.entries;
      var value := d.entries[i].1;
      var cur := JoinPath(path, d.entries[i].0);
      EntryAgrees(value, cur, kinds);
      FlattenersAgree(d, i + 1, path, kinds);
      var head := CleanEntry(value, cur).value;
      var rest := CleanFrom(d, i + 1, path).value;
      assert CleanFrom(d, i, path) == Success(head + rest);
      ElementsAppend(EntryPaths(value, cur), LeafPaths(d, i + 1, path));
    }
  }

  /** The same agreement for one value: a group's, or a single accepted leaf's. */
  lemma {:induction false} EntryAgrees(value: Value, path: string, kinds: set<string>)
    requires forall k :: k in kinds ==> |k| <= 20
    requires ParseEntry(value, path, kinds).Success?
    ensures CleanEntry(value, path).Success?
    ensures CleanEntry(value, path).value.Keys == Elements(EntryPaths(value, path))
    ensures Insertable(CleanEntry(value, path).value)
    decreases value, if value.VDict? then |value.entries| + 1 else 0
  {
    if IsGroup(value) {
      FlattenersAgree(value, 0, path, kinds);
    } else {
      assert value.VDict?;
      AcceptedLeafInserts(path, value.entries, kinds);
      var leaf := map[path := Without(value.entries, "parameter")];
      assert CleanEntry(value, path) == Success(leaf);
      assert EntryPaths(value, path) == [path];
      assert Elements([path]) == {path};
      assert leaf.Keys == {path};
    }
  }
}
