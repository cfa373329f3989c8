/**
 * RedisEntityCache: one instance per entity type, all sharing one Redis
 * keyspace. It stores one flat hash per entity, an access counter per entity
 * (and per entity and related type), a forward relation set per related type,
 * one back-relation set and one cascade set.
 */
module Cache {
  import opened Wrappers
  import opened Keys
  import opened Keyspace
  import opened Collections

  /** model_dump(mode="json") of a cached model: each field is a value or None. */
  type Record = map<string, Option<string>>

  /** set(): checknull replaces None by the string "null". */
  function Encode(obj: Record): map<string, string>
  {
    map f | f in obj :: if obj[f].None? then "null" else obj[f].value
  }

  /** The loop in get(): "null" reads back as None, anything else as is. */
  function DecodeFields(raw: map<string, string>): Record
  {
    map f | f in raw :: if raw[f] == "null" then None else Some(raw[f])
  }

  /** What get() passes to model_validate, or None for a missing or empty hash. */
  function Decode(raw: map<string, string>): Option<Record>
  {
    if raw == map[] then None else Some(DecodeFields(raw))
  }

  /** A field value after a trip through the "null" sentinel. */
  function ThroughSentinel(v: Option<string>): Option<string>
  {
    if v == Some("null") then None else v
  }

  /**
   * Echo law: after set(id, obj) on a hash that held `prior`, get(id) returns
   * every field of obj, with None for None and also None for the string
   * "null"; fields of prior that obj does not name are still there, because
   * HSET only writes the given fields.
   */
  lemma EchoLaw(prior: map<string, string>, obj: Record)
    requires obj != map[]
    ensures Decode(prior + Encode(obj)).Some?
    ensures var got := Decode(prior + Encode(obj)).value;
            && got.Keys == prior.Keys + obj.Keys
            && (forall f :: f in obj ==> got[f] == ThroughSentinel(obj[f]))
            && (forall f :: f in prior && f !in obj ==> got[f] == DecodeFields(prior)[f])
  {
    var f0 :| f0 in obj;
    assert f0 in (prior + Encode(obj)).Keys;
  }

  /** The sentinel is not distinguishable: a field holding the string "null"
      reads back exactly as a field holding None. */
  lemma SentinelCollision(obj: Record, f: string)
    requires f in obj && obj[f] == Some("null")
    ensures Encode(obj) == Encode(obj[f := None])
    ensures Decode(Encode(obj)) == Decode(Encode(obj[f := None]))
  {
    assert Encode(obj)[f] == Encode(obj[f := None])[f];
    assert Encode(obj).Keys == Encode(obj[f := None]).Keys;
  }

  // ---------------------------------------------------------------------------
  // The read-through lookup of the callers

  /**
   * get_tag_by_id and get_translation_code_by_id once their INCR returned
   * `count`: the cached record if the hash is there, else the table's row,
   * written to the cache only when the count has reached the threshold.
   * The pair is the record returned and the hashes left behind.
   */
  function ReadThrough(hashes: Hashes, t: EntityType, rows: map<int, Record>, id: int, count: int, threshold: int)
    : (Option<Record>, Hashes)
  {
    var k := PrimaryKey(t, id);
    if HashAt(hashes, k) != map[] then (Some(DecodeFields(hashes[k])), hashes)
    else if id !in rows then (None, hashes)
    else if count >= threshold then (Some(rows[id]), HSetFields(hashes, k, Encode(rows[id])))
    else (Some(rows[id]), hashes)
  }

  /** The record a field-by-field trip through the cache gives back. */
  function ThroughCache(row: Record): Record
  {
    map f | f in row :: ThroughSentinel(row[f])
  }

  /**
   * The promotion protocol: a lookup below the threshold writes nothing; a
   * lookup at the threshold writes the row, after which the next lookup,
   * whatever its count, is answered by the cache with the row as it reads
   * back through the "null" sentinel.
   */
  lemma Promotion(hashes: Hashes, t: EntityType, rows: map<int, Record>, id: int, count: int, next: int, threshold: int)
    requires PrimaryKey(t, id) !in hashes
    requires id in rows && rows[id] != map[]
    ensures count < threshold ==> ReadThrough(hashes, t, rows, id, count, threshold) == (Some(rows[id]), hashes)
    ensures count >= threshold ==>
              var h1 := ReadThrough(hashes, t, rows, id, count, threshold).1;
              ReadThrough(h1, t, rows, id, next, threshold) == (Some(ThroughCache(rows[id])), h1)
  {
    if count >= threshold {
      var k := PrimaryKey(t, id);
      var h1 := HSetFields(hashes, k, Encode(rows[id]));
      assert HashAt(hashes, k) == map[];
      assert h1[k] == map[] + Encode(rows[id]);
      EchoLaw(map[], rows[id]);
      assert DecodeFields(h1[k]) == ThroughCache(rows[id]);
    }
  }

  /** A row the table does not have is answered with None and never cached. */
  lemma MissingRowNotCached(hashes: Hashes, t: EntityType, rows: map<int, Record>, id: int, count: int, threshold: int)
    requires HashAt(hashes, PrimaryKey(t, id)) == map[]
    requires id !in rows
    ensures ReadThrough(hashes, t, rows, id, count, threshold) == (None, hashes)
  {
  }

  /**
   * A cache hit does not consult the table: whatever the rows are now (the
   * row deleted, or changed behind the cache's back), a cached entity reads
   * back as it was cached.
   */
  lemma CacheHitIgnoresTable(hashes: Hashes, t: EntityType, rows: map<int, Record>, rows': map<int, Record>,
                             id: int, count: int, count': int, threshold: int)
    requires PrimaryKey(t, id) in hashes && hashes[PrimaryKey(t, id)] != map[]
    ensures ReadThrough(hashes, t, rows', id, count', threshold) == ReadThrough(hashes, t, rows, id, count, threshold)
    ensures ReadThrough(hashes, t, rows', id, count', threshold).0 == Some(DecodeFields(hashes[PrimaryKey(t, id)]))
  {
  }

  // ---------------------------------------------------------------------------
  // Specification of delete()

  /** The keys delete() removes with one DEL: key(id), cascade_key(id) and
      every member of the cascade set (one level only). */
  function Doomed(sets: Sets, t: EntityType, id: int): set<string>
  {
    {PrimaryKey(t, id), CascadeKey(t, id)} + SetAt(sets, CascadeKey(t, id))
  }

  /** f"{owner}:{type}" for every owner named in the back-relation set. */
  function CleanupTargets(owners: set<string>, t: EntityType): set<string>
  {
    set o | o in owners :: o + ":" + TypeName(t)
  }

  /** The sets after the DEL of delete(), then SREM of `stale` from every
      owner's relation set for this type. */
  function SetsAfterDelete(sets: Sets, t: EntityType, id: int, stale: string): Sets
  {
    var after := DeleteKeys(sets, Doomed(sets, t, id));
    StripMember(after, CleanupTargets(SetAt(after, BackRelationKey(t, id)), t), stale)
  }

  /** The sets after delete() as written: the cleanup removes cascade_key(id). */
  function DeletedSets(sets: Sets, t: EntityType, id: int): Sets
  {
    SetsAfterDelete(sets, t, id, CascadeKey(t, id))
  }

  /** The sets after delete() as evidently intended: the cleanup removes key(id),
      the member add_relation put there. */
  function UnlinkedSets(sets: Sets, t: EntityType, id: int): Sets
  {
    SetsAfterDelete(sets, t, id, PrimaryKey(t, id))
  }

  ghost predicate IsPrimary(m: string)
  {
    exists t: EntityType, id: int :: m == PrimaryKey(t, id)
  }

  /** Every set member is some entity's primary key: the only strings that
      add_cascade, add_relation and add_back_relation insert. */
  ghost predicate MembersArePrimary(sets: Sets)
  {
    forall k, m :: k in sets && m in sets[k] ==> IsPrimary(m)
  }

  lemma CleanupTargetsStep(owners: set<string>, o: string, t: EntityType)
    ensures CleanupTargets(owners + {o}, t) == CleanupTargets(owners, t) + {o + ":" + TypeName(t)}
  {
  }

  /**
   * The inbound cleanup of delete() is a no-op: it removes cascade_key(id),
   * which is never a set member because members are primary keys.
   */
  lemma CleanupIsNoOp(sets: Sets, t: EntityType, id: int)
    requires NoEmptyValues(map[], sets)
    requires MembersArePrimary(sets)
    ensures DeletedSets(sets, t, id) == DeleteKeys(sets, Doomed(sets, t, id))
  {
    var after := DeleteKeys(sets, Doomed(sets, t, id));
    var targets := CleanupTargets(SetAt(after, BackRelationKey(t, id)), t);
    var ck := CascadeKey(t, id);
    forall tg | tg in targets && tg in after
      ensures ck !in after[tg]
    {
      assert tg in sets && after[tg] == sets[tg];
      if ck in after[tg] {
        assert IsPrimary(ck);
        var t', id' :| ck == PrimaryKey(t', id');
        DerivedKeysDistinct(t', id', t, id, t, None);
      }
    }
    StripAbsentMember(after, targets, ck);
  }

  /**
   * The defect in delete()'s cleanup, as written: an owner's relation set that
   * holds key(id) still holds it afterwards (unless that set was itself one of
   * the deleted keys).
   */
  lemma StaleInboundEdge(sets: Sets, t: EntityType, id: int, owner: string)
    requires NoEmptyValues(map[], sets)
    requires MembersArePrimary(sets)
    requires owner in sets && PrimaryKey(t, id) in sets[owner]
    requires owner !in Doomed(sets, t, id)
    ensures owner in DeletedSets(sets, t, id)
    ensures PrimaryKey(t, id) in DeletedSets(sets, t, id)[owner]
  {
    CleanupIsNoOp(sets, t, id);
  }

  /**
   * What get_relations then reports for the deleted entity: its owner's
   * relation set still names it, and its hash is gone, so the owner's list
   * gets an empty hash in its place.
   */
  lemma StaleMemberReadsEmpty(hashes: Hashes, sets: Sets, t: EntityType, id: int, owner: string)
    requires NoEmptyValues(map[], sets)
    requires MembersArePrimary(sets)
    requires owner in sets && PrimaryKey(t, id) in sets[owner]
    requires owner !in Doomed(sets, t, id)
    ensures PrimaryKey(t, id) in SetAt(DeletedSets(sets, t, id), owner)
    ensures HashAt(DeleteKeys(hashes, Doomed(sets, t, id)), PrimaryKey(t, id)) == map[]
  {
    StaleInboundEdge(sets, t, id, owner);
  }

  /**
   * delete() leaves the entity's counters, its back-relation set and its own
   * relation sets alone, unless the cascade set happens to name them.
   */
  lemma DeleteKeepsSideKeys(sets: Sets, t: EntityType, id: int, k: string)
    requires NoEmptyValues(map[], sets)
    requires MembersArePrimary(sets)
    requires k in sets && k !in SetAt(sets, CascadeKey(t, id))
    requires k == BackRelationKey(t, id) || exists rel :: k == RelationKey(t, id, rel)
    ensures k in DeletedSets(sets, t, id) && DeletedSets(sets, t, id)[k] == sets[k]
  {
    CleanupIsNoOp(sets, t, id);
    if k == BackRelationKey(t, id) {
      DerivedKeysDistinct(t, id, t, id, t, None);
    } else {
      var rel :| k == RelationKey(t, id, rel);
      DerivedKeysDistinct(t, id, t, id, rel, None);
    }
  }

  /**
   * With the intended cleanup, an owner that linked the entity no longer
   * lists it: its relation set for the entity's type loses key(id).
   */
  lemma UnlinkedOwnerForgets(sets: Sets, ot: EntityType, oid: int, t: EntityType, id: int)
    requires MembersArePrimary(sets)
    requires PrimaryKey(ot, oid) in SetAt(sets, BackRelationKey(t, id))
    ensures PrimaryKey(t, id) !in SetAt(UnlinkedSets(sets, t, id), RelationKey(ot, oid, t))
  {
    var bk := BackRelationKey(t, id);
    DerivedKeysDistinct(t, id, t, id, t, None);
    if bk in SetAt(sets, CascadeKey(t, id)) {
      assert IsPrimary(bk);
      var t', id' :| bk == PrimaryKey(t', id');
      DerivedKeysDistinct(t', id', t, id, t, None);
    }
    var after := DeleteKeys(sets, Doomed(sets, t, id));
    assert SetAt(after, bk) == SetAt(sets, bk);
    OwnerRelationKey(ot, oid, t);
    assert RelationKey(ot, oid, t) in CleanupTargets(SetAt(after, bk), t);
  }

  /**
   * Deleting an entity that was never cached (no record, no cascade set, no
   * back-relation set) changes nothing.
   */
  lemma DeleteUncachedIsNoOp(hashes: Hashes, sets: Sets, counters: Counters, t: EntityType, id: int)
    requires PrimaryKey(t, id) !in hashes && PrimaryKey(t, id) !in sets && PrimaryKey(t, id) !in counters
    requires CascadeKey(t, id) !in hashes && CascadeKey(t, id) !in sets && CascadeKey(t, id) !in counters
    requires BackRelationKey(t, id) !in sets
    ensures DeleteKeys(hashes, Doomed(sets, t, id)) == hashes
    ensures DeleteKeys(counters, Doomed(sets, t, id)) == counters
    ensures DeletedSets(sets, t, id) == sets
  {
    var doomed := Doomed(sets, t, id);
    assert doomed == {PrimaryKey(t, id), CascadeKey(t, id)};
    assert DeleteKeys(hashes, doomed).Keys == hashes.Keys;
    assert DeleteKeys(counters, doomed).Keys == counters.Keys;
    var after := DeleteKeys(sets, doomed);
    assert after.Keys == sets.Keys;
    assert after == sets;
    assert CleanupTargets(SetAt(after, BackRelationKey(t, id)), t) == {};
    StripMemberNone(after, CascadeKey(t, id));
  }

  // ---------------------------------------------------------------------------
  // Relation edges

  /** add_relation(o, T, m) followed by the matching add_back_relation. */
  function Link(sets: Sets, ownerType: EntityType, ownerId: int, memberType: EntityType, memberId: int): Sets
  {
    SAdd(SAdd(sets, RelationKey(ownerType, ownerId, memberType), PrimaryKey(memberType, memberId)),
         BackRelationKey(memberType, memberId), PrimaryKey(ownerType, ownerId))
  }

  /** delete_relation(o, T, m) followed by the matching delete_back_relation. */
  function Unlink(sets: Sets, ownerType: EntityType, ownerId: int, memberType: EntityType, memberId: int): Sets
  {
    SRem(SRem(sets, RelationKey(ownerType, ownerId, memberType), PrimaryKey(memberType, memberId)),
         BackRelationKey(memberType, memberId), PrimaryKey(ownerType, ownerId))
  }

  /** Link writes the two edge sets and no other. */
  lemma LinkFrame(sets: Sets, ot: EntityType, oid: int, mt: EntityType, mid: int)
    ensures var l := Link(sets, ot, oid, mt, mid);
            var rk, bk := RelationKey(ot, oid, mt), BackRelationKey(mt, mid);
            && SetAt(l, rk) == SetAt(sets, rk) + {PrimaryKey(mt, mid)}
            && SetAt(l, bk) == SetAt(sets, bk) + {PrimaryKey(ot, oid)}
            && (forall k :: k != rk && k != bk ==> SetAt(l, k) == SetAt(sets, k))
  {
    DerivedKeysDistinct(mt, mid, ot, oid, mt, None);
  }

  /**
   * Relation symmetry: linking creates both directions, linking twice is
   * linking once, and unlinking removes both directions and touches no other
   * set.
   */
  lemma RelationSymmetry(sets: Sets, ot: EntityType, oid: int, mt: EntityType, mid: int)
    ensures var l := Link(sets, ot, oid, mt, mid);
            && PrimaryKey(mt, mid) in SetAt(l, RelationKey(ot, oid, mt))
            && PrimaryKey(ot, oid) in SetAt(l, BackRelationKey(mt, mid))
            && Link(l, ot, oid, mt, mid) == l
    ensures var u := Unlink(sets, ot, oid, mt, mid);
            && PrimaryKey(mt, mid) !in SetAt(u, RelationKey(ot, oid, mt))
            && PrimaryKey(ot, oid) !in SetAt(u, BackRelationKey(mt, mid))
            && (forall k :: k != RelationKey(ot, oid, mt) && k != BackRelationKey(mt, mid) ==> SetAt(u, k) == SetAt(sets, k))
  {
    var rk, bk := RelationKey(ot, oid, mt), BackRelationKey(mt, mid);
    DerivedKeysDistinct(mt, mid, ot, oid, mt, None);
    var l := Link(sets, ot, oid, mt, mid);
    var l2 := Link(l, ot, oid, mt, mid);
    assert l2.Keys == l.Keys;
    forall k | k in l ensures l2[k] == l[k] {
      assert SetAt(l2, k) == SetAt(l, k);
    }
  }

  class EntityCache {
    const kind: EntityType
    const store: Store

    constructor (kind: EntityType, store: Store)
      ensures this.kind == kind && this.store == store
    {
      this.kind := kind;
      this.store := store;
    }

    /** exist(id, rel): EXISTS on _key(type, id, rel). */
    method Exist(id: int, rel: Option<EntityType>) returns (n: int)
      requires store.Valid()
      ensures var k := Key(kind, id, rel, None);
              n == (if k in store.hashes || k in store.sets || k in store.counters then 1 else 0)
      ensures rel.Some? && RelationKey(kind, id, rel.value) !in store.hashes && RelationKey(kind, id, rel.value) !in store.counters
              ==> (n == 1 <==> SetAt(store.sets, RelationKey(kind, id, rel.value)) != {})
      ensures rel.None? ==> (n == 1 <==> PrimaryKey(kind, id) in store.hashes || PrimaryKey(kind, id) in store.sets || PrimaryKey(kind, id) in store.counters)
    {
      n := store.Exists(Key(kind, id, rel, None));
    }

    /** set(id, obj): HSET key(id) with the encoded fields. */
    method Set(id: int, obj: Record)
      requires store.Valid()
      requires obj != map[]
      modifies store
      ensures store.Valid()
      ensures store.hashes == HSetFields(old(store.hashes), PrimaryKey(kind, id), Encode(obj))
      ensures store.sets == old(store.sets) && store.counters == old(store.counters)
    {
      var f :| f in obj;
      assert f in Encode(obj);
      store.HSet(PrimaryKey(kind, id), Encode(obj));
    }

    /** get(id): the decoded hash, None when there is no record. */
    method Get(id: int) returns (r: Option<Record>)
      requires store.Valid()
      ensures r == Decode(HashAt(store.hashes, PrimaryKey(kind, id)))
      ensures r.None? <==> PrimaryKey(kind, id) !in store.hashes
    {
      var raw := store.HGetAll(PrimaryKey(kind, id));
      if raw == map[] {
        return None;
      }
      var obj: Record := map[];
      var pending := raw.Keys;
      while pending != {}
        invariant pending <= raw.Keys
        invariant obj.Keys == raw.Keys - pending
        invariant forall f :: f in obj ==> obj[f] == DecodeFields(raw)[f]
        decreases pending
      {
        var f :| f in pending;
        if raw[f] == "null" {
          obj := obj[f := None];
        } else {
          obj := obj[f := Some(raw[f])];
        }
        pending := pending - {f};
      }
      assert obj == DecodeFields(raw);
      r := Some(obj);
    }

    /** incr(id, rel): INCR on the counter key, returning the new count. */
    method Incr(id: int, rel: Option<EntityType>) returns (n: int)
      modifies store
      ensures n == CounterAt(old(store.counters), CountKey(kind, id, rel)) + 1
      ensures store.counters == old(store.counters)[CountKey(kind, id, rel) := n]
      ensures store.hashes == old(store.hashes) && store.sets == old(store.sets)
    {
      n := store.Incr(CountKey(kind, id, rel));
    }

    /** add_cascade: SADD cascade_key(id) _key(related_type, related_id). */
    method AddCascade(id: int, relatedType: EntityType, relatedId: int)
      requires store.Valid()
      modifies store
      ensures store.Valid()
      ensures store.sets == SAdd(old(store.sets), CascadeKey(kind, id), PrimaryKey(relatedType, relatedId))
      ensures store.hashes == old(store.hashes) && store.counters == old(store.counters)
      ensures MembersArePrimary(old(store.sets)) ==> MembersArePrimary(store.sets)
    {
      store.SAddMember(CascadeKey(kind, id), PrimaryKey(relatedType, relatedId));
    }

    /** add_relation: SADD relation_key(id, related_type) _key(related_type, related_id). */
    method AddRelation(id: int, relatedType: EntityType, relatedId: int)
      requires store.Valid()
      modifies store
      ensures store.Valid()
      ensures store.sets == SAdd(old(store.sets), RelationKey(kind, id, relatedType), PrimaryKey(relatedType, relatedId))
      ensures store.hashes == old(store.hashes) && store.counters == old(store.counters)
      ensures MembersArePrimary(old(store.sets)) ==> MembersArePrimary(store.sets)
    {
      store.SAddMember(RelationKey(kind, id, relatedType), PrimaryKey(relatedType, relatedId));
    }

    /** add_back_relation: SADD back_relation_key(id) _key(related_type, related_id). */
    method AddBackRelation(id: int, relatedType: EntityType, relatedId: int)
      requires store.Valid()
      modifies store
      ensures store.Valid()
      ensures store.sets == SAdd(old(store.sets), BackRelationKey(kind, id), PrimaryKey(relatedType, relatedId))
      ensures store.hashes == old(store.hashes) && store.counters == old(store.counters)
      ensures MembersArePrimary(old(store.sets)) ==> MembersArePrimary(store.sets)
    {
      store.SAddMember(BackRelationKey(kind, id), PrimaryKey(relatedType, relatedId));
    }

    /**
     * get_relations: one raw hash per member of relation_key(id, related_type),
     * in the order the members were delivered (`order`); a member without a
     * record yields the empty hash and "null" is not decoded.
     */
    method GetRelations(id: int, relatedType: EntityType) returns (order: seq<string>, records: seq<map<string, string>>)
      ensures forall x :: x in SetAt(store.sets, RelationKey(kind, id, relatedType)) <==> x in order
      ensures forall i, j :: 0 <= i < j < |order| ==> order[i] != order[j]
      ensures |records| == |order|
      ensures forall i :: 0 <= i < |order| ==> records[i] == HashAt(store.hashes, order[i])
    {
      order := store.SMembers(RelationKey(kind, id, relatedType));
      records := [];
      var i := 0;
      while i < |order|
        invariant 0 <= i <= |order|
        invariant |records| == i
        invariant forall j :: 0 <= j < i ==> records[j] == HashAt(store.hashes, order[j])
      {
        var raw := HashAt(store.hashes, order[i]);
        records := records + [raw];
        i := i + 1;
      }
    }

    /**
     * delete(id): DEL key(id), every cascade member and cascade_key(id); then,
     * for every owner in the back-relation set, SREM cascade_key(id) from
     * f"{owner}:{type}".
     */
    method Delete(id: int)
      requires store.Valid()
      modifies store
      ensures store.Valid()
      ensures store.hashes == DeleteKeys(old(store.hashes), Doomed(old(store.sets), kind, id))
      ensures store.counters == DeleteKeys(old(store.counters), Doomed(old(store.sets), kind, id))
      ensures store.sets == DeletedSets(old(store.sets), kind, id)
    {
      DeleteRemoving(id, CascadeKey(kind, id));
    }

    /** delete(id) with the cleanup removing key(id) from the owners' relation sets. */
    method DeleteUnlinking(id: int)
      requires store.Valid()
      modifies store
      ensures store.Valid()
      ensures store.hashes == DeleteKeys(old(store.hashes), Doomed(old(store.sets), kind, id))
      ensures store.counters == DeleteKeys(old(store.counters), Doomed(old(store.sets), kind, id))
      ensures store.sets == UnlinkedSets(old(store.sets), kind, id)
    {
      DeleteRemoving(id, PrimaryKey(kind, id));
    }

    /** The DEL of delete(id), then the SREM of `stale` from f"{owner}:{type}" for every owner. */
    method DeleteRemoving(id: int, stale: string)
      requires store.Valid()
      modifies store
      ensures store.Valid()
      ensures store.hashes == DeleteKeys(old(store.hashes), Doomed(old(store.sets), kind, id))
      ensures store.counters == DeleteKeys(old(store.counters), Doomed(old(store.sets), kind, id))
      ensures store.sets == SetsAfterDelete(old(store.sets), kind, id, stale)
    {
      var name := PrimaryKey(kind, id);
      var cascadeName := CascadeKey(kind, id);
      var cascade := store.SMembers(cascadeName);
      ghost var doomed := Doomed(store.sets, kind, id);
      assert {name} + Elements(cascade) + {cascadeName} == doomed;
      store.Delete({name} + Elements(cascade) + {cascadeName});
      ghost var after := store.sets;
      var backRelation := store.SMembers(BackRelationKey(kind, id));
      var i := 0;
      StripMemberNone(after, stale);
      while i < |backRelation|
        invariant 0 <= i <= |backRelation|
        invariant store.Valid()
        invariant store.hashes == DeleteKeys(old(store.hashes), doomed)
        invariant store.counters == DeleteKeys(old(store.counters), doomed)
        invariant store.sets == StripMember(after, CleanupTargets(Elements(backRelation[..i]), kind), stale)
      {
        var backName := backRelation[i] + ":" + TypeName(kind);
        ElementsStep(backRelation, i);
        CleanupTargetsStep(Elements(backRelation[..i]), backRelation[i], kind);
        StripMemberStep(after, CleanupTargets(Elements(backRelation[..i]), kind), backName, stale);
        store.SRemMember(backName, stale);
        i := i + 1;
      }
      assert backRelation[..i] == backRelation;
      assert Elements(backRelation) == SetAt(after, BackRelationKey(kind, id));
    }

    /** delete_relation: SREM relation_key(id, related_type) _key(related_type, related_id). */
    method DeleteRelation(id: int, relatedType: EntityType, relatedId: int)
      requires store.Valid()
      modifies store
      ensures store.Valid()
      ensures store.sets == SRem(old(store.sets), RelationKey(kind, id, relatedType), PrimaryKey(relatedType, relatedId))
      ensures store.hashes == old(store.hashes) && store.counters == old(store.counters)
    {
      store.SRemMember(RelationKey(kind, id, relatedType), PrimaryKey(relatedType, relatedId));
    }

    /** delete_back_relation: SREM back_relation_key(id) _key(related_type, related_id). */
    method DeleteBackRelation(id: int, relatedType: EntityType, relatedId: int)
      requires store.Valid()
      modifies store
      ensures store.Valid()
      ensures store.sets == SRem(old(store.sets), BackRelationKey(kind, id), PrimaryKey(relatedType, relatedId))
      ensures store.hashes == old(store.hashes) && store.counters == old(store.counters)
    {
      store.SRemMember(BackRelationKey(kind, id), PrimaryKey(relatedType, relatedId));
    }
  }
}
