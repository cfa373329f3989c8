/**
 * The tag queries: the tags, topic and tags_in_topic tables, driven
 * together with the tag and topic caches (which share one keyspace).
 */
module DbTag {
  import opened Wrappers
  import opened Keys
  import opened Keyspace
  import opened Cache
  import opened Collections
  import opened PyValue

  /** The rows the tag queries read and write. */
  class TagTables {
    var tags: map<int, Record>
    var topics: map<int, Record>
    /** tags_in_topic rows as (topic_id, tag_id); the pair is the primary key. */
    var links: set<(int, int)>

    /** Every row dumps to at least one field, and tags_in_topic's foreign
        keys point at existing rows. */
    ghost predicate Valid()
      reads this
    {
      && (forall id :: id in tags ==> tags[id] != map[])
      && (forall id :: id in topics ==> topics[id] != map[])
      && (forall l :: l in links ==> l.0 in topics && l.1 in tags)
    }

    constructor ()
      ensures Valid()
      ensures tags == map[] && topics == map[] && links == {}
    {
      tags, topics, links := map[], map[], {};
    }

    /** The topics joined to a tag through tags_in_topic. */
    function LinkedTopics(tagId: int): set<int>
      reads this
    {
      set l | l in links && l.1 == tagId :: l.0
    }

    /** SELECT topic JOIN tags_in_topic WHERE tag_id = tagId, in the order
        the database returns the rows. */
    method TopicsOfTag(tagId: int) returns (ids: seq<int>)
      requires Valid()
      ensures forall x :: x in ids <==> x in LinkedTopics(tagId)
      ensures forall x :: x in ids ==> x in topics
      ensures forall i, j :: 0 <= i < j < |ids| ==> ids[i] != ids[j]
    {
      var rest := LinkedTopics(tagId);
      ghost var seen: set<int> := {};
      ids := [];
      while rest != {}
        invariant rest !! seen && rest + seen == LinkedTopics(tagId)
        invariant forall x :: x in seen <==> x in ids
        invariant forall i, j :: 0 <= i < j < |ids| ==> ids[i] != ids[j]
        decreases rest
      {
        var x := Choose(rest);
        ids, seen := ids + [x], seen + {x};
        rest := rest - {x};
      }
      forall x | x in ids ensures x in topics {
        var l :| l in links && l.1 == tagId && l.0 == x;
      }
    }
  }

  datatype TagError =
    | TagNotExists(tagId: int)   // TagNotExistsException
    | IntegrityError             // a foreign-key violation on tags_in_topic
    | NameRejected               // tags.name is String(100) and unique

  /** The tag cache and the topic cache over one keyspace. */
  ghost predicate Wired(tagCache: EntityCache, topicCache: EntityCache)
  {
    tagCache.kind == EntityType.Tag && topicCache.kind == EntityType.Topic && tagCache.store == topicCache.store
  }

  // ---------------------------------------------------------------------------
  // get_tag_by_id

  /** get_tag_by_id: count, read the cache, fall back to the table, and write
      the cache only once the count reaches the threshold. */
  method GetTagById(db: TagTables, tagCache: EntityCache, tagId: int, threshold: int) returns (tag: Option<Record>)
    requires db.Valid() && tagCache.kind == EntityType.Tag && tagCache.store.Valid()
    modifies tagCache.store
    ensures tagCache.store.Valid()
    ensures var ck := CountKey(EntityType.Tag, tagId, None);
            var n := CounterAt(old(tagCache.store.counters), ck) + 1;
            && tagCache.store.counters == old(tagCache.store.counters)[ck := n]
            && (tag, tagCache.store.hashes) == ReadThrough(old(tagCache.store.hashes), EntityType.Tag, db.tags, tagId, n, threshold)
    ensures tagCache.store.sets == old(tagCache.store.sets)
    ensures tag.Some? ==> tag.value != map[]
  {
    var count := tagCache.Incr(tagId, None);
    var cached := tagCache.Get(tagId);
    if cached.Some? {
      return cached;
    }
    if tagId !in db.tags {
      return None;
    }
    var row := db.tags[tagId];
    if count >= threshold {
      tagCache.Set(tagId, row);
    }
    return Some(row);
  }

  // ---------------------------------------------------------------------------
  // get_topics_list_by_tag

  /** What get_topics_list_by_tag hands back: the raw cached hashes, or the
      validated rows from the database. */
  datatype TopicList = FromCache(raw: seq<map<string, string>>) | FromDb(rows: seq<Record>)

  function TopicKeys(ids: set<int>): set<string>
  {
    set id | id in ids :: PrimaryKey(EntityType.Topic, id)
  }

  function TopicBackKeys(ids: set<int>): set<string>
  {
    set id | id in ids :: BackRelationKey(EntityType.Topic, id)
  }

  lemma TopicKeysMembership(ids: set<int>, x: int)
    ensures PrimaryKey(EntityType.Topic, x) in TopicKeys(ids) <==> x in ids
    ensures BackRelationKey(EntityType.Topic, x) in TopicBackKeys(ids) <==> x in ids
  {
    if PrimaryKey(EntityType.Topic, x) in TopicKeys(ids) {
      var id :| id in ids && PrimaryKey(EntityType.Topic, id) == PrimaryKey(EntityType.Topic, x);
      PrimaryKeyInjective(EntityType.Topic, id, x);
    }
    if BackRelationKey(EntityType.Topic, x) in TopicBackKeys(ids) {
      var id :| id in ids && BackRelationKey(EntityType.Topic, id) == BackRelationKey(EntityType.Topic, x);
      BackRelationKeyInjective(EntityType.Topic, id, x);
    }
  }

  lemma TopicKeysAdd(done: set<int>, x: int)
    ensures TopicKeys(done + {x}) == TopicKeys(done) + {PrimaryKey(EntityType.Topic, x)}
    ensures TopicBackKeys(done + {x}) == TopicBackKeys(done) + {BackRelationKey(EntityType.Topic, x)}
  {
  }

  /**
   * The three cache writes get_topics_list_by_tag makes for one topic row at
   * or above the threshold: its record, the tag->topic edge and the
   * topic->tag edge.
   */
  method CacheTopicOfTag(tagCache: EntityCache, topicCache: EntityCache, tagId: int, topicId: int, row: Record)
    requires Wired(tagCache, topicCache) && tagCache.store.Valid()
    requires row != map[]
    modifies tagCache.store
    ensures tagCache.store.Valid()
    ensures tagCache.store.hashes == HSetFields(old(tagCache.store.hashes), PrimaryKey(EntityType.Topic, topicId), Encode(row))
    ensures tagCache.store.sets == Link(old(tagCache.store.sets), EntityType.Tag, tagId, EntityType.Topic, topicId)
    ensures tagCache.store.counters == old(tagCache.store.counters)
  {
    topicCache.Set(topicId, row);
    tagCache.AddRelation(tagId, EntityType.Topic, topicId);
    topicCache.AddBackRelation(topicId, EntityType.Tag, tagId);
  }

  /** The records get_topics_list_by_tag promises after caching the topics
      `done` over the hashes h0. */
  ghost predicate PromotedHashes(hashes: Hashes, h0: Hashes, topics: map<int, Record>, done: set<int>)
    requires done <= topics.Keys
  {
    && (forall id :: id in done ==>
          HashAt(hashes, PrimaryKey(EntityType.Topic, id)) == HashAt(h0, PrimaryKey(EntityType.Topic, id)) + Encode(topics[id]))
    && (forall k :: k !in TopicKeys(done) ==> HashAt(hashes, k) == HashAt(h0, k))
  }

  /** The edges get_topics_list_by_tag promises after linking tag `tagId` to
      the topics `done` over the sets s0. */
  ghost predicate PromotedSets(sets: Sets, s0: Sets, tagId: int, done: set<int>)
  {
    var rk := RelationKey(EntityType.Tag, tagId, EntityType.Topic);
    && SetAt(sets, rk) == SetAt(s0, rk) + TopicKeys(done)
    && (forall id :: id in done ==>
          SetAt(sets, BackRelationKey(EntityType.Topic, id)) == SetAt(s0, BackRelationKey(EntityType.Topic, id)) + {PrimaryKey(EntityType.Tag, tagId)})
    && (forall k :: k != rk && k !in TopicBackKeys(done) ==> SetAt(sets, k) == SetAt(s0, k))
  }

  lemma PromotedHashesStep(hashes: Hashes, h0: Hashes, topics: map<int, Record>, done: set<int>, x: int)
    requires done <= topics.Keys && x in topics && x !in done
    requires PromotedHashes(hashes, h0, topics, done)
    ensures PromotedHashes(HSetFields(hashes, PrimaryKey(EntityType.Topic, x), Encode(topics[x])), h0, topics, done + {x})
  {
    var t := EntityType.Topic;
    var pk := PrimaryKey(t, x);
    var h2 := HSetFields(hashes, pk, Encode(topics[x]));
    TopicKeysMembership(done, x);
    TopicKeysAdd(done, x);
    forall id | id in done
      ensures HashAt(h2, PrimaryKey(t, id)) == HashAt(h0, PrimaryKey(t, id)) + Encode(topics[id])
    {
      PrimaryKeyInjective(t, id, x);
    }
  }

  lemma PromotedSetsStep(sets: Sets, s0: Sets, tagId: int, done: set<int>, x: int)
    requires x !in done
    requires PromotedSets(sets, s0, tagId, done)
    ensures PromotedSets(Link(sets, EntityType.Tag, tagId, EntityType.Topic, x), s0, tagId, done + {x})
  {
    var t := EntityType.Topic;
    var rk := RelationKey(EntityType.Tag, tagId, t);
    var pk, bk := PrimaryKey(t, x), BackRelationKey(t, x);
    var s2 := Link(sets, EntityType.Tag, tagId, t, x);
    LinkFrame(sets, EntityType.Tag, tagId, t, x);
    TopicKeysMembership(done, x);
    TopicKeysAdd(done, x);
    assert SetAt(s2, rk) == SetAt(s0, rk) + TopicKeys(done + {x});
    forall id | id in done + {x}
      ensures SetAt(s2, BackRelationKey(t, id)) == SetAt(s0, BackRelationKey(t, id)) + {PrimaryKey(EntityType.Tag, tagId)}
    {
      BackRelationKeyInjective(t, id, x);
      DerivedKeysDistinct(t, id, EntityType.Tag, tagId, t, None);
      TopicKeysMembership(done, id);
    }
    forall k | k != rk && k !in TopicBackKeys(done + {x})
      ensures SetAt(s2, k) == SetAt(s0, k)
    {
      assert k != bk && k !in TopicBackKeys(done);
    }
  }

  /** One step of the promotion loop keeps the promised cache state. */
  method PromoteTopic(tagCache: EntityCache, topicCache: EntityCache, topics: map<int, Record>, tagId: int,
                      ghost h0: Hashes, ghost s0: Sets, ghost done: set<int>, topicId: int)
    requires Wired(tagCache, topicCache) && tagCache.store.Valid()
    requires done <= topics.Keys && topicId in topics && topicId !in done && topics[topicId] != map[]
    requires PromotedHashes(tagCache.store.hashes, h0, topics, done)
    requires PromotedSets(tagCache.store.sets, s0, tagId, done)
    modifies tagCache.store
    ensures tagCache.store.Valid()
    ensures tagCache.store.counters == old(tagCache.store.counters)
    ensures PromotedHashes(tagCache.store.hashes, h0, topics, done + {topicId})
    ensures PromotedSets(tagCache.store.sets, s0, tagId, done + {topicId})
  {
    PromotedHashesStep(tagCache.store.hashes, h0, topics, done, topicId);
    PromotedSetsStep(tagCache.store.sets, s0, tagId, done, topicId);
    CacheTopicOfTag(tagCache, topicCache, tagId, topicId, topics[topicId]);
  }

  /** The rows produced for the ids a join returned are the linked rows. */
  lemma JoinedRows(ids: seq<int>, rows: seq<Record>, topics: map<int, Record>, linked: set<int>)
    requires forall x :: x in ids <==> x in linked
    requires |rows| == |ids| && forall j :: 0 <= j < |ids| ==> ids[j] in topics && rows[j] == topics[ids[j]]
    ensures Elements(ids) == linked
    ensures forall r :: r in rows ==> r in (set id | id in linked && id in topics :: topics[id])
    ensures forall id :: id in linked ==> id in topics && topics[id] in rows
  {
    forall x ensures x in Elements(ids) <==> x in linked {
      assert x in Elements(ids) <==> x in ids;
    }
    forall id | id in linked ensures id in topics && topics[id] in rows {
      var j :| 0 <= j < |ids| && ids[j] == id;
      assert rows[j] == topics[id];
    }
    forall r | r in rows ensures r in (set id | id in linked && id in topics :: topics[id]) {
      var j :| 0 <= j < |rows| && rows[j] == r;
      var id := ids[j];
      assert id in linked && id in topics && topics[id] == r;
      assert topics[id] in (set id | id in linked && id in topics :: topics[id]);
    }
  }

  /**
   * The database half of get_topics_list_by_tag: the joined topic rows, each
   * one cached with both relation edges when `promote` holds.
   */
  method LoadTopicsOfTag(db: TagTables, tagCache: EntityCache, topicCache: EntityCache, tagId: int, promote: bool)
    returns (rows: seq<Record>)
    requires db.Valid() && Wired(tagCache, topicCache) && tagCache.store.Valid()
    modifies tagCache.store
    ensures tagCache.store.Valid()
    ensures tagCache.store.counters == old(tagCache.store.counters)
    ensures forall r :: r in rows ==> r in (set id | id in db.LinkedTopics(tagId) && id in db.topics :: db.topics[id])
    ensures forall id :: id in db.LinkedTopics(tagId) ==> id in db.topics && db.topics[id] in rows
    ensures |rows| == |db.LinkedTopics(tagId)|
    ensures !promote ==> tagCache.store.hashes == old(tagCache.store.hashes) && tagCache.store.sets == old(tagCache.store.sets)
    ensures promote ==> db.LinkedTopics(tagId) <= db.topics.Keys
    ensures promote ==> PromotedHashes(tagCache.store.hashes, old(tagCache.store.hashes), db.topics, db.LinkedTopics(tagId))
    ensures promote ==> PromotedSets(tagCache.store.sets, old(tagCache.store.sets), tagId, db.LinkedTopics(tagId))
  {
    var ids := db.TopicsOfTag(tagId);
    rows := [];
    var i := 0;
    assert Elements(ids[..0]) == {};
    assert TopicKeys({}) == {} && TopicBackKeys({}) == {};
    while i < |ids|
      invariant 0 <= i <= |ids|
      invariant tagCache.store.Valid()
      invariant tagCache.store.counters == old(tagCache.store.counters)
      invariant |rows| == i && forall j :: 0 <= j < i ==> ids[j] in db.topics && rows[j] == db.topics[ids[j]]
      invariant !promote ==> tagCache.store.hashes == old(tagCache.store.hashes) && tagCache.store.sets == old(tagCache.store.sets)
      invariant Elements(ids[..i]) <= db.topics.Keys
      invariant promote ==> PromotedHashes(tagCache.store.hashes, old(tagCache.store.hashes), db.topics, Elements(ids[..i]))
      invariant promote ==> PromotedSets(tagCache.store.sets, old(tagCache.store.sets), tagId, Elements(ids[..i]))
    {
      var topicId := ids[i];
      var obj := db.topics[topicId];
      ElementsStep(ids, i);
      if promote {
        PromoteTopic(tagCache, topicCache, db.topics, tagId, old(tagCache.store.hashes), old(tagCache.store.sets),
                     Elements(ids[..i]), topicId);
      }
      rows := rows + [obj];
      i := i + 1;
    }
    assert ids[..i] == ids;
    JoinedRows(ids, rows, db.topics, db.LinkedTopics(tagId));
    DistinctLength(ids);
  }

  /**
   * get_topics_list_by_tag: counts on the relation-scoped counter
   * "tag:<id>:topic:count"; at or above the threshold a non-empty tag->topic
   * set is answered from the cache as raw hashes; otherwise the joined rows
   * are read from the database and, at or above the threshold, each one is
   * cached with both relation edges.
   */
  method GetTopicsListByTag(db: TagTables, tagCache: EntityCache, topicCache: EntityCache, tagId: int, threshold: int)
    returns (result: TopicList)
    requires db.Valid() && Wired(tagCache, topicCache) && tagCache.store.Valid()
    modifies tagCache.store
    ensures tagCache.store.Valid()
    ensures var ck := CountKey(EntityType.Tag, tagId, Some(EntityType.Topic));
            tagCache.store.counters == old(tagCache.store.counters)[ck := CounterAt(old(tagCache.store.counters), ck) + 1]
    ensures var n := CounterAt(old(tagCache.store.counters), CountKey(EntityType.Tag, tagId, Some(EntityType.Topic))) + 1;
            var members := SetAt(old(tagCache.store.sets), RelationKey(EntityType.Tag, tagId, EntityType.Topic));
            && (result.FromCache? <==> n >= threshold && members != {})
            && (result.FromCache? ==>
                  && tagCache.store.hashes == old(tagCache.store.hashes)
                  && tagCache.store.sets == old(tagCache.store.sets)
                  && (forall r :: r in result.raw ==> r in (set m | m in members :: HashAt(old(tagCache.store.hashes), m)))
                  && (forall m :: m in members ==> HashAt(old(tagCache.store.hashes), m) in result.raw)
                  && |result.raw| == |members|)
            && (result.FromDb? ==>
                  && (forall r :: r in result.rows ==> r in (set id | id in db.LinkedTopics(tagId) && id in db.topics :: db.topics[id]))
                  && (forall id :: id in db.LinkedTopics(tagId) ==> id in db.topics && db.topics[id] in result.rows)
                  && |result.rows| == |db.LinkedTopics(tagId)|)
            && (result.FromDb? && n < threshold ==>
                  tagCache.store.hashes == old(tagCache.store.hashes) && tagCache.store.sets == old(tagCache.store.sets))
            && (result.FromDb? && n >= threshold ==>
                  && db.LinkedTopics(tagId) <= db.topics.Keys
                  && PromotedHashes(tagCache.store.hashes, old(tagCache.store.hashes), db.topics, db.LinkedTopics(tagId))
                  && PromotedSets(tagCache.store.sets, old(tagCache.store.sets), tagId, db.LinkedTopics(tagId)))
  {
    var count := tagCache.Incr(tagId, Some(EntityType.Topic));
    var isCached := count >= threshold;
    if isCached {
      var order, cached := tagCache.GetRelations(tagId, EntityType.Topic);
      ghost var members := SetAt(tagCache.store.sets, RelationKey(EntityType.Tag, tagId, EntityType.Topic));
      if |cached| > 0 {
        forall r | r in cached
          ensures r in (set m | m in members :: HashAt(tagCache.store.hashes, m))
        {
          var i :| 0 <= i < |cached| && cached[i] == r;
          assert order[i] in members;
        }
        forall m | m in members
          ensures HashAt(tagCache.store.hashes, m) in cached
        {
          var i :| 0 <= i < |order| && order[i] == m;
          assert cached[i] == HashAt(tagCache.store.hashes, m);
        }
        assert order[0] in members;
        assert Elements(order) == members;
        DistinctLength(order);
        return FromCache(cached);
      }
      assert order == [];
      assert members == {};
    }
    var rows := LoadTopicsOfTag(db, tagCache, topicCache, tagId, isCached);
    result := FromDb(rows);
  }

  // ---------------------------------------------------------------------------
  // edit_tag

  /** The row after UPDATE tags SET ... with every request field that is not None. */
  function PatchRow(row: Record, name: Option<string>, description: Option<string>): Record
  {
    var r1 := if name.Some? then row["name" := name] else row;
    if description.Some? then r1["description" := description] else r1
  }

  /** The copy edit_tag writes back to the cache: only truthy fields are copied. */
  function PatchCached(tag: Record, name: Option<string>, description: Option<string>): Record
  {
    var t1 := if TruthyText(name) then tag["name" := name] else tag;
    if TruthyText(description) then t1["description" := description] else t1
  }

  /**
   * The cached copy agrees with the database row exactly when no request
   * field is the empty string, or the record already held that empty string:
   * an empty name or description reaches the table but not the cache.
   */
  lemma CachedCopyAgrees(row: Record, name: Option<string>, description: Option<string>)
    ensures PatchRow(row, name, description) == PatchCached(row, name, description) <==>
              ((name == Some("") ==> "name" in row && row["name"] == Some(""))
               && (description == Some("") ==> "description" in row && row["description"] == Some("")))
  {
    var a, b := PatchRow(row, name, description), PatchCached(row, name, description);
    if name == Some("") && !("name" in row && row["name"] == Some("")) {
      assert "name" in a && a["name"] == Some("");
      assert !("name" in b && b["name"] == Some(""));
    } else if description == Some("") && !("description" in row && row["description"] == Some("")) {
      assert "description" in a && a["description"] == Some("");
      assert !("description" in b && b["description"] == Some(""));
    } else {
      assert a.Keys == b.Keys;
      forall f | f in a ensures a[f] == b[f] {
      }
    }
  }

  /** tags.name is String(100) and unique: a new name the UPDATE of another
      row cannot store. */
  predicate NameClash(tags: map<int, Record>, tagId: int, name: string)
  {
    |name| > 100 || exists t :: t in tags && t != tagId && "name" in tags[t] && tags[t]["name"] == Some(name)
  }

  /**
   * edit_tag: an empty request changes nothing; a name the tags table
   * refuses for an existing row raises before the commit and the cache
   * patch; otherwise the non-None fields are written to the row, and the
   * cache is patched, with the truthy fields only, when the tag's key
   * already exists.
   */
  method EditTag(db: TagTables, tagCache: EntityCache, tagId: int, tag: Record, name: Option<string>, description: Option<string>)
    returns (r: Result<(), TagError>)
    requires db.Valid() && tagCache.kind == EntityType.Tag && tagCache.store.Valid()
    requires tag != map[]
    modifies db, tagCache.store
    ensures db.Valid()
    ensures db.topics == old(db.topics) && db.links == old(db.links)
    ensures r.Failure? <==> name.Some? && tagId in old(db.tags) && NameClash(old(db.tags), tagId, name.value)
    ensures r.Failure? ==> r.error == NameRejected && db.tags == old(db.tags)
                           && tagCache.store.hashes == old(tagCache.store.hashes)
    ensures r.Success? ==>
              db.tags == if (name.Some? || description.Some?) && tagId in old(db.tags)
                         then old(db.tags)[tagId := PatchRow(old(db.tags)[tagId], name, description)]
                         else old(db.tags)
    ensures tagCache.store.sets == old(tagCache.store.sets) && tagCache.store.counters == old(tagCache.store.counters)
    ensures r.Success? ==>
              tagCache.store.hashes ==
                if (name.Some? || description.Some?)
                   && KeyExists(old(tagCache.store.hashes), old(tagCache.store.sets), old(tagCache.store.counters), PrimaryKey(EntityType.Tag, tagId))
                then HSetFields(old(tagCache.store.hashes), PrimaryKey(EntityType.Tag, tagId), Encode(PatchCached(tag, name, description)))
                else old(tagCache.store.hashes)
  {
    var values: Record := map[];
    if name.Some? {
      values := values["name" := name];
    }
    if description.Some? {
      values := values["description" := description];
    }
    assert name.Some? ==> "name" in values;
    assert description.Some? ==> "description" in values;
    if values == map[] {
      return Success(());
    }
    if tagId in db.tags {
      if name.Some? && NameClash(db.tags, tagId, name.value) {
        return Failure(NameRejected);
      }
      db.tags := db.tags[tagId := db.tags[tagId] + values];
      assert db.tags[tagId] == PatchRow(old(db.tags)[tagId], name, description);
    }

    var present := tagCache.Exist(tagId, None);
    if present == 1 {
      var patched := tag;
      if TruthyText(name) {
        patched := patched["name" := name];
      }
      if TruthyText(description) {
        patched := patched["description" := description];
      }
      tagCache.Set(tagId, patched);
    }
    return Success(());
  }

  // ---------------------------------------------------------------------------
  // attach_tag_to_topic, detach_tag_from_topic, delete_tag

  /** The cache half of attach_tag_to_topic, once the row is settled. */
  method CacheAttachedTag(tagCache: EntityCache, topicCache: EntityCache, topicId: int, tagId: int, tag: Record)
    requires Wired(tagCache, topicCache) && tagCache.store.Valid() && tag != map[]
    modifies tagCache.store
    ensures tagCache.store.Valid()
    ensures tagCache.store.counters == old(tagCache.store.counters)
    ensures if KeyExists(old(tagCache.store.hashes), old(tagCache.store.sets), old(tagCache.store.counters),
                         RelationKey(EntityType.Topic, topicId, EntityType.Tag))
            then tagCache.store.hashes == HSetFields(old(tagCache.store.hashes), PrimaryKey(EntityType.Tag, tagId), Encode(tag))
                 && tagCache.store.sets == Link(old(tagCache.store.sets), EntityType.Topic, topicId, EntityType.Tag, tagId)
            else tagCache.store.hashes == old(tagCache.store.hashes) && tagCache.store.sets == old(tagCache.store.sets)
  {
    var present := topicCache.Exist(topicId, Some(EntityType.Tag));
    if present == 1 {
      tagCache.Set(tagId, tag);
      topicCache.AddRelation(topicId, EntityType.Tag, tagId);
      tagCache.AddBackRelation(tagId, EntityType.Topic, topicId);
    }
  }

  /** The outcome of the tags_in_topic insert: whether a row was inserted, or
      the foreign-key violation. */
  function InsertOutcome(links: set<(int, int)>, tags: map<int, Record>, topics: map<int, Record>, topicId: int, tagId: int): Result<bool, TagError>
  {
    if (topicId, tagId) in links then Success(false)
    else if topicId !in topics || tagId !in tags then Failure(IntegrityError)
    else Success(true)
  }

  /**
   * attach_tag_to_topic: looks the tag up (counting the access); a missing tag
   * raises TagNotExistsException; the tags_in_topic row is inserted unless it
   * already exists (a dangling id violates a foreign key); when the topic's
   * tag relation set exists, the tag's record is written and both relation
   * edges are added. The result says whether a row was inserted.
   */
  method AttachTagToTopic(db: TagTables, tagCache: EntityCache, topicCache: EntityCache, topicId: int, tagId: int, threshold: int)
    returns (r: Result<bool, TagError>)
    requires db.Valid() && Wired(tagCache, topicCache) && tagCache.store.Valid()
    modifies db, tagCache.store
    ensures db.Valid()
    ensures db.tags == old(db.tags) && db.topics == old(db.topics)
    ensures tagCache.store.Valid()
    ensures var ck := CountKey(EntityType.Tag, tagId, None);
            tagCache.store.counters == old(tagCache.store.counters)[ck := CounterAt(old(tagCache.store.counters), ck) + 1]
    ensures var n := CounterAt(old(tagCache.store.counters), CountKey(EntityType.Tag, tagId, None)) + 1;
            var lookup := ReadThrough(old(tagCache.store.hashes), EntityType.Tag, old(db.tags), tagId, n, threshold);
            && (lookup.0.None? ==> r == Failure(TagNotExists(tagId)))
            && (lookup.0.Some? ==> r == InsertOutcome(old(db.links), db.tags, db.topics, topicId, tagId))
            && db.links == (if r == Success(true) then old(db.links) + {(topicId, tagId)} else old(db.links))
            && (r.Failure? ==> tagCache.store.hashes == lookup.1 && tagCache.store.sets == old(tagCache.store.sets))
            && (r.Success? && KeyExists(lookup.1, old(tagCache.store.sets), tagCache.store.counters,
                                        RelationKey(EntityType.Topic, topicId, EntityType.Tag)) ==>
                  && tagCache.store.hashes == HSetFields(lookup.1, PrimaryKey(EntityType.Tag, tagId), Encode(lookup.0.value))
                  && tagCache.store.sets == Link(old(tagCache.store.sets), EntityType.Topic, topicId, EntityType.Tag, tagId))
            && (r.Success? && !KeyExists(lookup.1, old(tagCache.store.sets), tagCache.store.counters,
                                         RelationKey(EntityType.Topic, topicId, EntityType.Tag)) ==>
                  tagCache.store.hashes == lookup.1 && tagCache.store.sets == old(tagCache.store.sets))
  {
    var tag := GetTagById(db, tagCache, tagId, threshold);
    if tag.None? {
      return Failure(TagNotExists(tagId));
    }
    var link := (topicId, tagId);
    var inserted := false;
    if link !in db.links {
      if topicId !in db.topics || tagId !in db.tags {
        return Failure(IntegrityError);
      }
      db.links := db.links + {link};
      inserted := true;
    }
    CacheAttachedTag(tagCache, topicCache, topicId, tagId, tag.value);
    return Success(inserted);
  }

  /**
   * detach_tag_from_topic: looks the tag up (counting the access); a missing
   * tag raises TagNotExistsException; otherwise the row is deleted and both
   * relation edges are removed, whether or not the row existed. The result
   * says whether a row was deleted.
   */
  method DetachTagFromTopic(db: TagTables, tagCache: EntityCache, topicCache: EntityCache, topicId: int, tagId: int, threshold: int)
    returns (r: Result<bool, TagError>)
    requires db.Valid() && Wired(tagCache, topicCache) && tagCache.store.Valid()
    modifies db, tagCache.store
    ensures db.Valid()
    ensures db.tags == old(db.tags) && db.topics == old(db.topics)
    ensures tagCache.store.Valid()
    ensures var ck := CountKey(EntityType.Tag, tagId, None);
            var n := CounterAt(old(tagCache.store.counters), ck) + 1;
            var (tag, h1) := ReadThrough(old(tagCache.store.hashes), EntityType.Tag, old(db.tags), tagId, n, threshold);
            && tagCache.store.counters == old(tagCache.store.counters)[ck := n]
            && tagCache.store.hashes == h1
            && (tag.None? ==> r == Failure(TagNotExists(tagId)) && db.links == old(db.links)
                              && tagCache.store.sets == old(tagCache.store.sets))
            && (tag.Some? ==> r == Success((topicId, tagId) in old(db.links))
                              && db.links == old(db.links) - {(topicId, tagId)}
                              && tagCache.store.sets == Unlink(old(tagCache.store.sets), EntityType.Topic, topicId, EntityType.Tag, tagId))
  {
    var tag := GetTagById(db, tagCache, tagId, threshold);
    if tag.None? {
      return Failure(TagNotExists(tagId));
    }
    var deleted := (topicId, tagId) in db.links;
    db.links := db.links - {(topicId, tagId)};
    topicCache.DeleteRelation(topicId, EntityType.Tag, tagId);
    tagCache.DeleteBackRelation(tagId, EntityType.Topic, topicId);
    return Success(deleted);
  }

  /**
   * delete_tag: the row goes (its tags_in_topic rows with it, ON DELETE
   * CASCADE) and the tag is evicted from the cache whether or not the row
   * existed. The result says whether a row was deleted.
   */
  method DeleteTag(db: TagTables, tagCache: EntityCache, tagId: int) returns (deleted: bool)
    requires db.Valid() && tagCache.kind == EntityType.Tag && tagCache.store.Valid()
    modifies db, tagCache.store
    ensures db.Valid()
    ensures deleted == (tagId in old(db.tags))
    ensures db.tags == old(db.tags) - {tagId} && db.topics == old(db.topics)
    ensures db.links == set l | l in old(db.links) && l.1 != tagId
    ensures tagCache.store.Valid()
    ensures var doomed := Doomed(old(tagCache.store.sets), EntityType.Tag, tagId);
            && tagCache.store.hashes == DeleteKeys(old(tagCache.store.hashes), doomed)
            && tagCache.store.counters == DeleteKeys(old(tagCache.store.counters), doomed)
            && tagCache.store.sets == DeletedSets(old(tagCache.store.sets), EntityType.Tag, tagId)
  {
    deleted := tagId in db.tags;
    db.tags := db.tags - {tagId};
    db.links := set l | l in db.links && l.1 != tagId;
    tagCache.Delete(tagId);
  }

  /**
   * After delete_tag, a topic whose tag relation set listed the tag still
   * lists it, and the tag's record is gone: the topic's cached tag list keeps
   * an empty entry for it.
   */
  lemma DeletedTagStillListed(hashes: Hashes, sets: Sets, tagId: int, topicId: int)
    requires NoEmptyValues(map[], sets)
    requires MembersArePrimary(sets)
    requires PrimaryKey(EntityType.Tag, tagId) in SetAt(sets, RelationKey(EntityType.Topic, topicId, EntityType.Tag))
    ensures PrimaryKey(EntityType.Tag, tagId) in SetAt(DeletedSets(sets, EntityType.Tag, tagId), RelationKey(EntityType.Topic, topicId, EntityType.Tag))
    ensures HashAt(DeleteKeys(hashes, Doomed(sets, EntityType.Tag, tagId)), PrimaryKey(EntityType.Tag, tagId)) == map[]
  {
    var rk := RelationKey(EntityType.Topic, topicId, EntityType.Tag);
    DerivedKeysDistinct(EntityType.Tag, tagId, EntityType.Topic, topicId, EntityType.Tag, None);
    DerivedKeysDistinct(EntityType.Tag, tagId, EntityType.Tag, tagId, EntityType.Tag, None);
    if rk in SetAt(sets, CascadeKey(EntityType.Tag, tagId)) {
      assert IsPrimary(rk);
      var t', id' :| rk == PrimaryKey(t', id');
      DerivedKeysDistinct(t', id', EntityType.Topic, topicId, EntityType.Tag, None);
    }
    StaleMemberReadsEmpty(hashes, sets, EntityType.Tag, tagId, rk);
  }
}
