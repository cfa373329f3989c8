/**
 * The translation-code queries: the translations table (whose
 * translation_code column is unique), the topic_translations rows that
 * refer to it, and the translation cache.
 */
module DbTranslationCode {
  import opened Wrappers
  import opened Keys
  import opened Keyspace
  import opened Cache
  import opened Collections

  /** A translations row apart from its id. */
  datatype TranslationRow = TranslationRow(code: string, fullName: string)

  /** StringDataRightTruncation from the INSERT. */
  datatype CreateError = ValueTooLong

  /** translation_code is String(2) and full_name String(100). */
  predicate TooLong(code: string, fullName: string)
  {
    |code| > 2 || |fullName| > 100
  }

  /** The record the Translation schema dumps for a row. */
  function Dump(id: int, t: TranslationRow): (r: Record)
    ensures r != map[]
  {
    var r := map["id" := Some(IdString(id)), "translation_code" := Some(t.code), "full_name" := Some(t.fullName)];
    assert "id" in r;
    r
  }

  class TranslationTables {
    var translations: map<int, TranslationRow>
    /** The next value the translations.id sequence hands out. */
    var nextId: int
    /** topic_translations rows: row id to translation_id. */
    var topicTranslations: map<int, int>

    /** Ids come from the sequence, codes are unique, and topic_translations' foreign key holds. */
    ghost predicate Valid()
      reads this
    {
      && (forall id :: id in translations ==> id < nextId)
      && (forall a, b :: a in translations && b in translations && a != b ==> translations[a].code != translations[b].code)
      && (forall r :: r in topicTranslations ==> topicTranslations[r] in translations)
    }

    constructor ()
      ensures Valid()
      ensures translations == map[] && topicTranslations == map[] && nextId == 1
    {
      translations, topicTranslations, nextId := map[], map[], 1;
    }

    /** What db.get hands to Translation.model_validate, per id. */
    function Rows(): map<int, Record>
      reads this
    {
      map id | id in translations :: Dump(id, translations[id])
    }

    /** Some row already holds this code. */
    predicate CodeTaken(code: string)
      reads this
    {
      exists id :: id in translations && translations[id].code == code
    }

    /** The topic_translations rows that use a translation. */
    function UsersOf(translationId: int): set<int>
      reads this
    {
      set r | r in topicTranslations && topicTranslations[r] == translationId
    }

    /** get_used: how many topic translations use the code; 0 when none do. */
    method GetUsed(codeId: int) returns (n: int)
      ensures n == |UsersOf(codeId)|
      ensures n == 0 <==> forall r :: r in topicTranslations ==> topicTranslations[r] != codeId
    {
      var users := UsersOf(codeId);
      assert forall r :: r in topicTranslations && topicTranslations[r] == codeId ==> r in users;
      if users != {} {
        var r := Choose(users);
        assert topicTranslations[r] == codeId;
      }
      n := |users|;
    }

    /**
     * create_translation_code: INSERT ... ON CONFLICT (translation_code) DO
     * NOTHING RETURNING id. A code longer than its String(2) column or a full
     * name longer than its String(100) column makes the INSERT raise before
     * the conflict is looked at; otherwise the new id when the code was
     * free, None when it was taken. The sequence advances in every case.
     */
    method CreateTranslationCode(code: string, fullName: string) returns (r: Result<Option<int>, CreateError>)
      requires Valid()
      modifies this
      ensures Valid()
      ensures r.Failure? <==> TooLong(code, fullName)
      ensures r.Failure? ==> r.error == ValueTooLong && translations == old(translations)
      ensures r.Success? ==> (r.value.None? <==> old(CodeTaken(code)))
      ensures r.Success? && r.value.Some? ==>
                && r.value.value == old(nextId) && r.value.value !in old(translations)
                && translations == old(translations)[r.value.value := TranslationRow(code, fullName)]
      ensures r.Success? && r.value.None? ==> translations == old(translations)
      ensures nextId == old(nextId) + 1
      ensures topicTranslations == old(topicTranslations)
    {
      var candidate := nextId;
      nextId := nextId + 1;
      if TooLong(code, fullName) {
        return Failure(ValueTooLong);
      }
      if exists other :: other in translations && translations[other].code == code {
        return Success(None);
      }
      translations := translations[candidate := TranslationRow(code, fullName)];
      return Success(Some(candidate));
    }

    /**
     * delete_translation_code: false when the row is missing or some topic
     * translation uses it; otherwise the row is deleted and the answer is
     * true. The translation cache is not touched.
     */
    method DeleteTranslationCode(translationId: int) returns (deleted: bool)
      requires Valid()
      modifies this
      ensures Valid()
      ensures deleted <==> translationId in old(translations) && old(UsersOf(translationId)) == {}
      ensures translations == if deleted then old(translations) - {translationId} else old(translations)
      ensures topicTranslations == old(topicTranslations) && nextId == old(nextId)
    {
      if translationId !in translations {
        return false;
      }
      var related := UsersOf(translationId);
      if related != {} {
        return false;
      }
      assert forall r :: r in topicTranslations && topicTranslations[r] == translationId ==> r in related;
      translations := translations - {translationId};
      return true;
    }

    /**
     * delete_translation_code as it is evidently meant to behave: the same
     * table change, followed by the cache invalidation that delete_tag and
     * delete_by_id perform.
     */
    method DeleteTranslationCodeEvicting(translationCache: EntityCache, translationId: int) returns (deleted: bool)
      requires Valid() && translationCache.kind == EntityType.Translation && translationCache.store.Valid()
      modifies this, translationCache.store
      ensures Valid() && translationCache.store.Valid()
      ensures deleted <==> translationId in old(translations) && old(UsersOf(translationId)) == {}
      ensures translations == if deleted then old(translations) - {translationId} else old(translations)
      ensures topicTranslations == old(topicTranslations) && nextId == old(nextId)
      ensures deleted ==>
                var doomed := Doomed(old(translationCache.store.sets), EntityType.Translation, translationId);
                && translationCache.store.hashes == DeleteKeys(old(translationCache.store.hashes), doomed)
                && translationCache.store.counters == DeleteKeys(old(translationCache.store.counters), doomed)
                && translationCache.store.sets == DeletedSets(old(translationCache.store.sets), EntityType.Translation, translationId)
      ensures !deleted ==>
                && translationCache.store.hashes == old(translationCache.store.hashes)
                && translationCache.store.sets == old(translationCache.store.sets)
                && translationCache.store.counters == old(translationCache.store.counters)
    {
      deleted := DeleteTranslationCode(translationId);
      if deleted {
        translationCache.Delete(translationId);
      }
    }
  }

  /**
   * get_translation_code_by_id: one INCR of the code's counter, then the
   * read-through lookup against the table with the new count.
   */
  method GetTranslationCodeById(db: TranslationTables, translationCache: EntityCache, translationCodeId: int, threshold: int)
    returns (translation: Option<Record>)
    requires db.Valid() && translationCache.kind == EntityType.Translation && translationCache.store.Valid()
    modifies translationCache.store
    ensures translationCache.store.Valid()
    ensures var ck := CountKey(EntityType.Translation, translationCodeId, None);
            var n := CounterAt(old(translationCache.store.counters), ck) + 1;
            && translationCache.store.counters == old(translationCache.store.counters)[ck := n]
            && (translation, translationCache.store.hashes)
               == ReadThrough(old(translationCache.store.hashes), EntityType.Translation, db.Rows(), translationCodeId, n, threshold)
    ensures translationCache.store.sets == old(translationCache.store.sets)
  {
    var count := translationCache.Incr(translationCodeId, None);
    var cached := translationCache.Get(translationCodeId);
    if cached.Some? {
      return cached;
    }
    if translationCodeId !in db.translations {
      return None;
    }
    var row := Dump(translationCodeId, db.translations[translationCodeId]);
    if count >= threshold {
      translationCache.Set(translationCodeId, row);
    }
    return Some(row);
  }

  /**
   * A code the translations table no longer has is still served by
   * get_translation_code_by_id once it was promoted into the cache: after
   * delete_translation_code removed row 1, the lookup answers with the
   * cached record of the deleted row.
   */
  lemma DeletedCodeStillServed(count: int, threshold: int)
    ensures var row := Dump(1, TranslationRow("en", "English"));
            var k := PrimaryKey(EntityType.Translation, 1);
            var hashes := map[k := Encode(row)];
            var before := map[1 := row];
            var after := before - {1};
            && 1 !in after
            && ReadThrough(hashes, EntityType.Translation, after, 1, count, threshold).0 == Some(row)
  {
    var row := Dump(1, TranslationRow("en", "English"));
    var k := PrimaryKey(EntityType.Translation, 1);
    var hashes := map[k := Encode(row)];
    EchoLaw(map[], row);
    assert map[] + Encode(row) == Encode(row);
    assert DecodeFields(hashes[k]).Keys == row.Keys;
    assert DecodeFields(hashes[k]) == row;
    CacheHitIgnoresTable(hashes, EntityType.Translation, map[1 := row], map[1 := row] - {1}, 1, count, count, threshold);
  }

  /**
   * With the eviction, a deleted code reads as missing: the lookup finds
   * neither a cached record nor a row, answers None and caches nothing.
   */
  lemma EvictedCodeNotServed(hashes: Hashes, sets: Sets, rows: map<int, Record>, id: int, count: int, threshold: int)
    requires id !in rows
    ensures var evicted := DeleteKeys(hashes, Doomed(sets, EntityType.Translation, id));
            ReadThrough(evicted, EntityType.Translation, rows, id, count, threshold) == (None, evicted)
  {
    var evicted := DeleteKeys(hashes, Doomed(sets, EntityType.Translation, id));
    assert PrimaryKey(EntityType.Translation, id) !in evicted;
    MissingRowNotCached(evicted, EntityType.Translation, rows, id, count, threshold);
  }
}
