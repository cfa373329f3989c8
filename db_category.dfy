/**
 * The category queries that change rows: the partial update with its
 * "nothing to update" rule, and the delete followed by the cache
 * invalidation.
 */
module DbCategory {
  import opened Wrappers
  import opened Keys
  import opened Keyspace
  import opened Cache
  import opened PyValue

  /** The category display modes; an enum member is always truthy. */
  datatype DisplayMode = Standard | Wiki

  /** A categories row apart from its id. */
  datatype CategoryRow = CategoryRow(name: string, description: Option<string>, displayMode: DisplayMode)

  /** A value of the update's keyword arguments. */
  datatype Assignment = Text(text: string) | Mode(mode: DisplayMode)

  /** UPDATE categories SET ... for one row: only the columns named in kw change. */
  function Assign(row: CategoryRow, kw: map<string, Assignment>): CategoryRow
  {
    var r1 := if "description" in kw && kw["description"].Text? then row.(description := Some(kw["description"].text)) else row;
    if "display_mode" in kw && kw["display_mode"].Mode? then r1.(displayMode := kw["display_mode"].mode) else r1
  }

  /**
   * The row update_category leaves behind, stated on the request: a truthy
   * description and a given display mode replace the stored ones; the name
   * and everything not given stay.
   */
  function Updated(row: CategoryRow, description: Option<string>, displayMode: Option<DisplayMode>): CategoryRow
  {
    CategoryRow(row.name,
             if TruthyText(description) then description else row.description,
             if displayMode.Some? then displayMode.value else row.displayMode)
  }

  class CategoryTables {
    var categories: map<int, CategoryRow>
    /** categories_in_topic rows as (topic_id, category_id). */
    var topicLinks: set<(int, int)>

    ghost predicate Valid()
      reads this
    {
      forall l :: l in topicLinks ==> l.1 in categories
    }

    constructor ()
      ensures Valid()
      ensures categories == map[] && topicLinks == {}
    {
      categories, topicLinks := map[], {};
    }

    /**
     * update_category: false without touching the table when the request
     * has neither a truthy description nor a display mode; otherwise true
     * exactly when a row with this id was updated.
     */
    method UpdateCategory(categoryId: int, description: Option<string>, displayMode: Option<DisplayMode>)
      returns (updated: bool)
      requires Valid()
      modifies this
      ensures Valid()
      ensures updated <==> (TruthyText(description) || displayMode.Some?) && categoryId in old(categories)
      ensures categories == if updated then old(categories)[categoryId := Updated(old(categories)[categoryId], description, displayMode)]
                            else old(categories)
      ensures topicLinks == old(topicLinks)
    {
      var kw: map<string, Assignment> := map[];
      if TruthyText(description) {
        kw := kw["description" := Text(description.value)];
      }
      if displayMode.Some? {
        kw := kw["display_mode" := Mode(displayMode.value)];
      }
      assert TruthyText(description) ==> "description" in kw;
      assert displayMode.Some? ==> "display_mode" in kw;
      if kw == map[] {
        return false;
      }
      var rowcount := 0;
      if categoryId in categories {
        categories := categories[categoryId := Assign(categories[categoryId], kw)];
        rowcount := 1;
      }
      return rowcount > 0;
    }

    /**
     * delete_by_id: the row goes (its categories_in_topic rows with it, by
     * ON DELETE CASCADE), then the category's cache entry is invalidated,
     * whether or not the row was there.
     */
    method DeleteById(categoryCache: EntityCache, categoryId: int)
      requires Valid() && categoryCache.kind == EntityType.Category && categoryCache.store.Valid()
      modifies this, categoryCache.store
      ensures Valid() && categoryCache.store.Valid()
      ensures categories == old(categories) - {categoryId}
      ensures topicLinks == set l | l in old(topicLinks) && l.1 != categoryId
      ensures var doomed := Doomed(old(categoryCache.store.sets), EntityType.Category, categoryId);
              && categoryCache.store.hashes == DeleteKeys(old(categoryCache.store.hashes), doomed)
              && categoryCache.store.counters == DeleteKeys(old(categoryCache.store.counters), doomed)
              && categoryCache.store.sets == DeletedSets(old(categoryCache.store.sets), EntityType.Category, categoryId)
    {
      categories := categories - {categoryId};
      topicLinks := set l | l in topicLinks && l.1 != categoryId;
      categoryCache.Delete(categoryId);
    }
  }

  /** The update never renames a category, and an empty description never clears one. */
  lemma UpdateKeepsName(row: CategoryRow, description: Option<string>, displayMode: Option<DisplayMode>)
    ensures Updated(row, description, displayMode).name == row.name
    ensures description == Some("") ==> Updated(row, description, displayMode).description == row.description
  {
  }

  /** Repeating an update changes nothing more. */
  lemma UpdateIdempotent(row: CategoryRow, description: Option<string>, displayMode: Option<DisplayMode>)
    ensures Updated(Updated(row, description, displayMode), description, displayMode) == Updated(row, description, displayMode)
  {
  }

  /**
   * After delete_by_id every key the category's cascade set listed is gone
   * along with the record, so a category cached before the delete no longer
   * reads back.
   */
  lemma DeletedCategoryNotCached(hashes: Hashes, sets: Sets, categoryId: int, k: string)
    requires k == PrimaryKey(EntityType.Category, categoryId) || k == CascadeKey(EntityType.Category, categoryId)
             || k in SetAt(sets, CascadeKey(EntityType.Category, categoryId))
    ensures k !in DeleteKeys(hashes, Doomed(sets, EntityType.Category, categoryId))
    ensures HashAt(DeleteKeys(hashes, Doomed(sets, EntityType.Category, categoryId)), PrimaryKey(EntityType.Category, categoryId)) == map[]
  {
  }
}
