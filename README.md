# yn-api entity cache and application parameters, in Dafny

This project models the core of yn-api, a FastAPI service for topics,
categories, tags and translation codes.

**The relation-aware entity cache.** `RedisEntityCache` keeps the following
in Redis, under keys of the form `<type>:<id>[:<related type>][:<suffix>]`:

- one flat hash per entity, where None is written as the string `"null"`;
- an access counter per entity, and one per entity and related type;
- a forward relation set per related type;
- one back-relation set;
- one cascade set.

The Redis keyspace is three maps: hashes, sets and integer counters. It is
held by the class `Keyspace.Store`. That class keeps Redis's rule that an
empty hash or set does not exist. Each `Cache.EntityCache` is one cache
instance over a shared store.

**The data-access code that drives the cache.** This is the tag,
translation-code and category queries. Each relational table is an abstract
map or set. The lookups follow a read-through promotion protocol:

1. count every access;
2. answer from the cache when the entity is there;
3. otherwise read the table;
4. write to the cache only once the count has reached the threshold.

Mutations write the table and then patch or invalidate the cache.

**The application parameters.**

- The value-type validator, and the recursive JSON flattener that builds
  parameter descriptions.
- The migration's own flattener, and the rows it inserts with their defaults.
- The parameter queries:
  - the visibility rule by user role;
  - the choice between the default and an overriding value;
  - the value rows that add and delete leave behind;
  - the default-value update;
  - the start-up insertion of known parameters.

**The edit-tag request validator**, "at least one field".

The files are:

| file | module | models |
|---|---|---|
| `wrappers.dfy` | `Wrappers` | Option and Result |
| `collections.dfy` | `Collections` | set-of-sequence helpers |
| `python.dfy` | `PyValue` | the Python values the loaders handle: truthiness, `== 1`, hashability, `dict.get` |
| `keys.dfy` | `Keys` | `_key` and the key builders, and why keys never collide |
| `keyspace.dfy` | `Keyspace` | the Redis commands the cache issues, as map updates |
| `cache.dfy` | `Cache` | `RedisEntityCache`, the encode/decode through the `"null"` sentinel, the read-through protocol, delete |
| `db_tag.dfy` | `DbTag` | `app/db/tag.py` |
| `db_translation_code.dfy` | `DbTranslationCode` | `app/db/translation_code.py` |
| `db_category.dfy` | `DbCategory` | `app/db/category.py` |
| `schema_tag.dfy` | `SchemaTag` | `EditTagRequst` and `at_least_one` |
| `ap_utils.dfy` | `ApUtils` | `validate_data` and `parse_parameters` |
| `ap_migration.dfy` | `ApMigration` | `parse_parameters_clean` and `upgrade` of the seeding migration |
| `ap_db.dfy` | `ApDb` | `app/db/application_parameter.py` |

Every awaited call becomes one step of a sequential method, because no two
requests interleave in the model. `CACHE_THRESHOLD` is a parameter,
`threshold`.

`set` issues `HSET` with the given fields only, so fields already in the
hash that the object does not name survive; `Cache.EchoLaw` states the merge.

## Model

| member | source | states |
|---|---|---|
| Keys.KeyExtendsPrimary | app/redis/cache.py:29-37 | every key built with a related type or a suffix starts with `key(id)` followed by `":"` |
| Keys.KeyInjective | app/redis/cache.py:29-37 | two keys are equal exactly when their type, id, related type and suffix are equal, provided no suffix contains `:` or equals a type name |
| Keys.PrimaryKeyInjective | app/redis/cache.py:40-41 | for one entity type, two ids give the same primary key if and only if they are equal |
| Keys.BackRelationKeyInjective | app/redis/cache.py:52-53 | for one entity type, two ids give the same back-relation key if and only if they are equal |
| Keys.DerivedKeysDistinct | app/redis/cache.py:40-53 | primary, cascade, relation, back-relation and count keys never coincide, whatever the types and ids |
| Keys.OwnerRelationKey | app/redis/cache.py:142 | `"<owner primary key>:<type>"`, as the delete cleanup builds it, is the owner's relation key for that type |
| Cache.EchoLaw | app/redis/cache.py:60-91 | after `set` over a hash, `get` returns a record with the old and new field names; each written field reads back, with None for None and for `"null"`; old fields not written are unchanged |
| Cache.SentinelCollision | app/redis/cache.py:61-65 | a field holding the string `"null"` is stored, and reads back, exactly as a field holding None |
| Cache.Promotion | app/db/tag.py:116-131 | below the threshold a lookup of an uncached row writes nothing; at the threshold it writes the row, and the next lookup is answered from the cache with the row as it reads back |
| Cache.MissingRowNotCached | app/db/tag.py:123-125 | a row the table lacks is answered with None and leaves the hashes unchanged |
| Cache.CacheHitIgnoresTable | app/db/tag.py:119-121 | a cached record is returned whatever the table and the count are, and it is the decoded hash |
| Cache.CleanupIsNoOp | app/redis/cache.py:139-143 | when every set member is a primary key, delete's cleanup loop removes nothing; the sets after delete are exactly the old sets minus the deleted keys |
| Cache.StaleInboundEdge | app/redis/cache.py:132-143 | an owner's relation set that held the deleted entity's key still holds it after delete |
| Cache.StaleMemberReadsEmpty | app/redis/cache.py:122-143 | after delete, the stale member is still listed, and its hash reads as empty |
| Cache.DeleteKeepsSideKeys | app/redis/cache.py:132-137 | the entity's back-relation set and relation sets, unless listed in its cascade, survive delete unchanged |
| Cache.DeleteUncachedIsNoOp | app/redis/cache.py:132-143 | deleting an entity with no primary, cascade or back-relation key changes no hash, set or counter |
| Cache.UnlinkedOwnerForgets | app/redis/cache.py:139-143 | with the cleanup removing the primary key, each owner listed in the back-relation set no longer lists the deleted entity |
| Cache.LinkFrame | app/db/tag.py:108-111 | adding a relation edge and its back-relation edge adds one member to each of the two sets and changes no other set |
| Cache.RelationSymmetry | app/redis/cache.py:106-119 | after linking, both directions hold, and linking twice equals linking once; after unlinking, neither direction holds and no other set changed |
| Cache.EntityCache.constructor | app/redis/cache.py:17-19 | the instance holds its entity type and store |
| Cache.EntityCache.Exist | app/redis/cache.py:56-57 | returns 1 exactly when some hash, set or counter has the key; for a relation key that means a non-empty set |
| Cache.EntityCache.Set | app/redis/cache.py:60-72 | HSETs the encoded record at `key(id)`, merging with the fields there; no set or counter changes |
| Cache.EntityCache.Get | app/redis/cache.py:75-91 | returns None exactly when no hash is at `key(id)`, and otherwise the decoded fields, `"null"` read as None |
| Cache.EntityCache.Incr | app/redis/cache.py:94-95 | raises the counter at the count key by exactly 1, from 0 when missing, and returns it; nothing else changes |
| Cache.EntityCache.AddCascade | app/redis/cache.py:98-103 | adds the related primary key to the cascade set and to no other set; it keeps every set member a primary key |
| Cache.EntityCache.AddRelation | app/redis/cache.py:106-111 | adds the related primary key to the relation set for that type, and to no other set |
| Cache.EntityCache.AddBackRelation | app/redis/cache.py:114-119 | adds the related primary key to the back-relation set, and to no other set |
| Cache.EntityCache.GetRelations | app/redis/cache.py:122-129 | one raw hash per member of the relation set, each member once; a member with no hash gives `{}` |
| Cache.EntityCache.Delete | app/redis/cache.py:132-143 | deletes `key(id)`, the cascade key and the keys in the cascade set; other sets as the cleanup leaves them (removing the cascade key) |
| Cache.EntityCache.DeleteUnlinking | app/redis/cache.py:132-143 | as `Delete`, but the cleanup removes `key(id)` from each owner's relation set |
| Cache.EntityCache.DeleteRemoving | app/redis/cache.py:132-143 | the delete and its cleanup loop for any stale member; the sets end up as in `Cache.SetsAfterDelete` |
| Cache.EntityCache.DeleteRelation | app/redis/cache.py:146-147 | removes exactly that member from that relation set; no other set, hash or counter changes |
| Cache.EntityCache.DeleteBackRelation | app/redis/cache.py:150-151 | removes exactly that member from the back-relation set; no other set, hash or counter changes |
| DbTag.TagTables.TopicsOfTag | app/db/tag.py:99-103 | lists each topic linked to the tag exactly once, and only those |
| DbTag.GetTagById | app/db/tag.py:116-131 | increments the tag's counter once and answers by the read-through protocol with the new count; a returned record is non-empty; no set changes |
| DbTag.CacheTopicOfTag | app/db/tag.py:108-111 | writes the topic's record, the tag→topic relation edge and the topic→tag back-relation edge |
| DbTag.PromoteTopic | app/db/tag.py:106-112 | one loop step: records and edges for the topics done so far, plus this one |
| DbTag.JoinedRows | app/db/tag.py:99-113 | the rows returned are exactly the records of the topics linked to the tag |
| DbTag.LoadTopicsOfTag | app/db/tag.py:99-113 | returns every linked topic's record, one per topic; it writes nothing when not promoting, and when promoting each topic gets its record and both edges |
| DbTag.GetTopicsListByTag | app/db/tag.py:91-113 | increments `tag:<id>:topic:count`; answers from the cache iff the count reached the threshold and the relation set is non-empty; otherwise returns the table rows, one per linked topic, promoting them only at the threshold |
| DbTag.CachedCopyAgrees | app/db/tag.py:50-75 | the patched row and the patched cached copy agree unless an empty-string field is given that the copy did not already hold |
| DbTag.EditTag | app/db/tag.py:50-75 | an empty request changes nothing; a name longer than 100 characters or held by another tag fails with the row and the cache untouched (tags.name is String(100) and unique); otherwise the non-None fields update the row, and the cache is patched with the truthy fields only if the tag's key exists |
| DbTag.CacheAttachedTag | app/db/tag.py:146-149 | when the topic's tag relation set exists, writes the tag and both edges; otherwise nothing |
| DbTag.AttachTagToTopic | app/db/tag.py:133-152 | a missing tag raises TagNotExists and writes no link or edge; otherwise it inserts the link unless present and returns whether it inserted; edges are added only when the topic's set exists |
| DbTag.DetachTagFromTopic | app/db/tag.py:155-172 | a missing tag raises; otherwise the link goes and both edges are removed unconditionally; the result says whether the link existed |
| DbTag.DeleteTag | app/db/tag.py:40-47 | removes the tag and its links; returns whether the tag existed; invalidates the cache either way |
| DbTag.DeletedTagStillListed | app/db/tag.py:40-47 | after deleting a tag, a topic's tag relation set still lists it, while its hash reads empty |
| DbTranslationCode.Dump | app/schema/translation_code.py:14-17 | a translation code's record is non-empty |
| DbTranslationCode.TranslationTables.GetUsed | app/db/translation_code.py:35-40 | the number of topic translations using the code; 0 exactly when none does |
| DbTranslationCode.TranslationTables.CreateTranslationCode | app/db/translation_code.py:42-52 | fails, with the table unchanged, iff the code is longer than 2 or the full name longer than 100 characters (the String(2) and String(100) columns), even when the code is taken; otherwise returns None iff the code is taken, and a new id with the row when it is free; the serial advances in every case |
| DbTranslationCode.TranslationTables.DeleteTranslationCode | app/db/translation_code.py:55-71 | deletes, returning true, iff the row exists and no topic translation uses it; otherwise nothing changes |
| DbTranslationCode.TranslationTables.DeleteTranslationCodeEvicting | app/db/translation_code.py:55-71 | as `DeleteTranslationCode`, and a deleted code's cache keys are deleted too |
| DbTranslationCode.GetTranslationCodeById | app/db/translation_code.py:18-32 | increments the counter once and answers by the read-through protocol over the table's records with the new count; no set changes |
| DbTranslationCode.DeletedCodeStillServed | app/db/translation_code.py:55-71 | once a code was cached, deleting its row leaves lookups answered with the deleted record |
| DbTranslationCode.EvictedCodeNotServed | app/db/translation_code.py:55-71 | with eviction, a deleted code's lookup answers None and caches nothing |
| DbCategory.CategoryTables.constructor | app/db/category.py:46-72 | empty tables |
| DbCategory.CategoryTables.UpdateCategory | app/db/category.py:46-64 | updates, returning true, iff the description or the display mode is truthy and the category exists; only the truthy fields are written |
| DbCategory.CategoryTables.DeleteById | app/db/category.py:66-72 | removes the category and its topic links, then invalidates the cache whether or not the row existed |
| DbCategory.UpdateKeepsName | app/db/category.py:47-52 | an update never changes the name, and an empty description never overwrites one |
| DbCategory.UpdateIdempotent | app/db/category.py:46-64 | applying the same update twice equals applying it once |
| DbCategory.DeletedCategoryNotCached | app/db/category.py:72 | after deletion the category's primary and cascade keys are gone, and its hash reads empty |
| SchemaTag.AtLeastOne | app/schema/tag.py:11-15 | accepts iff name or description is present and truthy, then returns the values unchanged; otherwise fails with the ValueError message |
| SchemaTag.TextField | app/schema/tag.py:8-9 | a field typed str-or-None with no default must be present and None or a str |
| SchemaTag.AcceptedRequestHasField | app/schema/tag.py:7-15 | an accepted request carries a non-empty name or description |
| SchemaTag.NameAloneAccepted | app/schema/tag.py:7-15 | a request whose name is a non-empty str passes the validator whatever else it holds; with the description None it yields the name alone, with the description absent it fails on that field |
| SchemaTag.DescriptionAloneAccepted | app/schema/tag.py:7-15 | a request whose description is a non-empty str passes the validator whatever else it holds; with the name None it yields the description alone, with the name absent it fails on that field |
| SchemaTag.FalsyFieldsRefused | app/schema/tag.py:13-14 | missing, None or empty name and description are refused with the ValueError |
| ApUtils.ValidateData | app/utils/application_parameter.py:24-55 | raises only for a url check on a truthy non-str; string always passes and an unknown type never does; a passing url has a non-empty scheme and netloc |
| ApUtils.TextPassesOnlyStringOrUrl | app/utils/application_parameter.py:24-55 | a str value validates only as a string or a url |
| ApUtils.BoolIsInteger | app/utils/application_parameter.py:29-33 | a bool passes the integer check, and an int does not pass the bool check |
| ApUtils.ParseType | app/utils/application_parameter.py:79-80 | accepts exactly the type values; an unhashable value raises TypeError rather than ValueError |
| ApUtils.ParseVisibility | app/utils/application_parameter.py:85-86 | accepts exactly the visibility values; an unhashable value raises TypeError |
| ApUtils.ParseKind | app/utils/application_parameter.py:82-83 | accepts exactly the known kinds; an unhashable value raises TypeError |
| ApUtils.Leaf | app/utils/application_parameter.py:71-94 | an incomplete leaf raises; an accepted one is named by its path; an empty-string default becomes None and other defaults are kept |
| ApUtils.ParseEntry | app/utils/application_parameter.py:64-69 | a value that is not a dict raises ValueError |
| ApUtils.ParseParameters | app/utils/application_parameter.py:58-96 | the loop with its recursion gives the depth-first flattening in key order |
| ApUtils.PrependAssoc | app/utils/application_parameter.py:58-96 | appending and then extending builds one list, in order |
| ApUtils.ParsedNamesArePaths | app/utils/application_parameter.py:58-96 | the names produced are the dot-joined paths of the leaves, depth-first in key order |
| ApUtils.ParsedDefaultsNotEmpty | app/utils/application_parameter.py:92 | no produced parameter has an empty-string default |
| ApUtils.ParsedValuesAreDicts | app/utils/application_parameter.py:64-69 | a successful parse saw only dicts |
| ApMigration.CleanEntry | alembic/versions/ac999daw99dw_init_application_parameter.py:19-28 | a leaf dict maps its path to itself without `"parameter"`; a non-dict has no `.items()` |
| ApMigration.MergeAssoc | alembic/versions/ac999daw99dw_init_application_parameter.py:22-28 | item assignments and `update`s compose into one map update in order |
| ApMigration.ParseParametersClean | alembic/versions/ac999daw99dw_init_application_parameter.py:14-30 | the loop with its recursion computes the flattening `Clean` |
| ApMigration.LaterEntriesWin | alembic/versions/ac999daw99dw_init_application_parameter.py:19-30 | for any dict and any split of its entries, every path the later entries yield keeps the later entries' fields in the whole result |
| ApMigration.LaterDuplicateWins | alembic/versions/ac999daw99dw_init_application_parameter.py:23-25 | the collision the dot-joined paths allow: a nested `x`/`y` leaf followed by a literal `"x.y"` leaf give one path, holding the later leaf's fields |
| ApMigration.RowFor | alembic/versions/ac999daw99dw_init_application_parameter.py:44-52 | a missing type, visibility or kind defaults to `"str"`, `"public"` or None; a present one, even null, is kept |
| ApMigration.Upgrade | alembic/versions/ac999daw99dw_init_application_parameter.py:33-52 | inserts one row per cleaned parameter, all or none: it fails iff cleaning fails, some row's kind, type or visibility is null or longer than the 20 characters its column holds, or some name is already in the table (the unique name); on success the rows are exactly the cleaned parameters with their defaults |
| ApMigration.NullTypeNotDefaulted | alembic/versions/ac999daw99dw_init_application_parameter.py:50 | an explicit null type is not replaced by `"str"` and the row is refused (on `type` when the kind fits its column), while a missing one is defaulted and, with a kind of at most 20 characters, the row is accepted |
| ApMigration.AcceptedLeafInserts | alembic/versions/ac999daw99dw_init_application_parameter.py:44-52 | a leaf the service's parser accepts, with a kind of at most 20 characters, gives a row that violates no NOT NULL or length constraint |
| ApMigration.FlattenersAgree | alembic/versions/ac999daw99dw_init_application_parameter.py:14-30 | whatever the service's parser accepts, the migration also flattens: to the same leaf paths, with rows that violate no column constraint when every accepted kind has at most 20 characters |
| ApMigration.EntryAgrees | alembic/versions/ac999daw99dw_init_application_parameter.py:19-28 | the same agreement for a single value, under the same 20-character bound on kinds |
| ApDb.UserView | app/db/application_parameter.py:70-100 | None iff the reader may not see the parameter, a visibility text outside the enum hiding it from no known non-zero user; otherwise the override row's value when it overrides, else the default, typed by the AP_type member the type text names; a non-str value or a type text outside the enum fails validation |
| ApDb.VisibilityRules | app/db/application_parameter.py:78-93 | public is seen by all; without a known non-zero user only public; protected iff moderator or admin; private iff admin; a visibility text outside the enum iff the user is known and non-zero |
| ApDb.OutOfEnumRows | app/db/application_parameter.py:78-99 | on rows only the seeding migration can write, an unknown visibility is shown to every known non-zero user, and an unknown type makes every permitted read a validation error |
| ApDb.WriteKeepsOneOverride | app/db/application_parameter.py:114-123 | writing a row keeps at most one overriding row per parameter |
| ApDb.Added | app/db/application_parameter.py:103-126 | exactly one overriding row carries the new value; no row of the parameter is lost; rows of other parameters are untouched; without an override row a new row is inserted |
| ApDb.Deleted | app/db/application_parameter.py:129-138 | ValueError iff no row; MultipleResultsFound iff more than one; otherwise the row stops overriding, its value emptied only with `wipe` |
| ApDb.DeletedShowsDefault | app/db/application_parameter.py:129-138 | after a delete, readers are given the default |
| ApDb.AddedValueIsShown | app/db/application_parameter.py:95-123 | after an add, every reader who may see the parameter is given the added value, or a validation error when the type text is outside the enum |
| ApDb.ReAddedValueCannotBeDeleted | app/db/application_parameter.py:103-138 | add, delete, add, delete fails with MultipleResultsFound |
| ApDb.AddedReusing | app/db/application_parameter.py:103-126 | the corrected add: the parameter ends with one row, which overrides with the new value; other parameters are untouched |
| ApDb.WriteKeepsOneRow | app/db/application_parameter.py:114-123 | writing over the parameter's only row keeps one row per parameter |
| ApDb.DeleteNeverAmbiguous | app/db/application_parameter.py:129-138 | with one row per parameter a delete never raises MultipleResultsFound, and keeps one row per parameter |
| ApDb.ReAddedValueIsDeleted | app/db/application_parameter.py:103-138 | with the corrected add, add, delete, add, delete succeeds |
| ApDb.ParameterTables.constructor | app/db/application_parameter.py:152-166 | empty tables over the given users |
| ApDb.ParameterTables.Named | app/db/application_parameter.py:18-22 | the row with that name, None iff no row has it |
| ApDb.ParameterTables.Joined | app/db/application_parameter.py:44-67 | the outer join finds a value row iff the parameter has an overriding one |
| ApDb.ParameterTables.FindByName | app/db/application_parameter.py:18-22 | finds the row with the name, or None |
| ApDb.ParameterTables.JoinedRow | app/db/application_parameter.py:57-67 | the value row the outer join picks |
| ApDb.ParameterTables.UserGetApplicationParameter | app/db/application_parameter.py:70-100 | None for an unknown name; otherwise `UserView` of the parameter and its joined row |
| ApDb.ParameterTables.AddApplicationParameterValue | app/db/application_parameter.py:103-126 | NotFound iff no such parameter; ValueError iff the value does not validate; otherwise the rows become `Added` and the one override row holds the value |
| ApDb.ParameterTables.AddApplicationParameterValueReusing | app/db/application_parameter.py:103-126 | the corrected add: the rows become `AddedReusing`, keeping one row per parameter |
| ApDb.ParameterTables.DeleteApplicationParameterValue | app/db/application_parameter.py:129-138 | the rows become `Deleted`, or stay unchanged with its error; with one row per parameter it never raises MultipleResultsFound |
| ApDb.ParameterTables.SetDefaultValue | app/db/application_parameter.py:141-149 | an unknown name raises AttributeError; a value failing validation raises ValueError; otherwise the default becomes the value's text, so a str default is stored as itself |
| ApDb.ParameterTables.InitAp | app/db/application_parameter.py:152-166 | every known name ends up present; existing rows are kept; a row is inserted only for a name not yet present, and it is the first parameter in the list with that name; when all are present nothing changes |

## Left out

- Async I/O, Redis pipelining and concurrent requests: every request is one sequential run over the maps.
- The `print` at app/redis/cache.py:89: it is output only.
- Redis WRONGTYPE errors: every key is used with one kind of value.
- Pydantic's `model_dump` and `model_validate` are the identity on records. A record is a map from field name to an optional string, and type coercion is not modelled.
- SQL, ORM objects and commits: each table is a map or set. `delete_tag`'s missing commit at app/db/tag.py:40-47 is not modelled.
- The `EntityType` enum is not part of this model. `Keys.EntityType` uses the type names `topic`, `category`, `tag`, `translation` and `topic-translation`.
- The `AP_type` and `AP_visibility` enums and the ORM mapping of application_parameters are not part of this model. Their value strings are assumed, and the type and visibility columns are read as their text and compared with those values. The known `AP_kind` names are the parameter `kinds`.
- `urlparse` is the parameter `urlparse`, a total function: the ValueError the library raises on a malformed str such as `"http://[::1"`, which add and set_default_value would propagate, is not modelled. A float's, datetime's or UUID's run-time type is carried by the value's tag.
- uuid4 and serial ids: each is the next value of a counter.
- ApDb.ParameterTables.SetDefaultValue: `str(value)` is the parameter `rendered`, tied to the value only for a str (where it is the str itself); the text Python gives other values is not modelled.
- ApMigration.Upgrade: the result is a map from name to row, so the order of the inserts is not modelled.
- ApMigration.Upgrade: a kind, type or visibility that is not text (a number, a list) is stored or refused by the database driver's type adaptation, which is not modelled; only null and over-long text are refused.
- DbTag.EditTag: the caller's tag object is not mutated. The cache is written from a patched copy.
- DbTag.EditTag: the unique and length constraints on the name are checked only when the tag exists; an UPDATE that matches no row raises nothing.
- DbTag.GetTopicsListByTag: a cache answer is stated as a list of hashes of the relation set's members, not as their order.
- The length limit of translation codes (app/schema/translation_code.py:4) is left to request validation.
- Routers, `get_tags_list`, `get_all_tags_list`, `create_tag`, `get_translation_code_list`, and the category create and exists queries: they are not part of the core.
- ApDb.UserView: a default stored as a non-text value fails with ValidationError, where the driver would have returned its text.
- DbTranslationCode.TranslationTables.CreateTranslationCode: the id sequence is taken to advance even when the INSERT raises on an over-long field, as the id default is computed before the column values are checked.

## Findings

| source | as written | input that shows it | evidently intended | confidence | as-written member | corrected member |
|---|---|---|---|---|---|---|
| app/redis/cache.py:139-143 | the cleanup removes `cascade_key(id)` from each owner's relation set, but those sets only hold primary keys | link topic 1 to tag 2, then delete tag 2: `topic:1:tag` still lists `tag:2` | remove `key(id)`, so owners forget the deleted entity | high, not executed | Cache.StaleInboundEdge | Cache.EntityCache.DeleteUnlinking |
| app/db/translation_code.py:55-71 | the row is deleted but `translation_cache` is not invalidated, unlike `delete_tag` and `delete_by_id` | cache code 1, delete it, then look it up: the deleted record is returned | delete the cache entry after the row | medium, not executed | DbTranslationCode.DeletedCodeStillServed | DbTranslationCode.TranslationTables.DeleteTranslationCodeEvicting |
| app/db/application_parameter.py:103-138 | add's outer join only sees overriding rows, so after a delete a re-add inserts a second row for the parameter | add v, delete, add w, delete: the last delete raises MultipleResultsFound | reuse the parameter's existing row | high, not executed | ApDb.ReAddedValueCannotBeDeleted | ApDb.ParameterTables.AddApplicationParameterValueReusing |
