# Tag-lifetime database cache backend, modelled in Dafny

`Jag_Cache_Backend_Database` is a database-backed cache backend for Magento and Zend_Cache. It
gives each tag association (a row `(tag, cache_id)` in the tag table) its own `expire_time`.
That lets an `OLD` clean remove stale associations as well as stale entries. This project
models the backend as a class `Backend.CacheBackend` with two in-memory tables:

- the **entry table** (`EntryStore.EntryTable`): a map from cache id to `(data, createTime,
  updateTime, expireTime)`. It is written only when the backend stores data (`store_data`).
- the **tag table** (`TagStore.TagTable`): a map from `TagKey(tag, cacheId)` to `expire_time`.
  Because it is a map, the pair is unique. Tags and ids compare as exact strings (see "## Left out").

The class has three operations:

- `Save` computes one `expire_time` from the lifetime argument and the clock. When data is stored,
  it upserts the entry: a new id gets all columns, an existing id gets new `data` and
  `expire_time` only. If the upsert reports no affected rows, `Save` returns false early. It then
  runs `SaveTagsWithLifetime`, which does the following:
  - it turns a single non-array tag into a one-element list;
  - it returns true at once for an empty list;
  - it computes the tags not yet stored for the id (PHP's `array_diff`, `TagStore.Difference`);
  - it inserts them one by one in a loop, ignoring a pair already present (the effect of
    `INSERT IGNORE`).
- `Clean` dispatches on the mode string:
  - `all` truncates the tag table, and the entry table when data is stored;
  - `old` deletes the rows with `0 < expire_time <= now` from the same tables;
  - the three tag-matching modes delegate to the inherited tag cleaner;
  - any other string raises the invalid-mode error (`InvalidMode`) and deletes nothing.

Each method is proved against a specification function (`Backend.SaveTagsSpec`,
`Backend.SaveSpec`, `Backend.CleanSpec`). The properties are lemmas about those functions, in
module `BackendProperties`.

Parameters and inputs:

- The clock is a parameter `now`. `OLD` mode reads the clock once for both deletions.
- The number of rows the entry upsert affected is a parameter `rowCount`.
- `store_data` and the configured default lifetime are constructor parameters. The source's
  constructor hard-codes `store_data` to false (lib/Jag/Cache/Backend/Database.php:24).
- `getLifetime` is modelled as save's doc comment describes it (line 53). PHP `false` selects
  the configured default (`UseDefault`). Anything else overrides it, and `null` means infinite.
- The mode strings are the values of the `Zend_Cache::CLEANING_MODE_*` constants: `all`, `old`,
  `matchingTag`, `notMatchingTag` and `matchingAnyTag`. Zend_Cache is not part of this model.
- The inherited `_cleanByTags` is a parameter of type `Backend.ByTagsCleaner`. It is a function
  that, given the tables, the mode and the tags, returns the entry ids it deleted and its result.
  When data is stored, this backend removes those ids from the entry table; it never touches the
  tag table in those modes, nor the entry table without stored data.

Where the code and its documentation differ, the model follows the code:

- With data stored, `clean(OLD)` returns whatever `$adapter->delete` on the entry table returns
  (lines 160 and 182). That value is the integer number of deleted rows, not `true`. It is truthy
  (a positive count) only when some entry was stale, even though the doc comment promises "true
  if no problem". The model keeps only that truthiness (`CleanOldResultIgnoresTags`).
- With data stored, an existing entry keeps its `update_time` when it is overwritten, because
  the `ON DUPLICATE KEY UPDATE` clause sets only `data` and `expire_time`.

## Model

| member | source | states |
|---|---|---|
| `Expiry.ExpireTime` | lib/Jag/Cache/Backend/Database.php:58-60 | the expire value is 0 exactly for an infinite or zero lifetime (or a lifetime that cancels the clock), and otherwise it is `now` plus the lifetime |
| `Expiry.UnboundedLifetimeNeverExpires` | lib/Jag/Cache/Backend/Database.php:58-60 | a resolved infinite or zero lifetime gives the sentinel 0, which is never expired at any time |
| `Expiry.PositiveLifetimeExpiresAfter` | lib/Jag/Cache/Backend/Database.php:58-60 | a positive lifetime counted from a non-negative clock is expired exactly from `now + n` on |
| `Expiry.StaleStaysStale` | lib/Jag/Cache/Backend/Database.php:159-170 | a row a sweep selects at `now` is selected by every sweep at a later clock, and a row with expire_time 0 (or below) is never selected |
| `EntryStore.Upsert` | lib/Jag/Cache/Backend/Database.php:68-78 | the id is in the result; its data and expire_time are the new ones; its create_time and update_time are kept if it existed and are `now` if not; other entries are unchanged |
| `EntryStore.Sweep` | lib/Jag/Cache/Backend/Database.php:159-163 | an entry survives exactly when it is not `0 < expire_time <= now`, and survivors are unchanged |
| `TagStore.Normalise` | lib/Jag/Cache/Backend/Database.php:96-101 | a single non-array tag becomes a one-element list and an array is kept, so only an empty array yields no tags |
| `TagStore.Difference` | lib/Jag/Cache/Backend/Database.php:111 | array_diff keeps an element exactly when it is not among the existing tags, with its multiplicity in the input |
| `TagStore.Sweep` | lib/Jag/Cache/Backend/Database.php:167-170 | a tag row survives exactly when it is not `0 < expire_time <= now`, and survivors are unchanged |
| `TagStore.WithTags` | lib/Jag/Cache/Backend/Database.php:112-123 | INSERT IGNORE never removes or rewrites a row: every existing row is still there with its expire_time |
| `TagStore.PairsCount` | lib/Jag/Cache/Backend/Database.php:116-121 | the inserted keys (tag, id) are as many as the distinct tags: one key per tag |
| `TagStore.WithTagsGrowth` | lib/Jag/Cache/Backend/Database.php:112-123 | no pair is stored twice: the insert adds exactly one row per given tag whose pair with the id is missing, and none for the others |
| `TagStore.MissingTags` | lib/Jag/Cache/Backend/Database.php:105-111 | the SELECT of stored tags followed by array_diff leaves exactly the given tags whose pair with the id is not stored, each with its multiplicity in the input |
| `TagStore.WithTagsRows` | lib/Jag/Cache/Backend/Database.php:112-123 | after INSERT IGNORE every given tag is associated with the id; existing rows keep their expire_time; each new row is a given tag for this id with the new expire_time |
| `TagStore.WithTagsInsertOne` | lib/Jag/Cache/Backend/Database.php:116-123 | inserting one more tag with INSERT IGNORE (add if absent, else leave) equals inserting the enlarged tag set |
| `TagStore.WithTagsSkipPresent` | lib/Jag/Cache/Backend/Database.php:105-111 | leaving out the tags whose pair is already stored does not change the insert's effect |
| `TagStore.WithTagsIdempotent` | lib/Jag/Cache/Backend/Database.php:113 | inserting the same tags again with any other expire value changes nothing |
| `Backend.ParseMode` | lib/Jag/Cache/Backend/Database.php:149-178 | a mode is selected exactly for the five Zend_Cache constants, and it is the mode that constant names |
| `Backend.SaveTagsSpec` | lib/Jag/Cache/Backend/Database.php:94-127 | after saving tags the keys are the old keys plus (tag, id) for every normalised tag; an old row keeps its expire_time and a new row has the given one |
| `Backend.SaveSpec` | lib/Jag/Cache/Backend/Database.php:56-85 | save succeeds exactly when data is not stored or the upsert affected a row; on failure nothing changes; on success the tag table and (with stored data) the entry table are written with the one computed expire_time; without stored data the entry table is untouched |
| `Backend.CleanSpec` | lib/Jag/Cache/Backend/Database.php:146-183 | clean raises the invalid-mode error exactly for unknown mode strings, and then changes nothing; in every mode it only deletes rows, never adding or rewriting one in either table |
| `Backend.CacheBackend.constructor` | lib/Jag/Cache/Backend/Database.php:18-33 | the backend starts over the given tables with the given `store_data` and default lifetime |
| `Backend.CacheBackend.Save` | lib/Jag/Cache/Backend/Database.php:56-85 | the new tables and the result are those of `SaveSpec`: one expire value; the upsert when data is stored; false with nothing changed when no row was affected; then the tag save |
| `Backend.CacheBackend.SaveTagsWithLifetime` | lib/Jag/Cache/Backend/Database.php:94-127 | returns true, leaves the entry table alone, and leaves the tag table as `SaveTagsSpec` says, by a loop over the missing tags |
| `Backend.CacheBackend.Clean` | lib/Jag/Cache/Backend/Database.php:146-183 | the new tables and the outcome are those of `CleanSpec` for every mode string |
| `BackendProperties.SaveSharesOneExpireTime` | lib/Jag/Cache/Backend/Database.php:58-83 | a successful save writes one expire value to the entry row and to every tag row it inserts, and it inserts rows only for this id |
| `BackendProperties.SaveLifetimeOverride` | lib/Jag/Cache/Backend/Database.php:53-60 | with a lifetime override, save does not depend on the configured default; with `false` it behaves exactly as an override equal to the default |
| `BackendProperties.SaveUpsertsEntry` | lib/Jag/Cache/Backend/Database.php:68-78 | with data stored, an existing id keeps create_time and update_time and gets the new data and expire_time; a new id gets `now` twice; other ids stay |
| `BackendProperties.SaveFailsWithoutAffectedRows` | lib/Jag/Cache/Backend/Database.php:78-81 | with data stored and zero affected rows, save returns false and both tables are unchanged |
| `BackendProperties.SaveWithoutDataKeepsEntries` | lib/Jag/Cache/Backend/Database.php:62 | without stored data, save succeeds and never changes the entry table |
| `BackendProperties.SaveTagsAssociatesEveryTag` | lib/Jag/Cache/Backend/Database.php:96-126 | every given tag ends up associated with the id; existing rows keep their expire_time; the only new rows are given tags for this id with the new expire_time; rows of other ids stay |
| `BackendProperties.SaveTagsEmptyAndSingle` | lib/Jag/Cache/Backend/Database.php:96-101 | an empty tag list changes nothing, and a single non-array tag behaves as a one-element list and gets associated |
| `BackendProperties.SaveTagsDuplicatesCollapse` | lib/Jag/Cache/Backend/Database.php:111-123 | tag lists with the same tags, repeated or reordered, have the same effect, so no pair is stored twice |
| `BackendProperties.SaveTagsDoesNotRefresh` | lib/Jag/Cache/Backend/Database.php:105-123 | saving the same tags again with another expire value leaves the tag table unchanged: associations are never refreshed |
| `BackendProperties.ResaveKeepsFirstTagExpiry` | lib/Jag/Cache/Backend/Database.php:56-127 | after saving k1 with tags t1 and t2 for 100 s, then saving k1 with t1 for 50 s, the entry holds v2 expiring at now+50, (t1, k1) keeps now+100, and (t2, k1) is still there |
| `BackendProperties.CleanAllEmpties` | lib/Jag/Cache/Backend/Database.php:150-157 | clean(all) returns true and empties the tag table; it empties the entry table exactly when data is stored and otherwise leaves it |
| `BackendProperties.CleanOldSweepsExactly` | lib/Jag/Cache/Backend/Database.php:158-170 | clean(old) removes exactly the rows with `0 < expire_time <= now` from the tag table, and from the entry table when data is stored; remaining rows in both tables are unchanged; without stored data the entry table is untouched |
| `BackendProperties.CleanOldResultIgnoresTags` | lib/Jag/Cache/Backend/Database.php:159-171 | the result of clean(old) does not depend on the tag table; it is true without stored data, and with stored data it is true exactly when some entry was stale |
| `BackendProperties.CleanByTagsKeepsTagTable` | lib/Jag/Cache/Backend/Database.php:172-176 | the three tag-matching modes return the delegate's result, remove the entries it reports exactly when data is stored (otherwise the entry table is untouched), and leave the tag table unchanged |
| `BackendProperties.CleanRejectsUnknownMode` | lib/Jag/Cache/Backend/Database.php:177-178 | any other mode string gives the invalid-mode error and changes neither table |
| `BackendProperties.ModeNamesParse` | lib/Jag/Cache/Backend/Database.php:150-174 | each of the five mode constants selects its own mode |
| `BackendProperties.UnboundedSaveSurvivesSweep` | lib/Jag/Cache/Backend/Database.php:58-170 | an entry and tag rows saved with an infinite or zero lifetime survive every later clean(old) |
| `BackendProperties.FiniteSaveSweptAfterLifetime` | lib/Jag/Cache/Backend/Database.php:58-170 | an entry and tag rows saved with a positive lifetime are removed by clean(old) exactly when its clock is at least the save's clock plus the lifetime |

## Left out

- The constructor's option handling and `getDbAdapter` (Magento singletons, table-name lookup). `store_data` and the default lifetime are constructor parameters instead of being hard-coded.
- The SQL itself: query strings, identifier quoting, and building `$lines` and `$bind`. The model keeps only each statement's effect on the tables. The insert loop applies `INSERT IGNORE` row by row, which has the same effect as the one multi-row statement.
- MySQL's affected-row counting for the upsert. It is the parameter `rowCount`. When it is 0 the model leaves the entry table as it was.
- CleanSpec: keeps only the truthiness of the integer row count that clean(OLD) returns with stored data (`Cleaned(true)` exactly when the count is positive), not the count itself, because callers use the result as a boolean.
- The result objects of `TRUNCATE` and of the tag-table `delete`. They are taken as truthy, and the tag-table deletion's result is discarded, as in the source.
- `_cleanByTags` and its id selection (MATCHING_TAG, NOT_MATCHING_TAG, MATCHING_ANY_TAG): inherited code that is not part of this model. It is an uninterpreted parameter, and any effect it has on the tag table is not modelled.
- `getLifetime` beyond its doc comment: the model does not show how Zend computes the default.
- The separate `time()` calls in `save` and in OLD mode: one `now` serves each call.
- PHP's loose `switch` comparison for non-string modes, PHP integer overflow of `time + lifetime`, and the unsigned 11-digit column type of `expire_time`. Times and lifetimes are unbounded integers in the model.
- Concurrency and statement atomicity, including the concurrent-insert race that `INSERT IGNORE` guards against. The model is sequential.
- The schema migration that adds `expire_time` and its index to the tag table. It is assumed: every tag row carries an `expire_time`.
- Database errors thrown as exceptions by the adapter. Only the invalid-mode exception is modelled.
- TagStore.TagKey: tags and cache ids compare as exact strings. The database compares them by the columns' collation, which may fold case and trailing spaces, and `INSERT IGNORE` cuts an over-long value to the column length. Neither is modelled, so with a case-insensitive key a tag differing from a stored one only in case gets a second row in the model but none in the database.
