# mongo_odm, modelled in Dafny

This project models the core of `mongo_odm`, a small object-document mapper
over MongoDB, and proves properties of the model. The core's pieces are:

- the collection configuration. Declaration files become `Field`, `Index`
  and `Collection` records, and the model class of each collection is
  resolved.
- the store session. It assembles the connection parameters and provisions
  a configured collection and its indices.
- the document repository `MongoDocRepo`: point writes and their fallbacks,
  unordered bulk writes, counting and existence, projections, field reads,
  distinct counts, id listings, and the two-worker parallel scan.
- the object repository `MongoObjRepo` and `MongoRepo`. Reads come back
  wrapped in the collection's model.
- the repository registry `MongoRepos`, a memo table keyed by collection
  name.
- the change-detection bookkeeping of `MongoBase`: a content hash over the
  non-bookkeeping fields, and an `updated_at` timestamp that moves when the
  hash changes.
- the stream and string helpers `chunks`, `iter_counter`, `__formatted` and
  `__clean_directory_name`.

The MongoDB server is the class `Session.Store`. It holds the collections of
every database, keyed by (database, collection) name. A collection is a
Python-style dict of documents keyed by `_id` (`Mongo.Coll`), whose insertion
order is the natural order of unsorted queries. The effect of every driver
call is a function of module `Mongo`. The repositories are classes whose
methods change the store and are proved against those functions. Query
filters are predicates on documents: `None` and `{}` are `MatchAll()`, and
`{'_id': id}` is `IdIs(id)`. Three things are parameters:

- the order in which the server sorts (`Store.arrange`);
- the library's content hash (`MongoBase.hash`);
- the clock (`Models.Clock`).

A generated `ObjectId` is `Oid(n)` from a counter in the store. A bulk
insert reserves one id per document.

Modules, one per file: `Values` (field values, errors, `str(int)`),
`Dicts` (insertion-ordered dicts), `Utils`, `Config`, `Mongo` (the driver
and server semantics the repository relies on), `Session`, `Scan` (the
parallel scan), `Repo`, `Repos` and `Models`.

Three behaviours of the code a reader may not expect:

- The ascending worker of the parallel scan takes `total // 2` documents
  (floor, not ceiling), and the descending worker takes the rest.
- A collection name declared twice keeps its last declaration silently, at
  the dict position of its first. It is not a startup error.
- `get_model` falls back to `Base` only when the module is not found. A
  missing class is an AttributeError, and a name without a dot gives an
  empty module path, which cannot be imported (ValueError).

Other modelling choices:

- `field_name is not '_id'` (repo.py:268) is modelled as string
  inequality.
- An empty projection, and an empty list of field names, are sent to the
  server as `{'_id': True}`.
- A write that reaches a missing collection creates it, unless it leaves
  the collection empty and without indices (`Session.Stored`).
- A unique index (a `create_index` call whose `unique` is truthy) refuses a
  write that would give two documents the same key in it. The key of a
  document is the value of each indexed field, null where the field is
  missing.
- The server's sort (`Store.arrange`) may order matches in any way, but it
  neither drops nor duplicates one (`Mongo.Arranges`, part of
  `Store.Valid`).

## Model

| member | source | states |
|---|---|---|
| Values.DecimalDigitsRoundTrip | mongo_odm/models/base.py:30 | the decimal digits `str` renders for a number read back as that number, so the stored hash text is a faithful rendering of the hash |
| Values.IntStr | mongo_odm/models/base.py:30 | `str(i)` is non-empty and starts with `-` exactly for a negative number |
| Dicts.Set | mongo_odm/config/config.py:79 | `d[k] = v` maps k to v, keeps every earlier key in its position, and appends k only when it is new |
| Dicts.SetAllLastWins | mongo_odm/config/config.py:79-82 | after a series of assignments, a key holds the value of its last assignment |
| Dicts.SetAllKeys | mongo_odm/config/config.py:79-82 | after a series of assignments, the keys are the old keys plus every assigned key |
| Utils.ChunksOfShape | mongo_odm/utils/utils.py:69-72 | for n >= 2 the chunks concatenate back to the input, each has 1 to n elements, all but the last have exactly n, and empty input gives no chunk |
| Utils.Chunks | mongo_odm/utils/utils.py:65-72 | the generator loop yields ChunkSeq: with n == 1 one chunk holding the whole input (even when empty), with n < 1 a ValueError |
| Utils.ChunkSeqConcat | mongo_odm/utils/utils.py:65-72 | whatever `chunks` yields concatenates back to its input |
| Utils.EffectiveStep | mongo_odm/utils/utils.py:46-48 | the print step is the requested one, or `total` when `total` is truthy and smaller |
| Utils.IterCounter | mongo_odm/utils/utils.py:40-58 | the values pass through unchanged and in order; after chunk i the progress line reports `i * step`, with the `/total` suffix when total is truthy |
| Utils.FormattedGroupsDigits | mongo_odm/utils/utils.py:61-62 | for a non-negative number: removing the spaces gives its decimal digits, a space stands exactly at every fourth position from the right (groups of three), and the text starts with a digit |
| Utils.CleanDirectoryName | mongo_odm/utils/utils.py:18-19 | the result is the input or the input without one trailing `/`, and it is shorter exactly when the input ends with `/` |
| Utils.CleanDirectoryNameOnce | mongo_odm/utils/utils.py:18-19 | only one slash is removed: a path ending in `//` keeps one |
| Config.OrderOf | mongo_odm/config/config.py:40-41 | `ORDERS` maps `asc` to 1 and `desc` to -1; any other key is a KeyError (TypeError for an unhashable one) |
| Config.FieldOf | mongo_odm/config/config.py:48-53 | a field gets its `name` and the index-level order, looked up again for each field, and an order error comes first |
| Config.AsList | mongo_odm/config/config.py:46-48 | a `for` loop over a list visits its items, over a string its one-character strings, over an empty mapping nothing; any other value is a TypeError |
| Config.IndexOf | mongo_odm/config/config.py:47-56 | succeeds exactly when the index is a mapping whose `fields` iterates, every field is a mapping with a `name`, and the index-level `order` is valid whenever there is a field; then one Field per entry of `fields`, in order, all with that direction; `unique` defaults to False and `name` to None |
| Config.IndicesOf | mongo_odm/config/config.py:44-58 | succeeds exactly when the collection is a mapping and a present `indices` iterates with every entry a valid index; then one Index per entry, in order, and none when the key is missing |
| Config.IndexDirections | mongo_odm/config/config.py:49-53 | every field of an index is ascending or descending: ascending without an index `order`, else `ORDERS[order]`; per-field `order` keys play no part |
| Config.BadOrderCheckedPerField | mongo_odm/config/config.py:48-53 | a bad index `order` goes unnoticed on an index without fields and fails on any other |
| Config.BuildIndex | mongo_odm/config/config.py:47-56 | the inner loop builds exactly IndexOf |
| Config.Indices | mongo_odm/config/config.py:44-58 | the outer loop builds exactly IndicesOf |
| Config.LastSegment | mongo_odm/config/config.py:62 | `split('.')[-1]` is the longest suffix without a dot, preceded by a dot when shorter than the input |
| Config.RStrip | mongo_odm/config/config.py:63 | `rstrip(chars)` drops exactly the trailing characters that occur in `chars` |
| Config.ModulePathDotted | mongo_odm/config/config.py:62-63 | for a dotted name, the computed module path and type are everything before and after the last dot |
| Config.ModulePathUndotted | mongo_odm/config/config.py:62-63 | for a name without a dot, the module path is empty and the type is the whole name |
| Config.GetModel | mongo_odm/config/config.py:61-68 | a model value that is not a string has no `split` (AttributeError) |
| Config.GetModelDotted | mongo_odm/config/config.py:61-68 | `a.b.C` resolves class C in module `a.b`, with the fallback to Base for a missing module |
| Config.GetModelUndotted | mongo_odm/config/config.py:61-68 | a model name without a dot fails with ValueError |
| Config.CollectionOf | mongo_odm/config/config.py:75-82 | succeeds exactly when the model resolves (the db-level one when there is one, else the collection's own), the indices parse and `name` is a string, and a model error comes first; then a record of its db, its indices and that model |
| Config.ModelOverride | mongo_odm/config/config.py:75-78 | a db-level `model` overrides the model of every collection of that db |
| Config.CollectionFoldIsSetAll | mongo_odm/config/config.py:74-82 | the loop over one db's collections assigns that db's declared entries in order, and fails exactly when one is malformed |
| Config.AllCollectionsIsSetAll | mongo_odm/config/config.py:71-83 | `all_collections` succeeds exactly when every declaration is well formed, and is then the in-order assignment of all declared entries |
| Config.DeclaredDbNames | mongo_odm/config/config.py:79-80 | every record names a db it was declared in |
| Config.CollectionsLastDeclarationWins | mongo_odm/config/config.py:79-82 | a name declared more than once keeps its last declaration, silently |
| Config.CollectionsNames | mongo_odm/config/config.py:71-83 | the registry is a valid dict whose names are exactly the declared ones |
| Config.CollectionEntry | mongo_odm/config/config.py:75-82 | the loop body computes exactly CollectionOf |
| Config.AddDb | mongo_odm/config/config.py:74-82 | the inner loop computes the fold over the db's collections |
| Config.AllCollections | mongo_odm/config/config.py:71-83 | the loop over the items of DBS computes AllCollectionsOf |
| Config.DbKey | mongo_odm/config/config.py:19 | the DBS key is the basename without its last five characters, and contains no `/` |
| Config.DbKeyOfConfigFile | mongo_odm/config/config.py:19 | the file `<dir>/<name>.yaml` gives the key `name` |
| Config.DbEntries | mongo_odm/config/config.py:13-19 | one (key, parsed file) pair per file, in file order |
| Config.BuildDbs | mongo_odm/config/config.py:13-19 | DBS is a valid dict: the in-order assignment of those pairs |
| Mongo.CountIsFoundLength | mongo_odm/repos/repo.py:256-259 | the count of a filter is the number of documents a find with it returns |
| Mongo.CountAll | mongo_odm/repos/repo.py:256-259 | with no filter the count is the size of the collection, and the find returns every document in natural order |
| Mongo.CountId | mongo_odm/repos/repo.py:250-251 | the count of `{'_id': id}` is 1 when a document is stored under id, else 0 |
| Mongo.IndexKey | mongo_odm/session/session.py:56-63 | a document's key in an index has one entry per indexed field: the field's value, or null when the document lacks it |
| Mongo.InsertOneOutcome | mongo_odm/repos/repo.py:204-205 | insert fails with DuplicateKeyError exactly when the (given or generated) id is taken or a unique index holds the document's key for another document; otherwise it appends the document under its id |
| Mongo.ReplaceById | mongo_odm/repos/repo.py:351-353 | a replace keeps the set of ids; it fails exactly when it would change a stored document's `_id` (WriteError) or would give it a key a unique index holds for another document (DuplicateKeyError) |
| Mongo.ReplaceOne | mongo_odm/repos/repo.py:207-209 | a document without `_id` is a KeyError; one whose id is not stored changes nothing |
| Mongo.WithId | mongo_odm/repos/repo.py:211-215 | after the insert attempt the document carries its `_id`, the given one or the generated one, and every other field as it was |
| Mongo.InsertOrReplaceStores | mongo_odm/repos/repo.py:211-215 | unless a unique index holds the doc's key for another document, insert-or-replace succeeds: exactly one stored document has the doc's id, it equals the doc, and every other document is unchanged |
| Mongo.InsertOrReplaceClash | mongo_odm/repos/repo.py:211-215 | when a unique index holds the doc's key for another document, a stored id fails with DuplicateKeyError, and an id that is not stored makes the replace match nothing, so nothing changes and nothing is raised |
| Mongo.UpdateSet | mongo_odm/repos/repo.py:200-202 | with no match and no upsert nothing changes; otherwise the update fails with WriteError exactly when it would change `_id`, and else with DuplicateKeyError exactly when a unique index holds the updated document's key for another document |
| Mongo.UpdateSetMerges | mongo_odm/repos/repo.py:200-202 | `$set` gives the document every field of the update and keeps its other fields; an upserted one holds the update and its id; other documents are unchanged |
| Mongo.InsertAll | mongo_odm/repos/repo.py:217-221 | every insert of the unordered batch either succeeds or fails, and the index calls stay as they were |
| Mongo.InsertAllStores | mongo_odm/repos/repo.py:217-221 | on a collection without a unique index, after the batch every document's id is stored, and it holds that document unless the id was taken before or earlier in the batch |
| Mongo.InsertAllIds | mongo_odm/repos/repo.py:217-221 | an id that the batch neither carries nor generates is stored after it exactly when it was stored before |
| Mongo.BulkInsertResult | mongo_odm/repos/repo.py:217-221 | the bulk write raises BulkWriteError with the number of failed inserts exactly when one fails, and otherwise reports every insert |
| Mongo.UpdateAll | mongo_odm/repos/repo.py:223-231 | every upserting update of the batch matches, upserts or is refused by a unique index |
| Mongo.UpdateAllNoUnique | mongo_odm/repos/repo.py:223-231 | on a collection without a unique index no update of the batch is refused |
| Mongo.BulkUpdateResult | mongo_odm/repos/repo.py:223-231 | the bulk write raises BulkWriteError with the number of refused updates exactly when one is refused, and otherwise reports the matched and upserted counts |
| Mongo.UpdateAllSets | mongo_odm/repos/repo.py:223-231 | after a batch with no refused update, each document's id is present with the document's fields set and its other old fields untouched (ids distinct in the batch) |
| Mongo.UntouchedById | mongo_odm/repos/repo.py:223-231 | a document whose id the batch does not mention is unchanged |
| Mongo.DeleteMany | mongo_odm/repos/repo.py:233-236 | exactly the matching documents are removed, and the rest are unchanged |
| Mongo.FirstMatchExists | mongo_odm/repos/repo.py:238-239 | the first match in natural order is absent exactly when nothing matches |
| Mongo.DeleteOne | mongo_odm/repos/repo.py:238-239 | the deleted count is 1 when something matches, else 0 |
| Mongo.DeleteOneRemovesFirst | mongo_odm/repos/repo.py:238-239 | delete_one removes exactly the first matching document in natural order |
| Mongo.Window | mongo_odm/repos/repo.py:165-171 | skip drops a prefix; a limit of 0 is unlimited, and a negative one counts by its magnitude |
| Mongo.ApplyProjection | mongo_odm/repos/repo.py:165-171 | a projected document keeps only fields of the document, keeps every included one, and drops every excluded one |
| Mongo.Find | mongo_odm/repos/repo.py:152-186 | a negative skip is a ValueError; find fails exactly then or for a projection that mixes inclusion and exclusion; otherwise it returns the window of the matches in natural or sorted order, each projected |
| Mongo.FindSortedKeepsMatches | mongo_odm/repos/repo.py:152-186 | a sorted find without skip, limit or projection returns each match exactly once |
| Mongo.FindOne | mongo_odm/repos/repo.py:197-198 | find_one finds nothing exactly when nothing matches, and otherwise the first match in natural order, a stored matching document |
| Mongo.Distinct | mongo_odm/repos/repo.py:253-254 | a value is distinct-listed exactly when some match has it under the key, with arrays flattened |
| Mongo.FieldProjection | mongo_odm/repos/repo.py:267-269 | the projection includes the field and is a valid inclusion projection |
| Mongo.FieldProjectionKeeps | mongo_odm/repos/repo.py:267-272 | the projection leaves the field alone, and nothing when the document lacks it |
| Mongo.FieldValuesMeaning | mongo_odm/repos/repo.py:261-275 | field_values yields the field of every match in natural order, and raises KeyError(field) exactly when some match lacks it |
| Mongo.CountDistinctBounds | mongo_odm/repos/repo.py:277-289 | the distinct count is None exactly for an empty collection, and otherwise between 1 and the number of documents |
| Mongo.IdProjectionKeepsId | mongo_odm/repos/repo.py:297-298 | `{'_id': True}` leaves only the id |
| Mongo.AllIdsInOrder | mongo_odm/repos/repo.py:291-305 | all_ids gives the ids in natural order, windowed by skip and limit, and ValueError for a negative skip |
| Session.MongoParams | mongo_odm/session/session.py:11-26 | the keys are exactly the base ones plus the credential, TLS and replica-set groups whose flags hold, with the stated values |
| Session.IndexCallOf | mongo_odm/session/session.py:56-63 | a call passes the fields with their directions and `unique`, and a name exactly when the index name is truthy |
| Session.IndexCallsOf | mongo_odm/session/session.py:54-63 | one call per declared index, in order |
| Session.Provisioned | mongo_odm/session/session.py:43-47 | a newly provisioned collection is empty and carries one index call per declared index |
| Session.Store.CreateIndices | mongo_odm/session/session.py:50-63 | the index calls are appended in order (the first creates a missing collection); no indices means no change; an unknown name is a KeyError |
| Session.Store.CreateCollection | mongo_odm/session/session.py:43-47 | fails when the collection exists (CollectionInvalid); otherwise adds it, empty and with its index calls |
| Session.Store.Collection | mongo_odm/session/session.py:35-40 | the collection and its indices are created only when it is missing; otherwise nothing changes |
| Session.CollectionTwice | mongo_odm/session/session.py:35-40 | provisioning is idempotent: a second call changes nothing |
| Scan.ChunkMsgsFlatten | mongo_odm/repos/repo.py:147-148 | the chunk messages carry the chunks' documents in order and no sentinel |
| Scan.WorkerStreamShape | mongo_odm/repos/repo.py:142-150 | a worker's messages carry exactly its find result, in chunks of 1 to 1000 documents, then one `'DONE'`, last |
| Scan.FindParallel | mongo_odm/repos/repo.py:132-150 | the worker loop puts exactly that stream |
| Scan.MergeKeepsAll | mongo_odm/repos/repo.py:121-127 | any interleaving of two streams carries the documents and sentinels of both |
| Scan.DrainQueue | mongo_odm/repos/repo.py:121-127 | the coordinator stops exactly at the message that brings the sentinel count to the number of workers, yielding the documents of every chunk before it in arrival order; with too few sentinels it never stops |
| Scan.Halves | mongo_odm/repos/repo.py:88-91 | the two limits sum to the total, and the descending one is equal or one larger |
| Scan.Fetch | mongo_odm/repos/repo.py:93-99 | a worker takes the first `limit` documents of its order, or all when there are fewer |
| Scan.FetchAgrees | mongo_odm/repos/repo.py:142-146 | for a positive limit, the find as written fetches exactly that |
| Scan.TwoWorkersDrainAll | mongo_odm/repos/repo.py:121-127 | two complete worker streams give exactly two sentinels, the second one last, so the whole queue is drained and both results are yielded |
| Scan.ScanYieldsEveryDocOnce | mongo_odm/repos/repo.py:88-127 | when the descending order reverses the ascending one, the scan yields every document exactly once, `total` in all |
| Scan.AsWrittenYieldsSingleDocTwice | mongo_odm/repos/repo.py:90-99 | with one document, the ascending worker's limit 0 means no limit, and the document is yielded twice |
| Scan.AsWrittenUnconfiguredStarves | mongo_odm/repos/repo.py:142 | a worker looking up an unconfigured collection fails before `'DONE'`, so the coordinator can never stop |
| Repo.ProjectionOf | mongo_odm/repos/repo.py:39-51 | skipped fields map to False, included ones to True over them, and `_id` to False when it is skipped; the keys are exactly the mentioned fields |
| Repo.Sent | mongo_odm/repos/repo.py:162-169 | a projection is sent exactly when one is given, and a list of names includes each of them |
| Repo.DocRepo.Find | mongo_odm/repos/repo.py:152-186 | find is the server's find over the repository's collection, with a Projection object converted first |
| Repo.DocRepo.All | mongo_odm/repos/repo.py:66-73 | without a projection, `all` yields every document in natural order |
| Repo.DocRepo.FindOne | mongo_odm/repos/repo.py:197-198 | find_one gives None exactly when nothing matches |
| Repo.DocRepo.Count | mongo_odm/repos/repo.py:256-259 | count is the number of documents a find with the filter returns |
| Repo.DocRepo.CountAllDocs | mongo_odm/repos/repo.py:256-259 | count with no filter is the size of the collection |
| Repo.DocRepo.Exists | mongo_odm/repos/repo.py:244-245 | exists holds exactly when the count is positive |
| Repo.DocRepo.ExistsOne | mongo_odm/repos/repo.py:247-248 | exists_one holds exactly when the count is 1 |
| Repo.DocRepo.ExistsId | mongo_odm/repos/repo.py:250-251 | exists_id is exists_one of `{'_id': id}`, which holds exactly when id is stored |
| Repo.DocRepo.Distinct | mongo_odm/repos/repo.py:253-254 | distinct lists exactly the values some match holds under the key |
| Repo.DocRepo.FieldValues | mongo_odm/repos/repo.py:261-275 | field_values yields the field of every match in natural order, and raises KeyError(field) exactly when a match lacks it |
| Repo.DocRepo.CountDistinct | mongo_odm/repos/repo.py:277-289 | None exactly when the collection is empty, else between 1 and its size |
| Repo.DocRepo.AllIds | mongo_odm/repos/repo.py:291-305 | all_ids gives the window of the ids in natural order, and ValueError for a negative skip |
| Repo.DocRepo.AllIdsChunks | mongo_odm/repos/repo.py:307-320 | all_ids_chunks gives the ids of all_ids in chunks of batch_size, which concatenate back to them |
| Repo.DocRepo.InsertOne | mongo_odm/repos/repo.py:204-205 | insert_one makes the server's insert on the collection, and generates an id only for a document without one |
| Repo.DocRepo.ReplaceOne | mongo_odm/repos/repo.py:207-209 | replace_one replaces by `doc['_id']` (KeyError without it) and changes nothing on failure |
| Repo.DocRepo.InsertOrReplaceOne | mongo_odm/repos/repo.py:211-215 | an insert, and on DuplicateKeyError a replace of the document with its id |
| Repo.DocRepo.UpdateOne | mongo_odm/repos/repo.py:200-202 | update_one is the `$set` of the update on the document with that id, changing nothing on failure |
| Repo.DocRepo.BulkInsert | mongo_odm/repos/repo.py:217-221 | an empty batch returns None and changes nothing; otherwise the successful inserts stay and any failure raises BulkWriteError |
| Repo.DocRepo.BulkUpdate | mongo_odm/repos/repo.py:223-231 | a document without `_id` is a KeyError before any write; an empty batch returns None and changes nothing; otherwise the upserting `$set` writes that succeed stay, and any refused one raises BulkWriteError |
| Repo.DocRepo.DeleteAll | mongo_odm/repos/repo.py:233-236 | delete_all removes the matching documents |
| Repo.DocRepo.DeleteOne | mongo_odm/repos/repo.py:238-239 | delete_one removes the first match, and reports 1 when there was one, else 0 |
| Repo.DocRepo.DeleteById | mongo_odm/repos/repo.py:241-242 | delete_by_id deletes 1 document exactly when the id is stored |
| Repo.DocRepo.WorkerQuery | mongo_odm/repos/repo.py:142-146 | the corrected worker: it fetches the first `limit` documents of its `updated_at` order, and nothing for a limit of 0 |
| Repo.DocRepo.AllParallel | mongo_odm/repos/repo.py:85-130 | with the corrected workers, the coordinator reads the whole interleaved queue of both; when the descending order reverses the ascending one, it yields every document exactly once, `count()` in all |
| Repo.ObjRepo.QueryOne | mongo_odm/repos/repo.py:364-367 | None exactly when nothing matches; otherwise the first match in natural order, wrapped |
| Repo.ObjRepo.QueryById | mongo_odm/repos/repo.py:361-362 | None exactly when the id is not stored; otherwise that document, wrapped |
| Repo.ObjRepo.Query | mongo_odm/repos/repo.py:381-412 | every result of find, wrapped, in the same order, and find's error when it fails |
| Repo.ObjRepo.AllObjs | mongo_odm/repos/repo.py:336-343 | every document, wrapped, in natural order |
| Repo.ObjRepo.InsertObj | mongo_odm/repos/repo.py:345-346 | insert_obj is insert_one of the object's data |
| Repo.ObjRepo.DeleteObj | mongo_odm/repos/repo.py:348-349 | delete_obj is delete_by_id of the object's `_id` |
| Repo.ObjRepo.ReplaceObj | mongo_odm/repos/repo.py:351-353 | replace_obj replaces by the object's `_id` with its data |
| Repo.ObjRepo.InsertOrReplaceObj | mongo_odm/repos/repo.py:355-359 | an insert of the object's data, and on DuplicateKeyError a replace of it, with its id |
| Repo.OpenDocRepo | mongo_odm/repos/repo.py:58-64 | a configured collection is bound to its configured db and provisioned when missing; another one is bound to the given db, and a missing db is a TypeError |
| Repo.OpenMongoRepo | mongo_odm/repos/repo.py:421-425 | an unconfigured name is a KeyError; otherwise the repository of the configured db and model |
| Repos.Registry.Repo | mongo_odm/repos/repos.py:15-21 | a cached name returns the cached repository and changes nothing; an unknown name is a KeyError with the cache unchanged; otherwise the new repository is cached and nothing else |
| Repos.Registry.AllRepos | mongo_odm/repos/repos.py:10-13 | one repository per configured name, in configuration order; afterwards every name is cached, and earlier entries are unchanged; the collections are exactly the old ones plus the provisioned collection of each name that was not cached and whose collection was missing (`OpenedAll`) |
| Repos.Registry.Cached | mongo_odm/repos/repos.py:10-13 | the `repo(name)` call inside `all_repos` for a configured name: the name is cached afterwards, and nothing cached before changes; its collection is opened only when the name was not cached |
| Repos.OpenedAll | mongo_odm/repos/repos.py:10-13 | the collections after opening a set of names keep every old collection and add, for each name whose collection is missing, that collection with its indices, and nothing else |
| Repos.RepoTwice | mongo_odm/repos/repos.py:15-21 | two `repo(name)` calls return the identical repository; the first caches the name and opens its collection only if the name was not cached, and the second leaves the cache and the collections exactly as the first left them |
| Models.Hashable | mongo_odm/models/base.py:22-27 | the hashed data is the data without exactly the five excluded fields |
| Models.HashIgnoresExcluded | mongo_odm/models/base.py:6 | data that differ only in excluded fields hash alike |
| Models.AfterCheckKeepsHashable | mongo_odm/models/base.py:29-33 | the check writes only excluded fields |
| Models.AfterCheckInSync | mongo_odm/models/base.py:29-33 | after the check the stored hash is the hash of the data; `updated_at` moves to the clock exactly when the hash was stale, and no other field changes |
| Models.AfterCheckIdempotent | mongo_odm/models/base.py:29-33 | a second check, at any time, changes nothing |
| Models.RevertRestoresHash | tests/models/test_hashing.py:138-150 | changing a hashed field and checking, then restoring it and checking, gives back the original hash |
| Models.EmptyHashIsZero | tests/models/test_hashing.py:153-155 | when the library hashes `{}` to 0, an object with only bookkeeping fields has hash `"0"` |
| Models.Clock.Now | mongo_odm/models/base.py:36-37 | each reading returns the current time and advances the clock |
| Models.MongoBase.constructor | mongo_odm/models/base.py:15-20 | a falsy data dict gets `created_at` and `updated_at` from two clock readings; every construction ends with the hash in sync; the clock advances by those readings plus one when the check finds the hash stale |
| Models.MongoBase.Hash | mongo_odm/models/base.py:22-27 | the hash of a copy with the excluded fields deleted; the data is not changed |
| Models.MongoBase.CheckHashAndUpdate | mongo_odm/models/base.py:29-33 | a stale or missing hash makes the clock move `updated_at` and stores the new hash; otherwise nothing changes |

## Left out

- Multiprocessing is not modelled: worker processes, the bounded queue, back-pressure, `terminate` and `spawn_scope` (utils.py:25-37). The arrival order of the two workers' messages is a schedule parameter, and the coordinator runs over any interleaving.
- Repo.DocRepo.AllParallel: the scan takes no projection argument, so documents come back whole, and the logging branch (`print_progress`, repo.py:80-82) is left out. It is built on the corrected Repo.DocRepo.WorkerQuery, so a one-document collection gives that document once; the code as written gives it twice (Scan.AsWrittenYieldsSingleDocTwice, first row of "Findings").
- Repo.DocRepo.WorkerQuery: models the corrected worker, whose share of 0 fetches nothing. As written the worker passes `limit=0` to `find`, which the server reads as no limit (Scan.AsWrittenYieldsSingleDocTwice).
- The `multiprocessing.Pool` branch of `_models_from_json_dicts` (repo.py:414-418) is not modelled. Only the single-process, order-preserving mapping is.
- `aggregate` and `query_aggregate` (repo.py:188-195, 369-379) are not modelled, because there is no pipeline engine. The one pipeline of `count_distinct_field_values` is modelled by its meaning.
- MongoDB's filter language, dotted field paths, cursors, `batch_size` and `max_time_ms` are not modelled. Filters are predicates.
- The server's sort order for `updated_at` is the `Store.arrange` parameter. The scan's exactly-once result assumes the descending order reverses the ascending one.
- The library hash `dict_base_hash` is a parameter, including its normalisation of key and list order. So is the `dict_objectify` attribute mapping: model attributes are entries of the data dict, and a missing `_id` reads as null.
- `MongoBase` keyword arguments are not modelled. Only `data_dict` initialises an object.
- Models.MongoBase.constructor: the model's own field declarations and type conversions are not modelled.
- `datetime.now` is the injected `Clock`.
- File and environment input are not modelled: YAML parsing, `files_in_dir` and its glob, `env_vars.py` and the `MongoClient` connection (session.py:28). They become parameters (parsed values, file lists, `Env`).
- `importlib.import_module` is a `Modules` parameter, saying which names each module defines.
- Repo.DocRepo.InsertOne: pymongo's write of the generated `_id` back into the caller's dict is not modelled as a change to the caller's value. Its one effect inside the core, on the replace of `insert_or_replace_one`, is modelled through `Mongo.WithId`.
- Driver result objects (`DeleteResult`, `BulkWriteResult`) are reduced to counts.
- Index creation records each `create_index` call. The server's deduplication of an identical index is not modelled.
- Generator laziness is not modelled: a generator's output is computed whole at the call, and an error that Python raises during iteration is raised at the call instead. So `field_values`, which yields the values of the earlier matches before it raises KeyError for a match without the field, returns only the KeyError here (Repo.DocRepo.FieldValues).
- The progress arguments `print_progress` and `print_step` of `find`, `field_values`, `all_ids`, `all_ids_chunks`, `query` and `all_objs` (repo.py:173-184) are not modelled, and so neither is the ValueError a `print_step` below 1 gives when progress is printed for a non-empty result. `iter_counter` itself is modelled as Utils.IterCounter.
- Mongo.Find: a sort is a single (field, direction) pair. `find` passes a list of pairs to the server, so a sort on several fields is not modelled.
- Mongo.InsertAll: the unordered bulk insert runs its inserts in list order. The server does not promise an order for an unordered batch, so when two inserts of the batch share an `_id`, which one is stored is the model's choice. Mongo.UpdateAll does the same for the bulk update.
- Mongo.InsertOne: a unique index compares the indexed fields as whole values. The server's expansion of an array field into one key per element (a multikey index), dotted paths into subdocuments, sparse and partial indices, and collation are not modelled. `unique` is read by Python truthiness.
- Session.Store.CreateIndices: a `create_index` call never fails here. The server's refusal of a unique index over documents that already collide, and the driver's ValueError for an index without fields, are not modelled.
- Mongo.InsertAllStores: stated for a collection without a unique index. With one, an insert can also fail because its key collides with a stored or an earlier document, as Mongo.InsertOneOutcome states for each insert.
- Mongo.InsertOrReplaceStores: stated for a document that no unique index refuses; Mongo.InsertOrReplaceClash states the other case.
- Mongo.UpdateAllSets: stated for a batch in which no update was refused; Mongo.UpdateAllNoUnique gives that for a collection without a unique index.
- Config.CollectionOf: a `name` that is not a string is a TypeError here, because the registry is keyed by strings. config.py:79 stores such an entry under that key, and only a later lookup by a string name misses it.
- Config.AsList: a non-empty mapping is a TypeError here. Python iterates its keys, which are strings, so the loop over `indices` still fails with TypeError at the first key. The loop over `fields` first looks up the index `order`, and the loop over a db's `collections` first resolves a db-level `model`, so an error of those comes first in Python, where the model reports TypeError.
- Repo.ModelObject: wrapping a document in its model (`self._type(json_dict)`) does not run MongoBase's `check_hash_and_update` (base.py:20). For a model class derived from MongoBase, a document with a stale or missing `_hash` would come back with a new `_hash` and `updated_at`; Models.AfterCheckInSync states that effect on its own. Repo.ModelsOf wraps the same way.
- Provisioning that a worker process would do through its own registry lookup is not modelled.
- Repos.Registry: `_cache` is class-level in the source and shared by the whole process. Here it is one `Registry` object.

## Findings

| source | as written | input that shows it | evidently intended | confidence | as-written member | corrected member |
|---|---|---|---|---|---|---|
| mongo_odm/repos/repo.py:90-99 | the ascending worker gets `limit=total // 2`, and the server reads a limit of 0 as no limit | a collection of exactly one document: both workers fetch it, and `all_parallel` yields it twice, failing `len(...) == count()` | a worker with an empty share fetches nothing | not executed | Scan.AsWrittenYieldsSingleDocTwice | Scan.ScanYieldsEveryDocOnce |
| mongo_odm/repos/repo.py:142 | the worker looks its repository up by collection name in `MongoRepos` | `MongoDocRepo('c', 'd').all_parallel()` for an unconfigured `c`: both workers raise KeyError before `'DONE'`, and the coordinator waits for ever | the workers scan the repository's own collection | not executed | Scan.AsWrittenUnconfiguredStarves | Repo.DocRepo.AllParallel |
