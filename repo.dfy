/** The repositories of mongo_odm/repos/repo.py: `Projection`,
    `MongoDocRepo` (documents as dictionaries), `MongoObjRepo` (documents
    wrapped in the collection's model) and `MongoRepo` (a repository of a
    configured collection). A repository is bound to one namespace of the
    store; every operation is the driver call of the source, whose effect is
    the matching function of module Mongo. A query filter the source takes as
    `None` or `{}` is `MatchAll()`. */
module Repo {
  import opened Values
  import opened Dicts
  import opened Utils
  import opened Config
  import opened Mongo
  import opened Session
  import opened Scan

  /** `Projection(fields_to_skip, fields_to_include, skip_id_field)`; a
      `None` list is the empty list. */
  datatype Projection = Projection(fieldsToSkip: seq<string>, fieldsToInclude: seq<string>, skipIdField: bool)

  /** The fields a projection object mentions. */
  function Mentioned(p: Projection): set<string>
  {
    (set f | f in p.fieldsToSkip) + (set f | f in p.fieldsToInclude) + (if p.skipIdField then {ID} else {})
  }

  /** The mapping `Projection.projection()` builds: skipped fields map to
      False, included ones to True over that, and `_id` to False over both
      when `skip_id_field` is set. */
  function ProjectionMap(p: Projection): map<string, bool>
  {
    map f | f in Mentioned(p) :: f in p.fieldsToInclude && !(p.skipIdField && f == ID)
  }

  /** `Projection.projection()`. */
  method ProjectionOf(p: Projection) returns (projection: map<string, bool>)
    ensures projection.Keys == Mentioned(p)
    ensures p.skipIdField ==> ID in projection && !projection[ID]
    ensures forall f :: f in p.fieldsToInclude && !(p.skipIdField && f == ID) ==> f in projection && projection[f]
    ensures forall f :: f in p.fieldsToSkip && f !in p.fieldsToInclude ==> f in projection && !projection[f]
    ensures projection == ProjectionMap(p)
  {
    projection := map[];
    for i := 0 to |p.fieldsToSkip|
      invariant projection.Keys == set f | f in p.fieldsToSkip[..i]
      invariant forall f :: f in projection ==> !projection[f]
    {
      assert p.fieldsToSkip[..i + 1] == p.fieldsToSkip[..i] + [p.fieldsToSkip[i]];
      projection := projection[p.fieldsToSkip[i] := false];
    }
    assert p.fieldsToSkip[..|p.fieldsToSkip|] == p.fieldsToSkip;
    ghost var skipped := projection.Keys;
    for i := 0 to |p.fieldsToInclude|
      invariant projection.Keys == skipped + set f | f in p.fieldsToInclude[..i]
      invariant forall f :: f in projection ==> (projection[f] <==> f in p.fieldsToInclude[..i])
    {
      assert p.fieldsToInclude[..i + 1] == p.fieldsToInclude[..i] + [p.fieldsToInclude[i]];
      projection := projection[p.fieldsToInclude[i] := true];
    }
    assert p.fieldsToInclude[..|p.fieldsToInclude|] == p.fieldsToInclude;
    if p.skipIdField {
      projection := projection[ID := false];
    }
  }

  /** A projection argument: none, a `Projection` object, a mapping or a
      list of field names. */
  datatype ProjArg =
    | NoProjection
    | ProjectionArg(p: Projection)
    | FieldMap(m: map<string, bool>)
    | FieldList(fields: seq<string>)

  /** The projection the driver sends: an empty one asks for `_id` alone. */
  function DriverProjection(m: map<string, bool>): (p: map<string, bool>)
    ensures m == map[] ==> p == map[ID := true]
    ensures m != map[] ==> p == m
  {
    if m == map[] then map[ID := true] else m
  }

  /** The projection the driver sends for an argument; a list of names
      includes each of them. */
  function Sent(arg: ProjArg): (r: Option<map<string, bool>>)
    ensures r.None? <==> arg.NoProjection?
    ensures arg.FieldList? ==> forall f :: f in arg.fields ==> f in r.value && r.value[f]
  {
    match arg
    case NoProjection => None
    case ProjectionArg(p) => Some(DriverProjection(ProjectionMap(p)))
    case FieldMap(m) => Some(DriverProjection(m))
    case FieldList(fields) => Some(DriverProjection(map f | f in fields :: true))
  }

  /** The sort of the parallel scan. */
  const UPDATED_AT: string := "updated_at"

  /** `MongoDocRepo`: a repository over the collection `ns` of `store`. */
  class DocRepo {
    const store: Store
    const ns: Namespace

    constructor (store: Store, ns: Namespace)
      ensures this.store == store && this.ns == ns
    {
      this.store := store;
      this.ns := ns;
    }

    /** `find(filter, limit, skip, sort, projection)`. */
    method Find(f: Filter, limit: int, skip: int, sort: Option<Sorting>, projection: ProjArg)
      returns (r: Result<seq<Doc>>)
      requires store.Valid()
      ensures r == Mongo.Find(store.At(ns), f, limit, skip, sort, Sent(projection), store.arrange)
    {
      var sent: Option<map<string, bool>> := None;
      match projection {
        case NoProjection =>
        case ProjectionArg(p) =>
          var m := ProjectionOf(p);
          sent := Some(DriverProjection(m));
        case FieldMap(m) =>
          sent := Some(DriverProjection(m));
        case FieldList(fields) =>
          sent := Some(DriverProjection(map f | f in fields :: true));
      }
      r := Mongo.Find(store.At(ns), f, limit, skip, sort, sent, store.arrange);
    }

    /** `all(projection)`: every document in natural order. */
    method All(projection: ProjArg) returns (r: Result<seq<Doc>>)
      requires store.Valid()
      ensures projection.NoProjection? ==> r == Ok(Docs(store.At(ns)))
      ensures r == Mongo.Find(store.At(ns), MatchAll(), 0, 0, None, Sent(projection), store.arrange)
    {
      r := Find(MatchAll(), 0, 0, None, projection);
      CountAll(store.At(ns));
      assert Window(Docs(store.At(ns)), 0, 0) == Docs(store.At(ns));
    }

    /** `find_one(filter)`. */
    method FindOne(f: Filter) returns (r: Option<Doc>)
      requires store.Valid()
      ensures r == Mongo.FindOne(store.At(ns), f)
      ensures r.None? <==> Mongo.Count(store.At(ns), f) == 0
    {
      r := Mongo.FindOne(store.At(ns), f);
    }

    /** `count(filter)`: with no filter, the size of the collection. */
    method Count(f: Filter) returns (n: nat)
      requires store.Valid()
      ensures n == Mongo.Count(store.At(ns), f)
      ensures n == |Found(store.At(ns), f)|
    {
      n := Mongo.Count(store.At(ns), f);
      CountIsFoundLength(store.At(ns), f);
    }

    /** `count()`, as the test of the repository checks it. */
    method CountAllDocs() returns (n: nat)
      requires store.Valid()
      ensures n == |store.At(ns).docs.keys|
    {
      n := Count(MatchAll());
      CountAll(store.At(ns));
    }

    /** `exists(filter)`: `bool(count(filter))`. */
    method Exists(f: Filter) returns (b: bool)
      requires store.Valid()
      ensures b <==> Mongo.Count(store.At(ns), f) > 0
      ensures b <==> Found(store.At(ns), f) != []
    {
      var n := Count(f);
      b := n != 0;
    }

    /** `exists_one(filter)`: `count(filter) == 1`. */
    method ExistsOne(f: Filter) returns (b: bool)
      requires store.Valid()
      ensures b <==> Mongo.Count(store.At(ns), f) == 1
    {
      var n := Count(f);
      b := n == 1;
    }

    /** `exists_id(id)`: `exists_one({'_id': id})`, which holds exactly when
        a document is stored under `id`. */
    method ExistsId(id: Value) returns (b: bool)
      requires store.Valid()
      ensures b <==> Mongo.Count(store.At(ns), IdIs(id)) == 1
      ensures b <==> id in store.At(ns).docs.entries
    {
      b := ExistsOne(IdIs(id));
      CountId(store.At(ns), id);
    }

    /** `distinct(key, filter)`, as a set of values. */
    method Distinct(key: string, f: Filter) returns (r: set<Value>)
      requires store.Valid()
      ensures forall v :: v in r <==> exists d :: d in Found(store.At(ns), f) && key in d && v in Spread(d[key])
    {
      r := Mongo.Distinct(store.At(ns), key, f);
    }

    /** `field_values(field, filter)`: the projection keeps the field, and
        `_id` only when it is the field; then `doc[field]` of every match. */
    method FieldValues(field: string, f: Filter) returns (r: Result<seq<Value>>)
      requires store.Valid()
      ensures r == Mongo.FieldValues(store.At(ns), field, f)
      ensures r.Ok? <==> forall d :: d in Found(store.At(ns), f) ==> field in d
      ensures r.Err? ==> r.error == KeyError(field)
      ensures r.Ok? ==> |r.value| == |Found(store.At(ns), f)| &&
                        forall i :: 0 <= i < |r.value| ==> r.value[i] == Found(store.At(ns), f)[i][field]
    {
      var projection := map[field := true];
      if field != ID {
        projection := projection[ID := false];
      }
      assert projection == FieldProjection(field);
      var docs := Find(f, 0, 0, None, FieldMap(projection));
      assert Sent(FieldMap(projection)) == Some(FieldProjection(field));
      FindUnsorted(store.At(ns), f, 0, 0, Some(FieldProjection(field)), store.arrange, KeepOrder);
      r := MapAll(GetField(field), docs.value);
      FieldValuesMeaning(store.At(ns), field, f);
    }

    /** `count_distinct_field_values(field)`: None exactly for an empty
        collection, otherwise the number of distinct values. */
    method CountDistinct(field: string) returns (r: Option<nat>)
      requires store.Valid()
      ensures r == Mongo.CountDistinct(store.At(ns), field)
      ensures r.None? <==> store.At(ns).docs.keys == []
      ensures r.Some? ==> 1 <= r.value <= |store.At(ns).docs.keys|
    {
      r := Mongo.CountDistinct(store.At(ns), field);
      CountDistinctBounds(store.At(ns), field);
    }

    /** `all_ids(limit, skip)`: the ids in natural order, windowed. */
    method AllIds(limit: int, skip: int) returns (r: Result<seq<Value>>)
      requires store.Valid()
      ensures r == Mongo.AllIds(store.At(ns), limit, skip)
      ensures skip < 0 ==> r == Err(ValueError)
      ensures skip >= 0 ==> r == Ok(Window(store.At(ns).docs.keys, skip, limit))
    {
      var docs := Find(MatchAll(), limit, skip, None, FieldMap(map[ID := true]));
      AllIdsInOrder(store.At(ns), limit, skip);
      if docs.Err? {
        return Err(docs.error);
      }
      var ids := [];
      for i := 0 to |docs.value|
        invariant MapAll(GetField(ID), docs.value[..i]) == Ok(ids)
      {
        if ID !in docs.value[i] {
          MapAllStops(GetField(ID), docs.value, i);
          return Err(KeyError(ID));
        }
        MapAllSnoc(GetField(ID), docs.value, i, ids, docs.value[i][ID]);
        ids := ids + [docs.value[i][ID]];
      }
      assert docs.value[..|docs.value|] == docs.value;
      r := Ok(ids);
    }

    /** `all_ids_chunks(limit, skip, batch_size)`: the ids of `all_ids` in
        chunks of `batch_size`. */
    method AllIdsChunks(limit: int, skip: int, batchSize: int) returns (r: Result<seq<seq<Value>>>)
      requires store.Valid()
      ensures skip < 0 ==> r == Err(ValueError)
      ensures skip >= 0 ==> r == ChunkSeq(Window(store.At(ns).docs.keys, skip, limit), batchSize)
      ensures r.Ok? ==> Concat(r.value) == Window(store.At(ns).docs.keys, skip, limit)
    {
      var ids := AllIds(limit, skip);
      if ids.Err? {
        return Err(ids.error);
      }
      r := Chunks(ids.value, batchSize);
      if r.Ok? {
        ChunkSeqConcat(ids.value, batchSize);
      }
    }

    /** The `replace_one({'_id': id}, doc)` driver call. */
    method ReplaceById(id: Value, doc: Doc) returns (r: Outcome)
      requires store.Valid()
      modifies store
      ensures store.Valid() && store.nextOid == old(store.nextOid)
      ensures var w := Mongo.ReplaceById(old(store.At(ns)), id, doc);
              && (w.Err? ==> r == Fail(w.error) && store.colls == old(store.colls))
              && (w.Ok? ==> r == Pass && store.colls == Stored(old(store.colls), ns, w.value))
    {
      var w := Mongo.ReplaceById(store.At(ns), id, doc);
      if w.Err? {
        return Fail(w.error);
      }
      store.Write(ns, w.value);
      return Pass;
    }

    /** `insert_one(doc)`; a document without `_id` gets a generated one. */
    method InsertOne(doc: Doc) returns (r: Outcome)
      requires store.Valid()
      modifies store
      ensures store.Valid()
      ensures store.nextOid == old(store.nextOid) + (if ID in doc then 0 else 1)
      ensures var w := Mongo.InsertOne(old(store.At(ns)), doc, Oid(old(store.nextOid)));
              && (w.Err? ==> r == Fail(w.error) && store.colls == old(store.colls))
              && (w.Ok? ==> r == Pass && store.colls == Stored(old(store.colls), ns, w.value))
    {
      var newId := Oid(store.nextOid);
      if ID !in doc {
        newId := store.GenerateId();
      }
      var w := Mongo.InsertOne(store.At(ns), doc, newId);
      if w.Err? {
        return Fail(w.error);
      }
      store.Write(ns, w.value);
      return Pass;
    }

    /** `replace_one(doc)`: the filter is `doc['_id']`. */
    method ReplaceOne(doc: Doc) returns (r: Outcome)
      requires store.Valid()
      modifies store
      ensures store.Valid() && store.nextOid == old(store.nextOid)
      ensures var w := Mongo.ReplaceOne(old(store.At(ns)), doc);
              && (w.Err? ==> r == Fail(w.error) && store.colls == old(store.colls))
              && (w.Ok? ==> r == Pass && store.colls == Stored(old(store.colls), ns, w.value))
    {
      if ID !in doc {
        return Fail(KeyError(ID));
      }
      r := ReplaceById(doc[ID], doc);
    }

    /** `insert_or_replace_one(doc)`: an insert, and on DuplicateKeyError a
        replace of the document, which by then carries its `_id`. */
    method InsertOrReplaceOne(doc: Doc) returns (r: Outcome)
      requires store.Valid()
      modifies store
      ensures store.Valid()
      ensures store.nextOid == old(store.nextOid) + (if ID in doc then 0 else 1)
      ensures var w := InsertOrReplace(old(store.At(ns)), doc, Oid(old(store.nextOid)));
              && (w.Err? ==> r == Fail(w.error) && store.colls == old(store.colls))
              && (w.Ok? ==> r == Pass && store.colls == Stored(old(store.colls), ns, w.value))
    {
      ghost var before := store.At(ns);
      ghost var w := Mongo.InsertOne(before, doc, Oid(store.nextOid));
      var withId := WithId(doc, Oid(store.nextOid));
      var inserted := InsertOne(doc);
      if inserted.Fail? && inserted.error == DuplicateKeyError {
        assert w.Err? && w.error == DuplicateKeyError;
        assert store.At(ns) == before;
        r := ReplaceOne(withId);
      } else {
        assert InsertOrReplace(before, doc, Oid(old(store.nextOid))) == w;
        r := inserted;
      }
    }

    /** `update_one(id, update, upsert)`: a `$set` of `update` on the
        document stored under `id`. */
    method UpdateOne(id: Value, update: Doc, upsert: bool) returns (r: Outcome)
      requires store.Valid()
      modifies store
      ensures store.Valid() && store.nextOid == old(store.nextOid)
      ensures var w := UpdateSet(old(store.At(ns)), id, update, upsert);
              && (w.Err? ==> r == Fail(w.error) && store.colls == old(store.colls))
              && (w.Ok? ==> r == Pass && store.colls == Stored(old(store.colls), ns, w.value))
    {
      var w := UpdateSet(store.At(ns), id, update, upsert);
      if w.Err? {
        return Fail(w.error);
      }
      store.Write(ns, w.value);
      return Pass;
    }

    /** `bulk_insert(docs)`: nothing, and no write, for an empty batch;
        otherwise one unordered bulk write of inserts, which keeps every
        insert that succeeds and raises when any fails. */
    method BulkInsert(docs: seq<Doc>) returns (r: Result<Option<BulkSummary>>)
      requires store.Valid()
      modifies store
      ensures store.Valid()
      ensures docs == [] ==> r == Ok(None) && store.colls == old(store.colls) && store.nextOid == old(store.nextOid)
      ensures docs != [] ==>
                var b := InsertAll(old(store.At(ns)), docs, old(store.nextOid));
                && store.colls == Stored(old(store.colls), ns, b.coll)
                && store.nextOid == old(store.nextOid) + |docs|
                && (b.failed > 0 ==> r == Err(BulkWriteError(b.failed)))
                && (b.failed == 0 ==> r == Ok(Some(BulkSummary(|docs|, 0, 0))))
    {
      if docs == [] {
        return Ok(None);
      }
      var b := InsertAll(store.At(ns), docs, store.nextOid);
      var summary := BulkInsertResult(b);
      assert summary.Ok? ==> summary.value == BulkSummary(|docs|, 0, 0);
      store.ReserveIds(|docs|);
      store.Write(ns, b.coll);
      if summary.Err? {
        return Err(summary.error);
      }
      return Ok(Some(summary.value));
    }

    /** `bulk_update(docs)`: KeyError, before any write, when a document has
        no `_id`; nothing for an empty batch; otherwise one unordered bulk
        write of upserting `$set`s by `_id`, which keeps every `$set` that
        succeeds and raises when any fails. */
    method BulkUpdate(docs: seq<Doc>) returns (r: Result<Option<BulkSummary>>)
      requires store.Valid()
      modifies store
      ensures store.Valid() && store.nextOid == old(store.nextOid)
      ensures (exists j :: 0 <= j < |docs| && ID !in docs[j]) ==>
                r == Err(KeyError(ID)) && store.colls == old(store.colls)
      ensures docs == [] ==> r == Ok(None) && store.colls == old(store.colls)
      ensures docs != [] && (forall j :: 0 <= j < |docs| ==> ID in docs[j]) ==>
                var u := UpdateAll(old(store.At(ns)), docs);
                && store.colls == Stored(old(store.colls), ns, u.coll)
                && (u.failed > 0 ==> r == Err(BulkWriteError(u.failed)))
                && (u.failed == 0 ==> r == Ok(Some(BulkSummary(0, u.matched, u.upserted))))
    {
      var requests: seq<Doc> := [];
      for i := 0 to |docs|
        invariant requests == docs[..i]
        invariant forall j :: 0 <= j < i ==> ID in docs[j]
      {
        if ID !in docs[i] {
          return Err(KeyError(ID));
        }
        requests := requests + [docs[i]];
      }
      assert docs[..|docs|] == docs;
      if requests == [] {
        return Ok(None);
      }
      var u := UpdateAll(store.At(ns), requests);
      var summary := BulkUpdateResult(u);
      store.Write(ns, u.coll);
      if summary.Err? {
        return Err(summary.error);
      }
      return Ok(Some(summary.value));
    }

    /** `delete_all(filter)`: `delete_many`. */
    method DeleteAll(f: Filter)
      requires store.Valid()
      modifies store
      ensures store.Valid() && store.nextOid == old(store.nextOid)
      ensures store.colls == Stored(old(store.colls), ns, DeleteMany(old(store.At(ns)), f))
    {
      store.Write(ns, DeleteMany(store.At(ns), f));
    }

    /** `delete_one(filter)`, with the deleted count. */
    method DeleteOne(f: Filter) returns (deleted: nat)
      requires store.Valid()
      modifies store
      ensures store.Valid() && store.nextOid == old(store.nextOid)
      ensures store.colls == Stored(old(store.colls), ns, Mongo.DeleteOne(old(store.At(ns)), f).0)
      ensures deleted == if Mongo.Count(old(store.At(ns)), f) == 0 then 0 else 1
    {
      var w := Mongo.DeleteOne(store.At(ns), f);
      store.Write(ns, w.0);
      deleted := w.1;
    }

    /** `delete_by_id(id)`: `delete_one({'_id': id})`. */
    method DeleteById(id: Value) returns (deleted: nat)
      requires store.Valid()
      modifies store
      ensures store.Valid() && store.nextOid == old(store.nextOid)
      ensures store.colls == Stored(old(store.colls), ns, Mongo.DeleteOne(old(store.At(ns)), IdIs(id)).0)
      ensures deleted == if id in old(store.At(ns)).docs.entries then 1 else 0
    {
      CountId(store.At(ns), id);
      deleted := DeleteOne(IdIs(id));
    }

    /** The query of one worker of the scan, for its sort direction and
        limit; a worker whose share is empty fetches nothing. */
    method WorkerQuery(direction: int, limit: nat) returns (r: Result<seq<Doc>>)
      requires store.Valid()
      ensures r == Ok(Fetch(store.arrange(Docs(store.At(ns)), Sorting(UPDATED_AT, direction)), limit))
    {
      var c := store.At(ns);
      CountAll(c);
      var sorted := store.arrange(Docs(c), Sorting(UPDATED_AT, direction));
      if limit == 0 {
        return Ok([]);
      }
      r := Find(MatchAll(), limit, 0, Some(Sorting(UPDATED_AT, direction)), NoProjection);
      FetchAgrees(sorted, limit);
      assert r.value == Window(sorted, 0, limit);
    }

    /** `all_parallel()`: the count of the collection split between an
        ascending and a descending worker on `updated_at`, whose streams
        arrive in the order `sched` chooses, drained until both are done.
        The coordinator reads every message; when the descending order is
        the reverse of the ascending one, it yields every document exactly
        once. */
    method AllParallel(sched: seq<bool>) returns (r: Drain)
      requires store.Valid()
      ensures var docs := Docs(store.At(ns));
              var asc := store.arrange(docs, Sorting(UPDATED_AT, ASCENDING));
              var desc := store.arrange(docs, Sorting(UPDATED_AT, DESCENDING));
              var ms := Arrivals(sched, |docs|, asc, desc);
              && r == Drained(Flatten(ms), |ms|)
              && (desc == Reverse(asc) ==> multiset(r.out) == multiset(docs) && |r.out| == |docs|)
    {
      var total := CountAllDocs();
      var (half, rest) := Halves(total);
      var ascQuery := WorkerQuery(ASCENDING, half);
      var descQuery := WorkerQuery(DESCENDING, rest);
      var first := FindParallel(ascQuery);
      var second := FindParallel(descQuery);
      var arrivals := Merge(sched, first, second);
      r := DrainQueue(arrivals, 2);
      ghost var docs := Docs(store.At(ns));
      ghost var asc := store.arrange(docs, Sorting(UPDATED_AT, ASCENDING));
      ghost var desc := store.arrange(docs, Sorting(UPDATED_AT, DESCENDING));
      assert arrivals == Arrivals(sched, |docs|, asc, desc);
      TwoWorkersDrainAll(sched, ascQuery.value, descQuery.value);
      DrainReadsAll(arrivals, 2, r);
      if desc == Reverse(asc) {
        assert multiset(asc) == multiset(docs);
        ScanYieldsEveryDocOnce(sched, docs, asc, desc);
      }
    }
  }

  /** A document wrapped in the collection's model, `self._type(json_dict)`. */
  datatype ModelObject = ModelObject(model: ModelType, data: Doc)

  /** The `_id` attribute of a model object; null when its data has none. */
  function IdOf(obj: ModelObject): Value
  {
    FieldOrNull(obj.data, ID)
  }

  /** `map(self._type, json_dicts)`: every document wrapped, in order. */
  function ModelsOf(model: ModelType, ds: seq<Doc>): seq<ModelObject>
  {
    seq(|ds|, i requires 0 <= i < |ds| => ModelObject(model, ds[i]))
  }

  /** `MongoObjRepo`: a repository whose reads come back as model objects. */
  class ObjRepo {
    const docs: DocRepo
    const model: ModelType

    constructor (docs: DocRepo, model: ModelType)
      ensures this.docs == docs && this.model == model
    {
      this.docs := docs;
      this.model := model;
    }

    /** `query_one(filter)`: None exactly when nothing matches, otherwise the
        first match in natural order, wrapped. */
    method QueryOne(f: Filter) returns (r: Option<ModelObject>)
      requires docs.store.Valid()
      ensures r.None? <==> Mongo.Count(docs.store.At(docs.ns), f) == 0
      ensures r.Some? ==> r == Some(ModelObject(model, Mongo.FindOne(docs.store.At(docs.ns), f).value))
      ensures r.Some? ==> f(r.value.data) && r.value.data in Docs(docs.store.At(docs.ns))
    {
      var json := docs.FindOne(f);
      if json.Some? {
        var ds := Docs(docs.store.At(docs.ns));
        var i :| 0 <= i < |ds| && ds[i] == json.value;
        assert ID in json.value;
      }
      if json.Some? && json.value != map[] {
        return Some(ModelObject(model, json.value));
      }
      return None;
    }

    /** `query_by_id(id)`: the document stored under `id`, if any. */
    method QueryById(id: Value) returns (r: Option<ModelObject>)
      requires docs.store.Valid()
      ensures r.None? <==> id !in docs.store.At(docs.ns).docs.entries
      ensures r.Some? ==> r.value == ModelObject(model, docs.store.At(docs.ns).docs.entries[id])
    {
      var c := docs.store.At(docs.ns);
      CountId(c, id);
      r := QueryOne(IdIs(id));
      if r.Some? {
        var ds := Docs(c);
        var i :| 0 <= i < |ds| && ds[i] == r.value.data;
        assert c.docs.keys[i] == id;
      }
    }

    /** `query(filter, limit, skip, sort, projection)` on the single-process
        path: every result of `find`, wrapped, in the same order. */
    method Query(f: Filter, limit: int, skip: int, sort: Option<Sorting>, projection: ProjArg)
      returns (r: Result<seq<ModelObject>>)
      requires docs.store.Valid()
      ensures var found := Mongo.Find(docs.store.At(docs.ns), f, limit, skip, sort, Sent(projection), docs.store.arrange);
              && (r.Err? <==> found.Err?)
              && (r.Err? ==> r.error == found.error)
              && (r.Ok? ==> |r.value| == |found.value| &&
                            forall i :: 0 <= i < |r.value| ==> r.value[i] == ModelObject(model, found.value[i]))
    {
      var found := docs.Find(f, limit, skip, sort, projection);
      if found.Err? {
        return Err(found.error);
      }
      return Ok(ModelsOf(model, found.value));
    }

    /** `all_objs()`: every document, wrapped, in natural order. */
    method AllObjs() returns (r: Result<seq<ModelObject>>)
      requires docs.store.Valid()
      ensures r.Ok?
      ensures var ds := Docs(docs.store.At(docs.ns));
              |r.value| == |ds| && forall i :: 0 <= i < |ds| ==> r.value[i] == ModelObject(model, ds[i])
    {
      r := Query(MatchAll(), 0, 0, None, NoProjection);
      CountAll(docs.store.At(docs.ns));
      assert Window(Docs(docs.store.At(docs.ns)), 0, 0) == Docs(docs.store.At(docs.ns));
    }

    /** `insert_obj(obj)`: `insert_one` of its data. */
    method InsertObj(obj: ModelObject) returns (r: Outcome)
      requires docs.store.Valid()
      modifies docs.store
      ensures docs.store.Valid()
      ensures docs.store.nextOid == old(docs.store.nextOid) + (if ID in obj.data then 0 else 1)
      ensures var w := Mongo.InsertOne(old(docs.store.At(docs.ns)), obj.data, Oid(old(docs.store.nextOid)));
              && (w.Err? ==> r == Fail(w.error) && docs.store.colls == old(docs.store.colls))
              && (w.Ok? ==> r == Pass && docs.store.colls == Stored(old(docs.store.colls), docs.ns, w.value))
    {
      r := docs.InsertOne(obj.data);
    }

    /** `delete_obj(obj)`: `delete_by_id(obj._id)`. */
    method DeleteObj(obj: ModelObject)
      requires docs.store.Valid()
      modifies docs.store
      ensures docs.store.Valid() && docs.store.nextOid == old(docs.store.nextOid)
      ensures docs.store.colls ==
                Stored(old(docs.store.colls), docs.ns, Mongo.DeleteOne(old(docs.store.At(docs.ns)), IdIs(IdOf(obj))).0)
    {
      var deleted := docs.DeleteById(IdOf(obj));
    }

    /** `replace_obj(obj)`: `replace_one({'_id': obj._id}, obj.data)`. */
    method ReplaceObj(obj: ModelObject) returns (r: Outcome)
      requires docs.store.Valid()
      modifies docs.store
      ensures docs.store.Valid() && docs.store.nextOid == old(docs.store.nextOid)
      ensures var w := Mongo.ReplaceById(old(docs.store.At(docs.ns)), IdOf(obj), obj.data);
              && (w.Err? ==> r == Fail(w.error) && docs.store.colls == old(docs.store.colls))
              && (w.Ok? ==> r == Pass && docs.store.colls == Stored(old(docs.store.colls), docs.ns, w.value))
    {
      r := docs.ReplaceById(IdOf(obj), obj.data);
    }

    /** `insert_or_replace_obj(obj)`: as `insert_or_replace_one` on its data,
        which the insert gives its `_id`. */
    method InsertOrReplaceObj(obj: ModelObject) returns (r: Outcome)
      requires docs.store.Valid()
      modifies docs.store
      ensures docs.store.Valid()
      ensures docs.store.nextOid == old(docs.store.nextOid) + (if ID in obj.data then 0 else 1)
      ensures var w := InsertOrReplace(old(docs.store.At(docs.ns)), obj.data, Oid(old(docs.store.nextOid)));
              && (w.Err? ==> r == Fail(w.error) && docs.store.colls == old(docs.store.colls))
              && (w.Ok? ==> r == Pass && docs.store.colls == Stored(old(docs.store.colls), docs.ns, w.value))
    {
      var withId := ModelObject(obj.model, WithId(obj.data, Oid(docs.store.nextOid)));
      var inserted := InsertObj(obj);
      if inserted.Fail? && inserted.error == DuplicateKeyError {
        r := ReplaceObj(withId);
      } else {
        r := inserted;
      }
    }
  }

  /** `MongoDocRepo(name, db)`: a configured collection is provisioned in its
      configured database; any other collection is bound to `db`, which must
      be given (the driver refuses a database name of None). */
  method OpenDocRepo(store: Store, name: string, db: Option<string>) returns (r: Result<DocRepo>)
    requires store.Valid()
    modifies store
    ensures store.Valid() && store.nextOid == old(store.nextOid)
    ensures name in store.registry.entries ==>
              var ns := (store.registry.entries[name].db, name);
              && r.Ok? && r.value.store == store && r.value.ns == ns
              && (ns in old(store.colls) ==> store.colls == old(store.colls))
              && (ns !in old(store.colls) ==>
                    store.colls == old(store.colls)[ns := Provisioned(store.registry.entries[name].indices)])
    ensures name !in store.registry.entries ==> store.colls == old(store.colls)
    ensures name !in store.registry.entries && db.None? ==> r == Err(TypeError)
    ensures name !in store.registry.entries && db.Some? ==>
              r.Ok? && r.value.store == store && r.value.ns == (db.value, name)
  {
    if name in store.registry.entries {
      var ns := store.Collection(name);
      var repo := new DocRepo(store, ns.value);
      return Ok(repo);
    }
    if db.None? {
      return Err(TypeError);
    }
    var repo := new DocRepo(store, (db.value, name));
    return Ok(repo);
  }

  /** `MongoRepo(name)`: KeyError for a collection that is not configured;
      otherwise the object repository of its configured database and model,
      provisioned when missing. */
  method OpenMongoRepo(store: Store, name: string) returns (r: Result<ObjRepo>)
    requires store.Valid()
    modifies store
    ensures store.Valid() && store.nextOid == old(store.nextOid)
    ensures name !in store.registry.entries ==> r == Err(KeyError(name)) && store.colls == old(store.colls)
    ensures name in store.registry.entries ==>
              var decl := store.registry.entries[name];
              var ns := (decl.db, name);
              && r.Ok? && r.value.docs.store == store && r.value.docs.ns == ns && r.value.model == decl.model
              && (ns in old(store.colls) ==> store.colls == old(store.colls))
              && (ns !in old(store.colls) ==> store.colls == old(store.colls)[ns := Provisioned(decl.indices)])
  {
    if name !in store.registry.entries {
      return Err(KeyError(name));
    }
    var decl := store.registry.entries[name];
    var docs := OpenDocRepo(store, name, Some(decl.db));
    var repo := new ObjRepo(docs.value, decl.model);
    return Ok(repo);
  }
}
