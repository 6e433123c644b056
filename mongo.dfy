/** The in-memory collection the repositories of mongo_odm/repos/repo.py
    work against. A collection holds its documents keyed by `_id`, in natural
    (insertion) order, and the record of the `create_index` calls made on it.
    Query filters are predicates on documents. Each function here is the
    effect of one driver call the repositories make. */
module Mongo {
  import opened Values
  import opened Dicts

  /** A query filter. */
  type Filter = Doc -> bool

  /** The empty filter `{}`. */
  function MatchAll(): Filter
  {
    (d: Doc) => true
  }

  /** The filter `{'_id': id}`. */
  function IdIs(id: Value): Filter
  {
    (d: Doc) => ID in d && d[ID] == id
  }

  /** One `create_index(keys, unique=..., [name=...])` call. */
  datatype IndexCall = IndexCall(keys: seq<(Value, int)>, unique: Value, name: Option<Value>)

  datatype Coll = Coll(docs: Dict<Value, Doc>, indexCalls: seq<IndexCall>) {
    /** Every document is stored under its own `_id`. */
    ghost predicate WellFormed()
    {
      && docs.Valid()
      && forall k :: k in docs.entries ==> ID in docs.entries[k] && docs.entries[k][ID] == k
    }
  }

  function EmptyColl(): (c: Coll)
    ensures c.WellFormed() && c.docs.keys == []
  {
    Coll(Empty(), [])
  }

  /** The documents of the given ids, in that order. */
  function DocsOf(ks: seq<Value>, e: map<Value, Doc>): (ds: seq<Doc>)
    requires forall k :: k in ks ==> k in e
    ensures |ds| == |ks|
    ensures forall i :: 0 <= i < |ks| ==> ds[i] == e[ks[i]]
  {
    if ks == [] then []
    else DocsOf(ks[..|ks| - 1], e) + [e[ks[|ks| - 1]]]
  }

  /** The documents in natural order. */
  function Docs(c: Coll): (ds: seq<Doc>)
    requires c.WellFormed()
    ensures |ds| == |c.docs.keys|
    ensures forall i :: 0 <= i < |ds| ==> ds[i] == c.docs.entries[c.docs.keys[i]]
    ensures forall i :: 0 <= i < |ds| ==> ds[i][ID] == c.docs.keys[i]
  {
    DocsOf(c.docs.keys, c.docs.entries)
  }

  /** The elements of `ds` that satisfy `f`, in order. */
  function Select(ds: seq<Doc>, f: Filter): (r: seq<Doc>)
    ensures |r| <= |ds|
    ensures forall d :: d in r <==> d in ds && f(d)
  {
    if ds == [] then []
    else
      var r := Select(ds[..|ds| - 1], f);
      assert forall d :: d in ds <==> d in ds[..|ds| - 1] || d == ds[|ds| - 1];
      if f(ds[|ds| - 1]) then r + [ds[|ds| - 1]] else r
  }

  /** What `find(filter)` returns before sorting, skipping and limiting:
      the matching documents in natural order. */
  function Found(c: Coll, f: Filter): seq<Doc>
    requires c.WellFormed()
  {
    Select(Docs(c), f)
  }

  /** The ids of the documents that match a filter. */
  function Matching(c: Coll, f: Filter): set<Value>
  {
    set k | k in c.docs.entries && f(c.docs.entries[k])
  }

  /** `count_documents(filter)`. */
  function Count(c: Coll, f: Filter): nat
  {
    |Matching(c, f)|
  }

  /** The ids in `ks` of the documents that match. */
  function MatchingIn(ks: seq<Value>, e: map<Value, Doc>, f: Filter): set<Value>
  {
    set k | k in ks && k in e && f(e[k])
  }

  lemma {:induction false} SelectCounts(ks: seq<Value>, e: map<Value, Doc>, f: Filter)
    requires forall k :: k in ks ==> k in e
    requires forall i, j :: 0 <= i < j < |ks| ==> ks[i] != ks[j]
    ensures |Select(DocsOf(ks, e), f)| == |MatchingIn(ks, e, f)|
  {
    if ks != [] {
      var init := ks[..|ks| - 1];
      var k := ks[|ks| - 1];
      SelectCounts(init, e, f);
      assert DocsOf(ks, e)[..|ks| - 1] == DocsOf(init, e);
      assert k !in init;
      if f(e[k]) {
        assert MatchingIn(ks, e, f) == MatchingIn(init, e, f) + {k};
      } else {
        assert MatchingIn(ks, e, f) == MatchingIn(init, e, f);
      }
    }
  }

  /** The count of a filter is the number of documents `find` returns for it. */
  lemma CountIsFoundLength(c: Coll, f: Filter)
    requires c.WellFormed()
    ensures Count(c, f) == |Found(c, f)|
  {
    SelectCounts(c.docs.keys, c.docs.entries, f);
    MatchingInKeys(c, f);
  }

  lemma MatchingInKeys(c: Coll, f: Filter)
    requires c.docs.Valid()
    ensures MatchingIn(c.docs.keys, c.docs.entries, f) == Matching(c, f)
  {
    var e := c.docs.entries;
    forall k ensures k in MatchingIn(c.docs.keys, e, f) <==> k in Matching(c, f) {
      assert k in c.docs.keys <==> k in e;
    }
  }

  /** The empty filter counts the whole collection. */
  lemma CountAll(c: Coll)
    requires c.WellFormed()
    ensures Count(c, MatchAll()) == |c.docs.keys|
    ensures Found(c, MatchAll()) == Docs(c)
  {
    SelectAll(Docs(c));
    CountIsFoundLength(c, MatchAll());
  }

  lemma {:induction false} SelectAll(ds: seq<Doc>)
    ensures Select(ds, MatchAll()) == ds
  {
    if ds != [] {
      SelectAll(ds[..|ds| - 1]);
      assert ds[..|ds| - 1] + [ds[|ds| - 1]] == ds;
    }
  }

  /** At most one document has a given `_id`: the one stored under it. */
  lemma CountId(c: Coll, id: Value)
    requires c.WellFormed()
    ensures Count(c, IdIs(id)) == if id in c.docs.entries then 1 else 0
  {
    if id in c.docs.entries {
      assert Matching(c, IdIs(id)) == {id};
    } else {
      assert Matching(c, IdIs(id)) == {};
    }
  }

  /** The key of a document in an index: the value of each indexed field,
      null where the document lacks it. A key name that is not a string
      names no field. */
  function IndexKey(d: Doc, keys: seq<(Value, int)>): (key: seq<Value>)
    ensures |key| == |keys|
    ensures forall i :: 0 <= i < |keys| && keys[i].0.Str? ==> key[i] == FieldOrNull(d, keys[i].0.s)
  {
    seq(|keys|, i requires 0 <= i < |keys| => if keys[i].0.Str? then FieldOrNull(d, keys[i].0.s) else Null)
  }

  /** Two documents collide in an index that is unique when they have the
      same key in it. */
  predicate Collides(call: IndexCall, d: Doc, other: Doc)
  {
    Truthy(call.unique) && IndexKey(d, call.keys) == IndexKey(other, call.keys)
  }

  /** Storing `d` under `id` would break a unique index: a document stored
      under another id has the same key in it. */
  predicate UniqueClash(c: Coll, id: Value, d: Doc)
  {
    exists k, call :: k in c.docs.entries && k != id && call in c.indexCalls && Collides(call, d, c.docs.entries[k])
  }

  /** No `create_index` call on the collection asked for a unique index. */
  predicate NoUniqueIndex(c: Coll)
  {
    forall call :: call in c.indexCalls ==> !Truthy(call.unique)
  }

  /** Without a unique index no document can clash. */
  lemma NoUniqueNoClash(c: Coll, id: Value, d: Doc)
    requires NoUniqueIndex(c)
    ensures !UniqueClash(c, id, d)
  {
  }

  /** `insert_one(doc)`: the driver gives a document without `_id` the
      generated id `newId`; an id that is taken, or a key that a unique
      index already holds, fails. */
  function InsertOne(c: Coll, doc: Doc, newId: Value): (r: Result<Coll>)
    ensures c.WellFormed() && r.Ok? ==> r.value.WellFormed()
    ensures r.Ok? ==> r.value.indexCalls == c.indexCalls
  {
    var id := if ID in doc then doc[ID] else newId;
    if id in c.docs.entries || UniqueClash(c, id, doc[ID := id]) then Err(DuplicateKeyError)
    else Ok(c.(docs := c.docs.Set(id, doc[ID := id])))
  }

  /** A plain insert of a document whose `_id` is taken, or whose key in a
      unique index another document has, fails and changes nothing;
      otherwise it appends the document in natural order. */
  lemma InsertOneOutcome(c: Coll, doc: Doc, newId: Value)
    requires c.WellFormed()
    ensures var id := if ID in doc then doc[ID] else newId;
            && (InsertOne(c, doc, newId).Err? <==> id in c.docs.entries || UniqueClash(c, id, doc[ID := id]))
            && (InsertOne(c, doc, newId).Err? ==> InsertOne(c, doc, newId).error == DuplicateKeyError)
            && (InsertOne(c, doc, newId).Ok? ==>
                  && InsertOne(c, doc, newId).value.docs.entries == c.docs.entries[id := doc[ID := id]]
                  && InsertOne(c, doc, newId).value.docs.keys == c.docs.keys + [id])
  {
  }

  /** `replace_one({'_id': id}, doc)`: no match changes nothing; a
      replacement that carries another `_id` is refused, and so is one
      whose key a unique index holds for another document. */
  function ReplaceById(c: Coll, id: Value, doc: Doc): (r: Result<Coll>)
    ensures c.WellFormed() && r.Ok? ==> r.value.WellFormed()
    ensures c.WellFormed() && r.Ok? ==> r.value.docs.keys == c.docs.keys
    ensures r.Err? <==> id in c.docs.entries && ((ID in doc && doc[ID] != id) || UniqueClash(c, id, doc[ID := id]))
    ensures r.Err? ==> r.error == if ID in doc && doc[ID] != id then WriteError else DuplicateKeyError
  {
    if id !in c.docs.entries then Ok(c)
    else if ID in doc && doc[ID] != id then Err(WriteError)
    else if UniqueClash(c, id, doc[ID := id]) then Err(DuplicateKeyError)
    else
      assert id in c.docs.keys ==> c.docs.Set(id, doc[ID := id]).keys == c.docs.keys;
      Ok(c.(docs := c.docs.Set(id, doc[ID := id])))
  }

  /** `replace_one(doc)` of MongoDocRepo: the filter is `doc['_id']`. */
  function ReplaceOne(c: Coll, doc: Doc): (r: Result<Coll>)
    ensures ID !in doc ==> r == Err(KeyError(ID))
    ensures ID in doc && doc[ID] !in c.docs.entries ==> r == Ok(c)
    ensures c.WellFormed() && r.Ok? ==> r.value.WellFormed()
  {
    if ID !in doc then Err(KeyError(ID)) else ReplaceById(c, doc[ID], doc)
  }

  /** The document as `insert_one` leaves it: the driver writes the
      generated `_id` into the caller's document. */
  function WithId(doc: Doc, newId: Value): (d: Doc)
    ensures ID in d && d[ID] == (if ID in doc then doc[ID] else newId)
    ensures forall f :: f != ID ==> (f in d <==> f in doc) && (f in d ==> d[f] == doc[f])
  {
    if ID in doc then doc else doc[ID := newId]
  }

  /** `insert_or_replace_one(doc)`: a duplicate key turns into a replace of
      the document, which by then carries its `_id`. */
  function InsertOrReplace(c: Coll, doc: Doc, newId: Value): (r: Result<Coll>)
  {
    var inserted := InsertOne(c, doc, newId);
    if inserted.Err? && inserted.error == DuplicateKeyError then ReplaceOne(c, WithId(doc, newId))
    else inserted
  }

  /** Unless a unique index refuses it, after `insert_or_replace_one(doc)`
      exactly one document has the id of `doc` (its own, or the generated
      one), it is `doc` with that id, and every other document is as it
      was. */
  lemma InsertOrReplaceStores(c: Coll, doc: Doc, newId: Value)
    requires c.WellFormed()
    ensures var d := WithId(doc, newId);
            var w := InsertOrReplace(c, doc, newId);
            !UniqueClash(c, d[ID], d) ==>
            && w.Ok?
            && var n := w.value;
            && n.WellFormed()
            && d[ID] in n.docs.entries && n.docs.entries[d[ID]] == d
            && Count(n, IdIs(d[ID])) == 1
            && (forall k :: k != d[ID] ==>
                  (k in n.docs.entries <==> k in c.docs.entries) &&
                  (k in c.docs.entries ==> n.docs.entries[k] == c.docs.entries[k]))
  {
    var d := WithId(doc, newId);
    if !UniqueClash(c, d[ID], d) {
      var n := c.(docs := c.docs.Set(d[ID], d));
      InsertOrReplaceSets(c, doc, newId);
      assert n.WellFormed();
      CountId(n, d[ID]);
    }
  }

  /** When a unique index holds the key of the document for another one,
      `insert_or_replace_one` fails on a stored id and, on an id that is
      not stored, replaces nothing and reports nothing. */
  lemma InsertOrReplaceClash(c: Coll, doc: Doc, newId: Value)
    requires c.WellFormed()
    ensures var d := WithId(doc, newId);
            UniqueClash(c, d[ID], d) ==>
              InsertOrReplace(c, doc, newId) == if d[ID] in c.docs.entries then Err(DuplicateKeyError) else Ok(c)
  {
    var d := WithId(doc, newId);
    assert doc[ID := d[ID]] == d;
    assert d[ID := d[ID]] == d;
  }

  /** Without a unique-index clash `insert_or_replace_one` sets the
      document, with its id, under that id. */
  lemma InsertOrReplaceSets(c: Coll, doc: Doc, newId: Value)
    requires c.WellFormed() && !UniqueClash(c, WithId(doc, newId)[ID], WithId(doc, newId))
    ensures var d := WithId(doc, newId);
            InsertOrReplace(c, doc, newId) == Ok(c.(docs := c.docs.Set(d[ID], d)))
  {
    var d := WithId(doc, newId);
    var id := d[ID];
    assert id == if ID in doc then doc[ID] else newId;
    assert doc[ID := id] == d;
    if id in c.docs.entries {
      assert InsertOne(c, doc, newId) == Err(DuplicateKeyError);
      ReplaceByIdSets(c, id, d);
      assert ReplaceOne(c, d) == ReplaceById(c, id, d);
    } else {
      assert InsertOne(c, doc, newId) == Ok(c.(docs := c.docs.Set(id, d)));
    }
  }

  /** A replace of a stored document by one with the same `_id` that no
      unique index refuses stores it. */
  lemma ReplaceByIdSets(c: Coll, id: Value, d: Doc)
    requires id in c.docs.entries && ID in d && d[ID] == id && !UniqueClash(c, id, d)
    ensures ReplaceById(c, id, d) == Ok(c.(docs := c.docs.Set(id, d)))
  {
    assert d[ID := id] == d;
  }

  /** The document a `$set` of `update` on `id` leaves: the stored one
      with the update's fields, or a new one of the update and the id. */
  function Merged(c: Coll, id: Value, update: Doc): Doc
  {
    if id in c.docs.entries then c.docs.entries[id] + update else map[ID := id] + update
  }

  /** The `$set` update of one document: with no match and no upsert
      nothing changes; an update that would change `_id` is refused, and so
      is one whose result a unique index holds for another document. */
  function UpdateSet(c: Coll, id: Value, update: Doc, upsert: bool): (r: Result<Coll>)
    ensures c.WellFormed() && r.Ok? ==> r.value.WellFormed()
    ensures r.Ok? ==> r.value.indexCalls == c.indexCalls
    ensures id !in c.docs.entries && !upsert ==> r == Ok(c)
    ensures r.Err? <==> (id in c.docs.entries || upsert) &&
                        ((ID in update && update[ID] != id) || UniqueClash(c, id, Merged(c, id, update)))
    ensures r.Err? ==> r.error == if ID in update && update[ID] != id then WriteError else DuplicateKeyError
  {
    if id !in c.docs.entries && !upsert then Ok(c)
    else if ID in update && update[ID] != id then Err(WriteError)
    else if UniqueClash(c, id, Merged(c, id, update)) then Err(DuplicateKeyError)
    else Ok(c.(docs := c.docs.Set(id, Merged(c, id, update))))
  }

  /** `$set` merges: the updated document has every field of the update,
      keeps every other field it had, and an upserted one holds only the
      update and its `_id`; every other document is as it was. */
  lemma UpdateSetMerges(c: Coll, id: Value, update: Doc, upsert: bool)
    requires UpdateSet(c, id, update, upsert).Ok? && (id in c.docs.entries || upsert)
    ensures var n := UpdateSet(c, id, update, upsert).value.docs.entries;
            && id in n
            && (forall f :: f in update ==> f in n[id] && n[id][f] == update[f])
            && (id in c.docs.entries ==>
                  forall f :: f in c.docs.entries[id] && f !in update ==>
                    f in n[id] && n[id][f] == c.docs.entries[id][f])
            && (id !in c.docs.entries ==> n[id].Keys == update.Keys + {ID})
            && (forall k :: k != id ==> (k in n <==> k in c.docs.entries))
            && (forall k :: k != id && k in n ==> n[k] == c.docs.entries[k])
  {
    var e := c.docs.entries;
    var merged := Merged(c, id, update);
    var n := UpdateSet(c, id, update, upsert).value.docs.entries;
    assert n == e[id := merged];
    assert n[id] == merged;
    if id !in e {
      assert merged.Keys == update.Keys + {ID};
    }
  }

  /** The outcome of an unordered `bulk_write`. */
  datatype BulkSummary = BulkSummary(inserted: nat, matched: nat, upserted: nat)

  /** The state after an unordered batch of inserts, executed in the given
      order, with the number of inserts that succeeded and failed; the i-th
      document, when it has no `_id`, gets `Oid(next + i)`. */
  datatype Batch = Batch(coll: Coll, succeeded: nat, failed: nat)

  function InsertAll(c: Coll, docs: seq<Doc>, next: nat): (b: Batch)
    ensures b.succeeded + b.failed == |docs|
    ensures c.WellFormed() ==> b.coll.WellFormed()
    ensures b.coll.indexCalls == c.indexCalls
  {
    if docs == [] then Batch(c, 0, 0)
    else
      var b := InsertAll(c, docs[..|docs| - 1], next);
      var r := InsertOne(b.coll, docs[|docs| - 1], Oid(next + |docs| - 1));
      if r.Ok? then Batch(r.value, b.succeeded + 1, b.failed) else Batch(b.coll, b.succeeded, b.failed + 1)
  }

  /** On a collection without a unique index, the unordered batch fails
      only those inserts whose id is already stored or taken by an earlier
      insert of the batch; every other insert of it is stored. */
  lemma {:induction false} InsertAllStores(c: Coll, docs: seq<Doc>, next: nat, i: nat)
    requires c.WellFormed() && NoUniqueIndex(c) && i < |docs|
    requires ID in docs[i]
    ensures docs[i][ID] in InsertAll(c, docs, next).coll.docs.entries
    ensures docs[i][ID] !in c.docs.entries &&
            (forall j :: 0 <= j < i ==> !(ID in docs[j] && docs[j][ID] == docs[i][ID])) &&
            (forall j :: 0 <= j < i ==> ID in docs[j] || Oid(next + j) != docs[i][ID]) ==>
              InsertAll(c, docs, next).coll.docs.entries[docs[i][ID]] == docs[i]
    decreases |docs|
  {
    var init := docs[..|docs| - 1];
    if i < |docs| - 1 {
      assert init[i] == docs[i];
      InsertAllStores(c, init, next, i);
      InsertAllKeeps(c, docs, next, docs[i][ID]);
    } else {
      InsertAllStoresLast(c, docs, next);
    }
  }

  /** The last insert of the batch leaves every document stored before it
      as it was. */
  lemma InsertAllKeeps(c: Coll, docs: seq<Doc>, next: nat, k: Value)
    requires c.WellFormed() && docs != []
    requires k in InsertAll(c, docs[..|docs| - 1], next).coll.docs.entries
    ensures k in InsertAll(c, docs, next).coll.docs.entries
    ensures InsertAll(c, docs, next).coll.docs.entries[k] == InsertAll(c, docs[..|docs| - 1], next).coll.docs.entries[k]
  {
    var b := InsertAll(c, docs[..|docs| - 1], next);
    var r := InsertOne(b.coll, docs[|docs| - 1], Oid(next + |docs| - 1));
    InsertOneOutcome(b.coll, docs[|docs| - 1], Oid(next + |docs| - 1));
    if r.Ok? {
      assert InsertAll(c, docs, next).coll == r.value;
    } else {
      assert InsertAll(c, docs, next).coll == b.coll;
    }
  }

  /** Without a unique index the last insert of the batch stores its
      document when its id is new to the collection and to the batch. */
  lemma InsertAllStoresLast(c: Coll, docs: seq<Doc>, next: nat)
    requires c.WellFormed() && NoUniqueIndex(c) && docs != [] && ID in docs[|docs| - 1]
    ensures var d := docs[|docs| - 1];
            && d[ID] in InsertAll(c, docs, next).coll.docs.entries
            && (d[ID] !in c.docs.entries &&
                (forall j :: 0 <= j < |docs| - 1 ==> !(ID in docs[j] && docs[j][ID] == d[ID])) &&
                (forall j :: 0 <= j < |docs| - 1 ==> ID in docs[j] || Oid(next + j) != d[ID]) ==>
                  InsertAll(c, docs, next).coll.docs.entries[d[ID]] == d)
  {
    var init := docs[..|docs| - 1];
    var b := InsertAll(c, init, next);
    var d := docs[|docs| - 1];
    InsertOneOutcome(b.coll, d, Oid(next + |docs| - 1));
    NoUniqueNoClash(b.coll, d[ID], d[ID := d[ID]]);
    assert d[ID := d[ID]] == d;
    if d[ID] !in c.docs.entries &&
       (forall j :: 0 <= j < |docs| - 1 ==> !(ID in docs[j] && docs[j][ID] == d[ID])) &&
       (forall j :: 0 <= j < |docs| - 1 ==> ID in docs[j] || Oid(next + j) != d[ID]) {
      forall j | 0 <= j < |init|
        ensures (if ID in init[j] then init[j][ID] else Oid(next + j)) != d[ID]
      {
        assert init[j] == docs[j];
      }
      InsertAllIds(c, init, next, d[ID]);
    }
  }

  /** An id that no insert of the batch carries or is given is stored after
      the batch exactly when it was stored before. */
  lemma {:induction false} InsertAllIds(c: Coll, docs: seq<Doc>, next: nat, id: Value)
    requires forall j :: 0 <= j < |docs| ==> (if ID in docs[j] then docs[j][ID] else Oid(next + j)) != id
    ensures id in InsertAll(c, docs, next).coll.docs.entries <==> id in c.docs.entries
  {
    if docs != [] {
      var init := docs[..|docs| - 1];
      forall j | 0 <= j < |init|
        ensures (if ID in init[j] then init[j][ID] else Oid(next + j)) != id
      {
        assert init[j] == docs[j];
      }
      InsertAllIds(c, init, next, id);
    }
  }

  /** `bulk_insert` on a non-empty batch: the successful inserts stay even
      when some fail, and any failure is then reported. */
  function BulkInsertResult(b: Batch): (r: Result<BulkSummary>)
    ensures r.Err? <==> b.failed > 0
    ensures r.Err? ==> r.error == BulkWriteError(b.failed)
    ensures r.Ok? ==> r.value.inserted == b.succeeded
  {
    if b.failed > 0 then Err(BulkWriteError(b.failed)) else Ok(BulkSummary(b.succeeded, 0, 0))
  }

  /** The state after the upserting `$set` of every document of a batch, in
      order, with how many of them matched a stored document, how many
      inserted one and how many a unique index refused. */
  datatype Upserts = Upserts(coll: Coll, matched: nat, upserted: nat, failed: nat)

  function UpdateAll(c: Coll, docs: seq<Doc>): (b: Upserts)
    requires forall i :: 0 <= i < |docs| ==> ID in docs[i]
    ensures c.WellFormed() ==> b.coll.WellFormed()
    ensures b.coll.indexCalls == c.indexCalls
    ensures b.matched + b.upserted + b.failed == |docs|
  {
    if docs == [] then Upserts(c, 0, 0, 0)
    else
      var b := UpdateAll(c, docs[..|docs| - 1]);
      var d := docs[|docs| - 1];
      var r := UpdateSet(b.coll, d[ID], d, true);
      if r.Err? then Upserts(b.coll, b.matched, b.upserted, b.failed + 1)
      else if d[ID] in b.coll.docs.entries then Upserts(r.value, b.matched + 1, b.upserted, b.failed)
      else Upserts(r.value, b.matched, b.upserted + 1, b.failed)
  }

  /** Without a unique index every `$set` of the batch succeeds. */
  lemma {:induction false} UpdateAllNoUnique(c: Coll, docs: seq<Doc>)
    requires forall i :: 0 <= i < |docs| ==> ID in docs[i]
    requires NoUniqueIndex(c)
    ensures UpdateAll(c, docs).failed == 0
  {
    if docs != [] {
      var init := docs[..|docs| - 1];
      var d := docs[|docs| - 1];
      UpdateAllNoUnique(c, init);
      NoUniqueNoClash(UpdateAll(c, init).coll, d[ID], Merged(UpdateAll(c, init).coll, d[ID], d));
    }
  }

  /** `bulk_update` on a non-empty batch: the successful `$set`s stay even
      when some fail, and any failure is then reported. */
  function BulkUpdateResult(u: Upserts): (r: Result<BulkSummary>)
    ensures r.Err? <==> u.failed > 0
    ensures r.Err? ==> r.error == BulkWriteError(u.failed)
    ensures r.Ok? ==> r.value.matched == u.matched && r.value.upserted == u.upserted
  {
    if u.failed > 0 then Err(BulkWriteError(u.failed)) else Ok(BulkSummary(0, u.matched, u.upserted))
  }

  /** After a batch that no unique index refused, every document of it is
      stored under its `_id` with its fields set, and a field it does not
      set keeps its old value, provided no two documents of the batch share
      an `_id`. */
  lemma {:induction false} UpdateAllSets(c: Coll, docs: seq<Doc>, i: nat)
    requires forall j :: 0 <= j < |docs| ==> ID in docs[j]
    requires forall j, k :: 0 <= j < k < |docs| ==> docs[j][ID] != docs[k][ID]
    requires UpdateAll(c, docs).failed == 0
    requires i < |docs|
    ensures var n := UpdateAll(c, docs).coll.docs.entries;
            var id := docs[i][ID];
            && id in n
            && (forall f :: f in docs[i] ==> f in n[id] && n[id][f] == docs[i][f])
            && (id in c.docs.entries ==>
                  forall f :: f in c.docs.entries[id] && f !in docs[i] ==> f in n[id] && n[id][f] == c.docs.entries[id][f])
    decreases |docs|
  {
    var init := docs[..|docs| - 1];
    var d := docs[|docs| - 1];
    var b := UpdateAll(c, init);
    UpdateSetMerges(b.coll, d[ID], d, true);
    if i < |docs| - 1 {
      assert init[i] == docs[i];
      UpdateAllSets(c, init, i);
      assert docs[i][ID] != d[ID];
    } else {
      forall j | 0 <= j < |init| ensures init[j][ID] != d[ID] {
        assert init[j] == docs[j];
      }
      UntouchedById(c, init, d[ID]);
    }
  }

  /** A document whose id the batch does not mention keeps its value. */
  lemma {:induction false} UntouchedById(c: Coll, docs: seq<Doc>, id: Value)
    requires forall j :: 0 <= j < |docs| ==> ID in docs[j]
    requires forall j :: 0 <= j < |docs| ==> docs[j][ID] != id
    ensures id in UpdateAll(c, docs).coll.docs.entries <==> id in c.docs.entries
    ensures id in c.docs.entries ==> UpdateAll(c, docs).coll.docs.entries[id] == c.docs.entries[id]
  {
    if docs != [] {
      var init := docs[..|docs| - 1];
      var d := docs[|docs| - 1];
      forall j | 0 <= j < |init| ensures init[j][ID] != id {
        assert init[j] == docs[j];
      }
      UntouchedById(c, init, id);
      if UpdateSet(UpdateAll(c, init).coll, d[ID], d, true).Ok? {
        UpdateSetMerges(UpdateAll(c, init).coll, d[ID], d, true);
      }
    }
  }

  /** `delete_many(filter)`: every matching document goes. */
  function DeleteMany(c: Coll, f: Filter): (r: Coll)
    ensures c.WellFormed() ==> r.WellFormed()
    ensures forall k :: k in r.docs.entries <==> k in c.docs.entries && !f(c.docs.entries[k])
    ensures forall k :: k in r.docs.entries ==> r.docs.entries[k] == c.docs.entries[k]
  {
    c.(docs := c.docs.Filter((k: Value) => k in c.docs.entries && !f(c.docs.entries[k])))
  }

  /** The first id in `ks` whose document matches. */
  function FirstMatch(ks: seq<Value>, e: map<Value, Doc>, f: Filter): (r: Option<Value>)
    ensures r.None? <==> forall i :: 0 <= i < |ks| ==> !(ks[i] in e && f(e[ks[i]]))
    ensures r.Some? ==> exists i :: 0 <= i < |ks| && ks[i] == r.value && r.value in e && f(e[r.value]) &&
                                    forall j :: 0 <= j < i ==> !(ks[j] in e && f(e[ks[j]]))
  {
    if ks == [] then None
    else if ks[0] in e && f(e[ks[0]]) then Some(ks[0])
    else
      FirstMatch(ks[1..], e, f)
  }

  /** In a well-formed collection the scan in natural order finds a match
      exactly when there is one. */
  lemma FirstMatchExists(c: Coll, f: Filter)
    requires c.WellFormed()
    ensures FirstMatch(c.docs.keys, c.docs.entries, f).None? <==> Matching(c, f) == {}
    ensures FirstMatch(c.docs.keys, c.docs.entries, f).Some? ==>
              FirstMatch(c.docs.keys, c.docs.entries, f).value in Matching(c, f)
  {
    var first := FirstMatch(c.docs.keys, c.docs.entries, f);
    if first.None? {
      forall k | k in c.docs.entries ensures !f(c.docs.entries[k]) {
        assert k in c.docs.keys;
        var i :| 0 <= i < |c.docs.keys| && c.docs.keys[i] == k;
      }
      assert Matching(c, f) == {};
    } else {
      assert first.value in Matching(c, f);
    }
  }

  /** `delete_one(filter)`, with the `deleted_count` of its result. */
  function DeleteOne(c: Coll, f: Filter): (r: (Coll, nat))
    requires c.WellFormed()
    ensures r.0.WellFormed()
    ensures r.1 == if Count(c, f) == 0 then 0 else 1
  {
    FirstMatchExists(c, f);
    var first := FirstMatch(c.docs.keys, c.docs.entries, f);
    match first
    case None => (c, 0)
    case Some(k) => (c.(docs := c.docs.Remove(k)), 1)
  }

  /** `delete_one` removes exactly one matching document, the first in
      natural order, when there is one. */
  lemma DeleteOneRemovesFirst(c: Coll, f: Filter)
    requires c.WellFormed() && Count(c, f) > 0
    ensures var k := FirstMatch(c.docs.keys, c.docs.entries, f).value;
            && k in c.docs.entries && f(c.docs.entries[k])
            && DeleteOne(c, f).0.docs.entries == c.docs.entries - {k}
  {
    FirstMatchExists(c, f);
  }

  /** The sort of a `find`: one field and a direction. */
  datatype Sorting = Sorting(field: string, direction: int)

  /** Skip, then limit, as the server applies them: a zero limit means no
      limit and a negative one is taken by its magnitude. */
  function Window<T>(s: seq<T>, skip: nat, limit: int): (w: seq<T>)
    ensures var t := if skip < |s| then s[skip..] else [];
            var n := if limit < 0 then -limit else limit;
            && (n == 0 || |t| <= n ==> w == t)
            && (0 < n < |t| ==> w == t[..n])
  {
    var t := if skip < |s| then s[skip..] else [];
    var n := if limit < 0 then -limit else limit;
    if n == 0 || |t| <= n then t else t[..n]
  }

  /** A projection mentions a field other than `_id` with True. */
  predicate Includes(p: map<string, bool>)
  {
    exists f :: f in p && f != ID && p[f]
  }

  /** A projection mentions a field other than `_id` with False. */
  predicate Excludes(p: map<string, bool>)
  {
    exists f :: f in p && f != ID && !p[f]
  }

  /** The server refuses a projection that both includes and excludes
      fields other than `_id`. */
  predicate ProjectionValid(p: map<string, bool>)
  {
    !(Includes(p) && Excludes(p))
  }

  /** Inclusion projections list what to keep; `{'_id': True}` alone is one. */
  predicate InclusionMode(p: map<string, bool>)
  {
    Includes(p) || (!Excludes(p) && ID in p && p[ID])
  }

  /** The document a projection leaves: an inclusion projection keeps the
      fields it includes and `_id` unless told not to; an exclusion
      projection drops the fields it excludes. */
  function ApplyProjection(d: Doc, p: map<string, bool>): (r: Doc)
    ensures forall f :: f in r ==> f in d && r[f] == d[f]
    ensures forall f :: f in d && f in p && p[f] && f != ID ==> f in r
    ensures forall f :: f in d && f in p && !p[f] ==> f !in r
  {
    if InclusionMode(p) then
      map f | f in d && (if f == ID then !(ID in p && !p[ID]) else f in p && p[f]) :: d[f]
    else
      map f | f in d && !(f in p && !p[f]) :: d[f]
  }

  /** The server's sort reorders a query's matches and neither drops nor
      duplicates any of them. */
  ghost predicate Arranges(arrange: (seq<Doc>, Sorting) -> seq<Doc>)
  {
    forall ds, s :: multiset(arrange(ds, s)) == multiset(ds)
  }

  /** `find(filter, limit, skip, sort, projection)`. The server's sort is
      the parameter `arrange`; a negative skip is refused by the driver. */
  function Find(c: Coll, f: Filter, limit: int, skip: int, sort: Option<Sorting>,
                projection: Option<map<string, bool>>,
                arrange: (seq<Doc>, Sorting) -> seq<Doc>): (r: Result<seq<Doc>>)
    requires c.WellFormed()
    ensures skip < 0 ==> r == Err(ValueError)
    ensures r.Err? <==> skip < 0 || (projection.Some? && !ProjectionValid(projection.value))
    ensures r.Ok? ==>
              var w := Window(if sort.Some? then arrange(Found(c, f), sort.value) else Found(c, f), skip, limit);
              && |r.value| == |w|
              && forall i :: 0 <= i < |w| ==>
                   r.value[i] == if projection.Some? then ApplyProjection(w[i], projection.value) else w[i]
  {
    if skip < 0 then Err(ValueError)
    else if projection.Some? && !ProjectionValid(projection.value) then Err(OperationFailure)
    else
      var matching := Found(c, f);
      var ordered := if sort.Some? then arrange(matching, sort.value) else matching;
      var w := Window(ordered, skip, limit);
      if projection.None? then Ok(w)
      else Ok(seq(|w|, i requires 0 <= i < |w| => ApplyProjection(w[i], projection.value)))
  }

  /** A sorted query without skip, limit or projection returns the
      matches of its filter, each once, in the server's order. */
  lemma FindSortedKeepsMatches(c: Coll, f: Filter, sort: Sorting, arrange: (seq<Doc>, Sorting) -> seq<Doc>)
    requires c.WellFormed() && Arranges(arrange)
    ensures Find(c, f, 0, 0, Some(sort), None, arrange).Ok?
    ensures multiset(Find(c, f, 0, 0, Some(sort), None, arrange).value) == multiset(Found(c, f))
  {
    var ordered := arrange(Found(c, f), sort);
    assert Window(ordered, 0, 0) == ordered;
  }

  /** Without a sort the server's order does not matter. */
  lemma FindUnsorted(c: Coll, f: Filter, limit: int, skip: int, projection: Option<map<string, bool>>,
                     a1: (seq<Doc>, Sorting) -> seq<Doc>, a2: (seq<Doc>, Sorting) -> seq<Doc>)
    requires c.WellFormed()
    ensures Find(c, f, limit, skip, None, projection, a1) == Find(c, f, limit, skip, None, projection, a2)
  {
  }

  /** `find_one(filter)`: the first match in natural order. */
  function FindOne(c: Coll, f: Filter): (r: Option<Doc>)
    requires c.WellFormed()
    ensures r.None? <==> Count(c, f) == 0
    ensures r.Some? ==> f(r.value) && r.value in Docs(c)
    ensures r.Some? ==> Found(c, f) != [] && r.value == Found(c, f)[0]
  {
    CountIsFoundLength(c, f);
    var found := Found(c, f);
    if found == [] then None else Some(found[0])
  }

  /** The values a `distinct` sees in one field value: the elements of a
      list, or the value itself. */
  function Spread(v: Value): seq<Value>
  {
    if v.Arr? then v.items else [v]
  }

  /** `distinct(key, filter)`, as a set: its order on the server is not
      specified. */
  function Distinct(c: Coll, key: string, f: Filter): (r: set<Value>)
    requires c.WellFormed()
    ensures forall v :: v in r <==> exists d :: d in Found(c, f) && key in d && v in Spread(d[key])
  {
    set d, v | d in Found(c, f) && key in d && v in Spread(d[key]) :: v
  }

  /** The projection `field_values` asks for: the field, and `_id` only
      when it is the field. */
  function FieldProjection(field: string): (p: map<string, bool>)
    ensures field in p && p[field]
    ensures ProjectionValid(p) && InclusionMode(p)
  {
    if field != ID then
      var p := map[field := true, ID := false];
      assert field in p && field != ID && p[field];
      assert !Excludes(p);
      p
    else map[field := true]
  }

  /** The projection of `field_values` leaves the field and nothing else. */
  lemma FieldProjectionKeeps(d: Doc, field: string)
    ensures ApplyProjection(d, FieldProjection(field)) == if field in d then map[field := d[field]] else map[]
  {
    var p := FieldProjection(field);
    var r := ApplyProjection(d, p);
    assert forall f :: f in r ==> f == field;
  }

  /** `doc[field]`, which raises KeyError for a missing field. */
  function GetField(field: string): Doc -> Result<Value>
  {
    (d: Doc) => if field in d then Ok(d[field]) else Err(KeyError(field))
  }

  /** The order of an unsorted query. */
  function KeepOrder(ds: seq<Doc>, s: Sorting): seq<Doc>
  {
    ds
  }

  /** `field_values(field, filter)`: `doc[field]` for every projected match. */
  function FieldValues(c: Coll, field: string, f: Filter): Result<seq<Value>>
    requires c.WellFormed()
  {
    var found := Find(c, f, 0, 0, None, Some(FieldProjection(field)), KeepOrder);
    MapAll(GetField(field), found.value)
  }

  /** The documents `field_values` reads: each match reduced to the field. */
  lemma FieldValuesReads(c: Coll, field: string, f: Filter) returns (docs: seq<Doc>)
    requires c.WellFormed()
    ensures FieldValues(c, field, f) == MapAll(GetField(field), docs)
    ensures |docs| == |Found(c, f)|
    ensures forall i :: 0 <= i < |docs| ==>
              docs[i] == if field in Found(c, f)[i] then map[field := Found(c, f)[i][field]] else map[]
  {
    var found := Found(c, f);
    assert Window(found, 0, 0) == found;
    docs := Find(c, f, 0, 0, None, Some(FieldProjection(field)), KeepOrder).value;
    forall i | 0 <= i < |found|
      ensures docs[i] == if field in found[i] then map[field := found[i][field]] else map[]
    {
      FieldProjectionKeeps(found[i], field);
    }
  }

  /** `field_values` yields the field of every match, in natural order, and
      raises KeyError exactly when some match lacks the field. */
  lemma FieldValuesMeaning(c: Coll, field: string, f: Filter)
    requires c.WellFormed()
    ensures FieldValues(c, field, f).Ok? <==> forall d :: d in Found(c, f) ==> field in d
    ensures FieldValues(c, field, f).Err? ==> FieldValues(c, field, f).error == KeyError(field)
    ensures FieldValues(c, field, f).Ok? ==>
              var found := Found(c, f);
              var vs := FieldValues(c, field, f).value;
              |vs| == |found| && forall i :: 0 <= i < |found| ==> vs[i] == found[i][field]
  {
    var found := Found(c, f);
    var docs := FieldValuesReads(c, field, f);
    if forall d :: d in found ==> field in d {
      FieldOfEach(field, found, docs);
    } else {
      var d :| d in found && field !in d;
      FieldMissing(field, found, docs, d);
    }
  }

  /** The projected documents of matches that all hold the field. */
  predicate ProjectsField(field: string, found: seq<Doc>, docs: seq<Doc>)
  {
    && |docs| == |found|
    && forall i :: 0 <= i < |docs| ==>
         docs[i] == if field in found[i] then map[field := found[i][field]] else map[]
  }

  lemma FieldOfEach(field: string, found: seq<Doc>, docs: seq<Doc>)
    requires ProjectsField(field, found, docs)
    requires forall d :: d in found ==> field in d
    ensures var r := MapAll(GetField(field), docs);
            r.Ok? && |r.value| == |found| && forall i :: 0 <= i < |found| ==> r.value[i] == found[i][field]
  {
    var r := MapAll(GetField(field), docs);
    forall i | 0 <= i < |docs| ensures GetField(field)(docs[i]) == Ok(found[i][field]) {
      assert found[i] in found;
    }
    assert r.Ok?;
    forall i | 0 <= i < |found| ensures r.value[i] == found[i][field] {
      assert GetField(field)(docs[i]) == Ok(r.value[i]);
    }
  }

  lemma FieldMissing(field: string, found: seq<Doc>, docs: seq<Doc>, d: Doc)
    requires ProjectsField(field, found, docs)
    requires d in found && field !in d
    ensures MapAll(GetField(field), docs) == Err(KeyError(field))
  {
    var r := MapAll(GetField(field), docs);
    var i :| 0 <= i < |found| && found[i] == d;
    assert GetField(field)(docs[i]).Err?;
    assert r.Err?;
    var k :| 0 <= k < |docs| && GetField(field)(docs[k]) == Err(r.error);
  }

  /** `count_distinct_field_values(field)`: the two `$group` stages yield
      one row with the number of distinct values (a missing field groups as
      null), or no row, and then None, when the collection is empty. */
  function CountDistinct(c: Coll, field: string): Option<nat>
    requires c.WellFormed()
  {
    var groups := set d | d in Docs(c) :: FieldOrNull(d, field);
    if groups == {} then None else Some(|groups|)
  }

  lemma {:induction false} ImageBound(ds: seq<Doc>, field: string)
    ensures |set d | d in ds :: FieldOrNull(d, field)| <= |ds|
  {
    if ds != [] {
      var init := ds[..|ds| - 1];
      ImageBound(init, field);
      assert (set d | d in ds :: FieldOrNull(d, field))
             == (set d | d in init :: FieldOrNull(d, field)) + {FieldOrNull(ds[|ds| - 1], field)};
    }
  }

  /** The distinct count is None exactly for an empty collection, and
      otherwise between 1 and the number of documents. */
  lemma CountDistinctBounds(c: Coll, field: string)
    requires c.WellFormed()
    ensures CountDistinct(c, field).None? <==> c.docs.keys == []
    ensures CountDistinct(c, field).Some? ==> 1 <= CountDistinct(c, field).value <= |c.docs.keys|
  {
    var ds := Docs(c);
    var groups := set d | d in ds :: FieldOrNull(d, field);
    ImageBound(ds, field);
    if ds != [] {
      assert FieldOrNull(ds[0], field) in groups;
    } else {
      assert groups == {};
    }
  }

  /** `all_ids(limit, skip)`: the `_id` of every document the window keeps. */
  function AllIds(c: Coll, limit: int, skip: int): Result<seq<Value>>
    requires c.WellFormed()
  {
    var docs :- Find(c, MatchAll(), limit, skip, None, Some(map[ID := true]), KeepOrder);
    MapAll(GetField(ID), docs)
  }

  /** The projection `{'_id': True}` leaves the id alone. */
  lemma IdProjectionKeepsId(d: Doc)
    requires ID in d
    ensures ApplyProjection(d, map[ID := true]) == map[ID := d[ID]]
  {
    var p := map[ID := true];
    assert !Includes(p) && !Excludes(p);
    var r := ApplyProjection(d, p);
    assert forall f :: f in r ==> f == ID;
  }

  /** The window picks the same positions of two sequences of one length. */
  lemma WindowAt<A, B>(s: seq<A>, t: seq<B>, skip: nat, limit: int)
    requires |s| == |t|
    ensures |Window(s, skip, limit)| == |Window(t, skip, limit)|
    ensures forall i :: 0 <= i < |Window(s, skip, limit)| ==>
              skip + i < |s| && Window(s, skip, limit)[i] == s[skip + i] && Window(t, skip, limit)[i] == t[skip + i]
  {
  }

  /** The documents `all_ids` reads each carry, under `_id`, the id at
      their position of the window over the natural order. */
  lemma AllIdsReads(c: Coll, limit: int, skip: nat)
    requires c.WellFormed()
    ensures var r := Find(c, MatchAll(), limit, skip, None, Some(map[ID := true]), KeepOrder);
            var ks := Window(c.docs.keys, skip, limit);
            && r.Ok? && |r.value| == |ks|
            && forall i :: 0 <= i < |ks| ==> GetField(ID)(r.value[i]) == Ok(ks[i])
  {
    CountAll(c);
    var ds := Docs(c);
    var w := Window(ds, skip, limit);
    var ks := Window(c.docs.keys, skip, limit);
    WindowAt(ds, c.docs.keys, skip, limit);
    var p := map[ID := true];
    assert !Includes(p);
    var docs := Find(c, MatchAll(), limit, skip, None, Some(p), KeepOrder).value;
    forall i | 0 <= i < |w| ensures GetField(ID)(docs[i]) == Ok(ks[i]) {
      IdProjectionKeepsId(w[i]);
    }
  }

  /** `all_ids` lists the ids in natural order, windowed by skip and limit;
      a negative skip raises ValueError. */
  lemma AllIdsInOrder(c: Coll, limit: int, skip: int)
    requires c.WellFormed()
    ensures skip < 0 ==> AllIds(c, limit, skip) == Err(ValueError)
    ensures skip >= 0 ==> AllIds(c, limit, skip) == Ok(Window(c.docs.keys, skip, limit))
  {
    if skip >= 0 {
      AllIdsReads(c, limit, skip);
      var docs := Find(c, MatchAll(), limit, skip, None, Some(map[ID := true]), KeepOrder).value;
      var r := MapAll(GetField(ID), docs);
      assert r.value == Window(c.docs.keys, skip, limit);
    }
  }
}
