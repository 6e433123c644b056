/** The collection configuration of mongo_odm/config/config.py: the DBS table
    keyed by configuration file name, the `Field`/`Index`/`Collection`
    records derived from parsed YAML, `ORDERS`, `indices`, `get_model` and
    `all_collections`. Parsed YAML is a `Value`; a mapping is `Obj`, a list
    `Arr`. Importing a module is abstracted as a table from importable module
    paths to the names they define. */
module Config {
  import opened Values
  import opened Dicts

  /** pymongo.ASCENDING and pymongo.DESCENDING. */
  const ASCENDING: int := 1
  const DESCENDING: int := -1

  datatype Field = Field(name: Value, order: int)

  /** `unique` defaults to False and `name` to None. */
  datatype Index = Index(fields: seq<Field>, unique: Value, name: Value)

  /** The model class of a collection: the library's `Base`, or class
      `className` of module `modulePath`. */
  datatype ModelType = BaseModel | ModelClass(modulePath: string, className: string)

  datatype Collection = Collection(db: string, indices: seq<Index>, model: ModelType, mongoEc2: bool)

  /** Which names each importable module defines. */
  type Modules = map<string, set<string>>

  /** A value Python cannot hash (a list or a mapping). */
  predicate Unhashable(v: Value)
  {
    v.Arr? || v.Obj?
  }

  /** `ORDERS[key]`. */
  function OrderOf(key: Value): (r: Result<int>)
    ensures r.Ok? <==> key == Str("asc") || key == Str("desc")
    ensures r.Ok? ==> r.value == (if key == Str("asc") then ASCENDING else DESCENDING)
    ensures r.Err? ==> r.error == (if Unhashable(key) then TypeError else KeyError(if key.Str? then key.s else ""))
  {
    if key == Str("asc") then Ok(ASCENDING)
    else if key == Str("desc") then Ok(DESCENDING)
    else if Unhashable(key) then Err(TypeError)
    else Err(KeyError(if key.Str? then key.s else ""))
  }

  /** `v[key]` on a parsed YAML value. */
  function Lookup(v: Value, key: string): (r: Result<Value>)
    ensures r.Ok? <==> v.Obj? && key in v.fields
    ensures r.Ok? ==> r.value == v.fields[key]
    ensures v.Obj? && key !in v.fields ==> r == Err(KeyError(key))
  {
    if !v.Obj? then Err(TypeError)
    else if key in v.fields then Ok(v.fields[key])
    else Err(KeyError(key))
  }

  /** `v.get(key, default)`: only mappings have `get`. */
  function Get(v: Value, key: string, default: Value): (r: Result<Value>)
    ensures r.Ok? <==> v.Obj?
    ensures r.Ok? ==> r.value == (if key in v.fields then v.fields[key] else default)
  {
    if !v.Obj? then Err(AttributeError("get"))
    else if key in v.fields then Ok(v.fields[key])
    else Ok(default)
  }

  /** Iterating a value as a `for` loop does: a list gives its items, a
      string its characters and an empty mapping nothing; any other value
      is refused. */
  function AsList(v: Value): (r: Result<seq<Value>>)
    ensures r.Ok? <==> v.Arr? || v.Str? || v == Obj(map[])
    ensures v.Arr? ==> r == Ok(v.items)
    ensures v.Str? ==> r.Ok? && |r.value| == |v.s| && forall i :: 0 <= i < |v.s| ==> r.value[i] == Str([v.s[i]])
    ensures v == Obj(map[]) ==> r == Ok([])
  {
    match v
    case Arr(items) => Ok(items)
    case Str(chars) => Ok(seq(|chars|, i requires 0 <= i < |chars| => Str([chars[i]])))
    case Obj(fields) => if fields == map[] then Ok([]) else Err(TypeError)
    case _ => Err(TypeError)
  }

  /** The direction every field of an index gets: the index's own `order`. */
  function IndexOrder(index: map<string, Value>): Result<int>
  {
    if "order" in index then OrderOf(index["order"]) else Ok(ASCENDING)
  }

  /** One iteration of the inner loop of `indices`: the order is looked up
      (again) for every field, before the field's name. */
  function FieldOf(index: map<string, Value>, field: Value): (r: Result<Field>)
    ensures r.Ok? <==> IndexOrder(index).Ok? && field.Obj? && "name" in field.fields
    ensures r.Ok? ==> r.value == Field(field.fields["name"], IndexOrder(index).value)
    ensures IndexOrder(index).Err? ==> r == Err(IndexOrder(index).error)
  {
    var order :- IndexOrder(index);
    var name :- Lookup(field, "name");
    Ok(Field(name, order))
  }

  /** The per-field step of `indices` for a given index mapping. */
  function FieldMaker(index: map<string, Value>): Value -> Result<Field>
  {
    (field: Value) => FieldOf(index, field)
  }

  /** One iteration of the outer loop of `indices`. */
  function IndexOf(index: Value): (r: Result<Index>)
    ensures r.Ok? <==>
              && index.Obj? && "fields" in index.fields && AsList(index.fields["fields"]).Ok?
              && var fs := AsList(index.fields["fields"]).value;
                 && (fs != [] ==> IndexOrder(index.fields).Ok?)
                 && forall j :: 0 <= j < |fs| ==> fs[j].Obj? && "name" in fs[j].fields
    ensures r.Ok? ==>
      var fs := AsList(index.fields["fields"]).value;
      && |r.value.fields| == |fs|
      && forall j :: 0 <= j < |fs| ==>
           && fs[j].Obj? && "name" in fs[j].fields
           && IndexOrder(index.fields).Ok?
           && r.value.fields[j] == Field(fs[j].fields["name"], IndexOrder(index.fields).value)
    ensures r.Ok? ==> r.value.unique == (if "unique" in index.fields then index.fields["unique"] else Bool(false))
    ensures r.Ok? ==> r.value.name == (if "name" in index.fields then index.fields["name"] else Null)
  {
    var fieldsValue :- Lookup(index, "fields");
    var fieldList :- AsList(fieldsValue);
    var fields :- MapAll(FieldMaker(index.fields), fieldList);
    Ok(Index(fields,
             if "unique" in index.fields then index.fields["unique"] else Bool(false),
             if "name" in index.fields then index.fields["name"] else Null))
  }

  /** `indices(collection)`: one Index per entry of `indices`, in order, and
      none when the key is missing. */
  function IndicesOf(collection: Value): (r: Result<seq<Index>>)
    ensures r.Ok? <==>
              && collection.Obj?
              && ("indices" in collection.fields ==>
                    var xs := collection.fields["indices"];
                    && AsList(xs).Ok?
                    && forall i :: 0 <= i < |AsList(xs).value| ==> IndexOf(AsList(xs).value[i]).Ok?)
    ensures collection.Obj? && "indices" !in collection.fields ==> r == Ok([])
    ensures r.Ok? && "indices" in collection.fields ==>
      var xs := collection.fields["indices"];
      && AsList(xs).Ok?
      && |r.value| == |AsList(xs).value|
      && forall i :: 0 <= i < |AsList(xs).value| ==> IndexOf(AsList(xs).value[i]) == Ok(r.value[i])
  {
    var listValue :- Get(collection, "indices", Arr([]));
    var list :- AsList(listValue);
    MapAll(IndexOf, list)
  }

  /** Every field of an index gets the direction of the index-level `order`,
      which must be `asc` or `desc`, or ascending when it is absent; a
      per-field `order` key plays no part. */
  lemma IndexDirections(index: Value, ix: Index, j: nat)
    requires IndexOf(index) == Ok(ix) && j < |ix.fields|
    ensures ix.fields[j].order == ASCENDING || ix.fields[j].order == DESCENDING
    ensures "order" !in index.fields ==> ix.fields[j].order == ASCENDING
    ensures "order" in index.fields ==>
              && (index.fields["order"] == Str("asc") || index.fields["order"] == Str("desc"))
              && ix.fields[j].order == (if index.fields["order"] == Str("asc") then ASCENDING else DESCENDING)
  {
    var fs := AsList(index.fields["fields"]).value;
    assert FieldMaker(index.fields)(fs[j]) == Ok(ix.fields[j]);
  }

  /** The order key is looked up once per field, so a bad direction on an
      index without fields goes unnoticed, and on any other index fails. */
  lemma BadOrderCheckedPerField(index: map<string, Value>, fields: seq<Value>)
    requires "order" in index && "fields" in index && index["fields"] == Arr(fields)
    requires index["order"] != Str("asc") && index["order"] != Str("desc")
    ensures fields == [] ==> IndexOf(Obj(index)).Ok?
    ensures fields != [] ==> IndexOf(Obj(index)) == Err(OrderOf(index["order"]).error)
  {
    if fields != [] {
      assert FieldMaker(index)(fields[0]).Err?;
      var r := MapAll(FieldMaker(index), fields);
      var k :| 0 <= k < |fields| && FieldMaker(index)(fields[k]) == Err(r.error);
    }
  }

  /** The inner loop of `indices`. */
  method BuildIndex(index: Value) returns (r: Result<Index>)
    ensures r == IndexOf(index)
  {
    var fieldsValue :- Lookup(index, "fields");
    var fieldList :- AsList(fieldsValue);
    var make := FieldMaker(index.fields);
    var fields: seq<Field> := [];
    for j := 0 to |fieldList|
      invariant MapAll(make, fieldList[..j]) == Ok(fields)
    {
      var order := ASCENDING;
      if "order" in index.fields {
        var o := OrderOf(index.fields["order"]);
        if o.Err? {
          MapAllStops(make, fieldList, j);
          return Err(o.error);
        }
        order := o.value;
      }
      var name := Lookup(fieldList[j], "name");
      if name.Err? {
        MapAllStops(make, fieldList, j);
        return Err(name.error);
      }
      MapAllSnoc(make, fieldList, j, fields, Field(name.value, order));
      fields := fields + [Field(name.value, order)];
    }
    assert fieldList[..|fieldList|] == fieldList;
    var unique := if "unique" in index.fields then index.fields["unique"] else Bool(false);
    var indexName := if "name" in index.fields then index.fields["name"] else Null;
    return Ok(Index(fields, unique, indexName));
  }

  /** `indices`: the outer loop. */
  method Indices(collection: Value) returns (r: Result<seq<Index>>)
    ensures r == IndicesOf(collection)
  {
    var listValue :- Get(collection, "indices", Arr([]));
    var list :- AsList(listValue);
    var acc: seq<Index> := [];
    for i := 0 to |list|
      invariant MapAll(IndexOf, list[..i]) == Ok(acc)
    {
      var index := BuildIndex(list[i]);
      if index.Err? {
        MapAllStops(IndexOf, list, i);
        return Err(index.error);
      }
      MapAllSnoc(IndexOf, list, i, acc, index.value);
      acc := acc + [index.value];
    }
    assert list[..|list|] == list;
    return Ok(acc);
  }

  /** `s.split(sep)[-1]`: the longest suffix without `sep`. */
  function LastSegment(s: string, sep: char): (r: string)
    ensures sep !in r
    ensures |r| <= |s| && r == s[|s| - |r|..]
    ensures |r| < |s| ==> s[|s| - |r| - 1] == sep
  {
    if s == [] then []
    else if s[|s| - 1] == sep then []
    else
      var r := LastSegment(s[..|s| - 1], sep);
      assert s[..|s| - 1][|s| - 1 - |r|..] + [s[|s| - 1]] == s[|s| - |r| - 1..];
      r + [s[|s| - 1]]
  }

  /** The segment after the last separator is what follows that separator. */
  lemma {:induction false} LastSegmentAfter(p: string, sep: char, t: string)
    requires sep !in t
    ensures LastSegment(p + [sep] + t, sep) == t
  {
    var s := p + [sep] + t;
    if t != [] {
      assert s[..|s| - 1] == p + [sep] + t[..|t| - 1];
      assert s[|s| - 1] == t[|t| - 1];
      LastSegmentAfter(p, sep, t[..|t| - 1]);
      assert t[..|t| - 1] + [t[|t| - 1]] == t;
    }
  }

  /** `s.rstrip(chars)`: drops trailing characters that occur in `chars`. */
  function RStrip(s: string, chars: string): (r: string)
    ensures |r| <= |s| && r == s[..|r|]
    ensures forall i :: |r| <= i < |s| ==> s[i] in chars
    ensures r == [] || r[|r| - 1] !in chars
  {
    if s == [] then []
    else if s[|s| - 1] in chars then
      var r := RStrip(s[..|s| - 1], chars);
      assert s[..|s| - 1][..|r|] == s[..|r|];
      r
    else s
  }

  lemma {:induction false} RStripSuffix(p: string, t: string, chars: string)
    requires forall i :: 0 <= i < |t| ==> t[i] in chars
    requires p == [] || p[|p| - 1] !in chars
    ensures RStrip(p + t, chars) == p
  {
    if t == [] {
      assert p + t == p;
    } else {
      var s := p + t;
      assert s[..|s| - 1] == p + t[..|t| - 1];
      assert s[|s| - 1] == t[|t| - 1];
      RStripSuffix(p, t[..|t| - 1], chars);
    }
  }

  /** `s[:-1]`. */
  function DropLast(s: string): string
  {
    if s == [] then [] else s[..|s| - 1]
  }

  /** The module path `get_model` computes: `rstrip` of the type name (a set
      of characters to strip) and then one more character. */
  function ModulePath(s: string): string
  {
    DropLast(RStrip(s, LastSegment(s, '.')))
  }

  /** Stripping the type's characters stops exactly at the last dot, so the
      computed module path is everything before the last dot, and empty when
      there is no dot. */
  lemma ModulePathDotted(s: string)
    requires '.' in s
    ensures s == ModulePath(s) + "." + LastSegment(s, '.')
  {
    var p := s[..|s| - |LastSegment(s, '.')|];
    LastDotBefore(s);
    StripStopsAtDot(s);
    DropLastSnoc(p);
  }

  /** The last dot sits just before the last segment. */
  lemma LastDotBefore(s: string)
    requires '.' in s
    ensures var t := LastSegment(s, '.');
            var k := |s| - |t|;
            && 0 < k && s[k - 1] == '.' && s == s[..k] + t
  {
    LastSegmentShorter(s, '.');
  }

  /** A string holding the separator is longer than its last segment. */
  lemma {:induction false} LastSegmentShorter(s: string, sep: char)
    requires sep in s
    ensures |LastSegment(s, sep)| < |s|
  {
    var n := |s|;
    if s[n - 1] != sep {
      assert sep in s[..n - 1] by {
        var i :| 0 <= i < n && s[i] == sep;
        assert i < n - 1 && s[..n - 1][i] == sep;
      }
      LastSegmentShorter(s[..n - 1], sep);
    }
  }

  /** `rstrip` of the type's characters stops at the last dot. */
  lemma StripStopsAtDot(s: string)
    requires '.' in s
    ensures RStrip(s, LastSegment(s, '.')) == s[..|s| - |LastSegment(s, '.')|]
  {
    var t := LastSegment(s, '.');
    var p := s[..|s| - |t|];
    LastDotBefore(s);
    assert forall i :: 0 <= i < |t| ==> t[i] in t;
    RStripSuffix(p, t, t);
  }

  /** A non-empty string is `s[:-1]` followed by its last character. */
  lemma DropLastSnoc(p: string)
    requires p != []
    ensures p == DropLast(p) + [p[|p| - 1]]
  {
  }

  lemma ModulePathUndotted(s: string)
    requires '.' !in s
    ensures ModulePath(s) == "" && LastSegment(s, '.') == s
  {
    var t := LastSegment(s, '.');
    assert t == s;
    RStripSuffix([], t, t);
    assert [] + t == s;
  }

  /** The choice `get_model` makes once the path and type are known: an
      empty path or a relative one cannot be imported (ValueError,
      TypeError), a missing module falls back to Base, a missing class is an
      AttributeError. */
  function ResolveModel(path: string, typeName: string, modules: Modules): Result<ModelType>
  {
    if path == "" then Err(ValueError)
    else if path[0] == '.' then Err(TypeError)
    else if path !in modules then Ok(BaseModel)
    else if typeName !in modules[path] then Err(AttributeError(typeName))
    else Ok(ModelClass(path, typeName))
  }

  /** `get_model(_model)`. */
  function GetModel(model: Value, modules: Modules): (r: Result<ModelType>)
    ensures !model.Str? ==> r == Err(AttributeError("split"))
  {
    if !model.Str? then Err(AttributeError("split"))
    else
      var typeName := LastSegment(model.s, '.');
      ResolveModel(ModulePath(model.s), typeName, modules)
  }

  /** `get_model` on a dotted path resolves the part after the last dot in
      the module named by everything before it. */
  lemma GetModelDotted(path: string, typeName: string, modules: Modules)
    requires '.' !in typeName
    ensures GetModel(Str(path + "." + typeName), modules) == ResolveModel(path, typeName, modules)
  {
    var s := path + "." + typeName;
    LastSegmentAfter(path, '.', typeName);
    assert s[|path|] == '.';
    assert '.' in s;
    ModulePathDotted(s);
    var m := ModulePath(s);
    assert |m| == |path|;
    assert (m + "." + typeName)[..|m|] == m;
    assert (path + "." + typeName)[..|path|] == path;
  }

  /** A model name without a dot has an empty module path, which cannot be
      imported. */
  lemma GetModelUndotted(s: string, modules: Modules)
    requires '.' !in s
    ensures GetModel(Str(s), modules) == Err(ValueError)
  {
    ModulePathUndotted(s);
  }

  /** The model of a collection: the db-level `model` when there is one,
      otherwise the collection's own. */
  function ModelFor(db: map<string, Value>, collection: Value, modules: Modules): Result<ModelType>
  {
    if "model" in db then GetModel(db["model"], modules)
    else
      var m :- Lookup(collection, "model");
      GetModel(m, modules)
  }

  /** The entry one collection declaration adds to `_collections`: the
      right-hand side (model, then indices) is evaluated before the
      subscript `collection['name']`. */
  function CollectionOf(dbName: string, db: map<string, Value>, collection: Value, modules: Modules)
    : (r: Result<(string, Collection)>)
    ensures r.Ok? <==>
              && (if "model" in db then GetModel(db["model"], modules).Ok?
                  else collection.Obj? && "model" in collection.fields && GetModel(collection.fields["model"], modules).Ok?)
              && IndicesOf(collection).Ok?
              && collection.Obj? && "name" in collection.fields && collection.fields["name"].Str?
    ensures ModelFor(db, collection, modules).Err? ==> r == Err(ModelFor(db, collection, modules).error)
    ensures r.Ok? ==> r.value.1.db == dbName && !r.value.1.mongoEc2
    ensures r.Ok? ==> collection.Obj? && "name" in collection.fields && collection.fields["name"] == Str(r.value.0)
    ensures r.Ok? ==> IndicesOf(collection) == Ok(r.value.1.indices)
    ensures r.Ok? && "model" in db ==> GetModel(db["model"], modules) == Ok(r.value.1.model)
    ensures r.Ok? && "model" !in db ==>
              "model" in collection.fields && GetModel(collection.fields["model"], modules) == Ok(r.value.1.model)
  {
    var model :- ModelFor(db, collection, modules);
    var indices :- IndicesOf(collection);
    var name :- Lookup(collection, "name");
    if !name.Str? then Err(TypeError)
    else Ok((name.s, Collection(dbName, indices, model, false)))
  }

  /** A db-level model overrides the model of every collection in that db. */
  lemma ModelOverride(dbName: string, db: map<string, Value>, collection: Value, modules: Modules)
    requires "model" in db && CollectionOf(dbName, db, collection, modules).Ok?
    ensures GetModel(db["model"], modules).Ok?
    ensures CollectionOf(dbName, db, collection, modules).value.1.model == GetModel(db["model"], modules).value
  {
  }

  /** One iteration of the inner loop of `all_collections`. */
  function AddCollection(acc: Dict<string, Collection>, dbName: string, db: map<string, Value>,
                         collection: Value, modules: Modules): Result<Dict<string, Collection>>
  {
    var e :- CollectionOf(dbName, db, collection, modules);
    Ok(acc.Set(e.0, e.1))
  }

  function CollectionStep(dbName: string, db: map<string, Value>, modules: Modules)
    : (Dict<string, Collection>, Value) -> Result<Dict<string, Collection>>
  {
    (acc: Dict<string, Collection>, collection: Value) => AddCollection(acc, dbName, db, collection, modules)
  }

  /** The collection declarations of a db: its `collections` list, or none. */
  function DbCollections(db: Value): (r: Result<seq<Value>>)
    ensures r.Ok? ==> db.Obj?
  {
    var v :- Get(db, "collections", Arr([]));
    AsList(v)
  }

  /** One iteration of the outer loop of `all_collections`. */
  function AddDbCollections(acc: Dict<string, Collection>, dbName: string, db: Value, modules: Modules)
    : Result<Dict<string, Collection>>
  {
    var colls :- DbCollections(db);
    Fold(CollectionStep(dbName, db.fields, modules), acc, colls)
  }

  function DbStep(modules: Modules)
    : (Dict<string, Collection>, (string, Value)) -> Result<Dict<string, Collection>>
  {
    (acc: Dict<string, Collection>, item: (string, Value)) => AddDbCollections(acc, item.0, item.1, modules)
  }

  /** `all_collections()` over the items of DBS. */
  function AllCollectionsOf(items: seq<(string, Value)>, modules: Modules): Result<Dict<string, Collection>>
  {
    Fold(DbStep(modules), Empty(), items)
  }

  /** The entry maker for one db, as a function of its declarations. */
  function EntryMaker(dbName: string, db: map<string, Value>, modules: Modules): Value -> Result<(string, Collection)>
  {
    (collection: Value) => CollectionOf(dbName, db, collection, modules)
  }

  /** Every (name, record) pair the configuration declares, db by db and in
      declaration order, or the first error. */
  function Declared(items: seq<(string, Value)>, modules: Modules): Result<seq<(string, Collection)>>
  {
    if items == [] then Ok([])
    else
      var pre :- Declared(items[..|items| - 1], modules);
      var last := items[|items| - 1];
      var colls :- DbCollections(last.1);
      var es :- MapAll(EntryMaker(last.0, last.1.fields, modules), colls);
      Ok(pre + es)
  }

  /** The inner fold is the assignment of the db's declared entries. */
  lemma {:induction false} CollectionFoldIsSetAll(dbName: string, db: map<string, Value>, modules: Modules,
                                                  acc: Dict<string, Collection>, colls: seq<Value>)
    ensures Fold(CollectionStep(dbName, db, modules), acc, colls).Ok?
            <==> MapAll(EntryMaker(dbName, db, modules), colls).Ok?
    ensures Fold(CollectionStep(dbName, db, modules), acc, colls).Ok? ==>
              Fold(CollectionStep(dbName, db, modules), acc, colls).value
              == SetAll(acc, MapAll(EntryMaker(dbName, db, modules), colls).value)
  {
    if colls != [] {
      var init := colls[..|colls| - 1];
      CollectionFoldIsSetAll(dbName, db, modules, acc, init);
      var fi := Fold(CollectionStep(dbName, db, modules), acc, init);
      if fi.Ok? {
        CollectionFoldLast(dbName, db, modules, acc, colls, fi.value, MapAll(EntryMaker(dbName, db, modules), init).value);
      }
    }
  }

  /** The inductive step of `CollectionFoldIsSetAll`: the last declaration
      of a db is assigned after the others. */
  lemma CollectionFoldLast(dbName: string, db: map<string, Value>, modules: Modules,
                           acc: Dict<string, Collection>, colls: seq<Value>,
                           s: Dict<string, Collection>, ms: seq<(string, Collection)>)
    requires colls != []
    requires Fold(CollectionStep(dbName, db, modules), acc, colls[..|colls| - 1]) == Ok(s)
    requires MapAll(EntryMaker(dbName, db, modules), colls[..|colls| - 1]) == Ok(ms)
    requires s == SetAll(acc, ms)
    ensures Fold(CollectionStep(dbName, db, modules), acc, colls).Ok?
            <==> MapAll(EntryMaker(dbName, db, modules), colls).Ok?
    ensures Fold(CollectionStep(dbName, db, modules), acc, colls).Ok? ==>
              Fold(CollectionStep(dbName, db, modules), acc, colls).value
              == SetAll(acc, MapAll(EntryMaker(dbName, db, modules), colls).value)
  {
    var step := CollectionStep(dbName, db, modules);
    var mk := EntryMaker(dbName, db, modules);
    var n := |colls| - 1;
    var e := CollectionOf(dbName, db, colls[n], modules);
    assert mk(colls[n]) == e;
    FoldSnoc(step, acc, colls, n, s);
    assert colls[..n + 1] == colls;
    if e.Ok? {
      assert step(s, colls[n]) == Ok(s.Set(e.value.0, e.value.1));
      MapAllSnoc(mk, colls, n, ms, e.value);
      assert (ms + [e.value])[..|ms|] == ms;
    } else {
      MapAllStops(mk, colls, n);
    }
  }

  /** `all_collections` succeeds exactly when every declaration is well
      formed, and then it is the assignment of the declared entries in order
      to an empty dict: a name declared twice keeps its last record (and its
      first position), silently. */
  lemma {:induction false} AllCollectionsIsSetAll(items: seq<(string, Value)>, modules: Modules)
    ensures AllCollectionsOf(items, modules).Ok? <==> Declared(items, modules).Ok?
    ensures AllCollectionsOf(items, modules).Ok? ==>
              AllCollectionsOf(items, modules).value == SetAll(Empty(), Declared(items, modules).value)
  {
    if items != [] {
      var init := items[..|items| - 1];
      var last := items[|items| - 1];
      AllCollectionsIsSetAll(init, modules);
      var pre := AllCollectionsOf(init, modules);
      var dpre := Declared(init, modules);
      var cs := DbCollections(last.1);
      if pre.Ok? && cs.Ok? {
        var colls := cs.value;
        var step := CollectionStep(last.0, last.1.fields, modules);
        assert AllCollectionsOf(items, modules) == Fold(step, pre.value, colls);
        CollectionFoldIsSetAll(last.0, last.1.fields, modules, pre.value, colls);
        var m := MapAll(EntryMaker(last.0, last.1.fields, modules), colls);
        if m.Ok? {
          assert Declared(items, modules) == Ok(dpre.value + m.value);
          SetAllAppend(Empty(), dpre.value, m.value);
        } else {
          assert Declared(items, modules).Err?;
        }
      } else if pre.Ok? {
        assert Declared(items, modules).Err?;
      }
    }
  }

  /** The names of the dbs in DBS order. */
  function DbNames(items: seq<(string, Value)>): set<string>
  {
    set i | 0 <= i < |items| :: items[i].0
  }

  /** The declarations of all but the last db, then those of the last. */
  lemma DeclaredSnoc(items: seq<(string, Value)>, modules: Modules)
    requires items != [] && Declared(items, modules).Ok?
    ensures var last := items[|items| - 1];
            && Declared(items[..|items| - 1], modules).Ok?
            && DbCollections(last.1).Ok?
            && MapAll(EntryMaker(last.0, last.1.fields, modules), DbCollections(last.1).value).Ok?
            && Declared(items, modules).value
               == Declared(items[..|items| - 1], modules).value
                  + MapAll(EntryMaker(last.0, last.1.fields, modules), DbCollections(last.1).value).value
  {
  }

  /** Every declared record names a db it was declared in. */
  lemma {:induction false} DeclaredDbNames(items: seq<(string, Value)>, modules: Modules, k: nat)
    requires Declared(items, modules).Ok? && k < |Declared(items, modules).value|
    ensures Declared(items, modules).value[k].1.db in DbNames(items)
  {
    var init := items[..|items| - 1];
    var last := items[|items| - 1];
    DeclaredSnoc(items, modules);
    var pre := Declared(init, modules).value;
    var es := Declared(items, modules).value;
    if k < |pre| {
      assert es[k] == pre[k];
      DeclaredDbNames(init, modules, k);
      assert DbNames(init) <= DbNames(items) by {
        forall x | x in DbNames(init) ensures x in DbNames(items) {
          var i :| 0 <= i < |init| && init[i].0 == x;
          assert items[i] == init[i];
        }
      }
    } else {
      EntriesOfOneDb(last.0, last.1.fields, modules, DbCollections(last.1).value, k - |pre|);
      assert es[k].1.db == items[|items| - 1].0;
    }
  }

  lemma EntriesOfOneDb(dbName: string, db: map<string, Value>, modules: Modules, colls: seq<Value>, j: nat)
    requires MapAll(EntryMaker(dbName, db, modules), colls).Ok?
    requires j < |MapAll(EntryMaker(dbName, db, modules), colls).value|
    ensures MapAll(EntryMaker(dbName, db, modules), colls).value[j].1.db == dbName
  {
    var m := MapAll(EntryMaker(dbName, db, modules), colls).value;
    assert EntryMaker(dbName, db, modules)(colls[j]) == Ok(m[j]);
  }

  /** The registry `all_collections` builds maps each declared name to its
      last declaration. */
  lemma CollectionsLastDeclarationWins(items: seq<(string, Value)>, modules: Modules, k: nat)
    requires AllCollectionsOf(items, modules).Ok?
    requires Declared(items, modules).Ok? && k < |Declared(items, modules).value|
    requires var es := Declared(items, modules).value;
             forall j :: k < j < |es| ==> es[j].0 != es[k].0
    ensures var es := Declared(items, modules).value;
            var d := AllCollectionsOf(items, modules).value;
            es[k].0 in d.entries && d.entries[es[k].0] == es[k].1
  {
    AllCollectionsIsSetAll(items, modules);
    SetAllLastWins(Empty(), Declared(items, modules).value, k);
  }

  /** The registry is a valid dict whose names are exactly the declared ones. */
  lemma CollectionsNames(items: seq<(string, Value)>, modules: Modules)
    requires AllCollectionsOf(items, modules).Ok?
    ensures Declared(items, modules).Ok?
    ensures AllCollectionsOf(items, modules).value.Valid()
    ensures AllCollectionsOf(items, modules).value.entries.Keys == AssignedKeys(Declared(items, modules).value)
  {
    AllCollectionsIsSetAll(items, modules);
    SetAllValid(Empty<string, Collection>(), Declared(items, modules).value);
    SetAllKeys(Empty<string, Collection>(), Declared(items, modules).value);
  }

  /** The body of the inner loop of `all_collections`. */
  method CollectionEntry(dbName: string, db: map<string, Value>, collection: Value, modules: Modules)
    returns (r: Result<(string, Collection)>)
    ensures r == CollectionOf(dbName, db, collection, modules)
  {
    var model: ModelType;
    if "model" in db {
      model :- GetModel(db["model"], modules);
    } else {
      var m :- Lookup(collection, "model");
      model :- GetModel(m, modules);
    }
    var indices :- Indices(collection);
    var name :- Lookup(collection, "name");
    if !name.Str? {
      return Err(TypeError);
    }
    return Ok((name.s, Collection(dbName, indices, model, false)));
  }

  /** The inner loop of `all_collections`, over the collections of one db. */
  method AddDb(acc0: Dict<string, Collection>, dbName: string, db: Value, modules: Modules)
    returns (r: Result<Dict<string, Collection>>)
    ensures r == AddDbCollections(acc0, dbName, db, modules)
  {
    var colls :- DbCollections(db);
    var step := CollectionStep(dbName, db.fields, modules);
    var acc := acc0;
    for j := 0 to |colls|
      invariant Fold(step, acc0, colls[..j]) == Ok(acc)
    {
      var e := CollectionEntry(dbName, db.fields, colls[j], modules);
      FoldSnoc(step, acc0, colls, j, acc);
      if e.Err? {
        FoldErrSticks(step, acc0, colls, j + 1);
        return Err(e.error);
      }
      acc := acc.Set(e.value.0, e.value.1);
    }
    assert colls[..|colls|] == colls;
    return Ok(acc);
  }

  /** `all_collections()`: the loop over the items of DBS. */
  method AllCollections(dbs: Dict<string, Value>, modules: Modules) returns (r: Result<Dict<string, Collection>>)
    requires dbs.Valid()
    ensures r == AllCollectionsOf(dbs.Items(), modules)
  {
    var items := dbs.Items();
    var step := DbStep(modules);
    var acc: Dict<string, Collection> := Empty();
    for i := 0 to |items|
      invariant Fold(step, Empty(), items[..i]) == Ok(acc)
    {
      var (dbName, db) := items[i];
      var next := AddDb(acc, dbName, db, modules);
      FoldSnoc(step, Empty(), items, i, acc);
      if next.Err? {
        FoldErrSticks(step, Empty(), items, i + 1);
        return next;
      }
      acc := next.value;
    }
    assert items[..|items|] == items;
    return Ok(acc);
  }

  /** `os.path.basename(path)`. */
  function Basename(path: string): string
  {
    LastSegment(path, '/')
  }

  /** The DBS key of a configuration file: its basename without the last
      five characters (`basename[:-5]`). */
  function DbKey(path: string): (key: string)
    ensures '/' !in key
    ensures |key| == if |Basename(path)| >= 5 then |Basename(path)| - 5 else 0
    ensures key == Basename(path)[..|key|]
  {
    var b := Basename(path);
    if |b| >= 5 then b[..|b| - 5] else []
  }

  /** A file `<dir>/<name>.yaml` gives the key `name`. */
  lemma DbKeyOfConfigFile(dir: string, name: string)
    requires '/' !in name
    ensures DbKey(dir + "/" + name + ".yaml") == name
  {
    var t := name + ".yaml";
    assert ".yaml" == ['.', 'y', 'a', 'm', 'l'];
    assert '/' !in ".yaml";
    assert dir + "/" + name + ".yaml" == dir + ['/'] + t;
    LastSegmentAfter(dir, '/', t);
    assert t[..|t| - 5] == name;
  }

  /** The (key, parsed file) pairs the DBS loop assigns, in file order. */
  function DbEntries(files: seq<(string, Value)>): (ps: seq<(string, Value)>)
    ensures |ps| == |files|
    ensures forall i :: 0 <= i < |files| ==> ps[i] == (DbKey(files[i].0), files[i].1)
  {
    seq(|files|, i requires 0 <= i < |files| => (DbKey(files[i].0), files[i].1))
  }

  /** The module-level DBS loop over the (path, parsed content) of every
      configuration file, in sorted path order. */
  method BuildDbs(files: seq<(string, Value)>) returns (dbs: Dict<string, Value>)
    ensures dbs.Valid()
    ensures dbs == SetAll(Empty(), DbEntries(files))
  {
    dbs := Empty();
    for i := 0 to |files|
      invariant dbs == SetAll(Empty(), DbEntries(files[..i]))
      invariant dbs.Valid()
    {
      var e := (DbKey(files[i].0), files[i].1);
      DbEntriesSnoc(files, i);
      dbs := dbs.Set(e.0, e.1);
    }
    assert files[..|files|] == files;
  }

  /** One more file adds its pair at the end, after those of the files
      before it. */
  lemma DbEntriesSnoc(files: seq<(string, Value)>, i: nat)
    requires i < |files|
    ensures var qs := DbEntries(files[..i + 1]);
            && qs == DbEntries(files[..i]) + [(DbKey(files[i].0), files[i].1)]
            && qs[..|qs| - 1] == DbEntries(files[..i])
  {
    var e := (DbKey(files[i].0), files[i].1);
    var ps := DbEntries(files[..i]);
    var qs := DbEntries(files[..i + 1]);
    assert |qs| == |ps| + 1;
    forall k | 0 <= k < |qs| ensures qs[k] == (ps + [e])[k] {
      assert files[..i + 1][k] == files[k];
      if k < i {
        assert files[..i][k] == files[k];
      }
    }
    assert qs == ps + [e];
  }
}
