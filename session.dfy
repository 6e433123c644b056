/** The store session of mongo_odm/session/session.py: the connection
    parameters assembled from the environment settings, and the provisioning
    of a configured collection (create it and its declared indices when it is
    missing). The server is a `Store`: the collections of every database,
    keyed by (database name, collection name). */
module Session {
  import opened Values
  import opened Dicts
  import opened Config
  import opened Mongo

  /** The environment settings the parameters are read from. */
  datatype Env = Env(host: string, port: int, username: string, password: string,
                     useSsl: bool, certPath: string, useReplicaSet: bool)

  /** A connection parameter value. */
  datatype Param = PStr(s: string) | PInt(i: int) | PBool(b: bool)

  const BaseKeys: set<string> := {"host", "port", "maxPoolSize", "retryWrites"}
  const CredentialKeys: set<string> := {"username", "password", "authSource", "authMechanism"}
  const SslKeys: set<string> := {"ssl", "ssl_ca_certs"}
  const ReplicaSetKeys: set<string> := {"replicaSet", "readPreference"}

  /** `MONGO_PARAMS`: the base parameters, then credentials for a non-empty
      user name, then the TLS pair, then the replica-set pair. */
  method MongoParams(env: Env) returns (params: map<string, Param>)
    ensures params.Keys == BaseKeys
                           + (if env.username != "" then CredentialKeys else {})
                           + (if env.useSsl then SslKeys else {})
                           + (if env.useReplicaSet then ReplicaSetKeys else {})
    ensures params["host"] == PStr(env.host) && params["port"] == PInt(env.port)
    ensures params["maxPoolSize"] == PInt(5000) && params["retryWrites"] == PBool(false)
    ensures env.username != "" ==>
              && params["username"] == PStr(env.username)
              && params["password"] == PStr(env.password)
              && params["authSource"] == PStr("admin")
              && params["authMechanism"] == PStr("SCRAM-SHA-1")
    ensures env.useSsl ==> params["ssl"] == PBool(true) && params["ssl_ca_certs"] == PStr(env.certPath)
    ensures env.useReplicaSet ==>
              params["replicaSet"] == PStr("rs0") && params["readPreference"] == PStr("secondaryPreferred")
  {
    params := map["host" := PStr(env.host), "port" := PInt(env.port),
                  "maxPoolSize" := PInt(5000), "retryWrites" := PBool(false)];
    if env.username != "" {
      params := params["username" := PStr(env.username)];
      params := params["password" := PStr(env.password)];
      params := params["authSource" := PStr("admin")];
      params := params["authMechanism" := PStr("SCRAM-SHA-1")];
    }
    if env.useSsl {
      params := params["ssl" := PBool(env.useSsl)];
      params := params["ssl_ca_certs" := PStr(env.certPath)];
    }
    if env.useReplicaSet {
      params := params["replicaSet" := PStr("rs0")];
      params := params["readPreference" := PStr("secondaryPreferred")];
    }
  }

  /** The `create_index` call for one declared index: the fields as
      (name, direction) pairs, and the name only when it is truthy. */
  function IndexCallOf(ix: Index): (call: IndexCall)
    ensures |call.keys| == |ix.fields|
    ensures forall j :: 0 <= j < |ix.fields| ==>
              call.keys[j].0 == ix.fields[j].name && call.keys[j].1 == ix.fields[j].order
    ensures call.unique == ix.unique
    ensures call.name.Some? <==> Truthy(ix.name)
    ensures call.name.Some? ==> call.name.value == ix.name
  {
    IndexCall(seq(|ix.fields|, j requires 0 <= j < |ix.fields| => (ix.fields[j].name, ix.fields[j].order)),
              ix.unique,
              if Truthy(ix.name) then Some(ix.name) else None)
  }

  /** The calls for a list of declared indices, in order. */
  function IndexCallsOf(ixs: seq<Index>): (calls: seq<IndexCall>)
    ensures |calls| == |ixs|
    ensures forall j :: 0 <= j < |ixs| ==> calls[j] == IndexCallOf(ixs[j])
  {
    if ixs == [] then [] else IndexCallsOf(ixs[..|ixs| - 1]) + [IndexCallOf(ixs[|ixs| - 1])]
  }

  /** One more `create_index` call extends the record by the call of the
      next declared index. */
  lemma ExtendCalls(before: Coll, c: Coll, indices: seq<Index>, i: nat)
    requires i < |indices|
    requires i == 0 ==> c == before
    requires i > 0 ==> c.indexCalls == before.indexCalls + IndexCallsOf(indices[..i])
    ensures c.indexCalls + [IndexCallOf(indices[i])] == before.indexCalls + IndexCallsOf(indices[..i + 1])
  {
    assert indices[..i + 1][..i] == indices[..i];
    assert IndexCallsOf(indices[..i + 1]) == IndexCallsOf(indices[..i]) + [IndexCallOf(indices[i])];
  }

  /** A (database name, collection name) pair. */
  type Namespace = (string, string)

  /** A freshly provisioned collection: empty, with one index call per
      declared index. */
  function Provisioned(ixs: seq<Index>): (c: Coll)
    ensures c.WellFormed() && c.docs.keys == [] && c.indexCalls == IndexCallsOf(ixs)
  {
    Coll(Empty(), IndexCallsOf(ixs))
  }

  /** The collections after a write leaves `c` at `ns`: a write to a
      missing collection creates it, unless it leaves it empty and
      index-free. */
  function Stored(colls: map<Namespace, Coll>, ns: Namespace, c: Coll): (r: map<Namespace, Coll>)
    ensures ns in r ==> r[ns] == c
    ensures ns !in r ==> c == EmptyColl()
    ensures forall other :: other != ns ==> (other in r <==> other in colls) && (other in r ==> r[other] == colls[other])
  {
    if ns in colls || c != EmptyColl() then colls[ns := c] else colls
  }

  /** The server: the collections of every database, the next object id
      the driver generates, the configured collections (`COLLECTIONS`) and
      the order in which the server sorts a query's matches. */
  class Store {
    var colls: map<Namespace, Coll>
    var nextOid: nat
    const registry: Dict<string, Collection>
    const arrange: (seq<Doc>, Sorting) -> seq<Doc>

    /** Every stored document sits under its own `_id`, and the server's
        sort keeps the matches it is given. */
    ghost predicate Valid()
      reads this
    {
      && (forall ns :: ns in colls ==> colls[ns].WellFormed())
      && Arranges(arrange)
    }

    constructor (registry: Dict<string, Collection>, arrange: (seq<Doc>, Sorting) -> seq<Doc>)
      requires Arranges(arrange)
      ensures Valid() && colls == map[] && nextOid == 0
      ensures this.registry == registry && this.arrange == arrange
    {
      colls := map[];
      nextOid := 0;
      this.registry := registry;
      this.arrange := arrange;
    }

    /** The collection a handle refers to; a missing one reads as empty. */
    function At(ns: Namespace): (c: Coll)
      reads this
      ensures Valid() ==> c.WellFormed()
      ensures ns !in colls ==> c == EmptyColl()
    {
      if ns in colls then colls[ns] else EmptyColl()
    }

    /** Stores the result of a write. A write to a missing collection creates
        it, unless the write leaves it empty and index-free. */
    method Write(ns: Namespace, c: Coll)
      requires Valid() && c.WellFormed()
      modifies this
      ensures Valid() && At(ns) == c && nextOid == old(nextOid)
      ensures colls == Stored(old(colls), ns, c)
    {
      if ns in colls || c != EmptyColl() {
        colls := colls[ns := c];
      }
    }

    /** The id the driver gives a document without `_id`. */
    method GenerateId() returns (id: Value)
      modifies this
      ensures id == Oid(old(nextOid)) && nextOid == old(nextOid) + 1 && colls == old(colls)
    {
      id := Oid(nextOid);
      nextOid := nextOid + 1;
    }

    /** Reserves the ids `Oid(nextOid)` .. `Oid(nextOid + n - 1)` for a batch. */
    method ReserveIds(n: nat)
      modifies this
      ensures nextOid == old(nextOid) + n && colls == old(colls)
    {
      nextOid := nextOid + n;
    }

    /** `create_indices(name)`: one `create_index` call per declared index,
        in order, on the collection (the first call creates a missing one);
        none, and no change, for a collection without indices. */
    method CreateIndices(name: string) returns (r: Outcome)
      requires Valid()
      modifies this
      ensures Valid() && nextOid == old(nextOid)
      ensures name !in registry.entries ==> r == Fail(KeyError(name)) && colls == old(colls)
      ensures name in registry.entries ==>
                var decl := registry.entries[name];
                var ns := (decl.db, name);
                var before := old(At(ns));
                && r == Pass
                && (decl.indices == [] ==> colls == old(colls))
                && (decl.indices != [] ==>
                      colls == old(colls)[ns := before.(indexCalls := before.indexCalls + IndexCallsOf(decl.indices))])
    {
      if name !in registry.entries {
        return Fail(KeyError(name));
      }
      var decl := registry.entries[name];
      var ns := (decl.db, name);
      var indices := decl.indices;
      ghost var before := At(ns);
      if indices != [] {
        for i := 0 to |indices|
          invariant Valid() && nextOid == old(nextOid)
          invariant i == 0 ==> colls == old(colls)
          invariant i > 0 ==> colls == old(colls)[ns := before.(indexCalls := before.indexCalls + IndexCallsOf(indices[..i]))]
        {
          var c := At(ns);
          var call := IndexCallOf(indices[i]);
          ExtendCalls(before, c, indices, i);
          var updated := c.(indexCalls := c.indexCalls + [call]);
          assert updated.WellFormed();
          colls := colls[ns := updated];
        }
        assert indices[..|indices|] == indices;
      }
      return Pass;
    }

    /** `create_collection(name)`: creates the collection in its configured
        database, which fails when it exists, and then its indices. */
    method CreateCollection(name: string) returns (r: Outcome)
      requires Valid()
      modifies this
      ensures Valid() && nextOid == old(nextOid)
      ensures name !in registry.entries ==> r == Fail(KeyError(name)) && colls == old(colls)
      ensures name in registry.entries && (registry.entries[name].db, name) in old(colls) ==>
                r == Fail(CollectionInvalid) && colls == old(colls)
      ensures name in registry.entries && (registry.entries[name].db, name) !in old(colls) ==>
                r == Pass && colls == old(colls)[(registry.entries[name].db, name) := Provisioned(registry.entries[name].indices)]
    {
      if name !in registry.entries {
        return Fail(KeyError(name));
      }
      var ns := (registry.entries[name].db, name);
      if ns in colls {
        return Fail(CollectionInvalid);
      }
      colls := colls[ns := EmptyColl()];
      ghost var created := colls;
      r := CreateIndices(name);
      var ixs := registry.entries[name].indices;
      assert [] + IndexCallsOf(ixs) == IndexCallsOf(ixs);
      assert ixs == [] ==> IndexCallsOf(ixs) == [];
      assert colls == created[ns := Provisioned(ixs)];
    }

    /** `collection(name)`: the handle of a configured collection, which is
        created with its indices only when it is missing; an existing one is
        left as it is. */
    method Collection(name: string) returns (r: Result<Namespace>)
      requires Valid()
      modifies this
      ensures Valid() && nextOid == old(nextOid)
      ensures name !in registry.entries ==> r == Err(KeyError(name)) && colls == old(colls)
      ensures name in registry.entries ==>
                var ns := (registry.entries[name].db, name);
                && r == Ok(ns)
                && (ns in old(colls) ==> colls == old(colls))
                && (ns !in old(colls) ==> colls == old(colls)[ns := Provisioned(registry.entries[name].indices)])
    {
      if name !in registry.entries {
        return Err(KeyError(name));
      }
      var ns := (registry.entries[name].db, name);
      if ns !in colls {
        var created := CreateCollection(name);
      }
      return Ok(ns);
    }
  }

  /** Provisioning is idempotent: once a configured collection exists, a
      second `collection(name)` changes nothing. */
  method CollectionTwice(s: Store, name: string) returns (ghost afterFirst: map<Namespace, Coll>)
    requires s.Valid() && name in s.registry.entries
    modifies s
    ensures var ns := (s.registry.entries[name].db, name);
            afterFirst == old(s.colls)[ns := if ns in old(s.colls) then old(s.colls)[ns]
                                            else Provisioned(s.registry.entries[name].indices)]
    ensures s.colls == afterFirst
  {
    var first := s.Collection(name);
    afterFirst := s.colls;
    var second := s.Collection(name);
  }
}
