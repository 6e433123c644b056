/** The repository registry of mongo_odm/repos/repos.py: `MongoRepos`, a
    memo table from collection name to its repository, filled on demand. */
module Repos {
  import opened Values
  import opened Dicts
  import opened Config
  import opened Session
  import opened Repo
  import opened Mongo

  /** A repository bound to the configured collection `name`. */
  predicate Bound(repo: ObjRepo, store: Store, name: string)
  {
    && name in store.registry.entries
    && repo.docs.store == store
    && repo.docs.ns == (store.registry.entries[name].db, name)
    && repo.model == store.registry.entries[name].model
  }

  /** The collections once `name`'s repository is first opened: its
      collection is created with its indices unless it already exists. */
  ghost function Opened(colls: map<Namespace, Coll>, registry: Dict<string, Collection>, name: string): map<Namespace, Coll>
    requires name in registry.entries
  {
    var ns := (registry.entries[name].db, name);
    if ns in colls then colls else colls[ns := Provisioned(registry.entries[name].indices)]
  }

  /** The collections once the repositories of `names` are first opened,
      in any order: each one's collection is created with its indices
      unless it already exists. */
  ghost function OpenedAll(colls: map<Namespace, Coll>, registry: Dict<string, Collection>, names: set<string>)
    : (r: map<Namespace, Coll>)
    requires names <= registry.entries.Keys
    ensures forall ns :: ns in colls ==> ns in r && r[ns] == colls[ns]
    ensures forall n :: n in names ==> (registry.entries[n].db, n) in r
    ensures forall ns :: ns in r && ns !in colls ==>
              ns.1 in names && ns == (registry.entries[ns.1].db, ns.1) && r[ns] == Provisioned(registry.entries[ns.1].indices)
  {
    map ns | ns in colls.Keys + (set n | n in names :: (registry.entries[n].db, n)) ::
      if ns in colls then colls[ns] else Provisioned(registry.entries[ns.1].indices)
  }

  /** Opening one more name is `Opened` applied to what the others left. */
  lemma {:induction false} OpenedAllNext(colls: map<Namespace, Coll>, registry: Dict<string, Collection>, names: set<string>, name: string)
    requires names <= registry.entries.Keys && name in registry.entries && name !in names
    ensures OpenedAll(colls, registry, names + {name}) == Opened(OpenedAll(colls, registry, names), registry, name)
  {
  }

  /** The names added since `base` grow by one new name. */
  lemma {:induction false} AddedName(names: set<string>, base: set<string>, name: string)
    requires name !in base
    ensures (names + {name}) - base == (names - base) + {name}
  {
  }

  /** `repos` are the cached repositories of the first `|repos|` names. */
  ghost predicate Gathered(names: seq<string>, repos: seq<ObjRepo>, cache: map<string, ObjRepo>)
  {
    && |repos| <= |names|
    && forall k :: 0 <= k < |repos| ==> names[k] in cache && repos[k] == cache[names[k]]
  }

  /** Caching one more name, without changing what was cached, extends `Gathered`. */
  lemma {:induction false} GatheredNext(names: seq<string>, repos: seq<ObjRepo>, cache: map<string, ObjRepo>,
                                        cache': map<string, ObjRepo>, repo: ObjRepo)
    requires Gathered(names, repos, cache) && |repos| < |names|
    requires forall n :: n in cache ==> n in cache' && cache'[n] == cache[n]
    requires names[|repos|] in cache' && cache'[names[|repos|]] == repo
    ensures Gathered(names, repos + [repo], cache')
  {
    forall k | 0 <= k < |repos| + 1
      ensures names[k] in cache' && (repos + [repo])[k] == cache'[names[k]]
    {
      if k < |repos| {
        assert names[k] in cache;
      }
    }
  }

  /** `MongoRepos` with its class-level `_cache`. */
  class Registry {
    var cache: map<string, ObjRepo>
    const store: Store

    /** Every cached repository is the one of its configured collection. */
    ghost predicate Valid()
      reads this, store
    {
      && store.Valid()
      && store.registry.Valid()
      && forall name :: name in cache ==> Bound(cache[name], store, name)
    }

    constructor (store: Store)
      requires store.Valid() && store.registry.Valid()
      ensures Valid() && this.store == store && cache == map[]
    {
      this.store := store;
      cache := map[];
    }

    /** `repo(name)`: the cached repository when there is one, with nothing
        changed; otherwise a new one, which is cached. An unknown name raises
        KeyError in the constructor and leaves the cache as it was. */
    method Repo(name: string) returns (r: Result<ObjRepo>)
      requires Valid()
      modifies this, store
      ensures Valid() && store.nextOid == old(store.nextOid)
      ensures name in old(cache) ==>
                r == Ok(old(cache)[name]) && cache == old(cache) && store.colls == old(store.colls)
      ensures name !in old(cache) && name !in store.registry.entries ==>
                r == Err(KeyError(name)) && cache == old(cache) && store.colls == old(store.colls)
      ensures name !in old(cache) && name in store.registry.entries ==>
                var ns := (store.registry.entries[name].db, name);
                && r.Ok? && cache == old(cache)[name := r.value] && Bound(r.value, store, name)
                && (ns in old(store.colls) ==> store.colls == old(store.colls))
                && (ns !in old(store.colls) ==>
                      store.colls == old(store.colls)[ns := Provisioned(store.registry.entries[name].indices)])
    {
      if name in cache {
        return Ok(cache[name]);
      }
      r := OpenMongoRepo(store, name);
      if r.Err? {
        return;
      }
      cache := cache[name := r.value];
    }

    /** `all_repos()`: one repository per configured collection, in the
        order of the configuration; afterwards every name is cached, and
        what was cached before is unchanged. Existing collections are kept;
        the collection of each name that was not cached exists afterwards,
        and the only collections created are those, provisioned. */
    method AllRepos() returns (repos: seq<ObjRepo>)
      requires Valid()
      modifies this, store
      ensures Valid() && store.nextOid == old(store.nextOid)
      ensures |repos| == |store.registry.keys|
      ensures forall i :: 0 <= i < |repos| ==>
                var name := store.registry.keys[i];
                name in cache && repos[i] == cache[name] && Bound(repos[i], store, name)
      ensures cache.Keys == old(cache).Keys + store.registry.entries.Keys
      ensures forall name :: name in old(cache) ==> cache[name] == old(cache)[name]
      ensures store.colls == OpenedAll(old(store.colls), store.registry, store.registry.entries.Keys - old(cache).Keys)
    {
      var names := store.registry.keys;
      repos := [];
      for i := 0 to |names|
        invariant Valid() && store.nextOid == old(store.nextOid)
        invariant |repos| == i && Gathered(names, repos, cache)
        invariant forall name :: name in cache ==> name in old(cache) || name in store.registry.entries
        invariant forall name :: name in old(cache) ==> name in cache && cache[name] == old(cache)[name]
        invariant store.colls == OpenedAll(old(store.colls), store.registry, cache.Keys - old(cache).Keys)
      {
        var name := names[i];
        assert name in store.registry.entries;
        ghost var before := cache;
        ghost var added := cache.Keys - old(cache).Keys;
        if name !in cache {
          OpenedAllNext(old(store.colls), store.registry, added, name);
        }
        var repo := Cached(name);
        GatheredNext(names, repos, before, cache, repo);
        if name in before {
          assert cache == before;
        } else {
          AddedName(before.Keys, old(cache).Keys, name);
        }
        repos := repos + [repo];
      }
      assert cache.Keys - old(cache).Keys == store.registry.entries.Keys - old(cache).Keys;
    }

    /** `repo(name)` for a configured name, seen from `all_repos`: the
        name is cached afterwards and nothing cached before changes; its
        collection is opened only when the name was not cached. */
    method Cached(name: string) returns (repo: ObjRepo)
      requires Valid() && name in store.registry.entries
      modifies this, store
      ensures Valid() && store.nextOid == old(store.nextOid)
      ensures name in cache && repo == cache[name]
      ensures cache == if name in old(cache) then old(cache) else old(cache)[name := repo]
      ensures cache.Keys == old(cache).Keys + {name}
      ensures forall n :: n in old(cache) ==> cache[n] == old(cache)[n]
      ensures store.colls == if name in old(cache) then old(store.colls) else Opened(old(store.colls), store.registry, name)
    {
      ghost var before := cache;
      var r := Repo(name);
      if name in before {
        assert cache == before;
      } else {
        assert cache == before[name := r.value];
      }
      repo := r.value;
    }
  }

  /** Memoisation: two `repo(name)` calls return the identical
      repository, and the second changes nothing: the cache and the
      collections it leaves are those the first call left. */
  method RepoTwice(registry: Registry, name: string)
    returns (first: Result<ObjRepo>, second: Result<ObjRepo>,
             ghost cacheAfterFirst: map<string, ObjRepo>, ghost collsAfterFirst: map<Namespace, Coll>)
    requires registry.Valid()
    modifies registry, registry.store
    ensures registry.Valid()
    ensures first.Ok? <==> name in registry.store.registry.entries
    ensures first == second
    ensures cacheAfterFirst.Keys == old(registry.cache).Keys + (if first.Ok? then {name} else {})
    ensures collsAfterFirst == if name in old(registry.cache) || name !in registry.store.registry.entries
                               then old(registry.store.colls)
                               else Opened(old(registry.store.colls), registry.store.registry, name)
    ensures registry.cache == cacheAfterFirst && registry.store.colls == collsAfterFirst
  {
    first := registry.Repo(name);
    cacheAfterFirst := registry.cache;
    collsAfterFirst := registry.store.colls;
    second := registry.Repo(name);
  }
}
