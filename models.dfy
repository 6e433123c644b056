/** The change-detection bookkeeping of mongo_odm/models/base.py: a model
    object keeps a content hash of its data under `_hash`, computed over
    every field except the bookkeeping ones, and moves `updated_at` to the
    clock's time whenever that hash changes. The library hash is a parameter
    (any deterministic function of the filtered data) and so is the clock. */
module Models {
  import opened Values

  const HASH: string := "_hash"
  const CREATED_AT: string := "created_at"
  const UPDATED_AT: string := "updated_at"

  /** The fields the content hash ignores. */
  const NON_HASHABLE_FIELDS: seq<string> := [ID, UPDATED_AT, CREATED_AT, HASH, "_metadata"]

  /** The data the hash is computed over: every field but the excluded ones. */
  function Hashable(d: Doc): (h: Doc)
    ensures h.Keys == d.Keys - set f | f in NON_HASHABLE_FIELDS
    ensures forall f :: f in h ==> h[f] == d[f]
  {
    map f | f in d && f !in NON_HASHABLE_FIELDS :: d[f]
  }

  /** `str(self.__hash__())`, as stored under `_hash`. */
  function HashValue(hash: Doc -> int, d: Doc): Value
  {
    Str(IntStr(hash(Hashable(d))))
  }

  /** The stored hash is missing or differs from the recomputed one. */
  predicate Stale(hash: Doc -> int, d: Doc)
  {
    HASH !in d || d[HASH] != HashValue(hash, d)
  }

  /** The data after `check_hash_and_update` at clock time `t`. */
  function AfterCheck(hash: Doc -> int, d: Doc, t: int): Doc
  {
    if Stale(hash, d) then d[UPDATED_AT := Time(t)][HASH := HashValue(hash, d)] else d
  }

  /** The hash ignores exactly the excluded fields: data that agree on every
      other field hash alike. */
  lemma HashIgnoresExcluded(hash: Doc -> int, d: Doc, e: Doc)
    requires forall f :: f !in NON_HASHABLE_FIELDS ==> (f in d <==> f in e) && (f in d ==> d[f] == e[f])
    ensures Hashable(d) == Hashable(e)
    ensures HashValue(hash, d) == HashValue(hash, e)
  {
    assert Hashable(d).Keys == Hashable(e).Keys;
  }

  /** The check writes only excluded fields, so the hash of its result is
      the hash of its input. */
  lemma AfterCheckKeepsHashable(hash: Doc -> int, d: Doc, t: int)
    ensures Hashable(AfterCheck(hash, d, t)) == Hashable(d)
  {
    HashIgnoresExcluded(hash, AfterCheck(hash, d, t), d);
  }

  /** After the check the stored hash is the hash of the data; `updated_at`
      moves to `t` exactly when the hash was stale, and no other field
      changes. */
  lemma AfterCheckInSync(hash: Doc -> int, d: Doc, t: int)
    ensures var n := AfterCheck(hash, d, t);
            && HASH in n && n[HASH] == HashValue(hash, n)
            && !Stale(hash, n)
            && (Stale(hash, d) ==> UPDATED_AT in n && n[UPDATED_AT] == Time(t))
            && (!Stale(hash, d) ==> n == d)
            && (forall f :: f != HASH && f != UPDATED_AT ==> (f in n <==> f in d) && (f in n ==> n[f] == d[f]))
  {
    AfterCheckKeepsHashable(hash, d, t);
  }

  /** A second check, at any time, changes nothing. */
  lemma AfterCheckIdempotent(hash: Doc -> int, d: Doc, t: int, t': int)
    ensures AfterCheck(hash, AfterCheck(hash, d, t), t') == AfterCheck(hash, d, t)
  {
    AfterCheckInSync(hash, d, t);
  }

  /** Changing a hashed field and checking, then restoring it and checking
      again, gives back the original hash. */
  lemma RevertRestoresHash(hash: Doc -> int, d: Doc, field: string, v: Value, t1: int, t2: int)
    requires !Stale(hash, d)
    requires field in d && field !in NON_HASHABLE_FIELDS
    ensures var changed := AfterCheck(hash, d[field := v], t1);
            var restored := AfterCheck(hash, changed[field := d[field]], t2);
            restored[HASH] == d[HASH]
  {
    var changed := AfterCheck(hash, d[field := v], t1);
    AfterCheckInSync(hash, d[field := v], t1);
    var back := changed[field := d[field]];
    HashIgnoresExcluded(hash, back, d);
    AfterCheckInSync(hash, back, t2);
  }

  /** When the library hashes the empty mapping to 0, an object whose data
      holds only excluded fields has hash "0". */
  lemma EmptyHashIsZero(hash: Doc -> int, d: Doc)
    requires hash(map[]) == 0
    requires forall f :: f in d ==> f in NON_HASHABLE_FIELDS
    ensures HashValue(hash, d) == Str("0")
  {
    assert Hashable(d) == map[];
  }

  /** An injected `datetime.now`: each reading returns the current time and
      advances it. */
  class Clock {
    var now: int

    constructor (start: int)
      ensures now == start
    {
      now := start;
    }

    method Now() returns (t: Value)
      modifies this
      ensures t == Time(old(now)) && now == old(now) + 1
    {
      t := Time(now);
      now := now + 1;
    }
  }

  /** The data a new object starts from: a falsy data dict (None or empty)
      gets `created_at` and `updated_at` from two clock readings. */
  function Initial(dataDict: Option<Doc>, t: int): Doc
  {
    if dataDict.None? || dataDict.value == map[] then map[CREATED_AT := Time(t)][UPDATED_AT := Time(t + 1)]
    else dataDict.value
  }

  /** `MongoBase`: an object over a data dict. */
  class MongoBase {
    var data: Doc
    const hash: Doc -> int
    const clock: Clock

    /** `MongoBase(data_dict)`: the initial data, then a check; the clock
        is read twice for a falsy data dict and once more when the check
        finds the hash stale. */
    constructor (dataDict: Option<Doc>, hash: Doc -> int, clock: Clock)
      modifies clock
      ensures this.hash == hash && this.clock == clock
      ensures var falsy := dataDict.None? || dataDict.value == map[];
              var t := old(clock.now) + (if falsy then 2 else 0);
              && data == AfterCheck(hash, Initial(dataDict, old(clock.now)), t)
              && clock.now == t + (if Stale(hash, Initial(dataDict, old(clock.now))) then 1 else 0)
      ensures HASH in data && data[HASH] == HashValue(hash, data)
    {
      var d := if dataDict.Some? then dataDict.value else map[];
      if dataDict.None? || dataDict.value == map[] {
        var created := clock.Now();
        d := map[CREATED_AT := created];
        var updated := clock.Now();
        d := d[UPDATED_AT := updated];
      }
      this.data := d;
      this.hash := hash;
      this.clock := clock;
      new;
      CheckHashAndUpdate();
    }

    /** `__hash__()`: the hash of a copy of the data with the excluded fields
        deleted; the data itself is left as it is. */
    method Hash() returns (h: int)
      ensures h == hash(Hashable(data))
    {
      var dct := data;
      for i := 0 to |NON_HASHABLE_FIELDS|
        invariant dct == map f | f in data && f !in NON_HASHABLE_FIELDS[..i] :: data[f]
      {
        assert NON_HASHABLE_FIELDS[..i + 1] == NON_HASHABLE_FIELDS[..i] + [NON_HASHABLE_FIELDS[i]];
        if NON_HASHABLE_FIELDS[i] in dct {
          dct := dct - {NON_HASHABLE_FIELDS[i]};
        }
      }
      assert NON_HASHABLE_FIELDS[..|NON_HASHABLE_FIELDS|] == NON_HASHABLE_FIELDS;
      h := hash(dct);
    }

    /** `check_hash_and_update()`: when the stored hash is missing or out of
        date, reads the clock into `updated_at` and stores the new hash. */
    method CheckHashAndUpdate()
      modifies this, clock
      ensures data == AfterCheck(hash, old(data), old(clock.now))
      ensures clock.now == old(clock.now) + (if Stale(hash, old(data)) then 1 else 0)
      ensures HASH in data && data[HASH] == HashValue(hash, data)
    {
      var h := Hash();
      var stored := Str(IntStr(h));
      if HASH !in data || data[HASH] != stored {
        var t := clock.Now();
        data := data[UPDATED_AT := t];
        data := data[HASH := stored];
      }
      AfterCheckInSync(hash, old(data), old(clock.now));
    }
  }
}
