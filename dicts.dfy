/** Python dictionaries as the core uses them: a key maps to its last
    assigned value, and iteration follows the order in which keys were FIRST
    inserted (re-assigning an existing key keeps its position). */
module Dicts {

  datatype Dict<K(==, !new), V> = Dict(keys: seq<K>, entries: map<K, V>) {

    /** Keys are listed once each, and exactly the keys that have entries. */
    ghost predicate Valid()
    {
      && (forall i, j :: 0 <= i < j < |keys| ==> keys[i] != keys[j])
      && (forall k :: k in entries <==> k in keys)
    }

    /** `d[k] = v`. */
    function Set(k: K, v: V): (d: Dict<K, V>)
      ensures Valid() ==> d.Valid()
      ensures d.entries == entries[k := v]
      ensures |keys| <= |d.keys| && d.keys[..|keys|] == keys
      ensures |d.keys| == |keys| + (if k in keys then 0 else 1)
    {
      if k in keys then Dict(keys, entries[k := v]) else Dict(keys + [k], entries[k := v])
    }

    /** `d.items()`, in iteration order. */
    function Items(): (items: seq<(K, V)>)
      requires Valid()
      ensures |items| == |keys|
      ensures forall i :: 0 <= i < |keys| ==> items[i].0 == keys[i] && items[i].1 == entries[keys[i]]
    {
      seq(|keys|, i requires 0 <= i < |keys| => (keys[i], entries[keys[i]]))
    }

    /** Keeps the keys `keep` accepts, in their order (a `del d[k]` for every
        key it rejects). */
    function Filter(keep: K -> bool): (d: Dict<K, V>)
      ensures Valid() ==> d.Valid()
      ensures d.entries == map k | k in entries && keep(k) :: entries[k]
      ensures d.keys == Kept(keys, keep)
    {
      Dict(Kept(keys, keep), map k | k in entries && keep(k) :: entries[k])
    }

    /** `del d[k]`. */
    function Remove(k: K): (d: Dict<K, V>)
      ensures Valid() ==> d.Valid()
      ensures d.entries == entries - {k}
      ensures d.keys == Kept(keys, (x: K) => x != k)
    {
      Filter((x: K) => x != k)
    }
  }

  /** The elements of `s` that `keep` accepts, in order. */
  function Kept<K(==, !new)>(s: seq<K>, keep: K -> bool): (r: seq<K>)
    ensures |r| <= |s|
    ensures forall x :: x in r <==> x in s && keep(x)
    ensures (forall i, j :: 0 <= i < j < |s| ==> s[i] != s[j]) ==>
              forall i, j :: 0 <= i < j < |r| ==> r[i] != r[j]
  {
    if s == [] then []
    else
      var r := Kept(s[..|s| - 1], keep);
      assert forall x :: x in s[..|s| - 1] ==> x in s;
      if keep(s[|s| - 1]) then r + [s[|s| - 1]] else r
  }

  function Empty<K(==, !new), V>(): (d: Dict<K, V>)
    ensures d.Valid() && d.keys == [] && d.entries == map[]
  {
    Dict([], map[])
  }

  /** Assigns each pair in turn, as a loop of `d[k] = v` statements does. */
  function SetAll<K(==, !new), V>(d: Dict<K, V>, ps: seq<(K, V)>): Dict<K, V>
  {
    if ps == [] then d else SetAll(d, ps[..|ps| - 1]).Set(ps[|ps| - 1].0, ps[|ps| - 1].1)
  }

  lemma {:induction false} SetAllAppend<K(!new), V>(d: Dict<K, V>, a: seq<(K, V)>, b: seq<(K, V)>)
    ensures SetAll(d, a + b) == SetAll(SetAll(d, a), b)
  {
    if b == [] {
      assert a + b == a;
    } else {
      assert (a + b)[..|a + b| - 1] == a + b[..|b| - 1];
      SetAllAppend(d, a, b[..|b| - 1]);
    }
  }

  /** The keys a sequence of assignments writes. */
  function AssignedKeys<K(!new), V>(ps: seq<(K, V)>): set<K>
  {
    set i | 0 <= i < |ps| :: ps[i].0
  }

  lemma AssignedKeysSnoc<K(!new), V>(ps: seq<(K, V)>, p: (K, V))
    ensures AssignedKeys(ps + [p]) == AssignedKeys(ps) + {p.0}
  {
    var qs := ps + [p];
    assert qs[|ps|].0 == p.0;
    forall x | x in AssignedKeys(qs) ensures x in AssignedKeys(ps) + {p.0} {
      var i :| 0 <= i < |qs| && qs[i].0 == x;
      if i < |ps| {
        assert ps[i] == qs[i];
      }
    }
    forall x | x in AssignedKeys(ps) ensures x in AssignedKeys(qs) {
      var i :| 0 <= i < |ps| && ps[i].0 == x;
      assert qs[i] == ps[i];
    }
  }

  /** Assigning keeps the dict valid. */
  lemma {:induction false} SetAllValid<K(!new), V>(d: Dict<K, V>, ps: seq<(K, V)>)
    requires d.Valid()
    ensures SetAll(d, ps).Valid()
  {
    if ps != [] {
      SetAllValid(d, ps[..|ps| - 1]);
    }
  }

  /** After the assignments the keys are the old ones plus every assigned key. */
  lemma {:induction false} SetAllKeys<K(!new), V>(d: Dict<K, V>, ps: seq<(K, V)>)
    ensures SetAll(d, ps).entries.Keys == d.entries.Keys + AssignedKeys(ps)
  {
    if ps != [] {
      var init := ps[..|ps| - 1];
      SetAllKeys(d, init);
      var last := ps[|ps| - 1];
      assert init + [last] == ps;
      AssignedKeysSnoc(init, last);
      assert SetAll(d, ps).entries == SetAll(d, init).entries[last.0 := last.1];
    }
  }

  /** The last assignment to a key wins. */
  lemma {:induction false} SetAllLastWins<K(!new), V>(d: Dict<K, V>, ps: seq<(K, V)>, i: nat)
    requires i < |ps|
    requires forall j :: i < j < |ps| ==> ps[j].0 != ps[i].0
    ensures ps[i].0 in SetAll(d, ps).entries && SetAll(d, ps).entries[ps[i].0] == ps[i].1
  {
    var init := ps[..|ps| - 1];
    var last := ps[|ps| - 1];
    assert SetAll(d, ps).entries == SetAll(d, init).entries[last.0 := last.1];
    if i < |ps| - 1 {
      assert init[i] == ps[i];
      forall j | i < j < |init| ensures init[j].0 != init[i].0 {
        assert init[j] == ps[j];
      }
      SetAllLastWins(d, init, i);
    }
  }

  /** A key that is never assigned keeps its value. */
  lemma {:induction false} SetAllUntouched<K(!new), V>(d: Dict<K, V>, ps: seq<(K, V)>, k: K)
    requires k in d.entries
    requires forall j :: 0 <= j < |ps| ==> ps[j].0 != k
    ensures k in SetAll(d, ps).entries && SetAll(d, ps).entries[k] == d.entries[k]
  {
    if ps != [] {
      var init := ps[..|ps| - 1];
      var last := ps[|ps| - 1];
      assert SetAll(d, ps).entries == SetAll(d, init).entries[last.0 := last.1];
      forall j | 0 <= j < |init| ensures init[j].0 != k {
        assert init[j] == ps[j];
      }
      SetAllUntouched(d, init, k);
    }
  }
}
