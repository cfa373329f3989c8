/**
 * The Redis keyspace the cache talks to, as three maps from key to value:
 * hashes (HSET/HGETALL), sets (SADD/SREM/SMEMBERS) and integer counters (INCR).
 * Redis never keeps an empty hash or an empty set: a key whose last field or
 * member goes away stops existing.
 */
module Keyspace {

  type Hashes = map<string, map<string, string>>
  type Sets = map<string, set<string>>
  type Counters = map<string, int>

  /** HGETALL: the hash at k, or the empty map for a missing key. */
  function HashAt(hashes: Hashes, k: string): map<string, string>
  {
    if k in hashes then hashes[k] else map[]
  }

  /** SMEMBERS: the set at k, or the empty set for a missing key. */
  function SetAt(sets: Sets, k: string): set<string>
  {
    if k in sets then sets[k] else {}
  }

  /** A missing counter reads as 0 for INCR. */
  function CounterAt(counters: Counters, k: string): int
  {
    if k in counters then counters[k] else 0
  }

  /** EXISTS: the key holds a value of some kind. */
  predicate KeyExists(hashes: Hashes, sets: Sets, counters: Counters, k: string)
  {
    k in hashes || k in sets || k in counters
  }

  predicate NoEmptyValues(hashes: Hashes, sets: Sets)
  {
    && (forall k :: k in hashes ==> hashes[k] != map[])
    && (forall k :: k in sets ==> sets[k] != {})
  }

  /** HSET k mapping: writes the given fields, keeps the others. */
  function HSetFields(hashes: Hashes, k: string, mapping: map<string, string>): Hashes
  {
    hashes[k := HashAt(hashes, k) + mapping]
  }

  /** SADD k m. */
  function SAdd(sets: Sets, k: string, m: string): (r: Sets)
    ensures r.Keys == sets.Keys + {k}
    ensures SetAt(r, k) == SetAt(sets, k) + {m}
    ensures forall k' :: k' in sets && k' != k ==> r[k'] == sets[k']
    ensures forall k' :: k' != k ==> SetAt(r, k') == SetAt(sets, k')
  {
    sets[k := SetAt(sets, k) + {m}]
  }

  /** SREM k m: the key disappears with its last member. */
  function SRem(sets: Sets, k: string, m: string): (r: Sets)
    ensures SetAt(r, k) == SetAt(sets, k) - {m}
    ensures forall k' :: k' != k ==> SetAt(r, k') == SetAt(sets, k')
    ensures NoEmptyValues(map[], sets) ==> NoEmptyValues(map[], r)
  {
    if k !in sets then sets
    else if sets[k] - {m} == {} then sets - {k}
    else sets[k := sets[k] - {m}]
  }

  /** SREM t m for every t in targets. */
  function StripMember(sets: Sets, targets: set<string>, m: string): Sets
  {
    map k | k in sets && !(k in targets && sets[k] - {m} == {}) ::
      if k in targets then sets[k] - {m} else sets[k]
  }

  /** DEL of several keys, whatever their kind. */
  function DeleteKeys<V>(m: map<string, V>, keys: set<string>): (r: map<string, V>)
    ensures r.Keys == m.Keys - keys
    ensures forall k :: k in r ==> r[k] == m[k]
  {
    m - keys
  }

  /** Removing a member from one more target is one more SREM. */
  lemma StripMemberStep(sets: Sets, targets: set<string>, k: string, m: string)
    ensures StripMember(sets, targets + {k}, m) == SRem(StripMember(sets, targets, m), k, m)
  {
    var lhs, mid := StripMember(sets, targets + {k}, m), StripMember(sets, targets, m);
    var rhs := SRem(mid, k, m);
    forall x | x in lhs
      ensures x in rhs && lhs[x] == rhs[x]
    {
      assert SetAt(rhs, x) == SetAt(lhs, x);
    }
    forall x | x in rhs
      ensures x in lhs
    {
      assert SetAt(rhs, x) == SetAt(lhs, x);
    }
    assert lhs.Keys == rhs.Keys;
  }

  lemma StripMemberNone(sets: Sets, m: string)
    ensures StripMember(sets, {}, m) == sets
  {
    assert StripMember(sets, {}, m).Keys == sets.Keys;
  }

  /** SREM of a member that none of the targets holds changes nothing. */
  lemma StripAbsentMember(sets: Sets, targets: set<string>, m: string)
    requires NoEmptyValues(map[], sets)
    requires forall t :: t in targets && t in sets ==> m !in sets[t]
    ensures StripMember(sets, targets, m) == sets
  {
    var r := StripMember(sets, targets, m);
    forall k | k in sets
      ensures k in r && r[k] == sets[k]
    {
      if k in targets {
        assert sets[k] - {m} == sets[k];
      }
    }
    assert r.Keys == sets.Keys;
  }

  class Store {
    var hashes: Hashes
    var sets: Sets
    var counters: Counters

    /** Redis drops empty hashes and sets. */
    ghost predicate Valid()
      reads this
    {
      NoEmptyValues(hashes, sets)
    }

    /** An empty database. */
    constructor ()
      ensures Valid()
      ensures hashes == map[] && sets == map[] && counters == map[]
    {
      hashes, sets, counters := map[], map[], map[];
    }

    /** EXISTS k: 1 if the key holds a value of any kind, else 0. */
    method Exists(k: string) returns (n: int)
      requires Valid()
      ensures n == 1 <==> (k in hashes || k in sets || k in counters)
      ensures n == 0 <==> !(k in hashes || k in sets || k in counters)
      ensures k in sets ==> n == 1 && SetAt(sets, k) != {}
    {
      n := if k in hashes || k in sets || k in counters then 1 else 0;
    }

    /** HSET k mapping (redis-py refuses an empty mapping before sending it). */
    method HSet(k: string, mapping: map<string, string>)
      requires Valid()
      requires mapping != map[]
      modifies this
      ensures Valid()
      ensures hashes == HSetFields(old(hashes), k, mapping)
      ensures sets == old(sets) && counters == old(counters)
    {
      hashes := HSetFields(hashes, k, mapping);
      assert hashes[k].Keys >= mapping.Keys;
    }

    /** HGETALL k. */
    method HGetAll(k: string) returns (raw: map<string, string>)
      requires Valid()
      ensures raw == HashAt(hashes, k)
      ensures raw != map[] <==> k in hashes
    {
      raw := HashAt(hashes, k);
    }

    /** INCR k: the new value. */
    method Incr(k: string) returns (n: int)
      modifies this
      ensures n == CounterAt(old(counters), k) + 1
      ensures counters == old(counters)[k := n]
      ensures hashes == old(hashes) && sets == old(sets)
    {
      n := CounterAt(counters, k) + 1;
      counters := counters[k := n];
    }

    /** SADD k m. */
    method SAddMember(k: string, m: string)
      requires Valid()
      modifies this
      ensures Valid()
      ensures sets == SAdd(old(sets), k, m)
      ensures hashes == old(hashes) && counters == old(counters)
    {
      sets := SAdd(sets, k, m);
    }

    /** SREM k m. */
    method SRemMember(k: string, m: string)
      requires Valid()
      modifies this
      ensures Valid()
      ensures sets == SRem(old(sets), k, m)
      ensures hashes == old(hashes) && counters == old(counters)
    {
      sets := SRem(sets, k, m);
    }

    /** SMEMBERS k, delivered in the store's own iteration order. */
    method SMembers(k: string) returns (members: seq<string>)
      ensures forall i :: 0 <= i < |members| ==> members[i] in SetAt(sets, k)
      ensures forall x :: x in SetAt(sets, k) ==> x in members
      ensures forall i, j :: 0 <= i < j < |members| ==> members[i] != members[j]
    {
      var rest := SetAt(sets, k);
      ghost var seen: set<string> := {};
      members := [];
      while rest != {}
        invariant rest !! seen && rest + seen == SetAt(sets, k)
        invariant forall x :: x in seen <==> x in members
        invariant forall i, j :: 0 <= i < j < |members| ==> members[i] != members[j]
        decreases rest
      {
        var x :| x in rest;
        members, seen := members + [x], seen + {x};
        rest := rest - {x};
      }
    }

    /** DEL k1 k2 ...: removes each key, whatever it holds. */
    method Delete(keys: set<string>)
      requires Valid()
      modifies this
      ensures Valid()
      ensures hashes == DeleteKeys(old(hashes), keys)
      ensures sets == DeleteKeys(old(sets), keys)
      ensures counters == DeleteKeys(old(counters), keys)
    {
      hashes, sets, counters := hashes - keys, sets - keys, counters - keys;
    }
  }
}
