/** The heartbeat cache shared in shape by the Cluster Manager and the Global
    Balancer: a dict from a key (node URL or cluster name) to its last-known
    view, rewritten once per heartbeat pass.  The dict is a `map` for the
    contents plus a `seq` for its insertion order, as Python dicts keep it. */
module ViewCache {
  import opened Common

  /** `d.get(k)`. */
  function Lookup<K, V>(m: map<K, V>, k: K): (r: Option<V>)
    ensures r.Some? <==> k in m
    ensures k in m ==> r == Some(m[k])
  {
    if k in m then Some(m[k]) else None
  }

  /** One heartbeat pass over `keys` in order: entry `keys[i]` is overwritten
      with `observe(previous entry, probes[i], now)`.  A key probed twice is
      observed twice, the second time against the first observation. */
  function Refresh<K, V, P>(m: map<K, V>, keys: seq<K>, probes: seq<P>,
                            observe: (Option<V>, P, int) -> V, now: int): map<K, V>
    requires |probes| == |keys|
    decreases |keys|
  {
    if keys == [] then m
    else
      var k := |keys| - 1;
      var before := Refresh(m, keys[..k], probes[..k], observe, now);
      before[keys[k] := observe(Lookup(before, keys[k]), probes[k], now)]
  }

  /** The insertion order after assigning `d[k]` for every k of `keys`:
      a key already present keeps its place, a new key goes to the end. */
  function Enlist<K(==)>(order: seq<K>, keys: seq<K>): seq<K>
    decreases |keys|
  {
    if keys == [] then order
    else
      var k := |keys| - 1;
      var before := Enlist(order, keys[..k]);
      if keys[k] in before then before else before + [keys[k]]
  }

  /** After a pass every probed key has an entry, and no other key is added. */
  lemma {:induction false} RefreshKeys<K, V, P>(m: map<K, V>, keys: seq<K>, probes: seq<P>,
                                                observe: (Option<V>, P, int) -> V, now: int)
    requires |probes| == |keys|
    ensures forall x :: x in Refresh(m, keys, probes, observe, now) <==> x in m || x in keys
  {
    if keys != [] {
      var k := |keys| - 1;
      RefreshKeys(m, keys[..k], probes[..k], observe, now);
      assert keys == keys[..k] + [keys[k]];
    }
  }

  /** An entry whose key was not probed is left exactly as it was. */
  lemma {:induction false} RefreshUntouched<K, V, P>(m: map<K, V>, keys: seq<K>, probes: seq<P>,
                                                     observe: (Option<V>, P, int) -> V, now: int, x: K)
    requires |probes| == |keys|
    requires x !in keys
    ensures Lookup(Refresh(m, keys, probes, observe, now), x) == Lookup(m, x)
  {
    if keys != [] {
      var k := |keys| - 1;
      assert x !in keys[..k];
      RefreshUntouched(m, keys[..k], probes[..k], observe, now, x);
    }
  }

  /** The entry of a key probed exactly once is the observation of its previous
      entry against that probe. */
  lemma {:induction false} RefreshOnce<K, V, P>(m: map<K, V>, keys: seq<K>, probes: seq<P>,
                                                observe: (Option<V>, P, int) -> V, now: int, i: nat)
    requires |probes| == |keys| && i < |keys|
    requires forall j :: 0 <= j < |keys| && j != i ==> keys[j] != keys[i]
    ensures Lookup(Refresh(m, keys, probes, observe, now), keys[i])
            == Some(observe(Lookup(m, keys[i]), probes[i], now))
  {
    var k := |keys| - 1;
    var before := Refresh(m, keys[..k], probes[..k], observe, now);
    if i == k {
      assert keys[i] !in keys[..k];
      RefreshUntouched(m, keys[..k], probes[..k], observe, now, keys[i]);
    } else {
      assert keys[..k][i] == keys[i] && probes[..k][i] == probes[i];
      RefreshOnce(m, keys[..k], probes[..k], observe, now, i);
    }
  }

  /** The keys of the new order are the old ones plus the assigned ones. */
  lemma {:induction false} EnlistMembers<K>(order: seq<K>, keys: seq<K>)
    ensures forall x :: x in Enlist(order, keys) <==> x in order || x in keys
  {
    if keys != [] {
      var k := |keys| - 1;
      EnlistMembers(order, keys[..k]);
      assert keys == keys[..k] + [keys[k]];
    }
  }

  /** The new order never repeats a key and keeps the old order as a prefix:
      entries already in the dict do not move. */
  lemma {:induction false} EnlistKeepsOrder<K>(order: seq<K>, keys: seq<K>)
    requires Distinct(order)
    ensures Distinct(Enlist(order, keys))
    ensures |order| <= |Enlist(order, keys)| && Enlist(order, keys)[..|order|] == order
  {
    if keys != [] {
      var k := |keys| - 1;
      EnlistKeepsOrder(order, keys[..k]);
      var before := Enlist(order, keys[..k]);
      if keys[k] !in before {
        var after := before + [keys[k]];
        assert after[..|order|] == before[..|order|];
        forall i, j | 0 <= i < j < |after| ensures after[i] != after[j] {
          if j == |before| {
            assert after[i] == before[i];
          }
        }
      }
    }
  }
}
