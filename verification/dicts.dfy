/** Insertion-ordered dictionaries (Python `dict`, `OrderedDict`) as association lists.

A dictionary is valid when no key occurs twice. Assigning an existing key keeps its
position; a new key goes at the end.
 */
module Dicts {
  import opened Wrappers
  import Seqs

  type Dict<K, V> = seq<(K, V)>

  /** `list(d)`: the keys in insertion order. */
  function Keys<K, V>(d: Dict<K, V>): (r: seq<K>)
    ensures |r| == |d|
  {
    if |d| == 0 then [] else [d[0].0] + Keys(d[1..])
  }

  /** `list(d.values())`, in insertion order. */
  function Values<K, V>(d: Dict<K, V>): (r: seq<V>)
    ensures |r| == |d|
    ensures forall i :: 0 <= i < |d| ==> r[i] == d[i].1
  {
    seq(|d|, i requires 0 <= i < |d| => d[i].1)
  }

  lemma {:induction false} KeysAt<K(!new), V>(d: Dict<K, V>, i: nat)
    requires i < |d|
    ensures Keys(d)[i] == d[i].0
  {
    if i > 0 {
      KeysAt(d[1..], i - 1);
    }
  }

  predicate HasKey<K(==,!new), V>(d: Dict<K, V>, k: K) {
    |d| > 0 && (d[0].0 == k || HasKey(d[1..], k))
  }

  lemma {:induction false} HasKeyIffInKeys<K(!new), V>(d: Dict<K, V>, k: K)
    ensures HasKey(d, k) <==> k in Keys(d)
  {
    if |d| > 0 {
      HasKeyIffInKeys(d[1..], k);
    }
  }

  lemma ConsFacts<K(!new), V>(k: K, v: V, d: Dict<K, V>, key: K)
    ensures HasKey([(k, v)] + d, key) <==> k == key || HasKey(d, key)
    ensures Get([(k, v)] + d, key) == if k == key then Some(v) else Get(d, key)
    ensures Valid([(k, v)] + d) <==> !HasKey(d, k) && Valid(d)
  {
    assert ([(k, v)] + d)[1..] == d;
  }

  /** No key occurs twice. */
  predicate Valid<K(==,!new), V>(d: Dict<K, V>) {
    |d| == 0 || (!HasKey(d[1..], d[0].0) && Valid(d[1..]))
  }

  /** Validity is the absence of duplicates in the key list. */
  lemma {:induction false} ValidIffNoDupKeys<K(!new), V>(d: Dict<K, V>)
    ensures Valid(d) <==> Seqs.NoDup(Keys(d))
  {
    if |d| > 0 {
      ValidIffNoDupKeys(d[1..]);
      HasKeyIffInKeys(d[1..], d[0].0);
      var ks, ts := Keys(d), Keys(d[1..]);
      assert ks == [d[0].0] + ts;
      if Seqs.NoDup(ks) {
        assert Seqs.NoDup(ts) by {
          forall a, b | 0 <= a < b < |ts| ensures ts[a] != ts[b] {
            assert ks[a + 1] != ks[b + 1];
          }
        }
        assert d[0].0 !in ts by {
          forall i | 0 <= i < |ts| ensures ts[i] != d[0].0 {
            assert ks[0] != ks[i + 1];
          }
        }
      }
      if Valid(d) {
        forall a, b | 0 <= a < b < |ks| ensures ks[a] != ks[b] {
          if a > 0 {
            assert ks[a] == ts[a - 1] && ks[b] == ts[b - 1];
          } else {
            assert ks[b] == ts[b - 1];
          }
        }
      }
    }
  }

  /** `d.get(k)`: the value stored under `k`, found by a scan from the front. */
  function Get<K(==,!new), V>(d: Dict<K, V>, k: K): (r: Option<V>)
    ensures r.Some? <==> HasKey(d, k)
  {
    if |d| == 0 then None
    else if d[0].0 == k then Some(d[0].1)
    else Get(d[1..], k)
  }

  /** A found value is stored with its key somewhere in the dictionary. */
  lemma {:induction false} GetStored<K(!new), V>(d: Dict<K, V>, k: K)
    requires HasKey(d, k)
    ensures exists i :: 0 <= i < |d| && d[i].0 == k && d[i].1 == Get(d, k).value
  {
    if d[0].0 != k {
      GetStored(d[1..], k);
      var i :| 0 <= i < |d[1..]| && d[1..][i].0 == k && d[1..][i].1 == Get(d[1..], k).value;
      assert d[i + 1] == d[1..][i];
    }
  }

  /** In a valid dictionary the stored pair of a key is the one `Get` finds. */
  lemma {:induction false} GetOfValid<K(!new), V>(d: Dict<K, V>, i: nat)
    requires Valid(d) && i < |d|
    ensures Get(d, d[i].0) == Some(d[i].1)
  {
    if i > 0 {
      GetOfValid(d[1..], i - 1);
      assert d[1..][i - 1] == d[i];
    }
  }

  lemma {:induction false} HasKeyAppend<K(!new), V>(d: Dict<K, V>, e: Dict<K, V>, k: K)
    ensures HasKey(d + e, k) <==> HasKey(d, k) || HasKey(e, k)
  {
    if |d| > 0 {
      assert (d + e)[1..] == d[1..] + e;
      HasKeyAppend(d[1..], e, k);
    } else {
      assert d + e == e;
    }
  }

  /** A lookup in a concatenation finds the left operand's entry first. */
  lemma {:induction false} GetAppend<K(!new), V>(d: Dict<K, V>, e: Dict<K, V>, k: K)
    ensures Get(d + e, k) == if HasKey(d, k) then Get(d, k) else Get(e, k)
  {
    if |d| > 0 {
      assert (d + e)[1..] == d[1..] + e;
      GetAppend(d[1..], e, k);
    } else {
      assert d + e == e;
    }
  }

  /** `d[k] = v` */
  function Set<K(==,!new), V>(d: Dict<K, V>, k: K, v: V): (r: Dict<K, V>)
    ensures Get(r, k) == Some(v)
    ensures forall k' :: k' != k ==> Get(r, k') == Get(d, k')
    ensures forall k' :: HasKey(r, k') <==> HasKey(d, k') || k' == k
    ensures HasKey(d, k) ==> Keys(r) == Keys(d)
    ensures !HasKey(d, k) ==> Keys(r) == Keys(d) + [k]
    ensures Valid(d) ==> Valid(r)
  {
    if |d| == 0 then [(k, v)]
    else if d[0].0 == k then
      var r := [(k, v)] + d[1..];
      assert r[0] == (k, v) && r[1..] == d[1..];
      r
    else
      var t := Set(d[1..], k, v);
      var r := [d[0]] + t;
      assert r[0] == d[0] && r[1..] == t;
      r
  }

  /** A key outside `ks` is unchanged when every key outside `ks` is. */
  lemma Unchanged<K(!new), V>(d: Dict<K, V>, r: Dict<K, V>, ks: set<K>, k: K)
    requires forall k' :: k' !in ks ==> Get(r, k') == Get(d, k')
    requires k !in ks
    ensures Get(r, k) == Get(d, k)
  {
  }

  /** `d.setdefault(k, v)`: an existing value is never overwritten. */
  function SetDefault<K(==,!new), V>(d: Dict<K, V>, k: K, v: V): (r: Dict<K, V>)
    ensures HasKey(d, k) ==> r == d
    ensures !HasKey(d, k) ==> Get(r, k) == Some(v) && Keys(r) == Keys(d) + [k]
    ensures forall k' :: k' != k ==> Get(r, k') == Get(d, k')
    ensures Valid(d) ==> Valid(r)
  {
    if HasKey(d, k) then d else Set(d, k, v)
  }

  /** `for k, v in e.items(): d.setdefault(k, v)`: keys already present keep their value,
      a missing key gets its first value in `e`. */
  function SetDefaults<K(==,!new), V>(d: Dict<K, V>, e: Dict<K, V>): (r: Dict<K, V>)
    ensures forall k :: HasKey(r, k) <==> HasKey(d, k) || HasKey(e, k)
    ensures forall k :: HasKey(d, k) ==> Get(r, k) == Get(d, k)
    ensures forall k :: !HasKey(d, k) ==> Get(r, k) == Get(e, k)
    ensures Valid(d) ==> Valid(r)
    decreases |e|
  {
    if |e| == 0 then d else SetDefaults(SetDefault(d, e[0].0, e[0].1), e[1..])
  }

  /** `setdefault` never moves or drops the keys already present. */
  lemma {:induction false} SetDefaultsKeysPrefix<K(!new), V>(d: Dict<K, V>, e: Dict<K, V>)
    ensures Seqs.IsPrefix(Keys(d), Keys(SetDefaults(d, e)))
    decreases |e|
  {
    if |e| > 0 {
      var d1 := SetDefault(d, e[0].0, e[0].1);
      SetDefaultsKeysPrefix(d1, e[1..]);
      var k1 := Keys(SetDefaults(d1, e[1..]));
      assert Keys(d1)[..|Keys(d)|] == Keys(d);
      assert k1[..|Keys(d)|] == k1[..|Keys(d1)|][..|Keys(d)|];
    }
  }

  /** `d.update(e)`: the pairs of `e` assigned in order. */
  function Update<K(==,!new), V>(d: Dict<K, V>, e: Dict<K, V>): (r: Dict<K, V>)
    ensures Valid(d) ==> Valid(r)
    ensures forall k :: !HasKey(e, k) ==> Get(r, k) == Get(d, k)
    ensures forall k :: HasKey(r, k) <==> HasKey(d, k) || HasKey(e, k)
    decreases |e|
  {
    if |e| == 0 then d else Update(Set(d, e[0].0, e[0].1), e[1..])
  }

  /** `update` never moves or drops the keys already present. */
  lemma {:induction false} UpdateKeysPrefix<K(!new), V>(d: Dict<K, V>, e: Dict<K, V>)
    ensures Seqs.IsPrefix(Keys(d), Keys(Update(d, e)))
    decreases |e|
  {
    if |e| > 0 {
      var d1 := Set(d, e[0].0, e[0].1);
      UpdateKeysPrefix(d1, e[1..]);
      var k1 := Keys(Update(d1, e[1..]));
      assert Keys(d1)[..|Keys(d)|] == Keys(d);
      assert k1[..|Keys(d)|] == k1[..|Keys(d1)|][..|Keys(d)|];
    }
  }

  /** With a valid right operand, `update` gives each of its keys its value there. */
  lemma {:induction false} UpdateGet<K(!new), V>(d: Dict<K, V>, e: Dict<K, V>, k: K)
    requires Valid(e)
    ensures Get(Update(d, e), k) == if HasKey(e, k) then Get(e, k) else Get(d, k)
    decreases |e|
  {
    if |e| > 0 {
      UpdateGet(Set(d, e[0].0, e[0].1), e[1..], k);
    }
  }

  /** Keys of `d` first, in their order, then the new keys of `e` in theirs. */
  lemma {:induction false} UpdateKeys<K(!new), V>(d: Dict<K, V>, e: Dict<K, V>)
    requires forall i :: 0 <= i < |e| ==> !HasKey(d, e[i].0)
    requires Valid(e)
    ensures Keys(Update(d, e)) == Keys(d) + Keys(e)
    decreases |e|
  {
    if |e| > 0 {
      var d1 := Set(d, e[0].0, e[0].1);
      assert Keys(d1) == Keys(d) + [e[0].0];
      assert forall i :: 0 <= i < |e[1..]| ==> !HasKey(d1, e[1..][i].0) by {
        forall i | 0 <= i < |e[1..]| ensures !HasKey(d1, e[1..][i].0) {
          assert e[1..][i] == e[i + 1];
          HasKeyAt(e[1..], i);
        }
      }
      UpdateKeys(d1, e[1..]);
      calc {
        Keys(Update(d, e));
        Keys(Update(d1, e[1..]));
        Keys(d1) + Keys(e[1..]);
        (Keys(d) + [e[0].0]) + Keys(e[1..]);
        Keys(d) + ([e[0].0] + Keys(e[1..]));
        Keys(d) + Keys(e);
      }
    }
  }

  lemma {:induction false} HasKeyAt<K(!new), V>(d: Dict<K, V>, i: nat)
    requires i < |d|
    ensures HasKey(d, d[i].0)
  {
    if i > 0 {
      HasKeyAt(d[1..], i - 1);
      assert d[1..][i - 1] == d[i];
    }
  }

  /** `{k: v for k, v in pairs}`: a key keeps its first position and its last value. */
  function FromPairs<K(==,!new), V>(pairs: seq<(K, V)>): (r: Dict<K, V>)
    ensures Valid(r)
    ensures forall k :: HasKey(r, k) <==> HasKey(pairs, k)
  {
    Update([], pairs)
  }

  /** The value `FromPairs` keeps for a key is that of its last pair. */
  lemma FromPairsLastWins<K(!new), V>(pairs: seq<(K, V)>, i: nat)
    requires i < |pairs|
    requires !HasKey(pairs[i + 1..], pairs[i].0)
    ensures Get(FromPairs(pairs), pairs[i].0) == Some(pairs[i].1)
  {
    UpdateLastWins([], pairs, i);
  }

  /** A value `update` leaves under a key came from the left operand or from a pair of the right one. */
  lemma {:induction false} UpdateStored<K(!new), V>(d: Dict<K, V>, e: Dict<K, V>, k: K)
    requires HasKey(Update(d, e), k)
    ensures Get(Update(d, e), k) == Get(d, k)
      || exists i :: 0 <= i < |e| && e[i] == (k, Get(Update(d, e), k).value)
    decreases |e|
  {
    if |e| > 0 {
      var d1 := Set(d, e[0].0, e[0].1);
      assert Update(d, e) == Update(d1, e[1..]);
      UpdateStored(d1, e[1..], k);
      var v := Get(Update(d, e), k).value;
      if exists i :: 0 <= i < |e[1..]| && e[1..][i] == (k, v) {
        var i :| 0 <= i < |e[1..]| && e[1..][i] == (k, v);
        assert e[i + 1] == (k, v);
      } else if k == e[0].0 {
        assert e[0] == (k, v);
      }
    }
  }

  /** Every entry of `FromPairs` is one of the pairs it was built from. */
  lemma FromPairsStored<K(!new), V>(pairs: seq<(K, V)>, k: K)
    requires HasKey(FromPairs(pairs), k)
    ensures exists i :: 0 <= i < |pairs| && pairs[i] == (k, Get(FromPairs(pairs), k).value)
  {
    UpdateStored([], pairs, k);
  }

  lemma {:induction false} UpdateLastWins<K(!new), V>(d: Dict<K, V>, e: Dict<K, V>, i: nat)
    requires i < |e|
    requires !HasKey(e[i + 1..], e[i].0)
    ensures Get(Update(d, e), e[i].0) == Some(e[i].1)
    decreases |e|
  {
    if i > 0 {
      assert e[1..][i - 1] == e[i] && e[1..][i..] == e[i + 1..];
      UpdateLastWins(Set(d, e[0].0, e[0].1), e[1..], i - 1);
    } else {
      assert e[1..] == e[i + 1..];
    }
  }

  /** `{k: v for k, v in d.items() if k not in ks}` */
  function Without<K(==,!new), V>(d: Dict<K, V>, ks: set<K>): (r: Dict<K, V>)
    ensures forall k :: Get(r, k) == if k in ks then None else Get(d, k)
    ensures forall k :: HasKey(r, k) <==> HasKey(d, k) && k !in ks
    ensures Valid(d) ==> Valid(r)
    ensures |r| <= |d|
  {
    if |d| == 0 then []
    else if d[0].0 in ks then Without(d[1..], ks)
    else
      var t := Without(d[1..], ks);
      var r := [d[0]] + t;
      assert r[0] == d[0] && r[1..] == t;
      r
  }

  /** The dictionary as a map: Python's `==` on dicts ignores the order of keys. */
  function ToMap<K(==,!new), V>(d: Dict<K, V>): (m: map<K, V>)
    ensures forall k :: k in m <==> HasKey(d, k)
    ensures forall k :: k in m ==> Get(d, k) == Some(m[k])
  {
    if |d| == 0 then map[]
    else ToMap(d[1..])[d[0].0 := d[0].1]
  }
}
