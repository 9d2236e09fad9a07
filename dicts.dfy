/**
 * Python dictionaries with string keys, as the client uses them: insertion
 * ordered, one entry per key. A dictionary is a sequence of (key, value)
 * entries; `Put` is item assignment (`d[k] = v`), `Remove` is `del d[k]`,
 * `Get` is `d.get(k)`, and iteration (`d.items()`) is the order of the sequence.
 */
module Dicts {
  import opened Wrappers

  type Dict<V> = seq<(string, V)>

  /** The keys in iteration order. */
  function Keys<V>(d: Dict<V>): (ks: seq<string>)
    ensures |ks| == |d|
    ensures forall i :: 0 <= i < |d| ==> ks[i] == d[i].0
  {
    if d == [] then [] else [d[0].0] + Keys(d[1..])
  }

  predicate HasKey<V>(d: Dict<V>, k: string) {
    k in Keys(d)
  }

  /** No key occurs twice: the shape of every Python dictionary. */
  ghost predicate UniqueKeys<V>(d: Dict<V>) {
    d == [] || (!HasKey(d[1..], d[0].0) && UniqueKeys(d[1..]))
  }

  /** `d.get(k)`: the value stored under `k`, if any. */
  function Get<V>(d: Dict<V>, k: string): Option<V> {
    if d == [] then None
    else if d[0].0 == k then Some(d[0].1)
    else Get(d[1..], k)
  }

  /** `d[k] = v`: an existing key keeps its position and takes the new value,
      a new key is appended at the end. */
  function Put<V>(d: Dict<V>, k: string, v: V): Dict<V> {
    if d == [] then [(k, v)]
    else if d[0].0 == k then [(k, v)] + d[1..]
    else [d[0]] + Put(d[1..], k, v)
  }

  /** `del d[k]`: the entry for `k` goes, every other entry keeps its value
      and its place in the order. */
  function Remove<V>(d: Dict<V>, k: string): Dict<V> {
    if d == [] then []
    else if d[0].0 == k then Remove(d[1..], k)
    else [d[0]] + Remove(d[1..], k)
  }

  /** A lookup finds a value exactly when the key is present, and in a
      dictionary with unique keys it is the value of that key's entry. */
  lemma {:induction false} GetSpec<V>(d: Dict<V>, k: string)
    ensures Get(d, k).None? <==> !HasKey(d, k)
    ensures UniqueKeys(d) ==> forall i :: 0 <= i < |d| && d[i].0 == k ==> Get(d, k) == Some(d[i].1)
  {
    if d != [] {
      GetSpec(d[1..], k);
      assert Keys(d) == [d[0].0] + Keys(d[1..]);
      if UniqueKeys(d) {
        forall i | 0 <= i < |d| && d[i].0 == k ensures Get(d, k) == Some(d[i].1) {
          if i > 0 {
            assert d[1..][i - 1] == d[i];
            assert Keys(d[1..])[i - 1] == k;
          }
        }
      }
    }
  }

  /** Item assignment stores `v` under `k` and leaves every other key's value alone. */
  lemma {:induction false} PutGet<V>(d: Dict<V>, k: string, v: V)
    ensures Get(Put(d, k, v), k) == Some(v)
    ensures forall k' :: k' != k ==> Get(Put(d, k, v), k') == Get(d, k')
  {
    if d != [] && d[0].0 != k {
      PutGet(d[1..], k, v);
      assert Put(d, k, v)[1..] == Put(d[1..], k, v);
    }
  }

  /** Assigning to a present key keeps the key order; assigning to a new key
      appends one entry at the end. */
  lemma {:induction false} PutOrder<V>(d: Dict<V>, k: string, v: V)
    ensures HasKey(d, k) ==> Keys(Put(d, k, v)) == Keys(d)
    ensures !HasKey(d, k) ==> Put(d, k, v) == d + [(k, v)]
  {
    if d != [] {
      PutOrder(d[1..], k, v);
      assert Keys(d) == [d[0].0] + Keys(d[1..]);
      if d[0].0 != k {
        assert Keys(Put(d, k, v)) == [d[0].0] + Keys(Put(d[1..], k, v));
        assert d == [d[0]] + d[1..];
      } else {
        assert Keys(Put(d, k, v)) == [k] + Keys(d[1..]);
      }
    }
  }

  /** The keys after an assignment are the old keys and `k`. */
  lemma {:induction false} PutKeys<V>(d: Dict<V>, k: string, v: V)
    ensures forall x :: HasKey(Put(d, k, v), x) <==> HasKey(d, x) || x == k
  {
    if d != [] {
      PutKeys(d[1..], k, v);
      assert Keys(d) == [d[0].0] + Keys(d[1..]);
      if d[0].0 != k {
        assert Keys(Put(d, k, v)) == [d[0].0] + Keys(Put(d[1..], k, v));
        forall x ensures HasKey(Put(d, k, v), x) <==> HasKey(d, x) || x == k {
          assert HasKey(Put(d[1..], k, v), x) <==> HasKey(d[1..], x) || x == k;
        }
      } else {
        assert Keys(Put(d, k, v)) == [k] + Keys(d[1..]);
      }
    }
  }

  /** Every entry after an assignment is an old entry or the new one. */
  lemma {:induction false} PutEntries<V>(d: Dict<V>, k: string, v: V)
    ensures forall e :: e in Put(d, k, v) ==> e in d || e == (k, v)
  {
    if d != [] {
      PutEntries(d[1..], k, v);
      if d[0].0 != k {
        assert Put(d, k, v) == [d[0]] + Put(d[1..], k, v);
      } else {
        assert Put(d, k, v) == [(k, v)] + d[1..];
      }
      forall e | e in d[1..] ensures e in d {
        var j :| 0 <= j < |d[1..]| && d[1..][j] == e;
        assert d[j + 1] == e;
      }
    }
  }

  /** Item assignment keeps keys unique. */
  lemma {:induction false} PutUnique<V>(d: Dict<V>, k: string, v: V)
    ensures UniqueKeys(d) ==> UniqueKeys(Put(d, k, v))
  {
    if d != [] && UniqueKeys(d) {
      if d[0].0 != k {
        PutUnique(d[1..], k, v);
        PutKeys(d[1..], k, v);
        assert Put(d, k, v)[1..] == Put(d[1..], k, v);
      } else {
        assert Put(d, k, v)[1..] == d[1..];
      }
    }
  }

  /** Deletion: `k` is gone, every other key keeps its value, and nothing
      changes when `k` was absent. */
  lemma {:induction false} RemoveGet<V>(d: Dict<V>, k: string)
    ensures !HasKey(Remove(d, k), k)
    ensures forall k' :: k' != k ==> Get(Remove(d, k), k') == Get(d, k')
    ensures !HasKey(d, k) ==> Remove(d, k) == d
  {
    if d != [] {
      RemoveGet(d[1..], k);
      assert Keys(d) == [d[0].0] + Keys(d[1..]);
      if d[0].0 != k {
        assert Remove(d, k)[1..] == Remove(d[1..], k);
        assert Keys(Remove(d, k)) == [d[0].0] + Keys(Remove(d[1..], k));
        assert d == [d[0]] + d[1..];
      }
    }
  }

  /** Every entry after a deletion is an old entry with another key. */
  lemma {:induction false} RemoveEntries<V>(d: Dict<V>, k: string)
    ensures forall e :: e in Remove(d, k) ==> e in d && e.0 != k
  {
    if d != [] {
      RemoveEntries(d[1..], k);
      forall e | e in d[1..] ensures e in d {
        var j :| 0 <= j < |d[1..]| && d[1..][j] == e;
        assert d[j + 1] == e;
      }
      if d[0].0 != k {
        assert Remove(d, k) == [d[0]] + Remove(d[1..], k);
      }
    }
  }

  /** Deletion never adds a key. */
  lemma {:induction false} RemoveKeys<V>(d: Dict<V>, k: string)
    ensures forall x :: HasKey(Remove(d, k), x) ==> HasKey(d, x)
  {
    if d != [] {
      RemoveKeys(d[1..], k);
      assert Keys(d) == [d[0].0] + Keys(d[1..]);
      if d[0].0 != k {
        assert Keys(Remove(d, k)) == [d[0].0] + Keys(Remove(d[1..], k));
        forall x | HasKey(Remove(d, k), x) ensures HasKey(d, x) {
          if x != d[0].0 {
            assert HasKey(Remove(d[1..], k), x);
          }
        }
      }
    }
  }

  /** Deletion keeps keys unique. */
  lemma {:induction false} RemoveUnique<V>(d: Dict<V>, k: string)
    ensures UniqueKeys(d) ==> UniqueKeys(Remove(d, k))
  {
    if d != [] && UniqueKeys(d) {
      RemoveUnique(d[1..], k);
      if d[0].0 != k {
        RemoveKeys(d[1..], k);
        assert Remove(d, k)[1..] == Remove(d[1..], k);
      }
    }
  }
}
