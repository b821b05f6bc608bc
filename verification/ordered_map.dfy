/**
 The part of a JavaScript `Map` that the chat server uses: `set`, `get`,
 `delete`, `size` and `values()`. A `Map` remembers the order in which its
 keys were first inserted; re-setting a present key keeps its place, deleting
 a key removes its place, and `values()` iterates in that order.
 */
module OrderedMap {
  import opened Wrappers

  /** Keys in first-insertion order, beside the key/value association. */
  datatype Raw<K(==,!new), V(!new)> = Raw(order: seq<K>, entries: map<K, V>)

  /** No element occurs twice in `s`. */
  ghost predicate Distinct<K>(s: seq<K>) {
    forall i, j :: 0 <= i < j < |s| ==> s[i] != s[j]
  }

  /** The insertion order lists every key of the association exactly once. */
  ghost predicate Wf<K(!new), V(!new)>(m: Raw<K, V>) {
    && Distinct(m.order)
    && forall k :: k in m.order <==> k in m.entries
  }

  type OMap<K(==,!new), V(!new)> = m: Raw<K, V> | Wf(m) witness Raw([], map[])

  /** `new Map()` */
  function Empty<K(==,!new), V(!new)>(): (m: OMap<K, V>)
    ensures Size(m) == 0
    ensures forall k :: Get(m, k) == None
  {
    Raw([], map[])
  }

  /** `m.size` */
  function Size<K(==,!new), V(!new)>(m: OMap<K, V>): nat {
    |m.entries|
  }

  /** `m.get(k)`, with `None` for `undefined` */
  function Get<K(==,!new), V(!new)>(m: OMap<K, V>, k: K): (r: Option<V>)
    ensures r.Some? <==> k in m.entries
    ensures r.Some? ==> r.value == m.entries[k]
  {
    if k in m.entries then Some(m.entries[k]) else None
  }

  /** `m.set(k, v)`: overwrites in place when `k` is present, appends `k` otherwise. */
  function Set<K(==,!new), V(!new)>(m: OMap<K, V>, k: K, v: V): (r: OMap<K, V>)
    ensures Get(r, k) == Some(v)
    ensures forall j :: j != k ==> Get(r, j) == Get(m, j)
    ensures Size(r) == if k in m.entries then Size(m) else Size(m) + 1
    ensures k in m.entries ==> r.order == m.order
    ensures k !in m.entries ==> r.order == m.order + [k]
  {
    if k in m.entries then Raw(m.order, m.entries[k := v])
    else Raw(m.order + [k], m.entries[k := v])
  }

  /** `s` with every occurrence of `k` dropped, the rest kept in order. */
  function Without<K(==,!new)>(s: seq<K>, k: K): (r: seq<K>)
    ensures forall x :: x in r <==> x in s && x != k
    ensures Distinct(s) ==> Distinct(r)
  {
    if s == [] then []
    else if s[0] == k then Without(s[1..], k)
    else
      var rest := Without(s[1..], k);
      assert s == [s[0]] + s[1..];
      DistinctCons(s[0], rest, s[1..]);
      [s[0]] + rest
  }

  /** Prepending an element that is new to `s` keeps any sub-list of `s` free of repeats. */
  lemma DistinctCons<K>(x: K, t: seq<K>, s: seq<K>)
    requires forall y :: y in t ==> y in s
    ensures Distinct([x] + s) && Distinct(t) ==> Distinct([x] + t)
  {
    if Distinct([x] + s) && Distinct(t) {
      DistinctConsCase(x, t, s);
    }
  }

  lemma DistinctConsCase<K>(x: K, t: seq<K>, s: seq<K>)
    requires Distinct([x] + s) && Distinct(t)
    requires forall y :: y in t ==> y in s
    ensures Distinct([x] + t)
  {
    assert x !in s by {
      forall j | 0 <= j < |s|
        ensures s[j] != x
      {
        assert ([x] + s)[0] == x && ([x] + s)[j + 1] == s[j];
      }
    }
    forall i, j | 0 <= i < j < |[x] + t|
      ensures ([x] + t)[i] != ([x] + t)[j]
    {
      if i == 0 {
        assert ([x] + t)[j] == t[j - 1];
      }
    }
  }

  lemma {:induction false} WithoutAbsent<K(!new)>(s: seq<K>, k: K)
    requires k !in s
    ensures Without(s, k) == s
  {
    if s != [] {
      WithoutAbsent(s[1..], k);
    }
  }

  lemma {:induction false} WithoutConcat<K(!new)>(a: seq<K>, b: seq<K>, k: K)
    ensures Without(a + b, k) == Without(a, k) + Without(b, k)
  {
    if a == [] {
      assert a + b == b;
    } else {
      assert (a + b)[1..] == a[1..] + b;
      WithoutConcat(a[1..], b, k);
    }
  }

  /** In a list without repeats, dropping `k` removes exactly its one slot. */
  lemma WithoutAt<K(!new)>(s: seq<K>, i: nat, k: K)
    requires Distinct(s) && i < |s| && s[i] == k
    ensures Without(s, k) == s[..i] + s[i+1..]
  {
    assert s == s[..i] + ([k] + s[i+1..]);
    WithoutConcat(s[..i], [k] + s[i+1..], k);
    WithoutConcat([k], s[i+1..], k);
    assert k !in s[..i];
    assert k !in s[i+1..];
    WithoutAbsent(s[..i], k);
    WithoutAbsent(s[i+1..], k);
  }

  /** `m.delete(k)`: drops `k` and its slot in the order; a missing key changes nothing. */
  function Delete<K(==,!new), V(!new)>(m: OMap<K, V>, k: K): (r: OMap<K, V>)
    ensures Get(r, k) == None
    ensures forall j :: j != k ==> Get(r, j) == Get(m, j)
    ensures Size(r) == if k in m.entries then Size(m) - 1 else Size(m)
    ensures k !in m.entries ==> r == m
    ensures forall i :: 0 <= i < |m.order| && m.order[i] == k ==> r.order == m.order[..i] + m.order[i+1..]
  {
    if k in m.entries then
      forall i | 0 <= i < |m.order| && m.order[i] == k
        ensures Without(m.order, k) == m.order[..i] + m.order[i+1..]
      {
        WithoutAt(m.order, i, k);
      }
      Raw(Without(m.order, k), m.entries - {k})
    else
      m
  }

  /** A list without repeats is exactly as long as the set it enumerates. */
  lemma {:induction false} DistinctLength<K>(s: seq<K>, keys: set<K>)
    requires Distinct(s)
    requires forall k :: k in s <==> k in keys
    ensures |s| == |keys|
  {
    if s != [] {
      var last := s[|s| - 1];
      var init := s[..|s| - 1];
      assert forall k :: k in init <==> k in keys - {last} by {
        forall k
          ensures k in init <==> k in keys - {last}
        {
          if k in s {
            var j :| 0 <= j < |s| && s[j] == k;
            if j < |s| - 1 {
              assert init[j] == k;
            }
          }
          assert s == init + [last];
        }
      }
      DistinctLength(init, keys - {last});
    }
  }

  /** `Array.from(m.values())`: every value once, in the insertion order of its key. */
  function Values<K(==,!new), V(!new)>(m: OMap<K, V>): (r: seq<V>)
    ensures |r| == |m.order| == Size(m)
    ensures forall i :: 0 <= i < |r| ==> r[i] == m.entries[m.order[i]]
    ensures forall v :: v in r <==> exists k :: k in m.entries && m.entries[k] == v
  {
    DistinctLength(m.order, m.entries.Keys);
    var r := seq(|m.order|, i requires 0 <= i < |m.order| => m.entries[m.order[i]]);
    assert forall v :: (exists k :: k in m.entries && m.entries[k] == v) ==> v in r by {
      forall v, k | k in m.entries && m.entries[k] == v
        ensures v in r
      {
        var i :| 0 <= i < |m.order| && m.order[i] == k;
        assert r[i] == v;
      }
    }
    r
  }

  /** Setting a key twice is setting it once, to the second value. */
  lemma SetTwice<K(!new), V(!new)>(m: OMap<K, V>, k: K, a: V, b: V)
    ensures Set(Set(m, k, a), k, b) == Set(m, k, b)
  {
  }

  /** Deleting a key that was just added restores the map, order included. */
  lemma DeleteUndoesSet<K(!new), V(!new)>(m: OMap<K, V>, k: K, v: V)
    requires k !in m.entries
    ensures Delete(Set(m, k, v), k) == m
  {
    WithoutLast(m.order, k);
    assert m.entries[k := v] - {k} == m.entries;
  }

  /** Dropping a key that was appended to a list without it gives the list back. */
  lemma WithoutLast<K(!new)>(s: seq<K>, k: K)
    requires k !in s
    ensures Without(s + [k], k) == s
  {
    WithoutConcat(s, [k], k);
    WithoutAbsent(s, k);
    assert Without([k], k) == [];
  }
}
