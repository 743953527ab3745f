/** The two JavaScript collections the editor provider keeps its registry
    in: a `Map`, whose iteration follows the order in which keys were first
    inserted, and an array with `indexOf` and `splice`. */
module JsCollections {
  import opened Text

  /** A `Map`: the keys in insertion order and the key-value entries. */
  datatype OrderedMap<K(==,!new), V> = OrderedMap(keys: seq<K>, entries: map<K, V>)
  {
    /** Each key is listed once, and exactly the keys with an entry are listed. */
    ghost predicate Valid() {
      && Distinct(keys)
      && (forall k :: k in keys <==> k in entries)
    }

    /** `map.get(k)`. */
    function Get(k: K): (r: Option<V>)
      ensures r.Some? <==> k in entries
    {
      if k in entries then Some(entries[k]) else None
    }

    /** `map.set(k, v)`: a new key goes last, an existing key keeps its place. */
    function Set(k: K, v: V): (r: OrderedMap<K, V>)
      ensures r.entries == entries[k := v]
    {
      OrderedMap(if k in entries then keys else keys + [k], entries[k := v])
    }

    /** `map.delete(k)`. */
    function Delete(k: K): (r: OrderedMap<K, V>)
      ensures r.entries == entries - {k}
    {
      OrderedMap(RemoveAll(keys, k), entries - {k})
    }

    /** `map.size`. */
    function Size(): nat {
      |keys|
    }

    /** `Array.from(map.values())`. */
    function Values(): (r: seq<V>)
      requires Valid()
      ensures |r| == |keys| && forall t :: 0 <= t < |keys| ==> r[t] == entries[keys[t]]
    {
      seq(|keys|, t requires 0 <= t < |keys| && Valid() => entries[keys[t]])
    }
  }

  function EmptyMap<K(==,!new), V>(): (r: OrderedMap<K, V>)
    ensures r.Valid() && r.Size() == 0
  {
    OrderedMap([], map[])
  }

  /** The sequence without the occurrences of `x`. */
  function RemoveAll<T(==,!new)>(s: seq<T>, x: T): (r: seq<T>)
    ensures forall y :: y in r <==> y in s && y != x
    ensures |r| <= |s|
  {
    if s == [] then []
    else (if s[0] == x then [] else [s[0]]) + RemoveAll(s[1..], x)
  }

  /** `array.indexOf(x)`, with -1 as `None`. */
  function IndexOf<T(==)>(s: seq<T>, x: T): (r: Option<nat>)
    ensures r.Some? ==> r.value < |s| && s[r.value] == x && forall t :: 0 <= t < r.value ==> s[t] != x
    ensures r.None? <==> x !in s
  {
    if s == [] then None
    else if s[0] == x then Some(0)
    else match IndexOf(s[1..], x)
      case None => None
      case Some(t) => Some(t + 1)
  }

  /** `array.splice(i, 1)`. */
  function RemoveAt<T>(s: seq<T>, i: nat): (r: seq<T>)
    requires i < |s|
    ensures |r| == |s| - 1
    ensures forall t :: 0 <= t < i ==> r[t] == s[t]
    ensures forall t :: i <= t < |r| ==> r[t] == s[t + 1]
  {
    s[..i] + s[i + 1..]
  }

  // ----- properties -----

  /** `set` keeps a map valid, reads back the value it stored, leaves every
      other key's value alone, and keeps the order of the keys already there. */
  lemma {:induction false} SetMeaning<K(!new), V>(m: OrderedMap<K, V>, k: K, v: V)
    requires m.Valid()
    ensures m.Set(k, v).Valid()
    ensures m.Set(k, v).Get(k) == Some(v)
    ensures forall j :: j != k ==> m.Set(k, v).Get(j) == m.Get(j)
    ensures k in m.entries ==> m.Set(k, v).keys == m.keys
    ensures k !in m.entries ==> m.Set(k, v).keys == m.keys + [k]
  {
    var r := m.Set(k, v);
    if k !in m.entries {
      forall p, q | 0 <= p < q < |r.keys| ensures r.keys[p] != r.keys[q] {
        if q == |m.keys| {
          assert r.keys[p] in m.keys;
        }
      }
    }
  }

  /** No element occurs twice. */
  ghost predicate Distinct<T>(s: seq<T>) {
    forall p, q :: 0 <= p < q < |s| ==> s[p] != s[q]
  }

  lemma {:induction false} RemoveAllDistinct<T(!new)>(s: seq<T>, x: T)
    requires Distinct(s)
    ensures Distinct(RemoveAll(s, x))
  {
    if s != [] {
      var tail := s[1..];
      assert Distinct(tail) by {
        forall p, q | 0 <= p < q < |tail| ensures tail[p] != tail[q] {
          assert tail[p] == s[p + 1] && tail[q] == s[q + 1];
        }
      }
      RemoveAllDistinct(tail, x);
      var rest := RemoveAll(tail, x);
      if s[0] != x {
        var r := [s[0]] + rest;
        assert RemoveAll(s, x) == r;
        assert s[0] !in tail by {
          forall t | 0 <= t < |tail| ensures tail[t] != s[0] {
            assert tail[t] == s[t + 1];
          }
        }
        forall p, q | 0 <= p < q < |r| ensures r[p] != r[q] {
          if p == 0 {
            assert r[q] in rest;
          } else {
            assert r[p] == rest[p - 1] && r[q] == rest[q - 1];
          }
        }
      } else {
        assert RemoveAll(s, x) == rest;
      }
    }
  }

  /** `delete` keeps a map valid, removes the key and nothing else, and keeps
      the other keys in their order. */
  lemma {:induction false} DeleteMeaning<K(!new), V>(m: OrderedMap<K, V>, k: K)
    requires m.Valid()
    ensures m.Delete(k).Valid()
    ensures m.Delete(k).Get(k).None?
    ensures forall j :: j != k ==> m.Delete(k).Get(j) == m.Get(j)
    ensures m.Delete(k).keys == RemoveAll(m.keys, k)
  {
    RemoveAllDistinct(m.keys, k);
  }

  /** A key's removal from the end of a sequence it was appended to. */
  lemma {:induction false} RemoveAllAppended<T(!new)>(s: seq<T>, x: T)
    requires x !in s
    ensures RemoveAll(s + [x], x) == s
  {
    if s == [] {
      assert [x][1..] == [];
    } else {
      RemoveAllAppended(s[1..], x);
      assert (s + [x])[1..] == s[1..] + [x];
      assert s == [s[0]] + s[1..];
    }
  }

  /** Setting a new key and deleting it again gives back the map it started
      from, key order included. */
  lemma {:induction false} SetDeleteRoundTrip<K(!new), V>(m: OrderedMap<K, V>, k: K, v: V)
    requires m.Valid() && k !in m.entries
    ensures m.Set(k, v).Delete(k) == m
  {
    RemoveAllAppended(m.keys, k);
    assert m.entries[k := v] - {k} == m.entries;
  }

  /** Splicing out the position `indexOf` found removes that one occurrence:
      on a sequence where the element is appended once at the end, the
      sequence before the append comes back. */
  lemma {:induction false} RemoveAppended<T>(s: seq<T>, x: T)
    requires x !in s
    ensures IndexOf(s + [x], x) == Some(|s|)
    ensures RemoveAt(s + [x], |s|) == s
  {
    IndexOfAppended(s, x);
  }

  lemma {:induction false} IndexOfAppended<T>(s: seq<T>, x: T)
    requires x !in s
    ensures IndexOf(s + [x], x) == Some(|s|)
  {
    var r := IndexOf(s + [x], x);
    assert (s + [x])[|s|] == x;
    assert r.Some?;
  }
}
