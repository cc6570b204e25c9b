/**
 * The array and map helpers of boolean.js: `Array.prototype.indexOf`,
 * `addToListInMap` and `removeFromListInMap` (a Map from keys to arrays).
 */
module ListMaps {

  /** `list.indexOf(x)`: the first index holding `x`, or -1. */
  function IndexOf<T(==)>(s: seq<T>, x: T): (i: int)
    ensures -1 <= i < |s|
    ensures i == -1 <==> x !in s
    ensures 0 <= i ==> s[i] == x && x !in s[..i]
  {
    if s == [] then -1
    else if s[0] == x then 0
    else
      var j := IndexOf(s[1..], x);
      assert s[1..][..if j < 0 then 0 else j] == s[1..if j < 0 then 1 else j + 1];
      if j == -1 then -1 else j + 1
  }

  /** The list stored under `key`, or an empty one (`map.get(key)` is undefined). */
  function ListAt<K, V>(m: map<K, seq<V>>, key: K): seq<V>
  {
    if key in m then m[key] else []
  }

  /** `addToListInMap`: appends `value` to the list under `key`, creating the list when missing. */
  function AddToListInMap<K, V>(m: map<K, seq<V>>, key: K, value: V): (r: map<K, seq<V>>)
    ensures r.Keys == m.Keys + {key}
    ensures r[key] == ListAt(m, key) + [value]
    ensures forall k | k in m && k != key :: r[k] == m[k]
  {
    m[key := ListAt(m, key) + [value]]
  }

  /**
   * `removeFromListInMap`: removes the first occurrence of `value` from the
   * list under `key`; nothing changes when the key or the value is missing.
   */
  function RemoveFromListInMap<K, V(==)>(m: map<K, seq<V>>, key: K, value: V): (r: map<K, seq<V>>)
    ensures r.Keys == m.Keys
    ensures forall k | k in m && k != key :: r[k] == m[k]
    ensures key in m ==> multiset(r[key]) == multiset(m[key]) - multiset{value}
    ensures key in m && value in m[key] ==> |r[key]| == |m[key]| - 1
    ensures key in m && value !in m[key] ==> r == m
    ensures key in m && value in m[key] ==>
      exists i | 0 <= i < |m[key]| :: m[key][i] == value && value !in m[key][..i] && r[key] == m[key][..i] + m[key][i + 1..]
  {
    if key in m && IndexOf(m[key], value) != -1 then
      var list := m[key];
      var i := IndexOf(list, value);
      assert list == list[..i] + [value] + list[i + 1..];
      m[key := list[..i] + list[i + 1..]]
    else m
  }

  /** Being a prefix is transitive. */
  lemma PrefixTrans<T>(a: seq<T>, b: seq<T>, c: seq<T>)
    requires a <= b && b <= c
    ensures a <= c
  {
    assert forall k | 0 <= k < |a| :: a[k] == b[k] == c[k];
  }

  /** Taking one more element of a sequence. */
  lemma SliceSnoc<T>(s: seq<T>, k: nat)
    requires k < |s|
    ensures s[..k + 1] == s[..k] + [s[k]]
  {
  }

  /** A non-empty sequence is its prefix followed by its last element. */
  lemma LastSplit<T>(s: seq<T>)
    requires s != []
    ensures s == s[..|s| - 1] + [s[|s| - 1]]
  {
  }

  lemma AppendAssoc<T>(a: seq<T>, b: seq<T>, c: seq<T>)
    ensures (a + b) + c == a + (b + c)
  {
  }

  lemma AppendNil<T>(a: seq<T>)
    ensures a + [] == a
  {
  }
}
