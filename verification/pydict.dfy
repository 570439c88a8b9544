/**
  A Python `dict`: a finite map together with the insertion order of its keys.
  Assigning to a present key keeps its position, assigning to a new key appends
  it, and `del` takes the key out of the order.
 */
module PyDict {

  datatype Dict<K(==, !new), V> = Dict(items: map<K, V>, order: seq<K>) {

    /** The order lists every key exactly once. */
    ghost predicate Valid() {
      && Distinct(order)
      && (forall k :: k in items <==> k in order)
    }

    /** `d[k] = v` */
    function Put(k: K, v: V): Dict<K, V> {
      Dict(items[k := v], if k in items then order else order + [k])
    }

    /** `del d[k]` when `k` is present; nothing otherwise. */
    function Remove(k: K): Dict<K, V> {
      Dict(items - {k}, Without(order, k))
    }

    /** `list(d.items())`: the key-value pairs in insertion order. */
    function Items(): (pairs: seq<(K, V)>)
      requires Valid()
      ensures |pairs| == |order|
      ensures forall i :: 0 <= i < |order| ==> pairs[i] == (order[i], items[order[i]])
    {
      seq(|order|, i requires 0 <= i < |order| => (order[i], items[order[i]]))
    }
  }

  /** The empty dict `{}`. */
  function Empty<K(==, !new), V>(): (d: Dict<K, V>)
    ensures d.Valid() && d.items == map[] && d.order == []
  {
    Dict(map[], [])
  }

  /** No element occurs twice. */
  ghost predicate Distinct<K>(s: seq<K>) {
    forall i, j :: 0 <= i < j < |s| ==> s[i] != s[j]
  }

  /** `s` with every occurrence of `k` taken out, the rest in order. */
  function Without<K(==)>(s: seq<K>, k: K): seq<K> {
    if s == [] then [] else (if s[0] == k then [] else [s[0]]) + Without(s[1..], k)
  }

  lemma {:induction false} WithoutMembers<K>(s: seq<K>, k: K)
    ensures forall x :: x in Without(s, k) <==> x in s && x != k
  {
    if s != [] {
      WithoutMembers(s[1..], k);
    }
  }

  lemma {:induction false} WithoutAbsent<K>(s: seq<K>, k: K)
    requires k !in s
    ensures Without(s, k) == s
  {
    if s != [] {
      WithoutAbsent(s[1..], k);
    }
  }

  lemma {:induction false} WithoutDistinct<K>(s: seq<K>, k: K)
    requires Distinct(s)
    ensures Distinct(Without(s, k))
  {
    if s != [] {
      var tail := Without(s[1..], k);
      WithoutDistinct(s[1..], k);
      WithoutMembers(s[1..], k);
      if s[0] != k {
        var w := [s[0]] + tail;
        assert Without(s, k) == w;
        assert s[0] !in s[1..];
        forall i, j | 0 <= i < j < |w| ensures w[i] != w[j] {
          assert w[j] == tail[j - 1] && tail[j - 1] in tail;
          if i > 0 {
            assert w[i] == tail[i - 1];
          }
        }
      } else {
        assert Without(s, k) == tail;
      }
    }
  }

  /** Assignment keeps a dict well formed. */
  lemma PutValid<K(!new), V>(d: Dict<K, V>, k: K, v: V)
    requires d.Valid()
    ensures d.Put(k, v).Valid()
  {
    var p := d.Put(k, v);
    if k !in d.items {
      forall i, j | 0 <= i < j < |p.order| ensures p.order[i] != p.order[j] {
        if j == |d.order| {
          assert p.order[i] == d.order[i] && d.order[i] in d.order;
        }
      }
    }
  }

  /** Deletion keeps a dict well formed. */
  lemma RemoveValid<K(!new), V>(d: Dict<K, V>, k: K)
    requires d.Valid()
    ensures d.Remove(k).Valid()
  {
    WithoutMembers(d.order, k);
    WithoutDistinct(d.order, k);
  }

  /** Deleting an absent key changes nothing. */
  lemma RemoveAbsent<K(!new), V>(d: Dict<K, V>, k: K)
    requires d.Valid() && k !in d.items
    ensures d.Remove(k) == d
  {
    WithoutAbsent(d.order, k);
  }

  /** Deleting twice is deleting once. */
  lemma RemoveIdempotent<K(!new), V>(d: Dict<K, V>, k: K)
    requires d.Valid()
    ensures d.Remove(k).Remove(k) == d.Remove(k)
  {
    RemoveValid(d, k);
    RemoveAbsent(d.Remove(k), k);
  }
}
