/** The insertion-ordered map of ECMAScript, on which both limiters and the branding cache
    build their recency lists: a new key goes to the end, `Set` on a held key keeps its place,
    and the first key is the coldest. */
module InsertionMaps {

  datatype Option<+T> = None | Some(value: T)

  ghost predicate Distinct<T>(s: seq<T>) {
    forall i, j :: 0 <= i < j < |s| ==> s[i] != s[j]
  }

  /** The sequence without the first occurrence of `k`. */
  function Remove<K(==)>(s: seq<K>, k: K): (r: seq<K>) {
    if s == [] then [] else if s[0] == k then s[1..] else [s[0]] + Remove(s[1..], k)
  }

  lemma {:induction false} RemoveSplit<K>(a: seq<K>, k: K, b: seq<K>)
    requires k !in a
    ensures Remove(a + [k] + b, k) == a + b
  {
    if a == [] {
      assert a + [k] + b == [k] + b;
      assert a + b == b;
    } else {
      var s := a + [k] + b;
      assert s[1..] == a[1..] + [k] + b;
      RemoveSplit(a[1..], k, b);
      assert [s[0]] + (a[1..] + b) == a + b;
    }
  }

  /** Where a held key sits: everything before it, and everything after it. */
  lemma Locate<K>(s: seq<K>, k: K) returns (i: nat)
    requires k in s && Distinct(s)
    ensures i < |s| && s[i] == k && k !in s[..i] && k !in s[i + 1..]
    ensures s == s[..i] + [k] + s[i + 1..]
    ensures Remove(s, k) == s[..i] + s[i + 1..]
  {
    i :| 0 <= i < |s| && s[i] == k;
    assert s == s[..i] + [k] + s[i + 1..];
    RemoveSplit(s[..i], k, s[i + 1..]);
  }

  lemma RemoveFacts<K>(s: seq<K>, k: K)
    requires k in s && Distinct(s)
    ensures Distinct(Remove(s, k)) && |Remove(s, k)| == |s| - 1
    ensures forall x :: x in Remove(s, k) <==> x in s && x != k
  {
    var i := Locate(s, k);
    WithoutPlace(s, i);
  }

  lemma WithoutPlace<K>(s: seq<K>, i: nat)
    requires i < |s| && Distinct(s)
    ensures var r := s[..i] + s[i + 1..];
      Distinct(r) && |r| == |s| - 1 && forall x :: x in r <==> x in s && x != s[i]
  {
    var r := s[..i] + s[i + 1..];
    forall j | 0 <= j < |r| ensures r[j] == s[if j < i then j else j + 1] {}
    forall j | 0 <= j < |s| && j != i ensures r[if j < i then j else j - 1] == s[j] {}
  }

  function Elements<T(==)>(s: seq<T>): (r: set<T>) { set x | x in s }

  /** The keys inserted after `k`. */
  function After<K(==)>(s: seq<K>, k: K): (r: set<K>) {
    if s == [] then {} else if s[0] == k then Elements(s[1..]) else After(s[1..], k)
  }

  lemma {:induction false} AfterSplit<K>(a: seq<K>, k: K, b: seq<K>)
    requires k !in a
    ensures After(a + [k] + b, k) == Elements(b)
  {
    var s := a + [k] + b;
    if a == [] {
      assert s[1..] == b;
    } else {
      assert s[1..] == a[1..] + [k] + b;
      AfterSplit(a[1..], k, b);
    }
  }

  lemma {:induction false} SetOfDistinct<K>(s: seq<K>)
    requires Distinct(s)
    ensures |Elements(s)| == |s|
  {
    if s != [] {
      SetOfDistinct(s[1..]);
      assert Elements(s) == {s[0]} + Elements(s[1..]);
    }
  }

  /** Fewer keys follow `k` than the list holds. */
  lemma AfterCount<K>(s: seq<K>, k: K)
    requires k in s && Distinct(s)
    ensures |After(s, k)| < |s|
  {
    var i := Locate(s, k);
    AfterSplit(s[..i], k, s[i + 1..]);
    SetOfDistinct(s[i + 1..]);
  }

  lemma {:induction false} AfterWithin<K>(s: seq<K>, k: K)
    ensures After(s, k) <= Elements(s)
  {
    if s != [] { AfterWithin(s[1..], k); }
  }

  /** Removing another key takes just that key out of what follows `k`. */
  lemma {:induction false} AfterRemove<K>(s: seq<K>, k: K, other: K)
    requires Distinct(s) && k in s && other in s && other != k
    ensures After(Remove(s, other), k) == After(s, k) - {other}
  {
    if s[0] == k {
      var rest := Remove(s[1..], other);
      RemoveFacts(s[1..], other);
      assert Remove(s, other) == [k] + rest && ([k] + rest)[1..] == rest;
      assert Elements(rest) == Elements(s[1..]) - {other};
    } else if s[0] == other {
      AfterWithin(s[1..], k);
    } else {
      AfterRemove(s[1..], k, other);
      assert Remove(s, other)[1..] == Remove(s[1..], other);
    }
  }

  lemma AfterAppend<K>(s: seq<K>, k: K, last: K)
    requires k in s && Distinct(s) && last !in s
    ensures After(s + [last], k) == After(s, k) + {last}
  {
    var i := Locate(s, k);
    AfterSplit(s[..i], k, s[i + 1..]);
    assert s + [last] == s[..i] + [k] + (s[i + 1..] + [last]);
    AfterSplit(s[..i], k, s[i + 1..] + [last]);
  }

  /** The part of a map that some keys have. */
  function KeptIn<K, V>(kept: seq<K>, held: map<K, V>): map<K, V> { map k | k in kept && k in held :: held[k] }

  lemma KeptWithout<K, V>(kept: seq<K>, held: map<K, V>, k: K)
    requires k !in kept
    ensures KeptIn(kept, held - {k}) == KeptIn(kept, held)
  {}

  lemma KeptAll<K(!new), V>(m: InsertionMap<K, V>)
    requires m.Valid()
    ensures KeptIn(m.order, m.held) == m.held
  {}

  datatype InsertionMap<K(==, !new), V> = InsertionMap(order: seq<K>, held: map<K, V>) {

    ghost predicate Valid() {
      && Distinct(order)
      && (forall k :: k in order <==> k in held)
    }

    function Size(): nat { |order| }

    function Get(k: K): Option<V> { if k in held then Some(held[k]) else None }

    function Delete(k: K): InsertionMap<K, V> {
      InsertionMap(Remove(order, k), held - {k})
    }

    function Set(k: K, v: V): InsertionMap<K, V> {
      InsertionMap(if k in held then order else order + [k], held[k := v])
    }

    /** The `n` most recent keys. */
    function Newest(n: nat): InsertionMap<K, V> {
      if |order| <= n then this else
        var kept := order[|order| - n..];
        InsertionMap(kept, KeptIn(kept, held))
    }

    lemma NewestValid(n: nat)
      requires Valid()
      ensures Newest(n).Valid() && |Newest(n).order| <= n
    {}

    /** Deleting the coldest key is a step towards keeping the `n` most recent. */
    lemma NewestStep(n: nat)
      requires Valid() && |order| > n
      ensures Delete(order[0]).Valid() && Delete(order[0]).order == order[1..]
      ensures Delete(order[0]).Newest(n) == Newest(n)
    {
      DeleteValid(order[0]);
      NewestOrder(n);
      KeptWithout(Newest(n).order, held, order[0]);
      if |order| == n + 1 { KeptAll(Delete(order[0])); }
    }

    lemma NewestOrder(n: nat)
      requires Valid() && |order| > n
      ensures Delete(order[0]).Newest(n).order == Newest(n).order
      ensures order[0] !in Newest(n).order
    {
      assert order[1..][|order| - 1 - n..] == order[|order| - n..];
    }

    /** Deleting and setting again is how a key is made the most recent one. */
    lemma MoveToEnd(k: K, v: V)
      requires Valid()
      ensures var r := Delete(k).Set(k, v);
        r.Valid() && r.order == (if k in held then Remove(order, k) else order) + [k]
        && |r.order| == |order| + (if k in held then 0 else 1)
        && r.held == held[k := v]
    {
      DeleteValid(k);
      var rest := Delete(k).order;
      assert forall x :: x in rest + [k] <==> x in held[k := v];
      assert (held - {k})[k := v] == held[k := v];
      if k !in held { RemoveAbsent(order, k); }
    }

    lemma DeleteValid(k: K)
      requires Valid()
      ensures Delete(k).Valid()
      ensures k in held ==> |Delete(k).order| == |order| - 1
      ensures k !in held ==> Delete(k) == this
    {
      assert k in order <==> k in Elements(order);
      if k in held {
        RemoveFacts(order, k);
      } else {
        RemoveAbsent(order, k);
        assert held - {k} == held;
      }
    }
  }

  function Empty<K(==, !new), V>(): InsertionMap<K, V> { InsertionMap([], map[]) }

  lemma {:induction false} RemoveAbsent<K>(s: seq<K>, k: K)
    requires k !in s
    ensures Remove(s, k) == s
  {
    if s != [] { RemoveAbsent(s[1..], k); }
  }
}
