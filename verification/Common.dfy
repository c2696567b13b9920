/** Vocabulary shared by the models: optional values, and strictly increasing
    index lists, which stand for "in the order of the capture". */
module Common {

  datatype Option<+T> = None | Some(value: T)

  /** Python truthiness of an optional string. */
  predicate Truthy(o: Option<string>) {
    o.Some? && o.value != ""
  }

  ghost predicate Increasing(s: seq<nat>) {
    forall a, b :: 0 <= a < b < |s| ==> s[a] < s[b]
  }

  ghost predicate Distinct<T>(s: seq<T>) {
    forall a, b :: 0 <= a < b < |s| ==> s[a] != s[b]
  }

  lemma ConcatSnoc<T>(s: seq<T>, t: seq<T>)
    requires t != []
    ensures s + t == (s + t[..|t| - 1]) + [t[|t| - 1]]
  {
  }

  lemma TakeSnoc<T>(s: seq<T>, n: nat)
    requires n < |s|
    ensures s[..n + 1] == s[..n] + [s[n]]
    ensures s[..n + 1][..n] == s[..n]
  {
  }

  ghost function Flatten<T>(parts: seq<seq<T>>): seq<T> {
    if parts == [] then [] else Flatten(parts[..|parts| - 1]) + parts[|parts| - 1]
  }

  lemma FlattenSnoc<T>(parts: seq<seq<T>>, p: seq<T>)
    ensures Flatten(parts + [p]) == Flatten(parts) + p
  {
    assert (parts + [p])[..|parts|] == parts;
  }

  lemma {:induction false} FlattenConcat<T>(a: seq<seq<T>>, b: seq<seq<T>>)
    ensures Flatten(a + b) == Flatten(a) + Flatten(b)
  {
    if b == [] {
      assert a + b == a;
    } else {
      ConcatSnoc(a, b);
      FlattenConcat(a, b[..|b| - 1]);
      FlattenSnoc(a + b[..|b| - 1], b[|b| - 1]);
    }
  }

  lemma Pick<T>(s: set<T>) returns (x: T)
    requires s != {}
    ensures x in s
  {
    x :| x in s;
  }

  lemma LeastOf(s: set<int>) returns (m: int)
    requires s != {}
    ensures m in s && forall x :: x in s ==> m <= x
    decreases s
  {
    var y := Pick(s);
    m := y;
    if s - {y} != {} {
      var least := LeastOf(s - {y});
      if least < y {
        m := least;
      }
    }
    assert forall x :: x in s ==> x == y || x in s - {y};
  }

  lemma LeastExists(s: set<int>)
    requires s != {}
    ensures exists m :: m in s && forall x :: x in s ==> m <= x
  {
    var m := LeastOf(s);
  }

  function Least(s: set<int>): (m: int)
    requires s != {}
    ensures m in s && forall x :: x in s ==> m <= x
  {
    LeastExists(s);
    var m :| m in s && forall x :: x in s ==> m <= x;
    m
  }

  /** sorted(s) */
  function Ascending(s: set<int>): (r: seq<int>)
    ensures forall x :: x in r <==> x in s
    ensures forall a, b :: 0 <= a < b < |r| ==> r[a] < r[b]
    decreases s
  {
    if s == {} then [] else [Least(s)] + Ascending(s - {Least(s)})
  }

  lemma AscendingNothing()
    ensures Ascending({}) == []
  {
  }

  lemma Singleton(s: set<int>)
    requires |s| == 1
    ensures exists x :: s == {x}
  {
    var x := Pick(s);
    assert |s - {x}| == 0;
    assert s == {x};
  }

  /** An increasing list is determined by its elements. */
  lemma {:induction false} IncreasingUnique(s: seq<nat>, t: seq<nat>)
    requires Increasing(s) && Increasing(t)
    requires forall i :: i in s <==> i in t
    ensures s == t
  {
    if s == [] {
      assert forall i :: 0 <= i < |t| ==> t[i] in t;
    } else {
      assert s[0] in s && s[0] in t;
      assert t[0] in t;
      var k :| 0 <= k < |s| && s[k] == t[0];
      var l :| 0 <= l < |t| && t[l] == s[0];
      assert s[0] <= s[k] && t[0] <= t[l];
      forall i | i in s[1..]
        ensures i in t[1..]
      {
        var k :| 0 <= k < |s[1..]| && s[1..][k] == i;
        assert s[k + 1] == i && i in t && i != t[0];
      }
      forall i | i in t[1..]
        ensures i in s[1..]
      {
        var k :| 0 <= k < |t[1..]| && t[1..][k] == i;
        assert t[k + 1] == i && i in s && i != s[0];
      }
      IncreasingUnique(s[1..], t[1..]);
      assert s == [s[0]] + s[1..] && t == [t[0]] + t[1..];
    }
  }
}

/** A Python dictionary: it iterates in insertion order; overwriting a key keeps
    its place, popping and inserting it again moves it to the end. */
module Dicts {
  import opened Common

  datatype Dict<K(==), V> = Dict(order: seq<K>, at: map<K, V>) {

    ghost predicate Valid() {
      Distinct(order) && (set k | k in order) == at.Keys
    }

    predicate Has(k: K) {
      k in at
    }

    function Put(k: K, v: V): (d: Dict<K, V>)
      requires Valid()
      ensures d.Valid()
      ensures d.at == at[k := v]
      ensures d.order == if Has(k) then order else order + [k]
    {
      Dict(if Has(k) then order else order + [k], at[k := v])
    }

    function Pop(k: K): (d: Dict<K, V>)
      requires Valid()
      ensures d.Valid()
      ensures d.at == at - {k}
      ensures d.order == Without(order, k)
    {
      WithoutMembers(order, k);
      assert forall x :: x in order ==> x in (set x | x in order);
      Dict(Without(order, k), at - {k})
    }

    function Values(): (vs: seq<V>)
      requires Valid()
      ensures |vs| == |order| && forall i :: 0 <= i < |vs| ==> vs[i] == at[order[i]]
    {
      assert forall i :: 0 <= i < |order| ==> order[i] in order;
      seq(|order|, i requires 0 <= i < |order| => at[order[i]])
    }
  }

  function Empty<K(==), V>(): (d: Dict<K, V>)
    ensures d.Valid() && d.order == [] && d.at == map[]
  {
    Dict([], map[])
  }

  function Without<K(==)>(s: seq<K>, k: K): seq<K> {
    if s == [] then []
    else if s[|s| - 1] == k then Without(s[..|s| - 1], k)
    else Without(s[..|s| - 1], k) + [s[|s| - 1]]
  }

  lemma {:induction false} WithoutMembers<K>(s: seq<K>, k: K)
    ensures (set x | x in Without(s, k)) == (set x | x in s) - {k}
    ensures Distinct(s) ==> Distinct(Without(s, k))
    ensures k !in s ==> Without(s, k) == s
  {
    if s != [] {
      var p, last := s[..|s| - 1], s[|s| - 1];
      WithoutMembers(p, k);
      assert s == p + [last];
      assert (set x | x in s) == (set x | x in p) + {last};
      var w := Without(p, k);
      assert (set x | x in w + [last]) == (set x | x in w) + {last};
      if Distinct(s) {
        assert Distinct(p);
        assert forall i :: 0 <= i < |p| ==> s[i] == p[i];
        assert last !in p;
        assert forall x :: x in w ==> x in (set x | x in w);
        assert last !in w;
      }
    }
  }
}
