/** Python's list.sort: the stable sort by a total preorder, and the laws that
    make several successive sorts one lexicographic sort. */
module StableSort {
  import opened Common

  ghost predicate TotalPreorder<T(!new)>(leq: (T, T) -> bool) {
    && (forall x, y :: leq(x, y) || leq(y, x))
    && (forall x, y, z :: leq(x, y) && leq(y, z) ==> leq(x, z))
  }

  /** x goes in front of the first element it may precede: in front of its equals. */
  function Insert<T>(leq: (T, T) -> bool, x: T, s: seq<T>): seq<T> {
    if s == [] then [x]
    else if leq(x, s[0]) then [x] + s
    else [s[0]] + Insert(leq, x, s[1..])
  }

  function Sort<T>(leq: (T, T) -> bool, s: seq<T>): seq<T> {
    if s == [] then [] else Insert(leq, s[0], Sort(leq, s[1..]))
  }

  ghost predicate Sorted<T>(leq: (T, T) -> bool, s: seq<T>) {
    forall i, j :: 0 <= i < j < |s| ==> leq(s[i], s[j])
  }

  /** The elements of s that compare equal to x, in their order. */
  ghost function EqualTo<T>(leq: (T, T) -> bool, x: T, s: seq<T>): seq<T> {
    if s == [] then []
    else if leq(x, s[0]) && leq(s[0], x) then [s[0]] + EqualTo(leq, x, s[1..])
    else EqualTo(leq, x, s[1..])
  }

  /** All of them, as often as they are in s. */
  lemma {:induction false} EqualToHolds<T>(leq: (T, T) -> bool, x: T, s: seq<T>, y: T)
    ensures multiset(EqualTo(leq, x, s))[y] == if leq(x, y) && leq(y, x) then multiset(s)[y] else 0
  {
    if s != [] {
      EqualToHolds(leq, x, s[1..], y);
      assert s == [s[0]] + s[1..];
      assert multiset(s)[y] == multiset(s[1..])[y] + if y == s[0] then 1 else 0;
    }
  }

  lemma {:induction false} InsertIsSorted<T(!new)>(leq: (T, T) -> bool, x: T, s: seq<T>)
    requires TotalPreorder(leq)
    requires Sorted(leq, s)
    ensures Sorted(leq, Insert(leq, x, s))
    ensures multiset(Insert(leq, x, s)) == multiset{x} + multiset(s)
  {
    InsertMembers(leq, x, s);
    if s == [] {
    } else if leq(x, s[0]) {
      assert forall j :: 0 <= j < |s| ==> leq(s[0], s[j]);
    } else {
      var rest := Insert(leq, x, s[1..]);
      InsertIsSorted(leq, x, s[1..]);
      forall i | 0 <= i < |rest|
        ensures leq(s[0], rest[i])
      {
        InsertHas(leq, x, s[1..], rest[i]);
      }
    }
  }

  lemma {:induction false} InsertHas<T>(leq: (T, T) -> bool, x: T, s: seq<T>, e: T)
    ensures e in Insert(leq, x, s) <==> e == x || e in s
  {
    if s != [] && !leq(x, s[0]) {
      InsertHas(leq, x, s[1..], e);
      assert e in s <==> e == s[0] || e in s[1..];
    }
  }

  /** The contract of list.sort: a sorted, stable permutation. */
  lemma {:induction false} SortIsStable<T(!new)>(leq: (T, T) -> bool, s: seq<T>)
    requires TotalPreorder(leq)
    ensures Sorted(leq, Sort(leq, s))
    ensures multiset(Sort(leq, s)) == multiset(s)
    ensures forall x :: EqualTo(leq, x, Sort(leq, s)) == EqualTo(leq, x, s)
  {
    if s != [] {
      SortIsStable(leq, s[1..]);
      InsertIsSorted(leq, s[0], Sort(leq, s[1..]));
      assert s == [s[0]] + s[1..];
      forall x
        ensures EqualTo(leq, x, Sort(leq, s)) == EqualTo(leq, x, s)
      {
        InsertIsStable(leq, s[0], Sort(leq, s[1..]), x);
      }
    }
  }

  lemma {:induction false} InsertIsStable<T(!new)>(leq: (T, T) -> bool, y: T, s: seq<T>, x: T)
    requires TotalPreorder(leq)
    ensures EqualTo(leq, x, Insert(leq, y, s)) == EqualTo(leq, x, [y] + s)
  {
    if s != [] && !leq(y, s[0]) {
      InsertIsStable(leq, y, s[1..], x);
      var t := Insert(leq, y, s[1..]);
      assert Insert(leq, y, s) == [s[0]] + t;
      assert ([s[0]] + t)[1..] == t;
      assert ([y] + s)[1..] == s && ([y] + s[1..])[1..] == s[1..];
    }
  }

  /** Equals are in the order r. */
  ghost predicate OrdersEquals<T>(leq: (T, T) -> bool, r: (T, T) -> bool, s: seq<T>) {
    forall x, y :: 0 <= x < y < |s| && leq(s[y], s[x]) ==> r(s[x], s[y])
  }

  /** Elements listed by some order come out, among equals, by that order. */
  lemma {:induction false} SortKeepsOrder<T(!new)>(leq: (T, T) -> bool, r: (T, T) -> bool, s: seq<T>)
    requires forall x, y :: 0 <= x < y < |s| ==> r(s[x], s[y])
    ensures OrdersEquals(leq, r, Sort(leq, s))
  {
    if s != [] {
      SortKeepsOrder(leq, r, s[1..]);
      SortMembers(leq, s[1..]);
      forall x | x in s[1..]
        ensures r(s[0], x)
      {
        var k :| 0 < k < |s| && s[k] == x;
      }
      InsertKeepsOrder(leq, r, s[0], Sort(leq, s[1..]));
    }
  }

  lemma {:induction false} InsertKeepsOrder<T(!new)>(leq: (T, T) -> bool, r: (T, T) -> bool, e: T, s: seq<T>)
    requires OrdersEquals(leq, r, s) && forall x :: x in s ==> r(e, x)
    ensures OrdersEquals(leq, r, Insert(leq, e, s))
  {
    if s != [] && !leq(e, s[0]) {
      var rest := Insert(leq, e, s[1..]);
      InsertKeepsOrder(leq, r, e, s[1..]);
      InsertMembers(leq, e, s[1..]);
      forall y | 0 <= y < |rest| && leq(rest[y], s[0])
        ensures r(s[0], rest[y])
      {
        assert rest[y] in multiset(rest);
        if rest[y] != e {
          assert rest[y] in s[1..];
        }
      }
    }
  }

  lemma {:induction false} SortMembers<T(!new)>(leq: (T, T) -> bool, s: seq<T>)
    ensures multiset(Sort(leq, s)) == multiset(s)
    ensures |Sort(leq, s)| == |s|
    ensures forall x :: x in Sort(leq, s) <==> x in s
  {
    if s != [] {
      SortMembers(leq, s[1..]);
      InsertMembers(leq, s[0], Sort(leq, s[1..]));
      assert s == [s[0]] + s[1..];
    }
    assert forall x :: x in Sort(leq, s) <==> x in multiset(Sort(leq, s));
    assert forall x :: x in s <==> x in multiset(s);
  }

  lemma {:induction false} InsertMembers<T>(leq: (T, T) -> bool, x: T, s: seq<T>)
    ensures multiset(Insert(leq, x, s)) == multiset{x} + multiset(s)
    ensures |Insert(leq, x, s)| == |s| + 1
  {
    if s != [] && !leq(x, s[0]) {
      InsertMembers(leq, x, s[1..]);
      assert s == [s[0]] + s[1..];
    }
  }

  lemma DistinctTail<T>(s: seq<T>)
    requires s != []
    ensures Distinct(s) <==> Distinct(s[1..]) && s[0] !in s[1..]
  {
    var t := s[1..];
    assert forall i :: 0 <= i < |t| ==> t[i] == s[i + 1];
    if Distinct(t) && s[0] !in t {
      forall i, j | 0 <= i < j < |s|
        ensures s[i] != s[j]
      {
        assert s[j] == t[j - 1];
        assert i > 0 ==> s[i] == t[i - 1];
      }
    }
  }

  lemma {:induction false} DistinctIffCounts<T(!new)>(s: seq<T>)
    ensures Distinct(s) <==> forall x :: multiset(s)[x] <= 1
  {
    if s != [] {
      DistinctTail(s);
      DistinctIffCounts(s[1..]);
      assert s == [s[0]] + s[1..];
      assert multiset(s) == multiset{s[0]} + multiset(s[1..]);
      assert s[0] in s[1..] <==> multiset(s[1..])[s[0]] > 0;
      assert forall x :: multiset(s)[x] >= multiset(s[1..])[x];
    }
  }

  /** Sorting repeats nothing. */
  lemma SortIsDistinct<T(!new)>(leq: (T, T) -> bool, s: seq<T>)
    requires Distinct(s)
    ensures Distinct(Sort(leq, s))
  {
    SortMembers(leq, s);
    DistinctIffCounts(s);
    DistinctIffCounts(Sort(leq, s));
  }

  // ----- Successive sorts -----

  /** First by a, ties by b. */
  ghost function Lex<T>(a: (T, T) -> bool, b: (T, T) -> bool): (T, T) -> bool {
    (x, y) => a(x, y) && (a(y, x) ==> b(x, y))
  }

  lemma LexIsTotal<T(!new)>(a: (T, T) -> bool, b: (T, T) -> bool)
    requires TotalPreorder(a) && TotalPreorder(b)
    ensures TotalPreorder(Lex(a, b))
  {
  }

  lemma {:induction false} InsertsCommute<T(!new)>(leq: (T, T) -> bool, x: T, y: T, s: seq<T>)
    requires TotalPreorder(leq)
    requires !(leq(x, y) && leq(y, x)) || x == y
    ensures Insert(leq, x, Insert(leq, y, s)) == Insert(leq, y, Insert(leq, x, s))
  {
    if s == [] {
    } else if leq(x, s[0]) || leq(y, s[0]) {
    } else {
      InsertsCommute(leq, x, y, s[1..]);
      var tx, ty := Insert(leq, x, s[1..]), Insert(leq, y, s[1..]);
      assert ([s[0]] + tx)[1..] == tx && ([s[0]] + ty)[1..] == ty;
    }
  }

  /** Among elements that b puts after x, inserting by a is inserting by a then b. */
  lemma {:induction false} InsertByLex<T(!new)>(a: (T, T) -> bool, b: (T, T) -> bool, x: T, s: seq<T>)
    requires forall e :: e in s ==> b(x, e)
    ensures Insert(a, x, s) == Insert(Lex(a, b), x, s)
  {
    if s != [] {
      assert s[0] in s;
      assert forall e :: e in s[1..] ==> e in s;
      InsertByLex(a, b, x, s[1..]);
    }
  }

  lemma {:induction false} SortAfterInsert<T(!new)>(a: (T, T) -> bool, b: (T, T) -> bool, x: T, s: seq<T>)
    requires TotalPreorder(a) && TotalPreorder(b)
    requires Sorted(b, s)
    ensures Sort(a, Insert(b, x, s)) == Insert(Lex(a, b), x, Sort(a, s))
  {
    SortMembers(a, s);
    if s == [] || b(x, s[0]) {
      assert forall e :: e in s ==> b(x, e);
      InsertByLex(a, b, x, Sort(a, s));
      assert ([x] + s)[1..] == s;
    } else {
      var y, t := s[0], s[1..];
      SortAfterInsert(a, b, x, t);
      LexIsTotal(a, b);
      var ins := Insert(b, x, t);
      assert ([y] + ins)[1..] == ins;
      SortMembers(a, t);
      SortMembers(a, ins);
      InsertMembers(b, x, t);
      assert forall e :: e in t ==> b(y, e);
      forall e | e in ins
        ensures b(y, e)
      {
        assert e in multiset(ins);
        if e != x {
          assert e in t;
        }
      }
      InsertByLex(a, b, y, Sort(a, t));
      InsertByLex(a, b, y, Sort(a, ins));
      InsertsCommute(Lex(a, b), y, x, Sort(a, t));
    }
  }

  /** Sorting by b and then, stably, by a is sorting by a with ties broken by b. */
  lemma {:induction false} SuccessiveSorts<T(!new)>(a: (T, T) -> bool, b: (T, T) -> bool, s: seq<T>)
    requires TotalPreorder(a) && TotalPreorder(b)
    ensures Sort(a, Sort(b, s)) == Sort(Lex(a, b), s)
  {
    if s != [] {
      SuccessiveSorts(a, b, s[1..]);
      SortIsStable(b, s[1..]);
      SortAfterInsert(a, b, s[0], Sort(b, s[1..]));
    }
  }

  // ----- Input order -----

  ghost predicate Antisymmetric<T>(leq: (T, T) -> bool, s: seq<T>) {
    forall x, y :: x in s && y in s && leq(x, y) && leq(y, x) ==> x == y
  }

  ghost function RemoveAt<T>(s: seq<T>, k: nat): (r: seq<T>)
    requires k < |s|
    ensures |r| == |s| - 1
  {
    s[..k] + s[k + 1..]
  }

  lemma {:induction false} SortBringsForward<T(!new)>(leq: (T, T) -> bool, s: seq<T>, k: nat)
    requires TotalPreorder(leq)
    requires k < |s| && Antisymmetric(leq, s)
    ensures Sort(leq, s) == Insert(leq, s[k], Sort(leq, RemoveAt(s, k)))
  {
    if k == 0 {
      assert RemoveAt(s, k) == s[1..];
    } else {
      assert forall e :: e in s[1..] ==> e in s;
      SortBringsForward(leq, s[1..], k - 1);
      var r := RemoveAt(s, k);
      assert r[1..] == RemoveAt(s[1..], k - 1) && r[0] == s[0];
      InsertsCommute(leq, s[0], s[k], Sort(leq, r[1..]));
    }
  }

  /** When only equal elements compare equal, the result depends on the contents alone. */
  lemma {:induction false} InputOrderIrrelevant<T(!new)>(leq: (T, T) -> bool, s: seq<T>, t: seq<T>)
    requires TotalPreorder(leq)
    requires multiset(s) == multiset(t) && Antisymmetric(leq, s)
    ensures Sort(leq, s) == Sort(leq, t)
  {
    assert |s| == |multiset(s)| == |multiset(t)| == |t|;
    if s != [] {
      assert s[0] in multiset(t);
      var k :| 0 <= k < |t| && t[k] == s[0];
      AntisymmetricPart(leq, s, t);
      SortBringsForward(leq, t, k);
      RemoveAtMultiset(t, k);
      RemoveAtMultiset(s, 0);
      assert s[1..] == RemoveAt(s, 0);
      AntisymmetricPart(leq, s, s[1..]);
      InputOrderIrrelevant(leq, s[1..], RemoveAt(t, k));
    }
  }

  lemma RemoveAtMultiset<T>(t: seq<T>, k: nat)
    requires k < |t|
    ensures multiset(RemoveAt(t, k)) == multiset(t) - multiset{t[k]}
  {
    assert t == t[..k] + [t[k]] + t[k + 1..];
  }

  lemma AntisymmetricPart<T>(leq: (T, T) -> bool, s: seq<T>, t: seq<T>)
    requires Antisymmetric(leq, s)
    requires multiset(t) <= multiset(s)
    ensures Antisymmetric(leq, t)
  {
    forall e | e in t
      ensures e in s
    {
      assert e in multiset(t);
    }
  }
}
