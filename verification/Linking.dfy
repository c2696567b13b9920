/** Correlation of evidence by shared keys (dispatch/dispatch/correlation.py:8-49). */
module Linking {
  import opened Common
  import opened Dicts
  import opened StableSort
  import opened Strings

  type Value = string

  /** A key with a value; None is null. */
  datatype Item = Item(ts: real, keys: Dict<string, Option<Value>>)

  type KeyValue = (string, Value)

  datatype Link = Link(a: nat, b: nat, key: string, value: Value)

  ghost predicate WellFormed(evidence: seq<Item>) {
    forall i :: 0 <= i < |evidence| ==> evidence[i].keys.Valid()
  }

  // ----- What links -----

  ghost predicate HasValue(item: Item, kv: KeyValue) {
    item.keys.Has(kv.0) && item.keys.at[kv.0] == Some(kv.1)
  }

  /** The items holding a key value, in order. */
  ghost function Holders(evidence: seq<Item>, kv: KeyValue): seq<nat> {
    if evidence == [] then []
    else
      Holders(evidence[..|evidence| - 1], kv)
      + if HasValue(evidence[|evidence| - 1], kv) then [|evidence| - 1] else []
  }

  ghost predicate InWindow(item: Item, window: (real, real)) {
    window.0 <= item.ts <= window.1
  }

  /** No key has different non-null values in the two items. */
  ghost predicate Agree(x: Item, y: Item) {
    forall k :: k in x.keys.at && k in y.keys.at && x.keys.at[k].Some? && y.keys.at[k].Some? ==>
      x.keys.at[k] == y.keys.at[k]
  }

  /** The key values held by exactly the two items a and b. */
  ghost predicate Joins(evidence: seq<Item>, kv: KeyValue, a: nat, b: nat) {
    Holders(evidence, kv) == [a, b]
  }

  ghost predicate MayLink(evidence: seq<Item>, window: (real, real), a: nat, b: nat) {
    && a < |evidence| && b < |evidence|
    && InWindow(evidence[a], window) && InWindow(evidence[b], window) && Agree(evidence[a], evidence[b])
  }

  /** The link's key is the first of item a's that identifies exactly a and b. */
  ghost predicate IsLink(evidence: seq<Item>, window: (real, real), l: Link) {
    && MayLink(evidence, window, l.a, l.b) && Joins(evidence, (l.key, l.value), l.a, l.b)
    && forall k :: First(evidence[l.a].keys.order, k, l.key) ==>
         forall v :: !Joins(evidence, (k, v), l.a, l.b)
  }

  /** x stands before y. */
  ghost predicate First<T>(s: seq<T>, x: T, y: T) {
    exists i, j :: 0 <= i < j < |s| && s[i] == x && s[j] == y
  }

  lemma {:induction false} HoldersMeaning(evidence: seq<Item>, kv: KeyValue)
    ensures forall i :: i in Holders(evidence, kv) <==> 0 <= i < |evidence| && HasValue(evidence[i], kv)
    ensures Increasing(Holders(evidence, kv))
  {
    if evidence != [] {
      var before := Holders(evidence[..|evidence| - 1], kv);
      HoldersMeaning(evidence[..|evidence| - 1], kv);
      assert forall k :: 0 <= k < |before| ==> before[k] in before;
    }
  }

  lemma HoldersSnoc(evidence: seq<Item>, item: Item, kv: KeyValue)
    ensures Holders(evidence + [item], kv) == Holders(evidence, kv) + if HasValue(item, kv) then [|evidence|] else []
  {
    assert (evidence + [item])[..|evidence|] == evidence;
  }

  /** A key value that identifies exactly two items is first met in the earlier one. */
  lemma JoinsIsOrdered(evidence: seq<Item>, kv: KeyValue, a: nat, b: nat)
    requires Joins(evidence, kv, a, b)
    ensures a < b < |evidence| && HasValue(evidence[a], kv) && HasValue(evidence[b], kv)
  {
    HoldersMeaning(evidence, kv);
    assert Holders(evidence, kv)[0] == a && Holders(evidence, kv)[1] == b;
    assert a in Holders(evidence, kv) && b in Holders(evidence, kv);
  }

  // ----- The index -----

  type Index = Dict<KeyValue, seq<nat>>

  function Get(index: Index, kv: KeyValue): seq<nat> {
    if index.Has(kv) then index.at[kv] else []
  }

  /** by_value: for every key value its items; those met in the same item keep the item's order. */
  ghost predicate Indexes(evidence: seq<Item>, index: Index) {
    && index.Valid()
    && (forall kv :: Get(index, kv) == Holders(evidence, kv) && (index.Has(kv) <==> Holders(evidence, kv) != []))
    && (forall a, x, y :: MetIn(evidence, a, x, y) ==> First(index.order, x, y))
  }

  /** Item a is the first to hold x and the first to hold y, and holds x before y. */
  ghost predicate MetIn(evidence: seq<Item>, a: nat, x: KeyValue, y: KeyValue) {
    && a < |evidence| && HasValue(evidence[a], x) && HasValue(evidence[a], y)
    && First(evidence[a].keys.order, x.0, y.0)
    && Holders(evidence[..a], x) == [] && Holders(evidence[..a], y) == []
  }

  method BuildIndex(evidence: seq<Item>) returns (index: Index)
    requires WellFormed(evidence)
    ensures Indexes(evidence, index)
  {
    hide Holders, HasValue, Get, MetIn;
    index := Empty();
    IndexNothing();
    assert evidence[..0] == [];
    for i := 0 to |evidence|
      invariant Indexes(evidence[..i], index)
    {
      TakeSnoc(evidence, i);
      ghost var before := index;
      index := IndexItem(index, i, evidence[i]);
      IndexesMore(evidence[..i], evidence[i], before, index);
    }
    assert evidence[..|evidence|] == evidence;
  }

  lemma IndexNothing()
    ensures Indexes([], Empty())
  {
  }

  /** Indexing item number i after index. */
  ghost predicate Grows(index: Index, i: nat, item: Item, longer: Index) {
    && longer.Valid() && index.order <= longer.order
    && (forall kv :: Get(longer, kv) == Get(index, kv) + (if HasValue(item, kv) then [i] else []))
    && (forall kv :: longer.Has(kv) <==> index.Has(kv) || HasValue(item, kv))
    && (forall x, y :: NewIn(index, item, x) && NewIn(index, item, y) && First(item.keys.order, x.0, y.0) ==>
          First(longer.order, x, y))
  }

  ghost predicate NewIn(index: Index, item: Item, kv: KeyValue) {
    !index.Has(kv) && HasValue(item, kv)
  }

  lemma FirstStays<T>(s: seq<T>, t: seq<T>, x: T, y: T)
    requires First(s, x, y) && s <= t
    ensures First(t, x, y)
  {
    var i, j :| 0 <= i < j < |s| && s[i] == x && s[j] == y;
    assert t[i] == x && t[j] == y;
  }

  lemma IndexesMore(evidence: seq<Item>, item: Item, index: Index, longer: Index)
    requires Indexes(evidence, index) && Grows(index, |evidence|, item, longer)
    ensures Indexes(evidence + [item], longer)
  {
    hide HasValue, Get, Holders;
    var more := evidence + [item];
    forall kv
      ensures Get(longer, kv) == Holders(more, kv) && (longer.Has(kv) <==> Holders(more, kv) != [])
    {
      HoldersSnoc(evidence, item, kv);
    }
    forall a: nat, x, y | MetIn(more, a, x, y)
      ensures First(longer.order, x, y)
    {
      if a < |evidence| {
        assert more[..a] == evidence[..a] && more[a] == evidence[a];
        assert MetIn(evidence, a, x, y);
        FirstStays(index.order, longer.order, x, y);
      } else {
        assert more[..a] == evidence;
      }
    }
  }

  method IndexItem(index: Index, i: nat, item: Item) returns (longer: Index)
    requires index.Valid() && item.keys.Valid()
    ensures Grows(index, i, item, longer)
  {
    hide GrowsBy, Grows, Puts;
    longer := index;
    GrowsStart(index, i, item);
    for j := 0 to |item.keys.order|
      invariant longer.Valid() && GrowsBy(index, i, item, longer, j)
    {
      ghost var before := longer;
      longer := PutKey(longer, i, item, j);
      GrowsStep(index, i, item, before, longer, j);
    }
    GrowsAll(index, i, item, longer);
  }

  lemma GrowsStart(index: Index, i: nat, item: Item)
    requires index.Valid() && item.keys.Valid()
    ensures GrowsBy(index, i, item, index, 0)
  {
  }

  method PutKey(index: Index, i: nat, item: Item, j: nat) returns (longer: Index)
    requires index.Valid() && item.keys.Valid() && j < |item.keys.order|
    ensures longer.Valid() && Puts(i, item, index, longer, j)
  {
    longer := index;
    var key := item.keys.order[j];
    assert key in (set k | k in item.keys.order);
    var value := item.keys.at[key];
    if value.Some? {
      var kv := (key, value.value);
      longer := longer.Put(kv, (if longer.Has(kv) then longer.at[kv] else []) + [i]);
    }
  }

  /** Once the first j keys are in. */
  ghost predicate GrowsBy(index: Index, i: nat, item: Item, longer: Index, j: nat) {
    && longer.Valid() && index.order <= longer.order && item.keys.Valid() && j <= |item.keys.order|
    && (forall kv :: Get(longer, kv) == Get(index, kv) + (if Among(item, j, kv) then [i] else []))
    && (forall kv :: longer.Has(kv) <==> index.Has(kv) || Among(item, j, kv))
    && (forall k, x, y :: 0 <= k < j && !index.Has(x) && Among(item, k, x) && NewIn(index, item, y)
                          && y.0 == item.keys.order[k] ==>
          First(longer.order, x, y))
  }

  ghost predicate Among(item: Item, j: nat, kv: KeyValue)
    requires j <= |item.keys.order|
  {
    kv.0 in item.keys.order[..j] && HasValue(item, kv)
  }

  /** What key number j of the item does to the index. */
  ghost predicate Puts(i: nat, item: Item, before: Index, longer: Index, j: nat) {
    && j < |item.keys.order| && item.keys.Valid() && before.Valid() && item.keys.Has(item.keys.order[j])
    && var key := item.keys.order[j];
       var value := item.keys.at[key];
       longer == if value.None? then before
                 else before.Put((key, value.value), Get(before, (key, value.value)) + [i])
  }

  lemma GrowsStep(index: Index, i: nat, item: Item, before: Index, longer: Index, j: nat)
    requires GrowsBy(index, i, item, before, j) && Puts(i, item, before, longer, j)
    ensures GrowsBy(index, i, item, longer, j + 1)
  {
    hide First, HasValue, Among, Get, NewIn;
    forall kv
      ensures Get(longer, kv) == Get(index, kv) + (if Among(item, j + 1, kv) then [i] else [])
      ensures longer.Has(kv) <==> index.Has(kv) || Among(item, j + 1, kv)
    {
      PutsValue(i, item, before, longer, j, kv);
    }
    forall k, x, y | 0 <= k < j + 1 && !index.Has(x) && Among(item, k, x) && NewIn(index, item, y)
          && y.0 == item.keys.order[k]
      ensures First(longer.order, x, y)
    {
      if k < j {
        assert First(before.order, x, y);
        FirstStays(before.order, longer.order, x, y);
      } else {
        assert before.Has(x);
        NewIsAbsent(index, i, item, before, j, y);
        PutsLast(i, item, before, longer, j, x, y);
      }
    }
  }

  lemma NewIsAbsent(index: Index, i: nat, item: Item, before: Index, j: nat, y: KeyValue)
    requires GrowsBy(index, i, item, before, j) && j < |item.keys.order| && item.keys.Has(item.keys.order[j])
    requires NewIn(index, item, y) && y.0 == item.keys.order[j]
    ensures !before.Has(y) && HasValue(item, y)
  {
    AmongNext(item, j, y);
    hide Among, Get;
  }

  lemma PutsValue(i: nat, item: Item, before: Index, longer: Index, j: nat, kv: KeyValue)
    requires Puts(i, item, before, longer, j)
    ensures Get(longer, kv) == Get(before, kv) + (if Among(item, j + 1, kv) && !Among(item, j, kv) then [i] else [])
    ensures Among(item, j, kv) ==> Among(item, j + 1, kv)
    ensures longer.Has(kv) <==> before.Has(kv) || (Among(item, j + 1, kv) && !Among(item, j, kv))
    ensures longer.Valid() && before.order <= longer.order
  {
    AmongNext(item, j, kv);
    hide Among;
  }

  lemma PutsLast(i: nat, item: Item, before: Index, longer: Index, j: nat, x: KeyValue, y: KeyValue)
    requires Puts(i, item, before, longer, j)
    requires before.Has(x) && !before.Has(y) && HasValue(item, y) && y.0 == item.keys.order[j]
    ensures First(longer.order, x, y)
  {
    assert longer.order == before.order + [y];
    assert x in (set z | z in before.order);
    LastIsAfter(before.order, x, y);
  }

  lemma LastIsAfter<T>(s: seq<T>, x: T, y: T)
    requires x in s
    ensures First(s + [y], x, y)
  {
    var i :| 0 <= i < |s| && s[i] == x;
    assert (s + [y])[i] == x && (s + [y])[|s|] == y;
  }

  lemma AmongNext(item: Item, j: nat, kv: KeyValue)
    requires item.keys.Valid() && j < |item.keys.order| && item.keys.Has(item.keys.order[j])
    ensures var key := item.keys.order[j];
            && (Among(item, j + 1, kv) <==> Among(item, j, kv) || (kv.0 == key && item.keys.at[key] == Some(kv.1)))
            && (kv.0 == key ==> !Among(item, j, kv))
  {
    TakeSnoc(item.keys.order, j);
  }

  lemma GrowsAll(index: Index, i: nat, item: Item, longer: Index)
    requires GrowsBy(index, i, item, longer, |item.keys.order|)
    ensures Grows(index, i, item, longer)
  {
    var n := |item.keys.order|;
    assert item.keys.order[..n] == item.keys.order;
    forall kv
      ensures Among(item, n, kv) <==> HasValue(item, kv)
    {
      assert kv.0 in item.keys.at ==> kv.0 in (set k | k in item.keys.order);
    }
    forall x, y | NewIn(index, item, x) && NewIn(index, item, y) && First(item.keys.order, x.0, y.0)
      ensures First(longer.order, x, y)
    {
      var l, k :| 0 <= l < k < n && item.keys.order[l] == x.0 && item.keys.order[k] == y.0;
      assert item.keys.order[..k][l] == x.0;
      assert Among(item, k, x);
    }
    hide Among, HasValue, First;
  }

  // ----- Collecting the links -----

  /** l's key value is the first of the index to identify exactly its two items. */
  ghost predicate Found(evidence: seq<Item>, window: (real, real), order: seq<KeyValue>, n: nat, l: Link) {
    && MayLink(evidence, window, l.a, l.b)
    && exists p :: 0 <= p < n && p < |order| && order[p] == (l.key, l.value) && Joins(evidence, order[p], l.a, l.b)
         && forall q :: 0 <= q < p ==> !Joins(evidence, order[q], l.a, l.b)
  }

  ghost predicate Reports(links: seq<Link>, a: nat, b: nat) {
    exists i :: 0 <= i < |links| && links[i].a == a && links[i].b == b
  }

  /** The links after the first n key values of the index. */
  ghost predicate Collected(evidence: seq<Item>, window: (real, real), order: seq<KeyValue>, n: nat, links: seq<Link>,
                            seen: set<(nat, nat)>)
    requires n <= |order|
  {
    && (forall i :: 0 <= i < |links| ==> Found(evidence, window, order, n, links[i]))
    && (forall i, j :: 0 <= i < j < |links| ==> links[i].a != links[j].a || links[i].b != links[j].b)
    && (forall a: nat, b: nat :: (a, b) in seen <==> Reports(links, a, b))
    && (forall q, a: nat, b: nat :: 0 <= q < n && Joins(evidence, order[q], a, b) && MayLink(evidence, window, a, b) ==>
          (a, b) in seen)
  }

  /** What one key value adds: its pair, if it identifies two items, they may link and no earlier one linked them. */
  ghost predicate Adds(evidence: seq<Item>, window: (real, real), kv: KeyValue, indexes: seq<nat>,
                       links: seq<Link>, seen: set<(nat, nat)>, links': seq<Link>, seen': set<(nat, nat)>)
  {
    if |indexes| == 2 && (indexes[0], indexes[1]) !in seen && MayLink(evidence, window, indexes[0], indexes[1]) then
      && links' == links + [Link(indexes[0], indexes[1], kv.0, kv.1)] && seen' == seen + {(indexes[0], indexes[1])}
    else
      links' == links && seen' == seen
  }

  method PairUp(evidence: seq<Item>, window: (real, real), kv: KeyValue, indexes: seq<nat>,
                links: seq<Link>, seen: set<(nat, nat)>) returns (links': seq<Link>, seen': set<(nat, nat)>)
    requires Increasing(indexes) && |indexes| <= 2 && forall i :: 0 <= i < |indexes| ==> indexes[i] < |evidence|
    ensures Adds(evidence, window, kv, indexes, links, seen, links', seen')
  {
    links', seen' := links, seen;
    for i := 0 to |indexes|
      invariant i == 0 ==> links' == links && seen' == seen
      invariant i > 0 ==> Adds(evidence, window, kv, indexes, links, seen, links', seen')
    {
      for j := 0 to |indexes|
        invariant i == 0 && j <= 1 ==> links' == links && seen' == seen
        invariant i > 0 || j > 1 ==> Adds(evidence, window, kv, indexes, links, seen, links', seen')
      {
        var a, b := indexes[i], indexes[j];
        if a >= b || (a, b) in seen' {
          continue;
        }
        if !(window.0 <= evidence[a].ts <= window.1 && window.0 <= evidence[b].ts <= window.1) {
          continue;
        }
        var keysA, keysB := evidence[a].keys.at, evidence[b].keys.at;
        if exists k :: k in keysA && k in keysB && keysA[k].Some? && keysB[k].Some? && keysA[k] != keysB[k] {
          continue;
        }
        seen' := seen' + {(a, b)};
        links' := links' + [Link(a, b, kv.0, kv.1)];
      }
    }
  }

  method CollectLinks(evidence: seq<Item>, window: (real, real), index: Index)
    returns (links: seq<Link>, ghost seen: set<(nat, nat)>)
    requires Indexes(evidence, index)
    ensures Collected(evidence, window, index.order, |index.order|, links, seen)
  {
    hide Found, Reports, Holders, Joins, MayLink, Adds;
    var met: set<(nat, nat)> := {};
    links := [];
    CollectedNothing(evidence, window, index.order);
    for n := 0 to |index.order|
      invariant Collected(evidence, window, index.order, n, links, met)
    {
      var kv := index.order[n];
      HasOfOrder(index, n);
      var indexes := index.at[kv];
      HoldersMeaning(evidence, kv);
      assert indexes == Holders(evidence, kv);
      assert forall i :: 0 <= i < |indexes| ==> indexes[i] in indexes;
      ghost var links0, met0 := links, met;
      if |indexes| <= 2 {
        links, met := PairUp(evidence, window, kv, indexes, links, met);
      } else {
        AddsNothing(evidence, window, kv, indexes, links, met);
      }
      CollectedStep(evidence, window, index.order, n, links0, met0, links, met);
    }
    seen := met;
  }

  lemma HasOfOrder(index: Index, n: nat)
    requires index.Valid() && n < |index.order|
    ensures index.Has(index.order[n]) && Get(index, index.order[n]) == index.at[index.order[n]]
  {
    assert index.order[n] in (set k | k in index.order);
  }

  lemma AddsNothing(evidence: seq<Item>, window: (real, real), kv: KeyValue, indexes: seq<nat>,
                    links: seq<Link>, seen: set<(nat, nat)>)
    requires |indexes| > 2
    ensures Adds(evidence, window, kv, indexes, links, seen, links, seen)
  {
  }

  lemma CollectedNothing(evidence: seq<Item>, window: (real, real), order: seq<KeyValue>)
    ensures Collected(evidence, window, order, 0, [], {})
  {
  }

  lemma CollectedStep(evidence: seq<Item>, window: (real, real), order: seq<KeyValue>, n: nat,
                      links: seq<Link>, seen: set<(nat, nat)>, links': seq<Link>, seen': set<(nat, nat)>)
    requires n < |order| && Collected(evidence, window, order, n, links, seen)
    requires Adds(evidence, window, order[n], Holders(evidence, order[n]), links, seen, links', seen')
    ensures Collected(evidence, window, order, n + 1, links', seen')
  {
    hide MayLink, Holders;
    forall i | 0 <= i < |links|
      ensures Found(evidence, window, order, n + 1, links[i])
    {
      assert Found(evidence, window, order, n, links[i]);
    }
    if links' != links {
      var l := links'[|links|];
      assert Joins(evidence, order[n], l.a, l.b) && !Reports(links, l.a, l.b);
      forall q | 0 <= q < n
        ensures !Joins(evidence, order[q], l.a, l.b)
      {
      }
      assert Found(evidence, window, order, n + 1, l);
      ReportsSnoc(links, l);
    }
    hide Found, Reports;
  }

  lemma ReportsSnoc(links: seq<Link>, l: Link)
    ensures forall a: nat, b: nat :: Reports(links + [l], a, b) <==> Reports(links, a, b) || (a == l.a && b == l.b)
  {
    var more := links + [l];
    assert more[|links|] == l;
    forall a: nat, b: nat | Reports(links, a, b)
      ensures Reports(more, a, b)
    {
      var i :| 0 <= i < |links| && links[i].a == a && links[i].b == b;
      assert more[i] == links[i];
    }
  }

  // ----- The result -----

  /** By a, then b, then key. */
  predicate Before(x: Link, y: Link) {
    x.a < y.a || (x.a == y.a && (x.b < y.b || (x.b == y.b && Leq(x.key, y.key))))
  }

  lemma BeforeIsTotal()
    ensures TotalPreorder(Before)
  {
    forall x, y
      ensures Before(x, y) || Before(y, x)
    {
      LeqIsTotal(x.key, y.key);
    }
    forall x, y, z | Before(x, y) && Before(y, z)
      ensures Before(x, z)
    {
      if x.a == y.a == z.a && x.b == y.b == z.b {
        LeqIsTransitive(x.key, y.key, z.key);
      }
    }
  }

  ghost predicate Answers(evidence: seq<Item>, window: (real, real), links: seq<Link>) {
    && (forall i :: 0 <= i < |links| ==> IsLink(evidence, window, links[i]))
    && (forall kv, a: nat, b: nat :: Joins(evidence, kv, a, b) && MayLink(evidence, window, a, b) ==>
          Reports(links, a, b))
    && (forall i, j :: 0 <= i < j < |links| ==>
          links[i].a < links[j].a || (links[i].a == links[j].a && links[i].b < links[j].b))
  }

  /** Exactly the pairs that a key value identifies and that may link, each once, in order. */
  method LinkEvidence(evidence: seq<Item>, window: (real, real)) returns (links: seq<Link>)
    requires WellFormed(evidence)
    ensures Answers(evidence, window, links)
  {
    hide Indexes, Collected, Answers;
    var index := BuildIndex(evidence);
    ghost var seen;
    links, seen := CollectLinks(evidence, window, index);
    LinksAreComplete(evidence, window, index, links, seen);
    links := Sort(Before, links);
  }

  lemma LinksAreComplete(evidence: seq<Item>, window: (real, real), index: Index,
                         links: seq<Link>, seen: set<(nat, nat)>)
    requires WellFormed(evidence) && Indexes(evidence, index)
    requires Collected(evidence, window, index.order, |index.order|, links, seen)
    ensures Answers(evidence, window, Sort(Before, links))
  {
    hide MayLink, Joins, Found, Reports, IsLink, Sort;
    var order, sorted := index.order, Sort(Before, links);
    SortMembers(Before, links);
    forall i | 0 <= i < |sorted|
      ensures IsLink(evidence, window, sorted[i])
    {
      assert sorted[i] in links;
      FoundIsLink(evidence, window, index, sorted[i]);
    }
    forall kv, a: nat, b: nat | Joins(evidence, kv, a, b) && MayLink(evidence, window, a, b)
      ensures Reports(sorted, a, b)
    {
      JoinsIsIndexed(evidence, index, kv, a, b);
      ReportsPermuted(links, sorted, a, b);
    }
    SortedStrictly(links);
  }

  lemma JoinsIsIndexed(evidence: seq<Item>, index: Index, kv: KeyValue, a: nat, b: nat)
    requires Indexes(evidence, index) && Joins(evidence, kv, a, b)
    ensures exists q :: 0 <= q < |index.order| && Joins(evidence, index.order[q], a, b)
  {
    assert index.Has(kv);
    assert kv in (set k | k in index.order);
    var q :| 0 <= q < |index.order| && index.order[q] == kv;
  }

  lemma ReportsPermuted(links: seq<Link>, sorted: seq<Link>, a: nat, b: nat)
    requires Reports(links, a, b) && forall l :: l in sorted <==> l in links
    ensures Reports(sorted, a, b)
  {
    var i :| 0 <= i < |links| && links[i].a == a && links[i].b == b;
    assert links[i] in sorted;
  }

  lemma SortedStrictly(links: seq<Link>)
    requires forall i, j :: 0 <= i < j < |links| ==> links[i].a != links[j].a || links[i].b != links[j].b
    ensures var sorted := Sort(Before, links);
            forall i, j :: 0 <= i < j < |sorted| ==>
              sorted[i].a < sorted[j].a || (sorted[i].a == sorted[j].a && sorted[i].b < sorted[j].b)
  {
    hide Sort, Leq;
    var sorted := Sort(Before, links);
    BeforeIsTotal();
    SortMembers(Before, links);
    SortIsStable(Before, links);
    assert Distinct(links);
    SortIsDistinct(Before, links);
    forall i, j | 0 <= i < j < |sorted|
      ensures sorted[i].a < sorted[j].a || (sorted[i].a == sorted[j].a && sorted[i].b < sorted[j].b)
    {
      assert sorted[i] in links && sorted[j] in links && sorted[i] != sorted[j];
      var k :| 0 <= k < |links| && links[k] == sorted[i];
      var l :| 0 <= l < |links| && links[l] == sorted[j];
      assert k < l || l < k;
      assert Before(sorted[i], sorted[j]);
    }
  }

  /** The first of the index is the first of the earlier item. */
  lemma FoundIsLink(evidence: seq<Item>, window: (real, real), index: Index, l: Link)
    requires WellFormed(evidence) && Indexes(evidence, index) && Found(evidence, window, index.order, |index.order|, l)
    ensures IsLink(evidence, window, l)
  {
    hide Holders, MayLink, First, HasValue, Get;
    var order, own := index.order, (l.key, l.value);
    var p :| 0 <= p < |order| && order[p] == own && Joins(evidence, order[p], l.a, l.b)
             && forall q :: 0 <= q < p ==> !Joins(evidence, order[q], l.a, l.b);
    assert MayLink(evidence, window, l.a, l.b);
    JoinsIsOrdered(evidence, own, l.a, l.b);
    forall k, v | First(evidence[l.a].keys.order, k, l.key)
      ensures !Joins(evidence, (k, v), l.a, l.b)
    {
      if Joins(evidence, (k, v), l.a, l.b) {
        JoinsIsOrdered(evidence, (k, v), l.a, l.b);
        NoneBefore(evidence, (k, v), l.a, l.b);
        NoneBefore(evidence, own, l.a, l.b);
        assert MetIn(evidence, l.a, (k, v), own);
        OnlyAt(order, (k, v), own, p);
      }
    }
  }

  lemma OnlyAt(order: seq<KeyValue>, x: KeyValue, y: KeyValue, p: nat)
    requires Distinct(order) && p < |order| && order[p] == y && First(order, x, y)
    ensures exists q :: 0 <= q < p && order[q] == x
  {
  }

  lemma NoneBefore(evidence: seq<Item>, kv: KeyValue, a: nat, b: nat)
    requires Joins(evidence, kv, a, b)
    ensures a <= |evidence| && Holders(evidence[..a], kv) == []
  {
    JoinsIsOrdered(evidence, kv, a, b);
    var early := Holders(evidence[..a], kv);
    assert early == [] || early[0] in early;
    HoldersMeaning(evidence, kv);
    HoldersMeaning(evidence[..a], kv);
    assert forall i :: i in early ==> i in Holders(evidence, kv) && i < a;
  }
}
