/** Matching runbooks to an incident (dispatch/dispatch/runbook.py:163-185): three stable sorts
    that are one ranking. */
module Runbooks {
  import opened Common
  import opened StableSort
  import opened Strings

  type KeyValue = (string, string)

  /** A runbook's date is its ordinal. */
  datatype Runbook = Runbook(slug: string, procedure: Option<string>, added: Option<int>, symptoms: seq<KeyValue>)

  datatype Scored = Scored(score: nat, runbook: Runbook)

  /** date.min, which stands for an unknown date */
  const OLDEST: int := 1

  function Text(o: Option<string>): string {
    if o.Some? then o.value else ""
  }

  function Date(r: Runbook): int {
    if r.added.Some? then r.added.value else OLDEST
  }

  ghost predicate NoProcedure(procedure: Option<string>) {
    procedure == None || procedure == Some("")
  }

  /** Three for each shared symptom, two for the same procedure; no procedure and an empty one are the same. */
  ghost function Score(r: Runbook, procedure: Option<string>, keys: set<KeyValue>): nat {
    3 * |set k | k in keys && k in r.symptoms|
    + if r.procedure == procedure || (NoProcedure(r.procedure) && NoProcedure(procedure)) then 2 else 0
  }

  ghost function Eligible(runbooks: seq<Runbook>, procedure: Option<string>, keys: set<KeyValue>): seq<Scored> {
    if runbooks == [] then []
    else
      var r := runbooks[|runbooks| - 1];
      var score := Score(r, procedure, keys);
      Eligible(runbooks[..|runbooks| - 1], procedure, keys) + if score >= 2 then [Scored(score, r)] else []
  }

  // The keys of the three sorts; the last two are reversed.

  predicate BySlug(x: Scored, y: Scored) {
    Leq(x.runbook.slug, y.runbook.slug)
  }

  predicate NewerFirst(x: Scored, y: Scored) {
    Date(x.runbook) >= Date(y.runbook)
  }

  predicate HigherFirst(x: Scored, y: Scored) {
    x.score >= y.score
  }

  /** The ranking: score descending, then date descending, an unknown date counting as day 1, then slug. */
  ghost predicate Ranks(x: Scored, y: Scored) {
    var a := if x.runbook.added == None then 1 else x.runbook.added.value;
    var b := if y.runbook.added == None then 1 else y.runbook.added.value;
    x.score > y.score || (x.score == y.score && (a > b || (a == b && Leq(x.runbook.slug, y.runbook.slug))))
  }

  function RunbooksOf(scored: seq<Scored>): (rs: seq<Runbook>)
    ensures |rs| == |scored| && forall k :: 0 <= k < |scored| ==> rs[k] == scored[k].runbook
  {
    seq(|scored|, k requires 0 <= k < |scored| => scored[k].runbook)
  }

  function FirstThree<T>(s: seq<T>): seq<T> {
    if |s| <= 3 then s else s[..3]
  }

  method MatchRunbooks(runbooks: seq<Runbook>, procedure: Option<string>, keys: set<KeyValue>)
    returns (matches: seq<Runbook>)
    ensures matches == RunbooksOf(FirstThree(Sort(Ranks, Eligible(runbooks, procedure, keys))))
  {
    hide Sort, RunbooksOf, FirstThree, Ranks;
    var scored: seq<Scored> := [];
    for i := 0 to |runbooks|
      invariant scored == Eligible(runbooks[..i], procedure, keys)
    {
      TakeSnoc(runbooks, i);
      var shared := keys * set s | s in runbooks[i].symptoms;
      assert shared == set k | k in keys && k in runbooks[i].symptoms;
      var score := 3 * |shared|;
      if Text(runbooks[i].procedure) == Text(procedure) {
        score := score + 2;
      }
      if score >= 2 {
        scored := scored + [Scored(score, runbooks[i])];
      }
    }
    assert runbooks[..|runbooks|] == runbooks;
    ThreeSortsAreOne(scored);
    scored := Sort(BySlug, scored);
    scored := Sort(NewerFirst, scored);
    scored := Sort(HigherFirst, scored);
    matches := RunbooksOf(FirstThree(scored));
  }

  lemma OrdersAreTotal()
    ensures TotalPreorder(BySlug) && TotalPreorder(NewerFirst) && TotalPreorder(HigherFirst)
  {
    forall x, y
      ensures BySlug(x, y) || BySlug(y, x)
    {
      LeqIsTotal(x.runbook.slug, y.runbook.slug);
    }
    forall x, y, z | BySlug(x, y) && BySlug(y, z)
      ensures BySlug(x, z)
    {
      LeqIsTransitive(x.runbook.slug, y.runbook.slug, z.runbook.slug);
    }
  }

  lemma {:induction false} SameOrderSameSort(a: (Scored, Scored) -> bool, b: (Scored, Scored) -> bool, s: seq<Scored>)
    requires forall x, y :: a(x, y) == b(x, y)
    ensures Sort(a, s) == Sort(b, s)
  {
    if s != [] {
      SameOrderSameSort(a, b, s[1..]);
      SameOrderSameInsert(a, b, s[0], Sort(a, s[1..]));
    }
  }

  lemma {:induction false} SameOrderSameInsert(a: (Scored, Scored) -> bool, b: (Scored, Scored) -> bool,
                                             x: Scored, s: seq<Scored>)
    requires forall x, y :: a(x, y) == b(x, y)
    ensures Insert(a, x, s) == Insert(b, x, s)
  {
    if s != [] {
      SameOrderSameInsert(a, b, x, s[1..]);
    }
  }

  /** The successive sorts by slug, date and score are one sort by the ranking. */
  lemma ThreeSortsAreOne(s: seq<Scored>)
    ensures Sort(HigherFirst, Sort(NewerFirst, Sort(BySlug, s))) == Sort(Ranks, s)
  {
    OrdersAreTotal();
    SuccessiveSorts(NewerFirst, BySlug, s);
    LexIsTotal(NewerFirst, BySlug);
    SuccessiveSorts(HigherFirst, Lex(NewerFirst, BySlug), s);
    SameOrderSameSort(Lex(HigherFirst, Lex(NewerFirst, BySlug)), Ranks, s);
  }

  lemma RanksIsTotal()
    ensures TotalPreorder(Ranks)
  {
    OrdersAreTotal();
    LexIsTotal(NewerFirst, BySlug);
    LexIsTotal(HigherFirst, Lex(NewerFirst, BySlug));
    var lex := Lex(HigherFirst, Lex(NewerFirst, BySlug));
    assert forall x, y :: lex(x, y) == Ranks(x, y);
  }

  /** The first three eligible runbooks by the ranking: none of them is outranked by one left out. */
  lemma TopThree(runbooks: seq<Runbook>, procedure: Option<string>, keys: set<KeyValue>)
    ensures var all := Eligible(runbooks, procedure, keys);
            var ranked := Sort(Ranks, all);
            && multiset(ranked) == multiset(all) && Sorted(Ranks, ranked)
            && |FirstThree(ranked)| == (if |all| < 3 then |all| else 3)
            && forall x, y :: x in FirstThree(ranked) && y in multiset(all) - multiset(FirstThree(ranked)) ==>
                 Ranks(x, y)
  {
    var all := Eligible(runbooks, procedure, keys);
    var ranked := Sort(Ranks, all);
    RanksIsTotal();
    SortIsStable(Ranks, all);
    SortMembers(Ranks, all);
    hide Eligible, Sort, Ranks;
    if |ranked| > 3 {
      assert ranked == ranked[..3] + ranked[3..];
      assert multiset(all) - multiset(ranked[..3]) == multiset(ranked[3..]);
      FirstOutrank(ranked);
    } else {
      assert multiset(all) - multiset(ranked) == multiset{};
    }
  }

  lemma FirstOutrank(ranked: seq<Scored>)
    requires Sorted(Ranks, ranked) && |ranked| > 3
    ensures forall x, y :: x in ranked[..3] && y in multiset(ranked[3..]) ==> Ranks(x, y)
  {
    hide Ranks;
    forall x, y | x in ranked[..3] && y in multiset(ranked[3..])
      ensures Ranks(x, y)
    {
      var i :| 0 <= i < 3 && ranked[i] == x;
      assert y in ranked[3..];
      var j :| 0 <= j < |ranked[3..]| && ranked[3..][j] == y;
      assert ranked[j + 3] == y;
    }
  }

  ghost predicate DistinctSlugs(runbooks: seq<Runbook>) {
    forall i, j :: 0 <= i < j < |runbooks| ==> runbooks[i].slug != runbooks[j].slug
  }

  /** A runbook is eligible as often as it is in the library. */
  lemma {:induction false} EligibleCounts(runbooks: seq<Runbook>, procedure: Option<string>, keys: set<KeyValue>,
                                        x: Scored)
    ensures multiset(Eligible(runbooks, procedure, keys))[x] ==
            if x.score >= 2 && x.score == Score(x.runbook, procedure, keys) then multiset(runbooks)[x.runbook] else 0
  {
    hide Score;
    if runbooks != [] {
      var before, r := runbooks[..|runbooks| - 1], runbooks[|runbooks| - 1];
      EligibleCounts(before, procedure, keys, x);
      assert runbooks == before + [r];
      var score := Score(r, procedure, keys);
      var more := if score >= 2 then [Scored(score, r)] else [];
      assert Eligible(runbooks, procedure, keys) == Eligible(before, procedure, keys) + more;
      assert multiset(runbooks)[x.runbook] == multiset(before)[x.runbook] + if x.runbook == r then 1 else 0;
      assert multiset(more)[x] == if score >= 2 && x == Scored(score, r) then 1 else 0;
      hide Eligible;
    }
  }

  /** With distinct slugs the matches do not depend on the order the library is read in. */
  lemma LibraryOrderIrrelevant(rs: seq<Runbook>, ts: seq<Runbook>, procedure: Option<string>, keys: set<KeyValue>)
    requires multiset(rs) == multiset(ts) && DistinctSlugs(rs)
    ensures FirstThree(Sort(Ranks, Eligible(rs, procedure, keys))) ==
            FirstThree(Sort(Ranks, Eligible(ts, procedure, keys)))
  {
    var a, b := Eligible(rs, procedure, keys), Eligible(ts, procedure, keys);
    forall x
      ensures multiset(a)[x] == multiset(b)[x]
    {
      EligibleCounts(rs, procedure, keys, x);
      EligibleCounts(ts, procedure, keys, x);
    }
    forall x, y | x in a && y in a && Ranks(x, y) && Ranks(y, x)
      ensures x == y
    {
      assert multiset(a)[x] > 0 && multiset(a)[y] > 0;
      EligibleCounts(rs, procedure, keys, x);
      EligibleCounts(rs, procedure, keys, y);
      LeqIsTotal(x.runbook.slug, y.runbook.slug);
      assert x.runbook in rs && y.runbook in rs;
    }
    RanksIsTotal();
    InputOrderIrrelevant(Ranks, a, b);
  }
}
