/** The procedures of one flow (5gcap/fivegcap/flow.py:94-162): a NAS pairer and an
    NGAP fallback pairer compete for the same two kinds. Here is what they
    mean, as functions and relations on the flow's messages. */
module FlowProcedures {
  import opened Common
  import opened Messages

  datatype Kind = Registration | PduSessionEst

  datatype Outcome = Open | Accept | Reject

  datatype Label = Nas(nas: NasName) | Ngap(ngap: NgapName)

  datatype Procedure = Procedure(kind: Kind, startTs: real, startMsg: Label,
                                 endTs: Option<real>, endMsg: Option<Label>, outcome: Outcome)

  // ----- The message tables -----

  function NasStart(n: NasName): Option<Kind> {
    match n
    case RegistrationRequest => Some(Registration)
    case EstabRequest => Some(PduSessionEst)
    case _ => None
  }

  function NasEnd(n: NasName): Option<(Kind, Outcome)> {
    match n
    case RegistrationAccept => Some((Registration, Accept))
    case RegistrationReject => Some((Registration, Reject))
    case EstabAccept => Some((PduSessionEst, Accept))
    case EstabReject => Some((PduSessionEst, Reject))
    case _ => None
  }

  function NgapStart(n: NgapName): Option<Kind> {
    match n
    case InitialUEMessage => Some(Registration)
    case PduSetupRequest => Some(PduSessionEst)
    case _ => None
  }

  function NgapEnd(n: NgapName): Option<(Kind, Outcome)> {
    match n
    case InitialContextSetupRequest => Some((Registration, Accept))
    case InitialContextSetupFailure => Some((Registration, Reject))
    case PduSetupResponse => Some((PduSessionEst, Accept))
    case PduSetupFailure => Some((PduSessionEst, Reject))
    case _ => None
  }

  predicate IsRelease(n: NgapName) {
    n.UEContextReleaseRequest? || n.UEContextReleaseCommand? || n.UEContextReleaseComplete?
  }

  /** The name a readable NAS message goes by: the inner one when there is one. */
  function NameOf(nas: Option<NasMsg>): Option<NasName> {
    if nas.Some? && nas.value.name.Some? && !Truthy(nas.value.unparsed)
    then if nas.value.inner.Some? && nas.value.inner.value != OtherNas("") then nas.value.inner else nas.value.name
    else None
  }

  // ----- What a message does to the procedures of a kind -----

  /** The NAS of the message was parsed and goes by the name n. */
  ghost predicate Reads(e: Entry, n: NasName) {
    && e.1.Some? && e.1.value.name.Some? && (e.1.value.unparsed == None || e.1.value.unparsed == Some(""))
    && n == NameIn(e.1.value)
  }

  ghost function NameIn(m: NasMsg): NasName
    requires m.name.Some?
  {
    if m.inner == None || m.inner == Some(OtherNas("")) then m.name.value else m.inner.value
  }

  ghost predicate StartsNas(e: Entry, k: Kind) {
    Reads(e, if k == Registration then RegistrationRequest else EstabRequest)
  }

  ghost predicate AcceptsNas(e: Entry, k: Kind) {
    Reads(e, if k == Registration then RegistrationAccept else EstabAccept)
  }

  ghost predicate EndsNas(e: Entry, k: Kind) {
    AcceptsNas(e, k) || Reads(e, if k == Registration then RegistrationReject else EstabReject)
  }

  ghost predicate StartsNgap(e: Entry, k: Kind) {
    e.0.name == if k == Registration then InitialUEMessage else PduSetupRequest
  }

  ghost predicate AcceptsNgap(e: Entry, k: Kind) {
    e.0.name == if k == Registration then InitialContextSetupRequest else PduSetupResponse
  }

  ghost predicate EndsNgap(e: Entry, k: Kind) {
    AcceptsNgap(e, k) || e.0.name == if k == Registration then InitialContextSetupFailure else PduSetupFailure
  }

  ghost predicate Releases(e: Entry) {
    e.0.name in {UEContextReleaseRequest, UEContextReleaseCommand, UEContextReleaseComplete}
  }

  /** The tables say what each message does. */
  lemma TablesAgree(e: Entry, k: Kind)
    ensures forall n :: Reads(e, n) <==> NameOf(e.1) == Some(n)
    ensures StartsNas(e, k) <==> NameOf(e.1).Some? && NasStart(NameOf(e.1).value) == Some(k)
    ensures EndsNas(e, k) <==>
            NameOf(e.1).Some? && NasEnd(NameOf(e.1).value).Some? && NasEnd(NameOf(e.1).value).value.0 == k
    ensures EndsNas(e, k) ==> NasEnd(NameOf(e.1).value).value.1 == if AcceptsNas(e, k) then Accept else Reject
    ensures StartsNgap(e, k) <==> NgapStart(e.0.name) == Some(k)
    ensures Releases(e) <==> IsRelease(e.0.name)
    ensures EndsNgap(e, k) <==> NgapEnd(e.0.name).Some? && NgapEnd(e.0.name).value.0 == k
    ensures EndsNgap(e, k) ==> NgapEnd(e.0.name).value.1 == if AcceptsNgap(e, k) then Accept else Reject
  {
  }

  // ----- Which messages pair with which -----

  /** i is the latest start of kind k and no end of kind k followed it. */
  ghost predicate OpenAt(tr: seq<Entry>, k: Kind, i: nat) {
    && i < |tr| && StartsNas(tr[i], k)
    && forall j :: i < j < |tr| ==> !StartsNas(tr[j], k) && !EndsNas(tr[j], k)
  }

  /** i is an NGAP start of kind k and no release followed it. */
  ghost predicate Pending(tr: seq<Entry>, k: Kind, i: nat) {
    && i < |tr| && StartsNgap(tr[i], k)
    && forall j :: i < j < |tr| ==> !Releases(tr[j])
  }

  ghost predicate EarliestPending(tr: seq<Entry>, k: Kind, i: nat) {
    Pending(tr, k, i) && forall j :: Pending(tr, k, j) ==> i <= j
  }

  /** The NAS end at j answers the start at i. */
  ghost predicate NasPair(tr: seq<Entry>, k: Kind, i: nat, j: nat) {
    j < |tr| && EndsNas(tr[j], k) && OpenAt(tr[..j], k, i)
  }

  /** The NGAP end at j has some start to answer. */
  ghost predicate NgapClosable(tr: seq<Entry>, k: Kind, j: nat) {
    j < |tr| && EndsNgap(tr[j], k) && exists i :: Pending(tr[..j], k, i)
  }

  /** Some NAS pair of kind k ended at n or before, or some NGAP end before n could close. */
  ghost predicate ClosedBy(tr: seq<Entry>, k: Kind, n: nat) {
    || (exists i: nat, j: nat :: j <= n && NasPair(tr, k, i, j))
    || (exists j: nat :: j < n && NgapClosable(tr, k, j))
  }

  /** The fallback: the first NGAP end of the kind with a start to answer, unless a NAS
      pair of the kind closed up to and including that message. */
  ghost predicate FallbackPair(tr: seq<Entry>, k: Kind, i: nat, j: nat) {
    NgapClosable(tr, k, j) && EarliestPending(tr[..j], k, i) && !ClosedBy(tr, k, j)
  }

  // ----- The same, as the one-pass computation carries it along -----

  datatype Closing = Closing(kind: Kind, start: nat, end: nat, fallback: bool)

  /** The closing joins two messages of the flow that the tables allow to be joined. */
  ghost predicate JoinsIn(c: Closing, tr: seq<Entry>) {
    && c.start < c.end < |tr|
    && if c.fallback then StartsNgap(tr[c.start], c.kind) && EndsNgap(tr[c.end], c.kind)
       else StartsNas(tr[c.start], c.kind) && EndsNas(tr[c.end], c.kind)
  }

  ghost function OpenNas(tr: seq<Entry>, k: Kind): (r: Option<nat>)
    ensures r.Some? ==> r.value < |tr| && StartsNas(tr[r.value], k)
  {
    if tr == [] then None
    else
      var p, e := tr[..|tr| - 1], tr[|tr| - 1];
      if StartsNas(e, k) then Some(|p|) else if EndsNas(e, k) then None else OpenNas(p, k)
  }

  ghost function Starts(tr: seq<Entry>, k: Kind): (r: seq<nat>)
    ensures forall i :: i in r ==> i < |tr| && StartsNgap(tr[i], k)
  {
    if tr == [] then []
    else
      var p, e := tr[..|tr| - 1], tr[|tr| - 1];
      if Releases(e) then []
      else if StartsNgap(e, k) then Starts(p, k) + [|p|] else Starts(p, k)
  }

  ghost predicate HasKind(cs: seq<Closing>, k: Kind) {
    exists c :: c in cs && c.kind == k
  }

  ghost function NasClosing(p: seq<Entry>, e: Entry): seq<Closing> {
    if EndsNas(e, Registration) && OpenNas(p, Registration).Some?
    then [Closing(Registration, OpenNas(p, Registration).value, |p|, false)]
    else if EndsNas(e, PduSessionEst) && OpenNas(p, PduSessionEst).Some?
    then [Closing(PduSessionEst, OpenNas(p, PduSessionEst).value, |p|, false)]
    else []
  }

  ghost function FallbackClosing(p: seq<Entry>, e: Entry, closed: seq<Closing>): seq<Closing> {
    if EndsNgap(e, Registration) && !HasKind(closed, Registration) && Starts(p, Registration) != []
    then [Closing(Registration, Starts(p, Registration)[0], |p|, true)]
    else if EndsNgap(e, PduSessionEst) && !HasKind(closed, PduSessionEst) && Starts(p, PduSessionEst) != []
    then [Closing(PduSessionEst, Starts(p, PduSessionEst)[0], |p|, true)]
    else []
  }

  ghost function Closings(tr: seq<Entry>): seq<Closing> {
    if tr == [] then []
    else
      var p, e := tr[..|tr| - 1], tr[|tr| - 1];
      var afterNas := Closings(p) + NasClosing(p, e);
      afterNas + FallbackClosing(p, e, afterNas)
  }

  lemma ClosingsAppend(p: seq<Entry>, e: Entry)
    ensures var afterNas := Closings(p) + NasClosing(p, e);
            Closings(p + [e]) == afterNas + FallbackClosing(p, e, afterNas)
    ensures forall k :: OpenNas(p + [e], k) ==
                        if StartsNas(e, k) then Some(|p|) else if EndsNas(e, k) then None else OpenNas(p, k)
    ensures forall k :: Starts(p + [e], k) ==
                        if Releases(e) then []
                        else if StartsNgap(e, k) then Starts(p, k) + [|p|] else Starts(p, k)
  {
    assert (p + [e])[..|p|] == p;
  }

  // ----- Both descriptions agree -----

  /** OpenNas finds the start a NAS end would answer, and only that one. */
  lemma {:induction false} OpenNasMeaning(tr: seq<Entry>, k: Kind)
    ensures forall i: nat :: OpenNas(tr, k) == Some(i) <==> OpenAt(tr, k, i)
  {
    if tr != [] {
      var p, e := tr[..|tr| - 1], tr[|tr| - 1];
      OpenNasMeaning(p, k);
      forall i: nat
        ensures OpenNas(tr, k) == Some(i) <==> OpenAt(tr, k, i)
      {
        if i < |p| {
          assert tr[i] == p[i];
          if OpenAt(p, k, i) && !StartsNas(e, k) && !EndsNas(e, k) {
            assert forall j :: i < j < |p| ==> tr[j] == p[j];
            assert OpenAt(tr, k, i);
          }
          if OpenAt(tr, k, i) {
            forall j | i < j < |p|
              ensures !StartsNas(p[j], k) && !EndsNas(p[j], k)
            {
              assert tr[j] == p[j];
            }
            assert tr[|p|] == e;
          }
        }
      }
    }
  }

  /** Starts lists, in order, exactly the NGAP starts since the last release. */
  lemma {:induction false} StartsMeaning(tr: seq<Entry>, k: Kind)
    ensures Increasing(Starts(tr, k))
    ensures forall i :: i in Starts(tr, k) <==> Pending(tr, k, i)
    ensures Starts(tr, k) != [] ==> EarliestPending(tr, k, Starts(tr, k)[0])
  {
    if tr != [] {
      var p, e := tr[..|tr| - 1], tr[|tr| - 1];
      StartsMeaning(p, k);
      forall i: nat
        ensures Pending(tr, k, i) <==>
                !Releases(e) && (Pending(p, k, i) || (i == |p| && StartsNgap(e, k)))
      {
        PendingAppend(p, e, k, i);
        assert tr == p + [e];
      }
      var s := Starts(p, k);
      assert forall i :: i in s ==> Pending(p, k, i);
      assert forall a :: 0 <= a < |s| ==> s[a] in s;
      var t := Starts(tr, k);
      assert forall a :: 0 <= a < |t| ==> t[a] in t;
      if t != [] {
        forall i | Pending(tr, k, i)
          ensures t[0] <= i
        {
          assert i in t;
        }
      }
    }
  }

  lemma PendingAppend(p: seq<Entry>, e: Entry, k: Kind, i: nat)
    ensures Pending(p + [e], k, i) <==>
            !Releases(e) && (Pending(p, k, i) || (i == |p| && StartsNgap(e, k)))
  {
    var tr := p + [e];
    assert tr[|p|] == e;
    if i < |p| {
      assert tr[i] == p[i];
      if Pending(tr, k, i) {
        forall j | i < j < |p|
          ensures !Releases(p[j])
        {
          assert tr[j] == p[j];
        }
      }
      if Pending(p, k, i) && !Releases(e) {
        forall j | i < j < |tr|
          ensures !Releases(tr[j])
        {
          assert j < |p| ==> tr[j] == p[j];
        }
      }
    } else if i == |p| && StartsNgap(e, k) {
      assert Pending(tr, k, i);
    }
  }

  /** Membership in Closings, before it is shown to be the pairing relation. */
  ghost predicate Pair(tr: seq<Entry>, c: Closing) {
    if c.fallback then FallbackPair(tr, c.kind, c.start, c.end) else NasPair(tr, c.kind, c.start, c.end)
  }

  /** Pairs that ended earlier do not depend on later messages. */
  lemma PairPrefix(p: seq<Entry>, e: Entry, k: Kind)
    ensures forall i: nat, j: nat :: j < |p| ==> (NasPair(p + [e], k, i, j) <==> NasPair(p, k, i, j))
    ensures forall j: nat :: j < |p| ==> (NgapClosable(p + [e], k, j) <==> NgapClosable(p, k, j))
  {
    var tr := p + [e];
    forall i: nat, j: nat | j < |p|
      ensures NasPair(tr, k, i, j) <==> NasPair(p, k, i, j)
    {
      assert tr[..j] == p[..j] && tr[j] == p[j];
    }
    forall j: nat | j < |p|
      ensures NgapClosable(tr, k, j) <==> NgapClosable(p, k, j)
    {
      assert tr[..j] == p[..j] && tr[j] == p[j];
    }
  }

  lemma ClosedByPrefix(p: seq<Entry>, e: Entry, k: Kind, n: nat)
    ensures n < |p| ==> (ClosedBy(p + [e], k, n) <==> ClosedBy(p, k, n))
    ensures ClosedBy(p + [e], k, |p|) <==>
            ClosedBy(p, k, |p|) || exists i: nat :: NasPair(p + [e], k, i, |p|)
  {
    PairPrefix(p, e, k);
  }

  lemma FallbackPrefix(p: seq<Entry>, e: Entry, k: Kind, i: nat, j: nat)
    requires j < |p|
    ensures FallbackPair(p + [e], k, i, j) <==> FallbackPair(p, k, i, j)
  {
    PairPrefix(p, e, k);
    ClosedByPrefix(p, e, k, j);
    assert (p + [e])[..j] == p[..j];
  }

  lemma NasPairLast(p: seq<Entry>, e: Entry, k: Kind, i: nat)
    ensures NasPair(p + [e], k, i, |p|) <==> EndsNas(e, k) && OpenNas(p, k) == Some(i)
  {
    assert (p + [e])[..|p|] == p;
    OpenNasMeaning(p, k);
  }

  lemma ClosableLast(p: seq<Entry>, e: Entry, k: Kind)
    ensures NgapClosable(p + [e], k, |p|) <==> EndsNgap(e, k) && Starts(p, k) != []
  {
    assert (p + [e])[..|p|] == p;
    StartsMeaning(p, k);
    if Starts(p, k) != [] {
      assert Pending(p, k, Starts(p, k)[0]);
    } else {
      assert forall i :: Pending(p, k, i) ==> i in Starts(p, k);
    }
  }

  lemma {:induction false} FirstClosable(tr: seq<Entry>, k: Kind, j: nat) returns (first: nat, i: nat)
    requires NgapClosable(tr, k, j)
    ensures first <= j && NgapClosable(tr, k, first) && EarliestPending(tr[..first], k, i)
    ensures forall j': nat :: j' < first ==> !NgapClosable(tr, k, j')
    decreases j
  {
    if j': nat :| j' < j && NgapClosable(tr, k, j') {
      first, i := FirstClosable(tr, k, j');
    } else {
      first := j;
      var w :| Pending(tr[..j], k, w);
      StartsMeaning(tr[..j], k);
      assert w in Starts(tr[..j], k);
      i := Starts(tr[..j], k)[0];
    }
  }

  /** A kind has been closed iff some NAS pair or some answerable NGAP end of it was seen. */
  lemma HasKindMeaning(tr: seq<Entry>, closed: seq<Closing>, k: Kind)
    requires forall c :: c in closed <==> Pair(tr, c)
    ensures HasKind(closed, k) <==> ClosedBy(tr, k, |tr|)
  {
    if i: nat, j: nat :| NasPair(tr, k, i, j) {
      assert Closing(k, i, j, false) in closed;
    } else if j: nat :| NgapClosable(tr, k, j) {
      AnswerableHasFallback(tr, k, j);
      var c :| c in closed && c.kind == k;
    } else {
      forall c | c in closed
        ensures c.kind != k
      {
        assert Pair(tr, c);
      }
    }
  }

  lemma AnswerableHasFallback(tr: seq<Entry>, k: Kind, j: nat)
    requires NgapClosable(tr, k, j)
    requires forall i: nat, j: nat :: !NasPair(tr, k, i, j)
    ensures exists c :: Pair(tr, c) && c.kind == k
  {
    var first, i := FirstClosable(tr, k, j);
    assert !ClosedBy(tr, k, first);
    assert Pair(tr, Closing(k, i, first, true));
  }

  /** The main result: the one-pass pairer closes exactly the pairs of the two relations. */
  lemma {:induction false} ClosingsArePairs(tr: seq<Entry>)
    ensures forall c :: c in Closings(tr) <==> Pair(tr, c)
  {
    if tr == [] {
    } else {
      var p, e := tr[..|tr| - 1], tr[|tr| - 1];
      assert tr == p + [e];
      ClosingsArePairs(p);
      ClosingsAppend(p, e);
      var afterNas := Closings(p) + NasClosing(p, e);
      forall c
        ensures c in Closings(tr) <==> Pair(tr, c)
      {
        if c.end < |p| {
          EarlierClosing(p, e, afterNas, c);
        } else {
          LastClosing(p, e, Closings(p), c);
        }
      }
    }
  }

  lemma EarlierClosing(p: seq<Entry>, e: Entry, closed: seq<Closing>, c: Closing)
    requires c.end < |p|
    ensures c !in NasClosing(p, e) && c !in FallbackClosing(p, e, closed)
    ensures Pair(p + [e], c) <==> Pair(p, c)
  {
    hide OpenAt, Pending;
    PairPrefix(p, e, c.kind);
    FallbackPrefix(p, e, c.kind, c.start, c.end);
  }

  lemma LastClosing(p: seq<Entry>, e: Entry, closed: seq<Closing>, c: Closing)
    requires c.end >= |p| && forall d :: d in closed <==> Pair(p, d)
    ensures c !in closed
    ensures c in NasClosing(p, e) + FallbackClosing(p, e, closed + NasClosing(p, e)) <==> Pair(p + [e], c)
  {
    assert !Pair(p, c);
    if c.fallback {
      FallbackLast(p, closed, e, c);
    } else {
      NasPairLast(p, e, c.kind, c.start);
    }
  }

  lemma NasClosingMeaning(p: seq<Entry>, e: Entry)
    ensures forall d :: d in NasClosing(p, e) <==>
              d.end == |p| && !d.fallback && NasPair(p + [e], d.kind, d.start, |p|)
  {
    forall d: Closing {
      NasPairLast(p, e, d.kind, d.start);
    }
  }

  lemma HasKindAfterNas(p: seq<Entry>, closed: seq<Closing>, e: Entry, k: Kind)
    requires forall d :: d in closed <==> Pair(p, d)
    ensures HasKind(closed + NasClosing(p, e), k) <==> ClosedBy(p + [e], k, |p|)
  {
    HasKindMeaning(p, closed, k);
    ClosedByPrefix(p, e, k, |p|);
    NasClosingMeaning(p, e);
    HasKindConcat(closed, NasClosing(p, e), k);
    hide OpenNas, OpenAt, ClosedBy, NasClosing, Pair;
    if i: nat :| NasPair(p + [e], k, i, |p|) {
      assert Closing(k, i, |p|, false) in NasClosing(p, e);
    }
  }

  lemma HasKindConcat(s: seq<Closing>, t: seq<Closing>, k: Kind)
    ensures HasKind(s + t, k) <==> HasKind(s, k) || HasKind(t, k)
  {
    assert forall c :: c in s + t <==> c in s || c in t;
  }

  lemma FallbackLast(p: seq<Entry>, closed: seq<Closing>, e: Entry, c: Closing)
    requires forall d :: d in closed <==> Pair(p, d)
    requires c.fallback && c.end >= |p|
    ensures c in FallbackClosing(p, e, closed + NasClosing(p, e)) <==> Pair(p + [e], c)
  {
    var k := c.kind;
    ClosableLast(p, e, k);
    StartsMeaning(p, k);
    HasKindAfterNas(p, closed, e, k);
    assert (p + [e])[..|p|] == p;
    hide Starts, HasKind, NasClosing, ClosedBy, Pending;
  }

  // ----- Consequences -----

  /** Procedures are stored in the order of their ends; no message closes two of a kind;
      a fallback is the first of its kind, hence the only fallback of its kind. */
  ghost predicate WellOrdered(cs: seq<Closing>) {
    forall a, b :: 0 <= a < b < |cs| ==>
      && cs[a].end <= cs[b].end
      && (cs[a].end == cs[b].end ==> cs[a].kind != cs[b].kind)
      && (cs[b].fallback ==> cs[a].kind != cs[b].kind)
  }

  lemma {:induction false} ClosingsAreWellOrdered(tr: seq<Entry>)
    ensures WellOrdered(Closings(tr))
    ensures forall c :: c in Closings(tr) ==> JoinsIn(c, tr)
  {
    hide OpenNas, Starts, NasClosing, FallbackClosing, StartsNas, EndsNas, StartsNgap, EndsNgap;
    if tr != [] {
      var p, e := tr[..|tr| - 1], tr[|tr| - 1];
      assert tr == p + [e];
      ClosingsAreWellOrdered(p);
      ClosingsAppend(p, e);
      NewClosings(p, e, Closings(p) + NasClosing(p, e));
      OrderedAppend(Closings(p), NasClosing(p, e), |p|);
      OrderedAppend(Closings(p) + NasClosing(p, e), FallbackClosing(p, e, Closings(p) + NasClosing(p, e)), |p|);
      forall c | c in Closings(p)
        ensures JoinsIn(c, tr)
      {
        JoinsLonger(c, p, e);
      }
    }
  }

  lemma JoinsLonger(c: Closing, p: seq<Entry>, e: Entry)
    requires JoinsIn(c, p)
    ensures JoinsIn(c, p + [e])
  {
  }

  lemma NewClosings(p: seq<Entry>, e: Entry, closed: seq<Closing>)
    ensures forall c :: c in NasClosing(p, e) ==> JoinsIn(c, p + [e]) && c.end == |p| && !c.fallback
    ensures forall c :: c in FallbackClosing(p, e, closed) ==>
              JoinsIn(c, p + [e]) && c.end == |p| && c.fallback && !HasKind(closed, c.kind)
    ensures |NasClosing(p, e)| <= 1 && |FallbackClosing(p, e, closed)| <= 1
  {
    assert forall k :: Starts(p, k) != [] ==> Starts(p, k)[0] in Starts(p, k);
  }

  lemma OrderedAppend(cs: seq<Closing>, more: seq<Closing>, n: nat)
    requires WellOrdered(cs) && |more| <= 1
    requires forall c :: c in cs ==> c.end <= n
    requires forall c :: c in more ==>
               c.end == n && if c.fallback then !HasKind(cs, c.kind) else forall d :: d in cs ==> d.end < n
    ensures WellOrdered(cs + more)
  {
    assert forall a :: 0 <= a < |cs| ==> cs[a] in cs;
    assert forall a :: 0 <= a < |more| ==> more[a] in more;
  }

  /** The stored record of a closing. */
  ghost function ProcedureOf(tr: seq<Entry>, c: Closing): Procedure
    requires JoinsIn(c, tr)
  {
    var s, t := tr[c.start], tr[c.end];
    Procedure(c.kind, s.0.ts, LabelOf(s, c.fallback), Some(t.0.ts), Some(LabelOf(t, c.fallback)),
              if if c.fallback then AcceptsNgap(t, c.kind) else AcceptsNas(t, c.kind) then Accept else Reject)
  }

  /** The name under which a message starts or ends a procedure. */
  ghost function LabelOf(e: Entry, fallback: bool): Label
    requires fallback || exists n :: Reads(e, n)
  {
    if fallback then Ngap(e.0.name) else Nas(NameIn(e.1.value))
  }

  ghost function Records(tr: seq<Entry>, cs: seq<Closing>): (ps: seq<Procedure>)
    requires forall c :: c in cs ==> JoinsIn(c, tr)
    ensures |ps| == |cs|
    ensures forall i :: 0 <= i < |ps| ==> cs[i] in cs && ps[i] == ProcedureOf(tr, cs[i])
  {
    assert forall i :: 0 <= i < |cs| ==> cs[i] in cs;
    seq(|cs|, i requires 0 <= i < |cs| => ProcedureOf(tr, cs[i]))
  }

  /** The procedures a flow stores, in order. */
  ghost function Procedures(tr: seq<Entry>): seq<Procedure> {
    ClosingsAreWellOrdered(tr);
    Records(tr, Closings(tr))
  }

  predicate Closed(p: Procedure) {
    p.endTs.Some? && p.endMsg.Some? && p.outcome != Open
  }

  /** Every stored procedure has a terminal message and outcome. */
  lemma ProceduresAreClosed(tr: seq<Entry>)
    ensures forall p :: p in Procedures(tr) ==> Closed(p)
  {
    ClosingsAreWellOrdered(tr);
    hide Closings;
  }

  // ----- When the fallback duplicates a NAS procedure -----

  ghost predicate HasFallback(tr: seq<Entry>, k: Kind) {
    exists c :: c in Closings(tr) && c.kind == k && c.fallback
  }

  ghost predicate HasNas(tr: seq<Entry>, k: Kind) {
    exists d :: d in Closings(tr) && d.kind == k && !d.fallback
  }

  /** Some NGAP end of the kind could close before any NAS pair of the kind was complete. */
  ghost predicate NgapClosesFirst(tr: seq<Entry>, k: Kind) {
    exists j: nat :: NgapClosable(tr, k, j) && forall i: nat, e: nat :: NasPair(tr, k, i, e) ==> j < e
  }

  /** A flow stores a fallback of a kind exactly when an NGAP end could close before every NAS pair of the kind
      was complete, whether or not NAS pairs follow. So it stores a fallback beside a NAS procedure exactly
      when, on top of that, a NAS pair of the kind does follow. */
  lemma FallbackBesideNasIff(tr: seq<Entry>, k: Kind)
    ensures HasFallback(tr, k) <==> NgapClosesFirst(tr, k)
    ensures HasFallback(tr, k) && HasNas(tr, k) <==>
            NgapClosesFirst(tr, k) && exists i: nat, e: nat :: NasPair(tr, k, i, e)
  {
    ClosingsArePairs(tr);
    hide Closings, NasPair, NgapClosable, EarliestPending;
    if HasFallback(tr, k) {
      var c :| c in Closings(tr) && c.kind == k && c.fallback;
      assert Pair(tr, c);
    }
    if j: nat :| NgapClosable(tr, k, j) && forall i: nat, e: nat :: NasPair(tr, k, i, e) ==> j < e {
      var first, start := FirstClosable(tr, k, j);
      assert Pair(tr, Closing(k, start, first, true));
    }
    if i: nat, e: nat :| NasPair(tr, k, i, e) {
      assert Pair(tr, Closing(k, i, e, false));
    }
  }

  /** The usual trace of it: the setup answers the initial message before the accept answers the request. */
  lemma FallbackMayDuplicateNas(request: Entry, setup: Entry, accept: Entry)
    requires request.0.name == InitialUEMessage && StartsNas(request, Registration)
    requires setup.0.name == InitialContextSetupRequest && forall n :: !Reads(setup, n)
    requires EndsNas(accept, Registration)
    ensures var tr := [request, setup, accept];
            && HasFallback(tr, Registration) && HasNas(tr, Registration)
            && Closing(Registration, 0, 1, true) in Closings(tr)
            && Closing(Registration, 0, 2, false) in Closings(tr)
  {
    var tr := [request, setup, accept];
    assert tr[..1] == [request] && tr[..2] == [request, setup];
    assert Pending(tr[..1], Registration, 0) && NgapClosable(tr, Registration, 1);
    assert OpenAt(tr[..2], Registration, 0) && NasPair(tr, Registration, 0, 2);
    forall i: nat, e: nat | NasPair(tr, Registration, i, e)
      ensures 1 < e
    {
      assert tr[1] == setup;
    }
    FallbackBesideNasIff(tr, Registration);
    ClosingsArePairs(tr);
    assert Pair(tr, Closing(Registration, 0, 2, false));
    assert Pair(tr, Closing(Registration, 0, 1, true));
    hide Closings;
  }
}
