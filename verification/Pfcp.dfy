/** PFCP request/response pairing with retransmissions (5gcap/fivegcap/pfcp.py:22-34, 232-282;
    clause 6.4 of 3GPP TS 29.244). */
module Pfcp {
  import opened Common
  import opened Dicts
  import opened Messages
  import opened StableSort

  datatype PfcpMsg = PfcpMsg(ts: real, msgType: Option<int>, name: Option<string>, seqNum: Option<int>,
                             cause: Option<int>, causeName: Option<string>, fTeids: seq<Tunnel>,
                             unparsed: Option<string>, srcIp: Option<string>, srcPort: Option<int>,
                             dstIp: Option<string>, dstPort: Option<int>)

  const REQ_KIND: map<int, string> := map[
    1 := "heartbeat", 3 := "pfd_management", 5 := "association_setup", 7 := "association_update",
    9 := "association_release", 12 := "node_report", 14 := "session_set_deletion",
    50 := "session_establishment", 52 := "session_modification", 54 := "session_deletion",
    56 := "session_report"]

  datatype Outcome = Accept | Reject | Unknown | Timeout

  datatype N4Procedure = N4Procedure(
    kind: string, startTs: real, endTs: real, startMsg: Option<string>, endMsg: Option<string>,
    outcome: Outcome, cause: Option<int>, causeName: Option<string>, reqIndex: nat, rspIndex: Option<nat>)

  type Endpoint = (Option<string>, Option<int>)
  type PairKey = (Endpoint, Endpoint, Option<int>)

  predicate IsRequest(m: PfcpMsg) {
    !Truthy(m.unparsed) && m.msgType.Some? && m.msgType.value in REQ_KIND
  }

  predicate IsResponse(m: PfcpMsg) {
    !Truthy(m.unparsed) && m.msgType.Some? && m.msgType.value !in REQ_KIND && m.msgType.value - 1 in REQ_KIND
  }

  /** The key in the direction of the request: a response travels the path in reverse. */
  function KeyOf(m: PfcpMsg): PairKey {
    var src, dst := (m.srcIp, m.srcPort), (m.dstIp, m.dstPort);
    if IsRequest(m) then (src, dst, m.seqNum) else (dst, src, m.seqNum)
  }

  ghost predicate Relevant(m: PfcpMsg, key: PairKey) {
    (IsRequest(m) || IsResponse(m)) && KeyOf(m) == key
  }

  function AnsweredBy(req: PfcpMsg, i: nat, m: PfcpMsg, j: nat): N4Procedure
    requires IsResponse(m)
  {
    N4Procedure(REQ_KIND[m.msgType.value - 1], req.ts, m.ts, req.name, m.name,
                if m.cause.None? then Unknown else if m.cause.value in {1, 2, 3} then Accept else Reject,
                m.cause, m.causeName, i, Some(j))
  }

  function TimedOut(req: PfcpMsg, i: nat): N4Procedure
    requires IsRequest(req)
  {
    N4Procedure(REQ_KIND[req.msgType.value], req.ts, req.ts, req.name, None, Timeout, None, None, i, None)
  }

  // ----- What pairs with what -----

  /** No message of the key lies between i and n. */
  ghost predicate Quiet(msgs: seq<PfcpMsg>, key: PairKey, i: int, n: nat)
    requires n <= |msgs|
  {
    forall k :: 0 <= k && i < k < n ==> !Relevant(msgs[k], key)
  }

  /** The latest message of the key before n is a response, or there is none. */
  ghost predicate Idle(msgs: seq<PfcpMsg>, key: PairKey, n: nat)
    requires n <= |msgs|
  {
    || Quiet(msgs, key, -1, n)
    || exists p: nat :: p < n && Relevant(msgs[p], key) && IsResponse(msgs[p]) && Quiet(msgs, key, p, n)
  }

  /** i is the first send of a request: it finds its key idle. Later sends are retransmissions. */
  ghost predicate FirstSend(msgs: seq<PfcpMsg>, i: nat) {
    i < |msgs| && IsRequest(msgs[i]) && Idle(msgs, KeyOf(msgs[i]), i)
  }

  /** Only requests of the key lie between i and n: the unbroken run of sends. */
  ghost predicate Unbroken(msgs: seq<PfcpMsg>, i: nat, n: nat)
    requires i < n <= |msgs|
  {
    forall k :: i < k < n && Relevant(msgs[k], KeyOf(msgs[i])) ==> IsRequest(msgs[k])
  }

  /** The response at j answers the first send at i. */
  ghost predicate Answers(msgs: seq<PfcpMsg>, i: nat, j: nat) {
    && FirstSend(msgs, i) && i < j < |msgs|
    && IsResponse(msgs[j]) && KeyOf(msgs[j]) == KeyOf(msgs[i]) && Unbroken(msgs, i, j)
  }

  /** The first send at i is never answered. */
  ghost predicate TimesOut(msgs: seq<PfcpMsg>, i: nat) {
    FirstSend(msgs, i) && Unbroken(msgs, i, |msgs|)
  }

  // ----- The same, as the one-pass computation carries it along -----

  /** The pending first send of the key after the first n messages. */
  ghost function Pending(msgs: seq<PfcpMsg>, key: PairKey, n: nat): (r: Option<nat>)
    requires n <= |msgs|
    ensures r.Some? ==> r.value < n && IsRequest(msgs[r.value]) && KeyOf(msgs[r.value]) == key
  {
    if n == 0 then None
    else
      var m, before := msgs[n - 1], Pending(msgs, key, n - 1);
      if !Relevant(m, key) then before
      else if IsRequest(m) then (if before.Some? then before else Some(n - 1))
      else None
  }

  ghost function AnsweredAt(msgs: seq<PfcpMsg>, i: nat, j: nat): N4Procedure
    requires i < |msgs| && j < |msgs| && IsResponse(msgs[j])
  {
    AnsweredBy(msgs[i], i, msgs[j], j)
  }

  /** The answered procedures, in the order of their responses. */
  ghost function AnsweredUpTo(msgs: seq<PfcpMsg>, n: nat): seq<N4Procedure>
    requires n <= |msgs|
  {
    if n == 0 then []
    else
      var m := msgs[n - 1];
      if IsResponse(m) && Pending(msgs, KeyOf(m), n - 1).Some?
      then AnsweredUpTo(msgs, n - 1) + [AnsweredAt(msgs, Pending(msgs, KeyOf(m), n - 1).value, n - 1)]
      else AnsweredUpTo(msgs, n - 1)
  }

  /** The first sends below i that are pending after n messages, in order. */
  ghost function PendingBelow(msgs: seq<PfcpMsg>, n: nat, i: nat): (r: seq<nat>)
    requires i <= |msgs| && n <= |msgs|
    ensures Increasing(r)
    ensures forall x: nat :: x in r <==> x < i && IsRequest(msgs[x]) && Pending(msgs, KeyOf(msgs[x]), n) == Some(x)
  {
    if i == 0 then []
    else if IsRequest(msgs[i - 1]) && Pending(msgs, KeyOf(msgs[i - 1]), n) == Some(i - 1)
    then
      var r := PendingBelow(msgs, n, i - 1);
      assert forall a :: 0 <= a < |r| ==> r[a] in r;
      r + [i - 1]
    else PendingBelow(msgs, n, i - 1)
  }

  lemma {:induction false} PendingIffNotIdle(msgs: seq<PfcpMsg>, key: PairKey, n: nat)
    requires n <= |msgs|
    ensures Pending(msgs, key, n).None? <==> Idle(msgs, key, n)
  {
    if n > 0 {
      PendingIffNotIdle(msgs, key, n - 1);
      var m := msgs[n - 1];
      if !Relevant(m, key) {
        IdleSkip(msgs, key, n);
      } else if IsResponse(m) {
        assert Quiet(msgs, key, n - 1, n);
      } else {
        IdleNotAfterRequest(msgs, key, n);
      }
    }
  }

  ghost predicate PendingAt(msgs: seq<PfcpMsg>, key: PairKey, n: nat, i: nat)
    requires n <= |msgs|
  {
    i < n && FirstSend(msgs, i) && KeyOf(msgs[i]) == key && Unbroken(msgs, i, n)
  }

  /** Pending finds the first send whose run of sends is still unbroken. */
  lemma {:induction false} PendingMeaning(msgs: seq<PfcpMsg>, key: PairKey, n: nat, i: nat)
    requires n <= |msgs|
    ensures Pending(msgs, key, n) == Some(i) <==> PendingAt(msgs, key, n, i)
  {
    if n > 0 {
      PendingMeaning(msgs, key, n - 1, i);
      PendingIffNotIdle(msgs, key, n - 1);
      if i < n - 1 {
        assert Relevant(msgs[n - 1], KeyOf(msgs[i])) && PendingAt(msgs, key, n, i) ==> IsRequest(msgs[n - 1]);
      }
      hide Idle, IsRequest, IsResponse, KeyOf, Quiet;
    }
  }

  lemma IdleSkip(msgs: seq<PfcpMsg>, key: PairKey, n: nat)
    requires 0 < n <= |msgs| && !Relevant(msgs[n - 1], key)
    ensures Idle(msgs, key, n) <==> Idle(msgs, key, n - 1)
  {
    if p: nat :| p < n && Relevant(msgs[p], key) && IsResponse(msgs[p]) && Quiet(msgs, key, p, n) {
      assert Quiet(msgs, key, p, n - 1);
    }
    if p: nat :| p < n - 1 && Relevant(msgs[p], key) && IsResponse(msgs[p]) && Quiet(msgs, key, p, n - 1) {
      assert Quiet(msgs, key, p, n);
    }
  }

  lemma IdleNotAfterRequest(msgs: seq<PfcpMsg>, key: PairKey, n: nat)
    requires 0 < n <= |msgs| && Relevant(msgs[n - 1], key) && IsRequest(msgs[n - 1])
    ensures !Idle(msgs, key, n)
  {
  }

  // ----- The loop -----

  ghost function Indices(entries: seq<(PfcpMsg, nat)>): (r: seq<nat>)
    ensures |r| == |entries| && forall a :: 0 <= a < |r| ==> r[a] == entries[a].1
  {
    seq(|entries|, a requires 0 <= a < |entries| => entries[a].1)
  }

  /** The entry of one key after n messages is its pending first send. */
  ghost predicate Tracks(msgs: seq<PfcpMsg>, n: nat, at: map<PairKey, (PfcpMsg, nat)>, key: PairKey)
    requires n <= |msgs|
  {
    if key in at
    then Pending(msgs, key, n) == Some(at[key].1) && at[key].0 == msgs[at[key].1]
    else Pending(msgs, key, n) == None
  }

  /** The dictionary iterates by first send. */
  ghost predicate OrderedBy(order: seq<PairKey>, at: map<PairKey, (PfcpMsg, nat)>) {
    && (forall a :: 0 <= a < |order| ==> order[a] in at)
    && (forall a, b :: 0 <= a < b < |order| ==> at[order[a]].1 < at[order[b]].1)
  }

  ghost predicate IsSendOf(msgs: seq<PfcpMsg>, entry: (PfcpMsg, nat)) {
    entry.1 < |msgs| && entry.0 == msgs[entry.1] && IsRequest(entry.0)
  }

  ghost predicate PendingBook(msgs: seq<PfcpMsg>, n: nat, pending: Dict<PairKey, (PfcpMsg, nat)>)
    requires n <= |msgs|
  {
    && pending.Valid() && OrderedBy(pending.order, pending.at)
    && forall key :: Tracks(msgs, n, pending.at, key)
  }

  predicate ByStart(p: N4Procedure, q: N4Procedure) {
    p.startTs <= q.startTs
  }

  ghost function Timeouts(msgs: seq<PfcpMsg>, sends: seq<nat>): (ps: seq<N4Procedure>)
    requires forall i :: i in sends ==> i < |msgs| && IsRequest(msgs[i])
    ensures |ps| == |sends| && forall a :: 0 <= a < |sends| ==>
              sends[a] in sends && ps[a] == TimedOut(msgs[sends[a]], sends[a])
  {
    assert forall a :: 0 <= a < |sends| ==> sends[a] in sends;
    seq(|sends|, a requires 0 <= a < |sends| => TimedOut(msgs[sends[a]], sends[a]))
  }

  /** Every procedure, before the final sort. */
  ghost function AllProcedures(msgs: seq<PfcpMsg>): seq<N4Procedure> {
    AnsweredUpTo(msgs, |msgs|) + Timeouts(msgs, PendingBelow(msgs, |msgs|, |msgs|))
  }

  method PairProcedures(msgs: seq<PfcpMsg>) returns (procedures: seq<N4Procedure>, unpaired: seq<PfcpMsg>)
    ensures Pairs(msgs, procedures)
    ensures procedures == Sort(ByStart, AllProcedures(msgs))
    ensures var sends := PendingBelow(msgs, |msgs|, |msgs|);
            && (forall i :: i in sends <==> Lost(msgs, i)) && |unpaired| == |sends| && Increasing(sends)
            && forall a :: 0 <= a < |sends| ==> sends[a] in sends && unpaired[a] == msgs[sends[a]]
  {
    hide Pending, PendingBook, AnsweredUpTo, IsRequest, IsResponse, KeyOf, PendingBelow, Sort, AnsweredBy, TimedOut,
         Pairs, Lost;
    RequestIsNoResponse();
    var pending: Dict<PairKey, (PfcpMsg, nat)> := Empty();
    procedures := [];
    PendingStart(msgs);
    for n := 0 to |msgs|
      invariant PendingBook(msgs, n, pending)
      invariant procedures == AnsweredUpTo(msgs, n)
    {
      var m := msgs[n];
      PendingStep(msgs, n, pending);
      AnsweredStep(msgs, n);
      if IsRequest(m) {
        var key := KeyOf(m);
        if !pending.Has(key) {
          pending := pending.Put(key, (m, n));
        }
      } else if IsResponse(m) {
        var key := KeyOf(m);
        if pending.Has(key) {
          var (req, i) := pending.at[key];
          pending := pending.Pop(key);
          procedures := procedures + [AnsweredBy(req, i, m, n)];
        }
      }
    }
    PendingEnd(msgs, pending);
    var left := pending.Values();
    procedures := AppendTimeouts(msgs, procedures, left);
    procedures := Sort(ByStart, procedures);
    ResultPairs(msgs);
    LostAreUnpaired(msgs);
    unpaired := seq(|left|, a requires 0 <= a < |left| => left[a].0);
  }

  method AppendTimeouts(ghost msgs: seq<PfcpMsg>, answered: seq<N4Procedure>, left: seq<(PfcpMsg, nat)>)
    returns (procedures: seq<N4Procedure>)
    requires forall a :: 0 <= a < |left| ==> IsSendOf(msgs, left[a])
    ensures var sends := Indices(left);
            && (forall i :: i in sends ==> i < |msgs| && IsRequest(msgs[i]))
            && procedures == answered + Timeouts(msgs, sends)
  {
    procedures := answered;
    for a := 0 to |left|
      invariant |procedures| == |answered| + a && procedures[..|answered|] == answered
      invariant forall b :: 0 <= b < a ==> procedures[|answered| + b] == TimedOut(left[b].0, left[b].1)
    {
      procedures := procedures + [TimedOut(left[a].0, left[a].1)];
    }
    hide IsRequest, TimedOut;
    var timeouts := procedures[|answered|..];
    assert procedures == answered + timeouts;
  }

  lemma RequestIsNoResponse()
    ensures forall m :: IsRequest(m) ==> !IsResponse(m)
  {
  }

  lemma PendingStart(msgs: seq<PfcpMsg>)
    ensures PendingBook(msgs, 0, Empty()) && AnsweredUpTo(msgs, 0) == []
  {
  }

  lemma AnsweredStep(msgs: seq<PfcpMsg>, n: nat)
    requires n < |msgs|
    ensures var m := msgs[n];
            AnsweredUpTo(msgs, n + 1) ==
            if IsResponse(m) && Pending(msgs, KeyOf(m), n).Some?
            then AnsweredUpTo(msgs, n) + [AnsweredBy(msgs[Pending(msgs, KeyOf(m), n).value],
                                                     Pending(msgs, KeyOf(m), n).value, m, n)]
            else AnsweredUpTo(msgs, n)
  {
  }

  lemma PendingAppend(msgs: seq<PfcpMsg>, n: nat, key: PairKey)
    requires n < |msgs|
    ensures Pending(msgs, key, n + 1) ==
            var m, before := msgs[n], Pending(msgs, key, n);
            if !Relevant(m, key) then before
            else if IsRequest(m) then (if before.Some? then before else Some(n))
            else None
  {
  }

  lemma {:induction false} OrderedWithout(order: seq<PairKey>, at: map<PairKey, (PfcpMsg, nat)>, key: PairKey)
    requires OrderedBy(order, at)
    ensures OrderedBy(Without(order, key), at)
    ensures forall k :: k in Without(order, key) ==> k in order
  {
    if order != [] {
      var p, last := order[..|order| - 1], order[|order| - 1];
      OrderedWithout(p, at, key);
      var w := Without(p, key);
      forall a | 0 <= a < |w|
        ensures at[w[a]].1 < at[last].1
      {
        assert w[a] in p;
      }
    }
  }

  lemma OrderedPut(order: seq<PairKey>, at: map<PairKey, (PfcpMsg, nat)>, key: PairKey, entry: (PfcpMsg, nat))
    requires OrderedBy(order, at) && key !in order
    requires forall k :: k in at ==> at[k].1 < entry.1
    ensures OrderedBy(order + [key], at[key := entry])
  {
  }

  lemma OrderedPop(order: seq<PairKey>, at: map<PairKey, (PfcpMsg, nat)>, key: PairKey)
    requires OrderedBy(order, at)
    ensures OrderedBy(Without(order, key), at - {key})
  {
    OrderedWithout(order, at, key);
    WithoutMembers(order, key);
    var w := Without(order, key);
    forall a | 0 <= a < |w|
      ensures w[a] in at - {key}
    {
      assert w[a] in (set x | x in w);
    }
  }

  lemma TracksStep(msgs: seq<PfcpMsg>, n: nat, at: map<PairKey, (PfcpMsg, nat)>, key: PairKey)
    requires n < |msgs| && Tracks(msgs, n, at, key)
    ensures var m := msgs[n];
            var at' := if IsRequest(m) && KeyOf(m) !in at then at[KeyOf(m) := (m, n)]
                       else if IsResponse(m) then at - {KeyOf(m)} else at;
            Tracks(msgs, n + 1, at', key)
  {
    PendingAppend(msgs, n, key);
    hide Pending, KeyOf;
  }

  lemma PendingStep(msgs: seq<PfcpMsg>, n: nat, pending: Dict<PairKey, (PfcpMsg, nat)>)
    requires n < |msgs| && PendingBook(msgs, n, pending)
    ensures pending.Valid() && Tracks(msgs, n, pending.at, KeyOf(msgs[n]))
    ensures var m, key := msgs[n], KeyOf(msgs[n]);
            PendingBook(msgs, n + 1, if IsRequest(m) && key !in pending.at then pending.Put(key, (m, n))
                                     else if IsResponse(m) && key in pending.at then pending.Pop(key) else pending)
  {
    var key := KeyOf(msgs[n]);
    forall k
      ensures Tracks(msgs, n, pending.at, k)
      ensures k in pending.at ==> pending.at[k].1 < n
    {
    }
    if IsRequest(msgs[n]) && key !in pending.at {
      assert key !in (set k | k in pending.order);
      OrderedPut(pending.order, pending.at, key, (msgs[n], n));
    } else {
      OrderedPop(pending.order, pending.at, key);
      if key !in pending.at {
        assert pending.at - {key} == pending.at;
      }
    }
    forall k {:trigger Tracks(msgs, n, pending.at, k)}
      ensures var m := msgs[n];
              var at' := if IsRequest(m) && key !in pending.at then pending.at[key := (m, n)]
                         else if IsResponse(m) then pending.at - {key} else pending.at;
              Tracks(msgs, n + 1, at', k)
    {
      TracksStep(msgs, n, pending.at, k);
    }
    hide Pending, IsRequest, IsResponse, KeyOf, Tracks, OrderedBy;
  }

  lemma PendingEnd(msgs: seq<PfcpMsg>, pending: Dict<PairKey, (PfcpMsg, nat)>)
    requires PendingBook(msgs, |msgs|, pending)
    ensures pending.Valid()
    ensures Indices(pending.Values()) == PendingBelow(msgs, |msgs|, |msgs|)
    ensures forall a :: 0 <= a < |pending.Values()| ==> IsSendOf(msgs, pending.Values()[a])
  {
    var left, n := pending.Values(), |msgs|;
    var sends, below := Indices(left), PendingBelow(msgs, n, n);
    forall a | 0 <= a < |left|
      ensures IsSendOf(msgs, left[a]) && sends[a] in below
    {
      EntryIsPending(msgs, pending, a);
    }
    forall i: nat | i in below
      ensures i in sends
    {
      PendingIsListed(msgs, pending, i);
    }
    PendingIncreasing(msgs, pending);
    hide *;
    SameSends(sends, below);
  }

  lemma PendingIncreasing(msgs: seq<PfcpMsg>, pending: Dict<PairKey, (PfcpMsg, nat)>)
    requires PendingBook(msgs, |msgs|, pending)
    ensures Increasing(Indices(pending.Values()))
  {
    hide Tracks;
  }

  lemma SameSends(sends: seq<nat>, below: seq<nat>)
    requires Increasing(sends) && Increasing(below)
    requires forall a :: 0 <= a < |sends| ==> sends[a] in below
    requires forall i :: i in below ==> i in sends
    ensures sends == below
  {
    forall i | i in sends
      ensures i in below
    {
      var a :| 0 <= a < |sends| && sends[a] == i;
    }
    IncreasingUnique(sends, below);
  }

  lemma EntryIsPending(msgs: seq<PfcpMsg>, pending: Dict<PairKey, (PfcpMsg, nat)>, a: nat)
    requires PendingBook(msgs, |msgs|, pending) && a < |pending.order|
    ensures IsSendOf(msgs, pending.Values()[a])
    ensures Indices(pending.Values())[a] in PendingBelow(msgs, |msgs|, |msgs|)
  {
    hide PendingBook, Pending, PendingBelow, IsRequest, KeyOf;
    BookEntry(msgs, pending, a);
    var entry := pending.at[pending.order[a]];
    assert pending.Values()[a] == entry && IsSendOf(msgs, entry);
    assert Indices(pending.Values())[a] == entry.1;
  }

  lemma BookEntry(msgs: seq<PfcpMsg>, pending: Dict<PairKey, (PfcpMsg, nat)>, a: nat)
    requires PendingBook(msgs, |msgs|, pending) && a < |pending.order|
    ensures pending.Valid() && pending.order[a] in pending.at
    ensures var (m, i) := pending.at[pending.order[a]];
            Pending(msgs, pending.order[a], |msgs|) == Some(i) && m == msgs[i]
  {
    assert Tracks(msgs, |msgs|, pending.at, pending.order[a]);
    hide Pending;
  }

  lemma PendingIsListed(msgs: seq<PfcpMsg>, pending: Dict<PairKey, (PfcpMsg, nat)>, i: nat)
    requires PendingBook(msgs, |msgs|, pending)
    requires i < |msgs| && Pending(msgs, KeyOf(msgs[i]), |msgs|) == Some(i)
    ensures i in Indices(pending.Values())
  {
    var key := KeyOf(msgs[i]);
    assert Tracks(msgs, |msgs|, pending.at, key);
    assert key in (set k | k in pending.order);
    var a :| 0 <= a < |pending.order| && pending.order[a] == key;
    assert Indices(pending.Values())[a] == i;
    hide Pending;
  }

  // ----- What the result means -----

  lemma AnswersIffPending(msgs: seq<PfcpMsg>, i: nat, j: nat)
    ensures Answers(msgs, i, j) <==>
            j < |msgs| && IsResponse(msgs[j]) && Pending(msgs, KeyOf(msgs[j]), j) == Some(i)
  {
    if j < |msgs| {
      PendingMeaning(msgs, KeyOf(msgs[j]), j, i);
    }
    hide Pending, IsRequest, IsResponse, KeyOf, Idle;
  }

  /** A response answers one request and a request is answered by one response. */
  lemma AnswersIsOneToOne(msgs: seq<PfcpMsg>, i: nat, j: nat, i': nat, j': nat)
    requires Answers(msgs, i, j) && Answers(msgs, i', j')
    ensures i == i' <==> j == j'
  {
    AnswersIffPending(msgs, i, j);
    AnswersIffPending(msgs, i', j');
    RequestIsNoResponse();
    hide Pending, KeyOf, IsRequest, IsResponse, Idle;
  }

  /** Every first send is answered or times out, and not both. */
  lemma {:induction false} FirstSendEndsOneWay(msgs: seq<PfcpMsg>, i: nat, n: nat)
    requires FirstSend(msgs, i) && i < n <= |msgs|
    ensures !Unbroken(msgs, i, n) <==> exists j: nat :: j < n && Answers(msgs, i, j)
    decreases n
  {
    RequestIsNoResponse();
    hide KeyOf, IsRequest, IsResponse, Idle;
    if n == i + 1 {
      assert Unbroken(msgs, i, n);
    } else {
      FirstSendEndsOneWay(msgs, i, n - 1);
      if Unbroken(msgs, i, n - 1) && !Unbroken(msgs, i, n) {
        assert Answers(msgs, i, n - 1);
      }
    }
  }

  ghost predicate IsAnswered(msgs: seq<PfcpMsg>, p: N4Procedure) {
    p.rspIndex.Some? && Answers(msgs, p.reqIndex, p.rspIndex.value)
    && p == AnsweredAt(msgs, p.reqIndex, p.rspIndex.value)
  }

  ghost predicate IsTimeout(msgs: seq<PfcpMsg>, p: N4Procedure) {
    TimesOut(msgs, p.reqIndex) && p == TimedOut(msgs[p.reqIndex], p.reqIndex)
  }

  lemma {:induction false} AnsweredMeaning(msgs: seq<PfcpMsg>, n: nat)
    requires n <= |msgs|
    ensures forall p :: p in AnsweredUpTo(msgs, n) <==> IsAnswered(msgs, p) && p.rspIndex.value < n
    ensures Distinct(AnsweredUpTo(msgs, n))
  {
    if n > 0 {
      AnsweredMeaning(msgs, n - 1);
      AnsweredStep(msgs, n - 1);
      var m, s := msgs[n - 1], AnsweredUpTo(msgs, n - 1);
      forall p: N4Procedure
        ensures p in AnsweredUpTo(msgs, n) <==> IsAnswered(msgs, p) && p.rspIndex.value < n
      {
        AnswersIffPending(msgs, p.reqIndex, n - 1);
      }
      assert forall a :: 0 <= a < |s| ==> s[a] in s && s[a].rspIndex.value < n - 1;
    }
    hide Answers, Pending, KeyOf, IsRequest, IsResponse, FirstSend;
  }

  lemma TimeoutsAreUnpaired(msgs: seq<PfcpMsg>)
    ensures forall i :: i in PendingBelow(msgs, |msgs|, |msgs|) <==> TimesOut(msgs, i)
  {
    forall i
      ensures i in PendingBelow(msgs, |msgs|, |msgs|) <==> TimesOut(msgs, i)
    {
      TimeoutIffPending(msgs, i);
    }
    hide Pending, KeyOf, IsRequest, FirstSend, Unbroken;
  }

  lemma TimeoutMeaning(msgs: seq<PfcpMsg>, sends: seq<nat>)
    requires forall i :: i in sends ==> i < |msgs| && IsRequest(msgs[i])
    requires Increasing(sends) && forall i :: i in sends <==> TimesOut(msgs, i)
    ensures forall p :: p in Timeouts(msgs, sends) <==> IsTimeout(msgs, p)
    ensures Distinct(Timeouts(msgs, sends))
  {
    var ps := Timeouts(msgs, sends);
    hide KeyOf, IsRequest, FirstSend, Unbroken;
    forall p | IsTimeout(msgs, p)
      ensures p in ps
    {
      var a :| 0 <= a < |sends| && sends[a] == p.reqIndex;
      assert ps[a] == p;
    }
    assert forall a :: 0 <= a < |ps| ==> ps[a].reqIndex == sends[a];
  }

  lemma TimeoutIffPending(msgs: seq<PfcpMsg>, i: nat)
    ensures TimesOut(msgs, i) <==>
            i < |msgs| && IsRequest(msgs[i]) && Pending(msgs, KeyOf(msgs[i]), |msgs|) == Some(i)
  {
    if i < |msgs| {
      PendingMeaning(msgs, KeyOf(msgs[i]), |msgs|, i);
    }
  }

  lemma AllDistinct(msgs: seq<PfcpMsg>)
    ensures forall p :: p in AllProcedures(msgs) <==> IsOutput(msgs, p)
    ensures Distinct(AllProcedures(msgs))
  {
    var answered, timeouts := AnsweredUpTo(msgs, |msgs|), Timeouts(msgs, PendingBelow(msgs, |msgs|, |msgs|));
    AnsweredMeaning(msgs, |msgs|);
    TimeoutsAreUnpaired(msgs);
    TimeoutMeaning(msgs, PendingBelow(msgs, |msgs|, |msgs|));
    assert forall p :: p in AllProcedures(msgs) <==> p in answered || p in timeouts;
    assert forall p :: IsAnswered(msgs, p) ==> !IsTimeout(msgs, p);
    assert forall a :: 0 <= a < |answered| ==> answered[a] in answered;
    assert forall a :: 0 <= a < |timeouts| ==> timeouts[a] in timeouts;
    hide AnsweredUpTo, PendingBelow, Timeouts, IsTimeout, IsAnswered;
  }

  /** The main result. The returned procedures are exactly the answered and the timed-out
      first sends, one for each first send, sorted by start time. */
  lemma PairingIsExact(msgs: seq<PfcpMsg>)
    ensures var ps := Sort(ByStart, AllProcedures(msgs));
            && (forall p :: p in ps <==> IsOutput(msgs, p))
            && (forall i :: FirstSend(msgs, i) <==> exists p :: p in ps && p.reqIndex == i)
            && (forall p, q :: p in ps && q in ps && p.reqIndex == q.reqIndex ==> p == q)
            && (forall p, q :: p in ps && q in ps && p.rspIndex.Some? && p.rspIndex == q.rspIndex ==> p == q)
            && (forall p :: p in ps && p.rspIndex.Some? ==> p.reqIndex < p.rspIndex.value)
            && Distinct(ps) && Sorted(ByStart, ps)
            && forall t: N4Procedure :: EqualTo(ByStart, t, ps) == EqualTo(ByStart, t, AllProcedures(msgs))
  {
    var all := AllProcedures(msgs);
    var ps := Sort(ByStart, all);
    SortIsStable(ByStart, all);
    SortMembers(ByStart, all);
    AllDistinct(msgs);
    SortIsDistinct(ByStart, all);
    hide AllProcedures, Sort, Sorted, EqualTo, Answers, TimesOut, AnsweredBy, TimedOut, FirstSend, IsTimeout,
         IsAnswered;
    forall p, q | p in ps && q in ps
      ensures p.reqIndex == q.reqIndex ==> p == q
      ensures p.rspIndex.Some? && p.rspIndex == q.rspIndex ==> p == q
      ensures p.rspIndex.Some? ==> p.reqIndex < p.rspIndex.value
    {
      OneProcedureEach(msgs, p, q);
    }
    forall i
      ensures FirstSend(msgs, i) <==> exists p :: p in ps && p.reqIndex == i
    {
      EveryFirstSend(msgs, i);
    }
  }

  ghost predicate IsOutput(msgs: seq<PfcpMsg>, p: N4Procedure) {
    IsAnswered(msgs, p) || IsTimeout(msgs, p)
  }

  lemma OneProcedureEach(msgs: seq<PfcpMsg>, p: N4Procedure, q: N4Procedure)
    requires IsOutput(msgs, p) && IsOutput(msgs, q)
    ensures p.reqIndex == q.reqIndex ==> p == q
    ensures p.rspIndex.Some? && p.rspIndex == q.rspIndex ==> p == q
    ensures p.rspIndex.Some? ==> p.reqIndex < p.rspIndex.value
  {
    if IsAnswered(msgs, p) && IsAnswered(msgs, q) {
      AnswersIsOneToOne(msgs, p.reqIndex, p.rspIndex.value, q.reqIndex, q.rspIndex.value);
    } else if IsAnswered(msgs, p) {
      FirstSendEndsOneWay(msgs, p.reqIndex, |msgs|);
    } else if IsAnswered(msgs, q) {
      FirstSendEndsOneWay(msgs, q.reqIndex, |msgs|);
    }
    hide FirstSend, Unbroken, KeyOf, IsRequest, IsResponse, AnsweredBy;
  }

  lemma EveryFirstSend(msgs: seq<PfcpMsg>, i: nat)
    ensures FirstSend(msgs, i) <==> exists p :: IsOutput(msgs, p) && p.reqIndex == i
  {
    if FirstSend(msgs, i) {
      FirstSendEndsOneWay(msgs, i, |msgs|);
      if j: nat :| j < |msgs| && Answers(msgs, i, j) {
        assert IsOutput(msgs, AnsweredAt(msgs, i, j));
      } else {
        assert IsOutput(msgs, TimedOut(msgs[i], i));
      }
    }
    hide Unbroken, Idle, KeyOf, IsRequest, IsResponse;
  }

  /** The recorded kind is looked up from the response's type: it is the request's kind exactly
      when the response's type is the request's type plus one. */
  lemma KindFollowsResponse(msgs: seq<PfcpMsg>, i: nat, j: nat)
    requires Answers(msgs, i, j)
    ensures AnsweredAt(msgs, i, j).kind == REQ_KIND[msgs[i].msgType.value] <==>
            msgs[j].msgType.value == msgs[i].msgType.value + 1
  {
    KindsDiffer(msgs[i].msgType.value, msgs[j].msgType.value - 1);
  }

  lemma KindsDiffer(a: int, b: int)
    requires a in REQ_KIND && b in REQ_KIND
    ensures REQ_KIND[a] == REQ_KIND[b] <==> a == b
  {
  }

  /** Such a response exists: type 51 answers a modification request of the same key and
      the procedure is recorded as an establishment. */
  lemma KindMayDiffer(req: PfcpMsg, rsp: PfcpMsg)
    requires req.msgType == Some(52) && rsp.msgType == Some(51) && req.unparsed == rsp.unparsed == None
    requires Returns(rsp, req)
    ensures Answers([req, rsp], 0, 1)
    ensures AnsweredAt([req, rsp], 0, 1).kind == "session_establishment"
  {
    var msgs := [req, rsp];
    assert Quiet(msgs, KeyOf(req), -1, 0);
  }

  // ----- The result, stated on the messages -----

  /** A readable request of a known type. */
  ghost predicate Sends(m: PfcpMsg) {
    (m.unparsed == None || m.unparsed == Some("")) && m.msgType.Some? && KindName(m.msgType.value).Some?
  }

  /** A readable response: the types follow those of the requests. */
  ghost predicate Replies(m: PfcpMsg) {
    (m.unparsed == None || m.unparsed == Some("")) && m.msgType.Some? && KindName(m.msgType.value - 1).Some?
  }

  ghost function KindName(request: int): Option<string> {
    match request
    case 1 => Some("heartbeat")
    case 3 => Some("pfd_management")
    case 5 => Some("association_setup")
    case 7 => Some("association_update")
    case 9 => Some("association_release")
    case 12 => Some("node_report")
    case 14 => Some("session_set_deletion")
    case 50 => Some("session_establishment")
    case 52 => Some("session_modification")
    case 54 => Some("session_deletion")
    case 56 => Some("session_report")
    case _ => None
  }

  /** The response has the request's number and travels its path in reverse. */
  ghost predicate Returns(rsp: PfcpMsg, req: PfcpMsg) {
    && rsp.seqNum == req.seqNum
    && rsp.srcIp == req.dstIp && rsp.srcPort == req.dstPort && rsp.dstIp == req.srcIp && rsp.dstPort == req.srcPort
  }

  /** The message has the number and the path of the request. */
  ghost predicate Repeats(m: PfcpMsg, req: PfcpMsg) {
    && m.seqNum == req.seqNum
    && m.srcIp == req.srcIp && m.srcPort == req.srcPort && m.dstIp == req.dstIp && m.dstPort == req.dstPort
  }

  /** The request at i is the message between h and n that a response returns to. */
  ghost predicate ReturnedTo(msgs: seq<PfcpMsg>, i: nat, h: int, n: nat)
    requires i < |msgs| && -1 <= h && n <= |msgs|
  {
    exists k :: h < k < n && Replies(msgs[k]) && Returns(msgs[k], msgs[i])
  }

  /** No retransmission: every earlier send of the request has been answered since. */
  ghost predicate SentFirst(msgs: seq<PfcpMsg>, i: nat) {
    && i < |msgs| && Sends(msgs[i])
    && forall h :: 0 <= h < i && Sends(msgs[h]) && Repeats(msgs[h], msgs[i]) ==> ReturnedTo(msgs, i, h, i)
  }

  /** The response at j is the first that returns to the request sent first at i. */
  ghost predicate Exchanged(msgs: seq<PfcpMsg>, i: nat, j: nat) {
    && SentFirst(msgs, i) && i < j < |msgs| && Replies(msgs[j]) && Returns(msgs[j], msgs[i])
    && !ReturnedTo(msgs, i, i, j)
  }

  ghost predicate Lost(msgs: seq<PfcpMsg>, i: nat) {
    SentFirst(msgs, i) && !ReturnedTo(msgs, i, i, |msgs|)
  }

  /** An exchange takes its times and names from both messages, and the rest from the response. */
  ghost predicate TellsExchange(p: N4Procedure, msgs: seq<PfcpMsg>, i: nat, j: nat) {
    && i < |msgs| && j < |msgs| && p.reqIndex == i && p.rspIndex == Some(j)
    && p.startTs == msgs[i].ts && p.startMsg == msgs[i].name && p.endTs == msgs[j].ts && p.endMsg == msgs[j].name
    && p.cause == msgs[j].cause && p.causeName == msgs[j].causeName
    && (p.outcome == Unknown <==> p.cause == None)
    && (p.outcome == Accept <==> p.cause in {Some(1), Some(2), Some(3)}) && p.outcome != Timeout
    && msgs[j].msgType.Some? && Some(p.kind) == KindName(msgs[j].msgType.value - 1)
  }

  ghost predicate TellsLoss(p: N4Procedure, msgs: seq<PfcpMsg>, i: nat) {
    && i < |msgs| && p.reqIndex == i && p.rspIndex == None
    && p.startTs == msgs[i].ts && p.startMsg == msgs[i].name && p.endTs == msgs[i].ts && p.endMsg == None
    && p.outcome == Timeout && p.cause == None && p.causeName == None
    && msgs[i].msgType.Some? && Some(p.kind) == KindName(msgs[i].msgType.value)
  }

  /** One procedure for each exchange and each lost request, and no other. */
  ghost predicate Pairs(msgs: seq<PfcpMsg>, ps: seq<N4Procedure>) {
    && (forall i: nat, j: nat :: Exchanged(msgs, i, j) <==> exists p :: p in ps && TellsExchange(p, msgs, i, j))
    && (forall i: nat :: Lost(msgs, i) <==> exists p :: p in ps && TellsLoss(p, msgs, i))
    && (forall p :: p in ps ==>
          if p.rspIndex.Some? then TellsExchange(p, msgs, p.reqIndex, p.rspIndex.value)
          else TellsLoss(p, msgs, p.reqIndex))
    && Distinct(ps) && forall a, b :: 0 <= a < b < |ps| ==> ps[a].startTs <= ps[b].startTs
  }

  lemma TypesAgree(m: PfcpMsg)
    ensures IsRequest(m) <==> Sends(m)
    ensures IsResponse(m) <==> Replies(m)
    ensures Sends(m) ==> KindName(m.msgType.value) == Some(REQ_KIND[m.msgType.value])
    ensures Replies(m) ==> KindName(m.msgType.value - 1) == Some(REQ_KIND[m.msgType.value - 1])
  {
  }

  lemma KeysAgree(m: PfcpMsg, req: PfcpMsg)
    requires Sends(req)
    ensures IsRequest(m) ==> (KeyOf(m) == KeyOf(req) <==> Repeats(m, req))
    ensures IsResponse(m) ==> (KeyOf(m) == KeyOf(req) <==> Returns(m, req))
  {
    TypesAgree(m);
    TypesAgree(req);
    hide Sends, Replies;
  }

  /** After a send of the request, the run of sends is unbroken until a response returns. */
  lemma UnbrokenMeans(msgs: seq<PfcpMsg>, i: nat, n: nat)
    requires i < n <= |msgs| && Sends(msgs[i])
    ensures Unbroken(msgs, i, n) <==> !ReturnedTo(msgs, i, i, n)
  {
    RequestIsNoResponse();
    forall k | i < k < n
      ensures IsResponse(msgs[k]) <==> Replies(msgs[k])
      ensures IsResponse(msgs[k]) ==> (KeyOf(msgs[k]) == KeyOf(msgs[i]) <==> Returns(msgs[k], msgs[i]))
    {
      TypesAgree(msgs[k]);
      KeysAgree(msgs[k], msgs[i]);
    }
    hide KeyOf, IsRequest, IsResponse, Sends, Replies, Returns;
  }

  lemma ReturnedAppend(msgs: seq<PfcpMsg>, i: nat, h: int, n: nat)
    requires i < |msgs| && 0 <= h < n <= |msgs|
    ensures ReturnedTo(msgs, i, h, n) <==>
            ReturnedTo(msgs, i, h, n - 1) || (h < n - 1 && Replies(msgs[n - 1]) && Returns(msgs[n - 1], msgs[i]))
  {
    hide Replies, Returns;
    if h < n - 1 && Replies(msgs[n - 1]) && Returns(msgs[n - 1], msgs[i]) {
      assert Replies(msgs[n - 1]);
    }
    if k :| h < k < n - 1 && Replies(msgs[k]) && Returns(msgs[k], msgs[i]) {
      assert Replies(msgs[k]);
    }
  }

  /** Every send of the request before n has been answered by then. */
  ghost predicate Settled(msgs: seq<PfcpMsg>, i: nat, n: nat)
    requires i < |msgs| && n <= |msgs|
  {
    forall h :: 0 <= h < n && Sends(msgs[h]) && Repeats(msgs[h], msgs[i]) ==> ReturnedTo(msgs, i, h, n)
  }

  lemma SettledAppend(msgs: seq<PfcpMsg>, i: nat, n: nat)
    requires i < |msgs| && 0 < n <= |msgs|
    ensures var m := msgs[n - 1];
            Settled(msgs, i, n) <==>
            if Replies(m) && Returns(m, msgs[i]) then !(Sends(m) && Repeats(m, msgs[i]))
            else Settled(msgs, i, n - 1) && !(Sends(m) && Repeats(m, msgs[i]))
  {
    var m := msgs[n - 1];
    forall h | 0 <= h < n
      ensures ReturnedTo(msgs, i, h, n) <==>
              ReturnedTo(msgs, i, h, n - 1) || (h < n - 1 && Replies(m) && Returns(m, msgs[i]))
    {
      ReturnedAppend(msgs, i, h, n);
    }
    assert !ReturnedTo(msgs, i, n - 1, n - 1) && !ReturnedTo(msgs, i, n - 1, n);
    hide Replies, Returns, Sends, Repeats, ReturnedTo;
  }

  /** The key is idle when every send of the request has been answered. */
  lemma {:induction false} IdleMeans(msgs: seq<PfcpMsg>, i: nat, n: nat)
    requires i < |msgs| && n <= |msgs| && Sends(msgs[i])
    ensures Idle(msgs, KeyOf(msgs[i]), n) <==> Settled(msgs, i, n)
  {
    var key := KeyOf(msgs[i]);
    if n > 0 {
      var m := msgs[n - 1];
      IdleMeans(msgs, i, n - 1);
      SettledAppend(msgs, i, n);
      TypesAgree(m);
      KeysAgree(m, msgs[i]);
      RequestIsNoResponse();
      hide Sends, Replies, Returns, Repeats, KeyOf, IsRequest, IsResponse, Settled;
      if !Relevant(m, key) {
        IdleSkip(msgs, key, n);
      } else if IsResponse(m) {
        assert Quiet(msgs, key, n - 1, n);
      } else {
        IdleNotAfterRequest(msgs, key, n);
      }
    }
  }

  lemma RequestOnTheWire(msgs: seq<PfcpMsg>, i: nat, j: nat)
    ensures Answers(msgs, i, j) <==> Exchanged(msgs, i, j)
    ensures TimesOut(msgs, i) <==> Lost(msgs, i)
  {
    hide Idle, KeyOf, Unbroken, ReturnedTo, Sends, Replies, Returns, IsRequest, IsResponse;
    if i < |msgs| {
      TypesAgree(msgs[i]);
      if Sends(msgs[i]) {
        IdleMeans(msgs, i, i);
        UnbrokenMeans(msgs, i, |msgs|);
        if i < j < |msgs| {
          TypesAgree(msgs[j]);
          KeysAgree(msgs[j], msgs[i]);
          UnbrokenMeans(msgs, i, j);
        }
      }
    }
  }

  lemma LostAreUnpaired(msgs: seq<PfcpMsg>)
    ensures forall i :: i in PendingBelow(msgs, |msgs|, |msgs|) <==> Lost(msgs, i)
  {
    hide *;
    TimeoutsAreUnpaired(msgs);
    forall i: nat
      ensures TimesOut(msgs, i) <==> Lost(msgs, i)
    {
      RequestOnTheWire(msgs, i, i);
    }
  }

  lemma RecordsTell(msgs: seq<PfcpMsg>, p: N4Procedure)
    ensures IsAnswered(msgs, p) <==> p.rspIndex.Some? && Answers(msgs, p.reqIndex, p.rspIndex.value)
                                     && TellsExchange(p, msgs, p.reqIndex, p.rspIndex.value)
    ensures IsTimeout(msgs, p) <==> TimesOut(msgs, p.reqIndex) && TellsLoss(p, msgs, p.reqIndex)
  {
    hide Idle, Unbroken, KeyOf;
    if p.reqIndex < |msgs| {
      TypesAgree(msgs[p.reqIndex]);
      if p.rspIndex.Some? && p.rspIndex.value < |msgs| {
        TypesAgree(msgs[p.rspIndex.value]);
      }
    }
    hide KindName, IsRequest, IsResponse;
  }

  lemma ExchangeIsRecorded(msgs: seq<PfcpMsg>, ps: seq<N4Procedure>, i: nat, j: nat)
    requires forall p :: p in ps <==> IsOutput(msgs, p)
    ensures Exchanged(msgs, i, j) <==> exists p :: p in ps && TellsExchange(p, msgs, i, j)
  {
    RequestOnTheWire(msgs, i, j);
    hide TimesOut, Exchanged, IsTimeout, TellsExchange, FirstSend, Unbroken, KeyOf, IsRequest, IsResponse;
    if Exchanged(msgs, i, j) {
      assert IsAnswered(msgs, AnsweredAt(msgs, i, j));
      RecordsTell(msgs, AnsweredAt(msgs, i, j));
    }
    if p :| p in ps && TellsExchange(p, msgs, i, j) {
      ExchangeFields(p, msgs, i, j);
      RecordsTell(msgs, p);
    }
  }

  lemma ExchangeFields(p: N4Procedure, msgs: seq<PfcpMsg>, i: nat, j: nat)
    requires TellsExchange(p, msgs, i, j)
    ensures p.reqIndex == i && p.rspIndex == Some(j)
  {
  }

  lemma LossIsRecorded(msgs: seq<PfcpMsg>, ps: seq<N4Procedure>, i: nat)
    requires forall p :: p in ps <==> IsOutput(msgs, p)
    ensures Lost(msgs, i) <==> exists p :: p in ps && TellsLoss(p, msgs, i)
  {
    RequestOnTheWire(msgs, i, i);
    hide Answers, Lost, TellsLoss, Unbroken, KeyOf, IsRequest, IsResponse, Idle;
    if Lost(msgs, i) {
      assert IsTimeout(msgs, TimedOut(msgs[i], i));
      RecordsTell(msgs, TimedOut(msgs[i], i));
    }
    if p :| p in ps && TellsLoss(p, msgs, i) {
      LossFields(p, msgs, i);
      RecordsTell(msgs, p);
    }
  }

  lemma LossFields(p: N4Procedure, msgs: seq<PfcpMsg>, i: nat)
    requires TellsLoss(p, msgs, i)
    ensures p.reqIndex == i && p.rspIndex == None
  {
  }

  /** The result is what the messages say. */
  lemma ResultPairs(msgs: seq<PfcpMsg>)
    ensures Pairs(msgs, Sort(ByStart, AllProcedures(msgs)))
  {
    hide *;
    var ps := Sort(ByStart, AllProcedures(msgs));
    PairingIsExact(msgs);
    forall i: nat, j: nat
      ensures Exchanged(msgs, i, j) <==> exists p :: p in ps && TellsExchange(p, msgs, i, j)
    {
      ExchangeIsRecorded(msgs, ps, i, j);
    }
    forall i: nat
      ensures Lost(msgs, i) <==> exists p :: p in ps && TellsLoss(p, msgs, i)
    {
      LossIsRecorded(msgs, ps, i);
    }
    forall p | p in ps
      ensures if p.rspIndex.Some? then TellsExchange(p, msgs, p.reqIndex, p.rspIndex.value)
              else TellsLoss(p, msgs, p.reqIndex)
    {
      OutputTells(msgs, p);
    }
    SortedStarts(ps);
    PairsIs(msgs, ps);
  }

  lemma SortedStarts(ps: seq<N4Procedure>)
    requires Sorted(ByStart, ps)
    ensures forall a, b :: 0 <= a < b < |ps| ==> ps[a].startTs <= ps[b].startTs
  {
  }

  lemma PairsIs(msgs: seq<PfcpMsg>, ps: seq<N4Procedure>)
    requires forall i: nat, j: nat :: Exchanged(msgs, i, j) <==> exists p :: p in ps && TellsExchange(p, msgs, i, j)
    requires forall i: nat :: Lost(msgs, i) <==> exists p :: p in ps && TellsLoss(p, msgs, i)
    requires forall p :: p in ps ==>
               if p.rspIndex.Some? then TellsExchange(p, msgs, p.reqIndex, p.rspIndex.value)
               else TellsLoss(p, msgs, p.reqIndex)
    requires Distinct(ps) && forall a, b :: 0 <= a < b < |ps| ==> ps[a].startTs <= ps[b].startTs
    ensures Pairs(msgs, ps)
  {
    hide Exchanged, Lost, TellsExchange, TellsLoss, Distinct;
  }

  lemma OutputTells(msgs: seq<PfcpMsg>, p: N4Procedure)
    requires IsOutput(msgs, p)
    ensures if p.rspIndex.Some? then TellsExchange(p, msgs, p.reqIndex, p.rspIndex.value)
            else TellsLoss(p, msgs, p.reqIndex)
  {
    RecordsTell(msgs, p);
    hide Answers, TimesOut, TellsExchange;
  }
}
