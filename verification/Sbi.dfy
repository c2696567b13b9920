/** SBI request/response pairing by (connection, stream) (5gcap/fivegcap/sbi.py:345-381). */
module Sbi {
  import opened Common
  import opened Dicts
  import opened StableSort

  datatype Direction = Request | Response

  type Conn = set<(string, int)>

  datatype SbiMsg = SbiMsg(
    ts: real, streamId: int, direction: Direction, httpMethod: Option<string>, path: Option<string>,
    status: Option<int>, name: Option<string>, supi: Option<string>, pduSessionId: Option<int>,
    unparsed: Option<string>, conn: Option<Conn>, dstIp: Option<string>)

  datatype Outcome = Accept | Reject | Timeout

  datatype SbiProcedure = SbiProcedure(
    kind: string, startTs: real, endTs: real, httpMethod: Option<string>, path: Option<string>,
    outcome: Outcome, status: Option<int>, conn: Conn, streamId: int)

  type StreamKey = (Conn, int)

  ghost predicate Readable(m: SbiMsg) {
    !Truthy(m.unparsed) && m.conn.Some?
  }

  ghost predicate OnStream(m: SbiMsg, key: StreamKey) {
    m.conn == Some(key.0) && m.streamId == key.1
  }

  /** The last readable message of the direction on the stream. */
  ghost function LastOn(msgs: seq<SbiMsg>, d: Direction, key: StreamKey): (r: Option<SbiMsg>)
    ensures r.Some? ==> r.value in msgs && Readable(r.value) && r.value.direction == d && OnStream(r.value, key)
    ensures r.None? ==> forall m :: m in msgs && Readable(m) && m.direction == d ==> !OnStream(m, key)
  {
    if msgs == [] then None
    else
      var p, m := msgs[..|msgs| - 1], msgs[|msgs| - 1];
      assert forall x :: x in msgs <==> x in p || x == m;
      if Readable(m) && m.direction == d && OnStream(m, key) then Some(m) else LastOn(p, d, key)
  }

  function GetOr<T>(o: Option<T>, default: T): T {
    if o.Some? then o.value else default
  }

  function ProcedureOf(req: SbiMsg, rsp: Option<SbiMsg>, key: StreamKey): SbiProcedure {
    var kind := if Truthy(req.name) then req.name.value else "unknown";
    match rsp
    case None => SbiProcedure(kind, req.ts, req.ts, req.httpMethod, req.path, Timeout, None, key.0, key.1)
    case Some(r) =>
      SbiProcedure(kind, req.ts, r.ts, req.httpMethod, req.path,
                   if 200 <= GetOr(r.status, 0) < 300 then Accept else Reject, r.status, key.0, key.1)
  }

  /** p pairs the last request of its stream with the stream's last response, if any. */
  ghost predicate IsPaired(msgs: seq<SbiMsg>, p: SbiProcedure) {
    var key := (p.conn, p.streamId);
    LastOn(msgs, Request, key).Some?
    && p == ProcedureOf(LastOn(msgs, Request, key).value, LastOn(msgs, Response, key), key)
  }

  /** The index of the first readable request on the connection. */
  ghost function FirstOnConn(msgs: seq<SbiMsg>, conn: Conn): (r: Option<nat>)
    ensures r.Some? ==> r.value < |msgs|
  {
    if msgs == [] then None
    else
      var p, m := msgs[..|msgs| - 1], msgs[|msgs| - 1];
      if FirstOnConn(p, conn).Some? then FirstOnConn(p, conn)
      else if Readable(m) && m.direction == Request && m.conn == Some(conn) then Some(|p|) else None
  }

  /** The index of the first readable request on the stream. */
  ghost function FirstOn(msgs: seq<SbiMsg>, key: StreamKey): (r: Option<nat>)
    ensures r.Some? ==> r.value < |msgs|
  {
    if msgs == [] then None
    else
      var p, m := msgs[..|msgs| - 1], msgs[|msgs| - 1];
      if FirstOn(p, key).Some? then FirstOn(p, key)
      else if Readable(m) && m.direction == Request && OnStream(m, key) then Some(|p|) else None
  }

  ghost predicate Earlier(x: Option<nat>, y: Option<nat>) {
    x.Some? && y.Some? && x.value < y.value
  }

  /** Connections in the order of their first requests, and the streams of one in the order of theirs. */
  ghost predicate SeenBefore(msgs: seq<SbiMsg>, p: SbiProcedure, q: SbiProcedure) {
    || Earlier(FirstOnConn(msgs, p.conn), FirstOnConn(msgs, q.conn))
    || (p.conn == q.conn && Earlier(FirstOn(msgs, (p.conn, p.streamId)), FirstOn(msgs, (q.conn, q.streamId))))
  }

  predicate ByStart(p: SbiProcedure, q: SbiProcedure) {
    p.startTs <= q.startTs
  }

  type Bucket = Dict<Conn, Dict<int, SbiMsg>>

  function Find(bucket: Bucket, key: StreamKey): Option<SbiMsg> {
    if key.0 in bucket.at && key.1 in bucket.at[key.0].at then Some(bucket.at[key.0].at[key.1]) else None
  }

  ghost predicate BucketValid(bucket: Bucket) {
    bucket.Valid() && forall conn :: conn in bucket.at ==> bucket.at[conn].Valid()
  }

  ghost predicate Holds(bucket: Bucket, msgs: seq<SbiMsg>, d: Direction) {
    BucketValid(bucket) && forall key :: Find(bucket, key) == LastOn(msgs, d, key)
  }

  /** The dictionaries list connections and streams in the order of their first requests. */
  ghost predicate InOrder(bucket: Bucket, msgs: seq<SbiMsg>) {
    && (forall conn :: conn in bucket.at <==> FirstOnConn(msgs, conn).Some?)
    && (forall a, b :: 0 <= a < b < |bucket.order| ==>
          Earlier(FirstOnConn(msgs, bucket.order[a]), FirstOnConn(msgs, bucket.order[b])))
    && forall conn :: conn in bucket.at ==> StreamsInOrder(bucket.at[conn], conn, msgs)
  }

  ghost predicate StreamsInOrder(streams: Dict<int, SbiMsg>, conn: Conn, msgs: seq<SbiMsg>) {
    && (forall sid :: sid in streams.at <==> FirstOn(msgs, (conn, sid)).Some?)
    && forall a, b :: 0 <= a < b < |streams.order| ==>
         Earlier(FirstOn(msgs, (conn, streams.order[a])), FirstOn(msgs, (conn, streams.order[b])))
  }

  function StreamsOf(bucket: Bucket, conn: Conn): (d: Dict<int, SbiMsg>)
    requires BucketValid(bucket)
    ensures d.Valid()
  {
    if conn in bucket.at then bucket.at[conn] else Empty()
  }

  function Store(bucket: Bucket, conn: Conn, m: SbiMsg): Bucket
    requires BucketValid(bucket)
  {
    bucket.Put(conn, StreamsOf(bucket, conn).Put(m.streamId, m))
  }

  lemma StoreFind(bucket: Bucket, conn: Conn, m: SbiMsg)
    requires BucketValid(bucket)
    ensures BucketValid(Store(bucket, conn, m))
    ensures forall key :: Find(Store(bucket, conn, m), key) ==
                          if key == (conn, m.streamId) then Some(m) else Find(bucket, key)
  {
    hide Dict.Valid;
  }

  lemma StoreStep(msgs: seq<SbiMsg>, i: nat, bucket: Bucket, d: Direction)
    requires i < |msgs| && Holds(bucket, msgs[..i], d)
    ensures var m := msgs[i];
            Holds(if Readable(m) && m.direction == d then Store(bucket, m.conn.value, m) else bucket, msgs[..i + 1], d)
  {
    TakeSnoc(msgs, i);
    if Readable(msgs[i]) {
      StoreFind(bucket, msgs[i].conn.value, msgs[i]);
    }
    hide LastOn, Find, BucketValid, Store;
    forall key
      ensures LastOn(msgs[..i + 1], d, key) ==
              if Readable(msgs[i]) && msgs[i].direction == d && OnStream(msgs[i], key) then Some(msgs[i])
              else LastOn(msgs[..i], d, key)
    {
      LastAppend(msgs, i, d, key);
    }
  }

  lemma FirstAppend(msgs: seq<SbiMsg>, i: nat)
    requires i < |msgs|
    ensures var m := msgs[i];
            && (forall conn :: FirstOnConn(msgs[..i + 1], conn) ==
                  if FirstOnConn(msgs[..i], conn).Some? then FirstOnConn(msgs[..i], conn)
                  else if Readable(m) && m.direction == Request && m.conn == Some(conn) then Some(i) else None)
            && (forall key :: FirstOn(msgs[..i + 1], key) ==
                  if FirstOn(msgs[..i], key).Some? then FirstOn(msgs[..i], key)
                  else if Readable(m) && m.direction == Request && OnStream(m, key) then Some(i) else None)
  {
    TakeSnoc(msgs, i);
  }

  /** A stream has a request only if its connection has. */
  lemma {:induction false} StreamNeedsConn(msgs: seq<SbiMsg>, key: StreamKey)
    ensures FirstOn(msgs, key).Some? ==> FirstOnConn(msgs, key.0).Some?
  {
    if msgs != [] {
      StreamNeedsConn(msgs[..|msgs| - 1], key);
    }
  }

  lemma OtherStreams(msgs: seq<SbiMsg>, i: nat, conn: Conn, streams: Dict<int, SbiMsg>)
    requires i < |msgs| && StreamsInOrder(streams, conn, msgs[..i])
    requires !(Readable(msgs[i]) && msgs[i].direction == Request && msgs[i].conn == Some(conn))
    ensures StreamsInOrder(streams, conn, msgs[..i + 1])
  {
    FirstAppend(msgs, i);
    hide FirstOn, FirstOnConn;
  }

  lemma StreamsStep(msgs: seq<SbiMsg>, i: nat, conn: Conn, streams: Dict<int, SbiMsg>)
    requires i < |msgs| && streams.Valid() && StreamsInOrder(streams, conn, msgs[..i])
    requires Readable(msgs[i]) && msgs[i].direction == Request && msgs[i].conn == Some(conn)
    ensures StreamsInOrder(streams.Put(msgs[i].streamId, msgs[i]), conn, msgs[..i + 1])
  {
    hide FirstOn, Dict.Valid, Readable;
    var next := streams.Put(msgs[i].streamId, msgs[i]);
    forall sid
      ensures sid in next.at <==> FirstOn(msgs[..i + 1], (conn, sid)).Some?
      ensures sid in streams.at ==> FirstOn(msgs[..i + 1], (conn, sid)) == FirstOn(msgs[..i], (conn, sid))
    {
      NextOnConn(msgs, i, conn, sid);
    }
    NextOnConn(msgs, i, conn, msgs[i].streamId);
    forall a | 0 <= a < |streams.order|
      ensures streams.order[a] in streams.at && next.order[a] == streams.order[a]
    {
      OrderIsDomain(streams, a);
    }
  }

  lemma NextOnConn(msgs: seq<SbiMsg>, i: nat, conn: Conn, sid: int)
    requires i < |msgs| && Readable(msgs[i]) && msgs[i].direction == Request && msgs[i].conn == Some(conn)
    ensures FirstOn(msgs[..i + 1], (conn, sid)) ==
            if FirstOn(msgs[..i], (conn, sid)).Some? then FirstOn(msgs[..i], (conn, sid))
            else if sid == msgs[i].streamId then Some(i) else None
  {
    FirstAppend(msgs, i);
    hide FirstOn, FirstOnConn;
  }

  lemma OrderOfConns(msgs: seq<SbiMsg>, i: nat, bucket: Bucket, conn: Conn)
    requires i < |msgs| && BucketValid(bucket) && InOrder(bucket, msgs[..i])
    requires Readable(msgs[i]) && msgs[i].direction == Request && msgs[i].conn == Some(conn)
    ensures var next := Store(bucket, conn, msgs[i]);
            && (forall c :: c in next.at <==> FirstOnConn(msgs[..i + 1], c).Some?)
            && (forall a, b :: 0 <= a < b < |next.order| ==>
                  Earlier(FirstOnConn(msgs[..i + 1], next.order[a]), FirstOnConn(msgs[..i + 1], next.order[b])))
  {
    hide FirstOnConn, StreamsOf, Dict.Valid, StreamsInOrder, Readable;
    var next := Store(bucket, conn, msgs[i]);
    forall c
      ensures c in next.at <==> FirstOnConn(msgs[..i + 1], c).Some?
      ensures c in bucket.at ==> FirstOnConn(msgs[..i + 1], c) == FirstOnConn(msgs[..i], c)
    {
      NextConn(msgs, i, conn, c);
    }
    NextConn(msgs, i, conn, conn);
    forall a | 0 <= a < |bucket.order|
      ensures bucket.order[a] in bucket.at && next.order[a] == bucket.order[a]
    {
      OrderIsDomain(bucket, a);
    }
  }

  lemma NextConn(msgs: seq<SbiMsg>, i: nat, conn: Conn, c: Conn)
    requires i < |msgs| && Readable(msgs[i]) && msgs[i].direction == Request && msgs[i].conn == Some(conn)
    ensures FirstOnConn(msgs[..i + 1], c) ==
            if FirstOnConn(msgs[..i], c).Some? then FirstOnConn(msgs[..i], c)
            else if c == conn then Some(i) else None
  {
    FirstAppend(msgs, i);
    hide FirstOn, FirstOnConn;
  }

  lemma OrderStep(msgs: seq<SbiMsg>, i: nat, bucket: Bucket)
    requires i < |msgs| && BucketValid(bucket) && InOrder(bucket, msgs[..i])
    ensures var m := msgs[i];
            InOrder(if Readable(m) && m.direction == Request then Store(bucket, m.conn.value, m) else bucket,
                    msgs[..i + 1])
  {
    FirstAppend(msgs, i);
    hide FirstOn, FirstOnConn;
    var m := msgs[i];
    if Readable(m) && m.direction == Request {
      var conn := m.conn.value;
      var streams := StreamsOf(bucket, conn);
      if conn !in bucket.at {
        forall sid
          ensures FirstOn(msgs[..i], (conn, sid)) == None
        {
          StreamNeedsConn(msgs[..i], (conn, sid));
        }
      }
      assert StreamsInOrder(streams, conn, msgs[..i]);
      StreamsStep(msgs, i, conn, streams);
      var next := Store(bucket, conn, m);
      forall c | c in next.at
        ensures StreamsInOrder(next.at[c], c, msgs[..i + 1])
      {
        if c != conn {
          assert StreamsInOrder(bucket.at[c], c, msgs[..i]);
          OtherStreams(msgs, i, c, bucket.at[c]);
        }
      }
      OrderOfConns(msgs, i, bucket, conn);
    } else {
      forall c | c in bucket.at
        ensures StreamsInOrder(bucket.at[c], c, msgs[..i + 1])
      {
        assert StreamsInOrder(bucket.at[c], c, msgs[..i]);
        OtherStreams(msgs, i, c, bucket.at[c]);
      }
    }
  }

  lemma LastAppend(msgs: seq<SbiMsg>, i: nat, d: Direction, key: StreamKey)
    requires i < |msgs|
    ensures LastOn(msgs[..i + 1], d, key) ==
            if Readable(msgs[i]) && msgs[i].direction == d && OnStream(msgs[i], key) then Some(msgs[i])
            else LastOn(msgs[..i], d, key)
  {
    TakeSnoc(msgs, i);
  }

  ghost predicate IsPair(reqs: Bucket, rsps: Bucket, p: SbiProcedure) {
    var key := (p.conn, p.streamId);
    Find(reqs, key).Some? && p == ProcedureOf(Find(reqs, key).value, Find(rsps, key), key)
  }

  /** The procedures made so far are those of the first a connections and, of the next one,
      the first b streams; each stream has one. */
  ghost predicate Made(reqs: Bucket, rsps: Bucket, a: nat, b: nat, ps: seq<SbiProcedure>)
    requires a <= |reqs.order|
  {
    && (forall p :: p in ps <==> IsPair(reqs, rsps, p) && Reached(reqs, a, b, p))
    && forall x, y :: 0 <= x < y < |ps| ==> (ps[x].conn, ps[x].streamId) != (ps[y].conn, ps[y].streamId)
  }

  ghost predicate Reached(reqs: Bucket, a: nat, b: nat, p: SbiProcedure)
    requires a <= |reqs.order|
  {
    || p.conn in reqs.order[..a]
    || (a < |reqs.order| && p.conn == reqs.order[a] && p.conn in reqs.at
        && b <= |reqs.at[p.conn].order| && p.streamId in reqs.at[p.conn].order[..b])
  }

  ghost function TimeoutsIn(ps: seq<SbiProcedure>): set<SbiProcedure> {
    set p | p in ps && p.outcome == Timeout
  }

  method PairProcedures(msgs: seq<SbiMsg>) returns (procedures: seq<SbiProcedure>, unpaired: nat)
    ensures forall p :: p in procedures <==> Tells(msgs, p)
    ensures forall conn, sid, i: nat :: IsLast(msgs, Request, conn, sid, i) ==>
              exists p :: p in procedures && p.conn == conn && p.streamId == sid
    ensures forall x, y :: 0 <= x < y < |procedures| ==>
              (procedures[x].conn, procedures[x].streamId) != (procedures[y].conn, procedures[y].streamId)
    ensures forall x, y :: 0 <= x < y < |procedures| ==> procedures[x].startTs <= procedures[y].startTs
    ensures forall x, y :: 0 <= x < y < |procedures| && procedures[x].startTs == procedures[y].startTs ==>
              SeenBefore(msgs, procedures[x], procedures[y])
    ensures unpaired == |TimeoutsIn(procedures)|
  {
    hide Holds, Store, LastOn, Made, Sort, ProcedureOf, IsPaired, Find, TimeoutsIn, InOrder, Listed, SeenBefore,
         Tells, IsLast;
    var reqs, rsps: Bucket := Empty(), Empty();
    EmptyHolds(msgs);
    for i := 0 to |msgs|
      invariant Holds(reqs, msgs[..i], Request) && Holds(rsps, msgs[..i], Response)
      invariant InOrder(reqs, msgs[..i])
    {
      var m := msgs[i];
      StoreStep(msgs, i, reqs, Request);
      StoreStep(msgs, i, rsps, Response);
      HoldsValid(reqs, msgs[..i], Request);
      HoldsValid(rsps, msgs[..i], Response);
      OrderStep(msgs, i, reqs);
      if !Truthy(m.unparsed) && m.conn.Some? {
        if m.direction == Request {
          reqs := Store(reqs, m.conn.value, m);
        } else {
          rsps := Store(rsps, m.conn.value, m);
        }
      }
    }
    assert msgs[..|msgs|] == msgs;
    HoldsValid(reqs, msgs, Request);
    procedures, unpaired := [], 0;
    NoTimeouts();
    NothingMade(reqs, rsps);
    for a := 0 to |reqs.order|
      invariant Made(reqs, rsps, a, 0, procedures) && unpaired == |TimeoutsIn(procedures)|
      invariant Listed(msgs, procedures)
    {
      var conn := reqs.order[a];
      OrderIsDomain(reqs, a);
      var streams := reqs.at[conn];
      for b := 0 to |streams.order|
        invariant Made(reqs, rsps, a, b, procedures) && unpaired == |TimeoutsIn(procedures)|
        invariant Listed(msgs, procedures)
      {
        var sid := streams.order[b];
        OrderIsDomain(streams, b);
        MakeOne(reqs, rsps, a, b, procedures);
        ListOne(msgs, reqs, rsps, a, b, procedures);
        var rsp := Find(rsps, (conn, sid));
        OneMoreTimeout(procedures, ProcedureOf(streams.at[sid], rsp, (conn, sid)), rsp.None?);
        procedures := procedures + [ProcedureOf(streams.at[sid], rsp, (conn, sid))];
        if rsp.None? {
          unpaired := unpaired + 1;
        }
      }
      NextConnection(reqs, rsps, a, procedures);
    }
    MadeAll(msgs, reqs, rsps, procedures);
    ListedSorts(msgs, procedures);
    procedures := Sort(ByStart, procedures);
    AllTell(msgs, procedures);
  }

  lemma EmptyHolds(msgs: seq<SbiMsg>)
    ensures forall d :: Holds(Empty(), msgs[..0], d)
    ensures InOrder(Empty(), msgs[..0]) && Listed(msgs, [])
  {
  }

  lemma HoldsValid(bucket: Bucket, msgs: seq<SbiMsg>, d: Direction)
    requires Holds(bucket, msgs, d)
    ensures BucketValid(bucket)
  {
  }

  lemma OrderIsDomain<K, V>(d: Dict<K, V>, a: nat)
    requires d.Valid() && a < |d.order|
    ensures d.order[a] in d.at
  {
    assert d.order[a] in (set k | k in d.order);
  }

  lemma NoTimeouts()
    ensures TimeoutsIn([]) == {}
  {
  }

  lemma NothingMade(reqs: Bucket, rsps: Bucket)
    ensures Made(reqs, rsps, 0, 0, [])
  {
  }

  lemma MakeOne(reqs: Bucket, rsps: Bucket, a: nat, b: nat, ps: seq<SbiProcedure>)
    requires BucketValid(reqs) && a < |reqs.order| && reqs.order[a] in reqs.at
    requires b < |reqs.at[reqs.order[a]].order| && reqs.at[reqs.order[a]].order[b] in reqs.at[reqs.order[a]].at
    requires Made(reqs, rsps, a, b, ps)
    ensures var conn := reqs.order[a];
            var sid := reqs.at[conn].order[b];
            var p := ProcedureOf(reqs.at[conn].at[sid], Find(rsps, (conn, sid)), (conn, sid));
            && Made(reqs, rsps, a, b + 1, ps + [p])
            && p !in ps && (p.outcome == Timeout <==> Find(rsps, (conn, sid)).None?)
  {
    var conn := reqs.order[a];
    var order := reqs.at[conn].order;
    var sid := order[b];
    var new_ := ProcedureOf(reqs.at[conn].at[sid], Find(rsps, (conn, sid)), (conn, sid));
    TakeSnoc(order, b);
    assert sid !in order[..b] && conn !in reqs.order[..a];
    forall p
      ensures p in ps + [new_] <==> IsPair(reqs, rsps, p) && Reached(reqs, a, b + 1, p)
    {
      assert Reached(reqs, a, b + 1, p) <==> Reached(reqs, a, b, p) || (p.conn, p.streamId) == (conn, sid);
    }
    assert forall x :: 0 <= x < |ps| ==> ps[x] in ps;
  }

  /** The procedures are made in the order of their streams' first requests. */
  ghost predicate Listed(msgs: seq<SbiMsg>, ps: seq<SbiProcedure>) {
    forall x, y :: 0 <= x < y < |ps| ==> SeenBefore(msgs, ps[x], ps[y])
  }

  lemma ListOne(msgs: seq<SbiMsg>, reqs: Bucket, rsps: Bucket, a: nat, b: nat, ps: seq<SbiProcedure>)
    requires BucketValid(reqs) && InOrder(reqs, msgs) && a < |reqs.order| && reqs.order[a] in reqs.at
    requires b < |reqs.at[reqs.order[a]].order| && reqs.at[reqs.order[a]].order[b] in reqs.at[reqs.order[a]].at
    requires Made(reqs, rsps, a, b, ps) && Listed(msgs, ps)
    ensures var conn := reqs.order[a];
            var sid := reqs.at[conn].order[b];
            Listed(msgs, ps + [ProcedureOf(reqs.at[conn].at[sid], Find(rsps, (conn, sid)), (conn, sid))])
  {
    var conn := reqs.order[a];
    var streams := reqs.at[conn];
    var sid := streams.order[b];
    var p := ProcedureOf(streams.at[sid], Find(rsps, (conn, sid)), (conn, sid));
    assert p.conn == conn && p.streamId == sid;
    hide ProcedureOf, FirstOn, FirstOnConn, Find;
    forall x | 0 <= x < |ps|
      ensures SeenBefore(msgs, ps[x], p)
    {
      var q := ps[x];
      assert q in ps && Reached(reqs, a, b, q);
      if q.conn in reqs.order[..a] {
        var c :| 0 <= c < a && reqs.order[c] == q.conn;
      } else {
        assert StreamsInOrder(streams, conn, msgs);
        var c :| 0 <= c < b && streams.order[c] == q.streamId;
      }
    }
  }

  lemma ListedSorts(msgs: seq<SbiMsg>, ps: seq<SbiProcedure>)
    requires Listed(msgs, ps)
    ensures var sorted := Sort(ByStart, ps);
            forall x, y :: 0 <= x < y < |sorted| && sorted[x].startTs == sorted[y].startTs ==>
              SeenBefore(msgs, sorted[x], sorted[y])
  {
    hide SeenBefore, Sort;
    SortKeepsOrder(ByStart, (p, q) => SeenBefore(msgs, p, q), ps);
  }

  lemma OneMoreTimeout(ps: seq<SbiProcedure>, p: SbiProcedure, timeout: bool)
    requires p !in ps && (p.outcome == Timeout <==> timeout)
    ensures |TimeoutsIn(ps + [p])| == |TimeoutsIn(ps)| + if timeout then 1 else 0
  {
    assert TimeoutsIn(ps + [p]) == TimeoutsIn(ps) + if timeout then {p} else {};
  }

  lemma NextConnection(reqs: Bucket, rsps: Bucket, a: nat, ps: seq<SbiProcedure>)
    requires BucketValid(reqs) && a < |reqs.order| && reqs.order[a] in reqs.at
    requires Made(reqs, rsps, a, |reqs.at[reqs.order[a]].order|, ps)
    ensures Made(reqs, rsps, a + 1, 0, ps)
  {
    var conn := reqs.order[a];
    var streams := reqs.at[conn];
    TakeSnoc(reqs.order, a);
    assert streams.order[..|streams.order|] == streams.order;
    forall p | IsPair(reqs, rsps, p)
      ensures Reached(reqs, a + 1, 0, p) <==> Reached(reqs, a, |streams.order|, p)
    {
      if p.conn == conn {
        assert p.streamId in (set k | k in streams.order);
      }
    }
    hide ProcedureOf;
  }

  lemma MadeAll(msgs: seq<SbiMsg>, reqs: Bucket, rsps: Bucket, ps: seq<SbiProcedure>)
    requires Holds(reqs, msgs, Request) && Holds(rsps, msgs, Response)
    requires Made(reqs, rsps, |reqs.order|, 0, ps)
    ensures var sorted := Sort(ByStart, ps);
            && (forall p :: p in sorted <==> IsPaired(msgs, p))
            && (forall x, y :: 0 <= x < y < |sorted| ==>
                  (sorted[x].conn, sorted[x].streamId) != (sorted[y].conn, sorted[y].streamId))
            && Sorted(ByStart, sorted) && TimeoutsIn(sorted) == TimeoutsIn(ps)
  {
    var sorted := Sort(ByStart, ps);
    assert forall x :: 0 <= x < |ps| ==> ps[x] in ps;
    assert Distinct(ps);
    SortIsStable(ByStart, ps);
    SortMembers(ByStart, ps);
    SortIsDistinct(ByStart, ps);
    forall p
      ensures p in ps <==> IsPaired(msgs, p)
    {
      PairIsPaired(msgs, reqs, rsps, p);
    }
    forall x, y | 0 <= x < y < |sorted|
      ensures (sorted[x].conn, sorted[x].streamId) != (sorted[y].conn, sorted[y].streamId)
    {
      assert IsPaired(msgs, sorted[x]) && IsPaired(msgs, sorted[y]);
    }
    hide ProcedureOf, LastOn, Sort, Made;
  }

  lemma PairIsPaired(msgs: seq<SbiMsg>, reqs: Bucket, rsps: Bucket, p: SbiProcedure)
    requires Holds(reqs, msgs, Request) && Holds(rsps, msgs, Response)
    ensures IsPaired(msgs, p) <==> IsPair(reqs, rsps, p)
    ensures IsPair(reqs, rsps, p) ==> Reached(reqs, |reqs.order|, 0, p)
  {
    var key := (p.conn, p.streamId);
    assert Find(reqs, key) == LastOn(msgs, Request, key) && Find(rsps, key) == LastOn(msgs, Response, key);
    if IsPair(reqs, rsps, p) {
      assert p.conn in (set k | k in reqs.order);
      assert reqs.order[..|reqs.order|] == reqs.order;
    }
    hide ProcedureOf, LastOn;
  }

  // ----- The result, stated on the messages -----

  /** Message number i is the last readable one of the direction on the stream. */
  ghost predicate IsLast(msgs: seq<SbiMsg>, d: Direction, conn: Conn, sid: int, i: nat) {
    && i < |msgs| && IsOn(msgs[i], d, conn, sid)
    && forall k :: i < k < |msgs| ==> !IsOn(msgs[k], d, conn, sid)
  }

  ghost predicate IsOn(m: SbiMsg, d: Direction, conn: Conn, sid: int) {
    m.direction == d && m.conn == Some(conn) && m.streamId == sid && (m.unparsed == None || m.unparsed == Some(""))
  }

  /** The procedure goes from the last request of its stream to the last response, which decides the outcome; or it
      has timed out. */
  ghost predicate Tells(msgs: seq<SbiMsg>, p: SbiProcedure) {
    exists i: nat :: IsLast(msgs, Request, p.conn, p.streamId, i) && TellsRequest(msgs[i], p) &&
      if exists j: nat :: IsLast(msgs, Response, p.conn, p.streamId, j)
      then exists j: nat :: IsLast(msgs, Response, p.conn, p.streamId, j) && TellsResponse(msgs[j], p)
      else p.outcome == Timeout && p.endTs == msgs[i].ts && p.status == None
  }

  ghost predicate TellsRequest(m: SbiMsg, p: SbiProcedure) {
    && p.startTs == m.ts && p.httpMethod == m.httpMethod && p.path == m.path
    && p.kind == if m.name == None || m.name == Some("") then "unknown" else m.name.value
  }

  ghost predicate TellsResponse(m: SbiMsg, p: SbiProcedure) {
    && p.endTs == m.ts && p.status == m.status
    && p.outcome == if m.status.Some? && 200 <= m.status.value <= 299 then Accept else Reject
  }

  lemma {:induction false} LastIs(msgs: seq<SbiMsg>, d: Direction, conn: Conn, sid: int)
    ensures LastOn(msgs, d, (conn, sid)).None? <==> forall i: nat :: !IsLast(msgs, d, conn, sid, i)
    ensures forall i: nat :: IsLast(msgs, d, conn, sid, i) ==> LastOn(msgs, d, (conn, sid)) == Some(msgs[i])
  {
    if msgs != [] {
      var p, m := msgs[..|msgs| - 1], msgs[|msgs| - 1];
      LastIs(p, d, conn, sid);
      assert IsOn(m, d, conn, sid) <==> Readable(m) && m.direction == d && OnStream(m, (conn, sid));
      hide IsOn, Readable, OnStream;
      forall i: nat
        ensures IsLast(msgs, d, conn, sid, i) <==>
                if IsOn(m, d, conn, sid) then i == |p| else IsLast(p, d, conn, sid, i)
      {
        assert forall k :: 0 <= k < |p| ==> p[k] == msgs[k];
      }
      assert IsOn(m, d, conn, sid) ==> IsLast(msgs, d, conn, sid, |p|);
      if LastOn(p, d, (conn, sid)).Some? {
        var i: nat :| IsLast(p, d, conn, sid, i);
        assert !IsOn(m, d, conn, sid) ==> IsLast(msgs, d, conn, sid, i);
      }
    }
  }

  lemma PairedTells(msgs: seq<SbiMsg>, p: SbiProcedure)
    ensures IsPaired(msgs, p) <==> Tells(msgs, p)
  {
    LastIs(msgs, Request, p.conn, p.streamId);
    LastIs(msgs, Response, p.conn, p.streamId);
    hide LastOn, IsLast;
  }

  lemma AllTell(msgs: seq<SbiMsg>, ps: seq<SbiProcedure>)
    requires (forall p :: p in ps <==> IsPaired(msgs, p)) && Sorted(ByStart, ps)
    ensures forall p :: p in ps <==> Tells(msgs, p)
    ensures forall conn, sid, i: nat :: IsLast(msgs, Request, conn, sid, i) ==>
              exists p :: p in ps && p.conn == conn && p.streamId == sid
    ensures forall x, y :: 0 <= x < y < |ps| ==> ps[x].startTs <= ps[y].startTs
  {
    forall p
      ensures p in ps <==> Tells(msgs, p)
    {
      PairedTells(msgs, p);
    }
    forall conn, sid, i: nat | IsLast(msgs, Request, conn, sid, i)
      ensures exists p :: p in ps && p.conn == conn && p.streamId == sid
    {
      LastIs(msgs, Request, conn, sid);
      var p := ProcedureOf(msgs[i], LastOn(msgs, Response, (conn, sid)), (conn, sid));
      assert IsPaired(msgs, p);
    }
  }
}
