/** SCTP reassembly: N2 messages from the DATA chunks of a capture
    (5gcap/fivegcap/capture.py), and the proof that it inverts the
    fragmentation of RFC 9260 section 6.9. */
module Capture {
  import opened Common

  const NGAP_PPID := 60

  newtype Byte = x: int | 0 <= x < 256

  datatype Assoc = Assoc(srcPort: int, dstPort: int)

  datatype Chunk =
    | Data(protoId: int, tsn: int, streamId: int, payload: seq<Byte>, ending: bool)
    | Control

  datatype Packet = Packet(time: real, sctp: Option<Assoc>, chunks: seq<Chunk>,
                           srcIp: Option<string>, dstIp: Option<string>)

  datatype N2Message = N2Message(ts: real, assoc: Assoc, stream: int, data: seq<Byte>,
                                 srcIp: Option<string>, dstIp: Option<string>)

  type StreamKey = (Assoc, int)
  type TsnKey = (Assoc, int)

  // ----- What one NGAP DATA chunk is, seen from the reassembler -----

  datatype Arrival = Arrival(time: real, assoc: Assoc, tsn: int, stream: int, payload: seq<Byte>,
                             ending: bool, srcIp: Option<string>, dstIp: Option<string>)
  {
    ghost function Key(): StreamKey { (assoc, stream) }
    ghost function Tsn(): TsnKey { (assoc, tsn) }
    ghost predicate IsNgap() { payload != [] }
  }

  ghost function ArrivalsOf(pk: Packet, n: nat): (s: seq<Arrival>)
    requires n <= |pk.chunks|
    ensures forall a :: a in s ==> a.IsNgap()
  {
    if n == 0 || pk.sctp.None? then []
    else
      var c := pk.chunks[n - 1];
      if c.Data? && c.protoId == 60 && c.payload != []
      then ArrivalsOf(pk, n - 1)
           + [Arrival(pk.time, pk.sctp.value, c.tsn, c.streamId, c.payload, c.ending, pk.srcIp, pk.dstIp)]
      else ArrivalsOf(pk, n - 1)
  }

  /** Every NGAP DATA chunk of the capture, in capture order. */
  ghost function Arrivals(pkts: seq<Packet>): (s: seq<Arrival>)
    ensures forall a :: a in s ==> a.IsNgap()
  {
    if pkts == [] then []
    else Arrivals(pkts[..|pkts| - 1]) + ArrivalsOf(pkts[|pkts| - 1], |pkts[|pkts| - 1].chunks|)
  }

  ghost predicate Sent(s: seq<Arrival>, tsn: TsnKey) {
    exists a :: a in s && a.Tsn() == tsn
  }

  /** The arrivals that are not retransmissions of an earlier one. */
  ghost function FirstSeen(s: seq<Arrival>): seq<Arrival> {
    if s == [] then []
    else
      var p, last := s[..|s| - 1], s[|s| - 1];
      if Sent(p, last.Tsn()) then FirstSeen(p) else FirstSeen(p) + [last]
  }

  /** The bytes of stream k that follow its last completed message. */
  ghost function Leftover(s: seq<Arrival>, k: StreamKey): seq<Byte> {
    if s == [] then []
    else
      var p, last := s[..|s| - 1], s[|s| - 1];
      if last.Key() != k then Leftover(p, k)
      else if last.ending then []
      else Leftover(p, k) + last.payload
  }

  /** The message that chunk a completes after the arrivals s. */
  ghost function Completed(s: seq<Arrival>, a: Arrival): N2Message {
    N2Message(a.time, a.assoc, a.stream, Leftover(s, a.Key()) + a.payload, a.srcIp, a.dstIp)
  }

  /** One message per ending chunk: the stream's bytes since its previous ending. */
  ghost function Messages(s: seq<Arrival>): seq<N2Message> {
    if s == [] then []
    else
      var p, last := s[..|s| - 1], s[|s| - 1];
      if !last.ending then Messages(p)
      else Messages(p) + [Completed(p, last)]
  }

  ghost function StreamOf(s: seq<Arrival>, k: StreamKey): seq<Arrival> {
    if s == [] then []
    else
      var p, last := s[..|s| - 1], s[|s| - 1];
      if last.Key() == k then StreamOf(p, k) + [last] else StreamOf(p, k)
  }

  ghost function MessagesOf(ms: seq<N2Message>, k: StreamKey): seq<N2Message> {
    if ms == [] then []
    else
      var p, last := ms[..|ms| - 1], ms[|ms| - 1];
      if (last.assoc, last.stream) == k then MessagesOf(p, k) + [last] else MessagesOf(p, k)
  }

  ghost function Payloads(s: seq<Arrival>): seq<Byte> {
    if s == [] then [] else Payloads(s[..|s| - 1]) + s[|s| - 1].payload
  }

  ghost function Bodies(ms: seq<N2Message>): seq<Byte> {
    if ms == [] then [] else Bodies(ms[..|ms| - 1]) + ms[|ms| - 1].data
  }

  // ----- The loop -----

  method ReadCapture(pkts: seq<Packet>) returns (msgs: seq<N2Message>)
    ensures msgs == Messages(FirstSeen(Arrivals(pkts)))
  {
    hide *;
    var buffers: map<StreamKey, seq<Byte>> := map[];
    var seenTsns: set<TsnKey> := {};
    msgs := [];
    ghost var done: seq<Arrival> := [];
    ReassemblyStart(pkts);
    for i := 0 to |pkts|
      invariant done == Arrivals(pkts[..i])
      invariant Reassembling(done, buffers, seenTsns, msgs)
    {
      var pk := pkts[i];
      ghost var before := done;
      ArrivalsAppend(pkts, i);
      ArrivalsOfSteps(pk);
      if pk.sctp.Some? {
        var assoc := pk.sctp.value;
        assert before + [] == before;
        for j := 0 to |pk.chunks|
          invariant done == before + ArrivalsOf(pk, j)
          invariant Reassembling(done, buffers, seenTsns, msgs)
        {
          var chunk := pk.chunks[j];
          if chunk.Data? && chunk.protoId == NGAP_PPID && chunk.payload != [] {
            ghost var a := Arrival(pk.time, assoc, chunk.tsn, chunk.streamId, chunk.payload, chunk.ending,
                                   pk.srcIp, pk.dstIp);
            var tsnKey := (assoc, chunk.tsn);
            ghost var buffers0, seen0, msgs0 := buffers, seenTsns, msgs;
            if tsnKey !in seenTsns {
              seenTsns := seenTsns + {tsnKey};
              var key := (assoc, chunk.streamId);
              var buf := (if key in buffers then buffers[key] else []) + chunk.payload;
              buffers := buffers[key := buf];
              if chunk.ending {
                msgs := msgs + [N2Message(pk.time, assoc, key.1, buf, pk.srcIp, pk.dstIp)];
                buffers := buffers - {key};
              }
            }
            assert a.Tsn() == tsnKey && a.Key() == (assoc, chunk.streamId) by {
              ArrivalKeys(a);
            }
            ReassemblyStep(done, a, buffers0, seen0, msgs0, buffers, seenTsns, msgs);
            done := done + [a];
          }
        }
      }
    }
    assert pkts[..|pkts|] == pkts;
    ReassemblyEnd(done, buffers, seenTsns, msgs);
  }

  lemma ArrivalKeys(a: Arrival)
    ensures a.Tsn() == (a.assoc, a.tsn) && a.Key() == (a.assoc, a.stream)
  {
  }

  lemma ReassemblyStart(pkts: seq<Packet>)
    ensures Arrivals(pkts[..0]) == [] && Reassembling([], map[], {}, [])
  {
  }

  lemma ReassemblyEnd(done: seq<Arrival>, buffers: map<StreamKey, seq<Byte>>, seenTsns: set<TsnKey>,
                      msgs: seq<N2Message>)
    requires Reassembling(done, buffers, seenTsns, msgs)
    ensures msgs == Messages(FirstSeen(done))
  {
  }

  lemma ArrivalsOfSteps(pk: Packet)
    ensures ArrivalsOf(pk, 0) == []
    ensures pk.sctp.None? ==> ArrivalsOf(pk, |pk.chunks|) == []
    ensures pk.sctp.Some? ==> forall j :: 0 <= j < |pk.chunks| ==>
              var c := pk.chunks[j];
              ArrivalsOf(pk, j + 1) ==
              if c.Data? && c.protoId == NGAP_PPID && c.payload != []
              then ArrivalsOf(pk, j) + [Arrival(pk.time, pk.sctp.value, c.tsn, c.streamId, c.payload, c.ending,
                                                pk.srcIp, pk.dstIp)]
              else ArrivalsOf(pk, j)
  {
  }

  lemma ArrivalsAppend(pkts: seq<Packet>, i: nat)
    requires i < |pkts|
    ensures Arrivals(pkts[..i + 1]) == Arrivals(pkts[..i]) + ArrivalsOf(pkts[i], |pkts[i].chunks|)
  {
    TakeSnoc(pkts, i);
  }

  /** The loop's variables, as functions of the arrivals handled so far. */
  ghost predicate Reassembling(done: seq<Arrival>, buffers: map<StreamKey, seq<Byte>>, seenTsns: set<TsnKey>,
                               msgs: seq<N2Message>)
  {
    && (forall t :: t in seenTsns <==> Sent(done, t))
    && (forall k :: k in buffers ==> buffers[k] == Leftover(FirstSeen(done), k))
    && (forall k :: k !in buffers ==> Leftover(FirstSeen(done), k) == [])
    && msgs == Messages(FirstSeen(done))
  }

  /** One iteration of the loop keeps that meaning. */
  lemma ReassemblyStep(done: seq<Arrival>, a: Arrival,
                       buffers: map<StreamKey, seq<Byte>>, seenTsns: set<TsnKey>, msgs: seq<N2Message>,
                       buffers': map<StreamKey, seq<Byte>>, seenTsns': set<TsnKey>, msgs': seq<N2Message>)
    requires Reassembling(done, buffers, seenTsns, msgs)
    requires a.Tsn() in seenTsns ==> buffers' == buffers && seenTsns' == seenTsns && msgs' == msgs
    requires a.Tsn() !in seenTsns ==>
               var buf := (if a.Key() in buffers then buffers[a.Key()] else []) + a.payload;
               && seenTsns' == seenTsns + {a.Tsn()}
               && buffers' == (if a.ending then buffers - {a.Key()} else buffers[a.Key() := buf])
               && msgs' == if a.ending then msgs + [N2Message(a.time, a.assoc, a.stream, buf, a.srcIp, a.dstIp)]
                           else msgs
    ensures Reassembling(done + [a], buffers', seenTsns', msgs')
  {
    var f := FirstSeen(done);
    FirstSeenAppend(done, a);
    if a.Tsn() !in seenTsns {
      MessagesAppendArrival(f, a);
      forall k
        ensures k in buffers' ==> buffers'[k] == Leftover(f + [a], k)
        ensures k !in buffers' ==> Leftover(f + [a], k) == []
      {
        LeftoverAppend(f, a, k);
      }
    }
  }

  lemma CompletedIs(s: seq<Arrival>, a: Arrival)
    ensures var m := Completed(s, a);
            m.data == Leftover(s, a.Key()) + a.payload && (m.assoc, m.stream) == a.Key()
  {
  }

  // What one more arrival does to each specification function.

  lemma FirstSeenAppend(s: seq<Arrival>, a: Arrival)
    ensures FirstSeen(s + [a]) == if Sent(s, a.Tsn()) then FirstSeen(s) else FirstSeen(s) + [a]
    ensures forall t :: Sent(s + [a], t) <==> Sent(s, t) || t == a.Tsn()
  {
    assert (s + [a])[..|s|] == s;
    assert forall x :: x in s + [a] <==> x in s || x == a;
    forall t | Sent(s, t)
      ensures Sent(s + [a], t)
    {
      var x :| x in s && x.Tsn() == t;
      assert x in s + [a];
    }
  }

  lemma LeftoverAppend(s: seq<Arrival>, a: Arrival, k: StreamKey)
    ensures Leftover(s + [a], k) == if a.Key() != k then Leftover(s, k)
                                    else if a.ending then [] else Leftover(s, k) + a.payload
  {
    assert (s + [a])[..|s|] == s;
  }

  lemma MessagesAppendArrival(s: seq<Arrival>, a: Arrival)
    ensures Messages(s + [a]) == if a.ending then Messages(s) + [Completed(s, a)] else Messages(s)
  {
    assert (s + [a])[..|s|] == s;
  }

  // ----- Nothing is lost and streams do not disturb each other -----

  /** A stream's messages followed by its leftover are its first-seen payloads. */
  lemma {:induction false} Conservation(s: seq<Arrival>, k: StreamKey)
    ensures Bodies(MessagesOf(Messages(s), k)) + Leftover(s, k) == Payloads(StreamOf(s, k))
  {
    if s != [] {
      var p, last := s[..|s| - 1], s[|s| - 1];
      assert s == p + [last];
      Conservation(p, k);
      ConservationStep(p, last, k);
    }
  }

  lemma ConservationStep(p: seq<Arrival>, a: Arrival, k: StreamKey)
    requires Bodies(MessagesOf(Messages(p), k)) + Leftover(p, k) == Payloads(StreamOf(p, k))
    ensures Bodies(MessagesOf(Messages(p + [a]), k)) + Leftover(p + [a], k) == Payloads(StreamOf(p + [a], k))
  {
    hide *;
    StreamAppend(p, a, k);
    LeftoverAppend(p, a, k);
    MessagesAppendArrival(p, a);
    MessagesAppend(Messages(p), Completed(p, a), k);
    CompletedIs(p, a);
    assert forall x: seq<Byte>, y, z :: x + (y + z) == (x + y) + z;
  }

  /** Group-by: what the whole capture yields for stream k is what the stream alone yields. */
  lemma {:induction false} StreamsAreIndependent(s: seq<Arrival>, k: StreamKey)
    ensures MessagesOf(Messages(s), k) == Messages(StreamOf(s, k))
    ensures Leftover(s, k) == Leftover(StreamOf(s, k), k)
    ensures forall a :: a in StreamOf(s, k) ==> a.Key() == k
  {
    if s != [] {
      var p, last := s[..|s| - 1], s[|s| - 1];
      assert s == p + [last];
      StreamsAreIndependent(p, k);
      StreamAppend(p, last, k);
      LeftoverAppend(p, last, k);
      LeftoverAppend(StreamOf(p, k), last, k);
      MessagesAppendArrival(p, last);
      MessagesAppendArrival(StreamOf(p, k), last);
      MessagesAppend(Messages(p), Completed(p, last), k);
    }
  }

  lemma StreamAppend(p: seq<Arrival>, a: Arrival, k: StreamKey)
    ensures StreamOf(p + [a], k) == if a.Key() == k then StreamOf(p, k) + [a] else StreamOf(p, k)
    ensures Payloads(StreamOf(p, k) + [a]) == Payloads(StreamOf(p, k)) + a.payload
  {
    assert (p + [a])[..|p|] == p;
    assert (StreamOf(p, k) + [a])[..|StreamOf(p, k)|] == StreamOf(p, k);
  }

  lemma MessagesAppend(p: seq<N2Message>, m: N2Message, k: StreamKey)
    ensures MessagesOf(p + [m], k) == if (m.assoc, m.stream) == k then MessagesOf(p, k) + [m] else MessagesOf(p, k)
    ensures Bodies(MessagesOf(p, k) + [m]) == Bodies(MessagesOf(p, k)) + m.data
  {
    assert (p + [m])[..|p|] == p;
    assert (MessagesOf(p, k) + [m])[..|MessagesOf(p, k)|] == MessagesOf(p, k);
  }

  // ----- Retransmissions -----

  lemma {:induction false} FirstSeenConcat(s: seq<Arrival>, t: seq<Arrival>, u: seq<Arrival>)
    requires FirstSeen(s) == FirstSeen(t)
    requires forall k :: Sent(s, k) <==> Sent(t, k)
    ensures FirstSeen(s + u) == FirstSeen(t + u)
    ensures forall k :: Sent(s + u, k) <==> Sent(t + u, k)
  {
    hide *;
    if u == [] {
      assert s + u == s && t + u == t;
    } else {
      var p, last := u[..|u| - 1], u[|u| - 1];
      FirstSeenConcat(s, t, p);
      ConcatSnoc(s, u);
      ConcatSnoc(t, u);
      FirstSeenAppend(s + p, last);
      FirstSeenAppend(t + p, last);
    }
  }

  /** A copy of an already sent TSN, inserted anywhere later, changes nothing. */
  lemma RetransmissionIsInvisible(s: seq<Arrival>, copy: Arrival, u: seq<Arrival>)
    requires Sent(s, copy.Tsn())
    ensures FirstSeen(s + [copy] + u) == FirstSeen(s + u)
  {
    FirstSeenAppend(s, copy);
    FirstSeenConcat(s + [copy], s, u);
  }

  ghost predicate DistinctTsns(s: seq<Arrival>) {
    forall i, j :: 0 <= i < j < |s| ==> s[i].Tsn() != s[j].Tsn()
  }

  /** No chunk is dropped exactly when no TSN of an association is used twice. */
  lemma {:induction false} NothingDroppedIff(s: seq<Arrival>)
    ensures |FirstSeen(s)| <= |s|
    ensures FirstSeen(s) == s <==> DistinctTsns(s)
  {
    if s != [] {
      var p, last := s[..|s| - 1], s[|s| - 1];
      NothingDroppedIff(p);
      DistinctTsnsAppend(p, last);
      assert s == p + [last];
      if FirstSeen(s) == s {
        assert FirstSeen(p) == s[..|p|];
      }
    }
  }

  lemma DistinctTsnsAppend(p: seq<Arrival>, a: Arrival)
    ensures DistinctTsns(p + [a]) <==> DistinctTsns(p) && !Sent(p, a.Tsn())
  {
    var s := p + [a];
    if Sent(p, a.Tsn()) {
      var x :| x in p && x.Tsn() == a.Tsn();
      var i :| 0 <= i < |p| && p[i] == x;
      assert s[i].Tsn() == s[|p|].Tsn();
    } else {
      assert forall i :: 0 <= i < |p| ==> p[i] in p && s[i] == p[i];
    }
    if DistinctTsns(s) {
      forall i, j | 0 <= i < j < |p|
        ensures p[i].Tsn() != p[j].Tsn()
      {
        assert s[i] == p[i] && s[j] == p[j];
      }
    }
  }

  // ----- Reassembly inverts fragmentation -----

  /** fs carries the user message body: its pieces in order, only the last one marked ending. */
  ghost predicate IsFragmentation(fs: seq<Arrival>, body: seq<Byte>) {
    && fs != []
    && fs[|fs| - 1].ending
    && (forall i :: 0 <= i < |fs| - 1 ==> !fs[i].ending)
    && Payloads(fs) == body
  }

  ghost function Join(fragments: seq<seq<Arrival>>): seq<Arrival> {
    if fragments == [] then [] else Join(fragments[..|fragments| - 1]) + fragments[|fragments| - 1]
  }

  ghost predicate Fragmented(fragments: seq<seq<Arrival>>, bodies: seq<seq<Byte>>, k: StreamKey) {
    && |fragments| == |bodies|
    && forall i :: 0 <= i < |bodies| ==>
         IsFragmentation(fragments[i], bodies[i]) && forall a :: a in fragments[i] ==> a.Key() == k
  }

  ghost function Datas(ms: seq<N2Message>): seq<seq<Byte>> {
    seq(|ms|, i requires 0 <= i < |ms| => ms[i].data)
  }

  /** Fragments not marked ending only extend the leftover. */
  lemma {:induction false} OpenFragments(s: seq<Arrival>, fs: seq<Arrival>, k: StreamKey)
    requires forall a :: a in fs ==> a.Key() == k && !a.ending
    ensures Leftover(s + fs, k) == Leftover(s, k) + Payloads(fs)
    ensures Messages(s + fs) == Messages(s)
  {
    if fs == [] {
      assert s + fs == s;
    } else {
      var p, last := fs[..|fs| - 1], fs[|fs| - 1];
      assert (s + fs)[..|s + fs| - 1] == s + p && (s + fs)[|s + fs| - 1] == last;
      OpenFragments(s, p, k);
      assert Leftover(s + fs, k) == Leftover(s + p, k) + last.payload && Payloads(fs) == Payloads(p) + last.payload;
      hide Leftover, Payloads, Messages;
    }
  }

  /** The stream machine on a fragmented stream gives the messages back. */
  lemma {:induction false} StreamInverts(fragments: seq<seq<Arrival>>, bodies: seq<seq<Byte>>, k: StreamKey)
    requires Fragmented(fragments, bodies, k)
    ensures Datas(Messages(Join(fragments))) == bodies
    ensures Leftover(Join(fragments), k) == []
  {
    if fragments != [] {
      var n := |fragments| - 1;
      StreamInverts(fragments[..n], bodies[..n], k);
      StreamInvertsStep(Join(fragments[..n]), fragments[n], bodies[n], k);
      assert bodies == bodies[..n] + [bodies[n]];
    }
  }

  lemma StreamInvertsStep(s: seq<Arrival>, fs: seq<Arrival>, body: seq<Byte>, k: StreamKey)
    requires Leftover(s, k) == []
    requires IsFragmentation(fs, body) && forall a :: a in fs ==> a.Key() == k
    ensures Datas(Messages(s + fs)) == Datas(Messages(s)) + [body]
    ensures Leftover(s + fs, k) == []
  {
    var p, last := fs[..|fs| - 1], fs[|fs| - 1];
    assert last in fs;
    OpenFragments(s, p, k);
    ConcatSnoc(s, fs);
    LeftoverAppend(s + p, last, k);
    MessagesAppendArrival(s + p, last);
    assert [] + Payloads(p) == Payloads(p);
  }

  /** The main result. Whatever else the capture holds, however the streams are
      interleaved and whatever is retransmitted: if the first copies on stream k
      are the fragments of the given messages, exactly these messages come out. */
  lemma ReassemblyInvertsFragmentation(wire: seq<Arrival>, fragments: seq<seq<Arrival>>, bodies: seq<seq<Byte>>,
                                       k: StreamKey)
    requires StreamOf(FirstSeen(wire), k) == Join(fragments)
    requires Fragmented(fragments, bodies, k)
    ensures Datas(MessagesOf(Messages(FirstSeen(wire)), k)) == bodies
    ensures Leftover(FirstSeen(wire), k) == []
  {
    StreamsAreIndependent(FirstSeen(wire), k);
    StreamInverts(fragments, bodies, k);
  }

  /** Two captures that agree on every stream's first copies agree on every stream's messages. */
  lemma InterleavingDoesNotMatter(wire: seq<Arrival>, other: seq<Arrival>, k: StreamKey)
    requires StreamOf(FirstSeen(wire), k) == StreamOf(FirstSeen(other), k)
    ensures MessagesOf(Messages(FirstSeen(wire)), k) == MessagesOf(Messages(FirstSeen(other)), k)
    ensures Leftover(FirstSeen(wire), k) == Leftover(FirstSeen(other), k)
  {
    StreamsAreIndependent(FirstSeen(wire), k);
    StreamsAreIndependent(FirstSeen(other), k);
  }
}
