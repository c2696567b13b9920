/** Hosts behind one pair of ports. The reassembler keys its TSNs and buffers by ports and not by addresses
    (5gcap/fivegcap/capture.py:46-63), while its messages carry the addresses. This says exactly when hosts
    that use the same ports do not disturb each other. */
module Hosts {
  import opened Common
  import opened Capture

  /** Source and destination address. */
  type Host = (Option<string>, Option<string>)

  ghost function HostOf(a: Arrival): Host {
    (a.srcIp, a.dstIp)
  }

  ghost function ByHost(s: seq<Arrival>, h: Host): seq<Arrival> {
    if s == [] then []
    else
      var p, last := s[..|s| - 1], s[|s| - 1];
      if HostOf(last) == h then ByHost(p, h) + [last] else ByHost(p, h)
  }

  ghost function MessagesBy(ms: seq<N2Message>, h: Host): seq<N2Message> {
    if ms == [] then []
    else
      var p, last := ms[..|ms| - 1], ms[|ms| - 1];
      if (last.srcIp, last.dstIp) == h then MessagesBy(p, h) + [last] else MessagesBy(p, h)
  }

  lemma ByHostAppend(s: seq<Arrival>, a: Arrival, h: Host)
    ensures ByHost(s + [a], h) == if HostOf(a) == h then ByHost(s, h) + [a] else ByHost(s, h)
  {
    assert (s + [a])[..|s|] == s;
  }

  lemma MessagesByAppend(ms: seq<N2Message>, m: N2Message, h: Host)
    ensures MessagesBy(ms + [m], h) == if (m.srcIp, m.dstIp) == h then MessagesBy(ms, h) + [m] else MessagesBy(ms, h)
  {
    assert (ms + [m])[..|ms|] == ms;
  }

  // ----- TSNs -----

  ghost predicate HostsKeepTsns(s: seq<Arrival>) {
    forall a, b :: a in s && b in s && a.Tsn() == b.Tsn() ==> HostOf(a) == HostOf(b)
  }

  /** What is kept of every host is what would be kept of it alone. */
  ghost predicate HostsKeepChunks(s: seq<Arrival>) {
    forall h :: ByHost(FirstSeen(s), h) == FirstSeen(ByHost(s, h))
  }

  lemma {:induction false} ByHostMembers(s: seq<Arrival>, h: Host)
    ensures forall a :: a in ByHost(s, h) <==> a in s && HostOf(a) == h
  {
    if s != [] {
      ByHostMembers(s[..|s| - 1], h);
    }
  }

  lemma {:induction false} FirstCopies(s: seq<Arrival>)
    ensures forall t :: Sent(FirstSeen(s), t) <==> Sent(s, t)
    ensures DistinctTsns(FirstSeen(s))
  {
    if s != [] {
      var p, last := s[..|s| - 1], s[|s| - 1];
      assert s == p + [last];
      FirstCopies(p);
      FirstSeenAppend(p, last);
      FirstSeenAppend(FirstSeen(p), last);
      DistinctTsnsAppend(FirstSeen(p), last);
    }
    hide Sent, DistinctTsns;
  }

  /** The hosts keep their chunks exactly when no TSN of a pair of ports is used by two hosts. */
  lemma HostsKeepTheirChunksIff(s: seq<Arrival>)
    ensures HostsKeepChunks(s) <==> HostsKeepTsns(s)
  {
    if HostsKeepTsns(s) {
      forall h {
        HostKeepsItsChunks(s, h);
      }
    } else {
      var a, b :| a in s && b in s && a.Tsn() == b.Tsn() && HostOf(a) != HostOf(b);
      if HostsKeepChunks(s) {
        var x := FirstCopyOf(s, a);
        var y := FirstCopyOf(s, b);
        FirstCopies(s);
        TsnNamesOne(FirstSeen(s), x, y);
      }
    }
  }

  lemma TsnNamesOne(s: seq<Arrival>, x: Arrival, y: Arrival)
    requires DistinctTsns(s) && x in s && y in s && x.Tsn() == y.Tsn()
    ensures x == y
  {
    var i :| 0 <= i < |s| && s[i] == x;
    var j :| 0 <= j < |s| && s[j] == y;
  }

  lemma {:induction false} HostKeepsItsChunks(s: seq<Arrival>, h: Host)
    requires HostsKeepTsns(s)
    ensures ByHost(FirstSeen(s), h) == FirstSeen(ByHost(s, h))
  {
    hide FirstSeen, ByHost, Sent;
    if s == [] {
      NothingIsKept(h);
    } else {
      var p, last := s[..|s| - 1], s[|s| - 1];
      assert s == p + [last];
      assert HostsKeepTsns(p);
      HostKeepsItsChunks(p, h);
      FirstSeenAppend(p, last);
      FirstSeenAppend(ByHost(p, h), last);
      ByHostAppend(p, last, h);
      ByHostAppend(FirstSeen(p), last, h);
      SentByHost(p, last);
    }
  }

  lemma NothingIsKept(h: Host)
    ensures ByHost(FirstSeen([]), h) == FirstSeen(ByHost([], h))
  {
  }

  lemma SentByHost(p: seq<Arrival>, a: Arrival)
    requires HostsKeepTsns(p + [a])
    ensures Sent(ByHost(p, HostOf(a)), a.Tsn()) <==> Sent(p, a.Tsn())
  {
    ByHostMembers(p, HostOf(a));
    hide ByHost, FirstSeen;
    if Sent(p, a.Tsn()) {
      var x :| x in p && x.Tsn() == a.Tsn();
      assert x in p + [a] && a in p + [a];
      assert x in ByHost(p, HostOf(a));
    }
  }

  /** A host that is served as if alone has a first copy of each TSN it uses. */
  lemma FirstCopyOf(s: seq<Arrival>, a: Arrival) returns (x: Arrival)
    requires a in s && ByHost(FirstSeen(s), HostOf(a)) == FirstSeen(ByHost(s, HostOf(a)))
    ensures x in FirstSeen(s) && x.Tsn() == a.Tsn() && HostOf(x) == HostOf(a)
  {
    ByHostMembers(s, HostOf(a));
    ByHostMembers(FirstSeen(s), HostOf(a));
    FirstCopies(ByHost(s, HostOf(a)));
    hide FirstSeen, ByHost;
    assert Sent(ByHost(s, HostOf(a)), a.Tsn());
    x :| x in FirstSeen(ByHost(s, HostOf(a))) && x.Tsn() == a.Tsn();
  }

  /** So a chunk is dropped, whatever it carries, when another host sends it first from the same ports under
      the TSN of an earlier chunk, and so is a chunk of the same host once the TSN has come round again. */
  lemma ReusedTsnIsDropped(a: Arrival, time: real, payload: seq<Byte>, srcIp: Option<string>)
    ensures var b := a.(time := time, payload := payload, srcIp := srcIp);
            && FirstSeen([a, b]) == [a]
            && (srcIp != a.srcIp ==> FirstSeen(ByHost([a, b], HostOf(b))) == [b])
  {
    var b := a.(time := time, payload := payload, srcIp := srcIp);
    assert [] + [a] == [a] && [a] + [b] == [a, b] && [] + [b] == [b];
    FirstSeenAppend([], a);
    FirstSeenAppend([a], b);
    assert a in [a] && FirstSeen([a, b]) == [a];
    if srcIp != a.srcIp {
      ByHostAppend([], a, HostOf(b));
      ByHostAppend([a], b, HostOf(b));
      FirstSeenAppend([], b);
      assert HostOf(a) != HostOf(b);
      assert FirstSeen(ByHost([a, b], HostOf(b))) == [b];
    }
  }

  // ----- Buffers -----

  ghost predicate OnStream(t: seq<Arrival>, k: StreamKey) {
    forall a :: a in t ==> a.Key() == k && a.IsNgap()
  }

  /** Only a finished message may be followed by another host's chunk. */
  ghost predicate TakeTurns(t: seq<Arrival>) {
    forall i :: 0 < i < |t| && !t[i - 1].ending ==> HostOf(t[i]) == HostOf(t[i - 1])
  }

  ghost predicate SameMessages(t: seq<Arrival>) {
    forall h :: MessagesBy(Messages(t), h) == Messages(ByHost(t, h))
  }

  /** The buffer the host would have alone. */
  ghost function Own(t: seq<Arrival>, k: StreamKey, h: Host): seq<Byte> {
    Leftover(ByHost(t, h), k)
  }

  /** Every host's messages are those it would have alone, and at most one host has a message begun. */
  ghost predicate Separate(t: seq<Arrival>, k: StreamKey) {
    && SameMessages(t)
    && forall g, h :: Own(t, k, g) != [] && Own(t, k, h) != [] ==> g == h
  }

  /** The shared buffer belongs to the host of the last chunk. */
  ghost predicate Clean(t: seq<Arrival>, k: StreamKey) {
    forall h :: Own(t, k, h) == if t != [] && HostOf(t[|t| - 1]) == h then Leftover(t, k) else []
  }

  /** The shared buffer holds bytes of two hosts. */
  ghost predicate Mixed(t: seq<Arrival>, k: StreamKey) {
    && (exists g, h :: g != h && Own(t, k, g) != [] && Own(t, k, h) != [])
    && forall h :: |Own(t, k, h)| < |Leftover(t, k)|
  }

  lemma OwnAppend(t: seq<Arrival>, a: Arrival, k: StreamKey, h: Host)
    requires a.Key() == k
    ensures Own(t + [a], k, h) == if HostOf(a) != h then Own(t, k, h)
                                  else if a.ending then [] else Own(t, k, h) + a.payload
    ensures Leftover(t + [a], k) == if a.ending then [] else Leftover(t, k) + a.payload
  {
    ByHostAppend(t, a, h);
    LeftoverAppend(t, a, k);
    LeftoverAppend(ByHost(t, h), a, k);
  }

  /** One more chunk keeps the hosts' messages apart iff it ends none or finds only its own host's bytes. */
  lemma SameMessagesAppend(t: seq<Arrival>, a: Arrival, k: StreamKey)
    requires a.Key() == k
    ensures SameMessages(t + [a]) <==>
            SameMessages(t) && (a.ending ==> Leftover(t, k) == Own(t, k, HostOf(a)))
  {
    hide Messages, MessagesBy, ByHost, Leftover;
    MessagesAppendArrival(t, a);
    var u := t + [a];
    forall h
      ensures MessagesBy(Messages(u), h) == Messages(ByHost(u, h)) <==>
              && MessagesBy(Messages(t), h) == Messages(ByHost(t, h))
              && (a.ending && HostOf(a) == h ==> Leftover(t, k) == Own(t, k, h))
    {
      ByHostAppend(t, a, h);
      MessagesAppendArrival(ByHost(t, h), a);
      MessagesByAppend(Messages(t), Completed(t, a), h);
      AppendsEqual(MessagesBy(Messages(t), h), Messages(ByHost(t, h)), Completed(t, a), Completed(ByHost(t, h), a));
      SameEnd(Leftover(t, k), Own(t, k, h), a.payload);
    }
    assert SameMessages(u) ==> forall h :: MessagesBy(Messages(u), h) == Messages(ByHost(u, h));
  }

  lemma AppendsEqual<T>(s: seq<T>, t: seq<T>, x: T, y: T)
    ensures s + [x] == t + [y] <==> s == t && x == y
  {
    if s + [x] == t + [y] {
      assert s == (s + [x])[..|s|] && t == (t + [y])[..|t|];
      assert x == (s + [x])[|s|] && y == (t + [y])[|t|];
    }
  }

  lemma SameEnd<T>(s: seq<T>, t: seq<T>, end: seq<T>)
    ensures s + end == t + end <==> s == t
  {
    if s + end == t + end {
      assert s == (s + end)[..|s|] && t == (t + end)[..|t|];
    }
  }

  lemma TakeTurnsAppend(t: seq<Arrival>, a: Arrival)
    ensures TakeTurns(t + [a]) <==>
            TakeTurns(t) && (t == [] || t[|t| - 1].ending || HostOf(t[|t| - 1]) == HostOf(a))
  {
    var u := t + [a];
    assert u[|t|] == a && forall i :: 0 <= i < |t| ==> u[i] == t[i];
    if TakeTurns(u) {
      assert t != [] && !u[|t| - 1].ending ==> HostOf(u[|t|]) == HostOf(u[|t| - 1]);
      forall i | 0 < i < |t| && !t[i - 1].ending
        ensures HostOf(t[i]) == HostOf(t[i - 1])
      {
        assert u[i - 1] == t[i - 1] && u[i] == t[i];
      }
    }
  }

  lemma BufferIsEmptyIff(t: seq<Arrival>, k: StreamKey)
    requires OnStream(t, k)
    ensures Leftover(t, k) == [] <==> t == [] || t[|t| - 1].ending
  {
    if t != [] {
      assert t[|t| - 1] in t;
    }
  }

  /** Hosts that take turns are clean; once they do not, and no message shows it yet, the buffer is mixed. */
  lemma {:induction false} CleanOrMixed(t: seq<Arrival>, k: StreamKey)
    requires OnStream(t, k)
    ensures TakeTurns(t) ==> SameMessages(t) && Clean(t, k)
    ensures SameMessages(t) && !TakeTurns(t) ==> Mixed(t, k)
  {
    if t == [] {
      NothingIsClean(k);
    } else {
      var p, a := t[..|t| - 1], t[|t| - 1];
      assert t == p + [a] && a in t && forall b :: b in p ==> b in t;
      CleanOrMixed(p, k);
      TakeTurnsAppend(p, a);
      SameMessagesAppend(p, a, k);
      BufferIsEmptyIff(p, k);
      if TakeTurns(p) {
        StepFromClean(p, a, k);
      } else if SameMessages(t) {
        StepFromMixed(p, a, k);
      }
      hide TakeTurns, SameMessages, Clean, Mixed, Own;
    }
  }

  lemma NothingIsClean(k: StreamKey)
    ensures SameMessages([]) && Clean([], k) && TakeTurns([])
  {
  }

  lemma StepFromClean(p: seq<Arrival>, a: Arrival, k: StreamKey)
    requires Clean(p, k) && a.Key() == k && a.IsNgap()
    requires Leftover(p, k) == [] <==> p == [] || p[|p| - 1].ending
    ensures var turn := p == [] || p[|p| - 1].ending || HostOf(p[|p| - 1]) == HostOf(a);
            && (turn <==> Leftover(p, k) == Own(p, k, HostOf(a)))
            && (turn ==> Clean(p + [a], k))
            && (!turn && !a.ending ==> Mixed(p + [a], k))
  {
    hide Leftover, ByHost;
    forall h {
      OwnAppend(p, a, k, h);
    }
    hide Own;
    assert (p + [a])[|p|] == a;
    if p != [] && !p[|p| - 1].ending && HostOf(p[|p| - 1]) != HostOf(a) && !a.ending {
      assert Own(p + [a], k, HostOf(p[|p| - 1])) != [] && Own(p + [a], k, HostOf(a)) != [];
    }
  }

  lemma StepFromMixed(p: seq<Arrival>, a: Arrival, k: StreamKey)
    requires Mixed(p, k) && a.Key() == k && a.IsNgap()
    requires a.ending ==> Leftover(p, k) == Own(p, k, HostOf(a))
    ensures Mixed(p + [a], k)
  {
    hide Leftover, ByHost;
    forall h {
      OwnAppend(p, a, k, h);
    }
    hide Own;
    var g, h :| g != h && Own(p, k, g) != [] && Own(p, k, h) != [];
    assert Own(p + [a], k, g) != [] && Own(p + [a], k, h) != [];
  }

  /** On every stream, hosts behind the same ports get exactly what each would get alone, with at most one
      message begun, exactly when each chunk that ends no message is followed by a chunk of the same host. */
  lemma HostsAreSeparateIff(s: seq<Arrival>, k: StreamKey)
    requires forall a :: a in s ==> a.IsNgap()
    ensures Separate(StreamOf(s, k), k) <==> TakeTurns(StreamOf(s, k))
  {
    var t := StreamOf(s, k);
    StreamsAreIndependent(s, k);
    StreamMembers(s, k);
    CleanOrMixed(t, k);
    hide TakeTurns, SameMessages, StreamOf, Own;
  }

  lemma {:induction false} StreamMembers(s: seq<Arrival>, k: StreamKey)
    ensures forall a :: a in StreamOf(s, k) ==> a in s
  {
    if s != [] {
      StreamMembers(s[..|s| - 1], k);
    }
  }
}
