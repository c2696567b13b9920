/** Rebuilding the clause tree from the chunks alone (triage/triage/specgraph.py:101-126),
    and what of the tree the chunks preserve. */
module Specgraph {
  import opened Common
  import opened ClauseTree
  import opened Corpus

  type Key = (string, string)

  datatype Entry = Entry(heading: string, chunks: seq<nat>)

  type Nodes = map<Key, Entry>

  type Pairs = set<(Key, Key)>

  /** line.split("\t", 1), if there is a tab */
  function SplitTab(line: string): Option<(string, string)> {
    if line == "" then None
    else if line[0] == '\t' then Some(("", line[1..]))
    else
      var rest := SplitTab(line[1..]);
      if rest.None? then None else Some(([line[0]] + rest.value.0, rest.value.1))
  }

  lemma {:induction false} SplitTabInverts(clause: string, heading: string)
    requires '\t' !in clause
    ensures SplitTab(HeadingLine(clause, heading)) == Some((clause, heading))
  {
    var line := HeadingLine(clause, heading);
    if clause == "" {
      assert line[1..] == heading;
    } else {
      assert line[1..] == HeadingLine(clause[1..], heading);
      SplitTabInverts(clause[1..], heading);
      assert line[0] == clause[0] && [clause[0]] + clause[1..] == clause;
    }
  }

  ghost predicate Readable(c: Chunk) {
    forall k :: 0 <= k < |c.breadcrumb| ==> SplitTab(c.breadcrumb[k]).Some?
  }

  /** The clauses a chunk names with their headings, outermost first: its ancestors and itself. */
  ghost function Chain(c: Chunk): seq<(string, string)>
    requires Readable(c)
  {
    seq(|c.breadcrumb|, k requires 0 <= k < |c.breadcrumb| => SplitTab(c.breadcrumb[k]).value)
    + [(c.clause, c.heading)]
  }

  function KeyOf(c: Chunk): Key {
    (c.doc.spec, c.clause)
  }

  // ----- The dictionaries the loop builds -----

  ghost function WithChain(nodes: Nodes, spec: string, chain: seq<(string, string)>): Nodes {
    if chain == [] then nodes
    else
      var before, last := WithChain(nodes, spec, chain[..|chain| - 1]), chain[|chain| - 1];
      if (spec, last.0) in before then before else before[(spec, last.0) := Entry(last.1, [])]
  }

  lemma {:induction false} WithChainKeys(nodes: Nodes, spec: string, chain: seq<(string, string)>)
    ensures forall key :: key in WithChain(nodes, spec, chain) <==>
              key in nodes || exists m :: 0 <= m < |chain| && key == (spec, chain[m].0)
    ensures forall key :: key in nodes ==> WithChain(nodes, spec, chain)[key] == nodes[key]
    ensures forall key :: key in WithChain(nodes, spec, chain) && key !in nodes ==>
              var entry := WithChain(nodes, spec, chain)[key];
              entry.chunks == []
              && exists m :: 0 <= m < |chain| && key == (spec, chain[m].0) && entry.heading == chain[m].1
  {
    if chain != [] {
      var front, last := chain[..|chain| - 1], chain[|chain| - 1];
      WithChainKeys(nodes, spec, front);
      assert forall m :: 0 <= m < |front| ==> front[m] == chain[m];
    }
  }

  ghost function LinksOf(spec: string, chain: seq<(string, string)>): Pairs {
    if |chain| < 2 then {}
    else LinksOf(spec, chain[..|chain| - 1]) + {((spec, chain[|chain| - 2].0), (spec, chain[|chain| - 1].0))}
  }

  ghost predicate AllReadable(chunks: seq<Chunk>) {
    forall i :: 0 <= i < |chunks| ==> Readable(chunks[i])
  }

  /** Chunk number i names its chain, sets its own clause's heading and is added to its chunks. */
  ghost function WithChunk(nodes: Nodes, i: nat, c: Chunk): Nodes
    requires Readable(c)
  {
    var named := WithChain(nodes, c.doc.spec, Chain(c));
    NamesItself(nodes, c);
    named[KeyOf(c) := Entry(c.heading, named[KeyOf(c)].chunks + [i])]
  }

  lemma NamesItself(nodes: Nodes, c: Chunk)
    requires Readable(c)
    ensures KeyOf(c) in WithChain(nodes, c.doc.spec, Chain(c))
  {
    WithChainKeys(nodes, c.doc.spec, Chain(c));
    assert Chain(c)[|c.breadcrumb|] == (c.clause, c.heading);
  }

  ghost function NodesOf(chunks: seq<Chunk>): Nodes
    requires AllReadable(chunks)
  {
    if chunks == [] then map[] else WithChunk(NodesOf(chunks[..|chunks| - 1]), |chunks| - 1, chunks[|chunks| - 1])
  }

  ghost function PairsOf(chunks: seq<Chunk>): Pairs
    requires AllReadable(chunks)
  {
    if chunks == [] then {}
    else PairsOf(chunks[..|chunks| - 1]) + LinksOf(chunks[|chunks| - 1].doc.spec, Chain(chunks[|chunks| - 1]))
  }

  /** A breadcrumb without a tab raises. */
  method RebuildTree(chunks: seq<Chunk>) returns (result: Option<(Nodes, Pairs)>)
    ensures result.Some? <==> AllReadable(chunks)
    ensures result.Some? ==> result.value == (NodesOf(chunks), PairsOf(chunks))
  {
    hide WithChain, LinksOf, Chain;
    var nodes: Nodes, pairs: Pairs := map[], {};
    for i := 0 to |chunks|
      invariant AllReadable(chunks[..i]) && nodes == NodesOf(chunks[..i]) && pairs == PairsOf(chunks[..i])
    {
      var c := chunks[i];
      TakeSnoc(chunks, i);
      var chain := ReadChain(c);
      if chain.None? {
        return None;
      }
      NamesItself(nodes, c);
      nodes, pairs := AddChain(nodes, pairs, c.doc.spec, chain.value);
      nodes := nodes[KeyOf(c) := Entry(c.heading, nodes[KeyOf(c)].chunks)];
      nodes := nodes[KeyOf(c) := Entry(c.heading, nodes[KeyOf(c)].chunks + [i])];
    }
    assert chunks[..|chunks|] == chunks;
    result := Some((nodes, pairs));
  }

  method ReadChain(c: Chunk) returns (chain: Option<seq<(string, string)>>)
    ensures chain.Some? <==> Readable(c)
    ensures chain.Some? ==> chain.value == Chain(c)
  {
    var parts: seq<(string, string)> := [];
    for k := 0 to |c.breadcrumb|
      invariant |parts| == k
      invariant forall j :: 0 <= j < k ==> SplitTab(c.breadcrumb[j]) == Some(parts[j])
    {
      var part := SplitTab(c.breadcrumb[k]);
      if part.None? {
        return None;
      }
      parts := parts + [part.value];
    }
    chain := Some(parts + [(c.clause, c.heading)]);
  }

  lemma NoChain(nodes: Nodes, spec: string)
    ensures WithChain(nodes, spec, []) == nodes && LinksOf(spec, []) == {}
  {
  }

  lemma ChainSnoc(nodes: Nodes, spec: string, chain: seq<(string, string)>, x: (string, string))
    ensures WithChain(nodes, spec, chain + [x]) ==
            var before := WithChain(nodes, spec, chain);
            if (spec, x.0) in before then before else before[(spec, x.0) := Entry(x.1, [])]
    ensures LinksOf(spec, chain + [x]) ==
            LinksOf(spec, chain) + if chain == [] then {} else {((spec, chain[|chain| - 1].0), (spec, x.0))}
  {
    assert (chain + [x])[..|chain|] == chain;
  }

  method AddChain(nodes: Nodes, pairs: Pairs, spec: string, chain: seq<(string, string)>)
    returns (nodes': Nodes, pairs': Pairs)
    ensures nodes' == WithChain(nodes, spec, chain) && pairs' == pairs + LinksOf(spec, chain)
  {
    hide WithChain, LinksOf;
    nodes', pairs' := nodes, pairs;
    NoChain(nodes, spec);
    assert chain[..0] == [];
    var previous: Option<Key> := None;
    for m := 0 to |chain|
      invariant nodes' == WithChain(nodes, spec, chain[..m]) && pairs' == pairs + LinksOf(spec, chain[..m])
      invariant previous == if m == 0 then None else Some((spec, chain[m - 1].0))
    {
      var (cl, heading) := chain[m];
      TakeSnoc(chain, m);
      ChainSnoc(nodes, spec, chain[..m], chain[m]);
      if (spec, cl) !in nodes' {
        nodes' := nodes'[(spec, cl) := Entry(heading, [])];
      }
      if previous.Some? {
        pairs' := pairs' + {(previous.value, (spec, cl))};
      }
      previous := Some((spec, cl));
    }
    assert chain[..|chain|] == chain;
  }

  // ----- What any list of chunks gives -----

  /** Every clause some chunk names, with the heading it names it by. */
  ghost function Mentions(chunks: seq<Chunk>): set<(Key, string)>
    requires AllReadable(chunks)
  {
    if chunks == [] then {}
    else Mentions(chunks[..|chunks| - 1]) + Named(chunks[|chunks| - 1].doc.spec, Chain(chunks[|chunks| - 1]))
  }

  ghost function Named(spec: string, chain: seq<(string, string)>): set<(Key, string)> {
    set m | 0 <= m < |chain| :: ((spec, chain[m].0), chain[m].1)
  }

  /** The chunks of a clause. */
  ghost function OwnChunks(chunks: seq<Chunk>, key: Key): seq<nat> {
    if chunks == [] then []
    else OwnChunks(chunks[..|chunks| - 1], key) + if KeyOf(chunks[|chunks| - 1]) == key then [|chunks| - 1] else []
  }

  lemma WithChunkMeaning(nodes: Nodes, i: nat, c: Chunk)
    requires Readable(c)
    ensures forall key :: key in WithChunk(nodes, i, c) <==>
              key in nodes || exists h :: (key, h) in Named(c.doc.spec, Chain(c))
    ensures forall key :: key in WithChunk(nodes, i, c) ==>
              var entry := WithChunk(nodes, i, c)[key];
              && ((key in nodes && entry.heading == nodes[key].heading)
                  || (key, entry.heading) in Named(c.doc.spec, Chain(c)))
              && entry.chunks == (if key in nodes then nodes[key].chunks else [])
                                  + (if key == KeyOf(c) then [i] else [])
    ensures KeyOf(c) in WithChunk(nodes, i, c) && WithChunk(nodes, i, c)[KeyOf(c)].heading == c.heading
  {
    var spec, chain := c.doc.spec, Chain(c);
    WithChainKeys(nodes, spec, chain);
    NamesItself(nodes, c);
    assert chain[|c.breadcrumb|] == (c.clause, c.heading);
    forall m | 0 <= m < |chain|
      ensures ((spec, chain[m].0), chain[m].1) in Named(spec, chain)
    {
    }
    hide WithChain, Chain;
  }

  /** There is a node for every clause named, under a heading it was named by, with exactly its own chunks. */
  lemma {:induction false} NodesMeaning(chunks: seq<Chunk>)
    requires AllReadable(chunks)
    ensures forall key :: key in NodesOf(chunks) <==> exists h :: (key, h) in Mentions(chunks)
    ensures forall key :: key in NodesOf(chunks) ==>
              (key, NodesOf(chunks)[key].heading) in Mentions(chunks)
              && NodesOf(chunks)[key].chunks == OwnChunks(chunks, key)
    ensures forall key :: key !in NodesOf(chunks) ==> OwnChunks(chunks, key) == []
  {
    hide WithChunk, Named, Chain;
    if chunks != [] {
      NodesMeaning(chunks[..|chunks| - 1]);
      WithChunkMeaning(NodesOf(chunks[..|chunks| - 1]), |chunks| - 1, chunks[|chunks| - 1]);
    }
  }

  lemma {:induction false} Concatenates(a: seq<Chunk>, b: seq<Chunk>, key: Key)
    requires AllReadable(a) && AllReadable(b)
    ensures AllReadable(a + b) && Mentions(a + b) == Mentions(a) + Mentions(b)
            && PairsOf(a + b) == PairsOf(a) + PairsOf(b)
    ensures |OwnChunks(a + b, key)| == |OwnChunks(a, key)| + |OwnChunks(b, key)|
  {
    hide Chain, Named, LinksOf;
    if b == [] {
      assert a + b == a;
    } else {
      Concatenates(a, b[..|b| - 1], key);
      assert (a + b)[..|a + b| - 1] == a + b[..|b| - 1];
    }
  }

  /** Chunks of one clause all say the same. */
  lemma {:induction false} SameChain(chunks: seq<Chunk>, spec: string, chain: seq<(string, string)>, key: Key)
    requires chain != []
    requires forall i :: 0 <= i < |chunks| ==>
               Readable(chunks[i]) && chunks[i].doc.spec == spec && Chain(chunks[i]) == chain
               && chunks[i].clause == chain[|chain| - 1].0
    ensures Mentions(chunks) == (if chunks == [] then {} else Named(spec, chain))
    ensures PairsOf(chunks) == (if chunks == [] then {} else LinksOf(spec, chain))
    ensures |OwnChunks(chunks, key)| == if key == (spec, chain[|chain| - 1].0) then |chunks| else 0
  {
    hide Chain, Named, LinksOf;
    if chunks != [] {
      SameChain(chunks[..|chunks| - 1], spec, chain, key);
    }
  }

  // ----- What a tree gives -----

  ghost function Titles(path: seq<Section>): (titles: seq<(string, string)>)
    ensures |titles| == |path| && forall k :: 0 <= k < |path| ==> titles[k] == (path[k].clause, path[k].heading)
  {
    seq(|path|, k requires 0 <= k < |path| => (path[k].clause, path[k].heading))
  }

  ghost function Lines(path: seq<Section>): (lines: seq<string>)
    ensures |lines| == |path| && forall k :: 0 <= k < |path| ==> lines[k] == Line(path[k])
  {
    seq(|path|, k requires 0 <= k < |path| => Line(path[k]))
  }

  ghost predicate TabFree(xs: seq<Section>) {
    forall k :: 0 <= k < |xs| ==> '\t' !in xs[k].clause
  }

  /** How many chunks a clause yields of its own. */
  ghost function Count(x: Section): nat {
    if LongEnough(x) then |BodiesOf(x)| else 0
  }

  /** Some clause here or below yields a chunk. */
  ghost predicate Bears(ts: seq<Branch>) {
    ts != [] && (Bears(ts[..|ts| - 1]) || Count(ts[|ts| - 1].head) > 0 || Bears(ts[|ts| - 1].kids))
  }

  ghost predicate BearsTree(t: Branch) {
    Count(t.head) > 0 || Bears(t.kids)
  }

  ghost function KeyOfSection(spec: string, x: Section): Key {
    (spec, x.clause)
  }

  /** The clauses that yield a chunk and their ancestors. */
  ghost function KeptNames(spec: string, ts: seq<Branch>): set<(Key, string)> {
    if ts == [] then {}
    else
      var t := ts[|ts| - 1];
      KeptNames(spec, ts[..|ts| - 1])
      + if BearsTree(t) then {(KeyOfSection(spec, t.head), t.head.heading)} + KeptNames(spec, t.kids) else {}
  }

  /** The containment among those clauses, and below the given parent. */
  ghost function KeptLinks(spec: string, parent: Option<Section>, ts: seq<Branch>): Pairs
    decreases ts
  {
    if ts == [] then {}
    else
      var t := ts[|ts| - 1];
      KeptLinks(spec, parent, ts[..|ts| - 1])
      + if BearsTree(t) then
          (if parent.Some? then {(KeyOfSection(spec, parent.value), KeyOfSection(spec, t.head))} else {})
          + KeptLinks(spec, Some(t.head), t.kids)
        else {}
  }

  /** The chunks of the clauses with a given number. */
  ghost function CountIn(spec: string, ts: seq<Branch>, key: Key): nat {
    if ts == [] then 0
    else
      var t := ts[|ts| - 1];
      CountIn(spec, ts[..|ts| - 1], key)
      + (if KeyOfSection(spec, t.head) == key then Count(t.head) else 0) + CountIn(spec, t.kids, key)
  }

  lemma ChunkChain(doc: Doc, path: seq<Section>, x: Section, body: string)
    requires TabFree(path)
    ensures var c := ChunkOf(doc, x.clause, x.heading, Lines(path), body);
            Readable(c) && Chain(c) == Titles(path + [x]) && c.doc.spec == doc.spec && c.clause == x.clause
  {
    var c := ChunkOf(doc, x.clause, x.heading, Lines(path), body);
    forall k | 0 <= k < |path|
      ensures SplitTab(c.breadcrumb[k]) == Some(Titles(path)[k])
    {
      SplitTabInverts(path[k].clause, path[k].heading);
    }
    hide SplitTab, HeadingLine;
    assert Readable(c);
    assert Titles(path + [x]) == Titles(path) + [(x.clause, x.heading)];
  }

  lemma OwnMeaning(doc: Doc, path: seq<Section>, x: Section, key: Key)
    requires TabFree(path)
    ensures var chunks := ChunksOf(doc, x, Lines(path));
            && AllReadable(chunks) && |chunks| == Count(x)
            && Mentions(chunks) == (if Count(x) == 0 then {} else Named(doc.spec, Titles(path + [x])))
            && PairsOf(chunks) == (if Count(x) == 0 then {} else LinksOf(doc.spec, Titles(path + [x])))
            && |OwnChunks(chunks, key)| == if key == KeyOfSection(doc.spec, x) then Count(x) else 0
  {
    hide Chain, ChunkOf, Named, LinksOf, Packing.PackOf, BodiesOf;
    var chunks := ChunksOf(doc, x, Lines(path));
    forall i | 0 <= i < |chunks|
      ensures Readable(chunks[i]) && Chain(chunks[i]) == Titles(path + [x])
      ensures chunks[i].doc.spec == doc.spec && chunks[i].clause == x.clause
    {
      ChunkChain(doc, path, x, BodiesOf(x)[i]);
    }
    SameChain(chunks, doc.spec, Titles(path + [x]), key);
  }

  lemma TitlesSnoc(spec: string, path: seq<Section>, x: Section)
    ensures Named(spec, Titles(path + [x])) == Named(spec, Titles(path)) + {(KeyOfSection(spec, x), x.heading)}
    ensures LinksOf(spec, Titles(path + [x])) ==
            LinksOf(spec, Titles(path)) +
              if path == [] then {} else {(KeyOfSection(spec, path[|path| - 1]), KeyOfSection(spec, x))}
    ensures Lines(path + [x]) == Lines(path) + [Line(x)]
  {
    var a, b := Titles(path), Titles(path + [x]);
    assert b == a + [(x.clause, x.heading)];
    ChainSnoc(map[], spec, a, (x.clause, x.heading));
    NamedSnoc(spec, a, (x.clause, x.heading));
    hide Named, LinksOf;
  }

  lemma NamedSnoc(spec: string, chain: seq<(string, string)>, x: (string, string))
    ensures Named(spec, chain + [x]) == Named(spec, chain) + {((spec, x.0), x.1)}
  {
    var longer := chain + [x];
    assert longer[|chain|] == x;
    forall m | 0 <= m < |chain|
      ensures ((spec, chain[m].0), chain[m].1) in Named(spec, longer)
    {
      assert longer[m] == chain[m];
    }
  }

  lemma PreorderParts(ts: seq<Branch>)
    requires ts != [] && TabFree(Preorder(ts))
    ensures TabFree(Preorder(ts[..|ts| - 1])) && '\t' !in ts[|ts| - 1].head.clause
            && TabFree(Preorder(ts[|ts| - 1].kids))
  {
    var a, x, b := Preorder(ts[..|ts| - 1]), ts[|ts| - 1].head, Preorder(ts[|ts| - 1].kids);
    var all := Preorder(ts);
    assert all == a + [x] + b;
    assert forall k :: 0 <= k < |a| ==> all[k] == a[k];
    assert all[|a|] == x;
    assert forall k :: 0 <= k < |b| ==> all[|a| + 1 + k] == b[k];
  }

  ghost function Parent(path: seq<Section>): Option<Section> {
    if path == [] then None else Some(path[|path| - 1])
  }

  /** The chunks emitted for ts below path name the kept clauses of ts, and, if there are any, the path. */
  ghost predicate Shows(doc: Doc, path: seq<Section>, ts: seq<Branch>, chunks: seq<Chunk>, key: Key) {
    && AllReadable(chunks) && (chunks == [] <==> !Bears(ts))
    && Mentions(chunks) == (if Bears(ts) then Named(doc.spec, Titles(path)) else {}) + KeptNames(doc.spec, ts)
    && PairsOf(chunks) == (if Bears(ts) then LinksOf(doc.spec, Titles(path)) else {})
                          + KeptLinks(doc.spec, Parent(path), ts)
    && |OwnChunks(chunks, key)| == CountIn(doc.spec, ts, key)
  }

  lemma {:induction false} EmittedShows(doc: Doc, ts: seq<Branch>, path: seq<Section>, key: Key)
    requires TabFree(path) && TabFree(Preorder(ts))
    ensures Shows(doc, path, ts, Emitted(doc, ts, Lines(path)), key)
    decreases ts
  {
    hide Shows, Preorder, Emitted, TabFree;
    if ts == [] {
      ShowsNothing(doc, path, key);
    } else {
      var front, t := ts[..|ts| - 1], ts[|ts| - 1];
      PreorderParts(ts);
      assert TabFree(path + [t.head]) by {
        TabFreeSnoc(path, t.head);
      }
      EmittedShows(doc, front, path, key);
      EmittedShows(doc, t.kids, path + [t.head], key);
      ShowsMore(doc, path, front, t, key);
      assert ts == front + [t];
    }
  }

  lemma TabFreeSnoc(path: seq<Section>, x: Section)
    requires TabFree(path) && '\t' !in x.clause
    ensures TabFree(path + [x])
  {
  }

  lemma ShowsNothing(doc: Doc, path: seq<Section>, key: Key)
    ensures Shows(doc, path, [], Emitted(doc, [], Lines(path)), key)
  {
  }

  lemma KeptSnoc(spec: string, parent: Option<Section>, front: seq<Branch>, t: Branch, key: Key)
    ensures var ts := front + [t];
            && (Bears(ts) <==> Bears(front) || BearsTree(t))
            && KeptNames(spec, ts) == KeptNames(spec, front)
                 + (if BearsTree(t) then {(KeyOfSection(spec, t.head), t.head.heading)} + KeptNames(spec, t.kids)
                    else {})
            && KeptLinks(spec, parent, ts) == KeptLinks(spec, parent, front)
                 + (if BearsTree(t) then
                      (if parent.Some? then {(KeyOfSection(spec, parent.value), KeyOfSection(spec, t.head))} else {})
                      + KeptLinks(spec, Some(t.head), t.kids)
                    else {})
            && CountIn(spec, ts, key) == CountIn(spec, front, key)
                 + (if KeyOfSection(spec, t.head) == key then Count(t.head) else 0) + CountIn(spec, t.kids, key)
    ensures !Bears(t.kids) ==> KeptNames(spec, t.kids) == {} && KeptLinks(spec, Some(t.head), t.kids) == {}
  {
    var ts := front + [t];
    assert ts[..|front|] == front && ts[|front|] == t;
    NoneKept(spec, Some(t.head), t.kids);
    hide Count, KeyOfSection;
  }

  lemma {:induction false} NoneKept(spec: string, parent: Option<Section>, ts: seq<Branch>)
    ensures !Bears(ts) ==> KeptNames(spec, ts) == {} && KeptLinks(spec, parent, ts) == {}
  {
    hide Count;
    if ts != [] {
      NoneKept(spec, parent, ts[..|ts| - 1]);
    }
  }

  lemma ShowsMore(doc: Doc, path: seq<Section>, front: seq<Branch>, t: Branch, key: Key)
    requires TabFree(path)
    ensures Shows(doc, path, front, Emitted(doc, front, Lines(path)), key)
            && Shows(doc, path + [t.head], t.kids, Emitted(doc, t.kids, Lines(path + [t.head])), key) ==>
              Shows(doc, path, front + [t], Emitted(doc, front + [t], Lines(path)), key)
  {
    hide Emitted, ChunksOf, Mentions, PairsOf, OwnChunks, Count, Named, LinksOf, Titles, Lines;
    hide KeptNames, KeptLinks, CountIn, Bears, AllReadable, TabFree, KeyOfSection;
    KeptSnoc(doc.spec, Parent(path), front, t, key);
    var own := ChunksOf(doc, t.head, Lines(path));
    var before := Emitted(doc, front, Lines(path));
    var below := Emitted(doc, t.kids, Lines(path + [t.head]));
    TitlesSnoc(doc.spec, path, t.head);
    EmittedSnoc(doc, front, t, Lines(path));
    OwnMeaning(doc, path, t.head, key);
    if AllReadable(before) && AllReadable(below) {
      Concatenates(own, below, key);
      Concatenates(before, own + below, key);
      var chunks := before + (own + below);
      assert PairsOf(chunks) == PairsOf(before) + PairsOf(own) + PairsOf(below);
      assert Mentions(chunks) == Mentions(before) + Mentions(own) + Mentions(below);
    }
  }

  // ----- The round trip -----

  ghost predicate TokensHaveNoTab(r: Reader) {
    forall text: string :: r.token(text).Some? ==> '\t' !in r.token(text).value
  }

  /** Every document: the nodes and the containment rebuilt from its chunks are those of its clause tree,
      restricted to the clauses that yield a chunk and their ancestors. */
  lemma RoundTrip(doc: Doc, r: Reader, units: seq<Unit>)
    requires TokensHaveNoTab(r)
    ensures var ts := Clauses(r, units);
            var chunks := Emitted(doc, ts, []);
            && AllReadable(chunks)
            && PairsOf(chunks) == KeptLinks(doc.spec, None, ts)
            && (forall key :: key in NodesOf(chunks) <==> exists h :: (key, h) in KeptNames(doc.spec, ts))
            && (forall key :: key in NodesOf(chunks) ==>
                  (key, NodesOf(chunks)[key].heading) in KeptNames(doc.spec, ts)
                  && |NodesOf(chunks)[key].chunks| == CountIn(doc.spec, ts, key))
  {
    hide Emitted, Clauses, KeptLinks, KeptNames, CountIn, NodesOf, PairsOf, Mentions, OwnChunks;
    var ts := Clauses(r, units);
    var chunks := Emitted(doc, ts, []);
    ClausesAreTabFree(r, units);
    ShownAtTop(doc, ts);
    NodesMeaning(chunks);
  }

  lemma ShownAtTop(doc: Doc, ts: seq<Branch>)
    requires TabFree(Preorder(ts))
    ensures var chunks := Emitted(doc, ts, []);
            && AllReadable(chunks) && Mentions(chunks) == KeptNames(doc.spec, ts)
            && PairsOf(chunks) == KeptLinks(doc.spec, None, ts)
            && forall key :: |OwnChunks(chunks, key)| == CountIn(doc.spec, ts, key)
  {
    hide Emitted, KeptLinks, KeptNames, CountIn, PairsOf, Mentions, OwnChunks, Bears, AllReadable;
    assert Lines([]) == [] && Named(doc.spec, Titles([])) == {};
    forall key: Key
      ensures |OwnChunks(Emitted(doc, ts, []), key)| == CountIn(doc.spec, ts, key)
    {
      EmittedShows(doc, ts, [], key);
    }
    EmittedShows(doc, ts, [], ("", ""));
  }

  lemma ClausesAreTabFree(r: Reader, units: seq<Unit>)
    requires TokensHaveNoTab(r)
    ensures TabFree(Preorder(Clauses(r, units)))
  {
    hide Preorder, Clauses;
    TreeIsTheDocument(r, units);
    var xs := Preorder(Clauses(r, units));
    forall k | 0 <= k < |xs|
      ensures '\t' !in xs[k].clause
    {
      assert Faithful(r, units, xs[k]);
    }
  }

  ghost predicate DistinctClauses(xs: seq<Section>) {
    forall k, l :: 0 <= k < l < |xs| ==> xs[k].clause != xs[l].clause
  }

  /** When no clause number occurs twice, every kept clause gets back its own heading and exactly its own chunks. */
  lemma RoundTripOfClause(doc: Doc, r: Reader, units: seq<Unit>, k: nat)
    requires TokensHaveNoTab(r) && DistinctClauses(Preorder(Clauses(r, units))) && k < |Preorder(Clauses(r, units))|
    ensures var x := Preorder(Clauses(r, units))[k];
            var chunks := Emitted(doc, Clauses(r, units), []);
            AllReadable(chunks) &&
            ((KeyOfSection(doc.spec, x), x.heading) in KeptNames(doc.spec, Clauses(r, units)) ==>
               && KeyOfSection(doc.spec, x) in NodesOf(chunks)
               && NodesOf(chunks)[KeyOfSection(doc.spec, x)].heading == x.heading
               && |NodesOf(chunks)[KeyOfSection(doc.spec, x)].chunks| == Count(x)
               && forall i :: i in NodesOf(chunks)[KeyOfSection(doc.spec, x)].chunks <==>
                    0 <= i < |chunks| && chunks[i].clause == x.clause)
  {
    hide Emitted, Clauses, NodesOf, Count, Preorder, KeptNames;
    var ts := Clauses(r, units);
    var chunks := Emitted(doc, ts, []);
    var xs := Preorder(ts);
    var x := xs[k];
    var key := KeyOfSection(doc.spec, x);
    RoundTrip(doc, r, units);
    if (key, x.heading) in KeptNames(doc.spec, ts) {
      NodesMeaning(chunks);
      KeptAreClauses(doc.spec, ts, key, NodesOf(chunks)[key].heading);
      CountsAreSums(doc.spec, ts, key);
      OneOfEach(doc.spec, xs, k);
      EmittedFrom(doc, ts, []);
      OwnAre(chunks, key);
    }
  }

  lemma {:induction false} OwnAre(chunks: seq<Chunk>, key: Key)
    ensures forall i :: i in OwnChunks(chunks, key) <==> 0 <= i < |chunks| && KeyOf(chunks[i]) == key
  {
    if chunks != [] {
      OwnAre(chunks[..|chunks| - 1], key);
    }
  }

  lemma {:induction false} EmittedFrom(doc: Doc, ts: seq<Branch>, crumbs: seq<string>)
    ensures forall i :: 0 <= i < |Emitted(doc, ts, crumbs)| ==> Emitted(doc, ts, crumbs)[i].doc == doc
    decreases ts
  {
    hide BodiesOf, LongEnough;
    if ts != [] {
      EmittedFrom(doc, ts[..|ts| - 1], crumbs);
      EmittedFrom(doc, ts[|ts| - 1].kids, crumbs + [Line(ts[|ts| - 1].head)]);
    }
  }

  lemma {:induction false} KeptAreClauses(spec: string, ts: seq<Branch>, key: Key, heading: string)
    ensures (key, heading) in KeptNames(spec, ts) ==>
            exists k :: 0 <= k < |Preorder(ts)| && KeyOfSection(spec, Preorder(ts)[k]) == key
              && Preorder(ts)[k].heading == heading
    decreases ts
  {
    hide Count, Bears;
    if (key, heading) !in KeptNames(spec, ts) {
      return;
    }
    var front, t := ts[..|ts| - 1], ts[|ts| - 1];
    var a, b := Preorder(front), Preorder(t.kids);
    var all := a + [t.head] + b;
    assert all == Preorder(ts);
    if (key, heading) in KeptNames(spec, front) {
      KeptAreClauses(spec, front, key, heading);
      var k :| 0 <= k < |a| && KeyOfSection(spec, a[k]) == key && a[k].heading == heading;
      assert all[k] == a[k];
    } else if (key, heading) in KeptNames(spec, t.kids) {
      KeptAreClauses(spec, t.kids, key, heading);
      var k :| 0 <= k < |b| && KeyOfSection(spec, b[k]) == key && b[k].heading == heading;
      assert all[|a| + 1 + k] == b[k];
    } else {
      assert all[|a|] == t.head;
    }
  }

  ghost function SumOf(spec: string, xs: seq<Section>, key: Key): nat {
    if xs == [] then 0
    else SumOf(spec, xs[..|xs| - 1], key) + if KeyOfSection(spec, xs[|xs| - 1]) == key then Count(xs[|xs| - 1]) else 0
  }

  lemma {:induction false} SumConcat(spec: string, xs: seq<Section>, ys: seq<Section>, key: Key)
    ensures SumOf(spec, xs + ys, key) == SumOf(spec, xs, key) + SumOf(spec, ys, key)
  {
    hide Count;
    if ys == [] {
      assert xs + ys == xs;
    } else {
      SumConcat(spec, xs, ys[..|ys| - 1], key);
      assert (xs + ys)[..|xs + ys| - 1] == xs + ys[..|ys| - 1];
    }
  }

  lemma {:induction false} CountsAreSums(spec: string, ts: seq<Branch>, key: Key)
    ensures CountIn(spec, ts, key) == SumOf(spec, Preorder(ts), key)
    decreases ts
  {
    hide Count;
    if ts != [] {
      var front, t := ts[..|ts| - 1], ts[|ts| - 1];
      CountsAreSums(spec, front, key);
      CountsAreSums(spec, t.kids, key);
      SumConcat(spec, Preorder(front), [t.head], key);
      SumConcat(spec, Preorder(front) + [t.head], Preorder(t.kids), key);
      assert [t.head][..0] == [];
    }
  }

  lemma {:induction false} OneOfEach(spec: string, xs: seq<Section>, k: nat)
    requires DistinctClauses(xs) && k < |xs|
    ensures SumOf(spec, xs, KeyOfSection(spec, xs[k])) == Count(xs[k])
    ensures forall l :: 0 <= l < |xs| && xs[l].clause == xs[k].clause ==> l == k
  {
    hide Count;
    var front := xs[..|xs| - 1];
    if k < |front| {
      OneOfEach(spec, front, k);
    } else {
      NoneOf(spec, front, KeyOfSection(spec, xs[k]));
    }
  }

  lemma {:induction false} NoneOf(spec: string, xs: seq<Section>, key: Key)
    requires forall k :: 0 <= k < |xs| ==> KeyOfSection(spec, xs[k]) != key
    ensures SumOf(spec, xs, key) == 0
  {
    if xs != [] {
      NoneOf(spec, xs[..|xs| - 1], key);
    }
  }

  /** Chunks of other specifications leave a specification's nodes alone. */
  lemma {:induction false} SpecsAreIndependent(a: seq<Chunk>, b: seq<Chunk>, key: Key)
    requires AllReadable(a) && AllReadable(b) && forall i :: 0 <= i < |b| ==> b[i].doc.spec != key.0
    ensures AllReadable(a + b) && PairsOf(a + b) == PairsOf(a) + PairsOf(b)
    ensures key in NodesOf(a + b) <==> key in NodesOf(a)
    ensures key in NodesOf(a) ==> NodesOf(a + b)[key] == NodesOf(a)[key]
  {
    hide Chain, LinksOf, PairsOf, WithChain;
    Concatenates(a, b, key);
    if b == [] {
      assert a + b == a;
    } else {
      var front, c := b[..|b| - 1], b[|b| - 1];
      SpecsAreIndependent(a, front, key);
      assert (a + b)[..|a + b| - 1] == a + front;
      WithChainKeys(NodesOf(a + front), c.doc.spec, Chain(c));
      NamesItself(NodesOf(a + front), c);
    }
  }
}
