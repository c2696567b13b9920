/** The corpus builder over its heap of clause nodes, and the chunks it emits
    (triage/scripts/build_corpus.py:201-257). */
module Corpus {
  import opened Common
  import opened ClauseTree
  import opened Strings
  import Packing

  const MAX_CHARS: nat := 6000
  const MIN_CHARS: nat := 80

  class Node {
    const clause: Option<string>
    const heading: string
    var units: seq<Unit>
    var children: seq<Node>
    /** Where the heading stands in the document; -1 for the root. */
    ghost const at: int

    constructor (clause: Option<string>, heading: string, ghost at: int)
      ensures this.clause == clause && this.heading == heading && this.at == at
      ensures units == [] && children == []
    {
      this.clause, this.heading, this.at := clause, heading, at;
      units, children := [], [];
    }
  }

  // ----- Nodes as trees -----

  /** A set of finished clauses: whatever they lead to is in it, and further down the document. */
  ghost predicate Finished(done: set<Node>, limit: nat)
    reads done
  {
    forall n :: n in done ==> n.clause.Some? && 0 <= n.at < limit && Leads(n.children, n.at, done)
  }

  ghost predicate Leads(ns: seq<Node>, at: int, done: set<Node>) {
    forall k :: 0 <= k < |ns| ==> ns[k] in done && at < ns[k].at
  }

  ghost function HeadOf(n: Node): Section
    requires n.clause.Some? && n.at >= 0
    reads n`units
  {
    Section(n.at, n.clause.value, n.heading, n.units)
  }

  ghost function TreeOf(n: Node, done: set<Node>, limit: nat): Branch
    requires Finished(done, limit) && n in done
    reads done
    decreases limit - n.at, 1, 0
  {
    Branch(HeadOf(n), TreesOf(n.children, n.at, done, limit))
  }

  ghost function TreesOf(ns: seq<Node>, at: int, done: set<Node>, limit: nat): seq<Branch>
    requires Finished(done, limit) && Leads(ns, at, done) && at < limit
    reads done
    decreases limit - at, 0, |ns|
  {
    if ns == [] then [] else TreesOf(ns[..|ns| - 1], at, done, limit) + [TreeOf(ns[|ns| - 1], done, limit)]
  }

  lemma {:induction false} TreeStays(n: Node, done: set<Node>, more: set<Node>, limit: nat)
    requires Finished(done, limit) && Finished(more, limit) && done <= more && n in done
    ensures TreeOf(n, done, limit) == TreeOf(n, more, limit)
    decreases limit - n.at, 1, 0
  {
    TreesStay(n.children, n.at, done, more, limit);
  }

  lemma {:induction false} TreesStay(ns: seq<Node>, at: int, done: set<Node>, more: set<Node>, limit: nat)
    requires Finished(done, limit) && Finished(more, limit) && done <= more && Leads(ns, at, done) && at < limit
    ensures TreesOf(ns, at, done, limit) == TreesOf(ns, at, more, limit)
    decreases limit - at, 0, |ns|
  {
    if ns != [] {
      TreesStay(ns[..|ns| - 1], at, done, more, limit);
      TreeStays(ns[|ns| - 1], done, more, limit);
    }
  }

  // ----- The stack -----

  /** The open node n has the finished children kids, and then next, if given, which is open too. */
  ghost predicate Holds(n: Node, kids: seq<Branch>, next: Node?, done: set<Node>, limit: nat)
    reads n`children, done
  {
    && Finished(done, limit) && n !in done && -1 <= n.at < limit
    && (next != null ==> n.children != [] && n.children[|n.children| - 1] == next && n.at < next.at)
    && var closed := if next != null then n.children[..|n.children| - 1] else n.children;
       Leads(closed, n.at, done) && TreesOf(closed, n.at, done, limit) == kids
  }

  ghost function KidsAt(s: Stack, k: nat): seq<Branch>
    requires k <= |s.frames|
  {
    if k == 0 then s.forest else s.frames[k - 1].kids
  }

  ghost function NextAt(nodes: seq<Node>, s: Stack, k: nat): Node?
    requires |nodes| == |s.frames| + 1 && k < |nodes|
  {
    if k < |s.frames| && s.frames[k].attached then nodes[k + 1] else null
  }

  ghost predicate IsHead(n: Node, head: Section)
    reads n`units
  {
    n.clause.Some? && n.at >= 0 && HeadOf(n) == head
  }

  /** The nodes on the stack are the root and the open clauses of s. */
  ghost predicate Mirrors(nodes: seq<Node>, s: Stack, done: set<Node>, limit: nat)
    reads nodes, done
  {
    && |nodes| == |s.frames| + 1 && Distinct(nodes) && nodes[0].at == -1 && nodes[0].clause.None?
    && (forall k {:trigger s.frames[k]} :: 0 <= k < |s.frames| ==> IsHead(nodes[k + 1], s.frames[k].head))
    && (forall k {:trigger KidsAt(s, k)} :: 0 <= k < |nodes| ==>
          Holds(nodes[k], KidsAt(s, k), NextAt(nodes, s, k), done, limit))
  }

  lemma HoldsStays(n: Node, kids: seq<Branch>, next: Node?, done: set<Node>, more: set<Node>, limit: nat)
    requires Holds(n, kids, next, done, limit) && Finished(more, limit) && done <= more && n !in more
    ensures Holds(n, kids, next, more, limit)
  {
    TreesStay(if next != null then n.children[..|n.children| - 1] else n.children, n.at, done, more, limit);
  }

  /** A node without an open child is finished once it is closed. */
  lemma Finishes(n: Node, kids: seq<Branch>, head: Section, done: set<Node>, limit: nat)
    requires Holds(n, kids, null, done, limit) && IsHead(n, head)
    ensures Finished(done + {n}, limit) && TreeOf(n, done + {n}, limit) == Branch(head, kids)
  {
    TreesStay(n.children, n.at, done, done + {n}, limit);
  }

  lemma HoldsMore(n: Node, kids: seq<Branch>, next: Node, t: Branch, done: set<Node>, limit: nat)
    requires Holds(n, kids, next, done, limit) && n != next
    requires Finished(done + {next}, limit) && TreeOf(next, done + {next}, limit) == t
    ensures Holds(n, kids + [t], null, done + {next}, limit)
  {
    TreesStay(n.children[..|n.children| - 1], n.at, done, done + {next}, limit);
  }

  lemma PopKids(s: Stack)
    requires s.frames != []
    ensures forall k :: 0 <= k < |Pop(s).frames| ==>
              Pop(s).frames[k].head == s.frames[k].head && Pop(s).frames[k].attached == s.frames[k].attached
    ensures forall k :: 0 <= k < |s.frames| ==>
              KidsAt(Pop(s), k) == KidsAt(s, k) +
                (if k == |s.frames| - 1 && Top(s).attached then [Branch(Top(s).head, Top(s).kids)] else [])
  {
  }

  /** Popping finishes the innermost clause. */
  lemma MirrorsPop(nodes: seq<Node>, s: Stack, done: set<Node>, limit: nat)
    requires Mirrors(nodes, s, done, limit) && s.frames != []
    ensures Mirrors(nodes[..|nodes| - 1], Pop(s), done + {nodes[|nodes| - 1]}, limit)
  {
    hide Holds, Finished, TreeOf, Pop, KidsAt;
    var last := |nodes| - 1;
    var n, rest := nodes[last], nodes[..last];
    PopKids(s);
    assert KidsAt(s, last) == Top(s).kids by {
      KidsOfTop(s);
    }
    assert Holds(n, Top(s).kids, null, done, limit);
    Finishes(n, Top(s).kids, Top(s).head, done, limit);
    forall k | 0 <= k < last
      ensures Holds(rest[k], KidsAt(Pop(s), k), NextAt(rest, Pop(s), k), done + {n}, limit)
    {
      MirrorsPopAt(nodes, s, done, limit, k);
    }
  }

  lemma KidsOfTop(s: Stack)
    requires s.frames != []
    ensures KidsAt(s, |s.frames|) == Top(s).kids
  {
  }

  lemma MirrorsAt(nodes: seq<Node>, s: Stack, done: set<Node>, limit: nat, k: nat)
    requires Mirrors(nodes, s, done, limit) && k < |nodes|
    ensures |nodes| == |s.frames| + 1 && Holds(nodes[k], KidsAt(s, k), NextAt(nodes, s, k), done, limit)
    ensures k < |nodes| - 1 ==> nodes[k] != nodes[|nodes| - 1]
  {
    hide Finished, TreesOf, Leads;
  }

  lemma MirrorsPopAt(nodes: seq<Node>, s: Stack, done: set<Node>, limit: nat, k: nat)
    requires Mirrors(nodes, s, done, limit) && s.frames != [] && k < |nodes| - 1
    requires var n := nodes[|nodes| - 1];
             Finished(done + {n}, limit) && TreeOf(n, done + {n}, limit) == Branch(Top(s).head, Top(s).kids)
    ensures var rest := nodes[..|nodes| - 1];
            Holds(rest[k], KidsAt(Pop(s), k), NextAt(rest, Pop(s), k), done + {nodes[|nodes| - 1]}, limit)
  {
    hide Finished, TreeOf, Pop, KidsAt, Mirrors;
    var last := |nodes| - 1;
    var n := nodes[last];
    MirrorsAt(nodes, s, done, limit, k);
    PopKids(s);
    if k == last - 1 && Top(s).attached {
      HoldsMore(nodes[k], KidsAt(s, k), n, Branch(Top(s).head, Top(s).kids), done, limit);
    } else {
      assert KidsAt(s, k) + [] == KidsAt(s, k);
      assert nodes[k] !in done + {n};
      HoldsStays(nodes[k], KidsAt(s, k), NextAt(nodes, s, k), done, done + {n}, limit);
    }
    hide Holds;
  }

  lemma PushKids(nodes: seq<Node>, s: Stack, f: Frame, n: Node)
    requires |nodes| == |s.frames| + 1
    ensures |Push(s, f).frames| == |s.frames| + 1
    ensures forall k :: 0 <= k <= |s.frames| ==> KidsAt(Push(s, f), k) == KidsAt(s, k)
    ensures KidsAt(Push(s, f), |s.frames| + 1) == f.kids
    ensures forall k :: 0 <= k < |s.frames| ==> NextAt(nodes + [n], Push(s, f), k) == NextAt(nodes, s, k)
    ensures NextAt(nodes, s, |s.frames|) == null
    ensures NextAt(nodes + [n], Push(s, f), |s.frames|) == if f.attached then n else null
    ensures NextAt(nodes + [n], Push(s, f), |s.frames| + 1) == null
  {
  }

  lemma HoldsNew(n: Node, done: set<Node>, limit: nat)
    requires Finished(done, limit) && n !in done && n.children == [] && -1 <= n.at < limit
    ensures Holds(n, [], null, done, limit)
  {
  }

  lemma MirrorsFinished(nodes: seq<Node>, s: Stack, done: set<Node>, limit: nat)
    requires Mirrors(nodes, s, done, limit)
    ensures Finished(done, limit)
  {
    assert Holds(nodes[0], KidsAt(s, 0), NextAt(nodes, s, 0), done, limit);
  }

  /** A new clause on top of the stack, not yet a child of any. */
  lemma MirrorsPushed(nodes: seq<Node>, s: Stack, done: set<Node>, limit: nat, n: Node, head: Section)
    requires Mirrors(nodes, s, done, limit)
    requires n !in nodes && n !in done && n.children == [] && n.at < limit && IsHead(n, head)
    ensures Mirrors(nodes + [n], Push(s, Frame(head, [], false)), done, limit)
  {
    hide Holds, KidsAt, NextAt, Finished;
    MirrorsFinished(nodes, s, done, limit);
    var f := Frame(head, [], false);
    var t, longer := Push(s, f), nodes + [n];
    PushKids(nodes, s, f, n);
    HoldsNew(n, done, limit);
    forall k | 0 <= k < |longer|
      ensures Holds(longer[k], KidsAt(t, k), NextAt(longer, t, k), done, limit)
    {
      if k < |nodes| {
        assert Holds(nodes[k], KidsAt(s, k), NextAt(nodes, s, k), done, limit);
      }
    }
  }

  /** Attached, it becomes the last child of the clause below. */
  method Attach(below: Node, n: Node, ghost nodes: seq<Node>, ghost s: Stack, ghost done: set<Node>, ghost limit: nat,
                ghost head: Section)
    requires Mirrors(nodes, s, done, limit) && below == nodes[|nodes| - 1]
    requires n !in nodes && n !in done && n.children == [] && IsHead(n, head)
    requires below.at < n.at < limit
    modifies below`children
    ensures Mirrors(nodes + [n], Push(s, Frame(head, [], true)), done, limit)
    ensures below.children == old(below.children) + [n]
  {
    hide Holds, KidsAt, NextAt, Finished;
    MirrorsFinished(nodes, s, done, limit);
    ghost var f := Frame(head, [], true);
    ghost var t, longer := Push(s, f), nodes + [n];
    PushKids(nodes, s, f, n);
    HoldsNew(n, done, limit);
    assert Holds(below, KidsAt(s, |s.frames|), null, done, limit);
    AppendChild(below, n, KidsAt(s, |s.frames|), done, limit);
    forall k | 0 <= k < |longer|
      ensures Holds(longer[k], KidsAt(t, k), NextAt(longer, t, k), done, limit)
    {
      if k < |nodes| - 1 {
        assert old(Holds(nodes[k], KidsAt(s, k), NextAt(nodes, s, k), done, limit));
      }
    }
  }

  method AppendChild(below: Node, n: Node, ghost kids: seq<Branch>, ghost done: set<Node>, ghost limit: nat)
    requires Holds(below, kids, null, done, limit) && below.at < n.at
    modifies below`children
    ensures Holds(below, kids, n, done, limit) && below.children == old(below.children) + [n]
  {
    below.children := below.children + [n];
    assert below.children[..|below.children| - 1] == old(below.children);
  }

  lemma UnitKids(nodes: seq<Node>, s: Stack, u: Unit)
    requires |nodes| == |s.frames| + 1 && s.frames != []
    ensures |AddUnit(s, u).frames| == |s.frames|
    ensures forall k :: 0 <= k < |nodes| ==>
              KidsAt(AddUnit(s, u), k) == KidsAt(s, k) && NextAt(nodes, AddUnit(s, u), k) == NextAt(nodes, s, k)
    ensures forall k :: 0 <= k < |s.frames| - 1 ==> AddUnit(s, u).frames[k] == s.frames[k]
    ensures Top(AddUnit(s, u)).head == Top(s).head.(units := Top(s).head.units + [u])
  {
  }

  method AddText(top: Node, u: Unit, ghost nodes: seq<Node>, ghost s: Stack, ghost done: set<Node>, ghost limit: nat)
    requires Mirrors(nodes, s, done, limit) && |nodes| > 1 && top == nodes[|nodes| - 1]
    modifies top`units
    ensures Mirrors(nodes, AddUnit(s, u), done, limit) && top.units == old(top.units) + [u]
  {
    hide Holds, KidsAt, NextAt, Finished, AddUnit;
    ghost var t := AddUnit(s, u);
    UnitKids(nodes, s, u);
    assert IsHead(top, Top(s).head) && top !in done by {
      MirrorsShape(nodes, s, done, limit);
    }
    top.units := top.units + [u];
    forall k | 0 <= k < |nodes|
      ensures Holds(nodes[k], KidsAt(t, k), NextAt(nodes, t, k), done, limit)
    {
      assert old(Holds(nodes[k], KidsAt(s, k), NextAt(nodes, s, k), done, limit));
    }
    forall k | 0 <= k < |t.frames|
      ensures IsHead(nodes[k + 1], t.frames[k].head)
    {
      assert old(IsHead(nodes[k + 1], s.frames[k].head));
    }
  }

  /** Builds the clause tree; done is the set of its clauses. */
  method Build(r: Reader, units: seq<Unit>) returns (root: Node, ghost done: set<Node>)
    ensures Finished(done, |units|) && root.clause.None? && root.at == -1 && Leads(root.children, -1, done)
    ensures TreesOf(root.children, -1, done, |units|) == Clauses(r, units)
  {
    hide Holds, Finished, TreesOf, Mirrors, Step;
    root := new Node(None, "", -1);
    var stack := [root];
    done := {};
    ghost var s := Stack([], []);
    MirrorsStart(root, |units|);
    for i := 0 to |units|
      invariant s == After(r, units[..i]) && Mirrors(stack, s, done, |units|)
      invariant Opened(stack, i) && stack[0] == root && fresh(set n | n in stack)
    {
      var u := units[i];
      TakeSnoc(units, i);
      MirrorsShape(stack, s, done, |units|);
      if u.kind == Heading && r.token(u.text).Some? {
        stack, done := Open(r, i, u, stack, s, done, |units|);
      } else if |stack| > 1 {
        AddText(stack[|stack| - 1], if u.kind == Heading then Unit(Paragraph, u.text) else u, stack, s, done, |units|);
      }
      StepCases(r, s, i, u);
      s := Step(r, s, i, u);
    }
    assert units[..|units|] == units;
    done := MirrorsEnd(stack, s, done, |units|);
  }

  ghost predicate Opened(stack: seq<Node>, i: nat) {
    stack != [] && forall k :: 0 <= k < |stack| ==> stack[k].at < i
  }

  /** A numbered heading: unless its title is skipped, the clauses it does not extend are closed and it is attached. */
  method Open(r: Reader, i: nat, u: Unit, nodes: seq<Node>, ghost s: Stack, ghost done: set<Node>, ghost limit: nat)
    returns (stack: seq<Node>, ghost finished: set<Node>)
    requires Numbered(r, u) && i < limit && Mirrors(nodes, s, done, limit) && Opened(nodes, i)
    modifies nodes
    ensures Mirrors(stack, Step(r, s, i, u), finished, limit) && Opened(stack, i + 1)
    ensures stack[0] == nodes[0] && fresh((set n | n in stack) - (set n | n in nodes))
  {
    hide Holds, Finished, TreesOf, Mirrors, PopTo;
    var node := new Node(r.token(u.text), r.title(u.text), i);
    ghost var head := HeadOf(node);
    if r.skip(node.heading) {
      finished := done;
      MirrorsPushed(nodes, s, finished, limit, node, head);
      stack := nodes + [node];
    } else {
      stack, finished := PopStack(nodes, node.clause.value, s, done, limit);
      Attach(stack[|stack| - 1], node, stack, PopTo(s, node.clause.value), finished, limit, head);
      stack := stack + [node];
    }
  }

  /** Closes the open clauses that the heading's clause does not extend. */
  method PopStack(nodes: seq<Node>, clause: string, ghost s: Stack, ghost done: set<Node>, ghost limit: nat)
    returns (stack: seq<Node>, ghost finished: set<Node>)
    requires Mirrors(nodes, s, done, limit)
    ensures Mirrors(stack, PopTo(s, clause), finished, limit)
    ensures stack != [] && stack <= nodes && finished <= done + set n | n in nodes
  {
    hide Mirrors;
    stack, finished := nodes, done;
    ghost var t := s;
    MirrorsShape(stack, t, finished, limit);
    while |stack| > 1 && !(stack[|stack| - 1].clause.value + "." <= clause)
      invariant Mirrors(stack, t, finished, limit) && PopTo(s, clause) == PopTo(t, clause)
      invariant |stack| == |t.frames| + 1
      invariant forall k :: 0 < k < |stack| ==> stack[k].clause == Some(t.frames[k - 1].head.clause)
      invariant stack <= nodes && finished <= done + set n | n in nodes
    {
      MirrorsPop(stack, t, finished, limit);
      finished := finished + {stack[|stack| - 1]};
      stack := stack[..|stack| - 1];
      t := Pop(t);
      MirrorsShape(stack, t, finished, limit);
    }
  }

  lemma MirrorsStart(root: Node, limit: nat)
    requires root.at == -1 && root.clause.None? && root.children == []
    ensures Mirrors([root], Stack([], []), {}, limit)
  {
  }

  lemma MirrorsShape(nodes: seq<Node>, s: Stack, done: set<Node>, limit: nat)
    requires Mirrors(nodes, s, done, limit)
    ensures |nodes| == |s.frames| + 1 && (forall k :: 0 < k < |nodes| ==> nodes[k] !in done)
    ensures forall k :: 0 < k < |nodes| ==> nodes[k].clause == Some(s.frames[k - 1].head.clause)
  {
    forall k | 0 < k < |nodes|
      ensures nodes[k] !in done && nodes[k].clause == Some(s.frames[k - 1].head.clause)
    {
      assert Holds(nodes[k], KidsAt(s, k), NextAt(nodes, s, k), done, limit);
      assert IsHead(nodes[k], s.frames[k - 1].head);
    }
  }

  lemma StepCases(r: Reader, s: Stack, i: nat, u: Unit)
    ensures !Numbered(r, u) ==> Step(r, s, i, u) == AddUnit(s, if u.kind == Heading then Unit(Paragraph, u.text) else u)
    ensures s.frames == [] ==> AddUnit(s, u) == s
  {
  }

  /** At the end of the document the open clauses are closed: the root's children are the clause tree. */
  lemma {:induction false} MirrorsEnd(nodes: seq<Node>, s: Stack, done: set<Node>, limit: nat)
    returns (finished: set<Node>)
    requires Mirrors(nodes, s, done, limit)
    ensures nodes != [] && Finished(finished, limit) && Leads(nodes[0].children, -1, finished)
    ensures TreesOf(nodes[0].children, -1, finished, limit) == CloseAll(s)
    decreases |s.frames|
  {
    if s.frames == [] {
      finished := done;
      assert Holds(nodes[0], KidsAt(s, 0), NextAt(nodes, s, 0), done, limit);
    } else {
      MirrorsPop(nodes, s, done, limit);
      finished := MirrorsEnd(nodes[..|nodes| - 1], Pop(s), done + {nodes[|nodes| - 1]}, limit);
    }
  }

  // ----- Chunks -----

  datatype Doc = Doc(spec: string, title: string, token: string, version: string)

  datatype Chunk = Chunk(doc: Doc, clause: string, heading: string, breadcrumb: seq<string>, text: string, chars: nat)

  function HeadingLine(clause: string, heading: string): string {
    clause + "\t" + heading
  }

  ghost function Line(x: Section): string {
    HeadingLine(x.clause, x.heading)
  }

  ghost function Texts(units: seq<Unit>): (texts: seq<string>)
    ensures |texts| == |units| && forall i :: 0 <= i < |units| ==> texts[i] == units[i].text
  {
    if units == [] then [] else Texts(units[..|units| - 1]) + [units[|units| - 1].text]
  }

  ghost function BodiesOf(x: Section): seq<string> {
    Packing.PackOf(Texts(x.units), MAX_CHARS)
  }

  /** A clause with too little text yields no chunk. */
  ghost predicate LongEnough(x: Section) {
    |Line(x)| + Packing.TotalLength(BodiesOf(x)) >= MIN_CHARS
  }

  function Under(crumbs: seq<string>): string {
    if crumbs == [] then "" else Under(crumbs[..|crumbs| - 1]) + "[under: " + crumbs[|crumbs| - 1] + "] "
  }

  function ChunkOf(doc: Doc, clause: string, heading: string, crumbs: seq<string>, body: string): Chunk {
    var header := doc.title + " V" + doc.version + " | " + HeadingLine(clause, heading);
    var under := Under(crumbs);
    Chunk(doc, clause, heading, crumbs,
          if under == "" then header + "\n" + under + body else header + "\n" + under + "\n" + body,
          |body|)
  }

  ghost function ChunkAll(doc: Doc, x: Section, crumbs: seq<string>, bodies: seq<string>): seq<Chunk> {
    seq(|bodies|, i requires 0 <= i < |bodies| => ChunkOf(doc, x.clause, x.heading, crumbs, bodies[i]))
  }

  lemma ChunkAllSnoc(doc: Doc, x: Section, crumbs: seq<string>, bodies: seq<string>, body: string)
    ensures ChunkAll(doc, x, crumbs, bodies + [body]) ==
            ChunkAll(doc, x, crumbs, bodies) + [ChunkOf(doc, x.clause, x.heading, crumbs, body)]
  {
    hide ChunkOf;
  }

  ghost function ChunksOf(doc: Doc, x: Section, crumbs: seq<string>): seq<Chunk> {
    if LongEnough(x) then ChunkAll(doc, x, crumbs, BodiesOf(x)) else []
  }

  /** The chunks of the trees in pre-order, each under the heading lines of its ancestors. */
  ghost function Emitted(doc: Doc, ts: seq<Branch>, crumbs: seq<string>): seq<Chunk> {
    if ts == [] then []
    else
      var t := ts[|ts| - 1];
      Emitted(doc, ts[..|ts| - 1], crumbs)
      + (ChunksOf(doc, t.head, crumbs) + Emitted(doc, t.kids, crumbs + [Line(t.head)]))
  }

  lemma EmittedSnoc(doc: Doc, ts: seq<Branch>, t: Branch, crumbs: seq<string>)
    ensures Emitted(doc, ts + [t], crumbs) ==
            Emitted(doc, ts, crumbs) + (ChunksOf(doc, t.head, crumbs) + Emitted(doc, t.kids, crumbs + [Line(t.head)]))
  {
    assert (ts + [t])[..|ts|] == ts;
  }

  method Emit(doc: Doc, node: Node, crumbs: seq<string>, acc: seq<Chunk>, ghost done: set<Node>, ghost limit: nat)
    returns (chunks: seq<Chunk>)
    requires Finished(done, limit) && node.at < limit && Leads(node.children, node.at, done)
    requires node.clause.Some? ==> node.at >= 0
    ensures var kids := TreesOf(node.children, node.at, done, limit);
            && (node.clause.None? ==> chunks == acc + Emitted(doc, kids, crumbs))
            && (node.clause.Some? ==>
                  chunks == acc + (ChunksOf(doc, HeadOf(node), crumbs)
                            + Emitted(doc, kids, crumbs + [Line(HeadOf(node))])))
    decreases limit - node.at
  {
    hide Emitted, ChunksOf, TreesOf, Finished;
    chunks := acc;
    var below := crumbs;
    if node.clause.Some? {
      chunks := EmitOwn(doc, node, crumbs, acc);
      below := crumbs + [HeadingLine(node.clause.value, node.heading)];
    }
    ghost var own := chunks;
    EmittedNothing(doc, node, below, done, limit);
    for i := 0 to |node.children|
      invariant chunks == own + Emitted(doc, TreesOf(node.children[..i], node.at, done, limit), below)
    {
      var child := node.children[i];
      FinishedChild(child, done, limit);
      ghost var before := TreesOf(node.children[..i], node.at, done, limit);
      ghost var more := ChunksOf(doc, HeadOf(child), below)
        + Emitted(doc, TreesOf(child.children, child.at, done, limit), below + [Line(HeadOf(child))]);
      TakeSnoc(node.children, i);
      TreesSnoc(node.children[..i], child, node.at, done, limit);
      EmittedSnoc(doc, before, TreeOf(child, done, limit), below);
      Associates(own, Emitted(doc, before, below), more);
      chunks := Emit(doc, child, below, chunks, done, limit);
    }
    assert node.children[..|node.children|] == node.children;
    Associates(acc, ChunksOfNode(doc, node, crumbs),
                       Emitted(doc, TreesOf(node.children, node.at, done, limit), below));
  }

  ghost function ChunksOfNode(doc: Doc, node: Node, crumbs: seq<string>): seq<Chunk>
    requires node.clause.Some? ==> node.at >= 0
    reads node`units
  {
    if node.clause.Some? then ChunksOf(doc, HeadOf(node), crumbs) else []
  }

  method EmitOwn(doc: Doc, node: Node, crumbs: seq<string>, acc: seq<Chunk>) returns (chunks: seq<Chunk>)
    requires node.clause.Some? && node.at >= 0
    ensures chunks == acc + ChunksOf(doc, HeadOf(node), crumbs)
  {
    hide ChunkOf, Under, ChunkAll;
    chunks := acc;
    var texts := TextsOf(node.units);
    var bodies := Packing.Pack(texts, MAX_CHARS);
    ghost var head := HeadOf(node);
    if |HeadingLine(node.clause.value, node.heading)| + Packing.TotalLength(bodies) >= MIN_CHARS {
      assert ChunkAll(doc, head, crumbs, bodies[..0]) == [] by {
        ChunkNone(doc, head, crumbs);
      }
      for i := 0 to |bodies|
        invariant chunks == acc + ChunkAll(doc, head, crumbs, bodies[..i])
      {
        ghost var before := ChunkAll(doc, head, crumbs, bodies[..i]);
        var chunk := ChunkOf(doc, node.clause.value, node.heading, crumbs, bodies[i]);
        TakeSnoc(bodies, i);
        ChunkAllSnoc(doc, head, crumbs, bodies[..i], bodies[i]);
        Associates(acc, before, [chunk]);
        chunks := chunks + [chunk];
      }
      assert bodies[..|bodies|] == bodies;
    }
  }

  lemma ChunkNone(doc: Doc, x: Section, crumbs: seq<string>)
    ensures ChunkAll(doc, x, crumbs, []) == []
  {
  }

  lemma FinishedChild(child: Node, done: set<Node>, limit: nat)
    requires Finished(done, limit) && child in done
    ensures child.clause.Some? && 0 <= child.at < limit && Leads(child.children, child.at, done)
    ensures TreeOf(child, done, limit) == Branch(HeadOf(child), TreesOf(child.children, child.at, done, limit))
  {
  }

  lemma TreesSnoc(ns: seq<Node>, n: Node, at: int, done: set<Node>, limit: nat)
    requires Finished(done, limit) && Leads(ns, at, done) && Leads(ns + [n], at, done) && at < limit && n in done
    ensures TreesOf(ns + [n], at, done, limit) == TreesOf(ns, at, done, limit) + [TreeOf(n, done, limit)]
  {
    assert (ns + [n])[..|ns|] == ns;
  }

  method TextsOf(units: seq<Unit>) returns (texts: seq<string>)
    ensures texts == Texts(units)
  {
    texts := [];
    for i := 0 to |units|
      invariant texts == Texts(units[..i])
    {
      texts := texts + [units[i].text];
      TakeSnoc(units, i);
    }
    assert units[..|units|] == units;
  }

  lemma EmittedNothing(doc: Doc, node: Node, crumbs: seq<string>, done: set<Node>, limit: nat)
    requires Finished(done, limit) && node.at < limit
    ensures Emitted(doc, TreesOf(node.children[..0], node.at, done, limit), crumbs) == []
  {
  }

  // ----- What the chunks hold -----

  ghost function CrumbText(crumbs: seq<string>): string {
    if crumbs == [] then "" else "[under: " + crumbs[0] + "] " + CrumbText(crumbs[1..])
  }

  lemma {:induction false} CrumbTextSnoc(crumbs: seq<string>, line: string)
    ensures CrumbText(crumbs + [line]) == CrumbText(crumbs) + "[under: " + line + "] "
  {
    if crumbs == [] {
      assert [line][1..] == [] && [] + [line] == [line];
    } else {
      CrumbTextSnoc(crumbs[1..], line);
      assert (crumbs + [line])[1..] == crumbs[1..] + [line];
    }
  }

  lemma {:induction false} UnderIsCrumbText(crumbs: seq<string>)
    ensures Under(crumbs) == CrumbText(crumbs) && (Under(crumbs) == "" <==> crumbs == [])
  {
    if crumbs != [] {
      var front, line := crumbs[..|crumbs| - 1], crumbs[|crumbs| - 1];
      UnderIsCrumbText(front);
      CrumbTextSnoc(front, line);
      assert crumbs == front + [line];
    }
  }

  /** The text is a line naming title, version, clause and heading, a line with the breadcrumb if there is one, and
      the body. */
  ghost predicate IsChunk(c: Chunk, doc: Doc, x: Section, body: string) {
    && c.doc == doc && c.clause == x.clause && c.heading == x.heading && c.chars == |body|
    && c.text == doc.title + " V" + doc.version + " | " + x.clause + "\t" + x.heading + "\n"
                 + (if c.breadcrumb == [] then "" else CrumbText(c.breadcrumb) + "\n") + body
  }

  /** A clause with fewer than 80 characters has no chunk; otherwise its chunks have the packed bodies, in order. */
  ghost predicate IsGroup(group: seq<Chunk>, doc: Doc, x: Section) {
    var bodies := PackedText(x);
    if |x.clause| + 1 + |x.heading| + |Join(bodies, "")| < 80 then group == []
    else |group| == |bodies| && forall j :: 0 <= j < |group| ==> IsChunk(group[j], doc, x, bodies[j])
  }

  /** The texts of the units, packed into bodies of 6000 characters. */
  ghost function PackedText(x: Section): seq<string> {
    Packing.PackOf(Texts(x.units), 6000)
  }

  lemma ChunkHolds(doc: Doc, x: Section, crumbs: seq<string>, body: string)
    ensures IsChunk(ChunkOf(doc, x.clause, x.heading, crumbs, body), doc, x, body)
  {
    UnderIsCrumbText(crumbs);
    hide Under, CrumbText;
    var c := ChunkOf(doc, x.clause, x.heading, crumbs, body);
    var header := doc.title + " V" + doc.version + " | " + x.clause + "\t" + x.heading;
    assert doc.title + " V" + doc.version + " | " + HeadingLine(x.clause, x.heading) == header;
    if crumbs == [] {
      assert c.text == header + "\n" + "" + body;
    } else {
      assert c.text == header + "\n" + (CrumbText(crumbs) + "\n") + body;
    }
  }

  lemma BodiesArePacked(x: Section)
    ensures BodiesOf(x) == PackedText(x)
    ensures LongEnough(x) <==> |x.clause| + 1 + |x.heading| + |Join(PackedText(x), "")| >= 80
  {
    hide Packing.PackOf, Packing.TotalLength, Join, Texts;
    Packing.TotalIsJoined(BodiesOf(x));
  }

  lemma ClauseIsGroup(doc: Doc, x: Section, crumbs: seq<string>)
    ensures IsGroup(ChunksOf(doc, x, crumbs), doc, x)
  {
    BodiesArePacked(x);
    hide PackedText, LongEnough, BodiesOf, IsChunk, ChunkOf, Join;
    var bodies := BodiesOf(x);
    forall j | 0 <= j < |bodies|
      ensures IsChunk(ChunkOf(doc, x.clause, x.heading, crumbs, bodies[j]), doc, x, bodies[j])
    {
      ChunkHolds(doc, x, crumbs, bodies[j]);
    }
  }

  /** The chunks of each clause of the trees, in pre-order. */
  ghost function Groups(doc: Doc, ts: seq<Branch>, crumbs: seq<string>): seq<seq<Chunk>> {
    if ts == [] then []
    else
      var t := ts[|ts| - 1];
      Groups(doc, ts[..|ts| - 1], crumbs) + [ChunksOf(doc, t.head, crumbs)]
      + Groups(doc, t.kids, crumbs + [Line(t.head)])
  }

  lemma {:induction false} ChunksAreGrouped(doc: Doc, ts: seq<Branch>, crumbs: seq<string>)
    ensures var groups, xs := Groups(doc, ts, crumbs), Preorder(ts);
            && Emitted(doc, ts, crumbs) == Flatten(groups) && |groups| == |xs|
            && forall k :: 0 <= k < |xs| ==> IsGroup(groups[k], doc, xs[k])
  {
    hide ChunksOf, IsGroup, Line;
    if ts != [] {
      var before, t := ts[..|ts| - 1], ts[|ts| - 1];
      var a, b := Groups(doc, before, crumbs), Groups(doc, t.kids, crumbs + [Line(t.head)]);
      var own := ChunksOf(doc, t.head, crumbs);
      ChunksAreGrouped(doc, before, crumbs);
      ChunksAreGrouped(doc, t.kids, crumbs + [Line(t.head)]);
      ClauseIsGroup(doc, t.head, crumbs);
      FlattenConcat(a + [own], b);
      FlattenSnoc(a, own);
    }
  }

  /** Unless the clause is too short, every slice of every unit of it is found in the text of one of its chunks. */
  lemma TextIsFound(doc: Doc, x: Section, group: seq<Chunk>, u: nat, slice: string)
    requires IsGroup(group, doc, x) && u < |x.units| && slice in Packing.SlicesOf(x.units[u].text, 6000)
    ensures || |x.clause| + 1 + |x.heading| + |Join(PackedText(x), "")| < 80
            || exists c, before, after :: c in group && c.text == before + slice + after
  {
    hide Packing.SlicesOf, PackedText, IsChunk, Join;
    var bodies := PackedText(x);
    if |x.clause| + 1 + |x.heading| + |Join(bodies, "")| >= 80 {
      var b, before, after := SliceInBody(x, u, slice);
      assert IsChunk(group[b], doc, x, bodies[b]);
      EndsWithBody(group[b], doc, x, before, slice, after);
      assert group[b] in group;
    }
  }

  lemma SliceInBody(x: Section, u: nat, slice: string) returns (b: nat, before: string, after: string)
    requires u < |x.units| && slice in Packing.SlicesOf(x.units[u].text, 6000)
    ensures b < |PackedText(x)| && PackedText(x)[b] == before + slice + after
  {
    Packing.SlicesAreFound(Texts(x.units), u, slice, 6000);
    b, before, after :| 0 <= b < |PackedText(x)| && PackedText(x)[b] == before + slice + after;
  }

  lemma EndsWithBody(c: Chunk, doc: Doc, x: Section, before: string, slice: string, after: string)
    requires IsChunk(c, doc, x, before + slice + after)
    ensures exists front :: c.text == front + slice + after
  {
    hide CrumbText;
    var front := doc.title + " V" + doc.version + " | " + x.clause + "\t" + x.heading + "\n"
      + (if c.breadcrumb == [] then "" else CrumbText(c.breadcrumb) + "\n");
    assert c.text == (front + before) + slice + after;
  }

  /** The chunks of a document are those of its clause tree: in groups, one for each clause in document order. */
  method BuildChunks(doc: Doc, r: Reader, units: seq<Unit>) returns (chunks: seq<Chunk>, ghost groups: seq<seq<Chunk>>)
    ensures chunks == Emitted(doc, Clauses(r, units), [])
    ensures chunks == Flatten(groups) && |groups| == |Preorder(Clauses(r, units))|
    ensures forall k :: 0 <= k < |groups| ==> IsGroup(groups[k], doc, Preorder(Clauses(r, units))[k])
  {
    var root, done := Build(r, units);
    chunks := Emit(doc, root, [], [], done, |units|);
    groups := Groups(doc, Clauses(r, units), []);
    ChunksAreGrouped(doc, Clauses(r, units), []);
  }
}
