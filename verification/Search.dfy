/** The LATS search (triage/triage/search.py:290-471): a mutable MCTS tree with parent
    pointers. Ghost state: each node's path from the root, the set of the tree's nodes and
    the log of evaluated nodes. */
module Search {
  import opened Common

  datatype Status = Complete | Failed | Incomplete

  type Episode = string

  type Trajectory = seq<(string, string)>

  datatype SearchResult =
    SearchResult(episode: Option<Episode>, reward: real, trajectory: Trajectory, rollouts: int)

  /** One step of the running mean: the value once the visit count has reached visits. */
  function MeanStep(value: real, reward: real, visits: nat): real
    requires visits > 0
  {
    value + (reward - value) / visits as real
  }

  class Node {
    const action: string
    const depth: int
    const parent: Node?
    var observation: Option<string>
    var episode: Option<Episode>
    var children: seq<Node>
    var value: real
    var reward: real
    var visits: nat
    var status: Status

    /** The nodes from the root down to this one. */
    ghost const path: seq<Node>

    constructor (action: string, depth: int, parent: Node?)
      requires parent != null ==> parent.Rooted()
      ensures this.action == action && this.depth == depth && this.parent == parent
      ensures Rooted() && path == (if parent == null then [] else parent.path) + [this]
      ensures observation == None && episode == None && children == [] && status == Incomplete
      ensures value == 0.0 && reward == 0.0 && visits == 0
    {
      this.action, this.depth, this.parent := action, depth, parent;
      observation, episode, children := None, None, [];
      value, reward, visits, status := 0.0, 0.0, 0, Incomplete;
      path := (if parent == null then [] else parent.path) + [this];
    }

    ghost predicate Rooted()
      decreases |path|
    {
      && path == (if parent == null then [] else parent.path) + [this]
      && (parent != null ==> parent.Rooted())
    }

    /** The actions and observations from below the root down to this node. */
    function GetTrajectory(): Trajectory
      requires Rooted()
      reads (set n | n in path)`observation
      decreases |path|
    {
      var pairs := if parent != null then parent.GetTrajectory() else [];
      if action == "" then pairs
      else pairs + [(action, if observation.Some? then observation.value else "")]
    }

    method Backprop(reward: real)
      requires Rooted()
      modifies (set n | n in path)`visits, (set n | n in path)`value
      ensures forall n :: n in path ==> n.visits == old(n.visits) + 1
      ensures forall n :: n in path ==> n.value == MeanStep(old(n.value), reward, old(n.visits) + 1)
      decreases |path|
    {
      hide MeanStep;
      ghost var above := path[..|path| - 1];
      visits := visits + 1;
      value := MeanStep(value, reward, visits);
      if parent != null {
        RootedDistinct(this);
        assert above == parent.path;
        parent.Backprop(reward);
      }
    }
  }

  twostate lemma {:induction false} TrajectoryStays(n: Node)
    requires n.Rooted() && forall m :: m in n.path ==> m.observation == old(m.observation)
    ensures n.GetTrajectory() == old(n.GetTrajectory())
    decreases |n.path|
  {
    if n.parent != null {
      TrajectoryStays(n.parent);
    }
  }

  /** Each node of a path has the path's beginning as its own path. */
  lemma {:induction false} PathPrefix(n: Node, i: nat)
    requires n.Rooted() && i < |n.path|
    ensures n.path[i].Rooted() && n.path[i].path == n.path[..i + 1]
    ensures i > 0 ==> n.path[i].parent == n.path[i - 1]
    decreases |n.path|
  {
    if i < |n.path| - 1 {
      PathPrefix(n.parent, i);
    }
  }

  lemma {:induction false} RootedDistinct(n: Node)
    requires n.Rooted()
    ensures Distinct(n.path) && n.path[|n.path| - 1] == n
    ensures n.parent != null ==> n !in n.parent.path
  {
    forall i, j | 0 <= i < j < |n.path|
      ensures n.path[i] != n.path[j]
    {
      PathPrefix(n, i);
      PathPrefix(n, j);
      assert |n.path[i].path| == i + 1 && |n.path[j].path| == j + 1;
    }
    if n.parent != null {
      assert forall i :: 0 <= i < |n.parent.path| ==> n.path[i] == n.parent.path[i];
    }
  }

  // ----- Statistics -----

  /** The evaluations, in order: each evaluated node with the reward it got. */
  type Log = seq<(Node, real)>

  /** The rewards of the evaluated nodes in the subtree of n. */
  ghost function RewardsUnder(log: Log, n: Node): seq<real> {
    if log == [] then []
    else
      var p, e := log[..|log| - 1], log[|log| - 1];
      RewardsUnder(p, n) + if n in e.0.path then [e.1] else []
  }

  ghost function Sum(xs: seq<real>): real {
    if xs == [] then 0.0 else Sum(xs[..|xs| - 1]) + xs[|xs| - 1]
  }

  ghost function Mean(xs: seq<real>): real {
    if xs == [] then 0.0 else Sum(xs) / |xs| as real
  }

  /** The running mean is the mean. */
  lemma MeanAppend(xs: seq<real>, r: real)
    ensures Mean(xs + [r]) == MeanStep(Mean(xs), r, |xs| + 1)
  {
    assert (xs + [r])[..|xs|] == xs;
    var n, s, v := |xs| as real, Sum(xs), Mean(xs);
    assert (|xs| + 1) as real == n + 1.0;
    assert v * n == s;
    assert v * (n + 1.0) == s + v;
    assert v == (s + v) / (n + 1.0);
    assert (s + v) / (n + 1.0) + (r - v) / (n + 1.0) == (s + r) / (n + 1.0);
  }

  lemma RewardsAppend(log: Log, child: Node, r: real, n: Node)
    ensures RewardsUnder(log + [(child, r)], n) ==
            if n in child.path then RewardsUnder(log, n) + [r] else RewardsUnder(log, n)
  {
    assert (log + [(child, r)])[..|log|] == log;
  }

  /** A parent has at least the visits of its child. */
  lemma {:induction false} ParentHasMore(log: Log, child: Node)
    requires child.Rooted() && child.parent != null
    requires forall i :: 0 <= i < |log| ==> log[i].0.Rooted()
    ensures |RewardsUnder(log, child)| <= |RewardsUnder(log, child.parent)|
  {
    if log != [] {
      ParentHasMore(log[..|log| - 1], child);
      var e := log[|log| - 1].0;
      if child in e.path {
        PassesParent(e, child);
      }
    }
  }

  /** A path through a node passes through the node's parent. */
  lemma PassesParent(n: Node, m: Node)
    requires n.Rooted() && m in n.path && m.parent != null
    ensures m.parent in n.path
  {
    var i :| 0 <= i < |n.path| && n.path[i] == m;
    PathPrefix(n, i);
    assert i > 0 by {
      assert m.Rooted() && |m.path| == i + 1;
    }
  }

  lemma {:induction false} EvaluatedHasVisits(log: Log, n: Node)
    requires n.Rooted() && exists i :: 0 <= i < |log| && log[i].0 == n
    ensures |RewardsUnder(log, n)| >= 1
  {
    RootedDistinct(n);
    if log[|log| - 1].0 == n {
      assert n in n.path;
    } else {
      var i :| 0 <= i < |log| && log[i].0 == n;
      assert log[..|log| - 1][i].0 == n;
      EvaluatedHasVisits(log[..|log| - 1], n);
    }
  }

  ghost predicate Evaluated(log: Log, n: Node) {
    exists i :: 0 <= i < |log| && log[i].0 == n
  }

  lemma {:induction false} UntouchedHasNone(log: Log, n: Node)
    requires forall i :: 0 <= i < |log| ==> n !in log[i].0.path
    ensures RewardsUnder(log, n) == []
  {
    if log != [] {
      UntouchedHasNone(log[..|log| - 1], n);
    }
  }

  // ----- The tree -----

  ghost predicate InTree(n: Node, nodes: set<Node>, root: Node?)
    reads n`children
  {
    && n.Rooted() && n.depth == |n.path| && (forall p :: p in n.path ==> p in nodes)
    && (n.parent == null <==> n == root) && (n.action == "" <==> n == root)
    && (forall i :: 0 <= i < |n.children| ==> n.children[i] in nodes && n.children[i].parent == n)
    && Distinct(n.children)
  }

  /** A tree of nodes below the root, linked both ways. */
  ghost predicate Shape(nodes: set<Node>, root: Node?)
    reads nodes`children
  {
    && root != null && root in nodes
    && (forall n {:trigger InTree(n, nodes, root)} :: n in nodes ==> InTree(n, nodes, root))
    && (forall n {:trigger n.parent} :: n in nodes && n.parent != null ==> n.parent in nodes && n in n.parent.children)
  }

  ghost predicate StatisticsOk(n: Node, log: Log)
    reads n`visits, n`value
  {
    n.visits == |RewardsUnder(log, n)| && n.value == Mean(RewardsUnder(log, n))
  }

  /** Every node's visits and value count and average the evaluated nodes of its subtree. */
  ghost predicate Statistics(nodes: set<Node>, log: Log)
    reads nodes`visits, nodes`value
  {
    forall n {:trigger StatisticsOk(n, log)} :: n in nodes ==> StatisticsOk(n, log)
  }

  /** The log lists each evaluated node of the tree once, with its reward. */
  ghost predicate Logged(nodes: set<Node>, root: Node?, log: Log)
    reads nodes`observation, nodes`episode, nodes`reward
  {
    && (forall i :: 0 <= i < |log| ==> log[i].0 in nodes && log[i].0 != root && log[i].0.reward == log[i].1)
    && (forall i, j :: 0 <= i < j < |log| ==> log[i].0 != log[j].0)
    && (forall n :: n in nodes ==> (n.observation.Some? <==> Evaluated(log, n)))
    && (forall n :: n in nodes && n.episode.Some? ==> n.observation.Some?)
  }

  /** max_depth bounds the tree, and a failed node is a leaf. */
  ghost predicate Tidy(nodes: set<Node>, maxDepth: int)
    reads nodes`children, nodes`status
  {
    forall n :: n in nodes ==>
      && n.depth <= DepthLimit(maxDepth)
      && (n.children != [] ==> n.depth <= maxDepth && n.status != Failed)
  }

  datatype Score = Infinite | Finite(value: real)

  predicate Less(a: Score, b: Score) {
    a.Finite? && (b.Infinite? || a.value < b.value)
  }

  ghost function DepthLimit(maxDepth: int): int {
    if maxDepth < 0 then 1 else maxDepth + 1
  }

  ghost predicate Settled(nodes: set<Node>, root: Node?)
    reads nodes`observation
  {
    forall n :: n in nodes && n != root ==> n.observation.Some?
  }

  ghost predicate NoEpisode(nodes: set<Node>)
    reads nodes`episode
  {
    forall n :: n in nodes ==> n.episode.None?
  }

  ghost predicate SoleEpisode(nodes: set<Node>)
    reads nodes`episode
  {
    forall n, m :: n in nodes && m in nodes && n.episode.Some? && m.episode.Some? ==> n == m
  }

  lemma LogIsRooted(nodes: set<Node>, root: Node?, log: Log)
    requires Shape(nodes, root) && Logged(nodes, root, log)
    ensures forall i :: 0 <= i < |log| ==> log[i].0.Rooted()
  {
    forall i | 0 <= i < |log|
      ensures log[i].0.Rooted()
    {
      assert InTree(log[i].0, nodes, root);
    }
  }

  lemma NewIsUnlogged(nodes: set<Node>, root: Node?, log: Log, n: Node)
    requires Shape(nodes, root) && Logged(nodes, root, log) && n !in nodes
    ensures !Evaluated(log, n) && (StatisticsOk(n, log) <==> n.visits == 0 && n.value == 0.0)
  {
    forall i | 0 <= i < |log|
      ensures n !in log[i].0.path
    {
      assert InTree(log[i].0, nodes, root);
    }
    UntouchedHasNone(log, n);
  }

  /** The different non-empty actions, in the order of their first occurrences. */
  ghost function Different(actions: seq<string>): (r: seq<string>)
    ensures Distinct(r) && forall a :: a in r <==> a in actions && a != ""
  {
    if actions == [] then []
    else
      var before, a := Different(actions[..|actions| - 1]), actions[|actions| - 1];
      if a == "" || a in before then before else before + [a]
  }

  lemma DifferentNothing()
    ensures Different([]) == []
  {
  }

  lemma DifferentSnoc(actions: seq<string>, i: nat)
    requires i < |actions|
    ensures Different(actions[..i + 1]) ==
            if actions[i] == "" || actions[i] in Different(actions[..i]) then Different(actions[..i])
            else Different(actions[..i]) + [actions[i]]
  {
    TakeSnoc(actions, i);
  }

  class Tree {
    /** The foreign steps. Each may answer differently at every call: the first argument
        numbers the calls. None is an exception: the search survives one of expand and evaluate,
        but one of execute ends it, which its methods report as not ok. */
    const expand: (nat, string, Trajectory, int, bool) -> Option<seq<string>>
    const execute: (nat, string) -> Option<(string, Option<Episode>)>
    const evaluate: (nat, string, Trajectory) -> Option<(real, bool)>
    const strip: string -> string
    const ln: real --> real
    const sqrt: real --> real
    const c: real
    const maxDepth: int
    var exitOnComplete: bool
    var calls: nat

    /** How many rollouts have reached their leaf. */
    ghost var rolled: nat
    ghost var root: Node?
    ghost var nodes: set<Node>
    ghost var log: Log

    constructor (expand: (nat, string, Trajectory, int, bool) -> Option<seq<string>>,
                 execute: (nat, string) -> Option<(string, Option<Episode>)>,
                 evaluate: (nat, string, Trajectory) -> Option<(real, bool)>,
                 strip: string -> string, ln: real --> real, sqrt: real --> real, c: real, maxDepth: int)
      ensures this.expand == expand && this.execute == execute && this.evaluate == evaluate
      ensures this.strip == strip && this.ln == ln && this.sqrt == sqrt && this.c == c && this.maxDepth == maxDepth
      ensures exitOnComplete && calls == 0
    {
      this.expand, this.execute, this.evaluate := expand, execute, evaluate;
      this.strip, this.ln, this.sqrt, this.c, this.maxDepth := strip, ln, sqrt, c, maxDepth;
      exitOnComplete, calls := true, 0;
      rolled, root, nodes, log := 0, null, {}, [];
    }

    /** What the model needs of the mathematical functions. */
    ghost predicate MathOk() {
      && (forall x :: x >= 1.0 ==> ln.requires(x) && ln(x) >= 0.0)
      && (forall x :: x >= 0.0 ==> sqrt.requires(x))
    }

    ghost predicate Valid()
      reads this`root, this`nodes, this`log
      reads nodes`children, nodes`visits, nodes`value, nodes`observation, nodes`episode, nodes`reward
    {
      Shape(nodes, root) && Statistics(nodes, log) && Logged(nodes, root, log)
    }

    method AddChild(node: Node, action: string) returns (child: Node)
      requires Valid() && node in nodes && action != ""
      modifies this`nodes, node`children
      ensures Valid()
      ensures fresh(child) && nodes == old(nodes) + {child} && node.children == old(node.children) + [child]
      ensures child.action == action && child.parent == node && child.depth == node.depth + 1 && child != root
      ensures child.observation == None && child.episode == None && child.children == [] && child.status == Incomplete
    {
      hide *;
      ValidParts();
      InTreeFacts(nodes, root, node);
      RootIsIn();
      child := new Node(action, node.depth + 1, node);
      NewIsUnlogged(nodes, root, log, child);
      NodeJoins(nodes, root, log, child);
      ShapeBefore(nodes, root, node);
      ghost var was := node.children;
      node.children := node.children + [child];
      nodes := nodes + {child};
      ShapeAfter(nodes - {child}, root, node, child, was);
      assert nodes - {child} + {child} == nodes;
      ValidParts();
    }

    lemma RootIsIn()
      requires Valid()
      ensures root != null && root in nodes
    {
    }

    lemma ValidParts()
      ensures Valid() <==> Shape(nodes, root) && Statistics(nodes, log) && Logged(nodes, root, log)
    {
    }

    ghost predicate MayRaise() {
      exists k: nat, action :: execute(k, action).None?
    }

    method ObserveAndEvaluate(child: Node, objective: string) returns (ok: bool)
      requires Valid() && child in nodes && child != root
      requires child.observation == None
      modifies this`calls, this`log, child`observation, child`episode, child`reward, child`status,
               nodes`visits, nodes`value
      ensures Valid() && child.Rooted() && (ok <==> execute(old(calls), child.action).Some?) && (!ok ==> MayRaise())
      ensures ok ==> log == old(log) + [(child, child.reward)] && calls == old(calls) + 2
      ensures ok ==> Answered(child, objective, old(calls)) && child.observation.Some?
      ensures !ok ==> calls == old(calls) + 1
      ensures !ok ==> log == old(log) && child.observation == None && child.episode == old(child.episode)
      ensures child.children == [] && old(Tidy(nodes, maxDepth)) ==> Tidy(nodes, maxDepth)
    {
      hide *;
      ValidParts();
      InTreeFacts(nodes, root, child);
      var result := execute(calls, child.action);
      if result.None? {
        Raised(calls, child.action);
        calls := calls + 1;
        return false;
      }
      LogBefore(nodes, root, log, child);
      Assess(child, result.value, objective);
      Record(child);
      LogAfter(nodes, root, log[..|log| - 1], child);
      ValidParts();
      return true;
    }

    lemma Raised(k: nat, action: string)
      requires execute(k, action).None?
      ensures MayRaise()
    {
    }

    method Record(child: Node)
      requires Statistics(nodes, log) && child.Rooted() && forall p :: p in child.path ==> p in nodes
      modifies this`log, nodes`visits, nodes`value
      ensures Statistics(nodes, log) && log == old(log) + [(child, child.reward)]
      ensures child.GetTrajectory() == old(child.GetTrajectory())
    {
      hide RewardsUnder, Mean, MeanStep, Node.Rooted, Node.GetTrajectory;
      child.Backprop(child.reward);
      forall n | n in nodes
        ensures StatisticsOk(n, log + [(child, child.reward)])
      {
        assert old(StatisticsOk(n, log));
        MeanAppend(RewardsUnder(log, n), child.reward);
        RewardsAppend(log, child, child.reward, n);
      }
      TrajectoryStays(child);
      log := log + [(child, child.reward)];
    }

    /** Stores what the action gave, then has the trajectory evaluated. */
    method Assess(child: Node, outcome: (string, Option<Episode>), objective: string)
      requires child.Rooted() && execute(calls, child.action) == Some(outcome)
      modifies this`calls, child`observation, child`episode, child`reward, child`status
      ensures child.observation == Some(outcome.0) && child.episode == outcome.1
      ensures Answered(child, objective, old(calls))
      ensures calls == old(calls) + 2
      ensures child.children == [] && old(Tidy(nodes, maxDepth)) ==> Tidy(nodes, maxDepth)
    {
      hide *;
      calls := calls + 1;
      child.observation := Some(outcome.0);
      child.episode := outcome.1;
      ghost var k := calls - 1;
      Evaluate(child, objective);
      AnsweredIs(child, objective, k);
    }

    lemma AnsweredIs(child: Node, objective: string, k: nat)
      requires child.Rooted() && execute(k, child.action).Some?
      requires child.observation == Some(execute(k, child.action).value.0)
      requires child.episode == execute(k, child.action).value.1
      requires Judged(child, evaluate(k + 1, objective, child.GetTrajectory()))
      ensures Answered(child, objective, k)
    {
      hide Node.Rooted, Node.GetTrajectory;
    }

    method Evaluate(child: Node, objective: string)
      requires child.Rooted()
      modifies this`calls, child`reward, child`status
      ensures Judged(child, evaluate(old(calls), objective, old(child.GetTrajectory())))
      ensures child.GetTrajectory() == old(child.GetTrajectory()) && calls == old(calls) + 1
      ensures child.children == [] && old(Tidy(nodes, maxDepth)) ==> Tidy(nodes, maxDepth)
    {
      hide Node.Rooted, Node.GetTrajectory;
      var result := evaluate(calls, objective, child.GetTrajectory());
      calls := calls + 1;
      child.reward := if result.Some? then result.value.0 else 0.0;
      var failed := result.None? || result.value.1;
      child.status := if child.episode.Some? then Complete else if failed then Failed else Incomplete;
      TrajectoryStays(child);
    }

    /** A failing evaluation scores nothing and fails the node; but an episode completes it whatever the verdict. */
    static ghost predicate Judged(child: Node, result: Option<(real, bool)>)
      reads child`reward, child`status, child`episode
    {
      && child.reward == (if result.Some? then result.value.0 else 0.0)
      && (child.status == Complete <==> child.episode.Some?)
      && (child.status == Failed <==> child.episode.None? && (result.None? || result.value.1))
    }

    /** The node's observation, episode and reward are what calls k and k + 1 answered for its action and trajectory. */
    ghost predicate Told(n: Node, objective: string, k: nat)
      reads n`observation, n`episode, n`reward, (set p | p in n.path)`observation
    {
      && n.Rooted() && execute(k, n.action).Some?
      && n.observation == Some(execute(k, n.action).value.0) && n.episode == execute(k, n.action).value.1
      && var verdict := evaluate(k + 1, objective, n.GetTrajectory());
         n.reward == if verdict.Some? then verdict.value.0 else 0.0
    }

    /** Just told, with the status that follows from the verdict. */
    ghost predicate Answered(n: Node, objective: string, k: nat)
      reads n`observation, n`episode, n`reward, n`status, (set p | p in n.path)`observation
    {
      Told(n, objective, k) && Judged(n, evaluate(k + 1, objective, n.GetTrajectory()))
    }

    ghost predicate ToldBy(n: Node, objective: string, from: nat, to: nat)
      reads n`observation, n`episode, n`reward, (set p | p in n.path)`observation
    {
      exists k: nat :: from <= k < to && Told(n, objective, k)
    }

    /** The children are those that call k proposed for the node's trajectory. */
    ghost predicate Offered(n: Node, children: seq<Node>, objective: string, nBranches: int, k: nat)
      reads (set p | p in n.path)`observation
    {
      n.Rooted() && Proposed(children, ActionsOf(expand(k, objective, n.GetTrajectory(), nBranches, false)))
    }

    ghost predicate OfferedBy(n: Node, children: seq<Node>, objective: string, nBranches: int, from: nat, to: nat)
      reads (set p | p in n.path)`observation
    {
      exists k: nat :: from <= k < to && Offered(n, children, objective, nBranches, k)
    }

    /** An exception of expand counts as no proposals. */
    static function ActionsOf(answer: Option<seq<string>>): seq<string> {
      if answer.Some? then answer.value else []
    }

    /** The children that rollouts gave the node: all but a forced one, which comes last. */
    static ghost function RolledChildren(n: Node, forced: Node?): seq<Node>
      reads n`children
    {
      if forced != null && forced.parent == n && n.children != [] then n.children[..|n.children| - 1] else n.children
    }

    /** Every node of the tree goes back to foreign calls, made since call number first, for this objective: what an
        evaluated node holds, and which children a node got from rollouts. */
    ghost predicate Accounted(objective: string, nBranches: int, first: nat, forced: Node?)
      reads this`nodes, this`calls, nodes`observation, nodes`episode, nodes`reward, nodes`children,
            (set n, p | n in nodes && p in n.path :: p)`observation
    {
      && first <= calls
      && (forall n :: n in nodes && n.observation.Some? ==> ToldBy(n, objective, first, calls))
      && (forall n :: n in nodes && RolledChildren(n, forced) != [] ==>
            OfferedBy(n, RolledChildren(n, forced), objective, nBranches, first, calls))
    }

    /** Holds before every rollout. */
    ghost predicate Ready()
      reads this`root, this`nodes, this`log, this`exitOnComplete, nodes
    {
      && Valid() && MathOk() && Tidy(nodes, maxDepth) && Settled(nodes, root)
      && (exitOnComplete ==> NoEpisode(nodes))
    }

    /** Holds at all times, after an exception as well. */
    ghost predicate Sound()
      reads this`root, this`nodes, this`log, this`exitOnComplete, nodes
    {
      Valid() && MathOk() && Tidy(nodes, maxDepth) && (exitOnComplete ==> SoleEpisode(nodes))
    }

    /** Holds after every rollout: it is Ready again, unless it found the one episode. */
    ghost predicate Rolled()
      reads this`root, this`nodes, this`log, this`exitOnComplete, nodes
    {
      Sound() && (Settled(nodes, root) || (exitOnComplete && !NoEpisode(nodes)))
    }

    /** The first m children of node, and no others, are evaluated, in order, each by its own two calls. */
    ghost predicate EvaluatesFirst(node: Node, objective: string, k: nat, before: Log, after: Log, m: nat)
      reads this`exitOnComplete, node`children, (set c | c in node.children),
            (set c, p | c in node.children && p in c.path :: p)`observation
    {
      && m <= |node.children| && |after| == |before| + m && before <= after
      && (forall j :: 0 <= j < m ==> after[|before| + j].0 == node.children[j])
      && (forall j :: 0 <= j < m ==> Answered(node.children[j], objective, k + 2 * j))
      && (forall j :: m <= j < |node.children| ==> node.children[j].observation == None)
      && (exitOnComplete ==> forall j :: 0 <= j < m - 1 ==> node.children[j].episode.None?)
    }

    /** All children are evaluated, or those up to the first with an episode when the search exits on one, or those
        before an exception of execute. */
    ghost predicate EvaluatesChildren(node: Node, objective: string, k: nat, before: Log, after: Log, ok: bool)
      reads this`exitOnComplete, node`children, (set c | c in node.children),
            (set c, p | c in node.children && p in c.path :: p)`observation
    {
      exists m: nat :: EvaluatesFirst(node, objective, k, before, after, m) && StopsAt(node, k, m, ok)
    }

    ghost predicate StopsAt(node: Node, k: nat, m: nat, ok: bool)
      reads this`exitOnComplete, node`children, (set c | c in node.children)`episode
    {
      && m <= |node.children|
      && if ok then m == |node.children| || (exitOnComplete && m > 0 && node.children[m - 1].episode.Some?)
         else m < |node.children| && execute(k + 2 * m, node.children[m].action).None?
    }

    /** What a rollout does to an open leaf, from call number k on: it asks for actions, adds a child for each, and
        evaluates them; a leaf without proposals has failed. */
    ghost predicate Grown(leaf: Node, objective: string, nBranches: int, k: nat, trajectory: Trajectory,
                          before: Log, after: Log, ok: bool)
      reads this`exitOnComplete, leaf, (set c | c in leaf.children),
            (set c, p | c in leaf.children && p in c.path :: p)`observation
    {
      var answer := expand(k, objective, trajectory, nBranches, false);
      && Proposed(leaf.children, if answer.Some? then answer.value else [])
      && (leaf.status == Failed <==> answer.None? || forall a :: a in answer.value ==> a == "")
      && EvaluatesChildren(leaf, objective, k + 1, before, after, ok)
    }

    /** The leaf can still be expanded. */
    ghost predicate Open(leaf: Node)
      reads leaf
    {
      leaf.children == [] && leaf.status != Failed && leaf.depth <= maxDepth
    }

    function Ucb(parent: Node, child: Node): Score
      requires MathOk() && child.visits <= parent.visits
      reads parent`visits, child`visits, child`status, child`value
    {
      if child.visits == 0 then Infinite
      else if child.status == Failed then Finite(0.0)
      else
        var n := child.visits as real;
        QuotientNonNegative(ln(parent.visits as real), n);
        Finite(child.value / n + c * sqrt(ln(parent.visits as real) / n))
    }

    /** Whenever a rollout compares children, UCB is defined on them. */
    lemma VisitsAreOrdered(node: Node, child: Node)
      requires Valid() && Settled(nodes, root) && node in nodes && child in node.children
      ensures child in nodes && child != root && child.parent == node && child.depth == node.depth + 1
      ensures 1 <= child.visits <= node.visits
    {
      hide RewardsUnder, Mean;
      assert InTree(node, nodes, root);
      assert InTree(child, nodes, root);
      LogIsRooted(nodes, root, log);
      ParentHasMore(log, child);
      EvaluatedHasVisits(log, child);
      assert StatisticsOk(node, log) && StatisticsOk(child, log);
    }

    /** Child has evaluations below it, and they are evaluations below parent. */
    ghost predicate Comparable(parent: Node, child: Node)
      reads this`log
    {
      MathOk() && 1 <= |RewardsUnder(log, child)| <= |RewardsUnder(log, parent)|
    }

    /** What UCB amounts to, from the rewards below the child: a failed child is worth nothing; the mean reward is
        divided by the number of evaluations once more. */
    ghost function Worth(parent: Node, child: Node): real
      requires Comparable(parent, child)
      reads this`log, child`status
    {
      var n, all := |RewardsUnder(log, child)| as real, |RewardsUnder(log, parent)| as real;
      QuotientNonNegative(ln(all), n);
      if child.status == Failed then 0.0
      else Mean(RewardsUnder(log, child)) / n + c * sqrt(ln(all) / n)
    }

    lemma UcbIsWorth(node: Node, child: Node)
      requires Valid() && MathOk() && Settled(nodes, root) && node in nodes && child in node.children
      ensures child in nodes && Comparable(node, child) && child.visits <= node.visits
      ensures Ucb(node, child) == Finite(Worth(node, child))
    {
      VisitsAreOrdered(node, child);
      assert StatisticsOk(node, log) && StatisticsOk(child, log);
      hide Valid, RewardsUnder, Mean, Settled;
    }

    method BestChild(node: Node) returns (best: Node)
      requires Ready() && node in nodes && !Stops(node)
      ensures best in node.children
      ensures best in nodes && Prefers(node, best)
    {
      hide Valid, Tidy, Settled, NoEpisode, MathOk;
      forall child | child in node.children
        ensures child in nodes && Comparable(node, child) && child.visits <= node.visits
        ensures Ucb(node, child) == Finite(Worth(node, child))
      {
        UcbIsWorth(node, child);
      }
      hide Ucb, Worth, Comparable;
      best := node.children[0];
      ghost var k: nat := 0;
      for i := 1 to |node.children|
        invariant k < i && node.children[k] == best
        invariant forall j :: 0 <= j < i ==> Worth(node, node.children[j]) <= Worth(node, best)
        invariant forall j :: 0 <= j < k ==> Worth(node, node.children[j]) < Worth(node, best)
      {
        if Less(Ucb(node, best), Ucb(node, node.children[i])) {
          best := node.children[i];
          k := i;
        }
      }
      assert FirstBest(node, best, k);
    }

    /** The children an expansion adds: fresh, and not evaluated yet. */
    ghost predicate NewChildren(node: Node, before: set<Node>)
      reads this`root, this`nodes, nodes, node
    {
      && before <= nodes
      && (forall n :: n in nodes ==> n in before || n in node.children)
      && (forall i :: 0 <= i < |node.children| ==>
            var child := node.children[i];
            child in nodes && child !in before && child != root
            && child.observation == None && child.episode == None && child.children == [] && child.status == Incomplete)
    }

    /** One child for each different non-empty proposal, in the order of the proposals. */
    static ghost predicate Proposed(children: seq<Node>, actions: seq<string>) {
      |children| == |Different(actions)|
      && forall i :: 0 <= i < |children| ==> children[i].action == Different(actions)[i]
    }

    method Expand(node: Node, objective: string, nBranches: int)
      requires Valid() && Tidy(nodes, maxDepth) && node in nodes && node.Rooted()
      requires node.children == [] && node.status != Failed && node.depth <= maxDepth
      modifies this`calls, this`nodes, node`children
      ensures Valid() && Tidy(nodes, maxDepth)
      ensures NewChildren(node, old(nodes)) && fresh(nodes - old(nodes))
      ensures forall n :: n in nodes - old(nodes) ==> n.parent == node
      ensures node.Rooted() && calls == old(calls) + 1
      ensures Proposed(node.children, ActionsOf(expand(old(calls), objective, node.GetTrajectory(), nBranches, false)))
      ensures node.GetTrajectory() == old(node.GetTrajectory())
    {
      hide *;
      var answer := expand(calls, objective, node.GetTrajectory(), nBranches, false);
      calls := calls + 1;
      AddChildren(node, ActionsOf(answer));
    }

    method AddChildren(node: Node, actions: seq<string>)
      requires Valid() && Tidy(nodes, maxDepth) && node in nodes
      requires node.children == [] && node.status != Failed && node.depth <= maxDepth
      modifies this`nodes, node`children
      ensures Valid() && Tidy(nodes, maxDepth)
      ensures NewChildren(node, old(nodes)) && fresh(nodes - old(nodes))
      ensures forall n :: n in nodes - old(nodes) ==> n.parent == node
      ensures Proposed(node.children, actions)
    {
      hide Valid, Shape, Statistics, Logged, Settled, NoEpisode, Node.Rooted, Node.GetTrajectory, Different;
      ghost var before := nodes;
      var seen: set<string> := {};
      DifferentNothing();
      for i := 0 to |actions|
        invariant Valid() && Tidy(nodes, maxDepth) && node in before
        invariant NewChildren(node, before) && fresh(nodes - before)
        invariant forall n :: n in nodes - before ==> n.parent == node
        invariant forall n :: n in before && n != node ==> n.children == old(n.children)
        invariant Proposed(node.children, actions[..i])
        invariant forall a :: a in seen <==> a in Different(actions[..i])
      {
        var action := actions[i];
        DifferentSnoc(actions, i);
        if action != "" && action !in seen {
          seen := seen + {action};
          var child := AddChild(node, action);
        }
      }
      assert actions[..|actions|] == actions;
    }

    /** The way a rollout takes: from each node on it to a child no other child beats, down to a
        node that is failed, too deep or without children. */
    ghost predicate Descent(trail: seq<Node>)
      reads this`nodes, this`log, nodes
    {
      && trail != [] && (forall k :: 0 <= k < |trail| ==> trail[k] in nodes)
      && (forall k :: 0 <= k < |trail| - 1 ==> Prefers(trail[k], trail[k + 1]))
      && Stops(trail[|trail| - 1])
    }

    /** best is worth most among the children of node, and of several the first. */
    ghost predicate Prefers(node: Node, best: Node)
      reads this`nodes, this`log, node, nodes
    {
      !Stops(node) && exists k: nat :: FirstBest(node, best, k)
    }

    ghost predicate FirstBest(node: Node, best: Node, k: nat)
      reads this`nodes, this`log, node, nodes
    {
      && k < |node.children| && node.children[k] == best && best in nodes && Comparable(node, best)
      && (forall j :: 0 <= j < |node.children| ==>
            node.children[j] in nodes && Comparable(node, node.children[j])
            && Worth(node, node.children[j]) <= Worth(node, best))
      && forall j :: 0 <= j < k ==> Worth(node, node.children[j]) < Worth(node, best)
    }

    ghost predicate Stops(n: Node)
      reads n
    {
      n.status == Failed || n.depth > maxDepth || n.children == []
    }

    method Rollout(node: Node, objective: string, nBranches: int, ghost first: nat)
      returns (ok: bool, ghost trail: seq<Node>)
      requires Ready() && node in nodes && Accounted(objective, nBranches, first, null)
      modifies this`calls, this`nodes, this`log, this`rolled, nodes
      ensures rolled == old(rolled) + 1
      ensures Sound() && old(nodes) <= nodes && fresh(nodes - old(nodes))
      ensures Accounted(objective, nBranches, first, null)
      ensures if ok then Rolled() else MayRaise()
      ensures trail != [] && trail[0] == node && (forall k :: 0 <= k < |trail| ==> trail[k] in old(nodes))
      ensures old(Descent(trail))
      ensures var leaf := trail[|trail| - 1];
              leaf.Rooted() &&
              if old(Open(leaf)) then
                Grown(leaf, objective, nBranches, old(calls), old(leaf.GetTrajectory()), old(log), log, ok)
              else
                && ok && leaf.status == Failed && leaf.children == old(leaf.children)
                && nodes == old(nodes) && log == old(log) && calls == old(calls)
      ensures old(log) <= log && old(calls) <= calls
      ensures forall n :: n in old(nodes) && n != trail[|trail| - 1] ==>
                n.children == old(n.children) && n.status == old(n.status)
      ensures forall n :: n in old(nodes) && old(n.status) == Failed ==>
                n.status == Failed && n.children == old(n.children)
      ensures forall n :: n in old(nodes) ==> n.observation == old(n.observation)
      ensures forall n :: n in nodes - old(nodes) ==> n.parent == trail[|trail| - 1]
      decreases if node.depth > maxDepth then 0 else maxDepth - node.depth + 1
    {
      hide Valid, RewardsUnder, Mean, Node.Rooted, Worth, Proposed, Prefers, EvaluatesChildren, Accounted, Grown,
           Node.GetTrajectory;
      assert node.Rooted() by {
        ValidParts();
        InTreeFacts(nodes, root, node);
      }
      if node.status == Failed || node.depth > maxDepth {
        Fail(node);
        rolled := rolled + 1;
        return true, [node];
      }
      if node.children == [] {
        ok := Grow(node, objective, nBranches, first);
        rolled := rolled + 1;
        return ok, [node];
      }
      var best := BestChild(node);
      VisitsAreOrdered(node, best);
      ok, trail := Rollout(best, objective, nBranches, first);
      trail := [node] + trail;
    }

    /** Expands a leaf and evaluates its children; a leaf that stays one has failed. */
    method Grow(node: Node, objective: string, nBranches: int, ghost first: nat) returns (ok: bool)
      requires Ready() && node in nodes && Open(node) && Accounted(objective, nBranches, first, null)
      modifies this`calls, this`nodes, this`log, nodes
      ensures Sound() && old(nodes) <= nodes && fresh(nodes - old(nodes))
      ensures Accounted(objective, nBranches, first, null)
      ensures if ok then Rolled() else MayRaise()
      ensures node.Rooted()
      ensures Grown(node, objective, nBranches, old(calls), old(node.GetTrajectory()), old(log), log, ok)
      ensures forall n :: n in old(nodes) && n != node ==> n.children == old(n.children) && n.status == old(n.status)
      ensures forall n :: n in old(nodes) ==> n.observation == old(n.observation)
      ensures forall n :: n in nodes - old(nodes) ==> n.parent == node
      ensures old(log) <= log && old(calls) <= calls
    {
      hide Valid, RewardsUnder, Mean, Node.Rooted, Worth, Proposed, EvaluatesChildren, Accounted, Node.GetTrajectory,
           Kept, Offered, Grown, ToldBy, PathsIn, Tidy, MathOk, Pending;
      ghost var before, k := nodes, calls;
      PathsStay();
      AccountedIsKept(node, objective, nBranches, first);
      Expand(node, objective, nBranches);
      OfferedIs(node, objective, nBranches, k);
      assert forall n :: n in nodes - before ==> n in node.children && n.children == [];
      if node.children == [] {
        Fail(node);
        NoneEvaluated(node, objective, calls, log);
        KeptIsAccounted(before, node, objective, nBranches, first, k);
        GrownIs(node, objective, nBranches, k, node.GetTrajectory(), log, log, true);
        return true;
      }
      ghost var was := log;
      ChildrenPending(node, before);
      ok := EvaluateChildren(node, objective, before);
      KeptIsAccounted(before, node, objective, nBranches, first, k);
      GrownIs(node, objective, nBranches, k, node.GetTrajectory(), was, log, ok);
    }

    method Fail(leaf: Node)
      requires Tidy(nodes, maxDepth) && leaf.children == []
      modifies leaf`status
      ensures Tidy(nodes, maxDepth) && leaf.status == Failed
    {
      leaf.status := Failed;
    }

    lemma PathsStay()
      requires Valid()
      ensures PathsIn(nodes)
    {
      forall n | n in nodes {
        InTreeFacts(nodes, root, n);
      }
    }

    static ghost predicate PathsIn(before: set<Node>) {
      forall n :: n in before ==> n.Rooted() && forall p :: p in n.path ==> p in before
    }

    /** The accounts of the nodes in before, but for the children of node. */
    ghost predicate Kept(before: set<Node>, node: Node, objective: string, nBranches: int, first: nat, to: nat)
      requires PathsIn(before)
      reads before`observation, before`episode, before`reward, (before - {node})`children
    {
      && first <= to
      && (forall n :: n in before && n.observation.Some? ==> ToldBy(n, objective, first, to))
      && (forall n :: n in before && n != node && n.children != [] ==>
            OfferedBy(n, n.children, objective, nBranches, first, to))
    }

    lemma AccountedIsKept(node: Node, objective: string, nBranches: int, first: nat)
      requires PathsIn(nodes) && Accounted(objective, nBranches, first, null)
      ensures Kept(nodes, node, objective, nBranches, first, calls)
      ensures node in nodes && node.children != [] ==>
                OfferedBy(node, node.children, objective, nBranches, first, calls)
    {
      hide ToldBy, OfferedBy;
    }

    lemma OfferedIs(node: Node, objective: string, nBranches: int, k: nat)
      requires node.Rooted()
      requires Proposed(node.children, ActionsOf(expand(k, objective, node.GetTrajectory(), nBranches, false)))
      ensures Offered(node, node.children, objective, nBranches, k)
    {
    }

    /** The nodes in before and the children that node has got since are the tree. */
    lemma KeptIsAccounted(before: set<Node>, node: Node, objective: string, nBranches: int, first: nat, k: nat)
      requires PathsIn(before) && Kept(before, node, objective, nBranches, first, k) && k < calls
      requires forall n :: n in nodes - before ==> n in node.children && n.children == []
      requires forall c :: c in node.children && c.observation.Some? ==> ToldBy(c, objective, k + 1, calls)
      requires Offered(node, node.children, objective, nBranches, k)
      ensures Accounted(objective, nBranches, first, null)
    {
      hide Told, Offered;
      forall n | n in nodes && n.children != []
        ensures OfferedBy(n, n.children, objective, nBranches, first, calls)
      {
        assert n == node || OfferedBy(n, n.children, objective, nBranches, first, k);
      }
    }

    lemma GrownIs(leaf: Node, objective: string, nBranches: int, k: nat, trajectory: Trajectory,
                  before: Log, after: Log, ok: bool)
      requires Proposed(leaf.children, ActionsOf(expand(k, objective, trajectory, nBranches, false)))
      requires leaf.status == Failed <==> leaf.children == []
      requires EvaluatesChildren(leaf, objective, k + 1, before, after, ok)
      ensures Grown(leaf, objective, nBranches, k, trajectory, before, after, ok)
    {
      hide EvaluatesChildren, Different;
      var actions := ActionsOf(expand(k, objective, trajectory, nBranches, false));
      assert forall a :: a in actions && a != "" ==> a in Different(actions);
      if leaf.children != [] {
        assert Different(actions)[0] in Different(actions);
      }
    }

    lemma NoneEvaluated(node: Node, objective: string, k: nat, now: Log)
      requires node.children == []
      ensures EvaluatesChildren(node, objective, k, now, now, true)
    {
      assert EvaluatesFirst(node, objective, k, now, now, 0) && StopsAt(node, k, 0, true);
    }

    lemma ChildrenPending(node: Node, before: set<Node>)
      requires Valid() && node in nodes && NewChildren(node, before)
      requires forall n :: n in before && n != root ==> n.observation.Some?
      ensures Pending(node, before, 0)
    {
      assert InTree(node, nodes, root);
    }

    method EvaluateChildren(node: Node, objective: string, ghost before: set<Node>) returns (ok: bool)
      requires Valid() && MathOk() && Tidy(nodes, maxDepth) && (exitOnComplete ==> NoEpisode(nodes))
      requires node in before && Pending(node, before, 0) && PathsIn(before)
      modifies this`calls, this`log, nodes`visits, nodes`value, (nodes - before)`observation,
               (nodes - before)`episode, (nodes - before)`reward, (nodes - before)`status
      ensures Evaluation(node, objective, old(calls), old(log), ok)
    {
      hide *;
      BeginsEvaluation(node, objective, before);
      ok := true;
      for i := 0 to |node.children|
        invariant Evaluating(node, objective, before, old(calls), old(log), i)
      {
        ok := EvaluateNext(node.children[i], objective, node, i, before, old(calls), old(log));
        if !ok || (exitOnComplete && node.children[i].episode.Some?) {
          return;
        }
      }
      EvaluationEnds(node, objective, before, old(calls), old(log));
      ok := true;
    }

    /** The first i children are evaluated, from call number k on, without an episode that ends it. */
    ghost predicate Evaluating(node: Node, objective: string, before: set<Node>, k: nat, was: Log, i: nat)
      reads this, nodes, node
    {
      && Valid() && MathOk() && Tidy(nodes, maxDepth) && (exitOnComplete ==> NoEpisode(nodes))
      && node in before && Pending(node, before, i) && Siblings(node, before) && calls == k + 2 * i
      && AnsweredFirst(node.children[..i], objective, k) && LogGrown(was, log, node.children[..i])
    }

    /** All children that were to be evaluated are, or execute has raised an exception. */
    ghost predicate Evaluation(node: Node, objective: string, k: nat, was: Log, ok: bool)
      reads this, nodes, node, (set c | c in node.children), (set c, p | c in node.children && p in c.path :: p)
    {
      && Sound() && was <= log && k <= calls && (if ok then Rolled() else MayRaise())
      && EvaluatesChildren(node, objective, k, was, log, ok)
      && forall c :: c in node.children && c.observation.Some? ==> ToldBy(c, objective, k, calls)
    }

    lemma BeginsEvaluation(node: Node, objective: string, before: set<Node>)
      requires Valid() && MathOk() && Tidy(nodes, maxDepth) && (exitOnComplete ==> NoEpisode(nodes))
      requires node in before && Pending(node, before, 0) && PathsIn(before)
      ensures Evaluating(node, objective, before, calls, log, 0)
    {
      hide Valid, MathOk, Tidy, Node.Rooted;
      PendingSiblings(node, before);
    }

    method EvaluateNext(child: Node, objective: string, ghost node: Node, ghost i: nat, ghost before: set<Node>,
                        ghost k: nat, ghost was: Log)
      returns (ok: bool)
      requires Evaluating(node, objective, before, k, was, i) && i < |node.children| && child == node.children[i]
      modifies this`calls, this`log, nodes`visits, nodes`value, (nodes - before)`observation,
               (nodes - before)`episode, (nodes - before)`reward, (nodes - before)`status
      ensures if ok && !(exitOnComplete && child.episode.Some?) then Evaluating(node, objective, before, k, was, i + 1)
              else Evaluation(node, objective, k, was, ok)
    {
      hide Valid, Answered, Node.Rooted, Node.GetTrajectory, Tidy, MathOk, LogGrown, AnsweredFirst, Pending, Evaluation,
           EvaluatesChildren, NoEpisode, MayRaise, ToldBy;
      SiblingAt(node, before, i);
      ghost var kids := node.children[..i];
      TakeSnoc(node.children, i);
      ok := EvaluateOne(child, objective, node, i, before);
      if !ok {
        EvaluationRaises(node, objective, before, k, was, i);
        return;
      }
      LogSnoc(was, log[..|log| - 1], kids, child, child.reward);
      if exitOnComplete && child.episode.Some? {
        EvaluationExits(node, objective, before, k, was, i);
        return;
      }
      AnsweredSnoc(kids, child, objective, k);
    }

    /** The nodes are answered, one after the other, from call number k on, without an episode that ends it. */
    ghost predicate AnsweredFirst(kids: seq<Node>, objective: string, k: nat)
      reads this`exitOnComplete, (set c | c in kids)`observation, (set c | c in kids)`episode,
            (set c | c in kids)`reward, (set c | c in kids)`status,
            (set c, p | c in kids && p in c.path :: p)`observation
    {
      && (forall j :: 0 <= j < |kids| ==> kids[j] in kids && Answered(kids[j], objective, k + 2 * j))
      && (exitOnComplete ==> forall j :: 0 <= j < |kids| ==> kids[j] in kids && kids[j].episode.None?)
    }

    static ghost predicate LogGrown(before: Log, after: Log, kids: seq<Node>) {
      && |after| == |before| + |kids| && before <= after
      && forall j :: 0 <= j < |kids| ==> after[|before| + j].0 == kids[j]
    }

    lemma AnsweredSnoc(kids: seq<Node>, child: Node, objective: string, k: nat)
      requires AnsweredFirst(kids, objective, k) && Answered(child, objective, k + 2 * |kids|)
      requires exitOnComplete ==> child.episode.None?
      ensures AnsweredFirst(kids + [child], objective, k)
    {
      hide Answered;
      var longer := kids + [child];
      assert forall j :: 0 <= j < |kids| ==> longer[j] == kids[j];
    }

    static lemma LogSnoc(before: Log, after: Log, kids: seq<Node>, child: Node, r: real)
      requires LogGrown(before, after, kids)
      ensures LogGrown(before, after + [(child, r)], kids + [child])
    {
      var longer := kids + [child];
      assert forall j :: 0 <= j < |kids| ==> longer[j] == kids[j];
    }

    lemma SiblingAt(node: Node, before: set<Node>, i: nat)
      requires Siblings(node, before) && i < |node.children|
      ensures node.children[i] in nodes && node.children[i] !in before && node.children[i] !in node.path
      ensures forall c :: c in node.children[..i] ==> c != node.children[i] && node.children[i] !in c.path
    {
    }

    lemma EvaluationRaises(node: Node, objective: string, before: set<Node>, k: nat, was: Log, i: nat)
      requires Sound() && MayRaise()
      requires Pending(node, before, i) && i < |node.children| && k + 2 * i < calls
      requires AnsweredFirst(node.children[..i], objective, k) && LogGrown(was, log, node.children[..i])
      requires execute(k + 2 * i, node.children[i].action).None?
      ensures Evaluation(node, objective, k, was, false)
    {
      hide Answered, Sound, MayRaise;
      assert forall j :: 0 <= j < i ==> node.children[..i][j] == node.children[j];
      assert EvaluatesFirst(node, objective, k, was, log, i) && StopsAt(node, k, i, false);
      AnsweredAreTold(node, objective, k, i, calls);
    }

    lemma EvaluationExits(node: Node, objective: string, before: set<Node>, k: nat, was: Log, i: nat)
      requires Rolled()
      requires Pending(node, before, i + 1) && i < |node.children| && k + 2 * i + 2 <= calls
      requires AnsweredFirst(node.children[..i], objective, k)
      requires LogGrown(was, log, node.children[..i] + [node.children[i]])
      requires Answered(node.children[i], objective, k + 2 * i)
      requires exitOnComplete && node.children[i].episode.Some?
      ensures Evaluation(node, objective, k, was, true)
    {
      assert Sound();
      hide Answered, Rolled, Sound;
      var kids := node.children[..i] + [node.children[i]];
      assert forall j :: 0 <= j < i ==> node.children[..i][j] == node.children[j];
      assert forall j :: 0 <= j <= i ==> kids[j] == node.children[j];
      assert EvaluatesFirst(node, objective, k, was, log, i + 1) && StopsAt(node, k, i + 1, true);
      AnsweredAreTold(node, objective, k, i + 1, calls);
    }

    lemma EvaluationEnds(node: Node, objective: string, before: set<Node>, k: nat, was: Log)
      requires Evaluating(node, objective, before, k, was, |node.children|)
      ensures Evaluation(node, objective, k, was, true)
    {
      hide Answered, Valid, MathOk, Tidy;
      assert node.children[..|node.children|] == node.children;
      AllEvaluated(node, before);
      hide Sound, Rolled;
      assert EvaluatesFirst(node, objective, k, was, log, |node.children|) && StopsAt(node, k, |node.children|, true);
      AnsweredAreTold(node, objective, k, |node.children|, calls);
    }

    lemma AnsweredAreTold(node: Node, objective: string, k: nat, m: nat, to: nat)
      requires m <= |node.children| && k + 2 * m <= to
      requires forall j :: 0 <= j < m ==> Answered(node.children[j], objective, k + 2 * j)
      requires forall j :: m <= j < |node.children| ==> node.children[j].observation == None
      ensures forall c :: c in node.children && c.observation.Some? ==> ToldBy(c, objective, k, to)
    {
      hide Told;
      forall c | c in node.children && c.observation.Some?
        ensures ToldBy(c, objective, k, to)
      {
        var j :| 0 <= j < |node.children| && node.children[j] == c;
        assert Answered(c, objective, k + 2 * j);
      }
    }

    /** The children hang below node, none of them in before, where its path is. */
    ghost predicate Siblings(node: Node, before: set<Node>)
      reads this`nodes, node`children
    {
      && Distinct(node.children)
      && (forall p :: p in node.path ==> p in before)
      && forall j :: 0 <= j < |node.children| ==>
           node.children[j] in nodes && node.children[j] !in before
           && node.children[j].path == node.path + [node.children[j]]
    }

    lemma PendingSiblings(node: Node, before: set<Node>)
      requires Valid() && node in nodes && Pending(node, before, 0) && forall p :: p in node.path ==> p in before
      ensures Siblings(node, before)
    {
      forall j | 0 <= j < |node.children|
        ensures node.children[j].path == node.path + [node.children[j]]
      {
        ChildPath(nodes, root, node, j);
      }
      hide Valid, Node.Rooted;
    }

    lemma AllEvaluated(node: Node, before: set<Node>)
      requires Valid() && MathOk() && Tidy(nodes, maxDepth) && (exitOnComplete ==> NoEpisode(nodes))
      requires Pending(node, before, |node.children|)
      ensures Rolled() && Sound()
    {
      hide Valid, MathOk, Tidy;
    }

    /** Evaluates child number i of node. */
    method EvaluateOne(child: Node, objective: string, ghost node: Node, ghost i: nat, ghost before: set<Node>)
      returns (ok: bool)
      requires Valid() && MathOk() && Tidy(nodes, maxDepth) && (exitOnComplete ==> NoEpisode(nodes))
      requires node in before && i < |node.children| && child == node.children[i] && Pending(node, before, i)
      modifies this`calls, this`log, child`observation, child`episode, child`reward, child`status,
               nodes`visits, nodes`value
      ensures Sound() && if ok then Pending(node, before, i + 1) else Pending(node, before, i)
      ensures ok ==> log == old(log) + [(child, child.reward)] && log[..|log| - 1] == old(log)
      ensures ok ==> calls == old(calls) + 2 && Answered(child, objective, old(calls))
      ensures !ok ==> MayRaise() && calls == old(calls) + 1 && log == old(log)
      ensures !ok ==> execute(old(calls), child.action).None?
      ensures exitOnComplete && child.episode.None? ==> NoEpisode(nodes)
      ensures ok ==> Valid() && MathOk() && Tidy(nodes, maxDepth)
      ensures ok && exitOnComplete && child.episode.Some? ==> Rolled()
    {
      hide Valid, Answered, Node.Rooted, Node.GetTrajectory, Tidy, MathOk;
      ok := ObserveAndEvaluate(child, objective);
    }

    /** During an expansion: the children from number i on are the nodes still to be evaluated. */
    ghost predicate Pending(node: Node, before: set<Node>, i: nat)
      reads this`root, this`nodes, nodes, node
    {
      && before <= nodes && i <= |node.children| && Distinct(node.children)
      && (forall n :: n in nodes && n != root ==> n.observation.Some? || n in node.children)
      && (forall j :: 0 <= j < |node.children| ==>
            node.children[j] in nodes && node.children[j] !in before && node.children[j] != root
            && node.children[j].children == [])
      && (forall j :: 0 <= j < i ==> node.children[j].observation.Some?)
      && (forall j :: i <= j < |node.children| ==>
            node.children[j].observation == None && node.children[j].episode == None)
    }

    /** Collects, below acc, the nodes of the subtree that hold an episode. */
    method Completed(node: Node, acc: seq<Node>) returns (all: seq<Node>)
      requires Shape(nodes, root) && Tidy(nodes, maxDepth) && node in nodes
      ensures acc <= all
      ensures forall n :: n in all[|acc|..] <==> n in nodes && node in n.path && n.episode.Some?
      ensures InWalkOrder(all[|acc|..], false)
      decreases DepthLimit(maxDepth) - node.depth
    {
      hide *;
      InTreeFacts(nodes, root, node);
      RootedDistinct(node);
      all := if node.episode.Some? then acc + [node] else acc;
      CollectedFirst(node, acc, all);
      for i := 0 to |node.children|
        invariant acc <= all && Collected(node, i, all[|acc|..]) && InWalkOrder(all[|acc|..], false)
      {
        ChildBelow(node, i);
        var longer := Completed(node.children[i], all);
        CollectedStep(node, i, acc, all, longer);
        all := longer;
      }
      CollectedAll(node, all[|acc|..]);
    }

    /** The nodes with an episode: node itself and those in the subtrees of its first i children. */
    ghost predicate Collected(node: Node, i: nat, found: seq<Node>)
      requires i <= |node.children|
      reads this`nodes, node, nodes`episode
    {
      && (forall n :: n in found ==> n in nodes)
      && (forall n :: n in nodes ==>
            (n in found <==> n.episode.Some? && (n == node || exists j :: 0 <= j < i && node.children[j] in n.path)))
    }

    lemma CollectedFirst(node: Node, acc: seq<Node>, all: seq<Node>)
      requires node in nodes && all == if node.episode.Some? then acc + [node] else acc
      ensures acc <= all && Collected(node, 0, all[|acc|..]) && InWalkOrder(all[|acc|..], false)
    {
    }

    lemma CollectedStep(node: Node, i: nat, acc: seq<Node>, all: seq<Node>, longer: seq<Node>)
      requires Shape(nodes, root) && node in nodes
      requires acc <= all <= longer && i < |node.children| && Collected(node, i, all[|acc|..])
      requires forall n :: n in longer[|all|..] <==> n in nodes && node.children[i] in n.path && n.episode.Some?
      requires InWalkOrder(all[|acc|..], false) && InWalkOrder(longer[|all|..], false)
      ensures acc <= longer && Collected(node, i + 1, longer[|acc|..]) && InWalkOrder(longer[|acc|..], false)
    {
      var found, more := all[|acc|..], longer[|all|..];
      assert longer[|acc|..] == found + more;
      forall n, m | n in found && m in more
        ensures WalkedBefore(n, m, false)
      {
        CollectedBefore(nodes, root, node, i, n, m);
      }
      hide WalkedBefore, InWalkOrder, Shape;
      InOrderConcat(found, more, false);
    }

    lemma CollectedAll(node: Node, found: seq<Node>)
      requires Shape(nodes, root) && node in nodes && Collected(node, |node.children|, found)
      ensures forall n :: n in found <==> n in nodes && node in n.path && n.episode.Some?
    {
      hide Shape, Node.Rooted;
      forall n | n in nodes
        ensures node in n.path <==> n == node || exists j :: 0 <= j < |node.children| && node.children[j] in n.path
      {
        SubtreeSplit(nodes, root, node, n);
      }
    }

    lemma ChildBelow(node: Node, i: nat)
      requires Shape(nodes, root) && Tidy(nodes, maxDepth) && node in nodes && i < |node.children|
      ensures node.children[i] in nodes && node.depth < node.children[i].depth <= DepthLimit(maxDepth)
    {
      hide Node.Rooted;
      var child := node.children[i];
      assert InTree(node, nodes, root) && InTree(child, nodes, root);
      ChildDepth(child);
    }

    /** Of the evaluated nodes with the highest reward, the one that a walk from last child to first meets first. */
    static ghost predicate IsBestPartial(best: Node, among: set<Node>)
      requires Ancestors(best) <= among - {best}
      reads among`observation, among`reward, best`reward, (among - {best})`children
    {
      && (forall n :: n in among && n.observation.Some? ==> n.reward <= best.reward)
      && forall n :: n in among && n.observation.Some? && n.reward == best.reward && n != best ==>
           WalkedBefore(best, n, true)
    }

    /** The evaluated node with the highest reward, by a depth-first walk with a stack. */
    method BestPartial(start: Node) returns (best: Node?)
      requires start == root && Shape(nodes, root) && Logged(nodes, root, log)
      ensures best == null <==> log == []
      ensures best != null ==> best in nodes && best.observation.Some?
      ensures best != null ==> Ancestors(best) <= nodes - {best} && IsBestPartial(best, nodes)
    {
      hide Node.Rooted, Shape, Logged, Walk, WalkOrder;
      var found: seq<Node> := [];
      var stack := start.children;
      ghost var visited: set<Node> := {start};
      WalkStart(nodes, root, log);
      WalkOrderStart(nodes, root);
      while stack != []
        invariant Walk(nodes, root, visited, stack) && WalkOrder(found, stack)
        invariant forall n :: n in found <==> n in visited && n.observation.Some?
        decreases nodes - visited
      {
        WalkStep(nodes, root, visited, stack);
        WalkOrderStep(nodes, root, found, stack);
        var node := stack[|stack| - 1];
        stack := stack[..|stack| - 1];
        visited := visited + {node};
        if node.observation.Some? {
          found := found + [node];
        }
        stack := stack + node.children;
      }
      best := MaxReward(found);
      WalkEnd(nodes, root, log, visited, found);
      WalkOrderEnd(found, stack);
      if best != null {
        AncestorsAreOthers(nodes, root, best);
        FirstOfEquals(found, best, true);
      }
    }

    lemma AncestorsAreOthers(nodes: set<Node>, root: Node?, n: Node)
      requires Shape(nodes, root) && n in nodes
      ensures Ancestors(n) <= nodes - {n}
    {
      InTreeFacts(nodes, root, n);
      RootedDistinct(n);
    }

    /** The nodes of the tree that hold an episode. */
    method Done(start: Node) returns (done: seq<Node>)
      requires start == root && Shape(nodes, root) && Tidy(nodes, maxDepth)
      ensures forall n :: n in done <==> n in nodes && n.episode.Some?
      ensures InWalkOrder(done, false)
    {
      hide Node.Rooted, Shape, Tidy, InWalkOrder;
      RootIsHere(nodes, root);
      done := Completed(start, []);
      assert done[0..] == done;
      forall n | n in nodes
        ensures start in n.path
      {
        RootOnPath(nodes, root, n);
      }
    }

    /** Asks for a finalize action below the best partial trajectory, and runs the first one proposed. */
    method ForceFinalize(start: Node, objective: string, ghost nBranches: int, ghost first: nat)
      returns (ok: bool, done: seq<Node>, ghost best: Node?, ghost forced: Node?)
      requires start == root && Valid() && NoEpisode(nodes) && Accounted(objective, nBranches, first, null)
      modifies this`calls, this`nodes, this`log, nodes
      ensures Valid() && old(nodes) <= nodes && fresh(nodes - old(nodes)) && old(calls) <= calls && old(log) <= log
      ensures Accounted(objective, nBranches, first, forced) && Enforced(objective, best, forced, old(calls), ok)
      ensures nodes == old(nodes) + (if forced == null then {} else {forced}) && forced !in old(nodes)
      ensures SoleEpisode(nodes)
              && (if ok then forall n :: n in done <==> n in nodes && n.episode.Some? else MayRaise())
      ensures |done| <= 1 && forall n :: n in old(nodes) ==> n.episode.None?
      ensures forall n :: n in old(nodes) && n != best ==> n.children == old(n.children)
      ensures best != null ==> best in old(nodes) && old(best.observation).Some?
      ensures best != null ==> best.children == old(best.children) + (if forced == null then [] else [forced])
      ensures forced != null ==> best != null && forced.parent == best
    {
      hide Valid, Node.GetTrajectory, Statistics, Shape, Logged, Node.Rooted, Forced, IsBestPartial, Accounted,
           Enforced, MayRaise;
      ValidParts();
      NothingEvaluated(objective);
      var partial := BestPartial(start);
      ok, best, done, forced := true, partial, [], null;
      if partial == null {
        return;
      }
      ok, done, forced := ForceBelow(partial, objective, nBranches, first);
    }

    /** The one forced finalize, below the best partial node. */
    method ForceBelow(partial: Node, objective: string, ghost nBranches: int, ghost first: nat)
      returns (ok: bool, done: seq<Node>, ghost forced: Node?)
      requires Valid() && NoEpisode(nodes) && Accounted(objective, nBranches, first, null)
      requires partial in nodes && partial.observation.Some?
      requires Ancestors(partial) <= nodes - {partial} && IsBestPartial(partial, nodes)
      modifies this`calls, this`nodes, this`log, partial`children, nodes`visits, nodes`value
      ensures Valid() && old(nodes) <= nodes && fresh(nodes - old(nodes)) && old(calls) <= calls && old(log) <= log
      ensures Accounted(objective, nBranches, first, forced) && Enforced(objective, partial, forced, old(calls), ok)
      ensures nodes == old(nodes) + (if forced == null then {} else {forced}) && forced !in old(nodes)
      ensures done == (if forced != null && forced.episode.Some? then [forced] else []) && (!ok ==> MayRaise())
      ensures forced != null ==> forced.parent == partial && (!ok ==> forced.episode.None?)
      ensures partial.children == old(partial.children) + (if forced == null then [] else [forced])
    {
      hide *;
      ok, done, forced := true, [], null;
      ValidParts();
      InTreeFacts(nodes, root, partial);
      ghost var k, before, kids := calls, nodes, partial.children;
      PathsStay();
      AccountedIsKept(partial, objective, nBranches, first);
      var answer := expand(calls, objective, partial.GetTrajectory(), 1, true);
      calls := calls + 1;
      var i := FirstFinalize(if answer.Some? then answer.value else []);
      if answer.None? || i == |answer.value| {
        AccountedLater(partial, objective, nBranches, first, k);
        ForcedNothing(partial, objective, answer, k);
        return;
      }
      var child;
      ok, child := Attach(partial, strip(answer.value[i]), objective);
      ForcedIsAccounted(before, partial, kids, child, objective, nBranches, first, k);
      ForcedChild(before, partial, objective, answer.value, i, child, k, ok);
      forced := child;
      done := if child.episode.Some? then [child] else [];
    }

    lemma NothingEvaluated(objective: string)
      requires Valid()
      ensures log == [] ==> Enforced(objective, null, null, calls, true)
    {
      hide Shape, Statistics, Node.Rooted, Node.GetTrajectory;
    }

    method Attach(node: Node, action: string, objective: string) returns (ok: bool, child: Node)
      requires Valid() && NoEpisode(nodes) && node in nodes && action != ""
      modifies this`calls, this`nodes, this`log, node`children, nodes`visits, nodes`value
      ensures Valid() && fresh(child) && nodes == old(nodes) + {child} && child.children == []
      ensures child.action == action && child.parent == node && child.depth == node.depth + 1
      ensures node.children == old(node.children) + [child]
      ensures if ok then Answered(child, objective, old(calls)) && calls == old(calls) + 2
              else MayRaise() && execute(old(calls), action).None? && child.observation == None && child.episode == None
      ensures old(calls) <= calls && old(log) <= log
    {
      hide *;
      child := AddChild(node, action);
      ok := ObserveAndEvaluate(child, objective);
    }

    /** The first action that begins with finalize once stripped. */
    method FirstFinalize(actions: seq<string>) returns (i: nat)
      ensures i <= |actions| && (i < |actions| ==> Finalizes(actions[i]) && strip(actions[i]) != "")
      ensures forall j :: 0 <= j < i ==> !Finalizes(actions[j])
      ensures i == |actions| ==> forall a :: a in actions ==> !Finalizes(a)
    {
      i := 0;
      while i < |actions| && !(actions[i] != "" && "finalize" <= strip(actions[i]))
        invariant i <= |actions| && forall j :: 0 <= j < i ==> !Finalizes(actions[j])
      {
        i := i + 1;
      }
    }

    ghost predicate Finalizes(action: string) {
      action != "" && "finalize" <= strip(action)
    }

    /** The forced node is one below best for the first proposal that finalizes; there is none without one. */
    ghost predicate Forced(best: Node, answer: Option<seq<string>>, forced: Node?) {
      if answer.None? || forall a :: a in answer.value ==> !Finalizes(a) then forced == null
      else forced != null && exists i: nat :: IsForced(best, answer.value, i, forced)
    }

    ghost predicate IsForced(best: Node, actions: seq<string>, i: nat, child: Node) {
      && i < |actions| && Finalizes(actions[i]) && (forall j :: 0 <= j < i ==> !Finalizes(actions[j]))
      && child.action == strip(actions[i]) && child.parent == best && child.depth == best.depth + 1
    }

    /** Without an episode from the rollouts, but with some evaluation, call k asked for a finalize action below the
        best partial trajectory; its first one became the forced node. */
    ghost predicate Enforced(objective: string, best: Node?, forced: Node?, k: nat, ok: bool)
      reads this`nodes, nodes, best, forced, (set n, p | n in nodes && p in n.path :: p)
    {
      var rolled := set n | n in nodes && n != forced;
      && (forced != null ==> forced in nodes)
      && if best == null then
           forced == null
           && ((exists n :: n in rolled && n.episode.Some?) || forall n :: n in rolled ==> n.observation.None?)
         else
           && best in rolled && best.observation.Some? && best.Rooted() && (forall n :: n in rolled ==> n.episode.None?)
           && Ancestors(best) <= rolled - {best} && IsBestPartial(best, rolled)
           && Forced(best, expand(k, objective, best.GetTrajectory(), 1, true), forced)
           && (ok && forced != null ==> Answered(forced, objective, k + 1))
    }

    lemma ForcedNothing(best: Node, objective: string, answer: Option<seq<string>>, k: nat)
      requires best in nodes && best.observation.Some? && best.Rooted() && NoEpisode(nodes)
      requires Ancestors(best) <= nodes - {best} && IsBestPartial(best, nodes)
      requires answer == expand(k, objective, best.GetTrajectory(), 1, true)
      requires answer.None? || forall a :: a in answer.value ==> !Finalizes(a)
      ensures Enforced(objective, best, null, k, true)
    {
      hide IsBestPartial, Node.Rooted, Node.GetTrajectory, Finalizes;
      var none: Node? := null;
      assert (set n | n in nodes && n != none) == nodes;
    }

    lemma ForcedChild(before: set<Node>, best: Node, objective: string, actions: seq<string>, i: nat, child: Node,
                      k: nat, ok: bool)
      requires nodes == before + {child} && child !in before
      requires best in before && best.observation.Some? && best.Rooted() && NoEpisode(before)
      requires Ancestors(best) <= before - {best} && IsBestPartial(best, before)
      requires Some(actions) == expand(k, objective, best.GetTrajectory(), 1, true)
      requires i < |actions| && Finalizes(actions[i]) && (forall j :: 0 <= j < i ==> !Finalizes(actions[j]))
      requires child.action == strip(actions[i]) && child.parent == best && child.depth == best.depth + 1
      requires ok ==> Answered(child, objective, k + 1)
      ensures Enforced(objective, best, child, k, ok)
    {
      hide IsBestPartial, Node.Rooted, Node.GetTrajectory, Answered;
      assert actions[i] in actions && IsForced(best, actions, i, child);
      assert (set n | n in nodes && n != child) == before;
    }

    lemma AccountedLater(best: Node, objective: string, nBranches: int, first: nat, k: nat)
      requires PathsIn(nodes) && Kept(nodes, best, objective, nBranches, first, k) && k <= calls
      requires best.children != [] ==> OfferedBy(best, best.children, objective, nBranches, first, k)
      ensures Accounted(objective, nBranches, first, null)
    {
      hide Told, Offered;
      forall n | n in nodes && n.children != []
        ensures OfferedBy(n, n.children, objective, nBranches, first, calls)
      {
        assert OfferedBy(n, n.children, objective, nBranches, first, k);
      }
    }

    lemma ForcedIsAccounted(before: set<Node>, best: Node, kids: seq<Node>, child: Node, objective: string,
                            nBranches: int, first: nat, k: nat)
      requires PathsIn(before) && Kept(before, best, objective, nBranches, first, k) && k <= calls && best in before
      requires kids != [] ==> OfferedBy(best, kids, objective, nBranches, first, k)
      requires nodes == before + {child} && child !in before && child.parent == best && best.children == kids + [child]
      requires child.children == [] && (child.observation.Some? ==> Answered(child, objective, k + 1) && k + 1 < calls)
      ensures Accounted(objective, nBranches, first, child)
    {
      hide Told, Offered;
      assert (kids + [child])[..|kids|] == kids;
      forall n | n in nodes && RolledChildren(n, child) != []
        ensures OfferedBy(n, RolledChildren(n, child), objective, nBranches, first, calls)
      {
        assert n == best || OfferedBy(n, n.children, objective, nBranches, first, k);
      }
    }

    /** A result reports the completed node with the highest reward, in pre-order the first of several, and the
        way to it, or that there is none. */
    ghost predicate Reports(result: SearchResult, best: Node?)
      reads this`root, this`nodes, nodes`episode, nodes`reward, nodes`observation, nodes`children
    {
      if best == null then NoEpisode(nodes) && result.episode == None && result.reward == 0.0 && result.trajectory == []
      else
        && best in nodes && best.episode.Some? && result.episode == best.episode && result.reward == best.reward
        && (forall n :: n in nodes && n.episode.Some? ==> n.reward <= best.reward)
        && best.Rooted() && best.path[0] == root && (forall n :: n in best.path ==> n in nodes)
        && (forall n :: n in nodes && n.episode.Some? && n.reward == best.reward && n != best ==>
              WalkedBefore(best, n, false))
        && result.trajectory == Pairs(best.path[1..])
    }

    /** A whole search. Without a rollout, reporting their number fails; so does an exception of execute. Ghost: the
        node below which a finalize was forced by call number asked, and the forced node. */
    method Run(objective: string, nBranches: int, maxRollouts: int, exit: bool)
      returns (result: Option<SearchResult>, best: Node?, ok: bool,
               ghost partial: Node?, ghost forced: Node?, ghost asked: nat)
      requires MathOk()
      modifies this
      ensures (result.None? <==> maxRollouts <= 0 || !ok) && (!ok ==> MayRaise())
      ensures Valid() && (result.Some? ==> Reports(result.value, best))
      ensures result.Some? ==> 1 <= result.value.rollouts <= maxRollouts
      ensures result.Some? ==> result.value.rollouts == rolled - old(rolled)
      ensures result.Some? && result.value.rollouts < maxRollouts ==>
                exit && result.value.episode.Some? && partial == null
      ensures exit ==> SoleEpisode(nodes)
      ensures Accounted(objective, nBranches, old(calls), forced) && old(calls) <= asked <= calls
      ensures result.Some? ==> Enforced(objective, partial, forced, asked, ok)
      ensures maxRollouts > 0 && maxDepth >= 1 ==>
                && root != null
                && Proposed(RolledChildren(root, forced),
                            ActionsOf(expand(old(calls), objective, [], nBranches, false)))
                && (result.Some? && RolledChildren(root, forced) != [] ==> log != [])
      ensures forall n :: n in nodes && n != forced ==> n.depth <= (if maxDepth < 0 then 1 else maxDepth + 1)
    {
      hide Valid, Node.Rooted, Node.GetTrajectory, Statistics, Shape, Logged, Tidy, Settled, Reports, MayRaise,
           InWalkOrder, Accounted, Enforced, Rooting, IsStart, Proposed, SoleEpisode;
      exitOnComplete := exit;
      var start := Start();
      var rollouts, done;
      ok, rollouts := Rollouts(start, objective, nBranches, maxRollouts, exit);
      partial, forced, asked := null, null, calls;
      if maxRollouts > 0 && maxDepth >= 1 {
        RootingMeans(start, objective, nBranches, old(calls), ok);
      }
      if !ok {
        DepthsAreBounded();
        return None, null, false, partial, forced, asked;
      }
      ok, done, partial, forced := Conclude(start, objective, nBranches, old(calls));
      ValidParts();
      if maxRollouts <= 0 || !ok {
        return None, null, ok, partial, forced, asked;
      }
      var chosen, answer := Choose(done, rollouts);
      return Some(answer), chosen, true, partial, forced, asked;
    }

    /** The nodes with an episode, found by the rollouts or, failing that, forced. */
    method Conclude(start: Node, objective: string, ghost nBranches: int, ghost first: nat)
      returns (ok: bool, done: seq<Node>, ghost partial: Node?, ghost forced: Node?)
      requires Rolled() && start == root && Accounted(objective, nBranches, first, null)
      modifies this`calls, this`nodes, this`log, nodes
      ensures Valid() && fresh(nodes - old(nodes)) && (exitOnComplete ==> SoleEpisode(nodes))
      ensures if ok then forall n :: n in done <==> n in nodes && n.episode.Some? else MayRaise()
      ensures InWalkOrder(done, false) && old(calls) <= calls && old(log) <= log
      ensures old(!NoEpisode(nodes)) ==> done != [] && partial == null
      ensures Accounted(objective, nBranches, first, forced) && Enforced(objective, partial, forced, old(calls), ok)
      ensures RolledChildren(start, forced) == old(start.children)
      ensures forall n :: n in nodes && n != forced ==> n.depth <= (if maxDepth < 0 then 1 else maxDepth + 1)
    {
      hide Valid, Node.Rooted, Node.GetTrajectory, Statistics, Shape, Logged, Tidy, Settled, Forced, MayRaise,
           Accounted, Enforced;
      ValidParts();
      DepthsAreBounded();
      done := Done(start);
      ok, partial, forced := true, null, null;
      if done == [] {
        ok, done, partial, forced := ForceFinalize(start, objective, nBranches, first);
      } else {
        NothingForced(objective, done[0]);
      }
    }

    lemma NothingForced(objective: string, n: Node)
      requires n in nodes && n.episode.Some?
      ensures Enforced(objective, null, null, calls, true)
    {
      var none: Node? := null;
      assert n in (set m | m in nodes && m != none);
    }

    method Choose(done: seq<Node>, rollouts: int) returns (best: Node?, result: SearchResult)
      requires Shape(nodes, root)
      requires InWalkOrder(done, false) && forall n :: n in done <==> n in nodes && n.episode.Some?
      ensures Reports(result, best) && result.rollouts == rollouts && (result.episode.Some? <==> done != [])
    {
      hide Node.GetTrajectory, Node.Rooted, Shape, InWalkOrder, WalkedBefore;
      best := MaxReward(done);
      if best == null {
        result := SearchResult(None, 0.0, [], rollouts);
      } else {
        FirstOfEquals(done, best, false);
        TrajectoryIsPath(nodes, root, best);
        InTreeFacts(nodes, root, best);
        result := SearchResult(best.episode, best.reward, best.GetTrajectory(), rollouts);
      }
    }

    lemma DepthsAreBounded()
      requires Tidy(nodes, maxDepth)
      ensures forall n :: n in nodes ==> n.depth <= (if maxDepth < 0 then 1 else maxDepth + 1)
    {
    }

    method Rollouts(start: Node, objective: string, nBranches: int, maxRollouts: int, exit: bool)
      returns (ok: bool, rollouts: int)
      requires Ready() && start == root && exit == exitOnComplete && Accounted(objective, nBranches, calls, null)
      requires IsStart(start) && start.children == [] && start.status == Incomplete
      modifies this`calls, this`nodes, this`log, this`rolled, nodes
      ensures Sound() && old(nodes) <= nodes && fresh(nodes - old(nodes)) && start == root
      ensures if ok then Rolled() else MayRaise()
      ensures 0 <= rollouts && (rollouts == 0 <==> maxRollouts <= 0) && rolled == old(rolled) + rollouts
      ensures rollouts > 0 ==> rollouts <= maxRollouts
      ensures ok && 0 < rollouts < maxRollouts ==> exit && !NoEpisode(nodes)
      ensures Accounted(objective, nBranches, old(calls), null)
      ensures rollouts > 0 && maxDepth >= 1 ==> Rooting(start, objective, nBranches, old(calls), ok)
      ensures old(calls) <= calls && (rollouts == 0 ==> nodes == old(nodes) && log == old(log))
    {
      hide Valid, Tidy, Shape, Logged, Statistics, Settled, MathOk, InWalkOrder, MayRaise, Accounted,
           Rooting, IsStart;
      ok, rollouts := true, 0;
      while rollouts < maxRollouts
        invariant Ready() && old(nodes) <= nodes && fresh(nodes - old(nodes)) && start == root && IsStart(start)
        invariant 0 <= rollouts && (rollouts == 0 || rollouts <= maxRollouts) && rolled == old(rolled) + rollouts
        invariant Accounted(objective, nBranches, old(calls), null) && old(calls) <= calls
        invariant Begun(start, objective, nBranches, old(calls), rollouts)
        invariant rollouts == 0 ==> nodes == old(nodes) && log == old(log)
      {
        rollouts := rollouts + 1;
        ok := RollFromRoot(start, objective, nBranches, old(calls), rollouts - 1);
        if !ok {
          return;
        }
        ValidParts();
        var done := Done(start);
        if exit && done != [] {
          assert done[0] in done;
          return;
        }
        assert exit ==> NoEpisode(nodes);
      }
    }

    ghost predicate IsStart(start: Node) {
      start.Rooted() && start.parent == null && start.action == "" && start.depth == 1
    }

    /** What is known of the root after n rollouts. */
    ghost predicate Begun(start: Node, objective: string, nBranches: int, first: nat, n: int)
      reads this`log, this`calls, start
    {
      if n <= 0 then start.children == [] && start.status == Incomplete && calls == first
      else maxDepth >= 1 ==> Rooting(start, objective, nBranches, first, true)
    }

    /** Rollout number n + 1. */
    method RollFromRoot(start: Node, objective: string, nBranches: int, ghost first: nat, ghost n: nat)
      returns (ok: bool)
      requires Ready() && start == root && IsStart(start) && Accounted(objective, nBranches, first, null)
      requires Begun(start, objective, nBranches, first, n)
      modifies this`calls, this`nodes, this`log, this`rolled, nodes
      ensures Sound() && old(nodes) <= nodes && fresh(nodes - old(nodes)) && start == root
      ensures if ok then Rolled() else MayRaise()
      ensures rolled == old(rolled) + 1 && Accounted(objective, nBranches, first, null) && old(calls) <= calls
      ensures maxDepth >= 1 ==> Rooting(start, objective, nBranches, first, ok)
    {
      hide Valid, Tidy, Shape, Logged, Statistics, Descent, EvaluatesChildren, MayRaise, Accounted, Rooting,
           Grown, Stops, Open, Node.GetTrajectory, MathOk, Settled, SoleEpisode;
      RootIsIn();
      ghost var trail;
      ghost var kids, status, before := start.children, start.status, log;
      if n > 0 && maxDepth >= 1 {
        RootingMeans(start, objective, nBranches, first, true);
      }
      RootOfDescent(start);
      RootTrajectory(start);
      ok, trail := Rollout(start, objective, nBranches, first);
      if maxDepth >= 1 {
        if n == 0 {
          RootingStarts(start, objective, nBranches, first, before, ok);
        } else {
          RootingStays(start, objective, nBranches, first, kids, status, before, ok);
        }
      }
    }

    /** A rollout that starts at a leaf ends there; one that ends where it starts changes no children but a leaf's. */
    lemma RootOfDescent(start: Node)
      ensures forall trail :: Descent(trail) && trail[0] == start && Stops(start) ==> trail == [start]
      ensures start.children == [] ==> Stops(start)
      ensures start.depth <= maxDepth && start.status != Failed && start.children != [] ==> !Stops(start)
      ensures Open(start) <==> start.children == [] && start.status != Failed && start.depth <= maxDepth
      ensures forall trail :: Descent(trail) ==> Stops(trail[|trail| - 1])
    {
      forall trail | Descent(trail) && trail[0] == start && Stops(start)
        ensures trail == [start]
      {
        assert |trail| > 1 ==> Prefers(trail[0], trail[1]);
      }
    }

    lemma RootTrajectory(start: Node)
      requires start.Rooted() && start.parent == null && start.action == ""
      ensures start.GetTrajectory() == []
    {
    }

    lemma RootingStarts(start: Node, objective: string, nBranches: int, k: nat, before: Log, ok: bool)
      requires Grown(start, objective, nBranches, k, [], before, log, ok)
      ensures Rooting(start, objective, nBranches, k, ok)
    {
      hide Answered, Proposed;
      if start.children == [] {
        NoActions(start, expand(k, objective, [], nBranches, false));
      }
      hide Different;
    }

    lemma NoActions(start: Node, answer: Option<seq<string>>)
      requires start.children == [] && Proposed(start.children, ActionsOf(answer))
      ensures answer.None? || forall a :: a in answer.value ==> a == ""
    {
      assert forall a :: a in ActionsOf(answer) && a != "" ==> a in Different(ActionsOf(answer));
    }

    lemma RootingStays(start: Node, objective: string, nBranches: int, k: nat, kids: seq<Node>, status: Status,
                       before: Log, ok: bool)
      requires Proposed(kids, ActionsOf(expand(k, objective, [], nBranches, false)))
      requires kids == [] ==> status == Failed
      requires kids != [] ==> before != []
      requires start.children == kids && (status == Failed ==> start.status == Failed) && before <= log
      ensures Rooting(start, objective, nBranches, k, ok)
    {
    }

    lemma RootingMeans(start: Node, objective: string, nBranches: int, k: nat, ok: bool)
      requires Rooting(start, objective, nBranches, k, ok)
      ensures Proposed(start.children, ActionsOf(expand(k, objective, [], nBranches, false)))
      ensures (start.children == [] ==> start.status == Failed) && (ok && start.children != [] ==> log != [])
    {
    }

    /** The first rollout asks for the root's actions; it evaluates the first child, or fails the root for good. */
    ghost predicate Rooting(start: Node, objective: string, nBranches: int, k: nat, ok: bool)
      reads this`log, start
    {
      && Proposed(start.children, ActionsOf(expand(k, objective, [], nBranches, false)))
      && (start.children == [] ==> start.status == Failed)
      && (ok && start.children != [] ==> log != [])
    }

    method Start() returns (start: Node)
      requires MathOk()
      modifies this`root, this`nodes, this`log
      ensures Ready() && start == root && fresh(start) && nodes == {start} && log == []
      ensures start.parent == null && start.action == "" && start.children == [] && start.status == Incomplete
      ensures IsStart(start) && forall objective, nBranches :: Accounted(objective, nBranches, calls, null)
    {
      hide *;
      start := new Node("", 1, null);
      root, nodes, log := start, {start}, [];
      StartIsReady(start);
      StartIsAccounted(start);
    }

    lemma StartIsAccounted(start: Node)
      requires nodes == {start} && start.observation == None && start.children == []
      ensures forall objective, nBranches :: Accounted(objective, nBranches, calls, null)
    {
    }

    lemma StartIsReady(start: Node)
      requires MathOk() && root == start && nodes == {start} && log == []
      requires start.Rooted() && start.path == [start] && start.parent == null && start.depth == 1 && start.action == ""
      requires start.children == [] && start.visits == 0 && start.value == 0.0
      requires start.observation == None && start.episode == None && start.status == Incomplete
      ensures Ready() && IsStart(start)
    {
      assert InTree(start, nodes, root);
      assert StatisticsOk(start, log);
    }

    /** Of equal rewards, max keeps the first. */
    static ghost predicate IsFirstMax(found: seq<Node>, k: nat)
      reads (set n | n in found)`reward
    {
      && k < |found|
      && (forall j :: 0 <= j < |found| ==> found[j].reward <= found[k].reward)
      && (forall j :: 0 <= j < k ==> found[j].reward < found[k].reward)
    }

    static lemma FirstOfEquals(found: seq<Node>, best: Node, back: bool)
      requires InWalkOrder(found, back) && exists k: nat :: IsFirstMax(found, k) && found[k] == best
      ensures forall n :: n in found && n.reward == best.reward && n != best ==> WalkedBefore(best, n, back)
    {
      hide WalkedBefore;
      var k: nat :| IsFirstMax(found, k) && found[k] == best;
      forall n | n in found && n.reward == best.reward && n != best
        ensures WalkedBefore(best, n, back)
      {
        var l :| 0 <= l < |found| && found[l] == n;
        assert l > k;
      }
    }

    method MaxReward(found: seq<Node>) returns (best: Node?)
      ensures best == null <==> found == []
      ensures best != null ==> best in found && forall n :: n in found ==> n.reward <= best.reward
      ensures best != null ==> exists k: nat :: IsFirstMax(found, k) && found[k] == best
    {
      if found == [] {
        return null;
      }
      best := found[0];
      ghost var k := 0;
      for i := 1 to |found|
        invariant 0 <= k < i && found[k] == best
        invariant forall j :: 0 <= j < i ==> found[j].reward <= best.reward
        invariant forall j :: 0 <= j < k ==> found[j].reward < best.reward
      {
        if found[i].reward > best.reward {
          best := found[i];
          k := i;
        }
      }
      assert IsFirstMax(found, k);
    }
  }

  ghost function Pairs(path: seq<Node>): Trajectory
    reads (set n | n in path)`observation
  {
    if path == [] then []
    else
      var n := path[|path| - 1];
      Pairs(path[..|path| - 1]) + [(n.action, if n.observation.Some? then n.observation.value else "")]
  }

  /** A node's trajectory is its path from below the root, which contributes nothing. */
  lemma {:induction false} TrajectoryIsPath(nodes: set<Node>, root: Node?, n: Node)
    requires Shape(nodes, root) && n in nodes
    ensures n.Rooted() && n.path[0] == root && n.GetTrajectory() == Pairs(n.path[1..])
    decreases |n.path|
  {
    assert InTree(n, nodes, root);
    if n.parent != null {
      TrajectoryIsPath(nodes, root, n.parent);
      assert n.path[1..][..|n.path| - 2] == n.parent.path[1..];
    }
  }

  lemma QuotientNonNegative(x: real, n: real)
    requires x >= 0.0 && n > 0.0
    ensures x / n >= 0.0
  {
  }

  lemma ChildDepth(n: Node)
    requires n.Rooted() && n.parent != null
    ensures n.path == n.parent.path + [n] && |n.path| == |n.parent.path| + 1 && n.parent.Rooted()
  {
  }

  /** The subtree of a node is the node and the subtrees of its children. */
  lemma SubtreeSplit(nodes: set<Node>, root: Node?, node: Node, n: Node)
    requires Shape(nodes, root) && node in nodes && n in nodes
    ensures node in n.path <==> n == node || exists j :: 0 <= j < |node.children| && node.children[j] in n.path
  {
    hide Node.Rooted, Shape;
    InTreeFacts(nodes, root, n);
    if node in n.path && n != node {
      NextOnPath(nodes, root, node, n);
    }
    if j :| 0 <= j < |node.children| && node.children[j] in n.path {
      ChildrenKnowParent(nodes, root, node, j);
      PassesParent(n, node.children[j]);
    }
    RootedDistinct(n);
  }

  lemma ChildrenKnowParent(nodes: set<Node>, root: Node?, node: Node, j: nat)
    requires Shape(nodes, root) && node in nodes && j < |node.children|
    ensures node.children[j].parent == node
  {
    hide Node.Rooted;
    assert InTree(node, nodes, root);
  }

  lemma NextOnPath(nodes: set<Node>, root: Node?, node: Node, n: Node)
    requires Shape(nodes, root) && n in nodes && node in n.path && n != node
    ensures exists j :: 0 <= j < |node.children| && node.children[j] in n.path
  {
    hide Node.Rooted;
    assert InTree(n, nodes, root);
    RootedDistinct(n);
    var i :| 0 <= i < |n.path| && n.path[i] == node;
    PathPrefix(n, i + 1);
    var next := n.path[i + 1];
    assert next in n.path && next in nodes && next.parent == node;
    assert next in node.children;
  }

  // ----- The order of depth-first walks -----

  /** The nodes above this one. */
  ghost function Ancestors(n: Node): (above: set<Node>)
    ensures forall p :: p in above ==> p in n.path
  {
    set i | 0 <= i < |n.path| - 1 :: n.path[i]
  }

  ghost predicate Above(n: Node, m: Node) {
    n.path < m.path
  }

  /** The paths part below a common node, n's way going through the earlier child, or backwards the later one. */
  ghost predicate Parts(n: Node, m: Node, back: bool)
    reads Ancestors(n)`children
  {
    exists d: nat :: PartsAt(n, m, d, back)
  }

  ghost predicate PartsAt(n: Node, m: Node, d: nat, back: bool)
    reads Ancestors(n)`children
  {
    && 0 < d < |n.path| && d < |m.path| && n.path[..d] == m.path[..d]
    && n.path[d - 1] in Ancestors(n) && ChildBefore(n.path[d - 1].children, n.path[d], m.path[d], back)
  }

  ghost predicate ChildBefore(children: seq<Node>, x: Node, y: Node, back: bool) {
    exists a: nat, b: nat ::
      a < |children| && b < |children| && children[a] == x && children[b] == y && if back then b < a else a < b
  }

  /** A node comes before the nodes below it; the children of a node come in their order, or backwards. */
  ghost predicate WalkedBefore(n: Node, m: Node, back: bool)
    reads Ancestors(n)`children
  {
    Above(n, m) || Parts(n, m, back)
  }

  ghost predicate InWalkOrder(found: seq<Node>, back: bool)
    reads (set n, p | n in found && p in n.path :: p)`children
  {
    forall x, y :: 0 <= x < y < |found| ==> found[x] in found && WalkedBefore(found[x], found[y], back)
  }

  lemma PartsBelow(n: Node, m: Node, x: Node, y: Node, back: bool)
    requires Parts(n, m, back) && n.path <= x.path && m.path <= y.path
    ensures Parts(x, y, back)
  {
    var d: nat :| PartsAt(n, m, d, back);
    assert x.path[..d] == n.path[..d] && y.path[..d] == m.path[..d];
    assert x.path[d - 1] == n.path[d - 1] && x.path[d] == n.path[d] && y.path[d] == m.path[d];
    assert PartsAt(x, y, d, back);
  }

  lemma BeforeBelow(n: Node, m: Node, y: Node, back: bool)
    requires WalkedBefore(n, m, back) && m.path <= y.path
    ensures WalkedBefore(n, y, back)
  {
    if Parts(n, m, back) {
      PartsBelow(n, m, n, y, back);
    } else {
      assert y.path[..|n.path|] == n.path;
    }
  }

  lemma ChildPath(nodes: set<Node>, root: Node?, node: Node, j: nat)
    requires Shape(nodes, root) && node in nodes && j < |node.children|
    ensures node.path != [] && node.path[|node.path| - 1] == node
    ensures node.children[j].path == node.path + [node.children[j]]
  {
    assert InTree(node, nodes, root);
    assert InTree(node.children[j], nodes, root);
  }

  lemma SiblingsPart(nodes: set<Node>, root: Node?, node: Node, i: nat, j: nat, back: bool)
    requires Shape(nodes, root) && node in nodes && i < |node.children| && j < |node.children|
    requires if back then j < i else i < j
    ensures Parts(node.children[i], node.children[j], back)
  {
    ChildPath(nodes, root, node, i);
    ChildPath(nodes, root, node, j);
    hide Shape;
    var n, m, d := node.children[i], node.children[j], |node.path|;
    assert n.path[..d] == node.path && m.path[..d] == node.path && n.path[d - 1] == node;
    assert ChildBefore(node.children, n, m, back);
    assert PartsAt(n, m, d, back);
  }

  lemma PathOfAncestor(n: Node, m: Node)
    requires n.Rooted() && m in n.path
    ensures m.path <= n.path
  {
    var i :| 0 <= i < |n.path| && n.path[i] == m;
    PathPrefix(n, i);
  }

  /** Nodes found before, and at or below an earlier child, come before those at or below a later one. */
  lemma InOrderConcat(found: seq<Node>, more: seq<Node>, back: bool)
    requires InWalkOrder(found, back) && InWalkOrder(more, back)
    requires forall n, m :: n in found && m in more ==> WalkedBefore(n, m, back)
    ensures InWalkOrder(found + more, back)
  {
    var all := found + more;
    forall x, y | 0 <= x < y < |all|
      ensures all[x] in all && WalkedBefore(all[x], all[y], back)
    {
      if y < |found| {
        assert all[x] == found[x] && all[y] == found[y];
      } else if x < |found| {
        assert all[x] == found[x] && all[y] == more[y - |found|];
      } else {
        assert all[x] == more[x - |found|] && all[y] == more[y - |found|];
      }
    }
  }

  lemma CollectedBefore(nodes: set<Node>, root: Node?, node: Node, i: nat, n: Node, m: Node)
    requires Shape(nodes, root) && node in nodes && i < |node.children| && n in nodes && m in nodes
    requires n == node || exists j :: 0 <= j < i && node.children[j] in n.path
    requires node.children[i] in m.path
    ensures WalkedBefore(n, m, false)
  {
    hide Shape, Node.Rooted, Parts;
    InTreeFacts(nodes, root, m);
    PathOfAncestor(m, node.children[i]);
    ChildPath(nodes, root, node, i);
    if n == node {
      assert m.path[..|n.path|] == n.path;
    } else {
      var j :| 0 <= j < i && node.children[j] in n.path;
      InTreeFacts(nodes, root, n);
      PathOfAncestor(n, node.children[j]);
      SiblingsPart(nodes, root, node, j, i, false);
      PartsBelow(node.children[j], node.children[i], n, m, false);
    }
  }

  // ----- The depth-first walk -----

  /** The walk's state: the visited nodes are closed upwards, and their other children wait, once each, on the stack. */
  ghost predicate Walk(nodes: set<Node>, root: Node?, visited: set<Node>, stack: seq<Node>)
    reads nodes`children
  {
    && root in visited && visited <= nodes && Distinct(stack)
    && (forall n :: n in visited && n.parent != null ==> n.parent in visited)
    && (forall n :: n in stack ==> n in nodes && n !in visited && n.parent != null && n.parent in visited)
    && (forall n :: n in nodes && n.parent != null && n.parent in visited ==> n in visited || n in stack)
  }

  lemma WalkStart(nodes: set<Node>, root: Node?, log: Log)
    requires Shape(nodes, root) && Logged(nodes, root, log)
    ensures root != null && Walk(nodes, root, {root}, root.children) && root.observation == None
  {
    hide Node.Rooted;
    assert InTree(root, nodes, root);
    assert !Evaluated(log, root);
  }

  lemma WalkStep(nodes: set<Node>, root: Node?, visited: set<Node>, stack: seq<Node>)
    requires Shape(nodes, root) && stack != [] && Walk(nodes, root, visited, stack)
    ensures var node := stack[|stack| - 1];
            node in nodes && node !in visited
            && Walk(nodes, root, visited + {node}, stack[..|stack| - 1] + node.children)
  {
    hide Node.Rooted;
    var node, rest := stack[|stack| - 1], stack[..|stack| - 1];
    assert InTree(node, nodes, root);
    assert stack == rest + [node];
    assert forall n :: n in node.children ==> n.parent == node && n !in visited && n !in rest;
  }

  /** Of the walk backwards: what is found comes before what waits, and the stack is popped in walk order. */
  ghost predicate WalkOrder(found: seq<Node>, stack: seq<Node>)
    reads (set n, p | n in found && p in n.path :: p)`children
    reads (set n, p | n in stack && p in n.path :: p)`children
  {
    && InWalkOrder(found, true)
    && (forall n, s :: n in found && s in stack ==> WalkedBefore(n, s, true))
    && forall s, t :: 0 <= s < t < |stack| ==> stack[t] in stack && Parts(stack[t], stack[s], true)
  }

  lemma WalkOrderStart(nodes: set<Node>, root: Node?)
    requires Shape(nodes, root)
    ensures root != null && WalkOrder([], root.children)
  {
    hide Parts;
    forall s, t | 0 <= s < t < |root.children|
      ensures Parts(root.children[t], root.children[s], true)
    {
      SiblingsPart(nodes, root, root, t, s, true);
    }
    hide Shape;
  }

  lemma WalkOrderStep(nodes: set<Node>, root: Node?, found: seq<Node>, stack: seq<Node>)
    requires Shape(nodes, root) && stack != [] && stack[|stack| - 1] in nodes && WalkOrder(found, stack)
    ensures var node := stack[|stack| - 1];
            var longer := stack[..|stack| - 1] + node.children;
            WalkOrder(found, longer) && WalkOrder(found + [node], longer)
  {
    hide Shape, Parts, InWalkOrder, Above;
    var node, rest := stack[|stack| - 1], stack[..|stack| - 1];
    var kids := node.children;
    assert stack == rest + [node] && node in stack && forall n :: n in rest ==> n in stack;
    forall k | 0 <= k < |kids|
      ensures kids[k].path == node.path + [kids[k]]
    {
      ChildPath(nodes, root, node, k);
    }
    forall n, s | n in found && s in kids
      ensures WalkedBefore(n, s, true)
    {
      BeforeBelow(n, node, s, true);
    }
    forall s | s in kids
      ensures WalkedBefore(node, s, true)
    {
      ChildIsBelow(node, s);
    }
    forall s | s in rest
      ensures Parts(node, s, true)
      ensures forall k :: 0 <= k < |kids| ==> Parts(kids[k], s, true)
    {
      var i :| 0 <= i < |rest| && rest[i] == s;
      assert stack[i] == s;
      forall k | 0 <= k < |kids|
        ensures Parts(kids[k], s, true)
      {
        PartsBelow(node, s, kids[k], s, true);
      }
    }
    forall s, t | 0 <= s < t < |kids|
      ensures Parts(kids[t], kids[s], true)
    {
      SiblingsPart(nodes, root, node, t, s, true);
    }
    StackOrder(stack, rest, kids);
    OneInOrder(node);
    InOrderConcat(found, [node], true);
  }

  lemma WalkOrderEnd(found: seq<Node>, stack: seq<Node>)
    requires WalkOrder(found, stack)
    ensures InWalkOrder(found, true)
  {
  }

  lemma ChildIsBelow(node: Node, child: Node)
    requires child.path == node.path + [child]
    ensures WalkedBefore(node, child, true)
  {
  }

  lemma OneInOrder(n: Node)
    ensures InWalkOrder([n], true)
  {
  }

  lemma StackOrder(stack: seq<Node>, rest: seq<Node>, kids: seq<Node>)
    requires |rest| <= |stack| && rest == stack[..|rest|]
    requires forall s, t :: 0 <= s < t < |stack| ==> stack[t] in stack && Parts(stack[t], stack[s], true)
    requires forall s :: s in rest ==> forall k :: 0 <= k < |kids| ==> Parts(kids[k], s, true)
    requires forall s, t :: 0 <= s < t < |kids| ==> Parts(kids[t], kids[s], true)
    ensures var longer := rest + kids;
            forall s, t :: 0 <= s < t < |longer| ==> longer[t] in longer && Parts(longer[t], longer[s], true)
  {
    hide Parts;
    var longer := rest + kids;
    forall s, t | 0 <= s < t < |longer|
      ensures Parts(longer[t], longer[s], true)
    {
      if t < |rest| {
        assert longer[t] == stack[t] && longer[s] == stack[s];
      } else if s < |rest| {
        assert longer[s] == rest[s] && rest[s] in rest && longer[t] == kids[t - |rest|];
      } else {
        assert longer[s] == kids[s - |rest|] && longer[t] == kids[t - |rest|];
      }
    }
  }

  lemma RootIsHere(nodes: set<Node>, root: Node?)
    requires Shape(nodes, root)
    ensures root != null && root in nodes
  {
  }

  lemma {:induction false} RootOnPath(nodes: set<Node>, root: Node?, n: Node)
    requires Shape(nodes, root) && n in nodes
    ensures root in n.path
    decreases |n.path|
  {
    assert InTree(n, nodes, root);
    RootedDistinct(n);
    if n.parent != null {
      RootOnPath(nodes, root, n.parent);
    }
  }

  lemma {:induction false} WalkReaches(nodes: set<Node>, root: Node?, visited: set<Node>, n: Node)
    requires Shape(nodes, root) && Walk(nodes, root, visited, []) && n in nodes
    ensures n in visited
    decreases |n.path|
  {
    assert InTree(n, nodes, root);
    if n.parent != null {
      WalkReaches(nodes, root, visited, n.parent);
    }
  }

  lemma WalkEnd(nodes: set<Node>, root: Node?, log: Log, visited: set<Node>, found: seq<Node>)
    requires Shape(nodes, root) && Logged(nodes, root, log) && Walk(nodes, root, visited, [])
    requires forall n :: n in found <==> n in visited && n.observation.Some?
    ensures forall n :: n in found <==> n in nodes && n.observation.Some?
    ensures found == [] <==> log == []
  {
    forall n | n in nodes
      ensures n in visited
    {
      WalkReaches(nodes, root, visited, n);
    }
    hide Shape, Node.Rooted;
    if log != [] {
      assert Evaluated(log, log[0].0);
      assert log[0].0 in found;
    }
    if found != [] {
      assert found[0] in found;
    }
  }

  lemma InTreeFacts(nodes: set<Node>, root: Node?, n: Node)
    requires Shape(nodes, root) && n in nodes
    ensures n.Rooted() && n.depth == |n.path| && forall p :: p in n.path ==> p in nodes
  {
    assert InTree(n, nodes, root);
  }

  /** A fresh node joins with empty statistics and unevaluated. */
  lemma NodeJoins(nodes: set<Node>, root: Node?, log: Log, child: Node)
    requires Statistics(nodes, log) && Logged(nodes, root, log) && child !in nodes
    requires StatisticsOk(child, log) && !Evaluated(log, child)
    requires child.observation == None && child.episode == None
    ensures Statistics(nodes + {child}, log) && Logged(nodes + {child}, root, log)
  {
    hide RewardsUnder, Mean, Evaluated;
  }

  // Around an update of one node: what the others keep saying meanwhile.

  ghost predicate ShapeBut(nodes: set<Node>, root: Node?, node: Node, children: seq<Node>)
    reads (nodes - {node})`children
  {
    && root != null && root in nodes && node in nodes
    && (forall n {:trigger InTree(n, nodes, root)} :: n in nodes && n != node ==> InTree(n, nodes, root))
    && node.Rooted() && node.depth == |node.path| && (forall p :: p in node.path ==> p in nodes)
    && (node.parent == null <==> node == root) && (node.action == "" <==> node == root)
    && (forall i :: 0 <= i < |children| ==> children[i] in nodes && children[i].parent == node)
    && Distinct(children)
    && (forall n {:trigger n.parent} :: n in nodes && n.parent != null ==>
          n.parent in nodes && if n.parent == node then n in children else n in n.parent.children)
  }

  lemma ShapeBefore(nodes: set<Node>, root: Node?, node: Node)
    requires Shape(nodes, root) && node in nodes
    ensures ShapeBut(nodes, root, node, node.children)
  {
    assert InTree(node, nodes, root);
    hide Node.Rooted;
  }

  lemma ShapeAfter(nodes: set<Node>, root: Node?, node: Node, child: Node, children: seq<Node>)
    requires ShapeBut(nodes, root, node, children) && child !in nodes
    requires child.Rooted() && child.parent == node && child.depth == node.depth + 1
    requires child.path == node.path + [child] && child.children == [] && child.action != ""
    requires node.children == children + [child]
    ensures Shape(nodes + {child}, root)
  {
    hide Node.Rooted;
    assert InTree(node, nodes + {child}, root);
    assert InTree(child, nodes + {child}, root);
    forall n | n in nodes && n != node
      ensures InTree(n, nodes + {child}, root)
    {
      assert InTree(n, nodes, root);
    }
  }

  ghost predicate LoggedBut(nodes: set<Node>, root: Node?, log: Log, child: Node)
    reads (nodes - {child})`observation, (nodes - {child})`episode, (nodes - {child})`reward
  {
    && (forall i :: 0 <= i < |log| ==>
          log[i].0 in nodes && log[i].0 != root && log[i].0 != child && log[i].0.reward == log[i].1)
    && (forall i, j :: 0 <= i < j < |log| ==> log[i].0 != log[j].0)
    && (forall n :: n in nodes && n != child ==> (n.observation.Some? <==> Evaluated(log, n)))
    && (forall n :: n in nodes && n != child && n.episode.Some? ==> n.observation.Some?)
  }

  lemma LogBefore(nodes: set<Node>, root: Node?, log: Log, child: Node)
    requires Logged(nodes, root, log) && child in nodes && child.observation == None
    ensures LoggedBut(nodes, root, log, child)
  {
    assert !Evaluated(log, child);
  }

  lemma LogAfter(nodes: set<Node>, root: Node?, log: Log, child: Node)
    requires LoggedBut(nodes, root, log, child) && child in nodes && child != root && child.observation.Some?
    ensures Logged(nodes, root, log + [(child, child.reward)])
  {
    var longer := log + [(child, child.reward)];
    forall n
      ensures Evaluated(longer, n) <==> Evaluated(log, n) || n == child
    {
      EvaluatedAppend(log, child, child.reward, n);
    }
    hide Evaluated;
  }

  lemma EvaluatedAppend(log: Log, child: Node, r: real, n: Node)
    ensures Evaluated(log + [(child, r)], n) <==> Evaluated(log, n) || n == child
  {
    var longer := log + [(child, r)];
    assert longer[|log|].0 == child;
    if Evaluated(log, n) {
      var i :| 0 <= i < |log| && log[i].0 == n;
      assert longer[i].0 == n;
    }
  }
}
