/**
 * Directed-cycle detection over the diagram's objects and arrows: a
 * three-colour depth-first search that keeps the current path and turns
 * every back edge into a closed node sequence, and the mapping of such a
 * node sequence back to arrows.
 */
module CycleDetection {
  import opened Wrappers

  /** Nodes are compared by identity only. */
  type NodeId = nat

  /** An arrow as the detector sees it: an identity and two endpoints that may be missing. */
  datatype Arrow = Arrow(id: nat, start: Option<NodeId>, end: Option<NodeId>)

  datatype NodeState = White | Gray | Black

  type Adjacency = map<NodeId, seq<NodeId>>

  /** An arrow yields an edge only when both endpoints exist and belong to the node list. */
  predicate Contributes(a: Arrow, nodes: seq<NodeId>)
  {
    a.start.Some? && a.end.Some? && a.start.value in nodes && a.end.value in nodes
  }

  /** The successor list of `u`, one entry per contributing arrow, in arrow order. */
  function Successors(u: NodeId, nodes: seq<NodeId>, arrows: seq<Arrow>): seq<NodeId>
  {
    if arrows == [] then []
    else
      var a := arrows[|arrows| - 1];
      Successors(u, nodes, arrows[..|arrows| - 1])
        + (if Contributes(a, nodes) && a.start.value == u then [a.end.value] else [])
  }

  /** The adjacency list built from the node list and the arrows. */
  function AdjacencyOf(nodes: seq<NodeId>, arrows: seq<Arrow>): Adjacency
  {
    map u | u in nodes :: Successors(u, nodes, arrows)
  }

  /** How many contributing arrows go from `u` to `w`. */
  function ArrowCount(u: NodeId, w: NodeId, nodes: seq<NodeId>, arrows: seq<Arrow>): nat
  {
    if arrows == [] then 0
    else
      var a := arrows[|arrows| - 1];
      ArrowCount(u, w, nodes, arrows[..|arrows| - 1])
        + (if Contributes(a, nodes) && a.start == Some(u) && a.end == Some(w) then 1 else 0)
  }

  predicate Edge(adj: Adjacency, u: NodeId, w: NodeId)
  {
    u in adj && w in adj[u]
  }

  /** Every edge of the adjacency list ends at a node of the list. */
  ghost predicate Closed(adj: Adjacency)
  {
    forall u, w :: Edge(adj, u, w) ==> w in adj
  }

  /** Consecutive entries are edges (stated over index pairs so that it has no matching loop). */
  predicate IsWalk(adj: Adjacency, p: seq<NodeId>)
  {
    forall i, j :: 0 <= i < |p| && 0 <= j < |p| && j == i + 1 ==> Edge(adj, p[i], p[j])
  }

  predicate Distinct(p: seq<NodeId>)
  {
    forall i, j :: 0 <= i < j < |p| ==> p[i] != p[j]
  }

  /** A closed walk of at least one edge. */
  predicate IsCycle(adj: Adjacency, c: seq<NodeId>)
  {
    |c| >= 2 && c[0] == c[|c| - 1] && IsWalk(adj, c)
  }

  ghost predicate HasCycle(adj: Adjacency)
  {
    exists c :: IsCycle(adj, c)
  }

  /** A rank that strictly decreases along every edge. */
  ghost predicate RanksEdges(adj: Adjacency, rank: map<NodeId, nat>)
  {
    forall u, w :: Edge(adj, u, w) ==> u in rank && w in rank && rank[w] < rank[u]
  }

  lemma {:induction false} SuccessorsMembership(u: NodeId, w: NodeId, nodes: seq<NodeId>, arrows: seq<Arrow>)
    ensures w in Successors(u, nodes, arrows) <==>
      exists a :: a in arrows && Contributes(a, nodes) && a.start == Some(u) && a.end == Some(w)
  {
    if arrows != [] {
      var pre, a := arrows[..|arrows| - 1], arrows[|arrows| - 1];
      assert arrows == pre + [a];
      SuccessorsMembership(u, w, nodes, pre);
      if w in Successors(u, nodes, arrows) && w !in Successors(u, nodes, pre) {
        assert Contributes(a, nodes) && a.start == Some(u) && a.end == Some(w);
      }
      if exists b :: b in arrows && Contributes(b, nodes) && b.start == Some(u) && b.end == Some(w) {
        var b :| b in arrows && Contributes(b, nodes) && b.start == Some(u) && b.end == Some(w);
        if b != a {
          assert b in pre;
        }
      }
    }
  }

  /** Parallel arrows are not merged: `w` occurs in the successor list of `u` once per arrow. */
  lemma {:induction false} SuccessorsKeepDuplicates(u: NodeId, w: NodeId, nodes: seq<NodeId>, arrows: seq<Arrow>)
    ensures multiset(Successors(u, nodes, arrows))[w] == ArrowCount(u, w, nodes, arrows)
  {
    if arrows != [] {
      SuccessorsKeepDuplicates(u, w, nodes, arrows[..|arrows| - 1]);
    }
  }

  /** Edges of the adjacency list are exactly the arrows with both ends among the nodes. */
  lemma AdjacencyEdges(nodes: seq<NodeId>, arrows: seq<Arrow>, u: NodeId, w: NodeId)
    ensures Edge(AdjacencyOf(nodes, arrows), u, w) <==>
      exists a :: a in arrows && Contributes(a, nodes) && a.start == Some(u) && a.end == Some(w)
  {
    SuccessorsMembership(u, w, nodes, arrows);
  }

  lemma AdjacencyClosed(nodes: seq<NodeId>, arrows: seq<Arrow>)
    ensures AdjacencyOf(nodes, arrows).Keys == set n | n in nodes
    ensures Closed(AdjacencyOf(nodes, arrows))
  {
    var adj := AdjacencyOf(nodes, arrows);
    forall u, w | Edge(adj, u, w) ensures w in adj {
      AdjacencyEdges(nodes, arrows, u, w);
    }
  }

  lemma {:induction false} RankDescends(adj: Adjacency, rank: map<NodeId, nat>, p: seq<NodeId>, k: nat)
    requires RanksEdges(adj, rank) && IsWalk(adj, p) && 1 <= k < |p|
    ensures p[0] in rank && p[k] in rank && rank[p[k]] < rank[p[0]]
  {
    assert Edge(adj, p[k - 1], p[k]);
    if k > 1 {
      RankDescends(adj, rank, p, k - 1);
    }
  }

  /** A graph whose edges all go down in some rank has no directed cycle. */
  lemma RankedIsAcyclic(adj: Adjacency, rank: map<NodeId, nat>)
    requires RanksEdges(adj, rank)
    ensures !HasCycle(adj)
  {
    if HasCycle(adj) {
      var c :| IsCycle(adj, c);
      RankDescends(adj, rank, c, |c| - 1);
    }
  }

  /** A self-loop arrow on a listed node is a directed cycle of the graph. */
  lemma SelfLoopIsCycle(nodes: seq<NodeId>, arrows: seq<Arrow>, a: Arrow, n: NodeId)
    requires a in arrows && a.start == Some(n) && a.end == Some(n) && n in nodes
    ensures IsCycle(AdjacencyOf(nodes, arrows), [n, n])
    ensures HasCycle(AdjacencyOf(nodes, arrows))
  {
    AdjacencyEdges(nodes, arrows, n, n);
  }

  /** The first position of `x` in `p`, as `list.index` finds it. */
  function IndexOf(p: seq<NodeId>, x: NodeId): (k: nat)
    requires x in p
    ensures k < |p| && p[k] == x && x !in p[..k]
  {
    if p[0] == x then 0 else 1 + IndexOf(p[1..], x)
  }

  /** A back edge from the end of the current path to a node on it closes a simple cycle. */
  lemma BackEdgeCycle(adj: Adjacency, p: seq<NodeId>, nb: NodeId, start: nat, c: seq<NodeId>)
    requires IsWalk(adj, p) && Distinct(p) && p != []
    requires start < |p| && p[start] == nb && c == p[start..] + [nb]
    requires Edge(adj, p[|p| - 1], nb)
    ensures IsCycle(adj, c) && Distinct(c[..|c| - 1])
  {
    forall i, j | 0 <= i < |c| && 0 <= j < |c| && j == i + 1 ensures Edge(adj, c[i], c[j]) {
      if j < |c| - 1 {
        assert c[i] == p[start + i] && c[j] == p[start + j];
      }
    }
    assert c[..|c| - 1] == p[start..];
  }

  lemma SubsetCard(a: set<NodeId>, b: set<NodeId>)
    requires a <= b
    ensures |a| <= |b|
  {
    if a != {} {
      var x :| x in a;
      SubsetCard(a - {x}, b - {x});
    }
  }

  /** Taking one more arrow into account appends its target to its source's successors. */
  lemma SuccessorsStep(nodes: seq<NodeId>, arrows: seq<Arrow>, j: nat)
    requires j < |arrows|
    ensures forall u :: (Successors(u, nodes, arrows[..j + 1]) == Successors(u, nodes, arrows[..j])
      + (if Contributes(arrows[j], nodes) && arrows[j].start.value == u then [arrows[j].end.value] else []))
  {
    assert arrows[..j + 1][..j] == arrows[..j];
  }

  /** The first loop of `_build_adjacency_list`: an empty successor list per node. */
  method EmptyLists(nodes: seq<NodeId>) returns (adjacency: Adjacency)
    ensures adjacency.Keys == set u | u in nodes
    ensures forall u :: u in adjacency ==> adjacency[u] == []
  {
    adjacency := map[];
    var i := 0;
    while i < |nodes|
      invariant 0 <= i <= |nodes|
      invariant adjacency.Keys == set u | u in nodes[..i]
      invariant forall u :: u in adjacency ==> adjacency[u] == []
    {
      assert nodes[..i + 1] == nodes[..i] + [nodes[i]];
      adjacency := adjacency[nodes[i] := []];
      i := i + 1;
    }
    assert nodes[..i] == nodes;
  }

  /** `_build_adjacency_list`: empty lists first, then one append per usable arrow, in
      arrow order. */
  method BuildAdjacencyList(nodes: seq<NodeId>, arrows: seq<Arrow>) returns (adjacency: Adjacency)
    ensures adjacency == AdjacencyOf(nodes, arrows)
  {
    adjacency := EmptyLists(nodes);
    var j := 0;
    while j < |arrows|
      invariant 0 <= j <= |arrows|
      invariant adjacency.Keys == set u | u in nodes
      invariant forall u :: u in adjacency ==> adjacency[u] == Successors(u, nodes, arrows[..j])
    {
      var a := arrows[j];
      SuccessorsStep(nodes, arrows, j);
      if a.start.Some? && a.end.Some? && a.start.value in nodes && a.end.value in nodes {
        adjacency := adjacency[a.start.value := adjacency[a.start.value] + [a.end.value]];
      }
      j := j + 1;
    }
    assert arrows[..j] == arrows;
    assert adjacency.Keys == AdjacencyOf(nodes, arrows).Keys;
  }

  /** The consecutive-pair arrow lookup of `get_cycle_arrows`. */
  predicate Joins(a: Arrow, s: NodeId, e: NodeId)
  {
    a.start == Some(s) && a.end == Some(e)
  }

  /** Index of the first arrow going from `s` to `e`, if any. */
  function FirstJoining(arrows: seq<Arrow>, s: NodeId, e: NodeId): (r: Option<nat>)
    ensures r.Some? ==> (r.value < |arrows| && Joins(arrows[r.value], s, e)
      && forall j :: 0 <= j < r.value ==> !Joins(arrows[j], s, e))
    ensures r.None? ==> forall j :: 0 <= j < |arrows| ==> !Joins(arrows[j], s, e)
  {
    if arrows == [] then None
    else if Joins(arrows[0], s, e) then Some(0)
    else match FirstJoining(arrows[1..], s, e)
      case None => None
      case Some(k) => Some(k + 1)
  }

  /** Arrows found for the first `k` consecutive pairs of `c`. */
  function PairArrows(c: seq<NodeId>, arrows: seq<Arrow>, k: nat): seq<Arrow>
    requires k < |c|
  {
    if k == 0 then []
    else
      PairArrows(c, arrows, k - 1)
        + match FirstJoining(arrows, c[k - 1], c[k])
          case None => []
          case Some(j) => [arrows[j]]
  }

  function CycleArrows(c: seq<NodeId>, arrows: seq<Arrow>): seq<Arrow>
  {
    if |c| < 2 then [] else PairArrows(c, arrows, |c| - 1)
  }

  lemma {:induction false} PairArrowsBound(c: seq<NodeId>, arrows: seq<Arrow>, k: nat)
    requires k < |c|
    ensures |PairArrows(c, arrows, k)| <= k
    ensures forall a :: a in PairArrows(c, arrows, k) ==>
      a in arrows && exists i :: 0 <= i < k && Joins(a, c[i], c[i + 1])
  {
    if k > 0 {
      PairArrowsBound(c, arrows, k - 1);
      match FirstJoining(arrows, c[k - 1], c[k])
      case None =>
      case Some(j) =>
        assert Joins(arrows[j], c[k - 1], c[k]);
    }
  }

  /** When every pair of `c` is joined by some arrow, the k-th arrow found is the first
      one joining pair k. */
  lemma {:induction false} PairArrowsComplete(c: seq<NodeId>, arrows: seq<Arrow>, k: nat)
    requires k < |c|
    requires forall i :: 0 <= i < k ==> FirstJoining(arrows, c[i], c[i + 1]).Some?
    ensures |PairArrows(c, arrows, k)| == k
    ensures forall i :: 0 <= i < k ==>
      PairArrows(c, arrows, k)[i] == arrows[FirstJoining(arrows, c[i], c[i + 1]).value]
  {
    if k > 0 {
      PairArrowsComplete(c, arrows, k - 1);
      var first := FirstJoining(arrows, c[k - 1], c[k]);
      var prev := PairArrows(c, arrows, k - 1);
      assert PairArrows(c, arrows, k) == prev + [arrows[first.value]];
    }
  }

  /** `get_cycle_arrows`: nested loops with an early `break` per pair. */
  method GetCycleArrows(cycleNodes: seq<NodeId>, arrows: seq<Arrow>) returns (cycleArrows: seq<Arrow>)
    ensures cycleArrows == CycleArrows(cycleNodes, arrows)
    ensures |cycleNodes| < 2 ==> cycleArrows == []
    ensures |cycleNodes| >= 2 ==> |cycleArrows| <= |cycleNodes| - 1
  {
    if |cycleNodes| < 2 {
      return [];
    }
    cycleArrows := [];
    var i := 0;
    while i < |cycleNodes| - 1
      invariant 0 <= i <= |cycleNodes| - 1
      invariant cycleArrows == PairArrows(cycleNodes, arrows, i)
    {
      var startNode, endNode := cycleNodes[i], cycleNodes[i + 1];
      var j := 0;
      var found := false;
      while j < |arrows| && !found
        invariant 0 <= j <= |arrows|
        invariant !found ==> forall m :: 0 <= m < j ==> !Joins(arrows[m], startNode, endNode)
        invariant found ==> 0 < j && FirstJoining(arrows, startNode, endNode) == Some(j - 1)
        invariant cycleArrows == PairArrows(cycleNodes, arrows, i)
          + (if found then [arrows[j - 1]] else [])
      {
        if arrows[j].start == Some(startNode) && arrows[j].end == Some(endNode) {
          cycleArrows := cycleArrows + [arrows[j]];
          found := true;
        }
        j := j + 1;
      }
      i := i + 1;
    }
    PairArrowsBound(cycleNodes, arrows, i);
  }

  /** For a reported cycle every pair is an arrow of the diagram, so all pairs get their first arrow. */
  lemma CycleArrowsOfDetectedCycle(nodes: seq<NodeId>, arrows: seq<Arrow>, c: seq<NodeId>)
    requires IsCycle(AdjacencyOf(nodes, arrows), c)
    ensures |CycleArrows(c, arrows)| == |c| - 1
    ensures forall i :: 0 <= i < |c| - 1 ==> Joins(CycleArrows(c, arrows)[i], c[i], c[i + 1])
  {
    forall i | 0 <= i < |c| - 1
      ensures FirstJoining(arrows, c[i], c[i + 1]).Some?
    {
      assert Edge(AdjacencyOf(nodes, arrows), c[i], c[i + 1]);
      AdjacencyEdges(nodes, arrows, c[i], c[i + 1]);
      var a :| a in arrows && Contributes(a, nodes) && a.start == Some(c[i]) && a.end == Some(c[i + 1]);
      var j :| 0 <= j < |arrows| && arrows[j] == a;
      assert Joins(arrows[j], c[i], c[i + 1]);
    }
    PairArrowsComplete(c, arrows, |c| - 1);
  }

  // ---- The search state, stated over values so that each step is one small lemma ----

  ghost function WhitesOf(states: map<NodeId, NodeState>): set<NodeId>
  {
    set n | n in states && states[n] == White
  }

  /** Colours only move forward: white to gray to black. */
  ghost predicate Evolved(s0: map<NodeId, NodeState>, s1: map<NodeId, NodeState>)
  {
    && s0.Keys == s1.Keys
    && (forall n :: n in s0 && s0[n] != White ==> s1[n] == s0[n])
    && (forall n :: n in s1 && s1[n] == White ==> s0[n] == White)
  }

  ghost predicate FinishKept(f0: map<NodeId, nat>, f1: map<NodeId, nat>)
  {
    forall n :: n in f0 ==> n in f1 && f1[n] == f0[n]
  }

  /** Nodes that left white are recorded once each, black nodes carry finishing times below the clock. */
  ghost predicate Coloured(adj: Adjacency, states: map<NodeId, NodeState>, finish: map<NodeId, nat>, clock: nat)
  {
    && states.Keys == adj.Keys
    && (forall n :: n in finish <==> n in states && states[n] == Black)
    && (forall n :: n in finish ==> finish[n] < clock)
  }

  ghost predicate CyclesSound(adj: Adjacency, cycles: seq<seq<NodeId>>)
  {
    forall c :: c in cycles ==> IsCycle(adj, c) && Distinct(c[..|c| - 1])
  }

  /** Every edge leaving a black node goes to a black node that finished earlier. */
  ghost predicate FinishRanked(adj: Adjacency, finish: map<NodeId, nat>)
  {
    forall u, w :: u in finish && Edge(adj, u, w) ==> w in finish && finish[w] < finish[u]
  }

  ghost predicate SearchInv(adj: Adjacency, states: map<NodeId, NodeState>, cycles: seq<seq<NodeId>>,
                            finish: map<NodeId, nat>, clock: nat)
  {
    Coloured(adj, states, finish, clock) && CyclesSound(adj, cycles)
      && (cycles == [] ==> FinishRanked(adj, finish))
  }

  /** The current path is a distinct walk whose nodes are exactly the gray ones. */
  ghost predicate GrayPath(adj: Adjacency, states: map<NodeId, NodeState>, p: seq<NodeId>)
  {
    IsWalk(adj, p) && Distinct(p) && forall n :: n in p <==> n in states && states[n] == Gray
  }

  lemma EvolvedTrans(s0: map<NodeId, NodeState>, s1: map<NodeId, NodeState>, s2: map<NodeId, NodeState>)
    requires Evolved(s0, s1) && Evolved(s1, s2)
    ensures Evolved(s0, s2)
  {
  }

  /** After graying a white node, colours reached from there have fewer white nodes. */
  lemma WhitesShrink(s0: map<NodeId, NodeState>, g: map<NodeId, NodeState>, s1: map<NodeId, NodeState>, node: NodeId)
    requires node in s0 && s0[node] == White && g == s0[node := Gray] && Evolved(g, s1)
    ensures |WhitesOf(s1)| < |WhitesOf(s0)|
  {
    assert WhitesOf(s1) <= WhitesOf(s0) - {node};
    SubsetCard(WhitesOf(s1), WhitesOf(s0) - {node});
  }

  lemma WhitesNoGrow(s0: map<NodeId, NodeState>, s1: map<NodeId, NodeState>)
    requires Evolved(s0, s1)
    ensures |WhitesOf(s1)| <= |WhitesOf(s0)|
  {
    assert WhitesOf(s1) <= WhitesOf(s0);
    SubsetCard(WhitesOf(s1), WhitesOf(s0));
  }

  /** Blackening the last node of the gray path and popping it leaves a gray path. */
  lemma PopStep(adj: Adjacency, states: map<NodeId, NodeState>, p: seq<NodeId>, x: NodeId)
    requires GrayPath(adj, states, p + [x])
    ensures GrayPath(adj, states[x := Black], p)
  {
    var q := p + [x];
    forall i, j | 0 <= i < |p| && 0 <= j < |p| && j == i + 1 ensures Edge(adj, p[i], p[j]) {
      assert q[i] == p[i] && q[j] == p[j];
    }
    forall i, j | 0 <= i < j < |p| ensures p[i] != p[j] {
      assert q[i] == p[i] && q[j] == p[j];
    }
    assert x !in p by {
      forall k | 0 <= k < |p| ensures p[k] != x {
        assert q[k] == p[k] && q[|p|] == x;
      }
    }
    forall n ensures n in p <==> n in states[x := Black] && states[x := Black][n] == Gray {
      assert n in p ==> n in q;
      assert n in q && n != x ==> n in p;
    }
  }

  lemma GrayStep(adj: Adjacency, states: map<NodeId, NodeState>, cycles: seq<seq<NodeId>>,
                 finish: map<NodeId, nat>, clock: nat, path: seq<NodeId>, node: NodeId)
    requires SearchInv(adj, states, cycles, finish, clock) && GrayPath(adj, states, path)
    requires node in states && states[node] == White
    requires path == [] || Edge(adj, path[|path| - 1], node)
    ensures SearchInv(adj, states[node := Gray], cycles, finish, clock)
    ensures GrayPath(adj, states[node := Gray], path + [node])
    ensures Evolved(states, states[node := Gray])
    ensures WhitesOf(states[node := Gray]) == WhitesOf(states) - {node}
  {
    var s1 := states[node := Gray];
    assert FinishRanked(adj, finish) || cycles != [];
    var p := path + [node];
    assert IsWalk(adj, p) by {
      forall k | 0 <= k < |p| - 1 ensures Edge(adj, p[k], p[k + 1]) {
        if k < |p| - 2 {
          assert p[k] == path[k] && p[k + 1] == path[k + 1];
        }
      }
    }
  }

  /** Recording the cycle closed by a back edge keeps the search invariant. */
  lemma BackEdgeStep(adj: Adjacency, states: map<NodeId, NodeState>, cycles: seq<seq<NodeId>>,
                     finish: map<NodeId, nat>, clock: nat, p: seq<NodeId>, nb: NodeId, start: nat, c: seq<NodeId>)
    requires SearchInv(adj, states, cycles, finish, clock)
    requires IsWalk(adj, p) && Distinct(p) && p != []
    requires start < |p| && p[start] == nb && c == p[start..] + [nb]
    requires Edge(adj, p[|p| - 1], nb)
    ensures SearchInv(adj, states, cycles + [c], finish, clock)
  {
    BackEdgeCycle(adj, p, nb, start, c);
  }

  lemma BlackStep(adj: Adjacency, states: map<NodeId, NodeState>, cycles: seq<seq<NodeId>>,
                  finish: map<NodeId, nat>, clock: nat, node: NodeId)
    requires SearchInv(adj, states, cycles, finish, clock)
    requires node in states && states[node] == Gray
    requires node in adj
    requires cycles == [] ==> forall j :: 0 <= j < |adj[node]| ==> adj[node][j] in finish && finish[adj[node][j]] < clock
    ensures SearchInv(adj, states[node := Black], cycles, finish[node := clock], clock + 1)
  {
    var s1, f1 := states[node := Black], finish[node := clock];
    assert node !in finish;
    if cycles == [] {
      forall u, w | u in f1 && Edge(adj, u, w) ensures w in f1 && f1[w] < f1[u] {
        if u != node {
          assert w in finish && finish[w] < finish[u];
        } else {
          var j :| 0 <= j < |adj[node]| && adj[node][j] == w;
        }
      }
    }
  }

  lemma BlackEvolved(s0: map<NodeId, NodeState>, g: map<NodeId, NodeState>, s1: map<NodeId, NodeState>, node: NodeId)
    requires node in s0 && s0[node] == White && g == s0[node := Gray] && Evolved(g, s1)
    ensures Evolved(s0, s1[node := Black])
  {
  }

  lemma NeighborsDone(s: seq<NodeId>, i: nat, f0: map<NodeId, nat>, c0: nat, f1: map<NodeId, nat>, c1: nat)
    requires i < |s|
    requires forall j :: 0 <= j < i ==> s[j] in f0 && f0[s[j]] < c0
    requires FinishKept(f0, f1) && c0 <= c1
    requires s[i] in f1 && f1[s[i]] < c1
    ensures forall j :: 0 <= j < i + 1 ==> s[j] in f1 && f1[s[j]] < c1
  {
  }

  /** At the end of the search the recorded cycles are genuine and none is recorded
      exactly when the graph is acyclic. */
  lemma SearchOutcome(adj: Adjacency, states: map<NodeId, NodeState>, cycles: seq<seq<NodeId>>,
                      finish: map<NodeId, nat>, clock: nat)
    requires SearchInv(adj, states, cycles, finish, clock)
    requires forall n :: n in states ==> states[n] == Black
    ensures forall c :: c in cycles ==> IsCycle(adj, c) && Distinct(c[..|c| - 1])
    ensures cycles == [] <==> !HasCycle(adj)
  {
    if cycles == [] {
      assert RanksEdges(adj, finish);
      RankedIsAcyclic(adj, finish);
    } else {
      assert IsCycle(adj, cycles[0]);
    }
  }

  // ---- The search as a function of its input: what every run of the detector computes ----

  /** The part of the detector's state that a search hands on: colours and recorded cycles. */
  datatype Progress = Progress(states: map<NodeId, NodeState>, cycles: seq<seq<NodeId>>)

  /** `_dfs_visit` on values: gray the node, scan its successors from the first, blacken it. */
  function Visited(adj: Adjacency, s: Progress, path: seq<NodeId>, node: NodeId): (r: Progress)
    requires Closed(adj) && s.states.Keys == adj.Keys
    requires node in adj && s.states[node] == White
    ensures Evolved(s.states, r.states) && r.states[node] == Black
    decreases |WhitesOf(s.states)|, 2, 0
  {
    var grayed := s.states[node := Gray];
    WhitesShrink(s.states, grayed, grayed, node);
    var r := NeighborsVisited(adj, Progress(grayed, s.cycles), path + [node], node, 0);
    BlackEvolved(s.states, grayed, r.states, node);
    Progress(r.states[node := Black], r.cycles)
  }

  lemma VisitedUnfold(adj: Adjacency, s: Progress, path: seq<NodeId>, node: NodeId, r: Progress)
    requires Closed(adj) && s.states.Keys == adj.Keys
    requires node in adj && s.states[node] == White
    requires r == NeighborsVisited(adj, Progress(s.states[node := Gray], s.cycles), path + [node], node, 0)
    ensures Visited(adj, s, path, node) == Progress(r.states[node := Black], r.cycles)
  {
  }

  /** The successor loop on values, from the `i`-th successor of `node` on. */
  function NeighborsVisited(adj: Adjacency, s: Progress, path: seq<NodeId>, node: NodeId, i: nat): (r: Progress)
    requires Closed(adj) && s.states.Keys == adj.Keys
    requires node in adj && i <= |adj[node]|
    ensures Evolved(s.states, r.states)
    decreases |WhitesOf(s.states)| + 1, 1, |adj[node]| - i
  {
    if i == |adj[node]| then s
    else
      assert Edge(adj, node, adj[node][i]);
      var next := NeighborVisited(adj, s, path, adj[node][i]);
      WhitesNoGrow(s.states, next.states);
      var r := NeighborsVisited(adj, next, path, node, i + 1);
      EvolvedTrans(s.states, next.states, r.states);
      r
  }

  /** One successor on values: a gray one closes the cycle from its place on the path, a
      white one is visited, a black one changes nothing. A gray node off the path cannot
      occur during a search, where the gray nodes are exactly the path. */
  function NeighborVisited(adj: Adjacency, s: Progress, path: seq<NodeId>, neighbor: NodeId): (r: Progress)
    requires Closed(adj) && s.states.Keys == adj.Keys && neighbor in adj
    ensures Evolved(s.states, r.states)
    decreases |WhitesOf(s.states)| + 1, 0, 0
  {
    if s.states[neighbor] == Gray then
      if neighbor in path then Progress(s.states, s.cycles + [path[IndexOf(path, neighbor)..] + [neighbor]])
      else s
    else if s.states[neighbor] == White then Visited(adj, s, path, neighbor)
    else s
  }

  /** One turn of the successor loop on values. */
  lemma NeighborsStep(adj: Adjacency, s0: Progress, s1: Progress, path: seq<NodeId>, node: NodeId, i: nat)
    requires Closed(adj) && s0.states.Keys == adj.Keys && s1.states.Keys == adj.Keys
    requires node in adj && i < |adj[node]| && adj[node][i] in adj
    requires s1 == NeighborVisited(adj, s0, path, adj[node][i])
    ensures NeighborsVisited(adj, s0, path, node, i) == NeighborsVisited(adj, s1, path, node, i + 1)
  {
  }

  /** The outer loop of `find_cycles` on values, from the `i`-th node on. */
  function Searched(adj: Adjacency, s: Progress, nodes: seq<NodeId>, i: nat): (r: Progress)
    requires Closed(adj) && s.states.Keys == adj.Keys
    requires (forall n :: n in nodes ==> n in adj) && i <= |nodes|
    ensures r.states.Keys == adj.Keys
    decreases |nodes| - i
  {
    if i == |nodes| then s
    else
      assert nodes[i] in adj;
      var next := if s.states[nodes[i]] == White then Visited(adj, s, [], nodes[i]) else s;
      Searched(adj, next, nodes, i + 1)
  }

  /** One turn of the outer loop on values. */
  lemma SearchedStep(adj: Adjacency, s0: Progress, s1: Progress, nodes: seq<NodeId>, i: nat)
    requires Closed(adj) && s0.states.Keys == adj.Keys && s1.states.Keys == adj.Keys
    requires (forall n :: n in nodes ==> n in adj) && i < |nodes|
    requires s1 == if s0.states[nodes[i]] == White then Visited(adj, s0, [], nodes[i]) else s0
    ensures Searched(adj, s0, nodes, i) == Searched(adj, s1, nodes, i + 1)
  {
  }

  /** Every listed node white. */
  function AllWhite(nodes: seq<NodeId>): map<NodeId, NodeState>
  {
    map n | n in nodes :: White
  }

  /** The cycles a search of the arrow graph records, starting from every node white and no
      cycle: a function of the node list and the arrows alone. */
  function Cycles(nodes: seq<NodeId>, arrows: seq<Arrow>): seq<seq<NodeId>>
  {
    AdjacencyClosed(nodes, arrows);
    Searched(AdjacencyOf(nodes, arrows), Progress(AllWhite(nodes), []), nodes, 0).cycles
  }

  class CycleDetector {
    var nodeStates: map<NodeId, NodeState>
    var parent: map<NodeId, Option<NodeId>>
    var cycles: seq<seq<NodeId>>
    /** The finishing time of every black node. */
    ghost var finish: map<NodeId, nat>
    ghost var clock: nat

    constructor ()
      ensures nodeStates == map[] && parent == map[] && cycles == []
    {
      nodeStates, parent, cycles := map[], map[], [];
      finish, clock := map[], 0;
    }

    /** `reset`: forget colours, parents and cycles of any earlier search. */
    method Reset()
      modifies this
      ensures nodeStates == map[] && parent == map[] && cycles == []
      ensures finish == map[] && clock == 0
    {
      nodeStates, parent, cycles := map[], map[], [];
      finish, clock := map[], 0;
    }

    ghost predicate Valid(adj: Adjacency)
      reads this
    {
      SearchInv(adj, nodeStates, cycles, finish, clock)
    }

    /** `_dfs_visit`: gray the node, push it, scan its successors (a gray one closes a
        cycle, a white one is visited), then blacken and pop. */
    method DfsVisit(node: NodeId, adj: Adjacency, path: seq<NodeId>) returns (pathOut: seq<NodeId>)
      requires Closed(adj) && Valid(adj) && GrayPath(adj, nodeStates, path)
      requires node in nodeStates && nodeStates[node] == White
      requires path == [] || Edge(adj, path[|path| - 1], node)
      modifies this`nodeStates, this`cycles, this`finish, this`clock
      ensures Valid(adj) && GrayPath(adj, nodeStates, path) && pathOut == path
      ensures Evolved(old(nodeStates), nodeStates) && nodeStates[node] == Black
      ensures node in finish && finish[node] < clock
      ensures old(cycles) <= cycles
      ensures Progress(nodeStates, cycles) == Visited(adj, Progress(old(nodeStates), old(cycles)), path, node)
      ensures FinishKept(old(finish), finish) && old(clock) <= clock
      decreases |WhitesOf(nodeStates)|, 2
    {
      ghost var entryStates, entryCycles := nodeStates, cycles;
      var currentPath := MarkGray(node, adj, path);
      ghost var grayed := nodeStates;
      WhitesShrink(entryStates, grayed, grayed, node);
      currentPath := VisitNeighbors(node, adj, currentPath);
      BlackEvolved(entryStates, grayed, nodeStates, node);
      VisitedUnfold(adj, Progress(entryStates, entryCycles), path, node, Progress(nodeStates, cycles));
      pathOut := MarkBlack(node, adj, path, currentPath);
    }

    /** The successor loop of `_dfs_visit`: on return every successor is finished, unless
        a cycle has been recorded. */
    method VisitNeighbors(node: NodeId, adj: Adjacency, currentPath: seq<NodeId>)
      returns (pathOut: seq<NodeId>)
      requires Closed(adj) && Valid(adj) && GrayPath(adj, nodeStates, currentPath)
      requires currentPath != [] && currentPath[|currentPath| - 1] == node && node in adj
      modifies this`nodeStates, this`cycles, this`finish, this`clock
      ensures Valid(adj) && GrayPath(adj, nodeStates, currentPath) && pathOut == currentPath
      ensures Evolved(old(nodeStates), nodeStates)
      ensures old(cycles) <= cycles
      ensures FinishKept(old(finish), finish) && old(clock) <= clock
      ensures cycles == [] ==> forall j :: 0 <= j < |adj[node]| ==> adj[node][j] in finish && finish[adj[node][j]] < clock
      ensures Progress(nodeStates, cycles) == NeighborsVisited(adj, Progress(old(nodeStates), old(cycles)), currentPath, node, 0)
      decreases |WhitesOf(nodeStates)| + 1, 1
    {
      ghost var entry, entryCycles := nodeStates, cycles;
      var neighbors := adj[node];
      pathOut := currentPath;
      var i := 0;
      while i < |neighbors|
        invariant 0 <= i <= |neighbors|
        invariant Valid(adj) && GrayPath(adj, nodeStates, currentPath) && pathOut == currentPath
        invariant Evolved(entry, nodeStates)
        invariant old(cycles) <= cycles
        invariant FinishKept(old(finish), finish) && old(clock) <= clock
        invariant cycles == [] ==> forall j :: 0 <= j < i ==> neighbors[j] in finish && finish[neighbors[j]] < clock
        invariant NeighborsVisited(adj, Progress(entry, entryCycles), currentPath, node, 0)
          == NeighborsVisited(adj, Progress(nodeStates, cycles), currentPath, node, i)
      {
        ghost var before := nodeStates;
        WhitesNoGrow(entry, before);
        pathOut := VisitNeighbor(node, i, adj, currentPath);
        EvolvedTrans(entry, before, nodeStates);
        i := i + 1;
      }
    }

    /** Colour the node gray and push it on the current path. */
    method MarkGray(node: NodeId, adj: Adjacency, path: seq<NodeId>) returns (currentPath: seq<NodeId>)
      requires Valid(adj) && GrayPath(adj, nodeStates, path)
      requires node in nodeStates && nodeStates[node] == White
      requires path == [] || Edge(adj, path[|path| - 1], node)
      modifies this`nodeStates
      ensures Valid(adj) && GrayPath(adj, nodeStates, currentPath) && currentPath == path + [node]
      ensures nodeStates == old(nodeStates)[node := Gray]
    {
      GrayStep(adj, nodeStates, cycles, finish, clock, path, node);
      nodeStates := nodeStates[node := Gray];
      currentPath := path + [node];
    }

    /** Colour the node black, give it the next finishing time and pop it off the path. */
    method MarkBlack(node: NodeId, adj: Adjacency, path: seq<NodeId>, currentPath: seq<NodeId>)
      returns (pathOut: seq<NodeId>)
      requires Valid(adj) && GrayPath(adj, nodeStates, currentPath) && currentPath == path + [node]
      requires node in adj
      requires cycles == [] ==> forall j :: 0 <= j < |adj[node]| ==> adj[node][j] in finish && finish[adj[node][j]] < clock
      modifies this`nodeStates, this`finish, this`clock
      ensures Valid(adj) && GrayPath(adj, nodeStates, path) && pathOut == path
      ensures nodeStates == old(nodeStates)[node := Black]
      ensures finish == old(finish)[node := old(clock)] && clock == old(clock) + 1
    {
      assert node in currentPath;
      BlackStep(adj, nodeStates, cycles, finish, clock, node);
      PopStep(adj, nodeStates, path, node);
      nodeStates := nodeStates[node := Black];
      finish := finish[node := clock];
      clock := clock + 1;
      pathOut := currentPath[..|currentPath| - 1];
      assert pathOut == path;
    }

    /** Turn `i` of the successor loop: a gray successor closes a cycle through the
        current path, a white one is visited, a black one is passed over. */
    method VisitNeighbor(node: NodeId, i: nat, adj: Adjacency, currentPath: seq<NodeId>)
      returns (pathOut: seq<NodeId>)
      requires Closed(adj) && Valid(adj) && GrayPath(adj, nodeStates, currentPath)
      requires currentPath != [] && currentPath[|currentPath| - 1] == node && node in adj && i < |adj[node]|
      requires cycles == [] ==> forall j :: 0 <= j < i ==> adj[node][j] in finish && finish[adj[node][j]] < clock
      modifies this`nodeStates, this`cycles, this`finish, this`clock
      ensures Valid(adj) && GrayPath(adj, nodeStates, currentPath) && pathOut == currentPath
      ensures Evolved(old(nodeStates), nodeStates)
      ensures old(cycles) <= cycles
      ensures FinishKept(old(finish), finish) && old(clock) <= clock
      ensures cycles == [] ==> forall j :: 0 <= j < i + 1 ==> adj[node][j] in finish && finish[adj[node][j]] < clock
      ensures NeighborsVisited(adj, Progress(old(nodeStates), old(cycles)), currentPath, node, i)
        == NeighborsVisited(adj, Progress(nodeStates, cycles), currentPath, node, i + 1)
      decreases |WhitesOf(nodeStates)| + 1, 0
    {
      ghost var s0, f0, c0 := Progress(nodeStates, cycles), finish, clock;
      var neighbor := adj[node][i];
      assert Edge(adj, node, neighbor);
      pathOut := currentPath;
      if nodeStates[neighbor] == Gray {
        var start := IndexOf(currentPath, neighbor);
        var cycle := currentPath[start..] + [neighbor];
        BackEdgeStep(adj, nodeStates, cycles, finish, clock, currentPath, neighbor, start, cycle);
        cycles := cycles + [cycle];
      } else if nodeStates[neighbor] == White {
        pathOut := DfsVisit(neighbor, adj, currentPath);
      }
      if cycles == [] {
        assert s0.cycles == [];
        NeighborsDone(adj[node], i, f0, c0, finish, clock);
      }
      NeighborsStep(adj, s0, Progress(nodeStates, cycles), currentPath, node, i);
    }

    /** `find_cycles`: reset, colour every node white, build the adjacency list, search. */
    method FindCycles(nodes: seq<NodeId>, arrows: seq<Arrow>) returns (result: seq<seq<NodeId>>)
      modifies this
      ensures result == cycles && result == Cycles(nodes, arrows)
      ensures forall c :: c in result ==>
        IsCycle(AdjacencyOf(nodes, arrows), c) && Distinct(c[..|c| - 1])
      ensures result == [] <==> !HasCycle(AdjacencyOf(nodes, arrows))
      ensures nodeStates.Keys == set n | n in nodes
      ensures forall n :: n in nodes ==> nodeStates[n] == Black
      ensures forall n :: n in nodes ==> n in parent && parent[n] == None
    {
      Reset();
      InitStates(nodes);
      var adjacency := BuildAdjacencyList(nodes, arrows);
      AdjacencyClosed(nodes, arrows);
      assert Valid(adjacency);
      SearchAll(nodes, adjacency);
      assert Progress(nodeStates, cycles) == Searched(adjacency, Progress(AllWhite(nodes), []), nodes, 0);
      result := cycles;
      SearchOutcome(adjacency, nodeStates, cycles, finish, clock);
    }

    /** The search loop of `find_cycles`: a depth-first visit from every node still white. */
    method SearchAll(nodes: seq<NodeId>, adjacency: Adjacency)
      requires Closed(adjacency) && Valid(adjacency)
      requires nodeStates.Keys == set n | n in nodes
      requires forall n :: n in nodeStates ==> nodeStates[n] == White
      modifies this`nodeStates, this`cycles, this`finish, this`clock
      ensures Valid(adjacency)
      ensures nodeStates.Keys == set n | n in nodes
      ensures forall n :: n in nodeStates ==> nodeStates[n] == Black
      ensures Progress(nodeStates, cycles) == Searched(adjacency, Progress(old(nodeStates), old(cycles)), nodes, 0)
    {
      assert GrayPath(adjacency, nodeStates, []);
      ghost var entry, entryCycles := nodeStates, cycles;
      assert forall n :: n in nodes ==> n in adjacency;
      var i := 0;
      while i < |nodes|
        invariant 0 <= i <= |nodes|
        invariant Valid(adjacency) && GrayPath(adjacency, nodeStates, [])
        invariant nodeStates.Keys == set n | n in nodes
        invariant forall j :: 0 <= j < i ==> nodeStates[nodes[j]] == Black
        invariant forall n :: n in nodes ==> n in adjacency
        invariant Searched(adjacency, Progress(entry, entryCycles), nodes, 0)
          == Searched(adjacency, Progress(nodeStates, cycles), nodes, i)
      {
        ghost var s0 := Progress(nodeStates, cycles);
        SearchFrom(nodes, i, adjacency);
        assert Searched(adjacency, Progress(entry, entryCycles), nodes, 0)
          == Searched(adjacency, Progress(nodeStates, cycles), nodes, i + 1);
        i := i + 1;
      }
      forall n | n in nodeStates ensures nodeStates[n] == Black {
        var j :| 0 <= j < |nodes| && nodes[j] == n;
      }
    }

    /** One turn of the search loop: a node still white starts a visit with an empty path,
        any other is already black and is passed over. */
    method SearchFrom(nodes: seq<NodeId>, i: nat, adjacency: Adjacency)
      requires Closed(adjacency) && Valid(adjacency) && GrayPath(adjacency, nodeStates, [])
      requires (forall n :: n in nodes ==> n in adjacency) && i < |nodes|
      requires forall j :: 0 <= j < i ==> nodeStates[nodes[j]] == Black
      modifies this`nodeStates, this`cycles, this`finish, this`clock
      ensures Valid(adjacency) && GrayPath(adjacency, nodeStates, [])
      ensures nodeStates.Keys == old(nodeStates).Keys
      ensures forall j :: 0 <= j < i + 1 ==> nodeStates[nodes[j]] == Black
      ensures Searched(adjacency, Progress(old(nodeStates), old(cycles)), nodes, i)
        == Searched(adjacency, Progress(nodeStates, cycles), nodes, i + 1)
    {
      ghost var s0 := Progress(nodeStates, cycles);
      var node := nodes[i];
      if nodeStates[node] == White {
        var p := DfsVisit(node, adjacency, []);
      } else {
        assert node !in [];
      }
      forall j | 0 <= j < i + 1 ensures nodeStates[nodes[j]] == Black {
        if j < i {
          assert s0.states[nodes[j]] == Black;
        }
      }
      SearchedStep(adjacency, s0, Progress(nodeStates, cycles), nodes, i);
    }

    /** The initialisation loop of `find_cycles`: every node white, with no parent. */
    method InitStates(nodes: seq<NodeId>)
      requires nodeStates == map[] && parent == map[]
      modifies this`nodeStates, this`parent
      ensures nodeStates.Keys == parent.Keys == set n | n in nodes
      ensures forall n :: n in nodeStates ==> nodeStates[n] == White
      ensures forall n :: n in parent ==> parent[n] == None
      ensures nodeStates == AllWhite(nodes)
    {
      var i := 0;
      while i < |nodes|
        invariant 0 <= i <= |nodes|
        invariant nodeStates.Keys == parent.Keys == set n | n in nodes[..i]
        invariant forall n :: n in nodeStates ==> nodeStates[n] == White
        invariant forall n :: n in parent ==> parent[n] == None
      {
        assert nodes[..i + 1] == nodes[..i] + [nodes[i]];
        nodeStates := nodeStates[nodes[i] := White];
        parent := parent[nodes[i] := None];
        i := i + 1;
      }
      assert nodes[..i] == nodes;
      assert nodeStates.Keys == AllWhite(nodes).Keys;
    }
  }

  /** What the scene obtains from its detector: every reported cycle is a simple closed
      walk of the arrow graph, and nothing is reported exactly when the graph is acyclic. */
  method DetectCycles(nodes: seq<NodeId>, arrows: seq<Arrow>) returns (cycles: seq<seq<NodeId>>)
    ensures forall c :: c in cycles ==>
      IsCycle(AdjacencyOf(nodes, arrows), c) && Distinct(c[..|c| - 1])
    ensures cycles == [] <==> !HasCycle(AdjacencyOf(nodes, arrows))
    ensures cycles == Cycles(nodes, arrows)
  {
    var detector := new CycleDetector();
    cycles := detector.FindCycles(nodes, arrows);
  }
}
