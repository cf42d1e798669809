/**
 * The flow graph of `topology.rs`: the symmetric adjacency map built from an
 * edge list (`FlowGraph::new`), the unit-capacity augmenting-path search
 * (`FlowGraph::max_flow`) and the `connectivity` minimum
 * (`Topology::connectivity`).
 *
 * `connectivity` is the least of `n`, every node's neighbour count and the
 * value `max_flow` returns for every pair of labels below `n`; it counts
 * augmenting paths, which need not be edge-disjoint (a later path may cross an
 * edge an earlier one used, the other way round), and it is not node
 * connectivity; nothing here claims that it is.
 */
module Flow {

  type Edge = (nat, nat)

  /** `HashMap<usize, HashSet<usize>>`: every node to its set of neighbours. */
  type Adjacency = map<nat, set<nat>>

  datatype FlowGraph = FlowGraph(nodes: Adjacency)

  // ---------------------------------------------------------------- adjacency

  function Neighbours(m: Adjacency, a: nat): set<nat>
  {
    if a in m then m[a] else {}
  }

  /** One iteration of the loop in `FlowGraph::new`: `b` into `a`'s set, then `a` into `b`'s. */
  function AddEdge(m: Adjacency, e: Edge): Adjacency
  {
    var m1 := m[e.0 := Neighbours(m, e.0) + {e.1}];
    m1[e.1 := Neighbours(m1, e.1) + {e.0}]
  }

  /** The adjacency map that `FlowGraph::new` builds from an edge list. */
  function AdjacencyOf(edges: seq<Edge>): Adjacency
    decreases |edges|
  {
    if edges == [] then map[] else AddEdge(AdjacencyOf(edges[..|edges| - 1]), edges[|edges| - 1])
  }

  predicate IsEndpoint(edges: seq<Edge>, v: nat)
  {
    exists i :: 0 <= i < |edges| && (edges[i].0 == v || edges[i].1 == v)
  }

  predicate Linked(edges: seq<Edge>, a: nat, b: nat)
  {
    exists i :: 0 <= i < |edges| && (edges[i] == (a, b) || edges[i] == (b, a))
  }

  /** `b` is a neighbour of `a` exactly when `a` is a neighbour of `b`; neighbours are keys. */
  predicate Symmetric(m: Adjacency)
  {
    forall a, b :: a in m && b in m[a] ==> b in m && a in m[b]
  }

  /** The keys are exactly the endpoints of the edge list. */
  lemma {:induction false} AdjacencyOfKeys(edges: seq<Edge>)
    ensures forall v :: v in AdjacencyOf(edges) <==> IsEndpoint(edges, v)
    decreases |edges|
  {
    if edges != [] {
      var init := edges[..|edges| - 1];
      AdjacencyOfKeys(init);
      forall v ensures v in AdjacencyOf(edges) <==> IsEndpoint(edges, v) {
        if IsEndpoint(init, v) {
          var i :| 0 <= i < |init| && (init[i].0 == v || init[i].1 == v);
          assert edges[i] == init[i];
        }
        if IsEndpoint(edges, v) {
          var i :| 0 <= i < |edges| && (edges[i].0 == v || edges[i].1 == v);
          if i < |init| { assert init[i] == edges[i]; }
        }
      }
    }
  }

  lemma AddEdgeNeighbours(m: Adjacency, e: Edge, a: nat, b: nat)
    ensures a in AddEdge(m, e) && b in AddEdge(m, e)[a] <==>
      (a in m && b in m[a]) || (a, b) == e || (b, a) == e
  {
  }

  /** `b` is a neighbour of `a` exactly when some edge joins them, in either direction; duplicates collapse. */
  lemma {:induction false} AdjacencyOfLinks(edges: seq<Edge>)
    ensures forall a, b :: a in AdjacencyOf(edges) && b in AdjacencyOf(edges)[a] <==> Linked(edges, a, b)
    decreases |edges|
  {
    if edges != [] {
      var init, e := edges[..|edges| - 1], edges[|edges| - 1];
      AdjacencyOfLinks(init);
      var m := AdjacencyOf(init);
      forall a, b ensures a in AdjacencyOf(edges) && b in AdjacencyOf(edges)[a] <==> Linked(edges, a, b) {
        AddEdgeNeighbours(m, e, a, b);
        if Linked(init, a, b) {
          var i :| 0 <= i < |init| && (init[i] == (a, b) || init[i] == (b, a));
          assert edges[i] == init[i];
        }
        if Linked(edges, a, b) {
          var i :| 0 <= i < |edges| && (edges[i] == (a, b) || edges[i] == (b, a));
          if i < |init| { assert init[i] == edges[i]; }
        }
      }
    }
  }

  /** The property the adjacency map exists for: it is symmetric and closed. */
  lemma AdjacencyOfSymmetric(edges: seq<Edge>)
    ensures Symmetric(AdjacencyOf(edges))
  {
    AdjacencyOfLinks(edges);
    var m := AdjacencyOf(edges);
    forall a, b | a in m && b in m[a] ensures b in m && a in m[b] {
      assert Linked(edges, b, a);
    }
  }

  /** `FlowGraph::new`: one pass over the edges, filling the map in place. */
  method NewFlowGraph(edges: seq<Edge>) returns (g: FlowGraph)
    ensures g.nodes == AdjacencyOf(edges)
    ensures forall v :: v in g.nodes <==> IsEndpoint(edges, v)
    ensures forall a, b :: a in g.nodes && b in g.nodes[a] <==> Linked(edges, a, b)
    ensures Symmetric(g.nodes)
  {
    var nodes: Adjacency := map[];
    for i := 0 to |edges|
      invariant nodes == AdjacencyOf(edges[..i])
    {
      ghost var before := nodes;
      var (a, b) := edges[i];
      if a in nodes {
        nodes := nodes[a := nodes[a] + {b}];
      } else {
        assert {b} == Neighbours(nodes, a) + {b};
        nodes := nodes[a := {b}];
      }
      ghost var middle := nodes;
      assert middle == before[a := Neighbours(before, a) + {b}];
      if b in nodes {
        nodes := nodes[b := nodes[b] + {a}];
      } else {
        assert {a} == Neighbours(nodes, b) + {a};
        nodes := nodes[b := {a}];
      }
      assert nodes == middle[b := Neighbours(middle, b) + {a}];
      assert edges[..i + 1][..i] == edges[..i];
      assert nodes == AddEdge(before, edges[i]);
    }
    assert edges[..|edges|] == edges;
    g := FlowGraph(nodes);
    AdjacencyOfKeys(edges);
    AdjacencyOfLinks(edges);
    AdjacencyOfSymmetric(edges);
  }

  // ---------------------------------------------------------------- paths

  /** Consecutive entries are adjacent. */
  predicate IsWalk(m: Adjacency, p: seq<nat>)
  {
    |p| >= 1 && p[0] in m && forall i :: 0 <= i < |p| - 1 ==> p[i] in m && p[i + 1] in m[p[i]]
  }

  ghost predicate Connected(m: Adjacency, s: nat, t: nat)
  {
    exists p :: IsWalk(m, p) && p[0] == s && p[|p| - 1] == t
  }

  /** A set of nodes that no edge leaves. */
  predicate ClosedUnder(m: Adjacency, c: set<nat>)
  {
    forall x, y :: x in c && x in m && y in m[x] ==> y in c
  }

  lemma {:induction false} WalkStaysInside(m: Adjacency, c: set<nat>, p: seq<nat>)
    requires IsWalk(m, p) && ClosedUnder(m, c) && p[0] in c
    ensures forall i :: 0 <= i < |p| ==> p[i] in c
    decreases |p|
  {
    if |p| > 1 {
      var init := p[..|p| - 1];
      assert IsWalk(m, init) by {
        forall i | 0 <= i < |init| - 1 ensures init[i] in m && init[i + 1] in m[init[i]] {
          assert init[i] == p[i] && init[i + 1] == p[i + 1];
        }
      }
      WalkStaysInside(m, c, init);
      assert p[|p| - 2] == init[|init| - 1];
    }
  }

  /** Two nodes on different sides of a closed set are not connected. */
  lemma SeparatedNotConnected(m: Adjacency, c: set<nat>, s: nat, t: nat)
    requires ClosedUnder(m, c) && s in c && t !in c
    ensures !Connected(m, s, t)
  {
    if Connected(m, s, t) {
      var p :| IsWalk(m, p) && p[0] == s && p[|p| - 1] == t;
      WalkStaysInside(m, c, p);
    }
  }

  function Reverse<T>(s: seq<T>): (r: seq<T>)
    ensures |r| == |s|
    ensures forall i :: 0 <= i < |s| ==> r[i] == s[|s| - 1 - i]
  {
    if s == [] then [] else Reverse(s[1..]) + [s[0]]
  }

  // ---------------------------------------------------------------- max flow

  /** Heads of the flowing arcs that leave `s`. */
  function Heads(m: Adjacency, flowing: set<Edge>, s: nat): set<nat>
    requires s in m
  {
    set b | b in m[s] && (s, b) in flowing
  }

  /** Tails of the flowing arcs that enter `t`. */
  function Tails(m: Adjacency, flowing: set<Edge>, t: nat): set<nat>
    requires t in m
  {
    set a | a in m[t] && (a, t) in flowing
  }

  /** What holds of `flowing` between augmentations. */
  predicate ArcsValid(m: Adjacency, flowing: set<Edge>, s: nat, t: nat)
  {
    forall e :: e in flowing ==> e.0 in m && e.1 in m[e.0] && e.1 != s && e.0 != t
  }

  /** Every queued node is a node of the graph, and is `s` or has a predecessor. */
  predicate QueueState(m: Adjacency, s: nat, q: seq<nat>, pred: map<nat, nat>)
  {
    forall i :: 0 <= i < |q| ==> q[i] in m && (q[i] == s || q[i] in pred)
  }

  /** Predecessors are coloured, and the arc from a node's predecessor to it is not flowing. */
  predicate PredState(m: Adjacency, flowing: set<Edge>, s: nat, t: nat, pred: map<nat, nat>, coloured: set<nat>)
  {
    && coloured <= m.Keys
    && t !in coloured
    && (forall x :: x in pred ==> pred[x] in coloured && pred[x] in m && x in m[pred[x]] && (pred[x], x) !in flowing)
    && (forall x :: x in coloured ==> x == s || x in pred)
  }

  /** The colouring order: a coloured node's predecessor was coloured before it. */
  predicate RankState(s: nat, pred: map<nat, nat>, coloured: set<nat>, rank: map<nat, nat>)
  {
    && rank.Keys == coloured
    && (forall x :: x in rank ==> rank[x] < |coloured|)
    && (forall x :: x in pred && x in coloured && x != s && pred[x] in rank ==> rank[pred[x]] < rank[x])
  }

  /** What holds of the breadth-first search state at the top of its loop. */
  ghost predicate SearchState(m: Adjacency, flowing: set<Edge>, s: nat, t: nat,
                              q: seq<nat>, pred: map<nat, nat>, coloured: set<nat>, rank: map<nat, nat>)
  {
    QueueState(m, s, q, pred) && PredState(m, flowing, s, t, pred, coloured) && RankState(s, pred, coloured, rank)
  }

  lemma ColourRank(s: nat, n: nat, pred: map<nat, nat>, coloured: set<nat>, rank: map<nat, nat>)
    requires n !in coloured && (n == s || (n in pred && pred[n] in coloured))
    requires RankState(s, pred, coloured, rank) && forall x :: x in pred && x in coloured ==> pred[x] in coloured
    ensures RankState(s, pred, coloured + {n}, rank[n := |coloured|])
  {
    var c', r' := coloured + {n}, rank[n := |coloured|];
    assert |c'| == |coloured| + 1;
  }

  lemma ColourStep(m: Adjacency, flowing: set<Edge>, s: nat, t: nat,
                   q: seq<nat>, pred: map<nat, nat>, coloured: set<nat>, rank: map<nat, nat>)
    requires |q| > 0 && q[0] != t && q[0] !in coloured
    requires SearchState(m, flowing, s, t, q, pred, coloured, rank)
    ensures SearchState(m, flowing, s, t, q[1..], pred, coloured + {q[0]}, rank[q[0] := |coloured|])
  {
    var n := q[0];
    ColourRank(s, n, pred, coloured, rank);
    assert QueueState(m, s, q[1..], pred);
    assert PredState(m, flowing, s, t, pred, coloured + {n});
  }

  /** An augmenting path as `max_flow` reconstructs it: `s` only at its head, `t` only at its end. */
  predicate AugmentingPath(m: Adjacency, flowing: set<Edge>, s: nat, t: nat, p: seq<nat>)
  {
    && |p| >= 2 && p[0] == s && p[|p| - 1] == t
    && (forall i :: 0 < i < |p| ==> p[i] != s)
    && (forall i :: 0 <= i < |p| - 1 ==> p[i] != t)
    && (forall i :: 0 <= i < |p| - 1 ==> p[i] in m && p[i + 1] in m[p[i]] && (p[i], p[i + 1]) !in flowing)
  }

  /** Everything `max_flow` promises about the value it returns. */
  ghost predicate FlowAdmissible(m: Adjacency, s: nat, t: nat, flow: nat)
  {
    && (s !in m || t !in m || s == t ==> flow == 0)
    && (s in m ==> flow <= |m[s]|)
    && (t in m ==> flow <= |m[t]|)
    && (flow > 0 ==> Connected(m, s, t))
  }

  lemma SubsetCard(a: set<nat>, b: set<nat>)
    requires a <= b
    ensures |a| <= |b|
  {
    assert b == a + (b - a);
  }

  /** The inner `for neigh in ...` loop of the search: queue every neighbour not reached by a flowing arc. */
  method Expand(m: Adjacency, flowing: set<Edge>, s: nat, t: nat, n: nat,
                q: seq<nat>, pred: map<nat, nat>, ghost coloured: set<nat>, ghost rank: map<nat, nat>)
    returns (q': seq<nat>, pred': map<nat, nat>)
    requires Symmetric(m) && n in coloured && n in m
    requires SearchState(m, flowing, s, t, q, pred, coloured, rank)
    ensures SearchState(m, flowing, s, t, q', pred', coloured, rank)
  {
    q', pred' := q, pred;
    var rest := m[n];
    while rest != {}
      invariant rest <= m[n]
      invariant SearchState(m, flowing, s, t, q', pred', coloured, rank)
      decreases rest
    {
      var neigh :| neigh in rest;
      rest := rest - {neigh};
      if (n, neigh) in flowing {
        continue;
      }
      q' := q' + [neigh];
      if neigh !in pred' {
        pred' := pred'[neigh := n];
      }
    }
  }

  /** One breadth-first search over the arcs that are not flowing, starting at `s` and stopping at `t`. */
  method Search(m: Adjacency, flowing: set<Edge>, s: nat, t: nat)
    returns (pred: map<nat, nat>, ghost coloured: set<nat>, ghost rank: map<nat, nat>)
    requires Symmetric(m) && s in m && t in m && s != t
    ensures SearchState(m, flowing, s, t, [], pred, coloured, rank)
  {
    var q := [s];
    pred := map[];
    var seen: set<nat> := {};
    rank := map[];
    while |q| > 0
      invariant SearchState(m, flowing, s, t, q, pred, seen, rank)
      decreases m.Keys - seen, |q|
    {
      var n := q[0];
      if n == t {
        q := q[1..];
        break;
      }
      if n in seen {
        q := q[1..];
        continue;
      }
      ColourStep(m, flowing, s, t, q, pred, seen, rank);
      q := q[1..];
      rank := rank[n := |seen|];
      seen := seen + {n};
      q, pred := Expand(m, flowing, s, t, n, q, pred, seen, rank);
    }
    coloured := seen;
  }

  /** The `pred` chain read backwards from `t`: each entry's predecessor follows it. */
  predicate PredChain(pred: map<nat, nat>, s: nat, t: nat, back: seq<nat>)
  {
    && |back| >= 1 && back[0] == t
    && (forall i :: 0 <= i < |back| - 1 ==> back[i] in pred && pred[back[i]] == back[i + 1] && back[i] != s)
    && (forall i :: 0 < i < |back| ==> back[i] != t)
  }

  /** Reversing a chain that has reached `s` gives an augmenting path. */
  lemma ChainReversed(m: Adjacency, flowing: set<Edge>, s: nat, t: nat,
                      pred: map<nat, nat>, coloured: set<nat>, rank: map<nat, nat>, back: seq<nat>)
    requires SearchState(m, flowing, s, t, [], pred, coloured, rank)
    requires PredChain(pred, s, t, back) && back[|back| - 1] == s && s != t
    ensures AugmentingPath(m, flowing, s, t, Reverse(back))
  {
    var path, k := Reverse(back), |back|;
    forall i | 0 <= i < k - 1
      ensures path[i] in m && path[i + 1] in m[path[i]] && (path[i], path[i + 1]) !in flowing
    {
      var x := back[k - 2 - i];
      assert path[i + 1] == x && path[i] == back[k - 1 - i] == pred[x];
    }
  }

  /** The `while c != s` loop: follow `pred` back from `t`, then reverse. */
  method Reconstruct(m: Adjacency, flowing: set<Edge>, s: nat, t: nat,
                     pred: map<nat, nat>, ghost coloured: set<nat>, ghost rank: map<nat, nat>)
    returns (path: seq<nat>)
    requires SearchState(m, flowing, s, t, [], pred, coloured, rank)
    requires t in pred && t in m && s != t
    ensures AugmentingPath(m, flowing, s, t, path)
  {
    var back := [t];
    var c := t;
    while c != s
      invariant PredChain(pred, s, t, back) && back[|back| - 1] == c
      invariant c == t || c in coloured
      invariant c == t ==> |back| == 1
      decreases if c == t then |coloured| + 1 else rank[c]
    {
      var prev := pred[c];
      back := back + [prev];
      c := prev;
    }
    ChainReversed(m, flowing, s, t, pred, coloured, rank, back);
    path := Reverse(back);
  }

  /** The `for` loop after `path.reverse()`: mark the path's arcs as flowing and clear their reverses. */
  method Augment(m: Adjacency, flowing: set<Edge>, s: nat, t: nat, path: seq<nat>)
    returns (next: set<Edge>)
    requires Symmetric(m) && s in m && t in m
    requires ArcsValid(m, flowing, s, t) && AugmentingPath(m, flowing, s, t, path)
    ensures ArcsValid(m, next, s, t)
    ensures Heads(m, next, s) == Heads(m, flowing, s) + {path[1]} && path[1] !in Heads(m, flowing, s)
    ensures Tails(m, next, t) == Tails(m, flowing, t) + {path[|path| - 2]}
    ensures path[|path| - 2] !in Tails(m, flowing, t)
  {
    var k := |path|;
    next := flowing;
    for i := 0 to k - 1
      invariant ArcsValid(m, next, s, t)
      invariant forall b :: (s, b) in next <==> (s, b) in flowing || (i > 0 && b == path[1])
      invariant forall a :: (a, t) in next <==> (a, t) in flowing || (i > k - 2 && a == path[k - 2])
    {
      next := next + {(path[i], path[i + 1])};
      next := next - {(path[i + 1], path[i])};
    }
    assert path[1] in m[s];
    assert path[k - 2] in m[t];
  }

  /** The final loop of `max_flow`: +1 for each flowing arc out of `s`, -1 for each one into `s`. */
  method CountFlow(m: Adjacency, flowing: set<Edge>, s: nat, t: nat) returns (flow: nat)
    requires s in m && ArcsValid(m, flowing, s, t)
    ensures flow == |Heads(m, flowing, s)|
  {
    var total: int := 0;
    var rest := flowing;
    while rest != {}
      invariant rest <= flowing
      invariant total == |set b | b in m[s] && (s, b) in flowing - rest|
      decreases rest
    {
      var e :| e in rest;
      ghost var before := set b | b in m[s] && (s, b) in flowing - rest;
      rest := rest - {e};
      if e.0 == s {
        total := total + 1;
        assert (set b | b in m[s] && (s, b) in flowing - rest) == before + {e.1};
      } else {
        assert (set b | b in m[s] && (s, b) in flowing - rest) == before;
      }
      if e.1 == s {
        total := total - 1;
      }
    }
    assert flowing - rest == flowing;
    assert (set b | b in m[s] && (s, b) in flowing - rest) == Heads(m, flowing, s);
    flow := total;
  }

  /**
   * `FlowGraph::max_flow`: 0 when `s` or `t` is not a node or `s == t`;
   * otherwise it augments along breadth-first paths until `t` is no longer
   * reached and counts the flowing arcs out of `s`. Every augmentation adds
   * one arc out of `s` and one into `t` and removes none, so the result is
   * bounded by both neighbour counts; a positive result witnesses a walk.
   */
  method MaxFlow(g: FlowGraph, s: nat, t: nat) returns (flow: nat)
    requires Symmetric(g.nodes)
    ensures s !in g.nodes || t !in g.nodes || s == t ==> flow == 0
    ensures s in g.nodes ==> flow <= |g.nodes[s]|
    ensures t in g.nodes ==> flow <= |g.nodes[t]|
    ensures flow > 0 ==> Connected(g.nodes, s, t)
    ensures FlowAdmissible(g.nodes, s, t, flow)
  {
    var m := g.nodes;
    if s !in m {
      return 0;
    }
    if t !in m {
      return 0;
    }
    if s == t {
      return 0;
    }
    var flowing: set<Edge> := {};
    ghost var rounds: nat := 0;
    while true
      invariant ArcsValid(m, flowing, s, t)
      invariant |Heads(m, flowing, s)| == rounds && |Tails(m, flowing, t)| == rounds
      invariant rounds > 0 ==> Connected(m, s, t)
      decreases |m[s]| - |Heads(m, flowing, s)|
    {
      SubsetCard(Heads(m, flowing, s), m[s]);
      var pred, coloured, rank := Search(m, flowing, s, t);
      if t !in pred {
        break;
      }
      var path := Reconstruct(m, flowing, s, t, pred, coloured, rank);
      assert IsWalk(m, path);
      flowing := Augment(m, flowing, s, t, path);
      rounds := rounds + 1;
      SubsetCard(Heads(m, flowing, s), m[s]);
    }
    SubsetCard(Heads(m, flowing, s), m[s]);
    SubsetCard(Tails(m, flowing, t), m[t]);
    flow := CountFlow(m, flowing, s, t);
  }

  // ---------------------------------------------------------------- connectivity

  function Min(a: nat, b: nat): nat { if a <= b then a else b }

  function Pairs(n: nat): set<(nat, nat)>
  {
    set i: nat, j: nat | i < j < n :: (i, j)
  }

  /**
   * What `connectivity(edges, n)` returns: the least of `n`, every node's
   * neighbour count, and one admissible `max_flow` value per pair
   * `0 <= i < j < n`.
   */
  ghost predicate IsConnectivity(edges: seq<Edge>, n: nat, flows: map<(nat, nat), nat>, r: nat)
  {
    var m := AdjacencyOf(edges);
    && flows.Keys == Pairs(n)
    && (forall p :: p in flows ==> FlowAdmissible(m, p.0, p.1, flows[p]))
    && r <= n
    && (forall v :: v in m ==> r <= |m[v]|)
    && (forall p :: p in flows ==> r <= flows[p])
    && (r == n || (exists v :: v in m && r == |m[v]|) || (exists p :: p in flows && r == flows[p]))
  }

  /** The first loop of `connectivity`: the least of `n` and every node's neighbour count. */
  method LeastDegree(m: Adjacency, n: nat) returns (min: nat)
    ensures min <= n
    ensures forall v :: v in m ==> min <= |m[v]|
    ensures min == n || exists v :: v in m && min == |m[v]|
  {
    min := n;
    var rest := m.Keys;
    while rest != {}
      invariant rest <= m.Keys
      invariant min <= n
      invariant forall v :: v in m && v !in rest ==> min <= |m[v]|
      invariant min == n || exists v :: v in m && min == |m[v]|
      decreases rest
    {
      var v :| v in rest;
      rest := rest - {v};
      min := Min(min, |m[v]|);
    }
  }

  /** What holds of the running minimum and the flows computed so far. */
  ghost predicate Running(m: Adjacency, n: nat, flows: map<(nat, nat), nat>, min: nat)
  {
    && (forall p :: p in flows ==> FlowAdmissible(m, p.0, p.1, flows[p]) && min <= flows[p])
    && min <= n
    && (forall v :: v in m ==> min <= |m[v]|)
    && (min == n || (exists v :: v in m && min == |m[v]|) || (exists p :: p in flows && min == flows[p]))
  }

  lemma RunningStep(m: Adjacency, n: nat, flows: map<(nat, nat), nat>, min: nat, i: nat, j: nat, max: nat)
    requires Running(m, n, flows, min) && FlowAdmissible(m, i, j, max) && (i, j) !in flows
    ensures Running(m, n, flows[(i, j) := max], Min(min, max))
  {
    var f', min' := flows[(i, j) := max], Min(min, max);
    if min' == max {
      assert (i, j) in f' && min' == f'[(i, j)];
    } else if min != n && !(exists v :: v in m && min == |m[v]|) {
      var p :| p in flows && min == flows[p];
      assert p in f' && min' == f'[p];
    }
  }

  /** The inner `for j in (i + 1)..n` loop of `connectivity`. */
  method FlowsFrom(g: FlowGraph, n: nat, i: nat, ghost flows: map<(nat, nat), nat>, min: nat)
    returns (ghost flows': map<(nat, nat), nat>, min': nat)
    requires Symmetric(g.nodes) && Running(g.nodes, n, flows, min)
    requires i < n && forall p :: p in flows ==> p.0 < i
    ensures Running(g.nodes, n, flows', min')
    ensures forall p :: p in flows' <==> p in flows || (p.0 == i && i < p.1 < n)
  {
    flows', min' := flows, min;
    for j := i + 1 to n
      invariant forall p :: p in flows' <==> p in flows || (p.0 == i && i < p.1 < j)
      invariant Running(g.nodes, n, flows', min')
    {
      var max := MaxFlow(g, i, j);
      RunningStep(g.nodes, n, flows', min', i, j, max);
      flows' := flows'[(i, j) := max];
      min' := Min(min', max);
    }
  }

  /**
   * `Topology::connectivity`. Besides the characterisation above: a label
   * below `n` that cannot reach another one (in particular a label absent
   * from the edge list) forces the result to 0.
   */
  method Connectivity(edges: seq<Edge>, n: nat) returns (min: nat, ghost flows: map<(nat, nat), nat>)
    ensures IsConnectivity(edges, n, flows, min)
    ensures min <= n
    ensures forall v :: v in AdjacencyOf(edges) ==> min <= |AdjacencyOf(edges)[v]|
    ensures forall i, j :: 0 <= i < j < n && !Connected(AdjacencyOf(edges), i, j) ==> min == 0
  {
    var g := NewFlowGraph(edges);
    var m := g.nodes;
    min := LeastDegree(m, n);
    flows := map[];
    for i := 0 to n
      invariant forall p :: p in flows <==> p.0 < p.1 < n && p.0 < i
      invariant Running(m, n, flows, min)
    {
      flows, min := FlowsFrom(g, n, i, flows, min);
    }
    assert flows.Keys == Pairs(n);
    forall i, j | 0 <= i < j < n && !Connected(m, i, j) ensures min == 0 {
      assert (i, j) in flows;
    }
  }
}
