/**
 * The route table of `RoutedAlgorithm` (dissyssym-lib/src/algorithms/routed.rs):
 * for every source `s`, the set of next hops node `n` forwards `s`'s
 * broadcasts to. `build_routes` runs the path search without the early skip
 * (`PathSearch.Search` with `skip == false`) and then collects, over the paths
 * stored at `n`'s neighbours, the node that follows each occurrence of `n`.
 */
module Routed {
  import opened Flow
  import opened PathSearch
  import Topology
  import RouteCache

  // ---------------------------------------------------------------- next hops

  /** Position `i` of `p` holds `n`, and the next position holds a node other than `s`. */
  predicate HopAt(p: Path, n: nat, s: nat, i: int)
  {
    0 <= i < |p| - 1 && p[i] == n && p[i + 1] != s
  }

  /** The hops among the first `k` positions of `p`: the node after `n`, unless it is `s`. */
  function HopsBefore(p: Path, n: nat, s: nat, k: int): set<nat>
  {
    set i | 0 <= i < k && HopAt(p, n, s, i) :: p[i + 1]
  }

  /** The hops one path gives `n`. */
  function PathHops(p: Path, n: nat, s: nat): set<nat>
  {
    HopsBefore(p, n, s, |p| - 1)
  }

  /** The hops a list of paths gives `n`. */
  function ListHops(ps: seq<Path>, n: nat, s: nat): set<nat>
  {
    if ps == [] then {} else ListHops(ps[..|ps| - 1], n, s) + PathHops(ps[|ps| - 1], n, s)
  }

  /** The hops given by the paths stored at the nodes of `around`. */
  function HopsAround(table: PathTable, around: set<nat>, n: nat, s: nat): set<nat>
  {
    set w, x | w in around && w in table && x in ListHops(table[w], n, s) :: x
  }

  /** The set `build_routes` returns for the stored paths `table`. */
  function NextHops(nodes: Adjacency, table: PathTable, n: nat, s: nat): set<nat>
    requires n in nodes
  {
    HopsAround(table, nodes[n], n, s)
  }

  /** A hop comes from a list exactly when some path in it has `n` followed by the hop. */
  lemma {:induction false} ListHopsExactly(ps: seq<Path>, n: nat, s: nat)
    ensures forall x :: x in ListHops(ps, n, s) <==>
      x != s && exists j, i :: 0 <= j < |ps| && 0 <= i < |ps[j]| - 1 && ps[j][i] == n && ps[j][i + 1] == x
    decreases |ps|
  {
    if ps != [] {
      var init := ps[..|ps| - 1];
      ListHopsExactly(init, n, s);
      forall x ensures x in ListHops(ps, n, s) <==>
        x != s && exists j, i :: 0 <= j < |ps| && 0 <= i < |ps[j]| - 1 && ps[j][i] == n && ps[j][i + 1] == x
      {
        if x in ListHops(init, n, s) {
          var j, i :| 0 <= j < |init| && 0 <= i < |init[j]| - 1 && init[j][i] == n && init[j][i + 1] == x;
          assert ps[j] == init[j];
        }
        if x != s && exists j, i :: 0 <= j < |ps| && 0 <= i < |ps[j]| - 1 && ps[j][i] == n && ps[j][i + 1] == x {
          var j, i :| 0 <= j < |ps| && 0 <= i < |ps[j]| - 1 && ps[j][i] == n && ps[j][i + 1] == x;
          if j < |init| {
            assert init[j] == ps[j];
          } else {
            assert HopAt(ps[j], n, s, i);
            assert x in PathHops(ps[j], n, s);
          }
        }
      }
    }
  }

  /**
   * When every stored path is a walk, every hop is a neighbour of `n`
   * (it follows `n` on a walk) and none is `s`.
   */
  lemma NextHopsWithin(nodes: Adjacency, table: PathTable, n: nat, s: nat)
    requires n in nodes
    requires forall w, p :: w in table && p in table[w] ==> IsWalk(nodes, p)
    ensures NextHops(nodes, table, n, s) <= nodes[n]
    ensures s !in NextHops(nodes, table, n, s)
  {
    forall x | x in NextHops(nodes, table, n, s) ensures x in nodes[n] && x != s {
      var w :| w in nodes[n] && w in table && x in ListHops(table[w], n, s);
      ListHopsExactly(table[w], n, s);
      var j, i :| 0 <= j < |table[w]| && 0 <= i < |table[w][j]| - 1 && table[w][j][i] == n && table[w][j][i + 1] == x;
      var p := table[w][j];
      assert p in table[w];
      assert IsWalk(nodes, p);
      assert p[i] in nodes && p[i + 1] in nodes[p[i]];
    }
  }

  // ---------------------------------------------------------------- build_routes

  /** The innermost loop (routed.rs:171-181) over one stored path. */
  method AddPathHops(path: Path, n: nat, s: nat, routes: set<nat>) returns (routes': set<nat>)
    requires |path| > 0
    ensures routes' == routes + PathHops(path, n, s)
  {
    routes' := routes;
    // `path.len() - 1` is a `usize` subtraction: stored paths are never empty.
    for i := 0 to |path| - 1
      invariant routes' == routes + HopsBefore(path, n, s, i)
    {
      if path[i] != n {
        assert HopsBefore(path, n, s, i + 1) == HopsBefore(path, n, s, i);
        continue;
      }
      if path[i + 1] == s {
        assert HopsBefore(path, n, s, i + 1) == HopsBefore(path, n, s, i);
        continue;
      }
      assert HopAt(path, n, s, i);
      assert HopsBefore(path, n, s, i + 1) == HopsBefore(path, n, s, i) + {path[i + 1]};
      routes' := routes' + {path[i + 1]};
    }
  }

  /** The loop over the paths stored at one neighbour (routed.rs:170-182). */
  method AddListHops(paths: seq<Path>, n: nat, s: nat, routes: set<nat>) returns (routes': set<nat>)
    requires forall p :: p in paths ==> |p| > 0
    ensures routes' == routes + ListHops(paths, n, s)
  {
    routes' := routes;
    for j := 0 to |paths|
      invariant routes' == routes + ListHops(paths[..j], n, s)
    {
      assert paths[j] in paths;
      routes' := AddPathHops(paths[j], n, s, routes');
      assert paths[..j + 1][..j] == paths[..j];
    }
    assert paths[..|paths|] == paths;
  }

  lemma HopsAroundAdd(table: PathTable, around: set<nat>, w: nat, n: nat, s: nat)
    requires w in table
    ensures HopsAround(table, around + {w}, n, s) == HopsAround(table, around, n, s) + ListHops(table[w], n, s)
  {
  }

  /** The search configuration `build_routes` runs: the one without the early skip. */
  function Plain(nodes: Adjacency, f: nat, s: nat, digest: string -> string): Config
  {
    Config(nodes, f, s, digest, false)
  }

  /**
   * `build_routes` carries its own copy of the search, without the early skip of
   * `get_routes_uncached`: the two copies have exactly the same possible results.
   */
  lemma SameSearchAsCache(nodes: Adjacency, f: nat, s: nat, digest: string -> string, table: PathTable)
    ensures Outcome(Plain(nodes, f, s, digest), table) <==> Outcome(RouteCache.Cached(nodes, f, s, digest), table)
  {
    SkipSameOutcome(Plain(nodes, f, s, digest), table);
    assert Plain(nodes, f, s, digest).(skip := true) == RouteCache.Cached(nodes, f, s, digest);
  }

  /**
   * `build_routes(nodes, f, s, n)` (routed.rs:86-186). The `unwrap`s at lines
   * 108, 112 and 169-170 need `s`, `n` and every neighbour to be nodes.
   */
  method BuildRoutes(nodes: Adjacency, f: nat, s: nat, n: nat, digest: string -> string)
    returns (routes: set<nat>, ghost table: PathTable)
    requires Runnable(Plain(nodes, f, s, digest)) && n in nodes
    ensures Outcome(Plain(nodes, f, s, digest), table)
    ensures routes == NextHops(nodes, table, n, s)
    ensures routes <= nodes[n] && s !in routes
  {
    var paths, trace := PathSearch.Search(Plain(nodes, f, s, digest));
    table := paths;
    routes := {};
    var rest := nodes[n];
    while rest != {}
      invariant rest <= nodes[n]
      invariant routes == HopsAround(paths, nodes[n] - rest, n, s)
      decreases rest
    {
      var neigh :| neigh in rest;
      assert forall p :: p in paths[neigh] ==> |p| > 0 by {
        forall p | p in paths[neigh] ensures |p| > 0 {
          assert IsRoute(nodes, s, neigh, p);
        }
      }
      routes := AddListHops(paths[neigh], n, s, routes);
      HopsAroundAdd(paths, nodes[n] - rest, neigh, n, s);
      assert nodes[n] - (rest - {neigh}) == (nodes[n] - rest) + {neigh};
      rest := rest - {neigh};
    }
    assert nodes[n] - rest == nodes[n];
    NextHopsWithin(nodes, paths, n, s);
  }

  // ---------------------------------------------------------------- the route table

  /** `hops` is what `build_routes` can return for source `s` at node `n`. */
  ghost predicate RouteEntry(nodes: Adjacency, f: nat, s: nat, n: nat, digest: string -> string, hops: set<nat>)
    requires n in nodes
  {
    exists table :: Outcome(Plain(nodes, f, s, digest), table) && hops == NextHops(nodes, table, n, s)
  }

  /** The `for (s, _) in &nodes` loop of `new` (routed.rs:25-27). */
  method RouteTable(nodes: Adjacency, f: nat, n: nat, digest: string -> string) returns (table: map<nat, set<nat>>)
    requires Closed(nodes) && (nodes == map[] || n in nodes)
    ensures table.Keys == nodes.Keys
    ensures forall s :: s in table ==>
      n in nodes && RouteEntry(nodes, f, s, n, digest, table[s]) && table[s] <= nodes[n] && s !in table[s]
  {
    table := map[];
    var rest := nodes.Keys;
    while rest != {}
      invariant rest <= nodes.Keys
      invariant table.Keys == nodes.Keys - rest
      invariant forall s :: s in table ==>
        n in nodes && RouteEntry(nodes, f, s, n, digest, table[s]) && table[s] <= nodes[n] && s !in table[s]
      decreases rest
    {
      var s :| s in rest;
      var hops;
      ghost var paths;
      hops, paths := BuildRoutes(nodes, f, s, n, digest);
      assert RouteEntry(nodes, f, s, n, digest, hops);
      table := table[s := hops];
      rest := rest - {s};
    }
  }

  class RoutedAlgorithm {
    var received: set<string>
    var routes: map<nat, set<nat>>

    /**
     * `RoutedAlgorithm::new(n, topology)` (routed.rs:20-33): one entry per node
     * of the flow graph of the topology's edges, built with `f` the number of
     * faulty nodes. `n` must be a node unless the graph is empty (the loop then
     * never reaches the `unwrap` at line 169).
     */
    constructor (n: nat, topology: Topology.Topology, digest: string -> string)
      requires AdjacencyOf(topology.edges) == map[] || n in AdjacencyOf(topology.edges)
      ensures received == {}
      ensures routes.Keys == AdjacencyOf(topology.edges).Keys
      ensures forall s :: s in routes ==>
        n in AdjacencyOf(topology.edges)
        && RouteEntry(AdjacencyOf(topology.edges), |topology.faulty|, s, n, digest, routes[s])
        && routes[s] <= AdjacencyOf(topology.edges)[n] && s !in routes[s]
    {
      var g := NewFlowGraph(topology.edges);
      assert Closed(g.nodes);
      var table := RouteTable(g.nodes, |topology.faulty|, n, digest);
      routes := table;
      received := {};
    }
  }
}
