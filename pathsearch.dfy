/**
 * The bounded, round-based path search behind `RouteCache::get_routes_uncached`
 * (dissyssym-lib/src/routecache.rs) and its near-twin in
 * `RoutedAlgorithm::build_routes` (dissyssym-lib/src/algorithms/routed.rs).
 *
 * Starting from `[s]`, every round extends each walk of the queue by one
 * neighbour of its last node. A candidate `path + [v]` is offered to `v` only
 * when, apart from `s`, no node of `path` lies on a path already stored for
 * `v`. Each node then keeps at most `f + 1` paths: the candidates are sorted by
 * the digest of their text and popped from the end. The kept paths form the
 * next queue.
 *
 * The two searches differ in one line: `routecache.rs` skips a neighbour that
 * already holds more than `f` paths (`Config.skip`). Both are modelled by the
 * same methods, and `SkipSameOutcome` shows the skip is invisible: the two
 * searches have exactly the same possible results.
 *
 * The iteration order of the `HashSet` neighbours and of the `HashMap` of
 * candidates is free (`:|`). Only the order of the next queue depends on it.
 */
module PathSearch {
  import opened Flow
  import opened Text

  type Path = seq<nat>
  type PathTable = map<nat, seq<Path>>
  type Trace = seq<(PathTable, seq<Path>)>

  /**
   * The inputs of one search. `digest` stands for SHA-512 followed by upper-case
   * hex formatting. `skip` is the early `continue` of routecache.rs.
   */
  datatype Config = Config(nodes: Adjacency, f: nat, s: nat, digest: string -> string, skip: bool)

  /** Every neighbour is itself a node, as `FlowGraph::new` guarantees. */
  predicate Closed(nodes: Adjacency)
  {
    forall a, b :: a in nodes && b in nodes[a] ==> b in nodes
  }

  /**
   * What the `unwrap`s demand: `s` is a node (its neighbour set is looked up in
   * the first round) and every neighbour is a node (its stored paths are looked up).
   */
  predicate Runnable(cfg: Config)
  {
    Closed(cfg.nodes) && cfg.s in cfg.nodes
  }

  function Last(p: Path): nat
    requires |p| > 0
  {
    p[|p| - 1]
  }

  /** `p` is a walk along the adjacency from `s` to `v`. */
  predicate IsRoute(nodes: Adjacency, s: nat, v: nat, p: Path)
  {
    IsWalk(nodes, p) && p[0] == s && Last(p) == v
  }

  // ---------------------------------------------------------------- acceptance rule

  /** Apart from `s`, no node of `path` lies on any of the `stored` paths. */
  predicate Avoids(path: Path, stored: seq<Path>, s: nat)
  {
    forall j, k :: 0 <= j < |stored| && 0 <= k < |path| && path[k] in stored[j] ==> path[k] == s
  }

  /** The `valid` flag of the two nested loops with early `break`s. */
  method Acceptable(path: Path, stored: seq<Path>, s: nat) returns (valid: bool)
    ensures valid <==> Avoids(path, stored, s)
  {
    valid := true;
    var j := 0;
    while j < |stored|
      invariant 0 <= j <= |stored|
      invariant valid ==> Avoids(path, stored[..j], s)
      invariant !valid ==> !Avoids(path, stored, s)
    {
      var op := stored[j];
      var k := 0;
      while k < |path|
        invariant 0 <= k <= |path|
        invariant valid ==> forall i :: 0 <= i < k && path[i] in op ==> path[i] == s
        invariant !valid ==> !Avoids(path, stored, s)
      {
        if path[k] in op && path[k] != s {
          valid := false;
          break;
        }
        k := k + 1;
      }
      if !valid {
        break;
      }
      j := j + 1;
    }
    if valid {
      assert stored[..j] == stored;
    }
  }

  // ---------------------------------------------------------------- candidate phase

  /** Whether the queued walk `path` offers a candidate `path + [v]` to `v`. */
  predicate Offers(cfg: Config, table: PathTable, path: Path, v: nat)
  {
    |path| > 0 && Last(path) in cfg.nodes && v in cfg.nodes[Last(path)] && v in table
    && (!cfg.skip || |table[v]| <= cfg.f) && Avoids(path, table[v], cfg.s)
  }

  /** The candidates offered to `v` by the walks of `queue`, in queue order. */
  function Extensions(cfg: Config, table: PathTable, queue: seq<Path>, v: nat): seq<Path>
  {
    if queue == [] then []
    else
      var path := queue[|queue| - 1];
      Extensions(cfg, table, queue[..|queue| - 1], v)
      + (if Offers(cfg, table, path, v) then [path + [v]] else [])
  }

  /** A path is a candidate for `v` exactly when a queued walk offers it. */
  lemma {:induction false} ExtensionsExactly(cfg: Config, table: PathTable, queue: seq<Path>, v: nat)
    ensures forall p :: p in Extensions(cfg, table, queue, v) <==>
      exists i :: 0 <= i < |queue| && Offers(cfg, table, queue[i], v) && p == queue[i] + [v]
    decreases |queue|
  {
    if queue != [] {
      var init := queue[..|queue| - 1];
      ExtensionsExactly(cfg, table, init, v);
      forall p ensures p in Extensions(cfg, table, queue, v) <==>
        exists i :: 0 <= i < |queue| && Offers(cfg, table, queue[i], v) && p == queue[i] + [v]
      {
        if p in Extensions(cfg, table, init, v) {
          var i :| 0 <= i < |init| && Offers(cfg, table, init[i], v) && p == init[i] + [v];
          assert queue[i] == init[i];
        }
        if exists i :: 0 <= i < |queue| && Offers(cfg, table, queue[i], v) && p == queue[i] + [v] {
          var i :| 0 <= i < |queue| && Offers(cfg, table, queue[i], v) && p == queue[i] + [v];
          if i < |init| {
            assert init[i] == queue[i];
          }
        }
      }
    }
  }

  /** The `possible_paths` map after the candidate phase: one entry per node offered something. */
  function Candidates(cfg: Config, table: PathTable, queue: seq<Path>): PathTable
  {
    map v | v in table.Keys && Extensions(cfg, table, queue, v) != [] :: Extensions(cfg, table, queue, v)
  }

  function Get(m: PathTable, v: nat): seq<Path>
  {
    if v in m then m[v] else []
  }

  /**
   * The candidate map built so far: `Extensions` over the walks `seen`, plus the
   * candidates `path` has offered to the neighbours in `done`.
   */
  ghost predicate Gathering(cfg: Config, table: PathTable, seen: seq<Path>, cands: PathTable, path: Path, done: set<nat>)
  {
    cands.Keys <= table.Keys
    && (forall v :: v in cands ==> cands[v] != [])
    && (forall v :: Get(cands, v) == Extensions(cfg, table, seen, v)
          + (if v in done && Offers(cfg, table, path, v) then [path + [v]] else []))
  }

  lemma GatherStart(cfg: Config, table: PathTable, seen: seq<Path>, cands: PathTable, path: Path)
    requires Gathering(cfg, table, seen, cands, [], {})
    ensures Gathering(cfg, table, seen, cands, path, {})
  {
  }

  /** `path` offers `other` nothing: the map is unchanged. */
  lemma GatherPass(cfg: Config, table: PathTable, seen: seq<Path>, cands: PathTable, path: Path, done: set<nat>, other: nat)
    requires Gathering(cfg, table, seen, cands, path, done)
    requires !Offers(cfg, table, path, other)
    ensures Gathering(cfg, table, seen, cands, path, done + {other})
  {
  }

  /** `path` offers `other` a candidate: it is appended to `other`'s list. */
  lemma GatherOffer(cfg: Config, table: PathTable, seen: seq<Path>, cands: PathTable, path: Path, done: set<nat>, other: nat)
    requires Gathering(cfg, table, seen, cands, path, done) && other !in done
    requires Offers(cfg, table, path, other)
    ensures Gathering(cfg, table, seen, cands[other := Get(cands, other) + [path + [other]]], path, done + {other})
  {
    var c' := cands[other := Get(cands, other) + [path + [other]]];
    forall v ensures Get(c', v) == Extensions(cfg, table, seen, v)
      + (if v in done + {other} && Offers(cfg, table, path, v) then [path + [v]] else [])
    {
      if v != other {
        assert Get(c', v) == Get(cands, v);
      } else {
        var e := Extensions(cfg, table, seen, v);
        assert Get(cands, v) == e + [];
        assert Get(c', v) == e + [path + [v]];
      }
    }
    assert c'.Keys == cands.Keys + {other};
  }

  /** Once `path` has visited all its neighbours, the map covers one more queued walk. */
  lemma GatherNext(cfg: Config, table: PathTable, queue: seq<Path>, i: nat, cands: PathTable)
    requires i < |queue| && |queue[i]| > 0 && Last(queue[i]) in cfg.nodes
    requires Gathering(cfg, table, queue[..i], cands, queue[i], cfg.nodes[Last(queue[i])])
    ensures Gathering(cfg, table, queue[..i + 1], cands, [], {})
  {
    assert queue[..i + 1][..i] == queue[..i];
    assert queue[..i + 1][i] == queue[i];
  }

  lemma GatherDone(cfg: Config, table: PathTable, queue: seq<Path>, cands: PathTable)
    requires Gathering(cfg, table, queue[..|queue|], cands, [], {})
    ensures cands == Candidates(cfg, table, queue)
  {
    assert queue[..|queue|] == queue;
    var c := Candidates(cfg, table, queue);
    forall v | v in cands ensures v in c && c[v] == cands[v] {
      assert Get(cands, v) == cands[v];
    }
    forall v | v in c ensures v in cands {
      assert Get(cands, v) != [];
    }
  }

  /** The inner loop over the neighbours of one queued walk (routecache.rs:56-89). */
  method OfferAll(cfg: Config, table: PathTable, seen: seq<Path>, path: Path, cands: PathTable)
    returns (cands': PathTable)
    requires Closed(cfg.nodes) && table.Keys == cfg.nodes.Keys
    requires |path| > 0 && Last(path) in cfg.nodes
    requires Gathering(cfg, table, seen, cands, [], {})
    ensures Gathering(cfg, table, seen, cands', path, cfg.nodes[Last(path)])
  {
    cands' := cands;
    var neigh := cfg.nodes[Last(path)];
    var rest := neigh;
    GatherStart(cfg, table, seen, cands, path);
    while rest != {}
      invariant rest <= neigh
      invariant Gathering(cfg, table, seen, cands', path, neigh - rest)
      decreases rest
    {
      var other :| other in rest;
      ghost var done := neigh - rest;
      rest := rest - {other};
      assert neigh - rest == done + {other};
      var otherPaths := table[other];
      if cfg.skip && |otherPaths| > cfg.f {
        GatherPass(cfg, table, seen, cands', path, done, other);
        continue;
      }
      var valid := Acceptable(path, otherPaths, cfg.s);
      if valid {
        GatherOffer(cfg, table, seen, cands', path, done, other);
        cands' := cands'[other := Get(cands', other) + [path + [other]]];
      } else {
        GatherPass(cfg, table, seen, cands', path, done, other);
      }
    }
  }

  /** The candidate phase (routecache.rs:55-90, routed.rs:107-138). */
  method Propose(cfg: Config, table: PathTable, queue: seq<Path>) returns (cands: PathTable)
    requires Closed(cfg.nodes) && table.Keys == cfg.nodes.Keys
    requires forall p :: p in queue ==> |p| > 0 && Last(p) in cfg.nodes
    ensures cands == Candidates(cfg, table, queue)
  {
    cands := map[];
    for i := 0 to |queue|
      invariant Gathering(cfg, table, queue[..i], cands, [], {})
    {
      assert queue[i] in queue;
      cands := OfferAll(cfg, table, queue[..i], queue[i], cands);
      GatherNext(cfg, table, queue, i, cands);
    }
    GatherDone(cfg, table, queue, cands);
  }

  // ---------------------------------------------------------------- admission phase

  /** The text fed to the hasher: the decimal forms of the nodes, concatenated. */
  function PathText(p: Path): string
  {
    if p == [] then [] else Decimal(p[0]) + PathText(p[1..])
  }

  /** The sort key of a candidate: the digest of its text. */
  function KeyOf(digest: string -> string): Path -> string
  {
    p => digest(PathText(p))
  }

  /** `pop()` repeated up to `room` times: the last element first. */
  function Popped(xs: seq<Path>, room: nat): (r: seq<Path>)
    ensures |r| == Min(room, |xs|)
    ensures forall i :: 0 <= i < |r| ==> r[i] == xs[|xs| - 1 - i]
  {
    if room == 0 || xs == [] then []
    else [xs[|xs| - 1]] + Popped(xs[..|xs| - 1], room - 1)
  }

  /** No node holds more than `f + 1` paths. */
  predicate Bounded(table: PathTable, f: nat)
  {
    forall v :: v in table ==> |table[v]| <= f + 1
  }

  /** The room left at `v`: `f + 1 - existing.len()`. */
  function Room(table: PathTable, f: nat, v: nat): nat
    requires v in table && |table[v]| <= f + 1
  {
    f + 1 - |table[v]|
  }

  /** The paths `v` keeps from its candidates in this round. */
  function Taken(cfg: Config, table: PathTable, cands: PathTable, v: nat): seq<Path>
    requires Bounded(table, cfg.f)
  {
    if v in cands && v in table then Popped(SortBy(cands[v], KeyOf(cfg.digest)), Room(table, cfg.f, v))
    else []
  }

  /** `node_paths` after the admission phase. */
  function Settle(cfg: Config, table: PathTable, cands: PathTable): PathTable
    requires Bounded(table, cfg.f)
  {
    map v | v in table :: table[v] + Taken(cfg, table, cands, v)
  }

  /** The next queue when the candidate map is visited in key order `order`. */
  function Gathered(cfg: Config, table: PathTable, cands: PathTable, order: seq<nat>): seq<Path>
    requires Bounded(table, cfg.f)
  {
    if order == [] then []
    else Gathered(cfg, table, cands, order[..|order| - 1]) + Taken(cfg, table, cands, order[|order| - 1])
  }

  /** `order` lists each element of `keys` exactly once. */
  predicate Enumerates(order: seq<nat>, keys: set<nat>)
  {
    (forall i, j :: 0 <= i < j < |order| ==> order[i] != order[j])
    && (forall v :: v in order ==> v in keys)
    && (forall v :: v in keys ==> v in order)
  }

  lemma PoppedWithin(xs: seq<Path>, room: nat)
    ensures forall p :: p in Popped(xs, room) ==> p in xs
  {
    forall p | p in Popped(xs, room) ensures p in xs {
      var i :| 0 <= i < |Popped(xs, room)| && Popped(xs, room)[i] == p;
    }
  }

  /** `v` keeps `min(room, |candidates|)` of its candidates. */
  lemma TakenFromCandidates(cfg: Config, table: PathTable, cands: PathTable, v: nat)
    requires Bounded(table, cfg.f) && v in cands && v in table
    ensures |Taken(cfg, table, cands, v)| == Min(Room(table, cfg.f, v), |cands[v]|)
    ensures forall p :: p in Taken(cfg, table, cands, v) ==> p in cands[v]
  {
    var sorted := SortBy(cands[v], KeyOf(cfg.digest));
    PoppedWithin(sorted, Room(table, cfg.f, v));
    forall p | p in sorted ensures p in cands[v] {
      assert p in multiset(sorted);
    }
  }

  /**
   * The kept paths of `v` are the candidates with the greatest keys: no
   * candidate left behind has a greater key than one that was kept.
   */
  lemma KeepsLargestKeys(cfg: Config, table: PathTable, cands: PathTable, v: nat)
    requires Bounded(table, cfg.f) && v in cands && v in table
    ensures var sorted := SortBy(cands[v], KeyOf(cfg.digest));
      var kept := Taken(cfg, table, cands, v);
      forall i, j :: 0 <= i < |kept| && 0 <= j < |sorted| - |kept| ==>
        LessEq(cfg.digest(PathText(sorted[j])), cfg.digest(PathText(kept[i])))
  {
    var key := KeyOf(cfg.digest);
    var sorted := SortBy(cands[v], key);
    var kept := Taken(cfg, table, cands, v);
    assert kept == Popped(sorted, Room(table, cfg.f, v));
    forall i, j | 0 <= i < |kept| && 0 <= j < |sorted| - |kept|
      ensures LessEq(cfg.digest(PathText(sorted[j])), cfg.digest(PathText(kept[i])))
    {
      assert kept[i] == sorted[|sorted| - 1 - i];
      assert LessEq(key(sorted[j]), key(sorted[|sorted| - 1 - i]));
    }
  }

  /** The pop loop of routecache.rs:109-116 (routed.rs:157-164). */
  method PopInto(sorted: seq<Path>, room: nat, existing: seq<Path>, queue: seq<Path>)
    returns (existing': seq<Path>, queue': seq<Path>)
    ensures existing' == existing + Popped(sorted, room)
    ensures queue' == queue + Popped(sorted, room)
  {
    var rest := sorted;
    existing', queue' := existing, queue;
    for j := 0 to room
      invariant j <= |sorted| && rest == sorted[..|sorted| - j]
      invariant existing' == existing + Popped(sorted, j)
      invariant queue' == queue + Popped(sorted, j)
    {
      if rest == [] {
        assert Popped(sorted, room) == Popped(sorted, j);
        return;
      }
      var p := rest[|rest| - 1];
      rest := rest[..|rest| - 1];
      assert Popped(sorted, j + 1) == Popped(sorted, j) + [p];
      existing' := existing' + [p];
      queue' := queue' + [p];
    }
  }

  /** Sorting, then popping, the candidates of one node (routecache.rs:93-116). */
  method AdmitNode(cfg: Config, table: PathTable, cands: PathTable, node: nat, existing: seq<Path>, queue: seq<Path>)
    returns (kept: seq<Path>, queue': seq<Path>)
    requires Bounded(table, cfg.f) && node in cands && node in table && existing == table[node]
    ensures kept == table[node] + Taken(cfg, table, cands, node)
    ensures queue' == queue + Taken(cfg, table, cands, node)
  {
    var sorted := SortBy(cands[node], KeyOf(cfg.digest));
    // `f + 1 - existing.len()` is a `usize` subtraction: it needs `existing.len() <= f + 1`.
    var room: nat := cfg.f + 1 - |existing|;
    kept, queue' := PopInto(sorted, room, existing, queue);
  }

  lemma EnumeratesSnoc(order: seq<nat>, keys: set<nat>, node: nat)
    requires Enumerates(order, keys) && node !in keys
    ensures Enumerates(order + [node], keys + {node})
  {
  }

  lemma GatheredSnoc(cfg: Config, table: PathTable, cands: PathTable, order: seq<nat>, node: nat)
    requires Bounded(table, cfg.f)
    ensures Gathered(cfg, table, cands, order + [node])
         == Gathered(cfg, table, cands, order) + Taken(cfg, table, cands, node)
  {
    assert (order + [node])[..|order|] == order;
  }

  /** The admission loop's state: the nodes outside `rest` are stored, in `order`. */
  ghost predicate Admitting(cfg: Config, table: PathTable, cands: PathTable, rest: set<nat>,
                            order: seq<nat>, t: PathTable, q: seq<Path>)
  {
    Bounded(table, cfg.f) && cands.Keys <= table.Keys && rest <= cands.Keys
    && Enumerates(order, cands.Keys - rest)
    && q == Gathered(cfg, table, cands, order)
    && t.Keys == table.Keys
    && forall v :: v in table ==> t[v] == table[v] + (if v in rest then [] else Taken(cfg, table, cands, v))
  }

  /** Storing the paths `node` keeps moves it out of the nodes still to visit. */
  lemma AdmitStep(cfg: Config, table: PathTable, cands: PathTable, rest: set<nat>, order: seq<nat>,
                  t: PathTable, q: seq<Path>, node: nat, kept: seq<Path>, q': seq<Path>)
    requires Admitting(cfg, table, cands, rest, order, t, q) && node in rest
    requires kept == table[node] + Taken(cfg, table, cands, node)
    requires q' == q + Taken(cfg, table, cands, node)
    ensures Admitting(cfg, table, cands, rest - {node}, order + [node], t[node := kept], q')
  {
    EnumeratesSnoc(order, cands.Keys - rest, node);
    assert cands.Keys - (rest - {node}) == (cands.Keys - rest) + {node};
    GatheredSnoc(cfg, table, cands, order, node);
  }

  lemma AdmitDone(cfg: Config, table: PathTable, cands: PathTable, order: seq<nat>, t: PathTable, q: seq<Path>)
    requires Admitting(cfg, table, cands, {}, order, t, q)
    ensures Enumerates(order, cands.Keys)
    ensures t == Settle(cfg, table, cands)
    ensures q == Gathered(cfg, table, cands, order)
  {
    assert cands.Keys - {} == cands.Keys;
  }

  /** The admission phase (routecache.rs:92-117, routed.rs:140-165). */
  method Admit(cfg: Config, table: PathTable, cands: PathTable)
    returns (table': PathTable, queue': seq<Path>, ghost order: seq<nat>)
    requires Bounded(table, cfg.f) && cands.Keys <= table.Keys
    ensures Enumerates(order, cands.Keys)
    ensures table' == Settle(cfg, table, cands)
    ensures queue' == Gathered(cfg, table, cands, order)
  {
    table', queue', order := table, [], [];
    var rest := cands.Keys;
    while rest != {}
      invariant Admitting(cfg, table, cands, rest, order, table', queue')
      decreases rest
    {
      var node :| node in rest;
      var kept, queue'' := AdmitNode(cfg, table, cands, node, table'[node], queue');
      AdmitStep(cfg, table, cands, rest, order, table', queue', node, kept, queue'');
      rest := rest - {node};
      table', queue', order := table'[node := kept], queue'', order + [node];
    }
    AdmitDone(cfg, table, cands, order, table', queue');
  }

  // ---------------------------------------------------------------- rounds

  /** One iteration of the `while !q.is_empty()` loop. */
  method Round(cfg: Config, table: PathTable, queue: seq<Path>)
    returns (table': PathTable, queue': seq<Path>, ghost order: seq<nat>)
    requires Closed(cfg.nodes) && table.Keys == cfg.nodes.Keys && Bounded(table, cfg.f)
    requires forall p :: p in queue ==> |p| > 0 && Last(p) in cfg.nodes
    ensures Enumerates(order, Candidates(cfg, table, queue).Keys)
    ensures table' == Settle(cfg, table, Candidates(cfg, table, queue))
    ensures queue' == Gathered(cfg, table, Candidates(cfg, table, queue), order)
  {
    var cands := Propose(cfg, table, queue);
    table', queue', order := Admit(cfg, table, cands);
  }

  /** One round may take `table, queue` to `table', queue'`. */
  ghost predicate Step(cfg: Config, table: PathTable, queue: seq<Path>, table': PathTable, queue': seq<Path>)
  {
    Bounded(table, cfg.f)
    && table' == Settle(cfg, table, Candidates(cfg, table, queue))
    && exists order :: Enumerates(order, Candidates(cfg, table, queue).Keys)
         && queue' == Gathered(cfg, table, Candidates(cfg, table, queue), order)
  }

  /** `node_paths` before the first round: `[[s]]` for `s`, nothing for the other nodes. */
  function Start(cfg: Config): PathTable
  {
    map v | v in cfg.nodes.Keys :: if v == cfg.s then [[cfg.s]] else []
  }

  /** `trace` is a complete run: it starts at `Start`, steps by rounds and ends with an empty queue. */
  ghost predicate IsRun(cfg: Config, trace: Trace)
  {
    |trace| >= 1 && trace[0] == (Start(cfg), [[cfg.s]])
    && (forall i :: 0 <= i < |trace| - 1 ==> Step(cfg, trace[i].0, trace[i].1, trace[i + 1].0, trace[i + 1].1))
    && trace[|trace| - 1].1 == []
  }

  /** `table` is a possible result of the search. */
  ghost predicate Outcome(cfg: Config, table: PathTable)
  {
    exists trace: Trace :: IsRun(cfg, trace) && trace[|trace| - 1].0 == table
  }

  // ---------------------------------------------------------------- invariants

  /**
   * Two stored paths of different lengths share only `s` and their end: no node
   * but `s` before the end of the longer one lies on the shorter one.
   */
  predicate Separated(stored: seq<Path>, s: nat)
  {
    forall a, b, k ::
      (0 <= a < |stored| && 0 <= b < |stored| && |stored[a]| < |stored[b]|
       && 0 <= k < |stored[b]| - 1 && stored[b][k] in stored[a]) ==> stored[b][k] == s
  }

  /** What holds at the top of round `r` (counting from 0). */
  ghost predicate SearchState(cfg: Config, table: PathTable, queue: seq<Path>, r: nat)
  {
    TableState(cfg, table, r) && QueueState(table, queue, r)
  }

  /** The table's part: the bound, the walk shape, the separation and `[s]` first at `s`. */
  ghost predicate TableState(cfg: Config, table: PathTable, r: nat)
  {
    table.Keys == cfg.nodes.Keys
    && Bounded(table, cfg.f)
    && (forall v, p :: v in table && p in table[v] ==> IsRoute(cfg.nodes, cfg.s, v, p) && |p| <= r + 1)
    && (forall v :: v in table ==> Separated(table[v], cfg.s))
    && cfg.s in table && table[cfg.s] != [] && table[cfg.s][0] == [cfg.s]
  }

  /** The queue's part: the walks of length `r + 1`, each stored at its end. */
  ghost predicate QueueState(table: PathTable, queue: seq<Path>, r: nat)
  {
    forall p :: p in queue ==> |p| == r + 1 && Last(p) in table && p in table[Last(p)]
  }

  /** The open slots: pairs `(v, i)` with `|table[v]| <= i <= f`. */
  function Slots(table: PathTable, f: nat): set<(nat, nat)>
  {
    set v, i: nat | v in table.Keys && |table[v]| <= i < f + 1 :: (v, i)
  }

  lemma StartState(cfg: Config)
    requires Runnable(cfg)
    ensures SearchState(cfg, Start(cfg), [[cfg.s]], 0)
  {
    var t := Start(cfg);
    StartEntries(cfg);
    StartBounded(cfg);
    StartRoutes(cfg);
    assert [cfg.s] in t[cfg.s];
  }

  lemma StartEntries(cfg: Config)
    ensures Start(cfg).Keys == cfg.nodes.Keys
    ensures forall v :: v in Start(cfg) ==> Start(cfg)[v] == if v == cfg.s then [[cfg.s]] else []
  {
  }

  lemma StartBounded(cfg: Config)
    ensures Bounded(Start(cfg), cfg.f)
    ensures forall v :: v in Start(cfg) ==> Separated(Start(cfg)[v], cfg.s)
  {
    StartEntries(cfg);
  }

  lemma StartRoutes(cfg: Config)
    requires Runnable(cfg)
    ensures forall v, p :: v in Start(cfg) && p in Start(cfg)[v] ==> IsRoute(cfg.nodes, cfg.s, v, p) && |p| <= 1
  {
    var t := Start(cfg);
    StartEntries(cfg);
    forall v, p | v in t && p in t[v] ensures IsRoute(cfg.nodes, cfg.s, v, p) && |p| <= 1 {
      assert v == cfg.s && p == [cfg.s];
    }
  }

  /** Every path a node keeps is an offered candidate. */
  lemma TakenOffered(cfg: Config, table: PathTable, queue: seq<Path>, v: nat, p: Path)
    requires Bounded(table, cfg.f)
    requires p in Taken(cfg, table, Candidates(cfg, table, queue), v)
    ensures exists i :: 0 <= i < |queue| && Offers(cfg, table, queue[i], v) && p == queue[i] + [v]
  {
    var cands := Candidates(cfg, table, queue);
    TakenFromCandidates(cfg, table, cands, v);
    ExtensionsExactly(cfg, table, queue, v);
  }

  lemma GatheredMembers(cfg: Config, table: PathTable, cands: PathTable, order: seq<nat>)
    requires Bounded(table, cfg.f)
    ensures forall p :: p in Gathered(cfg, table, cands, order) ==>
      exists v :: v in order && p in Taken(cfg, table, cands, v)
    ensures Gathered(cfg, table, cands, order) == [] ==>
      forall v :: v in order ==> Taken(cfg, table, cands, v) == []
  {
    if order != [] {
      var init := order[..|order| - 1];
      GatheredMembers(cfg, table, cands, init);
      assert forall v :: v in init ==> v in order;
      assert forall v :: v in order ==> v in init || v == order[|order| - 1];
    }
  }

  /** A round's new paths: walks one step longer, avoiding the paths stored at their end. */
  lemma NewPaths(cfg: Config, table: PathTable, queue: seq<Path>, r: nat, v: nat, p: Path)
    requires Runnable(cfg) && SearchState(cfg, table, queue, r)
    requires p in Taken(cfg, table, Candidates(cfg, table, queue), v)
    ensures v in table && IsRoute(cfg.nodes, cfg.s, v, p) && |p| == r + 2
    ensures Avoids(p[..|p| - 1], table[v], cfg.s)
  {
    TakenOffered(cfg, table, queue, v, p);
    var i :| 0 <= i < |queue| && Offers(cfg, table, queue[i], v) && p == queue[i] + [v];
    var q := queue[i];
    QueuedRoute(cfg, table, queue, r, i);
    RouteExtend(cfg.nodes, cfg.s, q, v);
    DropLast(q, v);
  }

  /** A queued walk is a route to its end, `r + 1` nodes long. */
  lemma QueuedRoute(cfg: Config, table: PathTable, queue: seq<Path>, r: nat, i: nat)
    requires SearchState(cfg, table, queue, r) && i < |queue|
    ensures |queue[i]| == r + 1 && IsRoute(cfg.nodes, cfg.s, Last(queue[i]), queue[i])
  {
    var q := queue[i];
    assert q in queue;
    assert q in table[Last(q)];
  }

  /** A route extended by a neighbour of its end is a route to that neighbour. */
  lemma RouteExtend(nodes: Adjacency, s: nat, q: Path, v: nat)
    requires |q| > 0 && IsRoute(nodes, s, Last(q), q) && Last(q) in nodes && v in nodes[Last(q)]
    ensures IsRoute(nodes, s, v, q + [v])
  {
    var p := q + [v];
    forall i | 0 <= i < |p| - 1 ensures p[i] in nodes && p[i + 1] in nodes[p[i]] {
      if i < |q| - 1 {
        assert p[i] == q[i] && p[i + 1] == q[i + 1];
      }
    }
  }

  lemma DropLast<T>(q: seq<T>, v: T)
    ensures (q + [v])[..|q|] == q && |q + [v]| == |q| + 1
  {
  }

  /** Appending same-length paths that avoid the shorter stored ones keeps `Separated`. */
  lemma SeparatedExtend(before: seq<Path>, added: seq<Path>, s: nat, len: nat)
    requires len > 0 && Separated(before, s)
    requires forall a :: 0 <= a < |before| ==> |before[a]| < len
    requires forall b :: 0 <= b < |added| ==> |added[b]| == len && Avoids(added[b][..len - 1], before, s)
    ensures Separated(before + added, s)
  {
    var all := before + added;
    forall a, b, k | 0 <= a < |all| && 0 <= b < |all| && |all[a]| < |all[b]|
      && 0 <= k < |all[b]| - 1 && all[b][k] in all[a]
      ensures all[b][k] == s
    {
      if b >= |before| {
        var n := added[b - |before|];
        assert a < |before|;
        assert n[..len - 1][k] == n[k];
      }
    }
  }

  /** The table after a round, node by node. */
  lemma SettledNode(cfg: Config, table: PathTable, queue: seq<Path>, r: nat, v: nat)
    requires Runnable(cfg) && SearchState(cfg, table, queue, r) && v in table
    ensures var t' := Settle(cfg, table, Candidates(cfg, table, queue));
      |t'[v]| <= cfg.f + 1 && Separated(t'[v], cfg.s)
      && forall p :: p in t'[v] ==> IsRoute(cfg.nodes, cfg.s, v, p) && |p| <= r + 2
  {
    var cands := Candidates(cfg, table, queue);
    var taken := Taken(cfg, table, cands, v);
    var stored := table[v];
    TakenShape(cfg, table, queue, r, v);
    TakenRoom(cfg, table, cands, v);
    StoredShape(cfg, table, queue, r, v);
    SeparatedExtend(stored, taken, cfg.s, r + 2);
    assert Settle(cfg, table, cands)[v] == stored + taken;
    forall p | p in stored + taken ensures IsRoute(cfg.nodes, cfg.s, v, p) && |p| <= r + 2 {
      if p in stored {
      } else {
        var b :| 0 <= b < |taken| && taken[b] == p;
      }
    }
  }

  /** The new paths of `v`: routes one step longer than the round, avoiding what `v` stored. */
  lemma TakenShape(cfg: Config, table: PathTable, queue: seq<Path>, r: nat, v: nat)
    requires Runnable(cfg) && SearchState(cfg, table, queue, r)
    ensures var taken := Taken(cfg, table, Candidates(cfg, table, queue), v);
      forall b :: 0 <= b < |taken| ==>
        v in table && IsRoute(cfg.nodes, cfg.s, v, taken[b]) && |taken[b]| == r + 2
        && Avoids(taken[b][..r + 1], table[v], cfg.s)
  {
    var taken := Taken(cfg, table, Candidates(cfg, table, queue), v);
    forall b | 0 <= b < |taken|
      ensures v in table && IsRoute(cfg.nodes, cfg.s, v, taken[b]) && |taken[b]| == r + 2
      ensures Avoids(taken[b][..r + 1], table[v], cfg.s)
    {
      NewPaths(cfg, table, queue, r, v, taken[b]);
    }
  }

  /** `v` takes no more paths than it has room for. */
  lemma TakenRoom(cfg: Config, table: PathTable, cands: PathTable, v: nat)
    requires Bounded(table, cfg.f) && v in table
    ensures |table[v]| + |Taken(cfg, table, cands, v)| <= cfg.f + 1
  {
    if v in cands {
      TakenFromCandidates(cfg, table, cands, v);
    }
  }

  /** What `v` already stores at the top of round `r`. */
  lemma StoredShape(cfg: Config, table: PathTable, queue: seq<Path>, r: nat, v: nat)
    requires SearchState(cfg, table, queue, r) && v in table
    ensures Separated(table[v], cfg.s)
    ensures forall a :: 0 <= a < |table[v]| ==> |table[v][a]| < r + 2
    ensures forall p :: p in table[v] ==> IsRoute(cfg.nodes, cfg.s, v, p) && |p| <= r + 1
  {
    forall a | 0 <= a < |table[v]| ensures |table[v][a]| < r + 2 {
      assert table[v][a] in table[v];
    }
  }

  /** The queue after a round holds the new paths, each stored at its end. */
  lemma RoundQueue(cfg: Config, table: PathTable, queue: seq<Path>, r: nat, order: seq<nat>)
    requires Runnable(cfg) && SearchState(cfg, table, queue, r)
    ensures var cands := Candidates(cfg, table, queue);
      QueueState(Settle(cfg, table, cands), Gathered(cfg, table, cands, order), r + 1)
  {
    var cands := Candidates(cfg, table, queue);
    var t' := Settle(cfg, table, cands);
    GatheredMembers(cfg, table, cands, order);
    forall p | p in Gathered(cfg, table, cands, order) ensures |p| == r + 2 && Last(p) in t' && p in t'[Last(p)] {
      var v :| v in order && p in Taken(cfg, table, cands, v);
      NewPaths(cfg, table, queue, r, v, p);
    }
  }

  /** The table after a round keeps the bound, the route shape and the separation. */
  lemma RoundTable(cfg: Config, table: PathTable, queue: seq<Path>, r: nat)
    requires Runnable(cfg) && SearchState(cfg, table, queue, r)
    ensures TableState(cfg, Settle(cfg, table, Candidates(cfg, table, queue)), r + 1)
  {
    var t' := Settle(cfg, table, Candidates(cfg, table, queue));
    forall v | v in table
      ensures |t'[v]| <= cfg.f + 1 && Separated(t'[v], cfg.s)
      ensures forall p :: p in t'[v] ==> IsRoute(cfg.nodes, cfg.s, v, p) && |p| <= r + 2
    {
      SettledNode(cfg, table, queue, r, v);
    }
    assert t'[cfg.s][0] == table[cfg.s][0];
  }

  /** A round keeps the invariant, one round further on. */
  lemma RoundState(cfg: Config, table: PathTable, queue: seq<Path>, r: nat, order: seq<nat>)
    requires Runnable(cfg) && SearchState(cfg, table, queue, r)
    requires Enumerates(order, Candidates(cfg, table, queue).Keys)
    ensures SearchState(cfg, Settle(cfg, table, Candidates(cfg, table, queue)),
                        Gathered(cfg, table, Candidates(cfg, table, queue), order), r + 1)
  {
    RoundTable(cfg, table, queue, r);
    RoundQueue(cfg, table, queue, r, order);
  }

  /** What a round needs of the state. */
  lemma StateRoundable(cfg: Config, table: PathTable, queue: seq<Path>, r: nat)
    requires SearchState(cfg, table, queue, r)
    ensures table.Keys == cfg.nodes.Keys && Bounded(table, cfg.f)
    ensures forall p :: p in queue ==> |p| > 0 && Last(p) in cfg.nodes
  {
  }

  /** What the search promises of its table, read off the invariant. */
  lemma StateFacts(cfg: Config, table: PathTable, queue: seq<Path>, r: nat)
    requires SearchState(cfg, table, queue, r)
    ensures table.Keys == cfg.nodes.Keys
    ensures forall v :: v in table ==> |table[v]| <= cfg.f + 1
    ensures forall v, p :: v in table && p in table[v] ==> IsRoute(cfg.nodes, cfg.s, v, p)
    ensures forall v :: v in table ==> Separated(table[v], cfg.s)
    ensures cfg.s in table && table[cfg.s] != [] && table[cfg.s][0] == [cfg.s]
  {
  }

  /** A round that queues nothing stores nothing. */
  lemma RoundIdle(cfg: Config, table: PathTable, queue: seq<Path>, order: seq<nat>)
    requires Bounded(table, cfg.f)
    requires Enumerates(order, Candidates(cfg, table, queue).Keys)
    requires Gathered(cfg, table, Candidates(cfg, table, queue), order) == []
    ensures Settle(cfg, table, Candidates(cfg, table, queue)) == table
  {
    var cands := Candidates(cfg, table, queue);
    var t' := Settle(cfg, table, cands);
    GatheredMembers(cfg, table, cands, order);
    forall v | v in table ensures t'[v] == table[v] {
      if v in cands { assert v in order; }
    }
  }

  /** A round that queues a path fills a slot. */
  lemma RoundFills(cfg: Config, table: PathTable, queue: seq<Path>, order: seq<nat>)
    requires Bounded(table, cfg.f)
    requires Enumerates(order, Candidates(cfg, table, queue).Keys)
    requires Gathered(cfg, table, Candidates(cfg, table, queue), order) != []
    ensures Slots(Settle(cfg, table, Candidates(cfg, table, queue)), cfg.f) < Slots(table, cfg.f)
  {
    var cands := Candidates(cfg, table, queue);
    var t' := Settle(cfg, table, cands);
    var q' := Gathered(cfg, table, cands, order);
    GatheredMembers(cfg, table, cands, order);
    var p := q'[0];
    assert p in q';
    var v :| v in order && p in Taken(cfg, table, cands, v);
    assert |t'[v]| > |table[v]|;
    assert (v, |table[v]|) in Slots(table, cfg.f);
    assert (v, |table[v]|) !in Slots(t', cfg.f);
    assert Slots(t', cfg.f) <= Slots(table, cfg.f);
  }

  /** A round that queues nothing stores nothing; one that queues something fills a slot. */
  lemma RoundProgress(cfg: Config, table: PathTable, queue: seq<Path>, order: seq<nat>)
    requires Bounded(table, cfg.f)
    requires Enumerates(order, Candidates(cfg, table, queue).Keys)
    ensures var cands := Candidates(cfg, table, queue);
      var t' := Settle(cfg, table, cands);
      var q' := Gathered(cfg, table, cands, order);
      (q' == [] ==> t' == table)
      && (q' != [] ==> Slots(t', cfg.f) < Slots(table, cfg.f))
  {
    if Gathered(cfg, table, Candidates(cfg, table, queue), order) == [] {
      RoundIdle(cfg, table, queue, order);
    } else {
      RoundFills(cfg, table, queue, order);
    }
  }

  /** `trace` is a run so far, ending in `table, queue`. */
  ghost predicate RunSoFar(cfg: Config, trace: Trace, table: PathTable, queue: seq<Path>)
  {
    |trace| >= 1 && trace[0] == (Start(cfg), [[cfg.s]]) && trace[|trace| - 1] == (table, queue)
    && forall i :: 0 <= i < |trace| - 1 ==> Step(cfg, trace[i].0, trace[i].1, trace[i + 1].0, trace[i + 1].1)
  }

  lemma RunExtend(cfg: Config, trace: Trace, table: PathTable, queue: seq<Path>,
                  table': PathTable, queue': seq<Path>, order: seq<nat>)
    requires RunSoFar(cfg, trace, table, queue) && Bounded(table, cfg.f)
    requires Enumerates(order, Candidates(cfg, table, queue).Keys)
    requires table' == Settle(cfg, table, Candidates(cfg, table, queue))
    requires queue' == Gathered(cfg, table, Candidates(cfg, table, queue), order)
    ensures RunSoFar(cfg, trace + [(table', queue')], table', queue')
  {
    assert Step(cfg, table, queue, table', queue');
    var t := trace + [(table', queue')];
    forall i | 0 <= i < |t| - 1 ensures Step(cfg, t[i].0, t[i].1, t[i + 1].0, t[i + 1].1) {
      if i < |trace| - 1 {
        assert t[i] == trace[i] && t[i + 1] == trace[i + 1];
      }
    }
  }

  /**
   * The whole search, `get_routes_uncached` (routecache.rs:35-121) when
   * `cfg.skip` holds, and lines 92-166 of `build_routes` (routed.rs) when it
   * does not. The loop runs at most `(f + 1) * |nodes| + 1` rounds: the open
   * slots shrink in every round but the last.
   */
  method Search(cfg: Config) returns (table: PathTable, ghost trace: Trace)
    requires Runnable(cfg)
    ensures IsRun(cfg, trace) && trace[|trace| - 1].0 == table
    ensures table.Keys == cfg.nodes.Keys
    ensures forall v :: v in table ==> |table[v]| <= cfg.f + 1
    ensures forall v, p :: v in table && p in table[v] ==> IsRoute(cfg.nodes, cfg.s, v, p)
    ensures forall v :: v in table ==> Separated(table[v], cfg.s)
    ensures cfg.s in table && table[cfg.s] != [] && table[cfg.s][0] == [cfg.s]
  {
    table := Start(cfg);
    var queue: seq<Path> := [[cfg.s]];
    ghost var r: nat := 0;
    trace := [(table, queue)];
    StartState(cfg);
    while queue != []
      invariant SearchState(cfg, table, queue, r)
      invariant RunSoFar(cfg, trace, table, queue)
      decreases Slots(table, cfg.f), |queue|
    {
      StateRoundable(cfg, table, queue, r);
      var table', queue', order := Round(cfg, table, queue);
      RoundState(cfg, table, queue, r, order);
      RoundProgress(cfg, table, queue, order);
      RunExtend(cfg, trace, table, queue, table', queue', order);
      table, queue, r := table', queue', r + 1;
      trace := trace + [(table, queue)];
    }
    StateFacts(cfg, table, queue, r);
  }

  // ---------------------------------------------------------------- the early skip

  /** Without the skip, a node with `f + 1` paths still has room 0; with it, it gets no candidates. */
  lemma {:induction false} ExtensionsSkip(cfg: Config, table: PathTable, queue: seq<Path>, v: nat)
    requires v in table && |table[v]| <= cfg.f
    ensures Extensions(cfg.(skip := true), table, queue, v) == Extensions(cfg.(skip := false), table, queue, v)
    decreases |queue|
  {
    if queue != [] {
      ExtensionsSkip(cfg, table, queue[..|queue| - 1], v);
    }
  }

  /** With the skip, a node already holding more than `f` paths is offered nothing. */
  lemma {:induction false} ExtensionsFull(cfg: Config, table: PathTable, queue: seq<Path>, v: nat)
    requires cfg.skip && v in table && |table[v]| > cfg.f
    ensures Extensions(cfg, table, queue, v) == []
    decreases |queue|
  {
    if queue != [] {
      ExtensionsFull(cfg, table, queue[..|queue| - 1], v);
    }
  }

  /**
   * The skip at routecache.rs:62-64 only drops candidates the pop loop would
   * not take: with or without it, every node keeps the same paths in a round.
   */
  lemma SkipChangesNothing(cfg: Config, table: PathTable, queue: seq<Path>)
    requires Bounded(table, cfg.f)
    ensures forall v :: Taken(cfg.(skip := true), table, Candidates(cfg.(skip := true), table, queue), v)
                     == Taken(cfg.(skip := false), table, Candidates(cfg.(skip := false), table, queue), v)
    ensures Settle(cfg.(skip := true), table, Candidates(cfg.(skip := true), table, queue))
         == Settle(cfg.(skip := false), table, Candidates(cfg.(skip := false), table, queue))
  {
    var on, off := cfg.(skip := true), cfg.(skip := false);
    forall v ensures Taken(on, table, Candidates(on, table, queue), v) == Taken(off, table, Candidates(off, table, queue), v) {
      if v in table {
        if |table[v]| <= cfg.f {
          ExtensionsSkip(cfg, table, queue, v);
        } else {
          ExtensionsFull(on, table, queue, v);
        }
      }
    }
  }

  /** A node already holding more than `f` paths keeps nothing, whatever it is offered. */
  lemma TakenFull(cfg: Config, table: PathTable, cands: PathTable, v: nat)
    requires Bounded(table, cfg.f) && v in table && |table[v]| > cfg.f
    ensures Taken(cfg, table, cands, v) == []
  {
  }

  /**
   * With the skip, the candidate map has a subset of the keys it has without
   * it, and a node only the second map holds keeps nothing.
   */
  lemma SkipKeys(cfg: Config, table: PathTable, queue: seq<Path>)
    requires Bounded(table, cfg.f)
    ensures Candidates(cfg.(skip := true), table, queue).Keys <= Candidates(cfg.(skip := false), table, queue).Keys
    ensures forall v :: v in Candidates(cfg.(skip := false), table, queue).Keys - Candidates(cfg.(skip := true), table, queue).Keys
                      ==> Taken(cfg.(skip := false), table, Candidates(cfg.(skip := false), table, queue), v) == []
  {
    var on, off := cfg.(skip := true), cfg.(skip := false);
    var con, coff := Candidates(on, table, queue), Candidates(off, table, queue);
    forall v | v in table
      ensures v in con.Keys ==> v in coff.Keys
      ensures v in coff.Keys - con.Keys ==> Taken(off, table, coff, v) == []
    {
      if |table[v]| <= cfg.f {
        ExtensionsSkip(cfg, table, queue, v);
      } else {
        ExtensionsFull(on, table, queue, v);
        TakenFull(off, table, coff, v);
      }
    }
  }

  /** The next queue reads the configuration and the candidate map only through `Taken`. */
  lemma {:induction false} GatheredAgree(c1: Config, cands1: PathTable, c2: Config, cands2: PathTable,
                                         table: PathTable, order: seq<nat>)
    requires Bounded(table, c1.f) && Bounded(table, c2.f)
    requires forall v :: Taken(c1, table, cands1, v) == Taken(c2, table, cands2, v)
    ensures Gathered(c1, table, cands1, order) == Gathered(c2, table, cands2, order)
    decreases |order|
  {
    if order != [] {
      GatheredAgree(c1, cands1, c2, cands2, table, order[..|order| - 1]);
    }
  }

  /** Visiting more nodes that keep nothing leaves the next queue unchanged. */
  lemma {:induction false} GatheredIdle(cfg: Config, table: PathTable, cands: PathTable, order: seq<nat>, extra: seq<nat>)
    requires Bounded(table, cfg.f)
    requires forall i :: 0 <= i < |extra| ==> Taken(cfg, table, cands, extra[i]) == []
    ensures Gathered(cfg, table, cands, order + extra) == Gathered(cfg, table, cands, order)
    decreases |extra|
  {
    if extra == [] {
      assert order + extra == order;
    } else {
      var init := extra[..|extra| - 1];
      GatheredIdle(cfg, table, cands, order, init);
      assert (order + extra)[..|order + extra| - 1] == order + init;
      assert (order + extra)[|order + extra| - 1] == extra[|extra| - 1];
      assert Taken(cfg, table, cands, extra[|extra| - 1]) == [];
      assert Gathered(cfg, table, cands, order + extra)
          == Gathered(cfg, table, cands, order + init) + Taken(cfg, table, cands, extra[|extra| - 1]);
    }
  }

  /** The elements of `order` that lie in `keys`, in the same order. */
  function Keep(order: seq<nat>, keys: set<nat>): seq<nat>
  {
    if order == [] then []
    else Keep(order[..|order| - 1], keys) + (if order[|order| - 1] in keys then [order[|order| - 1]] else [])
  }

  /** `Keep` holds exactly the elements of `order` that lie in `keys`. */
  lemma {:induction false} KeepMembers(order: seq<nat>, keys: set<nat>)
    ensures forall v :: v in Keep(order, keys) <==> v in order && v in keys
    decreases |order|
  {
    if order != [] {
      var init, last := order[..|order| - 1], order[|order| - 1];
      KeepMembers(init, keys);
      assert order == init + [last];
      assert forall v :: v in order <==> v in init || v == last;
    }
  }

  /** Keeping part of an enumeration enumerates that part. */
  lemma {:induction false} KeepEnumerates(order: seq<nat>, all: set<nat>, keys: set<nat>)
    requires Enumerates(order, all) && keys <= all
    ensures Enumerates(Keep(order, keys), keys)
    decreases |order|
  {
    if order != [] {
      var init, last := order[..|order| - 1], order[|order| - 1];
      assert last !in init;
      KeepMembers(order, keys);
      KeepEnumerates(init, all - {last}, keys - {last});
      assert Keep(init, keys) == Keep(init, keys - {last}) by {
        KeepSame(init, keys, last);
      }
    }
  }

  lemma {:induction false} KeepSame(order: seq<nat>, keys: set<nat>, x: nat)
    requires x !in order
    ensures Keep(order, keys) == Keep(order, keys - {x})
    decreases |order|
  {
    if order != [] {
      KeepSame(order[..|order| - 1], keys, x);
    }
  }

  /** Dropping nodes that keep nothing leaves the next queue unchanged. */
  lemma {:induction false} GatheredKeep(cfg: Config, table: PathTable, cands: PathTable, order: seq<nat>, keys: set<nat>)
    requires Bounded(table, cfg.f)
    requires forall v :: v in order && v !in keys ==> Taken(cfg, table, cands, v) == []
    ensures Gathered(cfg, table, cands, Keep(order, keys)) == Gathered(cfg, table, cands, order)
    decreases |order|
  {
    if order != [] {
      var init, last := order[..|order| - 1], order[|order| - 1];
      GatheredKeep(cfg, table, cands, init, keys);
      assert Gathered(cfg, table, cands, order) == Gathered(cfg, table, cands, init) + Taken(cfg, table, cands, last);
      if last in keys {
        GatheredSnoc(cfg, table, cands, Keep(init, keys), last);
      } else {
        assert last in order;
        assert Taken(cfg, table, cands, last) == [];
        assert Keep(order, keys) == Keep(init, keys);
      }
    }
  }

  /** Every finite set of nodes has an enumeration. */
  lemma {:induction false} EnumerateSet(keys: set<nat>) returns (order: seq<nat>)
    ensures Enumerates(order, keys)
    decreases keys
  {
    if keys == {} {
      order := [];
    } else {
      var v :| v in keys;
      var rest := EnumerateSet(keys - {v});
      EnumeratesSnoc(rest, keys - {v}, v);
      assert keys - {v} + {v} == keys;
      order := rest + [v];
    }
  }

  lemma EnumeratesAppend(order: seq<nat>, small: set<nat>, extra: seq<nat>, big: set<nat>)
    requires Enumerates(order, small) && Enumerates(extra, big - small) && small <= big
    ensures Enumerates(order + extra, big)
  {
    var all := order + extra;
    forall i, j | 0 <= i < j < |all| ensures all[i] != all[j] {
      if i < |order| && j >= |order| {
        assert all[i] in order && all[j] == extra[j - |order|];
        assert all[j] in extra;
      }
    }
    forall v | v in big ensures v in all {
      if v !in small {
        assert v in extra;
      }
    }
  }

  /** Some order of the candidate map without the skip gives the next queue of `order` with it. */
  lemma SkipQueueOn(cfg: Config, table: PathTable, queue: seq<Path>, order: seq<nat>)
    returns (order': seq<nat>)
    requires Bounded(table, cfg.f)
    requires Enumerates(order, Candidates(cfg.(skip := true), table, queue).Keys)
    ensures Enumerates(order', Candidates(cfg.(skip := false), table, queue).Keys)
    ensures Gathered(cfg.(skip := false), table, Candidates(cfg.(skip := false), table, queue), order')
         == Gathered(cfg.(skip := true), table, Candidates(cfg.(skip := true), table, queue), order)
  {
    var on, off := cfg.(skip := true), cfg.(skip := false);
    var con, coff := Candidates(on, table, queue), Candidates(off, table, queue);
    SkipKeys(cfg, table, queue);
    SkipChangesNothing(cfg, table, queue);
    var extra := EnumerateSet(coff.Keys - con.Keys);
    EnumeratesAppend(order, con.Keys, extra, coff.Keys);
    order' := order + extra;
    assert forall i :: 0 <= i < |extra| ==> extra[i] in coff.Keys - con.Keys;
    GatheredIdle(off, table, coff, order, extra);
    GatheredAgree(off, coff, on, con, table, order);
  }

  /** Some order of the candidate map with the skip gives the next queue of `order'` without it. */
  lemma SkipQueueOff(cfg: Config, table: PathTable, queue: seq<Path>, order': seq<nat>)
    returns (order: seq<nat>)
    requires Bounded(table, cfg.f)
    requires Enumerates(order', Candidates(cfg.(skip := false), table, queue).Keys)
    ensures Enumerates(order, Candidates(cfg.(skip := true), table, queue).Keys)
    ensures Gathered(cfg.(skip := true), table, Candidates(cfg.(skip := true), table, queue), order)
         == Gathered(cfg.(skip := false), table, Candidates(cfg.(skip := false), table, queue), order')
  {
    var on, off := cfg.(skip := true), cfg.(skip := false);
    var con, coff := Candidates(on, table, queue), Candidates(off, table, queue);
    SkipKeys(cfg, table, queue);
    SkipChangesNothing(cfg, table, queue);
    order := Keep(order', con.Keys);
    KeepEnumerates(order', coff.Keys, con.Keys);
    GatheredKeep(off, table, coff, order', con.Keys);
    GatheredAgree(off, coff, on, con, table, order);
  }

  /** With or without the skip, a round can take the same state to the same next state. */
  lemma SkipSameStep(cfg: Config, table: PathTable, queue: seq<Path>, table': PathTable, queue': seq<Path>)
    ensures Step(cfg.(skip := true), table, queue, table', queue') <==> Step(cfg.(skip := false), table, queue, table', queue')
  {
    var on, off := cfg.(skip := true), cfg.(skip := false);
    if Step(on, table, queue, table', queue') {
      SkipChangesNothing(cfg, table, queue);
      var order :| Enumerates(order, Candidates(on, table, queue).Keys)
                   && queue' == Gathered(on, table, Candidates(on, table, queue), order);
      var order' := SkipQueueOn(cfg, table, queue, order);
    }
    if Step(off, table, queue, table', queue') {
      SkipChangesNothing(cfg, table, queue);
      var order' :| Enumerates(order', Candidates(off, table, queue).Keys)
                    && queue' == Gathered(off, table, Candidates(off, table, queue), order');
      var order := SkipQueueOff(cfg, table, queue, order');
    }
  }

  /** A trace is a run with the skip exactly when it is a run without it. */
  lemma SkipSameRun(cfg: Config, trace: Trace)
    ensures IsRun(cfg.(skip := true), trace) <==> IsRun(cfg.(skip := false), trace)
  {
    var on, off := cfg.(skip := true), cfg.(skip := false);
    assert Start(on) == Start(off);
    forall i | 0 <= i < |trace| - 1
      ensures Step(on, trace[i].0, trace[i].1, trace[i + 1].0, trace[i + 1].1)
          <==> Step(off, trace[i].0, trace[i].1, trace[i + 1].0, trace[i + 1].1)
    {
      SkipSameStep(cfg, trace[i].0, trace[i].1, trace[i + 1].0, trace[i + 1].1);
    }
  }

  /** The searches with and without the skip have exactly the same possible results. */
  lemma SkipSameOutcome(cfg: Config, table: PathTable)
    ensures Outcome(cfg.(skip := true), table) <==> Outcome(cfg.(skip := false), table)
  {
    var on, off := cfg.(skip := true), cfg.(skip := false);
    if Outcome(on, table) {
      var trace: Trace :| IsRun(on, trace) && trace[|trace| - 1].0 == table;
      SkipSameRun(cfg, trace);
    }
    if Outcome(off, table) {
      var trace: Trace :| IsRun(off, trace) && trace[|trace| - 1].0 == table;
      SkipSameRun(cfg, trace);
    }
  }
}
