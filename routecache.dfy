/**
 * `RouteCache` (dissyssym-lib/src/routecache.rs): a memo table from the digest
 * of a canonical text of the search inputs to the table of paths the search
 * stores. The search itself is `PathSearch.Search` with the early skip.
 *
 * SHA-512 is the `digest` parameter. Nothing is assumed about it: the cache is
 * correct relative to equal digests, and `KeyTextsCollide` shows that the key
 * text alone already merges some inputs.
 */
module RouteCache {
  import opened Flow
  import opened Text
  import opened PathSearch

  // ---------------------------------------------------------------- canonical text

  /** Some listing of a finite set, each element once. */
  ghost function Listing<T>(s: set<T>): (xs: seq<T>)
    ensures multiset(xs) == multiset(s)
  {
    if s == {} then []
    else
      var x :| x in s;
      [x] + Listing(s - {x})
  }

  /** The ascending listing of a finite set of strings (unique by `SortedUnique`). */
  ghost function Ascending(s: set<string>): seq<string>
  {
    assert Sorted(SortStrings(Listing(s))) && multiset(SortStrings(Listing(s))) == multiset(s);
    var xs :| Sorted(xs) && multiset(xs) == multiset(s);
    xs
  }

  /** Sorting any listing of `s` gives `Ascending(s)`. */
  lemma AscendingOf(items: seq<string>, s: set<string>)
    requires multiset(items) == multiset(s)
    ensures SortStrings(items) == Ascending(s)
  {
    SortedUnique(SortStrings(items), Ascending(s));
  }

  function DecimalSet(v: set<nat>): set<string>
  {
    set x | x in v :: Decimal(x)
  }

  /** `items.join(",")` once the neighbours' decimal strings are sorted. */
  ghost function NeighbourField(v: set<nat>): string
  {
    Join(Ascending(DecimalSet(v)), ",")
  }

  /** `format!("{}-{}", k, ...)` for one node. */
  ghost function EntryText(k: nat, v: set<nat>): string
  {
    Decimal(k) + "-" + NeighbourField(v)
  }

  /** The entries of the nodes in `keys`. */
  ghost function EntrySet(nodes: Adjacency, keys: set<nat>): set<string>
  {
    set k | k in keys && k in nodes :: EntryText(k, nodes[k])
  }

  /** Everything fed to the hasher: the sorted entries joined by `|`, then `f`, then `s`. */
  ghost function KeyText(nodes: Adjacency, f: nat, s: nat): string
  {
    Join(Ascending(EntrySet(nodes, nodes.Keys)), "|") + Decimal(f) + Decimal(s)
  }

  /** Adding an element whose image is new adds one string to the image's multiset. */
  lemma DecimalSetAdd(done: set<nat>, x: nat)
    requires x !in done
    ensures multiset(DecimalSet(done + {x})) == multiset(DecimalSet(done)) + multiset{Decimal(x)}
  {
    assert DecimalSet(done + {x}) == DecimalSet(done) + {Decimal(x)};
    if Decimal(x) in DecimalSet(done) {
      var y :| y in done && Decimal(y) == Decimal(x);
      DecimalInjective(x, y);
    }
  }

  /** The key of an entry is the decimal text before the first `-`. */
  lemma EntryInjective(a: nat, x: string, b: nat, y: string)
    requires Decimal(a) + "-" + x == Decimal(b) + "-" + y
    ensures a == b
  {
    assert '-' !in Decimal(a) && '-' !in Decimal(b);
    FindBeforeSeparator(Decimal(a), "-", x);
    FindBeforeSeparator(Decimal(b), "-", y);
    var e := Decimal(a) + "-" + x;
    assert Decimal(a) == e[..|Decimal(a)|];
    assert Decimal(b) == e[..|Decimal(b)|];
    DecimalInjective(a, b);
  }

  /** Visiting one more node adds its entry to the multiset of entries. */
  lemma EntrySetAdd(nodes: Adjacency, done: set<nat>, k: nat)
    requires k in nodes && k !in done
    ensures multiset(EntrySet(nodes, done + {k})) == multiset(EntrySet(nodes, done)) + multiset{EntryText(k, nodes[k])}
  {
    var e := EntryText(k, nodes[k]);
    forall x | x in EntrySet(nodes, done + {k}) ensures x in EntrySet(nodes, done) || x == e {
      var j :| j in done + {k} && j in nodes && x == EntryText(j, nodes[j]);
    }
    assert EntrySet(nodes, done + {k}) == EntrySet(nodes, done) + {e};
    if e in EntrySet(nodes, done) {
      var j :| j in done && j in nodes && EntryText(j, nodes[j]) == e;
      EntryInjective(j, NeighbourField(nodes[j]), k, NeighbourField(nodes[k]));
    }
  }

  /** `v.iter().map(|v| v.to_string()).collect()`, in any iteration order. */
  method NeighbourItems(v: set<nat>) returns (items: seq<string>)
    ensures multiset(items) == multiset(DecimalSet(v))
  {
    items := [];
    var rest := v;
    while rest != {}
      invariant rest <= v
      invariant multiset(items) == multiset(DecimalSet(v - rest))
      decreases rest
    {
      var x :| x in rest;
      DecimalSetAdd(v - rest, x);
      assert v - (rest - {x}) == (v - rest) + {x};
      rest := rest - {x};
      items := items + [Decimal(x)];
    }
  }

  /** The entry for node `k` (routecache.rs:127-132), whatever order its neighbours come in. */
  method Entry(k: nat, v: set<nat>) returns (entry: string)
    ensures entry == EntryText(k, v)
  {
    var items := NeighbourItems(v);
    AscendingOf(items, DecimalSet(v));
    entry := Decimal(k) + "-" + Join(SortStrings(items), ",");
  }

  /**
   * `hash_params` (routecache.rs:123-141). The three `update`s hash the
   * concatenation of their arguments. The key is the same for every
   * iteration order of the map and of its sets.
   */
  method HashParams(digest: string -> string, nodes: Adjacency, f: nat, s: nat) returns (key: string)
    ensures key == digest(KeyText(nodes, f, s))
  {
    var entries: seq<string> := [];
    var rest := nodes.Keys;
    while rest != {}
      invariant rest <= nodes.Keys
      invariant multiset(entries) == multiset(EntrySet(nodes, nodes.Keys - rest))
      decreases rest
    {
      var k :| k in rest;
      var entry := Entry(k, nodes[k]);
      EntrySetAdd(nodes, nodes.Keys - rest, k);
      assert nodes.Keys - (rest - {k}) == (nodes.Keys - rest) + {k};
      rest := rest - {k};
      entries := entries + [entry];
    }
    assert nodes.Keys - rest == nodes.Keys;
    AscendingOf(entries, EntrySet(nodes, nodes.Keys));
    key := digest(Join(SortStrings(entries), "|") + Decimal(f) + Decimal(s));
  }

  /** Neighbours are ordered as strings, not as numbers: `{2, 10}` gives `10,2`. */
  lemma NeighboursSortAsText()
    ensures NeighbourField({2, 10}) == "10,2"
  {
    TwoTexts();
    assert Sorted(["10", "2"]) by { assert Less("10", "2"); }
    SortedUnique(Ascending(DecimalSet({2, 10})), ["10", "2"]);
  }

  lemma TwoTexts()
    ensures multiset(DecimalSet({2, 10})) == multiset(["10", "2"])
  {
    assert Decimal(10) == Decimal(1) + [DigitChar(0)] == "10";
    assert Decimal(2) == "2";
    var texts := DecimalSet({2, 10});
    forall x | x in texts ensures x == "10" || x == "2" {}
    assert texts == {"10", "2"};
  }

  /**
   * `f` and `s` are appended with no separator, so `(f, s) = (1, 23)` and
   * `(12, 3)` produce the same key text, hence the same key.
   */
  lemma KeyTextsCollide(nodes: Adjacency)
    ensures KeyText(nodes, 1, 23) == KeyText(nodes, 12, 3)
  {
    var j := Join(Ascending(EntrySet(nodes, nodes.Keys)), "|");
    assert Decimal(23) == Decimal(2) + [DigitChar(3)];
    assert Decimal(12) == Decimal(1) + [DigitChar(2)];
    assert Decimal(1) + Decimal(23) == Decimal(12) + Decimal(3);
    assert j + Decimal(1) + Decimal(23) == j + (Decimal(1) + Decimal(23));
    assert j + Decimal(12) + Decimal(3) == j + (Decimal(12) + Decimal(3));
  }

  // ---------------------------------------------------------------- the cache

  /** The search configuration `gen_routes` runs: the one with the early skip. */
  function Cached(nodes: Adjacency, f: nat, s: nat, digest: string -> string): Config
  {
    Config(nodes, f, s, digest, true)
  }

  class RouteCache {
    var cache: map<string, PathTable>
    const digest: string -> string

    /** Every entry is a result of the search for some inputs whose key it is stored under. */
    ghost predicate Valid()
      reads this
    {
      forall key :: key in cache ==> Explained(key, cache[key])
    }

    ghost predicate Explained(key: string, routes: PathTable)
    {
      exists nodes: Adjacency, f: nat, s: nat ::
        digest(KeyText(nodes, f, s)) == key && Outcome(Cached(nodes, f, s, digest), routes)
    }

    /** `RouteCache::new` (routecache.rs:10-14), with the hash function as a parameter. */
    constructor (digest: string -> string)
      ensures cache == map[] && this.digest == digest
      ensures Valid()
    {
      cache := map[];
      this.digest := digest;
    }

    /**
     * `gen_routes` (routecache.rs:16-33). A hit returns the stored table and
     * changes nothing, without looking at `nodes`. A miss runs the search, which
     * needs the inputs `Runnable`, and stores its result. No entry is ever
     * removed or replaced.
     */
    method GenRoutes(nodes: Adjacency, f: nat, s: nat) returns (routes: PathTable)
      requires Valid()
      requires digest(KeyText(nodes, f, s)) in cache || Runnable(Cached(nodes, f, s, digest))
      modifies this
      ensures Valid()
      ensures var key := digest(KeyText(nodes, f, s));
        (key in old(cache) ==> routes == old(cache)[key] && cache == old(cache))
        && (key !in old(cache) ==> Outcome(Cached(nodes, f, s, digest), routes) && cache == old(cache)[key := routes])
      ensures forall key :: key in old(cache) ==> key in cache && cache[key] == old(cache)[key]
    {
      var key := HashParams(digest, nodes, f, s);
      if key in cache {
        routes := cache[key];
      } else {
        ghost var trace;
        routes, trace := PathSearch.Search(Cached(nodes, f, s, digest));
        assert Explained(key, routes);
        cache := cache[key := routes];
      }
    }
  }
}
