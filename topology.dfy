/**
 * `Topology` of `topology.rs`: the edge-list text format it writes and reads
 * back, the stub-matching generator of `c`-regular graphs, and the object
 * whose fields `generate` replaces.
 *
 * Randomness (`shuffle`, `choose_multiple`) is nondeterministic choice; file
 * reading and writing are left to the caller, so `Parse` takes the file's
 * content and `Write` returns the text it would store.
 */
module Topology {
  import opened Wrappers
  import opened Text
  import opened Flow

  /** `usize` on a 64-bit target. */
  const USIZE_LIMIT: nat := 0x1_0000_0000_0000_0000

  /** The attempt budget of `generate`. */
  const MAX_ATTEMPTS: nat := 25000

  // ---------------------------------------------------------------- the text format

  /** `str::lines` drops one `'\r'` only in front of a `'\n'` that ended the line. */
  function StripCarriage(line: string): string
  {
    if |line| > 0 && line[|line| - 1] == '\r' then line[..|line| - 1] else line
  }

  /**
   * `str::lines` with the current line's characters accumulated in `line`:
   * a `'\n'` ends a line; the text's end ends a non-empty last line.
   */
  function LinesFrom(s: string, line: string): (r: seq<string>)
    requires '\n' !in line
    ensures forall i :: 0 <= i < |r| ==> '\n' !in r[i]
    decreases |s|
  {
    if s == [] then (if line == [] then [] else [line])
    else if s[0] == '\n' then [StripCarriage(line)] + LinesFrom(s[1..], [])
    else LinesFrom(s[1..], line + [s[0]])
  }

  /** Rust `str::lines`: pieces ended by `'\n'` (or `"\r\n"`); no empty piece after a final `'\n'`. */
  function RustLines(s: string): (r: seq<string>)
    ensures forall i :: 0 <= i < |r| ==> '\n' !in r[i]
  {
    LinesFrom(s, [])
  }

  lemma {:induction false} LinesFromFirst(p: string, line: string, rest: string)
    requires '\n' !in p && '\n' !in line
    ensures LinesFrom(p + "\n" + rest, line) == [StripCarriage(line + p)] + LinesFrom(rest, [])
    decreases |p|
  {
    if p == [] {
      assert p + "\n" + rest == "\n" + rest;
      assert ("\n" + rest)[1..] == rest;
      assert line + p == line;
    } else {
      var s := p + "\n" + rest;
      assert s[0] == p[0] && s[1..] == p[1..] + "\n" + rest;
      LinesFromFirst(p[1..], line + [p[0]], rest);
      assert line + [p[0]] + p[1..] == line + p;
    }
  }

  /** The first line of a text is everything before its first `'\n'`. */
  lemma RustLinesFirst(p: string, rest: string)
    requires '\n' !in p
    ensures RustLines(p + "\n" + rest) == [StripCarriage(p)] + RustLines(rest)
  {
    LinesFromFirst(p, [], rest);
    assert [] + p == p;
  }

  lemma {:induction false} LinesFromAppend(a: string, b: string, line: string)
    requires a != [] && a[|a| - 1] == '\n' && '\n' !in line
    ensures LinesFrom(a + b, line) == LinesFrom(a, line) + LinesFrom(b, [])
    decreases |a|
  {
    var s := a + b;
    assert s[0] == a[0] && s[1..] == a[1..] + b;
    if a[0] == '\n' {
      if |a| > 1 {
        LinesFromAppend(a[1..], b, []);
      } else {
        assert a[1..] == [] && a[1..] + b == b;
      }
    } else {
      LinesFromAppend(a[1..], b, line + [a[0]]);
    }
  }

  /** A newline-terminated prefix contributes its own lines and nothing else. */
  lemma RustLinesAppend(a: string, b: string)
    requires a == [] || a[|a| - 1] == '\n'
    ensures RustLines(a + b) == RustLines(a) + RustLines(b)
  {
    if a == [] {
      assert a + b == b;
    } else {
      LinesFromAppend(a, b, []);
    }
  }

  /** A single newline-terminated line. */
  lemma RustLinesOne(line: string)
    requires '\n' !in line
    ensures RustLines(line + "\n") == [StripCarriage(line)]
  {
    RustLinesFirst(line, "");
    assert line + "\n" + "" == line + "\n";
  }

  /** Rust `str::parse::<usize>`: an optional `'+'`, then at least one digit, within range. */
  function ParseUsize(token: string): (r: Option<nat>)
    ensures r.Some? ==> r.value < USIZE_LIMIT
    ensures r.Some? ==> |token| > 0 && (AllDigits(token) || (token[0] == '+' && AllDigits(token[1..])))
    ensures r.Some? && AllDigits(token) ==> r.value == DigitsValue(token)
  {
    var digits := if |token| > 0 && token[0] == '+' then token[1..] else token;
    if |digits| == 0 || !AllDigits(digits) then None
    else if DigitsValue(digits) < USIZE_LIMIT then Some(DigitsValue(digits))
    else None
  }

  lemma ParseUsizeDecimal(v: nat)
    requires v < USIZE_LIMIT
    ensures ParseUsize(Decimal(v)) == Some(v)
  {
    DecimalValue(v);
  }

  /** The three `expect`s of the line loop that can fire (`split` always yields a first token). */
  datatype LineFault = FirstNotNumber | NoSecondToken | SecondNotNumber

  /** One line of the `parse` loop: the first two `' '`-separated tokens as `usize`; the rest is ignored. */
  function ParseEdgeLine(line: string): (r: Result<Edge, LineFault>)
    ensures r.Ok? ==> r.value.0 < USIZE_LIMIT && r.value.1 < USIZE_LIMIT
    ensures r.Ok? ==> var tokens := Split(line, " ");
      |tokens| >= 2 && ParseUsize(tokens[0]) == Some(r.value.0) && ParseUsize(tokens[1]) == Some(r.value.1)
    ensures r == Err(NoSecondToken) <==> ParseUsize(line).Some? && ' ' !in line
  {
    var tokens := Split(line, " ");
    if Find(line, " ") == |line| then
      assert tokens == [line];
      if ParseUsize(line).None? then Err(FirstNotNumber) else Err(NoSecondToken)
    else
      var i := Find(line, " ");
      assert line[i] == ' ' by { assert OccursAt(line, " ", i); }
      assert tokens[0] == line[..i];
      match ParseUsize(tokens[0])
      case None => Err(FirstNotNumber)
      case Some(a) =>
        match ParseUsize(tokens[1])
        case None => Err(SecondNotNumber)
        case Some(b) => Ok((a, b))
  }

  /** `(min, max)`, as the line loop pushes it. */
  function Normalise(e: Edge): (r: Edge)
    ensures r.0 <= r.1
    ensures {r.0, r.1} == {e.0, e.1}
  {
    if e.0 < e.1 then (e.0, e.1) else (e.1, e.0)
  }

  /** Each line's outcome, in order. */
  function ParseLines(lines: seq<string>): (r: seq<Result<Edge, LineFault>>)
    ensures |r| == |lines| && forall i :: 0 <= i < |lines| ==> r[i] == ParseEdgeLine(lines[i])
  {
    seq(|lines|, i requires 0 <= i < |lines| => ParseEdgeLine(lines[i]))
  }

  /**
   * The line loop of `parse` over the lines' outcomes: the normalised edge of
   * every line, or the index of the first line whose `expect` fires.
   */
  function Collect(results: seq<Result<Edge, LineFault>>): (r: Result<seq<Edge>, (nat, LineFault)>)
    ensures r.Ok? ==> |r.value| == |results|
    ensures r.Ok? ==> forall i :: 0 <= i < |results| ==> results[i].Ok? && r.value[i] == Normalise(results[i].value)
    ensures r.Err? ==> r.error.0 < |results| && results[r.error.0] == Err(r.error.1)
    ensures r.Err? ==> forall j :: 0 <= j < r.error.0 ==> results[j].Ok?
    ensures r.Ok? <==> forall i :: 0 <= i < |results| ==> results[i].Ok?
    decreases |results|
  {
    if results == [] then Ok([])
    else
      var last: nat := |results| - 1;
      match Collect(results[..last])
      case Err(e) => Err(e)
      case Ok(es) =>
        match results[last]
        case Err(fault) => Err((last, fault))
        case Ok(e) => Ok(es + [Normalise(e)])
  }

  /** What the line loop of `parse` computes from the file's lines. */
  function ReadEdges(lines: seq<string>): Result<seq<Edge>, (nat, LineFault)>
  {
    Collect(ParseLines(lines))
  }

  /** Every label that occurs in the edge list. */
  function Labels(edges: seq<Edge>): set<nat>
  {
    (set i | 0 <= i < |edges| :: edges[i].0) + (set i | 0 <= i < |edges| :: edges[i].1)
  }

  /** The line loop of `parse`, with the `uniques` set it fills alongside. */
  method ParseEdges(content: string) returns (r: Result<(seq<Edge>, set<nat>), (nat, LineFault)>)
    ensures r.Err? <==> ReadEdges(RustLines(content)).Err?
    ensures r.Err? ==> r.error == ReadEdges(RustLines(content)).error
    ensures r.Ok? ==> r.value.0 == ReadEdges(RustLines(content)).value
    ensures r.Ok? ==> r.value.1 == Labels(r.value.0)
  {
    var lines := RustLines(content);
    ghost var results := ParseLines(lines);
    var uniques: set<nat> := {};
    var edges: seq<Edge> := [];
    for k := 0 to |lines|
      invariant Collect(results[..k]) == Ok(edges)
      invariant uniques == Labels(edges)
    {
      var parsed := ParseEdgeLine(lines[k]);
      CollectStep(results, k);
      if parsed.Err? {
        CollectPrefixError(results, k + 1);
        return Err((k, parsed.error));
      }
      var (a, b) := parsed.value;
      uniques := uniques + {a, b};
      ghost var before := edges;
      if a < b {
        edges := edges + [(a, b)];
      } else {
        edges := edges + [(b, a)];
      }
      LabelsAppend(before, Normalise((a, b)));
    }
    assert results[..|lines|] == results;
    return Ok((edges, uniques));
  }

  lemma LabelsAppend(es: seq<Edge>, e: Edge)
    ensures Labels(es + [e]) == Labels(es) + {e.0, e.1}
  {
    var es' := es + [e];
    forall x | x in Labels(es) ensures x in Labels(es') {
      if x in (set i | 0 <= i < |es| :: es[i].0) {
        var i :| 0 <= i < |es| && es[i].0 == x;
        assert es'[i].0 == x;
      } else {
        var i :| 0 <= i < |es| && es[i].1 == x;
        assert es'[i].1 == x;
      }
    }
    assert es'[|es|] == e;
    forall x | x in Labels(es') ensures x in Labels(es) + {e.0, e.1} {
      if x in (set i | 0 <= i < |es'| :: es'[i].0) {
        var i :| 0 <= i < |es'| && es'[i].0 == x;
        if i < |es| { assert es[i].0 == x; }
      } else {
        var i :| 0 <= i < |es'| && es'[i].1 == x;
        if i < |es| { assert es[i].1 == x; }
      }
    }
  }

  /** One more line: its edge is appended, or its fault is the first one. */
  lemma CollectStep(results: seq<Result<Edge, LineFault>>, k: nat)
    requires k < |results| && Collect(results[..k]).Ok?
    ensures results[k].Ok? ==> Collect(results[..k + 1]) == Ok(Collect(results[..k]).value + [Normalise(results[k].value)])
    ensures results[k].Err? ==> Collect(results[..k + 1]) == Err((k, results[k].error))
  {
    assert results[..k + 1][..k] == results[..k];
  }

  /** The first failure of a prefix is the first failure of the whole input. */
  lemma {:induction false} CollectPrefixError(results: seq<Result<Edge, LineFault>>, k: nat)
    requires k <= |results| && Collect(results[..k]).Err?
    ensures Collect(results) == Collect(results[..k])
    decreases |results| - k
  {
    if k < |results| {
      assert results[..k + 1][..k] == results[..k];
      CollectPrefixError(results, k + 1);
    } else {
      assert results[..k] == results;
    }
  }

  /** The text of one edge, `"{} {}"`. */
  function EdgeBody(e: Edge): string
  {
    Decimal(e.0) + " " + Decimal(e.1)
  }

  /** One edge as `write` formats it: `"{} {}\n"`. */
  function EdgeLine(e: Edge): string
  {
    EdgeBody(e) + "\n"
  }

  /** The text `write` stores: one line per edge, in order. */
  function EdgeListText(edges: seq<Edge>): string
    decreases |edges|
  {
    if edges == [] then "" else EdgeListText(edges[..|edges| - 1]) + EdgeLine(edges[|edges| - 1])
  }

  predicate InUsize(edges: seq<Edge>)
  {
    forall i :: 0 <= i < |edges| ==> edges[i].0 < USIZE_LIMIT && edges[i].1 < USIZE_LIMIT
  }

  predicate Ordered(edges: seq<Edge>)
  {
    forall i :: 0 <= i < |edges| ==> edges[i].0 <= edges[i].1
  }

  lemma EdgeLineParses(e: Edge)
    requires e.0 < USIZE_LIMIT && e.1 < USIZE_LIMIT
    ensures ParseEdgeLine(EdgeBody(e)) == Ok(e)
  {
    var a, b := Decimal(e.0), Decimal(e.1);
    assert ' ' !in a && ' ' !in b;
    NoOccurrenceWithoutFirst(b, " ");
    SplitJoin([a, b], " ");
    assert Join([a, b], " ") == a + " " + b;
    ParseUsizeDecimal(e.0);
    ParseUsizeDecimal(e.1);
  }

  lemma EdgeLineSplits(e: Edge)
    ensures '\n' !in EdgeBody(e) && StripCarriage(EdgeBody(e)) == EdgeBody(e)
    ensures EdgeLine(e)[|EdgeLine(e)| - 1] == '\n'
  {
    var b := Decimal(e.1);
    assert EdgeBody(e)[|EdgeBody(e)| - 1] == b[|b| - 1];
  }

  lemma EdgeListTextEnds(edges: seq<Edge>)
    ensures EdgeListText(edges) == [] || EdgeListText(edges)[|EdgeListText(edges)| - 1] == '\n'
  {
    if edges != [] {
      var e := edges[|edges| - 1];
      EdgeLineSplits(e);
      assert EdgeListText(edges) == EdgeListText(edges[..|edges| - 1]) + EdgeLine(e);
    }
  }

  /** `write` produces exactly one `str::lines` line per edge. */
  lemma {:induction false} EdgeListLines(edges: seq<Edge>)
    ensures |RustLines(EdgeListText(edges))| == |edges|
    ensures forall i :: 0 <= i < |edges| ==> RustLines(EdgeListText(edges))[i] == EdgeBody(edges[i])
    decreases |edges|
  {
    if edges != [] {
      var init, e := edges[..|edges| - 1], edges[|edges| - 1];
      EdgeListLines(init);
      var t := EdgeListText(init);
      EdgeListTextEnds(init);
      RustLinesAppend(t, EdgeLine(e));
      EdgeLineSplits(e);
      RustLinesOne(EdgeBody(e));
      assert EdgeListText(edges) == t + EdgeLine(e);
      ghost var lines := RustLines(t + EdgeLine(e));
      assert lines == RustLines(t) + [EdgeBody(e)];
      forall i | 0 <= i < |edges| ensures lines[i] == EdgeBody(edges[i]) {
        if i < |init| { assert lines[i] == RustLines(t)[i] && edges[i] == init[i]; }
      }
    }
  }

  lemma {:induction false} CollectAllOk(results: seq<Result<Edge, LineFault>>, edges: seq<Edge>)
    requires |results| == |edges| && Ordered(edges)
    requires forall i :: 0 <= i < |edges| ==> results[i] == Ok(edges[i])
    ensures Collect(results) == Ok(edges)
    decreases |edges|
  {
    if edges != [] {
      var k := |edges| - 1;
      CollectAllOk(results[..k], edges[..k]);
      assert edges[..k] + [edges[k]] == edges;
    }
  }

  /** Round trip: edges with `a <= b` are read back by the line loop unchanged and in order. */
  lemma WriteThenRead(edges: seq<Edge>)
    requires Ordered(edges) && InUsize(edges)
    ensures ReadEdges(RustLines(EdgeListText(edges))) == Ok(edges)
  {
    EdgeListLines(edges);
    var results := ParseLines(RustLines(EdgeListText(edges)));
    forall i | 0 <= i < |edges| ensures results[i] == Ok(edges[i]) {
      EdgeLineParses(edges[i]);
    }
    CollectAllOk(results, edges);
  }

  /** A blank line and a non-numeric first token make the loop panic at the first `expect`. */
  lemma FirstTokenFaults()
    ensures ParseEdgeLine("") == Err(FirstNotNumber)
    ensures ParseEdgeLine("x 1") == Err(FirstNotNumber)
  {
    assert Find("", " ") == 0;
    SplitFirst("x", " ", "1");
    assert "x" + " " + "1" == "x 1";
  }

  /** A single number, with or without a trailing space, has no usable second token. */
  lemma SecondTokenFaults(a: nat)
    requires a < USIZE_LIMIT
    ensures ParseEdgeLine(Decimal(a)) == Err(NoSecondToken)
    ensures ParseEdgeLine(Decimal(a) + " ") == Err(SecondNotNumber)
  {
    ParseUsizeDecimal(a);
    assert ' ' !in Decimal(a);
    SplitFirst(Decimal(a), " ", "");
    assert Decimal(a) + " " + "" == Decimal(a) + " ";
    assert Split("", " ") == [""];
  }

  /** Extra tokens after the second are ignored. */
  lemma ExtraTokensIgnored(e: Edge, rest: string)
    requires e.0 < USIZE_LIMIT && e.1 < USIZE_LIMIT
    ensures ParseEdgeLine(Decimal(e.0) + " " + Decimal(e.1) + " " + rest) == Ok(e)
  {
    var a, b := Decimal(e.0), Decimal(e.1);
    assert ' ' !in a && ' ' !in b;
    SplitFirst(b, " ", rest);
    SplitFirst(a, " ", b + " " + rest);
    assert a + " " + b + " " + rest == a + " " + (b + " " + rest);
    ParseUsizeDecimal(e.0);
    ParseUsizeDecimal(e.1);
  }

  // ---------------------------------------------------------------- the generator

  /** Degree of `v` in an edge list: the edges that have `v` as an endpoint. */
  function Degree(edges: seq<Edge>, v: nat): nat
    decreases |edges|
  {
    if edges == [] then 0
    else
      var e := edges[|edges| - 1];
      Degree(edges[..|edges| - 1], v) + (if e.0 == v || e.1 == v then 1 else 0)
  }

  /** The degree every node of a `d`-regular graph on `0..n` has. */
  function Target(n: nat, d: nat, v: nat): nat
  {
    if v < n then d else 0
  }

  /** Accepted edges: `s1 < s2 < n`, and no edge twice. */
  predicate SimpleEdges(edges: seq<Edge>, n: nat)
  {
    && (forall i :: 0 <= i < |edges| ==> edges[i].0 < edges[i].1 < n)
    && (forall i, j :: 0 <= i < j < |edges| ==> edges[i] != edges[j])
  }

  function Range(n: nat): (r: seq<nat>)
    ensures |r| == n
    ensures forall i :: 0 <= i < n ==> r[i] == i
  {
    if n == 0 then [] else Range(n - 1) + [n - 1]
  }

  /** The initial stubs of `try_generate`: `0..n`, `d` times over. */
  function Stubs(n: nat, d: nat): seq<nat>
  {
    if d == 0 then [] else Stubs(n, d - 1) + Range(n)
  }

  lemma {:induction false} RangeCount(n: nat, v: nat)
    ensures multiset(Range(n))[v] == if v < n then 1 else 0
  {
    if n > 0 {
      var last: nat := n - 1;
      var a: seq<nat> := Range(last);
      RangeCount(last, v);
      assert Range(n) == a + [last];
      MultisetAppend(a, [last]);
      assert multiset(Range(n))[v] == multiset(a)[v] + (if v == last then 1 else 0);
    }
  }

  lemma MultisetAppend<T>(a: seq<T>, b: seq<T>)
    ensures multiset(a + b) == multiset(a) + multiset(b)
  {
  }

  /** Every stub is a node label below `n`. */
  lemma {:induction false} StubsBelow(n: nat, d: nat)
    ensures forall i :: 0 <= i < |Stubs(n, d)| ==> Stubs(n, d)[i] < n
  {
    if d > 0 {
      StubsBelow(n, d - 1);
      var a, b := Stubs(n, d - 1), Range(n);
      assert Stubs(n, d) == a + b;
      forall i | 0 <= i < |a + b| ensures (a + b)[i] < n {
        if i >= |a| { assert (a + b)[i] == b[i - |a|]; }
      }
    }
  }

  /** There are `n * d` stubs. */
  lemma {:induction false} StubsLength(n: nat, d: nat)
    ensures |Stubs(n, d)| == n * d
  {
    if d > 0 {
      StubsLength(n, d - 1);
      assert n * (d - 1) + n == n * d;
    }
  }

  /** Each label below `n` occurs `d` times among the stubs, and nothing else occurs. */
  lemma {:induction false} StubsCount(n: nat, d: nat, v: nat)
    ensures multiset(Stubs(n, d))[v] == Target(n, d, v)
  {
    if d > 0 {
      var a: seq<nat>, b: seq<nat> := Stubs(n, d - 1), Range(n);
      StubsCount(n, d - 1, v);
      RangeCount(n, v);
      assert Stubs(n, d) == a + b;
      CountAppend(a, b, v);
      assert multiset(Stubs(n, d))[v] == Target(n, d - 1, v) + (if v < n then 1 else 0);
    }
  }

  lemma CountAppend<T>(a: seq<T>, b: seq<T>, v: T)
    ensures multiset(a + b)[v] == multiset(a)[v] + multiset(b)[v]
  {
    MultisetAppend(a, b);
  }

  /** `stubs.shuffle(rng)`: the in-place Fisher-Yates pass, with each swap index chosen freely. */
  method Shuffle(stubs: seq<nat>) returns (r: seq<nat>)
    ensures |r| == |stubs| && multiset(r) == multiset(stubs)
  {
    r := stubs;
    var i := |r|;
    while i > 1
      invariant 0 <= i <= |r| == |stubs| && multiset(r) == multiset(stubs)
    {
      i := i - 1;
      var j :| 0 <= j <= i;
      r := r[i := r[j]][j := r[i]];
    }
  }

  function Count(possible: map<nat, nat>, v: nat): nat
  {
    if v in possible then possible[v] else 0
  }

  /** The stub left unpaired when there is an odd number of them. */
  function Leftover(stubs: seq<nat>): seq<nat>
  {
    stubs[2 * (|stubs| / 2)..]
  }

  lemma DegreeAppend(edges: seq<Edge>, e: Edge, v: nat)
    ensures Degree(edges + [e], v) == Degree(edges, v) + (if e.0 == v || e.1 == v then 1 else 0)
  {
    assert (edges + [e])[..|edges|] == edges;
  }

  /** No stub is lost or invented: edges, pending counts and unread stubs add up to the start. */
  ghost predicate Balanced(edges': seq<Edge>, possible: map<nat, nat>, unread: multiset<nat>,
                           edges: seq<Edge>, stubs: multiset<nat>)
  {
    forall v :: Degree(edges', v) + Count(possible, v) + unread[v] == Degree(edges, v) + stubs[v]
  }

  lemma AcceptKeepsBalance(edges': seq<Edge>, possible: map<nat, nat>, s1: nat, s2: nat, unread: multiset<nat>,
                           edges: seq<Edge>, stubs: multiset<nat>)
    requires s1 != s2 && Balanced(edges', possible, multiset{s1, s2} + unread, edges, stubs)
    ensures Balanced(edges' + [(s1, s2)], possible, unread, edges, stubs)
  {
    forall v ensures Degree(edges' + [(s1, s2)], v) + Count(possible, v) + unread[v] == Degree(edges, v) + stubs[v] {
      DegreeAppend(edges', (s1, s2), v);
    }
  }

  lemma RejectKeepsBalance(edges': seq<Edge>, possible: map<nat, nat>, s1: nat, s2: nat, unread: multiset<nat>,
                           edges: seq<Edge>, stubs: multiset<nat>)
    requires Balanced(edges', possible, multiset{s1, s2} + unread, edges, stubs)
    ensures var p1 := possible[s1 := Count(possible, s1) + 1];
      Balanced(edges', p1[s2 := Count(p1, s2) + 1], unread, edges, stubs)
  {
  }


  /** What holds of the pairing loop's state between two pairs. */
  ghost predicate Pairing(edges': seq<Edge>, possible: map<nat, nat>, pending: multiset<nat>, n: nat)
  {
    && SimpleEdges(edges', n)
    && (forall v :: Count(possible, v) == pending[v])
    && |pending| % 2 == 0
    && (forall v :: v in possible ==> v < n)
  }

  lemma AcceptKeepsPairing(edges: seq<Edge>, possible: map<nat, nat>, pending: multiset<nat>, n: nat, s1: nat, s2: nat)
    requires Pairing(edges, possible, pending, n) && s1 < s2 < n && (s1, s2) !in edges
    ensures Pairing(edges + [(s1, s2)], possible, pending, n)
  {
  }

  lemma RejectKeepsPairing(edges: seq<Edge>, possible: map<nat, nat>, pending: multiset<nat>, n: nat, s1: nat, s2: nat)
    requires Pairing(edges, possible, pending, n) && s1 < n && s2 < n
    ensures var p1 := possible[s1 := Count(possible, s1) + 1];
      Pairing(edges, p1[s2 := Count(p1, s2) + 1], pending + multiset{s1, s2}, n)
  {
  }

  /** One pair of stubs: an edge when they differ and the edge is new, otherwise both pending. */
  method PairStep(a: nat, b: nat, n: nat, edges': seq<Edge>, possible: map<nat, nat>, ghost pending: multiset<nat>,
                  ghost unread: multiset<nat>, ghost edges: seq<Edge>, ghost stubs: multiset<nat>)
    returns (edges'': seq<Edge>, possible': map<nat, nat>, ghost pending': multiset<nat>)
    requires a < n && b < n && Pairing(edges', possible, pending, n)
    requires Balanced(edges', possible, multiset{a, b} + unread, edges, stubs)
    ensures Pairing(edges'', possible', pending', n) && edges' <= edges''
    ensures Balanced(edges'', possible', unread, edges, stubs)
  {
    var s1, s2 := a, b;
    if s1 > s2 {
      s1, s2 := s2, s1;
    }
    assert multiset{a, b} == multiset{s1, s2};
    edges'', possible', pending' := edges', possible, pending;
    if s1 != s2 && (s1, s2) !in edges' {
      AcceptKeepsBalance(edges', possible, s1, s2, unread, edges, stubs);
      AcceptKeepsPairing(edges', possible, pending, n, s1, s2);
      edges'' := edges' + [(s1, s2)];
    } else {
      RejectKeepsBalance(edges', possible, s1, s2, unread, edges, stubs);
      RejectKeepsPairing(edges', possible, pending, n, s1, s2);
      possible' := possible'[s1 := Count(possible', s1) + 1];
      possible' := possible'[s2 := Count(possible', s2) + 1];
      pending' := pending' + multiset{s1, s2};
    }
  }

  lemma TakeTwo(s: seq<nat>, k: nat)
    requires k + 2 <= |s|
    ensures multiset(s[k..]) == multiset{s[k], s[k + 1]} + multiset(s[k + 2..])
  {
    assert s[k..] == [s[k], s[k + 1]] + s[k + 2..];
  }

  /**
   * The `for i in 0..(stubs.len() / 2)` loop of `try_generate`: consecutive
   * stubs become an edge when they differ and the edge is new; otherwise both
   * go back into `possible_edges`. No stub is lost except an odd last one.
   */
  method PairUp(stubs: seq<nat>, edges: seq<Edge>, n: nat)
    returns (edges': seq<Edge>, possible: map<nat, nat>, ghost pending: multiset<nat>)
    requires SimpleEdges(edges, n) && forall i :: 0 <= i < |stubs| ==> stubs[i] < n
    ensures SimpleEdges(edges', n) && edges <= edges'
    ensures Balanced(edges', possible, multiset(Leftover(stubs)), edges, multiset(stubs))
    ensures forall v :: Count(possible, v) == pending[v]
    ensures |pending| % 2 == 0
    ensures forall v :: v in possible ==> v < n
  {
    edges', possible, pending := edges, map[], multiset{};
    var half := |stubs| / 2;
    for i := 0 to half
      invariant Pairing(edges', possible, pending, n) && edges <= edges'
      invariant Balanced(edges', possible, multiset(stubs[2 * i..]), edges, multiset(stubs))
    {
      edges', possible, pending := PairAt(stubs, i, n, edges', possible, pending, edges);
    }
    PairingFacts(edges', possible, pending, n);
  }

  lemma PairingFacts(edges: seq<Edge>, possible: map<nat, nat>, pending: multiset<nat>, n: nat)
    requires Pairing(edges, possible, pending, n)
    ensures SimpleEdges(edges, n) && (forall v :: Count(possible, v) == pending[v])
    ensures |pending| % 2 == 0 && forall v :: v in possible ==> v < n
  {
  }

  /** Iteration `i` of the pairing loop: stubs `2 * i` and `2 * i + 1`. */
  method PairAt(stubs: seq<nat>, i: nat, n: nat, edges': seq<Edge>, possible: map<nat, nat>,
                ghost pending: multiset<nat>, ghost edges: seq<Edge>)
    returns (edges'': seq<Edge>, possible': map<nat, nat>, ghost pending': multiset<nat>)
    requires 2 * i + 2 <= |stubs| && forall j :: 0 <= j < |stubs| ==> stubs[j] < n
    requires Pairing(edges', possible, pending, n) && edges <= edges'
    requires Balanced(edges', possible, multiset(stubs[2 * i..]), edges, multiset(stubs))
    ensures Pairing(edges'', possible', pending', n) && edges <= edges''
    ensures Balanced(edges'', possible', multiset(stubs[2 * (i + 1)..]), edges, multiset(stubs))
  {
    var k := 2 * i;
    assert 2 * (i + 1) == k + 2;
    TakeTwo(stubs, k);
    edges'', possible', pending' := PairStep(stubs[k], stubs[k + 1], n, edges', possible, pending,
                                             multiset(stubs[k + 2..]), edges, multiset(stubs));
  }

  /** The rebuild loop of `try_generate`: each node of `possible_edges` repeated `potential` times. */
  method StubsFrom(possible: map<nat, nat>) returns (stubs: seq<nat>)
    ensures forall v :: multiset(stubs)[v] == Count(possible, v)
    ensures forall i :: 0 <= i < |stubs| ==> stubs[i] in possible
  {
    stubs := [];
    var rest := possible.Keys;
    while rest != {}
      invariant rest <= possible.Keys
      invariant forall v :: multiset(stubs)[v] == if v in possible && v !in rest then possible[v] else 0
      invariant forall i :: 0 <= i < |stubs| ==> stubs[i] in possible
      decreases rest
    {
      var node :| node in rest;
      rest := rest - {node};
      for k := 0 to possible[node]
        invariant forall v :: multiset(stubs)[v] == (if v == node then k else if v in possible && v !in rest then possible[v] else 0)
        invariant forall i :: 0 <= i < |stubs| ==> stubs[i] in possible
      {
        stubs := stubs + [node];
      }
    }
  }

  /**
   * `suitable_graph`: true when nothing is pending, or when two distinct
   * pending nodes are not yet joined by an edge.
   */
  method SuitableGraph(edges: seq<Edge>, possible: map<nat, nat>) returns (ok: bool)
    ensures ok <==> possible == map[] || exists s1, s2 :: s1 in possible && s2 in possible && s1 != s2 && Normalise((s1, s2)) !in edges
  {
    if possible == map[] {
      return true;
    }
    var outer := possible.Keys;
    while outer != {}
      invariant outer <= possible.Keys
      invariant forall s1, s2 :: s1 in possible && s1 !in outer && s2 in possible && s1 != s2 ==> Normalise((s1, s2)) in edges
      decreases outer
    {
      var s1 :| s1 in outer;
      outer := outer - {s1};
      var inner := possible.Keys;
      while inner != {}
        invariant inner <= possible.Keys
        invariant forall s2 :: s2 in possible && s2 !in inner && s1 != s2 ==> Normalise((s1, s2)) in edges
        decreases inner
      {
        var s2 :| s2 in inner;
        inner := inner - {s2};
        if s1 == s2 {
          continue;
        }
        var n1 := if s1 < s2 then s1 else s2;
        var n2 := if s1 < s2 then s2 else s1;
        if (n1, n2) !in edges {
          return true;
        }
      }
    }
    return false;
  }

  /** Every stub of a `d`-regular graph on `0..n` is an edge end, still to be paired, or dropped. */
  ghost predicate Accounted(edges: seq<Edge>, stubs: multiset<nat>, lost: multiset<nat>, n: nat, d: nat)
  {
    forall v :: Degree(edges, v) + stubs[v] + lost[v] == Target(n, d, v)
  }

  /** One round of `try_generate` keeps every stub accounted for. */
  lemma RoundAccounted(edges: seq<Edge>, shuffled: seq<nat>, lost: multiset<nat>, n: nat, d: nat,
                       next: seq<Edge>, possible: map<nat, nat>, pending: multiset<nat>, stubs: seq<nat>)
    requires Accounted(edges, multiset(shuffled), lost, n, d)
    requires Balanced(next, possible, multiset(Leftover(shuffled)), edges, multiset(shuffled))
    requires forall v :: Count(possible, v) == pending[v]
    requires forall v :: multiset(stubs)[v] == Count(possible, v)
    ensures multiset(stubs) == pending
    ensures Accounted(next, multiset(stubs), lost + multiset(Leftover(shuffled)), n, d)
  {
  }

  lemma ShuffledBelow(stubs: seq<nat>, shuffled: seq<nat>, n: nat)
    requires multiset(shuffled) == multiset(stubs) && forall i :: 0 <= i < |stubs| ==> stubs[i] < n
    ensures forall i :: 0 <= i < |shuffled| ==> shuffled[i] < n
  {
    forall i | 0 <= i < |shuffled| ensures shuffled[i] < n {
      assert shuffled[i] in multiset(stubs);
    }
  }

  /** The outcome of one `try_generate` call; `Exhausted` means the round budget ran out first. */
  datatype Attempt = Built(edges: seq<Edge>) | Stuck | Exhausted

  /**
   * `try_generate(n, d)`, with at most `fuel` rounds. Accepted edges are
   * simple; no node exceeds degree `d`, and when `n * d` is even a built
   * graph is exactly `d`-regular on `0..n`.
   */
  method TryGenerate(n: nat, d: nat, fuel: nat) returns (r: Attempt)
    ensures r.Built? ==> SimpleEdges(r.edges, n)
    ensures r.Built? ==> forall v :: Degree(r.edges, v) <= Target(n, d, v)
    ensures r.Built? && (n * d) % 2 == 0 ==> forall v :: Degree(r.edges, v) == Target(n, d, v)
  {
    var edges: seq<Edge> := [];
    var stubs: seq<nat> := Stubs(n, d);
    forall v: nat ensures multiset(stubs)[v] == Target(n, d, v) { StubsCount(n, d, v); }
    StubsLength(n, d);
    StubsBelow(n, d);
    ghost var lost: multiset<nat> := multiset{};
    var rounds := fuel;
    while stubs != []
      invariant SimpleEdges(edges, n)
      invariant forall i :: 0 <= i < |stubs| ==> stubs[i] < n
      invariant Accounted(edges, multiset(stubs), lost, n, d)
      invariant (n * d) % 2 == 0 ==> |stubs| % 2 == 0 && lost == multiset{}
      decreases rounds
    {
      if rounds == 0 {
        return Exhausted;
      }
      rounds := rounds - 1;
      var shuffled := Shuffle(stubs);
      ShuffledBelow(stubs, shuffled, n);
      var next, possible, pending := PairUp(shuffled, edges, n);
      var ok := SuitableGraph(next, possible);
      if !ok {
        return Stuck;
      }
      var stubs' := StubsFrom(possible);
      RoundAccounted(edges, shuffled, lost, n, d, next, possible, pending, stubs');
      lost := lost + multiset(Leftover(shuffled));
      edges, stubs := next, stubs';
    }
    return Built(edges);
  }

  predicate Distinct(xs: seq<nat>)
  {
    forall i, j :: 0 <= i < j < |xs| ==> xs[i] != xs[j]
  }

  /** `(0..n).choose_multiple(rng, amount)`: reservoir sampling, each slot index chosen freely. */
  method ChooseMultiple(n: nat, amount: nat) returns (r: seq<nat>)
    ensures |r| == Min(amount, n)
    ensures Distinct(r)
    ensures forall i :: 0 <= i < |r| ==> r[i] < n
  {
    r := [];
    var i := 0;
    while i < n && |r| < amount
      invariant i <= n && |r| == i <= amount
      invariant forall k :: 0 <= k < |r| ==> r[k] == k
    {
      r := r + [i];
      i := i + 1;
    }
    if |r| == amount {
      while i < n
        invariant i <= n && |r| == amount
        invariant Distinct(r)
        invariant forall k :: 0 <= k < |r| ==> r[k] < i
      {
        var k :| 0 <= k < i + 1;
        if k < amount {
          r := r[k := i];
        }
        i := i + 1;
      }
    }
  }

  // ---------------------------------------------------------------- the object

  /** The two `assert!` panics of `generate` (topology.rs:23-24). */
  datatype GenerateFault = ZeroConnectivity | ConnectivityNotBelowTotal

  class Topology {
    var n: nat
    var c: nat
    var edges: seq<Edge>
    var faulty: seq<nat>

    /** `Topology::default`. */
    constructor Default()
      ensures n == 0 && c == 0 && edges == [] && faulty == []
    {
      n, c, edges, faulty := 0, 0, [], [];
    }

    /** The struct literal `parse` returns. */
    constructor (n: nat, c: nat, edges: seq<Edge>, faulty: seq<nat>)
      ensures this.n == n && this.c == c && this.edges == edges && this.faulty == faulty
    {
      this.n, this.c, this.edges, this.faulty := n, c, edges, faulty;
    }

    /** The string `write` builds before storing it. */
    method Write() returns (text: string)
      ensures text == EdgeListText(edges)
    {
      text := "";
      for i := 0 to |edges|
        invariant text == EdgeListText(edges[..i])
      {
        var (n1, n2) := edges[i];
        text := text + (Decimal(n1) + " " + Decimal(n2) + "\n");
        assert Decimal(n1) + " " + Decimal(n2) + "\n" == EdgeLine(edges[i]);
        assert edges[..i + 1][..i] == edges[..i];
      }
      assert edges[..|edges|] == edges;
    }

    /**
     * `generate(n, c, f)`. The two `assert!`s panic when `c` is 0 or not below
     * `n`; the model returns that panic as an error and changes nothing. An odd
     * `n * c` changes nothing. Otherwise `n` and
     * `c` are stored first; up to 25000 attempts follow, and running out of
     * them leaves `edges` and `faulty` as they were. Success stores a simple
     * `c`-regular edge list on `0..n` whose `connectivity` is `c`, and
     * `min(f, n)` distinct faulty labels.
     */
    method Generate(n': nat, c': nat, f: nat, fuel: nat) returns (r: Result<bool, GenerateFault>)
      modifies this
      ensures r == Err(ZeroConnectivity) <==> c' == 0
      ensures r == Err(ConnectivityNotBelowTotal) <==> c' > 0 && n' <= c'
      ensures r.Err? ==> n == old(n) && c == old(c) && edges == old(edges) && faulty == old(faulty)
      ensures r.Ok? && (n' * c') % 2 == 1 ==> !r.value && n == old(n) && c == old(c)
      ensures r.Ok? && (n' * c') % 2 == 0 ==> n == n' && c == c'
      ensures r == Ok(false) ==> edges == old(edges) && faulty == old(faulty)
      ensures r == Ok(true) ==> SimpleEdges(edges, n') && forall v: nat :: v < n' ==> Degree(edges, v) == c'
      ensures r == Ok(true) ==> exists flows :: IsConnectivity(edges, n', flows, c')
      ensures r == Ok(true) ==> |faulty| == Min(f, n') && Distinct(faulty) && forall i :: 0 <= i < |faulty| ==> faulty[i] < n'
    {
      if c' == 0 {
        return Err(ZeroConnectivity);
      }
      if n' <= c' {
        return Err(ConnectivityNotBelowTotal);
      }
      if (n' * c') % 2 == 1 {
        return Ok(false);
      }
      n := n';
      c := c';
      var attempt := 0;
      var found: seq<Edge>;
      while true
        invariant attempt <= MAX_ATTEMPTS
        invariant edges == old(edges) && faulty == old(faulty) && n == n' && c == c'
        decreases MAX_ATTEMPTS - attempt
      {
        attempt := attempt + 1;
        if attempt > MAX_ATTEMPTS {
          return Ok(false);
        }
        var r := TryGenerate(n', c', fuel);
        if !r.Built? {
          continue;
        }
        var k, flows := Connectivity(r.edges, n');
        if k != c' {
          continue;
        }
        found := r.edges;
        break;
      }
      edges := found;
      faulty := ChooseMultiple(n', f);
      return Ok(true);
    }
  }

  /**
   * `Topology::parse(path, f)` on the file's content: a panic at the first
   * bad line, `None` when the connectivity is at most `f`, otherwise a new
   * topology with `n` the number of distinct labels.
   */
  method Parse(content: string, f: nat) returns (r: Result<Option<Topology>, (nat, LineFault)>)
    ensures r.Err? <==> ReadEdges(RustLines(content)).Err?
    ensures r.Err? ==> r.error == ReadEdges(RustLines(content)).error
    ensures r.Ok? && r.value.None? ==> var es := ReadEdges(RustLines(content)).value;
      exists k: nat, flows :: IsConnectivity(es, |Labels(es)|, flows, k) && k <= f
    ensures r.Ok? && r.value.Some? ==> var t := r.value.value;
      && fresh(t)
      && t.edges == ReadEdges(RustLines(content)).value
      && t.n == |Labels(t.edges)|
      && f < t.c && (exists flows :: IsConnectivity(t.edges, t.n, flows, t.c))
      && |t.faulty| == Min(f, t.n) && Distinct(t.faulty)
      && (forall i :: 0 <= i < |t.faulty| ==> t.faulty[i] < t.n)
  {
    var parsed := ParseEdges(content);
    if parsed.Err? {
      return Err(parsed.error);
    }
    var (edges, uniques) := parsed.value;
    var n := |uniques|;
    var c, flows := Connectivity(edges, n);
    if c <= f {
      return Ok(None);
    }
    var faulty := ChooseMultiple(n, f);
    var t := new Topology(n, c, edges, faulty);
    return Ok(Some(t));
  }
}
