/**
 * `scripts/vis_topology.py`, lines 7-13: reads an edge-list file line by line
 * and turns each line into the edge `[int(items[0]), int(items[1])]`, where
 * `items` is the line split on single spaces. Drawing the graph and its node
 * connectivity (networkx) are not part of this model.
 */
module VisTopology {
  import opened Wrappers
  import opened Text
  import opened Python
  import opened Flow
  import Topology

  /** The exceptions line 13 can raise. */
  datatype Fault = ValueError | IndexError

  /**
   * Line 13 on one line, evaluated left to right: `int(items[0])` first, then
   * the index `items[1]`, then `int` of it.
   */
  function ParseLine(line: string): Result<(int, int), Fault>
  {
    var items := Split(line, " ");
    match PyInt(items[0])
    case None => Err(ValueError)
    case Some(a) =>
      if |items| < 2 then Err(IndexError)
      else
        match PyInt(items[1])
        case None => Err(ValueError)
        case Some(b) => Ok((a, b))
  }

  /**
   * The loop of lines 11-13: one edge per line in file order, or the first
   * line that raises and the exception it raises.
   */
  method Run(content: string) returns (r: Result<seq<(int, int)>, (nat, Fault)>)
    ensures var lines := FileLines(content);
      (r.Ok? ==> |r.value| == |lines| && forall i :: 0 <= i < |lines| ==> ParseLine(lines[i]) == Ok(r.value[i]))
      && (r.Err? ==> r.error.0 < |lines| && ParseLine(lines[r.error.0]) == Err(r.error.1)
                     && forall i :: 0 <= i < r.error.0 ==> ParseLine(lines[i]).Ok?)
  {
    var lines := FileLines(content);
    var edges: seq<(int, int)> := [];
    for i := 0 to |lines|
      invariant |edges| == i
      invariant forall k :: 0 <= k < i ==> ParseLine(lines[k]) == Ok(edges[k])
    {
      var items := Split(lines[i], " ");
      ParseTokens(lines[i], items);
      var a := PyInt(items[0]);
      if a.None? {
        return Err((i, ValueError));
      }
      if |items| < 2 {
        return Err((i, IndexError));
      }
      var b := PyInt(items[1]);
      if b.None? {
        return Err((i, ValueError));
      }
      SnocParsed(lines, edges, i, (a.value, b.value));
      edges := edges + [(a.value, b.value)];
    }
    r := Ok(edges);
  }

  lemma SnocParsed(lines: seq<string>, edges: seq<(int, int)>, i: nat, e: (int, int))
    requires i < |lines| && |edges| == i && ParseLine(lines[i]) == Ok(e)
    requires forall k :: 0 <= k < i ==> ParseLine(lines[k]) == Ok(edges[k])
    ensures forall k :: 0 <= k < i + 1 ==> ParseLine(lines[k]) == Ok((edges + [e])[k])
  {
    forall k | 0 <= k < i + 1 ensures ParseLine(lines[k]) == Ok((edges + [e])[k]) {
      if k < i { assert (edges + [e])[k] == edges[k]; }
    }
  }

  // ---------------------------------------------------------------- properties of one line

  lemma DecimalPlain(v: nat)
    ensures ' ' !in Decimal(v) && '\n' !in Decimal(v) && '\r' !in Decimal(v) && |Decimal(v)| > 0
  {
    var d := Decimal(v);
    assert forall i :: 0 <= i < |d| ==> IsDigit(d[i]);
  }

  /** What `ParseLine` does with the tokens the split gives. */
  lemma {:induction false} ParseTokens(line: string, items: seq<string>)
    requires Split(line, " ") == items
    ensures PyInt(items[0]).None? ==> ParseLine(line) == Err(ValueError)
    ensures PyInt(items[0]).Some? && |items| < 2 ==> ParseLine(line) == Err(IndexError)
    ensures PyInt(items[0]).Some? && |items| >= 2 && PyInt(items[1]).None? ==> ParseLine(line) == Err(ValueError)
    ensures PyInt(items[0]).Some? && |items| >= 2 && PyInt(items[1]).Some? ==> ParseLine(line) == Ok((PyInt(items[0]).value, PyInt(items[1]).value))
  {
  }

  lemma Regroup(x: string, y: string, rest: string)
    ensures x + " " + y + " " + rest == x + " " + (y + " " + rest)
  {
  }

  lemma {:induction false} FirstTwo(x: string, y: string, rest: string)
    requires ' ' !in x && ' ' !in y
    ensures var items := Split(x + " " + y + " " + rest, " ");
      |items| >= 2 && items[0] == x && items[1] == y
  {
    Regroup(x, y, rest);
    SplitFirst(x, " ", y + " " + rest);
    SplitFirst(y, " ", rest);
  }

  /** Tokens after the second are ignored. */
  lemma {:induction false} ExtraTokensIgnored(a: nat, b: nat, rest: string)
    ensures ParseLine(Decimal(a) + " " + Decimal(b) + " " + rest) == Ok((a, b))
  {
    var x, y := Decimal(a), Decimal(b);
    var line := x + " " + y + " " + rest;
    DecimalPlain(a);
    DecimalPlain(b);
    FirstTwo(x, y, rest);
    var items := Split(line, " ");
    PyIntOf(a);
    PyIntOf(b);
    ParseTokens(line, items);
  }

  /** `int` tolerates the newline the line still ends with. */
  lemma LineParses(a: nat, b: nat)
    ensures ParseLine(Decimal(a) + " " + Decimal(b) + "\n") == Ok((a, b))
  {
    var x, y := Decimal(a), Decimal(b);
    var line := x + " " + y + "\n";
    DecimalPlain(a);
    DecimalPlain(b);
    SplitFirst(x, " ", y + "\n");
    SplitWhole(y + "\n", " ");
    assert line == x + " " + (y + "\n");
    var items := Split(line, " ");
    assert items == [x, y + "\n"];
    PyIntOf(a);
    PyIntDecimal(b, "\n");
    ParseTokens(line, items);
  }

  /** A blank line, with or without its newline, raises `ValueError` at the first `int`. */
  lemma BlankLineFails()
    ensures ParseLine("") == Err(ValueError) && ParseLine("\n") == Err(ValueError)
  {
    PyIntCases();
    SplitWhole("", " ");
    SplitWhole("\n", " ");
    ParseTokens("", [""]);
    ParseTokens("\n", ["\n"]);
  }

  /** A line holding a single number raises `IndexError`, with or without its newline. */
  lemma SingleTokenFails(a: nat)
    ensures ParseLine(Decimal(a)) == Err(IndexError) && ParseLine(Decimal(a) + "\n") == Err(IndexError)
  {
    DecimalPlain(a);
    var d := Decimal(a);
    SplitWhole(d, " ");
    SplitWhole(d + "\n", " ");
    PyIntOf(a);
    PyIntDecimal(a, "\n");
    ParseTokens(d, [d]);
    ParseTokens(d + "\n", [d + "\n"]);
  }

  lemma RegroupSpaces(x: string, y: string)
    ensures x + "  " + y == x + " " + (" " + y) && "" + " " + y == " " + y
  {
    assert " " + " " == "  ";
  }

  lemma {:induction false} EmptySecond(x: string, y: string)
    requires ' ' !in x
    ensures var items := Split(x + "  " + y, " ");
      |items| >= 2 && items[0] == x && items[1] == ""
  {
    RegroupSpaces(x, y);
    SplitFirst(x, " ", " " + y);
    SplitFirst("", " ", y);
  }

  /** Two spaces in a row leave an empty second token, which `int` refuses. */
  lemma DoubleSpaceFails(a: nat, b: nat)
    ensures ParseLine(Decimal(a) + "  " + Decimal(b)) == Err(ValueError)
  {
    var line := Decimal(a) + "  " + Decimal(b);
    DecimalPlain(a);
    EmptySecond(Decimal(a), Decimal(b));
    PyIntCases();
    PyIntOf(a);
    ParseTokens(line, Split(line, " "));
  }

  // ---------------------------------------------------------------- the file `topology.rs` writes

  lemma {:induction false} EdgeListConcat(edges: seq<Edge>)
    ensures Topology.EdgeListText(edges) == Concat(seq(|edges|, i requires 0 <= i < |edges| => Topology.EdgeLine(edges[i])))
    decreases |edges|
  {
    var lines := seq(|edges|, i requires 0 <= i < |edges| => Topology.EdgeLine(edges[i]));
    if edges != [] {
      var init := edges[..|edges| - 1];
      EdgeListConcat(init);
      assert lines == seq(|init|, i requires 0 <= i < |init| => Topology.EdgeLine(init[i])) + [Topology.EdgeLine(edges[|edges| - 1])];
      ConcatSnoc(seq(|init|, i requires 0 <= i < |init| => Topology.EdgeLine(init[i])), Topology.EdgeLine(edges[|edges| - 1]));
    }
  }

  /**
   * Round trip with `Topology::write` (topology.rs:61-70): every line of the file
   * it writes parses back to the edge written there, so `Run` returns exactly
   * the edges, in order.
   */
  lemma ReadsWritten(edges: seq<Edge>)
    ensures var lines := FileLines(Topology.EdgeListText(edges));
      |lines| == |edges| && forall i :: 0 <= i < |edges| ==> ParseLine(lines[i]) == Ok((edges[i].0 as int, edges[i].1 as int))
  {
    var lines := seq(|edges|, i requires 0 <= i < |edges| => Topology.EdgeLine(edges[i]));
    forall i | 0 <= i < |edges| ensures IsClosedLine(lines[i]) && '\r' !in lines[i] {
      DecimalPlain(edges[i].0);
      DecimalPlain(edges[i].1);
      Topology.EdgeLineSplits(edges[i]);
      assert lines[i][..|lines[i]| - 1] == Topology.EdgeBody(edges[i]);
    }
    EdgeListConcat(edges);
    ConcatPlain(lines);
    UniversalPlain(Concat(lines));
    ReadLinesOf(lines);
    forall i | 0 <= i < |edges| ensures ParseLine(lines[i]) == Ok((edges[i].0 as int, edges[i].1 as int)) {
      LineParses(edges[i].0, edges[i].1);
    }
  }
}
