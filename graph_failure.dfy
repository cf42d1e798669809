/**
 * `scripts/graph_failure.py`: reads the failure lines `dissyssym/src/failure.rs`
 * writes and splits them into two scatter series: the `(n, f)` of the lines
 * whose algorithm field is `"f"` (the fast search) and of all others (the
 * path search).
 */
module GraphFailure {
  import opened Wrappers
  import opened Text
  import opened Python
  import opened Template

  /** `"n: {:d}, f: {:d}, c: {:d}, a: {}"` */
  const TEMPLATE: seq<Piece> := Fields(["n: ", ", f: ", ", c: "], [Lit(", a: "), Any])

  /** Integer field `k` of a parsed line. */
  function Field(row: seq<Value>, k: nat): int
  {
    if k < |row| && row[k].IntV? then row[k].i else 0
  }

  /** The algorithm field `a`, the fourth of a parsed line. */
  function Algorithm(row: seq<Value>): string
  {
    if 3 < |row| && row[3].StrV? then row[3].s else ""
  }

  /** The four lists the script fills: `fast_x`, `fast_y`, `path_x`, `path_y`. */
  datatype Scatter = Scatter(fastX: seq<int>, fastY: seq<int>, pathX: seq<int>, pathY: seq<int>)

  /** The lists after the parsed lines `rows`, one append to a pair per line (lines 19-24). */
  function Partition(rows: seq<seq<Value>>): Scatter
    decreases |rows|
  {
    if rows == [] then Scatter([], [], [], [])
    else
      var p := Partition(rows[..|rows| - 1]);
      var row := rows[|rows| - 1];
      if Algorithm(row) == "f" then Scatter(p.fastX + [Field(row, 0)], p.fastY + [Field(row, 1)], p.pathX, p.pathY)
      else Scatter(p.fastX, p.fastY, p.pathX + [Field(row, 0)], p.pathY + [Field(row, 1)])
  }

  /**
   * The script on the file's text: the four lists, or the index of the first
   * line whose unpacking at line 17 fails.
   */
  method Run(content: string) returns (r: Result<Scatter, nat>)
    ensures var m := MatchAll(TEMPLATE, ChompedLines(content));
      (r.Err? <==> m.Err?) && (r.Err? ==> r.error == m.error) && (r.Ok? ==> r.value == Partition(m.value))
  {
    var lines := FileLines(content);
    ghost var chomped := ChompedLines(content);
    var fastX, fastY, pathX, pathY := [], [], [], [];
    ghost var rows: seq<seq<Value>> := [];
    for i := 0 to |lines|
      invariant |rows| == i
      invariant forall k :: 0 <= k < i ==> Match(TEMPLATE, chomped[k]) == Some(rows[k])
      invariant Scatter(fastX, fastY, pathX, pathY) == Partition(rows)
    {
      var parsed := Match(TEMPLATE, RemoveChar(lines[i], '\n'));
      if parsed.None? {
        MatchAllStops(TEMPLATE, chomped, i);
        return Err(i);
      }
      var row := parsed.value;
      if Algorithm(row) == "f" {
        fastX := fastX + [Field(row, 0)];
        fastY := fastY + [Field(row, 1)];
      } else {
        pathX := pathX + [Field(row, 0)];
        pathY := pathY + [Field(row, 1)];
      }
      assert (rows + [row])[..|rows|] == rows;
      rows := rows + [row];
    }
    MatchAllRows(TEMPLATE, chomped, rows);
    r := Ok(Scatter(fastX, fastY, pathX, pathY));
  }

  // ---------------------------------------------------------------- properties of the split

  /** The lines whose algorithm field is, or is not, exactly `"f"`, in file order. */
  function Only(rows: seq<seq<Value>>, fast: bool): (r: seq<seq<Value>>)
    decreases |rows|
  {
    if rows == [] then []
    else Only(rows[..|rows| - 1], fast) + (if (Algorithm(rows[|rows| - 1]) == "f") == fast then [rows[|rows| - 1]] else [])
  }

  function Ns(rows: seq<seq<Value>>): seq<int>
  {
    seq(|rows|, i requires 0 <= i < |rows| => Field(rows[i], 0))
  }

  function Fs(rows: seq<seq<Value>>): seq<int>
  {
    seq(|rows|, i requires 0 <= i < |rows| => Field(rows[i], 1))
  }

  /**
   * x holds `n` and y holds `f` of the lines in file order; the fast lists get
   * exactly the lines whose field is `"f"`, the path lists every other line.
   */
  lemma {:induction false} PartitionSplits(rows: seq<seq<Value>>)
    ensures Partition(rows) == Scatter(Ns(Only(rows, true)), Fs(Only(rows, true)), Ns(Only(rows, false)), Fs(Only(rows, false)))
    decreases |rows|
  {
    if rows != [] {
      var init, row := rows[..|rows| - 1], rows[|rows| - 1];
      PartitionSplits(init);
      var fast := Algorithm(row) == "f";
      var ft, pt := Only(init, true), Only(init, false);
      if fast {
        assert Only(rows, true) == ft + [row] && Only(rows, false) == pt;
        assert Ns(ft + [row]) == Ns(ft) + [Field(row, 0)];
        assert Fs(ft + [row]) == Fs(ft) + [Field(row, 1)];
      } else {
        assert Only(rows, false) == pt + [row] && Only(rows, true) == ft;
        assert Ns(pt + [row]) == Ns(pt) + [Field(row, 0)];
        assert Fs(pt + [row]) == Fs(pt) + [Field(row, 1)];
      }
    }
  }

  /** `fast_x`/`fast_y` and `path_x`/`path_y` stay equal in length, one entry per line in all. */
  lemma {:induction false} PartitionSizes(rows: seq<seq<Value>>)
    ensures var p := Partition(rows);
      |p.fastX| == |p.fastY| && |p.pathX| == |p.pathY| && |p.fastX| + |p.pathX| == |rows|
    decreases |rows|
  {
    if rows != [] {
      PartitionSizes(rows[..|rows| - 1]);
    }
  }

  // ---------------------------------------------------------------- the writer

  /** One failed run of `failure.rs`: the topology's sizes and the algorithm that failed. */
  datatype Failure = Failure(n: nat, f: nat, c: nat, fast: bool)

  function Ints(x: Failure): seq<int>
  {
    [x.n, x.f, x.c]
  }

  /** The algorithm field written for a failure: `p` for the path search, `f` for the fast one. */
  function Tag(x: Failure): string
  {
    if x.fast then "f" else "p"
  }

  function Values(x: Failure): seq<Value>
  {
    IntValues(Ints(x)) + [StrV(Tag(x))]
  }

  /** The literal parts of `"n: {}, f: {}, c: {}, a: p\n"` before each `{}`. */
  const FORMAT: seq<string> := ["n: ", ", f: ", ", c: "]

  /** `format!` of one failure (failure.rs:54-58 when the path search failed, 66-70 for the fast one). */
  function FailureLine(x: Failure): string
  {
    Written(FORMAT, Ints(x)) + ", a: " + Tag(x) + "\n"
  }

  lemma FormatLiterals()
    ensures TEMPLATE == Fields(FORMAT, [Lit(", a: "), Any])
    ensures forall i :: 0 <= i < |FORMAT| ==> '\n' !in FORMAT[i] && '\r' !in FORMAT[i]
    ensures LitsAvoid([Lit(", a: "), Any], '\n') && LitsAvoid([Lit(", a: "), Any], '\r')
  {
  }

  lemma FailureRender(x: Failure)
    ensures Conforms(TEMPLATE, Values(x))
    ensures FailureLine(x) == Render(TEMPLATE, Values(x)) + "\n"
  {
    var tail := [Lit(", a: "), Any];
    var tvs := [StrV(Tag(x))];
    TailRender(Tag(x));
    FormatLiterals();
    FieldsRender(FORMAT, tail, Ints(x), tvs);
    Regroup(Written(FORMAT, Ints(x)), ", a: ", Tag(x), "\n");
  }

  /** The tail `, a: {}` filled with the algorithm tag. */
  lemma TailRender(tag: string)
    requires |tag| > 0
    ensures Conforms([Lit(", a: "), Any], [StrV(tag)])
    ensures Render([Lit(", a: "), Any], [StrV(tag)]) == ", a: " + tag
  {
    var tail := [Lit(", a: "), Any];
    assert tail[1..] == [Any] && tail[1..][1..] == [];
    assert [StrV(tag)][1..] == [];
  }

  lemma Regroup(w: string, a: string, t: string, nl: string)
    ensures w + a + t + nl == w + (a + t) + nl
  {
  }

  lemma FailurePlain(x: Failure)
    ensures Conforms(TEMPLATE, Values(x))
    ensures '\n' !in Render(TEMPLATE, Values(x)) && '\r' !in Render(TEMPLATE, Values(x))
  {
    FailureRender(x);
    FormatLiterals();
    var tail := [Lit(", a: "), Any];
    FieldsAvoid(FORMAT, tail, '\n');
    FieldsAvoid(FORMAT, tail, '\r');
    var vs := Values(x);
    assert forall i :: 0 <= i < |vs| && vs[i].StrV? ==> i == 3;
    RenderAvoids(TEMPLATE, vs, '\n');
    RenderAvoids(TEMPLATE, vs, '\r');
  }

  lemma TemplateSeparated()
    ensures Separated(TEMPLATE)
  {
    FormatLiterals();
    FieldsSeparated(FORMAT, [Lit(", a: "), Any]);
  }

  /** Round trip: a written line, its newline removed, parses back to `(n, f, c, "p")` or `(n, f, c, "f")`. */
  lemma FailureRoundTrip(x: Failure)
    ensures Match(TEMPLATE, RemoveChar(FailureLine(x), '\n')) == Some(Values(x))
  {
    FailureRender(x);
    FailurePlain(x);
    RemoveLast(Render(TEMPLATE, Values(x)), '\n');
    TemplateSeparated();
    RenderMatches(TEMPLATE, Values(x));
  }

  /** The values of the failures `xs`, one row per failure. */
  function Rows(xs: seq<Failure>): (r: seq<seq<Value>>)
    ensures |r| == |xs| && forall i :: 0 <= i < |xs| ==> r[i] == Values(xs[i])
  {
    seq(|xs|, i requires 0 <= i < |xs| => Values(xs[i]))
  }

  /** The lines `failure.rs` writes for the failures `xs`. */
  function Lines(xs: seq<Failure>): (r: seq<string>)
    ensures |r| == |xs| && forall i :: 0 <= i < |xs| ==> r[i] == FailureLine(xs[i])
  {
    seq(|xs|, i requires 0 <= i < |xs| => FailureLine(xs[i]))
  }

  /**
   * A file of written failures is read back as their values, and the script
   * puts exactly the failures of the fast search in the fast lists.
   */
  lemma FailuresRoundTrip(xs: seq<Failure>)
    ensures MatchAll(TEMPLATE, ChompedLines(Concat(Lines(xs)))) == Ok(Rows(xs))
    ensures forall i :: 0 <= i < |xs| ==> (Algorithm(Rows(xs)[i]) == "f" <==> xs[i].fast)
  {
    RowsConform(xs);
    RowsWritten(xs);
    TemplateSeparated();
    FileRoundTrip(TEMPLATE, Rows(xs));
  }

  lemma RowsConform(xs: seq<Failure>)
    ensures forall i :: 0 <= i < |xs| ==>
      Conforms(TEMPLATE, Rows(xs)[i]) && '\n' !in Render(TEMPLATE, Rows(xs)[i]) && '\r' !in Render(TEMPLATE, Rows(xs)[i])
    ensures forall i :: 0 <= i < |xs| ==> (Algorithm(Rows(xs)[i]) == "f" <==> xs[i].fast)
  {
    forall i | 0 <= i < |xs|
      ensures Conforms(TEMPLATE, Rows(xs)[i]) && '\n' !in Render(TEMPLATE, Rows(xs)[i]) && '\r' !in Render(TEMPLATE, Rows(xs)[i])
      ensures Algorithm(Rows(xs)[i]) == "f" <==> xs[i].fast
    {
      FailureFacts(xs[i]);
    }
  }

  lemma RowsWritten(xs: seq<Failure>)
    requires forall i :: 0 <= i < |xs| ==> Conforms(TEMPLATE, Rows(xs)[i])
    ensures WrittenLines(TEMPLATE, Rows(xs)) == Lines(xs)
  {
    var written := WrittenLines(TEMPLATE, Rows(xs));
    forall i | 0 <= i < |xs| ensures written[i] == Lines(xs)[i] {
      FailureFacts(xs[i]);
    }
  }

  /** What one written failure contributes to the file and to the split. */
  lemma FailureFacts(x: Failure)
    ensures Conforms(TEMPLATE, Values(x)) && '\n' !in Render(TEMPLATE, Values(x)) && '\r' !in Render(TEMPLATE, Values(x))
    ensures FailureLine(x) == Render(TEMPLATE, Values(x)) + "\n"
    ensures Algorithm(Values(x)) == "f" <==> x.fast
  {
    FailureRender(x);
    FailurePlain(x);
    assert Values(x)[3] == StrV(Tag(x));
  }

  /** A blank line does not match, so the unpacking fails on it. */
  lemma BlankLineFails()
    ensures Match(TEMPLATE, "").None?
  {
    assert TEMPLATE[0] == Lit("n: ");
  }
}
