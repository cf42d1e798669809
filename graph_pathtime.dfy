/**
 * `scripts/graph_pathtime.py`: the same grouping and plotting as
 * `graph_messages.py`, over the timing lines `dissyssym/src/pathtime.rs`
 * writes: per `f` and `n`, the mean time of the fast search and of the path
 * search.
 */
module GraphPathtime {
  import opened Wrappers
  import opened Text
  import opened Python
  import opened Template
  import opened Aggregate

  /** `"[n: {:d}, f: {:d}, c: {:d}] p {:d} | f {:d}"`: each literal followed by a `{:d}`. */
  const TEMPLATE: seq<Piece> := Fields(["[n: ", ", f: ", ", c: ", "] p ", " | f "], [])

  /** Field `k` of a parsed line (every field of this template is an integer). */
  function Field(row: seq<Value>, k: nat): int
  {
    if k < |row| && row[k].IntV? then row[k].i else 0
  }

  /** What line 21 appends: `fr` under `f` and `n`. */
  function FastSample(row: seq<Value>): Sample
  {
    Sample(Field(row, 1), Field(row, 0), Field(row, 4))
  }

  /** What line 27 appends: `pr` under `f` and `n`. */
  function PathSample(row: seq<Value>): Sample
  {
    Sample(Field(row, 1), Field(row, 0), Field(row, 3))
  }

  /** The script: the fast series and the path series, or the first line that fails. */
  method Run(content: string) returns (r: Result<(seq<Series>, seq<Series>), nat>)
    ensures var m := MatchAll(TEMPLATE, ChompedLines(content));
      (r.Err? <==> m.Err?) && (r.Err? ==> r.error == m.error)
      && (r.Ok? ==>
            Plots(r.value.0, Group(Samples(m.value, FastSample)), Seen(Samples(m.value, FastSample)))
            && Plots(r.value.1, Group(Samples(m.value, PathSample)), Seen(Samples(m.value, PathSample))))
  {
    r := Script(TEMPLATE, FastSample, PathSample, content);
  }

  /**
   * `fast_results` and `path_results` end with the same outer keys in the
   * same order, the same inner keys and lists of equal length, and no list is empty.
   */
  lemma FastPathShape(rows: seq<seq<Value>>)
    ensures var a, b := Group(Samples(rows, FastSample)), Group(Samples(rows, PathSample));
      a.Keys == b.Keys && Seen(Samples(rows, FastSample)) == Seen(Samples(rows, PathSample))
      && (forall f :: f in a ==> a[f].Keys == b[f].Keys)
      && (forall f, n :: f in a && n in a[f] ==> 0 < |a[f][n]| == |b[f][n]|)
  {
    SameShape(rows, FastSample, PathSample);
  }

  // ---------------------------------------------------------------- the writer

  /** One measurement of `pathtime.rs`: the sizes and the two timings in milliseconds. */
  datatype Timing = Timing(n: nat, f: nat, c: nat, path: nat, fast: nat)

  function Ints(t: Timing): seq<int>
  {
    [t.n, t.f, t.c, t.path, t.fast]
  }

  /** The literal parts of `"[n: {}, f: {}, c: {}] p {} | f {}\n"` before each `{}`. */
  const FORMAT: seq<string> := ["[n: ", ", f: ", ", c: ", "] p ", " | f "]

  /** `format!` of one measurement (pathtime.rs:53-59). */
  function TimingLine(t: Timing): string
  {
    Written(FORMAT, Ints(t)) + "\n"
  }

  /** The writer's literals are the template's, and hold no line break. */
  lemma FormatLiterals()
    ensures TEMPLATE == Fields(FORMAT, [])
    ensures forall i :: 0 <= i < |FORMAT| ==> '\n' !in FORMAT[i] && '\r' !in FORMAT[i]
  {
  }

  lemma TimingRender(t: Timing)
    ensures Conforms(TEMPLATE, IntValues(Ints(t)))
    ensures TimingLine(t) == Render(TEMPLATE, IntValues(Ints(t))) + "\n"
  {
    var vs := IntValues(Ints(t));
    assert vs + [] == vs;
    FormatLiterals();
    FieldsRender(FORMAT, [], Ints(t), []);
  }

  lemma TimingPlain(t: Timing)
    ensures Conforms(TEMPLATE, IntValues(Ints(t)))
    ensures '\n' !in Render(TEMPLATE, IntValues(Ints(t))) && '\r' !in Render(TEMPLATE, IntValues(Ints(t)))
  {
    TimingRender(t);
    FormatLiterals();
    FieldsAvoid(FORMAT, [], '\n');
    FieldsAvoid(FORMAT, [], '\r');
    RenderAvoids(TEMPLATE, IntValues(Ints(t)), '\n');
    RenderAvoids(TEMPLATE, IntValues(Ints(t)), '\r');
  }

  lemma TemplateSeparated()
    ensures Separated(TEMPLATE)
  {
    FormatLiterals();
    FieldsSeparated(FORMAT, []);
  }

  /** Round trip: a written line, its newline removed, parses back to the values written. */
  lemma TimingRoundTrip(t: Timing)
    ensures Match(TEMPLATE, RemoveChar(TimingLine(t), '\n')) == Some(IntValues(Ints(t)))
  {
    TimingRender(t);
    TimingPlain(t);
    RemoveLast(Render(TEMPLATE, IntValues(Ints(t))), '\n');
    TemplateSeparated();
    RenderMatches(TEMPLATE, IntValues(Ints(t)));
  }

  /** The values of the measurements `ts`, one row per measurement. */
  function Rows(ts: seq<Timing>): (r: seq<seq<Value>>)
    ensures |r| == |ts| && forall i :: 0 <= i < |ts| ==> r[i] == IntValues(Ints(ts[i]))
  {
    seq(|ts|, i requires 0 <= i < |ts| => IntValues(Ints(ts[i])))
  }

  /** The lines `pathtime.rs` writes for the measurements `ts`. */
  function Lines(ts: seq<Timing>): (r: seq<string>)
    ensures |r| == |ts| && forall i :: 0 <= i < |ts| ==> r[i] == TimingLine(ts[i])
  {
    seq(|ts|, i requires 0 <= i < |ts| => TimingLine(ts[i]))
  }

  /** A file of written lines is read back line by line as the values written. */
  lemma TimingsRoundTrip(ts: seq<Timing>)
    ensures MatchAll(TEMPLATE, ChompedLines(Concat(Lines(ts)))) == Ok(Rows(ts))
  {
    RowsConform(ts);
    RowsWritten(ts);
    TemplateSeparated();
    FileRoundTrip(TEMPLATE, Rows(ts));
  }

  lemma RowsConform(ts: seq<Timing>)
    ensures forall i :: 0 <= i < |ts| ==>
      Conforms(TEMPLATE, Rows(ts)[i]) && '\n' !in Render(TEMPLATE, Rows(ts)[i]) && '\r' !in Render(TEMPLATE, Rows(ts)[i])
  {
    forall i | 0 <= i < |ts|
      ensures Conforms(TEMPLATE, Rows(ts)[i]) && '\n' !in Render(TEMPLATE, Rows(ts)[i]) && '\r' !in Render(TEMPLATE, Rows(ts)[i])
    {
      TimingPlain(ts[i]);
    }
  }

  lemma RowsWritten(ts: seq<Timing>)
    requires forall i :: 0 <= i < |ts| ==> Conforms(TEMPLATE, Rows(ts)[i])
    ensures WrittenLines(TEMPLATE, Rows(ts)) == Lines(ts)
  {
    var written := WrittenLines(TEMPLATE, Rows(ts));
    forall i | 0 <= i < |ts| ensures written[i] == Lines(ts)[i] {
      TimingRender(ts[i]);
    }
  }

  /** A blank or otherwise non-matching line makes the script fail there. */
  lemma BlankLineFails()
    ensures Match(TEMPLATE, "").None?
  {
    assert TEMPLATE[0] == Lit("[n: ");
  }
}
