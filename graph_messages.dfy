/**
 * `scripts/graph_messages.py`: reads a results file line by line, parses each
 * line with a fixed template, groups the flooding and the routed message
 * counts by `f` and then `n`, and plots, per `f`, the rounded mean count for
 * each `n` in ascending order. The plotting calls are reduced to the series
 * they are given.
 */
module GraphMessages {
  import opened Wrappers
  import opened Python
  import opened Template
  import opened Aggregate

  /**
   * `"[n: {:d}, f: {:d}, c: {:d}, i: {:d}] f: d {:d}%, m {:d}, t: {:d} | r: d {:d}%, m {:d}, t: {:d}"`:
   * each literal followed by a `{:d}`.
   */
  const TEMPLATE: seq<Piece> :=
    Fields(["[n: ", ", f: ", ", c: ", ", i: ", "] f: d ", "%, m ", ", t: ", " | r: d ", "%, m ", ", t: "], [])

  /** Field `k` of a parsed line (every field of this template is an integer). */
  function Field(row: seq<Value>, k: nat): int
  {
    if k < |row| && row[k].IntV? then row[k].i else 0
  }

  /** What line 21 appends: `fm` under `f` and `n`. */
  function FloodSample(row: seq<Value>): Sample
  {
    Sample(Field(row, 1), Field(row, 0), Field(row, 5))
  }

  /** What line 27 appends: `rm` under `f` and `n`. */
  function RoutedSample(row: seq<Value>): Sample
  {
    Sample(Field(row, 1), Field(row, 0), Field(row, 8))
  }

  /** The script: the flooding series and the routed series, or the first line that fails. */
  method Run(content: string) returns (r: Result<(seq<Series>, seq<Series>), nat>)
    ensures var m := MatchAll(TEMPLATE, ChompedLines(content));
      (r.Err? <==> m.Err?) && (r.Err? ==> r.error == m.error)
      && (r.Ok? ==>
            Plots(r.value.0, Group(Samples(m.value, FloodSample)), Seen(Samples(m.value, FloodSample)))
            && Plots(r.value.1, Group(Samples(m.value, RoutedSample)), Seen(Samples(m.value, RoutedSample))))
  {
    r := Script(TEMPLATE, FloodSample, RoutedSample, content);
  }

  /**
   * `flood_results` and `routed_results` end with the same outer keys in the
   * same order, the same inner keys and lists of equal length, and no list is empty.
   */
  lemma FloodRoutedShape(rows: seq<seq<Value>>)
    ensures var a, b := Group(Samples(rows, FloodSample)), Group(Samples(rows, RoutedSample));
      a.Keys == b.Keys && Seen(Samples(rows, FloodSample)) == Seen(Samples(rows, RoutedSample))
      && (forall f :: f in a ==> a[f].Keys == b[f].Keys)
      && (forall f, n :: f in a && n in a[f] ==> 0 < |a[f][n]| == |b[f][n]|)
  {
    SameShape(rows, FloodSample, RoutedSample);
  }

  /** Blank lines are not skipped: an empty line does not match. */
  lemma BlankLineFails()
    ensures Match(TEMPLATE, "").None?
  {
    assert TEMPLATE[0] == Lit("[n: ");
  }
}
