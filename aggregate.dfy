/**
 * The shape shared by `graph_messages.py` and `graph_pathtime.py`: samples are
 * grouped in a dict of dicts of lists, `results[f][n]`, one append per line;
 * then, for every `f` in the dict's insertion order, one series is plotted
 * whose x values are `sorted(results[f])` and whose y values are
 * `round(sum(l) / len(l))` of the matching lists.
 */
module Aggregate {
  import opened Wrappers
  import opened Text
  import opened Python
  import opened Template

  /** One sample: the `f` and `n` of a line and the value taken from it. */
  datatype Sample = Sample(f: int, n: int, v: int)

  /** `results[f][n]`: the dict of dicts of lists. */
  type Results = map<int, map<int, seq<int>>>

  /** One `plot(x, y, ...)` call; the label, `str(results[f])`, is kept as its `f`. */
  datatype Series = Series(f: int, x: seq<int>, y: seq<int>)

  // ---------------------------------------------------------------- the grouping

  /** The `f` values of the samples. */
  function Fs(ss: seq<Sample>): set<int>
  {
    set i | 0 <= i < |ss| :: ss[i].f
  }

  /** The `n` values seen together with `f`. */
  function Ns(ss: seq<Sample>, f: int): set<int>
  {
    set i | 0 <= i < |ss| && ss[i].f == f :: ss[i].n
  }

  /** The values of the samples with this `f` and `n`, in sample order. */
  function Values(ss: seq<Sample>, f: int, n: int): seq<int>
    decreases |ss|
  {
    if ss == [] then []
    else
      var s := ss[|ss| - 1];
      Values(ss[..|ss| - 1], f, n) + (if s.f == f && s.n == n then [s.v] else [])
  }

  /** The inner dict of `f` after the samples `ss`. */
  function Inner(ss: seq<Sample>, f: int): map<int, seq<int>>
  {
    map n | n in Ns(ss, f) :: Values(ss, f, n)
  }

  /** What the dict of dicts holds after the samples `ss`. */
  function Group(ss: seq<Sample>): Results
  {
    map f | f in Fs(ss) :: Inner(ss, f)
  }

  /** The outer dict's keys in insertion order: each `f` where it first appears. */
  function Seen(ss: seq<Sample>): seq<int>
    decreases |ss|
  {
    if ss == [] then []
    else
      var init := ss[..|ss| - 1];
      Seen(init) + (if ss[|ss| - 1].f in Fs(init) then [] else [ss[|ss| - 1].f])
  }

  lemma FsSnoc(ss: seq<Sample>, s: Sample)
    ensures Fs(ss + [s]) == Fs(ss) + {s.f}
  {
    var t := ss + [s];
    forall f | f in Fs(t) ensures f in Fs(ss) + {s.f} {
      var i :| 0 <= i < |t| && t[i].f == f;
      if i < |ss| { assert t[i] == ss[i]; }
    }
    forall f | f in Fs(ss) ensures f in Fs(t) {
      var i :| 0 <= i < |ss| && ss[i].f == f;
      assert t[i] == ss[i];
    }
    assert t[|ss|] == s;
  }

  lemma NsSnoc(ss: seq<Sample>, s: Sample, f: int)
    ensures Ns(ss + [s], f) == Ns(ss, f) + (if s.f == f then {s.n} else {})
  {
    var t := ss + [s];
    forall n | n in Ns(t, f) ensures n in Ns(ss, f) + (if s.f == f then {s.n} else {}) {
      var i :| 0 <= i < |t| && t[i].f == f && t[i].n == n;
      if i < |ss| { assert t[i] == ss[i]; }
    }
    forall n | n in Ns(ss, f) ensures n in Ns(t, f) {
      var i :| 0 <= i < |ss| && ss[i].f == f && ss[i].n == n;
      assert t[i] == ss[i];
    }
    assert t[|ss|] == s;
  }

  lemma ValuesSnoc(ss: seq<Sample>, s: Sample, f: int, n: int)
    ensures Values(ss + [s], f, n) == Values(ss, f, n) + (if s.f == f && s.n == n then [s.v] else [])
  {
    assert (ss + [s])[..|ss|] == ss;
  }

  /** A list exists exactly for the pairs seen, and then it is not empty. */
  lemma {:induction false} ValuesPresent(ss: seq<Sample>, f: int, n: int)
    ensures n in Ns(ss, f) <==> |Values(ss, f, n)| > 0
    decreases |ss|
  {
    if ss != [] {
      var init, s := ss[..|ss| - 1], ss[|ss| - 1];
      ValuesPresent(init, f, n);
      NsSnoc(init, s, f);
      assert init + [s] == ss;
    }
  }

  /** The lists hold one value per sample of their pair. */
  lemma {:induction false} ValuesCount(ss: seq<Sample>, f: int, n: int)
    ensures |Values(ss, f, n)| == |set i | 0 <= i < |ss| && ss[i].f == f && ss[i].n == n|
    decreases |ss|
  {
    if ss != [] {
      var k := |ss| - 1;
      var init := ss[..k];
      ValuesCount(init, f, n);
      var a := set i | 0 <= i < k && init[i].f == f && init[i].n == n;
      var b := set i | 0 <= i < |ss| && ss[i].f == f && ss[i].n == n;
      assert a == set i | 0 <= i < k && ss[i].f == f && ss[i].n == n;
      if ss[k].f == f && ss[k].n == n {
        assert b == a + {k};
      } else {
        assert b == a;
      }
    }
  }

  /** `Seen` lists every `f` once, and nothing else. */
  lemma {:induction false} SeenKeys(ss: seq<Sample>)
    ensures forall f :: f in Seen(ss) <==> f in Fs(ss)
    ensures forall i, j :: 0 <= i < j < |Seen(ss)| ==> Seen(ss)[i] != Seen(ss)[j]
    decreases |ss|
  {
    if ss != [] {
      var init, s := ss[..|ss| - 1], ss[|ss| - 1];
      SeenKeys(init);
      FsSnoc(init, s);
      assert init + [s] == ss;
    }
  }

  /** Lines 17-21: insert `f`, then `n`, when missing, and append the value. */
  method Record(results: Results, order: seq<int>, s: Sample, ghost ss: seq<Sample>)
    returns (results': Results, order': seq<int>)
    requires results == Group(ss) && order == Seen(ss)
    ensures results' == Group(ss + [s]) && order' == Seen(ss + [s])
  {
    ghost var inner := if s.f in results then results[s.f] else map[];
    ghost var list := if s.n in inner then inner[s.n] else [];
    results', order' := results, order;
    if s.f !in results' {
      results' := results'[s.f := map[]];
      order' := order' + [s.f];
    }
    assert results' == results[s.f := inner];
    if s.n !in results'[s.f] {
      results' := results'[s.f := results'[s.f][s.n := []]];
    } else {
      assert inner[s.n := list] == inner;
    }
    assert results' == results[s.f := inner[s.n := list]];
    assert results'[s.f] == inner[s.n := list] && results'[s.f][s.n] == list;
    assert inner[s.n := list][s.n := list + [s.v]] == inner[s.n := list + [s.v]];
    results' := results'[s.f := results'[s.f][s.n := results'[s.f][s.n] + [s.v]]];
    assert results' == results[s.f := inner[s.n := list]][s.f := inner[s.n := list + [s.v]]];
    RecordProof(results, s, ss, results');
    assert (ss + [s])[..|ss|] == ss;
  }

  /** The dict after one more append is the grouping of one more sample. */
  lemma RecordProof(results: Results, s: Sample, ss: seq<Sample>, results': Results)
    requires results == Group(ss)
    requires var inner := if s.f in results then results[s.f] else map[];
      var list := if s.n in inner then inner[s.n] else [];
      results' == results[s.f := inner[s.n := list + [s.v]]]
    ensures results' == Group(ss + [s])
  {
    var t := ss + [s];
    FsSnoc(ss, s);
    assert results'.Keys == Fs(t);
    forall f | f in Fs(t) ensures results'[f] == Group(t)[f] {
      if f == s.f {
        RecordSame(results, s, ss, results');
      } else {
        RecordOther(results, s, ss, results', f);
      }
    }
  }

  lemma RecordSame(results: Results, s: Sample, ss: seq<Sample>, results': Results)
    requires results == Group(ss)
    requires var inner := if s.f in results then results[s.f] else map[];
      var list := if s.n in inner then inner[s.n] else [];
      results' == results[s.f := inner[s.n := list + [s.v]]]
    ensures s.f in Group(ss + [s]) && results'[s.f] == Group(ss + [s])[s.f]
  {
    FsSnoc(ss, s);
    InnerOf(ss, s.f);
    ListOf(ss, s.f, s.n);
    InnerSnoc(ss, s);
  }

  /** The inner dict of `f`, an empty one while `f` is missing. */
  lemma InnerOf(ss: seq<Sample>, f: int)
    ensures (if f in Group(ss) then Group(ss)[f] else map[]) == Inner(ss, f)
  {
    NsWithin(ss, f);
  }

  /** The list of `(f, n)`, an empty one while `n` is missing. */
  lemma ListOf(ss: seq<Sample>, f: int, n: int)
    ensures (if n in Inner(ss, f) then Inner(ss, f)[n] else []) == Values(ss, f, n)
  {
    ValuesPresent(ss, f, n);
  }

  /** One more sample appends its value to the list of its own pair only. */
  lemma InnerSnoc(ss: seq<Sample>, s: Sample)
    ensures Inner(ss + [s], s.f) == Inner(ss, s.f)[s.n := Values(ss, s.f, s.n) + [s.v]]
  {
    var a := Inner(ss + [s], s.f);
    var b := Inner(ss, s.f)[s.n := Values(ss, s.f, s.n) + [s.v]];
    NsSnoc(ss, s, s.f);
    assert a.Keys == b.Keys;
    forall n | n in a ensures a[n] == b[n] {
      ValuesSnoc(ss, s, s.f, n);
    }
  }

  /** An `n` is only seen together with an `f` that was seen. */
  lemma NsWithin(ss: seq<Sample>, f: int)
    ensures forall n :: n in Ns(ss, f) ==> f in Fs(ss)
  {
    forall n | n in Ns(ss, f) ensures f in Fs(ss) {
      var i :| 0 <= i < |ss| && ss[i].f == f && ss[i].n == n;
    }
  }

  lemma RecordOther(results: Results, s: Sample, ss: seq<Sample>, results': Results, f: int)
    requires results == Group(ss) && f != s.f && f in Fs(ss + [s])
    requires s.f in results' && results' == results[s.f := results'[s.f]]
    ensures results'[f] == Group(ss + [s])[f]
  {
    var t := ss + [s];
    FsSnoc(ss, s);
    NsSnoc(ss, s, f);
    forall n | n in Ns(t, f) ensures results'[f][n] == Values(t, f, n) {
      ValuesSnoc(ss, s, f, n);
    }
  }

  lemma GroupCells(ss: seq<Sample>)
    ensures forall f :: f in Group(ss) <==> f in Fs(ss)
    ensures forall f, n :: f in Group(ss) ==> (n in Group(ss)[f] <==> n in Ns(ss, f))
    ensures forall f, n :: f in Group(ss) && n in Group(ss)[f] ==> |Group(ss)[f][n]| > 0
  {
    forall f, n | f in Group(ss) && n in Group(ss)[f] ensures |Group(ss)[f][n]| > 0 {
      ValuesPresent(ss, f, n);
    }
  }

  /**
   * Two sample lists that agree on every `(f, n)` give dicts with the same
   * outer keys in the same order, the same inner keys, and lists of equal
   * length: the property the flood and routed (or fast and path) dicts share.
   */
  lemma {:induction false} SameCells(a: seq<Sample>, b: seq<Sample>)
    requires |a| == |b|
    requires forall i :: 0 <= i < |a| ==> a[i].f == b[i].f && a[i].n == b[i].n
    ensures Group(a).Keys == Group(b).Keys && Seen(a) == Seen(b)
    ensures forall f :: f in Group(a) ==> Group(a)[f].Keys == Group(b)[f].Keys
    ensures forall f, n :: f in Group(a) && n in Group(a)[f] ==> |Group(a)[f][n]| == |Group(b)[f][n]|
    decreases |a|
  {
    assert Fs(a) == Fs(b) by {
      forall f | f in Fs(a) ensures f in Fs(b) { var i :| 0 <= i < |a| && a[i].f == f; assert b[i].f == f; }
      forall f | f in Fs(b) ensures f in Fs(a) { var i :| 0 <= i < |b| && b[i].f == f; assert a[i].f == f; }
    }
    forall f ensures Ns(a, f) == Ns(b, f) {
      forall n | n in Ns(a, f) ensures n in Ns(b, f) {
        var i :| 0 <= i < |a| && a[i].f == f && a[i].n == n; assert b[i].f == f && b[i].n == n;
      }
      forall n | n in Ns(b, f) ensures n in Ns(a, f) {
        var i :| 0 <= i < |b| && b[i].f == f && b[i].n == n; assert a[i].f == f && a[i].n == n;
      }
    }
    forall f, n ensures |Values(a, f, n)| == |Values(b, f, n)| {
      ValuesCount(a, f, n);
      ValuesCount(b, f, n);
      assert (set i | 0 <= i < |a| && a[i].f == f && a[i].n == n) == (set i | 0 <= i < |b| && b[i].f == f && b[i].n == n);
    }
    if a != [] {
      var k := |a| - 1;
      SameCells(a[..k], b[..k]);
    }
  }

  // ---------------------------------------------------------------- the emission

  predicate Increasing(xs: seq<int>)
  {
    forall i, j :: 0 <= i < j < |xs| ==> xs[i] < xs[j]
  }

  /** `series` is what the inner loop plots for `f`: the keys ascending, each with its rounded mean. */
  ghost predicate Charts(series: Series, f: int, inner: map<int, seq<int>>)
  {
    series.f == f && Increasing(series.x)
    && (forall n :: n in series.x <==> n in inner)
    && |series.y| == |series.x|
    && forall j :: 0 <= j < |series.x| ==> |inner[series.x[j]]| > 0 && series.y[j] == Mean(inner[series.x[j]])
  }

  /** One series per key of `order`, in that order. */
  ghost predicate Plots(plot: seq<Series>, results: Results, order: seq<int>)
  {
    |plot| == |order|
    && forall k :: 0 <= k < |order| ==> order[k] in results && Charts(plot[k], order[k], results[order[k]])
  }

  /** Some element of a set that is not empty. */
  method Pick<T>(s: set<T>) returns (x: T)
    requires s != {}
    ensures x in s
  {
    x :| x in s;
  }

  /** The least element of a set that is not empty. */
  method Least(s: set<int>) returns (m: int)
    requires s != {}
    ensures m in s && forall y :: y in s ==> m <= y
  {
    m := Pick(s);
    var rest := s - {m};
    while rest != {}
      invariant rest <= s && m in s
      invariant forall y :: y in s && y !in rest ==> m <= y
      decreases rest
    {
      var y := Pick(rest);
      if y < m { m := y; }
      rest := rest - {y};
    }
  }

  /** `sorted(keys)`: the keys, strictly ascending. */
  method SortedKeys(keys: set<int>) returns (xs: seq<int>)
    ensures Increasing(xs)
    ensures forall n :: n in xs <==> n in keys
  {
    xs := [];
    var rest := keys;
    while rest != {}
      invariant rest <= keys
      invariant Increasing(xs)
      invariant forall n :: n in keys <==> n in xs || n in rest
      invariant forall i, y :: 0 <= i < |xs| && y in rest ==> xs[i] < y
      decreases rest
    {
      var m := Least(rest);
      xs := xs + [m];
      rest := rest - {m};
    }
  }

  /** Lines 32-39 for one `f`. */
  method Chart(f: int, inner: map<int, seq<int>>) returns (series: Series)
    requires forall n :: n in inner ==> |inner[n]| > 0
    ensures Charts(series, f, inner)
  {
    var keys := SortedKeys(inner.Keys);
    assert forall i :: 0 <= i < |keys| ==> keys[i] in inner by {
      forall i | 0 <= i < |keys| ensures keys[i] in inner { assert keys[i] in keys; }
    }
    var x: seq<int> := [];
    var y: seq<int> := [];
    for j := 0 to |keys|
      invariant x == keys[..j] && |y| == j
      invariant forall i :: 0 <= i < j ==> y[i] == Mean(inner[keys[i]])
    {
      assert keys[j] in inner;
      assert |inner[keys[j]]| > 0;
      var list := inner[keys[j]];
      assert |list| > 0;
      x := x + [keys[j]];
      y := y + [Round(Sum(list), |list|)];
    }
    assert keys[..|keys|] == keys;
    series := Series(f, x, y);
  }

  /** Lines 31-41 (and 43-53): one series per `f`, in the dict's order. */
  method Emit(results: Results, order: seq<int>) returns (plot: seq<Series>)
    requires forall f :: f in order ==> f in results
    requires forall f, n :: f in results && n in results[f] ==> |results[f][n]| > 0
    ensures Plots(plot, results, order)
  {
    plot := [];
    for k := 0 to |order|
      invariant |plot| == k
      invariant forall i :: 0 <= i < k ==> Charts(plot[i], order[i], results[order[i]])
    {
      var series := Chart(order[k], results[order[k]]);
      plot := plot + [series];
    }
  }

  /** Two strictly ascending lists of the same numbers are equal. */
  lemma {:induction false} IncreasingUnique(a: seq<int>, b: seq<int>)
    requires Increasing(a) && Increasing(b)
    requires forall n :: n in a <==> n in b
    ensures a == b
    decreases |a|
  {
    assert a != [] ==> a[0] in a && a[0] in b;
    assert b != [] ==> b[0] in b && b[0] in a;
    if a != [] {
      assert a[0] <= b[0] by {
        var j :| 0 <= j < |a| && a[j] == b[0];
        if j > 0 { assert a[0] < a[j]; }
      }
      assert b[0] <= a[0] by {
        var i :| 0 <= i < |b| && b[i] == a[0];
        if i > 0 { assert b[0] < b[i]; }
      }
      assert a == [a[0]] + a[1..] && b == [b[0]] + b[1..];
      forall n ensures n in a[1..] <==> n in b[1..] {
        if n in a[1..] {
          var p :| 0 <= p < |a| - 1 && a[1..][p] == n;
          assert a[p + 1] == n && a[0] < n && n in a && n in b && n != b[0];
        }
        if n in b[1..] {
          var p :| 0 <= p < |b| - 1 && b[1..][p] == n;
          assert b[p + 1] == n && b[0] < n && n in b && n in a && n != a[0];
        }
      }
      IncreasingUnique(a[1..], b[1..]);
    }
  }

  /** The plotted series are determined by the dict and its key order. */
  lemma PlotsUnique(p: seq<Series>, q: seq<Series>, results: Results, order: seq<int>)
    requires Plots(p, results, order) && Plots(q, results, order)
    ensures p == q
  {
    forall k | 0 <= k < |order| ensures p[k] == q[k] {
      IncreasingUnique(p[k].x, q[k].x);
    }
  }

  // ---------------------------------------------------------------- the script

  /** The samples one of the dicts receives, one per parsed line. */
  function Samples(rows: seq<seq<Value>>, sample: seq<Value> -> Sample): (ss: seq<Sample>)
    ensures |ss| == |rows| && forall i :: 0 <= i < |rows| ==> ss[i] == sample(rows[i])
  {
    seq(|rows|, i requires 0 <= i < |rows| => sample(rows[i]))
  }

  /** The four dict variables hold the grouping of the lines parsed so far. */
  ghost predicate Collected(rows: seq<seq<Value>>, first: seq<Value> -> Sample, second: seq<Value> -> Sample,
                            one: Results, oneOrder: seq<int>, two: Results, twoOrder: seq<int>)
  {
    one == Group(Samples(rows, first)) && oneOrder == Seen(Samples(rows, first))
    && two == Group(Samples(rows, second)) && twoOrder == Seen(Samples(rows, second))
  }

  /** The body of the loop over the lines for one parsed line: one append to each dict. */
  method Collect(row: seq<Value>, ghost rows: seq<seq<Value>>, first: seq<Value> -> Sample, second: seq<Value> -> Sample,
                 one: Results, oneOrder: seq<int>, two: Results, twoOrder: seq<int>)
    returns (one': Results, oneOrder': seq<int>, two': Results, twoOrder': seq<int>)
    requires Collected(rows, first, second, one, oneOrder, two, twoOrder)
    ensures Collected(rows + [row], first, second, one', oneOrder', two', twoOrder')
  {
    one', oneOrder' := Record(one, oneOrder, first(row), Samples(rows, first));
    two', twoOrder' := Record(two, twoOrder, second(row), Samples(rows, second));
    assert Samples(rows + [row], first) == Samples(rows, first) + [first(row)];
    assert Samples(rows + [row], second) == Samples(rows, second) + [second(row)];
  }

  /** The two plotting loops: the series of both dicts. */
  method PlotBoth(ghost rows: seq<seq<Value>>, first: seq<Value> -> Sample, second: seq<Value> -> Sample,
                  one: Results, oneOrder: seq<int>, two: Results, twoOrder: seq<int>)
    returns (plots: (seq<Series>, seq<Series>))
    requires Collected(rows, first, second, one, oneOrder, two, twoOrder)
    ensures Plots(plots.0, Group(Samples(rows, first)), Seen(Samples(rows, first)))
    ensures Plots(plots.1, Group(Samples(rows, second)), Seen(Samples(rows, second)))
  {
    SeenKeys(Samples(rows, first));
    GroupCells(Samples(rows, first));
    SeenKeys(Samples(rows, second));
    GroupCells(Samples(rows, second));
    var onePlot := Emit(one, oneOrder);
    var twoPlot := Emit(two, twoOrder);
    plots := (onePlot, twoPlot);
  }

  /**
   * A whole script on the file's text: every line, its newline removed, is
   * parsed with `t`, and its samples are appended to both dicts; then both
   * are plotted. The result is the two lists of series, or the index of the
   * first line whose unpacking fails because `parse` returned `None`.
   */
  method Script(t: seq<Piece>, first: seq<Value> -> Sample, second: seq<Value> -> Sample, content: string)
    returns (r: Result<(seq<Series>, seq<Series>), nat>)
    ensures var m := MatchAll(t, ChompedLines(content));
      (r.Err? <==> m.Err?) && (r.Err? ==> r.error == m.error)
      && (r.Ok? ==>
            Plots(r.value.0, Group(Samples(m.value, first)), Seen(Samples(m.value, first)))
            && Plots(r.value.1, Group(Samples(m.value, second)), Seen(Samples(m.value, second))))
  {
    var lines := FileLines(content);
    ghost var chomped := ChompedLines(content);
    var one: Results := map[];
    var oneOrder: seq<int> := [];
    var two: Results := map[];
    var twoOrder: seq<int> := [];
    ghost var rows: seq<seq<Value>> := [];
    for i := 0 to |lines|
      invariant |rows| == i
      invariant forall k :: 0 <= k < i ==> Match(t, chomped[k]) == Some(rows[k])
      invariant Collected(rows, first, second, one, oneOrder, two, twoOrder)
    {
      var parsed := Match(t, RemoveChar(lines[i], '\n'));
      ChompedAt(content, i);
      if parsed.None? {
        MatchAllStops(t, chomped, i);
        return Err(i);
      }
      one, oneOrder, two, twoOrder := Collect(parsed.value, rows, first, second, one, oneOrder, two, twoOrder);
      SnocRow(t, chomped, rows, parsed.value);
      rows := rows + [parsed.value];
    }
    MatchAllRows(t, chomped, rows);
    var plots := PlotBoth(rows, first, second, one, oneOrder, two, twoOrder);
    r := Ok(plots);
  }

  lemma ChompedAt(content: string, i: nat)
    requires i < |FileLines(content)|
    ensures ChompedLines(content)[i] == RemoveChar(FileLines(content)[i], '\n')
  {
  }

  lemma SnocRow(t: seq<Piece>, chomped: seq<string>, rows: seq<seq<Value>>, row: seq<Value>)
    requires |rows| < |chomped| && Match(t, chomped[|rows|]) == Some(row)
    requires forall k :: 0 <= k < |rows| ==> Match(t, chomped[k]) == Some(rows[k])
    ensures forall k :: 0 <= k < |rows| + 1 ==> Match(t, chomped[k]) == Some((rows + [row])[k])
  {
    forall k | 0 <= k < |rows| + 1 ensures Match(t, chomped[k]) == Some((rows + [row])[k]) {
      if k < |rows| { assert (rows + [row])[k] == rows[k]; }
    }
  }

  /**
   * When both dicts receive samples with the same `f` and `n` from every
   * line, they end with the same outer keys in the same order, the same inner
   * keys and lists of equal length, and no list is empty.
   */
  lemma SameShape(rows: seq<seq<Value>>, first: seq<Value> -> Sample, second: seq<Value> -> Sample)
    requires forall row :: first(row).f == second(row).f && first(row).n == second(row).n
    ensures var a, b := Group(Samples(rows, first)), Group(Samples(rows, second));
      a.Keys == b.Keys && Seen(Samples(rows, first)) == Seen(Samples(rows, second))
      && (forall f :: f in a ==> a[f].Keys == b[f].Keys)
      && (forall f, n :: f in a && n in a[f] ==> 0 < |a[f][n]| == |b[f][n]|)
  {
    SameCells(Samples(rows, first), Samples(rows, second));
    GroupCells(Samples(rows, first));
  }
}
