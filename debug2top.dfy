/**
 * `scripts/debug2top.py`: turns the `Debug` text of a
 * `HashMap<usize, HashSet<usize>>` (`{k: {v, w}, ...}`), given as the first
 * command-line argument, into a list of directed edges `[k, v]`, printing each
 * as `"k v"` before converting it. Drawing the graph is not part of this model.
 *
 * The script works on the text alone: it drops the outer braces, splits the
 * rest on `"}, "` into entries, splits each entry once more on `": {"`, and
 * splits the member list on `", "`. Its steps are spelled out as a list of
 * `Step`s (one per member, or a failed index) executed in order.
 */
module Debug2Top {
  import opened Wrappers
  import opened Text
  import opened Python

  /** The exceptions the script can raise. */
  datatype Fault = ValueError | IndexError

  /** What the script leaves behind: the lines it printed, the edges, and the exception that stopped it. */
  datatype Outcome = Outcome(printed: seq<string>, edges: seq<(int, int)>, fault: Option<Fault>)

  /** One thing the loops do: a member `v` of key `k`'s set, or the failed index `s[1]`. */
  datatype Step = Member(key: string, member: string) | Missing

  /** `sys.argv[1][1:-1]`. */
  function Body(arg: string): (r: string)
    ensures |arg| >= 2 ==> |r| == |arg| - 2 && forall i :: 0 <= i < |r| ==> r[i] == arg[i + 1]
    ensures |arg| < 2 ==> r == ""
  {
    if |arg| >= 2 then arg[1..|arg| - 1] else ""
  }

  /** The entries of line 8. */
  function Entries(arg: string): seq<string>
  {
    Split(Body(arg), "}, ")
  }

  /** Lines 9-15 for one entry: a failed `s[1]`, nothing for an empty set, or one step per member. */
  function EntrySteps(e: string): seq<Step>
  {
    var s := Split(e, ": {");
    if |s| < 2 then [Missing]
    else if |s[1]| == 0 then []
    else
      var vs := Split(s[1], ", ");
      seq(|vs|, j requires 0 <= j < |vs| => Member(s[0], RemoveChar(vs[j], '}')))
  }

  /** The steps of each entry, in order. */
  function Flatten<T>(parts: seq<seq<T>>): seq<T>
    decreases |parts|
  {
    if parts == [] then [] else Flatten(parts[..|parts| - 1]) + parts[|parts| - 1]
  }

  function Parts(entries: seq<string>): (r: seq<seq<Step>>)
    ensures |r| == |entries| && forall i :: 0 <= i < |entries| ==> r[i] == EntrySteps(entries[i])
  {
    seq(|entries|, i requires 0 <= i < |entries| => EntrySteps(entries[i]))
  }

  /** The steps of all entries, in order. */
  function Steps(entries: seq<string>): seq<Step>
  {
    Flatten(Parts(entries))
  }

  /** One step on a run that has not failed: the print of line 15, then `int(ab[0])` and `int(ab[1])`. */
  function Apply(o: Outcome, st: Step): (r: Outcome)
    requires o.fault.None?
  {
    match st
    case Missing => Outcome(o.printed, o.edges, Some(IndexError))
    case Member(k, v) =>
      var printed := o.printed + [k + " " + v];
      match PyInt(k)
      case None => Outcome(printed, o.edges, Some(ValueError))
      case Some(a) =>
        match PyInt(v)
        case None => Outcome(printed, o.edges, Some(ValueError))
        case Some(b) => Outcome(printed, o.edges + [(a, b)], None)
  }

  /** The steps executed in order; the first exception ends the run. */
  function Exec(steps: seq<Step>): Outcome
    decreases |steps|
  {
    if steps == [] then Outcome([], [], None)
    else
      var o := Exec(steps[..|steps| - 1]);
      if o.fault.Some? then o else Apply(o, steps[|steps| - 1])
  }

  // ---------------------------------------------------------------- the script

  /** Lines 7-16, on the argument's text. */
  method Run(arg: string) returns (r: Outcome)
    ensures r == Exec(Steps(Entries(arg)))
  {
    var entries := Split(Body(arg), "}, ");
    ghost var parts := Parts(entries);
    assert Steps(Entries(arg)) == Flatten(parts);
    var printed: seq<string> := [];
    var edges: seq<(int, int)> := [];
    for i := 0 to |entries|
      invariant Outcome(printed, edges, None) == Exec(Flatten(parts[..i]))
    {
      FlattenSplit(parts, i);
      var fault;
      printed, edges, fault := RunEntry(entries[i], printed, edges, Flatten(parts[..i]));
      if fault.Some? {
        ExecSticky(Flatten(parts[..i]) + parts[i], Flatten(parts[i + 1..]));
        return Outcome(printed, edges, fault);
      }
    }
    assert parts[..|entries|] == parts;
    r := Outcome(printed, edges, None);
  }

  /** Lines 9-16 for one entry `e`, after the steps `done` have left `printed` and `edges`. */
  method RunEntry(e: string, printed: seq<string>, edges: seq<(int, int)>, ghost done: seq<Step>)
    returns (printed': seq<string>, edges': seq<(int, int)>, fault: Option<Fault>)
    requires Exec(done) == Outcome(printed, edges, None)
    ensures Exec(done + EntrySteps(e)) == Outcome(printed', edges', fault)
  {
    ghost var here := EntrySteps(e);
    var s := Split(e, ": {");
    if |s| < 2 {
      assert here == [Missing];
      ExecSnoc(done, Missing);
      return printed, edges, Some(IndexError);
    }
    if |s[1]| == 0 {
      assert done + here == done;
      return printed, edges, None;
    }
    var vs := Split(s[1], ", ");
    printed', edges', fault := RunMembers(s[0], vs, printed, edges, done, here);
  }

  /** The loop of lines 12-16 over the members `vs` of key `key`, whose steps are `here`. */
  method RunMembers(key: string, vs: seq<string>, printed: seq<string>, edges: seq<(int, int)>,
                    ghost done: seq<Step>, ghost here: seq<Step>)
    returns (printed': seq<string>, edges': seq<(int, int)>, fault: Option<Fault>)
    requires Exec(done) == Outcome(printed, edges, None)
    requires |here| == |vs| && forall j :: 0 <= j < |vs| ==> here[j] == Member(key, RemoveChar(vs[j], '}'))
    ensures Exec(done + here) == Outcome(printed', edges', fault)
  {
    printed', edges' := printed, edges;
    assert done + here[..0] == done;
    for j := 0 to |vs|
      invariant Outcome(printed', edges', None) == Exec(done + here[..j])
    {
      var a, b := key, RemoveChar(vs[j], '}');
      ExecStep(done, here, j);
      printed' := printed' + [a + " " + b];
      var x := PyInt(a);
      if x.None? {
        ExecStops(done, here, j);
        return printed', edges', Some(ValueError);
      }
      var y := PyInt(b);
      if y.None? {
        ExecStops(done, here, j);
        return printed', edges', Some(ValueError);
      }
      edges' := edges' + [(x.value, y.value)];
    }
    assert here[..|vs|] == here;
    fault := None;
  }

  // ---------------------------------------------------------------- how the steps compose

  lemma {:induction false} FlattenAppend<T>(a: seq<seq<T>>, b: seq<seq<T>>)
    ensures Flatten(a + b) == Flatten(a) + Flatten(b)
    decreases |b|
  {
    if b == [] {
      assert a + b == a;
    } else {
      var init := b[..|b| - 1];
      FlattenAppend(a, init);
      assert (a + b)[..|a + b| - 1] == a + init;
      assert (a + b)[|a + b| - 1] == b[|b| - 1];
    }
  }

  /** The steps before entry `i`, of entry `i`, and after it. */
  lemma FlattenSplit<T>(parts: seq<seq<T>>, i: nat)
    requires i < |parts|
    ensures Flatten(parts) == Flatten(parts[..i]) + parts[i] + Flatten(parts[i + 1..])
    ensures Flatten(parts[..i + 1]) == Flatten(parts[..i]) + parts[i]
  {
    TakeSplit(parts, i);
    FlattenAppend(parts[..i + 1], parts[i + 1..]);
  }

  lemma TakeSplit<T>(s: seq<T>, i: nat)
    requires i < |s|
    ensures s[..i + 1][..i] == s[..i] && s[..i + 1][i] == s[i] && |s[..i + 1]| == i + 1
    ensures s == s[..i + 1] + s[i + 1..]
  {
  }

  lemma ExecSnoc(steps: seq<Step>, st: Step)
    requires Exec(steps).fault.None?
    ensures Exec(steps + [st]) == Apply(Exec(steps), st)
  {
    assert (steps + [st])[..|steps|] == steps;
  }

  /** One more member of the current entry. */
  lemma ExecStep(done: seq<Step>, here: seq<Step>, j: nat)
    requires j < |here| && Exec(done + here[..j]).fault.None?
    ensures Exec(done + here[..j + 1]) == Apply(Exec(done + here[..j]), here[j])
  {
    ExecSnoc(done + here[..j], here[j]);
    SnocSlice(done, here, j);
  }

  /** Once a step has raised, nothing after it runs. */
  lemma {:induction false} ExecSticky(steps: seq<Step>, more: seq<Step>)
    requires Exec(steps).fault.Some?
    ensures Exec(steps + more) == Exec(steps)
    decreases |more|
  {
    if more == [] {
      assert steps + more == steps;
    } else {
      var init := more[..|more| - 1];
      ExecSticky(steps, init);
      assert (steps + more)[..|steps + more| - 1] == steps + init;
    }
  }

  /** A step that raises ends the run of its entry there. */
  lemma ExecStops(done: seq<Step>, here: seq<Step>, j: nat)
    requires j < |here| && Exec(done + here[..j]).fault.None?
    requires Apply(Exec(done + here[..j]), here[j]).fault.Some?
    ensures Exec(done + here) == Apply(Exec(done + here[..j]), here[j])
  {
    ExecStep(done, here, j);
    ExecSticky(done + here[..j + 1], here[j + 1..]);
    Regroup(done, here, j);
  }

  lemma LastSplit<T>(s: seq<T>)
    requires |s| > 0
    ensures s == s[..|s| - 1] + [s[|s| - 1]]
  {
  }

  lemma SnocSlice<T>(a: seq<T>, b: seq<T>, j: nat)
    requires j < |b|
    ensures a + b[..j] + [b[j]] == a + b[..j + 1]
  {
    assert b[..j + 1] == b[..j] + [b[j]];
  }

  lemma Regroup<T>(a: seq<T>, b: seq<T>, j: nat)
    requires j < |b|
    ensures a + b[..j + 1] + b[j + 1..] == a + b
  {
    assert b[..j + 1] + b[j + 1..] == b;
  }

  // ---------------------------------------------------------------- what the steps do

  /** The input `"{}"` (an empty map) reaches `s[1]` on the single empty entry and raises `IndexError`. */
  lemma EmptyMapFails()
    ensures Exec(Steps(Entries("{}"))) == Outcome([], [], Some(IndexError))
  {
    assert Body("{}") == "";
    SplitWhole("", "}, ");
    SplitWhole("", ": {");
    assert EntrySteps("") == [Missing];
    assert Parts([""]) == [[Missing]];
    assert Flatten([[Missing]]) == [Missing] by {
      assert [[Missing]][..0] == [];
    }
    assert [Missing][..0] == [];
  }

  /** A non-last entry with an empty set arrives as `"k: {"` and is skipped. */
  lemma EmptySetSkipped(k: string)
    requires ':' !in k
    ensures EntrySteps(k + ": {") == []
  {
    SplitFirst(k, ": {", "");
    SplitWhole("", ": {");
    assert k + ": {" + "" == k + ": {";
  }

  /**
   * An empty set in the last position arrives as `"k: {}"`: its one member is
   * `"}"`, which `replace` empties.
   */
  lemma LastEmptySetStep(k: nat)
    ensures EntrySteps(Decimal(k) + ": {}") == [Member(Decimal(k), "")]
  {
    var d := Decimal(k);
    DecimalAvoids(k, ':');
    KeySplit(d, "}");
    assert d + ": {" + "}" == d + ": {}";
    SplitWhole("}", ", ");
    assert RemoveChar("}", '}') == "";
  }

  /** That member prints `"k "`, and `int("")` raises. */
  lemma LastEmptySetRaises(k: nat, o: Outcome)
    requires o.fault.None?
    ensures Apply(o, Member(Decimal(k), "")) == Outcome(o.printed + [Decimal(k) + " "], o.edges, Some(ValueError))
  {
    PyIntOf(k);
    PyIntCases();
    NothingAppended(Decimal(k) + " ");
  }

  lemma NothingAppended(s: string)
    ensures s + "" == s
  {
  }

  /** A step that raises nothing is a member whose key and member `int` accepts. */
  lemma ApplyClean(o: Outcome, st: Step)
    requires o.fault.None? && Apply(o, st).fault.None?
    ensures st.Member? && PyInt(st.key).Some? && PyInt(st.member).Some?
    ensures Apply(o, st) == Outcome(o.printed + [st.key + " " + st.member], o.edges + [(PyInt(st.key).value, PyInt(st.member).value)], None)
  {
  }

  /** Each step a member, printed as `"k v"`, with the edge `(int(k), int(v))` in the same place. */
  predicate Recorded(steps: seq<Step>, printed: seq<string>, edges: seq<(int, int)>)
  {
    |printed| == |steps| && |edges| == |steps|
    && forall i :: 0 <= i < |steps| ==>
         steps[i].Member? && printed[i] == steps[i].key + " " + steps[i].member
         && PyInt(steps[i].key) == Some(edges[i].0) && PyInt(steps[i].member) == Some(edges[i].1)
  }

  lemma RecordedSnoc(steps: seq<Step>, printed: seq<string>, edges: seq<(int, int)>, k: string, v: string)
    requires Recorded(steps, printed, edges) && PyInt(k).Some? && PyInt(v).Some?
    ensures Recorded(steps + [Member(k, v)], printed + [k + " " + v], edges + [(PyInt(k).value, PyInt(v).value)])
  {
    var steps', printed', edges' := steps + [Member(k, v)], printed + [k + " " + v], edges + [(PyInt(k).value, PyInt(v).value)];
    forall i | 0 <= i < |steps'|
      ensures steps'[i].Member? && printed'[i] == steps'[i].key + " " + steps'[i].member
      ensures PyInt(steps'[i].key) == Some(edges'[i].0) && PyInt(steps'[i].member) == Some(edges'[i].1)
    {
      if i < |steps| {
        assert steps'[i] == steps[i] && printed'[i] == printed[i] && edges'[i] == edges[i];
      }
    }
  }

  /**
   * A run that raised nothing did one step per member and no `Missing`: it
   * printed `"k v"` and appended the edge `(int(k), int(v))` for each, in order.
   */
  lemma {:induction false} CleanRun(steps: seq<Step>)
    requires Exec(steps).fault.None?
    ensures Recorded(steps, Exec(steps).printed, Exec(steps).edges)
    decreases |steps|
  {
    if steps != [] {
      var init, st := steps[..|steps| - 1], steps[|steps| - 1];
      var p := Exec(init);
      LastSplit(steps);
      CleanRun(init);
      ExecSnoc(init, st);
      ApplyClean(p, st);
      RecordedSnoc(init, p.printed, p.edges, st.key, st.member);
    }
  }

  // ---------------------------------------------------------------- the text `Debug` writes

  /** One map entry: a key and its set's members, in the order the hash set yields them. */
  type Entry = (nat, seq<nat>)

  function MemberTexts(vs: seq<nat>): (r: seq<string>)
    ensures |r| == |vs| && forall j :: 0 <= j < |vs| ==> r[j] == Decimal(vs[j])
  {
    seq(|vs|, j requires 0 <= j < |vs| => Decimal(vs[j]))
  }

  /** `{:?}` of a `HashSet<usize>`: `{v, w}`, or `{}`. */
  function SetText(vs: seq<nat>): string
  {
    "{" + Join(MemberTexts(vs), ", ") + "}"
  }

  function EntryText(e: Entry): string
  {
    Decimal(e.0) + ": " + SetText(e.1)
  }

  function Texts(m: seq<Entry>): (r: seq<string>)
    ensures |r| == |m| && forall i :: 0 <= i < |m| ==> r[i] == EntryText(m[i])
  {
    seq(|m|, i requires 0 <= i < |m| => EntryText(m[i]))
  }

  /** `{:?}` of a `HashMap<usize, HashSet<usize>>`: `{k: {v, w}, j: {}}`, entries in iteration order. */
  function DebugText(m: seq<Entry>): string
  {
    "{" + Join(Texts(m), ", ") + "}"
  }

  /** An entry as line 8 leaves it when another follows: its closing brace went with the separator. */
  function Opened(e: Entry): string
  {
    Decimal(e.0) + ": {" + Join(MemberTexts(e.1), ", ")
  }

  function Opens(m: seq<Entry>): (r: seq<string>)
    ensures |r| == |m| && forall i :: 0 <= i < |m| ==> r[i] == Opened(m[i])
  {
    seq(|m|, i requires 0 <= i < |m| => Opened(m[i]))
  }

  /** The edges an entry stands for, `[k, v]` for each member `v`. */
  function EntryPairs(e: Entry): (r: seq<(nat, nat)>)
    ensures |r| == |e.1| && forall j :: 0 <= j < |e.1| ==> r[j] == (e.0, e.1[j])
  {
    seq(|e.1|, j requires 0 <= j < |e.1| => (e.0, e.1[j]))
  }

  function Pairs(m: seq<Entry>): seq<(nat, nat)>
    decreases |m|
  {
    if m == [] then [] else Pairs(m[..|m| - 1]) + EntryPairs(m[|m| - 1])
  }

  function MemberSteps(ps: seq<(nat, nat)>): (r: seq<Step>)
    ensures |r| == |ps| && forall i :: 0 <= i < |ps| ==> r[i] == Member(Decimal(ps[i].0), Decimal(ps[i].1))
  {
    seq(|ps|, i requires 0 <= i < |ps| => Member(Decimal(ps[i].0), Decimal(ps[i].1)))
  }

  /** The lines the script prints for the edges `ps`. */
  function Printed(ps: seq<(nat, nat)>): (r: seq<string>)
    ensures |r| == |ps| && forall i :: 0 <= i < |ps| ==> r[i] == Decimal(ps[i].0) + " " + Decimal(ps[i].1)
  {
    seq(|ps|, i requires 0 <= i < |ps| => Decimal(ps[i].0) + " " + Decimal(ps[i].1))
  }

  lemma DecimalAvoids(v: nat, c: char)
    requires !IsDigit(c)
    ensures c !in Decimal(v)
  {
    var d := Decimal(v);
    assert forall i :: 0 <= i < |d| ==> IsDigit(d[i]);
  }

  lemma MembersAvoid(vs: seq<nat>, c: char)
    requires !IsDigit(c) && c != ',' && c != ' '
    ensures c !in Join(MemberTexts(vs), ", ")
  {
    forall j | 0 <= j < |vs| ensures c !in MemberTexts(vs)[j] {
      DecimalAvoids(vs[j], c);
    }
    JoinAvoids(MemberTexts(vs), ", ", c);
  }

  /** Decimal members joined by `", "` split back into the members. */
  lemma MembersSplit(vs: seq<nat>)
    requires |vs| > 0
    ensures Split(Join(MemberTexts(vs), ", "), ", ") == MemberTexts(vs)
  {
    var ts := MemberTexts(vs);
    forall j | 0 <= j < |vs| ensures ',' !in ts[j] {
      DecimalAvoids(vs[j], ',');
    }
    NoOccurrenceWithoutFirst(ts[|ts| - 1], ", ");
    SplitJoin(ts, ", ");
  }

  /** A key and a text, neither holding `':'`, around `": {"` split back into the two. */
  lemma {:induction false} KeySplit(d: string, t: string)
    requires ':' !in d && ':' !in t
    ensures Split(d + ": {" + t, ": {") == [d, t]
  {
    SplitFirst(d, ": {", t);
    SplitWhole(t, ": {");
  }

  /** The text after `": {"` of an entry: the joined members, or nothing. */
  lemma OpenedSplit(e: Entry)
    ensures Split(Opened(e), ": {") == [Decimal(e.0), Join(MemberTexts(e.1), ", ")]
    ensures Split(Opened(e) + "}", ": {") == [Decimal(e.0), Join(MemberTexts(e.1), ", ") + "}"]
  {
    var d, t := Decimal(e.0), Join(MemberTexts(e.1), ", ");
    DecimalAvoids(e.0, ':');
    MembersAvoid(e.1, ':');
    KeySplit(d, t);
    KeySplit(d, t + "}");
    CloseRegroup(d, t);
  }

  lemma CloseRegroup(d: string, t: string)
    ensures d + ": {" + t + "}" == d + ": {" + (t + "}")
  {
  }

  /** A cut entry yields one step per member. */
  lemma OpenedSteps(e: Entry)
    ensures EntrySteps(Opened(e)) == MemberSteps(EntryPairs(e))
  {
    OpenedSplit(e);
    var vs := e.1;
    if vs == [] {
      assert Join(MemberTexts(vs), ", ") == "";
    } else {
      JoinCoversFirst(MemberTexts(vs), ", ");
      DecimalAvoids(vs[0], ':');
      MembersSplit(vs);
      forall j | 0 <= j < |vs| ensures RemoveChar(Decimal(vs[j]), '}') == Decimal(vs[j]) {
        DecimalAvoids(vs[j], '}');
        RemoveAbsent(Decimal(vs[j]), '}');
      }
    }
  }

  /** `EntrySteps` of a text that splits at `": {"` into a key and a non-empty rest. */
  lemma EntryStepsOf(e: string, d: string, t: string, vs: seq<nat>)
    requires Split(e, ": {") == [d, t] && |t| > 0
    requires var ws := Split(t, ", ");
      |ws| == |vs| && forall j :: 0 <= j < |vs| ==> RemoveChar(ws[j], '}') == Decimal(vs[j])
    ensures EntrySteps(e) == seq(|vs|, j requires 0 <= j < |vs| => Member(d, Decimal(vs[j])))
  {
  }

  /** The members joined and closed split back into the members, the last with the brace. */
  lemma ClosedMembersSplit(vs: seq<nat>)
    requires |vs| > 0
    ensures var ws := Split(Join(MemberTexts(vs), ", ") + "}", ", ");
      |ws| == |vs| && forall j :: 0 <= j < |vs| ==> RemoveChar(ws[j], '}') == Decimal(vs[j])
  {
    var ts := MemberTexts(vs);
    var n := |ts|;
    var closed := ts[..n - 1] + [ts[n - 1] + "}"];
    JoinExtendLast(ts, ", ", "}");
    forall j | 0 <= j < n ensures ',' !in closed[j] {
      DecimalAvoids(vs[j], ',');
    }
    NoOccurrenceWithoutFirst(closed[n - 1], ", ");
    SplitJoin(closed, ", ");
    forall j | 0 <= j < n ensures RemoveChar(closed[j], '}') == Decimal(vs[j]) {
      DecimalAvoids(vs[j], '}');
      if j < n - 1 {
        RemoveAbsent(Decimal(vs[j]), '}');
      } else {
        RemoveLast(Decimal(vs[j]), '}');
        assert closed[j] == Decimal(vs[j]) + ['}'];
      }
    }
  }

  /** The last entry, closing brace and all, yields the same steps when its set is not empty. */
  lemma LastSteps(e: Entry)
    requires |e.1| > 0
    ensures EntrySteps(Opened(e) + "}") == MemberSteps(EntryPairs(e))
  {
    OpenedSplit(e);
    ClosedMembersSplit(e.1);
    EntryStepsOf(Opened(e) + "}", Decimal(e.0), Join(MemberTexts(e.1), ", ") + "}", e.1);
  }

  lemma EntryTextOpened(e: Entry)
    ensures EntryText(e) == Opened(e) + "}"
  {
    var d, t := Decimal(e.0), Join(MemberTexts(e.1), ", ");
    assert ": " + "{" == ": {";
    assert d + ": " + ("{" + t + "}") == d + (": " + "{") + t + "}";
  }

  /** What line 8 makes of the text: every entry but the last cut before its closing brace. */
  function Cut(m: seq<Entry>): (r: seq<string>)
    requires |m| > 0
    ensures |r| == |m|
  {
    Opens(m[..|m| - 1]) + [EntryText(m[|m| - 1])]
  }

  lemma BodyBraced(j: string)
    ensures Body("{" + j + "}") == j
  {
    var t := "{" + j + "}";
    var b := Body(t);
    assert |b| == |j|;
    forall i | 0 <= i < |j| ensures b[i] == j[i] {
      assert b[i] == t[i + 1];
    }
  }

  /** Joining the entry texts by `", "` is joining the cut entries by `"}, "`. */
  lemma TextsJoin(m: seq<Entry>)
    requires |m| > 0
    ensures Join(Texts(m), ", ") == Join(Cut(m), "}, ")
  {
    var n := |m|;
    var opens := Opens(m[..n - 1]);
    var texts := Texts(m);
    forall i | 0 <= i < n - 1 ensures texts[..n - 1][i] == opens[i] + "}" {
      EntryTextOpened(m[i]);
    }
    JoinShift(opens, texts[..n - 1], texts[n - 1], "}", ", ");
    LastSplit(texts);
    assert "}" + ", " == "}, ";
  }

  /** The cut entries, joined by `"}, "`, split back into themselves. */
  lemma SplitCut(m: seq<Entry>)
    requires |m| > 0
    ensures Split(Join(Cut(m), "}, "), "}, ") == Cut(m)
  {
    var n := |m|;
    var c := Cut(m);
    forall i | 0 <= i < n - 1 ensures '}' !in c[i] {
      OpenedAvoids(m[i]);
    }
    EntryTextOpened(m[n - 1]);
    OpenedAvoids(m[n - 1]);
    ClosedOnce(Opened(m[n - 1]));
    SplitJoin(c, "}, ");
  }

  lemma EntriesOf(m: seq<Entry>)
    requires |m| > 0
    ensures Entries(DebugText(m)) == Cut(m)
  {
    BodyBraced(Join(Texts(m), ", "));
    TextsJoin(m);
    SplitCut(m);
  }

  lemma OpenedAvoids(e: Entry)
    ensures '}' !in Opened(e)
  {
    DecimalAvoids(e.0, '}');
    MembersAvoid(e.1, '}');
  }

  /** A text whose only closing brace is its last character holds no `"}, "`. */
  lemma ClosedOnce(p: string)
    requires '}' !in p
    ensures NoOccurrence(p + "}", "}, ")
  {
    var s := p + "}";
    forall j | 0 <= j < |s| ensures !OccursAt(s, "}, ", j) {
      if j + 3 <= |s| {
        assert s[j] == s[j..j + 3][0];
        assert j < |p| && s[j] == p[j];
      }
    }
  }

  lemma MemberStepsAppend(a: seq<(nat, nat)>, b: seq<(nat, nat)>)
    ensures MemberSteps(a + b) == MemberSteps(a) + MemberSteps(b)
  {
  }

  lemma {:induction false} FlattenEntries(parts: seq<seq<Step>>, m: seq<Entry>)
    requires |parts| == |m| && forall i :: 0 <= i < |m| ==> parts[i] == MemberSteps(EntryPairs(m[i]))
    ensures Flatten(parts) == MemberSteps(Pairs(m))
    decreases |m|
  {
    if m != [] {
      var n := |m|;
      FlattenEntries(parts[..n - 1], m[..n - 1]);
      MemberStepsAppend(Pairs(m[..n - 1]), EntryPairs(m[n - 1]));
    }
  }

  /** The cut entries yield one step per edge, in order. */
  lemma OpenedFlatten(m: seq<Entry>)
    ensures Flatten(Parts(Opens(m))) == MemberSteps(Pairs(m))
  {
    var parts := Parts(Opens(m));
    forall i | 0 <= i < |m| ensures parts[i] == MemberSteps(EntryPairs(m[i])) {
      OpenedSteps(m[i]);
    }
    FlattenEntries(parts, m);
  }

  /** Steps for decimal keys and members raise nothing: each prints its line and appends its edge. */
  lemma {:induction false} ExecPairs(ps: seq<(nat, nat)>)
    ensures Exec(MemberSteps(ps)) == Outcome(Printed(ps), ps, None)
    decreases |ps|
  {
    if ps != [] {
      var init := ps[..|ps| - 1];
      var (k, v) := ps[|ps| - 1];
      ExecPairs(init);
      PairsSnoc(ps);
      ExecSnoc(MemberSteps(init), Member(Decimal(k), Decimal(v)));
      PyIntOf(k);
      PyIntOf(v);
    }
  }

  lemma PairsSnoc(ps: seq<(nat, nat)>)
    requires |ps| > 0
    ensures var init, last := ps[..|ps| - 1], ps[|ps| - 1];
      MemberSteps(ps) == MemberSteps(init) + [Member(Decimal(last.0), Decimal(last.1))]
      && Printed(ps) == Printed(init) + [Decimal(last.0) + " " + Decimal(last.1)]
      && ps == init + [last]
  {
    var n := |ps|;
    var init, last := ps[..n - 1], ps[n - 1];
    var a, b := MemberSteps(ps), MemberSteps(init) + [Member(Decimal(last.0), Decimal(last.1))];
    assert |a| == |b|;
    forall i | 0 <= i < n ensures a[i] == b[i] {
      if i < n - 1 { assert init[i] == ps[i]; }
    }
    var c, d := Printed(ps), Printed(init) + [Decimal(last.0) + " " + Decimal(last.1)];
    assert |c| == |d|;
    forall i | 0 <= i < n ensures c[i] == d[i] {
      if i < n - 1 { assert init[i] == ps[i]; }
    }
    LastSplit(ps);
  }

  /** Steps of the text line 8 cuts: those of the cut entries, then those of the last entry. */
  lemma CutSteps(m: seq<Entry>)
    requires |m| > 0
    ensures Steps(Cut(m)) == MemberSteps(Pairs(m[..|m| - 1])) + EntrySteps(EntryText(m[|m| - 1]))
  {
    var init := m[..|m| - 1];
    var opens := Opens(init);
    assert Parts(Cut(m)) == Parts(opens) + [EntrySteps(EntryText(m[|m| - 1]))];
    LastSplit(Parts(Cut(m)));
    OpenedFlatten(init);
  }

  /**
   * Round trip with Rust's `Debug` text: when the last set is not empty, the
   * script prints `"k v"` and collects the edge `[k, v]` for every member of
   * every set, entry by entry, and raises nothing. Empty sets before the last
   * contribute nothing.
   */
  lemma {:induction false} RoundTrip(m: seq<Entry>)
    requires |m| > 0 && |m[|m| - 1].1| > 0
    ensures Exec(Steps(Entries(DebugText(m)))) == Outcome(Printed(Pairs(m)), Pairs(m), None)
  {
    var e := m[|m| - 1];
    EntriesOf(m);
    CutSteps(m);
    EntryTextOpened(e);
    LastSteps(e);
    MemberStepsAppend(Pairs(m[..|m| - 1]), EntryPairs(e));
    ExecPairs(Pairs(m));
  }

  /**
   * When the last set is empty, the script collects every edge of the other
   * entries, prints `"k "` for the last key, and raises `ValueError`.
   */
  lemma {:induction false} LastEmptyRaises(m: seq<Entry>)
    requires |m| > 0 && m[|m| - 1].1 == []
    ensures var k := m[|m| - 1].0;
      Exec(Steps(Entries(DebugText(m)))) == Outcome(Printed(Pairs(m)) + [Decimal(k) + " "], Pairs(m), Some(ValueError))
  {
    var e := m[|m| - 1];
    var init := m[..|m| - 1];
    EntriesOf(m);
    CutSteps(m);
    EmptySetText(e.0);
    LastEmptySetStep(e.0);
    assert Pairs(m) == Pairs(init) by {
      assert EntryPairs(e) == [];
    }
    ExecPairs(Pairs(init));
    ExecSnoc(MemberSteps(Pairs(init)), Member(Decimal(e.0), ""));
    LastEmptySetRaises(e.0, Exec(MemberSteps(Pairs(init))));
  }

  lemma EmptySetText(k: nat)
    ensures EntryText((k, [])) == Decimal(k) + ": {}"
  {
    assert Join(MemberTexts([]), ", ") == "";
    assert "{" + "" + "}" == "{}";
    assert ": " + "{}" == ": {}";
  }

  /** The empty map is written `{}`, and the script raises `IndexError` on it. */
  lemma EmptyMapRaises()
    ensures DebugText([]) == "{}"
    ensures Exec(Steps(Entries(DebugText([])))) == Outcome([], [], Some(IndexError))
  {
    assert "{" + "" + "}" == "{}";
    EmptyMapFails();
  }
}
