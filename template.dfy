/**
 * A hand-written matcher for the fixed `parse` templates of the graph
 * scripts. A template is a list of pieces: literal text, `{:d}` and `{}`.
 * `parse` turns a template into an anchored regular expression compiled with
 * `re.IGNORECASE`: literal text matches case-insensitively, `{:d}` is an
 * optional sign from `-`, `+` or a space followed by greedy digits, and `{}`
 * is a lazy non-empty run of any characters. `Match` follows the expression's
 * backtracking order, so on ASCII digits it returns the match Python would
 * report. `{:d}` here accepts ASCII digits only; the Unicode digits that `\d`
 * also matches are not modelled.
 */
module Template {
  import opened Wrappers
  import opened Text
  import opened Python

  datatype Piece = Lit(text: string) | Int | Any

  datatype Value = IntV(i: int) | StrV(s: string)

  // ---------------------------------------------------------------- characters

  /** ASCII case folding, as `re.IGNORECASE` applies it to ASCII letters. */
  function Lower(c: char): (r: char)
    ensures IsDigit(r) <==> IsDigit(c)
  {
    if 'A' <= c <= 'Z' then (c as int + 32) as char else c
  }

  predicate FoldEq(a: string, b: string)
  {
    |a| == |b| && forall i :: 0 <= i < |a| ==> Lower(a[i]) == Lower(b[i])
  }

  predicate IsSign(c: char)
  {
    c == '-' || c == '+' || c == ' '
  }

  /** The length of the digit run at the start of `s`. */
  function DigitRun(s: string): (k: nat)
    ensures k <= |s| && AllDigits(s[..k])
    ensures k < |s| ==> !IsDigit(s[k])
    decreases |s|
  {
    if s != [] && IsDigit(s[0]) then
      var k := 1 + DigitRun(s[1..]);
      assert s[..k] == [s[0]] + s[1..][..k - 1];
      k
    else 0
  }

  /** Text `{:d}` accepts. */
  predicate IsNumeral(t: string)
  {
    |t| > 0 && (AllDigits(t) || (IsSign(t[0]) && |t| > 1 && AllDigits(t[1..])))
  }

  /** The integer `parse` converts a numeral to: the sign applies only when it is `-`. */
  function NumeralValue(t: string): int
    requires IsNumeral(t)
  {
    var magnitude: int := if AllDigits(t) then DigitsValue(t) else DigitsValue(t[1..]);
    if !AllDigits(t) && t[0] == '-' then -magnitude else magnitude
  }

  // ---------------------------------------------------------------- the matcher

  /** The length of the optional sign `{:d}` takes at the start of `s`. */
  function SignLength(s: string): (k: nat)
    ensures k <= |s|
  {
    if |s| > 0 && IsSign(s[0]) then 1 else 0
  }

  /** `parse(template, s)`: the values of the first match, or `None`. */
  function Match(t: seq<Piece>, s: string): Option<seq<Value>>
    decreases |t|, |s| + 2
  {
    if t == [] then (if s == [] then Some([]) else None)
    else match t[0]
      case Lit(text) =>
        if |text| <= |s| && FoldEq(s[..|text|], text) then Match(t[1..], s[|text|..]) else None
      case Int =>
        var k := SignLength(s);
        IntFrom(t[1..], s, k, DigitRun(s[k..]))
      case Any => AnyFrom(t[1..], s, 1)
  }

  /** `{:d}` backtracking: try `d` digits after the sign, then fewer. */
  function IntFrom(rest: seq<Piece>, s: string, k: nat, d: nat): Option<seq<Value>>
    requires k == SignLength(s) && k + d <= |s| && AllDigits(s[k..][..d])
    decreases |rest| + 1, d
  {
    if d == 0 then None
    else match Match(rest, s[k + d..])
      case Some(vs) =>
        assert IsNumeral(s[..k + d]) by { NumeralPrefix(s, k, d); }
        Some([IntV(NumeralValue(s[..k + d]))] + vs)
      case None =>
        assert s[k..][..d - 1] == s[k..][..d][..d - 1];
        IntFrom(rest, s, k, d - 1)
  }

  /** `{}` backtracking: the shortest non-empty prefix, from `j` characters up, after which the rest matches. */
  function AnyFrom(rest: seq<Piece>, s: string, j: nat): Option<seq<Value>>
    requires j >= 1
    decreases |rest| + 1, |s| + 1 - j
  {
    if j > |s| then None
    else match Match(rest, s[j..])
      case Some(vs) => Some([StrV(s[..j])] + vs)
      case None => AnyFrom(rest, s, j + 1)
  }

  lemma NumeralPrefix(s: string, k: nat, d: nat)
    requires k == SignLength(s) && 0 < d
    requires k + d <= |s| && AllDigits(s[k..][..d])
    ensures IsNumeral(s[..k + d])
  {
    var t := s[..k + d];
    if k == 0 {
      assert t == s[k..][..d];
    } else {
      assert t[1..] == s[k..][..d];
    }
  }

  // ---------------------------------------------------------------- what a match is

  /** The first `j` characters of `s` are a numeral whose value is `v`. */
  predicate NumeralAt(s: string, j: int, v: Value)
  {
    0 < j <= |s| && IsNumeral(s[..j]) && v == IntV(NumeralValue(s[..j]))
  }

  /** `vs` are the values of one way of reading `s` as the template `t`. */
  ghost predicate Fits(t: seq<Piece>, s: string, vs: seq<Value>)
    decreases |t|
  {
    if t == [] then s == [] && vs == []
    else match t[0]
      case Lit(text) => |text| <= |s| && FoldEq(s[..|text|], text) && Fits(t[1..], s[|text|..], vs)
      case Int =>
        |vs| > 0 && (exists j :: NumeralAt(s, j, vs[0]) && Fits(t[1..], s[j..], vs[1..]))
      case Any =>
        |vs| > 0 && (exists j :: 0 < j <= |s| && vs[0] == StrV(s[..j]) && Fits(t[1..], s[j..], vs[1..]))
  }

  /**
   * A template no string can read two ways: each `{:d}` is last or followed by
   * literal text that does not start with a digit, and `{}` is last.
   */
  predicate Separated(t: seq<Piece>)
  {
    forall i :: 0 <= i < |t| ==>
      (t[i].Int? ==> i == |t| - 1 || (t[i + 1].Lit? && |t[i + 1].text| > 0 && !IsDigit(t[i + 1].text[0])))
      && (t[i].Any? ==> i == |t| - 1)
  }

  lemma SeparatedRest(t: seq<Piece>)
    requires |t| > 0 && Separated(t)
    ensures Separated(t[1..])
  {
    forall i | 0 <= i < |t| - 1
      ensures (t[1..][i].Int? ==> i == |t| - 2 || (t[1..][i + 1].Lit? && |t[1..][i + 1].text| > 0 && !IsDigit(t[1..][i + 1].text[0])))
      && (t[1..][i].Any? ==> i == |t| - 2)
    {
      assert t[1..][i] == t[i + 1];
      if i + 1 < |t| - 1 { assert t[1..][i + 1] == t[i + 2]; }
    }
  }

  // ---------------------------------------------------------------- soundness

  /** Whatever `Match` reports is a reading of the string. */
  lemma {:induction false} MatchSound(t: seq<Piece>, s: string)
    ensures Match(t, s).Some? ==> Fits(t, s, Match(t, s).value)
    decreases |t|, |s| + 2
  {
    if t != [] {
      match t[0]
      case Lit(text) =>
        if |text| <= |s| && FoldEq(s[..|text|], text) {
          MatchSound(t[1..], s[|text|..]);
        }
      case Int =>
        var k := SignLength(s);
        IntFromSound(t[1..], s, k, DigitRun(s[k..]));
      case Any =>
        AnyFromSound(t[1..], s, 1);
    }
  }

  lemma {:induction false} IntFromSound(rest: seq<Piece>, s: string, k: nat, d: nat)
    requires k + d <= |s| && k == SignLength(s) && AllDigits(s[k..][..d])
    ensures var r := IntFrom(rest, s, k, d);
      r.Some? ==> |r.value| > 0 && (exists j :: NumeralAt(s, j, r.value[0]) && Fits(rest, s[j..], r.value[1..]))
    decreases |rest| + 1, d
  {
    if d > 0 {
      MatchSound(rest, s[k + d..]);
      if Match(rest, s[k + d..]).None? {
        assert s[k..][..d - 1] == s[k..][..d][..d - 1];
        IntFromSound(rest, s, k, d - 1);
      } else {
        NumeralPrefix(s, k, d);
      }
    }
  }

  lemma {:induction false} AnyFromSound(rest: seq<Piece>, s: string, j: nat)
    requires j >= 1
    ensures var r := AnyFrom(rest, s, j);
      r.Some? ==> |r.value| > 0 && (exists i :: 0 < i <= |s| && r.value[0] == StrV(s[..i]) && Fits(rest, s[i..], r.value[1..]))
    decreases |rest| + 1, |s| + 1 - j
  {
    if j <= |s| {
      MatchSound(rest, s[j..]);
      if Match(rest, s[j..]).None? {
        AnyFromSound(rest, s, j + 1);
      }
    }
  }

  lemma MatchThenFits(t: seq<Piece>, s: string, vs: seq<Value>)
    requires Match(t, s) == Some(vs)
    ensures Fits(t, s, vs)
  {
    MatchSound(t, s);
  }

  // ---------------------------------------------------------------- completeness

  /** On a separated template, every reading is the one `Match` reports. */
  lemma {:induction false} MatchComplete(t: seq<Piece>, s: string, vs: seq<Value>)
    requires Separated(t) && Fits(t, s, vs)
    ensures Match(t, s) == Some(vs)
    decreases |t|
  {
    if t != [] {
      SeparatedRest(t);
      match t[0]
      case Lit(text) =>
        MatchComplete(t[1..], s[|text|..], vs);
      case Int =>
        var j :| NumeralAt(s, j, vs[0]) && Fits(t[1..], s[j..], vs[1..]);
        MatchComplete(t[1..], s[j..], vs[1..]);
        NumeralEnd(t, s, j, vs[1..]);
        CompleteInt(t, s, vs, j);
      case Any =>
        CompleteAny(t, s, vs);
    }
  }

  lemma CompleteInt(t: seq<Piece>, s: string, vs: seq<Value>, j: nat)
    requires |t| > 0 && t[0].Int? && |vs| > 0 && NumeralAt(s, j, vs[0])
    requires j == SignLength(s) + DigitRun(s[SignLength(s)..])
    requires Match(t[1..], s[j..]) == Some(vs[1..])
    ensures Match(t, s) == Some(vs)
  {
    var k := SignLength(s);
    var d := DigitRun(s[k..]);
    RunPositive(s, j);
    IntFromHit(t[1..], s, k, d, vs[1..]);
    ConsSplit(vs);
  }

  lemma ConsSplit<T>(s: seq<T>)
    requires |s| > 0
    ensures s == [s[0]] + s[1..]
  {
  }

  /** A numeral that ends where the digit run ends holds at least one digit. */
  lemma RunPositive(s: string, j: nat)
    requires 0 < j <= |s| && IsNumeral(s[..j])
    requires j == SignLength(s) + DigitRun(s[SignLength(s)..])
    ensures DigitRun(s[SignLength(s)..]) > 0
  {
    var n := s[..j];
    assert n[0] == s[0];
    if SignLength(s) == 1 {
      assert !IsDigit(n[0]);
      assert |n| > 1;
    }
  }

  /** `{:d}` backtracking stops at once when the rest matches after the whole run. */
  lemma IntFromHit(rest: seq<Piece>, s: string, k: nat, d: nat, ws: seq<Value>)
    requires k == SignLength(s) && k + d <= |s| && AllDigits(s[k..][..d]) && d > 0
    requires Match(rest, s[k + d..]) == Some(ws)
    ensures IsNumeral(s[..k + d])
    ensures IntFrom(rest, s, k, d) == Some([IntV(NumeralValue(s[..k + d]))] + ws)
  {
    NumeralPrefix(s, k, d);
  }

  lemma CompleteAny(t: seq<Piece>, s: string, vs: seq<Value>)
    requires |t| > 0 && t[0].Any? && Separated(t) && Fits(t, s, vs)
    ensures Match(t, s) == Some(vs)
  {
    var j :| 0 < j <= |s| && vs[0] == StrV(s[..j]) && Fits(t[1..], s[j..], vs[1..]);
    assert t[1..] == [];
    assert s[j..] == [] && vs[1..] == [];
    AnyLast(s, 1);
    assert j == |s| && s[..j] == s;
    assert vs == [vs[0]] + vs[1..] == [StrV(s)];
  }

  /** Where a `{:d}` reading ends on a separated template: after the sign and the whole digit run. */
  lemma NumeralEnd(t: seq<Piece>, s: string, j: nat, vs: seq<Value>)
    requires |t| > 0 && t[0].Int? && Separated(t)
    requires 0 < j <= |s| && IsNumeral(s[..j]) && Fits(t[1..], s[j..], vs)
    ensures j == SignLength(s) + DigitRun(s[SignLength(s)..])
  {
    var k := SignLength(s);
    var n := s[..j];
    // the numeral's own shape fixes where its digits start
    if AllDigits(n) {
      assert !IsSign(s[0]) by { assert n[0] == s[0]; }
      assert k == 0;
    } else {
      assert IsSign(s[0]) by { assert n[0] == s[0]; }
      assert k == 1;
    }
    var u := s[k..];
    var d := DigitRun(u);
    forall i | 0 <= i < j - k ensures IsDigit(u[i]) {
      assert u[i] == n[k + i];
      if k == 1 { assert n[1..][i] == n[1 + i]; }
    }
    if j - k < d {
      assert s[..k + d][j] == s[j];
      assert IsDigit(u[j - k]);
      NextNotDigit(t, s, j, vs);
    } else if j - k > d {
      assert false;
    }
  }

  /** After a `{:d}` reading, on a separated template, comes the end or a character that is not a digit. */
  lemma NextNotDigit(t: seq<Piece>, s: string, j: nat, vs: seq<Value>)
    requires |t| > 0 && t[0].Int? && Separated(t)
    requires j <= |s| && Fits(t[1..], s[j..], vs)
    ensures j == |s| || !IsDigit(s[j])
  {
    if |t| > 1 {
      var text := t[1].text;
      assert t[1..][0] == t[1];
      assert |text| <= |s[j..]| && FoldEq(s[j..][..|text|], text);
      assert Lower(s[j..][..|text|][0]) == Lower(text[0]);
      assert s[j..][..|text|][0] == s[j];
    }
  }

  /** A final `{}` takes everything that is left. */
  lemma {:induction false} AnyLast(s: string, j: nat)
    requires 1 <= j <= |s|
    ensures AnyFrom([], s, j) == Some([StrV(s)])
    decreases |s| - j
  {
    if j < |s| {
      assert Match([], s[j..]).None?;
      AnyLast(s, j + 1);
    } else {
      assert s[..j] == s && s[j..] == [];
      assert Match([], s[j..]) == Some([]);
      assert AnyFrom([], s, j) == Some([StrV(s[..j])] + []);
      assert [StrV(s[..j])] + [] == [StrV(s)];
    }
  }

  /** On a separated template, `Match` reports exactly the readings: there is at most one, and it is found. */
  lemma MatchExactly(t: seq<Piece>, s: string, vs: seq<Value>)
    requires Separated(t)
    ensures Match(t, s) == Some(vs) <==> Fits(t, s, vs)
  {
    if Match(t, s) == Some(vs) { MatchThenFits(t, s, vs); }
    if Fits(t, s, vs) { MatchComplete(t, s, vs); }
  }

  // ---------------------------------------------------------------- writing a line

  /** `vs` has a value of the right kind for every `{:d}` and `{}`, and the latter are non-empty. */
  predicate Conforms(t: seq<Piece>, vs: seq<Value>)
    decreases |t|
  {
    if t == [] then vs == []
    else match t[0]
      case Lit(_) => Conforms(t[1..], vs)
      case Int => |vs| > 0 && vs[0].IntV? && Conforms(t[1..], vs[1..])
      case Any => |vs| > 0 && vs[0].StrV? && |vs[0].s| > 0 && Conforms(t[1..], vs[1..])
  }

  /** The template filled in with `vs`, each integer written as `format!` or `str` writes it. */
  function Render(t: seq<Piece>, vs: seq<Value>): string
    requires Conforms(t, vs)
    decreases |t|
  {
    if t == [] then ""
    else match t[0]
      case Lit(text) => text + Render(t[1..], vs)
      case Int => IntText(vs[0].i) + Render(t[1..], vs[1..])
      case Any => vs[0].s + Render(t[1..], vs[1..])
  }

  lemma IntTextNumeral(v: int)
    ensures IsNumeral(IntText(v)) && NumeralValue(IntText(v)) == v
  {
    var d := Decimal(if v < 0 then -v else v);
    DecimalValue(if v < 0 then -v else v);
    if v < 0 {
      var t := IntText(v);
      assert t == "-" + d && t[1..] == d;
      assert !AllDigits(t) by { assert !IsDigit(t[0]); }
    }
  }

  lemma FoldEqReflexive(a: string)
    ensures FoldEq(a, a)
  {
  }

  /** A filled-in template is read as the values it was filled with. */
  lemma {:induction false} RenderFits(t: seq<Piece>, vs: seq<Value>)
    requires Conforms(t, vs)
    ensures Fits(t, Render(t, vs), vs)
    decreases |t|
  {
    if t != [] {
      var s := Render(t, vs);
      match t[0]
      case Lit(text) =>
        RenderFits(t[1..], vs);
        PrefixSplit(text, Render(t[1..], vs));
        FoldEqReflexive(text);
      case Int =>
        RenderFits(t[1..], vs[1..]);
        var w := IntText(vs[0].i);
        IntTextNumeral(vs[0].i);
        PrefixSplit(w, Render(t[1..], vs[1..]));
        ConsSplit(vs);
      case Any =>
        RenderFits(t[1..], vs[1..]);
        PrefixSplit(vs[0].s, Render(t[1..], vs[1..]));
    }
  }

  lemma PrefixSplit<T>(a: seq<T>, b: seq<T>)
    ensures (a + b)[..|a|] == a && (a + b)[|a|..] == b
  {
  }

  /** No literal of `t` holds `c`. */
  predicate LitsAvoid(t: seq<Piece>, c: char)
  {
    forall i :: 0 <= i < |t| && t[i].Lit? ==> c !in t[i].text
  }

  /** A character that is not in the literals, not in the strings, and not a digit or `-`, is not in the rendering. */
  lemma {:induction false} RenderAvoids(t: seq<Piece>, vs: seq<Value>, c: char)
    requires Conforms(t, vs) && LitsAvoid(t, c) && !IsDigit(c) && c != '-'
    requires forall i :: 0 <= i < |vs| && vs[i].StrV? ==> c !in vs[i].s
    ensures c !in Render(t, vs)
    decreases |t|
  {
    if t != [] {
      assert LitsAvoid(t[1..], c) by {
        forall i | 0 <= i < |t| - 1 && t[1..][i].Lit? ensures c !in t[1..][i].text {
          assert t[1..][i] == t[i + 1];
        }
      }
      match t[0]
      case Lit(text) =>
        assert t[0].Lit?;
        RenderAvoids(t[1..], vs, c);
      case Int =>
        assert forall i :: 0 <= i < |vs| - 1 ==> vs[1..][i] == vs[i + 1];
        RenderAvoids(t[1..], vs[1..], c);
        var v := vs[0].i;
        assert c !in IntText(v) by {
          var d := Decimal(if v < 0 then -v else v);
          assert forall k :: 0 <= k < |d| ==> d[k] != c;
        }
      case Any =>
        assert forall i :: 0 <= i < |vs| - 1 ==> vs[1..][i] == vs[i + 1];
        RenderAvoids(t[1..], vs[1..], c);
        assert vs[0].StrV?;
    }
  }

  /** Round trip: on a separated template, `parse` reads a filled-in line back as its values. */
  lemma RenderMatches(t: seq<Piece>, vs: seq<Value>)
    requires Separated(t) && Conforms(t, vs)
    ensures Match(t, Render(t, vs)) == Some(vs)
  {
    RenderFits(t, vs);
    MatchComplete(t, Render(t, vs), vs);
  }

  // ---------------------------------------------------------------- templates of integer fields

  /** Each literal of `lits` followed by a `{:d}`, then `tail`. */
  function Fields(lits: seq<string>, tail: seq<Piece>): seq<Piece>
    decreases |lits|
  {
    if lits == [] then tail else [Lit(lits[0]), Int] + Fields(lits[1..], tail)
  }

  function IntValues(ints: seq<int>): (vs: seq<Value>)
    ensures |vs| == |ints| && forall i :: 0 <= i < |ints| ==> vs[i] == IntV(ints[i])
  {
    seq(|ints|, i requires 0 <= i < |ints| => IntV(ints[i]))
  }

  /** Each literal of `lits` followed by the matching integer, as `format!` writes `{}`. */
  function Written(lits: seq<string>, ints: seq<int>): string
    requires |lits| == |ints|
    decreases |lits|
  {
    if lits == [] then "" else lits[0] + IntText(ints[0]) + Written(lits[1..], ints[1..])
  }

  lemma {:induction false} FieldsConform(lits: seq<string>, tail: seq<Piece>, ints: seq<int>, tvs: seq<Value>)
    requires |lits| == |ints| && Conforms(tail, tvs)
    ensures Conforms(Fields(lits, tail), IntValues(ints) + tvs)
    decreases |lits|
  {
    if lits != [] {
      var t := Fields(lits, tail);
      var vs := IntValues(ints) + tvs;
      FieldsConform(lits[1..], tail, ints[1..], tvs);
      assert t[0] == Lit(lits[0]) && t[1..][0] == Int && t[1..][1..] == Fields(lits[1..], tail);
      assert vs[0] == IntV(ints[0]) && vs[1..] == IntValues(ints[1..]) + tvs;
      assert Conforms(t[1..], vs);
    } else {
      assert IntValues(ints) + tvs == tvs;
    }
  }

  lemma RenderLitStep(t: seq<Piece>, vs: seq<Value>)
    requires |t| > 0 && t[0].Lit? && Conforms(t[1..], vs)
    ensures Conforms(t, vs) && Render(t, vs) == t[0].text + Render(t[1..], vs)
  {
  }

  lemma RenderIntStep(t: seq<Piece>, vs: seq<Value>)
    requires |t| > 0 && t[0].Int? && |vs| > 0 && vs[0].IntV? && Conforms(t[1..], vs[1..])
    ensures Conforms(t, vs) && Render(t, vs) == IntText(vs[0].i) + Render(t[1..], vs[1..])
  {
  }

  /** Filling in the fields writes each literal and the matching integer, then the tail. */
  lemma {:induction false} FieldsRender(lits: seq<string>, tail: seq<Piece>, ints: seq<int>, tvs: seq<Value>)
    requires |lits| == |ints| && Conforms(tail, tvs)
    ensures Conforms(Fields(lits, tail), IntValues(ints) + tvs)
    ensures Render(Fields(lits, tail), IntValues(ints) + tvs) == Written(lits, ints) + Render(tail, tvs)
    decreases |lits|
  {
    if lits != [] {
      var t := Fields(lits, tail);
      var vs := IntValues(ints) + tvs;
      FieldsRender(lits[1..], tail, ints[1..], tvs);
      FieldsHead(lits, tail);
      ValuesHead(ints, tvs);
      RenderIntStep(t[1..], vs);
      RenderLitStep(t, vs);
      var a, b, w, r := lits[0], IntText(ints[0]), Written(lits[1..], ints[1..]), Render(tail, tvs);
      Reassociate(a, b, w, r);
    } else {
      var r := Render(tail, tvs);
      assert IntValues(ints) + tvs == tvs && Fields(lits, tail) == tail;
      assert Written(lits, ints) + r == r;
    }
  }

  lemma FieldsHead(lits: seq<string>, tail: seq<Piece>)
    requires lits != []
    ensures var t := Fields(lits, tail);
      |t| >= 2 && t[0] == Lit(lits[0]) && t[1..][0] == Int && t[1..][1..] == Fields(lits[1..], tail)
  {
  }

  lemma ValuesHead(ints: seq<int>, tvs: seq<Value>)
    requires ints != []
    ensures var vs := IntValues(ints) + tvs;
      |vs| > 0 && vs[0] == IntV(ints[0]) && vs[1..] == IntValues(ints[1..]) + tvs
  {
    var vs := IntValues(ints) + tvs;
    var ws := IntValues(ints[1..]) + tvs;
    assert |vs[1..]| == |ws|;
    forall i | 0 <= i < |ws| ensures vs[1..][i] == ws[i] {
      if i < |ints| - 1 { assert ints[1..][i] == ints[i + 1]; }
    }
  }

  lemma Reassociate<T>(a: seq<T>, b: seq<T>, w: seq<T>, r: seq<T>)
    ensures a + (b + (w + r)) == (a + b + w) + r
  {
  }

  /** The literals after the first start with something other than a digit. */
  predicate DigitFree(lits: seq<string>, tail: seq<Piece>)
  {
    (forall i :: 0 < i < |lits| ==> |lits[i]| > 0 && !IsDigit(lits[i][0]))
    && (lits != [] && tail != [] ==> tail[0].Lit? && |tail[0].text| > 0 && !IsDigit(tail[0].text[0]))
  }

  lemma {:induction false} FieldsSeparated(lits: seq<string>, tail: seq<Piece>)
    requires DigitFree(lits, tail) && Separated(tail)
    ensures Separated(Fields(lits, tail))
    decreases |lits|
  {
    if lits != [] {
      var t := Fields(lits, tail);
      var rest := Fields(lits[1..], tail);
      assert DigitFree(lits[1..], tail) by {
        forall i | 0 < i < |lits| - 1 ensures |lits[1..][i]| > 0 && !IsDigit(lits[1..][i][0]) {
          assert lits[1..][i] == lits[i + 1];
        }
      }
      FieldsSeparated(lits[1..], tail);
      assert rest != [] ==> rest[0].Lit? && |rest[0].text| > 0 && !IsDigit(rest[0].text[0]) by {
        if lits[1..] != [] { assert rest[0] == Lit(lits[1]); }
      }
      forall i | 0 <= i < |t|
        ensures (t[i].Int? ==> i == |t| - 1 || (t[i + 1].Lit? && |t[i + 1].text| > 0 && !IsDigit(t[i + 1].text[0])))
        && (t[i].Any? ==> i == |t| - 1)
      {
        if i >= 2 {
          assert t[i] == rest[i - 2];
          if i + 1 < |t| { assert t[i + 1] == rest[i - 1]; }
        } else if i == 1 && 2 < |t| {
          assert t[2] == rest[0];
        }
      }
    }
  }

  lemma {:induction false} FieldsAvoid(lits: seq<string>, tail: seq<Piece>, c: char)
    requires (forall i :: 0 <= i < |lits| ==> c !in lits[i]) && LitsAvoid(tail, c)
    ensures LitsAvoid(Fields(lits, tail), c)
    decreases |lits|
  {
    if lits != [] {
      var t := Fields(lits, tail);
      var rest := Fields(lits[1..], tail);
      assert forall i :: 0 <= i < |lits| - 1 ==> lits[1..][i] == lits[i + 1];
      FieldsAvoid(lits[1..], tail, c);
      forall i | 0 <= i < |t| && t[i].Lit? ensures c !in t[i].text {
        if i >= 2 { assert t[i] == rest[i - 2]; }
      }
    }
  }

  // ---------------------------------------------------------------- a file of lines

  /** The values of every line, or the index of the first line that does not match. */
  function MatchAll(t: seq<Piece>, lines: seq<string>): (r: Result<seq<seq<Value>>, nat>)
    ensures r.Ok? ==> (|r.value| == |lines|
      && forall i :: 0 <= i < |lines| ==> Match(t, lines[i]) == Some(r.value[i]))
    ensures r.Err? ==> (r.error < |lines| && Match(t, lines[r.error]).None?
      && forall i :: 0 <= i < r.error ==> Match(t, lines[i]).Some?)
    decreases |lines|
  {
    if lines == [] then Ok([])
    else match Match(t, lines[0])
      case None => Err(0)
      case Some(vs) =>
        match MatchAll(t, lines[1..])
        case Ok(rows) =>
          assert forall i :: 1 <= i < |lines| ==> lines[i] == lines[1..][i - 1];
          Ok([vs] + rows)
        case Err(k) =>
          assert forall i :: 1 <= i < |lines| ==> lines[i] == lines[1..][i - 1];
          Err(k + 1)
  }

  /** When every line matches, `MatchAll` reports exactly the lines' values. */
  lemma {:induction false} MatchAllRows(t: seq<Piece>, lines: seq<string>, rows: seq<seq<Value>>)
    requires |rows| == |lines|
    requires forall i :: 0 <= i < |lines| ==> Match(t, lines[i]) == Some(rows[i])
    ensures MatchAll(t, lines) == Ok(rows)
    decreases |lines|
  {
    if lines != [] {
      assert forall i :: 0 <= i < |lines| - 1 ==> lines[1..][i] == lines[i + 1] && rows[1..][i] == rows[i + 1];
      MatchAllRows(t, lines[1..], rows[1..]);
      assert rows == [rows[0]] + rows[1..];
    }
  }

  /** When line `e` is the first that does not match, `MatchAll` reports `e`. */
  lemma {:induction false} MatchAllStops(t: seq<Piece>, lines: seq<string>, e: nat)
    requires e < |lines| && Match(t, lines[e]).None?
    requires forall i :: 0 <= i < e ==> Match(t, lines[i]).Some?
    ensures MatchAll(t, lines) == Err(e)
    decreases e
  {
    if e > 0 {
      assert forall i :: 0 <= i < |lines| - 1 ==> lines[1..][i] == lines[i + 1];
      MatchAllStops(t, lines[1..], e - 1);
    }
  }

  /** The lines a writer produces: each filled-in template followed by a newline. */
  function WrittenLines(t: seq<Piece>, rows: seq<seq<Value>>): (lines: seq<string>)
    requires forall i :: 0 <= i < |rows| ==> Conforms(t, rows[i])
    ensures |lines| == |rows| && forall i :: 0 <= i < |rows| ==> lines[i] == Render(t, rows[i]) + "\n"
  {
    seq(|rows|, i requires 0 <= i < |rows| => Render(t, rows[i]) + "\n")
  }

  /**
   * Round trip of a whole file: on a separated template, a file of filled-in
   * lines without line breaks inside is read back as the values of its lines.
   */
  lemma FileRoundTrip(t: seq<Piece>, rows: seq<seq<Value>>)
    requires Separated(t)
    requires forall i :: 0 <= i < |rows| ==>
      Conforms(t, rows[i]) && '\n' !in Render(t, rows[i]) && '\r' !in Render(t, rows[i])
    ensures MatchAll(t, ChompedLines(Concat(WrittenLines(t, rows)))) == Ok(rows)
  {
    var lines := WrittenLines(t, rows);
    ChompedLinesOf(lines);
    var chomped := ChompedLines(Concat(lines));
    forall i | 0 <= i < |rows| ensures Match(t, chomped[i]) == Some(rows[i]) {
      var body := Render(t, rows[i]);
      assert chomped[i] == (chomped[i] + "\n")[..|chomped[i]|];
      assert chomped[i] == body;
      RenderMatches(t, rows[i]);
    }
    MatchAllRows(t, chomped, rows);
  }
}
