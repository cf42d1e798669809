/**
 * The pieces of CPython the analysis scripts lean on: reading a text file
 * (universal newlines, then `readlines`), `str.replace("\n", "")`, `int()` on a
 * string, `sum`, and `round` of a quotient. File access itself is not part of
 * the model: a script receives the decoded text of its file.
 */
module Python {
  import opened Wrappers
  import opened Text

  // ---------------------------------------------------------------- reading a file

  /**
   * Text-mode reading with `newline=None`: `"\r\n"` and a lone `'\r'` both
   * become `'\n'`.
   */
  function Universal(s: string): (r: string)
    ensures '\r' !in r
    decreases |s|
  {
    if s == [] then []
    else if s[0] == '\r' then "\n" + Universal(if |s| > 1 && s[1] == '\n' then s[2..] else s[1..])
    else [s[0]] + Universal(s[1..])
  }

  /** Text without carriage returns reads back unchanged. */
  lemma {:induction false} UniversalPlain(s: string)
    requires '\r' !in s
    ensures Universal(s) == s
    decreases |s|
  {
    if s != [] {
      UniversalPlain(s[1..]);
      assert s == [s[0]] + s[1..];
    }
  }

  /** `"".join(lines)`. */
  function Concat(lines: seq<string>): string
    decreases |lines|
  {
    if lines == [] then "" else lines[0] + Concat(lines[1..])
  }

  /** Putting one more line at the end of the list appends its text. */
  lemma {:induction false} ConcatSnoc(lines: seq<string>, line: string)
    ensures Concat(lines + [line]) == Concat(lines) + line
    decreases |lines|
  {
    if lines == [] {
      assert [] + [line] == [line];
      assert Concat([line][1..]) == "";
    } else {
      assert (lines + [line])[1..] == lines[1..] + [line];
      ConcatSnoc(lines[1..], line);
    }
  }

  /** A line as `readlines` returns it: non-empty, with a `'\n'` at most at its end. */
  predicate IsLine(line: string)
  {
    |line| > 0 && '\n' !in line[..|line| - 1]
  }

  /** A line that `readlines` closed with its newline. */
  predicate IsClosedLine(line: string)
  {
    IsLine(line) && line[|line| - 1] == '\n'
  }

  /** `readlines` on decoded text: every piece ends just after a `'\n'`, except a non-empty tail. */
  function ReadLines(s: string): (r: seq<string>)
    ensures forall i :: 0 <= i < |r| ==> IsLine(r[i])
    ensures forall i :: 0 <= i < |r| - 1 ==> IsClosedLine(r[i])
    decreases |s|
  {
    if s == [] then []
    else
      var i := Find(s, "\n");
      if i == |s| then
        assert forall j :: 0 <= j < |s| ==> s[j] != '\n' by {
          forall j | 0 <= j < |s| ensures s[j] != '\n' {
            assert !OccursAt(s, "\n", j);
            assert s[j..j + 1] == [s[j]];
          }
        }
        [s]
      else
        assert s[i] == '\n' by { assert s[i..i + 1] == "\n"; }
        assert forall j :: 0 <= j < i ==> s[j] != '\n' by {
          forall j | 0 <= j < i ensures s[j] != '\n' {
            assert !OccursAt(s, "\n", j);
            assert s[j..j + 1] == [s[j]];
          }
        }
        [s[..i + 1]] + ReadLines(s[i + 1..])
  }

  /** `readlines` loses nothing: its lines put together are the text. */
  lemma {:induction false} ReadLinesConcat(s: string)
    ensures Concat(ReadLines(s)) == s
    decreases |s|
  {
    if s != [] {
      var i := Find(s, "\n");
      if i < |s| {
        ReadLinesConcat(s[i + 1..]);
        assert s[..i + 1] + s[i + 1..] == s;
      }
    }
  }

  /** Text written as closed lines is read back as exactly those lines. */
  lemma {:induction false} ReadLinesOf(lines: seq<string>)
    requires forall i :: 0 <= i < |lines| ==> IsClosedLine(lines[i])
    ensures ReadLines(Concat(lines)) == lines
    decreases |lines|
  {
    if lines != [] {
      var first, rest := lines[0], Concat(lines[1..]);
      var p := first[..|first| - 1];
      assert first == p + "\n";
      assert '\n' !in p;
      FindBeforeSeparator(p, "\n", rest);
      var s := first + rest;
      assert s == p + "\n" + rest;
      assert s[..|p| + 1] == first;
      assert s[|p| + 1..] == rest;
      ReadLinesOf(lines[1..]);
    }
  }

  /** The lines of a file opened in text mode. */
  function FileLines(content: string): seq<string>
  {
    ReadLines(Universal(content))
  }

  /** `line.replace("\n", "")` for every line of a file: what the graph scripts parse. */
  function ChompedLines(content: string): (r: seq<string>)
    ensures |r| == |FileLines(content)|
    ensures forall i :: 0 <= i < |r| ==> '\n' !in r[i]
  {
    var lines := FileLines(content);
    seq(|lines|, i requires 0 <= i < |lines| => RemoveChar(lines[i], '\n'))
  }

  /** A file written as closed lines without carriage returns gives back those lines, less their newline. */
  lemma ChompedLinesOf(lines: seq<string>)
    requires forall i :: 0 <= i < |lines| ==> IsClosedLine(lines[i]) && '\r' !in lines[i]
    ensures |ChompedLines(Concat(lines))| == |lines|
    ensures forall i :: 0 <= i < |lines| ==> ChompedLines(Concat(lines))[i] + "\n" == lines[i]
  {
    ConcatPlain(lines);
    UniversalPlain(Concat(lines));
    ReadLinesOf(lines);
    forall i | 0 <= i < |lines| ensures RemoveChar(lines[i], '\n') + "\n" == lines[i] {
      var p := lines[i][..|lines[i]| - 1];
      assert lines[i] == p + "\n";
      RemoveLast(p, '\n');
    }
  }

  lemma {:induction false} ConcatPlain(lines: seq<string>)
    requires forall i :: 0 <= i < |lines| ==> '\r' !in lines[i]
    ensures '\r' !in Concat(lines)
    decreases |lines|
  {
    if lines != [] {
      ConcatPlain(lines[1..]);
    }
  }

  lemma {:induction false} RemoveLast(p: string, c: char)
    requires c !in p
    ensures RemoveChar(p + [c], c) == p
    decreases |p|
  {
    if p == [] {
      assert p + [c] == [c];
    } else {
      assert (p + [c])[1..] == p[1..] + [c];
      RemoveLast(p[1..], c);
      assert p == [p[0]] + p[1..];
    }
  }

  // ---------------------------------------------------------------- int()

  /** The ASCII characters `str.isspace` accepts, which `int()` strips from both ends. */
  predicate IsSpace(c: char)
  {
    c == ' ' || ('\t' <= c <= '\r') || (28 <= c as int <= 31)
  }

  function StripStart(s: string): (r: string)
    ensures r == [] || !IsSpace(r[0])
    decreases |s|
  {
    if s != [] && IsSpace(s[0]) then StripStart(s[1..]) else s
  }

  function StripEnd(s: string): (r: string)
    ensures r == [] || !IsSpace(r[|r| - 1])
    decreases |s|
  {
    if s != [] && IsSpace(s[|s| - 1]) then StripEnd(s[..|s| - 1]) else s
  }

  /** `s.strip()` over ASCII whitespace. */
  function Strip(s: string): string
  {
    StripEnd(StripStart(s))
  }

  /** A base-10 body `int()` accepts: digits, with single underscores between digits. */
  predicate Grouped(body: string)
  {
    |body| > 0 && IsDigit(body[0]) && IsDigit(body[|body| - 1])
    && (forall i :: 0 <= i < |body| ==> IsDigit(body[i]) || body[i] == '_')
    && (forall i :: 0 < i < |body| ==> body[i] == '_' ==> body[i - 1] != '_')
  }

  /** The digits of a grouped body, underscores dropped. */
  lemma GroupedDigits(body: string)
    requires Grouped(body)
    ensures AllDigits(RemoveChar(body, '_'))
  {
    var r := RemoveChar(body, '_');
    forall i | 0 <= i < |r| ensures IsDigit(r[i]) {
      assert r[i] in r;
    }
  }

  /** `int(s)` for a `str`: surrounding whitespace, an optional sign, a grouped decimal body. */
  function PyInt(s: string): (r: Option<int>)
    ensures r.Some? ==> var t := Strip(s); |t| > 0 && (Grouped(t) || (t[0] in "+-" && Grouped(t[1..])))
  {
    var t := Strip(s);
    var negative := |t| > 0 && t[0] == '-';
    var body := if |t| > 0 && t[0] in "+-" then t[1..] else t;
    if !Grouped(body) then None
    else
      GroupedDigits(body);
      var v: int := DigitsValue(RemoveChar(body, '_'));
      Some(if negative then -v else v)
  }

  lemma StripDigits(d: string, tail: string)
    requires |d| > 0 && AllDigits(d)
    requires forall i :: 0 <= i < |tail| ==> IsSpace(tail[i])
    ensures Strip(d + tail) == d
    decreases |tail|
  {
    assert StripStart(d + tail) == d + tail;
    if tail == [] {
      assert d + tail == d;
    } else {
      var s := d + tail;
      assert s[..|s| - 1] == d + tail[..|tail| - 1];
      StripDigits(d, tail[..|tail| - 1]);
    }
  }

  lemma DecimalGrouped(d: string)
    requires |d| > 0 && AllDigits(d)
    ensures Grouped(d) && '_' !in d && RemoveChar(d, '_') == d
  {
    assert forall i :: 0 <= i < |d| ==> d[i] != '_';
    RemoveAbsent(d, '_');
  }

  /** `int` reads back what `str` wrote, also with trailing whitespace such as the line's newline. */
  lemma PyIntDecimal(v: nat, tail: string)
    requires forall i :: 0 <= i < |tail| ==> IsSpace(tail[i])
    ensures PyInt(Decimal(v) + tail) == Some(v)
  {
    var d := Decimal(v);
    StripDigits(d, tail);
    DecimalGrouped(d);
    assert d[0] !in "+-";
    DecimalValue(v);
  }

  lemma PyIntOf(v: nat)
    ensures PyInt(Decimal(v)) == Some(v)
  {
    PyIntDecimal(v, "");
    assert Decimal(v) + "" == Decimal(v);
  }

  /** Underscores between digits are accepted; nothing at all, or a newline alone, is not. */
  lemma PyIntCases()
    ensures PyInt("1_0") == Some(10)
    ensures PyInt("") == None
    ensures PyInt("\n") == None
  {
    assert Strip("1_0") == "1_0" by {
      assert StripStart("1_0") == "1_0";
    }
    assert Grouped("1_0");
    assert RemoveChar("1_0", '_') == "10";
    assert DigitsValue("10") == 10 by {
      assert "10"[..1] == "1";
      assert "1"[..0] == "";
    }
    assert StripStart("\n") == StripStart("") == "";
  }

  // ---------------------------------------------------------------- sum, len, round

  function Sum(xs: seq<int>): int
    decreases |xs|
  {
    if xs == [] then 0 else Sum(xs[..|xs| - 1]) + xs[|xs| - 1]
  }

  function Abs(x: int): nat
  {
    if x < 0 then -x else x
  }

  /**
   * `round(num / den)` with the quotient exact: the nearest integer, a tie
   * going to the even one.
   */
  function Round(num: int, den: int): (r: int)
    requires den > 0
    ensures 2 * Abs(num - r * den) <= den
    ensures 2 * Abs(num - r * den) == den ==> r % 2 == 0
  {
    var q, m := num / den, num % den;
    assert num - q * den == m;
    assert num - (q + 1) * den == m - den;
    if 2 * m < den then q
    else if 2 * m > den then q + 1
    else if q % 2 == 0 then q
    else q + 1
  }

  /** `k` copies of `den` reach `den` once there is one of them, and `2 * den` once there are two. */
  lemma {:induction false} MultipleAtLeast(k: nat, den: nat)
    ensures k >= 1 ==> k * den >= den
    ensures k >= 2 ==> k * den >= 2 * den
    decreases k
  {
    if k > 0 {
      MultipleAtLeast(k - 1, den);
      assert k * den == (k - 1) * den + den;
    }
  }

  /** A non-zero multiple of `den` is at least `den` away from zero, and an even one `2 * den`. */
  lemma MultipleBound(k: int, den: int)
    requires den > 0 && k != 0
    ensures Abs(k * den) >= den
    ensures k % 2 == 0 ==> Abs(k * den) >= 2 * den
  {
    var m: nat := if k > 0 then k else -k;
    MultipleAtLeast(m, den);
    assert Abs(k * den) == m * den;
  }

  /**
   * The linear core of `NearestUnique`: two offsets within half of `den` that
   * differ by a non-zero multiple of it are both exactly half, and the
   * multiple is odd.
   */
  lemma OffsetsClash(a: int, b: int, den: int, kd: int, even: bool)
    requires den > 0 && 2 * Abs(a) <= den && 2 * Abs(b) <= den
    requires b - a == kd && Abs(kd) >= den && (even ==> Abs(kd) >= 2 * den)
    ensures 2 * Abs(a) == den && 2 * Abs(b) == den && !even
  {
  }

  lemma EvenDifference(r: int, o: int)
    requires r % 2 == 0 && o % 2 == 0
    ensures (r - o) % 2 == 0
  {
    var x, y := r / 2, o / 2;
    assert r == 2 * x && o == 2 * y;
    assert r - o == 2 * (x - y);
  }

  /** Two integers both nearest to `num / den`, ties broken to even, are equal. */
  lemma NearestUnique(num: int, den: int, r: int, o: int)
    requires den > 0
    requires 2 * Abs(num - r * den) <= den && (2 * Abs(num - r * den) == den ==> r % 2 == 0)
    requires 2 * Abs(num - o * den) <= den && (2 * Abs(num - o * den) == den ==> o % 2 == 0)
    ensures r == o
  {
    if r != o {
      var k := r - o;
      MultipleBound(k, den);
      var a, b := num - r * den, num - o * den;
      assert b - a == k * den by {
        assert r * den - o * den == (r - o) * den;
      }
      OffsetsClash(a, b, den, k * den, k % 2 == 0);
      EvenDifference(r, o);
      assert false;
    }
  }

  /** Those two conditions single out `Round`'s result. */
  lemma RoundUnique(num: int, den: int, r: int)
    requires den > 0
    requires 2 * Abs(num - r * den) <= den
    requires 2 * Abs(num - r * den) == den ==> r % 2 == 0
    ensures r == Round(num, den)
  {
    NearestUnique(num, den, r, Round(num, den));
  }

  /** `round(sum(xs) / len(xs))`. */
  function Mean(xs: seq<int>): int
    requires |xs| > 0
  {
    Round(Sum(xs), |xs|)
  }
}
