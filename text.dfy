/**
 * Text primitives shared by the Rust library and the Python scripts:
 * decimal rendering (Rust `{}` / `to_string`, Python `str`), `split` and `join`
 * on a non-empty separator, removal of one character (`replace(c, "")`),
 * the lexicographic order of Rust's `String`, and sorting.
 */
module Text {

  predicate IsDigit(c: char) { '0' <= c <= '9' }

  predicate AllDigits(s: string) { forall i :: 0 <= i < |s| ==> IsDigit(s[i]) }

  function DigitChar(d: nat): (c: char)
    requires d < 10
    ensures IsDigit(c)
  {
    ['0', '1', '2', '3', '4', '5', '6', '7', '8', '9'][d]
  }

  function DigitValue(c: char): (d: nat)
    requires IsDigit(c)
    ensures d < 10
  {
    (c as int - '0' as int) as nat
  }

  lemma DigitRoundTrip(d: nat)
    requires d < 10
    ensures DigitValue(DigitChar(d)) == d
  {
  }

  /** Decimal rendering of a natural number, without leading zeros. */
  function Decimal(n: nat): (r: string)
    ensures |r| >= 1 && AllDigits(r)
    ensures |r| > 1 ==> r[0] != '0'
    decreases n
  {
    if n < 10 then [DigitChar(n)] else Decimal(n / 10) + [DigitChar(n % 10)]
  }

  /** The value of a non-empty run of decimal digits (leading zeros allowed). */
  function DigitsValue(s: string): nat
    requires AllDigits(s)
  {
    if s == [] then 0 else 10 * DigitsValue(s[..|s| - 1]) + DigitValue(s[|s| - 1])
  }

  lemma {:induction false} DecimalValue(n: nat)
    ensures DigitsValue(Decimal(n)) == n
    decreases n
  {
    var r := Decimal(n);
    if n < 10 {
      DigitRoundTrip(n);
      assert r[..0] == [];
    } else {
      DecimalValue(n / 10);
      assert r[..|r| - 1] == Decimal(n / 10);
      DigitRoundTrip(n % 10);
    }
  }

  /** Decimal rendering is injective (used for cache keys and round trips). */
  lemma DecimalInjective(a: nat, b: nat)
    requires Decimal(a) == Decimal(b)
    ensures a == b
  {
    DecimalValue(a);
    DecimalValue(b);
  }

  /** Rendering of a signed integer, as Rust's `{}` and Python's `str` print it. */
  function IntText(v: int): (r: string)
    ensures |r| >= 1
  {
    if v < 0 then "-" + Decimal(-v) else Decimal(v)
  }

  // ---------------------------------------------------------------- split / join

  predicate OccursAt(s: string, sep: string, j: nat)
  {
    j + |sep| <= |s| && s[j..j + |sep|] == sep
  }

  predicate NoOccurrence(s: string, sep: string)
  {
    forall j :: 0 <= j < |s| ==> !OccursAt(s, sep, j)
  }

  /** Index of the first occurrence of `sep` in `s`, or `|s|` when there is none. */
  function Find(s: string, sep: string): (i: nat)
    requires |sep| > 0
    ensures i <= |s|
    ensures i < |s| ==> OccursAt(s, sep, i)
    ensures forall j: nat :: j < i ==> !OccursAt(s, sep, j)
    ensures i == |s| ==> NoOccurrence(s, sep)
    decreases |s|
  {
    if |s| < |sep| then
      assert forall j: nat :: !OccursAt(s, sep, j);
      |s|
    else if s[..|sep|] == sep then
      0
    else
      var k := Find(s[1..], sep);
      forall j: nat ensures OccursAt(s, sep, j + 1) <==> OccursAt(s[1..], sep, j) {
        if j + 1 + |sep| <= |s| {
          var a, b := s[j + 1..j + 1 + |sep|], s[1..][j..j + |sep|];
          assert |a| == |b| && forall t :: 0 <= t < |a| ==> a[t] == b[t];
        }
      }
      assert !OccursAt(s, sep, 0);
      assert forall j: nat :: j < 1 + k ==> !OccursAt(s, sep, j) by {
        forall j: nat | j < 1 + k ensures !OccursAt(s, sep, j) {
          if j > 0 { assert !OccursAt(s[1..], sep, j - 1); }
        }
      }
      if k == |s| - 1 then
        assert forall j: nat :: !OccursAt(s, sep, j) by {
          forall j: nat ensures !OccursAt(s, sep, j) {
            if j > 0 { assert !OccursAt(s[1..], sep, j - 1); }
          }
        }
        |s|
      else
        1 + k
  }

  /** `s.split(sep)` for a non-empty separator (Python `str.split`, Rust `str::split`). */
  function Split(s: string, sep: string): (parts: seq<string>)
    requires |sep| > 0
    ensures |parts| >= 1
    decreases |s|
  {
    var i := Find(s, sep);
    if i == |s| then [s] else [s[..i]] + Split(s[i + |sep|..], sep)
  }

  /** `sep.join(parts)`. */
  function Join(parts: seq<string>, sep: string): string
  {
    if |parts| == 0 then ""
    else if |parts| == 1 then parts[0]
    else parts[0] + sep + Join(parts[1..], sep)
  }

  lemma FindBeforeSeparator(p: string, sep: string, rest: string)
    requires |sep| > 0 && sep[0] !in p
    ensures Find(p + sep + rest, sep) == |p|
  {
    var s := p + sep + rest;
    assert s[|p|..|p| + |sep|] == sep;
    assert OccursAt(s, sep, |p|);
    forall j: nat | j < |p| ensures !OccursAt(s, sep, j) {
      assert s[j] == p[j];
      if j + |sep| <= |s| { assert s[j..j + |sep|][0] == s[j]; }
    }
  }

  /** The first piece of a split is everything before the first separator. */
  lemma SplitFirst(p: string, sep: string, rest: string)
    requires |sep| > 0 && sep[0] !in p
    ensures Split(p + sep + rest, sep) == [p] + Split(rest, sep)
  {
    var s := p + sep + rest;
    FindBeforeSeparator(p, sep, rest);
    assert s[..|p|] == p;
    assert s[|p| + |sep|..] == rest;
  }

  /**
   * Splitting a joined list gives the list back, provided no non-final part
   * contains the separator's first character and the final part does not
   * contain the separator.
   */
  lemma {:induction false} SplitJoin(parts: seq<string>, sep: string)
    requires |parts| >= 1 && |sep| > 0
    requires forall i :: 0 <= i < |parts| - 1 ==> sep[0] !in parts[i]
    requires NoOccurrence(parts[|parts| - 1], sep)
    ensures Split(Join(parts, sep), sep) == parts
    decreases |parts|
  {
    if |parts| == 1 {
    } else {
      var p, rest := parts[0], Join(parts[1..], sep);
      FindBeforeSeparator(p, sep, rest);
      var s := p + sep + rest;
      assert s[..|p|] == p;
      assert s[|p| + |sep|..] == rest;
      SplitJoin(parts[1..], sep);
    }
  }

  /** A character in neither the parts nor the separator is not in their join. */
  lemma {:induction false} JoinAvoids(parts: seq<string>, sep: string, c: char)
    requires c !in sep && forall i :: 0 <= i < |parts| ==> c !in parts[i]
    ensures c !in Join(parts, sep)
    decreases |parts|
  {
    if |parts| > 1 {
      JoinAvoids(parts[1..], sep, c);
    }
  }

  /** A join is at least as long as its first part. */
  lemma JoinCoversFirst(parts: seq<string>, sep: string)
    requires |parts| >= 1
    ensures |Join(parts, sep)| >= |parts[0]|
  {
  }

  /** Text put after a join belongs to its last part. */
  lemma {:induction false} JoinExtendLast(parts: seq<string>, sep: string, t: string)
    requires |parts| >= 1
    ensures Join(parts, sep) + t == Join(parts[..|parts| - 1] + [parts[|parts| - 1] + t], sep)
    decreases |parts|
  {
    var n := |parts|;
    var q := parts[..n - 1] + [parts[n - 1] + t];
    if n > 1 {
      JoinExtendLast(parts[1..], sep, t);
      assert q[1..] == parts[1..][..n - 2] + [parts[1..][n - 2] + t];
      assert Join(parts, sep) + t == parts[0] + sep + (Join(parts[1..], sep) + t);
    }
  }

  /**
   * Parts that each end in `c`, joined by `sep`, are the parts less that `c`
   * joined by `c + sep`; the last part keeps what it has.
   */
  lemma {:induction false} JoinShift(ps: seq<string>, closed: seq<string>, last: string, c: string, sep: string)
    requires |closed| == |ps| && forall i :: 0 <= i < |ps| ==> closed[i] == ps[i] + c
    ensures Join(closed + [last], sep) == Join(ps + [last], c + sep)
    decreases |ps|
  {
    if ps == [] {
      assert closed + [last] == [last] && ps + [last] == [last];
    } else {
      JoinShift(ps[1..], closed[1..], last, c, sep);
      assert (closed + [last])[1..] == closed[1..] + [last];
      assert (ps + [last])[1..] == ps[1..] + [last];
      assert (closed + [last])[0] == ps[0] + c;
      assert ps[0] + c + sep + Join(closed[1..] + [last], sep) == ps[0] + (c + sep) + Join(ps[1..] + [last], c + sep);
    }
  }

  lemma NoOccurrenceWithoutFirst(s: string, sep: string)
    requires |sep| > 0 && sep[0] !in s
    ensures NoOccurrence(s, sep)
  {
    forall j | 0 <= j < |s| ensures !OccursAt(s, sep, j) {
      if j + |sep| <= |s| { assert s[j..j + |sep|][0] == s[j]; }
    }
  }

  /** A text holding no separator splits into itself alone. */
  lemma SplitWhole(s: string, sep: string)
    requires |sep| > 0 && sep[0] !in s
    ensures Split(s, sep) == [s]
  {
    NoOccurrenceWithoutFirst(s, sep);
  }

  /** `s.replace(c, "")`: every occurrence of `c` removed. */
  function RemoveChar(s: string, c: char): (r: string)
    ensures c !in r
    ensures forall x :: x in r <==> x in s && x != c
  {
    if s == [] then [] else (if s[0] == c then [] else [s[0]]) + RemoveChar(s[1..], c)
  }

  lemma RemoveAbsent(s: string, c: char)
    requires c !in s
    ensures RemoveChar(s, c) == s
  {
  }

  // ---------------------------------------------------------------- string order

  /** Strict lexicographic order of `String` (code-unit by code-unit, shorter prefix first). */
  predicate Less(a: string, b: string)
  {
    if |a| == 0 then |b| > 0
    else if |b| == 0 then false
    else a[0] < b[0] || (a[0] == b[0] && Less(a[1..], b[1..]))
  }

  predicate LessEq(a: string, b: string) { a == b || Less(a, b) }

  lemma {:induction false} LessIrreflexive(a: string)
    ensures !Less(a, a)
  {
    if |a| > 0 { LessIrreflexive(a[1..]); }
  }

  lemma {:induction false} LessTotal(a: string, b: string)
    ensures a == b || Less(a, b) || Less(b, a)
  {
    if |a| > 0 && |b| > 0 && a[0] == b[0] {
      LessTotal(a[1..], b[1..]);
      if a[1..] == b[1..] { assert a == [a[0]] + a[1..]; assert b == [b[0]] + b[1..]; }
    }
  }

  lemma {:induction false} LessAsymmetric(a: string, b: string)
    ensures !(Less(a, b) && Less(b, a))
  {
    if |a| > 0 && |b| > 0 && a[0] == b[0] { LessAsymmetric(a[1..], b[1..]); }
  }

  lemma {:induction false} LessTransitive(a: string, b: string, c: string)
    requires Less(a, b) && Less(b, c)
    ensures Less(a, c)
  {
    if |a| > 0 && a[0] == b[0] && b[0] == c[0] {
      LessTransitive(a[1..], b[1..], c[1..]);
    }
  }

  lemma LessEqTransitive(a: string, b: string, c: string)
    requires LessEq(a, b) && LessEq(b, c)
    ensures LessEq(a, c)
  {
    if a != b && b != c { LessTransitive(a, b, c); }
  }

  lemma LessEqAntisymmetric(a: string, b: string)
    requires LessEq(a, b) && LessEq(b, a)
    ensures a == b
  {
    LessAsymmetric(a, b);
  }

  // ---------------------------------------------------------------- sorting strings

  predicate Sorted(xs: seq<string>)
  {
    forall i, j :: 0 <= i < j < |xs| ==> LessEq(xs[i], xs[j])
  }

  function Insert(x: string, xs: seq<string>): (r: seq<string>)
    requires Sorted(xs)
    ensures Sorted(r) && multiset(r) == multiset(xs) + multiset{x}
    ensures |r| == |xs| + 1
  {
    if xs == [] then [x]
    else if LessEq(x, xs[0]) then
      assert forall j :: 0 <= j < |xs| ==> LessEq(x, xs[j]) by {
        forall j | 0 <= j < |xs| ensures LessEq(x, xs[j]) { LessEqTransitive(x, xs[0], xs[j]); }
      }
      [x] + xs
    else
      var t := Insert(x, xs[1..]);
      LessTotal(x, xs[0]);
      assert xs == [xs[0]] + xs[1..];
      StringsAbove(t, xs[1..], x, xs[0]);
      [xs[0]] + t
  }

  lemma StringsAbove(t: seq<string>, xs: seq<string>, x: string, bound: string)
    requires multiset(t) == multiset(xs) + multiset{x} && LessEq(bound, x)
    requires forall j :: 0 <= j < |xs| ==> LessEq(bound, xs[j])
    ensures forall y :: y in t ==> LessEq(bound, y)
  {
    forall y | y in t ensures LessEq(bound, y) {
      assert y in multiset(t);
      if y != x { assert y in multiset(xs); }
    }
  }

  /** The sorted rearrangement of `xs` (the result of `Vec<String>::sort`). */
  function SortStrings(xs: seq<string>): (r: seq<string>)
    ensures Sorted(r) && multiset(r) == multiset(xs)
    ensures |r| == |xs|
  {
    if xs == [] then []
    else
      assert xs == [xs[0]] + xs[1..];
      Insert(xs[0], SortStrings(xs[1..]))
  }

  /** A sorted arrangement of a multiset of strings is unique. */
  lemma {:induction false} SortedUnique(a: seq<string>, b: seq<string>)
    requires Sorted(a) && Sorted(b) && multiset(a) == multiset(b)
    ensures a == b
    decreases |a|
  {
    if a == [] {
      assert |b| == |multiset(b)| == 0;
    } else {
      SortedFirst(a, b);
      TailMultiset(a);
      TailMultiset(b);
      SortedUnique(a[1..], b[1..]);
      assert a == [a[0]] + a[1..] && b == [b[0]] + b[1..];
    }
  }

  /** Two sorted arrangements of one multiset start alike. */
  lemma SortedFirst(a: seq<string>, b: seq<string>)
    requires Sorted(a) && Sorted(b) && multiset(a) == multiset(b) && |a| > 0
    ensures |b| > 0 && a[0] == b[0]
  {
    assert |b| == |multiset(b)| == |multiset(a)| == |a|;
    assert a[0] in multiset(b);
    assert b[0] in multiset(a);
    var i :| 0 <= i < |b| && b[i] == a[0];
    var j :| 0 <= j < |a| && a[j] == b[0];
    assert LessEq(b[0], a[0]) by { if i > 0 { assert LessEq(b[0], b[i]); } }
    assert LessEq(a[0], b[0]) by { if j > 0 { assert LessEq(a[0], a[j]); } }
    LessEqAntisymmetric(a[0], b[0]);
  }

  lemma TailMultiset<T>(a: seq<T>)
    requires |a| > 0
    ensures multiset(a[1..]) == multiset(a) - multiset{a[0]}
  {
    assert a == [a[0]] + a[1..];
  }


  /** Sorting depends only on the multiset of the input, not on its order. */
  lemma SortCanonical(xs: seq<string>, ys: seq<string>)
    requires multiset(xs) == multiset(ys)
    ensures SortStrings(xs) == SortStrings(ys)
  {
    SortedUnique(SortStrings(xs), SortStrings(ys));
  }

  // ---------------------------------------------------------------- stable sort by key

  predicate SortedBy<T>(xs: seq<T>, key: T -> string)
  {
    forall i, j :: 0 <= i < j < |xs| ==> LessEq(key(xs[i]), key(xs[j]))
  }

  lemma KeysAbove<T>(t: seq<T>, xs: seq<T>, x: T, key: T -> string, bound: string)
    requires multiset(t) == multiset(xs) + multiset{x} && LessEq(bound, key(x))
    requires forall j :: 0 <= j < |xs| ==> LessEq(bound, key(xs[j]))
    ensures forall y :: y in t ==> LessEq(bound, key(y))
  {
    forall y | y in t ensures LessEq(bound, key(y)) {
      assert y in multiset(t);
      if y != x { assert y in multiset(xs); }
    }
  }

  function InsertBy<T>(x: T, xs: seq<T>, key: T -> string): (r: seq<T>)
    requires SortedBy(xs, key)
    ensures SortedBy(r, key) && multiset(r) == multiset(xs) + multiset{x}
    ensures |r| == |xs| + 1
  {
    if xs == [] then [x]
    else if LessEq(key(x), key(xs[0])) then
      assert forall j :: 0 <= j < |xs| ==> LessEq(key(x), key(xs[j])) by {
        forall j | 0 <= j < |xs| ensures LessEq(key(x), key(xs[j])) {
          LessEqTransitive(key(x), key(xs[0]), key(xs[j]));
        }
      }
      [x] + xs
    else
      var t := InsertBy(x, xs[1..], key);
      LessTotal(key(x), key(xs[0]));
      assert xs == [xs[0]] + xs[1..];
      KeysAbove(t, xs[1..], x, key, key(xs[0]));
      [xs[0]] + t
  }

  /**
   * Stable sort by a string key: an element is placed before every later
   * element whose key is not smaller, so equal keys keep their input order
   * (the behaviour of `slice::sort_by`); `SortByStable` proves it.
   */
  function SortBy<T>(xs: seq<T>, key: T -> string): (r: seq<T>)
    ensures SortedBy(r, key) && multiset(r) == multiset(xs)
    ensures |r| == |xs|
  {
    if xs == [] then []
    else
      assert xs == [xs[0]] + xs[1..];
      InsertBy(xs[0], SortBy(xs[1..], key), key)
  }

  /** The elements of `xs` whose key is `k`, in their order in `xs`. */
  function WithKey<T>(xs: seq<T>, key: T -> string, k: string): seq<T>
  {
    if xs == [] then []
    else (if key(xs[0]) == k then [xs[0]] else []) + WithKey(xs[1..], key, k)
  }

  /** `x` is inserted before every element with its key. */
  lemma {:induction false} InsertByWithKey<T>(x: T, xs: seq<T>, key: T -> string, k: string)
    requires SortedBy(xs, key)
    ensures WithKey(InsertBy(x, xs, key), key, k) == (if key(x) == k then [x] else []) + WithKey(xs, key, k)
    decreases |xs|
  {
    if xs == [] {
      WithKeyCons(x, [], key, k);
    } else if LessEq(key(x), key(xs[0])) {
      WithKeyCons(x, xs, key, k);
    } else {
      var y, rest := xs[0], xs[1..];
      var t := InsertBy(x, rest, key);
      assert InsertBy(x, xs, key) == [y] + t;
      var mx: seq<T> := if key(x) == k then [x] else [];
      var my: seq<T> := if key(y) == k then [y] else [];
      InsertByWithKey(x, rest, key, k);
      WithKeyCons(y, t, key, k);
      assert xs == [y] + rest;
      WithKeyCons(y, rest, key, k);
      assert key(y) != key(x);
      SwapEmpty(my, mx, WithKey(rest, key, k));
    }
  }

  lemma SwapEmpty<T>(a: seq<T>, b: seq<T>, w: seq<T>)
    requires a == [] || b == []
    ensures a + (b + w) == b + (a + w)
  {
  }

  lemma WithKeyCons<T>(y: T, t: seq<T>, key: T -> string, k: string)
    ensures WithKey([y] + t, key, k) == (if key(y) == k then [y] else []) + WithKey(t, key, k)
  {
    assert ([y] + t)[1..] == t;
  }

  /** `SortBy` is stable: for every key, the elements with that key keep their input order. */
  lemma {:induction false} SortByStable<T>(xs: seq<T>, key: T -> string, k: string)
    ensures WithKey(SortBy(xs, key), key, k) == WithKey(xs, key, k)
    decreases |xs|
  {
    if xs != [] {
      SortByStable(xs[1..], key, k);
      InsertByWithKey(xs[0], SortBy(xs[1..], key), key, k);
    }
  }
}
