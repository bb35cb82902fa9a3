/**
 * The list and set idioms the offline scripts share: a list comprehension with a
 * condition, the "seen set" dedupe that keeps first occurrences, and
 * `sorted()` of a set of strings, which Python orders code point by code point.
 */
module Collections {
  import opened Text

  predicate Distinct(s: seq<string>) {
    forall i, j :: 0 <= i < j < |s| ==> s[i] != s[j]
  }

  /** `set(s)` */
  function AsSet(s: seq<string>): set<string> {
    set x | x in s
  }

  /** `[x for x in s if p(x)]` */
  function Filter(s: seq<string>, p: string -> bool): (r: seq<string>)
    ensures |r| <= |s|
    ensures forall x :: x in r <==> x in s && p(x)
  {
    if s == [] then []
    else
      var rest := Filter(s[1..], p);
      assert s == [s[0]] + s[1..];
      if p(s[0]) then [s[0]] + rest else rest
  }

  /** Each kept element is kept as often as it occurs. */
  lemma {:induction false} FilterCount(s: seq<string>, p: string -> bool, x: string)
    ensures multiset(Filter(s, p))[x] == if p(x) then multiset(s)[x] else 0
  {
    if s != [] {
      FilterCount(s[1..], p, x);
      assert s == [s[0]] + s[1..];
    }
  }

  /** Nothing passes, nothing is kept. */
  lemma {:induction false} FilterNone(s: seq<string>, p: string -> bool)
    requires forall i :: 0 <= i < |s| ==> !p(s[i])
    ensures Filter(s, p) == []
  {
    if s != [] {
      FilterNone(s[1..], p);
    }
  }

  /** Filtering a concatenation filters each part, so the order is kept. */
  lemma {:induction false} FilterAppend(a: seq<string>, b: seq<string>, p: string -> bool)
    ensures Filter(a + b, p) == Filter(a, p) + Filter(b, p)
  {
    if a == [] {
      assert a + b == b;
    } else {
      assert (a + b)[0] == a[0];
      assert (a + b)[1..] == a[1..] + b;
      FilterAppend(a[1..], b, p);
    }
  }

  /** `[line.strip() for line in f if line.strip()]`: the lines of a text file,
      stripped, blank ones dropped. */
  function StrippedLines(lines: seq<string>): (r: seq<string>)
    ensures |r| <= |lines|
    ensures forall k :: 0 <= k < |r| ==> r[k] != "" && PyStrip(r[k]) == r[k]
  {
    if lines == [] then []
    else
      var t := PyStrip(lines[0]);
      var rest := StrippedLines(lines[1..]);
      TrimIdempotent(lines[0], IsPySpace);
      assert lines == [lines[0]] + lines[1..];
      if t != "" then [t] + rest else rest
  }

  /** A word is listed exactly when some line strips to it. */
  lemma {:induction false} StrippedLinesMembers(lines: seq<string>, x: string)
    ensures x in StrippedLines(lines) <==> x != "" && exists k :: 0 <= k < |lines| && PyStrip(lines[k]) == x
  {
    if lines != [] {
      StrippedLinesMembers(lines[1..], x);
      if x != "" && PyStrip(lines[0]) != x && exists k :: 0 <= k < |lines| && PyStrip(lines[k]) == x {
        var k :| 0 <= k < |lines| && PyStrip(lines[k]) == x;
        assert lines[1..][k - 1] == lines[k];
      }
      if x in StrippedLines(lines[1..]) {
        var k :| 0 <= k < |lines[1..]| && PyStrip(lines[1..][k]) == x;
        assert lines[k + 1] == lines[1..][k];
      }
    }
  }

  /** `[line.strip().lower() for line in f if line.strip()]`: the stripped,
      lower-cased non-blank lines. */
  function NormalizedLines(lines: seq<string>): (r: seq<string>)
    ensures |r| <= |lines|
    ensures forall k :: 0 <= k < |r| ==> r[k] != ""
  {
    var s := StrippedLines(lines);
    seq(|s|, k requires 0 <= k < |s| => LowerStr(s[k]))
  }

  /** A word is listed exactly when some non-blank line strips and lower-cases to it. */
  lemma NormalizedLinesMembers(lines: seq<string>, x: string)
    ensures x in NormalizedLines(lines) <==>
            exists k :: 0 <= k < |lines| && PyStrip(lines[k]) != "" && LowerStr(PyStrip(lines[k])) == x
  {
    var s := StrippedLines(lines);
    var r := NormalizedLines(lines);
    if x in r {
      var j :| 0 <= j < |r| && r[j] == x;
      StrippedLinesMembers(lines, s[j]);
      var k :| 0 <= k < |lines| && PyStrip(lines[k]) == s[j];
    }
    if exists k :: 0 <= k < |lines| && PyStrip(lines[k]) != "" && LowerStr(PyStrip(lines[k])) == x {
      var k :| 0 <= k < |lines| && PyStrip(lines[k]) != "" && LowerStr(PyStrip(lines[k])) == x;
      StrippedLinesMembers(lines, PyStrip(lines[k]));
      var j :| 0 <= j < |s| && s[j] == PyStrip(lines[k]);
      assert r[j] == x;
    }
  }

  // ---------------------------------------------------------------------------
  // Order-preserving dedupe

  /** The elements of `s` in the order of their first occurrence. */
  function KeepFirst(s: seq<string>): (r: seq<string>)
    ensures forall x :: x in r <==> x in s
    ensures Distinct(r)
  {
    if s == [] then []
    else
      var r := KeepFirst(s[..|s| - 1]);
      var x := s[|s| - 1];
      assert s == s[..|s| - 1] + [x];
      if x in r then r else r + [x]
  }

  /** A list without repeats is left as it is. */
  lemma {:induction false} KeepFirstOfDistinct(s: seq<string>)
    requires Distinct(s)
    ensures KeepFirst(s) == s
  {
    if s != [] {
      var init := s[..|s| - 1];
      KeepFirstOfDistinct(init);
      assert s[|s| - 1] !in init;
      assert s == init + [s[|s| - 1]];
    }
  }

  /** Appending more words never changes the order of those already kept. */
  lemma {:induction false} KeepFirstPrefix(s: seq<string>, t: seq<string>)
    ensures |KeepFirst(s)| <= |KeepFirst(s + t)|
    ensures KeepFirst(s + t)[..|KeepFirst(s)|] == KeepFirst(s)
    decreases |t|
  {
    if t == [] {
      assert s + t == s;
    } else {
      var init := t[..|t| - 1];
      KeepFirstPrefix(s, init);
      assert (s + t)[..|s + t| - 1] == s + init;
    }
  }

  // ---------------------------------------------------------------------------
  // Python's string order and `sorted()`

  /** `a < b` on Python strings: the first differing code point decides, and a
      proper prefix comes first. */
  predicate LexLess(a: string, b: string) {
    if a == [] then b != []
    else b != [] && (a[0] < b[0] || (a[0] == b[0] && LexLess(a[1..], b[1..])))
  }

  lemma {:induction false} LexLessIrreflexive(a: string)
    ensures !LexLess(a, a)
  {
    if a != [] {
      LexLessIrreflexive(a[1..]);
    }
  }

  lemma {:induction false} LexLessTransitive(a: string, b: string, c: string)
    requires LexLess(a, b) && LexLess(b, c)
    ensures LexLess(a, c)
  {
    if a != [] && a[0] == b[0] && b[0] == c[0] {
      LexLessTransitive(a[1..], b[1..], c[1..]);
    }
  }

  lemma {:induction false} LexLessTotal(a: string, b: string)
    requires a != b
    ensures LexLess(a, b) || LexLess(b, a)
  {
    if a != [] && b != [] && a[0] == b[0] {
      assert a == [a[0]] + a[1..] && b == [b[0]] + b[1..];
      LexLessTotal(a[1..], b[1..]);
    }
  }

  lemma LexLessAsymmetric()
    ensures forall a, b :: LexLess(a, b) ==> !LexLess(b, a)
  {
    forall a, b | LexLess(a, b) ensures !LexLess(b, a) {
      if LexLess(b, a) {
        LexLessTransitive(a, b, a);
        LexLessIrreflexive(a);
      }
    }
  }

  predicate IsLeast(m: string, s: set<string>) {
    m in s && forall x :: x in s && x != m ==> LexLess(m, x)
  }

  /** Every non-empty set of strings has a least element. */
  lemma {:induction false} LeastExists(s: set<string>)
    requires s != {}
    ensures exists m :: IsLeast(m, s)
    decreases s
  {
    var y :| y in s;
    if s != {y} {
      var rest := s - {y};
      LeastExists(rest);
      var m :| IsLeast(m, rest);
      if LexLess(y, m) {
        forall x | x in s && x != y ensures LexLess(y, x) {
          if x != m {
            LexLessTransitive(y, m, x);
          }
        }
        assert IsLeast(y, s);
      } else {
        LexLessTotal(y, m);
        assert IsLeast(m, s);
      }
    } else {
      assert IsLeast(y, s);
    }
  }

  predicate StrictlySorted(r: seq<string>) {
    forall i, j :: 0 <= i < j < |r| ==> LexLess(r[i], r[j])
  }

  /** `sorted(s)` for a set of strings. */
  function SortedSet(s: set<string>): (r: seq<string>)
    ensures forall x :: x in r <==> x in s
    ensures |r| == |s|
    ensures StrictlySorted(r)
    decreases s
  {
    if s == {} then []
    else
      LeastExists(s);
      LexLessAsymmetric();
      var m :| IsLeast(m, s);
      var rest := SortedSet(s - {m});
      assert forall x :: x in rest ==> LexLess(m, x);
      [m] + rest
  }

  /** A sorted list is determined by its elements. */
  lemma {:induction false} StrictlySortedUnique(a: seq<string>, b: seq<string>)
    requires StrictlySorted(a) && StrictlySorted(b)
    requires forall x :: x in a <==> x in b
    ensures a == b
    decreases |a|
  {
    LexLessAsymmetric();
    if a != [] {
      assert a[0] in a;
    }
    if b != [] {
      assert b[0] in b;
    }
    if a != [] && b != [] {
      assert a[0] == b[0] by {
        assert a[0] in a && b[0] in b;
      }
      forall x ensures x in a[1..] <==> x in b[1..] {
        NotFirstOfSorted(a, x);
        NotFirstOfSorted(b, x);
      }
      StrictlySortedUnique(a[1..], b[1..]);
    }
  }

  lemma NotFirstOfSorted(a: seq<string>, x: string)
    requires StrictlySorted(a) && a != []
    ensures x in a[1..] <==> x in a && x != a[0]
  {
    if x in a[1..] {
      var k :| 1 <= k < |a| && a[k] == x;
      assert LexLess(a[0], a[k]);
      LexLessIrreflexive(x);
    }
    if x in a && x != a[0] {
      var k :| 0 <= k < |a| && a[k] == x;
      assert a[1..][k - 1] == x;
    }
  }
}
