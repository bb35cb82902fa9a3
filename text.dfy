/**
 * Characters and strings as the two runtimes see them.
 *
 * Python's `str.isspace()` (which is also what `\s`, `strip()` and `split()` use
 * on text) and JavaScript's `String.prototype.trim()` disagree on a few code
 * points, so both whitespace classes are written out. Case mapping covers the
 * letters the game's word lists are made of (ASCII, Latin-1 and Cyrillic) one
 * code point at a time.
 */
module Text {

  /** Python's `str.isspace()` / the `\s` class of a `str` pattern. */
  predicate IsPySpace(c: char) {
    ('\t' <= c <= '\r') || ('\U{1C}' <= c <= ' ') || c == '\U{85}' || c == '\U{A0}'
    || c == '\U{1680}' || ('\U{2000}' <= c <= '\U{200A}') || c == '\U{2028}' || c == '\U{2029}'
    || c == '\U{202F}' || c == '\U{205F}' || c == '\U{3000}'
  }

  /** JavaScript's WhiteSpace and LineTerminator code points, the ones `trim()` removes. */
  predicate IsJsSpace(c: char) {
    ('\t' <= c <= '\r') || c == ' ' || c == '\U{A0}' || c == '\U{1680}'
    || ('\U{2000}' <= c <= '\U{200A}') || c == '\U{2028}' || c == '\U{2029}'
    || c == '\U{202F}' || c == '\U{205F}' || c == '\U{3000}' || c == '\U{FEFF}'
  }

  /** Lower-case mapping of one code point (`str.lower`, `toLowerCase`). */
  function Lower(c: char): char {
    if 'A' <= c <= 'Z' then (c as int + 32) as char
    else if '\U{C0}' <= c <= '\U{DE}' && c != '\U{D7}' then (c as int + 32) as char
    else if '\U{410}' <= c <= '\U{42F}' then (c as int + 32) as char
    else if '\U{400}' <= c <= '\U{40F}' then (c as int + 80) as char
    else if c == '\U{490}' then '\U{491}'
    else c
  }

  /** Upper-case mapping of one code point (`str.upper`). */
  function Upper(c: char): char {
    if 'a' <= c <= 'z' then (c as int - 32) as char
    else if '\U{E0}' <= c <= '\U{FE}' && c != '\U{F7}' then (c as int - 32) as char
    else if '\U{430}' <= c <= '\U{44F}' then (c as int - 32) as char
    else if '\U{450}' <= c <= '\U{45F}' then (c as int - 80) as char
    else if c == '\U{491}' then '\U{490}'
    else c
  }

  function LowerStr(s: string): (r: string)
    ensures |r| == |s| && forall i :: 0 <= i < |s| ==> r[i] == Lower(s[i])
  {
    seq(|s|, i requires 0 <= i < |s| => Lower(s[i]))
  }

  function UpperStr(s: string): (r: string)
    ensures |r| == |s| && forall i :: 0 <= i < |s| ==> r[i] == Upper(s[i])
  {
    seq(|s|, i requires 0 <= i < |s| => Upper(s[i]))
  }

  /** Case-insensitive comparison of one character, as an IGNORECASE regex compares literals. */
  predicate SameIgnoringCase(a: char, b: char) {
    Lower(a) == Lower(b)
  }

  lemma LowerIdempotent(c: char)
    ensures Lower(Lower(c)) == Lower(c)
  {
  }

  lemma LowerKeepsSpace(c: char)
    ensures IsJsSpace(Lower(c)) == IsJsSpace(c)
    ensures IsPySpace(Lower(c)) == IsPySpace(c)
  {
  }

  /** A string that is already lower-case is its own lower-case form. */
  lemma LowerStrOfLower(s: string)
    requires forall i :: 0 <= i < |s| ==> Lower(s[i]) == s[i]
    ensures LowerStr(s) == s
  {
    var l := LowerStr(s);
    assert forall i :: 0 <= i < |s| ==> l[i] == s[i];
  }

  predicate StartsWith(s: string, prefix: string) {
    |prefix| <= |s| && s[..|prefix|] == prefix
  }

  predicate EndsWith(s: string, suffix: string) {
    |suffix| <= |s| && s[|s| - |suffix|..] == suffix
  }

  // ---------------------------------------------------------------------------
  // Stripping

  /** Number of leading `ws` characters. */
  function LeadCount(s: string, ws: char -> bool): (n: nat)
    ensures n <= |s|
    ensures forall i :: 0 <= i < n ==> ws(s[i])
    ensures n == |s| || !ws(s[n])
  {
    if |s| > 0 && ws(s[0]) then 1 + LeadCount(s[1..], ws) else 0
  }

  /** Number of trailing `ws` characters. */
  function TrailCount(s: string, ws: char -> bool): (n: nat)
    ensures n <= |s|
    ensures forall i :: |s| - n <= i < |s| ==> ws(s[i])
    ensures n == |s| || !ws(s[|s| - 1 - n])
  {
    if |s| > 0 && ws(s[|s| - 1]) then 1 + TrailCount(s[..|s| - 1], ws) else 0
  }

  /** Drops the longest prefix of `ws` characters. */
  function TrimLeft(s: string, ws: char -> bool): (r: string)
    ensures r == [] || !ws(r[0])
  {
    s[LeadCount(s, ws)..]
  }

  /** Both ends; `ws` is the runtime's whitespace class. */
  function Trim(s: string, ws: char -> bool): (r: string)
    ensures r == [] || (!ws(r[0]) && !ws(r[|r| - 1]))
    ensures |r| <= |s|
  {
    var l := s[LeadCount(s, ws)..];
    l[..|l| - TrailCount(l, ws)]
  }

  /** What the trim keeps is a slice: the leading run goes, then only `ws`
      characters after it. */
  lemma TrimIsSlice(s: string, ws: char -> bool)
    ensures var i := LeadCount(s, ws);
            var r := Trim(s, ws);
            i + |r| <= |s| && r == s[i..i + |r|] && forall k :: i + |r| <= k < |s| ==> ws(s[k])
  {
    var i := LeadCount(s, ws);
    var l := s[i..];
    var r := l[..|l| - TrailCount(l, ws)];
    assert r == s[i..i + |r|];
  }

  /** Python's `str.strip()`. */
  function PyStrip(s: string): string {
    Trim(s, IsPySpace)
  }

  /** JavaScript's `String.prototype.trim()`. */
  function JsTrim(s: string): string {
    Trim(s, IsJsSpace)
  }

  /** A string that starts and ends with a non-space is its own trim. */
  lemma TrimOfTrimmed(s: string, ws: char -> bool)
    requires s == [] || (!ws(s[0]) && !ws(s[|s| - 1]))
    ensures Trim(s, ws) == s
  {
  }

  /** A string that starts with a non-`ws` character does not trim to nothing. */
  lemma TrimNonEmpty(s: string, ws: char -> bool)
    requires s != [] && !ws(s[0])
    ensures Trim(s, ws) != []
  {
    assert LeadCount(s, ws) == 0;
    assert s[0..] == s;
  }

  /** One `ws` character on each side of a trimmed string is all the trim removes. */
  lemma TrimOfPadded(a: char, t: string, b: char, ws: char -> bool)
    requires ws(a) && ws(b)
    requires t != [] && !ws(t[0]) && !ws(t[|t| - 1])
    ensures Trim([a] + t + [b], ws) == t
  {
    var s := [a] + t + [b];
    var l := t + [b];
    assert s[1..] == l;
    assert LeadCount(l, ws) == 0 by {
      assert l[0] == t[0];
    }
    assert LeadCount(s, ws) == 1;
    assert l[..|l| - 1] == t;
    assert TrailCount(t, ws) == 0;
    assert TrailCount(l, ws) == 1;
  }

  lemma {:induction false} TrimIdempotent(s: string, ws: char -> bool)
    ensures Trim(Trim(s, ws), ws) == Trim(s, ws)
  {
    TrimOfTrimmed(Trim(s, ws), ws);
  }

  // ---------------------------------------------------------------------------
  // Python's `str.split()` with no separator

  predicate IsNotPySpace(c: char) {
    !IsPySpace(c)
  }

  /** The longest prefix of `s` without whitespace. */
  function Word(s: string): (w: string)
    ensures forall i :: 0 <= i < |w| ==> !IsPySpace(w[i])
  {
    s[..LeadCount(s, IsNotPySpace)]
  }

  /** `s.split()`: the maximal runs of non-whitespace, in order. */
  function Split(s: string): (parts: seq<string>)
    ensures forall k :: 0 <= k < |parts| ==> parts[k] != "" && forall i :: 0 <= i < |parts[k]| ==> !IsPySpace(parts[k][i])
    decreases |s|
  {
    var t := TrimLeft(s, IsPySpace);
    if t == "" then []
    else
      var w := Word(t);
      [w] + Split(t[|w|..])
  }

  /** A non-empty run of non-whitespace: what `split()` yields. */
  predicate IsToken(w: string) {
    w != [] && forall i :: 0 <= i < |w| ==> !IsPySpace(w[i])
  }

  /** The tokens joined by single spaces, as a line of a vector file is written. */
  function JoinSpaced(tokens: seq<string>): string
  {
    if tokens == [] then ""
    else if |tokens| == 1 then tokens[0]
    else tokens[0] + " " + JoinSpaced(tokens[1..])
  }

  /** A token's run of non-whitespace ends where the token does. */
  lemma {:induction false} LeadCountOfToken(w: string, r: string)
    requires forall i :: 0 <= i < |w| ==> !IsPySpace(w[i])
    requires r == [] || IsPySpace(r[0])
    ensures LeadCount(w + r, IsNotPySpace) == |w|
  {
    if w != [] {
      assert (w + r)[1..] == w[1..] + r;
      LeadCountOfToken(w[1..], r);
    }
  }

  /** Leading whitespace does not change the split. */
  lemma SplitSkipsSpace(c: char, rest: string)
    requires IsPySpace(c)
    ensures Split([c] + rest) == Split(rest)
  {
    var s := [c] + rest;
    assert s[1..] == rest;
    assert LeadCount(s, IsPySpace) == 1 + LeadCount(rest, IsPySpace);
    assert TrimLeft(s, IsPySpace) == TrimLeft(rest, IsPySpace);
  }

  /** A token on its own splits to itself. */
  lemma SplitToken(w: string)
    requires IsToken(w)
    ensures Split(w) == [w]
  {
    assert LeadCount(w, IsPySpace) == 0;
    assert TrimLeft(w, IsPySpace) == w;
    LeadCountOfToken(w, []);
    assert w + [] == w;
    assert Word(w) == w;
    assert w[|w|..] == [];
  }

  /** A token followed by whitespace is the first piece of the split. */
  lemma SplitTokenThen(w: string, c: char, rest: string)
    requires IsToken(w) && IsPySpace(c)
    ensures Split(w + [c] + rest) == [w] + Split(rest)
  {
    var s := w + [c] + rest;
    assert s[0] == w[0];
    assert LeadCount(s, IsPySpace) == 0;
    assert TrimLeft(s, IsPySpace) == s;
    assert s == w + ([c] + rest);
    LeadCountOfToken(w, [c] + rest);
    assert Word(s) == w;
    assert s[|w|..] == [c] + rest;
    SplitSkipsSpace(c, rest);
  }

  /** `split()` gives back the tokens of a space-joined line. */
  lemma {:induction false} SplitJoinSpaced(tokens: seq<string>)
    requires forall k :: 0 <= k < |tokens| ==> IsToken(tokens[k])
    ensures Split(JoinSpaced(tokens)) == tokens
  {
    if |tokens| == 1 {
      SplitToken(tokens[0]);
    } else if |tokens| > 1 {
      SplitTokenThen(tokens[0], ' ', JoinSpaced(tokens[1..]));
      SplitJoinSpaced(tokens[1..]);
      assert tokens == [tokens[0]] + tokens[1..];
    }
  }
}
