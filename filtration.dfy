/**
 * filtration.py: rebuilds the definitions dictionary from the lines a
 * generation run logged as `📌 '<word>': <definition>`. Reading the log and
 * writing the JSON file are not modelled; the log is its sequence of lines.
 */
module Filtration {
  import opened Wrappers
  import opened Text

  /** U+1F4CC, the pushpin that starts a logged definition. */
  const Pin: char := '\U{1F4CC}'

  datatype Entry = Entry(word: string, definition: string)

  predicate IsNotQuote(c: char) {
    c != '\''
  }

  predicate IsNotNewline(c: char) {
    c != '\n'
  }

  /** The first index at or after `i` whose character is not a `p` character,
      or `|line|`: where a greedy `p*` starting at `i` stops. */
  function Span(line: string, i: nat, p: char -> bool): (j: nat)
    requires i <= |line|
    ensures i <= j <= |line|
    ensures forall k :: i <= k < j ==> p(line[k])
    ensures j == |line| || !p(line[j])
    decreases |line| - i
  {
    if i < |line| && p(line[i]) then Span(line, i + 1, p) else i
  }

  /** A run of `p` characters from `i` to `j` is the whole span. */
  lemma {:induction false} SpanTo(line: string, i: nat, j: nat, p: char -> bool)
    requires i <= j <= |line|
    requires forall k :: i <= k < j ==> p(line[k])
    requires j == |line| || !p(line[j])
    ensures Span(line, i, p) == j
    decreases j - i
  {
    if i < j {
      SpanTo(line, i + 1, j, p);
    }
  }

  /** `(.+)` after `':\s*`, starting at `b`: the greedy `\s*` takes the
      whitespace run; when no character that `.` accepts follows it, the regex
      hands the last non-newline whitespace character back to `(.+)`, which
      strips to nothing. The result is the stripped group, if the match succeeds. */
  function DefinitionGroup(line: string, b: nat): (d: Option<string>)
    requires b <= |line|
    ensures d.Some? ==> d.value == [] || (!IsPySpace(d.value[0]) && !IsPySpace(d.value[|d.value| - 1]))
  {
    var c := Span(line, b, IsPySpace);
    if c < |line| && line[c] != '\n' then Some(PyStrip(line[c..Span(line, c, IsNotNewline)]))
    else if exists k :: b <= k < c && line[k] != '\n' then Some([])
    else None
  }

  /** `📌\s*'`: where the opening quote is. */
  function QuoteStart(line: string): (a: Option<nat>)
    ensures a.Some? ==> 0 < a.value < |line| && line[0] == Pin && line[a.value] == '\''
  {
    if line == [] || line[0] != Pin then None
    else
      var a := Span(line, 1, IsPySpace);
      if a < |line| && line[a] == '\'' then Some(a) else None
  }

  /** `([^']+)':` after the quote at `a`: where the closing quote is. The
      greedy class stops at the first quote, which must be followed by `:`. */
  function WordEnd(line: string, a: nat): (w: Option<nat>)
    requires a < |line|
    ensures w.Some? ==> a + 1 < w.value && w.value + 1 < |line| && line[w.value + 1] == ':'
                        && forall i :: a + 1 <= i < w.value ==> line[i] != '\''
  {
    var w := Span(line, a + 1, IsNotQuote);
    if w == a + 1 || w + 1 >= |line| || line[w + 1] != ':' then None else Some(w)
  }

  /** `pattern.match(line)` for `📌\s*'([^']+)':\s*(.+)`, with both groups stripped. */
  function ParseLogLine(line: string): (e: Option<Entry>)
    ensures e.Some? ==> line != [] && line[0] == Pin
    ensures e.Some? ==> var d := e.value.definition; d == [] || (!IsPySpace(d[0]) && !IsPySpace(d[|d| - 1]))
  {
    var q := QuoteStart(line);
    if q.None? then None
    else
      var end := WordEnd(line, q.value);
      if end.None? then None
      else
        var g := DefinitionGroup(line, end.value + 2);
        if g.None? then None
        else Some(Entry(PyStrip(line[q.value + 1..end.value]), g.value))
  }

  /** A matching line's entry is built from the three stages. */
  lemma ParseLogLineParts(line: string)
    requires ParseLogLine(line).Some?
    ensures QuoteStart(line).Some? && WordEnd(line, QuoteStart(line).value).Some?
    ensures var a := QuoteStart(line).value;
            var w := WordEnd(line, a).value;
            DefinitionGroup(line, w + 2).Some?
            && ParseLogLine(line).value.word == PyStrip(line[a + 1..w])
            && ParseLogLine(line).value.definition == DefinitionGroup(line, w + 2).value
  {
  }

  /** Stripping cannot bring in an apostrophe. */
  lemma StripQuoteFree(s: string)
    requires forall i :: 0 <= i < |s| ==> s[i] != '\''
    ensures '\'' !in PyStrip(s)
  {
    var r := PyStrip(s);
    var i := LeadCount(s, IsPySpace);
    TrimIsSlice(s, IsPySpace);
    assert forall k :: 0 <= k < |r| ==> r[k] == s[i + k];
  }

  /** The word of a matching line holds no apostrophe and no surrounding whitespace. */
  lemma ParsedWordClean(line: string)
    requires ParseLogLine(line).Some?
    ensures '\'' !in ParseLogLine(line).value.word
    ensures var w := ParseLogLine(line).value.word; w == [] || (!IsPySpace(w[0]) && !IsPySpace(w[|w| - 1]))
  {
    ParseLogLineParts(line);
    var a := QuoteStart(line).value;
    var g := line[a + 1..WordEnd(line, a).value];
    forall k | 0 <= k < |g| ensures g[k] != '\'' {
      assert g[k] == line[a + 1 + k];
    }
    StripQuoteFree(g);
  }

  predicate NoNewline(s: string) {
    forall i :: 0 <= i < |s| ==> s[i] != '\n'
  }

  predicate IsStripped(s: string) {
    s != [] && !IsPySpace(s[0]) && !IsPySpace(s[|s| - 1])
  }

  /** The line generate_definitions.py prints for a definition. */
  function PrintedLine(word: string, d: string): (line: string)
    ensures |line| == 6 + |word| + |d|
  {
    [Pin] + " '" + word + "': " + d
  }

  lemma QuoteStartOfPrinted(word: string, d: string)
    ensures QuoteStart(PrintedLine(word, d)) == Some(2)
  {
    SpanTo(PrintedLine(word, d), 1, 2, IsPySpace);
  }

  lemma WordEndOfPrinted(word: string, d: string)
    requires word != [] && '\'' !in word
    ensures WordEnd(PrintedLine(word, d), 2) == Some(3 + |word|)
  {
    var line := PrintedLine(word, d);
    assert forall k :: 3 <= k < 3 + |word| ==> line[k] == word[k - 3];
    SpanTo(line, 3, 3 + |word|, IsNotQuote);
  }

  lemma DefinitionOfPrinted(word: string, d: string)
    requires IsStripped(d) && NoNewline(d)
    ensures DefinitionGroup(PrintedLine(word, d), 5 + |word|) == Some(d)
  {
    var line := PrintedLine(word, d);
    var c := 6 + |word|;
    assert forall k :: c <= k < |line| ==> line[k] == d[k - c];
    SpanTo(line, c - 1, c, IsPySpace);
    SpanTo(line, c, |line|, IsNotNewline);
    assert line[c..|line|] == d;
    TrimOfTrimmed(d, IsPySpace);
  }

  lemma WordOfPrinted(word: string, d: string)
    requires IsStripped(word)
    ensures PyStrip(PrintedLine(word, d)[3..3 + |word|]) == word
  {
    assert PrintedLine(word, d)[3..3 + |word|] == word;
    TrimOfTrimmed(word, IsPySpace);
  }

  /** The line generate_definitions.py prints for a definition reads back as it. */
  lemma ParseLogLineOfPrinted(word: string, d: string)
    requires IsStripped(word) && '\'' !in word
    requires IsStripped(d) && NoNewline(d)
    ensures ParseLogLine(PrintedLine(word, d)) == Some(Entry(word, d))
  {
    QuoteStartOfPrinted(word, d);
    WordEndOfPrinted(word, d);
    DefinitionOfPrinted(word, d);
    WordOfPrinted(word, d);
  }

  /** When the line does not end in whitespace, a definition group that
      matches is not empty: the fallback that gives an empty one needs
      trailing whitespace. */
  lemma DefinitionGroupNonEmpty(line: string, b: nat)
    requires b <= |line|
    requires line == [] || !IsPySpace(line[|line| - 1])
    requires DefinitionGroup(line, b).Some?
    ensures DefinitionGroup(line, b).value != []
  {
    var c := Span(line, b, IsPySpace);
    if c < |line| {
      var g := line[c..Span(line, c, IsNotNewline)];
      assert g[0] == line[c];
      TrimNonEmpty(g, IsPySpace);
    }
  }

  /** A stripped line that matches always yields a non-empty definition. */
  lemma StrippedLineHasDefinition(line: string)
    requires line == [] || IsStripped(line)
    requires ParseLogLine(line).Some?
    ensures ParseLogLine(line).value.definition != []
  {
    ParseLogLineParts(line);
    var a := QuoteStart(line).value;
    DefinitionGroupNonEmpty(line, WordEnd(line, a).value + 2);
  }

  // ---------------------------------------------------------------------------
  // The loop over the log

  /** The entry a raw log line gives, after `line.strip()`. */
  function ParsedLine(line: string): Option<Entry> {
    ParseLogLine(PyStrip(line))
  }

  /** The entries of the lines of a log, line by line. */
  function ParsedLog(log: seq<string>): (entries: seq<Option<Entry>>)
    ensures |entries| == |log| && forall k :: 0 <= k < |log| ==> entries[k] == ParsedLine(log[k])
  {
    seq(|log|, k requires 0 <= k < |log| => ParsedLine(log[k]))
  }

  /** The dictionary after the entries, in order; a later entry for a word
      replaces the earlier one. */
  function Collect(entries: seq<Option<Entry>>): (m: map<string, string>)
    ensures |m| <= |entries|
  {
    if entries == [] then map[]
    else
      var m := Collect(entries[..|entries| - 1]);
      match entries[|entries| - 1]
      case None => m
      case Some(e) => m[e.word := e.definition]
  }

  /** One more entry: the dictionary gains or overwrites its word. */
  lemma CollectPrefix(entries: seq<Option<Entry>>, i: nat)
    requires i < |entries|
    ensures var m := Collect(entries[..i]);
            Collect(entries[..i + 1]) == if entries[i].Some? then m[entries[i].value.word := entries[i].value.definition] else m
  {
    assert entries[..i + 1][..i] == entries[..i];
  }

  /** Lines 13-23. */
  method ReadLog(log: seq<string>) returns (definitions: map<string, string>)
    ensures definitions == Collect(ParsedLog(log))
  {
    ghost var entries := ParsedLog(log);
    definitions := map[];
    for i := 0 to |log|
      invariant definitions == Collect(entries[..i])
    {
      CollectPrefix(entries, i);
      var line := PyStrip(log[i]);
      var m := ParseLogLine(line);
      assert entries[i] == m;
      if m.Some? {
        definitions := definitions[m.value.word := m.value.definition];
      }
    }
    assert entries[..|log|] == entries;
  }

  predicate Names(e: Option<Entry>, w: string) {
    e.Some? && e.value.word == w
  }

  /** A word is in the dictionary exactly when some entry names it. */
  lemma {:induction false} CollectKeys(entries: seq<Option<Entry>>, w: string)
    ensures w in Collect(entries) <==> exists k :: 0 <= k < |entries| && Names(entries[k], w)
  {
    if entries != [] {
      var init := entries[..|entries| - 1];
      CollectKeys(init, w);
      if exists k :: 0 <= k < |init| && Names(init[k], w) {
        var k :| 0 <= k < |init| && Names(init[k], w);
        assert entries[k] == init[k];
      }
      if exists k :: 0 <= k < |entries| - 1 && Names(entries[k], w) {
        var k :| 0 <= k < |entries| - 1 && Names(entries[k], w);
        assert entries[k] == init[k];
      }
    }
  }

  /** Its definition is the one of the last entry that names it. */
  lemma {:induction false} LastEntryWins(entries: seq<Option<Entry>>, w: string)
    requires w in Collect(entries)
    ensures exists k :: 0 <= k < |entries| && entries[k] == Some(Entry(w, Collect(entries)[w]))
                        && forall j :: k < j < |entries| ==> !Names(entries[j], w)
  {
    var init := entries[..|entries| - 1];
    var last := |entries| - 1;
    if Names(entries[last], w) {
      assert entries[last] == Some(Entry(w, Collect(entries)[w]));
    } else {
      LastEntryWins(init, w);
      var k :| 0 <= k < |init| && init[k] == Some(Entry(w, Collect(init)[w]))
               && forall j :: k < j < |init| ==> !Names(init[j], w);
      assert entries[k] == init[k];
      forall j | k < j < |entries| ensures !Names(entries[j], w) {
        if j < last {
          assert entries[j] == init[j];
        }
      }
    }
  }

  /** Every word in the dictionary is free of apostrophes and surrounding whitespace. */
  lemma LogWordsClean(log: seq<string>, w: string)
    ensures w in Collect(ParsedLog(log)) ==>
              '\'' !in w && (w == [] || (!IsPySpace(w[0]) && !IsPySpace(w[|w| - 1])))
  {
    var entries := ParsedLog(log);
    CollectKeys(entries, w);
    if w in Collect(entries) {
      var k :| 0 <= k < |entries| && Names(entries[k], w);
      ParsedWordClean(PyStrip(log[k]));
    }
  }
}
