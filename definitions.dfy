/**
 * generate_definitions.py: how a model's answer is cleaned into a dictionary
 * definition, how the word list is read, and which words still need a
 * definition. The requests to the language model, their retries and the
 * thread pool are not modelled: the answer's text is a parameter.
 */
module Definitions {
  import opened Wrappers
  import opened Text
  import opened Collections

  // ---------------------------------------------------------------------------
  // The pattern ^\s*<word>\s*(—|-|:)?\s* with IGNORECASE

  /** One of the separators the pattern allows after the word. */
  predicate IsSeparator(c: char) {
    c == '\U{2014}' || c == '-' || c == ':'
  }

  /** The escaped word matches at position `k`: the literal characters, compared
      without regard to case. */
  predicate WordAt(s: string, k: nat, word: string) {
    k + |word| <= |s| && forall i :: 0 <= i < |word| ==> SameIgnoringCase(s[k + i], word[i])
  }

  /** The greedy `^\s*` gives back whitespace one character at a time until the
      word matches: the largest start not beyond `from`. */
  function WordStart(s: string, word: string, from: nat): (k: Option<nat>)
    ensures k.Some? ==> k.value <= from && WordAt(s, k.value, word)
                        && forall j :: k.value < j <= from ==> !WordAt(s, j, word)
    ensures k.None? ==> forall j :: 0 <= j <= from ==> !WordAt(s, j, word)
    decreases from
  {
    if WordAt(s, from, word) then Some(from)
    else if from == 0 then None
    else WordStart(s, word, from - 1)
  }

  /** How much of `r` the tail `\s*(—|-|:)?\s*` of the pattern takes, greedily. */
  function PatternTail(r: string): (n: nat)
    ensures n <= |r|
  {
    var q := LeadCount(r, IsPySpace);
    var q' := if q < |r| && IsSeparator(r[q]) then q + 1 else q;
    q' + LeadCount(r[q'..], IsPySpace)
  }

  /** Where the match of the pattern at the start of `s` ends, if it matches. Once
      the word has matched, the rest of the pattern always matches. */
  function LeadingWordMatch(word: string, s: string): (e: Option<nat>)
    ensures e.None? <==> forall j :: 0 <= j <= LeadCount(s, IsPySpace) ==> !WordAt(s, j, word)
    ensures e.Some? ==> e.value <= |s|
  {
    match WordStart(s, word, LeadCount(s, IsPySpace))
    case None => None
    case Some(k) => Some(k + |word| + PatternTail(s[k + |word|..]))
  }

  /** `pattern.sub("", definition, count=1)`: the text after the match, or the
      whole text when the pattern does not match. */
  function StripLeadingWord(word: string, s: string): (r: string)
    ensures |r| <= |s| && r == s[|s| - |r|..]
    ensures (forall j :: 0 <= j <= LeadCount(s, IsPySpace) ==> !WordAt(s, j, word)) ==> r == s
  {
    match LeadingWordMatch(word, s)
    case None => s
    case Some(e) => s[e..]
  }

  predicate AllSpace(s: string) {
    forall i :: 0 <= i < |s| ==> IsPySpace(s[i])
  }

  lemma {:induction false} LeadCountOfSpaces(x: string, y: string)
    requires AllSpace(x)
    requires y == [] || !IsPySpace(y[0])
    ensures LeadCount(x + y, IsPySpace) == |x|
  {
    if x != [] {
      assert (x + y)[1..] == x[1..] + y;
      LeadCountOfSpaces(x[1..], y);
    } else {
      assert x + y == y;
    }
  }

  /** The tail takes the whitespace, one separator and the whitespace after it. */
  lemma PatternTailOf(gap1: string, sep: string, gap2: string, t: string)
    requires AllSpace(gap1) && AllSpace(gap2)
    requires sep == [] || (|sep| == 1 && IsSeparator(sep[0]))
    requires t == [] || (!IsPySpace(t[0]) && (sep != [] || !IsSeparator(t[0])))
    ensures PatternTail(gap1 + sep + gap2 + t) == |gap1| + |sep| + |gap2|
  {
    var r := gap1 + sep + gap2 + t;
    if sep != [] {
      assert r == gap1 + (sep + gap2 + t);
      LeadCountOfSpaces(gap1, sep + gap2 + t);
      assert r[|gap1|] == sep[0];
      assert r[|gap1| + 1..] == gap2 + t;
      LeadCountOfSpaces(gap2, t);
    } else {
      assert r == (gap1 + gap2) + t;
      LeadCountOfSpaces(gap1 + gap2, t);
      assert r[|gap1| + |gap2|..] == t;
      assert t == [] + t;
      LeadCountOfSpaces([], t);
    }
  }

  /** The word, in any case, right after the leading whitespace is where the match starts. */
  lemma WordStartAfterSpace(word: string, lead: string, u: string, rest: string)
    requires |u| == |word| && forall i :: 0 <= i < |u| ==> SameIgnoringCase(u[i], word[i])
    requires u != [] && !IsPySpace(u[0]) && AllSpace(lead)
    ensures LeadCount(lead + u + rest, IsPySpace) == |lead|
    ensures WordStart(lead + u + rest, word, |lead|) == Some(|lead|)
  {
    var s := lead + u + rest;
    assert s == lead + (u + rest);
    LeadCountOfSpaces(lead, u + rest);
    forall i | 0 <= i < |word| ensures s[|lead| + i] == u[i] {
      assert s[|lead| + i] == (lead + u)[|lead| + i];
    }
    assert WordAt(s, |lead|, word);
  }

  /** What the pattern removes: leading whitespace, the word in any case,
      whitespace, at most one separator, whitespace. The rest is kept as it is. */
  lemma RemovesLeadingWord(word: string, lead: string, u: string, gap1: string, sep: string, gap2: string, t: string)
    requires |u| == |word| && forall i :: 0 <= i < |u| ==> SameIgnoringCase(u[i], word[i])
    requires u != [] && !IsPySpace(u[0])
    requires AllSpace(lead) && AllSpace(gap1) && AllSpace(gap2)
    requires sep == [] || (|sep| == 1 && IsSeparator(sep[0]))
    requires t == [] || (!IsPySpace(t[0]) && (sep != [] || !IsSeparator(t[0])))
    ensures StripLeadingWord(word, lead + u + gap1 + sep + gap2 + t) == t
  {
    var tail := gap1 + sep + gap2 + t;
    var s := lead + u + tail;
    assert lead + u + gap1 + sep + gap2 + t == s;
    WordStartAfterSpace(word, lead, u, tail);
    var p := |lead| + |u|;
    assert s[p..] == tail;
    PatternTailOf(gap1, sep, gap2, t);
    assert s[p + |gap1| + |sep| + |gap2|..] == t;
  }

  /** Only the first repetition goes: the word written twice keeps its second copy. */
  lemma RemovedOnlyOnce(word: string, t: string)
    requires word != [] && !IsPySpace(word[0]) && !IsSeparator(word[0])
    ensures StripLeadingWord(word, word + " " + word + t) == word + t
  {
    assert word + " " + word + t == [] + word + " " + [] + [] + (word + t);
    RemovesLeadingWord(word, [], word, " ", [], [], word + t);
  }

  // ---------------------------------------------------------------------------
  // remove_word_repetition

  /** `s[1:-1]` when `s` starts and ends with `q` (a lone `q` gives ""). */
  function Unquote(q: char, s: string): (r: string)
    ensures |s| >= 2 && s[0] == q && s[|s| - 1] == q ==> r == s[1..|s| - 1]
    ensures s == [q] ==> r == []
    ensures (s == [] || s[0] != q || s[|s| - 1] != q) ==> r == s
  {
    if |s| >= 1 && s[0] == q && s[|s| - 1] == q then
      (if |s| >= 2 then s[1..|s| - 1] else [])
    else s
  }

  /** `remove_word_repetition(word, definition)` */
  function RemoveWordRepetition(word: string, definition: string): (r: string)
    ensures r == [] || (!IsPySpace(r[0]) && !IsPySpace(r[|r| - 1]))
  {
    var cleaned := PyStrip(StripLeadingWord(word, definition));
    PyStrip(Unquote('\'', Unquote('"', cleaned)))
  }

  /** "<Word> — "<text>"" is cleaned to the bare text. */
  lemma QuotedDefinitionUnwrapped(word: string, u: string, x: string)
    requires |u| == |word| && forall i :: 0 <= i < |u| ==> SameIgnoringCase(u[i], word[i])
    requires u != [] && !IsPySpace(u[0])
    requires x != [] && !IsPySpace(x[0]) && !IsPySpace(x[|x| - 1]) && x[0] != '\''
    ensures RemoveWordRepetition(word, u + " \U{2014} \"" + x + "\"") == x
  {
    var body := "\"" + x + "\"";
    assert u + " \U{2014} \"" + x + "\"" == [] + u + " " + "\U{2014}" + " " + body;
    RemovesLeadingWord(word, [], u, " ", "\U{2014}", " ", body);
    TrimOfTrimmed(body, IsPySpace);
    assert Unquote('"', body) == x;
    TrimOfTrimmed(x, IsPySpace);
  }

  // ---------------------------------------------------------------------------
  // The answer of generate_definition

  const NotAvailable: string := "NA"

  /** The definition stored for an answer `content`: "NA" when the stripped
      answer is "NA" in any case or nothing is left after cleaning. */
  function CleanAnswer(word: string, content: string): (r: string)
    ensures r != []
    ensures UpperStr(PyStrip(content)) == NotAvailable ==> r == NotAvailable
    ensures r == NotAvailable || r == RemoveWordRepetition(word, PyStrip(content))
    ensures RemoveWordRepetition(word, PyStrip(content)) == [] ==> r == NotAvailable
    ensures UpperStr(PyStrip(content)) != NotAvailable && RemoveWordRepetition(word, PyStrip(content)) != []
            ==> r == RemoveWordRepetition(word, PyStrip(content))
  {
    var raw := PyStrip(content);
    if UpperStr(raw) == NotAvailable then NotAvailable
    else
      var clean := RemoveWordRepetition(word, raw);
      if clean == [] then NotAvailable else clean
  }

  /** An answer that only repeats the word is stored as "NA". */
  lemma RepeatedWordIsNotAvailable(word: string, u: string)
    requires |u| == |word| && forall i :: 0 <= i < |u| ==> SameIgnoringCase(u[i], word[i])
    requires u != [] && !IsPySpace(u[0]) && !IsPySpace(u[|u| - 1])
    ensures CleanAnswer(word, u + ":") == NotAvailable
  {
    assert u + ":" == [] + u + [] + ":" + [] + [];
    RemovesLeadingWord(word, [], u, [], ":", [], []);
    TrimOfTrimmed(u + ":", IsPySpace);
  }

  // ---------------------------------------------------------------------------
  // The word list and what is left to do

  /** Lines 61-68: the stripped, non-blank lines, each word once, in the order
      of first appearance. */
  method ReadWordList(lines: seq<string>) returns (words: seq<string>)
    ensures words == KeepFirst(StrippedLines(lines))
  {
    var fromFile := StrippedLines(lines);
    var unique: seq<string> := [];
    var seen: set<string> := {};
    for i := 0 to |fromFile|
      invariant unique == KeepFirst(fromFile[..i])
      invariant forall w :: w in seen <==> w in fromFile[..i]
    {
      var word := fromFile[i];
      assert fromFile[..i + 1] == fromFile[..i] + [word];
      if word !in seen {
        unique := unique + [word];
        seen := seen + {word};
      }
    }
    assert fromFile[..|fromFile|] == fromFile;
    words := unique;
  }

  /** `word not in definitions or definitions.get(word, "").startswith("NA_")` */
  predicate NeedsDefinition(definitions: map<string, string>, word: string) {
    word !in definitions || StartsWith(definitions[word], "NA_")
  }

  /** `to_process`, in the order of the word list. */
  function ToProcess(words: seq<string>, definitions: map<string, string>): (r: seq<string>)
    ensures forall w :: w in r <==> w in words && NeedsDefinition(definitions, w)
  {
    Filter(words, w => NeedsDefinition(definitions, w))
  }

  /** A stored "NA" is final; a stored error marker ("NA_…") is asked again. */
  lemma NotAvailableIsFinal(words: seq<string>, definitions: map<string, string>, w: string)
    requires w in words && w in definitions
    ensures definitions[w] == NotAvailable ==> w !in ToProcess(words, definitions)
    ensures definitions[w] == "NA_TIMEOUT" ==> w in ToProcess(words, definitions)
  {
  }

  /** The global dictionary `save_definition` writes into. */
  class DefinitionStore {
    var definitions: map<string, string>

    constructor (loaded: map<string, string>)
      ensures definitions == loaded
    {
      definitions := loaded;
    }

    /** `save_definition(word, definition)`; writing the file is not modelled. */
    method Save(word: string, definition: string)
      modifies this
      ensures definitions == old(definitions)[word := definition]
    {
      definitions := definitions[word := definition];
    }
  }

  /** Saving a definition takes its word off the list unless it is an error
      marker, and changes nothing for the other words. */
  lemma SaveSettlesWord(words: seq<string>, definitions: map<string, string>, w: string, d: string)
    ensures w in ToProcess(words, definitions[w := d]) <==> w in words && StartsWith(d, "NA_")
    ensures forall v :: v != w ==> (v in ToProcess(words, definitions[w := d]) <==> v in ToProcess(words, definitions))
  {
  }
}
