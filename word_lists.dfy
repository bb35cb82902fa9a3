/**
 * filter_ukrainian_words.py: which words count as Ukrainian dictionary words,
 * and how the words of an old list that pass are appended to the current list.
 * The output file is its sequence of lines; the summary line the script prints
 * is returned as three numbers.
 */
module WordLists {
  import opened Wrappers
  import opened Text
  import opened Collections

  const LowerLetters: string := "абвгґдежзийіїклмнопрстуфхцчшщьюя"
  const UpperLetters: string := "АБВГҐДЕЖЗИЙІЇКЛМНОПРСТУФХЦЧШЩЬЮЯ"

  /** A character of the class `[{ukrainian_letters}'-]`. */
  predicate IsAllowedChar(c: char) {
    c in LowerLetters || c in UpperLetters || c == '\'' || c == '-'
  }

  predicate AllAllowed(s: string) {
    forall i :: 0 <= i < |s| ==> IsAllowedChar(s[i])
  }

  /** `c.isupper()` on the characters that reach it: the allowed ones, and the
      newline the pattern lets through at the end. */
  predicate IsUpperLetter(c: char) {
    c in UpperLetters
  }

  function UpperCount(w: string): (n: nat)
    ensures n <= |w|
    ensures n == 0 <==> forall i :: 0 <= i < |w| ==> !IsUpperLetter(w[i])
  {
    if w == [] then 0 else UpperCount(w[..|w| - 1]) + (if IsUpperLetter(w[|w| - 1]) then 1 else 0)
  }

  /** `valid_word_regex.match(word)` for `^[...]+$`: one or more allowed
      characters, where `$` also matches just before a final newline. */
  predicate MatchesWordPattern(w: string)
    ensures MatchesWordPattern(w) ==> w != [] && AllAllowed(w[..|w| - 1])
    ensures w != [] && AllAllowed(w) ==> MatchesWordPattern(w)
  {
    (w != [] && AllAllowed(w)) || (|w| >= 2 && w[|w| - 1] == '\n' && AllAllowed(w[..|w| - 1]))
  }

  /** `is_valid_word(word)` */
  predicate IsValidWord(w: string)
    ensures IsValidWord(w) ==> w != [] && AllAllowed(w[..|w| - 1]) && UpperCount(w) <= 1
  {
    MatchesWordPattern(w) && UpperCount(w) <= 1
  }

  /** For a stripped word the check is exactly: non-empty, only allowed
      characters, at most one capital. */
  lemma ValidStrippedWord(w: string)
    requires PyStrip(w) == w
    ensures IsValidWord(w) <==> w != [] && AllAllowed(w) && UpperCount(w) <= 1
  {
    if w != [] {
      assert !IsPySpace(w[|w| - 1]);
    }
  }

  /** The newline `$` accepts: a valid word followed by one newline passes too. */
  lemma TrailingNewlineAccepted(w: string)
    requires w != [] && AllAllowed(w) && UpperCount(w) <= 1
    ensures IsValidWord(w + "\n")
  {
    var v := w + "\n";
    assert v[..|v| - 1] == w;
    assert !IsUpperLetter(v[|v| - 1]);
    assert UpperCount(v) == UpperCount(w);
    assert MatchesWordPattern(v);
  }

  lemma {:induction false} UpperCountAtLeastTwo(w: string, i: nat, j: nat)
    requires i < j < |w| && IsUpperLetter(w[i]) && IsUpperLetter(w[j])
    ensures UpperCount(w) >= 2
  {
    var init := w[..|w| - 1];
    if j < |w| - 1 {
      assert init[i] == w[i] && init[j] == w[j];
      UpperCountAtLeastTwo(init, i, j);
    } else {
      assert init[i] == w[i];
      UpperCountAtLeastOne(init, i);
    }
  }

  lemma {:induction false} UpperCountAtLeastOne(w: string, i: nat)
    requires i < |w| && IsUpperLetter(w[i])
    ensures UpperCount(w) >= 1
  {
    if i < |w| - 1 {
      var init := w[..|w| - 1];
      assert init[i] == w[i];
      UpperCountAtLeastOne(init, i);
    }
  }

  /** Two capitals make an abbreviation, which is rejected; so is the empty word. */
  lemma AbbreviationInvalid(w: string, i: nat, j: nat)
    requires i < j < |w| && IsUpperLetter(w[i]) && IsUpperLetter(w[j])
    ensures !IsValidWord(w)
  {
    UpperCountAtLeastTwo(w, i, j);
  }

  lemma EmptyWordInvalid()
    ensures !IsValidWord("")
  {
  }

  // ---------------------------------------------------------------------------
  // append_new_words

  /** `set(line.strip() for line in f if line.strip())`, empty when the file
      does not exist. */
  function ExistingWords(output: Option<seq<string>>): (existing: set<string>)
    ensures "" !in existing
  {
    match output
    case None => {}
    case Some(lines) => AsSet(StrippedLines(lines))
  }

  /** The condition of the comprehension on line 34. */
  function IsNew(existing: set<string>): string -> bool {
    w => IsValidWord(w) && w !in existing
  }

  /** `new_words`: the stripped non-blank input lines that are valid and not
      yet in the output file, in input order, repeats kept. */
  function NewWords(input: seq<string>, existing: set<string>): (r: seq<string>)
    ensures |r| <= |input|
    ensures forall w :: w in r ==> w != "" && IsValidWord(w) && w !in existing
  {
    var stripped := StrippedLines(input);
    assert forall w :: w in stripped ==> w != "";
    Filter(stripped, IsNew(existing))
  }

  /** A word is new exactly when some input line strips to it, it is valid and
      it is not in the output file. */
  lemma NewWordsMembers(input: seq<string>, existing: set<string>, w: string)
    ensures w in NewWords(input, existing) <==>
            IsValidWord(w) && w !in existing && w != "" && exists k :: 0 <= k < |input| && PyStrip(input[k]) == w
  {
    StrippedLinesMembers(input, w);
  }

  /** `existing_words` is not updated while filtering: a new word is appended
      once for each input line that holds it. */
  lemma NewWordsRepeat(input: seq<string>, existing: set<string>, w: string)
    requires IsValidWord(w) && w !in existing
    ensures multiset(NewWords(input, existing))[w] == multiset(StrippedLines(input))[w]
  {
    FilterCount(StrippedLines(input), IsNew(existing), w);
  }

  /** The output file: whether it exists and its lines. Every line the script
      writes ends in a newline, so a line is a word. */
  class WordListFile {
    var present: bool
    var lines: seq<string>

    constructor (present: bool, lines: seq<string>)
      ensures this.present == present && this.lines == lines
    {
      this.present := present;
      this.lines := lines;
    }

    function Contents(): Option<seq<string>>
      reads this
    {
      if present then Some(lines) else None
    }

    /** `open(output_file, "a")`: creates the file when it is missing. */
    method OpenForAppend()
      modifies this
      ensures present && lines == old(Contents()).GetOr([])
    {
      if !present {
        present := true;
        lines := [];
      }
    }

    /** `f.write(word + "\n")` */
    method WriteLine(word: string)
      requires present
      modifies this
      ensures present && lines == old(lines) + [word]
    {
      lines := lines + [word];
    }
  }

  /** `append_new_words`: returns the numbers the summary line prints — new
      words, words checked, and the total it reports. */
  method AppendNewWords(input: seq<string>, file: WordListFile) returns (added: nat, checked: nat, total: nat)
    modifies file
    ensures var existing := ExistingWords(old(file.Contents()));
            file.present && file.lines == old(file.Contents()).GetOr([]) + NewWords(input, existing)
            && added == |NewWords(input, existing)| && checked == |StrippedLines(input)|
            && total == |existing| + added
  {
    var existing := ExistingWords(file.Contents());
    var rawWords := StrippedLines(input);
    var newWords := Filter(rawWords, IsNew(existing));
    file.OpenForAppend();
    ghost var start := file.lines;
    for i := 0 to |newWords|
      invariant file.present && file.lines == start + newWords[..i]
    {
      file.WriteLine(newWords[i]);
      assert newWords[..i + 1] == newWords[..i] + [newWords[i]];
    }
    assert newWords[..|newWords|] == newWords;
    added, checked, total := |newWords|, |rawWords|, |existing| + |newWords|;
  }

  /** The words appended are read back as existing words on the next run, which
      therefore appends nothing. */
  lemma SecondRunAddsNothing(input: seq<string>, output: Option<seq<string>>)
    ensures var after := output.GetOr([]) + NewWords(input, ExistingWords(output));
            NewWords(input, ExistingWords(Some(after))) == []
  {
    var before := ExistingWords(output);
    var added := NewWords(input, before);
    var after := output.GetOr([]) + added;
    var raw := StrippedLines(input);
    forall i | 0 <= i < |raw| ensures !IsNew(ExistingWords(Some(after)))(raw[i]) {
      var w := raw[i];
      if IsValidWord(w) {
        StrippedLinesMembers(after, w);
        if w in before {
          StrippedLinesMembers(output.value, w);
          var k :| 0 <= k < |output.value| && PyStrip(output.value[k]) == w;
          assert after[k] == output.value[k];
        } else {
          assert w in added;
          var j :| 0 <= j < |added| && added[j] == w;
          assert after[|output.GetOr([])| + j] == w;
        }
      }
    }
    FilterNone(raw, IsNew(ExistingWords(Some(after))));
  }
}
