/**
 * load_words.py: the daily words that the full word list lacks. Each file is
 * its sequence of lines; the printed lines are returned as a value.
 */
module WordLoader {
  import opened Wrappers
  import opened Text
  import opened Collections
  import WordCheck

  /** `load_words(filename)`: the stripped, lower-cased non-blank lines, as a set. */
  function LoadWords(lines: seq<string>): (words: set<string>)
    ensures "" !in words
  {
    AsSet(NormalizedLines(lines))
  }

  /** A word is loaded exactly when some non-blank line strips and lower-cases to it. */
  lemma LoadWordsMembers(lines: seq<string>, w: string)
    ensures w in LoadWords(lines) <==>
            exists k :: 0 <= k < |lines| && PyStrip(lines[k]) != "" && LowerStr(PyStrip(lines[k])) == w
  {
    NormalizedLinesMembers(lines, w);
  }

  /** What `main` prints. */
  datatype Outcome = AllPresent | Missing(words: seq<string>)

  /** `main`, given the lines of both files. */
  function Compare(daily: seq<string>, full: seq<string>): (o: Outcome)
    ensures o.AllPresent? <==> LoadWords(daily) <= LoadWords(full)
    ensures o.Missing? ==> StrictlySorted(o.words) && o.words != []
                           && forall w :: w in o.words <==> w in LoadWords(daily) && w !in LoadWords(full)
  {
    var missing := LoadWords(daily) - LoadWords(full);
    if missing != {} then
      Missing(SortedSet(missing))
    else
      assert forall w :: w in LoadWords(daily) ==> w in missing || w in LoadWords(full);
      AllPresent
  }

  /** word_check.py reaches the same verdict and lists the same missing words,
      although its word-list set also holds `""` when the list has a blank line. */
  lemma AgreesWithWordCheck(daily: seq<string>, full: seq<string>)
    ensures var p := WordCheck.PresenceOf(AsSet(NormalizedLines(daily)), Some(full));
            match Compare(daily, full)
            case AllPresent => p == WordCheck.AllPresent
            case Missing(words) => p == WordCheck.Missing(words)
  {
    var d := AsSet(NormalizedLines(daily));
    var a := d - WordCheck.WordlistSet(full);
    var b := LoadWords(daily) - LoadWords(full);
    forall w ensures w in a <==> w in b {
      if w in d {
        assert w != "";
        LoadWordsMembers(full, w);
        if w in WordCheck.WordlistSet(full) {
          var k :| 0 <= k < |full| && LowerStr(PyStrip(full[k])) == w;
          assert PyStrip(full[k]) != "";
        }
        if w in LoadWords(full) {
          var k :| 0 <= k < |full| && PyStrip(full[k]) != "" && LowerStr(PyStrip(full[k])) == w;
          assert w in WordCheck.WordlistSet(full);
        }
      }
    }
    assert a == b;
  }
}
