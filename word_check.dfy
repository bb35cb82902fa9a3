/**
 * word_check.py: reports the words of the daily list that occur more than
 * once and the ones the full word list lacks. The files are only read; each is
 * its sequence of lines, `None` when it cannot be opened, and the printed
 * report is returned as a value.
 */
module WordCheck {
  import opened Wrappers
  import opened Text
  import opened Collections

  /** Two positions of `words` hold `w`. */
  predicate TwoPositions(words: seq<string>, w: string) {
    exists i, j :: 0 <= i < j < |words| && words[i] == w && words[j] == w
  }

  /** The words that occur at least twice. */
  function Repeated(words: seq<string>): (r: set<string>)
    ensures forall w :: w in r <==> TwoPositions(words, w)
  {
    assert forall w :: multiset(words)[w] >= 2 <==> TwoPositions(words, w) by {
      forall w ensures multiset(words)[w] >= 2 <==> TwoPositions(words, w) {
        CountAtLeastTwo(words, w);
      }
    }
    set w | w in words && multiset(words)[w] >= 2
  }

  /** Occurring twice in the multiset is holding the word at two positions. */
  lemma {:induction false} CountAtLeastTwo(words: seq<string>, w: string)
    ensures multiset(words)[w] >= 2 <==> TwoPositions(words, w)
  {
    if words != [] {
      var n := |words|;
      var p := words[..n - 1];
      assert words == p + [words[n - 1]];
      CountAtLeastTwo(p, w);
      if TwoPositions(p, w) {
        var i, j :| 0 <= i < j < |p| && p[i] == w && p[j] == w;
        assert words[i] == w && words[j] == w;
      }
      if words[n - 1] == w {
        if w in p {
          var i :| 0 <= i < |p| && p[i] == w;
          assert words[i] == w && words[n - 1] == w;
        }
        if TwoPositions(words, w) {
          var i, j :| 0 <= i < j < n && words[i] == w && words[j] == w;
          assert p[i] == w;
        }
      } else if TwoPositions(words, w) {
        var i, j :| 0 <= i < j < n && words[i] == w && words[j] == w;
        assert p[i] == w && p[j] == w;
      }
    }
  }

  /** Lines 14-19: the `seen` / `duplicates` loop. */
  method FindDuplicates(words: seq<string>) returns (duplicates: set<string>)
    ensures duplicates == Repeated(words)
  {
    var seen: set<string> := {};
    duplicates := {};
    for i := 0 to |words|
      invariant seen == set w | w in words[..i]
      invariant duplicates == Repeated(words[..i])
    {
      var word := words[i];
      assert words[..i + 1] == words[..i] + [word];
      assert multiset(words[..i + 1]) == multiset(words[..i]) + multiset{word};
      assert word in seen <==> multiset(words[..i])[word] >= 1;
      if word in seen {
        duplicates := duplicates + {word};
      }
      seen := seen + {word};
    }
    assert words[..|words|] == words;
  }

  /** `{line.strip().lower() for line in f}`: every line, blank ones included. */
  function WordlistSet(lines: seq<string>): (r: set<string>)
    ensures forall k :: 0 <= k < |lines| ==> LowerStr(PyStrip(lines[k])) in r
    ensures (exists k :: 0 <= k < |lines| && PyStrip(lines[k]) == "") <==> "" in r
  {
    set k | 0 <= k < |lines| :: LowerStr(PyStrip(lines[k]))
  }

  /** What the second half of the report says. */
  datatype Presence = AllPresent | Missing(words: seq<string>) | WordlistUnreadable

  /** The report: `DailyUnreadable` when the daily file cannot be opened,
      before anything else is printed. */
  datatype CheckReport = DailyUnreadable | Report(duplicates: seq<string>, presence: Presence)

  /** Lines 30-44, given the daily words. */
  function PresenceOf(daily: set<string>, wordlist: Option<seq<string>>): (p: Presence)
    ensures p.WordlistUnreadable? <==> wordlist.None?
    ensures p.AllPresent? <==> wordlist.Some? && daily <= WordlistSet(wordlist.value)
    ensures p.Missing? ==> wordlist.Some? && StrictlySorted(p.words)
                           && forall w :: w in p.words <==> w in daily && w !in WordlistSet(wordlist.value)
  {
    match wordlist
    case None => WordlistUnreadable
    case Some(lines) =>
      var missing := daily - WordlistSet(lines);
      if missing == {} then
        assert forall w :: w in daily ==> w in missing || w in WordlistSet(lines);
        AllPresent
      else
        Missing(SortedSet(missing))
  }

  /** `check_words_presence` */
  method CheckWordsPresence(daily: Option<seq<string>>, wordlist: Option<seq<string>>) returns (r: CheckReport)
    ensures daily.None? <==> r.DailyUnreadable?
    ensures daily.Some? ==>
              var words := NormalizedLines(daily.value);
              r.duplicates == SortedSet(Repeated(words))
              && r.presence == PresenceOf(AsSet(words), wordlist)
  {
    if daily.None? {
      return DailyUnreadable;
    }
    var words := NormalizedLines(daily.value);
    var duplicates := FindDuplicates(words);
    var presence := PresenceOf(AsSet(words), wordlist);
    r := Report(SortedSet(duplicates), presence);
  }

  /** A blank line of the word list adds `""` to its set, which no daily word
      equals: a daily word is missing exactly when no line of the word list
      strips and lower-cases to it. */
  lemma MissingMeansNoLine(daily: seq<string>, lines: seq<string>, w: string)
    ensures var p := PresenceOf(AsSet(NormalizedLines(daily)), Some(lines));
            p.Missing? ==>
              (w in p.words <==>
               w in NormalizedLines(daily) && w != "" && forall k :: 0 <= k < |lines| ==> LowerStr(PyStrip(lines[k])) != w)
  {
    if w in NormalizedLines(daily) {
      assert w != "";
    }
    if exists k :: 0 <= k < |lines| && LowerStr(PyStrip(lines[k])) == w {
      var k :| 0 <= k < |lines| && LowerStr(PyStrip(lines[k])) == w;
      assert w in WordlistSet(lines);
    }
  }
}
