/**
 * filter.py: every definition of a JSON dictionary loses one leading repetition
 * of its own word, with the same pattern generate_definitions.py uses, but
 * without the quote removal and the final strip. Reading and writing the files
 * is not modelled; the dictionary is a map from word to definition.
 */
module FilterDefinitions {
  import opened Text
  import opened Definitions

  /** The dictionary the script writes. */
  function Cleaned(definitions: map<string, string>): (clean: map<string, string>)
    ensures clean.Keys == definitions.Keys
  {
    map w | w in definitions :: StripLeadingWord(w, definitions[w])
  }

  /** The loop of lines 11-17, one entry at a time. */
  method CleanDefinitions(definitions: map<string, string>) returns (clean: map<string, string>)
    ensures clean == Cleaned(definitions)
  {
    clean := map[];
    var todo := definitions.Keys;
    while todo != {}
      invariant todo <= definitions.Keys
      invariant clean.Keys == definitions.Keys - todo
      invariant forall w :: w in clean ==> clean[w] == StripLeadingWord(w, definitions[w])
      decreases |todo|
    {
      var word :| word in todo;
      clean := clean[word := StripLeadingWord(word, definitions[word])];
      todo := todo - {word};
    }
  }

  /** A definition that does not start with its word, after optional whitespace,
      is written back unchanged; one that does is a suffix of the original. */
  lemma CleanedEntries(definitions: map<string, string>, w: string)
    requires w in definitions
    ensures var d := definitions[w];
            var c := Cleaned(definitions)[w];
            |c| <= |d| && c == d[|d| - |c|..]
            && ((forall j :: 0 <= j <= LeadCount(d, IsPySpace) ==> !WordAt(d, j, w)) ==> c == d)
  {
  }

  /** Unlike generate_definitions.py, trailing whitespace and quotes stay. */
  lemma QuotesAndTrailingSpaceKept(w: string, x: string)
    requires w != [] && !IsPySpace(w[0])
    requires x != [] && !IsPySpace(x[0]) && !IsSeparator(x[0])
    ensures Cleaned(map[w := w + ": \"" + x + "\" "])[w] == "\"" + x + "\" "
  {
    var t := "\"" + x + "\" ";
    assert w + ": \"" + x + "\" " == [] + w + [] + ":" + " " + t;
    RemovesLeadingWord(w, [], w, [], ":", " ", t);
  }
}
