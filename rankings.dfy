/**
 * generate_rankings.py: which vectors are read from the embedding file, what
 * the loaded resources hold, and how the ranking numbers the words. The file is
 * its sequence of lines. A vector is kept as the tokens of its components:
 * whether a token converts to float32 is the parameter `isNumber`, and the
 * similarities and the order `argsort` gives them are inputs.
 */
module Rankings {
  import opened Wrappers
  import opened Text
  import opened Collections

  /** The components of a vector, as the tokens they were read from. */
  type Vector = seq<string>

  /** `{w for w in required_words if w}` */
  function RequiredSet(requiredWords: set<string>): (required: set<string>)
    ensures "" !in required && required <= requiredWords
    ensures forall w :: w in requiredWords && w != "" ==> w in required
  {
    requiredWords - {""}
  }

  predicate AllNumbers(tokens: seq<string>, isNumber: string -> bool) {
    forall i :: 0 <= i < |tokens| ==> isNumber(tokens[i])
  }

  /** What one line of the file does. */
  datatype Verdict = Skip | Store(word: string, vec: Vector)

  /** Lines 70-90 for one line, given what has been found so far and the
      dimension of the first accepted vector. `line.rstrip().split()` is
      `split()`: it drops the trailing whitespace anyway. The `vec.size == 0`
      test of line 83 never fires, since a line gets there with two tokens. */
  function Judge(line: string, required: set<string>, isNumber: string -> bool,
                 found: map<string, Vector>, dim: Option<nat>): (v: Verdict)
    ensures v.Store? ==> v.word in required && v.word !in found && |v.vec| > 0
                         && (dim.Some? ==> |v.vec| == dim.value) && AllNumbers(v.vec, isNumber)
    ensures v.Store? ==> var parts := Split(line); |parts| >= 2 && v.word == parts[0] && v.vec == parts[1..]
  {
    var parts := Split(line);
    if |parts| < 2 then Skip
    else if parts[0] !in required || parts[0] in found then Skip
    else if !AllNumbers(parts[1..], isNumber) then Skip
    else if dim.Some? && |parts| - 1 != dim.value then Skip
    else Store(parts[0], parts[1..])
  }

  /** A line `word v1 v2 ...` of the vector file is read as the word and the
      vector `[v1, v2, ...]`, and stored when the word is wanted, not yet
      found, every component converts and the dimension fits. */
  lemma VectorLineStored(word: string, vec: Vector, required: set<string>, isNumber: string -> bool,
                         found: map<string, Vector>, dim: Option<nat>)
    requires IsToken(word) && vec != [] && forall k :: 0 <= k < |vec| ==> IsToken(vec[k])
    requires word in required && word !in found && AllNumbers(vec, isNumber)
    requires dim.Some? ==> |vec| == dim.value
    ensures Judge(word + " " + JoinSpaced(vec), required, isNumber, found, dim) == Store(word, vec)
  {
    var tokens := [word] + vec;
    assert tokens[1..] == vec;
    assert JoinSpaced(tokens) == word + " " + JoinSpaced(vec);
    SplitJoinSpaced(tokens);
    assert Split(word + " " + JoinSpaced(vec)) == tokens;
  }

  /** The first vector accepted fixes the dimension. */
  function NextDim(dim: Option<nat>, vec: Vector): Option<nat> {
    if dim.None? then Some(|vec|) else dim
  }

  /** The dictionary after reading `lines`, starting from `found` and `dim`;
      reading stops once every required word has been found. A word, once
      found, keeps its vector: the first line for a word wins. */
  function Scan(lines: seq<string>, required: set<string>, isNumber: string -> bool,
                found: map<string, Vector>, dim: Option<nat>): (r: map<string, Vector>)
    ensures forall w :: w in found ==> w in r && r[w] == found[w]
    decreases |lines|
  {
    if lines == [] then found
    else
      match Judge(lines[0], required, isNumber, found, dim)
      case Skip => Scan(lines[1..], required, isNumber, found, dim)
      case Store(w, vec) =>
        var found' := found[w := vec];
        if |found'| == |required| then found'
        else Scan(lines[1..], required, isNumber, found', NextDim(dim, vec))
  }

  /** `_load_required_vectors(model_path, required_words)` */
  method LoadRequiredVectors(lines: seq<string>, requiredWords: set<string>, isNumber: string -> bool)
    returns (found: map<string, Vector>)
    ensures found == Scan(lines, RequiredSet(requiredWords), isNumber, map[], None)
  {
    var required := RequiredSet(requiredWords);
    found := map[];
    var dim: Option<nat> := None;
    for i := 0 to |lines|
      invariant Scan(lines, required, isNumber, map[], None) == Scan(lines[i..], required, isNumber, found, dim)
    {
      assert lines[i..][0] == lines[i] && lines[i..][1..] == lines[i + 1..];
      ghost var verdict := Judge(lines[i], required, isNumber, found, dim);
      var parts := Split(lines[i]);
      if |parts| < 2 {
        continue;
      }
      var word := parts[0];
      if word !in required || word in found {
        continue;
      }
      var vec := parts[1..];
      if !AllNumbers(vec, isNumber) {
        continue;
      }
      if dim.None? {
        dim := Some(|vec|);
      } else if |vec| != dim.value {
        continue;
      }
      assert verdict == Store(word, vec);
      found := found[word := vec];
      if |found| == |required| {
        break;
      }
    }
  }

  /** Only required words are stored. */
  lemma {:induction false} ScanKeys(lines: seq<string>, required: set<string>, isNumber: string -> bool,
                                    found: map<string, Vector>, dim: Option<nat>)
    ensures Scan(lines, required, isNumber, found, dim).Keys <= found.Keys + required
    decreases |lines|
  {
    if lines != [] {
      match Judge(lines[0], required, isNumber, found, dim)
      case Skip =>
        ScanKeys(lines[1..], required, isNumber, found, dim);
      case Store(w, vec) =>
        var found' := found[w := vec];
        if |found'| != |required| {
          ScanKeys(lines[1..], required, isNumber, found', NextDim(dim, vec));
        }
    }
  }

  /** Every vector stored comes from a line that starts with its word and whose
      other tokens all convert. */
  lemma {:induction false} ScanSources(lines: seq<string>, required: set<string>, isNumber: string -> bool,
                                       found: map<string, Vector>, dim: Option<nat>, w: string)
    requires w in Scan(lines, required, isNumber, found, dim) && w !in found
    ensures exists k :: 0 <= k < |lines| && |Split(lines[k])| >= 2 && Split(lines[k])[0] == w
                        && Scan(lines, required, isNumber, found, dim)[w] == Split(lines[k])[1..]
                        && AllNumbers(Split(lines[k])[1..], isNumber)
    decreases |lines|
  {
    var r := Scan(lines, required, isNumber, found, dim);
    match Judge(lines[0], required, isNumber, found, dim)
    case Skip =>
      ScanSources(lines[1..], required, isNumber, found, dim, w);
      var k :| 0 <= k < |lines[1..]| && |Split(lines[1..][k])| >= 2 && Split(lines[1..][k])[0] == w
               && r[w] == Split(lines[1..][k])[1..] && AllNumbers(Split(lines[1..][k])[1..], isNumber);
      assert lines[k + 1] == lines[1..][k];
    case Store(v, vec) =>
      var found' := found[v := vec];
      if v == w {
        assert r[w] == vec && Split(lines[0])[0] == w && Split(lines[0])[1..] == vec;
      } else {
        ScanSources(lines[1..], required, isNumber, found', NextDim(dim, vec), w);
        var k :| 0 <= k < |lines[1..]| && |Split(lines[1..][k])| >= 2 && Split(lines[1..][k])[0] == w
                 && r[w] == Split(lines[1..][k])[1..] && AllNumbers(Split(lines[1..][k])[1..], isNumber);
        assert lines[k + 1] == lines[1..][k];
      }
  }

  /** The dimension fixed so far agrees with every vector found. */
  predicate UniformDim(found: map<string, Vector>, dim: Option<nat>) {
    match dim
    case None => found == map[]
    case Some(n) => n > 0 && forall w :: w in found ==> |found[w]| == n
  }

  /** All vectors of `found` have one dimension, and it is not zero. */
  predicate SameDimension(found: map<string, Vector>) {
    forall v, w :: v in found && w in found ==> |found[v]| == |found[w]| && |found[v]| > 0
  }

  lemma UniformSame(found: map<string, Vector>, dim: Option<nat>)
    requires UniformDim(found, dim)
    ensures SameDimension(found)
  {
  }

  /** Storing a vector the line judge accepted keeps the dimension uniform. */
  lemma UniformStore(line: string, required: set<string>, isNumber: string -> bool,
                     found: map<string, Vector>, dim: Option<nat>)
    requires UniformDim(found, dim)
    requires Judge(line, required, isNumber, found, dim).Store?
    ensures var v := Judge(line, required, isNumber, found, dim);
            UniformDim(found[v.word := v.vec], NextDim(dim, v.vec))
  {
  }

  /** Every stored vector has the dimension of the first one accepted. */
  lemma {:induction false} ScanUniform(lines: seq<string>, required: set<string>, isNumber: string -> bool,
                                       found: map<string, Vector>, dim: Option<nat>)
    requires UniformDim(found, dim)
    ensures SameDimension(Scan(lines, required, isNumber, found, dim))
    decreases |lines|
  {
    if lines == [] {
      UniformSame(found, dim);
    } else {
      match Judge(lines[0], required, isNumber, found, dim)
      case Skip =>
        ScanUniform(lines[1..], required, isNumber, found, dim);
      case Store(w, vec) =>
        var found' := found[w := vec];
        UniformStore(lines[0], required, isNumber, found, dim);
        if |found'| == |required| {
          UniformSame(found', NextDim(dim, vec));
        } else {
          ScanUniform(lines[1..], required, isNumber, found', NextDim(dim, vec));
        }
    }
  }

  /** The same loop without the `break` on line 92. */
  function ScanAll(lines: seq<string>, required: set<string>, isNumber: string -> bool,
                   found: map<string, Vector>, dim: Option<nat>): map<string, Vector>
    decreases |lines|
  {
    if lines == [] then found
    else
      match Judge(lines[0], required, isNumber, found, dim)
      case Skip => ScanAll(lines[1..], required, isNumber, found, dim)
      case Store(w, vec) => ScanAll(lines[1..], required, isNumber, found[w := vec], NextDim(dim, vec))
  }

  lemma SubsetSameSize(a: set<string>, b: set<string>)
    requires a <= b && |a| == |b|
    ensures a == b
  {
    assert |b - a| == |b| - |a|;
  }

  /** Once every required word is found, no later line is stored. */
  lemma {:induction false} ScanAllComplete(lines: seq<string>, required: set<string>, isNumber: string -> bool,
                                           found: map<string, Vector>, dim: Option<nat>)
    requires found.Keys == required
    ensures ScanAll(lines, required, isNumber, found, dim) == found
    decreases |lines|
  {
    if lines != [] {
      ScanAllComplete(lines[1..], required, isNumber, found, dim);
    }
  }

  /** The `break` only saves reading: the full loop gives the same dictionary. */
  lemma {:induction false} BreakChangesNothing(lines: seq<string>, required: set<string>, isNumber: string -> bool,
                                               found: map<string, Vector>, dim: Option<nat>)
    requires found.Keys <= required
    ensures Scan(lines, required, isNumber, found, dim) == ScanAll(lines, required, isNumber, found, dim)
    decreases |lines|
  {
    if lines != [] {
      match Judge(lines[0], required, isNumber, found, dim)
      case Skip =>
        BreakChangesNothing(lines[1..], required, isNumber, found, dim);
      case Store(w, vec) =>
        var found' := found[w := vec];
        if |found'| == |required| {
          SubsetSameSize(found'.Keys, required);
          ScanAllComplete(lines[1..], required, isNumber, found', NextDim(dim, vec));
        } else {
          BreakChangesNothing(lines[1..], required, isNumber, found', NextDim(dim, vec));
        }
    }
  }

  // ---------------------------------------------------------------------------
  // load_embedding_resources

  /** `EmbeddingResources` without the path, the matrix and its norms. */
  datatype Resources = Resources(vectors: map<string, Vector>, wordsAvailable: seq<string>, missingWords: seq<string>)

  /** `set(words)` updated with `daily_words`; an empty or absent daily list adds nothing. */
  function RequiredWords(words: seq<string>, daily: seq<string>): (required: set<string>)
    ensures forall w :: w in required <==> w in words || w in daily
  {
    AsSet(words) + AsSet(daily)
  }

  function HasVector(vectors: map<string, Vector>): string -> bool {
    w => w in vectors
  }

  /** Lines 108-112 once the vectors are loaded. */
  function Assemble(words: seq<string>, required: set<string>, vectors: map<string, Vector>): (r: Result<Resources, string>)
    ensures r.Err? <==> forall i :: 0 <= i < |words| ==> words[i] !in vectors
    ensures r.Ok? ==> r.value.vectors == vectors
    ensures r.Ok? ==> StrictlySorted(r.value.missingWords)
                      && forall w :: w in r.value.missingWords <==> w in required && w !in vectors
    ensures r.Ok? ==> r.value.wordsAvailable == Filter(words, HasVector(vectors))
  {
    var available := Filter(words, HasVector(vectors));
    if available == [] then
      assert forall i :: 0 <= i < |words| ==> words[i] !in vectors by {
        forall i | 0 <= i < |words| ensures words[i] !in vectors {
          assert words[i] in words;
        }
      }
      Err("no word of the dictionary is in the model")
    else
      assert available[0] in available;
      Ok(Resources(vectors, available, SortedSet(required - vectors.Keys)))
  }

  /** `load_embedding_resources(words, daily_words)` */
  method LoadEmbeddingResources(words: seq<string>, daily: seq<string>, lines: seq<string>, isNumber: string -> bool)
    returns (r: Result<Resources, string>)
    ensures var required := RequiredWords(words, daily);
            r == Assemble(words, required, Scan(lines, RequiredSet(required), isNumber, map[], None))
  {
    var required := RequiredWords(words, daily);
    var vectors := LoadRequiredVectors(lines, required, isNumber);
    r := Assemble(words, required, vectors);
  }

  /** The available words keep the order and repeats of `words`; each has a
      vector, all of one dimension. */
  lemma AvailableWords(words: seq<string>, daily: seq<string>, lines: seq<string>, isNumber: string -> bool)
    ensures var required := RequiredWords(words, daily);
            var vectors := Scan(lines, RequiredSet(required), isNumber, map[], None);
            var r := Assemble(words, required, vectors);
            r.Ok? ==> (forall w :: w in r.value.wordsAvailable <==> w in words && w in vectors)
                      && SameDimension(vectors)
  {
    var required := RequiredWords(words, daily);
    ScanUniform(lines, RequiredSet(required), isNumber, map[], None);
  }

  /** `""` is required at the top (it is in `set(words)`) but never loaded, so
      an empty word in the list is always reported missing. */
  lemma EmptyWordReportedMissing(words: seq<string>, daily: seq<string>, lines: seq<string>, isNumber: string -> bool)
    requires "" in words
    ensures var required := RequiredWords(words, daily);
            var r := Assemble(words, required, Scan(lines, RequiredSet(required), isNumber, map[], None));
            r.Ok? ==> "" in r.value.missingWords
  {
    var required := RequiredWords(words, daily);
    ScanKeys(lines, RequiredSet(required), isNumber, map[], None);
  }

  // ---------------------------------------------------------------------------
  // _rank_words

  /** One element of the ranking, without its similarity. */
  datatype RankedWord = RankedWord(word: string, rank: nat)

  function Indices(n: nat): (s: seq<nat>)
    ensures |s| == n && forall i :: 0 <= i < n ==> s[i] == i
  {
    seq(n, i requires 0 <= i < n => i)
  }

  /** `order` lists every index below `n` once, as `argsort` does. */
  predicate IsIndexPermutation(order: seq<nat>, n: nat) {
    multiset(order) == multiset(Indices(n))
  }

  lemma PermutationBounds(order: seq<nat>, n: nat)
    requires IsIndexPermutation(order, n)
    ensures |order| == n && forall i :: 0 <= i < |order| ==> order[i] < n
  {
    assert |multiset(order)| == |multiset(Indices(n))|;
    forall i | 0 <= i < |order| ensures order[i] < n {
      assert order[i] in multiset(order);
    }
  }

  /** `_rank_words(target_word, resources)`, given whether the target vector's
      norm is zero and the order of the similarities, best first. */
  function RankWords(target: string, res: Resources, targetNormZero: bool, order: seq<nat>): (r: Result<seq<RankedWord>, string>)
    requires IsIndexPermutation(order, |res.wordsAvailable|)
    ensures r.Err? <==> target !in res.vectors || targetNormZero
    ensures r.Ok? ==> |r.value| == |res.wordsAvailable|
    ensures r.Ok? ==> forall i :: 0 <= i < |r.value| ==> r.value[i].rank == i + 1
    ensures r.Ok? ==> |order| == |r.value| && forall i :: 0 <= i < |order| ==>
                        order[i] < |res.wordsAvailable| && r.value[i].word == res.wordsAvailable[order[i]]
  {
    if target !in res.vectors then Err("the word is not in the vector model")
    else if targetNormZero then Err("the word's vector has norm zero")
    else
      PermutationBounds(order, |res.wordsAvailable|);
      Ok(seq(|order|, i requires 0 <= i < |order| => RankedWord(res.wordsAvailable[order[i]], i + 1)))
  }

  /** The ranking lists exactly the available words, numbered 1..N with no gap. */
  lemma RankingCoversAvailable(target: string, res: Resources, targetNormZero: bool, order: seq<nat>, w: string)
    requires IsIndexPermutation(order, |res.wordsAvailable|)
    requires RankWords(target, res, targetNormZero, order).Ok?
    ensures var ranked := RankWords(target, res, targetNormZero, order).value;
            (exists i :: 0 <= i < |ranked| && ranked[i].word == w) <==> w in res.wordsAvailable
  {
    var ranked := RankWords(target, res, targetNormZero, order).value;
    var n := |res.wordsAvailable|;
    PermutationBounds(order, n);
    if w in res.wordsAvailable {
      var j :| 0 <= j < n && res.wordsAvailable[j] == w;
      assert Indices(n)[j] == j;
      assert j in multiset(order);
      var i :| 0 <= i < |order| && order[i] == j;
      assert ranked[i].word == w;
    }
  }
}
