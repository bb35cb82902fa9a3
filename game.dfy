/**
 * The game page of static/js/main.js: the state its closure keeps (`guessCount`,
 * `guesses`, `bestRank`, `lastWord`, the module-level `isGoingUp`, the ranked
 * list and `MAX_RANK`) and the two handlers that update it, the word submit and
 * the Hint button. Every handler that records an entry ends by calling
 * `renderGuesses` (static/js/ui.js), which sorts `guesses` in place and fills the
 * last-guess panel; `Render` models that call.
 */
module Game {
  import opened Wrappers
  import opened Text
  import opened Guesses
  import opened HintSearch
  import opened Display

  /** The `/guess` response the submit handler reads: `data.error` or `data.rank`. */
  datatype GuessReply = NotFound | Ranked(rank: int)

  /** How one submit ends. */
  datatype SubmitOutcome =
    | EmptyInput          // the trimmed, lower-cased input is empty: nothing happens
    | RequestFailed       // `submitGuess` threw: nothing is recorded
    | Recorded(entry: Guess)

  /** How one press of the Hint button ends. */
  datatype HintOutcome =
    | NoWordList          // the ranked list is empty (alert)
    | NoHint              // `getNextHintRank` gave nothing usable (alert)
    | RankMissing(rank: int) // no ranked entry carries the chosen rank (alert)
    | Revealed(entry: Guess)

  /** The entry the submit handler pushes for `word`. */
  function EntryFor(word: string, reply: GuessReply): (g: Guess)
    ensures g.word == word
    ensures g.error <==> reply.NotFound?
    ensures g.error <==> g.rank == Infinity
    ensures reply.Ranked? ==> g.rank == Finite(reply.rank)
  {
    match reply
    case NotFound => Guess(word, Infinity, true)
    case Ranked(r) => Guess(word, Finite(r), false)
  }

  /** The number of entries `showClosestWords` renders. */
  const ClosestWordsLimit: nat := 500

  class GameState {
    var guessCount: nat
    var guesses: seq<Guess>
    var bestRank: Rank
    var lastWord: Option<string>
    var isGoingUp: bool
    var rankedWords: seq<RankedWord>
    var maxRank: int
    /** What the last-guess panel shows; `None` when it is hidden. */
    var panel: Option<Guess>

    /** What the page keeps true between events: unknown words carry Infinity,
        `bestRank` is the minimum over the valid entries, the list is in display
        order, every submit left an entry, and the panel matches the list. */
    predicate Valid()
      reads this
    {
      WellFormed(guesses)
      && IsBestRank(guesses, bestRank)
      && DisplaySorted(guesses)
      && guessCount <= |guesses|
      && maxRank == |rankedWords|
      && panel == LastGuessPanel(guesses, lastWord)
    }

    /** Page load: `fetched` is the `/ranked` list, `None` when the request failed. */
    constructor (fetched: Option<seq<RankedWord>>)
      ensures Valid()
      ensures guessCount == 0 && guesses == [] && bestRank == Infinity
      ensures lastWord == None && !isGoingUp && panel == None
      ensures rankedWords == fetched.GetOr([]) && maxRank == |rankedWords|
    {
      guessCount := 0;
      guesses := [];
      bestRank := Infinity;
      lastWord := None;
      isGoingUp := false;
      rankedWords := fetched.GetOr([]);
      maxRank := |fetched.GetOr([])|;
      panel := None;
    }

    /** `getNextHintRank`: returns the next hint rank and leaves the direction
        flag where `NextHint` says; the two loops are the descent and the ascent. */
    method GetNextHintRank(best: Rank, list: seq<Guess>, ranked: seq<RankedWord>, max: int)
      returns (r: Option<int>)
      modifies this`isGoingUp
      ensures HintStep(r, isGoingUp) == NextHint(best, list, ranked, max, old(isGoingUp))
    {
      if best.Infinity? {
        r := if FindByRank(ranked, FirstHintRank).Some? then Some(FirstHintRank) else None;
        return;
      }
      var b := best.value;
      if b == 1 {
        r := None;
        return;
      }
      if !isGoingUp {
        if b > 2 {
          var candidate := b / 2;
          while candidate >= 2
            invariant Halving(b / 2, list) == Halving(candidate, list)
            decreases candidate
          {
            if !IsGuessed(list, candidate) {
              r := Some(candidate);
              return;
            }
            candidate := candidate / 2;
          }
          if !IsGuessed(list, 2) {
            r := Some(2);
            return;
          }
          isGoingUp := true;
        }
        if b == 2 {
          isGoingUp := true;
        }
      }
      var bigger := b + 1;
      while bigger <= max
        invariant Ascending(b + 1, max, list) == Ascending(bigger, max, list)
        decreases max - bigger
      {
        if !IsGuessed(list, bigger) {
          r := Some(bigger);
          return;
        }
        bigger := bigger + 1;
      }
      r := None;
    }

    /** `renderGuesses`: sorts the list for display and refreshes the panel. */
    method Render()
      requires WellFormed(guesses) && IsBestRank(guesses, bestRank)
      requires guessCount <= |guesses| && maxRank == |rankedWords|
      modifies this`guesses, this`panel
      ensures guesses == SortForDisplay(old(guesses))
      ensures panel == LastGuessPanel(guesses, lastWord)
      ensures Valid()
    {
      PermutationKeepsFacts(guesses, SortForDisplay(guesses), bestRank);
      guesses := SortForDisplay(guesses);
      panel := LastGuessPanel(guesses, lastWord);
    }

    /** `handleSubmit` with the text of the input box and the server's reply
        (`None` when the request threw). */
    method Submit(input: string, reply: Option<GuessReply>) returns (outcome: SubmitOutcome)
      requires Valid()
      modifies this`guessCount, this`guesses, this`bestRank, this`lastWord, this`panel
      ensures Valid()
      ensures var word := LowerStr(JsTrim(input));
              if word == [] then
                outcome == EmptyInput && unchanged(this)
              else if reply.None? then
                outcome == RequestFailed && unchanged(this)
              else
                var entry := EntryFor(word, reply.value);
                outcome == Recorded(entry)
                && guessCount == old(guessCount) + 1
                && lastWord == Some(word)
                && guesses == SortForDisplay(old(guesses) + [entry])
                && multiset(guesses) == multiset(old(guesses)) + multiset{entry}
                && bestRank == NextBest(old(bestRank), entry)
                && panel == LastGuessPanel(guesses, lastWord)
    {
      var word := LowerStr(JsTrim(input));
      if word == [] {
        return EmptyInput;
      }
      if reply.None? {
        return RequestFailed;
      }
      guessCount := guessCount + 1;
      lastWord := Some(word);
      var entry := EntryFor(word, reply.value);
      BestRankAfterPush(guesses, bestRank, entry);
      guesses := guesses + [entry];
      bestRank := NextBest(bestRank, entry);
      Render();
      outcome := Recorded(entry);
    }

    /** The Hint button's handler. */
    method Hint() returns (outcome: HintOutcome)
      requires Valid()
      modifies this`guesses, this`bestRank, this`lastWord, this`isGoingUp, this`panel
      ensures Valid()
      ensures guessCount == old(guessCount)
      ensures rankedWords == [] ==> outcome == NoWordList && unchanged(this)
      ensures rankedWords != [] ==>
                var step := NextHint(old(bestRank), old(guesses), rankedWords, maxRank, old(isGoingUp));
                isGoingUp == step.goingUp
                && (step.rank.None? || step.rank.value == 0 ==>
                      outcome == NoHint && guesses == old(guesses) && bestRank == old(bestRank)
                      && lastWord == old(lastWord) && panel == old(panel))
                && (step.rank.Some? && step.rank.value != 0 && !HasRank(rankedWords, step.rank.value) ==>
                      outcome == RankMissing(step.rank.value) && guesses == old(guesses)
                      && bestRank == old(bestRank) && lastWord == old(lastWord) && panel == old(panel))
                && (step.rank.Some? && step.rank.value != 0 && HasRank(rankedWords, step.rank.value) ==>
                      var w := FindByRank(rankedWords, step.rank.value).value;
                      var entry := Guess(w.word, Finite(step.rank.value), false);
                      outcome == Revealed(entry)
                      && !IsGuessed(old(guesses), step.rank.value)
                      && lastWord == Some(w.word)
                      && guesses == SortForDisplay(old(guesses) + [entry])
                      && multiset(guesses) == multiset(old(guesses)) + multiset{entry}
                      && bestRank == NextBest(old(bestRank), entry)
                      && panel == LastGuessPanel(guesses, lastWord))
    {
      if rankedWords == [] {
        return NoWordList;
      }
      NextHintIsFresh(bestRank, guesses, rankedWords, maxRank, isGoingUp);
      var next := GetNextHintRank(bestRank, guesses, rankedWords, maxRank);
      if next.None? || next.value == 0 {
        return NoHint;
      }
      var found := FindByRank(rankedWords, next.value);
      if found.None? {
        return RankMissing(next.value);
      }
      var entry := Guess(found.value.word, Finite(found.value.rank), false);
      lastWord := Some(found.value.word);
      BestRankAfterPush(guesses, bestRank, entry);
      guesses := guesses + [entry];
      bestRank := NextBest(bestRank, entry);
      Render();
      outcome := Revealed(entry);
    }

    /** `rankedWords.slice(0, 500)` as `showClosestWords` renders it. */
    function ClosestWords(): (top: seq<RankedWord>)
      reads this
      ensures |top| == if |rankedWords| < ClosestWordsLimit then |rankedWords| else ClosestWordsLimit
      ensures forall i :: 0 <= i < |top| ==> top[i] == rankedWords[i]
    {
      if |rankedWords| < ClosestWordsLimit then rankedWords else rankedWords[..ClosestWordsLimit]
    }
  }
}
