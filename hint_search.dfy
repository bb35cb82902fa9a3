/**
 * `getNextHintRank` of static/js/main.js, as a specification: which rank the
 * Hint button reveals next, and where the page's direction flag `isGoingUp`
 * ends up. The method that runs the two loops lives with the page state in
 * module Game and is proved equal to `NextHint`.
 *
 * The search first halves the best rank towards 2, skipping ranks that are
 * already on the list; once that is exhausted (or the best rank is 2) the flag
 * flips and the search walks upwards from the best rank to the largest rank.
 */
module HintSearch {
  import opened Wrappers
  import opened Guesses

  /** The rank revealed when nothing valid has been guessed yet. */
  const FirstHintRank: int := 500

  /** `rankedWords.find(x => x.rank === r)` found something. */
  predicate HasRank(rankedWords: seq<RankedWord>, r: int) {
    exists w :: w in rankedWords && w.rank == r
  }

  /** `rankedWords.find(item => item.rank === r)`: the first entry of rank `r`. */
  function FindByRank(rankedWords: seq<RankedWord>, r: int): (w: Option<RankedWord>)
    ensures w.Some? ==> w.value in rankedWords && w.value.rank == r
    ensures w.None? <==> !HasRank(rankedWords, r)
  {
    if rankedWords == [] then None
    else if rankedWords[0].rank == r then Some(rankedWords[0])
    else FindByRank(rankedWords[1..], r)
  }

  /** The candidates the descent tries from `c`: c, c/2, c/4, ... while at least 2. */
  function Chain(c: int): (cs: seq<int>)
    ensures forall x :: x in cs ==> 2 <= x <= c
    decreases c
  {
    if c < 2 then [] else [c] + Chain(c / 2)
  }

  /** The descent from `c`: the first candidate of `Chain(c)` not on the list. */
  function Halving(c: int, guesses: seq<Guess>): (h: Option<int>)
    ensures h.Some? ==> 2 <= h.value <= c && !IsGuessed(guesses, h.value)
    decreases c
  {
    if c < 2 then None
    else if !IsGuessed(guesses, c) then Some(c)
    else Halving(c / 2, guesses)
  }

  /** The ascent: the first rank in `from..maxRank` not on the list. */
  function Ascending(from: int, maxRank: int, guesses: seq<Guess>): (h: Option<int>)
    ensures h.Some? ==> from <= h.value <= maxRank && !IsGuessed(guesses, h.value)
    decreases maxRank - from
  {
    if from > maxRank then None
    else if !IsGuessed(guesses, from) then Some(from)
    else Ascending(from + 1, maxRank, guesses)
  }

  /** What one call of `getNextHintRank` returns, and the flag it leaves behind. */
  datatype HintStep = HintStep(rank: Option<int>, goingUp: bool)

  function NextHint(bestRank: Rank, guesses: seq<Guess>, rankedWords: seq<RankedWord>,
                    maxRank: int, goingUp: bool): (s: HintStep)
    ensures goingUp ==> s.goingUp
    ensures bestRank.Finite? && s.rank.Some? ==>
              s.rank.value != bestRank.value && !IsGuessed(guesses, s.rank.value)
  {
    match bestRank
    case Infinity =>
      HintStep(if HasRank(rankedWords, FirstHintRank) then Some(FirstHintRank) else None, goingUp)
    case Finite(b) =>
      if b == 1 then HintStep(None, goingUp)
      else if !goingUp && b > 2 && Halving(b / 2, guesses).Some? then HintStep(Halving(b / 2, guesses), goingUp)
      else if !goingUp && b > 2 && !IsGuessed(guesses, 2) then HintStep(Some(2), goingUp)
      else HintStep(Ascending(b + 1, maxRank, guesses), goingUp || b >= 2)
  }

  // ---------------------------------------------------------------------------
  // The descent

  /** The chain strictly decreases, so "earlier" means "larger". */
  lemma {:induction false} ChainDecreasing(c: int, i: nat, j: nat)
    requires i < j < |Chain(c)|
    ensures Chain(c)[i] > Chain(c)[j]
    decreases c
  {
    if i == 0 {
      assert Chain(c)[j] in Chain(c / 2);
    } else {
      ChainDecreasing(c / 2, i - 1, j - 1);
    }
  }

  /** The descent returns the largest candidate of the chain that is not on the
      list, and nothing exactly when every candidate is on the list. */
  lemma {:induction false} HalvingIsLargestFree(c: int, guesses: seq<Guess>)
    ensures Halving(c, guesses).Some? ==>
              var h := Halving(c, guesses).value;
              h in Chain(c) && 2 <= h <= c && !IsGuessed(guesses, h)
              && forall x :: x in Chain(c) && x > h ==> IsGuessed(guesses, x)
    ensures Halving(c, guesses).None? <==> forall x :: x in Chain(c) ==> IsGuessed(guesses, x)
    decreases c
  {
    if c >= 2 {
      HalvingIsLargestFree(c / 2, guesses);
      assert Chain(c) == [c] + Chain(c / 2);
    }
  }

  // ---------------------------------------------------------------------------
  // The ascent

  /** The ascent returns the smallest rank of `from..maxRank` not on the list,
      and nothing exactly when the whole range is on the list. */
  lemma {:induction false} AscendingIsSmallestFree(from: int, maxRank: int, guesses: seq<Guess>)
    ensures Ascending(from, maxRank, guesses).Some? ==>
              var h := Ascending(from, maxRank, guesses).value;
              from <= h <= maxRank && !IsGuessed(guesses, h)
              && forall r :: from <= r < h ==> IsGuessed(guesses, r)
    ensures Ascending(from, maxRank, guesses).None? <==>
              forall r :: from <= r <= maxRank ==> IsGuessed(guesses, r)
    decreases maxRank - from
  {
    if from <= maxRank && IsGuessed(guesses, from) {
      AscendingIsSmallestFree(from + 1, maxRank, guesses);
    }
  }

  // ---------------------------------------------------------------------------
  // One call of getNextHintRank

  /** Before any valid guess the hint is rank 500 exactly when the ranked list
      holds an entry of rank 500, however large the list is. */
  lemma NextHintFirst(guesses: seq<Guess>, rankedWords: seq<RankedWord>, maxRank: int, goingUp: bool)
    ensures var s := NextHint(Infinity, guesses, rankedWords, maxRank, goingUp);
            s.goingUp == goingUp
            && (s.rank == Some(500) <==> exists w :: w in rankedWords && w.rank == 500)
            && (s.rank.None? <==> !exists w :: w in rankedWords && w.rank == 500)
  {
  }

  /** Once the secret word (rank 1) is on the list there is no hint. */
  lemma NextHintAfterWin(guesses: seq<Guess>, rankedWords: seq<RankedWord>, maxRank: int, goingUp: bool)
    ensures NextHint(Finite(1), guesses, rankedWords, maxRank, goingUp) == HintStep(None, goingUp)
  {
  }

  /** Going down from a best rank b > 2: the hint is the largest rank among
      floor(b/2), floor(b/4), ... (down to 2) that is not on the list; when all of
      them are, it is rank 2 if that is free. Either way it lies in [2, b), it is
      not on the list, and the flag stays down. */
  lemma NextHintDescending(b: int, guesses: seq<Guess>, rankedWords: seq<RankedWord>, maxRank: int)
    requires b > 2
    ensures var s := NextHint(Finite(b), guesses, rankedWords, maxRank, false);
            ((exists x :: x in Chain(b / 2) && !IsGuessed(guesses, x)) ==>
               !s.goingUp && s.rank.Some? && s.rank.value in Chain(b / 2)
               && forall x :: x in Chain(b / 2) && x > s.rank.value ==> IsGuessed(guesses, x))
            && ((forall x :: x in Chain(b / 2) ==> IsGuessed(guesses, x)) && !IsGuessed(guesses, 2) ==>
                  s == HintStep(Some(2), false))
            && (s.rank.Some? && !s.goingUp ==> 2 <= s.rank.value < b && !IsGuessed(guesses, s.rank.value))
  {
    HalvingIsLargestFree(b / 2, guesses);
  }

  /** The descent is exhausted when every candidate and rank 2 are on the list:
      then the flag goes up and the ascent from b+1 decides. Rank 2 itself
      turns the flag up at once. */
  lemma NextHintTurnsUp(b: int, guesses: seq<Guess>, rankedWords: seq<RankedWord>, maxRank: int)
    requires b >= 2
    requires b == 2 || (IsGuessed(guesses, 2) && forall x :: x in Chain(b / 2) ==> IsGuessed(guesses, x))
    ensures NextHint(Finite(b), guesses, rankedWords, maxRank, false)
            == HintStep(Ascending(b + 1, maxRank, guesses), true)
  {
    HalvingIsLargestFree(b / 2, guesses);
  }

  /** Going up: the hint is the smallest rank in (b, maxRank] not on the list,
      or nothing when that whole range is on the list. */
  lemma NextHintAscending(b: int, guesses: seq<Guess>, rankedWords: seq<RankedWord>, maxRank: int)
    requires b != 1
    ensures var s := NextHint(Finite(b), guesses, rankedWords, maxRank, true);
            s.goingUp
            && (s.rank.Some? ==> b < s.rank.value <= maxRank && !IsGuessed(guesses, s.rank.value)
                                 && forall r :: b < r < s.rank.value ==> IsGuessed(guesses, r))
            && (s.rank.None? <==> forall r :: b < r <= maxRank ==> IsGuessed(guesses, r))
  {
    AscendingIsSmallestFree(b + 1, maxRank, guesses);
  }

  /** The flag is only ever raised: once up it stays up, and it goes up only
      from a best rank of 2 or more. */
  lemma NextHintFlagMonotone(bestRank: Rank, guesses: seq<Guess>, rankedWords: seq<RankedWord>,
                             maxRank: int, goingUp: bool)
    ensures var s := NextHint(bestRank, guesses, rankedWords, maxRank, goingUp);
            (goingUp ==> s.goingUp)
            && (s.goingUp && !goingUp ==> bestRank.Finite? && bestRank.value >= 2)
  {
  }

  /** A hint never reveals a rank that is already on the list, provided the best
      rank is what the page keeps it to be. */
  lemma NextHintIsFresh(bestRank: Rank, guesses: seq<Guess>, rankedWords: seq<RankedWord>,
                        maxRank: int, goingUp: bool)
    requires WellFormed(guesses) && IsBestRank(guesses, bestRank)
    ensures var s := NextHint(bestRank, guesses, rankedWords, maxRank, goingUp);
            s.rank.Some? ==> !IsGuessed(guesses, s.rank.value)
  {
    var s := NextHint(bestRank, guesses, rankedWords, maxRank, goingUp);
    match bestRank
    case Infinity =>
    case Finite(b) =>
      if b >= 2 {
        HalvingIsLargestFree(b / 2, guesses);
      }
      AscendingIsSmallestFree(b + 1, maxRank, guesses);
  }
}
