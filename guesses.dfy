/**
 * The entries of the game page's guess list (static/js/main.js) and the two
 * facts the page keeps about them: which ranks are already on the list, and
 * the best (smallest) rank reached so far.
 */
module Guesses {

  /** A rank as the page holds it: the server's integer rank, or `Infinity`
      for a word the server does not know (and before any valid guess). */
  datatype Rank = Finite(value: int) | Infinity

  /** JavaScript's `a < b` on two ranks (Infinity is above every integer). */
  predicate RankLess(a: Rank, b: Rank) {
    a.Finite? && (b.Infinity? || a.value < b.value)
  }

  predicate RankLe(a: Rank, b: Rank) {
    !RankLess(b, a)
  }

  /** `{ word, rank, error }`: one submitted word or one revealed hint. */
  datatype Guess = Guess(word: string, rank: Rank, error: bool)

  /** One element of the `/ranked` list: a vocabulary word and its rank. */
  datatype RankedWord = RankedWord(word: string, rank: int)

  /** `isGuessed(r)`: some entry of the list carries rank `r`. */
  predicate IsGuessed(guesses: seq<Guess>, r: int) {
    exists g :: g in guesses && g.rank == Finite(r)
  }

  /** Entries for unknown words carry Infinity; every other entry a finite rank. */
  predicate WellFormed(guesses: seq<Guess>) {
    forall g :: g in guesses ==> (g.error <==> g.rank == Infinity)
  }

  /** `best` is the minimum rank over the non-error entries, Infinity when there is none. */
  predicate IsBestRank(guesses: seq<Guess>, best: Rank) {
    (forall g :: g in guesses && !g.error ==> RankLe(best, g.rank))
    && (best.Finite? ==> exists g :: g in guesses && !g.error && g.rank == best)
  }

  /** `if (rank < bestRank) bestRank = rank`, applied when `entry` is pushed. */
  function NextBest(best: Rank, entry: Guess): (r: Rank)
    ensures RankLe(r, best)
    ensures !entry.error ==> RankLe(r, entry.rank)
  {
    if !entry.error && RankLess(entry.rank, best) then entry.rank else best
  }

  /** Pushing one entry and updating the best rank keeps the best rank the minimum. */
  lemma BestRankAfterPush(guesses: seq<Guess>, best: Rank, entry: Guess)
    requires WellFormed(guesses) && IsBestRank(guesses, best)
    requires entry.error <==> entry.rank == Infinity
    ensures WellFormed(guesses + [entry])
    ensures IsBestRank(guesses + [entry], NextBest(best, entry))
  {
    var gs := guesses + [entry];
    var nb := NextBest(best, entry);
    forall g | g in gs && !g.error
      ensures RankLe(nb, g.rank)
    {
      if g != entry {
        assert g in guesses;
      }
    }
    if nb.Finite? {
      if nb == best {
        var g :| g in guesses && !g.error && g.rank == best;
        assert g in gs;
      } else {
        assert entry in gs;
      }
    }
  }

  /** The list's invariants and its set of ranks do not depend on the order of its entries. */
  lemma PermutationKeepsFacts(a: seq<Guess>, b: seq<Guess>, best: Rank)
    requires multiset(a) == multiset(b)
    ensures WellFormed(a) == WellFormed(b)
    ensures IsBestRank(a, best) == IsBestRank(b, best)
    ensures forall r :: IsGuessed(a, r) == IsGuessed(b, r)
  {
    assert forall g :: g in a <==> g in multiset(a);
    assert forall g :: g in b <==> g in multiset(b);
  }

  /** A pushed entry adds its own rank to the guessed ranks and nothing else. */
  lemma GuessedAfterPush(guesses: seq<Guess>, entry: Guess, r: int)
    ensures IsGuessed(guesses + [entry], r) <==> IsGuessed(guesses, r) || entry.rank == Finite(r)
  {
    if IsGuessed(guesses + [entry], r) && entry.rank != Finite(r) {
      var g :| g in guesses + [entry] && g.rank == Finite(r);
      assert g in guesses;
    }
    if IsGuessed(guesses, r) {
      var g :| g in guesses && g.rank == Finite(r);
      assert g in guesses + [entry];
    }
    if entry.rank == Finite(r) {
      assert entry in guesses + [entry];
    }
  }
}
