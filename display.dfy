/**
 * The presentation rules of static/js/ui.js: the class and bar width of one
 * rank, the order `renderGuesses` sorts the guess list into, and the entry it
 * shows in the separate last-guess panel.
 */
module Display {
  import opened Wrappers
  import opened Guesses

  // ---------------------------------------------------------------------------
  // calculateProgressBarStyle

  /** The CSS classes a guess item can get. */
  datatype RankClass = RankError | RankExact | RankVeryClose | RankClose | RankMedium | RankFar | RankVeryFar

  datatype BarStyle = BarStyle(cssClass: RankClass, width: real)

  const VeryCloseLimit: int := 50
  const CloseLimit: int := 150
  const MediumLimit: int := 500
  const FarLimit: int := 1000
  const MinWidth: real := 10.0
  const MaxWidth: real := 98.0
  const ErrorWidth: real := 5.0

  /** `rank === Infinity || rank > maxRank || rank <= 0` */
  predicate IsInvalidRank(rank: Rank, maxRank: int) {
    rank.Infinity? || rank.value > maxRank || rank.value <= 0
  }

  /** How far a class is from the secret word: 0 for the exact word, 5 for the farthest band. */
  function Distance(c: RankClass): nat {
    match c
    case RankExact => 0
    case RankVeryClose => 1
    case RankClose => 2
    case RankMedium => 3
    case RankFar => 4
    case RankVeryFar => 5
    case RankError => 6
  }

  /** The threshold classification of a valid rank other than 1. */
  function BandOf(r: int): RankClass {
    if r <= VeryCloseLimit then RankVeryClose
    else if r <= CloseLimit then RankClose
    else if r <= MediumLimit then RankMedium
    else if r <= FarLimit then RankFar
    else RankVeryFar
  }

  /** `logScale` stands for `(log(max(maxRank, 2)) - log(rank)) / log(max(maxRank, 2))`,
      the logarithmic part of the width, which the model leaves uninterpreted. */
  function ProgressBarStyle(rank: Rank, maxRank: int, logScale: real): (s: BarStyle)
    ensures IsInvalidRank(rank, maxRank) ==> s == BarStyle(RankError, ErrorWidth)
    ensures !IsInvalidRank(rank, maxRank) && rank.value == 1 ==> s == BarStyle(RankExact, 100.0)
    ensures !IsInvalidRank(rank, maxRank) && rank.value != 1 ==>
              MinWidth <= s.width <= MaxWidth && s.cssClass != RankError && s.cssClass != RankExact
    ensures s.cssClass == RankError <==> IsInvalidRank(rank, maxRank)
  {
    if IsInvalidRank(rank, maxRank) then BarStyle(RankError, ErrorWidth)
    else if rank.value == 1 then BarStyle(RankExact, 100.0)
    else
      var scale := if logScale < 0.0 then 0.0 else logScale;
      var w := MinWidth + scale * (MaxWidth - MinWidth);
      BarStyle(BandOf(rank.value), if w > MaxWidth then MaxWidth else if w < MinWidth then MinWidth else w)
  }

  /** The bands partition the valid ranks: a rank of at most 50 is very close,
      at most 150 close, at most 500 medium, at most 1000 far, anything above very far. */
  lemma BandThresholds(rank: int, maxRank: int, logScale: real)
    requires 2 <= rank <= maxRank
    ensures var c := ProgressBarStyle(Finite(rank), maxRank, logScale).cssClass;
            (c == RankVeryClose <==> rank <= 50)
            && (c == RankClose <==> 50 < rank <= 150)
            && (c == RankMedium <==> 150 < rank <= 500)
            && (c == RankFar <==> 500 < rank <= 1000)
            && (c == RankVeryFar <==> 1000 < rank)
  {
  }

  /** A better (smaller) valid rank never gets a farther class. */
  lemma ClassMonotone(r1: int, r2: int, maxRank: int, l1: real, l2: real)
    requires 1 <= r1 <= r2 <= maxRank
    ensures Distance(ProgressBarStyle(Finite(r1), maxRank, l1).cssClass)
            <= Distance(ProgressBarStyle(Finite(r2), maxRank, l2).cssClass)
  {
  }

  // ---------------------------------------------------------------------------
  // The sort in renderGuesses

  /** The comparator of `renderGuesses` says "a may stay before b":
      errors first, errors among themselves equal, then ascending rank. */
  predicate DisplayLe(a: Guess, b: Guess) {
    if a.error then true
    else if b.error then false
    else RankLe(a.rank, b.rank)
  }

  predicate DisplaySorted(s: seq<Guess>) {
    forall i, j :: 0 <= i < j < |s| ==> DisplayLe(s[i], s[j])
  }

  /** Places `x` before the first element it may precede. */
  function Insert(x: Guess, s: seq<Guess>): (r: seq<Guess>)
    ensures multiset(r) == multiset(s) + multiset{x}
  {
    if s == [] then [x]
    else if DisplayLe(x, s[0]) then [x] + s
    else
      assert s == [s[0]] + s[1..];
      [s[0]] + Insert(x, s[1..])
  }

  lemma {:induction false} InsertKeepsSorted(x: Guess, s: seq<Guess>)
    requires DisplaySorted(s)
    ensures DisplaySorted(Insert(x, s))
  {
    if s != [] && !DisplayLe(x, s[0]) {
      var t := Insert(x, s[1..]);
      InsertKeepsSorted(x, s[1..]);
      assert s == [s[0]] + s[1..];
      forall i | 0 <= i < |t|
        ensures DisplayLe(s[0], t[i])
      {
        assert t[i] in multiset(t);
        if t[i] != x {
          assert t[i] in multiset(s[1..]);
          var k :| 0 <= k < |s[1..]| && s[1..][k] == t[i];
          assert s[k + 1] == t[i];
        }
      }
    }
  }

  /** `guesses.sort(...)`: a stable sort (an insertion sort) by `DisplayLe`. */
  function SortForDisplay(s: seq<Guess>): (r: seq<Guess>)
    ensures multiset(r) == multiset(s)
    ensures DisplaySorted(r)
  {
    if s == [] then []
    else
      assert s == [s[0]] + s[1..];
      var t := SortForDisplay(s[1..]);
      InsertKeepsSorted(s[0], t);
      Insert(s[0], t)
  }

  /** After the sort every error entry precedes every other entry, the other
      entries are in non-decreasing rank order, and the list is a permutation
      of what it was. */
  lemma SortedForDisplayMeans(s: seq<Guess>)
    ensures var r := SortForDisplay(s);
            multiset(r) == multiset(s)
            && (forall i, j :: 0 <= i < j < |r| && r[j].error ==> r[i].error)
            && (forall i, j :: 0 <= i < j < |r| && !r[i].error && !r[j].error ==> RankLe(r[i].rank, r[j].rank))
  {
    var r := SortForDisplay(s);
    forall i, j | 0 <= i < j < |r|
      ensures r[j].error ==> r[i].error
      ensures !r[i].error && !r[j].error ==> RankLe(r[i].rank, r[j].rank)
    {
      assert DisplayLe(r[i], r[j]);
    }
  }

  // ---------------------------------------------------------------------------
  // The last-guess panel

  /** `g.word === lastWord && !g.error` */
  predicate ShowsAsLast(g: Guess, lastWord: Option<string>) {
    lastWord == Some(g.word) && !g.error
  }

  /** `guesses.findIndex(...)` of the panel's search. */
  function FirstShownIndex(s: seq<Guess>, lastWord: Option<string>): (k: Option<nat>)
    ensures k.Some? ==> k.value < |s| && ShowsAsLast(s[k.value], lastWord)
                        && forall j :: 0 <= j < k.value ==> !ShowsAsLast(s[j], lastWord)
    ensures k.None? ==> forall j :: 0 <= j < |s| ==> !ShowsAsLast(s[j], lastWord)
  {
    if s == [] then None
    else if ShowsAsLast(s[0], lastWord) then Some(0)
    else match FirstShownIndex(s[1..], lastWord)
      case None => None
      case Some(k) => Some(k + 1)
  }

  /** The entry shown in the last-guess panel, `None` when the panel is hidden. */
  function LastGuessPanel(s: seq<Guess>, lastWord: Option<string>): (p: Option<Guess>)
    ensures p.Some? ==> p.value in s && ShowsAsLast(p.value, lastWord)
    ensures p.None? <==> forall g :: g in s ==> !ShowsAsLast(g, lastWord)
  {
    match FirstShownIndex(s, lastWord)
    case None => None
    case Some(k) => Some(s[k])
  }
}
