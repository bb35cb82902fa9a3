/**
 * static/js/utils.js: the fill percentage of a rank's bar and the bar's colour.
 * Arithmetic is over exact reals; `Math.round(x)` is `floor(x + 1/2)`.
 */
module Utils {

  /** JavaScript's `Math.round`: halves round towards +infinity. */
  function Round(x: real): (n: int)
    ensures x - 0.5 < n as real <= x + 0.5
  {
    (x + 0.5).Floor
  }

  lemma RoundMonotone(x: real, y: real)
    requires x <= y
    ensures Round(x) <= Round(y)
  {
  }

  lemma ScaleMonotone(x: real, y: real, k: real)
    requires x <= y && k >= 0.0
    ensures x * k <= y * k
  {
    assert y * k - x * k == (y - x) * k;
  }

  /** The rank at which the first segment of the bar ends (half full). */
  const MidRank: int := 500

  /** `getFillPercent(rank, maxRank)`. */
  function FillPercent(rank: int, maxRank: int): (p: int)
    ensures 0 <= p <= 100
    ensures rank < 1 ==> p == 100
    ensures rank >= 1 && rank > maxRank ==> p == 0
  {
    if rank < 1 then 100
    else if rank > maxRank then 0
    else if rank <= MidRank then Round(100.0 - (rank - 1) as real * (50.0 / 499.0))
    else
      // here 500 < rank <= maxRank, so the divisor is positive
      Round(50.0 - (rank - MidRank) as real * (50.0 / (maxRank - MidRank) as real))
  }

  /** The two segments meet at half: rank 1 is full, rank 500 is half full
      (whenever they are within `maxRank`). */
  lemma FillAnchors(maxRank: int)
    requires maxRank >= MidRank
    ensures FillPercent(1, maxRank) == 100
    ensures FillPercent(MidRank, maxRank) == 50
    ensures FillPercent(maxRank, maxRank) == if maxRank == MidRank then 50 else 0
  {
  }

  /** In the second segment the divisor `maxRank - 500` is positive: the branch
      is only reached with `maxRank > 500`, so there is no division by zero. */
  lemma SecondSegmentDivisorPositive(rank: int, maxRank: int)
    requires 1 <= rank <= maxRank && rank > MidRank
    ensures maxRank - MidRank > 0
    ensures 0 <= FillPercent(rank, maxRank) <= 50
  {
    var d := (maxRank - MidRank) as real;
    var x := (rank - MidRank) as real * (50.0 / d);
    assert 0.0 < x <= 50.0 by {
      assert (rank - MidRank) as real <= d;
      assert x == 50.0 * ((rank - MidRank) as real / d);
    }
  }

  /** For a fixed `maxRank` the fill never grows as the rank grows. */
  lemma {:induction false} FillMonotone(r1: int, r2: int, maxRank: int)
    requires r1 <= r2
    ensures FillPercent(r1, maxRank) >= FillPercent(r2, maxRank)
  {
    if r1 >= 1 && r2 <= maxRank {
      if r2 <= MidRank {
        RoundMonotone(100.0 - (r2 - 1) as real * (50.0 / 499.0), 100.0 - (r1 - 1) as real * (50.0 / 499.0));
      } else if r1 > MidRank {
        var d := (maxRank - MidRank) as real;
        ScaleMonotone((r1 - MidRank) as real, (r2 - MidRank) as real, 50.0 / d);
        RoundMonotone(50.0 - (r2 - MidRank) as real * (50.0 / d), 50.0 - (r1 - MidRank) as real * (50.0 / d));
      } else {
        SecondSegmentDivisorPositive(r2, maxRank);
        RoundMonotone(50.0, 100.0 - (r1 - 1) as real * (50.0 / 499.0));
      }
    }
  }

  datatype BarColor = Green | Orange | Red

  /** `getBarColor(rank)`. */
  function BarColorOf(rank: int): (c: BarColor)
    ensures c == Green <==> rank <= 300
    ensures c == Orange <==> 300 < rank <= 750
    ensures c == Red <==> rank > 750
  {
    if rank <= 300 then Green
    else if rank <= 750 then Orange
    else Red
  }

  function ColorOrder(c: BarColor): nat {
    match c
    case Green => 0
    case Orange => 1
    case Red => 2
  }

  /** A larger rank never gets a warmer colour. */
  lemma BarColorMonotone(r1: int, r2: int)
    requires r1 <= r2
    ensures ColorOrder(BarColorOf(r1)) <= ColorOrder(BarColorOf(r2))
  {
  }
}
