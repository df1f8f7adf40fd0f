/** Outlier selection (src/statistics.rs): the candidate whose instruction
    count lies farthest from the (truncated) mean of all counts. */
module Statistics {
  import opened Machine
  import opened Arith

  /** The message `get_average` panics with on an empty slice. */
  const DIVIDE_BY_ZERO: string := "Divide by zero!"

  /** The sum of `xs`, added from the left as `fold` does. */
  function Sum(xs: seq<i64>): int
  {
    if |xs| == 0 then 0 else Sum(xs[..|xs| - 1]) + xs[|xs| - 1]
  }

  /** Every running total of the fold fits in an `i64`; otherwise `sum += i`
      overflows. */
  predicate PrefixSumsFit(xs: seq<i64>)
  {
    forall k :: 0 <= k <= |xs| ==> I64_MIN <= Sum(xs[..k]) <= I64_MAX
  }

  /** Integer division that truncates toward zero, as Rust's `/` on `i64`
      does (Dafny's own `/` rounds toward negative infinity for a negative
      dividend). */
  function TruncDiv(a: int, b: int): (q: int)
    requires b > 0
    ensures a >= 0 ==> 0 <= q * b <= a < q * b + b
    ensures a < 0 ==> q * b - b < a <= q * b <= 0
  {
    if a >= 0 then DivBounds(a, b); a / b
    else DivBounds(-a, b); NegMul((-a) / b, b); -((-a) / b)
  }

  /** Flooring division of a non-negative dividend. */
  lemma DivBounds(a: int, b: int)
    requires a >= 0 && b > 0
    ensures 0 <= (a / b) * b <= a < (a / b) * b + b
  {
    assert a == (a / b) * b + a % b;
    MulMono(0, a / b, b);
  }

  /** Negation commutes with multiplication. */
  lemma NegMul(p: int, b: int)
    ensures (-p) * b == -(p * b) && (-p) * b - b == -(p * b + b)
  {
  }

  /** Truncating and flooring division agree on non-negative dividends and
      on exact quotients, and differ by one otherwise. */
  lemma TruncDivVersusFloor(a: int, b: int)
    requires b > 0
    ensures a >= 0 || a % b == 0 ==> TruncDiv(a, b) == a / b
    ensures a < 0 && a % b != 0 ==> TruncDiv(a, b) == a / b + 1
  {
    var q := TruncDiv(a, b);
    assert a == (a / b) * b + a % b;
    if a >= 0 {
      FloorUnique(a, q, b);
    } else if a % b == 0 {
      assert a == (a / b) * b;
      assert q * b - b < (a / b) * b <= q * b;
      MulMono(a / b, q - 1, b);
      MulMono(q, a / b, b);
      assert (q - 1) * b == q * b - b;
    } else {
      assert (q - 1) * b == q * b - b;
      FloorUnique(a, q - 1, b);
    }
  }

  /** `get_average`: panics on the empty slice; otherwise the sum divided by
      the length, truncated toward zero. */
  function Average(xs: seq<i64>): (r: Result<i64, string>)
    requires PrefixSumsFit(xs)
    ensures r.Err? <==> |xs| == 0
    ensures r.Err? ==> r.error == DIVIDE_BY_ZERO
    ensures r.Ok? && Sum(xs) >= 0 ==> 0 <= r.value * |xs| <= Sum(xs) < (r.value + 1) * |xs|
    ensures r.Ok? && Sum(xs) < 0 ==> (r.value - 1) * |xs| < Sum(xs) <= r.value * |xs| <= 0
  {
    if |xs| == 0 then Err(DIVIDE_BY_ZERO)
    else
      assert xs[..|xs|] == xs;
      var q := TruncDiv(Sum(xs), |xs|);
      assert I64_MIN <= q <= I64_MAX by { TruncDivShrinks(Sum(xs), |xs|); }
      Ok(q)
  }

  /** Dividing by a positive length never moves away from zero. */
  lemma TruncDivShrinks(a: int, b: int)
    requires b > 0
    ensures a >= 0 ==> 0 <= TruncDiv(a, b) <= a
    ensures a < 0 ==> a <= TruncDiv(a, b) <= 0
  {
    var q := TruncDiv(a, b);
    if a >= 0 {
      QuotientBelow(q, b, a);
    } else {
      QuotientBelow(-q, b, -a);
    }
  }

  /** A non-negative product `p * b` with `b >= 1` that stays within `c`
      has `0 <= p <= c`. */
  lemma QuotientBelow(p: int, b: int, c: int)
    requires b > 0 && 0 <= p * b <= c
    ensures 0 <= p <= c
  {
    MulMono(p, 0, b);
    MulMono(1, b, p + 1);
    assert (p + 1) * b == p * b + b;
  }

  /** The unit tests of `get_average`, and one negative case where the
      truncation shows: the mean of -1 and 0 is 0, not -1. */
  lemma AverageExamples()
    ensures Average([]) == Err(DIVIDE_BY_ZERO)
    ensures Average([0]) == Ok(0)
    ensures Average([1]) == Ok(1)
    ensures Average([0, 1]) == Ok(0)
    ensures Average([1, 3]) == Ok(2)
    ensures Average([-1, 0]) == Ok(0)
  {
    assert [0, 1][..1] == [0];
    assert [1, 3][..1] == [1];
    assert [-1, 0][..1] == [-1];
    assert PrefixSumsFit([0, 1]) by {
      assert [0, 1][..0] == [] && [0, 1][..2] == [0, 1];
    }
    assert PrefixSumsFit([1, 3]) by {
      assert [1, 3][..0] == [] && [1, 3][..2] == [1, 3];
    }
    assert PrefixSumsFit([-1, 0]) by {
      assert [-1, 0][..0] == [] && [-1, 0][..2] == [-1, 0];
    }
    assert PrefixSumsFit([0]) by { assert [0][..0] == [] && [0][..1] == [0]; }
    assert PrefixSumsFit([1]) by { assert [1][..0] == [] && [1][..1] == [1]; }
  }

  /** Bounds on every element bound the sum. */
  lemma {:induction false} SumBetween(xs: seq<i64>, lo: int, hi: int)
    requires forall i :: 0 <= i < |xs| ==> lo <= xs[i] <= hi
    ensures lo * |xs| <= Sum(xs) <= hi * |xs|
  {
    if |xs| > 0 {
      SumBetween(xs[..|xs| - 1], lo, hi);
      assert lo * |xs| == lo * (|xs| - 1) + lo;
      assert hi * |xs| == hi * (|xs| - 1) + hi;
    }
  }

  /** The mean lies between the smallest and the largest count. */
  lemma AverageWithinRange(xs: seq<i64>, lo: int, hi: int)
    requires PrefixSumsFit(xs) && |xs| > 0
    requires forall i :: 0 <= i < |xs| ==> lo <= xs[i] <= hi
    ensures lo <= Average(xs).value <= hi
  {
    SumBetween(xs, lo, hi);
    var n, s := |xs|, Sum(xs);
    var q: int := Average(xs).value;
    if s >= 0 {
      MulMono(hi, q, n);
      MulMono(q + 1, lo, n);
    } else {
      MulMono(hi, q - 1, n);
      MulMono(q, lo, n);
    }
  }

  /** `(count - avg).abs()`. */
  function Distance(x: int, avg: int): (d: nat)
    ensures d == x - avg || d == avg - x
  {
    if x >= avg then x - avg else avg - x
  }

  /** `i` is the outlier `find_outlier` must pick: no count lies farther from
      the mean, and every earlier count lies strictly nearer. */
  predicate IsOutlier(xs: seq<i64>, avg: int, i: int)
  {
    && 0 <= i < |xs|
    && (forall j :: 0 <= j < |xs| ==> Distance(xs[j], avg) <= Distance(xs[i], avg))
    && (forall j :: 0 <= j < i ==> Distance(xs[j], avg) < Distance(xs[i], avg))
  }

  /** At most one index is the outlier, so the choice is determined. */
  lemma OutlierUnique(xs: seq<i64>, avg: int, i: int, j: int)
    requires IsOutlier(xs, avg, i) && IsOutlier(xs, avg, j)
    ensures i == j
  {
    assert Distance(xs[i], avg) == Distance(xs[j], avg);
  }

  /** The counts of `counts`, the `second` vector of the source. */
  function Counts<T>(counts: seq<(i64, T)>): (xs: seq<i64>)
    ensures |xs| == |counts|
    ensures forall i :: 0 <= i < |xs| ==> xs[i] == counts[i].0
  {
    if |counts| == 0 then [] else Counts(counts[..|counts| - 1]) + [counts[|counts| - 1].0]
  }

  /** No `count - avg` and no `abs` overflows. */
  predicate DistancesFit(xs: seq<i64>, avg: int)
  {
    forall i :: 0 <= i < |xs| ==> -I64_MAX <= xs[i] - avg <= I64_MAX
  }

  /** `find_outlier`: panics, through `get_average`, on an empty slice;
      otherwise returns (the index of) the element farthest from the mean,
      the first such one on a tie. It never returns `None`. */
  method FindOutlier<T>(counts: seq<(i64, T)>) returns (r: Result<Option<nat>, string>)
    requires PrefixSumsFit(Counts(counts))
    requires |counts| > 0 ==> DistancesFit(Counts(counts), Average(Counts(counts)).value)
    ensures r.Err? <==> |counts| == 0
    ensures r.Err? ==> r.error == DIVIDE_BY_ZERO
    ensures r.Ok? ==> r.value.Some? && IsOutlier(Counts(counts), Average(Counts(counts)).value, r.value.value)
  {
    var second := Counts(counts);
    var average := Average(second);
    if average.Err? {
      return Err(average.error);
    }
    var avg := average.value;
    var maxDist: i64 := -1;
    var maxIdx: nat := 0;
    for i := 0 to |counts|
      invariant maxDist == -1 <==> i == 0
      invariant maxIdx <= i
      invariant i > 0 ==> maxIdx < i && maxDist == Distance(second[maxIdx], avg)
      invariant forall j :: 0 <= j < i ==> Distance(second[j], avg) <= maxDist
      invariant forall j :: 0 <= j < maxIdx ==> Distance(second[j], avg) < maxDist
    {
      var dist: i64 := Distance(counts[i].0, avg);
      if dist > maxDist {
        maxDist := dist;
        maxIdx := i;
      }
    }
    if maxDist < 0 {
      return Ok(None);
    }
    return Ok(Some(maxIdx));
  }

  /** The source's `outlier_test` data: counts 0, 0, 1 have mean 0, and the
      third candidate is the one to pick. */
  lemma OutlierTestExample()
    ensures PrefixSumsFit([0, 0, 1])
    ensures Average([0, 0, 1]) == Ok(0)
    ensures IsOutlier([0, 0, 1], 0, 2)
  {
    assert [0, 0, 1][..2] == [0, 0] && [0, 0][..1] == [0];
    assert Sum([0, 0, 1]) == 1;
    assert TruncDiv(1, 3) == 0;
    assert PrefixSumsFit([0, 0, 1]) by {
      assert [0, 0, 1][..0] == [] && [0, 0, 1][..1] == [0] && [0, 0, 1][..3] == [0, 0, 1];
    }
  }
}
