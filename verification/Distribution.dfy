/** The statistics of a series of measurements, over real numbers. */
module Distribution {

  // ----- products

  /** A product; most lemmas below need only the laws of products, not what one is. */
  function Times(x: real, y: real): real {
    x * y
  }

  lemma Add(x: real, y: real, z: real)
    ensures Times(x, y + z) == Times(x, y) + Times(x, z)
    ensures Times(x, y - z) == Times(x, y) - Times(x, z)
    ensures Times(y - z, x) == Times(y, x) - Times(z, x)
  {}

  lemma One(x: real)
    ensures Times(x, 1.0) == x
  {}

  lemma Rotate(x: real, y: real, z: real)
    ensures Times(x, Times(y, z)) == Times(y, Times(z, x))
  {}

  lemma Double(m: real, n: real)
    ensures Times(m + m, Times(m, n)) == 2.0 * Times(n, Times(m, m))
  {}

  lemma Expand(x: real, a: real, b: real)
    ensures Times(b - x, x - a) == Times(a + b, x) - Times(x, x) - Times(a, b)
  {}

  lemma Opposite(x: real)
    ensures Times(-x, x) == -Times(x, x)
  {}

  lemma Quotient(x: real, n: real)
    requires n != 0.0
    ensures Times(x / n, n) == x == Times(n, x / n)
  {}

  lemma PositiveProduct(x: real, y: real)
    requires (x > 0.0 && y > 0.0) || (x < 0.0 && y < 0.0)
    ensures Times(x, y) > 0.0
  {}

  lemma ZeroProduct(x: real, y: real)
    requires x == 0.0 || y == 0.0
    ensures Times(x, y) == 0.0
  {}

  lemma NonNegativeProduct(x: real, y: real)
    requires x >= 0.0 && y >= 0.0
    ensures Times(x, y) >= 0.0
  {
    hide Times;
    if x == 0.0 || y == 0.0 { ZeroProduct(x, y); } else { PositiveProduct(x, y); }
  }

  lemma SquareSign(x: real)
    ensures Times(x, x) >= 0.0
    ensures Times(x, x) == 0.0 <==> x == 0.0
  {
    hide Times;
    if x == 0.0 { ZeroProduct(x, x); } else { PositiveProduct(x, x); }
  }

  lemma CancelFactor(x: real, y: real, n: real)
    requires n > 0.0 && Times(x, n) <= Times(y, n)
    ensures x <= y
  {
    hide Times;
    if x > y {
      PositiveProduct(x - y, n);
      Add(n, x, y);
      assert false;
    }
  }

  // ----- sums

  function Sum(s: seq<real>): real {
    if s == [] then 0.0 else s[0] + Sum(s[1..])
  }

  function SumOfSquares(s: seq<real>): real {
    if s == [] then 0.0 else Times(s[0], s[0]) + SumOfSquares(s[1..])
  }

  /** The sum of the squared distances from `m`. */
  function Deviation(s: seq<real>, m: real): real {
    if s == [] then 0.0 else Times(s[0] - m, s[0] - m) + Deviation(s[1..], m)
  }

  /** The sum of (b - x) * (x - a). */
  function Spread(s: seq<real>, a: real, b: real): real {
    if s == [] then 0.0 else Times(b - s[0], s[0] - a) + Spread(s[1..], a, b)
  }

  function Count(s: seq<real>): real {
    |s| as real
  }

  function MeanOf(s: seq<real>): real
    requires s != []
  {
    Sum(s) / Count(s)
  }

  ghost predicate Within(s: seq<real>, a: real, b: real) {
    forall x | x in s :: a <= x <= b
  }

  ghost predicate AllEqual(s: seq<real>) {
    forall i, j | 0 <= i < |s| && 0 <= j < |s| :: s[i] == s[j]
  }

  lemma MeanTimesCount(s: seq<real>)
    requires s != []
    ensures Times(MeanOf(s), Count(s)) == Sum(s)
  {
    hide Times;
    Quotient(Sum(s), Count(s));
  }

  lemma CountStep(x: real, s: seq<real>)
    requires s != []
    ensures Times(x, Count(s)) == Times(x, Count(s[1..])) + x
  {
    hide Times;
    Add(x, Count(s[1..]), 1.0);
    One(x);
  }

  lemma {:induction false} SumWithin(s: seq<real>, a: real, b: real)
    requires Within(s, a, b)
    ensures Times(a, Count(s)) <= Sum(s) <= Times(b, Count(s))
    decreases |s|
  {
    hide Times;
    if s == [] {
      ZeroProduct(a, Count(s));
      ZeroProduct(b, Count(s));
    } else {
      assert s[0] in s;
      forall x | x in s[1..] ensures x in s {}
      SumWithin(s[1..], a, b);
      CountStep(a, s);
      CountStep(b, s);
    }
  }

  /** The mean lies between any bounds of the values. */
  lemma MeanWithin(s: seq<real>, a: real, b: real)
    requires s != [] && Within(s, a, b)
    ensures a <= MeanOf(s) <= b
  {
    hide Times, MeanOf;
    SumWithin(s, a, b);
    MeanTimesCount(s);
    CancelFactor(a, MeanOf(s), Count(s));
    CancelFactor(MeanOf(s), b, Count(s));
  }

  lemma {:induction false} SpreadExpands(s: seq<real>, a: real, b: real)
    ensures Spread(s, a, b) == Times(a + b, Sum(s)) - SumOfSquares(s) - Times(Count(s), Times(a, b))
    decreases |s|
  {
    hide Times;
    if s == [] {
      ZeroProduct(a + b, Sum(s));
      ZeroProduct(Count(s), Times(a, b));
    } else {
      SpreadExpands(s[1..], a, b);
      Expand(s[0], a, b);
      Add(a + b, s[0], Sum(s[1..]));
      CountStep(Times(a, b), s);
      Swap(Times(a, b), Count(s));
      Swap(Times(a, b), Count(s[1..]));
    }
  }

  lemma Swap(x: real, y: real)
    ensures Times(x, y) == Times(y, x)
  {}

  lemma {:induction false} SpreadIsPositive(s: seq<real>, a: real, b: real)
    requires Within(s, a, b)
    ensures Spread(s, a, b) >= 0.0
    decreases |s|
  {
    hide Times;
    if s != [] {
      assert s[0] in s;
      forall x | x in s[1..] ensures x in s {}
      SpreadIsPositive(s[1..], a, b);
      NonNegativeProduct(b - s[0], s[0] - a);
    }
  }

  lemma {:induction false} DeviationIsSpread(s: seq<real>, m: real)
    ensures Deviation(s, m) == -Spread(s, m, m)
    decreases |s|
  {
    hide Times;
    if s != [] {
      DeviationIsSpread(s[1..], m);
      Opposite(s[0] - m);
      assert m - s[0] == -(s[0] - m);
    }
  }

  /** The deviation from the mean is what the squares exceed the square of the mean by. */
  lemma DeviationFromMean(s: seq<real>)
    requires s != []
    ensures Deviation(s, MeanOf(s)) == SumOfSquares(s) - Times(Count(s), Times(MeanOf(s), MeanOf(s)))
  {
    hide Times, MeanOf;
    var m := MeanOf(s);
    DeviationIsSpread(s, m);
    SpreadExpands(s, m, m);
    MeanTimesCount(s);
    Double(m, Count(s));
  }

  lemma Factor(n: real, m: real, a: real, b: real)
    ensures Times(n, Times(b - m, m - a)) == Times(a + b, Times(m, n)) - Times(n, Times(m, m)) - Times(n, Times(a, b))
  {
    hide Times;
    Expand(m, a, b);
    Add(n, Times(a + b, m) - Times(m, m), Times(a, b));
    Add(n, Times(a + b, m), Times(m, m));
    Rotate(n, a + b, m);
  }

  /** The deviation is bounded by the distances of the mean from the extremes. */
  lemma DeviationIsBounded(s: seq<real>, a: real, b: real)
    requires s != [] && Within(s, a, b)
    ensures Deviation(s, MeanOf(s)) <= Times(Count(s), Times(b - MeanOf(s), MeanOf(s) - a))
  {
    hide Times, MeanOf;
    DeviationFromMean(s);
    SpreadExpands(s, a, b);
    SpreadIsPositive(s, a, b);
    MeanTimesCount(s);
    Factor(Count(s), MeanOf(s), a, b);
  }

  lemma {:induction false} DeviationIsZero(s: seq<real>, m: real)
    ensures Deviation(s, m) >= 0.0
    ensures Deviation(s, m) == 0.0 <==> forall x | x in s :: x == m
    decreases |s|
  {
    hide Times;
    if s != [] {
      DeviationIsZero(s[1..], m);
      SquareSign(s[0] - m);
      assert s == [s[0]] + s[1..];
      if forall x | x in s :: x == m {
        assert s[0] in s;
        forall x | x in s[1..] ensures x in s {}
      }
    }
  }

  /** Equal values are all equal to their mean. */
  lemma EqualToMean(s: seq<real>)
    requires s != []
    ensures AllEqual(s) <==> forall x | x in s :: x == MeanOf(s)
  {
    hide Times, MeanOf;
    if AllEqual(s) {
      forall x | x in s ensures x == s[0] {}
      MeanWithin(s, s[0], s[0]);
    } else {
      var i, j :| 0 <= i < |s| && 0 <= j < |s| && s[i] != s[j];
      assert s[i] in s && s[j] in s;
    }
  }

  // ----- the loops

  lemma SuffixSum(s: seq<real>, i: nat)
    requires i < |s|
    ensures Sum(s[i..]) == s[i] + Sum(s[i + 1..])
  {
    assert s[i..][1..] == s[i + 1..];
  }

  method Accumulate(s: seq<real>) returns (sum: real)
    ensures sum == Sum(s)
  {
    sum := 0.0;
    for i := 0 to |s|
      invariant sum + Sum(s[i..]) == Sum(s)
    {
      SuffixSum(s, i);
      sum := sum + s[i];
    }
  }

  method AccumulateSquares(s: seq<real>, m: real) returns (accum: real)
    ensures accum == Deviation(s, m)
  {
    accum := 0.0;
    for i := 0 to |s|
      invariant accum + Deviation(s[i..], m) == Deviation(s, m)
    {
      assert s[i..][1..] == s[i + 1..];
      var diff := s[i] - m;
      accum := accum + Times(diff, diff);
    }
  }

  ghost predicate IsSqrt(sqrt: real -> real) {
    forall x :: x >= 0.0 ==> sqrt(x) >= 0.0 && Times(sqrt(x), sqrt(x)) == x
  }

  /** `sd` is the sample standard deviation of a series, stated without a root or a quotient. */
  ghost predicate IsDeviationOf(sd: real, s: seq<real>)
    requires s != []
  {
    sd >= 0.0 && Times(Count(s) - 1.0, Times(sd, sd)) == Deviation(s, MeanOf(s))
  }

  /** The standard deviation is zero exactly when all values are equal. */
  lemma ZeroDeviation(sd: real, s: seq<real>)
    requires |s| >= 2 && IsDeviationOf(sd, s)
    ensures sd == 0.0 <==> AllEqual(s)
  {
    hide Times, MeanOf;
    SquareSign(sd);
    if sd == 0.0 {
      ZeroProduct(Count(s) - 1.0, Times(sd, sd));
    } else {
      PositiveProduct(Count(s) - 1.0, Times(sd, sd));
    }
    DeviationIsZero(s, MeanOf(s));
    EqualToMean(s);
  }

  /** What the standard deviation tells about the values. */
  lemma DeviationTells(sd: real, s: seq<real>, a: real, b: real)
    requires |s| >= 2 && IsDeviationOf(sd, s) && Within(s, a, b)
    ensures Times(Count(s) - 1.0, Times(sd, sd)) == SumOfSquares(s) - Times(Count(s), Times(MeanOf(s), MeanOf(s)))
    ensures Times(Count(s) - 1.0, Times(sd, sd)) <= Times(Count(s), Times(b - MeanOf(s), MeanOf(s) - a))
  {
    hide Times, MeanOf;
    DeviationFromMean(s);
    DeviationIsBounded(s, a, b);
  }

  method RootOfVariance(s: seq<real>, m: real, sqrt: real -> real) returns (r: real)
    requires |s| >= 2 && m == MeanOf(s) && IsSqrt(sqrt)
    ensures IsDeviationOf(r, s)
  {
    hide Times, MeanOf;
    var accum := AccumulateSquares(s, m);
    DeviationIsZero(s, m);
    QuotientIsPositive(accum, Count(s) - 1.0);
    Quotient(accum, Count(s) - 1.0);
    r := sqrt(accum / (Count(s) - 1.0));
  }

  lemma QuotientIsPositive(x: real, n: real)
    requires x >= 0.0 && n > 0.0
    ensures x / n >= 0.0
  {}

  lemma HasMember(s: set<real>)
    ensures s == {} || exists x :: x in s
  {
    if !exists x :: x in s { assert s == {}; }
  }

  // ----- consecutive steps

  function Abs(x: real): real {
    if x < 0.0 then -x else x
  }

  function Steps(s: seq<real>): (r: seq<real>)
    requires s != []
    ensures |r| == |s| - 1 && forall i :: 0 <= i < |r| ==> r[i] == Abs(s[i + 1] - s[i])
  {
    seq(|s| - 1, i requires 0 <= i < |s| - 1 => Abs(s[i + 1] - s[i]))
  }

  /** A step is the distance of two neighbours. */
  lemma StepIsDistance(s: seq<real>, i: nat)
    requires i + 1 < |s|
    ensures Steps(s)[i] >= 0.0 && (Steps(s)[i] == s[i + 1] - s[i] || Steps(s)[i] == s[i] - s[i + 1])
  {}

  /** A floating-point result: a quotient of zeros is not a number. */
  datatype Float = Number(value: real) | NaN

  class Distribution {
    var values: seq<real>

    constructor ()
      ensures values == []
    {
      values := [];
    }

    method AddValue(value: real)
      modifies this
      ensures values == old(values) + [value]
    {
      values := values + [value];
    }

    method Mean() returns (r: real)
      ensures values == [] ==> r == 0.0
      ensures values != [] ==> r == MeanOf(values) && forall a, b | Within(values, a, b) :: a <= r <= b
    {
      if values == [] {
        return 0.0;
      }
      var sum := Accumulate(values);
      r := sum / (|values| as real);
      forall a, b | Within(values, a, b) ensures a <= r <= b {
        MeanWithin(values, a, b);
      }
    }

    method Min() returns (r: real)
      ensures values == [] ==> r == 0.0
      ensures values != [] ==> r in values && forall x | x in values :: r <= x
    {
      if values == [] {
        return 0.0;
      }
      var least := 0;
      for i := 1 to |values|
        invariant 0 <= least < |values|
        invariant forall k :: 0 <= k < i ==> values[least] <= values[k]
      {
        if values[i] < values[least] {
          least := i;
        }
      }
      r := values[least];
    }

    method Max() returns (r: real)
      ensures values == [] ==> r == 0.0
      ensures values != [] ==> r in values && forall x | x in values :: x <= r
    {
      if values == [] {
        return 0.0;
      }
      var largest := 0;
      for i := 1 to |values|
        invariant 0 <= largest < |values|
        invariant forall k :: 0 <= k < i ==> values[k] <= values[largest]
      {
        if values[largest] < values[i] {
          largest := i;
        }
      }
      r := values[largest];
    }

    method Frequencies() returns (freq: map<real, nat>)
      ensures forall v :: v in freq <==> v in values
      ensures forall v :: v in freq ==> freq[v] == multiset(values)[v]
    {
      freq := map[];
      for i := 0 to |values|
        invariant forall v :: v in freq <==> v in multiset(values[..i])
        invariant forall v :: v in freq ==> freq[v] == multiset(values[..i])[v]
      {
        var v := values[i];
        assert values[..i + 1] == values[..i] + [v];
        freq := freq[v := (if v in freq then freq[v] else 0) + 1];
      }
      assert values[..|values|] == values;
    }

    /** A most frequent value, in whatever order the frequencies are visited. */
    method Mode() returns (r: real)
      ensures values == [] ==> r == 0.0
      ensures values != [] ==> r in values && forall x :: multiset(values)[x] <= multiset(values)[r]
    {
      if values == [] {
        return 0.0;
      }
      var freq := Frequencies();
      var maxCount := 0;
      r := values[0];
      var left := freq.Keys;
      while left != {}
        invariant left <= freq.Keys && r in values
        invariant maxCount == 0 || maxCount == multiset(values)[r]
        invariant forall v :: v in freq.Keys - left ==> freq[v] <= maxCount
        decreases |left|
      {
        HasMember(left);
        var v :| v in left;
        if freq[v] > maxCount {
          maxCount, r := freq[v], v;
        }
        left := left - {v};
      }
      forall x ensures multiset(values)[x] <= multiset(values)[r] {
        if x in values { assert x in freq.Keys - left; }
      }
    }

    method StdDev(sqrt: real -> real) returns (r: real)
      requires IsSqrt(sqrt)
      ensures |values| < 2 ==> r == 0.0
      ensures |values| >= 2 ==> IsDeviationOf(r, values)
    {
      if |values| < 2 {
        return 0.0;
      }
      var m := Mean();
      r := RootOfVariance(values, m, sqrt);
    }

    method Deltas() returns (diffs: seq<real>)
      requires values != []
      ensures diffs == Steps(values)
    {
      diffs := [];
      for i := 1 to |values|
        invariant diffs == Steps(values)[..i - 1]
      {
        var d := values[i] - values[i - 1];
        assert (if d < 0.0 then -d else d) == Steps(values)[i - 1];
        diffs := diffs + [if d < 0.0 then -d else d];
      }
    }

    /** The deviation of the steps between consecutive values; two values leave zero by zero. */
    method LocalJitter(sqrt: real -> real) returns (r: Float)
      requires IsSqrt(sqrt)
      ensures |values| < 2 ==> r == Number(0.0)
      ensures |values| == 2 ==> r == NaN
      ensures |values| >= 3 ==> r.Number? && IsDeviationOf(r.value, Steps(values))
    {
      if |values| < 2 {
        return Number(0.0);
      }
      var diffs := Deltas();
      var sum := Accumulate(diffs);
      var meanDiff := sum / (|diffs| as real);
      if |diffs| == 1 {
        return NaN;
      }
      var root := RootOfVariance(diffs, meanDiff, sqrt);
      r := Number(root);
    }
  }

  /** Equality of neighbours is equality of all. */
  lemma {:induction false} EqualNeighbours(s: seq<real>, i: nat, j: nat)
    requires i <= j < |s| && forall k :: 0 <= k < |s| - 1 ==> s[k] == s[k + 1]
    ensures s[i] == s[j]
    decreases j - i
  {
    if i < j { EqualNeighbours(s, i + 1, j); }
  }

  ghost predicate SteadyAt(s: seq<real>, i: nat)
    requires i + 2 < |s|
  {
    Abs(s[i + 1] - s[i]) == Abs(s[i + 2] - s[i + 1])
  }

  lemma EqualMeansSteady(s: seq<real>)
    requires s != []
    ensures AllEqual(Steps(s)) <==> forall i: nat | i + 2 < |s| :: SteadyAt(s, i)
  {
    var d := Steps(s);
    if AllEqual(d) {
      forall i: nat | i + 2 < |s| ensures SteadyAt(s, i) {
        assert d[i] == d[i + 1];
      }
    }
    if forall i: nat | i + 2 < |s| :: SteadyAt(s, i) {
      forall k | 0 <= k < |d| - 1 ensures d[k] == d[k + 1] {
        assert SteadyAt(s, k);
      }
      forall i, j | 0 <= i < |d| && 0 <= j < |d| ensures d[i] == d[j] {
        EqualNeighbours(d, if i <= j then i else j, if i <= j then j else i);
      }
    }
  }

  /** Steps are as long as each other exactly when their squares are equal. */
  lemma EqualSquares(a: real, b: real)
    ensures Abs(a) == Abs(b) <==> a * a == b * b
  {
    SquareDifference(a, b);
    if a != b && a != -b {
      NonZeroProduct(a - b, a + b);
    } else if a == -b {
      OppositeSquare(b);
    }
  }

  lemma SquareDifference(a: real, b: real)
    ensures a * a - b * b == Times(a - b, a + b)
  {}

  lemma OppositeSquare(b: real)
    ensures (-b) * (-b) == b * b
  {}

  lemma NonZeroProduct(x: real, y: real)
    requires x != 0.0 && y != 0.0
    ensures Times(x, y) != 0.0
  {
    hide Times;
    if (x > 0.0) == (y > 0.0) {
      PositiveProduct(x, y);
    } else {
      PositiveProduct(-x, y);
      Negated(x, y);
    }
  }

  lemma Negated(x: real, y: real)
    ensures Times(-x, y) == -Times(x, y)
  {}

  /** The jitter is zero exactly when the squares of consecutive steps are equal. */
  lemma {:induction false} JitterTells(jitter: real, s: seq<real>)
    requires |s| >= 3 && IsDeviationOf(jitter, Steps(s))
    ensures jitter == 0.0 <==> forall i: nat | i + 2 < |s| ::
      (s[i + 1] - s[i]) * (s[i + 1] - s[i]) == (s[i + 2] - s[i + 1]) * (s[i + 2] - s[i + 1])
  {
    hide *;
    ZeroDeviation(jitter, Steps(s));
    EqualMeansSteady(s);
    if forall i: nat | i + 2 < |s| :: SteadyAt(s, i) {
      forall i: nat | i + 2 < |s|
        ensures (s[i + 1] - s[i]) * (s[i + 1] - s[i]) == (s[i + 2] - s[i + 1]) * (s[i + 2] - s[i + 1])
      {
        SteadyMeans(s, i);
      }
    } else {
      var i: nat :| i + 2 < |s| && !SteadyAt(s, i);
      SteadyMeans(s, i);
    }
  }

  lemma SteadyMeans(s: seq<real>, i: nat)
    requires i + 2 < |s|
    ensures SteadyAt(s, i)
      <==> (s[i + 1] - s[i]) * (s[i + 1] - s[i]) == (s[i + 2] - s[i + 1]) * (s[i + 2] - s[i + 1])
  {
    EqualSquares(s[i + 1] - s[i], s[i + 2] - s[i + 1]);
  }
}
