/** `get_unique_randints_from_n_digit`: distinct random integers with a given
    number of digits, drawn until a count derived from the sample rate is
    reached. */
module DigitSampler {

  function Pow10(n: nat): (r: nat)
    ensures r >= 1
  {
    if n == 0 then 1 else 10 * Pow10(n - 1)
  }

  /** `start = 10 ** (n_digit - 1)`. */
  function Start(nDigit: nat): nat
    requires nDigit >= 1
  {
    Pow10(nDigit - 1)
  }

  /** `stop = 10 ** n_digit - 1`. */
  function Stop(nDigit: nat): int
  {
    Pow10(nDigit) - 1
  }

  /** How many integers `random.randint(start, stop)` can return. */
  function RangeSize(nDigit: nat): (r: int)
    requires nDigit >= 1
    ensures r == 9 * Pow10(nDigit - 1)
  {
    Stop(nDigit) - Start(nDigit) + 1
  }

  /** A sample rate, the float of the source taken as the exact fraction
      `num / den`. */
  datatype Rate = Rate(num: int, den: nat)

  predicate ValidRate(rate: Rate) {
    rate.den > 0
  }

  /** Python's `int(num / den)`: the quotient truncated toward zero. */
  function TruncDiv(num: int, den: nat): int
    requires den > 0
  {
    if num >= 0 then num / den else -((-num) / den)
  }

  /** TruncDiv rounds toward zero: down for a non-negative numerator, up
      for a negative one. */
  lemma TruncDivBounds(num: int, den: nat)
    requires den > 0
    ensures num >= 0 ==> 0 <= TruncDiv(num, den) * den <= num < TruncDiv(num, den) * den + den
    ensures num < 0 ==> TruncDiv(num, den) * den - den < num <= TruncDiv(num, den) * den <= 0
  {
    if num >= 0 {
      FloorBounds(num, den);
    } else {
      FloorBounds(-num, den);
      assert TruncDiv(num, den) == -((-num) / den);
      Negate((-num) / den, den);
    }
  }

  lemma FloorBounds(m: int, den: int)
    requires m >= 0 && den > 0
    ensures 0 <= (m / den) * den <= m < (m / den) * den + den
  {
    var q, r := m / den, m % den;
    assert m == q * den + r && 0 <= r < den;
    MulMono(q, 0, den);
  }

  lemma Negate(p: int, den: int)
    ensures (-p) * den == -(p * den)
  {
  }

  /** The loop bound `int((stop - start) * sample_rate)`. */
  function TargetCount(nDigit: nat, rate: Rate): int
    requires nDigit >= 1 && ValidRate(rate)
  {
    TruncDiv((Stop(nDigit) - Start(nDigit)) * rate.num, rate.den)
  }

  /** All values `randint(start, stop)` can return. */
  predicate InRange(nDigit: nat, xs: seq<nat>)
    requires nDigit >= 1
  {
    forall i :: 0 <= i < |xs| ==> Start(nDigit) <= xs[i] <= Stop(nDigit)
  }

  predicate Distinct(xs: seq<nat>) {
    forall i, j :: 0 <= i < j < |xs| ==> xs[i] != xs[j]
  }

  /** The integers from `lo` to `hi`. */
  function Interval(lo: int, hi: int): (r: set<int>)
    ensures forall v :: v in r <==> lo <= v <= hi
    ensures |r| == if lo <= hi then hi - lo + 1 else 0
    decreases hi - lo
  {
    if lo > hi then {} else
      var rest := Interval(lo + 1, hi);
      assert lo !in rest;
      {lo} + rest
  }

  /** A subset has no more elements than its superset, and a proper one
      has fewer. */
  lemma SubsetCard(a: set<int>, b: set<int>)
    requires a <= b
    ensures |a| <= |b|
    ensures a != b ==> |a| < |b|
  {
    var d := b - a;
    assert b == a + d && a * d == {};
    if a != b {
      assert d != {};
    }
  }

  /** A sequence of distinct values has as many elements as its set. */
  lemma {:induction false} DistinctCard(xs: seq<nat>)
    requires Distinct(xs)
    ensures |set x: int | x in xs| == |xs|
  {
    if |xs| > 0 {
      var rest := xs[1..];
      DistinctCard(rest);
      assert (set x: int | x in xs) == {xs[0] as int} + (set x: int | x in rest);
      assert xs[0] !in rest by {
        forall j | 0 <= j < |rest| ensures rest[j] != xs[0] {
          assert rest[j] == xs[j + 1];
        }
      }
    }
  }

  /** Fewer distinct values than the range holds leave some value of the
      range undrawn. */
  lemma MissingValue(nDigit: nat, xs: seq<nat>)
    requires nDigit >= 1 && InRange(nDigit, xs) && Distinct(xs)
    requires |xs| < RangeSize(nDigit)
    ensures exists v: nat :: Start(nDigit) <= v <= Stop(nDigit) && v !in xs
  {
    var range := Interval(Start(nDigit), Stop(nDigit));
    var drawn := set x: int | x in xs;
    DistinctCard(xs);
    if range <= drawn {
      SubsetCard(range, drawn);
      assert false;
    }
    var v :| v in range && v !in drawn;
    assert v as nat !in xs;
  }

  /** As many distinct values as the range holds cover the whole range. */
  lemma FullSampleCoversRange(nDigit: nat, xs: seq<nat>)
    requires nDigit >= 1 && InRange(nDigit, xs) && Distinct(xs)
    requires |xs| == RangeSize(nDigit)
    ensures forall v: nat :: Start(nDigit) <= v <= Stop(nDigit) ==> v in xs
  {
    var range := Interval(Start(nDigit), Stop(nDigit));
    var drawn := set x: int | x in xs;
    DistinctCard(xs);
    assert drawn <= range;
    SubsetCard(drawn, range);
    assert drawn == range;
    forall v: nat | Start(nDigit) <= v <= Stop(nDigit) ensures v in xs {
      assert v in drawn;
    }
  }

  /** The sampling loop of `get_unique_randints_from_n_digit`, run until
      `count` distinct values are drawn. Each `random.randint(start, stop)`
      is a nondeterministic choice; only the draws that add a new value are
      taken, since a repeated draw leaves the set as it was. The source loops
      forever unless `count` fits in the range. */
  method SampleDistinct(nDigit: nat, count: int) returns (xs: seq<nat>)
    requires nDigit >= 1
    requires count <= RangeSize(nDigit)
    ensures Distinct(xs) && InRange(nDigit, xs)
    ensures |xs| == if count < 0 then 0 else count
  {
    var start, stop := Start(nDigit), Stop(nDigit);
    xs := [];
    while |xs| < count
      invariant Distinct(xs) && InRange(nDigit, xs)
      invariant |xs| <= if count < 0 then 0 else count
      decreases count - |xs|
    {
      MissingValue(nDigit, xs);
      var num: nat :| start <= num <= stop && num !in xs;
      xs := xs + [num];
    }
  }

  /** `get_unique_randints_from_n_digit(n_digit, sample_rate)`: distinct
      `n_digit`-digit values, exactly `max(0, int((stop-start)*rate))` of them.
      A rate of at most 1 never covers the whole range: `stop - start` is one
      less than the number of values in it. */
  method GetUniqueRandints(nDigit: nat, rate: Rate) returns (xs: seq<nat>)
    requires nDigit >= 1 && ValidRate(rate)
    requires TargetCount(nDigit, rate) <= RangeSize(nDigit)
    ensures Distinct(xs) && InRange(nDigit, xs)
    ensures var c := TargetCount(nDigit, rate); |xs| == if c < 0 then 0 else c
    ensures rate.num <= rate.den ==> exists v: nat :: Start(nDigit) <= v <= Stop(nDigit) && v !in xs
  {
    xs := SampleDistinct(nDigit, TargetCount(nDigit, rate));
    if rate.num <= rate.den {
      AtMostOneLeavesOut(nDigit, rate);
      MissingValue(nDigit, xs);
    }
  }

  /** With a rate of at most 1 the count is below the range size, so the
      sampling loop ends. */
  lemma AtMostOneLeavesOut(nDigit: nat, rate: Rate)
    requires nDigit >= 1 && ValidRate(rate) && rate.num <= rate.den
    ensures TargetCount(nDigit, rate) <= RangeSize(nDigit) - 1
  {
    ScaledCount(Stop(nDigit) - Start(nDigit), rate);
  }

  /** `int(w * rate)` for a rate of at most 1 is at most `w`, and exactly
      `w` for a rate of 1. */
  lemma ScaledCount(w: int, rate: Rate)
    requires w >= 0 && ValidRate(rate) && rate.num <= rate.den
    ensures TruncDiv(w * rate.num, rate.den) <= w
    ensures rate.num == rate.den ==> TruncDiv(w * rate.num, rate.den) == w
  {
    var num, den := rate.num, rate.den;
    var q := TruncDiv(w * num, den);
    TruncDivBounds(w * num, den);
    if w * num >= 0 {
      MulMono(w, num, den);
      MulCancel(q, w, den);
      if num == den {
        NextRow(q, den);
        MulCancelStrict(w, q + 1, den);
      }
    } else {
      MulCancel(q, 0, den);
    }
  }

  lemma MulMono(n: int, a: int, b: int)
    requires n >= 0 && a <= b
    ensures n * a <= n * b
  {
    assert n * b - n * a == n * (b - a);
  }

  lemma NextRow(q: int, d: int)
    ensures (q + 1) * d == q * d + d
  {
  }

  lemma MulCancel(a: int, b: int, d: int)
    requires d > 0 && a * d <= b * d
    ensures a <= b
  {
    assert (b - a) * d >= 0;
  }

  lemma MulCancelStrict(a: int, b: int, d: int)
    requires d > 0 && a * d < b * d
    ensures a < b
  {
    assert (b - a) * d > 0;
  }

  /** The source's own first configuration: one digit at rate 1.0 draws 8
      values, though the range 1..9 holds 9. */
  lemma OneDigitFullRateDrawsEight()
    ensures Start(1) == 1 && Stop(1) == 9
    ensures TargetCount(1, Rate(1, 1)) == 8 && RangeSize(1) == 9
  {
  }

  /** The count the sample rate evidently stands for: the rate times the
      number of values in the range, so that a rate of 1.0 takes them all. */
  function FullRangeCount(nDigit: nat, rate: Rate): int
    requires nDigit >= 1 && ValidRate(rate)
  {
    TruncDiv(RangeSize(nDigit) * rate.num, rate.den)
  }

  /** The sampler with the corrected count: a rate of at most 1 always ends,
      and a rate of exactly 1 returns every value of the range. */
  method GetUniqueRandintsFullRange(nDigit: nat, rate: Rate) returns (xs: seq<nat>)
    requires nDigit >= 1 && ValidRate(rate) && rate.num <= rate.den
    ensures Distinct(xs) && InRange(nDigit, xs)
    ensures var c := FullRangeCount(nDigit, rate); |xs| == if c < 0 then 0 else c
    ensures rate.num == rate.den ==> forall v: nat :: Start(nDigit) <= v <= Stop(nDigit) ==> v in xs
  {
    var n := RangeSize(nDigit);
    var c := FullRangeCount(nDigit, rate);
    ScaledCount(n, rate);
    xs := SampleDistinct(nDigit, c);
    if rate.num == rate.den {
      assert c == n;
      FullSampleCoversRange(nDigit, xs);
    }
  }
}
