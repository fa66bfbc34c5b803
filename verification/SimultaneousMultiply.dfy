/** One base, many exponents: signed sliding windows collected in buckets
    (`AbstractGroup::SimultaneousMultiply`). Every element handled is a multiple of the base, so
    ghost integers say which; the group laws are needed only to add such multiples. */
module SimultaneousMultiplication {
  import opened Bits
  import opened Groups
  import opened WindowSliders

  // ----- buckets: bucket j collects what has to be counted 2j+1 times

  /** c[k] + ... + c[|c|-1] */
  ghost function SuffixSum(c: seq<int>, k: nat): int
    requires k <= |c|
    decreases |c| - k
  {
    if k == |c| then 0 else c[k] + SuffixSum(c, k + 1)
  }

  /** The sum of (2j+1) * c[j] for j >= k. */
  ghost function Weighted(c: seq<int>, k: nat): int
    requires k <= |c|
    decreases |c| - k
  {
    if k == |c| then 0 else (2 * k + 1) * c[k] + Weighted(c, k + 1)
  }

  /** The suffix sums from k on, added up. */
  ghost function SumOfSuffixSums(c: seq<int>, k: nat): int
    requires k <= |c|
    decreases |c| - k
  {
    if k == |c| then 0 else SuffixSum(c, k) + SumOfSuffixSums(c, k + 1)
  }

  lemma {:induction false} FoldingIsWeighting(c: seq<int>, k: nat)
    requires k < |c|
    ensures Weighted(c, k) == (2 * k + 1) * SuffixSum(c, k) + 2 * SumOfSuffixSums(c, k + 1)
    decreases |c| - k
  {
    if k + 1 < |c| {
      FoldingIsWeighting(c, k + 1);
      var s := SuffixSum(c, k + 1);
      assert (2 * (k + 1) + 1) * s == (2 * k + 1) * s + 2 * s;
      MulAdd(c[k], s, 2 * k + 1);
    }
  }

  lemma {:induction false} WeightedUpdate(c: seq<int>, j: nat, d: int, k: nat)
    requires j < |c| && k <= |c|
    ensures Weighted(c[j := c[j] + d], k) == Weighted(c, k) + if k <= j then (2 * j + 1) * d else 0
    decreases |c| - k
  {
    if k < |c| {
      WeightedUpdate(c, j, d, k + 1);
      if k == j {
        MulAdd(c[j], d, 2 * j + 1);
      }
    }
  }

  lemma {:induction false} WeightedZero(n: nat, k: nat)
    requires k <= n
    ensures Weighted(seq(n, _ => 0), k) == 0
    decreases n - k
  {
    if k < n {
      WeightedZero(n, k + 1);
    }
  }

  /** Each bucket holds the stated multiple of the base. */
  ghost predicate Holds<T(!new)>(g: Group<T>, base: T, buckets: seq<T>, c: seq<int>) {
    |buckets| == |c| && forall j :: 0 <= j < |c| ==> buckets[j] == Multiple(g, c[j], base)
  }

  /** The weighted sum is twice the sum of all suffix sums but the first, plus the first. */
  lemma WeightedByFolding(c: seq<int>)
    requires |c| > 0
    ensures Weighted(c, 0) == SumOfSuffixSums(c, 1) + SumOfSuffixSums(c, 1) + SuffixSum(c, 0)
    ensures SuffixSum(c, |c| - 1) == c[|c| - 1] == SumOfSuffixSums(c, |c| - 1)
  {
    FoldingIsWeighting(c, 0);
  }

  /** The closing loop for one exponent: folds the buckets into the weighted sum. */
  method FoldBuckets<T(!new)>(g: Group<T>, bucketsIn: seq<T>, ghost base: T, ghost c: seq<int>) returns (r: T)
    requires IsGroup(g) && |bucketsIn| > 0 && Holds(g, base, bucketsIn, c)
    ensures r == Multiple(g, Weighted(c, 0), base)
  {
    hide IsGroup, Multiple, Weighted, SuffixSum, SumOfSuffixSums;
    var buckets := bucketsIn;
    r := buckets[|buckets| - 1];
    WeightedByFolding(c);
    if |buckets| > 1 {
      var j := |buckets| - 2;
      while j >= 1
        invariant 0 <= j <= |buckets| - 2
        invariant |buckets| == |c|
        invariant forall k :: 0 <= k <= j ==> buckets[k] == Multiple(g, c[k], base)
        invariant buckets[j + 1] == Multiple(g, SuffixSum(c, j + 1), base)
        invariant r == Multiple(g, SumOfSuffixSums(c, j + 1), base)
      {
        FoldStep(g, base, c, j);
        var folded := g.Add(buckets[j], buckets[j + 1]);
        buckets := buckets[j := folded];
        r := g.Add(r, folded);
        j := j - 1;
      }
      FoldEnd(g, base, c);
      buckets := buckets[0 := g.Add(buckets[0], buckets[1])];
      r := g.Add(g.Double(r), buckets[0]);
    } else {
      OneBucket(c);
    }
  }

  lemma OneBucket(c: seq<int>)
    requires |c| == 1
    ensures Weighted(c, 0) == c[0]
  {
  }

  lemma FoldEnd<T(!new)>(g: Group<T>, base: T, c: seq<int>)
    requires IsGroup(g) && |c| > 1
    ensures var s, first := Multiple(g, SumOfSuffixSums(c, 1), base), g.Add(Multiple(g, c[0], base), Multiple(g, SuffixSum(c, 1), base));
      g.Add(g.Double(s), first) == Multiple(g, Weighted(c, 0), base)
  {
    hide IsGroup, Multiple;
    WeightedByFolding(c);
    MultipleAdd(g, c[0], SuffixSum(c, 1), base);
    var s := SumOfSuffixSums(c, 1);
    MultipleAdd(g, s, s, base);
    MultipleAdd(g, s + s, SuffixSum(c, 0), base);
  }

  lemma FoldStep<T(!new)>(g: Group<T>, base: T, c: seq<int>, j: nat)
    requires IsGroup(g) && j + 1 < |c|
    ensures g.Add(Multiple(g, c[j], base), Multiple(g, SuffixSum(c, j + 1), base)) == Multiple(g, SuffixSum(c, j), base)
    ensures g.Add(Multiple(g, SumOfSuffixSums(c, j + 1), base), Multiple(g, SuffixSum(c, j), base))
            == Multiple(g, SumOfSuffixSums(c, j), base)
  {
    MultipleAdd(g, c[j], SuffixSum(c, j + 1), base);
    MultipleAdd(g, SumOfSuffixSums(c, j + 1), SuffixSum(c, j), base);
  }

  // ----- one exponent on its way: a slider, its bucket row, and what they amount to

  /** What row i has collected and what its slider has still to deliver make up exponent e. */
  ghost predicate OnTheWay<T(!new)>(g: Group<T>, base: T, s: WindowSlider, e: nat, row: seq<T>, c: seq<int>)
    reads s
  {
    && s.Valid() && !s.firstTime
    && |row| == Pow2(s.windowSize - 1)
    && Holds(g, base, row, c)
    && Weighted(c, 0) + s.Pending() == e
  }

  /** Bounds the windows a slider can still find. */
  ghost function Left(s: WindowSlider): nat
    reads s
  {
    if s.finished then 0 else s.exp + 1
  }

  ghost function Sum(a: seq<nat>): nat {
    if a == [] then 0 else a[0] + Sum(a[1..])
  }

  lemma {:induction false} SumUpdate(a: seq<nat>, i: nat, v: nat)
    requires i < |a|
    ensures Sum(a[i := v]) == Sum(a) - a[i] + v
  {
    if i > 0 {
      assert a[i := v][1..] == a[1..][i - 1 := v];
      SumUpdate(a[1..], i - 1, v);
    } else {
      assert a[i := v][1..] == a[1..];
    }
  }

  /** Sets up one exponent: its slider at the first window, and an empty bucket row. */
  method StartExponent<T(!new)>(g: Group<T>, ghost base: T, e: nat)
    returns (s: WindowSlider, row: seq<T>, ghost c: seq<int>)
    requires IsGroup(g)
    ensures fresh(s) && OnTheWay(g, base, s, e, row, c)
  {
    s := new WindowSlider(e, g.inversionIsFast, 0);
    s.FindNextWindow();
    row := seq(Pow2(s.windowSize - 1), _ => g.identity);
    c := seq(Pow2(s.windowSize - 1), _ => 0);
    WeightedZero(|c|, 0);
  }

  lemma BucketIndex(w: int, ws: nat)
    requires ws >= 1 && 0 < w < Pow2(ws) && w % 2 == 1
    ensures 0 <= w / 2 < Pow2(ws - 1) && 2 * (w / 2) + 1 == w
  {
  }

  lemma {:induction false} ShlScaled(j: nat, negate: bool, p: nat)
    ensures Shl(if negate then -(2 * j + 1) else 2 * j + 1, p) == (2 * j + 1) * (if negate then -Pow2(p) else Pow2(p))
  {
    ShlIsProduct(if negate then -(2 * j + 1) else 2 * j + 1, p);
  }

  /** Adds the window that starts at the current bit position to its bucket and moves the slider on. */
  method CollectWindow<T(!new)>(g: Group<T>, ghost base: T, power: T, ghost position: nat,
                                s: WindowSlider, ghost e: nat, rowIn: seq<T>, ghost cIn: seq<int>)
    returns (row: seq<T>, ghost c: seq<int>)
    requires IsGroup(g) && power == Multiple(g, Pow2(position), base)
    requires OnTheWay(g, base, s, e, rowIn, cIn) && !s.finished && s.windowBegin == position
    modifies s
    ensures OnTheWay(g, base, s, e, row, c)
    ensures !s.finished ==> s.windowBegin > position
    ensures Left(s) < old(Left(s))
  {
    BucketIndex(s.expWindow, s.windowSize);
    var j := s.expWindow / 2;
    ghost var d := if s.negateNext then -Pow2(position) else Pow2(position);
    MultipleAdd(g, cIn[j], d, base);
    WeightedUpdate(cIn, j, d, 0);
    ShlScaled(j, s.negateNext, position);
    if s.negateNext {
      MultipleNegate(g, Pow2(position), base);
      row := rowIn[j := g.Add(rowIn[j], g.Inverse(power))];
    } else {
      row := rowIn[j := g.Add(rowIn[j], power)];
    }
    c := cIn[j := cIn[j] + d];
    s.FindNextWindow();
  }

  /** All exponents on their way, with no window start behind the bit position and none above `limit`. */
  ghost predicate AllOnTheWay<T(!new)>(g: Group<T>, base: T, sliders: seq<WindowSlider>, exponents: seq<nat>,
                                       buckets: seq<seq<T>>, c: seq<seq<int>>, left: seq<nat>, position: nat, limit: nat)
    reads sliders
  {
    && |sliders| == |exponents| == |buckets| == |c| == |left|
    && (forall k, m :: 0 <= k < m < |sliders| ==> sliders[k] != sliders[m])
    && (forall k :: 0 <= k < |sliders| ==>
          && OnTheWay(g, base, sliders[k], exponents[k], buckets[k], c[k])
          && left[k] == Left(sliders[k])
          && (!sliders[k].finished ==> position <= sliders[k].windowBegin <= limit))
  }

  /** The opening loop: every exponent at its first window. */
  method StartAll<T(!new)>(g: Group<T>, ghost base: T, exponents: seq<nat>)
    returns (sliders: seq<WindowSlider>, buckets: seq<seq<T>>, ghost c: seq<seq<int>>, ghost left: seq<nat>, ghost limit: nat)
    requires IsGroup(g)
    ensures AllOnTheWay(g, base, sliders, exponents, buckets, c, left, 0, limit)
    ensures fresh(sliders)
  {
    sliders, buckets, c, left, limit := [], [], [], [], 0;
    for i := 0 to |exponents|
      invariant AllOnTheWay(g, base, sliders, exponents[..i], buckets, c, left, 0, limit)
      invariant fresh(sliders)
    {
      var s, row;
      ghost var coefficients;
      s, row, coefficients := StartExponent(g, base, exponents[i]);
      sliders, buckets, c, left := sliders + [s], buckets + [row], c + [coefficients], left + [Left(s)];
      limit := if s.windowBegin > limit then s.windowBegin else limit;
      assert exponents[..i + 1] == exponents[..i] + [exponents[i]];
    }
    assert exponents[..|exponents|] == exponents;
  }

  /** Exponent i at one bit position: its window is taken if it starts there. */
  method CollectAt<T(!new)>(g: Group<T>, ghost base: T, power: T, position: nat, sliders: seq<WindowSlider>, i: nat,
                            ghost exponents: seq<nat>, bucketsIn: seq<seq<T>>,
                            ghost cIn: seq<seq<int>>, ghost leftIn: seq<nat>, ghost limitIn: nat)
    returns (buckets: seq<seq<T>>, ghost c: seq<seq<int>>, ghost left: seq<nat>, ghost limit: nat)
    requires IsGroup(g) && power == Multiple(g, Pow2(position), base)
    requires AllOnTheWay(g, base, sliders, exponents, bucketsIn, cIn, leftIn, position, limitIn) && i < |sliders|
    modifies sliders[i]
    ensures AllOnTheWay(g, base, sliders, exponents, buckets, c, left, position, limit)
    ensures !sliders[i].finished ==> position < sliders[i].windowBegin
    ensures Sum(left) < Sum(leftIn) || (Sum(left) == Sum(leftIn) && limit == limitIn)
  {
    hide OnTheWay, IsGroup, Multiple, Pow2, Left, Sum;
    buckets, c, left, limit := bucketsIn, cIn, leftIn, limitIn;
    var s := sliders[i];
    if !s.finished && position == s.windowBegin {
      var row;
      ghost var coefficients;
      row, coefficients := CollectWindow(g, base, power, position, s, exponents[i], buckets[i], c[i]);
      buckets, c := buckets[i := row], c[i := coefficients];
      SumUpdate(left, i, Left(s));
      left := left[i := Left(s)];
      limit := if s.windowBegin > limit then s.windowBegin else limit;
    }
  }

  /** One pass over all exponents at one bit position. Afterwards no unfinished window starts at
      or below the position; and if any window was taken, fewer are left. */
  method CollectAll<T(!new)>(g: Group<T>, ghost base: T, power: T, position: nat, sliders: seq<WindowSlider>,
                             ghost exponents: seq<nat>, bucketsIn: seq<seq<T>>,
                             ghost cIn: seq<seq<int>>, ghost leftIn: seq<nat>, ghost limitIn: nat)
    returns (notDone: bool, buckets: seq<seq<T>>, ghost c: seq<seq<int>>, ghost left: seq<nat>, ghost limit: nat)
    requires IsGroup(g) && power == Multiple(g, Pow2(position), base)
    requires AllOnTheWay(g, base, sliders, exponents, bucketsIn, cIn, leftIn, position, limitIn)
    modifies sliders
    ensures AllOnTheWay(g, base, sliders, exponents, buckets, c, left, position + 1, limit)
    ensures notDone <==> exists k :: 0 <= k < |sliders| && !sliders[k].finished
    ensures Sum(left) < Sum(leftIn) || (Sum(left) == Sum(leftIn) && limit == limitIn)
  {
    hide OnTheWay, IsGroup, Multiple, Pow2, Left, Sum;
    buckets, c, left, limit := bucketsIn, cIn, leftIn, limitIn;
    notDone := false;
    for i := 0 to |sliders|
      invariant AllOnTheWay(g, base, sliders, exponents, buckets, c, left, position, limit)
      invariant forall k :: 0 <= k < i && !sliders[k].finished ==> position < sliders[k].windowBegin
      invariant notDone <==> exists k :: 0 <= k < i && !sliders[k].finished
      invariant Sum(left) < Sum(leftIn) || (Sum(left) == Sum(leftIn) && limit == limitIn)
    {
      buckets, c, left, limit := CollectAt(g, base, power, position, sliders, i, exponents, buckets, c, left, limit);
      notDone := notDone || !sliders[i].finished;
    }
  }

  /** The closing loop: folds every bucket row into its result. */
  method FoldAll<T(!new)>(g: Group<T>, ghost base: T, results: array<T>, buckets: seq<seq<T>>,
                          ghost c: seq<seq<int>>, ghost exponents: seq<nat>)
    requires IsGroup(g) && results.Length == |buckets| == |c| == |exponents|
    requires forall k :: 0 <= k < |c| ==> |buckets[k]| > 0 && Holds(g, base, buckets[k], c[k]) && Weighted(c[k], 0) == exponents[k]
    modifies results
    ensures forall k :: 0 <= k < |exponents| ==> results[k] == Multiple(g, exponents[k], base)
  {
    for i := 0 to results.Length
      invariant forall k :: 0 <= k < i ==> results[k] == Multiple(g, exponents[k], base)
    {
      results[i] := FoldBuckets(g, buckets[i], base, c[i]);
    }
  }

  /** `results[k] = exponents[k] * base` for every k, in any group, with or without fast inversion. */
  method SimultaneousMultiply<T(!new)>(g: Group<T>, results: array<T>, base: T, exponents: seq<nat>)
    requires IsGroup(g) && results.Length == |exponents|
    modifies results
    ensures forall k :: 0 <= k < |exponents| ==> results[k] == Multiple(g, exponents[k], base)
  {
    hide OnTheWay, IsGroup, Multiple, Pow2, Left, Sum;
    var sliders, buckets;
    ghost var c: seq<seq<int>>, left: seq<nat>, limit: nat;
    sliders, buckets, c, left, limit := StartAll(g, base, exponents);

    var expBitPosition: nat := 0;
    var power := base;
    FirstPower(g, base);
    var notDone := true;
    while notDone
      invariant fresh(sliders)
      invariant AllOnTheWay(g, base, sliders, exponents, buckets, c, left, expBitPosition, limit)
      invariant power == Multiple(g, Pow2(expBitPosition), base)
      invariant !notDone ==> forall k :: 0 <= k < |sliders| ==> sliders[k].finished
      decreases Sum(left), limit - expBitPosition, notDone
    {
      notDone, buckets, c, left, limit :=
        CollectAll(g, base, power, expBitPosition, sliders, exponents, buckets, c, left, limit);
      if notDone {
        NextPower(g, base, expBitPosition);
        power := g.Double(power);
        expBitPosition := expBitPosition + 1;
      }
    }
    AllCollected(g, base, sliders, exponents, buckets, c, left, expBitPosition, limit);
    FoldAll(g, base, results, buckets, c, exponents);
  }

  lemma FirstPower<T(!new)>(g: Group<T>, base: T)
    requires IsGroup(g)
    ensures base == Multiple(g, Pow2(0), base)
  {
    MultipleOne(g, base);
  }

  lemma NextPower<T(!new)>(g: Group<T>, base: T, p: nat)
    requires IsGroup(g)
    ensures g.Double(Multiple(g, Pow2(p), base)) == Multiple(g, Pow2(p + 1), base)
  {
    MultipleAdd(g, Pow2(p), Pow2(p), base);
  }

  lemma AllCollected<T(!new)>(g: Group<T>, base: T, sliders: seq<WindowSlider>, exponents: seq<nat>,
                              buckets: seq<seq<T>>, c: seq<seq<int>>, left: seq<nat>, position: nat, limit: nat)
    requires AllOnTheWay(g, base, sliders, exponents, buckets, c, left, position, limit)
    requires forall k :: 0 <= k < |sliders| ==> sliders[k].finished
    ensures |buckets| == |c| == |exponents|
    ensures forall k :: 0 <= k < |c| ==> |buckets[k]| > 0 && Holds(g, base, buckets[k], c[k]) && Weighted(c[k], 0) == exponents[k]
  {
  }

  /** A single multiple, as the one-element case (`AbstractGroup::ScalarMultiply`). */
  method ScalarMultiply<T(!new)>(g: Group<T>, base: T, exponent: nat) returns (result: T)
    requires IsGroup(g)
    ensures result == Multiple(g, exponent, base)
  {
    var results := new T[1](_ => g.blank);
    SimultaneousMultiply(g, results, base, [exponent]);
    result := results[0];
  }
}
