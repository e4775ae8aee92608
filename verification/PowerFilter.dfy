/** The activity average of `pm_worker` as a pure recursive filter over an oldest-first history. */
module PowerFilter {

  const INT16_MAX := 0x7fff
  const INT32_MAX := 0x7fff_ffff

  /** `CONFIG_PM_COEF1` and up, oldest first, and `CONFIG_PM_COEFN` for the current sample. */
  datatype Weights = Weights(past: seq<int>, now: int)

  predicate AllPositive(w: Weights) {
    w.now > 0 && forall i :: 0 <= i < |w.past| ==> w.past[i] > 0
  }

  /** All weights are positive, and the weighted sum of 16-bit samples fits 32 bits. */
  ghost predicate Usable(w: Weights) {
    AllPositive(w) && (w.now + SumOf(w.past)) * INT16_MAX <= INT32_MAX
  }

  function SumOf(cs: seq<int>): int {
    if cs == [] then 0 else SumOf(cs[..|cs| - 1]) + cs[|cs| - 1]
  }

  function Dot(cs: seq<int>, ys: seq<int>): int
    requires |cs| == |ys|
  {
    if cs == [] then 0 else Dot(cs[..|cs| - 1], ys[..|cs| - 1]) + cs[|cs| - 1] * ys[|cs| - 1]
  }

  /** C division, which truncates toward zero. */
  function TruncDiv(a: int, b: int): int
    requires b != 0
  {
    if (a >= 0) == (b > 0) then (if a >= 0 then a / b else (-a) / (-b))
    else -((if a >= 0 then a else -a) / (if b > 0 then b else -b))
  }

  function Int16(x: int): int {
    (x + 0x8000) % 0x1_0000 - 0x8000
  }

  function Average(w: Weights, window: seq<int>, x: int): int
    requires |window| == |w.past| && w.now + SumOf(w.past) != 0
  {
    TruncDiv(w.now * x + Dot(w.past, window), w.now + SumOf(w.past))
  }

  predicate Within(lo: int, hi: int, ys: seq<int>) {
    forall i :: 0 <= i < |ys| ==> lo <= ys[i] <= hi
  }

  // ----- averages stay between the smallest and the largest sample -----

  lemma {:induction false} SumPositive(cs: seq<int>)
    requires forall i :: 0 <= i < |cs| ==> cs[i] > 0
    ensures SumOf(cs) >= 0
    decreases |cs|
  {
    if cs != [] { SumPositive(cs[..|cs| - 1]); }
  }

  lemma ScaleBetween(c: int, lo: int, y: int, hi: int)
    requires c > 0 && lo <= y <= hi
    ensures c * lo <= c * y <= c * hi
  {
  }

  lemma Distribute(a: int, b: int, x: int)
    ensures (a + b) * x == a * x + b * x
  {
  }

  lemma {:induction false} DotBetween(cs: seq<int>, ys: seq<int>, lo: int, hi: int)
    requires |cs| == |ys| && Within(lo, hi, ys) && forall i :: 0 <= i < |cs| ==> cs[i] > 0
    ensures SumOf(cs) * lo <= Dot(cs, ys) <= SumOf(cs) * hi
    decreases |cs|
  {
    if cs != [] {
      var k := |cs| - 1;
      DotBetween(cs[..k], ys[..k], lo, hi);
      ScaleBetween(cs[k], lo, ys[k], hi);
      Distribute(SumOf(cs[..k]), cs[k], lo);
      Distribute(SumOf(cs[..k]), cs[k], hi);
    }
  }

  lemma MulCancel(d: int, a: int, b: int)
    requires d > 0 && d * a < d * b
    ensures a < b
  {
  }

  lemma DivBetween(n: int, d: int, lo: int, hi: int)
    requires d > 0 && 0 <= lo && d * lo <= n <= d * hi
    ensures n >= 0 && lo <= n / d <= hi
  {
    var q := n / d;
    assert n == d * q + n % d;
    Distribute(q, 1, d);
    Distribute(hi, 1, d);
    MulCancel(d, lo, q + 1);
    MulCancel(d, q, hi + 1);
  }

  // ----- what the average is -----

  /** A window of zeros contributes nothing, and raising one value raises the sum by its weight: so the
      sum pairs every value with the weight of its place. */
  lemma {:induction false} DotOfZeros(cs: seq<int>, ys: seq<int>)
    requires |cs| == |ys| && forall i :: 0 <= i < |ys| ==> ys[i] == 0
    ensures Dot(cs, ys) == 0
    decreases |cs|
  {
    if cs != [] { DotOfZeros(cs[..|cs| - 1], ys[..|cs| - 1]); }
  }

  lemma {:induction false} DotRaised(cs: seq<int>, ys: seq<int>, k: nat, d: int)
    requires |cs| == |ys| && k < |ys|
    ensures Dot(cs, ys[k := ys[k] + d]) == Dot(cs, ys) + cs[k] * d
    decreases |cs|
  {
    var n, zs := |cs| - 1, ys[k := ys[k] + d];
    if k < n {
      assert zs[..n] == ys[..n][k := ys[..n][k] + d];
      DotRaised(cs[..n], ys[..n], k, d);
    } else {
      assert zs[..n] == ys[..n];
      Distribute(ys[k], d, cs[k]);
    }
  }

  /** The average is the quotient: the largest number of which every weight can be paid out of the
      weighted sum. */
  lemma AverageIsQuotient(w: Weights, window: seq<int>, x: int)
    requires Usable(w) && |window| == |w.past| && Within(0, INT16_MAX, window) && 0 <= x <= INT16_MAX
    ensures var d := w.now + SumOf(w.past); var sum := w.now * x + Dot(w.past, window);
      d > 0 && d * Average(w, window, x) <= sum < d * (Average(w, window, x) + 1)
  {
    var d, sum := w.now + SumOf(w.past), w.now * x + Dot(w.past, window);
    SumPositive(w.past);
    WeightedSumBetween(w, window, x, 0, INT16_MAX);
    var q := sum / d;
    assert sum == d * q + sum % d;
    Distribute(q, 1, d);
    assert d * (q + 1) == (q + 1) * d;
  }

  lemma WeightedSumBetween(w: Weights, window: seq<int>, x: int, lo: int, hi: int)
    requires Usable(w) && |window| == |w.past| && Within(lo, hi, window) && lo <= x <= hi
    ensures var d := w.now + SumOf(w.past); d * lo <= w.now * x + Dot(w.past, window) <= d * hi
  {
    DotBetween(w.past, window, lo, hi);
    ScaleBetween(w.now, lo, x, hi);
    Distribute(w.now, SumOf(w.past), lo);
    Distribute(w.now, SumOf(w.past), hi);
  }

  /** The average lies between the bounds of its inputs, and every intermediate value fits 32 bits. */
  lemma AverageBetween(w: Weights, window: seq<int>, x: int, lo: int, hi: int)
    requires Usable(w) && |window| == |w.past| && 0 <= lo <= hi <= INT16_MAX
    requires Within(lo, hi, window) && lo <= x <= hi
    ensures w.now + SumOf(w.past) > 0
    ensures lo <= Average(w, window, x) <= hi
    ensures 0 <= w.now * x + Dot(w.past, window) <= INT32_MAX
  {
    var d := w.now + SumOf(w.past);
    SumPositive(w.past);
    WeightedSumBetween(w, window, x, lo, hi);
    DivBetween(w.now * x + Dot(w.past, window), d, lo, hi);
    ScaleBetween(d, 0, hi, INT16_MAX);
  }

  lemma {:induction false} DotOfEqual(cs: seq<int>, ys: seq<int>, y: int)
    requires |cs| == |ys| && forall i :: 0 <= i < |ys| ==> ys[i] == y
    ensures Dot(cs, ys) == SumOf(cs) * y
    decreases |cs|
  {
    if cs != [] {
      var k := |cs| - 1;
      DotOfEqual(cs[..k], ys[..k], y);
      Distribute(SumOf(cs[..k]), cs[k], y);
    }
  }

  /** The weighted sum fits 32 bits, if the inputs are 16-bit samples. */
  predicate Fits(w: Weights, window: seq<int>, x: int) {
    |window| == |w.past| && Within(0, INT16_MAX, window) && 0 <= x <= INT16_MAX ==>
      0 <= w.now * x + Dot(w.past, window) <= INT32_MAX
  }

  ghost predicate NeverOverflows(w: Weights) {
    forall window, x :: Fits(w, window, x)
  }

  /** The bound on the weights is what the 32-bit sum needs: positive weights never overflow it
      exactly when they meet the bound, and samples at the maximum decide it. */
  lemma UsableIff(w: Weights)
    requires AllPositive(w)
    ensures NeverOverflows(w) <==> Usable(w)
  {
    if NeverOverflows(w) {
      var top := seq(|w.past|, _ => INT16_MAX);
      DotOfEqual(w.past, top, INT16_MAX);
      Distribute(w.now, SumOf(w.past), INT16_MAX);
      assert Fits(w, top, INT16_MAX);
    }
    if Usable(w) {
      forall window, x ensures Fits(w, window, x) {
        if |window| == |w.past| && Within(0, INT16_MAX, window) && 0 <= x <= INT16_MAX {
          AverageBetween(w, window, x, 0, INT16_MAX);
        }
      }
    }
  }

  // ----- the filter over a run of samples -----

  /** The value assessed for a new sample, once the window is full. */
  function Smooth(w: Weights, window: seq<int>, x: int): int
    requires |window| == |w.past| && w.now + SumOf(w.past) != 0
  {
    if |w.past| == 0 then x else Average(w, window, x)
  }

  /** The window after a new sample: raw samples until it is full, averages from then on. */
  function Absorb(w: Weights, window: seq<int>, x: int): (r: seq<int>)
    requires |window| <= |w.past| && w.now + SumOf(w.past) != 0
    ensures |r| == if |window| < |w.past| then |window| + 1 else |window|
  {
    if |window| < |w.past| then window + [x]
    else if window == [] then []
    else window[1..] + [Average(w, window, x)]
  }

  function Window(w: Weights, samples: seq<int>): (r: seq<int>)
    requires w.now + SumOf(w.past) != 0
    ensures |r| <= |w.past|
    decreases |samples|
  {
    if samples == [] then [] else Absorb(w, Window(w, samples[..|samples| - 1]), samples[|samples| - 1])
  }

  lemma AbsorbBetween(w: Weights, window: seq<int>, x: int, lo: int, hi: int)
    requires Usable(w) && |window| <= |w.past| && 0 <= lo <= hi <= INT16_MAX
    requires Within(lo, hi, window) && lo <= x <= hi
    ensures w.now + SumOf(w.past) > 0
    ensures Within(lo, hi, Absorb(w, window, x))
    ensures |window| == |w.past| ==> lo <= Smooth(w, window, x) <= hi
  {
    SumPositive(w.past);
    if |window| == |w.past| { AverageBetween(w, window, x, lo, hi); }
  }

  /** In every run, every stored value and every assessed value lies between the smallest and the
      largest sample so far, so the 16-bit store loses nothing. */
  lemma {:induction false} RunBetween(w: Weights, samples: seq<int>, x: int, lo: int, hi: int)
    requires Usable(w) && 0 <= lo <= hi <= INT16_MAX && Within(lo, hi, samples) && lo <= x <= hi
    ensures w.now + SumOf(w.past) > 0
    ensures Within(lo, hi, Window(w, samples))
    ensures |Window(w, samples)| == |w.past| ==>
      var y := Smooth(w, Window(w, samples), x); lo <= y <= hi && Int16(y) == y
    decreases |samples|
  {
    SumPositive(w.past);
    if samples != [] {
      var k := |samples| - 1;
      RunBetween(w, samples[..k], samples[k], lo, hi);
      AbsorbBetween(w, Window(w, samples[..k]), samples[k], lo, hi);
    }
    AbsorbBetween(w, Window(w, samples), x, lo, hi);
  }
}
