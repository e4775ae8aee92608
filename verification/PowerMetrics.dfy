/** What the per-state totals of a pruned history mean, second by second. */
module PowerMetrics {
  import opened Basics
  import opened PowerHistory
  import opened PowerStates

  function TimeDiff(a: nat, b: nat): nat {
    if a > b then a - b else b - a
  }

  function Max(a: int, b: int): int {
    if a < b then b else a
  }

  /** The time the code adds for node `i`.  `isfirst` is never cleared before the last node, so the
      last node is always credited the whole window. */
  function Added(h: seq<Node>, i: nat, now: nat, ref: nat): int
    requires i < |h|
  {
    if i == |h| - 1 then TimeDiff(now, ref)
    else if ref >= h[i].time && h[i + 1].time >= ref then h[i + 1].time - ref
    else h[i + 1].time - h[i].time
  }

  /** The total of state `s` after the first `k` nodes. */
  function Credited(h: seq<Node>, s: int, k: nat, now: nat, ref: nat): int
    requires k <= |h|
  {
    if k == 0 then 0
    else Credited(h, s, k - 1, now, ref) + (if h[k - 1].state == s then Added(h, k - 1, now, ref) else 0)
  }

  // ----- the reference: counting seconds -----

  /** Seconds of [lo, hi) during which state `s` was in force. */
  function SecondsIn(h: seq<Node>, s: int, lo: int, hi: int): int
    decreases hi - lo
  {
    if hi <= lo then 0
    else SecondsIn(h, s, lo, hi - 1) + (if StateAt(h, hi - 1) == Some(s) then 1 else 0)
  }

  lemma {:induction false} SecondsSplit(h: seq<Node>, s: int, lo: int, mid: int, hi: int)
    requires lo <= mid <= hi
    ensures SecondsIn(h, s, lo, hi) == SecondsIn(h, s, lo, mid) + SecondsIn(h, s, mid, hi)
    decreases hi - mid
  {
    if mid < hi { SecondsSplit(h, s, lo, mid, hi - 1); }
  }

  lemma {:induction false} SecondsAfterLast(h: seq<Node>, s: int, lo: int, hi: int)
    requires h != [] && Last(h).time <= lo <= hi
    ensures SecondsIn(h, s, lo, hi) == if Last(h).state == s then hi - lo else 0
    decreases hi - lo
  {
    if lo < hi { SecondsAfterLast(h, s, lo, hi - 1); }
  }

  lemma {:induction false} SecondsBeforeLast(h: seq<Node>, s: int, lo: int, hi: int)
    requires h != [] && hi <= Last(h).time
    ensures SecondsIn(h, s, lo, hi) == SecondsIn(h[..|h| - 1], s, lo, hi)
    decreases hi - lo
  {
    if lo < hi { SecondsBeforeLast(h, s, lo, hi - 1); }
  }

  lemma {:induction false} SecondsOfNothing(s: int, lo: int, hi: int)
    ensures SecondsIn([], s, lo, hi) == 0
    decreases hi - lo
  {
    if lo < hi { SecondsOfNothing(s, lo, hi - 1); }
  }

  /** Seconds up to `hi` are those before the last change and those since. */
  lemma SecondsByLast(h: seq<Node>, s: int, lo: int, hi: int)
    requires h != [] && Max(Last(h).time, lo) <= hi
    ensures SecondsIn(h, s, lo, hi) ==
      SecondsIn(h[..|h| - 1], s, lo, Max(Last(h).time, lo)) +
      (if Last(h).state == s then hi - Max(Last(h).time, lo) else 0)
  {
    var mid := Max(Last(h).time, lo);
    SecondsSplit(h, s, lo, mid, hi);
    SecondsAfterLast(h, s, mid, hi);
    if mid == Last(h).time { SecondsBeforeLast(h, s, lo, mid); }
  }

  lemma {:induction false} SecondsSame(h: seq<Node>, r: seq<Node>, s: int, lo: int, hi: int)
    requires SameFrom(h, r, lo)
    ensures SecondsIn(r, s, lo, hi) == SecondsIn(h, s, lo, hi)
    decreases hi - lo
  {
    if lo < hi { SecondsSame(h, r, s, lo, hi - 1); }
  }

  // ----- what the code adds -----

  /** The history as `pm_prune_history` leaves it. */
  predicate Recent(h: seq<Node>, ref: nat) {
    Ordered(h) && forall i :: 1 <= i < |h| ==> h[i].time >= ref
  }

  /** Every node but the last is credited exactly its seconds inside the window. */
  lemma {:induction false} CreditedBeforeLast(h: seq<Node>, s: int, k: nat, now: nat, ref: nat)
    requires Recent(h, ref) && k < |h|
    ensures Credited(h, s, k, now, ref) == SecondsIn(h[..k], s, ref, Max(h[k].time, ref))
    decreases k
  {
    if k == 0 {
      assert h[..0] == [];
      SecondsOfNothing(s, ref, Max(h[0].time, ref));
    } else {
      CreditedBeforeLast(h, s, k - 1, now, ref);
      var g := h[..k];
      assert g[..k - 1] == h[..k - 1] && Last(g) == h[k - 1];
      SecondsByLast(g, s, ref, h[k].time);
    }
  }

  lemma CreditedIsSecondsPlus(h: seq<Node>, s: int, now: nat, ref: nat)
    requires Recent(h, ref) && h != [] && Last(h).time <= now && ref <= now
    ensures Credited(h, s, |h|, now, ref) ==
      SecondsIn(h, s, ref, now) + (if Last(h).state == s then Max(Last(h).time, ref) - ref else 0)
  {
    var k := |h| - 1;
    CreditedBeforeLast(h, s, k, now, ref);
    SecondsByLast(h, s, ref, now);
  }

  // ----- what is reported for a whole history -----

  /** The clock and the window length fit their C types, and the clock has not run backwards. */
  predicate Timely(h: seq<Node>, now: nat, duration: nat) {
    Ordered(h) && h != [] && Last(h).time <= now < WRAP && 0 < duration < DURATION_LIMIT
  }

  /** The total reported for state `s`: prune, then add up, both with the unsigned cutoff. */
  function Reported(h: seq<Node>, s: int, now: nat, duration: nat): int {
    var ref := Cutoff(now, duration);
    var r := Pruned(h, ref);
    Credited(r, s, |r|, now, ref)
  }

  /** While the clock is below one window the cutoff wraps around: only the last node survives, and
      it is credited the distance to the wrapped cutoff. */
  lemma ReportedEarly(h: seq<Node>, s: int, now: nat, duration: nat)
    requires Timely(h, now, duration) && now < duration
    ensures Reported(h, s, now, duration) == if Last(h).state == s then WRAP - duration else 0
  {
    var ref := Cutoff(now, duration);
    assert ref == now - duration + WRAP;
    PrunedToLast(h, ref);
    assert Credited([Last(h)], s, 0, now, ref) == 0;
  }

  /** What each total says.  From one window on it is the number of seconds in that state plus, for
      the state of the last node, the part of the window before the last change; before that the
      state of the last node is credited 2^32 minus the window and the others nothing. */
  lemma ReportedMeans(h: seq<Node>, s: int, now: nat, duration: nat)
    requires Timely(h, now, duration)
    ensures Reported(h, s, now, duration) ==
      if now < duration then if Last(h).state == s then WRAP - duration else 0
      else var ref := now - duration;
        SecondsIn(h, s, ref, now) + (if Last(h).state == s then Max(Last(h).time, ref) - ref else 0)
  {
    if now < duration {
      ReportedEarly(h, s, now, duration);
    } else {
      var ref := Cutoff(now, duration);
      assert ref == now - duration;
      PrunedMeans(h, ref);
      CreditedIsSecondsPlus(Pruned(h, ref), s, now, ref);
      SecondsSame(h, Pruned(h, ref), s, ref, now);
    }
  }

  lemma {:induction false} SecondsBounded(h: seq<Node>, s: int, lo: int, hi: int)
    requires lo <= hi
    ensures 0 <= SecondsIn(h, s, lo, hi) <= hi - lo
    decreases hi - lo
  {
    if lo < hi { SecondsBounded(h, s, lo, hi - 1); }
  }

  ghost predicate ReportsSeconds(h: seq<Node>, now: nat, duration: nat) {
    forall s: int :: Reported(h, s, now, duration) == SecondsIn(h, s, WindowStart(now, duration), now)
  }

  /** The totals are right for every state exactly when the clock has run for one window and the last
      change is not inside it. */
  lemma MetricsExactIff(h: seq<Node>, now: nat, duration: nat)
    requires Timely(h, now, duration)
    ensures ReportsSeconds(h, now, duration) <==> now >= duration && Last(h).time <= now - duration
  {
    forall s: int { ReportedMeans(h, s, now, duration); }
    var s := Last(h).state;
    ReportedMeans(h, s, now, duration);
    if now < duration {
      SecondsBounded(h, s, 0, now);
      assert Reported(h, s, now, duration) != SecondsIn(h, s, WindowStart(now, duration), now);
    } else if Last(h).time > now - duration {
      assert Reported(h, s, now, duration) != SecondsIn(h, s, WindowStart(now, duration), now);
    }
  }

  // ----- the sum over all states -----

  predicate KnownStates(h: seq<Node>) {
    forall i :: 0 <= i < |h| ==> 0 <= h[i].state < STATES
  }

  function Total(h: seq<Node>, k: nat, now: nat, ref: nat): int
    requires k <= |h|
  {
    Credited(h, 0, k, now, ref) + Credited(h, 1, k, now, ref) +
    Credited(h, 2, k, now, ref) + Credited(h, 3, k, now, ref)
  }

  /** The times added before the last node telescope. */
  lemma {:induction false} TotalTelescopes(h: seq<Node>, k: nat, now: nat, ref: nat)
    requires Recent(h, ref) && KnownStates(h) && k < |h|
    ensures Total(h, k, now, ref) == Max(h[k].time, ref) - Max(h[0].time, ref)
    decreases k
  {
    if k > 0 { TotalTelescopes(h, k - 1, now, ref); }
  }

  lemma {:induction false} PrunedFirst(h: seq<Node>, cutoff: nat)
    requires h != []
    requires Ordered(h)
    ensures Pruned(h, cutoff) != [] && Max(Pruned(h, cutoff)[0].time, cutoff) == Max(h[0].time, cutoff)
    decreases |h|
  {
    if |h| >= 2 && h[1].time < cutoff { PrunedFirst(h[1..], cutoff); }
  }

  function ReportedTotal(h: seq<Node>, now: nat, duration: nat): int {
    Reported(h, 0, now, duration) + Reported(h, 1, now, duration) +
    Reported(h, 2, now, duration) + Reported(h, 3, now, duration)
  }

  lemma TotalEarly(h: seq<Node>, now: nat, duration: nat)
    requires Timely(h, now, duration) && 0 <= Last(h).state < STATES && now < duration
    ensures ReportedTotal(h, now, duration) == WRAP - duration
  {
    ReportedEarly(h, 0, now, duration);
    ReportedEarly(h, 1, now, duration);
    ReportedEarly(h, 2, now, duration);
    ReportedEarly(h, 3, now, duration);
  }

  lemma LastAdded(r: seq<Node>, now: nat, ref: nat)
    requires r != [] && 0 <= Last(r).state < STATES
    ensures Total(r, |r|, now, ref) == Total(r, |r| - 1, now, ref) + TimeDiff(now, ref)
  {
  }

  lemma TotalOfRecent(r: seq<Node>, now: nat, ref: nat)
    requires Recent(r, ref) && r != [] && KnownStates(r) && ref <= now
    ensures Total(r, |r|, now, ref) == now - ref + Max(Last(r).time, ref) - Max(r[0].time, ref)
  {
    TotalTelescopes(r, |r| - 1, now, ref);
    LastAdded(r, now, ref);
  }

  /** All four totals together: the window plus everything in it between the first and the last
      change, or, with a clock below one window, 2^32 minus the window. */
  lemma TotalOfMetrics(h: seq<Node>, now: nat, duration: nat)
    requires Timely(h, now, duration) && KnownStates(h)
    ensures ReportedTotal(h, now, duration) ==
      if now < duration then WRAP - duration
      else var ref := now - duration; duration + Max(Last(h).time, ref) - Max(h[0].time, ref)
  {
    if now < duration {
      TotalEarly(h, now, duration);
    } else {
      var ref := Cutoff(now, duration);
      assert ref == now - duration;
      PrunedMeans(h, ref);
      PrunedFirst(h, ref);
      TotalOfRecent(Pruned(h, ref), now, ref);
      assert ReportedTotal(h, now, duration) == Total(Pruned(h, ref), |Pruned(h, ref)|, now, ref);
    }
  }
}
