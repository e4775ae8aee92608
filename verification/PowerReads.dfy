/** `pm_get_domainmetrics` reads the clock for its window, and `pm_prune_history` reads it again: what
    a tick in between does to the totals.
 */
module PowerReads {
  import opened Basics
  import opened PowerHistory
  import opened PowerMetrics

  /** The total of state `s` when the window is taken at `now` and the history is pruned at `later`. */
  function ReportedTwice(h: seq<Node>, s: int, now: nat, later: nat, duration: nat): int {
    var r := Pruned(h, Cutoff(later, duration));
    Credited(r, s, |r|, now, Cutoff(now, duration))
  }

  lemma PruneKeepsKnown(h: seq<Node>, cut: nat)
    requires Ordered(h) && h != [] && KnownStates(h)
    ensures var r := Pruned(h, cut); r != [] && Ordered(r) && KnownStates(r) && Last(r) == Last(h)
  {
    PrunedShape(h, cut);
    var r := Pruned(h, cut);
    forall i | 0 <= i < |r| ensures r[i] == h[|h| - |r| + i] {
    }
  }

  /** The first time the second pruning keeps. */
  function Start(h: seq<Node>, later: nat, duration: nat): nat
    requires Ordered(h) && h != []
  {
    PrunedShape(h, Cutoff(later, duration));
    Pruned(h, Cutoff(later, duration))[0].time
  }

  /** The error this makes: seconds of the window that were pruned too early or, if the second read is
      the first one past a whole window, seconds that should not have been kept. */
  function Drift(h: seq<Node>, s: int, now: nat, later: nat, duration: nat): int
    requires Ordered(h) && h != []
  {
    var start := Start(h, later, duration);
    if now >= duration then -SecondsIn(h, s, now - duration, Max(start, now - duration))
    else if later < duration then 0
    else SecondsIn(h, s, start, Last(h).time)
  }

  // ----- suffixes of a history -----

  lemma PrunedShape(h: seq<Node>, cut: nat)
    requires Ordered(h) && h != []
    ensures var r := Pruned(h, cut);
      && r != [] && |r| <= |h| && r == h[|h| - |r|..] && Ordered(r)
      && Last(r) == Last(h) && h[0].time <= r[0].time <= Last(h).time
  {
    PrunedMeans(h, cut);
    var r := Pruned(h, cut);
    assert r[0] == h[|h| - |r|];
  }

  lemma {:induction false} SuffixSame(h: seq<Node>, k: nat, t: int)
    requires Ordered(h) && k < |h| && h[k].time <= t
    ensures StateAt(h[k..], t) == StateAt(h, t)
    decreases k
  {
    if k > 0 {
      assert h[1].time <= h[k].time;
      DropFirst(h, t);
      SuffixSame(h[1..], k - 1, t);
      assert h[1..][k - 1..] == h[k..];
    } else {
      assert h[0..] == h;
    }
  }

  lemma {:induction false} NothingBefore(h: seq<Node>, s: int, lo: int, hi: int)
    requires h != [] && Ordered(h) && hi <= h[0].time
    ensures SecondsIn(h, s, lo, hi) == 0
    decreases hi - lo
  {
    if lo < hi {
      BeforeFirst(h, hi - 1);
      NothingBefore(h, s, lo, hi - 1);
    }
  }

  /** The pruned history counts the same seconds from its first node on, and none before. */
  lemma SuffixSeconds(h: seq<Node>, r: seq<Node>, s: int, lo: int, hi: int)
    requires Ordered(h) && r != [] && |r| <= |h| && r == h[|h| - |r|..] && lo <= hi && r[0].time <= hi
    ensures SecondsIn(r, s, lo, hi) == SecondsIn(h, s, Max(r[0].time, lo), hi)
  {
    var mid := Max(r[0].time, lo);
    SecondsSplit(r, s, lo, mid, hi);
    NothingBefore(r, s, lo, if mid == lo then r[0].time else mid);
    forall t: int | t >= mid ensures StateAt(r, t) == StateAt(h, t) { SuffixSame(h, |h| - |r|, t); }
    SecondsSame(h, r, s, mid, hi);
  }

  // ----- the error -----

  /** Credited from the second pruning: the seconds from its first node on, and the last node's share. */
  lemma CreditedLate(h: seq<Node>, r: seq<Node>, s: int, now: nat, ref: nat, cut: nat)
    requires Ordered(h) && h != [] && r == Pruned(h, cut) && Last(h).time <= now && ref <= now && ref <= cut
    ensures r != [] && r[0].time <= now
    ensures Credited(r, s, |r|, now, ref) ==
      SecondsIn(h, s, Max(r[0].time, ref), now) + (if Last(h).state == s then Max(Last(h).time, ref) - ref else 0)
  {
    PrunedMeans(h, cut);
    CreditedIsSecondsPlus(r, s, now, ref);
    SuffixSeconds(h, r, s, ref, now);
  }

  lemma LateWindow(h: seq<Node>, s: int, now: nat, later: nat, duration: nat)
    requires Timely(h, now, duration) && duration <= now <= later < WRAP
    ensures ReportedTwice(h, s, now, later, duration) ==
      Reported(h, s, now, duration) + Drift(h, s, now, later, duration)
  {
    var ref, cut := now - duration, later - duration;
    CutoffIs(now, duration);
    CutoffIs(later, duration);
    CreditedLate(h, Pruned(h, cut), s, now, ref, cut);
    CreditedLate(h, Pruned(h, ref), s, now, ref, ref);
    PrunedFirst(h, ref);
    DriftIsMissing(h, s, ref, cut, now);
  }

  /** The seconds from the first node kept, and those that only pruning at the reference keeps. */
  lemma DriftIsMissing(h: seq<Node>, s: int, ref: nat, cut: nat, now: nat)
    requires Ordered(h) && h != [] && ref <= cut && ref <= now && Last(h).time <= now
    ensures Pruned(h, cut) != [] && Pruned(h, ref) != []
    ensures SecondsIn(h, s, Max(Pruned(h, cut)[0].time, ref), now) ==
      SecondsIn(h, s, Max(Pruned(h, ref)[0].time, ref), now) -
      SecondsIn(h, s, ref, Max(Pruned(h, cut)[0].time, ref))
  {
    PrunedShape(h, cut);
    PrunedFirst(h, ref);
    var late, early := Max(Pruned(h, cut)[0].time, ref), Max(h[0].time, ref);
    SecondsSplit(h, s, ref, late, now);
    SecondsSplit(h, s, ref, early, now);
    if early > ref { NothingBefore(h, s, ref, early); }
  }

  /** With every time below the reference, the nodes before the last are credited their distances. */
  lemma {:induction false} CreditedFromFirst(r: seq<Node>, s: int, k: nat, now: nat, ref: nat)
    requires Ordered(r) && k < |r| && Last(r).time < ref
    ensures Credited(r, s, k, now, ref) == Credited(r, s, k, now, r[0].time)
    decreases k
  {
    if k > 0 {
      CreditedFromFirst(r, s, k - 1, now, ref);
      assert r[0].time <= r[k - 1].time <= r[k].time <= Last(r).time;
    }
  }

  lemma CreditedEarly(r: seq<Node>, s: int, now: nat, ref: nat)
    requires Ordered(r) && r != [] && Last(r).time < ref
    ensures Credited(r, s, |r|, now, ref) ==
      SecondsIn(r, s, r[0].time, Last(r).time) + (if Last(r).state == s then TimeDiff(now, ref) else 0)
  {
    var k := |r| - 1;
    CreditedFromFirst(r, s, k, now, ref);
    CreditedBeforeLast(r, s, k, now, r[0].time);
    SecondsByLast(r, s, r[0].time, Last(r).time);
  }

  lemma EarlySeconds(h: seq<Node>, r: seq<Node>, s: int, now: nat, ref: nat, cut: nat)
    requires Ordered(h) && h != [] && r == Pruned(h, cut) && Last(h).time < ref
    ensures r != []
    ensures Credited(r, s, |r|, now, ref) ==
      SecondsIn(h, s, r[0].time, Last(h).time) + (if Last(h).state == s then TimeDiff(now, ref) else 0)
  {
    PrunedShape(h, cut);
    CreditedEarly(r, s, now, ref);
    SuffixSeconds(h, r, s, r[0].time, Last(r).time);
  }

  lemma EarlyWindow(h: seq<Node>, s: int, now: nat, later: nat, duration: nat)
    requires Timely(h, now, duration) && now < duration <= later < WRAP
    ensures ReportedTwice(h, s, now, later, duration) ==
      Reported(h, s, now, duration) + Drift(h, s, now, later, duration)
  {
    CutoffIs(now, duration);
    CutoffIs(later, duration);
    var r := Pruned(h, later - duration);
    EarlySeconds(h, r, s, now, now - duration + WRAP, later - duration);
    ReportedEarly(h, s, now, duration);
  }

  /** What a second reading of the clock does to each total. */
  lemma TwoReads(h: seq<Node>, s: int, now: nat, later: nat, duration: nat)
    requires Timely(h, now, duration) && now <= later < WRAP
    ensures ReportedTwice(h, s, now, later, duration) ==
      Reported(h, s, now, duration) + Drift(h, s, now, later, duration)
  {
    if duration <= now {
      LateWindow(h, s, now, later, duration);
    } else if duration <= later {
      EarlyWindow(h, s, now, later, duration);
    } else {
      PrunedToLast(h, Cutoff(now, duration));
      PrunedToLast(h, Cutoff(later, duration));
    }
  }

  /** The totals fit `time_t` whatever the two readings are, so adding up in 32 bits loses nothing. */
  lemma TotalsFit(h: seq<Node>, s: int, now: nat, later: nat, duration: nat)
    requires Timely(h, now, duration) && now <= later < WRAP
    ensures 0 <= ReportedTwice(h, s, now, later, duration) < WRAP
  {
    TwoReads(h, s, now, later, duration);
    ReportedMeans(h, s, now, duration);
    var start := Start(h, later, duration);
    PrunedShape(h, Cutoff(later, duration));
    if duration <= now {
      var ref := now - duration;
      var mid := Max(start, ref);
      SecondsSplit(h, s, ref, mid, now);
      SecondsBounded(h, s, ref, mid);
      SecondsBounded(h, s, mid, now);
    } else if duration <= later {
      SecondsBounded(h, s, start, Last(h).time);
    }
  }

  // ----- when it makes none -----

  /** Change `j` lies after `lo` and before the second cutoff. */
  predicate Between(h: seq<Node>, j: nat, lo: int, cut: int) {
    1 <= j < |h| && lo < h[j].time < cut
  }

  ghost predicate NoneBetween(h: seq<Node>, lo: int, cut: int) {
    forall j: nat :: !Between(h, j, lo, cut)
  }

  lemma BetweenNext(h: seq<Node>, lo: int, cut: int)
    requires |h| >= 2 && h[1].time <= lo
    ensures NoneBetween(h[1..], lo, cut) <==> NoneBetween(h, lo, cut)
  {
    if j: nat :| Between(h[1..], j, lo, cut) { assert Between(h, j + 1, lo, cut); }
    if j: nat :| Between(h, j, lo, cut) { assert Between(h[1..], j - 1, lo, cut); }
  }

  lemma {:induction false} StartIsLateIff(h: seq<Node>, cut: nat, lo: int)
    requires Ordered(h) && h != [] && h[0].time <= lo
    ensures Pruned(h, cut) != [] && (Pruned(h, cut)[0].time > lo <==> !NoneBetween(h, lo, cut))
    decreases |h|
  {
    if |h| >= 2 && h[1].time < cut {
      if h[1].time <= lo {
        StartIsLateIff(h[1..], cut, lo);
        BetweenNext(h, lo, cut);
      } else {
        assert Between(h, 1, lo, cut);
        PrunedShape(h[1..], cut);
      }
    }
  }

  lemma {:induction false} SecondCounts(h: seq<Node>, s: int, lo: int, hi: int, t: int)
    requires lo <= t < hi && StateAt(h, t) == Some(s)
    ensures SecondsIn(h, s, lo, hi) > 0
    decreases hi - lo
  {
    SecondsBounded(h, s, lo, hi - 1);
    if t < hi - 1 { SecondCounts(h, s, lo, hi - 1, t); }
  }

  ghost predicate NoDrift(h: seq<Node>, now: nat, later: nat, duration: nat)
    requires Ordered(h) && h != []
  {
    forall s: int :: Drift(h, s, now, later, duration) == 0
  }

  /** No change after the first is pruned by the second reading that counts at the first, and the
      second reading is not the one that completes a window. */
  ghost predicate Steady(h: seq<Node>, now: nat, later: nat, duration: nat)
    requires h != []
  {
    if now >= duration then NoneBetween(h, Max(h[0].time, now - duration), later - duration)
    else
      later < duration || Last(h).time < later - duration || h[0].time == Last(h).time
  }

  /** Some state is in force at second `t`, so an interval with `t` in it counts for that state. */
  lemma SomeStateCounts(h: seq<Node>, lo: int, hi: int, t: int) returns (s: int)
    requires h != [] && h[0].time <= t && lo <= t < hi
    ensures SecondsIn(h, s, lo, hi) > 0
  {
    FromFirst(h, t);
    s := StateAt(h, t).value;
    SecondCounts(h, s, lo, hi, t);
  }

  lemma LateDriftIff(h: seq<Node>, now: nat, later: nat, duration: nat)
    requires Timely(h, now, duration) && duration <= now <= later < WRAP
    ensures NoDrift(h, now, later, duration) <==> Steady(h, now, later, duration)
  {
    var ref, cut, start := now - duration, later - duration, Start(h, later, duration);
    var lo := Max(h[0].time, ref);
    CutoffIs(later, duration);
    StartIsLateIff(h, cut, lo);
    if start > lo {
      var s := SomeStateCounts(h, ref, Max(start, ref), lo);
      assert Drift(h, s, now, later, duration) != 0;
    } else {
      forall s: int ensures Drift(h, s, now, later, duration) == 0 {
        if start > ref { NothingBefore(h, s, ref, start); }
      }
    }
  }

  lemma OnlyLastKept(h: seq<Node>, cut: nat)
    requires Ordered(h) && h != [] && Last(h).time < cut
    ensures Pruned(h, cut) == [Last(h)]
  {
    var k := |h| - 1;
    forall i | 0 <= i < |h| ensures h[i].time < cut {
      assert i < k ==> h[i].time <= h[k].time;
    }
    PrunedToLast(h, cut);
  }

  /** Pruning keeps a single second exactly when it keeps only the last one, or there is no other. */
  lemma StartIsLastIff(h: seq<Node>, cut: nat)
    requires Ordered(h) && h != []
    ensures Pruned(h, cut) != []
    ensures Pruned(h, cut)[0].time == Last(h).time <==> Last(h).time < cut || h[0].time == Last(h).time
  {
    PrunedShape(h, cut);
    if Last(h).time < cut { OnlyLastKept(h, cut); } else { StartIsOld(h, cut); }
  }

  lemma {:induction false} StartIsOld(h: seq<Node>, cut: nat)
    requires Ordered(h) && h != []
    ensures Pruned(h, cut) != [] && (Pruned(h, cut)[0] == h[0] || Pruned(h, cut)[0].time < cut)
    decreases |h|
  {
    if |h| >= 2 && h[1].time < cut { StartIsOld(h[1..], cut); }
  }

  lemma EarlyDriftIff(h: seq<Node>, now: nat, later: nat, duration: nat)
    requires Timely(h, now, duration) && now < duration <= later < WRAP
    ensures NoDrift(h, now, later, duration) <==> Steady(h, now, later, duration)
  {
    var cut, start := later - duration, Start(h, later, duration);
    CutoffIs(later, duration);
    PrunedShape(h, cut);
    StartIsLastIff(h, cut);
    if start < Last(h).time {
      var s := SomeStateCounts(h, start, Last(h).time, start);
      assert Drift(h, s, now, later, duration) != 0;
    }
  }

  /** The second reading changes no total exactly when the history is steady between the two. */
  lemma NoDriftIff(h: seq<Node>, now: nat, later: nat, duration: nat)
    requires Timely(h, now, duration) && now <= later < WRAP
    ensures NoDrift(h, now, later, duration) <==> Steady(h, now, later, duration)
  {
    if duration <= now {
      LateDriftIff(h, now, later, duration);
    } else if duration <= later {
      EarlyDriftIff(h, now, later, duration);
    }
  }
}
