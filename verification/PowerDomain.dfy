/** `struct pm_domain_s` and the code that updates it: activity, averaging, recommendation, state
    changes, history and metrics. */
module PowerDomain {
  import opened Basics
  import opened PowerChange
  import opened PowerFilter
  import opened PowerGovernor
  import opened PowerHistory
  import opened PowerMetrics
  import opened PowerReads
  import opened PowerStates

  const TICK_WRAP := 0x1_0000_0000

  /** The slot `i` places after `start` in a ring of `n`. */
  function Slot(start: nat, i: nat, n: nat): (j: nat)
    requires start < n && i < n
    ensures j < n
  {
    if start + i < n then start + i else start + i - n
  }

  class Domain {
    const registry: seq<Driver>
    const weights: Weights
    const limits: Limits
    const sliceTicks: nat
    const duration: nat
    var state: nat
    var recommended: nat
    var thrcnt: nat
    const memory: array<int>
    var mndx: nat
    var mcnt: nat
    var accum: int
    var stime: nat
    var history: seq<Node>
    var log: seq<Call>           // every callback made so far
    ghost var window: seq<int>   // the ring's contents, oldest first

    ghost predicate RingHolds()
      reads this, memory
    {
      var n := memory.Length;
      && |window| == mcnt <= n == |weights.past|
      && (n == 0 ==> mndx == 0)
      && (n > 0 ==> mndx < n)
      && (mcnt < n ==> mndx == 0 && memory[..mcnt] == window)
      && (mcnt == n ==> forall i :: 0 <= i < n ==> memory[Slot(mndx, i, n)] == window[i])
    }

    /** The last history node always records the domain's state. */
    ghost predicate Recorded()
      reads this
    {
      && 0 < duration < DURATION_LIMIT
      && history != [] && Ordered(history) && KnownStates(history) && Last(history).state == state
    }

    ghost predicate Valid()
      reads this, memory
    {
      && Usable(weights) && Configured(limits)
      && RingHolds() && Within(0, INT16_MAX, window)
      && InRange(Control(state, recommended, thrcnt))
      && 0 <= accum <= INT16_MAX && stime < TICK_WRAP
      && Recorded()
    }

    /** The clock has not run backwards. */
    ghost predicate At(now: nat)
      reads this
    {
      history != [] && Last(history).time <= now < WRAP
    }

    /** `pm_initialize`, with the drivers that later register. */
    constructor (registry: seq<Driver>, weights: Weights, limits: Limits, sliceTicks: nat, duration: nat, now: nat)
      requires Usable(weights) && Configured(limits) && 0 < duration < DURATION_LIMIT && now < WRAP
      ensures Valid() && At(now) && window == [] && state == recommended == PM_NORMAL && thrcnt == 0 && accum == 0
      ensures history == [Node(PM_NORMAL, now)] && log == []
      ensures this.weights == weights && this.limits == limits && this.registry == registry && this.duration == duration
      ensures fresh(memory)
    {
      this.registry, this.weights, this.limits := registry, weights, limits;
      this.sliceTicks, this.duration := sliceTicks, duration;
      memory := new int[|weights.past|];
      state, recommended, thrcnt, mndx, mcnt, accum, stime := PM_NORMAL, PM_NORMAL, 0, 0, 0, 0, 0;
      history, log := [Node(PM_NORMAL, now)], [];
      window := [];
    }

    // ----- state changes -----

    /** `pm_prepall`. */
    method PrepAll(newstate: int, ask: Answers) returns (ret: int)
      modifies this`log
      ensures ret == PrepareResult(registry, 0, ask)
      ensures log == old(log) + PrepareCalls(registry, 0, newstate, ask)
    {
      ret := 0;
      var i := 0;
      while i < |registry| && ret == 0
        invariant i <= |registry|
        invariant ret == 0 ==> PrepareResult(registry, i, ask) == PrepareResult(registry, 0, ask)
        invariant ret == 0 ==>
          log + PrepareCalls(registry, i, newstate, ask) == old(log) + PrepareCalls(registry, 0, newstate, ask)
        invariant ret != 0 ==> ret == PrepareResult(registry, 0, ask)
        invariant ret != 0 ==> log == old(log) + PrepareCalls(registry, 0, newstate, ask)
      {
        if registry[i].hasPrepare {
          ghost var before := log;
          log := log + [Prepare(i, newstate)];
          ret := ask(i);
          assert before + ([Prepare(i, newstate)] + PrepareCalls(registry, i + 1, newstate, ask))
              == log + PrepareCalls(registry, i + 1, newstate, ask);
        }
        i := i + 1;
      }
    }

    /** `pm_changeall`. */
    method ChangeAll(newstate: int)
      modifies this`log
      ensures log == old(log) + NotifyCalls(registry, 0, newstate)
    {
      var i := 0;
      while i < |registry|
        invariant i <= |registry|
        invariant log + NotifyCalls(registry, i, newstate) == old(log) + NotifyCalls(registry, 0, newstate)
      {
        ghost var before := log;
        if registry[i].hasNotify {
          log := log + [Notify(i, newstate)];
          assert before + ([Notify(i, newstate)] + NotifyCalls(registry, i + 1, newstate))
              == log + NotifyCalls(registry, i + 1, newstate);
        } else {
          assert before + ([] + NotifyCalls(registry, i + 1, newstate)) == log + NotifyCalls(registry, i + 1, newstate);
        }
        i := i + 1;
      }
    }

    /** `pm_prune_history`. */
    method PruneHistory(now: nat)
      modifies this`history
      ensures history == Pruned(old(history), Cutoff(now, duration))
    {
      while |history| >= 2 && history[1].time < Cutoff(now, duration)
        invariant Pruned(history, Cutoff(now, duration)) == Pruned(old(history), Cutoff(now, duration))
        decreases |history|
      {
        history := history[1..];
      }
    }

    /** `pm_changestate`: all or nothing.  `ask` answers the first round, `again` the round that
        reverts after a refusal.  The new node is stamped `now`, the history pruned at `later`. */
    method ChangeState(newstate: nat, now: nat, later: nat, ask: Answers, again: Answers) returns (ret: int)
      requires Valid() && At(now) && now <= later < WRAP && newstate <= PM_SLEEP
      modifies this`state, this`history, this`log
      ensures Valid() && At(later)
      ensures ret == 0 <==> forall j :: 0 <= j < |registry| ==> Accepts(registry, j, ask)
      ensures ret == PrepareResult(registry, 0, ask)
      ensures state == if ret == 0 then newstate else old(state)
      ensures log == old(log) + (PrepareCalls(registry, 0, newstate, ask)
                   + (if ret == 0 then [] else PrepareCalls(registry, 0, state, again))
                   + NotifyCalls(registry, 0, state))
      ensures forall d: nat, t: int :: d < |registry| ==>
        Notices(log, d, t) == old(Notices(log, d, t)) + (if registry[d].hasNotify && t == state then 1 else 0)
      ensures history == if ret == 0
        then Pruned(old(history), Cutoff(later, duration)) + [Node(newstate, now)]
        else old(history)
    {
      PrepareResultIff(registry, 0, ask);
      var target;
      ret, target := Announce(newstate, ask, again);
      if ret == 0 {
        RecordChange(newstate, now, later);
      }
      ChangeAll(target);
      state := target;
      LogIsChange(old(log), newstate, target, ret == 0, ask, again);
    }

    /** Both prepare rounds: `target` is the state the drivers are then notified of. */
    method Announce(newstate: nat, ask: Answers, again: Answers) returns (ret: int, target: nat)
      modifies this`log
      ensures ret == PrepareResult(registry, 0, ask) && target == if ret == 0 then newstate else state
      ensures log == old(log) + PrepareCalls(registry, 0, newstate, ask)
                   + (if ret == 0 then [] else PrepareCalls(registry, 0, target, again))
    {
      target := newstate;
      ret := PrepAll(newstate, ask);
      if ret != 0 {
        target := state;
        var _ := PrepAll(target, again);
      }
    }

    lemma LogIsChange(before: seq<Call>, newstate: int, target: int, accepted: bool, ask: Answers, again: Answers)
      requires log == before + PrepareCalls(registry, 0, newstate, ask)
                    + (if accepted then [] else PrepareCalls(registry, 0, target, again))
                    + NotifyCalls(registry, 0, target)
      ensures log == before + (PrepareCalls(registry, 0, newstate, ask)
                    + (if accepted then [] else PrepareCalls(registry, 0, target, again))
                    + NotifyCalls(registry, 0, target))
      ensures forall d: nat, t: int :: d < |registry| ==>
        Notices(log, d, t) == Notices(before, d, t) + (if registry[d].hasNotify && t == target then 1 else 0)
    {
      var first := PrepareCalls(registry, 0, newstate, ask);
      var second := if accepted then [] else PrepareCalls(registry, 0, target, again);
      Regroup(before, first, second);
      Regroup(before, first + second, NotifyCalls(registry, 0, target));
      ChangeLogged(before, registry, newstate, target, accepted, ask, again, log);
    }

    /** Prune, then append a node for the accepted change. */
    method RecordChange(newstate: int, now: nat, later: nat)
      requires history != [] && Ordered(history) && KnownStates(history) && Last(history).time <= now
      requires 0 <= newstate < STATES
      modifies this`history
      ensures history == Pruned(old(history), Cutoff(later, duration)) + [Node(newstate, now)]
      ensures Ordered(history) && KnownStates(history) && Last(history) == Node(newstate, now)
    {
      PruneKeepsKnown(history, Cutoff(later, duration));
      PruneHistory(later);
      history := history + [Node(newstate, now)];
    }

    // ----- metrics -----

    /** `pm_get_domainmetrics`: the four totals, in terms of the history before pruning.  The window is
        taken at `now`, the history pruned at `later`. */
    method GetDomainMetrics(now: nat, later: nat) returns (totals: seq<int>)
      requires Valid() && At(now) && now <= later < WRAP
      modifies this`history
      ensures Valid() && At(later) && history == Pruned(old(history), Cutoff(later, duration)) && |totals| == STATES
      ensures forall s :: 0 <= s < STATES ==>
        totals[s] == Reported(old(history), s, now, duration) + Drift(old(history), s, now, later, duration)
      ensures Steady(old(history), now, later, duration) ==> Exact(totals, old(history), now)
    {
      ghost var h := history;
      var ref := Cutoff(now, duration);
      PruneKeepsKnown(history, Cutoff(later, duration));
      PruneHistory(later);
      totals := SumTotals(now, ref);
      forall s: int { TwoReads(h, s, now, later, duration); }
      NoDriftIff(h, now, later, duration);
      if Steady(h, now, later, duration) { TotalsAreExact(totals, h, now); }
    }

    /** The totals and their sum when both readings of the clock agree on what counts. */
    ghost predicate Exact(totals: seq<int>, h: seq<Node>, now: nat)
      requires |totals| == STATES && h != []
    {
      && (now < duration ==> forall s :: 0 <= s < STATES ==>
            totals[s] == if s == Last(h).state then WRAP - duration else 0)
      && (now >= duration ==> forall s :: 0 <= s < STATES ==>
            var ref := now - duration;
            totals[s] == SecondsIn(h, s, ref, now) + (if s == Last(h).state then Max(Last(h).time, ref) - ref else 0))
      && totals[0] + totals[1] + totals[2] + totals[3] ==
           if now < duration then WRAP - duration
           else var ref := now - duration; duration + Max(Last(h).time, ref) - Max(h[0].time, ref)
    }

    lemma TotalsAreExact(totals: seq<int>, h: seq<Node>, now: nat)
      requires |totals| == STATES && Timely(h, now, duration) && KnownStates(h)
      requires forall s :: 0 <= s < STATES ==> totals[s] == Reported(h, s, now, duration)
      ensures Exact(totals, h, now)
    {
      forall s: int { ReportedMeans(h, s, now, duration); }
      TotalOfMetrics(h, now, duration);
    }

    /** The loop over the history nodes. */
    method SumTotals(now: nat, ref: nat) returns (totals: seq<int>)
      requires history != []
      ensures |totals| == STATES
      ensures forall s :: 0 <= s < STATES ==> totals[s] == Credited(history, s, |history|, now, ref)
    {
      totals := [0, 0, 0, 0];
      var isfirst := true;
      var i := 0;
      while i < |history|
        invariant i <= |history| && |totals| == STATES && (i < |history| ==> isfirst)
        invariant forall s :: 0 <= s < STATES ==> totals[s] == Credited(history, s, i, now, ref)
      {
        var timetoadd;
        // the branch for a last node with isfirst cleared is never reached
        if isfirst && i == |history| - 1 {
          timetoadd := TimeDiff(now, ref);
          isfirst := false;
        } else if ref >= history[i].time && history[i + 1].time >= ref {
          timetoadd := history[i + 1].time - ref;
        } else {
          timetoadd := history[i + 1].time - history[i].time;
        }
        var s := history[i].state;
        if 0 <= s < STATES {
          totals := totals[s := totals[s] + timetoadd];
        }
        i := i + 1;
      }
    }

    // ----- activity and recommendation -----

    /** The summing loop of `pm_worker`, and the division after it. */
    method WeightedAverage(sample: int) returns (y: int)
      requires Valid() && mcnt == memory.Length > 0 && 0 <= sample <= INT16_MAX
      ensures weights.now + SumOf(weights.past) > 0
      ensures y == Average(weights, window, sample) && 0 <= y <= INT16_MAX
      ensures var d, sum := weights.now + SumOf(weights.past), weights.now * sample + Dot(weights.past, window);
        d * y <= sum < d * (y + 1)
    {
      AverageIsQuotient(weights, window, sample);
      AverageBetween(weights, window, sample, 0, INT16_MAX);
      var n := memory.Length;
      y := weights.now * sample;
      var denom := weights.now;
      var i, j := 0, mndx;
      while i < n
        invariant 0 <= i <= n
        invariant j == if mndx + i <= n then mndx + i else mndx + i - n
        invariant y == weights.now * sample + Dot(weights.past[..i], window[..i])
        invariant denom == weights.now + SumOf(weights.past[..i])
      {
        if j >= n {
          j := 0;
        }
        assert j == Slot(mndx, i, n);
        assert weights.past[..i + 1][..i] == weights.past[..i] && window[..i + 1][..i] == window[..i];
        y := y + weights.past[i] * memory[j];
        denom := denom + weights.past[i];
        i, j := i + 1, j + 1;
      }
      assert weights.past[..n] == weights.past && window[..n] == window;
      y := TruncDiv(y, denom);
    }

    /** Replace the oldest value; the 16-bit store keeps it as it is. */
    method Store(y: int)
      requires Valid() && mcnt == memory.Length > 0 && 0 <= y <= INT16_MAX
      modifies this`mndx, this`window, memory
      ensures Valid() && window == old(window)[1..] + [y]
    {
      var n := memory.Length;
      ghost var start, was := mndx, memory[..];
      memory[mndx] := Int16(y);
      mndx := mndx + 1;
      if mndx >= n {
        mndx := 0;
      }
      window := window[1..] + [y];
      forall i | 0 <= i < n ensures memory[Slot(mndx, i, n)] == window[i] {
        if i < n - 1 {
          assert Slot(mndx, i, n) == Slot(start, i + 1, n);
        }
      }
    }

    /** The threshold half of `pm_worker`. */
    method Recommend(y: int)
      requires Valid()
      modifies this`thrcnt, this`recommended
      ensures Valid()
      ensures Control(state, recommended, thrcnt) == Assess(limits, old(Control(state, recommended, thrcnt)), y)
    {
      if state > PM_NORMAL && y > limits.exit[state - 1] {
        thrcnt := 0;
        recommended := PM_NORMAL;
        return;
      }
      if state < PM_SLEEP {
        var nextstate := state + 1;
        if y > limits.enter[state] {
          thrcnt := 0;
          recommended := state;
        } else if recommended < nextstate {
          thrcnt := (thrcnt + 1) % UINT16;
          if thrcnt >= limits.count[state] {
            thrcnt := 0;
            recommended := nextstate;
          }
        }
      }
    }

    /** `pm_worker` at the end of a time slice: the ring refines the pure filter, and the
        recommendation is assessed on its output once the window is full. */
    method Worker(sample: int)
      requires Valid() && 0 <= sample <= INT16_MAX
      modifies this`mndx, this`mcnt, this`window, this`thrcnt, this`recommended, memory
      ensures Valid() && weights.now + SumOf(weights.past) > 0
      ensures window == Absorb(weights, old(window), sample)
      ensures window ==
        if |old(window)| < |weights.past| then old(window) + [sample]
        else if weights.past == [] then []
        else old(window)[1..] + [Average(weights, old(window), sample)]
      ensures Control(state, recommended, thrcnt) ==
        if |old(window)| < |weights.past| then old(Control(state, recommended, thrcnt))
        else Assess(limits, old(Control(state, recommended, thrcnt)), Smooth(weights, old(window), sample))
      ensures weights.past == [] ==> Smooth(weights, [], sample) == sample
      ensures weights.past != [] && |old(window)| == |weights.past| ==>
        Smooth(weights, old(window), sample) == Average(weights, old(window), sample)
    {
      SumPositive(weights.past);
      var n := memory.Length;
      if n == 0 {
        Recommend(sample);
      } else if mcnt < n {
        memory[mcnt] := sample;
        mcnt := mcnt + 1;
        window := window + [sample];
        assert mcnt == n ==> forall i :: 0 <= i < n ==> memory[Slot(0, i, n)] == memory[..n][i];
      } else {
        var y := WeightedAverage(sample);
        Store(y);
        Recommend(y);
      }
    }

    /** `pm_activity`: the saturating accumulator; the sample of a finished slice goes to the worker. */
    method Activity(priority: int, now: nat) returns (sample: Option<int>)
      requires Valid() && now < TICK_WRAP
      modifies this`accum, this`stime
      ensures Valid()
      ensures priority <= 0 ==> sample == None && unchanged(this)
      ensures priority > 0 ==>
        var sum := if old(accum) + priority > INT16_MAX then INT16_MAX else old(accum) + priority;
        if (now - old(stime)) % TICK_WRAP >= sliceTicks
        then sample == Some(sum) && accum == 0 && stime == now
        else sample == None && accum == sum && stime == old(stime)
      ensures sample.Some? ==> 0 <= sample.value <= INT16_MAX
    {
      sample := None;
      if priority > 0 {
        var sum := accum + priority;
        if sum > INT16_MAX {
          sum := INT16_MAX;
        }
        accum := Int16(sum);
        if (now - stime) % TICK_WRAP >= sliceTicks {
          sample := Some(accum);
          stime := now;
          accum := 0;
        }
      }
    }
  }
}
