/** The state history of a power domain: what pruning keeps and what the metrics add up to. */
module PowerHistory {
  import opened Basics

  const WRAP := 0x1_0000_0000

  /** The length of the metrics window is a C `int`, so the cutoff is computed in `time_t`. */
  const DURATION_LIMIT := 0x8000_0000

  /** A state change and the second it happened; `time_t` is an unsigned 32-bit count. */
  datatype Node = Node(state: int, time: nat)

  predicate Ordered(h: seq<Node>) {
    forall i, j :: 0 <= i < j < |h| ==> h[i].time <= h[j].time
  }

  function Last(h: seq<Node>): Node
    requires h != []
  {
    h[|h| - 1]
  }

  /** The state in force at second `t`. */
  function StateAt(h: seq<Node>, t: int): Option<int>
    decreases |h|
  {
    if h == [] then None
    else if Last(h).time <= t then Some(Last(h).state)
    else StateAt(h[..|h| - 1], t)
  }

  // ----- pruning -----

  /** `cur_time - CONFIG_PM_METRICS_DURATION` in unsigned arithmetic. */
  function Cutoff(now: nat, duration: nat): nat {
    (now - duration) % WRAP
  }

  lemma CutoffIs(now: nat, duration: nat)
    requires now < WRAP && 0 < duration < WRAP
    ensures Cutoff(now, duration) == if now >= duration then now - duration else now - duration + WRAP
  {
  }

  function Pruned(h: seq<Node>, cutoff: nat): (r: seq<Node>)
    decreases |h|
  {
    if |h| >= 2 && h[1].time < cutoff then Pruned(h[1..], cutoff) else h
  }

  lemma {:induction false} DropFirst(h: seq<Node>, t: int)
    requires Ordered(h) && |h| >= 2 && h[1].time <= t
    ensures StateAt(h[1..], t) == StateAt(h, t)
    decreases |h|
  {
    var k := |h| - 1;
    if h[k].time > t {
      DropFirst(h[..k], t);
      assert h[1..][..k - 1] == h[..k][1..];
    }
  }

  /** Pruning keeps a non-empty tail in which no node but the first is older than the cutoff, and the
      first is if any was dropped; and it keeps the state in force at every instant from the cutoff on. */
  lemma {:induction false} PrunedMeans(h: seq<Node>, cutoff: nat)
    requires Ordered(h) && h != []
    ensures var r := Pruned(h, cutoff);
      && r != [] && |r| <= |h| && r == h[|h| - |r|..] && Ordered(r)
      && (forall i :: 1 <= i < |r| ==> r[i].time >= cutoff) && (|r| < |h| ==> r[0].time < cutoff)
      && (forall t: int :: t >= cutoff ==> StateAt(r, t) == StateAt(h, t))
    decreases |h|
  {
    if |h| >= 2 && h[1].time < cutoff {
      PrunedMeans(h[1..], cutoff);
      var r := Pruned(h, cutoff);
      assert h[|h| - |r|..] == h[1..][|h[1..]| - |r|..];
      forall t: int | t >= cutoff ensures StateAt(r, t) == StateAt(h, t) {
        DropFirst(h, t);
      }
    }
  }

  lemma {:induction false} PrunedToLast(h: seq<Node>, cutoff: nat)
    requires h != [] && forall i :: 0 <= i < |h| ==> h[i].time < cutoff
    ensures Pruned(h, cutoff) == [Last(h)]
    decreases |h|
  {
    if |h| >= 2 { PrunedToLast(h[1..], cutoff); }
  }

  lemma {:induction false} BeforeFirst(h: seq<Node>, t: int)
    requires forall i :: 0 <= i < |h| ==> t < h[i].time
    ensures StateAt(h, t) == None
    decreases |h|
  {
    if h != [] { BeforeFirst(h[..|h| - 1], t); }
  }

  lemma {:induction false} FromFirst(h: seq<Node>, t: int)
    requires h != [] && h[0].time <= t
    ensures StateAt(h, t).Some?
    decreases |h|
  {
    if Last(h).time > t { FromFirst(h[..|h| - 1], t); }
  }

  function WindowStart(now: nat, duration: nat): nat {
    if now >= duration then now - duration else 0
  }

  ghost predicate SameFrom(h: seq<Node>, r: seq<Node>, start: int) {
    forall t: int :: t >= start ==> StateAt(r, t) == StateAt(h, t)
  }

  /** Over the whole metrics window pruning preserves the history exactly when the clock has run
      for at least one window, or all changes happened in the same second: before that the cutoff
      wraps around and every node but the last is dropped. */
  lemma PruneKeepsWindowIff(h: seq<Node>, now: nat, duration: nat)
    requires Ordered(h) && h != [] && Last(h).time <= now < WRAP && 0 < duration < WRAP
    ensures SameFrom(h, Pruned(h, Cutoff(now, duration)), WindowStart(now, duration)) <==>
      now >= duration || h[0].time == Last(h).time
  {
    var cutoff := Cutoff(now, duration);
    if now >= duration {
      assert cutoff == now - duration;
      PrunedMeans(h, cutoff);
    } else {
      assert cutoff == now - duration + WRAP;
      PrunedToLast(h, cutoff);
      var r := [Last(h)];
      if h[0].time == Last(h).time {
        forall t: int | t >= 0 ensures StateAt(r, t) == StateAt(h, t) {
          if t < h[0].time { BeforeFirst(h, t); BeforeFirst(r, t); }
        }
      } else {
        var t := h[0].time;
        FromFirst(h, t);
        BeforeFirst(r, t);
        assert StateAt(r, t) != StateAt(h, t);
      }
    }
  }
}
