/** The two rounds of driver callbacks that change the state of a power domain. */
module PowerChange {

  /** Which callbacks a registered driver supplies. */
  datatype Driver = Driver(hasPrepare: bool, hasNotify: bool)

  datatype Call = Prepare(driver: nat, target: int) | Notify(driver: nat, target: int)

  /** What each driver would answer if asked; any function of the driver's position. */
  type Answers = nat -> int

  // ----- the callback rounds -----

  /** The calls of one `prepare` round from driver `i` on. */
  function PrepareCalls(ds: seq<Driver>, i: nat, target: int, ask: Answers): seq<Call>
    decreases |ds| - i
  {
    if i >= |ds| then []
    else if !ds[i].hasPrepare then PrepareCalls(ds, i + 1, target, ask)
    else if ask(i) != 0 then [Prepare(i, target)]
    else [Prepare(i, target)] + PrepareCalls(ds, i + 1, target, ask)
  }

  /** What the round returns: the first refusal, or 0. */
  function PrepareResult(ds: seq<Driver>, i: nat, ask: Answers): int
    decreases |ds| - i
  {
    if i >= |ds| then 0
    else if ds[i].hasPrepare && ask(i) != 0 then ask(i)
    else PrepareResult(ds, i + 1, ask)
  }

  function NotifyCalls(ds: seq<Driver>, i: nat, target: int): seq<Call>
    decreases |ds| - i
  {
    if i >= |ds| then []
    else (if ds[i].hasNotify then [Notify(i, target)] else []) + NotifyCalls(ds, i + 1, target)
  }

  predicate Accepts(ds: seq<Driver>, i: nat, ask: Answers)
    requires i < |ds|
  {
    ds[i].hasPrepare ==> ask(i) == 0
  }

  lemma {:induction false} PrepareResultIff(ds: seq<Driver>, i: nat, ask: Answers)
    ensures PrepareResult(ds, i, ask) == 0 <==> forall j :: i <= j < |ds| ==> Accepts(ds, j, ask)
    decreases |ds| - i
  {
    if i < |ds| {
      PrepareResultIff(ds, i + 1, ask);
      if Accepts(ds, i, ask) && PrepareResult(ds, i + 1, ask) == 0 {
        forall j | i <= j < |ds| ensures Accepts(ds, j, ask) { }
      }
    }
  }

  /** A refused round returns what the first driver that refused answered. */
  lemma {:induction false} FirstRefusal(ds: seq<Driver>, i: nat, ask: Answers, d: nat)
    requires i <= d < |ds| && !Accepts(ds, d, ask) && forall j :: i <= j < d ==> Accepts(ds, j, ask)
    ensures PrepareResult(ds, i, ask) == ask(d)
    decreases d - i
  {
    if i < d {
      assert Accepts(ds, i, ask);
      FirstRefusal(ds, i + 1, ask, d);
    }
  }

  /** A driver is asked exactly when it has the callback and no earlier driver refused. */
  lemma {:induction false} AskedIff(ds: seq<Driver>, i: nat, target: int, ask: Answers, d: nat)
    requires i <= d < |ds|
    ensures Prepare(d, target) in PrepareCalls(ds, i, target, ask) <==>
      ds[d].hasPrepare && forall j :: i <= j < d ==> Accepts(ds, j, ask)
    decreases |ds| - i
  {
    if i < d {
      AskedIff(ds, i + 1, target, ask, d);
      if Accepts(ds, i, ask) && (forall j :: i + 1 <= j < d ==> Accepts(ds, j, ask)) {
        forall j | i <= j < d ensures Accepts(ds, j, ask) { }
      }
    } else {
      LaterCalls(ds, i + 1, target, ask);
    }
  }

  /** A round's calls carry one target and go up through the registry. */
  predicate Rising(calls: seq<Call>, from: nat, n: nat, target: int) {
    && (forall k :: 0 <= k < |calls| ==> from <= calls[k].driver < n && calls[k].target == target)
    && (forall k, m :: 0 <= k < m < |calls| ==> calls[k].driver < calls[m].driver)
  }

  lemma {:induction false} LaterCalls(ds: seq<Driver>, i: nat, target: int, ask: Answers)
    ensures Rising(PrepareCalls(ds, i, target, ask), i, |ds|, target)
    ensures forall k :: 0 <= k < |PrepareCalls(ds, i, target, ask)| ==> PrepareCalls(ds, i, target, ask)[k].Prepare?
    decreases |ds| - i
  {
    if i < |ds| { LaterCalls(ds, i + 1, target, ask); }
  }

  lemma {:induction false} NotifyRises(ds: seq<Driver>, i: nat, target: int)
    ensures Rising(NotifyCalls(ds, i, target), i, |ds|, target)
    ensures forall k :: 0 <= k < |NotifyCalls(ds, i, target)| ==> NotifyCalls(ds, i, target)[k].Notify?
    decreases |ds| - i
  {
    if i < |ds| { NotifyRises(ds, i + 1, target); }
  }

  lemma {:induction false} NotifiedIff(ds: seq<Driver>, i: nat, target: int, d: nat)
    requires i <= d < |ds|
    ensures Notify(d, target) in NotifyCalls(ds, i, target) <==> ds[d].hasNotify
    decreases |ds| - i
  {
    if i < d {
      NotifiedIff(ds, i + 1, target, d);
    } else {
      NotifyRises(ds, i + 1, target);
    }
  }

  /** How often driver `d` is notified of `target`. */
  function Notices(calls: seq<Call>, d: nat, target: int): nat {
    if calls == [] then 0
    else Notices(calls[..|calls| - 1], d, target) + (if calls[|calls| - 1] == Notify(d, target) then 1 else 0)
  }

  lemma {:induction false} NoticesConcat(a: seq<Call>, b: seq<Call>, d: nat, target: int)
    ensures Notices(a + b, d, target) == Notices(a, d, target) + Notices(b, d, target)
    decreases |b|
  {
    if b == [] {
      assert a + b == a;
    } else {
      assert (a + b)[..|a + b| - 1] == a + b[..|b| - 1];
      NoticesConcat(a, b[..|b| - 1], d, target);
    }
  }

  lemma {:induction false} NoNotices(calls: seq<Call>, d: nat, target: int)
    requires forall k :: 0 <= k < |calls| ==> calls[k] != Notify(d, target)
    ensures Notices(calls, d, target) == 0
    decreases |calls|
  {
    if calls != [] { NoNotices(calls[..|calls| - 1], d, target); }
  }

  lemma {:induction false} NotifyCount(ds: seq<Driver>, i: nat, target: int, d: nat, t: int)
    requires d < |ds|
    ensures Notices(NotifyCalls(ds, i, target), d, t) == if i <= d && ds[d].hasNotify && t == target then 1 else 0
    decreases |ds| - i
  {
    if i < |ds| {
      NotifyCount(ds, i + 1, target, d, t);
      var first := if ds[i].hasNotify then [Notify(i, target)] else [];
      NoticesConcat(first, NotifyCalls(ds, i + 1, target), d, t);
      assert ds[i].hasNotify ==> first[..0] == [];
    }
  }

  /** The calls of a whole state change: both prepare rounds and the notify round. */
  function ChangeCalls(ds: seq<Driver>, wanted: int, final: int, accepted: bool, ask: Answers, again: Answers)
    : seq<Call>
  {
    PrepareCalls(ds, 0, wanted, ask) + (if accepted then [] else PrepareCalls(ds, 0, final, again))
    + NotifyCalls(ds, 0, final)
  }

  /** Over a whole state change every driver with the callback is notified exactly once, of the final
      state, and of nothing else; the others never. */
  lemma ChangeNotifiesOnce(ds: seq<Driver>, wanted: int, final: int, accepted: bool, ask: Answers, again: Answers,
                           d: nat, t: int)
    requires d < |ds|
    ensures Notices(ChangeCalls(ds, wanted, final, accepted, ask, again), d, t) ==
      if ds[d].hasNotify && t == final then 1 else 0
  {
    var first := PrepareCalls(ds, 0, wanted, ask);
    var second := if accepted then [] else PrepareCalls(ds, 0, final, again);
    LaterCalls(ds, 0, wanted, ask);
    LaterCalls(ds, 0, final, again);
    NoNotices(first, d, t);
    NoNotices(second, d, t);
    NotifyCount(ds, 0, final, d, t);
    NoticesConcat(first, second, d, t);
    NoticesConcat(first + second, NotifyCalls(ds, 0, final), d, t);
  }

  lemma ChangeLogged(log: seq<Call>, ds: seq<Driver>, wanted: int, final: int, accepted: bool, ask: Answers,
                     again: Answers, log': seq<Call>)
    requires log' == log + ChangeCalls(ds, wanted, final, accepted, ask, again)
    ensures forall d: nat, t: int :: d < |ds| ==>
      Notices(log', d, t) == Notices(log, d, t) + (if ds[d].hasNotify && t == final then 1 else 0)
  {
    var calls := ChangeCalls(ds, wanted, final, accepted, ask, again);
    forall d: nat, t: int | d < |ds|
      ensures Notices(log', d, t) == Notices(log, d, t) + (if ds[d].hasNotify && t == final then 1 else 0)
    {
      NoticesConcat(log, calls, d, t);
      ChangeNotifiesOnce(ds, wanted, final, accepted, ask, again, d, t);
    }
  }

  /** The notify round reaches every driver with the callback once, in registry order, and no other. */
  lemma NotifiedOnce(ds: seq<Driver>, target: int)
    ensures var calls := NotifyCalls(ds, 0, target);
      && Rising(calls, 0, |ds|, target)
      && (forall d: nat :: d < |ds| ==> (Notify(d, target) in calls <==> ds[d].hasNotify))
      && (forall k :: 0 <= k < |calls| ==> calls[k].Notify?)
  {
    NotifyRises(ds, 0, target);
    forall d: nat | d < |ds| ensures Notify(d, target) in NotifyCalls(ds, 0, target) <==> ds[d].hasNotify {
      NotifiedIff(ds, 0, target, d);
    }
  }
}
