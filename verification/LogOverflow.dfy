/** The overflow flag of the log ring and the drop counts it reports. */
module LogOverflow {
  import opened Basics
  import opened LogModel
  import opened LogFifo

  // ----- the overflow flag -----

  /** Statements the task still executes before it clears a raised overflow flag. */
  function Rank(s: State, h: History): nat
    requires s.overflow && h.credited <= |h.accepted| && Progress(s, h) && Flags(s, h)
  {
    match s.pc
    case FlagClear => 1
    case FlagTest => 2
    case Count => 3
    case Credit => 4
    case Advance => 5
    case Scan => 6 + 2 * (|h.accepted[h.credited]| - s.ret)
    case Emit => 5 + 2 * (|h.accepted[h.credited]| - s.ret)
    case Check => 7 + 2 * |h.accepted[h.credited]|
    case OffsetClear => 8 + 2 * |h.accepted[h.credited]|
    case Report => 9 + 2 * |h.accepted[h.credited]|
    case OffsetTest => 10 + 2 * |h.accepted[h.credited]|
  }

  lemma TickLowersRank(s: State, h: History)
    requires Inv(s, h) && s.overflow && Consume(s).overflow
    requires Inv(Consume(s), Record(s, h, Tick))
    ensures Rank(Consume(s), Record(s, h, Tick)) < Rank(s, h)
  {
  }

  lemma LogKeepsRank(s: State, h: History, msg: string)
    requires Inv(s, h) && s.overflow && Inv(Produce(s, msg), Record(s, h, Log(msg)))
    ensures Produce(s, msg).overflow
    ensures Rank(Produce(s, msg), Record(s, h, Log(msg))) == Rank(s, h)
  {
  }

  function Ticks(events: seq<Event>): nat
    decreases |events|
  {
    if events == [] then 0 else (if events[0].Tick? then 1 else 0) + Ticks(events[1..])
  }

  /** The overflow flag cannot stick: whatever the producers do, it is down at some point within
      the next `Rank` statements of the task. */
  lemma {:induction false} OverflowClears(y: System, events: seq<Event>)
    requires Inv(y.state, y.history) && LogsText(events)
    requires y.state.overflow ==> Rank(y.state, y.history) <= Ticks(events)
    ensures exists k :: 0 <= k <= |events| && !Run(y, events[..k]).state.overflow
    decreases |events|
  {
    if !y.state.overflow {
      assert Run(y, events[..0]) == y;
    } else {
      assert events != [];
      var e := events[0];
      var y' := Next(y, e);
      StepKeepsInv(y, e);
      if e.Log? {
        LogKeepsRank(y.state, y.history, e.msg);
      } else if y'.state.overflow {
        TickLowersRank(y.state, y.history);
      }
      OverflowClears(y', events[1..]);
      var k :| 0 <= k <= |events[1..]| && !Run(y', events[1..][..k]).state.overflow;
      assert events[..k + 1][1..] == events[1..][..k];
      assert Run(y, events[..k + 1]) == Run(y', events[1..][..k]);
    }
  }

  lemma RankIsBounded(s: State, h: History)
    requires Inv(s, h) && s.overflow
    ensures Rank(s, h) <= 2 * |s.buf| + 8
  {
    if Undrained(h) { EncodeSplit(h.accepted, h.credited); }
  }

  /** From boot on: anywhere in a run the flag is down within a number of task statements that
      depends on the size of the ring only. */
  lemma FlagComesDown(size: nat, before: seq<Event>, after: seq<Event>)
    requires size > 0 && LogsText(before) && LogsText(after) && Ticks(after) >= 2 * size + 8
    ensures var z := Run(Boot(size), before);
      |z.state.buf| > 0 && exists k :: 0 <= k <= |after| && !Run(z, after[..k]).state.overflow
  {
    InitialInv(size);
    RunKeepsInv(Boot(size), before);
    BufferSize(Boot(size), before);
    var z := Run(Boot(size), before);
    if z.state.overflow { RankIsBounded(z.state, z.history); }
    OverflowClears(z, after);
  }

  // ----- drop accounting -----

  /** The drop count is the number of messages refused since the flag was last raised, and a raised
      flag implies an undrained message or a task that is about to lower it. */
  lemma DropCountIsBurst(size: nat, events: seq<Event>)
    requires size > 0 && LogsText(events)
    ensures var z := Run(Boot(size), events);
      && z.state.dropped == z.history.burst
      && (z.state.overflow ==>
            Undrained(z.history) || z.state.pc == Count || z.state.pc == FlagTest || z.state.pc == FlagClear)
  {
    InitialInv(size);
    RunKeepsInv(Boot(size), events);
  }

  /** Drops counted but not yet reported. */
  function Outstanding(s: State): int {
    if s.overflowOffset >= 0 && s.pc != OffsetClear then s.dropped else 0
  }

  /** How many drops this event makes the task forget: a refusal whose count will not be printed,
      because the offset was already cleared or is about to be, or a new overflow that restarts the
      count while an earlier one is still outstanding. */
  function Forgotten(s: State, e: Event): int {
    if e.Tick? || Accepts(s) then 0
    else if s.overflow then (if s.overflowOffset < 0 || s.pc == OffsetClear then 1 else 0)
    else Outstanding(s) + (if s.pc == OffsetClear then 1 else 0)
  }

  function TotalForgotten(y: System, events: seq<Event>): int
    requires |y.state.buf| > 0
    decreases |events|
  {
    if events == [] then 0
    else
      Forgotten(y.state, events[0]) +
      TotalForgotten(Next(y, events[0]), events[1..])
  }

  /** Refusals not accounted for by the notices printed and the count outstanding. */
  function Unreported(y: System): int {
    y.history.refused - Sum(y.state.notices) - Outstanding(y.state)
  }

  lemma LogForgets(s: State, h: History, msg: string)
    requires |s.buf| > 0 && s.dropped == h.burst && (s.overflow ==> s.dropped >= 1)
    ensures Forgotten(s, Log(msg)) >= 0
    ensures Unreported(System(Produce(s, msg), Record(s, h, Log(msg)))) ==
      Unreported(System(s, h)) + Forgotten(s, Log(msg))
  {
    assert Produce(s, msg).notices == s.notices && Produce(s, msg).pc == s.pc;
  }

  lemma TickForgets(s: State, h: History)
    requires |s.buf| > 0 && (s.pc == Report ==> s.overflowOffset >= 0)
    ensures Unreported(System(Consume(s), Record(s, h, Tick))) == Unreported(System(s, h))
  {
    if s.pc == Report {
      SumAppend(s.notices, s.dropped);
    } else {
      assert Consume(s).notices == s.notices && Consume(s).dropped == s.dropped;
    }
  }

  lemma StepForgets(y: System, e: Event)
    requires |y.state.buf| > 0 && Flags(y.state, y.history)
    ensures var y' := Next(y, e);
      Unreported(y') == Unreported(y) + Forgotten(y.state, e) && Forgotten(y.state, e) >= 0
  {
    match e
    case Log(msg) => LogForgets(y.state, y.history, msg);
    case Tick => TickForgets(y.state, y.history);
  }

  lemma {:induction false} RunForgets(y: System, events: seq<Event>)
    requires Inv(y.state, y.history) && LogsText(events)
    ensures Unreported(Run(y, events)) == Unreported(y) + TotalForgotten(y, events)
    ensures TotalForgotten(y, events) >= 0
    decreases |events|
  {
    if events != [] {
      StepForgets(y, events[0]);
      StepKeepsInv(y, events[0]);
      RunForgets(Next(y, events[0]), events[1..]);
    }
  }

  /** No event of the run makes the task forget a drop. */
  predicate NothingForgotten(y: System, events: seq<Event>)
    requires |y.state.buf| > 0
    decreases |events|
  {
    events == [] ||
    (Forgotten(y.state, events[0]) == 0 &&
     NothingForgotten(Next(y, events[0]), events[1..]))
  }

  lemma {:induction false} ForgottenIsZeroIff(y: System, events: seq<Event>)
    requires Inv(y.state, y.history) && LogsText(events)
    ensures TotalForgotten(y, events) == 0 <==> NothingForgotten(y, events)
    decreases |events|
  {
    if events != [] {
      var y' := Next(y, events[0]);
      StepForgets(y, events[0]);
      StepKeepsInv(y, events[0]);
      RunForgets(y', events[1..]);
      ForgottenIsZeroIff(y', events[1..]);
    }
  }

  /** The notices never overstate the drops, and together with the outstanding count they account
      for all of them exactly when no event of the run was forgetful. */
  lemma NoticesAreExactIff(size: nat, events: seq<Event>)
    requires size > 0 && LogsText(events)
    ensures var z := Run(Boot(size), events);
      && Sum(z.state.notices) + Outstanding(z.state) <= z.history.refused
      && (Sum(z.state.notices) + Outstanding(z.state) == z.history.refused <==>
          NothingForgotten(Boot(size), events))
  {
    InitialInv(size);
    RunForgets(Boot(size), events);
    ForgottenIsZeroIff(Boot(size), events);
  }

  lemma {:induction false} RunConcat(y: System, a: seq<Event>, b: seq<Event>)
    requires |y.state.buf| > 0
    ensures |Run(y, a).state.buf| > 0 && Run(y, a + b) == Run(Run(y, a), b)
    decreases |a|
  {
    if a == [] {
      assert a + b == b;
    } else {
      assert (a + b)[1..] == a[1..] + b;
      RunConcat(Next(y, a[0]), a[1..], b);
    }
  }

  ghost predicate Reachable(size: nat, z: System)
    requires size > 0
  {
    exists events :: LogsText(events) && Run(Boot(size), events) == z
  }

  lemma ReachNext(size: nat, y: System, e: Event, z: System)
    requires size > 0 && Reachable(size, y) && |y.state.buf| > 0 && (e.Log? ==> NulFree(e.msg))
    requires Next(y, e) == z
    ensures Reachable(size, z)
  {
    var events :| LogsText(events) && Run(Boot(size), events) == y;
    RunConcat(Boot(size), events, [e]);
    assert [e][1..] == [];
    assert LogsText(events + [e]);
    assert Run(Boot(size), events + [e]) == z;
  }

  /** A ring of one byte at some point of its life. */
  function OneByte(available: int, enqueued: int, dropped: int, offset: int, overflow: bool, pc: Pc, h: History)
    : System
  {
    System(State([NUL], 0, 0, available, enqueued, dropped, offset, overflow, pc, 0, [], []), h)
  }

  lemma OneByteTakesEmptyMessage(y: System, dropped: int, offset: int, pc: Pc, h: History)
    requires y == OneByte(1, 0, dropped, offset, false, pc, h)
    ensures Next(y, Log("")) == OneByte(0, 1, dropped, offset, false, pc, h.(accepted := h.accepted + [""]))
  {
    var none := "";
    assert Cut(none, 1) == none && none + [NUL] == [NUL];
    assert Stored([NUL], 0, [NUL]) == [NUL];
  }

  lemma OneByteFills()
    ensures Reachable(1, OneByte(0, 1, 0, 0, false, Check, History([""], 0, 0, 0, 0)))
  {
    var y0 := OneByte(1, 0, 0, 0, false, Check, History([], 0, 0, 0, 0));
    assert Boot(1) == y0 && Run(Boot(1), []) == y0 && LogsText([]);
    OneByteTakesEmptyMessage(y0, 0, 0, Check, y0.history);
    ReachNext(1, y0, Log(""), OneByte(0, 1, 0, 0, false, Check, History([""], 0, 0, 0, 0)));
  }

  lemma OneByteOverflows()
    ensures Reachable(1, OneByte(0, 1, 1, 0, true, Check, History([""], 0, 1, 1, 1)))
  {
    OneByteFills();
    var y1 := OneByte(0, 1, 0, 0, false, Check, History([""], 0, 0, 0, 0));
    ReachNext(1, y1, Log(""), OneByte(0, 1, 1, 0, true, Check, History([""], 0, 1, 1, 1)));
  }

  lemma OneByteDrains(h: History, h': History)
    requires h == History([""], 0, 1, 1, 1) && h' == History([""], 1, 1, 1, 1)
    requires Reachable(1, OneByte(0, 1, 1, 0, true, Check, h))
    ensures Reachable(1, OneByte(1, 1, 1, 0, true, Count, h'))
  {
    ReachNext(1, OneByte(0, 1, 1, 0, true, Check, h), Tick, OneByte(0, 1, 1, 0, true, Scan, h));
    ReachNext(1, OneByte(0, 1, 1, 0, true, Scan, h), Tick, OneByte(0, 1, 1, 0, true, Advance, h));
    ReachNext(1, OneByte(0, 1, 1, 0, true, Advance, h), Tick, OneByte(0, 1, 1, 0, true, Credit, h));
    ReachNext(1, OneByte(0, 1, 1, 0, true, Credit, h), Tick, OneByte(1, 1, 1, 0, true, Count, h'));
  }

  lemma OneByteLowersFlag(h: History)
    requires Reachable(1, OneByte(1, 1, 1, 0, true, Count, h))
    ensures Reachable(1, OneByte(1, 0, 1, 0, false, OffsetTest, h))
  {
    ReachNext(1, OneByte(1, 1, 1, 0, true, Count, h), Tick, OneByte(1, 0, 1, 0, true, FlagTest, h));
    ReachNext(1, OneByte(1, 0, 1, 0, true, FlagTest, h), Tick, OneByte(1, 0, 1, 0, true, FlagClear, h));
    ReachNext(1, OneByte(1, 0, 1, 0, true, FlagClear, h), Tick, OneByte(1, 0, 1, 0, false, OffsetTest, h));
  }

  /** One message fills the ring and a second is dropped; the task drains the ring and lowers the
      flag, but before it looks at the offset a third message fills the ring again and a fourth is
      dropped.  Two drops, one of them counted. */
  lemma DropsCanGoUnreported()
    ensures exists z :: Reachable(1, z) && z.history.refused == 2 && Sum(z.state.notices) + Outstanding(z.state) == 1
  {
    var h := History([""], 1, 1, 1, 1);
    OneByteOverflows();
    OneByteDrains(History([""], 0, 1, 1, 1), h);
    OneByteLowersFlag(h);
    var y := OneByte(1, 0, 1, 0, false, OffsetTest, h);
    OneByteTakesEmptyMessage(y, 1, 0, OffsetTest, h);
    var y' := OneByte(0, 1, 1, 0, false, OffsetTest, History(["", ""], 1, 1, 1, 1));
    ReachNext(1, y, Log(""), y');
    var z := OneByte(0, 1, 1, 0, true, OffsetTest, History(["", ""], 1, 2, 1, 2));
    ReachNext(1, y', Log(""), z);
    assert Outstanding(z.state) == 1;
  }

  // ----- messages logged before the free count is set -----

  /** Start-up makes the log ready before it sets the free count, which is zero until then: the
      state if `early` is logged in between. */
  function LateBoot(size: nat, early: seq<Event>): System
    requires size > 0
  {
    var y := Run(System(Initial(size).(available := 0), Boot(size).history), early);
    y.(state := y.state.(available := size))
  }

  /** The flag is up, nothing is enqueued, and the task idles at its outer test. */
  predicate Stuck(y: System) {
    y.state.overflow && y.state.enqueued == 0 && y.state.pc == Check && y.history.accepted == []
  }

  lemma {:induction false} StuckStays(y: System, events: seq<Event>)
    requires |y.state.buf| > 0 && Stuck(y)
    ensures Stuck(Run(y, events))
    decreases |events|
  {
    if events != [] { StuckStays(Next(y, events[0]), events[1..]); }
  }

  predicate AllLogs(events: seq<Event>) {
    forall e :: e in events ==> e.Log?
  }

  ghost predicate CanAccept(y: System)
    requires |y.state.buf| > 0
  {
    exists events :: Run(y, events).history.accepted != []
  }

  /** The log works after start-up exactly when nothing was logged in between; otherwise the flag stays
      up and every message is refused, whatever follows. */
  lemma WorksIffNothingEarly(size: nat, early: seq<Event>)
    requires size > 0 && AllLogs(early)
    ensures |LateBoot(size, early).state.buf| > 0
    ensures CanAccept(LateBoot(size, early)) <==> early == []
  {
    var y := LateBoot(size, early);
    var y0 := System(Initial(size).(available := 0), Boot(size).history);
    BufferSize(y0, early);
    if early == [] {
      assert y == Boot(size);
      assert Run(y, [Log("")]) == Run(Next(y, Log("")), []);
      assert Run(y, [Log("")]).history.accepted != [];
    } else {
      StuckStays(Next(y0, early[0]), early[1..]);
      forall events ensures Run(y, events).history.accepted == [] { StuckStays(y, events); }
    }
  }
}
