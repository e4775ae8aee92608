/** Accepted messages are printed, and messages are refused only when they must be. */
module LogProgress {
  import opened LogModel
  import opened LogFifo
  import opened LogOverflow

  /** Statements that draining the messages from `i` up to `goal` takes at most. */
  function Toil(msgs: seq<string>, i: nat, goal: nat): nat
    requires goal <= |msgs|
    decreases goal - i
  {
    if i >= goal then 0 else 2 * |msgs[i]| + 10 + Toil(msgs, i + 1, goal)
  }

  lemma {:induction false} ToilStays(msgs: seq<string>, m: string, i: nat, goal: nat)
    requires goal <= |msgs|
    ensures Toil(msgs + [m], i, goal) == Toil(msgs, i, goal)
    decreases goal - i
  {
    if i < goal { ToilStays(msgs, m, i + 1, goal); }
  }

  lemma {:induction false} ToilIsBounded(h: History, i: nat, goal: nat)
    requires i <= goal <= |h.accepted|
    ensures Toil(h.accepted, i, goal) <= 10 * (Prefix(h, goal) - Prefix(h, i))
    decreases goal - i
  {
    if i < goal {
      ToilIsBounded(h, i + 1, goal);
      EncodeSplit(h.accepted, i);
    }
  }

  /** Statements the task still executes before the first `goal` messages are drained. */
  function Rest(s: State, h: History, goal: nat): nat
    requires h.credited <= |h.accepted| && goal <= |h.accepted| && Progress(s, h)
  {
    if h.credited >= goal then 0
    else
      var rest := Toil(h.accepted, h.credited, goal);
      var after := Toil(h.accepted, h.credited + 1, goal);
      match s.pc
      case Check => 1 + rest
      case OffsetClear => 2 + rest
      case Report => 3 + rest
      case OffsetTest => 4 + rest
      case FlagClear => 5 + rest
      case FlagTest => 6 + rest
      case Count => 7 + rest
      case Credit => 8 + after
      case Advance => 9 + after
      case Emit => 9 + 2 * (|h.accepted[h.credited]| - s.ret) + after
      case Scan => 10 + 2 * (|h.accepted[h.credited]| - s.ret) + after
  }

  lemma TickLowersRest(s: State, h: History, s': State, h': History, goal: nat)
    requires |s.buf| > 0 && h.credited < goal <= |h.accepted| && Progress(s, h)
    requires s' == Consume(s) && h' == Record(s, h, Tick) && h'.credited <= |h'.accepted| && Progress(s', h')
    ensures Rest(s', h', goal) < Rest(s, h, goal)
  {
  }

  lemma LogKeepsRest(s: State, h: History, msg: string, goal: nat)
    requires |s.buf| > 0 && h.credited <= |h.accepted| && goal <= |h.accepted| && Progress(s, h)
    requires Progress(Produce(s, msg), Record(s, h, Log(msg)))
    ensures Rest(Produce(s, msg), Record(s, h, Log(msg)), goal) == Rest(s, h, goal)
  {
    if Accepts(s) {
      var m := Cut(msg, s.available);
      ToilStays(h.accepted, m, h.credited, goal);
      ToilStays(h.accepted, m, h.credited + 1, goal);
    }
  }

  /** Each task statement brings the goal closer, and no producer delays it. */
  lemma StepLowersRest(y: System, e: Event, goal: nat)
    requires Inv(y.state, y.history) && (e.Log? ==> NulFree(e.msg)) && y.history.credited < goal <= |y.history.accepted|
    ensures var y' := Next(y, e);
      && Inv(y'.state, y'.history) && y.history.accepted <= y'.history.accepted
      && Rest(y'.state, y'.history, goal) + (if e.Tick? then 1 else 0) <= Rest(y.state, y.history, goal)
  {
    StepKeepsInv(y, e);
    match e
    case Log(msg) => LogKeepsRest(y.state, y.history, msg, goal);
    case Tick => TickLowersRest(y.state, y.history, Next(y, e).state, Next(y, e).history, goal);
  }

  /** Accepted messages stay accepted in place, and drained ones drained. */
  lemma {:induction false} HistoryGrows(y: System, events: seq<Event>)
    requires Inv(y.state, y.history) && LogsText(events)
    ensures var z := Run(y, events);
      Inv(z.state, z.history) && y.history.accepted <= z.history.accepted && y.history.credited <= z.history.credited
    decreases |events|
  {
    if events != [] {
      StepKeepsInv(y, events[0]);
      HistoryGrows(Next(y, events[0]), events[1..]);
    }
  }

  lemma {:induction false} GoalIsDrained(y: System, events: seq<Event>, goal: nat)
    requires Inv(y.state, y.history) && LogsText(events) && goal <= |y.history.accepted|
    requires Rest(y.state, y.history, goal) <= Ticks(events)
    ensures Run(y, events).history.credited >= goal
    decreases |events|
  {
    if y.history.credited >= goal {
      HistoryGrows(y, events);
    } else {
      StepLowersRest(y, events[0], goal);
      GoalIsDrained(Next(y, events[0]), events[1..], goal);
    }
  }

  lemma RestIsBounded(s: State, h: History, goal: nat)
    requires Inv(s, h) && goal <= |h.accepted|
    ensures Rest(s, h, goal) <= 10 * |s.buf| + 7
  {
    if h.credited < goal {
      ToilIsBounded(h, h.credited, goal);
      PrefixWithin(h, goal);
    }
  }

  lemma FlattenOfPrefix(some: seq<string>, all: seq<string>, k: nat)
    requires some <= all && |some| <= k <= |all|
    ensures Flatten(some) <= Flatten(all[..k])
  {
    assert all[..k][..|some|] == some;
    FlattenPrefix(all[..k], |some|);
  }

  /** Whatever has been accepted is printed, in order and completely, within a number of task statements
      that depends on the size of the ring only; producers cannot prevent it. */
  lemma AcceptedIsPrinted(size: nat, before: seq<Event>, after: seq<Event>)
    requires size > 0 && LogsText(before) && LogsText(after) && Ticks(after) >= 10 * size + 7
    ensures Flatten(Run(Boot(size), before).history.accepted) <= Run(Boot(size), before + after).state.printed
  {
    InitialInv(size);
    RunKeepsInv(Boot(size), before);
    BufferSize(Boot(size), before);
    var y := Run(Boot(size), before);
    var goal := |y.history.accepted|;
    RestIsBounded(y.state, y.history, goal);
    RunConcat(Boot(size), before, after);
    GoalIsDrained(y, after, goal);
    HistoryGrows(y, after);
    var z := Run(y, after);
    FlattenOfPrefix(y.history.accepted, z.history.accepted, z.history.credited);
  }

  /** Without the overflow flag a message is refused exactly when the messages not yet drained, with
      their terminators, fill the ring; with the flag up it always is. */
  lemma RefusedIff(size: nat, events: seq<Event>, msg: string)
    requires size > 0 && LogsText(events)
    ensures var z := Run(Boot(size), events);
      && |z.state.buf| > 0 && z.history.credited <= |z.history.accepted|
      && (Next(z, Log(msg)).history.accepted == z.history.accepted <==>
          z.state.overflow || |Encode(z.history.accepted[z.history.credited..])| == size)
  {
    InitialInv(size);
    RunKeepsInv(Boot(size), events);
    BufferSize(Boot(size), events);
    SpaceIsConserved(size, events);
  }
}
