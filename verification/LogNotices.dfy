/** When the draining task prints a drop count, over every interleaving. */
module LogNotices {
  import opened LogModel
  import opened LogFifo
  import opened LogOverflow

  /** The task has credited a message back and not yet compared the overflow offset with the head. */
  predicate Untested(pc: Pc) {
    pc == Count || pc == FlagTest || pc == FlagClear || pc == OffsetTest
  }

  /** Messages after which the task has made that comparison. */
  function Tested(s: State, h: History): int {
    if Untested(s.pc) then h.credited - 1 else h.credited
  }

  /** The first `k` messages are the same, however many follow. */
  lemma PrefixStays(h: History, m: string, k: nat)
    requires k <= |h.accepted|
    ensures Prefix(h.(accepted := h.accepted + [m]), k) == Prefix(h, k)
  {
    EncodeAppend(h.accepted, m);
  }

  // ----- outstanding counts -----

  /** An outstanding count waits for the message that was newest when the flag was raised: its end
      is the overflow offset, and the task is about to report or has not tested it yet. */
  predicate Due(s: State, h: History)
    requires |s.buf| > 0
  {
    Outstanding(s) > 0 ==>
      && h.mark <= |h.accepted|
      && s.overflowOffset == Prefix(h, h.mark) % |s.buf|
      && (s.pc == Report || Tested(s, h) < h.mark)
  }

  lemma ProduceKeepsDue(s: State, h: History, msg: string)
    requires Inv(s, h) && NulFree(msg) && Due(s, h)
    ensures Due(Produce(s, msg), Record(s, h, Log(msg)))
  {
    if Accepts(s) {
      if h.mark <= |h.accepted| { PrefixStays(h, Cut(msg, s.available), h.mark); }
    } else if !s.overflow {
      assert h.accepted[..|h.accepted|] == h.accepted;
    }
  }

  lemma HeadIsBase(s: State, h: History)
    requires Inv(s, h) && s.pc != Credit
    ensures s.head == Prefix(h, h.credited) % |s.buf|
  {
  }

  lemma ConsumeKeepsDue(s: State, h: History)
    requires |s.buf| > 0 && h.credited <= |h.accepted| && Due(s, h)
    requires s.pc == OffsetTest ==> s.head == Prefix(h, h.credited) % |s.buf|
    ensures Due(Consume(s), Record(s, h, Tick))
  {
  }

  lemma StepKeepsDue(y: System, e: Event)
    requires Inv(y.state, y.history) && (e.Log? ==> NulFree(e.msg)) && Due(y.state, y.history)
    ensures var y' := Next(y, e); |y'.state.buf| > 0 && Due(y'.state, y'.history)
  {
    match e
    case Log(msg) => ProduceKeepsDue(y.state, y.history, msg);
    case Tick =>
      if y.state.pc == OffsetTest { HeadIsBase(y.state, y.history); }
      ConsumeKeepsDue(y.state, y.history);
  }

  /** Statements that draining the messages from `i` up to `mark` takes at most. */
  function Work(msgs: seq<string>, i: int, mark: nat): nat
    requires 0 <= i && mark <= |msgs|
    decreases mark - i
  {
    if i >= mark then 0 else 2 * |msgs[i]| + 8 + Work(msgs, i + 1, mark)
  }

  lemma {:induction false} WorkStays(msgs: seq<string>, m: string, i: int, mark: nat)
    requires 0 <= i && mark <= |msgs|
    ensures Work(msgs + [m], i, mark) == Work(msgs, i, mark)
    decreases mark - i
  {
    if i < mark { WorkStays(msgs, m, i + 1, mark); }
  }

  /** Statements the task still executes before an outstanding count is printed. */
  function DueRank(s: State, h: History): nat
    requires |s.buf| > 0 && h.credited <= |h.accepted| && Progress(s, h) && Due(s, h) && Outstanding(s) > 0
  {
    var rest := Work(h.accepted, h.credited, h.mark);
    var after := Work(h.accepted, h.credited + 1, h.mark);
    match s.pc
    case Report => 1
    case OffsetTest => 2 + rest
    case FlagClear => 3 + rest
    case FlagTest => 4 + rest
    case Count => 5 + rest
    case Credit => 6 + after
    case Advance => 7 + after
    case Emit => 7 + 2 * (|h.accepted[h.credited]| - s.ret) + after
    case Scan => 8 + 2 * (|h.accepted[h.credited]| - s.ret) + after
    case Check => 1 + rest
    case OffsetClear => 0
  }

  /** The task prints a count that includes every drop since the flag was raised. */
  predicate Prints(s: State, e: Event) {
    e.Tick? && s.pc == Report && Outstanding(s) > 0
  }

  /** The task takes one statement, with its place in the message stream known on both sides. */
  ghost predicate Ticking(s: State, h: History, s': State, h': History) {
    && |s.buf| > 0 && h.credited <= |h.accepted| && Progress(s, h) && Due(s, h)
    && s' == Consume(s) && h' == Record(s, h, Tick)
    && h'.credited <= |h'.accepted| && Progress(s', h') && Due(s', h')
    && Outstanding(s) > 0 && s.pc != Report
  }

  lemma ReadingLowersDueRank(s: State, h: History, s': State, h': History)
    requires Ticking(s, h, s', h') && Reading(s.pc)
    ensures Outstanding(s') == Outstanding(s) && DueRank(s', h') < DueRank(s, h)
  {
  }

  lemma TickLowersDueRank(s: State, h: History, s': State, h': History)
    requires Ticking(s, h, s', h')
    ensures Outstanding(s') == Outstanding(s) && DueRank(s', h') < DueRank(s, h)
  {
    if Reading(s.pc) { ReadingLowersDueRank(s, h, s', h'); }
  }

  lemma LogKeepsDueRank(s: State, h: History, msg: string)
    requires Inv(s, h) && Due(s, h) && Outstanding(s) > 0 && Forgotten(s, Log(msg)) == 0
    requires Inv(Produce(s, msg), Record(s, h, Log(msg))) && Due(Produce(s, msg), Record(s, h, Log(msg)))
    ensures Outstanding(Produce(s, msg)) > 0
    ensures DueRank(Produce(s, msg), Record(s, h, Log(msg))) == DueRank(s, h)
  {
    var s', h' := Produce(s, msg), Record(s, h, Log(msg));
    if Accepts(s) {
      var m := Cut(msg, s.available);
      assert h'.accepted == h.accepted + [m] && h'.mark == h.mark && h'.credited == h.credited;
      WorkStays(h.accepted, m, h.credited, h.mark);
      WorkStays(h.accepted, m, h.credited + 1, h.mark);
    }
    SameDueRank(s, h, s', h');
  }

  lemma SameDueRank(s: State, h: History, s': State, h': History)
    requires |s.buf| > 0 && h.credited <= |h.accepted| && Progress(s, h) && Due(s, h) && Outstanding(s) > 0
    requires |s'.buf| > 0 && h'.credited <= |h'.accepted| && Progress(s', h') && Due(s', h') && Outstanding(s') > 0
    requires s'.pc == s.pc && s'.ret == s.ret && h'.credited == h.credited && h.accepted <= h'.accepted
    requires Work(h'.accepted, h.credited, h'.mark) == Work(h.accepted, h.credited, h.mark)
    requires Work(h'.accepted, h.credited + 1, h'.mark) == Work(h.accepted, h.credited + 1, h.mark)
    ensures DueRank(s', h') == DueRank(s, h)
  {
  }

  /** One event that neither prints nor forgets leaves the count outstanding, and the task closer. */
  lemma StepLowersDueRank(y: System, e: Event)
    requires Inv(y.state, y.history) && Due(y.state, y.history) && (e.Log? ==> NulFree(e.msg))
    requires Outstanding(y.state) > 0 && !Prints(y.state, e) && Forgotten(y.state, e) == 0
    ensures var y' := Next(y, e);
      && Inv(y'.state, y'.history) && Due(y'.state, y'.history) && Outstanding(y'.state) > 0
      && DueRank(y'.state, y'.history) + (if e.Tick? then 1 else 0) <= DueRank(y.state, y.history)
  {
    StepKeepsInv(y, e);
    StepKeepsDue(y, e);
    match e
    case Log(msg) => LogKeepsDueRank(y.state, y.history, msg);
    case Tick => TickLowersDueRank(y.state, y.history, Next(y, e).state, Next(y, e).history);
  }

  /** Event `k` of the run prints an outstanding count or forgets one. */
  predicate Settles(y: System, events: seq<Event>, k: nat)
    requires |y.state.buf| > 0 && k < |events|
  {
    var z := Run(y, events[..k]);
    Prints(z.state, events[k]) || Forgotten(z.state, events[k]) > 0
  }

  lemma SettlesLater(y: System, events: seq<Event>, k: nat)
    requires |y.state.buf| > 0 && events != [] && k < |events[1..]|
    requires |Next(y, events[0]).state.buf| > 0 && Settles(Next(y, events[0]), events[1..], k)
    ensures Settles(y, events, k + 1)
  {
    assert events[..k + 1][1..] == events[1..][..k];
  }

  /** A drop count does not stay outstanding: whatever the producers do, within the next `DueRank`
      statements of the task it is printed, unless a later refusal makes the task forget it. */
  lemma {:induction false} OutstandingIsPrinted(y: System, events: seq<Event>)
    requires Inv(y.state, y.history) && Due(y.state, y.history) && LogsText(events)
    requires Outstanding(y.state) > 0 && DueRank(y.state, y.history) <= Ticks(events)
    ensures exists k: nat :: k < |events| && Settles(y, events, k)
    decreases |events|
  {
    var e := events[0];
    if Prints(y.state, e) || Forgotten(y.state, e) > 0 {
      assert Run(y, events[..0]) == y;
      assert Settles(y, events, 0);
    } else {
      var y' := Next(y, e);
      StepLowersDueRank(y, e);
      OutstandingIsPrinted(y', events[1..]);
      var k: nat :| k < |events[1..]| && Settles(y', events[1..], k);
      SettlesLater(y, events, k);
    }
  }

  lemma {:induction false} RunKeepsDue(y: System, events: seq<Event>)
    requires Inv(y.state, y.history) && Due(y.state, y.history) && LogsText(events)
    ensures var z := Run(y, events); Inv(z.state, z.history) && Due(z.state, z.history)
    decreases |events|
  {
    if events != [] {
      StepKeepsInv(y, events[0]);
      StepKeepsDue(y, events[0]);
      RunKeepsDue(Next(y, events[0]), events[1..]);
    }
  }

  lemma {:induction false} WorkIsBounded(h: History, i: nat, mark: nat)
    requires i <= mark <= |h.accepted|
    ensures Work(h.accepted, i, mark) <= 8 * (Prefix(h, mark) - Prefix(h, i))
    decreases mark - i
  {
    if i < mark {
      WorkIsBounded(h, i + 1, mark);
      EncodeSplit(h.accepted, i);
    }
  }

  lemma DueRankIsBounded(s: State, h: History)
    requires Inv(s, h) && Due(s, h) && Outstanding(s) > 0
    ensures DueRank(s, h) <= 8 * |s.buf| + 5
  {
    if h.credited <= h.mark {
      WorkIsBounded(h, h.credited, h.mark);
      PrefixWithin(h, h.mark);
    }
  }

  /** From boot on: a count that is outstanding anywhere in a run is printed within a number of task
      statements that depends on the size of the ring only, unless the task forgets it. */
  lemma DropsArePrinted(size: nat, before: seq<Event>, after: seq<Event>)
    requires size > 0 && LogsText(before) && LogsText(after)
    requires Outstanding(Run(Boot(size), before).state) > 0 && Ticks(after) >= 8 * size + 5
    ensures var z := Run(Boot(size), before);
      |z.state.buf| > 0 && exists k: nat :: k < |after| && Settles(z, after, k)
  {
    InitialInv(size);
    RunKeepsDue(Boot(size), before);
    BufferSize(Boot(size), before);
    var z := Run(Boot(size), before);
    DueRankIsBounded(z.state, z.history);
    OutstandingIsPrinted(z, after);
  }

  // ----- a notice without a drop -----

  predicate EndsAtZero(h: History, size: nat, k: nat)
    requires size > 0 && k <= |h.accepted|
  {
    Prefix(h, k) % size == 0
  }

  /** One of the first `n` messages ends at the end of the ring. */
  predicate Wraps(h: History, size: nat, n: int)
    requires size > 0 && n <= |h.accepted|
  {
    exists k: nat :: 1 <= k <= n && EndsAtZero(h, size, k)
  }

  /** The overflow offset starts as zero, like the head.  Until the first drop it is cleared, with a
      notice of zero drops, when the head first returns to zero. */
  predicate Quiet(s: State, h: History)
    requires |s.buf| > 0 && h.credited <= |h.accepted|
  {
    && (Untested(s.pc) ==> h.credited >= 1)
    && (h.refused == 0 ==>
          && s.dropped == 0 && !s.overflow
          && if !Wraps(h, |s.buf|, Tested(s, h)) then
               s.overflowOffset == 0 && s.notices == [] && s.pc != Report && s.pc != OffsetClear
             else if s.pc == Report then s.overflowOffset == 0 && s.notices == []
             else s.notices == [0] && (s.pc != OffsetClear ==> s.overflowOffset == -1))
  }

  lemma WrapsStays(h: History, m: string, size: nat, n: int)
    requires size > 0 && n <= |h.accepted|
    ensures Wraps(h.(accepted := h.accepted + [m]), size, n) <==> Wraps(h, size, n)
  {
    var h' := h.(accepted := h.accepted + [m]);
    forall k: nat | k <= n ensures EndsAtZero(h', size, k) <==> EndsAtZero(h, size, k) {
      PrefixStays(h, m, k);
    }
  }

  lemma WrapsNext(h: History, size: nat, n: nat)
    requires size > 0 && 1 <= n <= |h.accepted|
    ensures Wraps(h, size, n) <==> Wraps(h, size, n - 1) || EndsAtZero(h, size, n)
  {
  }

  lemma WrapsSame(h: History, h': History, size: nat, n: int)
    requires size > 0 && n <= |h.accepted| && h'.accepted == h.accepted
    ensures Wraps(h', size, n) <==> Wraps(h, size, n)
  {
    forall k: nat | k <= n ensures EndsAtZero(h', size, k) <==> EndsAtZero(h, size, k) {
    }
  }

  lemma ProduceKeepsQuiet(s: State, h: History, msg: string)
    requires |s.buf| > 0 && h.credited <= |h.accepted| && Quiet(s, h)
    ensures Quiet(Produce(s, msg), Record(s, h, Log(msg)))
  {
    if Accepts(s) { WrapsStays(h, Cut(msg, s.available), |s.buf|, Tested(s, h)); }
  }

  lemma ConsumeKeepsQuiet(s: State, h: History)
    requires |s.buf| > 0 && h.credited <= |h.accepted| && Quiet(s, h)
    requires s.pc == Credit ==> h.credited < |h.accepted|
    requires s.pc == OffsetTest ==> s.head == Prefix(h, h.credited) % |s.buf|
    ensures Quiet(Consume(s), Record(s, h, Tick))
  {
    if s.pc == OffsetTest { WrapsNext(h, |s.buf|, h.credited); }
    if s.pc == Credit { WrapsSame(h, Record(s, h, Tick), |s.buf|, h.credited); }
  }

  lemma StepKeepsQuiet(y: System, e: Event)
    requires Inv(y.state, y.history) && (e.Log? ==> NulFree(e.msg)) && Quiet(y.state, y.history)
    ensures var y' := Next(y, e); Inv(y'.state, y'.history) && Quiet(y'.state, y'.history)
  {
    StepKeepsInv(y, e);
    match e
    case Log(msg) => ProduceKeepsQuiet(y.state, y.history, msg);
    case Tick =>
      if y.state.pc == OffsetTest { HeadIsBase(y.state, y.history); }
      ConsumeKeepsQuiet(y.state, y.history);
  }

  lemma {:induction false} RunKeepsQuiet(y: System, events: seq<Event>)
    requires Inv(y.state, y.history) && LogsText(events) && Quiet(y.state, y.history)
    ensures var z := Run(y, events); Inv(z.state, z.history) && Quiet(z.state, z.history)
    decreases |events|
  {
    if events != [] {
      StepKeepsQuiet(y, events[0]);
      RunKeepsQuiet(Next(y, events[0]), events[1..]);
    }
  }

  /** Every notice after the first counts at least one drop. */
  predicate LaterNoticesCount(s: State) {
    && (forall i :: 1 <= i < |s.notices| ==> s.notices[i] >= 1)
    && (s.dropped == 0 && s.notices != [] ==> s.pc != Report && (s.pc == OffsetClear || s.overflowOffset < 0))
    && s.dropped >= 0
    && (s.pc == Report ==> s.overflowOffset >= 0)
  }

  lemma {:induction false} RunKeepsLaterNotices(y: System, events: seq<Event>)
    requires |y.state.buf| > 0 && LaterNoticesCount(y.state)
    ensures LaterNoticesCount(Run(y, events).state)
    decreases |events|
  {
    if events != [] { RunKeepsLaterNotices(Next(y, events[0]), events[1..]); }
  }

  /** A run without a drop prints a notice all the same exactly when one of the drained messages ended
      at the end of the ring; it prints one such notice, of zero drops.  In any run only the first
      notice can be of zero drops. */
  lemma FalseNoticeIff(size: nat, events: seq<Event>)
    requires size > 0 && LogsText(events)
    ensures var z := Run(Boot(size), events);
      z.history.refused == 0 && z.state.pc == Check ==>
        && z.history.credited <= |z.history.accepted|
        && z.state.notices == if Wraps(z.history, size, z.history.credited) then [0] else []
    ensures LaterNoticesCount(Run(Boot(size), events).state)
  {
    InitialInv(size);
    RunKeepsQuiet(Boot(size), events);
    BufferSize(Boot(size), events);
    RunKeepsLaterNotices(Boot(size), events);
  }

  lemma OneByteDrainsQuietly(h: History, h': History)
    requires h == History([""], 0, 0, 0, 0) && h' == h.(credited := 1)
    requires Reachable(1, OneByte(0, 1, 0, 0, false, Check, h))
    ensures Reachable(1, OneByte(1, 1, 0, 0, false, Count, h'))
  {
    ReachNext(1, OneByte(0, 1, 0, 0, false, Check, h), Tick, OneByte(0, 1, 0, 0, false, Scan, h));
    ReachNext(1, OneByte(0, 1, 0, 0, false, Scan, h), Tick, OneByte(0, 1, 0, 0, false, Advance, h));
    ReachNext(1, OneByte(0, 1, 0, 0, false, Advance, h), Tick, OneByte(0, 1, 0, 0, false, Credit, h));
    ReachNext(1, OneByte(0, 1, 0, 0, false, Credit, h), Tick, OneByte(1, 1, 0, 0, false, Count, h'));
  }

  /** A single message, drained from a ring of one byte, is followed by a notice of zero drops. */
  lemma FalseNoticeIsReached()
    ensures exists z :: Reachable(1, z) && z.history.refused == 0 && z.state.notices == [0]
  {
    var h := History([""], 1, 0, 0, 0);
    OneByteFills();
    OneByteDrainsQuietly(History([""], 0, 0, 0, 0), h);
    OneByteReports(h);
    var y := OneByte(1, 0, 0, 0, false, Report, h);
    ReachNext(1, y, Tick, System(y.state.(notices := [0], pc := OffsetClear), h));
  }

  lemma OneByteReports(h: History)
    requires Reachable(1, OneByte(1, 1, 0, 0, false, Count, h))
    ensures Reachable(1, OneByte(1, 0, 0, 0, false, Report, h))
  {
    ReachNext(1, OneByte(1, 1, 0, 0, false, Count, h), Tick, OneByte(1, 0, 0, 0, false, FlagTest, h));
    ReachNext(1, OneByte(1, 0, 0, 0, false, FlagTest, h), Tick, OneByte(1, 0, 0, 0, false, OffsetTest, h));
    ReachNext(1, OneByte(1, 0, 0, 0, false, OffsetTest, h), Tick, OneByte(1, 0, 0, 0, false, Report, h));
  }
}
