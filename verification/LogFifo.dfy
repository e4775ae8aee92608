/** First in, first out over every interleaving of producers and the draining task. */
module LogFifo {
  import opened Basics
  import opened LogModel
  import opened RingIndex

  /** What happened so far: the messages accepted (as stored), how many of them have had their
      space credited back, how many messages were refused, and how many of those since the overflow
      flag was last raised, and how many messages had been accepted then. */
  datatype History = History(accepted: seq<string>, credited: nat, refused: nat, burst: nat, mark: nat)

  function Record(s: State, h: History, e: Event): History {
    match e
    case Log(msg) =>
      if Accepts(s) then h.(accepted := h.accepted + [Cut(msg, s.available)])
      else if s.overflow then h.(refused := h.refused + 1, burst := h.burst + 1)
      else h.(refused := h.refused + 1, burst := 1, mark := |h.accepted|)
    case Tick => if s.pc == Credit then h.(credited := h.credited + 1) else h
  }

  /** All messages, each with its terminator. */
  function Encode(msgs: seq<string>): seq<char>
    decreases |msgs|
  {
    if msgs == [] then [] else Encode(msgs[..|msgs| - 1]) + msgs[|msgs| - 1] + [NUL]
  }

  /** All messages, without terminators. */
  function Flatten(msgs: seq<string>): seq<char>
    decreases |msgs|
  {
    if msgs == [] then [] else Flatten(msgs[..|msgs| - 1]) + msgs[|msgs| - 1]
  }

  function Sum(ns: seq<int>): int
    decreases |ns|
  {
    if ns == [] then 0 else Sum(ns[..|ns| - 1]) + ns[|ns| - 1]
  }

  lemma SumAppend(ns: seq<int>, n: int)
    ensures Sum(ns + [n]) == Sum(ns) + n
  {
    assert (ns + [n])[..|ns|] == ns;
  }

  predicate NulFree(msg: string) {
    NUL !in msg
  }

  predicate AllText(msgs: seq<string>) {
    forall m :: m in msgs ==> NulFree(m)
  }

  lemma AllTextAppend(msgs: seq<string>, m: string)
    requires AllText(msgs) && NulFree(m)
    ensures AllText(msgs + [m])
  {
  }

  // ----- the messages as one byte stream -----

  function Prefix(h: History, k: nat): nat
    requires k <= |h.accepted|
  {
    |Encode(h.accepted[..k])|
  }

  lemma EncodeSplit(msgs: seq<string>, k: nat)
    requires k < |msgs|
    ensures var p := |Encode(msgs[..k])|; var m := msgs[k];
      && |Encode(msgs[..k + 1])| == p + |m| + 1 <= |Encode(msgs)|
      && Encode(msgs)[p..p + |m|] == m && Encode(msgs)[p + |m|] == NUL
    decreases |msgs|
  {
    var last := |msgs| - 1;
    assert msgs[..k + 1][..k] == msgs[..k];
    if k < last {
      EncodeSplit(msgs[..last], k);
      assert msgs[..last][..k] == msgs[..k] && msgs[..last][..k + 1] == msgs[..k + 1];
    } else {
      assert msgs[..k + 1] == msgs;
    }
  }

  lemma {:induction false} PrefixWithin(h: History, k: nat)
    requires k <= |h.accepted|
    ensures Prefix(h, k) <= |Encode(h.accepted)|
  {
    if k == |h.accepted| {
      assert h.accepted[..k] == h.accepted;
    } else {
      EncodeSplit(h.accepted, k);
    }
  }

  lemma EncodeAppend(msgs: seq<string>, m: string)
    ensures Encode(msgs + [m]) == Encode(msgs) + m + [NUL]
    ensures forall k :: 0 <= k <= |msgs| ==> (msgs + [m])[..k] == msgs[..k]
  {
    TakeOfAppend(msgs, m);
  }

  lemma TakeOfAppend(msgs: seq<string>, m: string)
    ensures (msgs + [m])[..|msgs|] == msgs
    ensures forall k :: 0 <= k <= |msgs| ==> (msgs + [m])[..k] == msgs[..k]
  {
  }

  lemma FlattenAppend(msgs: seq<string>, m: string)
    ensures Flatten(msgs + [m]) == Flatten(msgs) + m
  {
    assert (msgs + [m])[..|msgs|] == msgs;
  }

  /** Storing behind the bytes still in use changes none of them. */
  lemma {:induction false} StoredAt(buf: seq<char>, base: nat, t: nat, data: seq<char>, i: nat)
    requires |buf| > 0 && base <= t && t + |data| <= base + |buf|
    requires base <= i < t + |data|
    ensures Stored(buf, t % |buf|, data)[i % |buf|] == if i < t then buf[i % |buf|] else data[i - t]
    decreases |data|
  {
    if data != [] {
      var n, k := |buf|, |data| - 1;
      ModShift(t, k, n);
      if i < t + k {
        StoredAt(buf, base, t, data[..k], i);
        ModDistinct(i, t + k, n);
      }
    }
  }

  // ----- the invariant -----

  /** The task is in the middle of a message. */
  predicate Reading(pc: Pc) {
    pc == Scan || pc == Emit || pc == Advance || pc == Credit
  }

  predicate Undrained(h: History) {
    h.credited < |h.accepted|
  }

  /** Position in the byte stream from which space has not been credited back. */
  function Base(h: History): nat
    requires h.credited <= |h.accepted|
  {
    Prefix(h, h.credited)
  }

  ghost predicate Holds(buf: seq<char>, h: History)
    requires |buf| > 0 && h.credited <= |h.accepted|
  {
    forall i :: Base(h) <= i < |Encode(h.accepted)| ==> buf[i % |buf|] == Encode(h.accepted)[i]
  }

  /** The undrained messages fill the ring from the first byte not credited back to the tail. */
  ghost predicate Filled(buf: seq<char>, tail: nat, available: int, h: History) {
    && |buf| > 0
    && h.credited <= |h.accepted|
    && AllText(h.accepted)
    && Base(h) <= |Encode(h.accepted)|
    && available == |buf| - (|Encode(h.accepted)| - Base(h))
    && available >= 0
    && tail == |Encode(h.accepted)| % |buf|
    && Holds(buf, h)
  }

  ghost predicate Layout(s: State, h: History) {
    && Filled(s.buf, s.tail, s.available, h)
    && s.head == (Base(h) + (if s.pc == Credit then s.ret + 1 else 0)) % |s.buf|
  }

  ghost predicate Progress(s: State, h: History)
    requires h.credited <= |h.accepted|
  {
    && (Reading(s.pc) ==>
          && Undrained(h)
          && s.ret <= |h.accepted[h.credited]|
          && (s.pc == Emit ==> s.ret < |h.accepted[h.credited]|)
          && (s.pc == Advance || s.pc == Credit ==> s.ret == |h.accepted[h.credited]|))
    && s.enqueued == |h.accepted| - h.credited + (if s.pc == Count then 1 else 0)
    && s.printed == Flatten(h.accepted[..h.credited]) +
                    (if Reading(s.pc) then h.accepted[h.credited][..s.ret] else [])
  }

  ghost predicate Flags(s: State, h: History) {
    && (s.overflow ==> Undrained(h) || s.pc == Count || s.pc == FlagTest || s.pc == FlagClear)
    && (s.overflow ==> s.dropped >= 1)
    && s.dropped == h.burst
    && Sum(s.notices) + (if s.overflowOffset >= 0 && s.pc != OffsetClear then s.dropped else 0) <= h.refused
    && (s.pc == Report ==> s.overflowOffset >= 0)
  }

  ghost predicate Inv(s: State, h: History) {
    Layout(s, h) && Progress(s, h) && Flags(s, h)
  }

  lemma InitialInv(size: nat)
    requires size > 0
    ensures Inv(Initial(size), History([], 0, 0, 0, 0))
  {
  }

  // ----- producer steps -----

  lemma AcceptKeepsBytes(s: State, h: History, msg: string)
    requires Inv(s, h) && Accepts(s) && NulFree(msg)
    ensures Holds(Produce(s, msg).buf, Record(s, h, Log(msg)))
  {
    var cut := Cut(msg, s.available);
    var data, t, n := cut + [NUL], |Encode(h.accepted)|, |s.buf|;
    var h' := Record(s, h, Log(msg));
    EncodeAppend(h.accepted, cut);
    assert Encode(h'.accepted) == Encode(h.accepted) + data;
    forall i | Base(h') <= i < |Encode(h'.accepted)|
      ensures Produce(s, msg).buf[i % n] == Encode(h'.accepted)[i]
    {
      StoredAt(s.buf, Base(h), t, data, i);
      if i < t { assert s.buf[i % n] == Encode(h.accepted)[i]; }
    }
  }

  /** An index moves past a message and its terminator. */
  lemma MoveIndex(index: nat, len: nat, base: nat, n: nat)
    requires n > 0 && index == base % n
    ensures (index + len + 1) % n == (base + (len + 1)) % n
  {
    ModShift(base, len + 1, n);
    assert index + len + 1 == index + (len + 1);
  }

  lemma AcceptedSizes(h: History, cut: string, h': History)
    requires h.credited <= |h.accepted| && AllText(h.accepted) && NulFree(cut)
    requires h'.accepted == h.accepted + [cut] && h'.credited == h.credited
    ensures |Encode(h'.accepted)| == |Encode(h.accepted)| + (|cut| + 1)
    ensures Base(h') == Base(h) && AllText(h'.accepted)
  {
    EncodeAppend(h.accepted, cut);
    AllTextAppend(h.accepted, cut);
  }

  lemma AcceptKeepsTail(s: State, cut: string, t: nat, t': nat)
    requires |s.buf| > 0 && s.tail == t % |s.buf| && t' == t + (|cut| + 1)
    ensures (s.tail + |cut| + 1) % |s.buf| == t' % |s.buf|
  {
    MoveIndex(s.tail, |cut|, t, |s.buf|);
  }

  lemma AcceptKeepsLayout(s: State, h: History, msg: string)
    requires Inv(s, h) && Accepts(s) && NulFree(msg)
    ensures Layout(Produce(s, msg), Record(s, h, Log(msg)))
  {
    var cut := Cut(msg, s.available);
    var h' := Record(s, h, Log(msg));
    AcceptedSizes(h, cut, h');
    AcceptKeepsBytes(s, h, msg);
    AcceptKeepsTail(s, cut, |Encode(h.accepted)|, |Encode(h'.accepted)|);
  }

  lemma ProduceKeepsInv(s: State, h: History, msg: string)
    requires Inv(s, h) && NulFree(msg)
    ensures Inv(Produce(s, msg), Record(s, h, Log(msg)))
  {
    if Accepts(s) {
      AcceptKeepsLayout(s, h, msg);
      EncodeAppend(h.accepted, Cut(msg, s.available));
    } else {
      assert s.available == 0 ==> Undrained(h) by {
        if !Undrained(h) { assert h.accepted[..h.credited] == h.accepted; }
      }
    }
  }

  // ----- task steps -----

  /** Byte `j` of message `k`, or its terminator, in the byte stream. */
  lemma EncodeByte(msgs: seq<string>, k: nat, j: nat)
    requires k < |msgs| && j <= |msgs[k]|
    ensures var p := |Encode(msgs[..k])| + j;
      p < |Encode(msgs)| && Encode(msgs)[p] == if j < |msgs[k]| then msgs[k][j] else NUL
  {
    EncodeSplit(msgs, k);
    var p := |Encode(msgs[..k])|;
    if j < |msgs[k]| { assert Encode(msgs)[p..p + |msgs[k]|][j] == msgs[k][j]; }
  }

  lemma HeldByte(buf: seq<char>, h: History, p: nat)
    requires |buf| > 0 && h.credited <= |h.accepted| && Holds(buf, h)
    requires Base(h) <= p < |Encode(h.accepted)|
    ensures buf[p % |buf|] == Encode(h.accepted)[p]
  {
  }

  lemma CursorSlot(s: State, h: History)
    requires Layout(s, h) && s.pc != Credit
    ensures (s.head + s.ret) % |s.buf| == (Base(h) + s.ret) % |s.buf|
  {
    ModShift(Base(h), s.ret, |s.buf|);
  }

  /** The byte under the task's cursor is the next byte of the message it is reading. */
  lemma CursorByte(s: State, h: History)
    requires Layout(s, h) && Progress(s, h) && (s.pc == Scan || s.pc == Emit)
    ensures var m := h.accepted[h.credited];
      s.buf[(s.head + s.ret) % |s.buf|] == if s.ret < |m| then m[s.ret] else NUL
  {
    EncodeByte(h.accepted, h.credited, s.ret);
    HeldByte(s.buf, h, Base(h) + s.ret);
    CursorSlot(s, h);
  }

  lemma ScanKeepsProgress(s: State, h: History)
    requires Layout(s, h) && Progress(s, h) && s.pc == Scan
    ensures Progress(Consume(s), h)
  {
    CursorByte(s, h);
    assert NulFree(h.accepted[h.credited]);
  }

  lemma EmitKeepsProgress(s: State, h: History)
    requires Layout(s, h) && Progress(s, h) && s.pc == Emit
    ensures Progress(Consume(s), h)
  {
    CursorByte(s, h);
    var m := h.accepted[h.credited];
    assert m[..s.ret + 1] == m[..s.ret] + [m[s.ret]];
    assert s.printed + [m[s.ret]] == Flatten(h.accepted[..h.credited]) + m[..s.ret + 1];
  }

  lemma CreditKeepsLayout(s: State, h: History)
    requires Layout(s, h) && Progress(s, h) && s.pc == Credit
    ensures Layout(Consume(s), Record(s, h, Tick))
  {
    EncodeSplit(h.accepted, h.credited);
    var h' := Record(s, h, Tick);
    assert Base(h') == Base(h) + s.ret + 1;
    forall i | Base(h') <= i < |Encode(h'.accepted)|
      ensures s.buf[i % |s.buf|] == Encode(h'.accepted)[i]
    {
    }
  }

  lemma CreditKeepsProgress(s: State, h: History)
    requires |s.buf| > 0 && h.credited < |h.accepted| && Progress(s, h) && s.pc == Credit
    ensures Progress(Consume(s), Record(s, h, Tick))
  {
    var k := h.credited;
    var m := h.accepted[k];
    assert h.accepted[..k + 1] == h.accepted[..k] + [m];
    FlattenAppend(h.accepted[..k], m);
    assert m[..|m|] == m;
  }

  lemma AdvanceKeepsLayout(s: State, h: History)
    requires Layout(s, h) && s.pc == Advance
    ensures Layout(Consume(s), h)
  {
    MoveIndex(s.head, s.ret, Base(h), |s.buf|);
  }

  lemma OtherKeepsLayout(s: State, h: History)
    requires Layout(s, h) && s.pc != Advance && s.pc != Credit
    ensures Layout(Consume(s), h)
  {
  }

  lemma ConsumeKeepsFlags(s: State, h: History)
    requires Flags(s, h) && |s.buf| > 0
    ensures Flags(Consume(s), Record(s, h, Tick))
  {
    if s.pc == Report { SumAppend(s.notices, s.dropped); }
  }

  lemma ConsumeKeepsInv(s: State, h: History)
    requires Inv(s, h)
    ensures Inv(Consume(s), Record(s, h, Tick))
  {
    ConsumeKeepsFlags(s, h);
    if s.pc == Credit {
      CreditKeepsLayout(s, h);
      CreditKeepsProgress(s, h);
    } else if s.pc == Advance {
      AdvanceKeepsLayout(s, h);
      AdvanceKeepsProgress(s, h);
    } else {
      OtherKeepsLayout(s, h);
      if s.pc == Scan {
        ScanKeepsProgress(s, h);
      } else if s.pc == Emit {
        EmitKeepsProgress(s, h);
      } else {
        OtherKeepsProgress(s, h);
      }
    }
  }

  lemma AdvanceKeepsProgress(s: State, h: History)
    requires |s.buf| > 0 && h.credited <= |h.accepted| && Progress(s, h) && s.pc == Advance
    ensures Progress(Consume(s), h)
  {
  }

  /** Between messages only the count of messages enqueued moves. */
  lemma OtherKeepsProgress(s: State, h: History)
    requires |s.buf| > 0 && h.credited <= |h.accepted| && Progress(s, h) && !Reading(s.pc)
    ensures Progress(Consume(s), h)
  {
    if s.pc == Check && s.enqueued > 0 { assert h.accepted[h.credited][..0] == []; }
  }

  // ----- runs -----

  datatype System = System(state: State, history: History)

  predicate LogsText(events: seq<Event>) {
    forall e :: e in events && e.Log? ==> NulFree(e.msg)
  }

  function Next(y: System, e: Event): System
    requires |y.state.buf| > 0
  {
    System(Step(y.state, e), Record(y.state, y.history, e))
  }

  /** The system after a sequence of producer calls and task statements in any order. */
  function Run(y: System, events: seq<Event>): System
    requires |y.state.buf| > 0
    decreases |events|
  {
    if events == [] then y
    else Run(Next(y, events[0]), events[1..])
  }

  lemma StepKeepsInv(y: System, e: Event)
    requires Inv(y.state, y.history) && (e.Log? ==> NulFree(e.msg))
    ensures Inv(Step(y.state, e), Record(y.state, y.history, e))
  {
    match e
    case Log(msg) => ProduceKeepsInv(y.state, y.history, msg);
    case Tick => ConsumeKeepsInv(y.state, y.history);
  }

  lemma {:induction false} RunKeepsInv(y: System, events: seq<Event>)
    requires Inv(y.state, y.history) && LogsText(events)
    ensures var z := Run(y, events); Inv(z.state, z.history)
    decreases |events|
  {
    if events != [] {
      StepKeepsInv(y, events[0]);
      RunKeepsInv(Next(y, events[0]), events[1..]);
    }
  }

  function Boot(size: nat): System {
    System(Initial(size), History([], 0, 0, 0, 0))
  }

  /** What has been printed is, byte for byte, the beginning of the accepted messages in order;
      it is all of them once the task is back at its outer test with nothing enqueued. */
  lemma PrintedIsFifo(size: nat, events: seq<Event>)
    requires size > 0 && LogsText(events)
    ensures var z := Run(Boot(size), events);
      && z.state.printed <= Flatten(z.history.accepted)
      && (z.state.pc == Check && z.state.enqueued == 0 ==> z.state.printed == Flatten(z.history.accepted))
  {
    InitialInv(size);
    RunKeepsInv(Boot(size), events);
    var z := Run(Boot(size), events);
    var h := z.history;
    FlattenPrefix(h.accepted, h.credited);
    assert h.accepted[..|h.accepted|] == h.accepted;
  }

  lemma {:induction false} FlattenPrefix(msgs: seq<string>, k: nat)
    requires k <= |msgs|
    ensures Flatten(msgs[..k]) + (if k < |msgs| then msgs[k] else []) <= Flatten(msgs)
    decreases |msgs|
  {
    if k == |msgs| {
      assert msgs[..k] == msgs;
    } else if k < |msgs| - 1 {
      var most := msgs[..|msgs| - 1];
      FlattenPrefix(most, k);
      assert most[..k] == msgs[..k];
      assert Flatten(msgs) == Flatten(most) + msgs[|msgs| - 1];
    }
  }

  /** Free bytes plus the length of every message whose space was not credited back, each with
      its terminator, is the size of the ring; the free count is never negative. */
  lemma SpaceIsConserved(size: nat, events: seq<Event>)
    requires size > 0 && LogsText(events)
    ensures var z := Run(Boot(size), events);
      && 0 <= z.state.available <= size
      && z.history.credited <= |z.history.accepted|
      && z.state.available + |Encode(z.history.accepted[z.history.credited..])| == size
  {
    InitialInv(size);
    RunKeepsInv(Boot(size), events);
    BufferSize(Boot(size), events);
    var h := Run(Boot(size), events).history;
    EncodeParts(h.accepted, h.credited);
  }

  lemma {:induction false} BufferSize(y: System, events: seq<Event>)
    requires |y.state.buf| > 0
    ensures |Run(y, events).state.buf| == |y.state.buf|
    decreases |events|
  {
    if events != [] {
      BufferSize(Next(y, events[0]), events[1..]);
    }
  }

  lemma EncodeLast(msgs: seq<string>, front: seq<string>, m: string)
    requires msgs == front + [m]
    ensures Encode(msgs) == Encode(front) + (m + [NUL])
  {
    assert msgs[..|msgs| - 1] == front;
  }

  lemma {:induction false} EncodeConcat(a: seq<string>, b: seq<string>)
    ensures Encode(a + b) == Encode(a) + Encode(b)
    decreases |b|
  {
    if b == [] {
      assert a + b == a;
    } else {
      var k := |b| - 1;
      EncodeConcat(a, b[..k]);
      EncodeLast(a + b, a + b[..k], b[k]);
      EncodeLast(b, b[..k], b[k]);
      Regroup(Encode(a), Encode(b[..k]), b[k] + [NUL]);
    }
  }

  lemma EncodeParts(msgs: seq<string>, k: nat)
    requires k <= |msgs|
    ensures Encode(msgs) == Encode(msgs[..k]) + Encode(msgs[k..])
  {
    Halves(msgs, k);
    EncodeConcat(msgs[..k], msgs[k..]);
  }

  /** Byte `k` of a message, or its terminator, is stored into no slot the task has yet to read. */
  lemma ProducerStoresElsewhere(s: State, h: History, msg: string, k: nat, p: nat)
    requires Inv(s, h) && Accepts(s) && k <= |Cut(msg, s.available)|
    requires Base(h) <= p < |Encode(h.accepted)|
    ensures (s.tail + k) % |s.buf| != p % |s.buf|
  {
    var t := |Encode(h.accepted)|;
    ModShift(t, k, |s.buf|);
    ModDistinct(p, t + k, |s.buf|);
  }

  /** A producer leaves every byte the task has yet to read as it is. */
  lemma ProducerSparesUnreadBytes(s: State, h: History, msg: string, p: nat)
    requires Inv(s, h) && NulFree(msg)
    requires Base(h) <= p < |Encode(h.accepted)|
    ensures Produce(s, msg).buf[p % |s.buf|] == s.buf[p % |s.buf|] == Encode(h.accepted)[p]
  {
    if Accepts(s) {
      StoredAt(s.buf, Base(h), |Encode(h.accepted)|, Cut(msg, s.available) + [NUL], p);
    }
  }
}
