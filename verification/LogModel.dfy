/** The log ring shared by many producers and one draining task, at the granularity of the source's
    statements: os/logm/logm.c runs with interrupts off and is one step, and each statement of the
    drain loop in os/logm/logm_process.c is a step of its own.
 */
module LogModel {
  import opened Basics

  /** The next statement of the draining task. */
  datatype Pc =
    | Check        // while (enqueued_count > 0), ret = 0
    | Scan         // while (byte at head + ret)
    | Emit         // fputc(byte), ret++
    | Advance      // head = ...
    | Credit       // available += ret + 1
    | Count        // enqueued_count--
    | FlagTest     // if (overflow)
    | FlagClear    // clear overflow
    | OffsetTest   // if (overflow_offset >= 0 && overflow_offset == head)
    | Report       // print the drop count
    | OffsetClear  // overflow_offset = -1

  datatype State = State(
    buf: seq<char>, head: nat, tail: nat, available: int, enqueued: int,
    dropped: int, overflowOffset: int, overflow: bool,
    pc: Pc, ret: nat, printed: seq<char>, notices: seq<int>)

  datatype Event = Log(msg: string) | Tick

  /** The globals once `logm_task` has set the free count; the rest is zero from the start. */
  function Initial(size: nat): State {
    State(seq(size, _ => NUL), 0, 0, size, 0, 0, 0, false, Check, 0, [], [])
  }

  // ----- producer -----

  /** The part of a message that fits: the last free byte is kept for the terminator. */
  function Cut(msg: string, available: int): (cut: string)
    requires available > 0
    ensures cut <= msg && |cut| + 1 <= available
    ensures cut == msg || |cut| + 1 == available
  {
    if |msg| <= available - 1 then msg else msg[..available - 1]
  }

  /** Bytes stored one after the other from `tail` on, around the ring. */
  function Stored(buf: seq<char>, tail: nat, data: seq<char>): (r: seq<char>)
    requires |buf| > 0
    ensures |r| == |buf|
    decreases |data|
  {
    if data == [] then buf
    else
      var k := |data| - 1;
      Stored(buf, tail, data[..k])[(tail + k) % |buf| := data[k]]
  }

  function Produce(s: State, msg: string): State
    requires |s.buf| > 0
  {
    if s.overflow then s.(dropped := s.dropped + 1)
    else if s.available <= 0 then s.(overflow := true, dropped := 1, overflowOffset := s.tail)
    else
      var cut := Cut(msg, s.available);
      s.(buf := Stored(s.buf, s.tail, cut + [NUL]),
         tail := (s.tail + |cut| + 1) % |s.buf|,
         available := s.available - (|cut| + 1),
         enqueued := s.enqueued + 1)
  }

  predicate Accepts(s: State) {
    !s.overflow && s.available > 0
  }

  // ----- draining task -----

  function Consume(s: State): State
    requires |s.buf| > 0
  {
    match s.pc
    case Check => if s.enqueued > 0 then s.(ret := 0, pc := Scan) else s
    case Scan => if s.buf[(s.head + s.ret) % |s.buf|] != NUL then s.(pc := Emit) else s.(pc := Advance)
    case Emit => s.(printed := s.printed + [s.buf[(s.head + s.ret) % |s.buf|]], ret := s.ret + 1, pc := Scan)
    case Advance => s.(head := (s.head + s.ret + 1) % |s.buf|, pc := Credit)
    case Credit => s.(available := s.available + (s.ret + 1), pc := Count)
    case Count => s.(enqueued := s.enqueued - 1, pc := FlagTest)
    case FlagTest => if s.overflow then s.(pc := FlagClear) else s.(pc := OffsetTest)
    case FlagClear => s.(overflow := false, pc := OffsetTest)
    case OffsetTest =>
      if s.overflowOffset >= 0 && s.overflowOffset == s.head then s.(pc := Report) else s.(pc := Check)
    case Report => s.(notices := s.notices + [s.dropped], pc := OffsetClear)
    case OffsetClear => s.(overflowOffset := -1, pc := Check)
  }

  function Step(s: State, e: Event): State
    requires |s.buf| > 0
  {
    match e
    case Log(msg) => Produce(s, msg)
    case Tick => Consume(s)
  }
}
