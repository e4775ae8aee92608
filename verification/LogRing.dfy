/** The globals of os/logm and the code that updates them, proved against LogModel. */
module LogRing {
  import opened Basics
  import opened LogModel

  class LogRing {
    const rsvbuf: array<char>
    var head: nat
    var tail: nat
    var available: int
    var enqueuedCount: int
    var dropmsgCount: int
    var overflowOffset: int
    var overflow: bool
    // the draining task: its next statement, its local, and what it wrote to standard output
    var pc: Pc
    var ret: nat
    var printed: seq<char>
    var notices: seq<int>

    ghost function Model(): State
      reads this, rsvbuf
    {
      State(rsvbuf[..], head, tail, available, enqueuedCount, dropmsgCount, overflowOffset, overflow,
            pc, ret, printed, notices)
    }

    /** Start-up of `logm_task`, with the buffer cleared and the other globals zero. */
    constructor (bufsize: nat)
      requires bufsize > 0
      ensures Model() == Initial(bufsize) && fresh(rsvbuf)
    {
      rsvbuf := new char[bufsize](_ => NUL);
      head, tail, available, enqueuedCount := 0, 0, bufsize, 0;
      dropmsgCount, overflowOffset, overflow := 0, 0, false;
      pc, ret, printed, notices := Check, 0, [], [];
      new;
      assert rsvbuf[..] == Initial(bufsize).buf;
    }

    /** `logm_putc`: store one character unless only the terminator's byte is left. */
    method Putc(ch: char, nput: nat, ghost data: seq<char>, ghost buf0: seq<char>) returns (nput': nat)
      requires rsvbuf.Length > 0 && |data| == nput && |buf0| == rsvbuf.Length
      requires rsvbuf[..] == Stored(buf0, tail, data)
      modifies rsvbuf
      ensures nput < available - 1 ==> nput' == nput + 1 && rsvbuf[..] == Stored(buf0, tail, data + [ch])
      ensures nput >= available - 1 ==> nput' == nput && rsvbuf[..] == Stored(buf0, tail, data)
    {
      nput' := nput;
      if nput < available - 1 {
        rsvbuf[(tail + nput) % rsvbuf.Length] := ch;
        nput' := nput + 1;
        assert (data + [ch])[..nput] == data;
      }
    }

    /** `logm_internal` for a system that is ready, on the formatted message; `ret` is what it returns. */
    method LogInternal(msg: string) returns (ret: nat)
      requires rsvbuf.Length > 0
      modifies this`tail, this`available, this`enqueuedCount, this`dropmsgCount, this`overflowOffset,
        this`overflow, rsvbuf
      ensures Model() == Produce(old(Model()), msg)
      ensures ret == if old(Accepts(Model())) then |Cut(msg, old(available))| else 0
    {
      if overflow {
        dropmsgCount := dropmsgCount + 1;
        return 0;
      }
      if available <= 0 {
        overflow := true;
        dropmsgCount := 1;
        overflowOffset := tail;
        return 0;
      }
      ghost var cut, buf0 := Cut(msg, available), rsvbuf[..];
      ret := Format(msg);
      PutTerminator(ret, cut, buf0);
      tail := (tail + ret + 1) % rsvbuf.Length;
      available := available - (ret + 1);
      enqueuedCount := enqueuedCount + 1;
    }

    /** `lib_vsprintf` on the ring's stream: every character goes through `Putc`. */
    method Format(msg: string) returns (nput: nat)
      requires rsvbuf.Length > 0 && available > 0
      modifies rsvbuf
      ensures nput == |Cut(msg, available)|
      ensures rsvbuf[..] == Stored(old(rsvbuf[..]), tail, Cut(msg, available))
    {
      ghost var buf0 := rsvbuf[..];
      nput := 0;
      var i := 0;
      while i < |msg|
        invariant i <= |msg|
        invariant nput == if i <= available - 1 then i else available - 1
        invariant rsvbuf[..] == Stored(buf0, tail, msg[..nput])
      {
        assert i < available - 1 ==> msg[..i] + [msg[i]] == msg[..i + 1];
        nput := Putc(msg[i], nput, msg[..nput], buf0);
        i := i + 1;
      }
      assert msg[..nput] == Cut(msg, available);
    }

    method PutTerminator(nput: nat, ghost data: seq<char>, ghost buf0: seq<char>)
      requires rsvbuf.Length > 0 && |data| == nput && |buf0| == rsvbuf.Length
      requires rsvbuf[..] == Stored(buf0, tail, data)
      modifies rsvbuf
      ensures rsvbuf[..] == Stored(buf0, tail, data + [NUL])
    {
      rsvbuf[(tail + nput) % rsvbuf.Length] := NUL;
      assert (data + [NUL])[..nput] == data;
    }

    /** The next statement of the drain loop in `logm_task`. */
    method DrainStatement()
      requires rsvbuf.Length > 0
      modifies this`head, this`available, this`enqueuedCount, this`overflowOffset, this`overflow,
        this`pc, this`ret, this`printed, this`notices
      ensures Model() == Consume(old(Model()))
    {
      match pc
      case Check =>
        if enqueuedCount > 0 {
          ret, pc := 0, Scan;
        }
      case Scan =>
        pc := if rsvbuf[(head + ret) % rsvbuf.Length] != NUL then Emit else Advance;
      case Emit =>
        printed := printed + [rsvbuf[(head + ret) % rsvbuf.Length]];
        ret, pc := ret + 1, Scan;
      case Advance =>
        head, pc := (head + ret + 1) % rsvbuf.Length, Credit;
      case Credit =>
        available, pc := available + (ret + 1), Count;
      case Count =>
        enqueuedCount, pc := enqueuedCount - 1, FlagTest;
      case FlagTest =>
        pc := if overflow then FlagClear else OffsetTest;
      case FlagClear =>
        overflow, pc := false, OffsetTest;
      case OffsetTest =>
        pc := if overflowOffset >= 0 && overflowOffset == head then Report else Check;
      case Report =>
        notices, pc := notices + [dropmsgCount], OffsetClear;
      case OffsetClear =>
        overflowOffset, pc := -1, Check;
    }
  }
}
