/** The receive half of os/drivers/can.c: interrupts append to a ring and readers drain it. */
module CanReceive {
  import opened CanMessages
  import opened RingIndex

  class Receiver {
    const rxBuffer: array<Msg>
    var rxHead: nat
    var rxTail: nat
    var rxSem: nat
    var waits: nat        // how often sem_wait was called
    var saidWait: int     // what it last answered

    ghost var received: seq<Msg>  // every message taken by can_receive
    ghost var delivered: nat      // how many of them readers have got

    ghost predicate Valid()
      reads this, rxBuffer
    {
      var n := rxBuffer.Length;
      && n > 0
      && delivered <= |received| < delivered + n
      && rxHead == delivered % n && rxTail == |received| % n
      && forall i :: delivered <= i < |received| ==> rxBuffer[i % n] == received[i]
    }

    constructor (fifosize: nat, blank: Msg)
      requires fifosize > 0
      ensures Valid() && received == [] && fresh(rxBuffer) && rxBuffer.Length == fifosize
    {
      rxBuffer := new Msg[fifosize](_ => blank);
      rxHead, rxTail, rxSem, waits, saidWait := 0, 0, 0, 0, 0;
      received, delivered := [], 0;
    }

    lemma Indices()
      requires Valid()
      ensures rxHead == rxTail <==> delivered == |received|
      ensures Bump(rxTail, rxBuffer.Length) == rxHead <==> |received| == delivered + rxBuffer.Length - 1
    {
      var n, t := rxBuffer.Length, |received|;
      SameSlot(delivered, t, n);
      BumpIsNext(t, n);
      if t + 1 == delivered + n {
        FullTurn(delivered, n);
      } else {
        SameSlot(delivered, t + 1, n);
      }
    }

    /** `can_receive` without pending remote requests: refused exactly when FIFOSIZE - 1 are held. */
    method Receive(msg: Msg) returns (err: int)
      requires Valid()
      modifies this, rxBuffer
      ensures Valid() && delivered == old(delivered)
      ensures err == 0 <==> |old(received)| < delivered + rxBuffer.Length - 1
      ensures err == 0 ==> received == old(received) + [msg] && rxSem == old(rxSem) + 1
      ensures err != 0 ==> err == ENOMEM && received == old(received) && rxSem == old(rxSem)
      ensures waits == old(waits) && saidWait == old(saidWait)
    {
      var n := rxBuffer.Length;
      var nexttail := Bump(rxTail, n);
      err := ENOMEM;
      Indices();
      if nexttail != rxHead {
        ghost var t := |received|;
        forall i | delivered <= i < t ensures i % n != t % n {
          ModDistinct(i, t, n);
        }
        BumpIsNext(t, n);
        rxBuffer[rxTail] := msg;
        rxTail := nexttail;
        received := received + [msg];
        rxSem := rxSem + 1;
        err := 0;
      }
    }

    /** Wait until the FIFO is not empty: a blocking reader waits if and only if it is, and gives up only
        with the error of a wait. */
    method AwaitMessage(nonblock: bool) returns (err: int)
      requires Valid()
      modifies this, rxBuffer
      ensures Valid() && delivered == old(delivered) && old(received) <= received
      ensures err <= 0 && (err == 0 ==> delivered < |received|)
      ensures nonblock ==> received == old(received) && err == if delivered < |received| then 0 else EAGAIN
      ensures old(delivered < |received|) ==> err == 0 && received == old(received)
      ensures old(waits) <= waits && (old(waits) < waits <==> !nonblock && old(delivered == |received|))
      ensures old(waits) < waits ==> err == saidWait
    {
      Indices();
      err := 0;
      while rxHead == rxTail
        invariant Valid() && delivered == old(delivered) && old(received) <= received
        invariant err == 0 && old(waits) <= waits
        invariant waits == old(waits) ==> received == old(received)
        invariant old(waits) < waits ==> !nonblock && old(delivered == |received|) && saidWait == 0
        invariant rxHead == rxTail <==> delivered == |received|
        invariant nonblock || old(delivered < |received|) ==> received == old(received)
        decreases delivered == |received|, rxSem
      {
        if nonblock {
          return EAGAIN;
        }
        err := WaitForMessage();
        if err < 0 {
          return;
        }
        Indices();
      }
    }

    /** `sem_wait` on the receive semaphore: a post left over from before is taken at once, otherwise
        messages arrive, or the wait fails with any error. */
    method WaitForMessage() returns (err: int)
      requires Valid() && delivered == |received|
      modifies this, rxBuffer
      ensures Valid() && delivered == old(delivered) && old(received) <= received
      ensures err == saidWait <= 0 && waits == old(waits) + 1
      ensures err == 0 ==> delivered < |received| || rxSem < old(rxSem)
    {
      waits := waits + 1;
      if rxSem > 0 {
        rxSem, saidWait := rxSem - 1, 0;
        return 0;
      }
      var woken: bool := *;
      if woken {
        var msg: Msg := *;
        var taken := Receive(msg);
        if taken == 0 {
          var extra: nat :| extra >= 0;
          for i := 0 to extra
            invariant Valid() && delivered == old(delivered) && old(received) <= received
            invariant delivered < |received| && rxSem > 0 && waits == old(waits) + 1
          {
            msg := *;
            var _ := Receive(msg);
          }
          rxSem, saidWait := rxSem - 1, 0;
          return 0;
        }
      }
      err := *;
      if err >= 0 {
        err := EAGAIN;
      }
      saidWait := err;
    }

    /** `can_read`: takes the longest run of messages, oldest first, that fits into `buflen` bytes. */
    method Read(buflen: nat, nonblock: bool) returns (ret: int, out: seq<Msg>)
      requires Valid()
      modifies this, rxBuffer
      ensures Valid() && old(received) <= received
      ensures delivered == old(delivered) + |out| <= |received|
      ensures out == received[old(delivered)..delivered]
      ensures ret < 0 ==> out == []
      ensures ret >= 0 ==> ret == TotalLength(out)
      ensures ret >= 0 && buflen >= MIN_LENGTH ==> LongestFit(received[old(delivered)..], buflen, |out|)
      ensures buflen < MIN_LENGTH ==> ret == 0
      ensures buflen >= MIN_LENGTH && nonblock && old(delivered == |received|) ==> ret == EAGAIN
      ensures old(delivered < |received|) ==> ret >= 0 && received == old(received)
      ensures old(waits) < waits <==> buflen >= MIN_LENGTH && !nonblock && old(delivered == |received|)
      ensures ret < 0 && !nonblock ==> old(waits) < waits && ret == saidWait
    {
      out := [];
      ret := 0;
      if buflen >= MIN_LENGTH {
        ret := AwaitMessage(nonblock);
        if ret < 0 {
          return;
        }
        ret, out := Drain(buflen);
      }
    }

    /** The copy loop of `can_read`. */
    method Drain(buflen: nat) returns (nread: nat, out: seq<Msg>)
      requires Valid() && delivered < |received|
      modifies this`rxHead, this`delivered
      ensures Valid() && delivered == old(delivered) + |out|
      ensures out == received[old(delivered)..delivered] && nread == TotalLength(out)
      ensures LongestFit(received[old(delivered)..], buflen, |out|)
    {
      ghost var first := delivered;
      ghost var held := received[delivered..];
      nread, out := 0, [];
      var more := true;
      while more
        invariant Valid() && delivered == first + |out| && (more ==> delivered < |received|)
        invariant out == held[..|out|] && nread == TotalLength(out) <= buflen
        invariant !more ==> LongestFit(held, buflen, |out|)
        decreases more, |received| - delivered
      {
        var msg := rxBuffer[rxHead];
        assert msg == held[|out|];
        var msglen := Length(msg);
        Extend(held, |out|);
        if nread + msglen > buflen {
          more := false;
        } else {
          out := out + [msg];
          nread := nread + msglen;
          TakeHead();
          more := rxHead != rxTail;
        }
      }
    }

    /** Move the head past the oldest message. */
    method TakeHead()
      requires Valid() && delivered < |received|
      modifies this`rxHead, this`delivered
      ensures Valid() && delivered == old(delivered) + 1
      ensures rxHead == rxTail <==> delivered == |received|
    {
      BumpIsNext(delivered, rxBuffer.Length);
      rxHead := Bump(rxHead, rxBuffer.Length);
      delivered := delivered + 1;
      Indices();
    }
  }

  lemma Extend(ms: seq<Msg>, k: nat)
    requires k < |ms|
    ensures ms[..k + 1] == ms[..k] + [ms[k]]
    ensures TotalLength(ms[..k + 1]) == TotalLength(ms[..k]) + Length(ms[k])
  {
    assert ms[..k + 1][..k] == ms[..k];
  }

  /** Over any run of receive interrupts and reads, what the readers got is, in order and without
      gaps, what was accepted. */
  method AnyRun(dev: Receiver, steps: nat) returns (got: seq<Msg>)
    requires dev.Valid()
    modifies dev, dev.rxBuffer
    ensures dev.Valid() && old(dev.received) <= dev.received
    ensures old(dev.delivered) <= dev.delivered
    ensures got == dev.received[old(dev.delivered)..dev.delivered]
  {
    got := [];
    for i := 0 to steps
      invariant dev.Valid() && old(dev.received) <= dev.received
      invariant old(dev.delivered) <= dev.delivered
      invariant got == dev.received[old(dev.delivered)..dev.delivered]
    {
      var receive: bool := *;
      if receive {
        var msg: Msg := *;
        var _ := dev.Receive(msg);
      } else {
        var buflen: nat :| buflen >= 0;
        var nonblock: bool := *;
        ghost var d := dev.delivered;
        var _, out := dev.Read(buflen, nonblock);
        got := got + out;
        assert dev.received[old(dev.delivered)..dev.delivered]
            == dev.received[old(dev.delivered)..d] + dev.received[d..dev.delivered];
      }
    }
  }
}
