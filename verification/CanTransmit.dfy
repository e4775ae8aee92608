/** The transmit half of os/drivers/can.c: a ring with three indices, where sending a message may
    re-enter the driver through `can_txdone`.

    Positions in the unbounded sequence of accepted messages stand behind the three ring indices.
    What the hardware does is arbitrary: whether it is ready, whether a send fails, how many
    completions it reports, and when.
 */
module CanTransmit {
  import opened CanMessages
  import opened RingIndex

  class Transmitter {
    const txBuffer: array<Msg>
    var txHead: nat
    var txQueue: nat
    var txTail: nat
    var txIntEnabled: bool
    var ntxwaiters: nat
    var txSem: nat
    var handed: seq<Msg>       // every message given to dev_send
    var starts: nat            // how often can_xmit was entered
    var waits: nat             // how often sem_wait was called
    var saidReady: bool        // what the hardware last answered to dev_txready,
    var spent: bool            // and whether a message was sent on that answer
    var saidEmpty: bool        // what it last answered to dev_txempty,
    var asked: nat             // how often it was asked that,
    var startsThen: nat        // and how often can_xmit had been entered then
    var saidSent: int          // what dev_send last answered
    var saidWait: int          // what sem_wait last answered

    ghost var accepted: seq<Msg>  // every message taken by can_write
    ghost var done: nat           // completions reported
    ghost var queued: nat         // messages taken off the queue

    /** head, queue, tail in ring order, at most FIFOSIZE - 1 messages held, and each held message
        in its slot. */
    ghost predicate Ring()
      reads this, txBuffer
    {
      var n := txBuffer.Length;
      && n > 0 && startsThen <= starts
      && done <= queued <= |accepted| < done + n
      && txHead == done % n && txQueue == queued % n && txTail == |accepted| % n
      && forall i :: done <= i < |accepted| ==> txBuffer[i % n] == accepted[i]
    }

    ghost predicate Valid()
      reads this, txBuffer
    {
      Ring() && handed == accepted[..queued]
    }

    /** The free slots: one less than the size minus the messages held. */
    ghost function Room(): nat
      requires Ring()
      reads this, txBuffer
    {
      done + txBuffer.Length - 1 - |accepted|
    }

    /** `can_open`: the FIFO is empty. */
    constructor (fifosize: nat, blank: Msg)
      requires fifosize > 0
      ensures Valid() && accepted == [] && handed == [] && fresh(txBuffer) && txBuffer.Length == fifosize
      ensures done == queued == ntxwaiters == txSem == 0 && !txIntEnabled
    {
      txBuffer := new Msg[fifosize](_ => blank);
      txHead, txQueue, txTail := 0, 0, 0;
      txIntEnabled, ntxwaiters, txSem, handed, starts := false, 0, 0, [], 0;
      waits, asked, startsThen, saidSent, saidWait := 0, 0, 0, 0, 0;
      saidReady, spent, saidEmpty := false, false, false;
      accepted, done, queued := [], 0, 0;
    }

    /** Comparing ring indices answers the question about positions. */
    lemma Indices()
      requires Ring()
      ensures txHead == txTail <==> done == |accepted|
      ensures txQueue == txTail <==> queued == |accepted|
      ensures txHead == txQueue <==> done == queued
      ensures Bump(txTail, txBuffer.Length) == txHead <==> |accepted| == done + txBuffer.Length - 1
    {
      var n, t := txBuffer.Length, |accepted|;
      SameSlot(done, t, n);
      SameSlot(queued, t, n);
      SameSlot(done, queued, n);
      BumpIsNext(t, n);
      if t + 1 == done + n {
        FullTurn(done, n);
      } else {
        SameSlot(done, t + 1, n);
      }
    }

    /** What the hardware may change while the driver sends: completions and sends only go forward,
        nothing is accepted, and each completion posts the semaphore once if a writer waits. */
    twostate predicate Onward()
      reads this
    {
      && accepted == old(accepted) && txTail == old(txTail) && ntxwaiters == old(ntxwaiters)
      && old(done) <= done && old(queued) <= queued && old(handed) <= handed && old(starts) <= starts
      && saidEmpty == old(saidEmpty) && asked == old(asked) && startsThen == old(startsThen)
      && waits == old(waits) && saidWait == old(saidWait)
      && txSem == old(txSem) + (if ntxwaiters > 0 then done - old(done) else 0)
    }

    /** The driver has nothing left to hand over, or the hardware does not take it. */
    ghost predicate Stalled()
      reads this
    {
      queued == |accepted| || !saidReady || saidSent != 0
    }

    method DevTxReady() returns (ready: bool)
      modifies this`saidReady, this`spent
      ensures ready == saidReady && !spent
    {
      ready := *;
      saidReady, spent := ready, false;
    }

    method DevTxEmpty() returns (empty: bool)
      modifies this`saidEmpty, this`asked, this`startsThen
      ensures empty == saidEmpty && asked == old(asked) + 1 && startsThen == starts
    {
      empty := *;
      saidEmpty, asked, startsThen := empty, asked + 1, starts;
    }

    /** The driver's `co_send`, called on an answer that the hardware is ready, each of which serves one
        message: takes the message, may report any number of completions before it returns, and may
        fail. */
    method DevSend(msg: Msg) returns (ret: int)
      requires Ring() && queued > 0 && handed == accepted[..queued - 1] && msg == accepted[queued - 1]
      requires saidReady && !spent
      modifies this
      ensures Valid() && Onward() && ret == saidSent
      decreases |accepted| - queued, 4
    {
      handed, spent := handed + [msg], true;
      assert accepted[..queued] == accepted[..queued - 1] + [accepted[queued - 1]];
      Indices();
      var more: bool := *;
      while more && txHead != txQueue
        invariant Valid() && Onward()
        invariant txHead == txQueue <==> done == queued
        decreases |accepted| - done
      {
        var _ := TxDone();
        Indices();
        more := *;
      }
      ret := *;
      saidSent := ret;
    }

    /** `can_xmit`: hand queued messages to the hardware while it takes them. */
    method Xmit() returns (ret: int)
      requires Valid()
      modifies this
      ensures Valid() && Onward() && Stalled() && old(starts) < starts
      ensures txIntEnabled <== done < |accepted|
      ensures old(done) == |accepted| ==> ret == EIO && !txIntEnabled && handed == old(handed) && done == old(done)
      ensures old(done) < |accepted| ==> ret == if queued == old(queued) then EBUSY else saidSent
      decreases |accepted| - queued, 2
    {
      starts := starts + 1;
      Indices();
      if txHead == txTail {
        txIntEnabled := false;
        return EIO;
      }
      ret := SendAll();
      txIntEnabled := true;
    }

    /** The loop of `can_xmit`. */
    method SendAll() returns (ret: int)
      requires Valid()
      modifies this
      ensures Valid() && Onward() && Stalled()
      ensures ret == if queued == old(queued) then EBUSY else saidSent
      decreases |accepted| - queued, 1
    {
      ret := EBUSY;
      while true
        invariant Valid() && Onward()
        invariant ret == if queued == old(queued) then EBUSY else saidSent
        decreases |accepted| - queued
      {
        Indices();
        if txQueue == txTail {
          break;
        }
        var ready := DevTxReady();
        if !ready {
          break;
        }
        ret := SendNext();
        if ret != 0 {
          break;
        }
      }
    }

    /** Take the next message off the queue before sending it, because sending may re-enter. */
    method SendNext() returns (ret: int)
      requires Valid() && queued < |accepted| && saidReady && !spent
      modifies this
      ensures Valid() && Onward() && old(queued) < queued && ret == saidSent
      decreases |accepted| - queued, 0
    {
      var tmpndx := txQueue;
      BumpIsNext(queued, txBuffer.Length);
      txQueue := Bump(txQueue, txBuffer.Length);
      queued := queued + 1;
      ret := DevSend(txBuffer[tmpndx]);
    }

    /** `can_txdone`: the interrupt at the end of a transmission, reported only while one is in flight. */
    method TxDone() returns (ret: int)
      requires Valid() && (done < queued || done == |accepted|)
      modifies this
      ensures Valid()
      ensures old(done) == |accepted| ==> ret == ENOENT && unchanged(this)
      ensures old(done) < |accepted| ==> ret == 0 && old(done) < done && Stalled()
      ensures Onward()
      ensures done > old(done) ==> (txIntEnabled <== done < |accepted|)
      decreases |accepted| - queued, 3
    {
      Indices();
      ret := ENOENT;
      if txHead != txTail {
        assert txHead != txQueue;
        BumpIsNext(done, txBuffer.Length);
        txHead := Bump(txHead, txBuffer.Length);
        done := done + 1;
        var _ := Xmit();
        if ntxwaiters > 0 {
          txSem := txSem + 1;
        }
        ret := 0;
      }
    }

    /** `sem_wait` on the transmit semaphore: a post left over from before is taken at once, otherwise
        the caller sleeps until at least one completion posts it, or fails with an error.  Idle hardware
        has been started before. */
    method WaitForSpace() returns (err: int)
      requires Valid() && ntxwaiters > 0 && (saidEmpty ==> startsThen < starts)
      modifies this
      ensures Valid() && Waited()
      ensures err == saidWait <= 0 && waits == old(waits) + 1
      ensures err == 0 ==> old(done) < done || txSem < old(txSem)
    {
      waits := waits + 1;
      if txSem > 0 {
        txSem := txSem - 1;
        saidWait := 0;
        return 0;
      }
      Indices();
      var woken: bool := *;
      if woken && txHead != txQueue {
        Completions();
        txSem := txSem - 1;
        saidWait := 0;
        return 0;
      }
      err := *;
      if err >= 0 {
        err := EAGAIN;
      }
      saidWait := err;
    }

    /** What stays the same while a writer waits. */
    twostate predicate Waited()
      reads this
    {
      && accepted == old(accepted) && txTail == old(txTail) && ntxwaiters == old(ntxwaiters)
      && old(done) <= done && old(queued) <= queued && old(handed) <= handed && old(starts) <= starts
      && saidEmpty == old(saidEmpty) && asked == old(asked)
    }

    /** One or more completions while a writer sleeps. */
    method Completions()
      requires Valid() && done < queued && ntxwaiters > 0
      modifies this
      ensures Valid() && Onward() && old(done) < done
    {
      var _ := TxDone();
      Indices();
      var more: bool := *;
      while more && txHead != txQueue
        invariant Valid() && Onward() && old(done) < done
        invariant txHead == txQueue <==> done == queued
        decreases |accepted| - done
      {
        var _ := TxDone();
        Indices();
        more := *;
      }
    }

    /** Nothing was started, sent or completed. */
    twostate predicate Still()
      reads this
    {
      && done == old(done) && queued == old(queued) && handed == old(handed)
      && starts == old(starts) && startsThen == old(startsThen)
      && saidEmpty == old(saidEmpty) && asked == old(asked)
      && waits == old(waits) && saidWait == old(saidWait) && ntxwaiters == old(ntxwaiters) && txSem == old(txSem)
    }

    /** Wait while the FIFO is full; `err` is what `can_write` then returns.  With a free slot nothing
        happens.  Without one a blocking caller waits, with idle hardware started before, and gives up
        only with the error of a wait; a non-blocking one returns at once. */
    method MakeRoom(nonblock: bool, inactive: bool) returns (err: int, inactive': bool)
      requires Valid() && inactive == saidEmpty
      modifies this
      ensures Valid() && accepted == old(accepted) && txTail == old(txTail) && ntxwaiters == old(ntxwaiters)
      ensures old(done) <= done && old(queued) <= queued && old(handed) <= handed && old(starts) <= starts
      ensures inactive' == saidEmpty
      ensures err == 0 ==> |accepted| < done + txBuffer.Length - 1
      ensures old(Room()) > 0 || nonblock ==> Still()
      ensures old(Room()) > 0 ==> err == 0
      ensures old(Room()) == 0 && nonblock ==> err == EAGAIN
      ensures old(Room()) == 0 && !nonblock ==> old(waits) < waits && err == saidWait <= 0
      ensures old(Room()) == 0 && !nonblock && inactive ==> old(starts) < starts
      ensures asked - old(asked) == waits - old(waits) - (if err < 0 && !nonblock then 1 else 0)
    {
      inactive' := inactive;
      var nexttail := Bump(txTail, txBuffer.Length);
      Indices();
      err := 0;
      while nexttail == txHead
        invariant Valid() && accepted == old(accepted) && txTail == old(txTail) && ntxwaiters == old(ntxwaiters)
        invariant old(done) <= done && old(queued) <= queued && old(handed) <= handed && old(starts) <= starts
        invariant nexttail == txHead <==> |accepted| == done + txBuffer.Length - 1
        invariant inactive' == saidEmpty && err == 0 && asked - old(asked) == waits - old(waits)
        invariant Still() || (old(Room()) == 0 && !nonblock && old(waits) < waits && saidWait == 0
                              && (inactive ==> old(starts) < starts))
        decreases |accepted| - done, txSem
      {
        if nonblock {
          return EAGAIN, inactive';
        }
        err, inactive' := WaitOnce(inactive');
        if err < 0 {
          return;
        }
        Indices();
      }
    }

    /** One wait of a blocked writer, which first restarts hardware that was idle. */
    method WaitOnce(inactive: bool) returns (err: int, inactive': bool)
      requires Valid() && inactive == saidEmpty
      modifies this
      ensures Valid() && accepted == old(accepted) && txTail == old(txTail) && ntxwaiters == old(ntxwaiters)
      ensures old(done) <= done && old(queued) <= queued && old(handed) <= handed && old(starts) <= starts
      ensures inactive' == saidEmpty && (inactive ==> old(starts) < starts)
      ensures err == saidWait <= 0 && waits == old(waits) + 1 && asked == old(asked) + (if err == 0 then 1 else 0)
      ensures err == 0 ==> old(done) < done || txSem < old(txSem)
    {
      if inactive {
        var _ := Xmit();
      }
      ntxwaiters := ntxwaiters + 1;
      err := WaitForSpace();
      ntxwaiters := ntxwaiters - 1;
      inactive' := inactive;
      if err == 0 {
        inactive' := DevTxEmpty();
      }
    }

    /** Store one message at the tail. */
    method Append(msg: Msg)
      requires Valid() && |accepted| < done + txBuffer.Length - 1
      modifies this, txBuffer
      ensures Valid() && accepted == old(accepted) + [msg]
      ensures Still()
    {
      var n := txBuffer.Length;
      ghost var t := |accepted|;
      forall i | done <= i < t ensures i % n != t % n {
        ModDistinct(i, t, n);
      }
      BumpIsNext(t, n);
      txBuffer[txTail] := msg;
      txTail := Bump(txTail, n);
      accepted := accepted + [msg];
    }

    /** `can_write` by the only writer, on the messages its buffer holds.  `taken` of them are
        accepted; on an error after the first message the earlier ones stay accepted.  While there are
        free slots they are used without waiting.  A non-blocking write stops there; a blocking one waits
        and accepts everything, unless a wait fails.  Idle hardware is started before a wait and at the
        end, but not by a non-blocking write whose messages do not all fit. */
    method Write(msgs: seq<Msg>, nonblock: bool) returns (ret: int, taken: nat)
      requires Valid()
      modifies this, txBuffer
      ensures Valid() && taken <= |msgs| && accepted == old(accepted) + msgs[..taken]
      ensures old(handed) <= handed && ntxwaiters == old(ntxwaiters)
      ensures taken == |msgs| ==> ret == TotalLength(msgs)
      ensures taken < |msgs| && nonblock ==> ret == if taken == 0 then EAGAIN else TotalLength(msgs[..taken])
      ensures taken < |msgs| && !nonblock ==> ret == saidWait < 0
      ensures taken == |msgs| && saidEmpty ==> Stalled() && old(starts) < starts
      ensures nonblock ==> taken == if |msgs| <= old(Room()) then |msgs| else old(Room())
      ensures !nonblock ==> taken >= if |msgs| <= old(Room()) then |msgs| else old(Room())
      ensures old(waits) <= waits && old(starts) <= starts
      ensures old(waits) < waits <==> !nonblock && |msgs| > old(Room())
      ensures asked - old(asked) == 1 + waits - old(waits) - (if taken < |msgs| && !nonblock then 1 else 0)
      ensures waits == old(waits) ==> (old(starts) < starts <==> saidEmpty && |msgs| <= old(Room()))
      ensures starts == old(starts) && waits == old(waits) ==>
        done == old(done) && queued == old(queued) && handed == old(handed)
    {
      var inactive := DevTxEmpty();
      var nsent := 0;
      taken := 0;
      while taken < |msgs|
        invariant taken <= |msgs|
        invariant Valid() && accepted == old(accepted) + msgs[..taken] && old(handed) <= handed
        invariant nsent == TotalLength(msgs[..taken]) && inactive == saidEmpty
        invariant ntxwaiters == old(ntxwaiters) && old(waits) <= waits && old(starts) <= starts
        invariant asked - old(asked) == 1 + waits - old(waits)
        invariant waits == old(waits) ==> taken <= old(Room())
        invariant waits == old(waits) ==>
          done == old(done) && queued == old(queued) && handed == old(handed) && starts == old(starts)
        invariant old(waits) < waits ==> !nonblock && taken > old(Room())
      {
        var err;
        err, inactive := MakeRoom(nonblock, inactive);
        if err < 0 {
          ret := if nonblock && taken > 0 then nsent else err;
          return;
        }
        Append(msgs[taken]);
        assert msgs[..taken + 1][..taken] == msgs[..taken];
        nsent := nsent + Length(msgs[taken]);
        taken := taken + 1;
      }
      assert msgs[..taken] == msgs;
      if inactive {
        var _ := Xmit();
      }
      ret := nsent;
    }
  }

  /** A full FIFO with nothing in flight: no completion can arrive, and no run of non-empty
      non-blocking writes changes anything. */
  method Retry(dev: Transmitter, later: seq<seq<Msg>>) returns (rets: seq<int>)
    requires dev.Valid() && dev.Room() == 0 && dev.done == dev.queued
    requires forall i :: 0 <= i < |later| ==> later[i] != []
    modifies dev, dev.txBuffer
    ensures dev.Valid() && dev.accepted == old(dev.accepted) && dev.handed == old(dev.handed)
    ensures dev.starts == old(dev.starts) && dev.done == dev.queued == old(dev.queued)
    ensures |rets| == |later| && forall i :: 0 <= i < |later| ==> rets[i] == EAGAIN
  {
    rets := [];
    while |rets| < |later|
      invariant dev.Valid() && dev.accepted == old(dev.accepted) && dev.handed == old(dev.handed)
      invariant dev.starts == old(dev.starts) && dev.done == dev.queued == old(dev.queued)
      invariant |rets| <= |later| && forall i :: 0 <= i < |rets| ==> rets[i] == EAGAIN
    {
      var r, taken := dev.Write(later[|rets|], true);
      assert later[|rets|][..taken] == [];
      rets := rets + [r];
    }
  }

  /** A non-blocking write of FIFOSIZE or more messages to a device that was just opened reaches that
      state: it fills the FIFO, starts nothing, and nothing is ever handed over. */
  method FillAndRetry(fifosize: nat, blank: Msg, msgs: seq<Msg>, later: seq<seq<Msg>>)
    returns (dev: Transmitter, ret: int, rets: seq<int>)
    requires 1 < fifosize <= |msgs|
    requires forall i :: 0 <= i < |later| ==> later[i] != []
    ensures dev.Valid() && dev.accepted == msgs[..fifosize - 1] && dev.handed == []
    ensures ret == TotalLength(msgs[..fifosize - 1])
    ensures |rets| == |later| && forall i :: 0 <= i < |later| ==> rets[i] == EAGAIN
  {
    dev := new Transmitter(fifosize, blank);
    var taken;
    ret, taken := dev.Write(msgs, true);
    assert [] + msgs[..taken] == msgs[..taken];
    rets := Retry(dev, later);
  }

  /** Any run of writes and completion interrupts keeps the order: what went to the hardware,
      followed by what waits between queue and tail, is what was accepted. */
  method AnyRun(dev: Transmitter, steps: nat)
    requires dev.Valid()
    modifies dev, dev.txBuffer
    ensures dev.Valid()
    ensures dev.handed + dev.accepted[dev.queued..] == dev.accepted
    ensures old(dev.accepted) <= dev.accepted && old(dev.handed) <= dev.handed
  {
    var i := 0;
    while i < steps
      invariant dev.Valid()
      invariant old(dev.accepted) <= dev.accepted && old(dev.handed) <= dev.handed
    {
      dev.Indices();
      var write: bool := *;
      if write {
        var msgs: seq<Msg> := *;
        var nonblock: bool := *;
        var _, _ := dev.Write(msgs, nonblock);
      } else if dev.txHead != dev.txQueue {
        var _ := dev.TxDone();
      }
      i := i + 1;
    }
  }
}
