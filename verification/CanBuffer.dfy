/** How far `can_write` walks through the caller's buffer: the bytes left are an unsigned difference,
    which wraps around once a message has taken the count past the end of the buffer.
 */
module CanBuffer {
  import opened CanMessages

  const SIZE_WRAP := 0x1_0000_0000

  /** `lens(p)` is the `CAN_MSGLEN` of the header found at byte `p`, inside the buffer or behind it. */
  ghost predicate Headers(lens: nat -> nat) {
    forall p: nat :: lens(p) >= MIN_LENGTH
  }

  /** Where message `k` starts: each message is found behind the one before. */
  function Offset(lens: nat -> nat, k: nat): nat {
    if k == 0 then 0 else Offset(lens, k - 1) + lens(Offset(lens, k - 1))
  }

  /** The loop condition. */
  predicate GoesOn(buflen: nat, nsent: nat) {
    (buflen - nsent) % SIZE_WRAP >= MIN_LENGTH
  }

  predicate TakenAt(lens: nat -> nat, buflen: nat, k: nat) {
    GoesOn(buflen, Offset(lens, k)) && Offset(lens, k + 1) <= buflen
  }

  /** The loop takes `n` messages, all inside the buffer, and stops. */
  ghost predicate TakesInside(lens: nat -> nat, buflen: nat, n: nat) {
    (forall k: nat :: k < n ==> TakenAt(lens, buflen, k)) && !GoesOn(buflen, Offset(lens, n))
  }

  /** The buffer ends with message `n - 1` or one byte behind it. */
  predicate EndsWith(lens: nat -> nat, buflen: nat, n: nat) {
    Offset(lens, n) <= buflen < Offset(lens, n) + MIN_LENGTH
  }

  /** The buffer ends inside message `k`. */
  predicate EndsInside(lens: nat -> nat, buflen: nat, k: nat) {
    Offset(lens, k) + MIN_LENGTH <= buflen < Offset(lens, k + 1)
  }

  lemma {:induction false} OffsetsGrow(lens: nat -> nat, j: nat, k: nat)
    requires Headers(lens) && j < k
    ensures Offset(lens, j) + MIN_LENGTH <= Offset(lens, j + 1) <= Offset(lens, k)
    decreases k
  {
    if j + 1 < k { OffsetsGrow(lens, j, k - 1); }
  }

  lemma GoesOnBefore(buflen: nat, nsent: nat)
    requires nsent <= buflen < SIZE_WRAP
    ensures GoesOn(buflen, nsent) <==> nsent + MIN_LENGTH <= buflen
  {
  }

  lemma GoesOnBehind(buflen: nat, nsent: nat)
    requires buflen < nsent <= buflen + SIZE_WRAP - MIN_LENGTH
    ensures GoesOn(buflen, nsent)
  {
    assert (buflen - nsent) % SIZE_WRAP == buflen - nsent + SIZE_WRAP;
  }

  /** The loop takes exactly the first `n` messages, and none beyond the buffer, if and only if the
      buffer ends with the last of them or one byte behind it. */
  lemma TakesInsideIff(lens: nat -> nat, buflen: nat, n: nat)
    requires Headers(lens) && buflen < SIZE_WRAP
    ensures TakesInside(lens, buflen, n) <==> EndsWith(lens, buflen, n)
  {
    if EndsWith(lens, buflen, n) {
      forall k: nat | k < n ensures TakenAt(lens, buflen, k) {
        OffsetsGrow(lens, k, n);
        GoesOnBefore(buflen, Offset(lens, k));
      }
      GoesOnBefore(buflen, Offset(lens, n));
    }
    if TakesInside(lens, buflen, n) {
      if n > 0 { assert TakenAt(lens, buflen, n - 1); }
      GoesOnBefore(buflen, Offset(lens, n));
    }
  }

  /** From the start of a message that lies before the end, the walk reaches the end one way or the
      other: at a boundary, or in the middle of a message. */
  lemma {:induction false} WalkEnds(lens: nat -> nat, buflen: nat, k: nat) returns (n: nat)
    requires Headers(lens) && Offset(lens, k) <= buflen
    ensures EndsWith(lens, buflen, n) || EndsInside(lens, buflen, n)
    decreases buflen - Offset(lens, k)
  {
    n := k;
    if Offset(lens, k + 1) <= buflen {
      OffsetsGrow(lens, k, k + 1);
      n := WalkEnds(lens, buflen, k + 1);
    }
  }

  /** Not both: a buffer that ends inside a message ends with none. */
  lemma EndsOneWay(lens: nat -> nat, buflen: nat, k: nat, n: nat)
    requires Headers(lens) && EndsInside(lens, buflen, k)
    ensures !EndsWith(lens, buflen, n)
  {
    if k < n { OffsetsGrow(lens, k, n); }
    if n < k { OffsetsGrow(lens, n, k); }
  }

  ghost predicate StopsInside(lens: nat -> nat, buflen: nat) {
    exists n: nat :: TakesInside(lens, buflen, n)
  }

  ghost predicate SplitsMessage(lens: nat -> nat, buflen: nat) {
    exists k: nat :: EndsInside(lens, buflen, k)
  }

  /** The loop stays inside the buffer exactly when the buffer does not end inside a message. */
  lemma StopsInsideIff(lens: nat -> nat, buflen: nat)
    requires Headers(lens) && buflen < SIZE_WRAP
    ensures StopsInside(lens, buflen) <==> !SplitsMessage(lens, buflen)
  {
    var n := WalkEnds(lens, buflen, 0);
    TakesInsideIff(lens, buflen, n);
    if k: nat :| EndsInside(lens, buflen, k) {
      forall m: nat ensures !TakesInside(lens, buflen, m) {
        EndsOneWay(lens, buflen, k, m);
        TakesInsideIff(lens, buflen, m);
      }
    }
  }

  /** Otherwise the loop condition holds at every later message, for almost 2^32 bytes. */
  lemma SplitGoesOn(lens: nat -> nat, buflen: nat, k: nat, n: nat)
    requires Headers(lens) && buflen < SIZE_WRAP && EndsInside(lens, buflen, k)
    requires Offset(lens, n) <= buflen + SIZE_WRAP - MIN_LENGTH
    ensures GoesOn(buflen, Offset(lens, n))
  {
    EndsOneWay(lens, buflen, k, n);
    if Offset(lens, n) <= buflen {
      GoesOnBefore(buflen, Offset(lens, n));
    } else {
      GoesOnBehind(buflen, Offset(lens, n));
    }
  }

  // ----- buffers of whole messages -----

  predicate HeaderAt(lens: nat -> nat, msgs: seq<Msg>, i: nat)
    requires i < |msgs|
  {
    lens(TotalLength(msgs[..i])) == Length(msgs[i])
  }

  /** The messages stand in memory one behind the other. */
  ghost predicate Holds(lens: nat -> nat, msgs: seq<Msg>) {
    forall i: nat :: i < |msgs| ==> HeaderAt(lens, msgs, i)
  }

  lemma {:induction false} OffsetIsLength(lens: nat -> nat, msgs: seq<Msg>, i: nat)
    requires Holds(lens, msgs) && i <= |msgs|
    ensures Offset(lens, i) == TotalLength(msgs[..i])
    decreases i
  {
    if i > 0 {
      OffsetIsLength(lens, msgs, i - 1);
      assert HeaderAt(lens, msgs, i - 1);
      assert msgs[..i][..i - 1] == msgs[..i - 1];
    }
  }

  /** The loop takes exactly these messages if and only if the buffer is as long as they are, or one
      byte longer. */
  lemma TakesMessagesIff(lens: nat -> nat, msgs: seq<Msg>, buflen: nat)
    requires Headers(lens) && Holds(lens, msgs) && buflen < SIZE_WRAP
    ensures TakesInside(lens, buflen, |msgs|) <==> TotalLength(msgs) <= buflen < TotalLength(msgs) + MIN_LENGTH
  {
    OffsetIsLength(lens, msgs, |msgs|);
    assert msgs[..|msgs|] == msgs;
    TakesInsideIff(lens, buflen, |msgs|);
  }
}
