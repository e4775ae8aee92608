/** CAN messages as the driver's callers see them. */
module CanMessages {

  const EIO := -5
  const EAGAIN := -11
  const ENOMEM := -12
  const EBUSY := -16
  const ENOENT := -2

  /** A header and as many data bytes as its data length code says. */
  datatype Msg = Msg(id: nat, rtr: bool, data: seq<bv8>)

  /** `CAN_MSGLEN`: a two-byte header, then the data. */
  function Length(m: Msg): nat {
    2 + |m.data|
  }

  const MIN_LENGTH := 2

  function TotalLength(ms: seq<Msg>): nat {
    if ms == [] then 0 else TotalLength(ms[..|ms| - 1]) + Length(ms[|ms| - 1])
  }

  /** All data bytes. */
  function Payload(ms: seq<Msg>): seq<bv8> {
    if ms == [] then [] else Payload(ms[..|ms| - 1]) + ms[|ms| - 1].data
  }

  /** Two bytes for each header and one for each data byte. */
  lemma {:induction false} TotalLengthIs(ms: seq<Msg>)
    ensures TotalLength(ms) == 2 * |ms| + |Payload(ms)|
    decreases |ms|
  {
    if ms != [] { TotalLengthIs(ms[..|ms| - 1]); }
  }

  /** How many messages a read returns: as many as fit, in order. */
  predicate LongestFit(ms: seq<Msg>, buflen: nat, k: nat) {
    && k <= |ms|
    && TotalLength(ms[..k]) <= buflen
    && (k < |ms| ==> TotalLength(ms[..k + 1]) > buflen)
  }

  lemma {:induction false} TotalLengthMonotone(ms: seq<Msg>, i: nat, j: nat)
    requires i <= j <= |ms|
    ensures TotalLength(ms[..i]) <= TotalLength(ms[..j])
    decreases j
  {
    if i < j {
      assert ms[..j][..j - 1] == ms[..j - 1];
      TotalLengthMonotone(ms, i, j - 1);
    }
  }

  /** The longest fit is unique, so a read's length determines what it returned. */
  lemma LongestFitUnique(ms: seq<Msg>, buflen: nat, j: nat, k: nat)
    requires LongestFit(ms, buflen, j) && LongestFit(ms, buflen, k)
    ensures j == k
  {
    if j < k { TotalLengthMonotone(ms, j + 1, k); }
    if k < j { TotalLengthMonotone(ms, k + 1, j); }
  }
}
