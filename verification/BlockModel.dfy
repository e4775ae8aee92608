/** The read/write buffer in front of a block device, as values: what each public call of
    os/drivers/rwbuffer.c does to the media, the write buffer and the read-ahead window.

    The specification is a flat store from block number to contents.  `View` is the store a
    client should see: the buffered block if there is one, otherwise the media.
 */
module BlockModel {

  type Block = seq<bv8>
  type Store = map<nat, Block>

  /** `nblocks`, `wrmaxblocks` and `rhmaxblocks` of the device. */
  datatype Geometry = Geometry(nblocks: nat, wrmax: nat, rhmax: nat)

  datatype Cache = Cache(
    media: Store,
    wr: seq<Block>, wrStart: int, wrNext: int,
    rh: seq<Block>, rhStart: int)

  datatype Op =
    | Read(start: nat, n: nat)
    | Write(start: nat, data: seq<Block>)
    | Timeout

  // ----- stores -----

  predicate Within(b: nat, start: nat, n: nat) {
    start <= b < start + n
  }

  /** The device after a transfer of `bs` to the blocks from `start` on. */
  function Overlay(m: Store, start: nat, bs: seq<Block>): (r: Store)
    ensures forall b :: b in r <==> b in m || start <= b < start + |bs|
    ensures forall b :: b in r ==> r[b] == if start <= b < start + |bs| then bs[b - start] else m[b]
  {
    m + map b: nat | start <= b < start + |bs| && Within(b, start, |bs|) :: bs[b - start]
  }

  function Slice(m: Store, start: nat, n: nat): (s: seq<Block>)
    requires forall b :: start <= b < start + n ==> b in m
    ensures |s| == n && forall i :: 0 <= i < n ==> s[i] == m[start + i]
  {
    seq(n, i requires 0 <= i < n => m[start + i])
  }

  ghost predicate IsOverlay(m: Store, start: nat, bs: seq<Block>, r: Store) {
    && (forall b :: b in r <==> b in m || start <= b < start + |bs|)
    && (forall b :: b in r ==> r[b] == if start <= b < start + |bs| then bs[b - start] else m[b])
  }

  lemma OverlayOf(m: Store, start: nat, bs: seq<Block>) returns (r: Store)
    ensures r == Overlay(m, start, bs) && IsOverlay(m, start, bs, r)
  {
    r := Overlay(m, start, bs);
  }

  lemma OverlaysJoin(m: Store, start: nat, bs: seq<Block>, more: seq<Block>, next: nat, x: Store, y: Store, z: Store)
    requires next == start + |bs| && IsOverlay(m, start, bs, x)
    requires IsOverlay(x, next, more, y) && IsOverlay(m, start, bs + more, z)
    ensures y == z
  {
    forall b ensures b in y <==> b in z {
    }
    forall b | b in y ensures y[b] == z[b] {
    }
  }

  lemma OverlayAppend(m: Store, start: nat, bs: seq<Block>, more: seq<Block>, next: nat)
    requires next == start + |bs|
    ensures Overlay(Overlay(m, start, bs), next, more) == Overlay(m, start, bs + more)
  {
    var x := OverlayOf(m, start, bs);
    var y := OverlayOf(x, next, more);
    var z := OverlayOf(m, start, bs + more);
    OverlaysJoin(m, start, bs, more, next, x, y, z);
  }

  // ----- cache states -----

  /** Touching ranges count as overlapping: the comparison is on closed ranges. */
  predicate Overlap(start1: int, n1: nat, start2: int, n2: nat) {
    !(start1 + n1 < start2 || start1 > start2 + n2)
  }

  predicate Dirty(c: Cache, b: nat) {
    c.wrStart <= b < c.wrStart + |c.wr|
  }

  predicate InWindow(c: Cache, b: nat) {
    c.rhStart <= b < c.rhStart + |c.rh|
  }

  ghost predicate Valid(g: Geometry, c: Cache) {
    && |c.wr| <= g.wrmax
    && |c.rh| <= g.rhmax
    && (c.wr != [] ==> 0 <= c.wrStart && c.wrNext == c.wrStart + |c.wr|)
    && (c.rh != [] ==> 0 <= c.rhStart && c.rhStart + |c.rh| <= g.nblocks)
    && (forall b :: 0 <= b < g.nblocks ==> b in c.media)
  }

  /** What a client should see in block `b`. */
  function Sees(c: Cache, b: nat): Block
    requires b in c.media
  {
    if Dirty(c, b) then c.wr[b - c.wrStart] else c.media[b]
  }

  function View(c: Cache): Store
    requires c.wr != [] ==> 0 <= c.wrStart
  {
    if c.wr == [] then c.media else Overlay(c.media, c.wrStart, c.wr)
  }

  // ----- what each call does -----

  function Flush(c: Cache): Cache
    requires c.wr != [] ==> 0 <= c.wrStart
  {
    if c.wr == [] then c
    else c.(media := View(c), wr := [], wrStart := -1, wrNext := -1)
  }

  function DropWindow(c: Cache): Cache {
    c.(rh := [], rhStart := -1)
  }

  /** A break in the sequence, or no room behind the blocks held. */
  predicate Misses(g: Geometry, c: Cache, start: nat, bs: seq<Block>) {
    (start != c.wrNext && c.wr != []) || |c.wr| + |bs| > g.wrmax
  }

  /** `rwb_writebuffer`: flush on a miss, then append. */
  function Buffer(g: Geometry, c: Cache, start: nat, bs: seq<Block>): Cache
    requires c.wr != [] ==> 0 <= c.wrStart
  {
    Append(if Misses(g, c, start, bs) then Flush(c) else c, start, bs)
  }

  function Append(c: Cache, start: nat, bs: seq<Block>): Cache {
    var first := if c.wr == [] then start else c.wrStart;
    c.(wr := c.wr + bs, wrStart := first, wrNext := first + |c.wr| + |bs|)
  }

  /** `rwb_write`.  With `wrmax == 0` the pass-through write of the source is unreachable. */
  function WriteStep(g: Geometry, c: Cache, start: nat, bs: seq<Block>): Cache
    requires c.wr != [] ==> 0 <= c.wrStart
  {
    var c1 := if g.rhmax > 0 && Overlap(c.rhStart, |c.rh|, start, |bs|) then DropWindow(c) else c;
    if g.wrmax == 0 then c1
    else if |bs| > g.wrmax then
      var c2 := Flush(c1);
      c2.(media := Overlay(c2.media, start, bs))
    else Buffer(g, c1, start, bs)
  }

  /** The flush that precedes a read touching the write buffer. */
  function Settle(g: Geometry, c: Cache, start: nat, n: nat): Cache
    requires c.wr != [] ==> 0 <= c.wrStart
  {
    if g.wrmax > 0 && Overlap(c.wrStart, |c.wr|, start, n) then Flush(c) else c
  }

  /** How many of the requested blocks exist on the device. */
  function Reach(g: Geometry, start: nat, n: nat): (k: nat)
    ensures k <= n && (k > 0 ==> start + k <= g.nblocks)
    ensures k == n <==> n == 0 || start + n <= g.nblocks
    ensures k < n ==> start + k >= g.nblocks
  {
    if start >= g.nblocks then 0 else if n <= g.nblocks - start then n else g.nblocks - start
  }

  function WindowEnd(g: Geometry, start: nat): int {
    if start + g.rhmax > g.nblocks then g.nblocks else start + g.rhmax
  }

  /** First block of the last window that reading [start, start + n) straight from the media loads. */
  function LastChunk(g: Geometry, start: nat, n: nat): (w: nat)
    requires g.rhmax > 0 && n > 0
    ensures start <= w < start + n
    decreases n
  {
    if n <= g.rhmax then start else LastChunk(g, start + g.rhmax, n - g.rhmax)
  }

  /** First block of the window a read leaves loaded, or -1 if it reloads nothing. */
  function LastLoad(g: Geometry, c: Cache, start: nat, n: nat): (w: int)
    requires g.rhmax > 0
    ensures -1 <= w < start + n
  {
    if n == 0 then -1
    else if !InWindow(c, start) then LastChunk(g, start, n)
    else if start + n <= c.rhStart + |c.rh| then -1
    else LastChunk(g, c.rhStart + |c.rh|, start + n - (c.rhStart + |c.rh|))
  }

  function Load(g: Geometry, c: Cache, start: nat): Cache
    requires Covered(g, c.media) && start < g.nblocks
  {
    c.(rh := Slice(c.media, start, WindowEnd(g, start) - start), rhStart := start)
  }

  predicate Covered(g: Geometry, m: Store) {
    forall b :: 0 <= b < g.nblocks ==> b in m
  }

  /** The read-ahead window after serving `n` blocks that all exist. */
  function ReadAhead(g: Geometry, c: Cache, start: nat, n: nat): Cache
    requires Covered(g, c.media) && g.rhmax > 0
    requires n > 0 ==> start + n <= g.nblocks
  {
    var w := LastLoad(g, c, start, n);
    if w < 0 then c else Load(g, c, w)
  }

  /** The block handed to the caller at offset `i`: the window's copy as long as the request
      started inside the window and has not left it, the media from then on. */
  function Served(c: Cache, start: nat, i: nat): Block
    requires start + i in c.media
  {
    if InWindow(c, start) && InWindow(c, start + i) then c.rh[start + i - c.rhStart] else c.media[start + i]
  }

  function Serve(g: Geometry, c: Cache, start: nat, n: nat): (s: seq<Block>)
    requires Covered(g, c.media) && (n > 0 ==> start + n <= g.nblocks)
    ensures |s| == n && forall i :: 0 <= i < n ==> s[i] == Served(c, start, i)
  {
    seq(n, i requires 0 <= i < n => Served(c, start, i))
  }

  /** `rwb_read`: the new state. */
  function ReadStep(g: Geometry, c: Cache, start: nat, n: nat): Cache
    requires Valid(g, c)
  {
    var c1 := Settle(g, c, start, n);
    if g.rhmax == 0 then c1 else ReadAhead(g, c1, start, Reach(g, start, n))
  }

  /** `rwb_read`: the blocks stored through the caller's pointer before it returns. */
  function Delivered(g: Geometry, c: Cache, start: nat, n: nat): seq<Block>
    requires Valid(g, c)
  {
    var c1 := Settle(g, c, start, n);
    if g.rhmax == 0 then [] else Serve(g, c1, start, Reach(g, start, n))
  }

  function Step(g: Geometry, c: Cache, op: Op): Cache
    requires Valid(g, c)
  {
    match op
    case Read(start, n) => ReadStep(g, c, start, n)
    case Write(start, data) => WriteStep(g, c, start, data)
    case Timeout => Flush(c)
  }

  function Output(g: Geometry, c: Cache, op: Op): seq<Block>
    requires Valid(g, c)
  {
    if op.Read? then Delivered(g, c, op.start, op.n) else []
  }

  // ----- the flat store -----

  function FlatStep(m: Store, op: Op): Store {
    if op.Write? then Overlay(m, op.start, op.data) else m
  }

  function FlatOutput(g: Geometry, m: Store, op: Op): seq<Block>
    requires Covered(g, m)
  {
    if op.Read? then Slice(m, op.start, Reach(g, op.start, op.n)) else []
  }
}
