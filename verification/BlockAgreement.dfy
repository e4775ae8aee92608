/** When the buffered device behaves like the flat store. */
module BlockAgreement {
  import opened BlockModel
  import opened RingIndex

  predicate CoherentAt(c: Cache, b: nat) {
    InWindow(c, b) ==> b in c.media && c.rh[b - c.rhStart] == Sees(c, b)
  }

  /** Every copy in the read-ahead window is what a client should see. */
  ghost predicate Coherent(c: Cache) {
    forall b: nat :: CoherentAt(c, b)
  }

  predicate SeparateAt(c: Cache, b: nat) {
    InWindow(c, b) ==> !Dirty(c, b) && b in c.media && c.rh[b - c.rhStart] == c.media[b]
  }

  /** The window equals the media and holds no dirty block. */
  ghost predicate Separate(c: Cache) {
    forall b: nat :: SeparateAt(c, b)
  }

  predicate CleanAt(g: Geometry, c: Cache, w: nat, b: nat) {
    w <= b < WindowEnd(g, w) && Dirty(c, b) ==> b in c.media && c.media[b] == Sees(c, b)
  }

  /** Each dirty block of the window at `w` already has its buffered contents on the media. */
  ghost predicate WindowIsClean(g: Geometry, c: Cache, w: nat) {
    forall b: nat :: CleanAt(g, c, w, b)
  }

  predicate ApartAt(g: Geometry, c: Cache, w: nat, b: nat) {
    w <= b < WindowEnd(g, w) ==> !Dirty(c, b)
  }

  ghost predicate WindowIsApart(g: Geometry, c: Cache, w: nat) {
    forall b: nat :: ApartAt(g, c, w, b)
  }

  /** Position `p` lies in the range or right behind its last block. */
  predicate Reaches(start: int, n: nat, p: int) {
    start <= p <= start + n
  }

  /** The overlap test is true exactly when the ranges meet, if only end to end. */
  lemma OverlapIff(start1: int, n1: nat, start2: int, n2: nat)
    ensures Overlap(start1, n1, start2, n2) <==> exists p :: Reaches(start1, n1, p) && Reaches(start2, n2, p)
  {
    if Overlap(start1, n1, start2, n2) {
      var p := if start1 < start2 then start2 else start1;
      assert Reaches(start1, n1, p) && Reaches(start2, n2, p);
    }
  }

  // ----- views -----

  lemma ViewAt(c: Cache, b: nat)
    requires c.wr != [] ==> 0 <= c.wrStart
    requires b in c.media
    ensures b in View(c) && View(c)[b] == Sees(c, b)
  {
  }

  lemma OverlayNothing(m: Store, start: nat)
    ensures Overlay(m, start, []) == m
  {
  }

  lemma FlushKeeps(g: Geometry, c: Cache)
    requires Valid(g, c)
    ensures Valid(g, Flush(c)) && Flush(c).wr == [] && View(Flush(c)) == View(c)
    ensures Flush(c).rh == c.rh && Flush(c).rhStart == c.rhStart
  {
  }

  lemma FlushAt(g: Geometry, c: Cache, b: nat)
    requires Valid(g, c)
    ensures CoherentAt(Flush(c), b) <==> CoherentAt(c, b)
    ensures SeparateAt(c, b) ==> SeparateAt(Flush(c), b)
  {
    if InWindow(c, b) { ViewAt(c, b); }
  }

  lemma AppendToEmpty(c: Cache, start: nat, bs: seq<Block>)
    requires c.wr == []
    ensures View(Append(c, start, bs)) == Overlay(c.media, start, bs)
  {
    assert Append(c, start, bs).wr == bs;
    if bs == [] { OverlayNothing(c.media, start); }
  }

  lemma ViewIs(c: Cache, m: Store, start: nat, bs: seq<Block>)
    requires c.media == m && c.wrStart == start && c.wr == bs && bs != []
    ensures View(c) == Overlay(m, start, bs)
  {
  }

  lemma AppendInSequence(c: Cache, start: nat, bs: seq<Block>)
    requires c.wr != [] && 0 <= c.wrStart && start == c.wrStart + |c.wr|
    ensures View(Append(c, start, bs)) == Overlay(View(c), start, bs)
  {
    ViewIs(Append(c, start, bs), c.media, c.wrStart, c.wr + bs);
    ViewIs(c, c.media, c.wrStart, c.wr);
    OverlayAppend(c.media, c.wrStart, c.wr, bs, start);
  }

  lemma AppendIsOverlay(g: Geometry, c: Cache, start: nat, bs: seq<Block>)
    requires Valid(g, c) && |c.wr| + |bs| <= g.wrmax
    requires c.wr != [] ==> start == c.wrNext
    ensures Valid(g, Append(c, start, bs))
    ensures View(Append(c, start, bs)) == Overlay(View(c), start, bs)
  {
    if c.wr == [] {
      AppendToEmpty(c, start, bs);
    } else {
      AppendInSequence(c, start, bs);
    }
  }

  lemma BufferIsOverlay(g: Geometry, c: Cache, start: nat, bs: seq<Block>)
    requires Valid(g, c) && |bs| <= g.wrmax
    ensures Valid(g, Buffer(g, c, start, bs))
    ensures View(Buffer(g, c, start, bs)) == Overlay(View(c), start, bs)
  {
    if Misses(g, c, start, bs) {
      FlushKeeps(g, c);
      AppendIsOverlay(g, Flush(c), start, bs);
    } else {
      AppendIsOverlay(g, c, start, bs);
    }
  }

  // ----- writes -----

  /** A write of any size is an update of the flat store. */
  lemma WriteIsOverlay(g: Geometry, c: Cache, start: nat, bs: seq<Block>)
    requires Valid(g, c) && g.wrmax > 0
    ensures Valid(g, WriteStep(g, c, start, bs))
    ensures View(WriteStep(g, c, start, bs)) == Overlay(View(c), start, bs)
  {
    var c1 := if g.rhmax > 0 && Overlap(c.rhStart, |c.rh|, start, |bs|) then DropWindow(c) else c;
    DropKeeps(g, c);
    if |bs| > g.wrmax {
      ThroughIsOverlay(g, c1, start, bs);
    } else {
      BufferIsOverlay(g, c1, start, bs);
    }
  }

  lemma DropKeeps(g: Geometry, c: Cache)
    requires Valid(g, c)
    ensures Valid(g, DropWindow(c)) && View(DropWindow(c)) == View(c)
  {
  }

  lemma ThroughIsOverlay(g: Geometry, c: Cache, start: nat, bs: seq<Block>)
    requires Valid(g, c)
    ensures var f := Flush(c); var c' := f.(media := Overlay(f.media, start, bs));
      Valid(g, c') && View(c') == Overlay(View(c), start, bs)
  {
    FlushKeeps(g, c);
  }

  /** What a write leaves behind, for a valid buffer: data that continues the blocks held and fits is
      appended without touching the media; data that does not is held alone, with the blocks held before
      on the media; data larger than the buffer goes to the media behind them.  The window survives
      exactly if the write does not reach it. */
  lemma WriteIs(g: Geometry, c: Cache, start: nat, bs: seq<Block>)
    requires Valid(g, c) && g.wrmax > 0
    ensures var c' := WriteStep(g, c, start, bs);
      && (|bs| > g.wrmax ==> c'.wr == [] && c'.media == Overlay(View(c), start, bs))
      && (|bs| <= g.wrmax && (c.wr == [] || start == c.wrStart + |c.wr|) && |c.wr| + |bs| <= g.wrmax ==>
            c'.media == c.media && c'.wr == c.wr + bs && c'.wrStart == if c.wr == [] then start else c.wrStart)
      && (|bs| <= g.wrmax && c.wr != [] && (start != c.wrStart + |c.wr| || |c.wr| + |bs| > g.wrmax) ==>
            c'.media == View(c) && c'.wr == bs && c'.wrStart == start)
    ensures var c' := WriteStep(g, c, start, bs);
      if g.rhmax > 0 && exists p :: Reaches(c.rhStart, |c.rh|, p) && Reaches(start, |bs|, p)
      then c'.rh == [] else c'.rh == c.rh && c'.rhStart == c.rhStart
  {
    OverlapIff(c.rhStart, |c.rh|, start, |bs|);
    assert [] + bs == bs;
  }

  lemma WindowAfterWrite(g: Geometry, c: Cache, start: nat, bs: seq<Block>, b: nat)
    requires Valid(g, c) && g.rhmax > 0
    requires InWindow(WriteStep(g, c, start, bs), b)
    ensures var c' := WriteStep(g, c, start, bs);
      c'.rh == c.rh && c'.rhStart == c.rhStart && !(start <= b < start + |bs|)
  {
  }

  lemma WriteAt(g: Geometry, c: Cache, start: nat, bs: seq<Block>, b: nat)
    requires Valid(g, c) && g.wrmax > 0 && g.rhmax > 0
    requires CoherentAt(c, b)
    ensures CoherentAt(WriteStep(g, c, start, bs), b)
  {
    var c' := WriteStep(g, c, start, bs);
    if InWindow(c', b) {
      WindowAfterWrite(g, c, start, bs, b);
      WriteIsOverlay(g, c, start, bs);
      ViewAt(c', b);
      ViewAt(c, b);
      assert View(c')[b] == View(c)[b];
    }
  }

  predicate CleanIn(c: Cache, b: nat, was: Block) {
    !Dirty(c, b) && b in c.media && c.media[b] == was
  }

  lemma FlushSpares(c: Cache, b: nat, was: Block)
    requires (c.wr != [] ==> 0 <= c.wrStart) && CleanIn(c, b, was)
    ensures CleanIn(Flush(c), b, was)
  {
  }

  lemma AppendSpares(g: Geometry, c: Cache, start: nat, bs: seq<Block>, b: nat, was: Block)
    requires Valid(g, c) && CleanIn(c, b, was) && !(start <= b < start + |bs|)
    requires c.wr != [] ==> start == c.wrNext
    ensures CleanIn(Append(c, start, bs), b, was)
  {
  }

  /** A write leaves the media alone outside its range and outside the dirty range. */
  lemma WriteSpares(g: Geometry, c: Cache, start: nat, bs: seq<Block>, b: nat, was: Block)
    requires Valid(g, c) && g.wrmax > 0 && CleanIn(c, b, was) && !(start <= b < start + |bs|)
    ensures CleanIn(WriteStep(g, c, start, bs), b, was)
  {
    var c1 := if g.rhmax > 0 && Overlap(c.rhStart, |c.rh|, start, |bs|) then DropWindow(c) else c;
    FlushSpares(c1, b, was);
    FlushKeeps(g, c1);
    if |bs| <= g.wrmax {
      if Misses(g, c1, start, bs) {
        AppendSpares(g, Flush(c1), start, bs, b, was);
      } else {
        AppendSpares(g, c1, start, bs, b, was);
      }
    }
  }

  lemma WriteKeepsSeparate(g: Geometry, c: Cache, start: nat, bs: seq<Block>, b: nat)
    requires Valid(g, c) && g.wrmax > 0 && g.rhmax > 0
    requires SeparateAt(c, b)
    ensures SeparateAt(WriteStep(g, c, start, bs), b)
  {
    if InWindow(WriteStep(g, c, start, bs), b) {
      WindowAfterWrite(g, c, start, bs, b);
      WriteSpares(g, c, start, bs, b, c.media[b]);
    }
  }

  /** A zero-sized write buffer loses every write (the pass-through call is unreachable), and a
      zero-sized read-ahead buffer delivers nothing. */
  lemma DisabledBuffersLoseData(g: Geometry, c: Cache, start: nat, bs: seq<Block>, n: nat)
    requires Valid(g, c)
    ensures g.wrmax == 0 ==> View(WriteStep(g, c, start, bs)) == View(c)
    ensures g.rhmax == 0 ==> Delivered(g, c, start, n) == []
  {
  }

  // ----- reads -----

  lemma SettleKeeps(g: Geometry, c: Cache, start: nat, n: nat)
    requires Valid(g, c) && g.wrmax > 0
    ensures var c1 := Settle(g, c, start, n);
      && Valid(g, c1) && View(c1) == View(c)
      && c1.rh == c.rh && c1.rhStart == c.rhStart
      && forall b: nat :: start <= b < start + n ==> !Dirty(c1, b)
  {
    FlushKeeps(g, c);
  }

  /** The write buffer is flushed before a read exactly if the read reaches the blocks held. */
  lemma SettleIs(g: Geometry, c: Cache, start: nat, n: nat)
    requires Valid(g, c) && g.wrmax > 0 && c.wr != []
    ensures var c1 := Settle(g, c, start, n);
      if exists p :: Reaches(c.wrStart, |c.wr|, p) && Reaches(start, n, p)
      then c1.wr == [] && c1.media == View(c) else c1 == c
  {
    OverlapIff(c.wrStart, |c.wr|, start, n);
  }

  lemma LoadIsValid(g: Geometry, c: Cache, w: nat)
    requires Valid(g, c) && w < g.nblocks
    ensures Valid(g, Load(g, c, w)) && View(Load(g, c, w)) == View(c)
  {
  }

  lemma LoadAt(g: Geometry, c: Cache, w: nat, b: nat)
    requires Valid(g, c) && w < g.nblocks
    ensures CoherentAt(Load(g, c, w), b) <==> CleanAt(g, c, w, b)
    ensures SeparateAt(Load(g, c, w), b) <==> ApartAt(g, c, w, b)
  {
    var c' := Load(g, c, w);
    assert InWindow(c', b) <==> w <= b < WindowEnd(g, w);
    if InWindow(c', b) {
      assert c'.rh[b - c'.rhStart] == c.media[b];
      assert Sees(c', b) == Sees(c, b);
    }
  }

  /** A read never changes the flat store. */
  lemma ReadKeepsView(g: Geometry, c: Cache, start: nat, n: nat)
    requires Valid(g, c) && g.wrmax > 0
    ensures Valid(g, ReadStep(g, c, start, n)) && View(ReadStep(g, c, start, n)) == View(c)
  {
    SettleKeeps(g, c, start, n);
    var c1, k := Settle(g, c, start, n), Reach(g, start, n);
    if g.rhmax > 0 {
      var w := LastLoad(g, c1, start, k);
      if w >= 0 { LoadIsValid(g, c1, w); }
    }
  }

  lemma {:induction false} LastChunkIs(g: Geometry, start: nat, n: nat)
    requires g.rhmax > 0 && n > 0
    ensures LastChunk(g, start, n) == start + (n - 1) / g.rhmax * g.rhmax
    decreases n
  {
    Multiples(n - 1, g.rhmax);
    if n > g.rhmax { LastChunkIs(g, start + g.rhmax, n - g.rhmax); }
  }

  /** The largest multiple of `m` up to `x`, one `m` at a time. */
  lemma Multiples(x: nat, m: nat)
    requires m > 0
    ensures x < m ==> x / m * m == 0
    ensures x >= m ==> x / m * m == m + (x - m) / m * m
  {
    if x < m {
      QuotientIs(x, 0, x, m);
    } else {
      var q := (x - m) / m;
      DivMod(x - m, m);
      Distribute(q, -1, m);
      QuotientIs(x, q + 1, (x - m) % m, m);
    }
  }

  lemma QuotientIs(x: int, q: int, r: int, m: nat)
    requires 0 <= r < m && x == q * m + r
    ensures x / m == q
  {
    DivMod(x, m);
    Distribute(x / m, q, m);
    Distribute(q, x / m, m);
    if x / m > q { MulAtLeast(x / m - q, m); }
    if x / m < q { MulAtLeast(q - x / m, m); }
  }

  /** A window of full size, or up to the end of the media, with the contents of the media. */
  ghost predicate FreshWindow(g: Geometry, c: Cache) {
    && 0 <= c.rhStart && 0 < |c.rh| && (|c.rh| == g.rhmax || c.rhStart + |c.rh| == g.nblocks)
    && forall i :: 0 <= i < |c.rh| ==> c.rhStart + i in c.media && c.rh[i] == c.media[c.rhStart + i]
  }

  lemma LoadIsFresh(g: Geometry, c: Cache, w: nat)
    requires Valid(g, c) && g.rhmax > 0 && w < g.nblocks
    ensures FreshWindow(g, Load(g, c, w))
    ensures var c' := Load(g, c, w); c'.rhStart == w && c'.media == c.media && c'.wr == c.wr
  {
  }

  /** Which window a read of existing blocks leaves: the one it found, if that has all of them, and
      otherwise the last of the full windows that start at the first block it lacks; as long as the
      buffer or up to the end of the media, with the contents of the media. */
  lemma WindowAfterRead(g: Geometry, c: Cache, start: nat, n: nat)
    requires Valid(g, c) && g.wrmax > 0 && g.rhmax > 0 && n > 0 && start + n <= g.nblocks
    ensures var c1, c' := Settle(g, c, start, n), ReadStep(g, c, start, n);
      if InWindow(c, start) && start + n <= c.rhStart + |c.rh| then c' == c1
      else
        var first := if InWindow(c, start) then c.rhStart + |c.rh| else start;
        && c'.rhStart == first + (start + n - 1 - first) / g.rhmax * g.rhmax
        && c'.media == c1.media && c'.wr == c1.wr && FreshWindow(g, c')
  {
    if !(InWindow(c, start) && start + n <= c.rhStart + |c.rh|) {
      var first := if InWindow(c, start) then c.rhStart + |c.rh| else start;
      LoadedByRead(g, c, start, n, first);
      LastChunkIs(g, first, start + n - first);
    }
  }

  lemma LoadedByRead(g: Geometry, c: Cache, start: nat, n: nat, first: nat)
    requires Valid(g, c) && g.wrmax > 0 && g.rhmax > 0 && n > 0 && start + n <= g.nblocks
    requires first == (if InWindow(c, start) then c.rhStart + |c.rh| else start) && first < start + n
    ensures var c1, c' := Settle(g, c, start, n), ReadStep(g, c, start, n);
      && c'.rhStart == LastChunk(g, first, start + n - first)
      && c'.media == c1.media && c'.wr == c1.wr && FreshWindow(g, c')
  {
    SettleKeeps(g, c, start, n);
    LoadIsFresh(g, Settle(g, c, start, n), LastChunk(g, first, start + n - first));
  }

  lemma ServedIsSeen(c: Cache, start: nat, i: nat)
    requires start + i in c.media && CoherentAt(c, start + i) && !Dirty(c, start + i)
    ensures Served(c, start, i) == Sees(c, start + i)
  {
  }

  lemma ServedBlock(g: Geometry, c: Cache, start: nat, n: nat, i: nat)
    requires Valid(g, c) && g.wrmax > 0 && g.rhmax > 0 && Coherent(c)
    requires i < Reach(g, start, n)
    ensures Served(Settle(g, c, start, n), start, i) == View(c)[start + i]
  {
    var c1 := Settle(g, c, start, n);
    SettleKeeps(g, c, start, n);
    assert CoherentAt(c, start + i);
    FlushAt(g, c, start + i);
    ServedIsSeen(c1, start, i);
    ViewAt(c1, start + i);
  }

  ghost predicate ReadIsFlat(g: Geometry, c: Cache, start: nat, n: nat)
    requires Valid(g, c)
  {
    Delivered(g, c, start, n) == FlatOutput(g, View(c), Read(start, n))
  }

  /** From a coherent state every read, in range or not, delivers what the flat store holds. */
  lemma CoherentReadIsFlat(g: Geometry, c: Cache, start: nat, n: nat)
    requires Valid(g, c) && g.wrmax > 0 && g.rhmax > 0 && Coherent(c)
    ensures ReadIsFlat(g, c, start, n)
  {
    var k := Reach(g, start, n);
    forall i: nat | i < k ensures Delivered(g, c, start, n)[i] == View(c)[start + i] {
      ServedBlock(g, c, start, n, i);
    }
    assert |Delivered(g, c, start, n)| == k;
  }

  ghost predicate EveryReadIsFlat(g: Geometry, c: Cache)
    requires Valid(g, c)
  {
    forall start: nat, n: nat :: ReadIsFlat(g, c, start, n)
  }

  /** Coherence is exactly what clients need: without it some one-block read is wrong. */
  lemma CoherentIffReadsFlat(g: Geometry, c: Cache)
    requires Valid(g, c) && g.wrmax > 0 && g.rhmax > 0
    ensures Coherent(c) <==> EveryReadIsFlat(g, c)
  {
    if Coherent(c) {
      forall start: nat, n: nat ensures ReadIsFlat(g, c, start, n) { CoherentReadIsFlat(g, c, start, n); }
    }
    if EveryReadIsFlat(g, c) {
      forall b: nat ensures CoherentAt(c, b) {
        if InWindow(c, b) {
          assert ReadIsFlat(g, c, b, 1);
          SettleKeeps(g, c, b, 1);
          ViewAt(c, b);
          assert Delivered(g, c, b, 1)[0] == Served(Settle(g, c, b, 1), b, 0);
        }
      }
    }
  }

  /** The window this read leaves loaded holds no block that is newer in the write buffer. */
  ghost predicate ReadIsGuarded(g: Geometry, c: Cache, start: nat, n: nat)
    requires Valid(g, c) && g.rhmax > 0
  {
    var c1 := Settle(g, c, start, n);
    var w := LastLoad(g, c1, start, Reach(g, start, n));
    w < 0 || WindowIsClean(g, c1, w)
  }

  /** A read keeps the window coherent exactly when it is guarded. */
  lemma ReadKeepsCoherentIff(g: Geometry, c: Cache, start: nat, n: nat)
    requires Valid(g, c) && g.wrmax > 0 && g.rhmax > 0 && Coherent(c)
    ensures Coherent(ReadStep(g, c, start, n)) <==> ReadIsGuarded(g, c, start, n)
  {
    SettleKeeps(g, c, start, n);
    var c1 := Settle(g, c, start, n);
    var w := LastLoad(g, c1, start, Reach(g, start, n));
    if w < 0 {
      forall b: nat ensures CoherentAt(c1, b) { assert CoherentAt(c, b); FlushAt(g, c, b); }
    } else {
      forall b: nat ensures CoherentAt(Load(g, c1, w), b) <==> CleanAt(g, c1, w, b) { LoadAt(g, c1, w, b); }
      if Coherent(Load(g, c1, w)) {
        forall b: nat ensures CleanAt(g, c1, w, b) { assert CoherentAt(Load(g, c1, w), b); }
      }
    }
  }

  /** Every call keeps the geometry of the buffers, enabled or not. */
  lemma StepIsValid(g: Geometry, c: Cache, op: Op)
    requires Valid(g, c)
    ensures Valid(g, Step(g, c, op))
  {
    FlushKeeps(g, c);
    match op
    case Read(start, n) =>
      var c1 := Settle(g, c, start, n);
      assert Valid(g, c1);
      if g.rhmax > 0 {
        var w := LastLoad(g, c1, start, Reach(g, start, n));
        if w >= 0 { LoadIsValid(g, c1, w); }
      }
    case Write(start, data) =>
      if g.wrmax > 0 { WriteIsOverlay(g, c, start, data); }
    case Timeout =>
  }

  // ----- runs -----

  function Run(g: Geometry, c: Cache, ops: seq<Op>): (c': Cache)
    requires Valid(g, c)
    ensures Valid(g, c')
    decreases |ops|
  {
    if ops == [] then c
    else
      StepIsValid(g, c, ops[0]);
      Run(g, Step(g, c, ops[0]), ops[1..])
  }

  function Outputs(g: Geometry, c: Cache, ops: seq<Op>): seq<seq<Block>>
    requires Valid(g, c)
    decreases |ops|
  {
    if ops == [] then []
    else
      StepIsValid(g, c, ops[0]);
      [Output(g, c, ops[0])] + Outputs(g, Step(g, c, ops[0]), ops[1..])
  }

  function FlatRun(m: Store, ops: seq<Op>): Store
    decreases |ops|
  {
    if ops == [] then m else FlatRun(FlatStep(m, ops[0]), ops[1..])
  }

  function FlatOutputs(g: Geometry, m: Store, ops: seq<Op>): seq<seq<Block>>
    requires Covered(g, m)
    decreases |ops|
  {
    if ops == [] then [] else [FlatOutput(g, m, ops[0])] + FlatOutputs(g, FlatStep(m, ops[0]), ops[1..])
  }

  lemma StepKeepsView(g: Geometry, c: Cache, op: Op)
    requires Valid(g, c) && g.wrmax > 0
    ensures Valid(g, Step(g, c, op)) && View(Step(g, c, op)) == FlatStep(View(c), op)
  {
    match op
    case Read(start, n) => ReadKeepsView(g, c, start, n);
    case Write(start, data) => WriteIsOverlay(g, c, start, data);
    case Timeout => FlushKeeps(g, c);
  }

  /** The write buffer refines the plain device: whatever the reads return, the view after any
      run is the flat store given the same writes. */
  lemma {:induction false} RunRefinesFlat(g: Geometry, c: Cache, ops: seq<Op>)
    requires Valid(g, c) && g.wrmax > 0
    ensures View(Run(g, c, ops)) == FlatRun(View(c), ops)
    decreases |ops|
  {
    if ops != [] {
      StepKeepsView(g, c, ops[0]);
      RunRefinesFlat(g, Step(g, c, ops[0]), ops[1..]);
    }
  }

  /** A read of blocks that do not all exist, which returns without giving back `rhsem`. */
  predicate Overruns(g: Geometry, op: Op) {
    op.Read? && g.rhmax > 0 && op.n > 0 && op.start + op.n > g.nblocks
  }

  /** One of the first `j` calls kept `rhsem`. */
  predicate Kept(g: Geometry, ops: seq<Op>, j: nat)
    requires j <= |ops|
  {
    exists i :: 0 <= i < j && Overruns(g, ops[i])
  }

  lemma KeptNext(g: Geometry, ops: seq<Op>, j: nat)
    requires j < |ops|
    ensures Kept(g, ops, j + 1) <==> Kept(g, ops, j) || Overruns(g, ops[j])
  {
  }

  /** Call `j` takes `rhsem` after a call that kept it. */
  predicate Blocks(g: Geometry, ops: seq<Op>, j: nat)
    requires j < |ops|
  {
    !ops[j].Timeout? && Kept(g, ops, j)
  }

  ghost predicate Guarded(g: Geometry, c: Cache, op: Op)
    requires Valid(g, c) && g.rhmax > 0
  {
    op.Read? ==> ReadIsGuarded(g, c, op.start, op.n)
  }

  lemma StepKeepsCoherentIff(g: Geometry, c: Cache, op: Op)
    requires Valid(g, c) && g.wrmax > 0 && g.rhmax > 0 && Coherent(c)
    ensures Coherent(Step(g, c, op)) <==> Guarded(g, c, op)
  {
    match op
    case Read(start, n) => ReadKeepsCoherentIff(g, c, start, n);
    case Write(start, data) =>
      forall b: nat ensures CoherentAt(Step(g, c, op), b) {
        assert CoherentAt(c, b);
        WriteAt(g, c, start, data, b);
      }
    case Timeout =>
      forall b: nat ensures CoherentAt(Step(g, c, op), b) {
        assert CoherentAt(c, b);
        FlushAt(g, c, b);
      }
  }

  /** Every read of the run leaves behind a window without newer buffered blocks. */
  ghost predicate RunIsGuarded(g: Geometry, c: Cache, ops: seq<Op>)
    requires Valid(g, c) && g.wrmax > 0 && g.rhmax > 0
    decreases |ops|
  {
    ops == [] ||
    (Guarded(g, c, ops[0]) &&
     (StepKeepsView(g, c, ops[0]); RunIsGuarded(g, Step(g, c, ops[0]), ops[1..])))
  }

  /** In a guarded run every read returns what the flat store given the same writes would. */
  lemma {:induction false} GuardedRunIsFlat(g: Geometry, c: Cache, ops: seq<Op>)
    requires Valid(g, c) && g.wrmax > 0 && g.rhmax > 0 && Coherent(c)
    requires RunIsGuarded(g, c, ops)
    ensures Outputs(g, c, ops) == FlatOutputs(g, View(c), ops)
    ensures Coherent(Run(g, c, ops))
    decreases |ops|
  {
    if ops != [] {
      StepKeepsView(g, c, ops[0]);
      StepKeepsCoherentIff(g, c, ops[0]);
      if ops[0].Read? { CoherentReadIsFlat(g, c, ops[0].start, ops[0].n); }
      GuardedRunIsFlat(g, Step(g, c, ops[0]), ops[1..]);
    }
  }

  /** At every point of the run, any read at all would be right. */
  ghost predicate FlatThroughout(g: Geometry, c: Cache, ops: seq<Op>)
    requires Valid(g, c) && g.wrmax > 0 && g.rhmax > 0
    decreases |ops|
  {
    EveryReadIsFlat(g, c) &&
    (ops == [] || (StepKeepsView(g, c, ops[0]); FlatThroughout(g, Step(g, c, ops[0]), ops[1..])))
  }

  /** The guard is exact: a run is right at every point if and only if it is guarded. */
  lemma {:induction false} RunIsFlatIffGuarded(g: Geometry, c: Cache, ops: seq<Op>)
    requires Valid(g, c) && g.wrmax > 0 && g.rhmax > 0 && Coherent(c)
    ensures FlatThroughout(g, c, ops) <==> RunIsGuarded(g, c, ops)
    decreases |ops|
  {
    CoherentIffReadsFlat(g, c);
    if ops != [] {
      var c' := Step(g, c, ops[0]);
      StepKeepsView(g, c, ops[0]);
      StepKeepsCoherentIff(g, c, ops[0]);
      CoherentIffReadsFlat(g, c');
      if Coherent(c') { RunIsFlatIffGuarded(g, c', ops[1..]); }
    }
  }

  // ----- windows kept apart from the dirty range -----

  /** The window this read leaves loaded holds no dirty block. */
  ghost predicate ReadIsApart(g: Geometry, c: Cache, start: nat, n: nat)
    requires Valid(g, c) && g.rhmax > 0
  {
    var c1 := Settle(g, c, start, n);
    var w := LastLoad(g, c1, start, Reach(g, start, n));
    w < 0 || WindowIsApart(g, c1, w)
  }

  ghost predicate RunIsApart(g: Geometry, c: Cache, ops: seq<Op>)
    requires Valid(g, c) && g.wrmax > 0 && g.rhmax > 0
    decreases |ops|
  {
    ops == [] ||
    ((ops[0].Read? ==> ReadIsApart(g, c, ops[0].start, ops[0].n)) &&
     (StepKeepsView(g, c, ops[0]); RunIsApart(g, Step(g, c, ops[0]), ops[1..])))
  }

  lemma SeparateIsCoherent(c: Cache)
    requires Separate(c)
    ensures Coherent(c)
  {
    forall b: nat ensures CoherentAt(c, b) { assert SeparateAt(c, b); }
  }

  lemma ReadKeepsSeparateIff(g: Geometry, c: Cache, start: nat, n: nat)
    requires Valid(g, c) && g.wrmax > 0 && g.rhmax > 0 && Separate(c)
    ensures Separate(ReadStep(g, c, start, n)) <==> ReadIsApart(g, c, start, n)
    ensures ReadIsApart(g, c, start, n) ==> ReadIsGuarded(g, c, start, n)
  {
    SettleKeeps(g, c, start, n);
    var c1 := Settle(g, c, start, n);
    var w := LastLoad(g, c1, start, Reach(g, start, n));
    if w < 0 {
      forall b: nat ensures SeparateAt(c1, b) { assert SeparateAt(c, b); FlushAt(g, c, b); }
    } else {
      forall b: nat ensures SeparateAt(Load(g, c1, w), b) <==> ApartAt(g, c1, w, b) { LoadAt(g, c1, w, b); }
      if Separate(Load(g, c1, w)) {
        forall b: nat ensures ApartAt(g, c1, w, b) { assert SeparateAt(Load(g, c1, w), b); }
      }
      if WindowIsApart(g, c1, w) {
        forall b: nat ensures CleanAt(g, c1, w, b) { assert ApartAt(g, c1, w, b); }
      }
    }
  }

  lemma StepKeepsSeparate(g: Geometry, c: Cache, op: Op)
    requires Valid(g, c) && g.wrmax > 0 && g.rhmax > 0 && Separate(c)
    requires op.Read? ==> ReadIsApart(g, c, op.start, op.n)
    ensures Separate(Step(g, c, op)) && Guarded(g, c, op)
  {
    match op
    case Read(start, n) => ReadKeepsSeparateIff(g, c, start, n);
    case Write(start, data) =>
      forall b: nat ensures SeparateAt(Step(g, c, op), b) {
        assert SeparateAt(c, b);
        WriteKeepsSeparate(g, c, start, data, b);
      }
    case Timeout =>
      forall b: nat ensures SeparateAt(Step(g, c, op), b) {
        assert SeparateAt(c, b);
        FlushAt(g, c, b);
      }
  }

  /** As long as reads load windows that avoid the dirty range, the read-ahead copy equals the
      media and stays disjoint from the dirty range, and every read is flat. */
  lemma {:induction false} ApartRunIsFlat(g: Geometry, c: Cache, ops: seq<Op>)
    requires Valid(g, c) && g.wrmax > 0 && g.rhmax > 0 && Separate(c)
    requires RunIsApart(g, c, ops)
    ensures Separate(Run(g, c, ops)) && RunIsGuarded(g, c, ops)
    ensures Outputs(g, c, ops) == FlatOutputs(g, View(c), ops)
    decreases |ops|
  {
    if ops != [] {
      var op := ops[0];
      StepKeepsView(g, c, op);
      StepKeepsSeparate(g, c, op);
      SeparateIsCoherent(c);
      if op.Read? { CoherentReadIsFlat(g, c, op.start, op.n); }
      ApartRunIsFlat(g, Step(g, c, op), ops[1..]);
    }
  }

  // ----- the guard cannot be dropped -----

  function Fresh(was: Block): Cache {
    Cache(map[0 := was, 1 := was, 2 := was, 3 := was], [], -1, -1, [], -1)
  }

  /** Block 2 has been written and is still buffered. */
  function Unflushed(was: Block, now: Block): Cache {
    Fresh(was).(wr := [now], wrStart := 2, wrNext := 3)
  }

  lemma UnflushedIsReached(was: Block, now: Block)
    ensures WriteStep(Geometry(4, 2, 3), Fresh(was), 2, [now]) == Unflushed(was, now)
  {
    assert [] + [now] == [now];
  }

  /** Reading block 0 then loads blocks 0 to 2 from the media, and a later read of block 2 returns
      the contents from before the write. */
  lemma StaleRead(was: Block, now: Block)
    requires was != now
    ensures var g, c := Geometry(4, 2, 3), Unflushed(was, now);
      && Valid(g, c) && Separate(c)
      && Valid(g, Step(g, c, Read(0, 1)))
      && Output(g, Step(g, c, Read(0, 1)), Read(2, 1)) == [was]
      && FlatOutput(g, View(c), Read(2, 1)) == [now]
  {
    var g, c := Geometry(4, 2, 3), Unflushed(was, now);
    var c' := Step(g, c, Read(0, 1));
    StepKeepsView(g, c, Read(0, 1));
    assert c' == Load(g, c, 0);
    assert c'.rh[2] == was;
    assert InWindow(c', 2);
  }
}
