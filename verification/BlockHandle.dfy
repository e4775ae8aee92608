/** The flush inside `rwb_writebuffer` hands its callback the buffer structure where every other call
    hands it the device.  What follows when the callback takes the one for the other.
 */
module BlockHandle {
  import opened Basics
  import opened BlockModel
  import opened BlockAgreement

  /** What the callback does with that handle: it reaches the device all the same, or it goes astray,
      leaving whatever it leaves on the media and reporting success or failure. */
  datatype Callback = Reaches | Strays(media: Store, failed: bool)

  ghost predicate Possible(g: Geometry, cb: Callback) {
    cb.Strays? ==> Covered(g, cb.media)
  }

  function BufferVia(g: Geometry, c: Cache, start: nat, bs: seq<Block>, cb: Callback): Cache
    requires c.wr != [] ==> 0 <= c.wrStart
  {
    if cb.Reaches? || !Misses(g, c, start, bs) then Buffer(g, c, start, bs)
    else if cb.failed then c.(media := cb.media)
    else Append(c.(media := cb.media, wr := [], wrStart := -1, wrNext := -1), start, bs)
  }

  function WriteVia(g: Geometry, c: Cache, start: nat, bs: seq<Block>, cb: Callback): Cache
    requires c.wr != [] ==> 0 <= c.wrStart
  {
    if 0 < g.wrmax && |bs| <= g.wrmax then
      var c1 := if g.rhmax > 0 && Overlap(c.rhStart, |c.rh|, start, |bs|) then DropWindow(c) else c;
      BufferVia(g, c1, start, bs, cb)
    else WriteStep(g, c, start, bs)
  }

  function StepVia(g: Geometry, c: Cache, op: Op, cb: Callback): Cache
    requires Valid(g, c)
  {
    if op.Write? then WriteVia(g, c, op.start, op.data, cb) else Step(g, c, op)
  }

  /** This call flushes through the wrong handle. */
  predicate Misdirects(g: Geometry, c: Cache, op: Op) {
    op.Write? && 0 < g.wrmax && |op.data| <= g.wrmax && Misses(g, c, op.start, op.data)
  }

  lemma StepViaIsValid(g: Geometry, c: Cache, op: Op, cb: Callback)
    requires Valid(g, c) && Possible(g, cb)
    ensures Valid(g, StepVia(g, c, op, cb))
    ensures cb.Reaches? || !Misdirects(g, c, op) ==> StepVia(g, c, op, cb) == Step(g, c, op)
  {
    StepIsValid(g, c, op);
  }

  // ----- one write -----

  lemma AstrayView(g: Geometry, c: Cache, start: nat, bs: seq<Block>, media: Store)
    requires Misses(g, c, start, bs) && (c.wr != [] ==> 0 <= c.wrStart)
    ensures View(BufferVia(g, c, start, bs, Strays(media, false))) == Overlay(media, start, bs)
  {
    AppendToEmpty(c.(media := media, wr := [], wrStart := -1, wrNext := -1), start, bs);
  }

  /** Whatever the callback does, buffering is the update of the flat store. */
  ghost predicate AlwaysBuffers(g: Geometry, c: Cache, start: nat, bs: seq<Block>)
    requires Valid(g, c)
  {
    forall cb :: Possible(g, cb) ==> View(BufferVia(g, c, start, bs, cb)) == Overlay(View(c), start, bs)
  }

  lemma BeyondOverlay(m: Store, start: nat, bs: seq<Block>, k: nat, v: Block)
    requires k == start + |bs|
    ensures k in Overlay(m[k := v], start, bs) && Overlay(m[k := v], start, bs)[k] == v
  {
  }

  lemma MissCanGoWrong(g: Geometry, c: Cache, start: nat, bs: seq<Block>)
    requires Valid(g, c) && Misses(g, c, start, bs)
    ensures !AlwaysBuffers(g, c, start, bs)
  {
    var k: nat, v: Block, w: Block := start + |bs|, [], [0];
    var one, two := Strays(c.media[k := v], false), Strays(c.media[k := w], false);
    AstrayView(g, c, start, bs, one.media);
    AstrayView(g, c, start, bs, two.media);
    BeyondOverlay(c.media, start, bs, k, v);
    BeyondOverlay(c.media, start, bs, k, w);
    assert Possible(g, one) && Possible(g, two);
    assert View(BufferVia(g, c, start, bs, one))[k] != View(BufferVia(g, c, start, bs, two))[k];
  }

  /** Buffering does not depend on the handle exactly when the write follows the blocks held and fits
      behind them. */
  lemma BufferIsOverlayIff(g: Geometry, c: Cache, start: nat, bs: seq<Block>)
    requires Valid(g, c) && |bs| <= g.wrmax
    ensures AlwaysBuffers(g, c, start, bs) <==> !Misses(g, c, start, bs)
  {
    if Misses(g, c, start, bs) {
      MissCanGoWrong(g, c, start, bs);
    } else {
      BufferIsOverlay(g, c, start, bs);
    }
  }

  /** Block `b` is overwritten, or it is on the media as the client should see it. */
  predicate SafeAt(c: Cache, start: nat, n: nat, b: nat) {
    Dirty(c, b) ==> start <= b < start + n || (b in c.media && c.media[b] == Sees(c, b))
  }

  lemma OverlaysAgree(m: Store, v: Store, start: nat, bs: seq<Block>)
    requires forall b: nat :: start <= b < start + |bs| || (b in m <==> b in v)
    requires forall b: nat :: start <= b < start + |bs| || (b in m && b in v ==> m[b] == v[b])
    ensures Overlay(m, start, bs) == Overlay(v, start, bs)
  {
  }

  lemma OverlaysAgreeAt(m: Store, v: Store, start: nat, bs: seq<Block>, b: nat)
    requires Overlay(m, start, bs) == Overlay(v, start, bs) && !(start <= b < start + |bs|) && b in v
    ensures b in m && m[b] == v[b]
  {
    assert b in Overlay(v, start, bs);
  }

  lemma DirtyInView(c: Cache, b: nat)
    requires (c.wr != [] ==> 0 <= c.wrStart) && Dirty(c, b)
    ensures b in View(c) && View(c)[b] == c.wr[b - c.wrStart]
  {
  }

  lemma CleanInView(c: Cache, b: nat)
    requires (c.wr != [] ==> 0 <= c.wrStart) && !Dirty(c, b)
    ensures b in View(c) <==> b in c.media
    ensures b in c.media ==> View(c)[b] == c.media[b]
  {
  }

  ghost predicate AllSafe(c: Cache, start: nat, n: nat) {
    forall b: nat :: SafeAt(c, start, n, b)
  }

  lemma UnsafeShows(c: Cache, start: nat, bs: seq<Block>)
    requires c.wr != [] ==> 0 <= c.wrStart
    requires Overlay(c.media, start, bs) == Overlay(View(c), start, bs)
    ensures AllSafe(c, start, |bs|)
  {
    forall b: nat ensures SafeAt(c, start, |bs|, b) { UnsafeShowsAt(c, View(c), start, bs, b); }
  }

  lemma UnsafeShowsAt(c: Cache, v: Store, start: nat, bs: seq<Block>, b: nat)
    requires (c.wr != [] ==> 0 <= c.wrStart) && v == View(c)
    requires Overlay(c.media, start, bs) == Overlay(v, start, bs)
    ensures SafeAt(c, start, |bs|, b)
  {
    if Dirty(c, b) && !(start <= b < start + |bs|) {
      DirtyInView(c, b);
      OverlaysAgreeAt(c.media, v, start, bs, b);
    }
  }

  lemma SafeIsHidden(c: Cache, start: nat, bs: seq<Block>)
    requires (c.wr != [] ==> 0 <= c.wrStart) && AllSafe(c, start, |bs|)
    ensures Overlay(c.media, start, bs) == Overlay(View(c), start, bs)
  {
    forall b: nat | !(start <= b < start + |bs|)
      ensures b in c.media <==> b in View(c)
      ensures b in c.media ==> c.media[b] == View(c)[b]
    {
      assert SafeAt(c, start, |bs|, b);
      if Dirty(c, b) { DirtyInView(c, b); } else { CleanInView(c, b); }
    }
    OverlaysAgree(c.media, View(c), start, bs);
  }

  /** If the transfer leaves the media as they are, the view is right exactly when every block held is
      overwritten by the write or was on the media already. */
  lemma UntouchedMediaIff(g: Geometry, c: Cache, start: nat, bs: seq<Block>)
    requires Valid(g, c) && Misses(g, c, start, bs)
    ensures View(BufferVia(g, c, start, bs, Strays(c.media, false))) == Overlay(View(c), start, bs) <==>
      AllSafe(c, start, |bs|)
  {
    AstrayView(g, c, start, bs, c.media);
    if AllSafe(c, start, |bs|) { SafeIsHidden(c, start, bs); }
    if Overlay(c.media, start, bs) == Overlay(View(c), start, bs) { UnsafeShows(c, start, bs); }
  }

  // ----- runs -----

  ghost predicate AllPossible(g: Geometry, cbs: seq<Callback>) {
    forall i :: 0 <= i < |cbs| ==> Possible(g, cbs[i])
  }

  /** A run in which call `i` meets callback `cbs[i]`. */
  ghost function RunVia(g: Geometry, c: Cache, ops: seq<Op>, cbs: seq<Callback>): (c': Cache)
    requires Valid(g, c) && |cbs| == |ops| && AllPossible(g, cbs)
    ensures Valid(g, c')
    decreases |ops|
  {
    if ops == [] then c
    else
      StepViaIsValid(g, c, ops[0], cbs[0]);
      RunVia(g, StepVia(g, c, ops[0], cbs[0]), ops[1..], cbs[1..])
  }

  ghost function OutputsVia(g: Geometry, c: Cache, ops: seq<Op>, cbs: seq<Callback>): seq<seq<Block>>
    requires Valid(g, c) && |cbs| == |ops| && AllPossible(g, cbs)
    decreases |ops|
  {
    if ops == [] then []
    else
      StepViaIsValid(g, c, ops[0], cbs[0]);
      [Output(g, c, ops[0])] + OutputsVia(g, StepVia(g, c, ops[0], cbs[0]), ops[1..], cbs[1..])
  }

  lemma {:induction false} RunViaThen(g: Geometry, c: Cache, ops: seq<Op>, cbs: seq<Callback>, op: Op, cb: Callback,
                                      all: seq<Op>, allCbs: seq<Callback>)
    requires Valid(g, c) && |cbs| == |ops| && AllPossible(g, cbs) && Possible(g, cb)
    requires all == ops + [op] && allCbs == cbs + [cb] && AllPossible(g, allCbs)
    ensures RunVia(g, c, all, allCbs) == StepVia(g, RunVia(g, c, ops, cbs), op, cb)
    ensures OutputsVia(g, c, all, allCbs) == OutputsVia(g, c, ops, cbs) + [Output(g, RunVia(g, c, ops, cbs), op)]
    decreases |ops|
  {
    StepViaIsValid(g, c, all[0], allCbs[0]);
    if ops == [] {
      assert all[1..] == [] && allCbs[1..] == [];
    } else {
      RunViaThen(g, StepVia(g, c, ops[0], cbs[0]), ops[1..], cbs[1..], op, cb, all[1..], allCbs[1..]);
    }
  }

  lemma RunViaNext(g: Geometry, c: Cache, ops: seq<Op>, cbs: seq<Callback>, k: nat)
    requires Valid(g, c) && k < |ops| == |cbs| && AllPossible(g, cbs)
    ensures RunVia(g, c, ops[..k + 1], cbs[..k + 1]) == StepVia(g, RunVia(g, c, ops[..k], cbs[..k]), ops[k], cbs[k])
    ensures OutputsVia(g, c, ops[..k + 1], cbs[..k + 1]) ==
      OutputsVia(g, c, ops[..k], cbs[..k]) + [Output(g, RunVia(g, c, ops[..k], cbs[..k]), ops[k])]
  {
    TakeNext(ops, k);
    TakeNext(cbs, k);
    RunViaThen(g, c, ops[..k], cbs[..k], ops[k], cbs[k], ops[..k + 1], cbs[..k + 1]);
  }

  /** No write of the run flushes through the wrong handle. */
  predicate NeverMisdirects(g: Geometry, c: Cache, ops: seq<Op>)
    requires Valid(g, c)
    decreases |ops|
  {
    ops == [] ||
    (!Misdirects(g, c, ops[0]) && (StepIsValid(g, c, ops[0]); NeverMisdirects(g, Step(g, c, ops[0]), ops[1..])))
  }

  ghost predicate AllReach(cbs: seq<Callback>) {
    forall i :: 0 <= i < |cbs| ==> cbs[i].Reaches?
  }

  /** Then the callback does not matter, and every result about `Run` and `Outputs` applies. */
  lemma {:induction false} RunViaIsRun(g: Geometry, c: Cache, ops: seq<Op>, cbs: seq<Callback>)
    requires Valid(g, c) && |cbs| == |ops| && AllPossible(g, cbs)
    requires AllReach(cbs) || NeverMisdirects(g, c, ops)
    ensures RunVia(g, c, ops, cbs) == Run(g, c, ops) && OutputsVia(g, c, ops, cbs) == Outputs(g, c, ops)
    decreases |ops|
  {
    if ops != [] {
      StepViaIsValid(g, c, ops[0], cbs[0]);
      RunViaIsRun(g, Step(g, c, ops[0]), ops[1..], cbs[1..]);
    }
  }

  /** In the client of such a callback, a run without such a flush and with guarded reads is flat. */
  lemma DirectedRunIsFlat(g: Geometry, c: Cache, ops: seq<Op>, cbs: seq<Callback>)
    requires Valid(g, c) && g.wrmax > 0 && g.rhmax > 0 && Coherent(c)
    requires |cbs| == |ops| && AllPossible(g, cbs)
    requires NeverMisdirects(g, c, ops) && RunIsGuarded(g, c, ops)
    ensures OutputsVia(g, c, ops, cbs) == FlatOutputs(g, View(c), ops)
  {
    RunViaIsRun(g, c, ops, cbs);
    GuardedRunIsFlat(g, c, ops);
  }

  // ----- the condition is exact -----

  /** All writes end at or before block `k`. */
  predicate Spares(ops: seq<Op>, k: nat) {
    forall i :: 0 <= i < |ops| && ops[i].Write? ==> ops[i].start + |ops[i].data| <= k
  }

  function Top(ops: seq<Op>): (k: nat)
    ensures Spares(ops, k)
    decreases |ops|
  {
    if ops == [] then 0
    else
      var k := Top(ops[1..]);
      if ops[0].Write? && ops[0].start + |ops[0].data| > k then ops[0].start + |ops[0].data| else k
  }

  /** A transfer that goes astray leaves `v` in block `k`. */
  predicate Leaves(cb: Callback, k: nat, v: Block) {
    cb.Strays? && !cb.failed && k in cb.media && cb.media[k] == v
  }

  ghost predicate AllLeave(cbs: seq<Callback>, k: nat, v: Block) {
    forall i :: 0 <= i < |cbs| ==> Leaves(cbs[i], k, v)
  }

  lemma StepKeepsMark(g: Geometry, c: Cache, op: Op, cb: Callback, k: nat, v: Block)
    requires Valid(g, c) && g.wrmax > 0 && Possible(g, cb) && Leaves(cb, k, v)
    requires op.Write? ==> op.start + |op.data| <= k
    requires CleanIn(c, k, v) || Misdirects(g, c, op)
    ensures CleanIn(StepVia(g, c, op, cb), k, v)
  {
    if !Misdirects(g, c, op) {
      FlushSpares(c, k, v);
      StepViaIsValid(g, c, op, cb);
      if op.Write? { WriteSpares(g, c, op.start, op.data, k, v); }
    }
  }

  lemma {:induction false} RunKeepsMark(g: Geometry, c: Cache, ops: seq<Op>, cbs: seq<Callback>, k: nat, v: Block)
    requires Valid(g, c) && g.wrmax > 0 && |cbs| == |ops| && AllPossible(g, cbs) && AllLeave(cbs, k, v)
    requires Spares(ops, k) && CleanIn(c, k, v)
    ensures CleanIn(RunVia(g, c, ops, cbs), k, v)
    decreases |ops|
  {
    if ops != [] {
      StepViaIsValid(g, c, ops[0], cbs[0]);
      StepKeepsMark(g, c, ops[0], cbs[0], k, v);
      RunKeepsMark(g, StepVia(g, c, ops[0], cbs[0]), ops[1..], cbs[1..], k, v);
    }
  }

  /** Once a transfer has gone astray, what it left stays visible to the end of the run. */
  lemma {:induction false} StrayIsSeen(g: Geometry, c: Cache, ops: seq<Op>, cbs: seq<Callback>, k: nat, v: Block)
    requires Valid(g, c) && g.wrmax > 0 && |cbs| == |ops| && AllPossible(g, cbs) && AllLeave(cbs, k, v)
    requires Spares(ops, k) && !NeverMisdirects(g, c, ops)
    ensures CleanIn(RunVia(g, c, ops, cbs), k, v)
    decreases |ops|
  {
    StepViaIsValid(g, c, ops[0], cbs[0]);
    var c' := StepVia(g, c, ops[0], cbs[0]);
    if Misdirects(g, c, ops[0]) {
      StepKeepsMark(g, c, ops[0], cbs[0], k, v);
      RunKeepsMark(g, c', ops[1..], cbs[1..], k, v);
    } else {
      StrayIsSeen(g, c', ops[1..], cbs[1..], k, v);
    }
  }

  /** Whatever the callback does, the view after the run is the flat store given the same writes. */
  ghost predicate AlwaysFlat(g: Geometry, c: Cache, ops: seq<Op>)
    requires Valid(g, c)
  {
    forall cbs :: |cbs| == |ops| && AllPossible(g, cbs) ==> View(RunVia(g, c, ops, cbs)) == FlatRun(View(c), ops)
  }

  lemma FlatShowsStray(g: Geometry, c: Cache, ops: seq<Op>, k: nat, v: Block)
    requires Valid(g, c) && g.wrmax > 0 && Spares(ops, k)
    requires AlwaysFlat(g, c, ops) && !NeverMisdirects(g, c, ops)
    ensures k in FlatRun(View(c), ops) && FlatRun(View(c), ops)[k] == v
  {
    var cb := Strays(c.media[k := v], false);
    var cbs := seq(|ops|, _ => cb);
    assert Possible(g, cb);
    StrayIsSeen(g, c, ops, cbs, k, v);
    CleanInView(RunVia(g, c, ops, cbs), k);
  }

  /** The write buffer refines the plain device, whatever the callback makes of the wrong handle,
      exactly in the runs in which no write leaves the sequence or lacks room. */
  lemma RunIsFlatIffDirected(g: Geometry, c: Cache, ops: seq<Op>)
    requires Valid(g, c) && g.wrmax > 0
    ensures AlwaysFlat(g, c, ops) <==> NeverMisdirects(g, c, ops)
  {
    if NeverMisdirects(g, c, ops) {
      forall cbs | |cbs| == |ops| && AllPossible(g, cbs)
        ensures View(RunVia(g, c, ops, cbs)) == FlatRun(View(c), ops)
      {
        RunViaIsRun(g, c, ops, cbs);
        RunRefinesFlat(g, c, ops);
      }
    } else if AlwaysFlat(g, c, ops) {
      FlatShowsStray(g, c, ops, Top(ops), []);
      FlatShowsStray(g, c, ops, Top(ops), [0]);
    }
  }

  /** Block 5 is written and then block 9.  The second write flushes the first through the wrong
      handle; if that leaves the media alone, block 5 is as it was. */
  lemma OutOfSequenceLosesBlock(g: Geometry, media: Store, a: Block, b: Block)
    requires g.nblocks > 9 && g.wrmax > 0 && Covered(g, media)
    ensures var c, ops := Cache(media, [], -1, -1, [], -1), [Write(5, [a]), Write(9, [b])];
      && Valid(g, c) && Possible(g, Strays(media, false)) && Valid(g, Step(g, c, ops[0]))
      && Misdirects(g, Step(g, c, ops[0]), ops[1])
      && var z := RunVia(g, c, ops, [Reaches, Strays(media, false)]);
         5 in z.media && Sees(z, 5) == media[5]
         && 5 in FlatRun(View(c), ops) && FlatRun(View(c), ops)[5] == a
  {
    var c := Cache(media, [], -1, -1, [], -1);
    var one, two, cb := Write(5, [a]), Write(9, [b]), Strays(media, false);
    var c1 := c.(wr := [a], wrStart := 5, wrNext := 6);
    assert [] + [a] == [a] && [] + [b] == [b];
    assert Step(g, c, one) == c1;
    var c2 := StepVia(g, c1, two, cb);
    assert c2 == c.(wr := [b], wrStart := 9, wrNext := 10);
    assert [one, two][1..] == [two] && [Reaches, cb][1..] == [cb] && [two][1..] == [];
    StepViaIsValid(g, c1, two, cb);
    assert [cb][1..] == [] && RunVia(g, c2, [], []) == c2;
    assert RunVia(g, c1, [two], [cb]) == RunVia(g, c2, [two][1..], [cb][1..]);
    var m1 := Overlay(media, 5, [a]);
    var m2 := Overlay(m1, 9, [b]);
    assert FlatRun(m1, [two]) == FlatRun(m2, []) == m2;
  }
}
