/** `struct rwbuffer_s` and the code that updates it in place, proved against BlockModel.

    Each public call is one step: the semaphores only order calls, except that `rhsem` is
    modelled because an early error return does not give it back.
 */
module RwBuffer {
  import opened Basics
  import opened BlockModel
  import BlockAgreement
  import opened BlockHandle

  class RwBuffer {
    const geometry: Geometry
    var media: Store
    const wrbuffer: array<Block>
    var wrnblocks: nat
    var wrblockstart: int
    var wrexpectedblock: int
    const rhbuffer: array<Block>
    var rhnblocks: nat
    var rhblockstart: int
    var rhsemTaken: bool
    ghost var cache: Cache

    ghost predicate Shaped()
      reads this, wrbuffer, rhbuffer
    {
      && wrbuffer != rhbuffer
      && wrbuffer.Length == geometry.wrmax && wrnblocks <= geometry.wrmax
      && rhbuffer.Length == geometry.rhmax && rhnblocks <= geometry.rhmax
      && cache == Cache(media, wrbuffer[..wrnblocks], wrblockstart, wrexpectedblock,
                        rhbuffer[..rhnblocks], rhblockstart)
    }

    ghost predicate Ready()
      reads this, wrbuffer, rhbuffer
    {
      Shaped() && Valid(geometry, cache)
    }

    /** `rwb_initialize`. */
    constructor (geometry: Geometry, media: Store)
      requires Covered(geometry, media)
      ensures Ready() && cache == Cache(media, [], -1, -1, [], -1)
      ensures this.geometry == geometry && !rhsemTaken
      ensures fresh(wrbuffer) && fresh(rhbuffer)
    {
      this.geometry := geometry;
      this.media := media;
      this.wrbuffer := new Block[geometry.wrmax];
      this.rhbuffer := new Block[geometry.rhmax];
      wrnblocks, wrblockstart, wrexpectedblock := 0, -1, -1;
      rhnblocks, rhblockstart := 0, -1;
      rhsemTaken := false;
      cache := Cache(media, [], -1, -1, [], -1);
    }

    // ----- write buffer -----

    /** The driver's `wrflush` callback on at least one block, taken to succeed. */
    method Transfer(src: array<Block>, n: nat, start: nat)
      requires 0 < n <= src.Length
      modifies this`media
      ensures media == Overlay(old(media), start, src[..n])
    {
      media := Overlay(media, start, src[..n]);
    }

    method ResetWrBuffer()
      modifies this`wrnblocks, this`wrblockstart, this`wrexpectedblock
      ensures wrnblocks == 0 && wrblockstart == -1 && wrexpectedblock == -1
    {
      wrnblocks, wrblockstart, wrexpectedblock := 0, -1, -1;
    }

    method WrFlush()
      requires Ready()
      modifies this`media, this`wrnblocks, this`wrblockstart, this`wrexpectedblock, this`cache
      ensures Shaped() && cache == Flush(old(cache))
    {
      if wrnblocks > 0 {
        Transfer(wrbuffer, wrnblocks, wrblockstart);
        ResetWrBuffer();
        cache := Flush(cache);
      }
    }

    /** `rwb_wrtimeout`. */
    method WrTimeout()
      requires Ready()
      modifies this`media, this`wrnblocks, this`wrblockstart, this`wrexpectedblock, this`cache
      ensures Ready() && cache == Flush(old(cache))
    {
      BlockAgreement.StepIsValid(geometry, cache, Timeout);
      WrFlush();
    }

    /** The same callback on the handle of the buffer instead of the device. */
    method TransferVia(src: array<Block>, n: nat, start: nat, cb: Callback) returns (sent: bool)
      requires 0 < n <= src.Length
      modifies this`media
      ensures media == if cb.Reaches? then Overlay(old(media), start, src[..n]) else cb.media
      ensures sent <==> cb.Reaches? || !cb.failed
    {
      match cb
      case Reaches =>
        Transfer(src, n, start);
        return true;
      case Strays(m, failed) =>
        media := m;
        return !failed;
    }

    /** `rwb_writebuffer`; `TransferVia` demands that the flush is never of an empty buffer. */
    method WriteBuffer(startblock: nat, src: array<Block>, cb: Callback) returns (ok: bool)
      requires Ready() && src.Length <= geometry.wrmax && src != wrbuffer && src != rhbuffer
      modifies this`media, this`wrnblocks, this`wrblockstart, this`wrexpectedblock, this`cache, wrbuffer
      ensures Shaped() && cache == BufferVia(geometry, old(cache), startblock, src[..], cb)
      ensures !ok <==> Misses(geometry, old(cache), startblock, src[..]) && cb.Strays? && cb.failed
      ensures !ok ==> cache == old(cache).(media := cb.media)
      ensures ok && cb.Strays? && Misses(geometry, old(cache), startblock, src[..]) ==>
        cache.media == cb.media && cache.wr == src[..] && cache.wrStart == startblock
    {
      var nblocks := src.Length;
      if (startblock != wrexpectedblock && wrnblocks > 0) || wrnblocks + nblocks > geometry.wrmax {
        var sent := TransferVia(wrbuffer, wrnblocks, wrblockstart, cb);
        if !sent {
          cache := cache.(media := media);
          return false;
        }
        ResetWrBuffer();
        cache := cache.(media := media, wr := [], wrStart := -1, wrNext := -1);
      }
      if wrnblocks == 0 {
        wrblockstart := startblock;
      }
      CopyIn(src);
      wrnblocks := wrnblocks + nblocks;
      wrexpectedblock := wrblockstart + wrnblocks;
      cache := Append(cache, startblock, src[..]);
      return true;
    }

    /** The `memcpy` behind the blocks already buffered. */
    method CopyIn(src: array<Block>)
      requires wrnblocks + src.Length <= wrbuffer.Length && src != wrbuffer
      modifies wrbuffer
      ensures wrbuffer[..wrnblocks + src.Length] == old(wrbuffer[..wrnblocks]) + src[..]
    {
      var i := 0;
      while i < src.Length
        invariant i <= src.Length
        invariant wrbuffer[..wrnblocks + i] == old(wrbuffer[..wrnblocks]) + src[..i]
      {
        wrbuffer[wrnblocks + i] := src[i];
        i := i + 1;
      }
    }

    /** A write larger than the buffer goes to the device behind the blocks held. */
    method WriteThrough(startblock: nat, src: array<Block>)
      requires Ready() && src.Length > 0
      modifies this`media, this`wrnblocks, this`wrblockstart, this`wrexpectedblock, this`cache
      ensures Shaped()
      ensures var c := Flush(old(cache)); cache == c.(media := Overlay(c.media, startblock, src[..]))
    {
      WrFlush();
      assert src[..src.Length] == src[..];
      Transfer(src, src.Length, startblock);
      cache := cache.(media := media);
    }

    /** `rwb_write`; a caller waiting for `rhsem` blocks for as long as it is taken. */
    method Write(startblock: nat, src: array<Block>, cb: Callback) returns (ok: bool)
      requires Ready() && src != wrbuffer && src != rhbuffer && Possible(geometry, cb)
      requires geometry.rhmax > 0 ==> !rhsemTaken
      modifies this, wrbuffer
      ensures Ready() && cache == WriteVia(geometry, old(cache), startblock, src[..], cb)
      ensures !ok <==>
        Misdirects(geometry, old(cache), BlockModel.Write(startblock, src[..])) && cb.Strays? && cb.failed
      ensures rhsemTaken == old(rhsemTaken)
    {
      ok := true;
      if geometry.rhmax > 0 && Overlap(rhblockstart, rhnblocks, startblock, src.Length) {
        ResetRhBuffer();
      }
      if geometry.wrmax > 0 {
        if src.Length > geometry.wrmax {
          WriteThrough(startblock, src);
        } else {
          ok := WriteBuffer(startblock, src, cb);
        }
      }
      StepViaIsValid(geometry, old(cache), BlockModel.Write(startblock, src[..]), cb);
    }

    // ----- read-ahead window -----

    method ResetRhBuffer()
      requires Shaped()
      modifies this`rhnblocks, this`rhblockstart, this`cache
      ensures Shaped() && cache == DropWindow(old(cache))
    {
      rhnblocks, rhblockstart := 0, -1;
      cache := DropWindow(cache);
    }

    /** `rwb_bufferread`: copy `n` blocks that are known to be in the window. */
    method BufferRead(startblock: nat, n: nat, rdbuffer: array<Block>, at: nat)
      requires Shaped() && rdbuffer != wrbuffer && rdbuffer != rhbuffer && at + n <= rdbuffer.Length
      requires rhblockstart <= startblock && startblock + n <= rhblockstart + rhnblocks
      modifies rdbuffer
      ensures rdbuffer[..at + n] ==
        old(rdbuffer[..at]) + cache.rh[startblock - rhblockstart..startblock - rhblockstart + n]
      ensures rdbuffer[at + n..] == old(rdbuffer[at + n..])
    {
      var off := startblock - rhblockstart;
      var i := 0;
      while i < n
        invariant i <= n
        invariant rdbuffer[..at + i] == old(rdbuffer[..at]) + cache.rh[off..off + i]
        invariant rdbuffer[at + n..] == old(rdbuffer[at + n..])
      {
        assert cache.rh[off + i] == rhbuffer[off + i];
        rdbuffer[at + i] := rhbuffer[off + i];
        i := i + 1;
      }
    }

    /** `rwb_rhreload`: refuses a start beyond the media and leaves the window alone then. */
    method RhReload(startblock: nat) returns (ok: bool)
      requires Ready() && geometry.rhmax > 0
      modifies this`rhnblocks, this`rhblockstart, this`cache, rhbuffer
      ensures ok <==> startblock < geometry.nblocks
      ensures Shaped() && cache == if ok then Load(geometry, old(cache), startblock) else old(cache)
      ensures ok ==> rhblockstart == startblock
      ensures ok ==> rhnblocks == geometry.rhmax || startblock + rhnblocks == geometry.nblocks
      ensures ok ==> forall j :: 0 <= j < rhnblocks ==> rhbuffer[j] == media[startblock + j]
    {
      if startblock >= geometry.nblocks {
        return false;
      }
      var endblock := startblock + geometry.rhmax;
      if endblock > geometry.nblocks {
        endblock := geometry.nblocks;
      }
      var nblocks := endblock - startblock;
      ResetRhBuffer();
      FillWindow(startblock, nblocks);
      rhnblocks, rhblockstart := nblocks, startblock;
      assert rhbuffer[..rhnblocks] == Slice(media, startblock, nblocks);
      cache := Load(geometry, cache, startblock);
      return true;
    }

    /** The driver's `rhreload` callback, taken to succeed. */
    method FillWindow(startblock: nat, n: nat)
      requires n <= rhbuffer.Length && forall b :: startblock <= b < startblock + n ==> b in media
      modifies rhbuffer
      ensures forall j :: 0 <= j < n ==> rhbuffer[j] == media[startblock + j]
    {
      var i := 0;
      while i < n
        invariant i <= n
        invariant forall j :: 0 <= j < i ==> rhbuffer[j] == media[startblock + j]
      {
        rhbuffer[i] := media[startblock + i];
        i := i + 1;
      }
    }

    /** `rwb_read`.  Blocks before the end of the media reach the caller even when the request
        runs past it; that error return keeps `rhsem`. */
    method Read(startblock: nat, nblocks: nat, rdbuffer: array<Block>) returns (ok: bool)
      requires Ready() && rdbuffer != wrbuffer && rdbuffer != rhbuffer && nblocks <= rdbuffer.Length
      requires geometry.rhmax > 0 ==> !rhsemTaken
      modifies this, rhbuffer, rdbuffer
      ensures Ready() && cache == ReadStep(geometry, old(cache), startblock, nblocks)
      ensures var d := Delivered(geometry, old(cache), startblock, nblocks);
        |d| <= nblocks && rdbuffer[..|d|] == d && rdbuffer[|d|..] == old(rdbuffer[..])[|d|..]
      ensures geometry.rhmax > 0 ==> (ok <==> nblocks == 0 || startblock + nblocks <= geometry.nblocks)
      ensures if geometry.rhmax > 0 then rhsemTaken <==> !ok else rhsemTaken == old(rhsemTaken)
    {
      BlockAgreement.StepIsValid(geometry, cache, BlockModel.Read(startblock, nblocks));
      if geometry.wrmax > 0 && Overlap(wrblockstart, wrnblocks, startblock, nblocks) {
        WrFlush();
      }
      if geometry.rhmax == 0 {
        return true;
      }
      ok := FillRequest(startblock, nblocks, rdbuffer);
    }

    /** The read-ahead half of `rwb_read`: all blocks of the request that exist. */
    method FillRequest(startblock: nat, nblocks: nat, rdbuffer: array<Block>) returns (ok: bool)
      requires Ready() && rdbuffer != wrbuffer && rdbuffer != rhbuffer && nblocks <= rdbuffer.Length
      requires geometry.rhmax > 0 && !rhsemTaken
      modifies this`rhnblocks, this`rhblockstart, this`rhsemTaken, this`cache, rhbuffer, rdbuffer
      ensures var k := Reach(geometry, startblock, nblocks);
        && Shaped()
        && cache == ReadAhead(geometry, old(cache), startblock, k)
        && rdbuffer[..k] == Serve(geometry, old(cache), startblock, k)
        && rdbuffer[k..] == old(rdbuffer[..])[k..]
        && (ok <==> k == nblocks)
      ensures rhsemTaken <==> !ok
    {
      FinishIsServe(geometry, cache, startblock, Reach(geometry, startblock, nblocks), []);
      ok := ReadLoop(startblock, nblocks, rdbuffer);
    }

    /** The loop of `rwb_read`: serve from the window, reload, and serve again. */
    method ReadLoop(startblock: nat, nblocks: nat, rdbuffer: array<Block>) returns (ok: bool)
      requires Ready() && rdbuffer != wrbuffer && rdbuffer != rhbuffer && nblocks <= rdbuffer.Length
      requires geometry.rhmax > 0 && !rhsemTaken
      modifies this`rhnblocks, this`rhblockstart, this`rhsemTaken, this`cache, rhbuffer, rdbuffer
      ensures var k := Reach(geometry, startblock, nblocks);
        && Shaped()
        && Outcome(cache, rdbuffer[..k]) == Finish(geometry, old(cache), startblock, k, [])
        && rdbuffer[k..] == old(rdbuffer[k..])
        && (ok <==> k == nblocks)
      ensures rhsemTaken <==> !ok
    {
      ghost var k := Reach(geometry, startblock, nblocks);
      ghost var goal := Finish(geometry, cache, startblock, k, []);
      rhsemTaken := true;
      var start, remaining, at := startblock, nblocks, 0;
      while remaining > 0
        invariant at + remaining == nblocks && start == startblock + at && at <= k
        invariant Ready() && rhsemTaken
        invariant Finish(geometry, cache, start, k - at, rdbuffer[..at]) == goal
        invariant rdbuffer[k..] == old(rdbuffer[k..])
        decreases remaining, if InWindow(cache, start) then 0 else 1
      {
        var rdblocks, more := Turn(start, remaining, rdbuffer, at, k);
        start, remaining, at := start + rdblocks, remaining - rdblocks, at + rdblocks;
        if !more {
          return false;
        }
      }
      rhsemTaken := false;
      return true;
    }

    /** One turn of the loop: copy what the window has, then reload if blocks are still missing. */
    method Turn(start: nat, remaining: nat, rdbuffer: array<Block>, at: nat, ghost k: nat)
      returns (rdblocks: nat, more: bool)
      requires Ready() && rdbuffer != wrbuffer && rdbuffer != rhbuffer && at + remaining <= rdbuffer.Length
      requires geometry.rhmax > 0 && remaining > 0 && at <= k && k - at == Reach(geometry, start, remaining)
      modifies this`rhnblocks, this`rhblockstart, this`cache, rhbuffer, rdbuffer
      ensures Ready() && rdblocks <= remaining && at + rdblocks <= k
      ensures rdblocks > 0 || !old(InWindow(cache, start))
      ensures rdblocks < remaining && more ==> InWindow(cache, start + rdblocks)
      ensures !more ==> at + rdblocks == k < at + remaining
      ensures rdbuffer[k..] == old(rdbuffer[k..])
      ensures Finish(geometry, cache, start + rdblocks, k - (at + rdblocks), rdbuffer[..at + rdblocks])
           == Finish(geometry, old(cache), start, k - at, old(rdbuffer[..at]))
    {
      ghost var c, m, done := cache, k - at, rdbuffer[..at];
      rdblocks := TakeFromWindow(start, remaining, rdbuffer, at);
      ghost var m', done' := k - (at + rdblocks), rdbuffer[..at + rdblocks];
      FinishTaken(geometry, c, start, m, done, rdblocks, m', done');
      assert rdbuffer[k..] == rdbuffer[at + rdblocks..][m'..];
      more := true;
      if remaining - rdblocks > 0 {
        more := Refill(start + rdblocks, m', done');
        assert rdbuffer[..at + rdblocks] == done';
      }
    }

    /** The reload half: a reload changes where the missing `m` blocks come from, not what they are. */
    method Refill(start: nat, ghost m: nat, ghost done: seq<Block>) returns (ok: bool)
      requires Ready() && geometry.rhmax > 0 && !InWindow(cache, start) && (m > 0 ==> start + m <= geometry.nblocks)
      requires m == 0 ==> start >= geometry.nblocks
      modifies this`rhnblocks, this`rhblockstart, this`cache, rhbuffer
      ensures Ready() && (ok <==> m > 0) && (ok ==> InWindow(cache, start))
      ensures Finish(geometry, cache, start, m, done) == Finish(geometry, old(cache), start, m, done)
    {
      if m > 0 {
        BlockAgreement.LoadIsValid(geometry, cache, start);
      }
      ok := RhReload(start);
    }

    /** The copy half of one turn of the loop in `rwb_read`. */
    method TakeFromWindow(start: nat, remaining: nat, rdbuffer: array<Block>, at: nat) returns (rdblocks: nat)
      requires Ready() && rdbuffer != wrbuffer && rdbuffer != rhbuffer && at + remaining <= rdbuffer.Length
      modifies rdbuffer
      ensures rdblocks == Available(cache, start, remaining)
      ensures rdbuffer[..at + rdblocks] == old(rdbuffer[..at]) + FromWindow(cache, start, rdblocks)
      ensures rdbuffer[at + rdblocks..] == old(rdbuffer[at + rdblocks..])
    {
      rdblocks := 0;
      if rhnblocks > 0 {
        var bufferend := rhblockstart + rhnblocks;
        if rhblockstart <= start < bufferend {
          rdblocks := bufferend - start;
          if rdblocks > remaining {
            rdblocks := remaining;
          }
          BufferRead(start, rdblocks, rdbuffer, at);
        }
      }
    }
  }

  /** Calls made one after the other, until one blocks on `rhsem`: they behave as the run of the
      value model, and a call blocks exactly when an earlier read went past the media. */
  method Play(dev: RwBuffer, ops: seq<Op>, cbs: seq<Callback>) returns (done: nat, outs: seq<seq<Block>>)
    requires dev.Ready() && !dev.rhsemTaken && |cbs| == |ops| && AllPossible(dev.geometry, cbs)
    modifies dev, dev.wrbuffer, dev.rhbuffer
    ensures dev.Ready() && done <= |ops|
    ensures dev.cache == RunVia(dev.geometry, old(dev.cache), ops[..done], cbs[..done])
    ensures outs == OutputsVia(dev.geometry, old(dev.cache), ops[..done], cbs[..done])
    ensures forall j :: 0 <= j < done ==> !BlockAgreement.Blocks(dev.geometry, ops, j)
    ensures done < |ops| ==> BlockAgreement.Blocks(dev.geometry, ops, done)
  {
    done, outs := 0, [];
    while done < |ops| && (ops[done].Timeout? || !dev.rhsemTaken)
      invariant dev.Ready() && done <= |ops|
      invariant dev.cache == RunVia(dev.geometry, old(dev.cache), ops[..done], cbs[..done])
      invariant outs == OutputsVia(dev.geometry, old(dev.cache), ops[..done], cbs[..done])
      invariant dev.rhsemTaken <==> BlockAgreement.Kept(dev.geometry, ops, done)
      invariant forall j :: 0 <= j < done ==> !BlockAgreement.Blocks(dev.geometry, ops, j)
    {
      RunViaNext(dev.geometry, old(dev.cache), ops, cbs, done);
      BlockAgreement.KeptNext(dev.geometry, ops, done);
      var out := Call(dev, ops[done], cbs[done]);
      outs := outs + [out];
      done := done + 1;
    }
  }

  /** One public call, with a buffer of its own. */
  method Call(dev: RwBuffer, op: Op, cb: Callback) returns (out: seq<Block>)
    requires dev.Ready() && (op.Timeout? || !dev.rhsemTaken) && Possible(dev.geometry, cb)
    modifies dev, dev.wrbuffer, dev.rhbuffer
    ensures dev.Ready() && dev.cache == StepVia(dev.geometry, old(dev.cache), op, cb)
    ensures out == Output(dev.geometry, old(dev.cache), op)
    ensures dev.rhsemTaken <==> old(dev.rhsemTaken) || BlockAgreement.Overruns(dev.geometry, op)
  {
    match op
    case Timeout =>
      dev.WrTimeout();
      out := [];
    case Write(start, data) =>
      var src := new Block[|data|](i requires 0 <= i < |data| => data[i]);
      assert src[..] == data;
      var _ := dev.Write(start, src, cb);
      out := [];
    case Read(start, n) =>
      var rdbuffer := new Block[n];
      var _ := dev.Read(start, n, rdbuffer);
      out := rdbuffer[..if dev.geometry.rhmax == 0 then 0 else Reach(dev.geometry, start, n)];
  }

  /** How many of the next `remaining` blocks the window can serve. */
  ghost function Available(c: Cache, start: nat, remaining: nat): (r: nat)
    ensures r <= remaining
    ensures r > 0 ==> InWindow(c, start) && start + r <= c.rhStart + |c.rh|
  {
    if !InWindow(c, start) then 0
    else if c.rhStart + |c.rh| - start > remaining then remaining
    else c.rhStart + |c.rh| - start
  }

  ghost function FromWindow(c: Cache, start: nat, r: nat): seq<Block>
    requires r > 0 ==> InWindow(c, start) && start + r <= c.rhStart + |c.rh|
  {
    if r == 0 then [] else c.rh[start - c.rhStart..start - c.rhStart + r]
  }

  datatype Outcome = Outcome(cache: Cache, delivered: seq<Block>)

  /** How a request ends when `done` has been delivered and `m` more blocks are to be served from
      `c`: from the window while it lasts, then from a reloaded one. */
  ghost function Finish(g: Geometry, c: Cache, start: nat, m: nat, done: seq<Block>): Outcome
    requires Valid(g, c) && g.rhmax > 0 && (m > 0 ==> start + m <= g.nblocks)
    decreases m, if InWindow(c, start) then 0 else 1
  {
    if m == 0 then Outcome(c, done)
    else if InWindow(c, start) then
      var r := Available(c, start, m);
      Finish(g, c, start + r, m - r, done + FromWindow(c, start, r))
    else
      Finish(g, Load(g, c, start), start, m, done)
  }

  lemma FinishTaken(g: Geometry, c: Cache, start: nat, m: nat, done: seq<Block>, r: nat, m': nat, done': seq<Block>)
    requires Valid(g, c) && g.rhmax > 0 && (m > 0 ==> start + m <= g.nblocks)
    requires r == Available(c, start, m) && m == m' + r && done' == done + FromWindow(c, start, r)
    ensures Finish(g, c, start + r, m', done') == Finish(g, c, start, m, done)
  {
    assert r == 0 ==> done' == done;
  }

  /** Serving turn by turn delivers exactly what `Serve` says and leaves the window of `ReadAhead`. */
  lemma {:induction false} FinishIsServe(g: Geometry, c: Cache, start: nat, m: nat, done: seq<Block>)
    requires Valid(g, c) && g.rhmax > 0 && (m > 0 ==> start + m <= g.nblocks)
    ensures Finish(g, c, start, m, done) == Outcome(ReadAhead(g, c, start, m), done + Serve(g, c, start, m))
    decreases m, if InWindow(c, start) then 0 else 1
  {
    if m == 0 {
      assert done + [] == done;
    } else if InWindow(c, start) {
      var r := Available(c, start, m);
      var taken, rest := FromWindow(c, start, r), Serve(g, c, start + r, m - r);
      FinishIsServe(g, c, start + r, m - r, done + taken);
      AdvanceInWindow(g, c, start, m, r);
      ServeInWindow(g, c, start, m, r);
      assert Finish(g, c, start, m, done) == Outcome(ReadAhead(g, c, start, m), done + taken + rest);
      Regroup(done, taken, rest);
    } else {
      ReloadWindow(g, c, start, m);
      FinishIsServe(g, Load(g, c, start), start, m, done);
    }
  }

  lemma AdvanceInWindow(g: Geometry, c: Cache, start: nat, m: nat, r: nat)
    requires Valid(g, c) && g.rhmax > 0 && InWindow(c, start) && start + m <= g.nblocks && r <= m
    requires r == c.rhStart + |c.rh| - start || (r == m && start + r <= c.rhStart + |c.rh|)
    ensures ReadAhead(g, c, start + r, m - r) == ReadAhead(g, c, start, m)
  {
  }

  lemma ServeInWindow(g: Geometry, c: Cache, start: nat, m: nat, r: nat)
    requires Valid(g, c) && InWindow(c, start) && start + m <= g.nblocks && r <= m
    requires r == c.rhStart + |c.rh| - start || (r == m && start + r <= c.rhStart + |c.rh|)
    ensures Serve(g, c, start, m) == c.rh[start - c.rhStart..start - c.rhStart + r] + Serve(g, c, start + r, m - r)
  {
    var off := start - c.rhStart;
    var tail := Serve(g, c, start + r, m - r);
    forall i: nat | i < m ensures Serve(g, c, start, m)[i] == (c.rh[off..off + r] + tail)[i] {
      if i >= r { assert tail[i - r] == Served(c, start + r, i - r); }
    }
  }

  lemma ReloadWindow(g: Geometry, c: Cache, start: nat, m: nat)
    requires Valid(g, c) && g.rhmax > 0 && !InWindow(c, start) && m > 0 && start + m <= g.nblocks
    ensures InWindow(Load(g, c, start), start)
    ensures ReadAhead(g, Load(g, c, start), start, m) == ReadAhead(g, c, start, m)
    ensures Serve(g, Load(g, c, start), start, m) == Serve(g, c, start, m)
  {
  }
}
