/** `feederMain` and `push` of the Xbox DirectSound backend as methods on mutable state. */
module XboxBackend {
  import opened Bytes
  import opened AudioPipeline
  import opened PacedPush

  class Backend {
    var queue: seq<byte>       // the fifo, read and written as ByteFifo.Fifo.Read and .Write promise
    const ring: array<byte>    // memory of the looping hardware buffer
    var writePos: nat
    var drained: bool          // the feeder's local flag for the pass under way
    var roomEvent: bool        // the auto-reset event is signalled
    ghost var met: seq<Meeting>  // what push() has met, a try or a wait at a time

    constructor ()
      ensures Valid() && fresh(ring)
      ensures queue == [] && writePos == 0 && met == []
    {
      ring := new byte[RING_BYTES](_ => 0);
      queue, writePos, drained, roomEvent, met := [], 0, false, false, [];
    }

    ghost predicate Valid()
      reads this
    {
      ring.Length == RING_BYTES && writePos < RING_BYTES && |queue| < FIFO_BYTES
    }

    method FifoWrite(data: seq<byte>) returns (ok: bool)
      requires Valid()
      modifies this`queue, this`met
      ensures Valid()
      ensures ok <==> |old(queue)| + |data| <= FIFO_BYTES - 1
      ensures queue == if ok then old(queue) + data else old(queue)
      ensures met == old(met) + [if ok then Room else Full]
    {
      ok := |data| <= FIFO_BYTES - 1 - |queue|;
      if ok {
        queue := queue + data;
      }
      met := met + [if ok then Room else Full];
    }

    /** Lock, two memcpy calls, Unlock. */
    method CopyToRing(data: seq<byte>)
      requires Valid() && |data| <= RING_BYTES
      modifies ring
      ensures ring[..] == Overlay(old(ring[..]), writePos, data)
    {
      var s1 := if |data| < RING_BYTES - writePos then |data| else RING_BYTES - writePos;
      for k := 0 to s1
        invariant forall i :: 0 <= i < RING_BYTES ==>
          ring[i] == if writePos <= i < writePos + k then data[i - writePos] else old(ring[i])
      {
        ring[writePos + k] := data[k];
      }
      for k := 0 to |data| - s1
        invariant forall i :: 0 <= i < RING_BYTES ==>
          ring[i] == if writePos <= i < writePos + s1 then data[i - writePos]
                     else if i < k then data[s1 + i] else old(ring[i])
      {
        ring[k] := data[s1 + k];
      }
    }

    /** One fifo.read() padded with silence to a whole chunk. */
    method FetchChunk(chunk: nat) returns (scratch: seq<byte>, got: nat)
      requires Valid()
      modifies this`queue
      ensures Valid()
      ensures got == Align(Min(chunk, |old(queue)|))
      ensures scratch == old(queue)[..got] + Silence(chunk - got)
      ensures queue == old(queue)[got..]
    {
      got := if chunk > |queue| then |queue| else chunk;
      got := got - got % FRAME_BYTES;
      scratch := queue[..got] + seq(chunk - got, _ => 0);
      queue := queue[got..];
    }

    /** Lock and copy, and advance the cursor. */
    method Render(scratch: seq<byte>, ghost image: seq<byte>, ghost w: nat, ghost out: seq<byte>)
      requires Valid() && |image| == RING_BYTES && w < RING_BYTES && |out| + |scratch| <= RING_BYTES
      requires ring[..] == Overlay(image, w, out) && writePos == (w + |out|) % RING_BYTES
      modifies this`writePos, ring
      ensures Valid()
      ensures ring[..] == Overlay(image, w, out + scratch)
      ensures writePos == (w + (|out| + |scratch|)) % RING_BYTES
    {
      CopyToRing(scratch);
      OverlayTwice(image, w, out, scratch);
      RingSum(w + |out|, |scratch|);
      writePos := (writePos + |scratch|) % RING_BYTES;
    }

    /**
     A pass that found `q` in the queue and the ring as `image`, with the cursor at `w`: so many
     bytes have been fetched, and so many of them rendered.
     */
    ghost predicate PassState(q: seq<byte>, image: seq<byte>, w: nat, fetched: nat, rendered: nat)
      reads this, ring
    {
      && Valid() && |image| == RING_BYTES && w < RING_BYTES && rendered <= RING_BYTES
      && queue == q[Min(fetched, |q|)..] && drained == (Min(fetched, |q|) > 0)
      && ring[..] == Overlay(image, w, Part(q, rendered)) && writePos == (w + rendered) % RING_BYTES
    }

    /** One iteration of the inner loop: fetch, then Lock, which may fail. */
    method FeedPart(chunk: nat, lockOk: bool, ghost q: seq<byte>, ghost image: seq<byte>, ghost w: nat, ghost done: nat)
      requires PassState(q, image, w, done, done) && done + chunk <= RING_BYTES
      requires |q| % FRAME_BYTES == 0 && done % FRAME_BYTES == 0 && chunk % FRAME_BYTES == 0
      modifies this`writePos, this`drained, this`queue, ring
      ensures PassState(q, image, w, done + chunk, if lockOk then done + chunk else done)
    {
      hide Overlay, Align, Silence;
      NextPart(q, done, chunk);
      var scratch, got := FetchChunk(chunk);
      if got > 0 {
        drained := true;
      }
      if lockOk {
        Render(scratch, image, w, Part(q, done));
      }
    }

    /**
     The inner loop: `n` bytes in chunks of at most FEED_CHUNK, of which the first `locks` Locks
     succeed. A failed Lock ends the pass; the chunk fetched for it has left the queue.
     */
    method FillGap(n: nat, locks: nat)
      requires Valid() && n < RING_BYTES && n % FRAME_BYTES == 0 && |queue| % FRAME_BYTES == 0
      modifies this`writePos, this`drained, this`queue, ring
      ensures PassState(old(queue), old(ring[..]), old(writePos), Min(n, (locks + 1) * FEED_CHUNK),
        Min(n, locks * FEED_CHUNK))
    {
      ghost var q, image, w := queue, ring[..], writePos;
      var avail, calls := n, 0;
      ghost var done := 0;
      drained := false;
      StartOfPass(q, image, w);
      while avail > 0
        invariant 0 <= avail && 0 <= done && avail + done == n && done % FRAME_BYTES == 0
        invariant 0 <= calls <= locks && done == Min(n, calls * FEED_CHUNK)
        invariant PassState(q, image, w, done, done)
      {
        hide PassState, Valid;
        var chunk := if avail < FEED_CHUNK then avail else FEED_CHUNK;
        NextChunk(n, calls, done);
        FeedPart(chunk, calls < locks, q, image, w, done);
        if calls == locks {
          return;
        }
        avail, calls := avail - chunk, calls + 1;
        done := done + chunk;
      }
    }

    /**
     One pass of the feeder: the cyclic interval from the write cursor towards the frame-aligned
     play cursor receives the queue's bytes in order, then silence, and nothing else changes. It
     is the whole interval when no Lock fails; otherwise the chunk fetched last is lost.
     */
    method FeederPass(play: nat, locks: nat)
      requires Valid() && play < RING_BYTES && writePos % FRAME_BYTES == 0
      requires |queue| % FRAME_BYTES == 0
      modifies this, ring
      ensures var n := Align(Played(play, old(writePos)));
        && PassState(old(queue), old(ring[..]), old(writePos), Min(n, (locks + 1) * FEED_CHUNK),
          Min(n, locks * FEED_CHUNK))
        && (n <= locks * FEED_CHUNK ==> writePos == play - play % FRAME_BYTES)
      ensures roomEvent == (old(roomEvent) || |queue| < |old(queue)|)
    {
      var avail := if play >= writePos then play - writePos else RING_BYTES - writePos + play;
      avail := avail - avail % FRAME_BYTES;
      GapToPlayCursor(writePos, play);
      FillGap(avail, locks);
      if drained {
        roomEvent := true;
      }
    }

    /** Signals push() can still consume; see AudioPipeline.Signals. */
    ghost function Pending(): nat
      requires Valid()
      reads this
    {
      |queue| / FRAME_BYTES + (if drained then 1 else 0) + (if roomEvent then 1 else 0)
    }

    /** One read of any size by the feeder. */
    method FeederReads() returns (got: nat)
      requires Valid()
      modifies this`queue, this`drained
      ensures Valid() && Pending() <= old(Pending())
      ensures got <= |old(queue)| && queue == old(queue)[got..]
    {
      var chunk: nat := *;
      var scratch;
      scratch, got := FetchChunk(chunk);
      FramesDrop(|old(queue)|, got);
      drained := drained || got > 0;
    }

    /** Whatever the feeder does while push() waits: any number of reads and pass ends, in any order. */
    method FeederActs() returns (ghost taken: nat)
      requires Valid()
      modifies this`queue, this`drained, this`roomEvent
      ensures Valid() && Pending() <= old(Pending())
      ensures taken <= |old(queue)| && queue == old(queue)[taken..]
    {
      var steps: nat := *;
      taken := 0;
      assert queue[0..] == queue;
      while steps > 0
        invariant Valid() && Pending() <= old(Pending())
        invariant taken <= |old(queue)| && queue == old(queue)[taken..]
      {
        if * {
          var more := FeederReads();
          taken := taken + more;
        } else {
          roomEvent := roomEvent || drained;
          drained := false;
        }
        steps := steps - 1;
      }
    }

    /** What was met since there were `start` meetings. */
    ghost function Since(start: nat): seq<Meeting>
      requires start <= |met|
      reads this
    {
      met[start..]
    }

    /** One try of a call that has met `Since(start)`. */
    method Try(frame: seq<byte>, wait: bool, timeouts: nat, ghost start: nat) returns (ok: bool)
      requires Valid() && start <= |met| && MayTry(Since(start), wait, timeouts)
      modifies this`queue, this`met
      ensures Valid() && old(met) <= met
      ensures ok <==> |old(queue)| + |frame| <= FIFO_BYTES - 1
      ensures queue == if ok then old(queue) + frame else old(queue)
      ensures TryEnded(Since(start), wait, ok, timeouts)
    {
      hide MayTry, TryEnded;
      TryEnds(Since(start), wait, |queue| + |frame| <= FIFO_BYTES - 1, timeouts);
      ghost var h := Since(start);
      ok := FifoWrite(frame);
      assert Since(start) == h + [if ok then Room else Full];
    }

    /** WaitForSingleObject: the feeder acts, and the event, if it is set by then, is consumed. */
    method WaitForRoom(timeouts: nat, ghost start: nat) returns (woken: bool, ghost taken: nat)
      requires Valid() && start <= |met| && TryEnded(Since(start), true, false, timeouts)
      modifies this`drained, this`roomEvent, this`queue, this`met
      ensures Valid() && old(met) <= met && Pending() <= old(Pending()) - (if woken then 1 else 0)
      ensures taken <= |old(queue)| && queue == old(queue)[taken..]
      ensures woken ==> MayTry(Since(start), true, 0)
      ensures !woken && timeouts + 1 < MAX_TIMEOUTS ==> MayTry(Since(start), true, timeouts + 1)
      ensures !woken && timeouts + 1 >= MAX_TIMEOUTS ==>
        Returned(Since(start), true) && TimedOutInARow(Since(start), MAX_TIMEOUTS) && Room !in Since(start)
    {
      hide MayTry, TryEnded, Returned, TimedOutInARow;
      ghost var h := Since(start);
      taken := FeederActs();
      woken := roomEvent;
      roomEvent := false;
      met := met + [if woken then Woken else TimedOut];
      WaitEnds(h, woken, timeouts);
      assert Since(start) == h + [if woken then Woken else TimedOut];
    }

    /**
     push(): retry until the block fits, giving up after five timeouts without a signal. The loop
     terminates against every behaviour of the feeder; it ends for the first thing that settles the
     call; and the block is queued whole, if the last try found room, or not at all.
     */
    method Push(frame: seq<byte>, wait: bool) returns (ok: bool, ghost taken: nat)
      requires Valid()
      modifies this`drained, this`roomEvent, this`queue, this`met
      ensures Valid()
      ensures taken <= |old(queue)|
      ensures queue == old(queue)[taken..] + (if ok then frame else [])
      ensures !wait ==> taken == 0 && (ok <==> |old(queue)| + |frame| < FIFO_BYTES)
      ensures old(met) <= met && Returned(Since(|old(met)|), wait)
      ensures ok <==> Room in Since(|old(met)|)
      ensures wait && !ok ==> TimedOutInARow(Since(|old(met)|), 5)
    {
      hide MayTry, TryEnded, Returned, TimedOutInARow;
      ghost var q, start := queue, |met|;
      taken := 0;
      assert q[0..] == q && Since(start) == [];
      NothingMetYet(wait);
      var timeouts := 0;
      ok := Try(frame, wait, timeouts, start);
      while !ok && wait
        invariant Valid() && 0 <= timeouts < MAX_TIMEOUTS && old(met) <= met
        invariant taken <= |q| && queue == q[taken..] + (if ok then frame else [])
        invariant !wait ==> taken == 0 && (ok <==> |q| + |frame| < FIFO_BYTES)
        invariant TryEnded(Since(start), wait, ok, timeouts)
        decreases !ok, Pending(), MAX_TIMEOUTS - timeouts
      {
        var woken;
        ghost var more;
        woken, more := WaitForRoom(timeouts, start);
        taken := taken + more;
        if woken {
          timeouts := 0;
        } else {
          timeouts := timeouts + 1;
          if timeouts >= MAX_TIMEOUTS {
            return;
          }
        }
        ok := Try(frame, wait, timeouts, start);
      }
      TryReturns(Since(start), wait, ok, timeouts);
    }
  }

  lemma StartOfPass(queue: seq<byte>, ring: seq<byte>, at: nat)
    requires |ring| == RING_BYTES && at < RING_BYTES
    ensures Part(queue, 0) == [] && Overlay(ring, at, []) == ring && queue[0..] == queue
  {
  }

  lemma NextChunk(n: nat, calls: nat, done: nat)
    requires done < n && n % FRAME_BYTES == 0 && done % FRAME_BYTES == 0 && done == Min(n, calls * FEED_CHUNK)
    ensures var chunk := Min(n - done, FEED_CHUNK);
      && chunk % FRAME_BYTES == 0 && (done + chunk) % FRAME_BYTES == 0
      && done + chunk == Min(n, (calls + 1) * FEED_CHUNK)
  {
    AlignedDifference(n, done);
    AlignedSum(done, Min(n - done, FEED_CHUNK));
  }

  lemma OverlayTwice(ring: seq<byte>, at: nat, a: seq<byte>, b: seq<byte>)
    requires |ring| == RING_BYTES && at < RING_BYTES && |a| + |b| <= RING_BYTES
    ensures Overlay(Overlay(ring, at, a), (at + |a|) % RING_BYTES, b) == Overlay(ring, at, a + b)
  {
  }

  /** `n` bytes of output: the queue as far as it goes, then silence. */
  ghost function Part(queue: seq<byte>, n: nat): (s: seq<byte>)
    ensures |s| == n
  {
    queue[..Min(n, |queue|)] + Silence(n - Min(n, |queue|))
  }

  /** Once the queue has run dry only silence follows. */
  lemma NextPart(queue: seq<byte>, done: nat, chunk: nat)
    requires |queue| % FRAME_BYTES == 0 && done % FRAME_BYTES == 0 && chunk % FRAME_BYTES == 0
    ensures var m := Min(done, |queue|);
      var got := Align(Min(chunk, |queue| - m));
      && m + got == Min(done + chunk, |queue|)
      && queue[m..][got..] == queue[m + got..]
      && Part(queue, done) + (queue[m..][..got] + Silence(chunk - got)) == Part(queue, done + chunk)
  {
    var m := Min(done, |queue|);
    var got := Min(chunk, |queue| - m);
    AlignedDifference(|queue|, m);
    AlignedAlready(got);
    hide Align;
    JoinParts(queue, done, chunk);
    assert queue[m..][got..] == queue[m + got..];
  }

  lemma AlignedAlready(n: nat)
    requires n % FRAME_BYTES == 0
    ensures Align(n) == n
  {
  }

  lemma JoinParts(queue: seq<byte>, done: nat, chunk: nat)
    ensures var m := Min(done, |queue|);
      var got := Min(chunk, |queue| - m);
      Part(queue, done) + (queue[m..][..got] + Silence(chunk - got)) == Part(queue, done + chunk)
  {
    var m := Min(done, |queue|);
    var got := Min(chunk, |queue| - m);
    if done <= |queue| {
      assert Part(queue, done) == queue[..done] by { assert Silence(0) == []; }
      assert queue[done..][..got] == queue[done..done + got];
      assert queue[..done] + queue[done..done + got] == queue[..done + got];
    } else {
      assert queue[m..][..0] == [] && Silence(done - m) + Silence(chunk) == Silence(done + chunk - m);
    }
  }
}
