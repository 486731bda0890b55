/** The Xbox `ByteFifo` as an object: one thread's view of a whole call. */
module ByteFifo {
  import opened Bytes
  import opened Cyclic

  class Fifo {
    var buf: array<byte>
    var wpos: nat
    var rpos: nat

    ghost predicate Valid()
      reads this
    {
      0 < buf.Length && wpos < buf.Length && rpos < buf.Length
    }

    /** The queued bytes, oldest first. */
    ghost function Contents(): seq<byte>
      requires Valid()
      reads this, buf
    {
      Unroll(buf[..], rpos, Gap(rpos, wpos, buf.Length))
    }

    constructor (bytes: nat)
      requires bytes > 0
      ensures Valid() && fresh(buf) && buf.Length == bytes
      ensures Contents() == []
    {
      buf := new byte[bytes](_ => 0);
      wpos, rpos := 0, 0;
    }

    method Readable() returns (n: nat)
      requires Valid()
      ensures n == |Contents()|
    {
      n := (wpos - rpos + buf.Length) % buf.Length;
      SlotIsRemainder(wpos - rpos + buf.Length, buf.Length);
      SlotReduce(wpos - rpos + buf.Length, buf.Length);
    }

    method Writable() returns (n: nat)
      requires Valid()
      ensures n == buf.Length - 1 - |Contents()|
    {
      var used := Readable();
      n := buf.Length - 1 - used;
    }

    /** memcpy into the buffer. */
    method Store(at: nat, piece: seq<byte>)
      requires at + |piece| <= buf.Length
      modifies buf
      ensures forall i :: 0 <= i < buf.Length ==>
        buf[i] == if at <= i < at + |piece| then piece[i - at] else old(buf[i])
    {
      for k := 0 to |piece|
        invariant forall i :: 0 <= i < buf.Length ==>
          buf[i] == if at <= i < at + k then piece[i - at] else old(buf[i])
      {
        buf[at + k] := piece[k];
      }
    }

    /** All or nothing: the block is queued exactly when it fits. */
    method Write(data: seq<byte>) returns (ok: bool)
      requires Valid()
      modifies this`wpos, buf
      ensures Valid()
      ensures ok <==> |old(Contents())| + |data| <= buf.Length - 1
      ensures Contents() == if ok then old(Contents()) + data else old(Contents())
    {
      var room := Writable();
      if |data| > room {
        return false;
      }
      ghost var before := buf[..];
      ghost var used := |Contents()|;
      var w := wpos;
      var first := if |data| < buf.Length - w then |data| else buf.Length - w;
      Store(w, data[..first]);
      if |data| > first {
        Store(0, data[first..]);
      }
      ghost var after := buf[..];
      wpos := (w + |data|) % buf.Length;
      SlotIsRemainder(w + |data|, buf.Length);
      SlotReduce(w + |data|, buf.Length);
      Appended(before, after, rpos, w, used, data);
      return true;
    }

    /** The two memcpy calls of a read, which give the ring unrolled from `r`. */
    method Fetch(r: nat, n: nat) returns (data: seq<byte>)
      requires r < buf.Length && n < buf.Length
      ensures data == Unroll(buf[..], r, n)
    {
      var first := if n < buf.Length - r then n else buf.Length - r;
      data := buf[r..r + first];
      if n > first {
        data := data + buf[..n - first];
      }
      ghost var all := Unroll(buf[..], r, n);
      forall i | 0 <= i < n
        ensures data[i] == all[i]
      {
        SlotReduce(r + i, buf.Length);
      }
    }

    /** The copy and the published cursor of a read. */
    method TakeFront(n: nat) returns (data: seq<byte>)
      requires Valid() && n <= |Contents()|
      modifies this`rpos
      ensures Valid()
      ensures |data| == n && data + Contents() == old(Contents())
    {
      ghost var used := |Contents()|;
      data := Fetch(rpos, n);
      UnrollSplit(buf[..], rpos, n, used);
      ReadAdvances(rpos, wpos, n, buf.Length);
      hide Slot, Gap;
      rpos := (rpos + n) % buf.Length;
    }

    /** At most `want` bytes, whole frames only, taken from the front. */
    method Read(want: nat) returns (data: seq<byte>)
      requires Valid()
      modifies this`rpos
      ensures Valid()
      ensures data + Contents() == old(Contents())
      ensures |data| == Min(want, |old(Contents())|) - Min(want, |old(Contents())|) % FRAME_BYTES
    {
      var avail := Readable();
      var n := if want > avail then avail else want;
      n := n - n % FRAME_BYTES;
      if n == 0 {
        return [];
      }
      data := TakeFront(n);
    }
  }

  /** `n` bytes of a ring read forward from `at`. */
  ghost function Unroll(ring: seq<byte>, at: nat, n: nat): (s: seq<byte>)
    requires |ring| > 0
  {
    seq(n, i requires 0 <= i => ring[Slot(at + i, |ring|)])
  }

  /** The read cursor moves `n` bytes towards the write cursor. */
  lemma ReadAdvances(r: nat, w: nat, n: nat, cap: nat)
    requires r < cap && w < cap && n <= Gap(r, w, cap)
    ensures (r + n) % cap == Slot(r + n, cap)
    ensures Gap(Slot(r + n, cap), w, cap) == Gap(r, w, cap) - n
  {
    SlotIsRemainder(r + n, cap);
    SlotReduce(r + n, cap);
  }

  /** A block copied in two pieces from the write cursor on is appended to what the ring holds. */
  lemma Appended(before: seq<byte>, after: seq<byte>, r: nat, w: nat, used: nat, data: seq<byte>)
    requires |before| == |after| && r < |before| && w < |before|
    requires used == Gap(r, w, |before|) && used + |data| < |before|
    requires forall i :: 0 <= i < |after| ==>
      after[i] == (if w <= i < w + |data| then data[i - w]
                   else if i < w + |data| - |before| then data[i + |before| - w]
                   else before[i])
    ensures Unroll(after, r, used + |data|) == Unroll(before, r, used) + data
  {
    var all, was := Unroll(after, r, used + |data|), Unroll(before, r, used);
    forall i | 0 <= i < used + |data|
      ensures all[i] == (was + data)[i]
    {
      SlotReduce(r + i, |before|);
    }
  }

  lemma UnrollSplit(ring: seq<byte>, r: nat, n: nat, used: nat)
    requires r < |ring| && n <= used < |ring|
    ensures Unroll(ring, r, n) + Unroll(ring, Slot(r + n, |ring|), used - n) == Unroll(ring, r, used)
  {
    var all, front, rest := Unroll(ring, r, used), Unroll(ring, r, n), Unroll(ring, Slot(r + n, |ring|), used - n);
    forall i | 0 <= i < used
      ensures all[i] == (front + rest)[i]
    {
      if i >= n {
        SlotReduce(r + i, |ring|);
        SlotReduce(r + n, |ring|);
        SlotReduce(Slot(r + n, |ring|) + (i - n), |ring|);
      }
    }
  }
}
