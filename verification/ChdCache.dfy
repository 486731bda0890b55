/** Reading sectors of a CHD image through the cache of one hunk. */
module ChdCache {
  import opened Bytes
  import opened Chd

  /** `chd_read`: the bytes of a hunk, or an error. */
  type Hunks = u32 -> Option<seq<byte>>

  const NO_HUNK: u32 := 0x0FFF_FFFF

  datatype Cache = Cache(hunk: u32, mem: seq<byte>)

  /** A read of a hunk; `left` is what the buffer holds if the read fails. */
  datatype Request = Request(hunk: u32, left: seq<byte>)

  datatype Outcome = Outcome(cache: Cache, bytes: Option<seq<byte>>)

  function CachedRead(hunks: Hunks, c: Cache, r: Request): Outcome {
    if c.hunk == r.hunk then Outcome(c, Some(c.mem))
    else match hunks(r.hunk)
      case None => Outcome(c.(mem := r.left), None)
      case Some(bytes) => Outcome(Cache(r.hunk, bytes), Some(bytes))
  }

  predicate Coherent(hunks: Hunks, c: Cache) {
    hunks(c.hunk) == Some(c.mem)
  }

  function CachedReads(hunks: Hunks, c: Cache, rs: seq<Request>): seq<Option<seq<byte>>>
    decreases |rs|
  {
    if rs == [] then []
    else
      var o := CachedRead(hunks, c, rs[0]);
      [o.bytes] + CachedReads(hunks, o.cache, rs[1..])
  }

  function PlainReads(hunks: Hunks, rs: seq<Request>): seq<Option<seq<byte>>> {
    seq(|rs|, i requires 0 <= i < |rs| => hunks(rs[i].hunk))
  }

  // ---------------------------------------------------------------- when cached reads are right

  /** The tag before request `i`: the hunk of the last request that could be read, or the first tag. */
  function TagBefore(hunks: Hunks, tag: u32, rs: seq<Request>, i: nat): u32
    requires i <= |rs|
  {
    if i == 0 then tag
    else if hunks(rs[i - 1].hunk).Some? then rs[i - 1].hunk
    else TagBefore(hunks, tag, rs, i - 1)
  }

  /**
   A request for the tagged hunk is answered from the buffer. The buffer holds that hunk unless the
   request is the first one, when it holds what it held, or comes after a failed one, when it holds
   what that one left.
   */
  predicate HitIsRight(hunks: Hunks, c: Cache, rs: seq<Request>, i: nat)
    requires i < |rs|
  {
    rs[i].hunk == TagBefore(hunks, c.hunk, rs, i) ==>
      if i == 0 then hunks(rs[i].hunk) == Some(c.mem)
      else hunks(rs[i - 1].hunk).None? ==> hunks(rs[i].hunk) == Some(rs[i - 1].left)
  }

  lemma {:induction false} TagAfterFirst(hunks: Hunks, c: Cache, rs: seq<Request>, i: nat)
    requires i < |rs|
    ensures TagBefore(hunks, c.hunk, rs, i + 1) == TagBefore(hunks, CachedRead(hunks, c, rs[0]).cache.hunk, rs[1..], i)
  {
    if i == 0 {
      assert TagBefore(hunks, c.hunk, rs, 0) == c.hunk;
    } else {
      TagAfterFirst(hunks, c, rs, i - 1);
    }
  }

  /** After a first request that was right, the others are as right as they were. */
  lemma HitAfterFirst(hunks: Hunks, c: Cache, rs: seq<Request>, i: nat)
    requires i + 1 < |rs| && HitIsRight(hunks, c, rs, 0)
    ensures HitIsRight(hunks, c, rs, i + 1) <==> HitIsRight(hunks, CachedRead(hunks, c, rs[0]).cache, rs[1..], i)
  {
    TagAfterFirst(hunks, c, rs, i);
  }

  /**
   For every cache and every sequence of requests, some of which may fail: cached reads give what
   uncached reads give exactly when every request that is answered from the buffer finds the hunk there.
   */
  lemma {:induction false} CachedReadsAreRight(hunks: Hunks, c: Cache, rs: seq<Request>)
    ensures CachedReads(hunks, c, rs) == PlainReads(hunks, rs)
       <==> forall i :: 0 <= i < |rs| ==> HitIsRight(hunks, c, rs, i)
    decreases |rs|
  {
    if rs == [] {
    } else {
      var o, rest := CachedRead(hunks, c, rs[0]), rs[1..];
      CachedReadsAreRight(hunks, o.cache, rest);
      FirstRead(hunks, c, rs);
      if HitIsRight(hunks, c, rs, 0) {
        forall i | 0 <= i < |rest|
          ensures HitIsRight(hunks, c, rs, i + 1) <==> HitIsRight(hunks, o.cache, rest, i)
        {
          HitAfterFirst(hunks, c, rs, i);
        }
        hide HitIsRight;
        AllFromFirst(hunks, c, o.cache, rs);
      }
    }
  }

  lemma FirstRead(hunks: Hunks, c: Cache, rs: seq<Request>)
    requires rs != []
    ensures var o := CachedRead(hunks, c, rs[0]);
      && (o.bytes == hunks(rs[0].hunk) <==> HitIsRight(hunks, c, rs, 0))
      && (CachedReads(hunks, c, rs) == PlainReads(hunks, rs) <==>
            o.bytes == hunks(rs[0].hunk) && CachedReads(hunks, o.cache, rs[1..]) == PlainReads(hunks, rs[1..]))
  {
    var o := CachedRead(hunks, c, rs[0]);
    var cached, plain := CachedReads(hunks, o.cache, rs[1..]), PlainReads(hunks, rs[1..]);
    assert PlainReads(hunks, rs) == [hunks(rs[0].hunk)] + plain;
    assert ([o.bytes] + cached)[1..] == cached && ([hunks(rs[0].hunk)] + plain)[1..] == plain;
  }

  lemma AllFromFirst(hunks: Hunks, c: Cache, c': Cache, rs: seq<Request>)
    requires rs != [] && HitIsRight(hunks, c, rs, 0)
    requires forall i :: 0 <= i < |rs| - 1 ==> (HitIsRight(hunks, c, rs, i + 1) <==> HitIsRight(hunks, c', rs[1..], i))
    ensures (forall i :: 0 <= i < |rs| ==> HitIsRight(hunks, c, rs, i))
       <==> (forall i :: 0 <= i < |rs| - 1 ==> HitIsRight(hunks, c', rs[1..], i))
  {
    hide HitIsRight;
    if forall i :: 0 <= i < |rs| - 1 ==> HitIsRight(hunks, c', rs[1..], i) {
      forall i | 0 <= i < |rs|
        ensures HitIsRight(hunks, c, rs, i)
      {
        if i > 0 {
          assert HitIsRight(hunks, c', rs[1..], i - 1);
          assert HitIsRight(hunks, c, rs, i - 1 + 1);
        }
      }
    }
  }

  /**
   As long as no read fails, any sequence of cached reads from a new cache gives what uncached reads
   give, exactly when the first one is not for the hunk that the new cache claims to hold.
   */
  lemma CacheIsTransparent(hunks: Hunks, mem: seq<byte>, rs: seq<Request>)
    requires forall i :: 0 <= i < |rs| ==> hunks(rs[i].hunk).Some?
    ensures CachedReads(hunks, Cache(NO_HUNK, mem), rs) == PlainReads(hunks, rs)
       <==> rs == [] || rs[0].hunk != NO_HUNK || hunks(NO_HUNK) == Some(mem)
  {
    var c := Cache(NO_HUNK, mem);
    CachedReadsAreRight(hunks, c, rs);
    hide CachedReads, PlainReads;
    if rs != [] {
      assert HitIsRight(hunks, c, rs, 0) <==> rs[0].hunk != NO_HUNK || hunks(NO_HUNK) == Some(mem);
      assert forall i :: 0 < i < |rs| ==> HitIsRight(hunks, c, rs, i);
    }
  }

  /** A failed read keeps the tag: the tagged hunk is right again only if the buffer was left untouched. */
  lemma AfterFailedRead(hunks: Hunks, c: Cache, failed: Request, again: Request)
    requires Coherent(hunks, c) && hunks(failed.hunk).None? && again.hunk == c.hunk
    ensures var rs := [failed, again];
      CachedReads(hunks, c, rs) == PlainReads(hunks, rs) <==> failed.left == c.mem
  {
    var rs := [failed, again];
    CachedReadsAreRight(hunks, c, rs);
    hide CachedReads, PlainReads;
    assert TagBefore(hunks, c.hunk, rs, 1) == c.hunk by { assert TagBefore(hunks, c.hunk, rs, 0) == c.hunk; }
    assert HitIsRight(hunks, c, rs, 1) <==> failed.left == c.mem;
  }

  // ---------------------------------------------------------------- sectors

  /** Pairs of bytes exchanged. */
  function Swapped(s: seq<byte>): (r: seq<byte>)
    requires |s| % 2 == 0
    ensures |r| == |s|
  {
    seq<byte>(|s|, i requires 0 <= i < |s| => s[if i % 2 == 0 then i + 1 else i - 1])
  }

  lemma SwapTwice(s: seq<byte>)
    requires |s| % 2 == 0
    ensures Swapped(Swapped(s)) == s
  {
    var r := Swapped(s);
    forall i | 0 <= i < |s|
      ensures Swapped(r)[i] == s[i]
    {
      assert Swapped(r)[i] == r[if i % 2 == 0 then i + 1 else i - 1];
    }
  }

  /** The loop that swaps audio samples in the caller's buffer. */
  method SwapBytes(dst: array<byte>, fmt: nat)
    requires fmt % 2 == 0 && fmt <= dst.Length
    modifies dst
    ensures dst[..fmt] == Swapped(old(dst[..fmt]))
    ensures dst[fmt..] == old(dst[fmt..])
  {
    var i := 0;
    while i < fmt
      invariant 0 <= i <= fmt && i % 2 == 0
      invariant forall k :: 0 <= k < i ==> dst[k] == old(dst[..])[if k % 2 == 0 then k + 1 else k - 1]
      invariant forall k :: i <= k < dst.Length ==> dst[k] == old(dst[k])
    {
      dst[i], dst[i + 1] := dst[i + 1], dst[i];
      i := i + 2;
    }
  }

  /** The first `fmt` bytes of a frame, found in its hunk without a cache. */
  function Sector(hunks: Hunks, sph: nat, t: Track, fad: u32): Option<seq<byte>>
    requires ValidImage(hunks, sph) && ValidFormat(t)
  {
    var frame := FrameOf(t, fad);
    match hunks(frame / sph)
    case None => None
    case Some(bytes) => Some(SectorBytes(bytes, sph, t, frame))
  }

  function SectorBytes(hunk: seq<byte>, sph: nat, t: Track, frame: u32): seq<byte>
    requires 0 < sph && |hunk| == sph * CHD_FRAME_BYTES && ValidFormat(t)
  {
    FrameInHunk(frame % sph, sph);
    var at := frame % sph * CHD_FRAME_BYTES;
    var s := hunk[at..at + t.fmt];
    if t.swap then Swapped(s) else s
  }

  lemma FrameInHunk(k: nat, sph: nat)
    requires k < sph
    ensures k * CHD_FRAME_BYTES + CHD_FRAME_BYTES <= sph * CHD_FRAME_BYTES
  {
  }

  ghost predicate ValidImage(hunks: Hunks, sph: nat) {
    sph > 0 && forall h :: hunks(h).Some? ==> |hunks(h).value| == sph * CHD_FRAME_BYTES
  }

  predicate ValidFormat(t: Track) {
    t.fmt % 2 == 0 && t.fmt <= CHD_FRAME_BYTES
  }

  class Image {
    const hunks: Hunks
    const sph: nat
    var oldHunk: u32
    var hunkMem: seq<byte>

    ghost predicate Valid()
      reads this
    {
      ValidImage(hunks, sph) && |hunkMem| == sph * CHD_FRAME_BYTES
    }

    constructor (hunks: Hunks, sph: nat, mem: seq<byte>)
      requires ValidImage(hunks, sph) && |mem| == sph * CHD_FRAME_BYTES
      ensures Valid() && this.hunks == hunks && this.sph == sph
      ensures oldHunk == NO_HUNK && hunkMem == mem
    {
      this.hunks, this.sph := hunks, sph;
      oldHunk, hunkMem := NO_HUNK, mem;
    }

    /** Makes sure that the buffer holds a hunk; `left` is what it holds if the hunk cannot be read. */
    method LoadHunk(hunk: u32, left: seq<byte>) returns (ok: bool)
      requires Valid() && |left| == sph * CHD_FRAME_BYTES
      modifies this
      ensures Valid()
      ensures var o := CachedRead(hunks, Cache(old(oldHunk), old(hunkMem)), Request(hunk, left));
        && Cache(oldHunk, hunkMem) == o.cache && ok == o.bytes.Some?
        && (ok ==> hunkMem == o.bytes.value && oldHunk == hunk)
    {
      if oldHunk != hunk {
        var bytes := hunks(hunk);
        if bytes.None? {
          hunkMem := left;
          return false;
        }
        hunkMem := bytes.value;
        oldHunk := hunk;
      }
      return true;
    }

    /** memcpy from the hunk, then the swapping loop. */
    method CopySector(t: Track, frame: u32, dst: array<byte>)
      requires Valid() && ValidFormat(t) && t.fmt <= dst.Length
      modifies dst
      ensures dst[..t.fmt] == SectorBytes(hunkMem, sph, t, frame)
      ensures dst[t.fmt..] == old(dst[t.fmt..])
    {
      hide Swapped;
      FrameInHunk(frame % sph, sph);
      var at := frame % sph * CHD_FRAME_BYTES;
      for i := 0 to t.fmt
        invariant dst[..i] == hunkMem[at..at + i] && dst[t.fmt..] == old(dst[t.fmt..])
      {
        dst[i] := hunkMem[at + i];
      }
      if t.swap {
        SwapBytes(dst, t.fmt);
      }
    }

    /** `CHDTrack::Read` into the caller's buffer. */
    method Read(t: Track, fad: u32, left: seq<byte>, dst: array<byte>) returns (ok: bool)
      requires Valid() && ValidFormat(t) && |left| == sph * CHD_FRAME_BYTES && t.fmt <= dst.Length
      modifies this, dst
      ensures Valid()
      ensures Cache(oldHunk, hunkMem)
           == CachedRead(hunks, Cache(old(oldHunk), old(hunkMem)), Request(FrameOf(t, fad) / sph, left)).cache
      ensures Coherent(hunks, Cache(old(oldHunk), old(hunkMem))) || FrameOf(t, fad) / sph != old(oldHunk) ==>
        && ok == Sector(hunks, sph, t, fad).Some?
        && (ok ==> dst[..t.fmt] == Sector(hunks, sph, t, fad).value && Coherent(hunks, Cache(oldHunk, hunkMem)))
      ensures dst[t.fmt..] == old(dst[t.fmt..]) && (!ok ==> dst[..] == old(dst[..]))
    {
      hide Swapped, FrameOf, SectorBytes;
      var frame := FrameOf(t, fad);
      ok := LoadHunk(frame / sph, left);
      if ok {
        CopySector(t, frame, dst);
      }
    }
  }
}
