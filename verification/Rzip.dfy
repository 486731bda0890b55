/** The RZIP chunked stream: header, compressed chunks, and readers and writers of any granularity. */
module Rzip {
  import opened Bytes

  const MAX_CHUNK: nat := 0x10_0000
  const ZIPPED_BOUND: nat := MAX_CHUNK + MAX_CHUNK / 1000 + 12
  const MAGIC: seq<byte> := [0x23, 0x52, 0x5A, 0x49, 0x50, 0x76, 0x01, 0x23]   // "#RZIPv\1#"

  /** zlib, as a pair of functions. */
  datatype Codec = Codec(compress: seq<byte> -> seq<byte>, uncompress: seq<byte> -> Option<seq<byte>>)

  ghost predicate Packs(c: Codec, x: seq<byte>) {
    0 < |c.compress(x)| <= ZIPPED_BOUND && c.uncompress(c.compress(x)) == Some(x)
  }

  /** What the format needs of zlib: blocks up to the chunk size come back, and never compress to nothing. */
  ghost predicate GoodCodec(c: Codec) {
    forall x :: |x| <= MAX_CHUNK ==> Packs(c, x)
  }

  // ---------------------------------------------------------------- the chunk stream as a value

  function Word(n: nat): seq<byte> {
    LittleEndian(n, 4)
  }

  function OneChunk(c: Codec, x: seq<byte>): seq<byte> {
    Word(|c.compress(x)|) + c.compress(x)
  }

  /** What one `Write` call appends. */
  function Encode(c: Codec, data: seq<byte>): seq<byte>
    decreases |data|
  {
    if data == [] then []
    else
      var n := Min(MAX_CHUNK, |data|);
      OneChunk(c, data[..n]) + Encode(c, data[n..])
  }

  /** What any number of `Write` calls append. */
  function EncodeAll(c: Codec, parts: seq<seq<byte>>): seq<byte> {
    if parts == [] then [] else EncodeAll(c, parts[..|parts| - 1]) + Encode(c, parts[|parts| - 1])
  }

  /** A chunk read from the front of a file: its content and what follows it. */
  datatype Chunk = Chunk(content: seq<byte>, rest: seq<byte>) | Broken(rest: seq<byte>)

  function NextChunk(c: Codec, max: nat, bytes: seq<byte>): Chunk {
    if |bytes| < 4 then Broken([])
    else
      var n := FromLittleEndian(bytes[..4]);
      if n == 0 then Chunk([], bytes[4..])
      else if |bytes| - 4 < n then Broken([])
      else
        match c.uncompress(bytes[4..4 + n])
        case None => Broken(bytes[4 + n..])
        case Some(d) => if |d| <= max then Chunk(d, bytes[4 + n..]) else Broken(bytes[4 + n..])
  }

  lemma NextChunkShrinks(c: Codec, max: nat, bytes: seq<byte>)
    ensures NextChunk(c, max, bytes).Chunk? ==> |NextChunk(c, max, bytes).rest| < |bytes|
  {
  }

  /** All that can be read from here on, up to the end or the first damaged chunk. */
  function Decode(c: Codec, max: nat, bytes: seq<byte>): seq<byte>
    decreases |bytes|
  {
    NextChunkShrinks(c, max, bytes);
    match NextChunk(c, max, bytes)
    case Broken(_) => []
    case Chunk(content, rest) => content + Decode(c, max, rest)
  }

  lemma ChunkRoundTrip(c: Codec, x: seq<byte>, rest: seq<byte>)
    requires GoodCodec(c) && |x| <= MAX_CHUNK
    ensures NextChunk(c, MAX_CHUNK, OneChunk(c, x) + rest) == Chunk(x, rest)
  {
    assert Packs(c, x);
    var z := c.compress(x);
    var bytes := OneChunk(c, x) + rest;
    Pow256Values();
    assert bytes == Word(|z|) + (z + rest);
    LittleEndianPrefix(|z|, 4, z + rest);
    assert bytes[4..4 + |z|] == z && bytes[4 + |z|..] == rest;
  }

  lemma {:induction false} EncodeRoundTrip(c: Codec, data: seq<byte>, rest: seq<byte>)
    requires GoodCodec(c)
    ensures Decode(c, MAX_CHUNK, Encode(c, data) + rest) == data + Decode(c, MAX_CHUNK, rest)
    decreases |data|
  {
    hide OneChunk, NextChunk;
    if data == [] {
      assert Encode(c, data) + rest == rest;
    } else {
      var n := Min(MAX_CHUNK, |data|);
      var tail := Encode(c, data[n..]) + rest;
      assert Encode(c, data) + rest == OneChunk(c, data[..n]) + tail;
      ChunkRoundTrip(c, data[..n], tail);
      EncodeRoundTrip(c, data[n..], rest);
      assert data == data[..n] + data[n..];
      assert data[..n] + (data[n..] + Decode(c, MAX_CHUNK, rest)) == data + Decode(c, MAX_CHUNK, rest);
    }
  }

  /** Any split into writes: the stream holds their concatenation. */
  lemma {:induction false} WritesRoundTrip(c: Codec, parts: seq<seq<byte>>, rest: seq<byte>)
    requires GoodCodec(c)
    ensures Decode(c, MAX_CHUNK, EncodeAll(c, parts) + rest) == Flatten(parts) + Decode(c, MAX_CHUNK, rest)
    decreases |parts|
  {
    if parts == [] {
      assert EncodeAll(c, parts) + rest == rest;
    } else {
      var init, last := parts[..|parts| - 1], parts[|parts| - 1];
      assert EncodeAll(c, parts) + rest == EncodeAll(c, init) + (Encode(c, last) + rest);
      WritesRoundTrip(c, init, Encode(c, last) + rest);
      EncodeRoundTrip(c, last, rest);
      assert Flatten(init) + (last + Decode(c, MAX_CHUNK, rest)) == Flatten(parts) + Decode(c, MAX_CHUNK, rest);
    }
  }

  // ---------------------------------------------------------------- the header

  /** Header written on a 64-bit size field, and the form that 32-bit builds used to write. */
  function Header(size: nat): seq<byte> {
    MAGIC + Word(MAX_CHUNK) + LittleEndian(size, 8)
  }

  function LegacyHeader(size: nat): seq<byte> {
    MAGIC + Word(MAX_CHUNK) + Word(size)
  }

  datatype Opened = Opened(maxChunk: nat, size: nat, pos: nat) | NotRzip

  /** `Open` for reading, from offset `pos`. */
  function OpenAt(bytes: seq<byte>, pos: nat): Opened
    requires pos <= |bytes|
  {
    var b := bytes[pos..];
    if |b| < 20 || b[..8] != MAGIC then NotRzip
    else
      var size := FromLittleEndian(b[12..20]);
      if size / TWO_32 != 0 then Opened(FromLittleEndian(b[8..12]), size % TWO_32, pos + 16)
      else Opened(FromLittleEndian(b[8..12]), size, pos + 20)
  }

  lemma HeaderFields(prefix: seq<byte>, tail: seq<byte>)
    requires |tail| >= 8
    ensures var bytes := prefix + (MAGIC + Word(MAX_CHUNK) + tail);
      && bytes[|prefix|..] == MAGIC + Word(MAX_CHUNK) + tail
      && OpenAt(bytes, |prefix|) ==
         var size := FromLittleEndian(tail[..8]);
         Opened(MAX_CHUNK, if size / TWO_32 != 0 then size % TWO_32 else size,
                |prefix| + (if size / TWO_32 != 0 then 16 else 20))
  {
    var b := MAGIC + Word(MAX_CHUNK) + tail;
    var bytes := prefix + b;
    assert bytes[|prefix|..] == b;
    assert b[..8] == MAGIC;
    assert b[8..12] == Word(MAX_CHUNK);
    assert b[12..20] == tail[..8];
    Pow256Values();
    LittleEndianRoundTrip(MAX_CHUNK, 4);
  }

  /** The 64-bit header is understood exactly when the size fits in 32 bits. */
  lemma OpenCurrent(prefix: seq<byte>, size: nat, body: seq<byte>)
    requires size < TWO_64
    ensures OpenAt(prefix + (Header(size) + body), |prefix|) == Opened(MAX_CHUNK, size, |prefix| + 20)
       <==> size < TWO_32
  {
    var tail := LittleEndian(size, 8) + body;
    assert Header(size) + body == MAGIC + Word(MAX_CHUNK) + tail;
    Pow256Values();
    LittleEndianPrefix(size, 8, body);
    HeaderFields(prefix, tail);
  }

  lemma {:induction false} LittleEndianSplit(lo: seq<byte>, hi: seq<byte>)
    ensures FromLittleEndian(lo + hi) == FromLittleEndian(lo) + Pow256(|lo|) * FromLittleEndian(hi)
    decreases |lo|
  {
    if lo == [] {
      assert lo + hi == hi;
    } else {
      assert (lo + hi)[1..] == lo[1..] + hi;
      LittleEndianSplit(lo[1..], hi);
      var a, l, p, h := lo[0], FromLittleEndian(lo[1..]), Pow256(|lo| - 1), FromLittleEndian(hi);
      assert FromLittleEndian(lo) == a + 256 * l && Pow256(|lo|) == 256 * p;
      assert FromLittleEndian(lo + hi) == a + 256 * (l + p * h);
      Regroup(a, l, p, h);
    }
  }

  lemma Regroup(a: int, l: int, p: int, h: int)
    ensures a + 256 * (l + p * h) == (a + 256 * l) + (256 * p) * h
  {
  }

  /** The legacy header is understood exactly when the next word, the first chunk's length, is not zero. */
  lemma OpenLegacy(prefix: seq<byte>, size: nat, body: seq<byte>)
    requires size < TWO_32 && |body| >= 4
    ensures OpenAt(prefix + (LegacyHeader(size) + body), |prefix|) == Opened(MAX_CHUNK, size, |prefix| + 16)
       <==> FromLittleEndian(body[..4]) != 0
  {
    var tail := Word(size) + body;
    assert LegacyHeader(size) + body == MAGIC + Word(MAX_CHUNK) + tail;
    Pow256Values();
    assert tail[..8] == Word(size) + body[..4];
    LittleEndianSplit(Word(size), body[..4]);
    LittleEndianRoundTrip(size, 4);
    HeaderFields(prefix, tail);
    LowAndHigh(size, FromLittleEndian(body[..4]));
  }

  lemma LowAndHigh(lo: nat, hi: nat)
    requires lo < TWO_32
    ensures (lo + TWO_32 * hi) / TWO_32 == hi && (lo + TWO_32 * hi) % TWO_32 == lo
  {
  }

  lemma FirstWord(c: Codec, data: seq<byte>)
    requires GoodCodec(c) && data != []
    ensures |Encode(c, data)| >= 4 && FromLittleEndian(Encode(c, data)[..4]) != 0
  {
    hide Word;
    var n := Min(MAX_CHUNK, |data|);
    var z := c.compress(data[..n]);
    assert Packs(c, data[..n]);
    assert Encode(c, data) == Word(|z|) + (z + Encode(c, data[n..]));
    WordPrefix(|z|, z + Encode(c, data[n..]));
  }

  lemma {:induction false} NonEmptyBody(c: Codec, parts: seq<seq<byte>>)
    requires GoodCodec(c) && Flatten(parts) != []
    ensures |EncodeAll(c, parts)| >= 4 && FromLittleEndian(EncodeAll(c, parts)[..4]) != 0
    decreases |parts|
  {
    hide Encode;
    var init, last := parts[..|parts| - 1], parts[|parts| - 1];
    if Flatten(init) != [] {
      NonEmptyBody(c, init);
      assert EncodeAll(c, parts)[..4] == EncodeAll(c, init)[..4];
    } else {
      EmptyParts(c, init);
      assert EncodeAll(c, parts) == Encode(c, last);
      FirstWord(c, last);
    }
  }

  lemma WordPrefix(n: nat, rest: seq<byte>)
    requires n < TWO_32
    ensures |Word(n) + rest| >= 4 && FromLittleEndian((Word(n) + rest)[..4]) == n
    ensures (Word(n) + rest)[4..] == rest
  {
    Pow256Values();
    LittleEndianPrefix(n, 4, rest);
  }

  lemma {:induction false} EmptyParts(c: Codec, parts: seq<seq<byte>>)
    requires Flatten(parts) == []
    ensures EncodeAll(c, parts) == []
    decreases |parts|
  {
    if parts == [] {
    } else {
      EmptyParts(c, parts[..|parts| - 1]);
    }
  }

  lemma HeaderLengths(size: nat)
    ensures |Header(size)| == 20 && |LegacyHeader(size)| == 16
  {
  }

  /** A whole file, in either form: opening it gives the size and leaves the reader before the data. */
  lemma FileRoundTrip(c: Codec, prefix: seq<byte>, parts: seq<seq<byte>>, legacy: bool)
    requires GoodCodec(c) && |Flatten(parts)| < TWO_32
    requires legacy ==> Flatten(parts) != []
    ensures var data := Flatten(parts);
      var head := if legacy then LegacyHeader(|data|) else Header(|data|);
      var bytes := prefix + (head + EncodeAll(c, parts));
      && OpenAt(bytes, |prefix|) == Opened(MAX_CHUNK, |data|, |prefix| + |head|)
      && Decode(c, MAX_CHUNK, bytes[|prefix| + |head|..]) == data
  {
    hide OpenAt, Header, LegacyHeader, EncodeAll, Flatten, Word;
    var data, body := Flatten(parts), EncodeAll(c, parts);
    HeaderLengths(|data|);
    var head := if legacy then LegacyHeader(|data|) else Header(|data|);
    var bytes := prefix + (head + body);
    if legacy {
      NonEmptyBody(c, parts);
      OpenLegacy(prefix, |data|, body);
    } else {
      OpenCurrent(prefix, |data|, body);
    }
    assert bytes[|prefix| + |head|..] == body;
    WritesRoundTrip(c, parts, []);
    assert body + [] == body && data + Decode(c, MAX_CHUNK, []) == data;
  }

  // ---------------------------------------------------------------- lengths of 2^32 and more

  /** Bytes left after one iteration of the `Write` loop, whose chunk length is computed in 32 bits. */
  function LeftAfter(left: nat): nat {
    left - Min(MAX_CHUNK, left % TWO_32)
  }

  function LeftAfterSteps(left: nat, steps: nat): nat {
    if steps == 0 then left else LeftAfterSteps(LeftAfter(left), steps - 1)
  }

  lemma {:induction false} NeverBelow(left: nat, k: nat, steps: nat)
    requires left >= k * TWO_32
    ensures LeftAfterSteps(left, steps) >= k * TWO_32
    decreases steps
  {
    if steps == 0 {
    } else {
      assert left % TWO_32 <= left - k * TWO_32;
      NeverBelow(LeftAfter(left), k, steps - 1);
    }
  }

  lemma {:induction false} ReachesZero(left: nat) returns (steps: nat)
    requires left < TWO_32
    ensures LeftAfterSteps(left, steps) == 0
    decreases left
  {
    if left == 0 {
      steps := 0;
    } else {
      var n := ReachesZero(LeftAfter(left));
      steps := n + 1;
    }
  }

  /** The loop of `Write` ends exactly for lengths below 2^32. */
  lemma WriteTerminatesExactly(length: nat)
    ensures (exists steps :: LeftAfterSteps(length, steps) == 0) <==> length < TWO_32
  {
    if length < TWO_32 {
      var steps := ReachesZero(length);
    } else {
      forall steps
        ensures LeftAfterSteps(length, steps) != 0
      {
        NeverBelow(length, 1, steps);
      }
    }
  }

  /** The `Read` loop between two rounds: what is left of the chunk, of the file, and of the bytes asked for. */
  datatype Reading = Reading(chunk: seq<byte>, bytes: seq<byte>, left: nat)

  /** One round, whose piece length is computed in 32 bits; nothing is left where the loop ends. */
  function ReadRound(c: Codec, max: nat, r: Reading): Option<Reading> {
    if r.left == 0 then None
    else if r.chunk != [] then Some(TakeFrom(r.chunk, r.bytes, r.left))
    else match NextChunk(c, max, r.bytes)
      case Broken(_) => None
      case Chunk(content, rest) => Some(TakeFrom(content, rest, r.left))
  }

  function TakeFrom(chunk: seq<byte>, bytes: seq<byte>, left: nat): Reading {
    var l := Min(|chunk|, left % TWO_32);
    Reading(chunk[l..], bytes, left - l)
  }

  predicate EndsWithin(c: Codec, max: nat, r: Reading, rounds: nat)
    decreases rounds
  {
    var next := ReadRound(c, max, r);
    next.None? || (rounds > 0 && EndsWithin(c, max, next.value, rounds - 1))
  }

  /** All that the loop can still read. */
  function ToRead(c: Codec, max: nat, r: Reading): seq<byte> {
    r.chunk + Decode(c, max, r.bytes)
  }

  /** What is asked for fits in 32 bits, or the stream ends before the piece length becomes zero. */
  predicate ReadEnds(c: Codec, max: nat, r: Reading) {
    r.left < TWO_32 || |ToRead(c, max, r)| <= r.left % TWO_32
  }

  lemma TakeKeepsEnds(left: nat, n: nat, chunk: nat)
    requires chunk <= n
    ensures var l := Min(chunk, left % TWO_32);
      left < TWO_32 || n <= left % TWO_32 <==> left - l < TWO_32 || n - l <= (left - l) % TWO_32
  {
    var l := Min(chunk, left % TWO_32);
    assert (left - l) / TWO_32 == left / TWO_32 && (left - l) % TWO_32 == left % TWO_32 - l;
  }

  /** A round neither saves nor spoils the loop. */
  lemma RoundKeepsEnds(c: Codec, max: nat, r: Reading)
    requires ReadRound(c, max, r).Some?
    ensures ReadEnds(c, max, r) <==> ReadEnds(c, max, ReadRound(c, max, r).value)
  {
    hide NextChunk;
    var next := ReadRound(c, max, r).value;
    if r.chunk != [] {
      TakeKeepsEnds(r.left, |ToRead(c, max, r)|, |r.chunk|);
    } else {
      var got := NextChunk(c, max, r.bytes);
      assert ToRead(c, max, r) == got.content + Decode(c, max, got.rest);
      TakeKeepsEnds(r.left, |ToRead(c, max, r)|, |got.content|);
    }
  }

  lemma RoundShrinks(c: Codec, max: nat, r: Reading)
    requires ReadEnds(c, max, r) && ReadRound(c, max, r).Some?
    ensures var next := ReadRound(c, max, r).value;
      |next.bytes| < |r.bytes| || (next.bytes == r.bytes && |next.chunk| < |r.chunk|)
  {
    hide NextChunk;
    if r.chunk == [] {
      NextChunkShrinks(c, max, r.bytes);
    }
  }

  lemma {:induction false} ReadEndsWithin(c: Codec, max: nat, r: Reading) returns (rounds: nat)
    requires ReadEnds(c, max, r)
    ensures EndsWithin(c, max, r, rounds)
    decreases |r.bytes|, |r.chunk|
  {
    rounds := 0;
    if ReadRound(c, max, r).None? {
    } else {
      hide ReadRound, ReadEnds;
      RoundKeepsEnds(c, max, r);
      RoundShrinks(c, max, r);
      var n := ReadEndsWithin(c, max, ReadRound(c, max, r).value);
      rounds := n + 1;
    }
  }

  lemma {:induction false} ReadGoesOn(c: Codec, max: nat, r: Reading, rounds: nat)
    requires !ReadEnds(c, max, r)
    ensures !EndsWithin(c, max, r, rounds)
    decreases rounds
  {
    hide NextChunk;
    assert ReadRound(c, max, r).Some?;
    RoundKeepsEnds(c, max, r);
    if rounds == 0 {
    } else {
      ReadGoesOn(c, max, ReadRound(c, max, r).value, rounds - 1);
    }
  }

  /**
   The loop of `Read` ends exactly for lengths below 2^32, and for larger ones when the stream has no
   more bytes than the length modulo 2^32.
   */
  lemma ReadTerminatesExactly(c: Codec, max: nat, r: Reading)
    ensures (exists rounds :: EndsWithin(c, max, r, rounds)) <==> ReadEnds(c, max, r)
  {
    hide EndsWithin, ReadEnds;
    if ReadEnds(c, max, r) {
      var rounds := ReadEndsWithin(c, max, r);
    } else {
      forall rounds
        ensures !EndsWithin(c, max, r, rounds)
      {
        ReadGoesOn(c, max, r, rounds);
      }
    }
  }

  // ---------------------------------------------------------------- odd chunks

  /** Empty chunks are passed over. */
  lemma EmptyChunkIsSkipped(c: Codec, max: nat, rest: seq<byte>)
    ensures Decode(c, max, Word(0) + rest) == Decode(c, max, rest)
  {
    Pow256Values();
    LittleEndianPrefix(0, 4, rest);
    assert NextChunk(c, max, Word(0) + rest) == Chunk([], rest);
  }

  /** A chunk that cannot be unpacked, or unpacks to more than the header allows, ends the stream. */
  lemma DamageEndsTheStream(c: Codec, max: nat, zipped: seq<byte>, rest: seq<byte>)
    requires 0 < |zipped| < TWO_32
    requires c.uncompress(zipped).Some? ==> |c.uncompress(zipped).value| > max
    ensures Decode(c, max, Word(|zipped|) + zipped + rest) == []
  {
    Pow256Values();
    var bytes := Word(|zipped|) + (zipped + rest);
    LittleEndianPrefix(|zipped|, 4, zipped + rest);
    assert bytes == Word(|zipped|) + zipped + rest;
    assert bytes[4..4 + |zipped|] == zipped;
    assert NextChunk(c, max, bytes).Broken?;
  }
}
