/** `RZipFile` over a host file: Open, Close, Read and Write as they update their fields. */
module RzipFile {
  import opened Bytes
  import opened Rzip

  /** The host file: contents and a position. */
  class File {
    var bytes: seq<byte>
    var pos: nat

    constructor (bytes: seq<byte>)
      ensures this.bytes == bytes && pos == 0
    {
      this.bytes := bytes;
      pos := 0;
    }

    ghost predicate Valid()
      reads this
    {
      pos <= |bytes|
    }

    /** `read(dst, n, 1)`: the item, or nothing and the position at the end. */
    method ReadItem(n: nat) returns (item: Option<seq<byte>>)
      requires Valid()
      modifies this`pos
      ensures Valid()
      ensures n <= |bytes| - old(pos) ==> item == Some(bytes[old(pos)..old(pos) + n]) && pos == old(pos) + n
      ensures n > |bytes| - old(pos) ==> item == None && pos == |bytes|
    {
      if n <= |bytes| - pos {
        item := Some(bytes[pos..pos + n]);
        pos := pos + n;
      } else {
        item, pos := None, |bytes|;
      }
    }

    method Write(data: seq<byte>)
      requires Valid()
      modifies this
      ensures Valid() && pos == old(pos) + |data|
      ensures bytes == old(bytes)[..old(pos)] + data + (if pos < |old(bytes)| then old(bytes)[pos..] else [])
    {
      bytes := bytes[..pos] + data + (if pos + |data| < |bytes| then bytes[pos + |data|..] else []);
      pos := pos + |data|;
    }

    method Append(data: seq<byte>)
      requires Valid() && pos == |bytes|
      modifies this
      ensures Valid() && pos == |bytes|
      ensures bytes == old(bytes) + data
    {
      Write(data);
    }

    method Seek(p: nat)
      requires p <= |bytes|
      modifies this`pos
      ensures pos == p
    {
      pos := p;
    }
  }

  /** A stream open for writing. */
  class Writer {
    const codec: Codec
    const file: File
    const startOffset: nat
    var size: nat

    ghost predicate Valid()
      reads this, file
    {
      GoodCodec(codec) && file.Valid() && file.pos == |file.bytes| && startOffset + 20 <= |file.bytes|
    }

    /** `Open(file, true)`: the header with a size of 0 for now. */
    constructor (codec: Codec, file: File)
      requires GoodCodec(codec) && file.Valid() && file.pos == |file.bytes|
      modifies file
      ensures Valid() && this.codec == codec && this.file == file && size == 0
      ensures startOffset == old(|file.bytes|)
      ensures file.bytes == old(file.bytes) + Header(0)
    {
      this.codec, this.file, startOffset, size := codec, file, file.pos, 0;
      new;
      hide Word;
      file.Append(MAGIC + Word(MAX_CHUNK) + LittleEndian(0, 8));
    }

    method WriteChunk(x: seq<byte>)
      requires Valid()
      modifies file
      ensures Valid()
      ensures file.bytes == old(file.bytes) + OneChunk(codec, x)
    {
      hide GoodCodec, Word;
      var z := codec.compress(x);
      file.Append(Word(|z|));
      file.Append(z);
    }

    method Write(data: seq<byte>) returns (rv: nat)
      requires Valid() && |data| < TWO_32
      modifies this`size, file
      ensures Valid()
      ensures rv == |data| && size == old(size) + |data|
      ensures file.bytes == old(file.bytes) + Encode(codec, data)
    {
      hide GoodCodec, OneChunk, Encode;
      size := size + |data|;
      rv := 0;
      ghost var before := file.bytes;
      ghost var done := [];
      EncodeStart(codec, data);
      while rv < |data|
        invariant 0 <= rv <= |data|
        invariant Valid() && size == old(size) + |data|
        invariant file.bytes == before + done
        invariant done + Encode(codec, data[rv..]) == Encode(codec, data)
      {
        var left := (|data| - rv) % TWO_32;
        var n := if MAX_CHUNK < left then MAX_CHUNK else left;
        WriteStep(codec, data, rv, n, done);
        WriteChunk(data[rv..rv + n]);
        done := done + OneChunk(codec, data[rv..rv + n]);
        rv := rv + n;
      }
      EncodeEnd(codec, data);
    }

    /** The size field is filled in at the end. */
    method Close()
      requires Valid() && size < TWO_64
      modifies file
      ensures file.bytes
           == old(file.bytes)[..startOffset + 12] + LittleEndian(size, 8) + old(file.bytes)[startOffset + 20..]
    {
      file.Seek(startOffset + 12);
      file.Write(LittleEndian(size, 8));
    }
  }

  lemma EncodeStart(c: Codec, data: seq<byte>)
    ensures [] + Encode(c, data[0..]) == Encode(c, data)
  {
    assert data[0..] == data;
  }

  lemma EncodeEnd(c: Codec, data: seq<byte>)
    ensures Encode(c, data[|data|..]) == []
  {
  }

  /** One chunk of a write, taken off the front of what is left. */
  lemma WriteStep(c: Codec, data: seq<byte>, rv: nat, n: nat, done: seq<byte>)
    requires rv < |data| && n == Min(MAX_CHUNK, |data| - rv)
    ensures rv + n <= |data|
    ensures done + Encode(c, data[rv..]) == done + OneChunk(c, data[rv..rv + n]) + Encode(c, data[rv + n..])
  {
    assert data[rv..][..n] == data[rv..rv + n] && data[rv..][n..] == data[rv + n..];
  }

  /** Patching the size turns the provisional header into the final one. */
  lemma ClosedFile(prefix: seq<byte>, body: seq<byte>, size: nat)
    ensures var bytes := prefix + (Header(0) + body);
      bytes[..|prefix| + 12] + LittleEndian(size, 8) + bytes[|prefix| + 20..] == prefix + (Header(size) + body)
  {
    hide LittleEndian;
    var bytes := prefix + (Header(0) + body);
    var m := MAGIC + Word(MAX_CHUNK);
    assert bytes == (prefix + m) + (LittleEndian(0, 8) + body);
    assert bytes[..|prefix| + 12] == prefix + m;
    assert bytes[|prefix| + 20..] == body;
  }

  lemma DecodeStep(c: Codec, max: nat, b: seq<byte>)
    ensures match NextChunk(c, max, b)
      case Broken(_) => Decode(c, max, b) == []
      case Chunk(content, rest) => Decode(c, max, b) == content + Decode(c, max, rest)
  {
    hide NextChunk;
  }

  /** A stream open for reading. `chunk[chunkIndex..]` is decompressed and not yet handed out. */
  class Reader {
    const codec: Codec
    const file: File
    var size: nat
    var maxChunk: nat
    var chunk: seq<byte>
    var chunkIndex: nat

    ghost predicate Valid()
      reads this, file
    {
      file.Valid() && chunkIndex <= |chunk|
    }

    /** Everything still to come. */
    ghost function Pending(): seq<byte>
      requires Valid()
      reads this, file
    {
      chunk[chunkIndex..] + Decode(codec, maxChunk, file.bytes[file.pos..])
    }

    constructor (codec: Codec, file: File)
      requires file.Valid()
      ensures Valid() && this.codec == codec && this.file == file
    {
      this.codec, this.file := codec, file;
      size, maxChunk, chunk, chunkIndex := 0, 0, [], 0;
    }

    /** `Open(file, false)`, with the fix-up for headers that have a 32-bit size. */
    method Open() returns (ok: bool)
      requires Valid()
      modifies this, file`pos
      ensures Valid()
      ensures match OpenAt(file.bytes, old(file.pos))
        case NotRzip => !ok && file.pos == old(file.pos)
        case Opened(m, sz, p) => ok && maxChunk == m && size == sz && file.pos == p && chunk == [] && chunkIndex == 0
    {
      var start := file.pos;
      ghost var b := file.bytes[start..];
      var magic := file.ReadItem(8);
      if magic == Some(MAGIC) {
        var max := file.ReadItem(4);
        if max.Some? {
          var sz := file.ReadItem(8);
          if sz.Some? {
            assert b[..8] == magic.value;
            assert b[8..12] == max.value;
            assert b[12..20] == sz.value;
            maxChunk, size := FromLittleEndian(max.value), FromLittleEndian(sz.value);
            if size / TWO_32 != 0 {
              size := size % TWO_32;
              file.Seek(file.pos - 4);
            }
            chunk, chunkIndex := [], 0;
            return true;
          }
        }
      }
      assert magic.Some? ==> magic.value == b[..8];
      file.Seek(start);
      return false;
    }

    /** Loads the next chunk; false at the end of the file or on damage. */
    method LoadChunk() returns (more: bool)
      requires Valid() && chunkIndex == |chunk|
      modifies this`chunk, this`chunkIndex, file`pos
      ensures Valid() && chunkIndex == 0
      ensures match NextChunk(codec, maxChunk, file.bytes[old(file.pos)..])
        case Broken(_) => !more && chunk == []
        case Chunk(content, rest) =>
          more && chunk == content && file.bytes[file.pos..] == rest && file.pos > old(file.pos)
    {
      chunk, chunkIndex := [], 0;
      ghost var b := file.bytes[file.pos..];
      var word := file.ReadItem(4);
      if word.None? {
        return false;
      }
      assert word.value == b[..4];
      var n := FromLittleEndian(word.value);
      if n == 0 {
        assert file.bytes[file.pos..] == b[4..];
        return true;
      }
      var zipped := file.ReadItem(n);
      if zipped.None? {
        return false;
      }
      assert zipped.value == b[4..4 + n] && file.bytes[file.pos..] == b[4 + n..];
      match codec.uncompress(zipped.value) {
        case None => return false;
        case Some(d) =>
          if |d| > maxChunk {
            return false;
          }
          chunk := d;
          return true;
      }
    }

    /** Makes sure there is a chunk to take from, reading one if the current one is used up. */
    method Refill() returns (more: bool)
      requires Valid()
      modifies this`chunk, this`chunkIndex, file`pos
      ensures Valid() && (more ==> file.pos >= old(file.pos))
      ensures more ==> Pending() == old(Pending())
      ensures more && old(chunkIndex == |chunk|) ==> file.pos > old(file.pos)
      ensures more && !old(chunkIndex == |chunk|) ==> chunkIndex < |chunk|
      ensures !more ==> old(Pending()) == []
    {
      if chunkIndex < |chunk| {
        return true;
      }
      ghost var b := file.bytes[file.pos..];
      hide Decode;
      assert chunk[chunkIndex..] == [];
      assert Pending() == Decode(codec, maxChunk, b);
      more := LoadChunk();
      DecodeStep(codec, maxChunk, b);
      assert chunk[chunkIndex..] == chunk;
      assert more ==> Decode(codec, maxChunk, b) == chunk + Decode(codec, maxChunk, file.bytes[file.pos..]);
    }

    /** Hands out at most `wanted` bytes of the current chunk. */
    method TakePiece(wanted: nat) returns (piece: seq<byte>)
      requires Valid()
      modifies this`chunkIndex
      ensures Valid()
      ensures |piece| == Min(old(|chunk| - chunkIndex), wanted)
      ensures piece + Pending() == old(Pending())
    {
      hide Decode;
      var l := if |chunk| - chunkIndex < wanted then |chunk| - chunkIndex else wanted;
      piece := chunk[chunkIndex..chunkIndex + l];
      assert chunk[chunkIndex..] == piece + chunk[chunkIndex + l..];
      chunkIndex := chunkIndex + l;
    }

    /** One round: at most `wanted` bytes, or none from an empty chunk, or the end of the stream. */
    method ReadPiece(wanted: nat) returns (more: bool, piece: seq<byte>)
      requires Valid() && (wanted > 0 || Pending() == [])
      modifies this`chunk, this`chunkIndex, file`pos
      ensures Valid() && |piece| <= wanted
      ensures more ==> piece + Pending() == old(Pending())
      ensures more ==> file.pos >= old(file.pos) && (piece == [] ==> file.pos > old(file.pos))
      ensures !more ==> piece == [] && old(Pending()) == []
    {
      hide Decode, NextChunk;
      piece := [];
      more := Refill();
      if more {
        piece := TakePiece(wanted);
      }
    }

    /**
     Hands out the next `length` bytes, or all that is left, wherever the loop ends
     (`Rzip.ReadTerminatesExactly`). Terminates on bytes wanted, then bytes left in the file, also
     across empty chunks.
     */
    method Read(length: nat) returns (data: seq<byte>)
      requires Valid() && ReadEnds(codec, maxChunk, Reading(chunk[chunkIndex..], file.bytes[file.pos..], length))
      modifies this`chunk, this`chunkIndex, file`pos
      ensures Valid()
      ensures data == old(Pending())[..Min(length, |old(Pending())|)]
      ensures |data| == length ==> Pending() == old(Pending())[length..]
    {
      hide Decode, NextChunk;
      data := [];
      ghost var all := Pending();
      assert length < TWO_32 || |all| <= length % TWO_32;
      hide Pending;
      while |data| < length
        invariant Valid() && |data| <= length
        invariant data + Pending() == all
        decreases length - |data|, |file.bytes| - file.pos
      {
        ghost var before := Pending();
        NothingWanted(length, |data|, |all|);
        var more, piece := ReadPiece((length - |data|) % TWO_32);
        if !more {
          assert data + [] == data;
          return;
        }
        assert data + before == (data + piece) + Pending();
        data := data + piece;
      }
    }

    /** Any split into Read calls gives consecutive pieces of the stream. */
    method ReadParts(lengths: seq<nat>) returns (parts: seq<seq<byte>>)
      requires Valid() && Sum(lengths) <= |Pending()| && Sum(lengths) < TWO_32
      modifies this`chunk, this`chunkIndex, file`pos
      ensures Valid()
      ensures |parts| == |lengths| && forall i :: 0 <= i < |lengths| ==> |parts[i]| == lengths[i]
      ensures Flatten(parts) == old(Pending())[..Sum(lengths)]
    {
      hide Decode, Flatten, Sum;
      ghost var all := Pending();
      parts := [];
      EmptySums();
      assert lengths[..0] == [];
      for k := 0 to |lengths|
        invariant Valid()
        invariant |parts| == k && forall i :: 0 <= i < k ==> |parts[i]| == lengths[i]
        invariant Sum(lengths[..k]) <= Sum(lengths)
        invariant Flatten(parts) == all[..Sum(lengths[..k])] && Pending() == all[Sum(lengths[..k])..]
      {
        SumStep(lengths, k);
        SliceStep(all, Sum(lengths[..k]), lengths[k]);
        var piece := Read(lengths[k]);
        FlattenStep(parts, piece);
        parts := parts + [piece];
      }
      assert lengths[..|lengths|] == lengths;
    }
  }

  /** The piece length becomes zero only at the end of the stream. */
  lemma NothingWanted(length: nat, done: nat, n: nat)
    requires length < TWO_32 || n <= length % TWO_32
    requires done < length && done <= n
    ensures (length - done) % TWO_32 == 0 ==> done == n
  {
    if length >= TWO_32 {
      assert (length - done) % TWO_32 == length % TWO_32 - done;
    }
  }

  function Sum(lengths: seq<nat>): nat {
    if lengths == [] then 0 else Sum(lengths[..|lengths| - 1]) + lengths[|lengths| - 1]
  }

  lemma EmptySums()
    ensures Sum([]) == 0 && Flatten([]) == []
  {
  }

  lemma SliceStep(all: seq<byte>, a: nat, n: nat)
    requires a + n <= |all|
    ensures all[..a] + all[a..][..n] == all[..a + n]
    ensures all[a..][n..] == all[a + n..]
  {
  }

  lemma SumStep(lengths: seq<nat>, k: nat)
    requires k < |lengths|
    ensures Sum(lengths[..k + 1]) == Sum(lengths[..k]) + lengths[k] <= Sum(lengths)
  {
    assert lengths[..k + 1][..k] == lengths[..k];
    SumGrows(lengths, k + 1);
  }

  lemma {:induction false} SumGrows(lengths: seq<nat>, k: nat)
    requires k <= |lengths|
    ensures Sum(lengths[..k]) <= Sum(lengths)
    decreases |lengths| - k
  {
    if k < |lengths| {
      assert lengths[..k + 1][..k] == lengths[..k];
      SumGrows(lengths, k + 1);
    } else {
      assert lengths[..k] == lengths;
    }
  }

  lemma FlattenStep(parts: seq<seq<byte>>, piece: seq<byte>)
    ensures Flatten(parts + [piece]) == Flatten(parts) + piece
  {
    assert (parts + [piece])[..|parts|] == parts;
  }

  lemma EncodeAllStep(c: Codec, parts: seq<seq<byte>>, k: nat)
    requires k < |parts|
    ensures EncodeAll(c, parts[..k + 1]) == EncodeAll(c, parts[..k]) + Encode(c, parts[k])
    ensures Flatten(parts[..k + 1]) == Flatten(parts[..k]) + parts[k]
  {
    hide Encode;
    assert parts[..k + 1][..k] == parts[..k];
  }

  lemma {:induction false} FlattenGrows(parts: seq<seq<byte>>, k: nat)
    requires k <= |parts|
    ensures |Flatten(parts[..k])| <= |Flatten(parts)|
    decreases |parts| - k
  {
    if k < |parts| {
      EncodeAllStep(Codec(x => x, x => None), parts, k);
      FlattenGrows(parts, k + 1);
    } else {
      assert parts[..k] == parts;
    }
  }

  /** The whole file after writing `parts` behind `prefix`. */
  lemma NoParts(c: Codec)
    ensures EncodeAll(c, []) == [] && Flatten([]) == []
  {
  }

  method WriteFile(codec: Codec, prefix: seq<byte>, parts: seq<seq<byte>>) returns (bytes: seq<byte>)
    requires GoodCodec(codec) && |Flatten(parts)| < TWO_32
    ensures bytes == prefix + (Header(|Flatten(parts)|) + EncodeAll(codec, parts))
  {
    hide Encode, GoodCodec, Header, EncodeAll, Flatten;
    NoParts(codec);
    var file := new File(prefix);
    file.Seek(|prefix|);
    var w := new Writer(codec, file);
    assert parts[..0] == [];
    assert prefix + Header(0) == prefix + Header(0) + EncodeAll(codec, parts[..0]);
    for k := 0 to |parts|
      invariant w.Valid() && w.file == file && w.codec == codec && w.startOffset == |prefix|
      invariant w.size == |Flatten(parts[..k])|
      invariant file.bytes == prefix + Header(0) + EncodeAll(codec, parts[..k])
    {
      EncodeAllStep(codec, parts, k);
      FlattenGrows(parts, k + 1);
      var _ := w.Write(parts[k]);
    }
    assert parts[..|parts|] == parts;
    ClosedFile(prefix, EncodeAll(codec, parts), w.size);
    assert file.bytes == prefix + (Header(0) + EncodeAll(codec, parts));
    w.Close();
    bytes := file.bytes;
  }

  /**
   Writing with any split into Write calls, closing, opening again and reading with any split into
   Read calls gives the bytes back, behind any prefix.
   */
  method WriteThenRead(codec: Codec, prefix: seq<byte>, parts: seq<seq<byte>>, lengths: seq<nat>)
    returns (size: nat, pieces: seq<seq<byte>>)
    requires GoodCodec(codec) && |Flatten(parts)| < TWO_32
    requires Sum(lengths) == |Flatten(parts)|
    ensures size == |Flatten(parts)|
    ensures Flatten(pieces) == Flatten(parts)
  {
    hide GoodCodec, Header, Encode, OpenAt, EncodeAll;
    var bytes := WriteFile(codec, prefix, parts);
    FileRoundTrip(codec, prefix, parts, false);
    HeaderLengths(|Flatten(parts)|);
    var file := new File(bytes);
    file.Seek(|prefix|);
    var r := new Reader(codec, file);
    var ok := r.Open();
    size := r.size;
    assert r.Pending() == Flatten(parts);
    pieces := r.ReadParts(lengths);
  }
}
