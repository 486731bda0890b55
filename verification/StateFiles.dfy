/**
 Savestate files in every form: raw or compressed, with a header or without, whole or cut short, and
 states that are refused.
 */
module StateFiles {
  import opened Bytes
  import opened Rzip
  import opened Savestate

  // ---------------------------------------------------------------- files that are not compressed

  /** The state would be taken for an RZIP stream, or for a file with a header. */
  predicate LooksCompressed(state: seq<byte>) {
    |state| >= 20 && state[..8] == MAGIC
  }

  predicate LooksHeaded(state: seq<byte>) {
    |state| >= 24 && state[..8] == FLYSAVE
  }

  /** A file whose stream is not compressed loads to all that is there. */
  lemma UncompressedLoads(c: Codec, prefix: seq<byte>, state: seq<byte>)
    requires StreamStart(prefix + state) == |prefix| && |state| < TWO_32 && !LooksCompressed(state)
    ensures LoadedBytes(c, prefix + state) == Some(state)
  {
    hide StreamStart;
    var bytes := prefix + state;
    assert bytes[|prefix|..] == state;
    SmallWord(|state|);
    assert bytes[|prefix|..|prefix| + |state|] == state;
  }

  /** A file that is the state alone loads to that state. */
  lemma RawStateLoads(c: Codec, state: seq<byte>)
    requires |state| < TWO_32 && !LooksCompressed(state) && !LooksHeaded(state)
    ensures LoadedBytes(c, state) == Some(state)
  {
    hide LoadedBytes;
    assert [] + state == state;
    UncompressedLoads(c, [], state);
  }

  /** So does one with a header and a screenshot in front of it. */
  lemma HeadedStateLoads(c: Codec, date: nat, png: seq<byte>, state: seq<byte>)
    requires |state| < TWO_32 && |png| < TWO_32 && !LooksCompressed(state)
    ensures LoadedBytes(c, FileHeader(date, |png|) + png + state) == Some(state)
  {
    hide LoadedBytes, FileHeader, StreamStart;
    StreamStartOf(date, png, state);
    UncompressedLoads(c, FileHeader(date, |png|) + png, state);
  }

  lemma StateLooksLikeNothing(state: seq<byte>, console: bool, ramSize: u32, ops: seq<Op>)
    requires LaidOut(state, 0, Preamble(console, ramSize) + ops)
    ensures !LooksCompressed(state) && !LooksHeaded(state)
  {
    var all := Preamble(console, ramSize) + ops;
    assert InPlace(state, 0, all, 0);
    assert all[..0] == [] && all[0] == Field(Word(CURRENT));
    assert state[0..4] == Word(CURRENT);
    assert Word(CURRENT)[0] == CURRENT % 256;
    assert state[0] == state[0..4][0];
  }

  lemma ContainerLooksLikeNothing(sections: seq<Section>, state: seq<byte>, trailer: seq<byte>)
    ensures !LooksCompressed(Container(sections, state, trailer)) && !LooksHeaded(Container(sections, state, trailer))
  {
    hide SectionsBytes;
    var data := Container(sections, state, trailer);
    assert data[0] == RASTATE[0];
    if |data| >= 8 {
      assert data[..8][0] == data[0];
    }
  }

  /** The fields come back from a file that is the state alone, or has it behind a header and a screenshot, */
  lemma RawFilesComeBack(
    c: Codec, date: nat, png: seq<byte>, state: seq<byte>, console: bool, ramSize: u32, ops: seq<Op>)
    requires |state| < TWO_32 && |png| < TWO_32
    requires var all := Preamble(console, ramSize) + ops; LaidOut(state, 0, all) && |state| == SizeOf(all)
    ensures LoadedBytes(c, state) == Some(state)
    ensures LoadedBytes(c, FileHeader(date, |png|) + png + state) == Some(state)
    ensures Deserialize(state, console, ramSize, MirrorAll(ops)) == Loaded(FieldsOf(ops))
  {
    hide LoadedBytes, Deserialize, FieldsOf, LaidOut, SizeOf, FileHeader;
    StateLooksLikeNothing(state, console, ramSize, ops);
    RawStateLoads(c, state);
    HeadedStateLoads(c, date, png, state);
    StateRoundTrip(state, console, ramSize, ops);
  }

  /** and from a RetroArch container in such a file. */
  lemma RawContainersComeBack(
    c: Codec, date: nat, png: seq<byte>, sections: seq<Section>, state: seq<byte>, trailer: seq<byte>,
    console: bool, ramSize: u32, ops: seq<Op>)
    requires |png| < TWO_32 && |Container(sections, state, trailer)| < TWO_32 && |state| + |trailer| > 8
    requires var all := Preamble(console, ramSize) + ops; LaidOut(state, 0, all) && |state| == SizeOf(all)
    requires forall i :: 0 <= i < |sections| ==> OtherSection(sections[i])
    ensures var data := Container(sections, state, trailer);
      && LoadedBytes(c, data) == Some(data)
      && LoadedBytes(c, FileHeader(date, |png|) + png + data) == Some(data)
      && Deserialize(data, console, ramSize, MirrorAll(ops)) == Loaded(FieldsOf(ops))
  {
    assert |state| < TWO_32;
    hide LoadedBytes, Deserialize, FieldsOf, LaidOut, SizeOf, FileHeader, OtherSection, Container;
    var data := Container(sections, state, trailer);
    ContainerLooksLikeNothing(sections, state, trailer);
    RawStateLoads(c, data);
    HeadedStateLoads(c, date, png, data);
    ContainerRoundTrip(state, console, ramSize, ops, sections, trailer);
  }

  // ---------------------------------------------------------------- files that are cut short

  /** An RZIP file is refused exactly when its stream holds fewer bytes than its size field says. */
  lemma ShortStreamsAreRefused(c: Codec, bytes: seq<byte>, max: nat, size: nat, p: nat)
    requires StreamStart(bytes) <= |bytes| && OpenAt(bytes, StreamStart(bytes)) == Opened(max, size, p) && size < TWO_32
    ensures p <= |bytes|
    ensures LoadedBytes(c, bytes) == None <==> |Decode(c, max, bytes[p..])| < size
    ensures LoadedBytes(c, bytes).Some? ==> LoadedBytes(c, bytes).value == Decode(c, max, bytes[p..])[..size]
  {
    OpenAtInRange(bytes, StreamStart(bytes));
    hide OpenAt, StreamStart, Decode;
    SmallWord(size);
  }

  lemma CutChunk(c: Codec, max: nat, x: seq<byte>, n: nat)
    requires GoodCodec(c) && |x| <= MAX_CHUNK && n < |OneChunk(c, x)|
    ensures Decode(c, max, OneChunk(c, x)[..n]) == []
  {
    assert Packs(c, x);
    var z := c.compress(x);
    var bytes := OneChunk(c, x)[..n];
    Pow256Values();
    if n >= 4 {
      assert bytes[..4] == Word(|z|);
      LittleEndianRoundTrip(|z|, 4);
    }
    assert NextChunk(c, max, bytes).Broken?;
  }

  /** A stream that lacks its last byte, or more, lacks some of its data. */
  lemma {:induction false} CutStream(c: Codec, data: seq<byte>, n: nat)
    requires GoodCodec(c) && n < |Encode(c, data)|
    ensures |Decode(c, MAX_CHUNK, Encode(c, data)[..n])| < |data|
    decreases |data|
  {
    hide OneChunk, NextChunk, Decode, GoodCodec;
    var k := Min(MAX_CHUNK, |data|);
    var first, rest := OneChunk(c, data[..k]), Encode(c, data[k..]);
    assert Encode(c, data) == first + rest;
    if n < |first| {
      assert (first + rest)[..n] == first[..n];
      CutChunk(c, MAX_CHUNK, data[..k], n);
    } else {
      assert (first + rest)[..n] == first + rest[..n - |first|];
      CutStream(c, data[k..], n - |first|);
      WholeChunk(c, data[..k], rest[..n - |first|]);
    }
  }

  lemma WholeChunk(c: Codec, x: seq<byte>, rest: seq<byte>)
    requires GoodCodec(c) && |x| <= MAX_CHUNK
    ensures Decode(c, MAX_CHUNK, OneChunk(c, x) + rest) == x + Decode(c, MAX_CHUNK, rest)
  {
    hide OneChunk, NextChunk, GoodCodec;
    ChunkRoundTrip(c, x, rest);
  }

  /** A saved file that was cut anywhere behind its two headers is refused. */
  lemma TruncatedIsRefused(c: Codec, date: nat, png: seq<byte>, state: seq<byte>, n: nat)
    requires GoodCodec(c) && |state| < TWO_32 && |png| < TWO_32
    requires 24 + |png| + 20 <= n < |SavedFile(c, date, png, state)|
    ensures LoadedBytes(c, SavedFile(c, date, png, state)[..n]) == None
  {
    hide OpenAt, Decode, Encode, FileHeader, GoodCodec, StreamStart, LoadedBytes, Header;
    var prefix, head, body := FileHeader(date, |png|) + png, Header(|state|), Encode(c, state);
    HeaderLengths(|state|);
    var m := n - |prefix| - 20;
    var bytes := prefix + (head + body[..m]);
    assert (prefix + (head + body))[..n] == bytes;
    StreamStartOf(date, png, head + body[..m]);
    OpenCurrent(prefix, |state|, body[..m]);
    CutStream(c, state, m);
    assert bytes[|prefix| + 20..] == body[..m];
    ShortStreamsAreRefused(c, bytes, MAX_CHUNK, |state|, |prefix| + 20);
  }

  // ---------------------------------------------------------------- states that are refused

  /** A version and a RAM size, and what is read of them. */
  lemma HeadIsRead(version: u32, ram: u32, rest: seq<byte>)
    ensures var data := Word(version) + Word(ram) + rest;
      && ReadFields(data, |data|, [Want(4)]).Some?
      && ReadFields(data, |data|, [Want(4)]).value.0 == [Word(version)]
      && ReadFields(data, |data|, [Want(4), Want(4)]).Some?
      && ReadFields(data, |data|, [Want(4), Want(4)]).value.0 == [Word(version), Word(ram)]
  {
    var data, ops := Word(version) + Word(ram) + rest, [Field(Word(version)), Field(Word(ram))];
    WordValue(version);
    WordValue(ram);
    hide ReadFields, Word;
    assert ops[..0] == [] && ops[..1] == [Field(Word(version))] && ops[..2] == ops && ops[..1][..0] == [];
    assert SizeOf([]) == 0 && SizeOf(ops[..1]) == 4 && SizeOf(ops) == 8;
    assert data[0..4] == Word(version) && data[4..8] == Word(ram);
    assert InPlace(data, 0, ops, 0) && InPlace(data, 0, ops, 1);
    MirroredReads(data, |data|, ops, 1);
    MirroredReads(data, |data|, ops, 2);
    assert FieldsOf([]) == [] && FieldsOf(ops[..1]) == [Word(version)] && FieldsOf(ops) == [Word(version), Word(ram)];
    assert MirrorAll(ops[..1]) == [Want(4)] && MirrorAll(ops) == [Want(4), Want(4)];
  }

  /** Versions outside the supported range are refused, and so is another RAM size on a console. */
  lemma ForeignStatesAreRefused(
    version: u32, ram: u32, rest: seq<byte>, console: bool, ramSize: u32, requests: seq<Request>)
    requires (Word(version) + Word(ram) + rest)[..8] != RASTATE
    ensures var r := Deserialize(Word(version) + Word(ram) + rest, console, ramSize, requests);
      && (version < V16 <==> r == Failed(Unsupported))
      && (version > CURRENT <==> r == Failed(TooRecent))
      && (V42 <= version <= CURRENT && console && ram != ramSize <==> r == Failed(WrongRam))
  {
    hide FindMem, ReadFields, Word;
    var data := Word(version) + Word(ram) + rest;
    assert data[0..] == data;
    WordValue(version);
    WordValue(ram);
    HeadIsRead(version, ram, rest);
  }

  // ---------------------------------------------------------------- states of older versions

  /** What a state of some version starts with: consoles store their RAM size since V42. */
  function OldPreamble(version: u32, console: bool, ramSize: u32): seq<Op> {
    [Field(Word(version))] + (if console && version >= V42 then [Field(Word(ramSize))] else [])
  }

  lemma OldPreambleFields(version: u32, console: bool, ramSize: u32)
    ensures var pre := OldPreamble(version, console, ramSize);
      && pre[0] == Field(Word(version)) && |pre| == (if console && version >= V42 then 2 else 1)
      && FieldsOf(pre) == [Word(version)] + (if console && version >= V42 then [Word(ramSize)] else [])
      && FieldsOf(pre[..1]) == [Word(version)]
      && MirrorAll(pre) == (if console && version >= V42 then [Want(4), Want(4)] else [Want(4)])
      && MirrorAll(pre[..1]) == [Want(4)]
  {
    WordValue(version);
    WordValue(ramSize);
    hide Word;
    var pre, a := OldPreamble(version, console, ramSize), [Field(Word(version))];
    assert a[..0] == [] && FieldsOf(a) == [Word(version)];
    assert pre[..1] == a;
    if console && version >= V42 {
      assert FieldsOf(pre) == FieldsOf(pre[..1]) + [Word(ramSize)];
    } else {
      assert pre == a;
    }
  }

  /** How many requests read the head of such a state. */
  function HeadRequests(version: u32, console: bool): seq<Request> {
    if console && version >= V42 then [Want(4), Want(4)] else [Want(4)]
  }

  lemma OldHeadReads(version: u32, data: seq<byte>, console: bool, ramSize: u32, ops: seq<Op>)
    requires var all := OldPreamble(version, console, ramSize) + ops; LaidOut(data, 0, all) && |data| == SizeOf(all)
    ensures ReadFields(data, |data|, [Want(4)]).Some?
    ensures ReadFields(data, |data|, [Want(4)]).value.0 == [Word(version)]
    ensures var head := HeadRequests(version, console);
      && ReadFields(data, |data|, head).Some?
      && ReadFields(data, |data|, head).value.0 == FieldsOf(OldPreamble(version, console, ramSize))
  {
    var pre := OldPreamble(version, console, ramSize);
    OldPreambleFields(version, console, ramSize);
    hide LaidOut, SizeOf, ReadFields, FieldsOf, Word, OldPreamble;
    var all := pre + ops;
    assert all[..1] == pre[..1] && all[..|pre|] == pre;
    MirroredReads(data, |data|, all, 1);
    MirroredReads(data, |data|, all, |pre|);
  }

  lemma OldFieldsRead(version: u32, data: seq<byte>, console: bool, ramSize: u32, ops: seq<Op>)
    requires var all := OldPreamble(version, console, ramSize) + ops; LaidOut(data, 0, all) && |data| == SizeOf(all)
    ensures Finish(data, |data|, HeadRequests(version, console), MirrorAll(ops)) == Loaded(FieldsOf(ops))
  {
    var pre := OldPreamble(version, console, ramSize);
    OldPreambleFields(version, console, ramSize);
    hide LaidOut, SizeOf, ReadFields, FieldsOf, Word, OldPreamble;
    ReadsRestoreFields(data, |data|, pre + ops);
    FieldsOfConcat(pre, ops);
    assert MirrorAll(pre + ops) == MirrorAll(pre) + MirrorAll(ops);
    assert (FieldsOf(pre) + FieldsOf(ops))[|pre|..] == FieldsOf(ops);
  }

  lemma OldIsNoContainer(version: u32, data: seq<byte>, console: bool, ramSize: u32, ops: seq<Op>)
    requires version <= CURRENT && LaidOut(data, 0, OldPreamble(version, console, ramSize) + ops)
    ensures |data| >= 8 ==> data[..8] != RASTATE
  {
    var all := OldPreamble(version, console, ramSize) + ops;
    assert InPlace(data, 0, all, 0);
    assert all[..0] == [] && all[0] == Field(Word(version));
    assert data[0..4] == Word(version);
    assert LittleEndian(version, 4)[3] == 0 by {
      assert LittleEndian(version, 4) == [version % 256] + LittleEndian(version / 256, 3);
      assert LittleEndian(version / 256, 3) == [version / 256 % 256] + LittleEndian(0, 2);
      assert LittleEndian(0, 2) == [0] + LittleEndian(0, 1);
    }
    assert data[3] == data[0..4][3];
    if |data| >= 8 {
      assert data[..8][3] == data[3] && RASTATE[3] == 0x54;
    }
  }

  /** States of every supported version come back field by field, with a RAM size where their version has one. */
  lemma OldStatesComeBack(version: u32, data: seq<byte>, console: bool, ramSize: u32, ops: seq<Op>)
    requires V16 <= version <= CURRENT
    requires var all := OldPreamble(version, console, ramSize) + ops; LaidOut(data, 0, all) && |data| == SizeOf(all)
    ensures Deserialize(data, console, ramSize, MirrorAll(ops)) == Loaded(FieldsOf(ops))
  {
    OldHeadReads(version, data, console, ramSize, ops);
    OldFieldsRead(version, data, console, ramSize, ops);
    OldIsNoContainer(version, data, console, ramSize, ops);
    OldPreambleFields(version, console, ramSize);
    WordValue(version);
    WordValue(ramSize);
    hide LaidOut, SizeOf, ReadFields, FieldsOf, Finish, Word, OldPreamble;
    assert data[0..] == data;
  }
}
