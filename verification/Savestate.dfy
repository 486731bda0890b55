/** The savestate stack: two-pass serializer, RetroArch container, and the file with its RZIP layer. */
module Savestate {
  import opened Bytes
  import opened Rzip
  import R = RzipFile

  const V16: nat := 811
  const V42: nat := 837
  const CURRENT: nat := 853

  // ---------------------------------------------------------------- what gets serialized

  /** One step of `dc_serialize`: a field of any size, or a gap it skips over. */
  datatype Op = Field(bytes: seq<byte>) | Gap(n: nat)

  function LengthOf(op: Op): nat {
    match op case Field(b) => |b| case Gap(n) => n
  }

  function SizeOf(ops: seq<Op>): nat {
    if ops == [] then 0 else SizeOf(ops[..|ops| - 1]) + LengthOf(ops[|ops| - 1])
  }

  lemma SizeOfStep(ops: seq<Op>, k: nat)
    requires k < |ops|
    ensures SizeOf(ops[..k + 1]) == SizeOf(ops[..k]) + LengthOf(ops[k])
  {
    assert ops[..k + 1][..k] == ops[..k];
  }

  lemma {:induction false} SizeOfGrows(ops: seq<Op>, k: nat)
    requires k <= |ops|
    ensures SizeOf(ops[..k]) <= SizeOf(ops)
    decreases |ops| - k
  {
    if k < |ops| {
      SizeOfStep(ops, k);
      SizeOfGrows(ops, k + 1);
    } else {
      assert ops[..k] == ops;
    }
  }

  /** Field `k` is at its place in the buffer. */
  ghost predicate InPlace(buf: seq<byte>, base: nat, ops: seq<Op>, k: nat)
    requires k < |ops|
  {
    var at := base + SizeOf(ops[..k]);
    ops[k].Field? ==> at + |ops[k].bytes| <= |buf| && buf[at..at + |ops[k].bytes|] == ops[k].bytes
  }

  ghost predicate LaidOut(buf: seq<byte>, base: nat, ops: seq<Op>) {
    forall k :: 0 <= k < |ops| ==> InPlace(buf, base, ops, k)
  }

  /** What every state starts with. */
  function Preamble(console: bool, ramSize: u32): seq<Op> {
    [Field(Word(CURRENT))] + (if console then [Field(Word(ramSize))] else [])
  }

  // ---------------------------------------------------------------- Serializer

  class Serializer {
    const buf: array?<byte>      // null for a dry run
    const limit: nat
    var size: nat

    /** `data` is always `buf` advanced by `size`. */
    constructor (buf: array?<byte>, limit: nat)
      ensures this.buf == buf && this.limit == limit && size == 0
    {
      this.buf, this.limit, size := buf, limit, 0;
    }

    ghost predicate Valid()
      reads this
    {
      buf != null ==> limit == buf.Length && size <= limit
    }

    method Serialize(src: seq<byte>) returns (ok: bool)
      requires Valid()
      modifies this`size, buf
      ensures Valid()
      ensures ok <==> old(size) + |src| <= limit
      ensures size == old(size) + (if ok then |src| else 0)
      ensures buf != null && ok ==> buf[..] == old(buf[..size]) + src + old(buf[size + |src|..])
      ensures buf != null && !ok ==> buf[..] == old(buf[..])
    {
      if size + |src| > limit {
        return false;
      }
      if buf != null {
        for i := 0 to |src|
          invariant size == old(size)
          invariant forall j :: 0 <= j < buf.Length ==>
            buf[j] == if size <= j < size + i then src[j - size] else old(buf[j])
        {
          buf[size + i] := src[i];
        }
      }
      size := size + |src|;
      return true;
    }

    /** One pass over the state. With the buffer of a dry run's size it cannot fail and puts every field in place. */
    method Pass(ops: seq<Op>) returns (ok: bool)
      requires Valid() && size == 0
      requires buf != null ==> limit == SizeOf(ops)
      requires buf == null ==> SizeOf(ops) <= limit
      modifies this`size, buf
      ensures Valid()
      ensures ok && size == SizeOf(ops)
      ensures buf != null ==> LaidOut(buf[..], 0, ops)
    {
      assert ops[..0] == [];
      for k := 0 to |ops|
        invariant Valid() && size == SizeOf(ops[..k])
        invariant buf != null ==> forall i :: 0 <= i < k ==> InPlace(buf[..], 0, ops, i)
      {
        SizeOfStep(ops, k);
        SizeOfGrows(ops, k + 1);
        if ops[k].Field? {
          ghost var before := if buf == null then [] else buf[..];
          ok := Serialize(ops[k].bytes);
          if buf != null {
            EarlierStay(before, buf[..], ops, k);
          }
        } else {
          size := size + ops[k].n;
        }
      }
      assert ops[..|ops|] == ops;
      ok := true;
    }
  }

  lemma EarlierStay(before: seq<byte>, after: seq<byte>, ops: seq<Op>, k: nat)
    requires k < |ops| && ops[k].Field?
    requires var at := SizeOf(ops[..k]);
      at + |ops[k].bytes| <= |before| && after == before[..at] + ops[k].bytes + before[at + |ops[k].bytes|..]
    requires forall i :: 0 <= i < k ==> InPlace(before, 0, ops, i)
    ensures forall i :: 0 <= i < k + 1 ==> InPlace(after, 0, ops, i)
  {
    forall i | 0 <= i < k
      ensures InPlace(after, 0, ops, i)
    {
      assert InPlace(before, 0, ops, i);
      if ops[i].Field? {
        var a := SizeOf(ops[..i]);
        SizeOfStep(ops, i);
        SizeOfGrows(ops[..k], i + 1);
        assert ops[..k][..i + 1] == ops[..i + 1];
        SlicesOfOverwrite(before, after, SizeOf(ops[..k]), ops[k].bytes, a, a + |ops[i].bytes|);
      }
    }
    SlicesOfOverwrite(before, after, SizeOf(ops[..k]), ops[k].bytes, 0, 0);
    assert InPlace(after, 0, ops, k);
  }

  /** Bytes written over at `at`, and what lies before them. */
  lemma SlicesOfOverwrite(before: seq<byte>, after: seq<byte>, at: nat, bytes: seq<byte>, a: nat, b: nat)
    requires at + |bytes| <= |before| && after == before[..at] + bytes + before[at + |bytes|..]
    requires a <= b <= at
    ensures after[at..at + |bytes|] == bytes && after[a..b] == before[a..b]
  {
    assert forall i :: 0 <= i < at ==> after[i] == before[i];
    SameSlice(after, before, a, b);
    assert forall i :: 0 <= i < |bytes| ==> after[at + i] == bytes[i];
  }

  lemma SameSlice(x: seq<byte>, y: seq<byte>, a: nat, b: nat)
    requires a <= b <= |x| && b <= |y| && forall i :: a <= i < b ==> x[i] == y[i]
    ensures x[a..b] == y[a..b]
  {
  }

  /** The dry run measures, the real pass fills: it never overflows and every field is in place. */
  method TwoPass(ops: seq<Op>) returns (state: seq<byte>, ok: bool)
    requires SizeOf(ops) < TWO_64
    ensures ok && |state| == SizeOf(ops) && LaidOut(state, 0, ops)
  {
    var dry := new Serializer(null, TWO_64 - 1);
    var _ := dry.Pass(ops);
    var buf := new byte[dry.size];
    var second := new Serializer(buf, dry.size);
    ok := second.Pass(ops);
    state := buf[..];
  }

  // ---------------------------------------------------------------- Deserializer

  /** `deserialize` calls that mirror a list of writes: the lengths wanted, and the gaps skipped. */
  datatype Request = Want(n: nat) | Skip(n: nat)

  function Mirror(op: Op): Request {
    match op case Field(b) => Want(|b|) case Gap(n) => Skip(n)
  }

  function MirrorAll(ops: seq<Op>): seq<Request> {
    seq(|ops|, i requires 0 <= i < |ops| => Mirror(ops[i]))
  }

  /** Fields read so far, or failure on the first request past the limit. */
  function ReadFields(data: seq<byte>, limit: nat, requests: seq<Request>): Option<(seq<seq<byte>>, nat)>
    decreases |requests|
  {
    if requests == [] then Some(([], 0))
    else
      var n := |requests| - 1;
      match ReadFields(data, limit, requests[..n])
      case None => None
      case Some((fields, size)) =>
        var len := match requests[n] case Want(k) => k case Skip(k) => k;
        if size + len > limit || size + len > |data| then None
        else Some((if requests[n].Want? then fields + [data[size..size + len]] else fields, size + len))
  }

  function FieldsOf(ops: seq<Op>): seq<seq<byte>> {
    if ops == [] then []
    else
      var op := ops[|ops| - 1];
      FieldsOf(ops[..|ops| - 1]) + (if op.Field? then [op.bytes] else [])
  }

  lemma {:induction false} MirroredReads(data: seq<byte>, limit: nat, ops: seq<Op>, k: nat)
    requires LaidOut(data, 0, ops) && SizeOf(ops) <= limit && SizeOf(ops) <= |data| && k <= |ops|
    ensures ReadFields(data, limit, MirrorAll(ops[..k])) == Some((FieldsOf(ops[..k]), SizeOf(ops[..k])))
    decreases k
  {
    if k > 0 {
      var n := k - 1;
      MirroredReads(data, limit, ops, n);
      SizeOfStep(ops, n);
      SizeOfGrows(ops, k);
      assert MirrorAll(ops[..k])[..n] == MirrorAll(ops[..n]);
      assert ops[..k][..n] == ops[..n];
      assert InPlace(data, 0, ops, n);
      assert MirrorAll(ops[..k])[n] == Mirror(ops[n]) && ops[..k][n] == ops[n];
      assert FieldsOf(ops[..n]) + [] == FieldsOf(ops[..n]);
    } else {
      assert MirrorAll(ops[..0]) == [];
    }
  }

  /** Mirrored reads restore every field and consume exactly the bytes written. */
  lemma ReadsRestoreFields(data: seq<byte>, limit: nat, ops: seq<Op>)
    requires LaidOut(data, 0, ops) && SizeOf(ops) <= limit && SizeOf(ops) <= |data|
    ensures ReadFields(data, limit, MirrorAll(ops)) == Some((FieldsOf(ops), SizeOf(ops)))
  {
    MirroredReads(data, limit, ops, |ops|);
    assert ops[..|ops|] == ops;
  }

  // ---------------------------------------------------------------- RetroArch container

  const RASTATE: seq<byte> := [0x52, 0x41, 0x53, 0x54, 0x41, 0x54, 0x45, 0x01]
  const MEM: seq<byte> := [0x4D, 0x45, 0x4D, 0x20]

  function AlignUp(n: u32): u32 {
    U32(n + 7) - U32(n + 7) % 8
  }

  /** The section loop of the constructor: the start and size of the MEM section. */
  function FindMem(data: seq<byte>, p: nat): Option<(nat, nat)>
    decreases |data| - p
  {
    if |data| - p <= 8 then None
    else
      Pow256Values();
      FromLittleEndianBound(data[p + 4..p + 8]);
      var size := FromLittleEndian(data[p + 4..p + 8]);
      var body := p + 8;
      if data[p..p + 4] == MEM then
        if |data| - body <= 8 then None else Some((body, size))
      else if |data| - body < AlignUp(size) then None
      else FindMem(data, body + AlignUp(size))
  }

  datatype Section = Section(tag: seq<byte>, body: seq<byte>)

  ghost predicate OtherSection(s: Section) {
    |s.tag| == 4 && s.tag != MEM && |s.body| < TWO_32 - 8
  }

  function Padded(body: seq<byte>): seq<byte> {
    body + seq((8 - |body| % 8) % 8, _ => 0)
  }

  function SectionBytes(s: Section): seq<byte> {
    s.tag + Word(|s.body|) + Padded(s.body)
  }

  function SectionsBytes(sections: seq<Section>): seq<byte> {
    if sections == [] then [] else SectionBytes(sections[0]) + SectionsBytes(sections[1..])
  }

  lemma PaddedLength(body: seq<byte>)
    requires |body| < TWO_32 - 8
    ensures |Padded(body)| == AlignUp(|body|)
  {
  }

  lemma OneSection(prefix: seq<byte>, s: Section, rest: seq<byte>)
    requires OtherSection(s) && rest != []
    ensures FindMem(prefix + SectionBytes(s) + rest, |prefix|)
         == FindMem(prefix + SectionBytes(s) + rest, |prefix| + |SectionBytes(s)|)
  {
    hide FindMem, Padded, AlignUp, FromLittleEndian, Word;
    var data, p := prefix + SectionBytes(s) + rest, |prefix|;
    PaddedLength(s.body);
    SizeWord(|s.body|);
    SectionFields(prefix, s, rest);
    FindMemStep(data, p, |s.body|);
  }

  lemma SizeWord(n: nat)
    requires n < TWO_32
    ensures |Word(n)| == 4 && FromLittleEndian(Word(n)) == n
  {
    Pow256Values();
    LittleEndianRoundTrip(n, 4);
  }

  lemma SectionFields(prefix: seq<byte>, s: Section, rest: seq<byte>)
    requires |s.tag| == 4 && |Word(|s.body|)| == 4
    ensures var data, p := prefix + SectionBytes(s) + rest, |prefix|;
      && |SectionBytes(s)| == 8 + |Padded(s.body)| && |data| == p + |SectionBytes(s)| + |rest|
      && data[p..p + 4] == s.tag && data[p + 4..p + 8] == Word(|s.body|)
  {
    hide Padded, Word;
  }

  lemma FindMemStep(data: seq<byte>, p: nat, size: u32)
    requires p + 8 + AlignUp(size) < |data| && data[p..p + 4] != MEM
    requires FromLittleEndian(data[p + 4..p + 8]) == size
    ensures FindMem(data, p) == FindMem(data, p + 8 + AlignUp(size))
  {
  }

  lemma {:induction false} SkipsSections(prefix: seq<byte>, sections: seq<Section>, rest: seq<byte>)
    requires rest != [] && forall i :: 0 <= i < |sections| ==> OtherSection(sections[i])
    ensures var data := prefix + SectionsBytes(sections) + rest;
      FindMem(data, |prefix|) == FindMem(data, |prefix| + |SectionsBytes(sections)|)
    decreases |sections|
  {
    hide FindMem, SectionBytes;
    if sections == [] {
    } else {
      var s := SectionBytes(sections[0]);
      OneSection(prefix, sections[0], SectionsBytes(sections[1..]) + rest);
      SkipsSections(prefix + s, sections[1..], rest);
      assert prefix + s + (SectionsBytes(sections[1..]) + rest) == prefix + SectionsBytes(sections) + rest;
      assert prefix + s + SectionsBytes(sections[1..]) + rest == prefix + SectionsBytes(sections) + rest;
    }
  }

  function Container(sections: seq<Section>, state: seq<byte>, trailer: seq<byte>): seq<byte> {
    RASTATE + SectionsBytes(sections) + (MEM + Word(|state|) + state + trailer)
  }

  /**
   Behind any other sections the MEM section is found, and with the right size, exactly when more
   than 8 bytes follow its header.
   */
  lemma MemSectionIsFound(sections: seq<Section>, state: seq<byte>, trailer: seq<byte>)
    requires forall i :: 0 <= i < |sections| ==> OtherSection(sections[i])
    requires |state| < TWO_32
    ensures var data, start := Container(sections, state, trailer), 16 + |SectionsBytes(sections)|;
      FindMem(data, 8) == (if |state| + |trailer| > 8 then Some((start, |state|)) else None)
      && start + |state| <= |data| && data[start..start + |state|] == state
  {
    hide SectionsBytes, FindMem, Word;
    var tail := MEM + Word(|state|) + state + trailer;
    SkipsSections(RASTATE, sections, tail);
    MemHere(RASTATE + SectionsBytes(sections), state, trailer);
  }

  lemma MemHere(prefix: seq<byte>, state: seq<byte>, trailer: seq<byte>)
    requires |state| < TWO_32
    ensures |Word(|state|)| == 4
    ensures var data, start := prefix + (MEM + Word(|state|) + state + trailer), |prefix| + 8;
      FindMem(data, |prefix|) == (if |state| + |trailer| > 8 then Some((start, |state|)) else None)
      && start + |state| <= |data| && data[start..start + |state|] == state
  {
    var data, p := prefix + (MEM + Word(|state|) + state + trailer), |prefix|;
    assert data[p..p + 4] == MEM;
    assert data[p + 4..p + 8] == Word(|state|);
    assert data[p + 8..p + 8 + |state|] == state;
    Pow256Values();
    LittleEndianRoundTrip(|state|, 4);
  }

  // ---------------------------------------------------------------- the Deserializer as a whole

  datatype Failure = NoMemSection | Unsupported | TooRecent | WrongRam | Overflow
  datatype Loaded = Loaded(fields: seq<seq<byte>>) | Failed(why: Failure)

  /** The constructor, then the mirrored reads of `dc_deserialize`. */
  function Deserialize(data: seq<byte>, console: bool, ramSize: u32, requests: seq<Request>): Loaded {
    var container := |data| >= 8 && data[..8] == RASTATE;
    var found := if container then FindMem(data, 8) else Some((0, |data|));
    match found
    case None => Failed(NoMemSection)
    case Some((start, limit)) =>
      if start > |data| then Failed(Overflow)
      else
        match ReadFields(data[start..], limit, [Want(4)])
        case None => Failed(Overflow)
        case Some((version, _)) =>
          var v := FromLittleEndian(version[0]);
          if v < V16 then Failed(Unsupported)
          else if v > CURRENT then Failed(TooRecent)
          else if v >= V42 && console then
            match ReadFields(data[start..], limit, [Want(4), Want(4)])
            case None => Failed(Overflow)
            case Some((head, _)) =>
              if FromLittleEndian(head[1]) != ramSize then Failed(WrongRam)
              else Finish(data[start..], limit, [Want(4), Want(4)], requests)
          else Finish(data[start..], limit, [Want(4)], requests)
  }

  function Finish(data: seq<byte>, limit: nat, head: seq<Request>, requests: seq<Request>): Loaded {
    match ReadFields(data, limit, head + requests)
    case None => Failed(Overflow)
    case Some((fields, _)) => if |fields| < |head| then Failed(Overflow) else Loaded(fields[|head|..])
  }

  lemma {:induction false} FieldsOfConcat(a: seq<Op>, b: seq<Op>)
    ensures FieldsOf(a + b) == FieldsOf(a) + FieldsOf(b)
    decreases |b|
  {
    if b == [] {
      assert a + b == a;
    } else {
      var n := |b| - 1;
      assert (a + b)[..|a| + n] == a + b[..n];
      FieldsOfConcat(a, b[..n]);
    }
  }

  lemma PreambleFields(console: bool, ramSize: u32)
    ensures FieldsOf(Preamble(console, ramSize)) == if console then [Word(CURRENT), Word(ramSize)] else [Word(CURRENT)]
    ensures FieldsOf([Field(Word(CURRENT))]) == [Word(CURRENT)]
  {
    var a := [Field(Word(CURRENT))];
    assert a[..0] == [];
    assert FieldsOf(a) == [Word(CURRENT)];
    if console {
      assert (a + [Field(Word(ramSize))])[..1] == a;
    } else {
      assert a + [] == a;
    }
  }

  lemma WordValue(n: u32)
    ensures FromLittleEndian(Word(n)) == n && |Word(n)| == 4
  {
    Pow256Values();
    LittleEndianRoundTrip(n, 4);
  }

  /** Reading the head of a state: its version, and on consoles its RAM size. */
  lemma HeadReads(data: seq<byte>, limit: nat, console: bool, ramSize: u32, ops: seq<Op>)
    requires var all := Preamble(console, ramSize) + ops;
      LaidOut(data, 0, all) && SizeOf(all) <= limit && SizeOf(all) <= |data|
    ensures ReadFields(data, limit, [Want(4)]).Some? && ReadFields(data, limit, [Want(4)]).value.0 == [Word(CURRENT)]
    ensures console ==> ReadFields(data, limit, [Want(4), Want(4)]).Some?
    ensures console ==> ReadFields(data, limit, [Want(4), Want(4)]).value.0 == [Word(CURRENT), Word(ramSize)]
  {
    hide LaidOut, SizeOf, ReadFields, FieldsOf, Word;
    var all := Preamble(console, ramSize) + ops;
    PreambleFields(console, ramSize);
    WordValue(CURRENT);
    WordValue(ramSize);
    MirroredReads(data, limit, all, 1);
    assert all[..1] == [Field(Word(CURRENT))];
    assert MirrorAll(all[..1]) == [Want(4)];
    if console {
      MirroredReads(data, limit, all, 2);
      assert all[..2] == Preamble(console, ramSize);
      assert MirrorAll(all[..2]) == [Want(4), Want(4)];
    }
  }

  lemma TailReads(data: seq<byte>, limit: nat, console: bool, ramSize: u32, ops: seq<Op>)
    requires var all := Preamble(console, ramSize) + ops;
      LaidOut(data, 0, all) && SizeOf(all) <= limit && SizeOf(all) <= |data|
    ensures Finish(data, limit, if console then [Want(4), Want(4)] else [Want(4)], MirrorAll(ops))
         == Loaded(FieldsOf(ops))
  {
    hide LaidOut, SizeOf, ReadFields, FieldsOf, Word;
    var pre := Preamble(console, ramSize);
    var head := if console then [Want(4), Want(4)] else [Want(4)];
    ReadsRestoreFields(data, limit, pre + ops);
    WordValue(CURRENT);
    WordValue(ramSize);
    FieldsOfConcat(pre, ops);
    PreambleFields(console, ramSize);
    assert MirrorAll(pre + ops) == head + MirrorAll(ops);
    assert (FieldsOf(pre) + FieldsOf(ops))[|head|..] == FieldsOf(ops);
  }

  /** The Deserializer restores every field of a state it finds at `start`. */
  lemma DeserializeAt(data: seq<byte>, start: nat, limit: nat, console: bool, ramSize: u32, ops: seq<Op>)
    requires start <= |data|
    requires (if |data| >= 8 && data[..8] == RASTATE then FindMem(data, 8) else Some((0, |data|)))
          == Some((start, limit))
    requires var all := Preamble(console, ramSize) + ops;
      LaidOut(data[start..], 0, all) && SizeOf(all) <= limit && SizeOf(all) <= |data| - start
    ensures Deserialize(data, console, ramSize, MirrorAll(ops)) == Loaded(FieldsOf(ops))
  {
    hide ReadFields, FindMem, FieldsOf, Finish;
    HeadReads(data[start..], limit, console, ramSize, ops);
    TailReads(data[start..], limit, console, ramSize, ops);
    WordValue(CURRENT);
    WordValue(ramSize);
  }

  lemma LaidOutLonger(buf: seq<byte>, more: seq<byte>, ops: seq<Op>)
    requires LaidOut(buf, 0, ops)
    ensures LaidOut(buf + more, 0, ops)
  {
    forall k | 0 <= k < |ops|
      ensures InPlace(buf + more, 0, ops, k)
    {
      assert InPlace(buf, 0, ops, k);
      if ops[k].Field? {
        var at, n := SizeOf(ops[..k]), |ops[k].bytes|;
        assert (buf + more)[at..at + n] == buf[at..at + n];
      }
    }
  }

  lemma NotAContainer(state: seq<byte>, console: bool, ramSize: u32, ops: seq<Op>)
    requires LaidOut(state, 0, Preamble(console, ramSize) + ops)
    ensures |state| >= 8 ==> state[..8] != RASTATE
  {
    var all := Preamble(console, ramSize) + ops;
    assert InPlace(state, 0, all, 0);
    assert all[..0] == [] && all[0] == Field(Word(CURRENT));
    assert state[0..4] == Word(CURRENT);
    assert Word(CURRENT)[0] == CURRENT % 256;
    assert state[0] == state[0..4][0];
  }

  /** A state made by the two passes is restored field by field. */
  lemma StateRoundTrip(state: seq<byte>, console: bool, ramSize: u32, ops: seq<Op>)
    requires var all := Preamble(console, ramSize) + ops; LaidOut(state, 0, all) && |state| == SizeOf(all)
    ensures Deserialize(state, console, ramSize, MirrorAll(ops)) == Loaded(FieldsOf(ops))
  {
    hide Deserialize, FindMem, FieldsOf;
    NotAContainer(state, console, ramSize, ops);
    assert state[0..] == state;
    DeserializeAt(state, 0, |state|, console, ramSize, ops);
  }

  /** So it is as the MEM section of a RetroArch container, behind any other sections. */
  lemma ContainerRoundTrip(state: seq<byte>, console: bool, ramSize: u32, ops: seq<Op>, sections: seq<Section>,
      trailer: seq<byte>)
    requires var all := Preamble(console, ramSize) + ops; LaidOut(state, 0, all) && |state| == SizeOf(all)
    requires |state| < TWO_32 && |state| + |trailer| > 8
    requires forall i :: 0 <= i < |sections| ==> OtherSection(sections[i])
    ensures Deserialize(Container(sections, state, trailer), console, ramSize, MirrorAll(ops)) == Loaded(FieldsOf(ops))
  {
    hide Deserialize, FindMem, SectionsBytes, FieldsOf;
    var data, start := Container(sections, state, trailer), 16 + |SectionsBytes(sections)|;
    MemSectionIsFound(sections, state, trailer);
    assert data[..8] == RASTATE;
    assert data[start..] == state + trailer by {
      assert data == (RASTATE + SectionsBytes(sections) + MEM + Word(|state|)) + (state + trailer);
    }
    LaidOutLonger(state, trailer, Preamble(console, ramSize) + ops);
    DeserializeAt(data, start, |state|, console, ramSize, ops);
  }

  // ---------------------------------------------------------------- the savestate file

  const FLYSAVE: seq<byte> := [0x46, 0x4C, 0x59, 0x53, 0x41, 0x56, 0x45, 0x31]

  function FileHeader(date: nat, pngSize: nat): (h: seq<byte>)
    ensures |h| == 24
  {
    FLYSAVE + LittleEndian(date, 8) + Word(CURRENT) + Word(pngSize)
  }

  /** `dc_savestate`: header, screenshot, RZIP stream. */
  function SavedFile(c: Codec, date: nat, png: seq<byte>, state: seq<byte>): seq<byte> {
    (FileHeader(date, |png|) + png) + (Header(|state|) + Encode(c, state))
  }

  /** Where `dc_loadstate` looks for the stream. */
  function StreamStart(bytes: seq<byte>): nat {
    if |bytes| >= 24 && bytes[..8] == FLYSAVE then 24 + FromLittleEndian(bytes[20..24]) else 0
  }

  /** `dc_loadstate` up to the Deserializer; files without an RZIP stream are taken as they are. */
  function LoadedBytes(c: Codec, bytes: seq<byte>): Option<seq<byte>> {
    var pos := StreamStart(bytes);
    if pos > |bytes| then None
    else
      match OpenAt(bytes, pos)
      case NotRzip =>
        var total := U32(|bytes| - pos);
        Some(bytes[pos..pos + Min(total, |bytes| - pos)])
      case Opened(max, size, p) =>
        var total := U32(size);
        var data := if p <= |bytes| then Decode(c, max, bytes[p..]) else [];
        if |data| < total then None else Some(data[..total])
  }

  method SaveState(c: Codec, date: nat, png: seq<byte>, state: seq<byte>) returns (bytes: seq<byte>)
    requires GoodCodec(c) && |state| < TWO_32
    ensures bytes == SavedFile(c, date, png, state)
  {
    hide GoodCodec, Encode, Header;
    OnePart(c, state);
    bytes := R.WriteFile(c, FileHeader(date, |png|) + png, [state]);
  }

  /** The header, if there is one, tells how much lies in front of the stream. */
  method FindStream(bytes: seq<byte>) returns (pos: nat)
    ensures pos == StreamStart(bytes)
  {
    hide FromLittleEndian;
    var file := new R.File(bytes);
    var header := file.ReadItem(24);
    pos := 0;
    if header.Some? {
      HeaderFields(bytes, header.value);
      if header.value[..8] == FLYSAVE {
        pos := 24 + FromLittleEndian(header.value[20..24]);
      }
    }
  }

  method LoadState(c: Codec, bytes: seq<byte>) returns (data: Option<seq<byte>>)
    ensures data == LoadedBytes(c, bytes)
  {
    hide Decode, OpenAt, StreamStart, NextChunk;
    var file := new R.File(bytes);
    var pos := FindStream(bytes);
    if pos > |bytes| {
      return None;
    }
    file.Seek(pos);
    var r := new R.Reader(c, file);
    var ok := r.Open();
    if ok {
      OpenAtInRange(bytes, pos);
      var total := U32(r.size);
      assert r.Pending() == Decode(c, r.maxChunk, bytes[file.pos..]);
      var got := r.Read(total);
      data := if |got| == total then Some(got) else None;
    } else {
      var total := U32(|bytes| - pos);
      data := Some(bytes[pos..pos + Min(total, |bytes| - pos)]);
    }
  }

  lemma HeaderFields(bytes: seq<byte>, header: seq<byte>)
    requires |bytes| >= 24 && header == bytes[..24]
    ensures header[..8] == bytes[..8] && header[20..24] == bytes[20..24]
  {
  }

  lemma OpenAtInRange(bytes: seq<byte>, pos: nat)
    requires pos <= |bytes|
    ensures OpenAt(bytes, pos).Opened? ==> OpenAt(bytes, pos).pos <= |bytes|
  {
  }

  lemma OnePart(c: Codec, state: seq<byte>)
    ensures Flatten([state]) == state && EncodeAll(c, [state]) == Encode(c, state)
  {
    hide Encode;
    assert [state][..0] == [];
    assert Flatten([]) + state == state;
    assert EncodeAll(c, []) + Encode(c, state) == Encode(c, state);
  }

  lemma StreamStartOf(date: nat, png: seq<byte>, rest: seq<byte>)
    requires |png| < TWO_32
    ensures StreamStart(FileHeader(date, |png|) + png + rest) == 24 + |png|
  {
    var bytes := FileHeader(date, |png|) + png + rest;
    assert bytes[..8] == FLYSAVE;
    assert bytes[20..24] == Word(|png|);
    WordValue(|png|);
  }

  lemma LoadsWhatIsThere(c: Codec, bytes: seq<byte>, p: nat, state: seq<byte>)
    requires StreamStart(bytes) <= |bytes| && p <= |bytes| && |state| < TWO_32
    requires OpenAt(bytes, StreamStart(bytes)) == Opened(MAX_CHUNK, |state|, p)
    requires Decode(c, MAX_CHUNK, bytes[p..]) == state
    ensures LoadedBytes(c, bytes) == Some(state)
  {
    hide OpenAt, Decode, StreamStart;
    assert state[..|state|] == state;
  }

  /** Saving and loading gives the state back, whatever the screenshot. */
  lemma SaveLoadRoundTrip(c: Codec, date: nat, png: seq<byte>, state: seq<byte>)
    requires GoodCodec(c) && |state| < TWO_32 && |png| < TWO_32
    ensures LoadedBytes(c, SavedFile(c, date, png, state)) == Some(state)
  {
    hide OpenAt, Decode, Encode, Header, FileHeader, GoodCodec, StreamStart, LoadedBytes;
    var prefix := FileHeader(date, |png|) + png;
    StreamStartOf(date, png, Header(|state|) + Encode(c, state));
    OnePart(c, state);
    HeaderLengths(|state|);
    FileRoundTrip(c, prefix, [state], false);
    LoadsWhatIsThere(c, SavedFile(c, date, png, state), |prefix| + 20, state);
  }

  lemma NotFlysave(rest: seq<byte>)
    ensures StreamStart(MAGIC + rest) == 0
  {
    assert (MAGIC + rest)[..8][0] == MAGIC[0] != FLYSAVE[0];
  }

  /** Files of 32-bit builds, with no header and a 32-bit size, load too. */
  lemma LegacyLoads(c: Codec, state: seq<byte>)
    requires GoodCodec(c) && 0 < |state| < TWO_32
    ensures LoadedBytes(c, LegacyHeader(|state|) + Encode(c, state)) == Some(state)
  {
    hide OpenAt, Decode, Encode, GoodCodec, Word, StreamStart, Flatten, EncodeAll, LoadedBytes;
    OnePart(c, state);
    HeaderLengths(|state|);
    FileRoundTrip(c, [], [state], true);
    NoPrefix(LegacyHeader(|state|) + Encode(c, state));
    LegacyStart(|state|, Encode(c, state));
    LoadsWhatIsThere(c, LegacyHeader(|state|) + Encode(c, state), 16, state);
  }

  lemma NoPrefix(s: seq<byte>)
    ensures [] + s == s
  {
  }

  lemma LegacyStart(size: nat, body: seq<byte>)
    ensures StreamStart(LegacyHeader(size) + body) == 0
  {
    assert LegacyHeader(size) + body == MAGIC + (Word(MAX_CHUNK) + Word(size) + body);
    NotFlysave(Word(MAX_CHUNK) + Word(size) + body);
  }

  /** From the fields of the emulator to the file and back to the fields. */
  lemma WholeStack(c: Codec, date: nat, png: seq<byte>, state: seq<byte>, console: bool, ramSize: u32, ops: seq<Op>)
    requires GoodCodec(c) && |state| < TWO_32 && |png| < TWO_32
    requires var all := Preamble(console, ramSize) + ops; LaidOut(state, 0, all) && |state| == SizeOf(all)
    ensures var loaded := LoadedBytes(c, SavedFile(c, date, png, state));
      loaded.Some? && Deserialize(loaded.value, console, ramSize, MirrorAll(ops)) == Loaded(FieldsOf(ops))
  {
    hide Deserialize, FieldsOf, LoadedBytes, SavedFile, GoodCodec;
    SaveLoadRoundTrip(c, date, png, state);
    StateRoundTrip(state, console, ramSize, ops);
  }
}
