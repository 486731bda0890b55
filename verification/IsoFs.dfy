/** ISO 9660 directories: the records of section 9.1 of ECMA-119, laid out in sectors, and their reader. */
module IsoFs {
  import opened Bytes

  const SECTOR: nat := 2048

  // ---------------------------------------------------------------- both-endian numbers

  function BigEndian32(n: u32): (s: seq<byte>)
    ensures |s| == 4
  {
    [n / 256 / 256 / 256, n / 256 / 256 % 256, n / 256 % 256, n % 256]
  }

  /** Section 7.3.3 of ECMA-119: least significant byte first, then most significant byte first. */
  function BothEndian(n: u32): (s: seq<byte>)
    ensures |s| == 8
  {
    LittleEndian(n, 4) + BigEndian32(n)
  }

  /** Byte `k` of a word: the word shifted right `k` bytes. */
  function ByteOf(v: nat, k: nat): byte {
    if k == 0 then v % 256 else ByteOf(v / 256, k - 1)
  }

  /** `decode_iso733`, each of whose four terms moves one byte of the 64-bit word into its place. */
  function DecodeIso733(v: nat): u32 {
    ByteOf(v, 7) + 0x100 * ByteOf(v, 6) + 0x1_0000 * ByteOf(v, 5) + 0x100_0000 * ByteOf(v, 4)
  }

  lemma {:induction false} ByteOfWord(s: seq<byte>, k: nat)
    requires k < |s|
    ensures ByteOf(FromLittleEndian(s), k) == s[k]
  {
    if k == 0 {
    } else {
      ByteOfWord(s[1..], k - 1);
      assert FromLittleEndian(s) / 256 == FromLittleEndian(s[1..]);
    }
  }

  lemma BigEndianValue(n: u32)
    ensures Weighed(BigEndian32(n)[0], BigEndian32(n)[1], BigEndian32(n)[2], BigEndian32(n)[3]) == n
  {
  }

  function Weighed(a: int, b: int, c: int, d: int): int {
    d + 0x100 * c + 0x1_0000 * b + 0x100_0000 * a
  }

  lemma Iso733RoundTrip(n: u32)
    ensures DecodeIso733(FromLittleEndian(BothEndian(n))) == n
  {
    hide ByteOf, FromLittleEndian, LittleEndian, BigEndian32;
    var s := BothEndian(n);
    ByteOfWord(s, 4);
    ByteOfWord(s, 5);
    ByteOfWord(s, 6);
    ByteOfWord(s, 7);
    assert forall i :: 0 <= i < 4 ==> s[4 + i] == BigEndian32(n)[i];
    assert s[4 + 0] == BigEndian32(n)[0] && s[4 + 1] == BigEndian32(n)[1];
    assert s[4 + 2] == BigEndian32(n)[2] && s[4 + 3] == BigEndian32(n)[3];
    BigEndianValue(n);
  }

  // ---------------------------------------------------------------- records and their layout

  datatype Record = Record(xa: byte, extent: u32, size: u32, time: seq<byte>, flags: byte,
                           unit: byte, gap: byte, volume: seq<byte>, name: seq<byte>, systemUse: seq<byte>)

  predicate WellFormed(r: Record) {
    |r.time| == 7 && |r.volume| == 4 && |r.name| < 128 && 33 + |r.name| + |r.systemUse| < 256
  }

  function Length(r: Record): nat {
    33 + |r.name| + |r.systemUse|
  }

  function Header(r: Record): (s: seq<byte>)
    requires WellFormed(r)
    ensures |s| == 33
  {
    [Length(r), r.xa] + BothEndian(r.extent) + BothEndian(r.size) + r.time
    + [r.flags, r.unit, r.gap] + r.volume + [|r.name|]
  }

  function RecordBytes(r: Record): (s: seq<byte>)
    requires WellFormed(r)
    ensures |s| == Length(r)
  {
    Header(r) + r.name + r.systemUse
  }

  ghost predicate AllWellFormed(records: seq<Record>) {
    forall i :: 0 <= i < |records| ==> WellFormed(records[i])
  }

  function Body(records: seq<Record>): seq<byte>
    requires AllWellFormed(records)
  {
    if records == [] then [] else RecordBytes(records[0]) + Body(records[1..])
  }

  function Zeros(n: nat): (s: seq<byte>)
    ensures |s| == n
  {
    seq(n, _ => 0)
  }

  /** Section 6.8.1: the records of a sector end in it, and zeros fill the rest. */
  ghost predicate Fits(records: seq<Record>) {
    AllWellFormed(records) && |Body(records)| <= SECTOR
  }

  function SectorBytes(records: seq<Record>): (s: seq<byte>)
    requires Fits(records)
    ensures |s| == SECTOR
  {
    Body(records) + Zeros(SECTOR - |Body(records)|)
  }

  ghost predicate AllFit(sectors: seq<seq<Record>>) {
    forall i :: 0 <= i < |sectors| ==> Fits(sectors[i])
  }

  function DirectoryBytes(sectors: seq<seq<Record>>): seq<byte>
    requires AllFit(sectors)
  {
    if sectors == [] then [] else SectorBytes(sectors[0]) + DirectoryBytes(sectors[1..])
  }

  // ---------------------------------------------------------------- reading

  datatype Entry = Entry(isDirectory: bool, startFad: u32, len: u32, name: seq<byte>)

  /** The length of a directory in whole sectors, in 32 bits. */
  function WholeSectors(len: u32): u32 {
    U32(U32(len + 2047) / 2048 * 2048)
  }

  function EntryOf(r: Record): Entry {
    var isDirectory := r.flags / 2 % 2 == 1;
    Entry(isDirectory, U32(r.extent + 150), if isDirectory then WholeSectors(r.size) else r.size, r.name)
  }

  /** A record that runs past the end of the data, or whose name length is negative as a signed byte, is not defined. */
  datatype Step = End | Undefined | Found(entry: Entry, next: nat)

  function ReadRecord(data: seq<byte>, index: nat): Step
    requires index < |data|
  {
    if index + 33 > |data| then Undefined
    else
      var n := data[index + 32];
      if n >= 128 || index + 33 + n > |data| then Undefined
      else
        var isDirectory := data[index + 25] / 2 % 2 == 1;
        var extent := DecodeIso733(FromLittleEndian(data[index + 2..index + 10]));
        var size := DecodeIso733(FromLittleEndian(data[index + 10..index + 18]));
        Found(Entry(isDirectory, U32(extent + 150), if isDirectory then WholeSectors(size) else size,
                    data[index + 33..index + 33 + n]),
              U32(index + data[index]))
  }

  /** `nextEntry`: at a zero length the reader goes on to the next sector, unless it is at the start of one. */
  function NextStep(data: seq<byte>, index: nat): Step {
    if index >= |data| then End
    else if data[index] != 0 then ReadRecord(data, index)
    else if index % SECTOR == 0 then End
    else
      var next := U32(U32(index + 2047) / 2048 * 2048);
      if next >= |data| || data[next] == 0 then End else ReadRecord(data, next)
  }

  /** Directory data comes in whole sectors whose number fits in 32 bits, so that the cursor never wraps. */
  predicate Sized(data: seq<byte>) {
    |data| <= TWO_32 - SECTOR && |data| % SECTOR == 0
  }

  lemma ReadAdvances(data: seq<byte>, index: nat)
    requires Sized(data) && index < |data|
    ensures ReadRecord(data, index).Found? ==> ReadRecord(data, index).next == index + data[index]
  {
    hide FromLittleEndian, DecodeIso733, WholeSectors;
  }

  lemma RoundUpAdvances(data: seq<byte>, index: nat)
    requires Sized(data) && index < |data|
    ensures index <= U32(U32(index + 2047) / 2048 * 2048) <= |data|
  {
  }

  lemma StepAdvances(data: seq<byte>, index: nat)
    requires Sized(data)
    ensures NextStep(data, index).Found? ==> index < NextStep(data, index).next <= |data| + 255
  {
    hide ReadRecord;
    if index < |data| {
      ReadAdvances(data, index);
      RoundUpAdvances(data, index);
      var next := U32(U32(index + 2047) / 2048 * 2048);
      if next < |data| {
        ReadAdvances(data, next);
      }
    }
  }

  datatype Listing = Failed | Entries(list: seq<Entry>)

  function Prepend(e: seq<Entry>, l: Listing): Listing {
    if l.Failed? then l else Entries(e + l.list)
  }

  function ListFrom(data: seq<byte>, index: nat): Listing
    requires Sized(data)
    decreases |data| + 255 - index
  {
    match NextStep(data, index)
    case End => Entries([])
    case Undefined => Failed
    case Found(entry, next) =>
      StepAdvances(data, index);
      Prepend([entry], ListFrom(data, next))
  }

  /** An image: the 2048 bytes of each sector. */
  type Image = nat -> seq<byte>

  ghost predicate IsImage(image: Image) {
    forall fad :: |image(fad)| == SECTOR
  }

  function Sectors(image: Image, fad: nat, count: nat): (s: seq<byte>)
    requires IsImage(image)
    ensures |s| == count * SECTOR
  {
    if count == 0 then [] else Sectors(image, fad, count - 1) + image(fad + count - 1)
  }

  class Directory {
    const image: Image
    const startFad: u32
    const len: u32
    var data: seq<byte>
    var index: nat

    ghost predicate Valid()
      reads this
    {
      IsImage(image) && len % SECTOR == 0 && len <= TWO_32 - SECTOR && (data == [] || |data| == len)
    }

    constructor (image: Image, startFad: u32, len: u32)
      requires IsImage(image) && len % SECTOR == 0 && len <= TWO_32 - SECTOR
      ensures Valid() && data == [] && this.image == image && this.startFad == startFad && this.len == len
    {
      this.image, this.startFad, this.len := image, startFad, len;
      data, index := [], 0;
    }

    method Reset()
      requires Valid()
      modifies this
      ensures Valid() && Sized(data) && index == 0
      ensures data == if old(data) == [] then Sectors(image, startFad, len / SECTOR) else old(data)
    {
      index := 0;
      if data == [] && len != 0 {
        data := Sectors(image, startFad, len / SECTOR);
      }
    }

    method NextEntry() returns (step: Step)
      requires Valid() && Sized(data)
      modifies this`index
      ensures step == NextStep(data, old(index))
      ensures step.Found? ==> old(index) < index == step.next
    {
      hide ReadRecord;
      StepAdvances(data, index);
      var at := index;
      if at >= |data| {
        return End;
      }
      if data[at] == 0 {
        if at % SECTOR == 0 {
          return End;
        }
        at := U32(U32(at + 2047) / 2048 * 2048);
        index := at;
        if at >= |data| || data[at] == 0 {
          return End;
        }
      }
      step := ReadRecord(data, at);
      if step.Found? {
        index := step.next;
      }
    }

    method List() returns (r: Listing)
      requires Valid()
      modifies this
      ensures Valid() && data == if old(data) == [] then Sectors(image, startFad, len / SECTOR) else old(data)
      ensures Sized(data) && r == ListFrom(data, 0)
    {
      hide NextStep;
      Reset();
      var v := [];
      while true
        invariant Valid() && Sized(data)
        invariant data == if old(data) == [] then Sectors(image, startFad, len / SECTOR) else old(data)
        invariant Prepend(v, ListFrom(data, index)) == ListFrom(data, 0)
        decreases |data| + 255 - index
      {
        ghost var at := index;
        StepAdvances(data, index);
        var step := NextEntry();
        match step {
          case End => return Entries(v);
          case Undefined => return Failed;
          case Found(entry, next) =>
            PrependTwice(v, [entry], ListFrom(data, next));
            v := v + [entry];
        }
      }
    }
  }

  lemma PrependTwice(a: seq<Entry>, b: seq<Entry>, l: Listing)
    ensures Prepend(a, Prepend(b, l)) == Prepend(a + b, l)
  {
    if l.Entries? {
      assert a + (b + l.list) == a + b + l.list;
    }
  }

  // ---------------------------------------------------------------- one record

  lemma HeaderFields(r: Record)
    requires WellFormed(r)
    ensures var h := Header(r);
      && h[0] == Length(r) && h[25] == r.flags && h[32] == |r.name|
      && h[2..10] == BothEndian(r.extent) && h[10..18] == BothEndian(r.size)
  {
    hide BothEndian;
    var a := [Length(r), r.xa];
    var b := a + BothEndian(r.extent);
    var c := b + BothEndian(r.size);
    var d := c + r.time;
    var e := d + [r.flags, r.unit, r.gap];
    assert Header(r) == e + r.volume + [|r.name|];
    assert Header(r)[2..10] == BothEndian(r.extent);
    assert Header(r)[10..18] == BothEndian(r.size);
  }

  lemma SliceOfSlice(data: seq<byte>, a: nat, b: nat, i: nat, j: nat)
    requires a <= b <= |data| && i <= j <= b - a
    ensures data[a..b][i..j] == data[a + i..a + j]
  {
    var x, y := data[a..b][i..j], data[a + i..a + j];
    assert |x| == |y| && forall k :: 0 <= k < |x| ==> x[k] == y[k];
  }

  /** The reader finds the record that is there. */
  lemma RecordIsRead(data: seq<byte>, index: nat, r: Record)
    requires WellFormed(r) && Sized(data) && index + Length(r) <= |data|
    requires data[index..index + Length(r)] == RecordBytes(r)
    ensures data[index] != 0
    ensures ReadRecord(data, index) == Found(EntryOf(r), index + Length(r))
  {
    hide FromLittleEndian, BothEndian, DecodeIso733, WholeSectors, Header;
    var s := data[index..index + Length(r)];
    assert forall i :: 0 <= i < 33 ==> data[index + i] == s[i] == Header(r)[i];
    HeaderFields(r);
    assert data[index + 0] == Length(r);
    SliceOfSlice(data, index, index + Length(r), 2, 10);
    SliceOfSlice(data, index, index + Length(r), 10, 18);
    SliceOfSlice(data, index, index + Length(r), 33, 33 + |r.name|);
    assert s[2..10] == Header(r)[2..10] && s[10..18] == Header(r)[10..18];
    assert s[33..33 + |r.name|] == r.name;
    Iso733RoundTrip(r.extent);
    Iso733RoundTrip(r.size);
  }

  // ---------------------------------------------------------------- one sector

  function EntriesOf(records: seq<Record>): seq<Entry> {
    if records == [] then [] else [EntryOf(records[0])] + EntriesOf(records[1..])
  }

  /** From anywhere in a sector that has records, the reader goes through the rest of them to the next sector. */
  lemma {:induction false} SectorIsListed(data: seq<byte>, start: nat, at: nat, todo: seq<Record>)
    requires Sized(data) && start % SECTOR == 0 && start + SECTOR <= |data|
    requires start <= at && AllWellFormed(todo) && at + |Body(todo)| <= start + SECTOR
    requires todo == [] ==> start < at
    requires data[at..start + SECTOR] == Body(todo) + Zeros(start + SECTOR - at - |Body(todo)|)
    ensures ListFrom(data, at) == Prepend(EntriesOf(todo), ListFrom(data, start + SECTOR))
    decreases |todo|
  {
    hide ReadRecord, RecordBytes, EntryOf;
    if todo == [] {
      SectorEnds(data, start, at);
    } else {
      var r := todo[0];
      var next := at + Length(r);
      var zeros := start + SECTOR - at - |Body(todo)|;
      var rest := data[at..start + SECTOR];
      assert rest == RecordBytes(r) + (Body(todo[1..]) + Zeros(zeros));
      assert data[at..next] == rest[..Length(r)] == RecordBytes(r);
      assert data[next..start + SECTOR] == rest[Length(r)..] == Body(todo[1..]) + Zeros(zeros);
      RecordIsRead(data, at, r);
      SectorIsListed(data, start, next, todo[1..]);
      PrependTwice([EntryOf(r)], EntriesOf(todo[1..]), ListFrom(data, start + SECTOR));
    }
  }

  /** Past the last record of a sector: either the sector is full, or a zero sends the reader to the next one. */
  lemma SectorEnds(data: seq<byte>, start: nat, at: nat)
    requires Sized(data) && start % SECTOR == 0 && start < at <= start + SECTOR <= |data|
    requires data[at..start + SECTOR] == Zeros(start + SECTOR - at)
    ensures ListFrom(data, at) == Prepend([], ListFrom(data, start + SECTOR))
  {
    hide ReadRecord;
    var l := ListFrom(data, start + SECTOR);
    assert l.Entries? ==> [] + l.list == l.list;
    if at < start + SECTOR {
      assert data[at] == data[at..start + SECTOR][0] == 0;
      RoundUp(start, at);
      assert NextStep(data, at) == NextStep(data, start + SECTOR);
    }
  }

  lemma RoundUp(start: nat, at: nat)
    requires start % SECTOR == 0 && start < at < start + SECTOR && start + SECTOR <= TWO_32 - SECTOR
    ensures at % SECTOR != 0
    ensures U32(U32(at + 2047) / 2048 * 2048) == start + SECTOR
  {
  }

  // ---------------------------------------------------------------- a whole directory

  lemma {:induction false} DirectoryLength(sectors: seq<seq<Record>>)
    requires AllFit(sectors)
    ensures |DirectoryBytes(sectors)| == |sectors| * SECTOR
  {
    if sectors == [] {
    } else {
      DirectoryLength(sectors[1..]);
    }
  }

  /** The records of the sectors before the first one without records. */
  function Reached(sectors: seq<seq<Record>>): seq<Record> {
    if sectors == [] || sectors[0] == [] then [] else sectors[0] + Reached(sectors[1..])
  }

  function AllRecords(sectors: seq<seq<Record>>): seq<Record> {
    if sectors == [] then [] else sectors[0] + AllRecords(sectors[1..])
  }

  lemma {:induction false} EntriesOfConcat(a: seq<Record>, b: seq<Record>)
    ensures EntriesOf(a + b) == EntriesOf(a) + EntriesOf(b)
  {
    hide EntryOf;
    if a == [] {
      assert a + b == b;
    } else {
      assert (a + b)[1..] == a[1..] + b;
      EntriesOfConcat(a[1..], b);
    }
  }

  lemma {:induction false} DirectoryIsListed(before: seq<byte>, sectors: seq<seq<Record>>)
    requires AllFit(sectors) && Sized(before + DirectoryBytes(sectors)) && |before| % SECTOR == 0
    ensures ListFrom(before + DirectoryBytes(sectors), |before|) == Entries(EntriesOf(Reached(sectors)))
    decreases |sectors|
  {
    hide ReadRecord, Body, EntryOf;
    var data := before + DirectoryBytes(sectors);
    if sectors == [] {
    } else {
      var records := sectors[0];
      var sector := SectorBytes(records);
      var next := before + sector;
      assert data == next + DirectoryBytes(sectors[1..]);
      assert data[|before|..|before| + SECTOR] == sector;
      if records == [] {
        EmptyBody();
        assert data[|before|] == sector[0] == 0;
      } else {
        DirectoryIsListed(next, sectors[1..]);
        SectorIsListed(data, |before|, |before|, records);
        EntriesOfConcat(records, Reached(sectors[1..]));
      }
    }
  }

  lemma EmptyBody()
    ensures Body([]) == []
  {
  }

  /**
   Listing a directory laid out in sectors gives its records in order, up to the first sector without
   records; that is all of them exactly when no sector with records comes after one without.
   */
  lemma ListRoundTrip(sectors: seq<seq<Record>>)
    requires AllFit(sectors) && Sized(DirectoryBytes(sectors))
    ensures ListFrom(DirectoryBytes(sectors), 0) == Entries(EntriesOf(Reached(sectors)))
    ensures ListFrom(DirectoryBytes(sectors), 0) == Entries(EntriesOf(AllRecords(sectors))) <==> NoGap(sectors)
  {
    hide ListFrom, DirectoryBytes, EntryOf;
    assert [] + DirectoryBytes(sectors) == DirectoryBytes(sectors);
    DirectoryIsListed([], sectors);
    ReachedAll(sectors);
    EntriesLength(Reached(sectors));
    EntriesLength(AllRecords(sectors));
  }

  ghost predicate NoGap(sectors: seq<seq<Record>>) {
    forall i, j :: 0 <= i < j < |sectors| && sectors[i] == [] ==> sectors[j] == []
  }

  lemma {:induction false} EntriesLength(records: seq<Record>)
    ensures |EntriesOf(records)| == |records|
  {
    if records == [] {
    } else {
      EntriesLength(records[1..]);
    }
  }

  lemma {:induction false} ReachedAll(sectors: seq<seq<Record>>)
    ensures Reached(sectors) == AllRecords(sectors) <==> NoGap(sectors)
    ensures |Reached(sectors)| <= |AllRecords(sectors)|
    ensures |Reached(sectors)| == |AllRecords(sectors)| ==> Reached(sectors) == AllRecords(sectors)
    ensures AllRecords(sectors) == [] <==> forall i :: 0 <= i < |sectors| ==> sectors[i] == []
  {
    if sectors == [] {
    } else {
      var rest := sectors[1..];
      ReachedAll(rest);
      assert sectors == [sectors[0]] + rest;
      assert NoGap(sectors)
         <==> NoGap(rest) && (sectors[0] == [] ==> forall j :: 0 <= j < |rest| ==> rest[j] == []) by {
        if NoGap(sectors) {
          forall i, j | 0 <= i < j < |rest| && rest[i] == []
            ensures rest[j] == []
          {
            assert sectors[i + 1] == [] && sectors[j + 1] == rest[j];
          }
          forall j | 0 <= j < |rest| && sectors[0] == [] ensures rest[j] == [] { assert sectors[j + 1] == rest[j]; }
        }
      }
      if sectors[0] != [] && Reached(sectors) == AllRecords(sectors) {
        assert Reached(rest) == Reached(sectors)[|sectors[0]|..];
        assert AllRecords(rest) == AllRecords(sectors)[|sectors[0]|..];
      }
    }
  }

  // ---------------------------------------------------------------- file contents

  /** Byte `i` of what is stored from sector `fad` on. */
  function StoredByte(image: Image, fad: nat, i: nat): byte
    requires IsImage(image)
  {
    image(fad + i / SECTOR)[i % SECTOR]
  }

  lemma {:induction false} SectorsHold(image: Image, fad: nat, count: nat, i: nat)
    requires IsImage(image) && i < count * SECTOR
    ensures Sectors(image, fad, count)[i] == StoredByte(image, fad, i)
  {
    if i >= (count - 1) * SECTOR {
    } else {
      SectorsHold(image, fad, count - 1, i);
    }
  }

  /** What `File::read` delivers: the file from the start of the sector that holds `offset`. */
  function Delivered(image: Image, fad: nat, base: nat, n: nat): (s: seq<byte>)
    requires IsImage(image)
    ensures |s| == n
  {
    seq<byte>(n, i requires 0 <= i < n => StoredByte(image, fad, base + i))
  }

  lemma StoredFrom(image: Image, fad: nat, k: nat, i: nat)
    requires IsImage(image)
    ensures StoredByte(image, fad + k, i) == StoredByte(image, fad, k * SECTOR + i)
  {
    assert (k * SECTOR + i) / SECTOR == k + i / SECTOR && (k * SECTOR + i) % SECTOR == i % SECTOR;
  }

  method ReadFile(image: Image, startFad: u32, len: u32, size: u32, offset: u32) returns (buf: seq<byte>)
    requires IsImage(image)
    ensures buf == Delivered(image, startFad, offset - offset % SECTOR, Min(size, U32(len - offset)))
  {
    hide StoredByte, Sectors, U32;
    var n := Min(size, U32(len - offset));
    var sectors := n / SECTOR;
    var first := offset / SECTOR;
    buf := Sectors(image, startFad + first, sectors);
    forall i | 0 <= i < sectors * SECTOR
      ensures buf[i] == StoredByte(image, startFad, first * SECTOR + i)
    {
      SectorsHold(image, startFad + first, sectors, i);
      StoredFrom(image, startFad, first, i);
    }
    var left := n - sectors * SECTOR;
    if left > 0 {
      var temp := Sectors(image, startFad + (first + sectors), 1);
      forall i | 0 <= i < left
        ensures temp[i] == StoredByte(image, startFad, first * SECTOR + sectors * SECTOR + i)
      {
        SectorsHold(image, startFad + (first + sectors), 1, i);
        StoredFrom(image, startFad, first + sectors, i);
      }
      buf := buf + temp[..left];
    }
  }

  /** From a sector boundary inside the file, a read gives the bytes asked for. */
  lemma AlignedRead(image: Image, fad: nat, len: u32, size: u32, offset: u32)
    requires IsImage(image) && offset <= len && offset % SECTOR == 0
    ensures Delivered(image, fad, offset - offset % SECTOR, Min(size, U32(len - offset)))
         == Delivered(image, fad, offset, Min(size, len - offset))
  {
    assert U32(len - offset) == len - offset;
  }

  /** From any other offset there is a disc on which a read gives other bytes. */
  lemma UnalignedRead(fad: nat, len: u32, size: u32, offset: u32) returns (image: Image)
    requires offset < len && size > 0 && offset % SECTOR != 0
    ensures IsImage(image)
    ensures Delivered(image, fad, offset - offset % SECTOR, Min(size, U32(len - offset)))
         != Delivered(image, fad, offset, Min(size, len - offset))
  {
    image := _ => seq<byte>(SECTOR, i => if i == 0 then 1 else 0);
    var base := offset - offset % SECTOR;
    var n := Min(size, len - offset);
    assert U32(len - offset) == len - offset;
    assert base % SECTOR == 0;
    assert Delivered(image, fad, base, n)[0] == StoredByte(image, fad, base) == 1;
    assert Delivered(image, fad, offset, n)[0] == StoredByte(image, fad, offset) == 0;
  }

  /** How many bytes of a file there are from `offset` on, at most `size`. */
  function InFile(len: u32, size: u32, offset: u32): nat {
    if offset <= len then Min(size, len - offset) else 0
  }

  /** Past the end of the file the length wraps around and the read goes on into what follows on the disc. */
  lemma ReadPastEnd(image: Image, fad: nat, len: u32, size: u32, offset: u32)
    requires IsImage(image) && len < offset
    ensures |Delivered(image, fad, offset - offset % SECTOR, Min(size, U32(len - offset)))|
         == Min(size, TWO_32 - (offset - len))
    ensures InFile(len, size, offset) == 0
    ensures Min(size, TWO_32 - (offset - len)) == 0 <==> size == 0
  {
    assert U32(len - offset) == TWO_32 + len - offset;
  }

  /** A read gives the bytes of the file at its offset, whatever is on the disc. */
  ghost predicate ReadsTheFile(fad: nat, len: u32, size: u32, offset: u32) {
    forall image: Image :: IsImage(image) ==>
      Delivered(image, fad, offset - offset % SECTOR, Min(size, U32(len - offset)))
      == Delivered(image, fad, offset, InFile(len, size, offset))
  }

  /** For every offset: that is so exactly for empty reads, at the end, and from sector boundaries inside the file. */
  lemma ReadIsExact(fad: nat, len: u32, size: u32, offset: u32)
    ensures ReadsTheFile(fad, len, size, offset)
       <==> size == 0 || offset == len || (offset < len && offset % SECTOR == 0)
  {
    hide Delivered, StoredByte, U32;
    if size == 0 || offset == len {
      NothingRead(len, size, offset);
      forall image: Image | IsImage(image)
        ensures Delivered(image, fad, offset - offset % SECTOR, Min(size, U32(len - offset)))
             == Delivered(image, fad, offset, InFile(len, size, offset))
      {
        EmptyDelivered(image, fad, offset - offset % SECTOR, offset);
      }
    } else if len < offset {
      var image: Image := _ => seq<byte>(SECTOR, _ => 0);
      ReadPastEnd(image, fad, len, size, offset);
      assert |Delivered(image, fad, offset, 0)| == 0;
    } else if offset % SECTOR == 0 {
      forall image: Image | IsImage(image)
        ensures Delivered(image, fad, offset - offset % SECTOR, Min(size, U32(len - offset)))
             == Delivered(image, fad, offset, InFile(len, size, offset))
      {
        AlignedRead(image, fad, len, size, offset);
      }
    } else {
      var image := UnalignedRead(fad, len, size, offset);
    }
  }

  lemma NothingRead(len: u32, size: u32, offset: u32)
    requires size == 0 || offset == len
    ensures Min(size, U32(len - offset)) == 0 && InFile(len, size, offset) == 0
  {
  }

  lemma EmptyDelivered(image: Image, fad: nat, a: nat, b: nat)
    requires IsImage(image)
    ensures Delivered(image, fad, a, 0) == Delivered(image, fad, b, 0)
  {
  }
}
