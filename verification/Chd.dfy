/** CHD images: the layout of tracks over the frames of the image, and the one-hunk cache they are read through. */
module Chd {
  import opened Bytes
  import opened DiscTracks

  const CHD_FRAME_BYTES: nat := 2448

  /** Which kind of metadata describes a track. */
  datatype Tag = CdTrack2 | CdTrack | GdOld | GdTrack

  datatype Meta = Meta(tag: Tag, number: int, typ: string, subtype: string,
                       frames: int, padFrames: int, pregap: int, postgap: int)

  function SectorSize(typ: string): Option<nat> {
    if typ == "AUDIO" then Some(2352)
    else if typ == "MODE1" || typ == "MODE1/2048" then Some(2048)
    else if typ == "MODE1_RAW" || typ == "MODE1/2352" then Some(2352)
    else if typ == "MODE2" || typ == "MODE2/2336" then Some(2336)
    else if typ == "MODE2_RAW" || typ == "MODE2/2352" || typ == "CDI/2352" then Some(2352)
    else None
  }

  datatype Track = Track(span: Span, isData: bool, offset: int, fmt: nat, swap: bool)

  datatype Layout = Layout(totalFrames: u32, offset: u32, isGdRom: bool, audioSwap: bool, tracks: seq<Track>)

  /** The loop body of `tryOpen`; nothing is left where it throws. */
  function AddTrack(l: Layout, m: Meta): Option<Layout> {
    var audioSwap := l.audioSwap || m.tag.GdTrack?;
    var isData := m.typ != "AUDIO";
    var total := U32(l.totalFrames + m.frames);
    if m.number != |l.tracks| + 1 || m.subtype != "NONE" || m.pregap != 0 || m.postgap != 0 then None
    else match SectorSize(m.typ)
      case None => None
      case Some(fmt) =>
        var t := Track(Span(l.totalFrames, U32(total - 1 - m.padFrames)), isData,
                       S32(l.offset - l.totalFrames), fmt, !isData && audioSwap);
        Some(Layout(total, U32(l.offset + U32(m.frames + 3) / 4 * 4), l.isGdRom || m.tag.GdOld? || m.tag.GdTrack?,
                    audioSwap, l.tracks + [t]))
  }

  function AddTracks(l: Layout, metas: seq<Meta>): Option<Layout>
    decreases |metas|
  {
    if metas == [] then Some(l)
    else match AddTrack(l, metas[0])
      case None => None
      case Some(next) => AddTracks(next, metas[1..])
  }

  /** The last of several tracks of a CD is moved behind the gap between two sessions. */
  function Shifted(t: Track): Track {
    t.(span := Span(U32(t.span.startFad + SESSION_GAP), U32(t.span.endFad + SESSION_GAP)),
      offset := S32(t.offset - SESSION_GAP))
  }

  function Finish(l: Layout): Option<seq<Track>> {
    var n := |l.tracks|;
    if l.isGdRom then if n < 3 then None else Some(l.tracks)
    else if n == 0 then None
    else if n == 1 then Some(l.tracks)
    else Some(l.tracks[n - 1 := Shifted(l.tracks[n - 1])])
  }

  function Start(oldVersion: bool): Layout {
    Layout(FIRST_FAD, 0, oldVersion, false, [])
  }

  function Open(metas: seq<Meta>, oldVersion: bool): Option<seq<Track>> {
    match AddTracks(Start(oldVersion), metas)
    case None => None
    case Some(l) => Finish(l)
  }

  /** The metadata loop of `tryOpen`, and the sessions after it. */
  method OpenTracks(metas: seq<Meta>, oldVersion: bool) returns (r: Option<seq<Track>>)
    ensures r == Open(metas, oldVersion)
  {
    hide SectorSize, U32, S32;
    var totalFrames: u32, offset: u32, isGdRom, audioSwap, tracks: seq<Track> := FIRST_FAD, 0, oldVersion, false, [];
    for k := 0 to |metas|
      invariant AddTracks(Layout(totalFrames, offset, isGdRom, audioSwap, tracks), metas[k..])
             == AddTracks(Start(oldVersion), metas)
    {
      ghost var l := Layout(totalFrames, offset, isGdRom, audioSwap, tracks);
      var m := metas[k];
      assert metas[k..][0] == m && metas[k..][1..] == metas[k + 1..];
      if m.tag.GdTrack? {
        audioSwap := true;
      }
      if m.tag.GdOld? || m.tag.GdTrack? {
        isGdRom := true;
      }
      if m.number != |tracks| + 1 || m.subtype != "NONE" || m.pregap != 0 || m.postgap != 0 {
        return None;
      }
      var startFad := totalFrames;
      totalFrames := U32(totalFrames + m.frames);
      var span := Span(startFad, U32(totalFrames - 1 - m.padFrames));
      var isData := m.typ != "AUDIO";
      var fmt := SectorSize(m.typ);
      if fmt.None? {
        return None;
      }
      tracks := tracks + [Track(span, isData, S32(offset - startFad), fmt.value, !isData && audioSwap)];
      var padded := U32(m.frames + 3) / 4;
      offset := U32(offset + padded * 4);
      assert AddTrack(l, m) == Some(Layout(totalFrames, offset, isGdRom, audioSwap, tracks));
    }
    assert metas[|metas|..] == [];
    var n := |tracks|;
    if isGdRom {
      return if n < 3 then None else Some(tracks);
    }
    if n == 0 {
      return None;
    }
    if n > 1 {
      var t := tracks[n - 1];
      var span := Span(U32(t.span.startFad + SESSION_GAP), U32(t.span.endFad + SESSION_GAP));
      tracks := tracks[n - 1 := t.(span := span, offset := S32(t.offset - SESSION_GAP))];
    }
    return Some(tracks);
  }

  // ---------------------------------------------------------------- where tracks should be

  function Padded(frames: nat): nat {
    (frames + 3) / 4 * 4
  }

  /** First address and first frame of track `k`, counted without any 32-bit arithmetic. */
  function StartFad(metas: seq<Meta>, k: nat): int
    requires k <= |metas|
  {
    if k == 0 then FIRST_FAD else StartFad(metas, k - 1) + metas[k - 1].frames
  }

  function FirstFrame(metas: seq<Meta>, k: nat): int
    requires k <= |metas| && Sensible(metas)
  {
    if k == 0 then 0 else FirstFrame(metas, k - 1) + Padded(metas[k - 1].frames)
  }

  predicate Sensible(metas: seq<Meta>) {
    forall i :: 0 <= i < |metas| ==> 0 <= metas[i].padFrames <= metas[i].frames
  }

  /** The image and the disc have fewer than 2^32 frames. */
  ghost predicate InRange(metas: seq<Meta>) {
    Sensible(metas) && StartFad(metas, |metas|) + SESSION_GAP < TWO_32 && FirstFrame(metas, |metas|) < TWO_32
  }

  lemma {:induction false} Monotone(metas: seq<Meta>, i: nat, j: nat)
    requires Sensible(metas) && i <= j <= |metas|
    ensures FIRST_FAD <= StartFad(metas, i) <= StartFad(metas, j)
    ensures 0 <= FirstFrame(metas, i) <= FirstFrame(metas, j)
    ensures i < j ==> StartFad(metas, i) + metas[i].frames <= StartFad(metas, j)
    ensures i < j ==> FirstFrame(metas, i) + metas[i].frames <= FirstFrame(metas, j)
    decreases j
  {
    if i < j {
      Monotone(metas, i, j - 1);
      if i < j - 1 {
        assert metas[i].frames >= 0;
      }
    } else if j > 0 {
      Monotone(metas, j - 1, j - 1);
    }
  }

  ghost predicate Placed(t: Track, metas: seq<Meta>, i: nat)
    requires i < |metas| && Sensible(metas)
  {
    && t.span.startFad == StartFad(metas, i)
    && t.span.endFad == StartFad(metas, i + 1) - 1 - metas[i].padFrames
    && t.offset == S32(FirstFrame(metas, i) - StartFad(metas, i))
  }

  ghost predicate LayoutInv(l: Layout, metas: seq<Meta>) {
    && Sensible(metas) && |l.tracks| <= |metas|
    && l.totalFrames == StartFad(metas, |l.tracks|) && l.offset == FirstFrame(metas, |l.tracks|)
    && forall i :: 0 <= i < |l.tracks| ==> Placed(l.tracks[i], metas, i)
  }

  lemma AddTrackPlaces(l: Layout, metas: seq<Meta>)
    requires InRange(metas) && LayoutInv(l, metas) && |l.tracks| < |metas|
    requires AddTrack(l, metas[|l.tracks|]).Some?
    ensures LayoutInv(AddTrack(l, metas[|l.tracks|]).value, metas)
    ensures |AddTrack(l, metas[|l.tracks|]).value.tracks| == |l.tracks| + 1
  {
    hide S32, U32, SectorSize, StartFad, FirstFrame;
    var k := |l.tracks|;
    NoWrap(metas, k);
    var next := AddTrack(l, metas[k]).value;
    assert Placed(next.tracks[k], metas, k);
    forall i | 0 <= i < |next.tracks|
      ensures Placed(next.tracks[i], metas, i)
    {
      if i < k {
        assert next.tracks[i] == l.tracks[i];
      }
    }
  }

  lemma NoWrap(metas: seq<Meta>, k: nat)
    requires InRange(metas) && k < |metas|
    ensures var m := metas[k];
      && U32(StartFad(metas, k) + m.frames) == StartFad(metas, k + 1)
      && U32(StartFad(metas, k + 1) - 1 - m.padFrames) == StartFad(metas, k + 1) - 1 - m.padFrames
      && U32(FirstFrame(metas, k) + U32(m.frames + 3) / 4 * 4) == FirstFrame(metas, k + 1)
  {
    hide U32;
    Monotone(metas, k, k + 1);
    Monotone(metas, k + 1, |metas|);
    var m := metas[k];
    SmallWord(StartFad(metas, k) + m.frames);
    SmallWord(StartFad(metas, k + 1) - 1 - m.padFrames);
    SmallWord(m.frames + 3);
    SmallWord(FirstFrame(metas, k) + Padded(m.frames));
  }

  lemma {:induction false} AllPlaced(l: Layout, metas: seq<Meta>)
    requires InRange(metas) && LayoutInv(l, metas)
    requires |l.tracks| <= |metas| && AddTracks(l, metas[|l.tracks|..]).Some?
    ensures LayoutInv(AddTracks(l, metas[|l.tracks|..]).value, metas)
    ensures |AddTracks(l, metas[|l.tracks|..]).value.tracks| == |metas|
    decreases |metas| - |l.tracks|
  {
    hide LayoutInv, AddTrack, InRange;
    var k := |l.tracks|;
    if k >= |metas| {
    } else {
      assert metas[k..][0] == metas[k] && metas[k..][1..] == metas[k + 1..];
      AddTrackPlaces(l, metas);
      AllPlaced(AddTrack(l, metas[k]).value, metas);
    }
  }

  // ---------------------------------------------------------------- which images open

  /** Metadata that the loop accepts for track `i`. */
  predicate Proper(m: Meta, i: nat) {
    m.number == i + 1 && m.subtype == "NONE" && m.pregap == 0 && m.postgap == 0 && SectorSize(m.typ).Some?
  }

  /** An old image, or one with a track described as that of a GD-ROM, from track `k` on. */
  ghost predicate HasGdTrack(metas: seq<Meta>, k: nat) {
    exists j :: k <= j < |metas| && (metas[j].tag.GdOld? || metas[j].tag.GdTrack?)
  }

  ghost predicate IsGdRom(metas: seq<Meta>, oldVersion: bool) {
    oldVersion || HasGdTrack(metas, 0)
  }

  /** The loop goes through exactly if it accepts the metadata of every track. */
  lemma {:induction false} AddTracksExactly(l: Layout, metas: seq<Meta>)
    requires |l.tracks| <= |metas|
    ensures AddTracks(l, metas[|l.tracks|..]).Some? <==> forall i :: |l.tracks| <= i < |metas| ==> Proper(metas[i], i)
    ensures AddTracks(l, metas[|l.tracks|..]).Some? ==>
      var r := AddTracks(l, metas[|l.tracks|..]).value;
      |r.tracks| == |metas| && (r.isGdRom <==> l.isGdRom || HasGdTrack(metas, |l.tracks|))
    decreases |metas| - |l.tracks|
  {
    hide SectorSize, U32, S32;
    var k := |l.tracks|;
    if k >= |metas| {
      assert metas[k..] == [];
    } else {
      assert metas[k..][0] == metas[k] && metas[k..][1..] == metas[k + 1..];
      assert AddTrack(l, metas[k]).Some? <==> Proper(metas[k], k);
      if AddTrack(l, metas[k]).Some? {
        var next := AddTrack(l, metas[k]).value;
        assert |next.tracks| == k + 1;
        AddTracksExactly(next, metas);
        OneMoreGdTrack(metas, k);
      }
    }
  }

  lemma OneMoreGdTrack(metas: seq<Meta>, k: nat)
    requires k < |metas|
    ensures HasGdTrack(metas, k) <==> metas[k].tag.GdOld? || metas[k].tag.GdTrack? || HasGdTrack(metas, k + 1)
  {
  }

  /** An image opens exactly if the metadata of every track is accepted and there are enough tracks for its kind. */
  lemma OpensExactly(metas: seq<Meta>, oldVersion: bool)
    ensures Open(metas, oldVersion).Some? <==>
      && (forall i :: 0 <= i < |metas| ==> Proper(metas[i], i))
      && |metas| >= (if IsGdRom(metas, oldVersion) then 3 else 1)
  {
    hide AddTracks, Proper;
    assert metas[0..] == metas;
    AddTracksExactly(Start(oldVersion), metas);
  }

  /** The last of several tracks of a disc that is no GD-ROM lies behind the gap between two sessions. */
  ghost function GapBefore(metas: seq<Meta>, oldVersion: bool, i: nat): nat {
    if !IsGdRom(metas, oldVersion) && |metas| > 1 && i == |metas| - 1 then SESSION_GAP else 0
  }

  // ---------------------------------------------------------------- which frame an address reads

  function FrameOf(t: Track, fad: u32): u32 {
    U32(fad + t.offset)
  }

  lemma SignedTwice(x: int, y: int)
    ensures S32(S32(x) - y) == S32(x - y)
  {
  }

  /** A placed track, moved by `gap` addresses, reads the frames set aside for it. */
  lemma PlacedReads(t: Track, metas: seq<Meta>, i: nat, gap: nat, fad: u32)
    requires InRange(metas) && i < |metas| && gap <= SESSION_GAP
    requires t.span.startFad == StartFad(metas, i) + gap
    requires t.span.endFad == StartFad(metas, i + 1) - 1 - metas[i].padFrames + gap
    requires t.offset == S32(FirstFrame(metas, i) - StartFad(metas, i) - gap)
    requires Covers(t.span, fad)
    ensures FrameOf(t, fad) == FirstFrame(metas, i) + (fad - t.span.startFad)
    ensures FirstFrame(metas, i) <= FrameOf(t, fad) < FirstFrame(metas, i) + metas[i].frames <= FirstFrame(metas, i + 1)
  {
    hide S32;
    Monotone(metas, i, i + 1);
    Monotone(metas, i + 1, |metas|);
    SignedOffset(FirstFrame(metas, i) - StartFad(metas, i) - gap, fad);
  }

  /** Where the tracks of an opened image are. */
  lemma OpenedTrack(metas: seq<Meta>, oldVersion: bool, i: nat)
    requires InRange(metas) && Open(metas, oldVersion).Some?
    requires i < |Open(metas, oldVersion).value|
    ensures |Open(metas, oldVersion).value| == |metas|
    ensures var t, gap := Open(metas, oldVersion).value[i], GapBefore(metas, oldVersion, i);
      && t.span.startFad == StartFad(metas, i) + gap
      && t.span.endFad == StartFad(metas, i + 1) - 1 - metas[i].padFrames + gap
      && t.offset == S32(FirstFrame(metas, i) - StartFad(metas, i) - gap)
  {
    hide S32, AddTracks, StartFad, FirstFrame;
    OpenedLayout(metas, oldVersion);
    assert metas[0..] == metas;
    AddTracksExactly(Start(oldVersion), metas);
    var l := AddTracks(Start(oldVersion), metas).value;
    hide IsGdRom, HasGdTrack, Proper;
    assert l.isGdRom <==> IsGdRom(metas, oldVersion);
    assert Placed(l.tracks[i], metas, i);
    Monotone(metas, i + 1, |metas|);
    Monotone(metas, i, i + 1);
    StartAfter(metas, i);
    SignedTwice(FirstFrame(metas, i) - StartFad(metas, i), SESSION_GAP);
  }

  lemma StartAfter(metas: seq<Meta>, i: nat)
    requires Sensible(metas) && i < |metas|
    ensures StartFad(metas, i + 1) - 1 - metas[i].padFrames >= StartFad(metas, i) - 1 >= 149
  {
    Monotone(metas, i, i + 1);
  }

  lemma OpenedLayout(metas: seq<Meta>, oldVersion: bool)
    requires InRange(metas) && Open(metas, oldVersion).Some?
    ensures AddTracks(Start(oldVersion), metas).Some?
    ensures LayoutInv(AddTracks(Start(oldVersion), metas).value, metas)
    ensures |AddTracks(Start(oldVersion), metas).value.tracks| == |metas|
  {
    hide AddTracks, Finish;
    assert metas[0..] == metas;
    assert LayoutInv(Start(oldVersion), metas);
    AllPlaced(Start(oldVersion), metas);
  }

  /**
   Every address of a track of an opened image reads the frame as far into the track's own frames as
   the address is into the track, whatever the 32-bit arithmetic and the session gap do on the way.
   */
  lemma TrackReadsItsFrames(metas: seq<Meta>, oldVersion: bool, i: nat, fad: u32)
    requires InRange(metas) && Open(metas, oldVersion).Some?
    requires i < |Open(metas, oldVersion).value|
    requires Covers(Open(metas, oldVersion).value[i].span, fad)
    ensures i < |metas|
    ensures var t := Open(metas, oldVersion).value[i];
      && FrameOf(t, fad) == FirstFrame(metas, i) + (fad - t.span.startFad)
      && FirstFrame(metas, i) <= FrameOf(t, fad) < FirstFrame(metas, i) + metas[i].frames
  {
    hide Open, InRange;
    OpenedTrack(metas, oldVersion, i);
    PlacedReads(Open(metas, oldVersion).value[i], metas, i, GapBefore(metas, oldVersion, i), fad);
  }

  /** No frame is read through two tracks. */
  lemma TracksShareNoFrame(metas: seq<Meta>, oldVersion: bool, i: nat, j: nat, fad: u32, fad': u32)
    requires InRange(metas) && Open(metas, oldVersion).Some?
    requires i < j < |Open(metas, oldVersion).value|
    requires Covers(Open(metas, oldVersion).value[i].span, fad)
    requires Covers(Open(metas, oldVersion).value[j].span, fad')
    ensures FrameOf(Open(metas, oldVersion).value[i], fad) < FrameOf(Open(metas, oldVersion).value[j], fad')
  {
    hide Open, InRange, FrameOf;
    TrackReadsItsFrames(metas, oldVersion, i, fad);
    TrackReadsItsFrames(metas, oldVersion, j, fad');
    assert Sensible(metas) by { OpenedSensible(metas); }
    Monotone(metas, i, j);
  }

  lemma OpenedSensible(metas: seq<Meta>)
    requires InRange(metas)
    ensures Sensible(metas)
  {
  }

  /** The two sector searches agree on an opened image. */
  lemma OpenedTracksOrdered(metas: seq<Meta>, oldVersion: bool)
    requires InRange(metas) && Open(metas, oldVersion).Some?
    ensures Ordered(seq(|Open(metas, oldVersion).value|, i requires 0 <= i < |Open(metas, oldVersion).value| =>
              Open(metas, oldVersion).value[i].span))
  {
    hide Open, StartFad, FirstFrame;
    var tracks := Open(metas, oldVersion).value;
    forall i, j | 0 <= i < j < |tracks|
      ensures 0 < tracks[i].span.endFad < tracks[j].span.startFad
    {
      OpenedTrack(metas, oldVersion, i);
      OpenedTrack(metas, oldVersion, j);
      StartAfter(metas, i);
      Monotone(metas, i + 1, j);
    }
    forall i | 0 <= i < |tracks| - 1
      ensures tracks[i].span.endFad > 0
    {
      assert tracks[i].span.endFad < tracks[i + 1].span.startFad;
    }
  }

  // ---------------------------------------------------------------- what kind of sectors a track has

  /** One of the first `k` tracks is described as a track of a GD-ROM in the current format. */
  ghost predicate AnyGdTrack(metas: seq<Meta>, k: nat) {
    exists j :: 0 <= j < k && j < |metas| && metas[j].tag.GdTrack?
  }

  ghost predicate HasKind(t: Track, metas: seq<Meta>, i: nat)
    requires i < |metas|
  {
    && (t.isData <==> metas[i].typ != "AUDIO") && Some(t.fmt) == SectorSize(metas[i].typ)
    && (t.swap <==> !t.isData && AnyGdTrack(metas, i + 1))
  }

  ghost predicate KindInv(l: Layout, metas: seq<Meta>) {
    && |l.tracks| <= |metas| && (l.audioSwap <==> AnyGdTrack(metas, |l.tracks|))
    && forall i :: 0 <= i < |l.tracks| ==> HasKind(l.tracks[i], metas, i)
  }

  lemma {:induction false} AllHaveKinds(l: Layout, metas: seq<Meta>)
    requires KindInv(l, metas) && AddTracks(l, metas[|l.tracks|..]).Some?
    ensures KindInv(AddTracks(l, metas[|l.tracks|..]).value, metas)
    decreases |metas| - |l.tracks|
  {
    hide U32, S32, SectorSize;
    var k := |l.tracks|;
    if k >= |metas| {
    } else {
      assert metas[k..][0] == metas[k] && metas[k..][1..] == metas[k + 1..];
      var next := AddTrack(l, metas[k]).value;
      assert next.audioSwap <==> AnyGdTrack(metas, k + 1);
      assert HasKind(next.tracks[k], metas, k);
      AllHaveKinds(next, metas);
    }
  }

  /**
   A track's sector size is that of its type, and its bytes are swapped exactly for audio once
   current GD-ROM metadata was seen.
   */
  lemma OpenedTracksHaveKinds(metas: seq<Meta>, oldVersion: bool, i: nat)
    requires Open(metas, oldVersion).Some? && i < |Open(metas, oldVersion).value|
    ensures i < |metas| && HasKind(Open(metas, oldVersion).value[i], metas, i)
  {
    hide AddTracks;
    assert metas[0..] == metas;
    AllHaveKinds(Start(oldVersion), metas);
    var l := AddTracks(Start(oldVersion), metas).value;
    assert HasKind(l.tracks[i], metas, i);
  }
}
