/** The tracks of a disc and the two searches for the track of a frame address (FAD). */
module DiscTracks {
  import opened Bytes

  const FIRST_FAD: u32 := 150
  const SESSION_GAP: u32 := 11400

  /** First and last frame address of a track; a last address of zero leaves the track open. */
  datatype Span = Span(startFad: u32, endFad: u32)

  predicate Covers(t: Span, fad: u32) {
    t.startFad <= fad && (fad <= t.endFad || t.endFad == 0)
  }

  /** Tracks in ascending order that do not meet; a track may be empty, and only the last one open. */
  ghost predicate Ordered(tracks: seq<Span>) {
    && (forall i :: 0 <= i < |tracks| - 1 ==> tracks[i].endFad > 0)
    && (forall i, j :: 0 <= i < j < |tracks| ==> tracks[i].endFad < tracks[j].startFad)
  }

  /** `libGDR_GetTrackNumber`: forward; 0xAA when no track has the address. */
  method TrackNumber(tracks: seq<Span>, sector: u32) returns (number: nat, elapsed: u32)
    ensures (forall i :: 0 <= i < |tracks| ==> !Covers(tracks[i], sector)) ==> number == 0xAA && elapsed == 0
    ensures (exists i :: 0 <= i < |tracks| && Covers(tracks[i], sector)) ==>
      && 1 <= number <= |tracks| && Covers(tracks[number - 1], sector)
      && elapsed == sector - tracks[number - 1].startFad
      && forall i :: 0 <= i < number - 1 ==> !Covers(tracks[i], sector)
  {
    for i := 0 to |tracks|
      invariant forall k :: 0 <= k < i ==> !Covers(tracks[k], sector)
    {
      if tracks[i].startFad <= sector && (sector <= tracks[i].endFad || tracks[i].endFad == 0) {
        return i + 1, sector - tracks[i].startFad;
      }
    }
    return 0xAA, 0;
  }

  /** `Disc::readSector`: backward; a track that has the address but fails to read it is passed over. */
  method SectorTrack(tracks: seq<Span>, readable: seq<bool>, fad: u32) returns (found: Option<nat>)
    requires |readable| == |tracks|
    ensures found.None? <==> forall i :: 0 <= i < |tracks| ==> !(Covers(tracks[i], fad) && readable[i])
    ensures found.Some? ==>
      && found.value < |tracks| && Covers(tracks[found.value], fad) && readable[found.value]
      && forall i :: found.value < i < |tracks| ==> !(Covers(tracks[i], fad) && readable[i])
  {
    var i := |tracks|;
    while i > 0
      invariant 0 <= i <= |tracks|
      invariant forall k :: i <= k < |tracks| ==> !(Covers(tracks[k], fad) && readable[k])
    {
      i := i - 1;
      if Covers(tracks[i], fad) && readable[i] {
        return Some(i);
      }
    }
    return None;
  }

  /** On ordered tracks an address belongs to one track at most, */
  lemma OneTrackAtMost(tracks: seq<Span>, fad: u32, i: nat, j: nat)
    requires Ordered(tracks) && i < |tracks| && j < |tracks|
    requires Covers(tracks[i], fad) && Covers(tracks[j], fad)
    ensures i == j
  {
  }

  /** so that the forward and the backward search agree. */
  method BothSearches(tracks: seq<Span>, fad: u32) returns (number: nat, found: Option<nat>)
    requires Ordered(tracks)
    ensures number == (if found.Some? then found.value + 1 else 0xAA)
    ensures found.Some? <==> exists i :: 0 <= i < |tracks| && Covers(tracks[i], fad)
  {
    var elapsed;
    number, elapsed := TrackNumber(tracks, fad);
    found := SectorTrack(tracks, seq(|tracks|, _ => true), fad);
    if found.Some? {
      OneTrackAtMost(tracks, fad, number - 1, found.value);
    }
  }

  /** `libGDR_GetTrack`: an open track ends where the next one, or the lead-out, starts. */
  method TrackBounds(tracks: seq<Span>, leadOut: u32, number: nat) returns (bounds: Option<Span>)
    ensures bounds.None? <==> number == 0 || number > |tracks|
    ensures bounds.Some? ==>
      var t := tracks[number - 1];
      bounds.value.startFad == t.startFad
      && bounds.value.endFad == (if t.endFad != 0 then t.endFad
                                 else if number == |tracks| then U32(leadOut - 1)
                                 else U32(tracks[number].startFad - 1))
  {
    if number == 0 || number > |tracks| {
      return None;
    }
    var t := tracks[number - 1];
    var end := t.endFad;
    if end == 0 {
      end := if number == |tracks| then U32(leadOut - 1) else U32(tracks[number].startFad - 1);
    }
    return Some(Span(t.startFad, end));
  }
}
