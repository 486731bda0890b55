/** Which CUE sheets are accepted, and what the sheet of a GD-ROM gives. */
module CueSheets {
  import opened Bytes
  import opened DiscTracks
  import opened Cue

  // ---------------------------------------------------------------- sector sizes

  function DigitOf(n: nat): char {
    '0' + (n % 10) as char
  }

  /** A slash and four digits. */
  function SizeText(n: nat): string {
    ['/', DigitOf(n / 1000), DigitOf(n / 100), DigitOf(n / 10), DigitOf(n)]
  }

  /** A type that names a sector size has that size; audio and graphics tracks have raw sectors. */
  lemma SectorSizeIsNamed(typ: string)
    requires SectorSize(typ) > 0
    ensures if '/' in typ then exists k :: 0 <= k <= |typ| && typ == typ[..k] + SizeText(SectorSize(typ))
      else typ in {"AUDIO", "CDG"} && SectorSize(typ) == 2352
  {
    if typ == "AUDIO" || typ == "CDG" {
    } else {
      SizeTexts();
      var k := |typ| - 5;
      hide SizeText;
      if SectorSize(typ) == 2048 {
        Named("MODE1", "/2048", typ);
      } else if SectorSize(typ) == 2336 {
        Named(if typ == "MODE2/2336" then "MODE2" else "CDI", "/2336", typ);
      } else {
        Named(if typ == "MODE1/2352" then "MODE1" else if typ == "MODE2/2352" then "MODE2" else "CDI", "/2352", typ);
      }
      assert typ[k..] == SizeText(SectorSize(typ)) && typ == typ[..k] + typ[k..];
    }
  }

  lemma SizeTexts()
    ensures SizeText(2048) == "/2048" && SizeText(2336) == "/2336" && SizeText(2352) == "/2352"
  {
  }

  lemma Named(mode: string, size: string, typ: string)
    requires typ == mode + size && |size| == 5 && size[0] == '/'
    ensures '/' in typ && |typ| >= 5 && typ[|typ| - 5..] == size
  {
    assert typ[|mode|] == '/';
  }

  // ---------------------------------------------------------------- what the lines say

  /** The file that is open before line `k`. */
  function FileBefore(lines: seq<Line>, k: nat): Option<FileInfo>
    requires k <= |lines|
  {
    if k == 0 then None
    else
      match lines[k - 1]
      case FileLine(file) => Some(file)
      case RemSession(_) => None
      case RemHighDensity => None
      case RemSingleDensity => None
      case _ => FileBefore(lines, k - 1)
  }

  /** The type given by the last TRACK line of that file. */
  function TypeBefore(lines: seq<Line>, k: nat): string
    requires k <= |lines|
  {
    if k == 0 then ""
    else
      match lines[k - 1]
      case TrackLine(_, typ) => typ
      case FileLine(_) => ""
      case RemSession(_) => ""
      case RemHighDensity => ""
      case RemSingleDensity => ""
      case _ => TypeBefore(lines, k - 1)
  }

  /** The line may stand where it does. */
  predicate Fits(lines: seq<Line>, k: nat)
    requires k < |lines|
  {
    match lines[k]
    case BadFileLine => false
    case TrackLine(number, typ) => FileBefore(lines, k).Some? && 1 <= number <= 99 && SectorSize(typ) > 0
    case IndexLine(index, _) => index == 0 || (index == 1 && FileBefore(lines, k).Some?)
    case _ => true
  }

  /** Whether each track holds data: one track for every INDEX 01 line. */
  function Kinds(lines: seq<Line>, k: nat): seq<bool>
    requires k <= |lines|
  {
    if k == 0 then []
    else
      match lines[k - 1]
      case IndexLine(index, _) =>
        Kinds(lines, k - 1) + (if index == 1 then [TypeBefore(lines, k - 1) !in {"AUDIO", "CDG"}] else [])
      case _ => Kinds(lines, k - 1)
  }

  ghost predicate HasSession(lines: seq<Line>, k: nat) {
    exists j :: 0 <= j < k && j < |lines| && lines[j].RemSession? && lines[j].session > 0
  }

  ghost predicate HasHighDensity(lines: seq<Line>, k: nat) {
    exists j :: 0 <= j < k && j < |lines| && lines[j].RemHighDensity?
  }

  // ---------------------------------------------------------------- the parser follows them

  lemma {:induction false} RunConcat(st: State, a: seq<Line>, b: seq<Line>)
    ensures Run(st, a + b) == match Run(st, a) case None => None case Some(next) => Run(next, b)
    decreases |a|
  {
    hide Step;
    if a == [] {
      assert a + b == b;
    } else {
      assert (a + b)[1..] == a[1..] + b;
      if Step(st, a[0]).Some? {
        RunConcat(Step(st, a[0]).value, a[1..], b);
      }
    }
  }

  lemma RunOne(st: State, line: Line)
    ensures Run(st, [line]) == Step(st, line)
  {
    hide Step;
    assert [line][1..] == [];
    assert forall s :: Run(s, []) == Some(s);
  }

  /** The state after the first `k` lines knows what they say. */
  ghost predicate Knows(st: State, lines: seq<Line>, k: nat)
    requires k <= |lines|
  {
    && st.file == FileBefore(lines, k) && st.typ == TypeBefore(lines, k)
    && (st.session != 0 <==> HasSession(lines, k)) && (st.gdRom <==> HasHighDensity(lines, k))
    && |st.tracks| == |Kinds(lines, k)|
    && forall i :: 0 <= i < |st.tracks| ==> st.tracks[i].isData == Kinds(lines, k)[i]
  }

  lemma LineFits(st: State, lines: seq<Line>, k: nat)
    requires k < |lines| && Knows(st, lines, k)
    ensures Step(st, lines[k]).Some? <==> Fits(lines, k)
  {
    hide NewTrack, CutAt, SectorSize;
  }

  lemma LaterSession(lines: seq<Line>, k: nat)
    requires k < |lines|
    ensures HasSession(lines, k + 1) <==> HasSession(lines, k) || (lines[k].RemSession? && lines[k].session > 0)
    ensures HasHighDensity(lines, k + 1) <==> HasHighDensity(lines, k) || lines[k].RemHighDensity?
  {
  }

  lemma CutKinds(tracks: seq<Track>, start: u32)
    ensures |CutAt(tracks, start)| == |tracks|
    ensures forall i :: 0 <= i < |tracks| ==> CutAt(tracks, start)[i].isData == tracks[i].isData
  {
  }

  lemma StepKnows(st: State, lines: seq<Line>, k: nat)
    requires k < |lines| && Knows(st, lines, k) && Step(st, lines[k]).Some?
    ensures Knows(Step(st, lines[k]).value, lines, k + 1)
  {
    LaterSession(lines, k);
    hide HasSession, HasHighDensity, SectorSize, S32, U32;
    match lines[k]
    case IndexLine(index, fad) =>
      if index == 1 {
        CutKinds(st.tracks, NewTrack(st, st.file.value, fad).span.startFad);
      }
    case _ =>
  }

  /** The lines are gone through exactly if each may stand where it does. */
  lemma {:induction false} RunsWhileFitting(lines: seq<Line>, k: nat)
    requires k <= |lines|
    ensures Run(INITIAL, lines[..k]).Some? <==> forall j :: 0 <= j < k ==> Fits(lines, j)
    ensures Run(INITIAL, lines[..k]).Some? ==> Knows(Run(INITIAL, lines[..k]).value, lines, k)
    decreases k
  {
    hide Step, Fits;
    if k == 0 {
      assert lines[..0] == [];
    } else {
      hide Knows;
      var n := k - 1;
      RunsWhileFitting(lines, n);
      assert lines[..k] == lines[..n] + [lines[n]];
      RunConcat(INITIAL, lines[..n], [lines[n]]);
      if Run(INITIAL, lines[..n]).Some? {
        var st := Run(INITIAL, lines[..n]).value;
        RunOne(st, lines[n]);
        LineFits(st, lines, n);
        if Step(st, lines[n]).Some? {
          StepKnows(st, lines, n);
        }
      }
    }
  }

  /**
   A sheet is accepted exactly if every line may stand where it does, it has 1 to 99 tracks, and, with
   a high-density area but no sessions, its first three tracks are data, audio and data, the third one
   at the start of that area.
   */
  lemma AcceptedExactly(lines: seq<Line>)
    ensures Parse(lines).Some? <==>
      && (forall k :: 0 <= k < |lines| ==> Fits(lines, k))
      && 1 <= |Kinds(lines, |lines|)| <= 99
      && (HasHighDensity(lines, |lines|) && !HasSession(lines, |lines|) ==>
            && [true, false, true] <= Kinds(lines, |lines|)
            && Run(INITIAL, lines).Some? && |Run(INITIAL, lines).value.tracks| >= 3
            && Run(INITIAL, lines).value.tracks[2].span.startFad == HIGH_DENSITY_FAD)
  {
    hide Run, Fits, HasSession, HasHighDensity;
    assert lines[..|lines|] == lines;
    RunsWhileFitting(lines, |lines|);
    var kinds := Kinds(lines, |lines|);
    assert |kinds| >= 3 ==> ([true, false, true] <= kinds <==> kinds[0] && !kinds[1] && kinds[2]);
  }

  // ---------------------------------------------------------------- the sheet of a GD-ROM

  /** A file with one track that starts with it. */
  function OneTrack(number: u32, typ: string, file: FileInfo): seq<Line> {
    [FileLine(file), TrackLine(number, typ), IndexLine(1, 0)]
  }

  /** What such a file adds. */
  function WithTrack(st: State, typ: string, file: FileInfo): State
    requires SectorSize(typ) > 0
  {
    var n := SectorSize(typ);
    var s := st.(typ := typ, sectorSize := n, file := Some(file), fileStart := st.currentFad,
                 currentFad := U32(st.currentFad + file.size / n));
    var t := NewTrack(s, file, 0);
    s.(tracks := CutAt(s.tracks, t.span.startFad) + [t])
  }

  lemma OneTrackRuns(st: State, number: u32, typ: string, file: FileInfo)
    requires 1 <= number <= 99 && SectorSize(typ) > 0
    ensures Run(st, OneTrack(number, typ, file)) == Some(WithTrack(st, typ, file))
  {
    hide SectorSize, NewTrack, CutAt, U32;
    var lines := OneTrack(number, typ, file);
    var s1 := Step(st, lines[0]).value;
    var s2 := Step(s1, lines[1]).value;
    RunConcat(st, [lines[0]], [lines[1]]);
    RunConcat(st, [lines[0]] + [lines[1]], [lines[2]]);
    RunOne(st, lines[0]);
    RunOne(s1, lines[1]);
    RunOne(s2, lines[2]);
    assert lines == [lines[0]] + [lines[1]] + [lines[2]];
  }

  /** Its track starts where the disc has got to, and the track before it ends there at the latest. */
  lemma TrackAdded(st: State, typ: string, file: FileInfo)
    requires SectorSize(typ) > 0 && 1 <= st.currentFad && st.currentFad + file.size / SectorSize(typ) < TWO_32
    ensures var s, k := WithTrack(st, typ, file), |st.tracks|;
      && s.currentFad == st.currentFad + file.size / SectorSize(typ)
      && s.session == st.session && s.gdRom == st.gdRom && |s.tracks| == k + 1
      && s.tracks[k].span == Span(st.currentFad, s.currentFad - 1) && s.tracks[k].isData == (typ !in {"AUDIO", "CDG"})
      && (forall i :: 0 <= i < k - 1 ==> s.tracks[i] == st.tracks[i])
      && (k > 0 ==>
            && s.tracks[k - 1].isData == st.tracks[k - 1].isData
            && s.tracks[k - 1].span == Span(st.tracks[k - 1].span.startFad,
                                            Min(st.tracks[k - 1].span.endFad, st.currentFad - 1)))
  {
    var n := SectorSize(typ);
    var end := st.currentFad + file.size / n;
    SmallWord(end);
    var s := st.(typ := typ, sectorSize := n, file := Some(file), fileStart := st.currentFad, currentFad := end);
    NewTrackFields(s, file, 0);
    var t := NewTrack(s, file, 0);
    SmallWord(st.currentFad - 1);
    assert WithTrack(st, typ, file) == s.(tracks := CutAt(s.tracks, t.span.startFad) + [t]);
    hide SectorSize, WithTrack, U32, S32;
  }

  /** Single-density area with a data and an audio track, then the high-density area with a data track. */
  function GdRomSheet(data: FileInfo, audio: FileInfo, high: FileInfo): seq<Line> {
    [RemSingleDensity] + OneTrack(1, "MODE1/2352", data) + OneTrack(2, "AUDIO", audio)
    + [RemHighDensity] + OneTrack(3, "MODE1/2352", high)
  }

  function SecondSession(st: State): State {
    ClearFile(st.(session := 2, currentFad := U32(st.currentFad + 11400),
                  sessions := st.sessions + [Session(U32(st.currentFad + 11400), |st.tracks| % 256 + 1)]))
  }

  lemma RawSizes()
    ensures SectorSize("MODE1/2352") == 2352 && SectorSize("MODE2/2352") == 2352 && SectorSize("AUDIO") == 2352
  {
  }

  /** The state after the low-density area, and after the whole sheet. */
  lemma GdRomSheetRuns(data: FileInfo, audio: FileInfo, high: FileInfo)
    ensures SectorSize("MODE1/2352") > 0 && SectorSize("AUDIO") > 0
    ensures var low := WithTrack(WithTrack(INITIAL, "MODE1/2352", data), "AUDIO", audio);
      Run(INITIAL, GdRomSheet(data, audio, high))
      == Some(WithTrack(ClearFile(low.(currentFad := 45150, gdRom := true)), "MODE1/2352", high))
  {
    RawSizes();
    RunOne(INITIAL, RemSingleDensity);
    var s1 := WithTrack(INITIAL, "MODE1/2352", data);
    var s2 := WithTrack(s1, "AUDIO", audio);
    RunOne(s2, RemHighDensity);
    assert Step(INITIAL, RemSingleDensity) == Some(INITIAL);
    var s3 := ClearFile(s2.(currentFad := 45150, gdRom := true));
    assert Step(s2, RemHighDensity) == Some(s3);
    hide Run, WithTrack, OneTrack, SectorSize, Step, ClearFile;
    var a, b, c := OneTrack(1, "MODE1/2352", data), OneTrack(2, "AUDIO", audio), OneTrack(3, "MODE1/2352", high);
    OneTrackRuns(INITIAL, 1, "MODE1/2352", data);
    OneTrackRuns(s1, 2, "AUDIO", audio);
    OneTrackRuns(s3, 3, "MODE1/2352", high);
    RunConcat(INITIAL, [RemSingleDensity], a);
    RunConcat(INITIAL, [RemSingleDensity] + a, b);
    RunConcat(INITIAL, [RemSingleDensity] + a + b, [RemHighDensity]);
    RunConcat(INITIAL, [RemSingleDensity] + a + b + [RemHighDensity], c);
  }

  /** Such a sheet is accepted, for files of any size, and its tracks are where a GD-ROM has them. */
  lemma GdRomSheetIsAccepted(data: FileInfo, audio: FileInfo, high: FileInfo)
    requires 150 + data.size / 2352 + audio.size / 2352 < TWO_32 && 45150 + high.size / 2352 < TWO_32
    ensures var r := Parse(GdRomSheet(data, audio, high));
      && r.Some? && |r.value.tracks| == 3
      && r.value.tracks[0].span.startFad == 150
      && r.value.tracks[1].span.startFad == 150 + data.size / 2352
      && r.value.tracks[2].span == Span(45150, 45149 + high.size / 2352)
      && r.value.tracks[0].isData && !r.value.tracks[1].isData && r.value.tracks[2].isData
  {
    RawSizes();
    GdRomSheetRuns(data, audio, high);
    hide Run, WithTrack, SectorSize, GdRomSheet;
    var s1 := WithTrack(INITIAL, "MODE1/2352", data);
    var s2 := WithTrack(s1, "AUDIO", audio);
    TrackAdded(INITIAL, "MODE1/2352", data);
    TrackAdded(s1, "AUDIO", audio);
    TrackAdded(ClearFile(s2.(currentFad := 45150, gdRom := true)), "MODE1/2352", high);
  }

  /** An audio session and a data session. */
  function TwoSessionSheet(audio: FileInfo, data: FileInfo): seq<Line> {
    [RemSession(1)] + OneTrack(1, "AUDIO", audio) + [RemSession(2)] + OneTrack(2, "MODE2/2352", data)
  }

  lemma TwoSessionSheetRuns(audio: FileInfo, data: FileInfo)
    ensures SectorSize("MODE2/2352") > 0 && SectorSize("AUDIO") > 0
    ensures var first := WithTrack(INITIAL.(session := 1, sessions := [Session(150, 1)]), "AUDIO", audio);
      Run(INITIAL, TwoSessionSheet(audio, data))
      == Some(WithTrack(SecondSession(first), "MODE2/2352", data))
  {
    RawSizes();
    var s0 := INITIAL.(session := 1, sessions := [Session(150, 1)]);
    var s1 := WithTrack(s0, "AUDIO", audio);
    RunOne(INITIAL, RemSession(1));
    assert [] + [Session(150, 1)] == [Session(150, 1)];
    assert Step(INITIAL, RemSession(1)) == Some(s0);
    RunOne(s1, RemSession(2));
    assert s1.session == 1;
    assert Step(s1, RemSession(2)) == Some(SecondSession(s1));
    hide Run, WithTrack, OneTrack, SectorSize, Step, SecondSession;
    var a, b := OneTrack(1, "AUDIO", audio), OneTrack(2, "MODE2/2352", data);
    OneTrackRuns(s0, 1, "AUDIO", audio);
    OneTrackRuns(SecondSession(s1), 2, "MODE2/2352", data);
    RunConcat(INITIAL, [RemSession(1)], a);
    RunConcat(INITIAL, [RemSession(1)] + a, [RemSession(2)]);
    RunConcat(INITIAL, [RemSession(1)] + a + [RemSession(2)], b);
  }

  /** It is accepted, for files of any size; the second session and its track start behind the gap after the first. */
  lemma TwoSessionSheetIsAccepted(audio: FileInfo, data: FileInfo)
    requires 150 + audio.size / 2352 + 11400 + data.size / 2352 < TWO_32
    ensures var r, second := Parse(TwoSessionSheet(audio, data)), 150 + audio.size / 2352 + 11400;
      && r.Some? && |r.value.tracks| == 2
      && r.value.sessions == [Session(150, 1), Session(second, 2)]
      && r.value.tracks[0].span == Span(150, 149 + audio.size / 2352)
      && r.value.tracks[1].span == Span(second, second - 1 + data.size / 2352)
      && !r.value.tracks[0].isData && r.value.tracks[1].isData
  {
    RawSizes();
    TwoSessionSheetRuns(audio, data);
    var s0 := INITIAL.(session := 1, sessions := [Session(150, 1)]);
    var s1 := WithTrack(s0, "AUDIO", audio);
    TrackAdded(s0, "AUDIO", audio);
    TrackKeepsSessions(s0, "AUDIO", audio);
    SmallWord(s1.currentFad + 11400);
    var s2 := SecondSession(s1);
    assert [Session(150, 1)] + [Session(s2.currentFad, 2)] == [Session(150, 1), Session(s2.currentFad, 2)];
    TrackAdded(s2, "MODE2/2352", data);
    TrackKeepsSessions(s2, "MODE2/2352", data);
    hide Run, WithTrack, SectorSize, TwoSessionSheet;
  }

  lemma TrackKeepsSessions(st: State, typ: string, file: FileInfo)
    requires SectorSize(typ) > 0
    ensures WithTrack(st, typ, file).sessions == st.sessions
  {
    hide SectorSize;
  }
}
