/** CUE sheets: the state machine over their lines, and where each frame address is read from. */
module Cue {
  import opened Bytes
  import Cyclic
  import opened DiscTracks

  const HIGH_DENSITY_FAD: u32 := 45150

  datatype FileInfo = FileInfo(id: nat, size: nat)

  /** One line of a sheet. `BadFileLine` names a file that is not BINARY or cannot be opened. */
  datatype Line =
    | RemSession(session: u32)
    | RemHighDensity
    | RemSingleDensity
    | RemOther
    | FileLine(file: FileInfo)
    | BadFileLine
    | TrackLine(number: u32, typ: string)
    | IndexLine(index: u32, fad: int)
    | OtherLine

  function SectorSize(typ: string): nat {
    if typ == "AUDIO" || typ == "CDG" then 2352
    else if typ == "MODE1/2048" then 2048
    else if typ == "MODE1/2352" || typ == "MODE2/2352" || typ == "CDI/2352" then 2352
    else if typ == "MODE2/2336" || typ == "CDI/2336" then 2336
    else 0
  }

  /**
   A track: its addresses, and the raw file it is read from. `fileStart` is the address of the
   file's first sector.
   */
  datatype Track = Track(span: Span, isData: bool, file: FileInfo, offset: int, fmt: nat, fileStart: u32)

  datatype Session = Session(startFad: u32, firstTrack: nat)

  datatype State = State(currentFad: u32, session: u32, sessions: seq<Session>, gdRom: bool,
                         file: Option<FileInfo>, fileStart: u32, typ: string, sectorSize: nat, tracks: seq<Track>)

  const INITIAL: State := State(FIRST_FAD, 0, [], false, None, 0, "", 0, [])

  function ClearTrack(st: State): State {
    st.(typ := "", sectorSize := 0)
  }

  function ClearFile(st: State): State {
    ClearTrack(st).(file := None, fileStart := 0)
  }

  function NewTrack(st: State, file: FileInfo, fad: int): Track {
    var start := U32(st.fileStart + fad);
    Track(Span(start, U32(st.currentFad - 1)), st.typ != "AUDIO" && st.typ != "CDG", file,
          S32(fad * st.sectorSize - start * st.sectorSize), st.sectorSize, st.fileStart)
  }

  /** The previous track ends before the new one starts. */
  function CutAt(tracks: seq<Track>, start: u32): seq<Track> {
    if tracks == [] then tracks
    else
      var last := tracks[|tracks| - 1];
      tracks[|tracks| - 1 := last.(span := Span(last.span.startFad, Min(last.span.endFad, U32(start - 1))))]
  }

  /** The effect of a line; no state is left where the parser gives up. */
  function Step(st: State, line: Line): Option<State> {
    match line
    case RemSession(n) =>
      if n == 0 || n == st.session then Some(ClearFile(st))
      else
        var fad := if n == 2 then U32(st.currentFad + SESSION_GAP) else st.currentFad;
        Some(ClearFile(st.(session := n, currentFad := fad,
                           sessions := st.sessions + [Session(fad, |st.tracks| % 256 + 1)])))
    case RemHighDensity => Some(ClearFile(st.(currentFad := HIGH_DENSITY_FAD, gdRom := true)))
    case RemSingleDensity => Some(ClearFile(st))
    case RemOther => Some(st)
    case FileLine(file) => Some(ClearTrack(st).(file := Some(file), fileStart := st.currentFad))
    case BadFileLine => None
    case TrackLine(number, typ) =>
      if st.file.None? || number == 0 || number > 99 || SectorSize(typ) == 0 then None
      else
        var size := SectorSize(typ);
        Some(st.(typ := typ, sectorSize := size,
                 currentFad := if st.sectorSize == 0 then U32(st.currentFad + st.file.value.size / size)
                               else st.currentFad))
    case IndexLine(index, fad) =>
      if index == 0 then Some(st)
      else if index != 1 || st.file.None? then None
      else
        var t := NewTrack(st, st.file.value, fad);
        Some(st.(tracks := CutAt(st.tracks, t.span.startFad) + [t]))
    case OtherLine => Some(st)
  }

  function Run(st: State, lines: seq<Line>): Option<State>
    decreases |lines|
  {
    if lines == [] then Some(st)
    else match Step(st, lines[0])
      case None => None
      case Some(next) => Run(next, lines[1..])
  }

  /** The checks at the end of the sheet. */
  predicate Accepted(st: State) {
    && 1 <= |st.tracks| <= 99
    && (st.session == 0 && st.gdRom ==>
          && |st.tracks| >= 3 && st.tracks[0].isData && !st.tracks[1].isData && st.tracks[2].isData
          && st.tracks[2].span.startFad == HIGH_DENSITY_FAD)
  }

  function Parse(lines: seq<Line>): Option<State> {
    match Run(INITIAL, lines)
    case None => None
    case Some(st) => if Accepted(st) then Some(st) else None
  }

  /** The line loop of `cue_parse`. */
  method ParseSheet(lines: seq<Line>) returns (r: Option<State>)
    ensures r == Parse(lines)
  {
    hide Accepted, NewTrack, CutAt, SectorSize;
    var currentFad: u32, session: u32, sessions: seq<Session>, gdRom := FIRST_FAD, 0, [], false;
    var file: Option<FileInfo>, fileStart: u32, typ, sectorSize: nat, tracks: seq<Track> := None, 0, "", 0, [];
    assert lines[0..] == lines;
    for k := 0 to |lines|
      invariant Run(State(currentFad, session, sessions, gdRom, file, fileStart, typ, sectorSize, tracks), lines[k..])
             == Run(INITIAL, lines)
    {
      ghost var st := State(currentFad, session, sessions, gdRom, file, fileStart, typ, sectorSize, tracks);
      assert lines[k..][0] == lines[k] && lines[k..][1..] == lines[k + 1..];
      ghost var rest := Run(st, lines[k..]);
      match lines[k] {
        case RemSession(n) =>
          if n != 0 && n != session {
            session := n;
            if session == 2 {
              currentFad := U32(currentFad + SESSION_GAP);
            }
            sessions := sessions + [Session(currentFad, |tracks| % 256 + 1)];
          }
          file, fileStart, typ, sectorSize := None, 0, "", 0;
        case RemHighDensity =>
          currentFad, gdRom := HIGH_DENSITY_FAD, true;
          file, fileStart, typ, sectorSize := None, 0, "", 0;
        case RemSingleDensity =>
          file, fileStart, typ, sectorSize := None, 0, "", 0;
        case RemOther =>
        case FileLine(f) =>
          file, fileStart, typ, sectorSize := Some(f), currentFad, "", 0;
        case BadFileLine =>
          return None;
        case TrackLine(number, t) =>
          if file.None? || number == 0 || number > 99 || SectorSize(t) == 0 {
            return None;
          }
          var firstOfFile := sectorSize == 0;
          typ, sectorSize := t, SectorSize(t);
          if firstOfFile {
            currentFad := U32(currentFad + file.value.size / sectorSize);
          }
        case IndexLine(index, fad) =>
          if index != 0 {
            if index != 1 || file.None? {
              return None;
            }
            var t := NewTrack(State(currentFad, session, sessions, gdRom, file, fileStart, typ, sectorSize, tracks),
                              file.value, fad);
            tracks := CutAt(tracks, t.span.startFad) + [t];
          }
        case OtherLine =>
      }
      assert Step(st, lines[k])
          == Some(State(currentFad, session, sessions, gdRom, file, fileStart, typ, sectorSize, tracks));
    }
    var st := State(currentFad, session, sessions, gdRom, file, fileStart, typ, sectorSize, tracks);
    assert lines[|lines|..] == [];
    return if Accepted(st) then Some(st) else None;
  }

  // ---------------------------------------------------------------- sheets that make sense

  /** One sector size per file, INDEX 01 positions that increase inside the file, areas that fit where they are put. */
  ghost predicate Behaved(st: State, line: Line) {
    match line
    case RemSession(_) => st.currentFad + SESSION_GAP < TWO_32
    case RemHighDensity => st.currentFad <= HIGH_DENSITY_FAD
    case FileLine(file) => file.size < TWO_32
    case TrackLine(_, typ) =>
      st.file.Some? && SectorSize(typ) > 0 ==>
        if st.sectorSize > 0 then SectorSize(typ) == st.sectorSize
        else st.currentFad + st.file.value.size / SectorSize(typ) < TWO_32
    case IndexLine(index, fad) =>
      index == 1 && st.file.Some? ==>
        && st.sectorSize > 0 && 0 <= fad < st.file.value.size / st.sectorSize
        && (st.tracks != [] ==> st.tracks[|st.tracks| - 1].span.startFad < st.fileStart + fad)
    case _ => true
  }

  ghost predicate BehavedRun(st: State, lines: seq<Line>)
    decreases |lines|
  {
    lines != [] ==>
      Behaved(st, lines[0]) && (Step(st, lines[0]).Some? ==> BehavedRun(Step(st, lines[0]).value, lines[1..]))
  }

  // ---------------------------------------------------------------- what every line keeps

  function Spans(tracks: seq<Track>): seq<Span> {
    seq(|tracks|, i requires 0 <= i < |tracks| => tracks[i].span)
  }

  /** The track starts in its file, ends in it, and its offset takes the file's first address to byte zero. */
  ghost predicate Addressed(t: Track) {
    && t.fmt > 0 && t.file.size < TWO_32 && t.fileStart <= t.span.startFad
    && t.offset == S32(-(t.fileStart * t.fmt))
    && t.span.endFad < t.fileStart + t.file.size / t.fmt
  }

  /** Audio tracks have audio sectors, whatever else shares their file. */
  ghost predicate TrackInv(t: Track, currentFad: u32) {
    && FIRST_FAD <= t.span.startFad <= t.span.endFad < currentFad && Addressed(t)
    && (!t.isData ==> t.fmt == 2352)
  }

  ghost predicate TracksInv(tracks: seq<Track>, currentFad: u32) {
    && (forall i :: 0 <= i < |tracks| ==> TrackInv(tracks[i], currentFad))
    && (forall i, j :: 0 <= i < j < |tracks| ==> tracks[i].span.endFad < tracks[j].span.startFad)
  }

  /** The tracks of a session start after it, those of earlier sessions end before it. */
  ghost predicate SessionInv(s: Session, tracks: seq<Track>, currentFad: u32) {
    && 1 <= s.firstTrack <= |tracks| + 1 && s.startFad <= currentFad
    && (forall i :: 0 <= i < s.firstTrack - 1 ==> tracks[i].span.endFad < s.startFad)
    && (forall i :: s.firstTrack - 1 <= i < |tracks| ==> s.startFad <= tracks[i].span.startFad)
  }

  ghost predicate SessionsInv(sessions: seq<Session>, tracks: seq<Track>, currentFad: u32) {
    |tracks| < 256 ==> forall k :: 0 <= k < |sessions| ==> SessionInv(sessions[k], tracks, currentFad)
  }

  ghost predicate FileInv(st: State) {
    && (st.sectorSize == 0 || st.sectorSize == SectorSize(st.typ))
    && (st.file.Some? ==>
          && FIRST_FAD <= st.fileStart && st.file.value.size < TWO_32
          && st.currentFad
            == (if st.sectorSize == 0 then st.fileStart else st.fileStart + st.file.value.size / st.sectorSize))
    && forall k :: 0 <= k < |st.sessions| && st.file.Some? && |st.tracks| < 256 ==>
      st.sessions[k].startFad <= st.fileStart
  }

  ghost predicate Inv(st: State) {
    && FIRST_FAD <= st.currentFad
    && TracksInv(st.tracks, st.currentFad)
    && SessionsInv(st.sessions, st.tracks, st.currentFad)
    && FileInv(st)
  }

  lemma {:induction false} LaterFad(st: State, fad: u32)
    requires TracksInv(st.tracks, st.currentFad) && SessionsInv(st.sessions, st.tracks, st.currentFad)
    requires st.currentFad <= fad
    ensures TracksInv(st.tracks, fad) && SessionsInv(st.sessions, st.tracks, fad)
  {
    hide Addressed;
  }

  lemma NewSession(st: State, fad: u32)
    requires TracksInv(st.tracks, st.currentFad) && SessionsInv(st.sessions, st.tracks, st.currentFad)
    requires st.currentFad <= fad
    ensures SessionsInv(st.sessions + [Session(fad, |st.tracks| % 256 + 1)], st.tracks, fad)
  {
    hide Addressed;
    if |st.tracks| < 256 {
      assert SessionInv(Session(fad, |st.tracks| % 256 + 1), st.tracks, fad);
      LaterFad(st, fad);
    }
  }

  lemma OffsetOf(fad: int, fileStart: int, n: int)
    ensures fad * n - (fileStart + fad) * n == -(fileStart * n)
  {
  }

  lemma NewTrackFields(st: State, file: FileInfo, fad: int)
    requires 0 <= fad && st.fileStart + fad < TWO_32 && 1 <= st.currentFad
    ensures var t := NewTrack(st, file, fad);
      && t.span == Span(st.fileStart + fad, st.currentFad - 1)
      && t.file == file && t.fmt == st.sectorSize && t.fileStart == st.fileStart
      && t.offset == S32(-(t.fileStart * t.fmt))
      && (!t.isData ==> SectorSize(st.typ) == 2352)
  {
    hide S32;
    OffsetOf(fad, st.fileStart, st.sectorSize);
  }

  /** A new track is addressed through the start of its file. */
  lemma NewTrackInv(st: State, fad: int)
    requires Inv(st) && Behaved(st, IndexLine(1, fad)) && st.file.Some?
    ensures var t := NewTrack(st, st.file.value, fad);
      TrackInv(t, st.currentFad) && t.span.startFad == st.fileStart + fad
  {
    hide TracksInv, SessionsInv, S32, NewTrack;
    NewTrackFields(st, st.file.value, fad);
  }

  /** Cutting the last track before a later start keeps what is known of it. */
  lemma CutKeeps(tracks: seq<Track>, currentFad: u32, start: u32)
    requires TracksInv(tracks, currentFad) && FIRST_FAD <= start
    requires tracks != [] ==> tracks[|tracks| - 1].span.startFad < start
    ensures TracksInv(CutAt(tracks, start), currentFad) && |CutAt(tracks, start)| == |tracks|
    ensures forall i :: 0 <= i < |tracks| ==>
      && CutAt(tracks, start)[i].span.startFad == tracks[i].span.startFad
      && CutAt(tracks, start)[i].span.endFad <= tracks[i].span.endFad
      && CutAt(tracks, start)[i].span.endFad < start
  {
    hide S32;
    if tracks != [] {
      var n := |tracks| - 1;
      assert U32(start - 1) == start - 1;
      assert TrackInv(tracks[n], currentFad);
      assert TrackInv(CutAt(tracks, start)[n], currentFad);
    }
  }

  lemma AppendTrack(tracks: seq<Track>, t: Track, currentFad: u32)
    requires TracksInv(tracks, currentFad) && TrackInv(t, currentFad)
    requires forall i :: 0 <= i < |tracks| ==> tracks[i].span.endFad < t.span.startFad
    ensures TracksInv(tracks + [t], currentFad)
  {
    hide TrackInv;
  }

  lemma IndexKeepsSessions(st: State, cut: seq<Track>, t: Track)
    requires SessionsInv(st.sessions, st.tracks, st.currentFad) && FileInv(st) && st.file.Some?
    requires |cut| == |st.tracks| && st.fileStart <= t.span.startFad
    requires forall i :: 0 <= i < |cut| ==>
      cut[i].span.startFad == st.tracks[i].span.startFad && cut[i].span.endFad <= st.tracks[i].span.endFad
    ensures SessionsInv(st.sessions, cut + [t], st.currentFad)
  {
    if |cut| + 1 < 256 {
      forall k | 0 <= k < |st.sessions|
        ensures SessionInv(st.sessions[k], cut + [t], st.currentFad)
      {
        assert SessionInv(st.sessions[k], st.tracks, st.currentFad);
      }
    }
  }

  lemma IndexKeepsInv(st: State, fad: int)
    requires Inv(st) && Behaved(st, IndexLine(1, fad)) && st.file.Some?
    ensures Inv(Step(st, IndexLine(1, fad)).value)
  {
    hide TracksInv, SessionsInv, TrackInv, NewTrack, CutAt;
    var t := NewTrack(st, st.file.value, fad);
    NewTrackInv(st, fad);
    var cut := CutAt(st.tracks, t.span.startFad);
    CutKeeps(st.tracks, st.currentFad, t.span.startFad);
    AppendTrack(cut, t, st.currentFad);
    IndexKeepsSessions(st, cut, t);
  }

  lemma SessionKeepsInv(st: State, n: u32)
    requires Inv(st) && Behaved(st, RemSession(n))
    ensures Inv(Step(st, RemSession(n)).value)
  {
    hide TracksInv, SessionsInv;
    if n != 0 && n != st.session {
      var fad := if n == 2 then U32(st.currentFad + SESSION_GAP) else st.currentFad;
      LaterFad(st, fad);
      NewSession(st, fad);
    }
  }

  lemma FileKeepsInv(st: State, file: FileInfo)
    requires Inv(st) && file.size < TWO_32
    ensures Inv(Step(st, FileLine(file)).value)
  {
    hide TracksInv;
    forall k | 0 <= k < |st.sessions| && |st.tracks| < 256
      ensures st.sessions[k].startFad <= st.currentFad
    {
      assert SessionInv(st.sessions[k], st.tracks, st.currentFad);
    }
  }

  lemma TrackKeepsInv(st: State, line: Line)
    requires Inv(st) && line.TrackLine? && Behaved(st, line) && Step(st, line).Some?
    ensures Inv(Step(st, line).value)
  {
    hide TracksInv, SessionsInv, SectorSize, U32;
    var file, n := st.file.value, SectorSize(line.typ);
    TrackOfFile(st, line.number, line.typ, file);
    hide Step;
    LaterFad(st, if st.sectorSize == 0 then st.currentFad + file.size / n else st.currentFad);
  }

  lemma StepKeepsInv(st: State, line: Line)
    requires Inv(st) && Behaved(st, line) && Step(st, line).Some?
    ensures Inv(Step(st, line).value)
  {
    hide TracksInv, SessionsInv, SectorSize;
    match line {
      case RemSession(n) =>
        SessionKeepsInv(st, n);
      case RemHighDensity =>
        LaterFad(st, HIGH_DENSITY_FAD);
      case FileLine(file) =>
        FileKeepsInv(st, file);
      case TrackLine(_, _) =>
        TrackKeepsInv(st, line);
      case IndexLine(index, fad) =>
        if index == 1 {
          IndexKeepsInv(st, fad);
        }
      case _ =>
    }
  }

  lemma {:induction false} RunKeepsInv(st: State, lines: seq<Line>)
    requires Inv(st) && BehavedRun(st, lines) && Run(st, lines).Some?
    ensures Inv(Run(st, lines).value)
    decreases |lines|
  {
    hide Inv, Step, Behaved;
    if lines == [] {
    } else {
      StepKeepsInv(st, lines[0]);
      RunKeepsInv(Step(st, lines[0]).value, lines[1..]);
    }
  }

  // ---------------------------------------------------------------- what a parsed sheet means

  /** `RawTrackFile::Read`: where in its file a track reads an address, in 32-bit arithmetic. */
  function Position(t: Track, fad: u32): u32 {
    U32(t.offset + fad * t.fmt)
  }

  lemma SectorInFile(k: nat, n: nat, size: nat)
    requires n > 0 && k < size / n
    ensures k * n + n <= size
  {
    var sectors := size / n;
    Cyclic.MulMono(k + 1, sectors, n);
    Cyclic.MulStep(k, n);
    assert sectors * n <= size;
  }

  lemma PositionInFile(t: Track, fad: u32)
    requires Addressed(t) && t.span.startFad <= fad <= t.span.endFad
    ensures Position(t, fad) == (fad - t.fileStart) * t.fmt
    ensures Position(t, fad) + t.fmt <= t.file.size
  {
    hide S32;
    var n, k := t.fmt, fad - t.fileStart;
    SignedOffset(-(t.fileStart * n), fad * n);
    assert -(t.fileStart * n) + fad * n == k * n;
    SectorInFile(k, n, t.file.size);
    assert 0 <= k * n < TWO_32;
  }

  /** Every accepted sheet that makes sense: tracks in order and apart, each address read from its place in the file. */
  lemma ParsedSheet(lines: seq<Line>)
    requires BehavedRun(INITIAL, lines) && Parse(lines).Some?
    ensures var tracks := Parse(lines).value.tracks;
      && Ordered(Spans(tracks))
      && (forall i :: 0 <= i < |tracks| ==>
            && FIRST_FAD <= tracks[i].span.startFad <= tracks[i].span.endFad
            && (!tracks[i].isData ==> tracks[i].fmt == 2352))
      && (forall i, fad: u32 :: 0 <= i < |tracks| && Covers(tracks[i].span, fad) ==>
            && Position(tracks[i], fad) == (fad - tracks[i].fileStart) * tracks[i].fmt
            && Position(tracks[i], fad) + tracks[i].fmt <= tracks[i].file.size)
  {
    hide Run, BehavedRun, Accepted, Position, Addressed;
    RunKeepsInv(INITIAL, lines);
    var st := Parse(lines).value;
    forall i, fad: u32 | 0 <= i < |st.tracks| && Covers(st.tracks[i].span, fad)
      ensures Position(st.tracks[i], fad) == (fad - st.tracks[i].fileStart) * st.tracks[i].fmt
      ensures Position(st.tracks[i], fad) + st.tracks[i].fmt <= st.tracks[i].file.size
    {
      assert TrackInv(st.tracks[i], st.currentFad);
      PositionInFile(st.tracks[i], fad);
    }
    assert forall i :: 0 <= i < |st.tracks| ==> TrackInv(st.tracks[i], st.currentFad);
  }

  /** Sessions and tracks interleave in order. */
  lemma ParsedSessions(lines: seq<Line>, k: nat, i: nat)
    requires BehavedRun(INITIAL, lines) && Parse(lines).Some?
    requires k < |Parse(lines).value.sessions| && i < |Parse(lines).value.tracks|
    ensures var s, t := Parse(lines).value.sessions[k], Parse(lines).value.tracks[i];
      if i < s.firstTrack - 1 then t.span.endFad < s.startFad else s.startFad <= t.span.startFad
  {
    hide Run, BehavedRun;
    RunKeepsInv(INITIAL, lines);
    var st := Parse(lines).value;
    assert SessionInv(st.sessions[k], st.tracks, st.currentFad);
  }

  // ---------------------------------------------------------------- two sector sizes in one file

  /** One file with two tracks, the second one starting `k` sectors into it. */
  function SharedFile(file: FileInfo, typ: string, typ': string, k: nat): seq<Line> {
    [FileLine(file), TrackLine(1, typ), IndexLine(1, 0), TrackLine(2, typ'), IndexLine(1, k)]
  }

  lemma SectorSizes(typ: string)
    ensures SectorSize(typ) in {0, 2048, 2336, 2352}
  {
  }

  lemma Quotient(size: nat, n: nat)
    requires n > 0
    ensures size / n * n <= size < (size / n + 1) * n
  {
    Cyclic.MulStep(size / n, n);
  }

  /** Sector sizes differ by less than a sixth: bounds that keep positions within two turns of 2^32. */
  lemma Bounds(size: nat, n: nat, n': nat, k: nat)
    requires n in {2048, 2336, 2352} && n' in {2048, 2336, 2352} && size < TWO_32 && k < size / n
    ensures size / n <= 0x1F_FFFF && size / n * n <= size && k * n < size
    ensures k * n' < TWO_32 + TWO_32
  {
    Quotient(size, n);
    SectorInFile(k, n, size);
    assert size / n * 2048 <= size / n * n by { assert 0 <= size / n * (n - 2048); }
    assert k * n' <= k * 2352 by { assert 0 <= k * (2352 - n'); }
  }

  lemma TrackOfFile(st: State, number: u32, typ: string, file: FileInfo)
    requires st.file == Some(file) && 1 <= number <= 99 && SectorSize(typ) > 0
    requires st.sectorSize == 0 ==> st.currentFad + file.size / SectorSize(typ) < TWO_32
    ensures Step(st, TrackLine(number, typ))
         == Some(st.(typ := typ, sectorSize := SectorSize(typ),
                     currentFad := if st.sectorSize == 0 then st.currentFad + file.size / SectorSize(typ)
                                   else st.currentFad))
  {
    hide SectorSize, U32;
    SmallWord(st.currentFad + file.size / SectorSize(typ));
  }

  lemma IndexOfFile(st: State, k: nat, file: FileInfo)
    requires st.file == Some(file)
    ensures var t := NewTrack(st, file, k);
      Step(st, IndexLine(1, k)) == Some(st.(tracks := CutAt(st.tracks, t.span.startFad) + [t]))
  {
    hide NewTrack, CutAt;
  }

  lemma SecondTrack(file: FileInfo, typ: string, typ': string, k: nat)
    requires SectorSize(typ) > 0 && SectorSize(typ') > 0 && file.size < TWO_32
    requires 0 < k < file.size / SectorSize(typ)
    ensures var r := Run(INITIAL, SharedFile(file, typ, typ', k));
      && r.Some? && |r.value.tracks| == 2
      && var t, n := r.value.tracks[1], SectorSize(typ');
      && t.span == Span(FIRST_FAD + k, FIRST_FAD - 1 + file.size / SectorSize(typ))
      && t.file == file && t.fmt == n && t.fileStart == FIRST_FAD && t.offset == S32(-(FIRST_FAD * n))
  {
    SectorSizes(typ);
    SectorSizes(typ');
    Bounds(file.size, SectorSize(typ), SectorSize(typ'), k);
    hide SectorSize, NewTrack, CutAt, S32;
    var lines, n, n' := SharedFile(file, typ, typ', k), SectorSize(typ), SectorSize(typ');
    var s1 := INITIAL.(file := Some(file), fileStart := FIRST_FAD);
    var s2 := s1.(typ := typ, sectorSize := n, currentFad := FIRST_FAD + file.size / n);
    var a := NewTrack(s2, file, 0);
    var s3 := s2.(tracks := CutAt([], a.span.startFad) + [a]);
    var s4 := s3.(typ := typ', sectorSize := n');
    var b := NewTrack(s4, file, k);
    var s5 := s4.(tracks := CutAt(s3.tracks, b.span.startFad) + [b]);
    assert Step(INITIAL, lines[0]) == Some(s1);
    TrackOfFile(s1, 1, typ, file);
    TrackOfFile(s3, 2, typ', file);
    IndexOfFile(s2, 0, file);
    IndexOfFile(s4, k, file);
    hide Run, Step;
    RunFive(INITIAL, lines, s1, s2, s3, s4, s5);
    NewTrackFields(s4, file, k);
    CutLength([], a.span.startFad);
    CutLength(s3.tracks, b.span.startFad);
  }

  lemma CutLength(tracks: seq<Track>, start: u32)
    ensures |CutAt(tracks, start)| == |tracks|
  {
  }

  /** Where the second track reads an address: sector by sector of its own size from the start of the file. */
  lemma SharedPosition(t: Track, j: nat)
    requires t.fileStart == FIRST_FAD && t.offset == S32(-(FIRST_FAD * t.fmt)) && FIRST_FAD + j < TWO_32
    ensures Position(t, FIRST_FAD + j) == U32(j * t.fmt)
  {
    hide S32;
    SignedOffset(-(FIRST_FAD * t.fmt), (FIRST_FAD + j) * t.fmt);
    assert -(FIRST_FAD * t.fmt) + (FIRST_FAD + j) * t.fmt == j * t.fmt;
  }

  /** Sectors `k` to `count` of size `n`, placed modulo 2^32, all end in a file of `size` bytes. */
  ghost predicate AllInside(k: nat, count: nat, n: nat, size: nat) {
    forall j: nat :: k <= j < count ==> U32(j * n) + n <= size
  }

  lemma FitsInside(k: nat, count: nat, n: nat, size: nat)
    requires count * n <= size < TWO_32
    ensures AllInside(k, count, n, size)
  {
    forall j: nat | k <= j < count
      ensures U32(j * n) + n <= size
    {
      Cyclic.MulMono(j + 1, count, n);
      Cyclic.MulStep(j, n);
    }
  }

  /** Behind 2^32 the positions start again at the front of the file. */
  lemma WrappedInside(k: nat, count: nat, n: nat, size: nat)
    requires TWO_32 <= k * n && count * n <= TWO_32 + size && size < TWO_32
    ensures AllInside(k, count, n, size)
  {
    forall j: nat | k <= j < count
      ensures U32(j * n) + n <= size
    {
      Cyclic.MulMono(k, j, n);
      Cyclic.MulMono(j + 1, count, n);
      Cyclic.MulStep(j, n);
    }
  }

  /** The sector that crosses the end of the file. */
  lemma CrossingSector(k: nat, count: nat, n: nat, size: nat)
    requires n > 0 && k < count && size < count * n && k * n < TWO_32 && size < TWO_32
    ensures !AllInside(k, count, n, size)
  {
    var m := Min(count - 1, (TWO_32 - 1) / n);
    Quotient(TWO_32 - 1, n);
    if m < k {
      Cyclic.MulMono((TWO_32 - 1) / n + 1, k, n);
    }
    if m == count - 1 {
      Cyclic.MulStep(m, n);
      Cyclic.MulMono(m, (TWO_32 - 1) / n, n);
    } else {
      Cyclic.MulStep(m, n);
    }
    assert 0 <= m * n < TWO_32 && size < m * n + n;
    assert U32(m * n) + n > size;
  }

  lemma InsideExactly(k: nat, n: nat, n': nat, size: nat)
    requires n in {2048, 2336, 2352} && n' in {2048, 2336, 2352} && size < TWO_32 && k < size / n
    ensures AllInside(k, size / n, n', size) <==> size / n * n' <= size || TWO_32 <= k * n'
  {
    var count := size / n;
    Bounds(size, n, n', k);
    hide AllInside;
    if count * n' <= size {
      FitsInside(k, count, n', size);
    } else if TWO_32 <= k * n' {
      assert count * n' <= count * n + count * 304 by { assert 0 <= count * (n + 304 - n'); }
      WrappedInside(k, count, n', size);
    } else {
      CrossingSector(k, count, n', size);
    }
  }

  lemma SamePlace(k: nat, n: nat, n': nat, size: nat)
    requires n in {2048, 2336, 2352} && n' in {2048, 2336, 2352} && size < TWO_32 && 0 < k < size / n
    ensures U32(k * n') == k * n <==> n == n'
  {
    Bounds(size, n, n', k);
    if n != n' {
      var d := n' - n;
      assert k * n' - k * n == k * d;
      assert -0x1F_FFFF * 304 <= k * d <= 0x1F_FFFF * 304 && k * d != 0;
    }
  }

  /**
   Two sector sizes in one file, for every size, pair of track types and start of the second track.
   The parser counts the whole file in sectors of the first track. All addresses of the second
   track lie in the file exactly when its own sectors fit as often, or when its positions lie
   behind 2^32 and start again at the front of the file; its first address is read from where the
   first track ends exactly when the sector sizes agree.
   */
  lemma MixedSectorSizes(file: FileInfo, typ: string, typ': string, k: nat)
    requires SectorSize(typ) > 0 && SectorSize(typ') > 0 && file.size < TWO_32
    requires 0 < k < file.size / SectorSize(typ)
    ensures var r, n, n' := Run(INITIAL, SharedFile(file, typ, typ', k)), SectorSize(typ), SectorSize(typ');
      && r.Some? && |r.value.tracks| == 2
      && var t := r.value.tracks[1];
      && t.span == Span(FIRST_FAD + k, FIRST_FAD - 1 + file.size / n)
      && ((forall fad: u32 :: Covers(t.span, fad) ==> Position(t, fad) + n' <= file.size)
          <==> file.size / n * n' <= file.size || TWO_32 <= k * n')
      && (Position(t, t.span.startFad) == k * n <==> n == n')
  {
    SectorSizes(typ);
    SectorSizes(typ');
    var n, n', count := SectorSize(typ), SectorSize(typ'), file.size / SectorSize(typ);
    Bounds(file.size, n, n', k);
    SecondTrack(file, typ, typ', k);
    hide Run, SectorSize, Position, S32, U32;
    var t := Run(INITIAL, SharedFile(file, typ, typ', k)).value.tracks[1];
    InsideExactly(k, n, n', file.size);
    SamePlace(k, n, n', file.size);
    SharedPosition(t, k);
    PositionsInside(t, k, count, file.size);
  }

  lemma PositionsInside(t: Track, k: nat, count: nat, size: nat)
    requires t.fileStart == FIRST_FAD && t.offset == S32(-(FIRST_FAD * t.fmt))
    requires k < count && FIRST_FAD + count < TWO_32
    requires t.span == Span(FIRST_FAD + k, FIRST_FAD - 1 + count)
    ensures (forall fad: u32 :: Covers(t.span, fad) ==> Position(t, fad) + t.fmt <= size)
       <==> AllInside(k, count, t.fmt, size)
  {
    hide Position, S32, U32;
    forall fad: u32 | Covers(t.span, fad)
      ensures Position(t, fad) == U32((fad - FIRST_FAD) * t.fmt)
    {
      SharedPosition(t, fad - FIRST_FAD);
    }
    if forall fad: u32 :: Covers(t.span, fad) ==> Position(t, fad) + t.fmt <= size {
      forall j: nat | k <= j < count
        ensures U32(j * t.fmt) + t.fmt <= size
      {
        assert Covers(t.span, FIRST_FAD + j);
        SharedPosition(t, j);
      }
    }
  }

  /**
   Ten 2048-byte sectors and ten audio sectors in one file: the last address of track 2 lies past
   the end of the file.
   */
  lemma MixedSheet()
    ensures var file := FileInfo(0, 44000);
      var r := Run(INITIAL, SharedFile(file, "MODE1/2048", "AUDIO", 10));
      && r.Some? && |r.value.tracks| == 2 && r.value.tracks[1].span == Span(160, 170)
      && Position(r.value.tracks[1], 170) + 2352 > file.size
  {
    var file := FileInfo(0, 44000);
    SecondTrack(file, "MODE1/2048", "AUDIO", 10);
    SharedPosition(Run(INITIAL, SharedFile(file, "MODE1/2048", "AUDIO", 10)).value.tracks[1], 20);
  }

  lemma RunFive(s0: State, lines: seq<Line>, s1: State, s2: State, s3: State, s4: State, s5: State)
    requires |lines| == 5
    requires Step(s0, lines[0]) == Some(s1) && Step(s1, lines[1]) == Some(s2) && Step(s2, lines[2]) == Some(s3)
    requires Step(s3, lines[3]) == Some(s4) && Step(s4, lines[4]) == Some(s5)
    ensures Run(s0, lines) == Some(s5)
  {
    hide Step;
    assert lines[5..] == [];
    assert Run(s4, lines[4..]) == Run(s5, lines[5..]) by { assert lines[4..][1..] == lines[5..]; }
    assert Run(s3, lines[3..]) == Run(s4, lines[4..]) by { assert lines[3..][1..] == lines[4..]; }
    assert Run(s2, lines[2..]) == Run(s3, lines[3..]) by { assert lines[2..][1..] == lines[3..]; }
    assert Run(s1, lines[1..]) == Run(s2, lines[2..]) by { assert lines[1..][1..] == lines[2..]; }
  }
}
