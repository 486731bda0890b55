/**
 The Xbox audio pipeline around the byte queue: `push()` on the emulator thread, the feeder
 thread, the looping hardware ring it refills, and the auto-reset event that wakes `push()`.

 The queue is atomic; `AudioRefinement` proves that the pipeline over the fine-grained queue has no
 other runs. A reader may have looked at the write cursor before the latest block was published, so
 a chunk step names the occupancy `seen` it acted on.
 */
module AudioPipeline {
  import opened Bytes

  const RING_BYTES: int := 8192      // the looping hardware buffer
  const FIFO_BYTES: int := 8192      // capacity of the queue; one byte is never used
  const FEED_CHUNK: int := 2048
  const MAX_TIMEOUTS: int := 5

  /** One Lock()ed slice: bytes taken from the queue, then silence. `locked` tells whether Lock succeeded. */
  datatype Slice = Slice(audio: seq<byte>, silence: nat, locked: bool)

  datatype Producer =
    | Idle
    | Trying(block: seq<byte>, wait: bool, timeouts: nat)
    | Waiting(block: seq<byte>, timeouts: nat)

  datatype State = State(
    queue: seq<byte>,
    ring: seq<byte>, writePos: nat,
    inPass: bool, avail: nat, drained: bool,
    event: bool,
    producer: Producer,
    accepted: seq<byte>,   // every byte push() has queued
    log: seq<Slice>)       // every slice the feeder has fetched

  datatype Step =
    | PushCall(block: seq<byte>, wait: bool)
    | PushTries
    | PushWakes
    | PushTimesOut
    | PassStarts(play: nat)
    | Chunk(seen: nat, lockOk: bool)
    | PassEnds

  function Align(n: nat): nat {
    n - n % FRAME_BYTES
  }

  function Silence(n: nat): seq<byte> {
    seq(n, _ => 0)
  }

  /** Bytes the hardware has played past the write cursor. */
  function Played(play: nat, writePos: nat): int {
    if play >= writePos then play - writePos else RING_BYTES - writePos + play
  }

  /** The memory a Lock of `|data|` bytes at `at` exposes, overwritten with `data`. */
  function Overlay(ring: seq<byte>, at: nat, data: seq<byte>): seq<byte>
    requires |ring| == RING_BYTES && at < RING_BYTES && |data| <= RING_BYTES
  {
    var s1 := Min(|data|, RING_BYTES - at);
    seq(RING_BYTES, i requires 0 <= i < RING_BYTES =>
      if at <= i < at + s1 then data[i - at]
      else if i < |data| - s1 then data[s1 + i]
      else ring[i])
  }

  function Start(): State {
    State([], Silence(RING_BYTES), 0, false, 0, false, false, Idle, [], [])
  }

  predicate Shape(s: State) {
    && |s.ring| == RING_BYTES
    && s.writePos < RING_BYTES
    && |s.queue| < FIFO_BYTES
    && s.avail < RING_BYTES
  }

  predicate Fits(s: State, block: seq<byte>) {
    |block| <= FIFO_BYTES - 1 - |s.queue|
  }

  predicate Enabled(s: State, step: Step) {
    match step
    case PushCall(block, _) => s.producer.Idle? && |block| % FRAME_BYTES == 0
    case PushTries => s.producer.Trying?
    case PushWakes => s.producer.Waiting? && s.event
    case PushTimesOut => s.producer.Waiting? && !s.event
    case PassStarts(play) => !s.inPass && play < RING_BYTES
    case Chunk(seen, _) => s.inPass && s.avail > 0 && seen <= |s.queue|
    case PassEnds => s.inPass && s.avail == 0
  }

  /** The slice one pass of the inner loop fetches. */
  function Fetched(s: State, seen: nat, lockOk: bool): Slice
    requires seen <= |s.queue|
  {
    var chunk := Min(s.avail, FEED_CHUNK);
    var got := Align(Min(chunk, seen));
    Slice(s.queue[..got], chunk - got, lockOk)
  }

  function Sound(x: Slice): seq<byte> {
    x.audio + Silence(x.silence)
  }

  /** fifo.write() has queued the block, or has refused it. */
  function Accepted(s: State): State
    requires s.producer.Trying?
  {
    s.(accepted := s.accepted + s.producer.block, producer := Idle)
  }

  function Refused(s: State): State
    requires s.producer.Trying?
  {
    if s.producer.wait then s.(producer := Waiting(s.producer.block, s.producer.timeouts)) else s.(producer := Idle)
  }

  /** What the feeder does with a slice it has fetched: Lock, copy and advance, or give up. */
  function Fed(s: State, x: Slice): State
    requires Shape(s) && |Sound(x)| <= s.avail
  {
    var t := s.(drained := s.drained || |x.audio| > 0, log := s.log + [x]);
    if x.locked then
      t.(ring := Overlay(s.ring, s.writePos, Sound(x)),
         writePos := (s.writePos + |Sound(x)|) % RING_BYTES,
         avail := s.avail - |Sound(x)|)
    else t.(avail := 0)
  }

  function Take(s: State, step: Step): State
    requires Shape(s) && Enabled(s, step)
  {
    match step
    case PushCall(block, wait) => s.(producer := Trying(block, wait, 0))
    case PushTries =>
      if Fits(s, s.producer.block) then Accepted(s.(queue := s.queue + s.producer.block)) else Refused(s)
    case PushWakes => s.(event := false, producer := Trying(s.producer.block, true, 0))
    case PushTimesOut =>
      if s.producer.timeouts + 1 >= MAX_TIMEOUTS then s.(producer := Idle)
      else s.(producer := Trying(s.producer.block, true, s.producer.timeouts + 1))
    case PassStarts(play) =>
      s.(inPass := true, avail := Align(Played(play, s.writePos)), drained := false)
    case Chunk(seen, lockOk) =>
      var x := Fetched(s, seen, lockOk);
      Fed(s.(queue := s.queue[|x.audio|..]), x)
    case PassEnds => s.(inPass := false, event := s.event || s.drained, drained := false)
  }

  ghost predicate Run(s: State, steps: seq<Step>, s': State)
    decreases |steps|
  {
    if steps == [] then s' == s
    else Shape(s) && Enabled(s, steps[0]) && Run(Take(s, steps[0]), steps[1..], s')
  }

  // ---------------------------------------------------------------- what the hardware hears

  /** Bytes fetched from the queue, in order. */
  function AudioOf(log: seq<Slice>): seq<byte> {
    if log == [] then [] else AudioOf(log[..|log| - 1]) + log[|log| - 1].audio
  }

  /** Bytes that reached the ring, in order. */
  function Rendered(log: seq<Slice>): seq<byte> {
    if log == [] then []
    else
      var x := log[|log| - 1];
      Rendered(log[..|log| - 1]) + (if x.locked then Sound(x) else [])
  }

  /** The ring after writing `bytes` to it one after the other from slot 0 on. */
  function RingOf(bytes: seq<byte>): (ring: seq<byte>)
    ensures |ring| == RING_BYTES
  {
    if bytes == [] then Silence(RING_BYTES)
    else
      var n := |bytes| - 1;
      RingOf(bytes[..n])[n % RING_BYTES := bytes[n]]
  }

  ghost predicate Framed(log: seq<Slice>) {
    forall i :: 0 <= i < |log| ==> |log[i].audio| % FRAME_BYTES == 0 && log[i].silence % FRAME_BYTES == 0
  }

  ghost predicate Inv(s: State) {
    && Shape(s)
    && AudioOf(s.log) + s.queue == s.accepted
    && s.ring == RingOf(Rendered(s.log))
    && s.writePos == |Rendered(s.log)| % RING_BYTES
    && Framed(s.log)
    && |s.queue| % FRAME_BYTES == 0
    && s.avail % FRAME_BYTES == 0
    && s.writePos % FRAME_BYTES == 0
    && (s.producer.Trying? ==> |s.producer.block| % FRAME_BYTES == 0 && s.producer.timeouts < MAX_TIMEOUTS)
    && (s.producer.Waiting? ==> |s.producer.block| % FRAME_BYTES == 0 && s.producer.timeouts < MAX_TIMEOUTS)
  }

  lemma RingSum(a: nat, b: nat)
    ensures (a % RING_BYTES + b) % RING_BYTES == (a + b) % RING_BYTES
  {
  }

  /** Overlaying a slice at the write cursor is writing its bytes one after the other. */
  lemma {:induction false} OverlayExtendsRing(bytes: seq<byte>, data: seq<byte>)
    requires |data| <= RING_BYTES
    ensures Overlay(RingOf(bytes), |bytes| % RING_BYTES, data) == RingOf(bytes + data)
    decreases |data|
  {
    var at := |bytes| % RING_BYTES;
    if data == [] {
      assert bytes + data == bytes;
      assert Overlay(RingOf(bytes), at, data) == RingOf(bytes);
    } else {
      var n := |data| - 1;
      OverlayExtendsRing(bytes, data[..n]);
      OverlayOneMore(RingOf(bytes), at, data);
      RingSum(|bytes|, n);
      RingOfPush(bytes + data[..n], data[n]);
      assert bytes + data == bytes + data[..n] + [data[n]];
    }
  }

  lemma RingOfPush(bytes: seq<byte>, v: byte)
    ensures RingOf(bytes + [v]) == RingOf(bytes)[|bytes| % RING_BYTES := v]
  {
    assert (bytes + [v])[..|bytes|] == bytes;
  }

  lemma OverlayOneMore(ring: seq<byte>, at: nat, data: seq<byte>)
    requires |ring| == RING_BYTES && at < RING_BYTES && 0 < |data| <= RING_BYTES
    ensures var n := |data| - 1;
      Overlay(ring, at, data) == Overlay(ring, at, data[..n])[(at + n) % RING_BYTES := data[n]]
  {
  }

  /** After any amount of output, each of the last 8192 bytes is in its slot: nothing was written twice or skipped. */
  lemma {:induction false} RingIsTheLatestWindow(bytes: seq<byte>, t: nat)
    requires t < |bytes| <= t + RING_BYTES
    ensures RingOf(bytes)[t % RING_BYTES] == bytes[t]
    decreases |bytes|
  {
    var n := |bytes| - 1;
    if t >= n {
    } else {
      RingIsTheLatestWindow(bytes[..n], t);
    }
  }

  lemma AppendSlice(log: seq<Slice>, x: Slice)
    ensures AudioOf(log + [x]) == AudioOf(log) + x.audio
    ensures Rendered(log + [x]) == Rendered(log) + (if x.locked then Sound(x) else [])
    ensures Framed(log) && |x.audio| % FRAME_BYTES == 0 && x.silence % FRAME_BYTES == 0 ==> Framed(log + [x])
  {
    assert (log + [x])[..|log|] == log;
  }

  /** A fetched slice is one chunk long and made of whole frames. */
  lemma FetchedShape(s: State, seen: nat, lockOk: bool)
    requires Inv(s) && Enabled(s, Chunk(seen, lockOk))
    ensures var x := Fetched(s, seen, lockOk);
      && |Sound(x)| == Min(s.avail, FEED_CHUNK)
      && |x.audio| % FRAME_BYTES == 0 && x.silence % FRAME_BYTES == 0
      && |Sound(x)| % FRAME_BYTES == 0
  {
  }

  lemma ChunkRing(s: State, seen: nat, lockOk: bool)
    requires Inv(s) && Enabled(s, Chunk(seen, lockOk))
    ensures var s' := Take(s, Chunk(seen, lockOk));
      s'.ring == RingOf(Rendered(s'.log)) && s'.writePos == |Rendered(s'.log)| % RING_BYTES
  {
    var x := Fetched(s, seen, lockOk);
    FetchedShape(s, seen, lockOk);
    AppendSlice(s.log, x);
    var done := Rendered(s.log);
    if lockOk {
      OverlayExtendsRing(done, Sound(x));
      RingSum(|done|, |Sound(x)|);
      assert Take(s, Chunk(seen, lockOk)).writePos == |done + Sound(x)| % RING_BYTES;
    } else {
      assert done + [] == done;
    }
  }

  lemma ChunkAudio(s: State, seen: nat, lockOk: bool)
    requires Inv(s) && Enabled(s, Chunk(seen, lockOk))
    ensures var s' := Take(s, Chunk(seen, lockOk));
      AudioOf(s'.log) + s'.queue == s'.accepted && Framed(s'.log)
  {
    var x := Fetched(s, seen, lockOk);
    FetchedShape(s, seen, lockOk);
    AppendSlice(s.log, x);
    assert AudioOf(s.log) + x.audio + s.queue[|x.audio|..] == AudioOf(s.log) + s.queue;
  }

  lemma WholeFrames(k: int)
    ensures 4 * k % FRAME_BYTES == 0
  {
  }

  lemma AlignedSum(a: nat, b: nat)
    requires a % FRAME_BYTES == 0 && b % FRAME_BYTES == 0
    ensures (a + b) % FRAME_BYTES == 0
  {
    assert a + b == 4 * (a / 4 + b / 4);
    WholeFrames(a / 4 + b / 4);
  }

  lemma AlignedDifference(a: nat, b: nat)
    requires a % FRAME_BYTES == 0 && b % FRAME_BYTES == 0
    ensures (a - b) % FRAME_BYTES == 0
  {
    assert a - b == 4 * (a / 4 - b / 4);
    WholeFrames(a / 4 - b / 4);
  }

  /** The ring is made of whole frames. */
  lemma AlignedTurn(a: nat)
    requires a % FRAME_BYTES == 0
    ensures a % RING_BYTES % FRAME_BYTES == 0
  {
    var turns := a / RING_BYTES;
    assert a % RING_BYTES == 4 * (a / 4 - 2048 * turns);
    WholeFrames(a / 4 - 2048 * turns);
  }

  lemma ChunkInv(s: State, seen: nat, lockOk: bool)
    requires Inv(s) && Enabled(s, Chunk(seen, lockOk))
    ensures Inv(Take(s, Chunk(seen, lockOk)))
  {
    var x := Fetched(s, seen, lockOk);
    FetchedShape(s, seen, lockOk);
    AlignedSum(s.writePos, |Sound(x)|);
    AlignedTurn(s.writePos + |Sound(x)|);
    AlignedDifference(s.avail, |Sound(x)|);
    AlignedDifference(|s.queue|, |x.audio|);
    ChunkRing(s, seen, lockOk);
    ChunkAudio(s, seen, lockOk);
  }

  lemma PushTriesInv(s: State)
    requires Inv(s) && s.producer.Trying?
    ensures Inv(Take(s, PushTries))
  {
    var block := s.producer.block;
    if Fits(s, block) {
      assert AudioOf(s.log) + (s.queue + block) == AudioOf(s.log) + s.queue + block;
      AlignedSum(|s.queue|, |block|);
    }
  }

  lemma PassStartsInv(s: State, play: nat)
    requires Inv(s) && Enabled(s, PassStarts(play))
    ensures Inv(Take(s, PassStarts(play)))
  {
    GapToPlayCursor(s.writePos, play);
  }

  lemma StepInv(s: State, step: Step)
    requires Inv(s) && Enabled(s, step)
    ensures Inv(Take(s, step))
  {
    match step
    case PushTries => PushTriesInv(s);
    case Chunk(seen, lockOk) => ChunkInv(s, seen, lockOk);
    case PassStarts(play) => PassStartsInv(s, play);
    case _ =>
  }

  lemma {:induction false} RunExtended(s: State, steps: seq<Step>, s': State, step: Step)
    requires Run(s, steps, s') && Shape(s') && Enabled(s', step)
    ensures Run(s, steps + [step], Take(s', step))
    decreases |steps|
  {
    hide Take, Enabled, Shape;
    if steps == [] {
      assert [step][1..] == [];
    } else {
      assert (steps + [step])[1..] == steps[1..] + [step];
      RunExtended(Take(s, steps[0]), steps[1..], s', step);
    }
  }

  lemma {:induction false} RunInv(s: State, steps: seq<Step>, s': State)
    requires Inv(s) && Run(s, steps, s')
    ensures Inv(s')
    decreases |steps|
  {
    if steps == [] {
    } else {
      StepInv(s, steps[0]);
      RunInv(Take(s, steps[0]), steps[1..], s');
    }
  }

  lemma StartInv()
    ensures Inv(Start())
  {
  }

  /**
   Over every run: the audio fetched so far followed by the queue is what push() accepted; the
   ring holds exactly the last 8192 bytes rendered; the ring's cursor is where they end; and every
   slice is made of whole frames.
   */
  lemma PipelineKeepsTheStream(steps: seq<Step>, s: State)
    requires Run(Start(), steps, s)
    ensures AudioOf(s.log) + s.queue == s.accepted
    ensures s.ring == RingOf(Rendered(s.log))
    ensures s.writePos == |Rendered(s.log)| % RING_BYTES
    ensures Framed(s.log)
  {
    StartInv();
    RunInv(Start(), steps, s);
  }

  // ---------------------------------------------------------------- frames

  /** `Origin(log, t)` is `Some(k)` when rendered byte `t` is byte `k` of the accepted stream, `None` for silence. */
  function Origin(log: seq<Slice>, t: nat): Option<nat>
    requires t < |Rendered(log)|
  {
    var n := |log| - 1;
    var x := log[n];
    var before := |Rendered(log[..n])|;
    if t < before then Origin(log[..n], t)
    else if t - before < |x.audio| then Some(|AudioOf(log[..n])| + (t - before))
    else None
  }

  lemma {:induction false} FramedLengths(log: seq<Slice>)
    requires Framed(log)
    ensures |AudioOf(log)| % FRAME_BYTES == 0 && |Rendered(log)| % FRAME_BYTES == 0
  {
    if log == [] {
    } else {
      var n := |log| - 1;
      assert |Sound(log[n])| == |log[n].audio| + log[n].silence;
      hide Sound;
      FramedLengths(log[..n]);
      AlignedSum(|AudioOf(log[..n])|, |log[n].audio|);
      AlignedSum(|Rendered(log[..n])|, |log[n].audio| + log[n].silence);
      AlignedSum(|log[n].audio|, log[n].silence);
    }
  }

  /** Rendered byte `t` is silence or the stream byte it came from, in the same place of its frame. */
  ghost predicate KeepsItsChannel(log: seq<Slice>, t: nat)
    requires t < |Rendered(log)|
  {
    match Origin(log, t)
    case Some(k) => k < |AudioOf(log)| && Rendered(log)[t] == AudioOf(log)[k] && k % FRAME_BYTES == t % FRAME_BYTES
    case None => Rendered(log)[t] == 0
  }

  lemma {:induction false} RenderedByteKeepsItsChannel(log: seq<Slice>, t: nat)
    requires Framed(log) && t < |Rendered(log)|
    ensures KeepsItsChannel(log, t)
    decreases |log|
  {
    var n := |log| - 1;
    if t < |Rendered(log[..n])| {
      RenderedByteKeepsItsChannel(log[..n], t);
      EarlierByte(log, t);
    } else {
      FramedLengths(log[..n]);
      LastByteKeepsItsChannel(log, t);
    }
  }

  lemma EarlierByte(log: seq<Slice>, t: nat)
    requires log != [] && t < |Rendered(log[..|log| - 1])| && KeepsItsChannel(log[..|log| - 1], t)
    ensures t < |Rendered(log)| && KeepsItsChannel(log, t)
  {
    hide Sound;
    var rest := log[..|log| - 1];
    assert Rendered(log)[t] == Rendered(rest)[t];
    assert forall k :: 0 <= k < |AudioOf(rest)| ==> AudioOf(log)[k] == AudioOf(rest)[k];
    assert Origin(log, t) == Origin(rest, t);
  }

  lemma LastRendered(rest: seq<Slice>, x: Slice, t: nat)
    requires |Rendered(rest)| <= t < |Rendered(rest + [x])|
    ensures x.locked && t - |Rendered(rest)| < |Sound(x)|
  {
    hide Rendered, Sound;
    AppendSlice(rest, x);
  }

  lemma LastByteKeepsItsChannel(log: seq<Slice>, t: nat)
    requires log != [] && |Rendered(log[..|log| - 1])| <= t < |Rendered(log)|
    requires |AudioOf(log[..|log| - 1])| % FRAME_BYTES == 0 && |Rendered(log[..|log| - 1])| % FRAME_BYTES == 0
    ensures KeepsItsChannel(log, t)
  {
    var rest, x := log[..|log| - 1], log[|log| - 1];
    var before := |Rendered(rest)|;
    assert log == rest + [x];
    LastRendered(rest, x, t);
    LastSliceByte(rest, x, t - before);
    SamePlaceInFrame(|AudioOf(rest)|, before, t - before);
    assert Origin(log, t) == if t - before < |x.audio| then Some(|AudioOf(rest)| + (t - before)) else None;
    hide Rendered, AudioOf, Origin;
    assert before + (t - before) == t;
  }

  /** Over every run, each byte given to the hardware is silence or an accepted byte of the same channel. */
  lemma ChannelsNeverSwap(steps: seq<Step>, s: State, t: nat)
    requires Run(Start(), steps, s) && t < |Rendered(s.log)|
    ensures match Origin(s.log, t)
      case Some(k) => k < |s.accepted| && Rendered(s.log)[t] == s.accepted[k] && k % FRAME_BYTES == t % FRAME_BYTES
      case None => Rendered(s.log)[t] == 0
  {
    hide Run, Rendered, AudioOf, Origin, Framed, RingOf;
    PipelineKeepsTheStream(steps, s);
    RenderedByteKeepsItsChannel(s.log, t);
    var audio := AudioOf(s.log);
    assert forall k :: 0 <= k < |audio| ==> (audio + s.queue)[k] == audio[k];
  }

  lemma SoundByte(x: Slice, d: nat)
    requires d < |Sound(x)|
    ensures Sound(x)[d] == if d < |x.audio| then x.audio[d] else 0
  {
  }

  lemma ByteOfSecond(a: seq<byte>, b: seq<byte>, d: nat)
    requires d < |b|
    ensures (a + b)[|a| + d] == b[d]
  {
  }

  /** The bytes of the last slice: its audio, then silence. */
  lemma LastSliceByte(rest: seq<Slice>, x: Slice, d: nat)
    requires x.locked && d < |Sound(x)|
    ensures |Rendered(rest)| + d < |Rendered(rest + [x])|
    ensures if d < |x.audio| then
        && |AudioOf(rest)| + d < |AudioOf(rest + [x])|
        && Rendered(rest + [x])[|Rendered(rest)| + d] == AudioOf(rest + [x])[|AudioOf(rest)| + d]
      else Rendered(rest + [x])[|Rendered(rest)| + d] == 0
  {
    hide Rendered, AudioOf, Sound;
    AppendSlice(rest, x);
    SoundByte(x, d);
    ByteOfSecond(Rendered(rest), Sound(x), d);
    if d < |x.audio| {
      ByteOfSecond(AudioOf(rest), x.audio, d);
    }
  }

  lemma SamePlaceInFrame(a: nat, b: nat, d: nat)
    requires a % FRAME_BYTES == 0 && b % FRAME_BYTES == 0
    ensures (a + d) % FRAME_BYTES == (b + d) % FRAME_BYTES
  {
  }

  /** Later output comes from later in the stream: nothing is reordered or repeated. */
  lemma {:induction false} OriginsIncrease(log: seq<Slice>, t: nat, u: nat)
    requires t < u < |Rendered(log)|
    requires Origin(log, t).Some? && Origin(log, u).Some?
    ensures Origin(log, t).value < Origin(log, u).value
    decreases |log|
  {
    var n := |log| - 1;
    var before := |Rendered(log[..n])|;
    if u < before {
      OriginsIncrease(log[..n], t, u);
    } else if t < before {
      OriginBound(log[..n], t);
    }
  }

  lemma {:induction false} OriginBound(log: seq<Slice>, t: nat)
    requires t < |Rendered(log)| && Origin(log, t).Some?
    ensures Origin(log, t).value < |AudioOf(log)|
    decreases |log|
  {
    var n := |log| - 1;
    if t >= |Rendered(log[..n])| {
    } else {
      OriginBound(log[..n], t);
    }
  }

  /**
   Nothing is lost exactly when no failed Lock had fetched audio: then, and only then, every byte
   the feeder took from the queue is heard.
   */
  lemma {:induction false} HeardCount(log: seq<Slice>)
    ensures HeardBytes(log) <= |AudioOf(log)|
    ensures HeardBytes(log) == |AudioOf(log)| <==>
      forall i :: 0 <= i < |log| && !log[i].locked ==> log[i].audio == []
  {
    if log == [] {
    } else {
      var n := |log| - 1;
      HeardCount(log[..n]);
      assert forall i :: 0 <= i < n ==> log[..n][i] == log[i];
    }
  }

  function HeardBytes(log: seq<Slice>): nat {
    if log == [] then 0
    else
      var x := log[|log| - 1];
      HeardBytes(log[..|log| - 1]) + (if x.locked then |x.audio| else 0)
  }

  // ---------------------------------------------------------------- one feeder pass

  /** Steps of one pass after it started, with the producer interleaved and every Lock succeeding. */
  ghost predicate PassBody(steps: seq<Step>) {
    forall i :: 0 <= i < |steps| ==> InPass(steps[i])
  }

  predicate InPass(step: Step) {
    !step.PassStarts? && !step.PassEnds? && (step.Chunk? ==> step.lockOk)
  }

  /** The write cursor has advanced by the bytes rendered, and that many fewer are left. */
  ghost predicate Advanced(s: State, t: State) {
    && t.avail <= s.avail
    && |Rendered(t.log)| == |Rendered(s.log)| + (s.avail - t.avail)
    && t.writePos == (s.writePos + (s.avail - t.avail)) % RING_BYTES
  }

  lemma AdvancedTwice(s: State, t: State, u: State)
    requires Advanced(s, t) && Advanced(t, u)
    ensures Advanced(s, u)
  {
    hide Rendered;
    RingSum(s.writePos + (s.avail - t.avail), t.avail - u.avail);
  }

  lemma ChunkProgress(s: State, seen: nat)
    requires Inv(s) && Enabled(s, Chunk(seen, true))
    ensures Advanced(s, Take(s, Chunk(seen, true)))
    ensures Take(s, Chunk(seen, true)).avail == s.avail - Min(s.avail, FEED_CHUNK)
  {
    var x := Fetched(s, seen, true);
    FetchedShape(s, seen, true);
    AppendSlice(s.log, x);
    hide Overlay, Rendered, AudioOf;
  }

  lemma StepProgress(s: State, step: Step)
    requires Inv(s) && Enabled(s, step) && InPass(step)
    ensures Advanced(s, Take(s, step))
  {
    hide Rendered, Fetched, Overlay;
    if step.Chunk? {
      ChunkProgress(s, step.seen);
    } else {
      var t := Take(s, step);
      assert t.avail == s.avail && t.log == s.log && t.writePos == s.writePos;
    }
  }

  lemma FirstOfBody(s: State, steps: seq<Step>, s': State) returns (t: State)
    requires Inv(s) && Run(s, steps, s') && PassBody(steps) && steps != []
    ensures Inv(t) && Run(t, steps[1..], s') && PassBody(steps[1..]) && Advanced(s, t)
  {
    hide Advanced;
    t := Take(s, steps[0]);
    assert InPass(steps[0]);
    StepInv(s, steps[0]);
    StepProgress(s, steps[0]);
  }

  lemma {:induction false} BodyProgress(s: State, steps: seq<Step>, s': State)
    requires Inv(s) && Run(s, steps, s') && PassBody(steps)
    ensures Advanced(s, s')
    decreases |steps|
  {
    if steps == [] {
    } else {
      hide *;
      var t := FirstOfBody(s, steps, s');
      BodyProgress(t, steps[1..], s');
      AdvancedTwice(s, t, s');
    }
  }

  lemma GapToPlayCursor(writePos: nat, play: nat)
    requires writePos < RING_BYTES && writePos % FRAME_BYTES == 0 && play < RING_BYTES
    ensures 0 <= Align(Played(play, writePos)) < RING_BYTES
    ensures Align(Played(play, writePos)) % FRAME_BYTES == 0
    ensures (writePos + Align(Played(play, writePos))) % RING_BYTES == play - play % FRAME_BYTES
  {
  }

  /**
   A pass whose Locks succeed renders exactly the cyclic interval from the write cursor to the
   frame-aligned play cursor, whatever push() does meanwhile; the interval is shorter than the
   ring, so no byte of it is written twice.
   */
  lemma PassFillsTheGap(s: State, play: nat, steps: seq<Step>, s': State)
    requires Inv(s) && Enabled(s, PassStarts(play))
    requires Run(Take(s, PassStarts(play)), steps, s') && PassBody(steps) && s'.avail == 0
    ensures s'.writePos == play - play % FRAME_BYTES
    ensures |Rendered(s'.log)| - |Rendered(s.log)| == Align(Played(play, s.writePos)) < RING_BYTES
  {
    StepInv(s, PassStarts(play));
    GapToPlayCursor(s.writePos, play);
    BodyProgress(Take(s, PassStarts(play)), steps, s');
  }

  // ---------------------------------------------------------------- push() returns

  /** Signals that can still be consumed: one per frame that can be drained, one pending in the pass, one set. */
  function Signals(s: State): nat {
    |s.queue| / FRAME_BYTES + (if s.drained then 1 else 0) + (if s.event then 1 else 0)
  }

  /** Remaining iterations of the retry loop of push(). */
  function Patience(s: State): int {
    match s.producer
    case Idle => 0
    case Trying(_, _, timeouts) => 6 * Signals(s) + (MAX_TIMEOUTS - timeouts)
    case Waiting(_, timeouts) => 6 * Signals(s) + (MAX_TIMEOUTS - timeouts)
  }

  /** Iterations of the retry loop in a run: one per wait. */
  function Waits(steps: seq<Step>): nat {
    if steps == [] then 0
    else (if steps[0].PushWakes? || steps[0].PushTimesOut? then 1 else 0) + Waits(steps[1..])
  }

  lemma StepPatience(s: State, step: Step)
    requires Inv(s) && Enabled(s, step) && !step.PushCall?
    ensures Patience(Take(s, step)) + Waits([step]) <= Patience(s)
    ensures Patience(Take(s, step)) >= 0
  {
    assert [step][1..] == [];
    if step.Chunk? {
      FetchedShape(s, step.seen, step.lockOk);
      FramesDrop(|s.queue|, |Fetched(s, step.seen, step.lockOk).audio|);
    }
  }

  lemma FramesDrop(queued: nat, taken: nat)
    requires taken <= queued && taken % FRAME_BYTES == 0
    ensures taken > 0 ==> (queued - taken) / FRAME_BYTES + 1 <= queued / FRAME_BYTES
  {
  }

  /** Steps within one call of push(). */
  ghost predicate OneCall(steps: seq<Step>) {
    forall i :: 0 <= i < |steps| ==> !steps[i].PushCall?
  }

  lemma FirstWait(s: State, steps: seq<Step>, s': State) returns (t: State)
    requires Inv(s) && Run(s, steps, s') && steps != [] && OneCall(steps)
    ensures Inv(t) && Run(t, steps[1..], s') && OneCall(steps[1..])
    ensures Patience(t) + Waits([steps[0]]) <= Patience(s)
    ensures Waits(steps) == Waits([steps[0]]) + Waits(steps[1..])
  {
    t := Take(s, steps[0]);
    StepInv(s, steps[0]);
    StepPatience(s, steps[0]);
    assert [steps[0]][1..] == [];
  }

  lemma PatienceBound(s: State)
    requires Inv(s)
    ensures 0 <= Patience(s) <= 6 * (FIFO_BYTES / FRAME_BYTES + 1) + MAX_TIMEOUTS
  {
    assert |s.queue| / FRAME_BYTES < FIFO_BYTES / FRAME_BYTES;
  }

  lemma {:induction false} WaitsUsePatience(s: State, steps: seq<Step>, s': State)
    requires Inv(s) && Run(s, steps, s') && OneCall(steps)
    ensures Waits(steps) <= Patience(s)
    decreases |steps|
  {
    if steps == [] {
      PatienceBound(s);
    } else {
      var t := FirstWait(s, steps, s');
      WaitsUsePatience(t, steps[1..], s');
    }
  }

  /**
   push() always returns: in every interleaving with the feeder, one call waits at most
   6 * (frames queued + 2) + 5 times, a bound fixed by the capacity of the queue.
   */
  lemma PushReturns(s: State, steps: seq<Step>, s': State)
    requires Inv(s) && Run(s, steps, s') && OneCall(steps)
    ensures Waits(steps) <= 6 * (|s.queue| / FRAME_BYTES + 2) + MAX_TIMEOUTS
    ensures Waits(steps) <= 6 * (FIFO_BYTES / FRAME_BYTES + 1) + MAX_TIMEOUTS
  {
    WaitsUsePatience(s, steps, s');
    PatienceBound(s);
  }

  predicate OfProducer(step: Step) {
    step.PushTries? || step.PushWakes? || step.PushTimesOut?
  }

  predicate OfFeeder(step: Step) {
    step.Chunk? || step.PassEnds?
  }

  lemma Prepended(s: State, step: Step, steps: seq<Step>, s': State)
    requires Shape(s) && Enabled(s, step) && Run(Take(s, step), steps, s')
    ensures Run(s, [step] + steps, s')
  {
    assert ([step] + steps)[1..] == steps;
  }

  function NextOfPush(s: State): Step {
    if s.producer.Trying? then PushTries else if s.event then PushWakes else PushTimesOut
  }

  /** push() has returned, or has used up the event, a timeout, or a try. */
  lemma PushProgress(s: State)
    requires Shape(s) && !s.producer.Idle?
    ensures Enabled(s, NextOfPush(s))
    ensures var t := Take(s, NextOfPush(s));
      || t.producer.Idle?
      || (s.event && !t.event)
      || (t.event == s.event && t.producer.timeouts > s.producer.timeouts)
      || (t.event == s.event && t.producer.timeouts == s.producer.timeouts && s.producer.Trying? && !t.producer.Trying?)
  {
  }

  /** No deadlock: from every state push() returns by steps of its own, with the feeder standing still, */
  lemma PushReturnsAlone(s: State) returns (steps: seq<Step>, s': State)
    requires Inv(s)
    ensures Run(s, steps, s') && s'.producer.Idle?
    ensures forall i :: 0 <= i < |steps| ==> OfProducer(steps[i])
    decreases s.event, if s.producer.Idle? then 0 else MAX_TIMEOUTS - s.producer.timeouts, s.producer.Trying?
  {
    if s.producer.Idle? {
      steps, s' := [], s;
    } else {
      var step := NextOfPush(s);
      StepInv(s, step);
      PushProgress(s);
      hide Inv, Take, Enabled;
      var rest;
      rest, s' := PushReturnsAlone(Take(s, step));
      Prepended(s, step, rest, s');
      steps := [step] + rest;
    }
  }

  /** and a pass of the feeder ends by steps of its own, with push() standing still. */
  lemma PassEndsAlone(s: State) returns (steps: seq<Step>, s': State)
    requires Inv(s) && s.inPass
    ensures Run(s, steps, s') && !s'.inPass
    ensures forall i :: 0 <= i < |steps| ==> OfFeeder(steps[i])
    decreases s.avail
  {
    var step := if s.avail > 0 then Chunk(|s.queue|, true) else PassEnds;
    StepInv(s, step);
    if s.avail == 0 {
      steps, s' := [step], Take(s, step);
      assert steps[1..] == [];
    } else {
      ChunkProgress(s, |s.queue|);
      hide Inv, Overlay, Fetched, Rendered;
      var rest;
      rest, s' := PassEndsAlone(Take(s, step));
      Prepended(s, step, rest, s');
      steps := [step] + rest;
    }
  }

  /** What one call of push() has done to the stream so far. */
  predicate InCall(s: State, accepted: seq<byte>, block: seq<byte>) {
    if s.producer.Idle? then s.accepted == accepted || s.accepted == accepted + block
    else s.producer.block == block && s.accepted == accepted
  }

  lemma StepInCall(s: State, step: Step, accepted: seq<byte>, block: seq<byte>)
    requires Shape(s) && Enabled(s, step) && !step.PushCall? && InCall(s, accepted, block)
    ensures InCall(Take(s, step), accepted, block)
  {
    hide Overlay, Fetched;
  }

  lemma {:induction false} RunInCall(s: State, steps: seq<Step>, s': State, accepted: seq<byte>, block: seq<byte>)
    requires Run(s, steps, s') && OneCall(steps) && InCall(s, accepted, block)
    ensures InCall(s', accepted, block)
    decreases |steps|
  {
    if steps == [] {
    } else {
      hide InCall, Take;
      assert !steps[0].PushCall?;
      StepInCall(s, steps[0], accepted, block);
      RunInCall(Take(s, steps[0]), steps[1..], s', accepted, block);
    }
  }

  /**
   One whole call of push(), in every interleaving with the feeder: until it returns nothing is
   accepted, and when it has returned the block was accepted whole or not at all.
   */
  lemma AllOrNothing(s: State, block: seq<byte>, wait: bool, steps: seq<Step>, s': State)
    requires Shape(s) && Enabled(s, PushCall(block, wait))
    requires Run(Take(s, PushCall(block, wait)), steps, s') && OneCall(steps)
    ensures !s'.producer.Idle? ==> s'.accepted == s.accepted
    ensures s'.producer.Idle? ==> s'.accepted == s.accepted || s'.accepted == s.accepted + block
  {
    RunInCall(Take(s, PushCall(block, wait)), steps, s', s.accepted, block);
  }
}
