/**
 The audio pipeline over the fine-grained queue: `push()` and the feeder call write() and read() of
 `SpscFifo`, one cursor load, one byte and one cursor publish at a time. Every run of this system is
 a run of `AudioPipeline`, whose queue is atomic.

 Lock and the copy to the ring touch only what the feeder owns, and are taken together with the end
 of its read().
 */
module AudioRefinement {
  import opened Bytes
  import opened AudioPipeline
  import F = SpscFifo

  /** `pipe.queue` is not used: the bytes are in the fifo. */
  datatype System = System(fifo: F.State, pipe: State)

  /** A step of either thread outside the fifo, or inside it; `lockOk` is the outcome of the Lock after a read(). */
  datatype FineStep = Outside(step: Step) | Inside(op: F.Step, lockOk: bool)

  function FirstState(): System {
    System(F.Start(FIFO_BYTES), Start())
  }

  function Chunk(p: State): nat {
    Min(p.avail, FEED_CHUNK)
  }

  predicate CanTake(s: System, step: FineStep) {
    match step
    case Outside(PushTries) => false
    case Outside(Chunk(_, _)) => false
    case Outside(PassStarts(_)) => s.fifo.reader.RIdle? && Enabled(s.pipe, step.step)
    case Outside(PassEnds) => s.fifo.reader.RIdle? && Enabled(s.pipe, step.step)
    case Outside(_) => s.fifo.writer.WIdle? && Enabled(s.pipe, step.step)
    case Inside(op, _) =>
      && F.Shape(s.fifo) && F.Enabled(F.XboxFifo, s.fifo, op)
      && (op.WriteCall? ==> s.pipe.producer.Trying? && op.data == s.pipe.producer.block)
      && (op.ReadCall? ==> s.pipe.inPass && s.pipe.avail > 0 && op.want == Chunk(s.pipe))
  }

  /** The pipeline after a step inside the fifo that takes it from `before` to `after`. */
  function AfterInside(p: State, op: F.Step, before: F.State, after: F.State, lockOk: bool): State {
    match op
    case WriterLoadsReader => if after.writer.WIdle? && p.producer.Trying? then Refused(p) else p
    case WriterPublishes => if p.producer.Trying? then Accepted(p) else p
    case ReaderLoadsReader => if after.reader.RIdle? then ReadReturns(p, [], lockOk) else p
    case ReaderPublishes => if before.reader.RCopy? then ReadReturns(p, before.reader.scratch, lockOk) else p
    case _ => p
  }

  function ReadReturns(p: State, bytes: seq<byte>, lockOk: bool): State {
    if Shape(p) && |bytes| <= Chunk(p) then Fed(p, Slice(bytes, Chunk(p) - |bytes|, lockOk)) else p
  }

  function TakeFine(s: System, step: FineStep): System
    requires Shape(s.pipe) && CanTake(s, step)
  {
    match step
    case Outside(coarse) => s.(pipe := Take(s.pipe, coarse))
    case Inside(op, lockOk) =>
      var after := F.Take(F.XboxFifo, s.fifo, op);
      System(after, AfterInside(s.pipe, op, s.fifo, after, lockOk))
  }

  ghost predicate FineRun(s: System, steps: seq<FineStep>, s': System)
    decreases |steps|
  {
    if steps == [] then s' == s
    else Shape(s.pipe) && CanTake(s, steps[0]) && FineRun(TakeFine(s, steps[0]), steps[1..], s')
  }

  // ---------------------------------------------------------------- the abstraction

  /** The pipeline state with the atomic queue: the bytes between the two cursors. */
  function Abs(s: System): State
    requires F.Shape(s.fifo)
  {
    s.pipe.(queue := F.Occupied(F.XboxFifo, s.fifo))
  }

  ghost predicate WriterLinked(s: System) {
    match s.fifo.writer
    case WIdle => true
    case WSizing(data, _) => s.pipe.producer.Trying? && data == s.pipe.producer.block
    case WCopy(data, _, _) => s.pipe.producer.Trying? && data == s.pipe.producer.block
  }

  ghost predicate ReaderLinked(s: System) {
    match s.fifo.reader
    case RIdle => true
    case RSizing(want, _) => s.pipe.inPass && s.pipe.avail > 0 && want == Chunk(s.pipe)
    case RCopy(n, _, _) => s.pipe.inPass && s.pipe.avail > 0 && n <= Chunk(s.pipe) && n % FRAME_BYTES == 0
  }

  ghost predicate Linked(s: System) {
    && F.Inv(s.fifo) && F.Shape(s.fifo) && |s.fifo.buf| == FIFO_BYTES
    && s.pipe.queue == []
    && WriterLinked(s) && ReaderLinked(s)
    && Inv(Abs(s))
  }

  /** A step that is matched by no step of the pipeline, or by one. */
  ghost predicate Matched(s: State, c: Option<Step>, s': State) {
    match c
    case None => s' == s
    case Some(step) => Shape(s) && Enabled(s, step) && s' == Take(s, step)
  }

  lemma StartLinked()
    ensures Linked(FirstState()) && Abs(FirstState()) == Start()
  {
    F.StartInv(FIFO_BYTES);
    StartInv();
    F.OccupiedIsPending(F.XboxFifo, F.Start(FIFO_BYTES));
  }

  // ---------------------------------------------------------------- one step

  lemma AbsShape(s: System)
    requires F.Shape(s.fifo) && Inv(Abs(s)) && s.pipe.queue == []
    ensures Shape(Abs(s)) && Shape(s.pipe) && s.pipe.avail % FRAME_BYTES == 0
  {
    hide F.Occupied;
  }

  lemma OutsideRefines(s: System, step: Step)
    requires Linked(s) && CanTake(s, Outside(step))
    ensures Shape(s.pipe)
    ensures Matched(Abs(s), Some(step), Abs(TakeFine(s, Outside(step))))
    ensures Linked(TakeFine(s, Outside(step)))
  {
    hide F.Occupied, F.Inv, Inv, RingOf;
    AbsShape(s);
    assert Abs(TakeFine(s, Outside(step))) == Take(Abs(s), step);
    StepInv(Abs(s), step);
  }

  /** A step inside the fifo that changes neither the bytes between the cursors nor the pipeline. */
  lemma SilentRefines(s: System, op: F.Step, lockOk: bool)
    requires Linked(s) && CanTake(s, Inside(op, lockOk)) && Shape(s.pipe)
    requires op.WriteCall? || op.WriterCopies? || op.ReadCall? || op.ReaderCopies?
    ensures Matched(Abs(s), None, Abs(TakeFine(s, Inside(op, lockOk))))
    ensures Linked(TakeFine(s, Inside(op, lockOk)))
  {
    F.RefinesAtomicQueue(F.XboxFifo, s.fifo, op);
    hide F.Occupied, F.Inv, Inv, F.CopySlot;
  }

  lemma RefusedTry(p: State)
    requires Inv(p) && Shape(p) && p.producer.Trying? && !Fits(p, p.producer.block)
    ensures Enabled(p, PushTries) && Take(p, PushTries) == Refused(p) && Inv(Refused(p))
  {
    hide Inv, Fits;
    StepInv(p, PushTries);
  }

  lemma WriterDecidesRefines(s: System, lockOk: bool) returns (c: Option<Step>)
    requires Linked(s) && CanTake(s, Inside(F.WriterLoadsReader, lockOk)) && Shape(s.pipe)
    ensures Matched(Abs(s), c, Abs(TakeFine(s, Inside(F.WriterLoadsReader, lockOk))))
    ensures Linked(TakeFine(s, Inside(F.WriterLoadsReader, lockOk)))
  {
    F.RefinesAtomicQueue(F.XboxFifo, s.fifo, F.WriterLoadsReader);
    F.RefusedExactlyWhenFull(F.XboxFifo, s.fifo);
    AbsShape(s);
    var fifo := F.Take(F.XboxFifo, s.fifo, F.WriterLoadsReader);
    assert fifo.buf == s.fifo.buf && fifo.reader == s.fifo.reader;
    assert fifo.writer.WIdle? || (fifo.writer.WCopy? && fifo.writer.data == s.fifo.writer.data);
    hide F.Occupied, F.Inv, Inv, F.Take, F.Shape, F.Enabled, Take;
    if fifo.writer.WIdle? {
      c := Some(PushTries);
      RefusedTry(Abs(s));
      assert Abs(System(fifo, Refused(s.pipe))) == Refused(Abs(s));
    } else {
      c := None;
    }
  }

  lemma WriterPublishesRefines(s: System, lockOk: bool)
    requires Linked(s) && CanTake(s, Inside(F.WriterPublishes, lockOk)) && Shape(s.pipe)
    ensures Matched(Abs(s), Some(PushTries), Abs(TakeFine(s, Inside(F.WriterPublishes, lockOk))))
    ensures Linked(TakeFine(s, Inside(F.WriterPublishes, lockOk)))
  {
    F.RefinesAtomicQueue(F.XboxFifo, s.fifo, F.WriterPublishes);
    F.OccupiedIsPending(F.XboxFifo, s.fifo);
    assert |F.Occupied(F.XboxFifo, s.fifo)| + |s.fifo.writer.data| < FIFO_BYTES;
    hide F.Occupied, F.Inv, Inv, F.AfterCopy;
    AbsShape(s);
    assert Abs(TakeFine(s, Inside(F.WriterPublishes, lockOk))) == Take(Abs(s), PushTries);
    StepInv(Abs(s), PushTries);
  }

  /** What a read() returns is what the pipeline fetches when it sees exactly that much. */
  lemma ReturnedIsFetched(q: seq<byte>, p: State, n: nat, lockOk: bool)
    requires p.queue == q && n <= |q| && n <= Chunk(p) && n % FRAME_BYTES == 0
    ensures Fetched(p, n, lockOk) == Slice(q[..n], Chunk(p) - n, lockOk)
  {
  }

  lemma ReaderReturns(s: System, op: F.Step, n: nat, lockOk: bool)
    requires Linked(s) && CanTake(s, Inside(op, lockOk)) && Shape(s.pipe) && s.pipe.inPass && s.pipe.avail > 0
    requires n <= |F.Occupied(F.XboxFifo, s.fifo)| && n <= Chunk(s.pipe) && n % FRAME_BYTES == 0
    requires var fifo := F.Take(F.XboxFifo, s.fifo, op);
      && F.Inv(fifo) && F.Shape(fifo) && |fifo.buf| == FIFO_BYTES && fifo.reader.RIdle? && fifo.writer == s.fifo.writer
      && F.Occupied(F.XboxFifo, fifo) == F.Occupied(F.XboxFifo, s.fifo)[n..]
      && AfterInside(s.pipe, op, s.fifo, fifo, lockOk)
        == ReadReturns(s.pipe, F.Occupied(F.XboxFifo, s.fifo)[..n], lockOk)
    ensures Matched(Abs(s), Some(Step.Chunk(n, lockOk)), Abs(TakeFine(s, Inside(op, lockOk))))
    ensures Linked(TakeFine(s, Inside(op, lockOk)))
  {
    hide F.Occupied, F.Inv, Inv, F.Take, F.Enabled, Overlay, AfterInside, Fetched;
    AbsShape(s);
    var q := F.Occupied(F.XboxFifo, s.fifo);
    ReturnedIsFetched(q, Abs(s), n, lockOk);
    assert Abs(TakeFine(s, Inside(op, lockOk))) == Take(Abs(s), Step.Chunk(n, lockOk));
    StepInv(Abs(s), Step.Chunk(n, lockOk));
  }

  lemma ReaderDecidesRefines(s: System, lockOk: bool) returns (c: Option<Step>)
    requires Linked(s) && CanTake(s, Inside(F.ReaderLoadsReader, lockOk)) && Shape(s.pipe)
    ensures Matched(Abs(s), c, Abs(TakeFine(s, Inside(F.ReaderLoadsReader, lockOk))))
    ensures Linked(TakeFine(s, Inside(F.ReaderLoadsReader, lockOk)))
  {
    F.RefinesAtomicQueue(F.XboxFifo, s.fifo, F.ReaderLoadsReader);
    var q := F.Occupied(F.XboxFifo, s.fifo);
    assert q[0..] == q && q[..0] == [];
    hide F.Occupied, F.Inv, Inv, F.Readable;
    if TakeFine(s, Inside(F.ReaderLoadsReader, lockOk)).fifo.reader.RIdle? {
      c := Some(Step.Chunk(0, lockOk));
      ReaderReturns(s, F.ReaderLoadsReader, 0, lockOk);
    } else {
      c := None;
    }
  }

  lemma ReaderPublishesRefines(s: System, lockOk: bool)
    requires Linked(s) && CanTake(s, Inside(F.ReaderPublishes, lockOk)) && Shape(s.pipe)
    ensures Matched(Abs(s), Some(Step.Chunk(s.fifo.reader.n, lockOk)),
      Abs(TakeFine(s, Inside(F.ReaderPublishes, lockOk))))
    ensures Linked(TakeFine(s, Inside(F.ReaderPublishes, lockOk)))
  {
    F.RefinesAtomicQueue(F.XboxFifo, s.fifo, F.ReaderPublishes);
    var q, n := F.Occupied(F.XboxFifo, s.fifo), s.fifo.reader.n;
    var rest := F.Occupied(F.XboxFifo, F.Take(F.XboxFifo, s.fifo, F.ReaderPublishes));
    assert |s.fifo.reader.scratch| == n && s.fifo.reader.scratch + rest == q;
    assert q[..n] == s.fifo.reader.scratch && q[n..] == rest;
    hide F.Occupied, F.Inv, Inv, F.AfterCopy;
    ReaderReturns(s, F.ReaderPublishes, n, lockOk);
  }

  lemma FineStepRefines(s: System, step: FineStep) returns (c: Option<Step>)
    requires Linked(s) && CanTake(s, step)
    ensures Shape(s.pipe)
    ensures Linked(TakeFine(s, step)) && Matched(Abs(s), c, Abs(TakeFine(s, step)))
  {
    AbsShape(s);
    hide Linked, Matched, TakeFine, Abs;
    match step {
      case Outside(coarse) =>
        OutsideRefines(s, coarse);
        c := Some(coarse);
      case Inside(op, lockOk) =>
        match op {
          case WriterLoadsReader => c := WriterDecidesRefines(s, lockOk);
          case WriterPublishes =>
            WriterPublishesRefines(s, lockOk);
            c := Some(PushTries);
          case ReaderLoadsReader => c := ReaderDecidesRefines(s, lockOk);
          case ReaderPublishes =>
            ReaderPublishesRefines(s, lockOk);
            c := Some(Step.Chunk(s.fifo.reader.n, lockOk));
          case _ =>
            SilentRefines(s, op, lockOk);
            c := None;
        }
    }
  }

  // ---------------------------------------------------------------- every run

  lemma {:induction false} FineRunRefines(s: System, steps: seq<FineStep>, s': System, before: seq<Step>)
    returns (coarse: seq<Step>)
    requires Linked(s) && FineRun(s, steps, s') && Run(Start(), before, Abs(s))
    ensures Linked(s') && Run(Start(), coarse, Abs(s'))
    decreases |steps|
  {
    if steps == [] {
      coarse := before;
    } else {
      var c := FineStepRefines(s, steps[0]);
      var next := TakeFine(s, steps[0]);
      var more := before;
      if c.Some? {
        RunExtended(Start(), before, Abs(s), c.value);
        more := before + [c.value];
      }
      hide Linked, Abs, TakeFine;
      coarse := FineRunRefines(next, steps[1..], s', more);
    }
  }

  /** Every run over the fine-grained queue is a run of the pipeline over the atomic one. */
  lemma FineRunIsCoarse(steps: seq<FineStep>, s: System) returns (coarse: seq<Step>)
    requires FineRun(FirstState(), steps, s)
    ensures F.Shape(s.fifo) && Run(Start(), coarse, Abs(s))
  {
    StartLinked();
    hide Abs, FirstState;
    coarse := FineRunRefines(FirstState(), steps, s, []);
  }

  /**
   So what holds over the runs of the pipeline holds over every interleaving of single bytes: what was
   fetched and what lies between the cursors is what push() was told is queued, and what the hardware
   hears is silence or an accepted byte of the same channel.
   */
  lemma FineStream(steps: seq<FineStep>, s: System, t: nat)
    requires FineRun(FirstState(), steps, s)
    ensures F.Shape(s.fifo) && AudioOf(s.pipe.log) + F.Occupied(F.XboxFifo, s.fifo) == s.pipe.accepted
    ensures t < |Rendered(s.pipe.log)| ==>
      match Origin(s.pipe.log, t)
      case Some(k) =>
        && k < |s.pipe.accepted| && Rendered(s.pipe.log)[t] == s.pipe.accepted[k] && k % FRAME_BYTES == t % FRAME_BYTES
      case None => Rendered(s.pipe.log)[t] == 0
  {
    hide FineRun, Run, Rendered, Origin, AudioOf, F.Occupied;
    var coarse := FineRunIsCoarse(steps, s);
    PipelineKeepsTheStream(coarse, Abs(s));
    if t < |Rendered(s.pipe.log)| {
      ChannelsNeverSwap(coarse, Abs(s), t);
    }
  }
}
