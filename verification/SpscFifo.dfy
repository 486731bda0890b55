/**
 The single-producer / single-consumer byte queue, as interleaved atomic steps.

 Two implementations share this protocol: the Xbox `ByteFifo` and the desktop `RingBuffer`.
 They differ in their cursor arithmetic and in what the reader does when it asks for more than
 there is; `Flavour` selects between them. A step is one cursor load, one byte copied, or one
 cursor published, and the two threads may be interleaved in any way.
 */
module SpscFifo {
  import opened Bytes
  import opened Cyclic

  datatype Flavour = XboxFifo | DesktopRing

  // ---------------------------------------------------------------- cursor arithmetic
  // `Slot(x, cap)` is the source's `x % cap` (Cyclic.SlotIsRemainder).

  /** Occupied bytes as computed from two loaded cursors. */
  function Readable(f: Flavour, w: nat, r: nat, cap: nat): (n: int)
    requires cap > 0 && w < cap && r < cap
  {
    match f
    case XboxFifo => Slot(w - r + cap, cap)
    case DesktopRing => Slot((w - r + cap) % TWO_64, cap)
  }

  /** Free bytes as computed from two loaded cursors. */
  function Writable(f: Flavour, w: nat, r: nat, cap: nat): (n: int)
    requires cap > 0 && w < cap && r < cap
  {
    match f
    case XboxFifo => cap - 1 - Readable(f, w, r, cap)
    case DesktopRing => Slot((r - w + cap - 1) % TWO_64, cap)
  }

  /** Length of the first of the two contiguous copies. */
  function FirstPiece(cursor: nat, n: nat, cap: nat): int
    requires cursor < cap
  {
    Min(n, cap - cursor)
  }

  /** Where byte `k` of an `n`-byte copy starting at `cursor` lives. */
  function CopySlot(f: Flavour, cursor: nat, n: nat, k: nat, cap: nat): int
    requires cursor < cap
  {
    var first := FirstPiece(cursor, n, cap);
    match f
    case XboxFifo => if k < first then cursor + k else k - first
    case DesktopRing => if k < first then cursor + k else Slot(cursor + first, cap) + (k - first)
  }

  /** The cursor published after an `n`-byte copy. */
  function AfterCopy(f: Flavour, cursor: nat, n: nat, cap: nat): int
    requires cursor < cap
  {
    var first := FirstPiece(cursor, n, cap);
    match f
    case XboxFifo => Slot(cursor + n, cap)
    case DesktopRing =>
      if n - first > 0 then Slot(Slot(cursor + first, cap) + (n - first), cap) else Slot(cursor + first, cap)
  }

  /** How many bytes the reader takes; `None` when the call returns without copying. */
  function ReadAmount(f: Flavour, want: nat, avail: nat): Option<nat> {
    match f
    case XboxFifo =>
      var n := Min(want, avail);
      var n := n - n % FRAME_BYTES;
      if n == 0 then None else Some(n)
    case DesktopRing => if want > avail then None else Some(want)
  }

  // ---------------------------------------------------------------- the state machine

  datatype Writer =
    | WIdle
    | WSizing(data: seq<byte>, w: nat)
    | WCopy(data: seq<byte>, w: nat, k: nat)

  datatype Reader =
    | RIdle
    | RSizing(want: nat, w: nat)
    | RCopy(n: nat, r: nat, scratch: seq<byte>)

  /** `accepted` and `delivered` record the bytes of all completed writes and reads. */
  datatype State = State(
    buf: seq<byte>, wpos: nat, rpos: nat,
    writer: Writer, reader: Reader,
    accepted: seq<byte>, delivered: seq<byte>)

  datatype Step =
    | WriteCall(data: seq<byte>)   // enter write() and load wpos
    | WriterLoadsReader            // load rpos and decide
    | WriterCopies                 // one byte
    | WriterPublishes
    | ReadCall(want: nat)          // enter read() and load wpos
    | ReaderLoadsReader            // load rpos and decide
    | ReaderCopies                 // one byte
    | ReaderPublishes

  function Start(cap: nat): State {
    State(seq(cap, _ => 0), 0, 0, WIdle, RIdle, [], [])
  }

  /** The types of the cursors: they always index the buffer. */
  predicate Shape(s: State) {
    && |s.buf| > 0
    && s.wpos < |s.buf|
    && s.rpos < |s.buf|
    && (s.writer.WSizing? ==> s.writer.w < |s.buf|)
    && (s.writer.WCopy? ==> s.writer.w < |s.buf|)
    && (s.reader.RSizing? ==> s.reader.w < |s.buf|)
    && (s.reader.RCopy? ==> s.reader.r < |s.buf|)
  }

  predicate Enabled(f: Flavour, s: State, step: Step)
    requires Shape(s)
  {
    match step
    case WriteCall(_) => s.writer.WIdle?
    case WriterLoadsReader => s.writer.WSizing?
    case WriterCopies =>
      && s.writer.WCopy?
      && s.writer.k < |s.writer.data|
      && 0 <= CopySlot(f, s.writer.w, |s.writer.data|, s.writer.k, |s.buf|) < |s.buf|
    case WriterPublishes => s.writer.WCopy? && s.writer.k == |s.writer.data|
    case ReadCall(_) => s.reader.RIdle?
    case ReaderLoadsReader => s.reader.RSizing?
    case ReaderCopies =>
      && s.reader.RCopy?
      && |s.reader.scratch| < s.reader.n
      && 0 <= CopySlot(f, s.reader.r, s.reader.n, |s.reader.scratch|, |s.buf|) < |s.buf|
    case ReaderPublishes => s.reader.RCopy? && |s.reader.scratch| == s.reader.n
  }

  function Take(f: Flavour, s: State, step: Step): State
    requires Shape(s) && Enabled(f, s, step)
  {
    var cap := |s.buf|;
    match step
    case WriteCall(data) => s.(writer := WSizing(data, s.wpos))
    case WriterLoadsReader =>
      if |s.writer.data| > Writable(f, s.writer.w, s.rpos, cap) then s.(writer := WIdle)
      else s.(writer := WCopy(s.writer.data, s.wpos, 0))
    case WriterCopies =>
      var slot := CopySlot(f, s.writer.w, |s.writer.data|, s.writer.k, cap);
      s.(buf := s.buf[slot := s.writer.data[s.writer.k]],
         writer := s.writer.(k := s.writer.k + 1))
    case WriterPublishes =>
      s.(wpos := AfterCopy(f, s.writer.w, |s.writer.data|, cap),
         accepted := s.accepted + s.writer.data,
         writer := WIdle)
    case ReadCall(want) => s.(reader := RSizing(want, s.wpos))
    case ReaderLoadsReader =>
      var avail := Readable(f, s.reader.w, s.rpos, cap);
      (match ReadAmount(f, s.reader.want, if avail < 0 then 0 else avail)
       case None => s.(reader := RIdle)
       case Some(n) => s.(reader := RCopy(n, s.rpos, [])))
    case ReaderCopies =>
      var slot := CopySlot(f, s.reader.r, s.reader.n, |s.reader.scratch|, cap);
      s.(reader := s.reader.(scratch := s.reader.scratch + [s.buf[slot]]))
    case ReaderPublishes =>
      s.(rpos := AfterCopy(f, s.reader.r, s.reader.n, cap),
         delivered := s.delivered + s.reader.scratch,
         reader := RIdle)
  }

  /** `s'` is reached from `s` by exactly `steps`, each enabled when taken. */
  ghost predicate Run(f: Flavour, s: State, steps: seq<Step>, s': State)
    decreases |steps|
  {
    if steps == [] then s' == s
    else
      && Shape(s)
      && Enabled(f, s, steps[0])
      && Run(f, Take(f, s, steps[0]), steps[1..], s')
  }

  /** The bytes between the two cursors, oldest first: what is observable of the queue. */
  function Occupied(f: Flavour, s: State): seq<byte>
    requires Shape(s)
  {
    var n := Readable(f, s.wpos, s.rpos, |s.buf|);
    seq(if n < 0 then 0 else n, i requires 0 <= i => s.buf[Slot(s.rpos + i, |s.buf|)])
  }

  // ---------------------------------------------------------------- the invariant

  /** The ring holds `bytes` at stream positions `base`, `base + 1`, ... */
  ghost predicate Holds(buf: seq<byte>, base: nat, bytes: seq<byte>)
    requires |buf| > 0
  {
    forall i :: 0 <= i < |bytes| ==> buf[Slot(base + i, |buf|)] == bytes[i]
  }

  ghost predicate QueueInv(s: State) {
    var cap, W, R := |s.buf|, |s.accepted|, |s.delivered|;
    && 0 < cap < 0x4000_0000
    && R <= W < R + cap
    && s.wpos == Slot(W, cap)
    && s.rpos == Slot(R, cap)
    && s.delivered == s.accepted[..R]
    && Holds(s.buf, R, s.accepted[R..])
  }

  ghost predicate WriterInv(s: State)
    requires QueueInv(s)
  {
    var cap, W, R := |s.buf|, |s.accepted|, |s.delivered|;
    match s.writer
    case WIdle => true
    case WSizing(_, w) => w == s.wpos
    case WCopy(data, w, k) =>
      && w == s.wpos
      && k <= |data|
      && W + |data| < R + cap
      && Holds(s.buf, W, data[..k])
  }

  ghost predicate ReaderInv(s: State)
    requires QueueInv(s)
  {
    var cap, W, R := |s.buf|, |s.accepted|, |s.delivered|;
    match s.reader
    case RIdle => true
    case RSizing(_, w) => w < cap && Gap(s.rpos, w, cap) <= W - R
    case RCopy(n, r, scratch) =>
      && r == s.rpos
      && |scratch| <= n <= W - R
      && scratch == s.accepted[R..R + |scratch|]
  }

  ghost predicate Inv(s: State) {
    QueueInv(s) && WriterInv(s) && ReaderInv(s) && Shape(s)
  }

  /** Storing at stream position `q` does not disturb positions less than a turn before it. */
  lemma HoldsElsewhere(buf: seq<byte>, base: nat, bytes: seq<byte>, q: nat, v: byte)
    requires |buf| > 0 && Holds(buf, base, bytes)
    requires base + |bytes| <= q < base + |buf|
    ensures Holds(buf[Slot(q, |buf|) := v], base, bytes)
  {
    var buf' := buf[Slot(q, |buf|) := v];
    forall i | 0 <= i < |bytes|
      ensures buf'[Slot(base + i, |buf'|)] == bytes[i]
    {
      SlotDistinct(base + i, q, |buf|);
    }
  }

  lemma HoldsAppend(buf: seq<byte>, base: nat, a: seq<byte>, b: seq<byte>)
    requires |buf| > 0 && Holds(buf, base, a) && Holds(buf, base + |a|, b)
    ensures Holds(buf, base, a + b)
  {
    forall i | 0 <= i < |a + b|
      ensures buf[Slot(base + i, |buf|)] == (a + b)[i]
    {
      if i >= |a| {
        assert buf[Slot(base + |a| + (i - |a|), |buf|)] == b[i - |a|];
      }
    }
  }

  lemma HoldsPush(buf: seq<byte>, base: nat, bytes: seq<byte>, v: byte)
    requires |bytes| < |buf| && Holds(buf, base, bytes)
    ensures Holds(buf[Slot(base + |bytes|, |buf|) := v], base, bytes + [v])
  {
    HoldsElsewhere(buf, base, bytes, base + |bytes|, v);
    HoldsAppend(buf[Slot(base + |bytes|, |buf|) := v], base, bytes, [v]);
  }

  lemma SliceGrows(s: seq<byte>, a: nat, b: nat)
    requires a <= b < |s|
    ensures s[a..b] + [s[b]] == s[a..b + 1]
  {
  }

  lemma HoldsDrop(buf: seq<byte>, base: nat, bytes: seq<byte>, n: nat)
    requires |buf| > 0 && Holds(buf, base, bytes) && n <= |bytes|
    ensures Holds(buf, base + n, bytes[n..])
  {
    forall i | 0 <= i < |bytes| - n
      ensures buf[Slot(base + n + i, |buf|)] == bytes[n..][i]
    {
      assert buf[Slot(base + (n + i), |buf|)] == bytes[n + i];
    }
  }

  // ---------------------------------------------------------------- arithmetic of both flavours

  /** Both flavours measure the distance between the cursors and its complement. */
  lemma CursorsMeasure(f: Flavour, w: nat, r: nat, cap: nat)
    requires 0 < cap < 0x4000_0000 && w < cap && r < cap
    ensures Readable(f, w, r, cap) == Gap(r, w, cap)
    ensures Writable(f, w, r, cap) == cap - 1 - Gap(r, w, cap)
  {
    SlotReduce(w - r + cap, cap);
    SlotReduce(r - w + cap - 1, cap);
  }

  /** Both flavours touch the slot of `P + k` and publish the slot of `P + n`. */
  lemma CopyGoesRoundTheRing(f: Flavour, P: nat, n: nat, k: nat, cap: nat)
    requires 0 < cap && n < cap && k <= n
    ensures k < n ==> CopySlot(f, Slot(P, cap), n, k, cap) == Slot(P + k, cap)
    ensures AfterCopy(f, Slot(P, cap), n, cap) == Slot(P + n, cap)
  {
    var c := Slot(P, cap);
    SlotAdvance(P, k, cap);
    SlotAdvance(P, n, cap);
    var first := FirstPiece(c, n, cap);
    SlotReduce(c + n, cap);
    SlotReduce(c + first, cap);
    SlotReduce(n - first, cap);
  }

  // ---------------------------------------------------------------- one step keeps the invariant

  lemma StartInv(cap: nat)
    requires 0 < cap < 0x4000_0000
    ensures Inv(Start(cap))
  {
  }

  lemma WriterDecides(f: Flavour, s: State)
    requires Inv(s) && s.writer.WSizing?
    ensures Inv(Take(f, s, WriterLoadsReader))
  {
    CursorsMeasure(f, s.wpos, s.rpos, |s.buf|);
    SlotGap(|s.delivered|, |s.accepted|, |s.buf|);
  }

  /** One more byte of a block leaves the occupied region alone and extends the copied part. */
  lemma CopyOneByte(buf: seq<byte>, accepted: seq<byte>, R: nat, data: seq<byte>, k: nat)
    requires R <= |accepted| && k < |data| && |accepted| + |data| < R + |buf|
    requires Holds(buf, R, accepted[R..]) && Holds(buf, |accepted|, data[..k])
    ensures var buf' := buf[Slot(|accepted| + k, |buf|) := data[k]];
      Holds(buf', R, accepted[R..]) && Holds(buf', |accepted|, data[..k + 1])
  {
    HoldsElsewhere(buf, R, accepted[R..], |accepted| + k, data[k]);
    HoldsPush(buf, |accepted|, data[..k], data[k]);
    SliceGrows(data, 0, k);
  }

  /** The state after the writer has copied one more byte, in terms of stream positions. */
  function AfterOneByte(s: State): State
    requires |s.buf| > 0 && s.writer.WCopy? && s.writer.k < |s.writer.data|
  {
    s.(buf := s.buf[Slot(|s.accepted| + s.writer.k, |s.buf|) := s.writer.data[s.writer.k]],
       writer := WCopy(s.writer.data, s.writer.w, s.writer.k + 1))
  }

  lemma AfterOneByteInv(s: State)
    requires Inv(s) && s.writer.WCopy? && s.writer.k < |s.writer.data|
    ensures Inv(AfterOneByte(s))
  {
    hide Holds, Slot, Gap;
    CopyOneByte(s.buf, s.accepted, |s.delivered|, s.writer.data, s.writer.k);
  }

  lemma WriterCopiesInv(f: Flavour, s: State)
    requires Inv(s) && Enabled(f, s, WriterCopies)
    ensures Inv(Take(f, s, WriterCopies))
  {
    CopyGoesRoundTheRing(f, |s.accepted|, |s.writer.data|, s.writer.k, |s.buf|);
    AfterOneByteInv(s);
    assert Take(f, s, WriterCopies) == AfterOneByte(s);
  }

  /** A block copied after the occupied region joins it. */
  lemma PublishBlock(buf: seq<byte>, accepted: seq<byte>, R: nat, data: seq<byte>)
    requires R <= |accepted| && |buf| > 0
    requires Holds(buf, R, accepted[R..]) && Holds(buf, |accepted|, data[..|data|])
    ensures Holds(buf, R, (accepted + data)[R..])
    ensures (accepted + data)[..R] == accepted[..R]
    ensures (accepted + data)[R..] == accepted[R..] + data
    ensures forall b :: R <= b <= |accepted| ==> (accepted + data)[R..b] == accepted[R..b]
  {
    assert data[..|data|] == data;
    HoldsAppend(buf, R, accepted[R..], data);
    assert (accepted + data)[R..] == accepted[R..] + data;
  }

  lemma WriterPublishesInv(f: Flavour, s: State)
    requires Inv(s) && Enabled(f, s, WriterPublishes)
    ensures Inv(Take(f, s, WriterPublishes))
  {
    var data := s.writer.data;
    CopyGoesRoundTheRing(f, |s.accepted|, |data|, |data|, |s.buf|);
    PublishBlock(s.buf, s.accepted, |s.delivered|, data);
  }

  lemma ReaderDecides(f: Flavour, s: State)
    requires Inv(s) && s.reader.RSizing?
    ensures Inv(Take(f, s, ReaderLoadsReader))
  {
    CursorsMeasure(f, s.reader.w, s.rpos, |s.buf|);
  }

  lemma ReaderCopiesInv(f: Flavour, s: State)
    requires Inv(s) && Enabled(f, s, ReaderCopies)
    ensures Inv(Take(f, s, ReaderCopies))
  {
    var R, k := |s.delivered|, |s.reader.scratch|;
    CopyGoesRoundTheRing(f, R, s.reader.n, k, |s.buf|);
    assert s.buf[Slot(R + k, |s.buf|)] == s.accepted[R..][k];
    SliceGrows(s.accepted, R, R + k);
  }

  /** The state after `n` bytes have been read, in terms of stream positions. */
  function AfterRead(s: State, n: nat): State
    requires |s.buf| > 0 && |s.delivered| + n <= |s.accepted|
  {
    s.(rpos := Slot(|s.delivered| + n, |s.buf|), delivered := s.accepted[..|s.delivered| + n], reader := RIdle)
  }

  lemma AfterReadInv(s: State, n: nat)
    requires Inv(s) && |s.delivered| + n <= |s.accepted|
    ensures Inv(AfterRead(s, n))
  {
    hide Holds, Slot;
    var R := |s.delivered|;
    HoldsDrop(s.buf, R, s.accepted[R..], n);
    assert s.accepted[R..][n..] == s.accepted[R + n..];
  }

  lemma ReaderPublishesInv(f: Flavour, s: State)
    requires Inv(s) && Enabled(f, s, ReaderPublishes)
    ensures Inv(Take(f, s, ReaderPublishes))
  {
    hide Holds, CopySlot, Slot;
    var R, n := |s.delivered|, s.reader.n;
    CopyGoesRoundTheRing(f, R, n, n, |s.buf|);
    AfterReadInv(s, n);
    assert s.accepted[..R] + s.accepted[R..R + n] == s.accepted[..R + n];
    assert Take(f, s, ReaderPublishes) == AfterRead(s, n);
  }

  lemma StepInv(f: Flavour, s: State, step: Step)
    requires Inv(s) && Enabled(f, s, step)
    ensures Inv(Take(f, s, step))
  {
    match step
    case WriteCall(_) =>
    case WriterLoadsReader => WriterDecides(f, s);
    case WriterCopies => WriterCopiesInv(f, s);
    case WriterPublishes => WriterPublishesInv(f, s);
    case ReadCall(_) => SlotGap(|s.delivered|, |s.accepted|, |s.buf|);
    case ReaderLoadsReader => ReaderDecides(f, s);
    case ReaderCopies => ReaderCopiesInv(f, s);
    case ReaderPublishes => ReaderPublishesInv(f, s);
  }

  lemma {:induction false} RunInv(f: Flavour, s: State, steps: seq<Step>, s': State)
    requires Inv(s) && Run(f, s, steps, s')
    ensures Inv(s')
    decreases |steps|
  {
    if steps == [] {
    } else {
      StepInv(f, s, steps[0]);
      RunInv(f, Take(f, s, steps[0]), steps[1..], s');
    }
  }

  // ---------------------------------------------------------------- main results

  /** What the two cursors delimit is exactly the accepted bytes not yet delivered. */
  lemma OccupiedIsPending(f: Flavour, s: State)
    requires Inv(s)
    ensures Occupied(f, s) == s.accepted[|s.delivered|..]
  {
    var cap, W, R := |s.buf|, |s.accepted|, |s.delivered|;
    CursorsMeasure(f, s.wpos, s.rpos, cap);
    SlotGap(R, W, cap);
    var q := Occupied(f, s);
    forall i | 0 <= i < W - R
      ensures q[i] == s.accepted[R + i]
    {
      SlotAdvance(R, i, cap);
      SlotReduce(s.rpos + i, cap);
      assert s.buf[Slot(R + i, cap)] == s.accepted[R..][i];
    }
  }

  /**
   Stream integrity over every interleaving: the bytes read so far followed by the occupied
   region are the bytes accepted so far, whatever either thread is in the middle of.
   */
  lemma StreamIntegrity(f: Flavour, cap: nat, steps: seq<Step>, s: State)
    requires 0 < cap < 0x4000_0000
    requires Run(f, Start(cap), steps, s)
    ensures Shape(s)
    ensures s.delivered + Occupied(f, s) == s.accepted
    ensures |Occupied(f, s)| <= cap - 1
  {
    StartInv(cap);
    RunInv(f, Start(cap), steps, s);
    RunKeepsCapacity(f, Start(cap), steps, s);
    OccupiedIsPending(f, s);
  }

  lemma {:induction false} RunKeepsCapacity(f: Flavour, s: State, steps: seq<Step>, s': State)
    requires Run(f, s, steps, s')
    ensures |s'.buf| == |s.buf|
    decreases |steps|
  {
    if steps == [] {
    } else {
      RunKeepsCapacity(f, Take(f, s, steps[0]), steps[1..], s');
    }
  }

  /** In no reachable state do the two threads touch the same slot. */
  lemma NoSlotConflict(f: Flavour, cap: nat, steps: seq<Step>, s: State)
    requires 0 < cap < 0x4000_0000
    requires Run(f, Start(cap), steps, s)
    requires s.writer.WCopy? && s.writer.k < |s.writer.data|
    requires s.reader.RCopy? && |s.reader.scratch| < s.reader.n
    ensures Shape(s)
    ensures 0 <= CopySlot(f, s.writer.w, |s.writer.data|, s.writer.k, |s.buf|) < |s.buf|
    ensures 0 <= CopySlot(f, s.reader.r, s.reader.n, |s.reader.scratch|, |s.buf|) < |s.buf|
    ensures CopySlot(f, s.writer.w, |s.writer.data|, s.writer.k, |s.buf|)
         != CopySlot(f, s.reader.r, s.reader.n, |s.reader.scratch|, |s.buf|)
  {
    hide Holds, Run, CopySlot;
    StartInv(cap);
    RunInv(f, Start(cap), steps, s);
    var W, R := |s.accepted|, |s.delivered|;
    CopyGoesRoundTheRing(f, W, |s.writer.data|, s.writer.k, |s.buf|);
    CopyGoesRoundTheRing(f, R, s.reader.n, |s.reader.scratch|, |s.buf|);
    SlotDistinct(R + |s.reader.scratch|, W + s.writer.k, |s.buf|);
  }

  /** A thread that has started is never stuck: some step of it is enabled. */
  lemma NeitherThreadIsStuck(f: Flavour, s: State)
    requires Inv(s)
    ensures s.writer.WCopy? ==> Enabled(f, s, WriterCopies) || Enabled(f, s, WriterPublishes)
    ensures s.reader.RCopy? ==> Enabled(f, s, ReaderCopies) || Enabled(f, s, ReaderPublishes)
  {
    var W, R, cap := |s.accepted|, |s.delivered|, |s.buf|;
    if s.writer.WCopy? {
      CopyGoesRoundTheRing(f, W, |s.writer.data|, s.writer.k, cap);
    }
    if s.reader.RCopy? {
      CopyGoesRoundTheRing(f, R, s.reader.n, |s.reader.scratch|, cap);
    }
  }

  /**
   Refinement of an atomic queue. Publishing a write appends the whole block, publishing a read
   removes what the reader collected, and every other step leaves the observable queue alone.
   */
  lemma RefinesAtomicQueue(f: Flavour, s: State, step: Step)
    requires Inv(s) && Enabled(f, s, step)
    ensures Inv(Take(f, s, step))
    ensures var s' := Take(f, s, step);
      match step
      case WriterPublishes => Occupied(f, s') == Occupied(f, s) + s.writer.data
      case ReaderPublishes => s.reader.scratch + Occupied(f, s') == Occupied(f, s)
      case _ => Occupied(f, s') == Occupied(f, s)
  {
    StepInv(f, s, step);
    OccupiedIsPending(f, s);
    OccupiedIsPending(f, Take(f, s, step));
    if step.WriterPublishes? {
      PublishBlock(s.buf, s.accepted, |s.delivered|, s.writer.data);
    } else if step.ReaderPublishes? {
      TakenFirst(s.accepted, |s.delivered|, s.reader.n);
    }
  }

  lemma TakenFirst(accepted: seq<byte>, R: nat, n: nat)
    requires R + n <= |accepted|
    ensures accepted[R..R + n] + accepted[R + n..] == accepted[R..]
  {
  }

  /** A write is refused exactly when the queue is too full at the moment the reader's cursor is loaded. */
  lemma RefusedExactlyWhenFull(f: Flavour, s: State)
    requires Inv(s) && s.writer.WSizing?
    ensures Take(f, s, WriterLoadsReader).writer.WIdle?
       <==> |Occupied(f, s)| + |s.writer.data| > |s.buf| - 1
  {
    CursorsMeasure(f, s.wpos, s.rpos, |s.buf|);
    SlotGap(|s.delivered|, |s.accepted|, |s.buf|);
    OccupiedIsPending(f, s);
  }

  // ---------------------------------------------------------------- a whole read

  /** Bytes a read of `want` removes when it finds `avail` of them. */
  function Amount(f: Flavour, want: nat, avail: nat): (n: nat)
    ensures n <= avail
  {
    match ReadAmount(f, want, avail)
    case None => 0
    case Some(n) => n
  }

  /** Of the Xbox queue a read takes the most whole frames it may, of the ring all it asked for or nothing. */
  lemma TakesAllItMay(f: Flavour, want: nat, avail: nat)
    ensures f.XboxFifo? ==>
      && Amount(f, want, avail) <= want && Amount(f, want, avail) % 4 == 0
      && forall n: nat :: n <= want && n <= avail && n % 4 == 0 ==> n <= Amount(f, want, avail)
    ensures f.DesktopRing? ==> Amount(f, want, avail) == if want <= avail then want else 0
  {
    forall n: nat | f.XboxFifo? && n <= want && n <= avail && n % 4 == 0
      ensures n <= Amount(f, want, avail)
    {
    }
  }

  /** A read that started after `was` bytes were delivered, with `seen` bytes in the queue. */
  ghost predicate InRead(f: Flavour, s: State, want: nat, seen: nat, was: nat)
    requires Inv(s)
  {
    match s.reader
    case RSizing(want', w) => want' == want && Gap(s.rpos, w, |s.buf|) == seen && |s.delivered| == was
    case RCopy(n, _, _) => ReadAmount(f, want, seen) == Some(n) && |s.delivered| == was
    case RIdle => |s.delivered| == was + Amount(f, want, seen)
  }

  lemma StepInRead(f: Flavour, s: State, step: Step, want: nat, seen: nat, was: nat)
    requires Inv(s) && Enabled(f, s, step) && !step.ReadCall? && InRead(f, s, want, seen, was)
    ensures Inv(Take(f, s, step)) && InRead(f, Take(f, s, step), want, seen, was)
  {
    StepInv(f, s, step);
    hide CopySlot, AfterCopy, Slot, Writable, QueueInv, WriterInv;
    if step.ReaderLoadsReader? {
      CursorsMeasure(f, s.reader.w, s.rpos, |s.buf|);
    }
  }

  lemma StepKeepsAccepted(f: Flavour, s: State, step: Step)
    requires Inv(s) && Enabled(f, s, step)
    ensures s.accepted <= Take(f, s, step).accepted
  {
    hide CopySlot, AfterCopy, Slot, Writable, Readable, ReadAmount;
  }

  /** Steps within one call of read(). */
  ghost predicate OneRead(steps: seq<Step>) {
    forall i :: 0 <= i < |steps| ==> !steps[i].ReadCall?
  }

  lemma {:induction false} RunInRead(f: Flavour, s: State, steps: seq<Step>, s': State, want: nat, seen: nat, was: nat)
    requires Inv(s) && Run(f, s, steps, s') && OneRead(steps) && InRead(f, s, want, seen, was)
    ensures Inv(s') && InRead(f, s', want, seen, was) && s.accepted <= s'.accepted
    decreases |steps|
  {
    if steps == [] {
    } else {
      hide Inv, InRead, Take, Enabled;
      var t := Take(f, s, steps[0]);
      assert !steps[0].ReadCall?;
      StepInRead(f, s, steps[0], want, seen, was);
      StepKeepsAccepted(f, s, steps[0]);
      assert OneRead(steps[1..]);
      RunInRead(f, t, steps[1..], s', want, seen, was);
    }
  }

  /**
   One whole read() against any activity of the writer: it removes from the front exactly the
   amount it would have taken from the queue as it was when the write cursor was loaded, although
   more may have been published since.
   */
  lemma ReadTakesTheFront(f: Flavour, s: State, want: nat, steps: seq<Step>, s': State)
    requires Inv(s) && s.reader.RIdle?
    requires Run(f, Take(f, s, ReadCall(want)), steps, s') && OneRead(steps) && s'.reader.RIdle?
    ensures s'.delivered == s.delivered + Occupied(f, s)[..Amount(f, want, |Occupied(f, s)|)]
  {
    var s1 := Take(f, s, ReadCall(want));
    var R, seen := |s.delivered|, |Occupied(f, s)|;
    StepInv(f, s, ReadCall(want));
    OccupiedIsPending(f, s);
    SlotGap(R, |s.accepted|, |s.buf|);
    RunInRead(f, s1, steps, s', want, seen, R);
    hide Occupied, Take, Run, Amount, ReadAmount, Holds, WriterInv, Slot;
    FrontTaken(s.accepted, s'.accepted, R, Amount(f, want, seen));
  }

  lemma FrontTaken(accepted: seq<byte>, later: seq<byte>, R: nat, n: nat)
    requires accepted <= later && R + n <= |accepted|
    ensures later[..R + n] == accepted[..R] + accepted[R..][..n]
  {
  }
}
