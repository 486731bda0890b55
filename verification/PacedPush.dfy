/**
 What makes `push()` pace the emulator: it waits for room, for as long as the feeder makes progress,
 and a pass of the feeder that has made room signals it.
 */
module PacedPush {
  import opened Bytes
  import opened AudioPipeline

  // ---------------------------------------------------------------- push() waits

  /** What a call of push() meets: a try that finds room or none, a wait that is signalled or times out. */
  datatype Meeting = Room | Full | Woken | TimedOut

  function Met(s: State, step: Step): seq<Meeting> {
    match step
    case PushTries => if s.producer.Trying? then [if Fits(s, s.producer.block) then Room else Full] else []
    case PushWakes => [Woken]
    case PushTimesOut => [TimedOut]
    case _ => []
  }

  /** What is met along a run, in order. */
  function History(s: State, steps: seq<Step>): seq<Meeting>
    decreases |steps|
  {
    if steps == [] || !Shape(s) || !Enabled(s, steps[0]) then []
    else Met(s, steps[0]) + History(Take(s, steps[0]), steps[1..])
  }

  /** The last `n` waits timed out, each after a try that found no room. */
  predicate TimedOutInARow(h: seq<Meeting>, n: nat) {
    && 2 * n <= |h|
    && forall i :: 0 <= i < n ==> h[|h| - 1 - 2 * i] == TimedOut && h[|h| - 2 - 2 * i] == Full
  }

  /** What lets push() return: room, a first try without waiting, or five waits in a row that timed out. */
  predicate Settled(h: seq<Meeting>, wait: bool) {
    && h != []
    && (h[|h| - 1] == Room || (!wait && h[|h| - 1] == Full) || TimedOutInARow(h, MAX_TIMEOUTS))
  }

  predicate NotYetSettled(h: seq<Meeting>, wait: bool) {
    forall j :: 0 <= j <= |h| ==> !Settled(h[..j], wait)
  }

  /** push() has returned for the first thing that settles the call. */
  ghost predicate Returned(h: seq<Meeting>, wait: bool) {
    && Settled(h, wait)
    && NotYetSettled(h[..|h| - 1], wait)
  }

  lemma RowEnds(h: seq<Meeting>, n: nat)
    ensures TimedOutInARow(h, 0)
    ensures !TimedOutInARow(h + [Woken], n + 1) && !TimedOutInARow(h + [Room], n + 1)
    ensures !TimedOutInARow(h + [Full], n + 1)
  {
    var m := h + [Woken];
    assert m[|m| - 1 - 2 * 0] == Woken;
    var r := h + [Room];
    assert r[|r| - 1 - 2 * 0] == Room;
    var f := h + [Full];
    assert f[|f| - 1 - 2 * 0] == Full;
  }

  /** One more try and one more timeout. */
  lemma RowGrows(h: seq<Meeting>, n: nat)
    ensures TimedOutInARow(h, n) <==> TimedOutInARow(h + [Full, TimedOut], n + 1)
  {
    var l := h + [Full, TimedOut];
    assert l[|l| - 1] == TimedOut && l[|l| - 2] == Full;
    if TimedOutInARow(h, n) {
      forall i | 0 <= i < n + 1
        ensures l[|l| - 1 - 2 * i] == TimedOut && l[|l| - 2 - 2 * i] == Full
      {
        if i > 0 {
          assert h[|h| - 1 - 2 * (i - 1)] == TimedOut && h[|h| - 2 - 2 * (i - 1)] == Full;
        }
      }
    }
    if TimedOutInARow(l, n + 1) {
      forall i | 0 <= i < n
        ensures h[|h| - 1 - 2 * i] == TimedOut && h[|h| - 2 - 2 * i] == Full
      {
        assert l[|l| - 1 - 2 * (i + 1)] == TimedOut && l[|l| - 2 - 2 * (i + 1)] == Full;
      }
    }
  }

  lemma NotYetGrows(h: seq<Meeting>, m: Meeting, wait: bool)
    requires NotYetSettled(h, wait) && !Settled(h + [m], wait)
    ensures NotYetSettled(h + [m], wait)
  {
    hide Settled;
    var l := h + [m];
    forall j | 0 <= j <= |l|
      ensures !Settled(l[..j], wait)
    {
      if j == |l| {
        assert l[..j] == l;
      } else {
        assert l[..j] == h[..j];
      }
    }
  }

  lemma ReturnsWith(h: seq<Meeting>, m: Meeting, wait: bool)
    requires NotYetSettled(h, wait) && Settled(h + [m], wait)
    ensures Returned(h + [m], wait)
  {
    assert (h + [m])[..|h|] == h;
  }

  lemma ShorterRow(h: seq<Meeting>, n: nat, m: nat)
    requires n <= m && !TimedOutInARow(h, n)
    ensures !TimedOutInARow(h, m)
  {
  }

  /** After a try: the call has returned with room, or without waiting, or it has to wait. */
  ghost predicate TryEnded(h: seq<Meeting>, wait: bool, ok: bool, timeouts: nat) {
    if ok || !wait then Returned(h, wait) && h[|h| - 1] == (if ok then Room else Full) && (Room in h <==> ok)
    else
      && NotYetSettled(h, wait) && Room !in h && h != [] && h[|h| - 1] == Full && timeouts < MAX_TIMEOUTS
      && TimedOutInARow(h[..|h| - 1], timeouts) && !TimedOutInARow(h[..|h| - 1], timeouts + 1)
  }

  /** Between a wait and a try. */
  ghost predicate MayTry(h: seq<Meeting>, wait: bool, timeouts: nat) {
    && NotYetSettled(h, wait) && Room !in h
    && timeouts < MAX_TIMEOUTS && TimedOutInARow(h, timeouts) && !TimedOutInARow(h, timeouts + 1)
  }

  lemma NothingMetYet(wait: bool)
    ensures MayTry([], wait, 0)
  {
  }

  lemma TryEnds(h: seq<Meeting>, wait: bool, ok: bool, timeouts: nat)
    requires MayTry(h, wait, timeouts)
    ensures TryEnded(h + [if ok then Room else Full], wait, ok, timeouts)
  {
    hide TimedOutInARow, NotYetSettled, Returned;
    if ok {
      ReturnsWith(h, Room, wait);
    } else if wait {
      RowEnds(h, MAX_TIMEOUTS - 1);
      NotYetGrows(h, Full, wait);
      assert (h + [Full])[..|h|] == h;
    } else {
      ReturnsWith(h, Full, wait);
    }
  }

  lemma WaitEnds(h: seq<Meeting>, woken: bool, timeouts: nat)
    requires TryEnded(h, true, false, timeouts)
    ensures woken ==> MayTry(h + [Woken], true, 0)
    ensures !woken && timeouts + 1 < MAX_TIMEOUTS ==> MayTry(h + [TimedOut], true, timeouts + 1)
    ensures !woken && timeouts + 1 >= MAX_TIMEOUTS ==>
      Returned(h + [TimedOut], true) && TimedOutInARow(h + [TimedOut], MAX_TIMEOUTS) && Room !in h + [TimedOut]
  {
    hide TimedOutInARow, NotYetSettled, Returned;
    if woken {
      RowEnds(h, MAX_TIMEOUTS - 1);
      RowEnds(h, 0);
      RowEnds(h + [Woken], 0);
      NotYetGrows(h, Woken, true);
    } else {
      var before := h[..|h| - 1];
      assert h + [TimedOut] == before + [Full, TimedOut];
      RowGrows(before, timeouts);
      RowGrows(before, timeouts + 1);
      if timeouts + 1 >= MAX_TIMEOUTS {
        ReturnsWith(h, TimedOut, true);
      } else {
        ShorterRow(h + [TimedOut], timeouts + 2, MAX_TIMEOUTS);
        NotYetGrows(h, TimedOut, true);
      }
    }
  }

  lemma TryReturns(h: seq<Meeting>, wait: bool, ok: bool, timeouts: nat)
    requires TryEnded(h, wait, ok, timeouts) && (ok || !wait)
    ensures Returned(h, wait) && (ok <==> Room in h)
  {
  }

  /** How the state of push() follows from what it has met since it was called. */
  ghost predicate Remembers(p: Producer, h: seq<Meeting>, block: seq<byte>, wait: bool) {
    match p
    case Idle => Returned(h, wait)
    case Trying(b, w, timeouts) => b == block && w == wait && MayTry(h, wait, timeouts)
    case Waiting(b, timeouts) => b == block && wait && TryEnded(h, true, false, timeouts)
  }

  lemma TryRemembers(s: State, h: seq<Meeting>, block: seq<byte>, wait: bool)
    requires Shape(s) && s.producer.Trying? && Remembers(s.producer, h, block, wait)
    ensures Remembers(Take(s, PushTries).producer, h + Met(s, PushTries), block, wait)
  {
    hide MayTry, TryEnded, Returned, Fits;
    var ok, timeouts := Fits(s, block), s.producer.timeouts;
    TryEnds(h, wait, ok, timeouts);
    if ok || !wait {
      TryReturns(h + [if ok then Room else Full], wait, ok, timeouts);
    }
  }

  lemma WaitRemembers(s: State, step: Step, h: seq<Meeting>, block: seq<byte>, wait: bool)
    requires step.PushWakes? || step.PushTimesOut?
    requires Shape(s) && Enabled(s, step) && Remembers(s.producer, h, block, wait)
    ensures Remembers(Take(s, step).producer, h + Met(s, step), block, wait)
  {
    hide MayTry, TryEnded, Returned, TimedOutInARow;
    WaitEnds(h, step.PushWakes?, s.producer.timeouts);
  }

  lemma NothingMet(h: seq<Meeting>)
    ensures h + [] == h
  {
  }

  lemma StepRemembers(s: State, step: Step, h: seq<Meeting>, block: seq<byte>, wait: bool)
    requires Shape(s) && Enabled(s, step) && !step.PushCall? && Remembers(s.producer, h, block, wait)
    ensures Remembers(Take(s, step).producer, h + Met(s, step), block, wait)
  {
    hide Remembers, Overlay, Fetched;
    match step {
      case PushTries => TryRemembers(s, h, block, wait);
      case PushWakes => WaitRemembers(s, step, h, block, wait);
      case PushTimesOut => WaitRemembers(s, step, h, block, wait);
      case PushCall(_, _) =>
      case PassStarts(_) => NothingMet(h);
      case Chunk(_, _) => NothingMet(h);
      case PassEnds => NothingMet(h);
    }
  }

  lemma {:induction false} RunRemembers(
    s: State, steps: seq<Step>, s': State, h: seq<Meeting>, block: seq<byte>, wait: bool)
    requires Run(s, steps, s') && OneCall(steps) && Remembers(s.producer, h, block, wait)
    ensures Remembers(s'.producer, h + History(s, steps), block, wait)
    decreases |steps|
  {
    hide Remembers, Take, Met;
    if steps == [] {
      assert h + [] == h;
    } else {
      var t, m := Take(s, steps[0]), Met(s, steps[0]);
      assert !steps[0].PushCall?;
      StepRemembers(s, steps[0], h, block, wait);
      RunRemembers(t, steps[1..], s', h + m, block, wait);
      assert h + m + History(t, steps[1..]) == h + (m + History(t, steps[1..]));
    }
  }

  /** The stream has grown by the block exactly when a try has found room. */
  predicate Grown(s: State, h: seq<Meeting>, accepted: seq<byte>, block: seq<byte>) {
    && (s.producer.Idle? || s.producer.block == block)
    && s.accepted == (if Room in h then accepted + block else accepted)
    && (Room in h ==> s.producer.Idle?)
  }

  lemma StepGrown(s: State, step: Step, h: seq<Meeting>, accepted: seq<byte>, block: seq<byte>)
    requires Shape(s) && Enabled(s, step) && !step.PushCall? && Grown(s, h, accepted, block)
    ensures Grown(Take(s, step), h + Met(s, step), accepted, block)
  {
    hide Overlay, Fetched, Fits;
  }

  lemma {:induction false} RunGrown(
    s: State, steps: seq<Step>, s': State, h: seq<Meeting>, accepted: seq<byte>, block: seq<byte>)
    requires Run(s, steps, s') && OneCall(steps) && Grown(s, h, accepted, block)
    ensures Grown(s', h + History(s, steps), accepted, block)
    decreases |steps|
  {
    hide Grown, Take, Met;
    if steps == [] {
      assert h + [] == h;
    } else {
      var t, m := Take(s, steps[0]), Met(s, steps[0]);
      assert !steps[0].PushCall?;
      StepGrown(s, steps[0], h, accepted, block);
      RunGrown(t, steps[1..], s', h + m, accepted, block);
      assert h + m + History(t, steps[1..]) == h + (m + History(t, steps[1..]));
    }
  }

  /**
   push() waits for room. In every interleaving with the feeder a call returns exactly when a try finds
   room, when the only try of a call without `wait` finds none, or when five waits in a row have timed
   out, each after a try that found no room; and the block is accepted exactly in the first case.
   */
  lemma PushWaitsForRoom(s: State, block: seq<byte>, wait: bool, steps: seq<Step>, s': State)
    requires Shape(s) && Enabled(s, PushCall(block, wait))
    requires Run(Take(s, PushCall(block, wait)), steps, s') && OneCall(steps)
    ensures var h := History(Take(s, PushCall(block, wait)), steps);
      && (s'.producer.Idle? ==> Returned(h, wait))
      && (!s'.producer.Idle? ==> NotYetSettled(h, wait))
      && s'.accepted == (if Room in h then s.accepted + block else s.accepted)
  {
    var t := Take(s, PushCall(block, wait));
    hide Take, History, Run, OneCall;
    RowEnds([], 0);
    RunRemembers(t, steps, s', [], block, wait);
    RunGrown(t, steps, s', [], s.accepted, block);
    assert [] + History(t, steps) == History(t, steps);
  }

  /** A call that gives up has waited: its last ten meetings are five failed tries, each with a wait that timed out. */
  lemma GivesUpAfterFiveTimeouts(s: State, block: seq<byte>, steps: seq<Step>, s': State)
    requires Shape(s) && Enabled(s, PushCall(block, true))
    requires Run(Take(s, PushCall(block, true)), steps, s') && OneCall(steps)
    requires s'.producer.Idle? && s'.accepted != s.accepted + block
    ensures TimedOutInARow(History(Take(s, PushCall(block, true)), steps), 5)
  {
    PushWaitsForRoom(s, block, true, steps, s');
  }

  // ---------------------------------------------------------------- a pass signals

  /** Inside a pass that started with `fetched` bytes fetched. */
  predicate Draining(s: State, fetched: nat) {
    s.inPass && fetched <= |AudioOf(s.log)| && (s.drained <==> |AudioOf(s.log)| > fetched)
  }

  lemma StepDraining(s: State, step: Step, fetched: nat)
    requires Shape(s) && Enabled(s, step) && !step.PassStarts? && !step.PassEnds? && Draining(s, fetched)
    ensures Draining(Take(s, step), fetched)
  {
    hide Overlay, Rendered, Fits;
    if step.Chunk? {
      AppendSlice(s.log, Fetched(s, step.seen, step.lockOk));
    }
  }

  lemma {:induction false} RunDraining(s: State, steps: seq<Step>, s': State, fetched: nat)
    requires Run(s, steps, s') && Draining(s, fetched)
    requires forall i :: 0 <= i < |steps| ==> !steps[i].PassStarts? && !steps[i].PassEnds?
    ensures Draining(s', fetched)
    decreases |steps|
  {
    hide Draining, Take;
    if steps == [] {
    } else {
      StepDraining(s, steps[0], fetched);
      RunDraining(Take(s, steps[0]), steps[1..], s', fetched);
    }
  }

  /** A pass sets the event exactly when it has fetched audio; otherwise it leaves the event alone. */
  lemma PassSignals(s: State, play: nat, steps: seq<Step>, s': State)
    requires Shape(s) && Enabled(s, PassStarts(play))
    requires Shape(Take(s, PassStarts(play))) && Run(Take(s, PassStarts(play)), steps, s') && Shape(s')
    requires forall i :: 0 <= i < |steps| ==> !steps[i].PassStarts? && !steps[i].PassEnds?
    requires Enabled(s', PassEnds)
    ensures |AudioOf(s.log)| <= |AudioOf(s'.log)|
    ensures Take(s', PassEnds).event == (s'.event || |AudioOf(s'.log)| > |AudioOf(s.log)|)
  {
    hide Run;
    RunDraining(Take(s, PassStarts(play)), steps, s', |AudioOf(s.log)|);
  }
}
