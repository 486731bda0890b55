/** Sorted translucent triangles: drawing runs of entries at once instead of one by one. */
module Coalesce {
  import opened Bytes

  /** An entry of the sorted list: a run of indices and the material it is drawn with. */
  datatype Entry = Entry(first: u32, count: u32, poly: u32)

  /** A draw call, and the range of entries it stands for. */
  datatype Batch = Batch(poly: u32, first: u32, count: nat, from: nat, end: nat)

  /** What is drawn: a material and the index at which a triangle starts. */
  datatype Triangle = Triangle(poly: u32, at: int)

  datatype Scene = Scene(entries: seq<Entry>, indices: int, polys: nat)

  /** Index runs lie below 2^31, where the bounds test of the renderer is what it looks like. */
  ghost predicate InRange(s: Scene) {
    forall k :: 0 <= k < |s.entries| ==> s.entries[k].first + s.entries[k].count < 0x8000_0000
  }

  predicate Fits(s: Scene, e: Entry) {
    e.count >= 3 && S32(e.first + e.count) <= s.indices
  }

  predicate Valid(s: Scene, e: Entry) {
    Fits(s, e) && e.poly < s.polys
  }

  /** Entry `k` continues the run of the entry before it. */
  predicate Joins(s: Scene, k: nat)
    requires 0 < k < |s.entries|
  {
    var prev, e := s.entries[k - 1], s.entries[k];
    e.poly == prev.poly && e.first == U32(prev.first + prev.count) && Fits(s, e)
  }

  function RunEnd(s: Scene, j: nat): (r: nat)
    requires 0 < j <= |s.entries|
    ensures j <= r <= |s.entries|
    decreases |s.entries| - j
  {
    if j < |s.entries| && Joins(s, j) then RunEnd(s, j + 1) else j
  }

  function Total(s: Scene, from: nat, end: nat): nat
    requires from <= end <= |s.entries|
  {
    if from == end then 0 else Total(s, from, end - 1) + s.entries[end - 1].count
  }

  function BatchOf(s: Scene, from: nat, end: nat): Batch
    requires from < end <= |s.entries|
  {
    Batch(s.entries[from].poly, s.entries[from].first, Total(s, from, end), from, end)
  }

  function Batches(s: Scene, i: nat): seq<Batch>
    requires i <= |s.entries|
    decreases |s.entries| - i
  {
    if i == |s.entries| then []
    else if !Valid(s, s.entries[i]) then Batches(s, i + 1)
    else
      var j := RunEnd(s, i + 1);
      [BatchOf(s, i, j)] + Batches(s, j)
  }

  /** The inner loop of `drawSortedTr`: the run that starts with entry `i` is extended as far as it goes. */
  method ExtendRun(s: Scene, i: nat) returns (j: nat, runCount: nat)
    requires InRange(s) && i < |s.entries|
    ensures j == RunEnd(s, i + 1) && runCount == Total(s, i, j)
  {
    hide Fits;
    var e := s.entries[i];
    runCount := e.count;
    j := i + 1;
    while j < |s.entries|
      invariant i < j <= |s.entries| && RunEnd(s, j) == RunEnd(s, i + 1)
      invariant runCount == Total(s, i, j)
      invariant s.entries[j - 1].poly == e.poly
      invariant e.first + runCount == s.entries[j - 1].first + s.entries[j - 1].count
    {
      var next := s.entries[j];
      assert U32(e.first + runCount) == e.first + runCount;
      if next.poly != e.poly || next.first != U32(e.first + runCount) || !Fits(s, next) {
        break;
      }
      runCount := runCount + next.count;
      j := j + 1;
    }
  }

  /** The outer loop of `drawSortedTr`. */
  method DrawSorted(s: Scene) returns (draws: seq<Batch>)
    requires InRange(s)
    ensures draws == Batches(s, 0)
  {
    hide Valid, RunEnd, Total, InRange;
    draws := [];
    var i := 0;
    while i < |s.entries|
      invariant i <= |s.entries| && draws + Batches(s, i) == Batches(s, 0)
    {
      var e := s.entries[i];
      if !Valid(s, e) {
        i := i + 1;
        continue;
      }
      var j, runCount := ExtendRun(s, i);
      var batch := Batch(e.poly, e.first, runCount, i, j);
      assert draws + ([batch] + Batches(s, j)) == draws + [batch] + Batches(s, j);
      draws := draws + [batch];
      i := j;
    }
  }

  // ---------------------------------------------------------------- what is drawn

  function Triangles(poly: u32, first: int, count: nat): (t: seq<Triangle>)
    ensures |t| == count / 3
  {
    seq(count / 3, k => Triangle(poly, first + 3 * k))
  }

  function Drawn(draws: seq<Batch>): seq<Triangle> {
    if draws == [] then [] else Triangles(draws[0].poly, draws[0].first, draws[0].count) + Drawn(draws[1..])
  }

  /** Every valid entry drawn by itself, in order. */
  function Alone(s: Scene, from: nat, end: nat): seq<Triangle>
    requires from <= end <= |s.entries|
  {
    if from == end then []
    else
      var e := s.entries[end - 1];
      Alone(s, from, end - 1) + (if Valid(s, e) then Triangles(e.poly, e.first, e.count) else [])
  }

  lemma {:induction false} AloneSplit(s: Scene, from: nat, mid: nat, end: nat)
    requires from <= mid <= end <= |s.entries|
    ensures Alone(s, from, end) == Alone(s, from, mid) + Alone(s, mid, end)
    decreases end
  {
    hide Valid, Triangles;
    if mid >= end {
    } else {
      AloneSplit(s, from, mid, end - 1);
    }
  }

  // ---------------------------------------------------------------- one run

  /** `from..to` is part of a run: a valid entry and entries that join it. */
  ghost predicate IsRun(s: Scene, from: nat, end: nat) {
    && from < end <= |s.entries| && Valid(s, s.entries[from])
    && forall k :: from < k < end ==> Joins(s, k)
  }

  /** Every entry but the last is made of whole triangles. */
  ghost predicate Whole(s: Scene, from: nat, end: nat)
    requires from < end <= |s.entries|
  {
    forall k :: from <= k < end - 1 ==> s.entries[k].count % 3 == 0
  }

  /** In a run, the entries are valid, of one material, and each starts where the total so far puts it. */
  lemma {:induction false} RunEntry(s: Scene, from: nat, k: nat)
    requires InRange(s) && IsRun(s, from, k + 1)
    ensures Valid(s, s.entries[k]) && s.entries[k].poly == s.entries[from].poly && s.entries[k].count >= 3
    ensures s.entries[k].first == s.entries[from].first + Total(s, from, k)
    decreases k
  {
    hide S32;
    if k <= from {
    } else {
      RunEntry(s, from, k - 1);
      assert Joins(s, k);
      assert U32(s.entries[k - 1].first + s.entries[k - 1].count) == s.entries[k - 1].first + s.entries[k - 1].count;
    }
  }

  lemma {:induction false} WholeTotal(s: Scene, from: nat, end: nat)
    requires from < end <= |s.entries| && Whole(s, from, end)
    ensures Total(s, from, end - 1) % 3 == 0
    decreases end
  {
    if from >= end - 1 {
    } else {
      WholeTotal(s, from, end - 1);
    }
  }

  /** One more entry after a whole number of triangles, or after a broken one. */
  lemma DrawnStep(done: seq<Triangle>, poly: u32, first: int, n: nat, count: nat)
    requires done == Triangles(poly, first, n) && count >= 3
    ensures var all, run := done + Triangles(poly, first + n, count), Triangles(poly, first, n + count);
      && |all| <= |run|
      && (n % 3 == 0 ==> all == run)
      && (n % 3 != 0 ==> |done| < |all| && all[|done|] != run[|done|])
  {
    if n % 3 == 0 {
      SplitTriangles(poly, first, n, count);
    } else {
      var all := done + Triangles(poly, first + n, count);
      assert all[|done|] == Triangle(poly, first + n);
    }
  }

  /** A difference stays where it is when more is drawn. */
  lemma DifferenceStays(done: seq<Triangle>, more: seq<Triangle>, poly: u32, first: int, n: nat, count: nat, t: nat)
    requires |done| <= n / 3 && t < |done| && done[t] != Triangles(poly, first, n)[t]
    requires |more| == count / 3
    ensures |done + more| <= |Triangles(poly, first, n + count)|
    ensures t < |done + more| && (done + more)[t] != Triangles(poly, first, n + count)[t]
  {
  }

  /** A whole run is drawn as its entries are; otherwise some triangle of the entries is drawn differently. */
  lemma {:induction false} RunDrawn(s: Scene, from: nat, end: nat) returns (t: nat)
    requires InRange(s) && IsRun(s, from, end)
    ensures var e := s.entries[from];
      var run := Triangles(e.poly, e.first, Total(s, from, end));
      && |Alone(s, from, end)| <= |run|
      && (Whole(s, from, end) ==> Alone(s, from, end) == run)
      && (!Whole(s, from, end) ==> t < |Alone(s, from, end)| && Alone(s, from, end)[t] != run[t])
    decreases end
  {
    hide Valid, Joins, Triangles, InRange;
    var e, last := s.entries[from], s.entries[end - 1];
    var n := Total(s, from, end - 1);
    RunEntry(s, from, end - 1);
    var done := Alone(s, from, end - 1);
    t := 0;
    if from == end - 1 {
      assert [] + Triangles(e.poly, e.first, last.count) == Triangles(e.poly, e.first, last.count);
    } else {
      t := RunDrawn(s, from, end - 1);
      if Whole(s, from, end - 1) {
        DrawnStep(done, e.poly, e.first, n, last.count);
        WholeIff(s, from, end);
        if n % 3 != 0 {
          t := |done|;
        }
      } else {
        DifferenceStays(done, Triangles(last.poly, last.first, last.count), e.poly, e.first, n, last.count, t);
      }
    }
  }

  lemma SplitTriangles(poly: u32, first: int, n: nat, count: nat)
    requires n % 3 == 0
    ensures Triangles(poly, first, n + count) == Triangles(poly, first, n) + Triangles(poly, first + n, count)
  {
    assert (n + count) / 3 == n / 3 + count / 3;
  }

  lemma WholeIff(s: Scene, from: nat, end: nat)
    requires from + 1 < end <= |s.entries| && Whole(s, from, end - 1)
    ensures Whole(s, from, end) <==> Total(s, from, end - 1) % 3 == 0
  {
    WholeTotal(s, from, end - 1);
  }

  // ---------------------------------------------------------------- the whole list

  /** Wherever an entry continues the run of the entry before it, that entry is made of whole triangles. */
  ghost predicate JoinsAreWhole(s: Scene, from: nat) {
    forall k :: from < k < |s.entries| && Valid(s, s.entries[k - 1]) && Joins(s, k) ==> s.entries[k - 1].count % 3 == 0
  }

  lemma {:induction false} RunEndIsRun(s: Scene, from: nat, j: nat)
    requires IsRun(s, from, j)
    ensures IsRun(s, from, RunEnd(s, j))
    ensures RunEnd(s, j) < |s.entries| ==> !Joins(s, RunEnd(s, j))
    decreases |s.entries| - j
  {
    hide Valid, Joins;
    if j < |s.entries| && Joins(s, j) {
      RunEndIsRun(s, from, j + 1);
    }
  }

  /** The joins from the start of a run on are those inside it, which make it whole, and those after it. */
  lemma JoinsOfRun(s: Scene, from: nat)
    requires InRange(s) && from < |s.entries| && Valid(s, s.entries[from])
    ensures var end := RunEnd(s, from + 1);
      from < end <= |s.entries| && (JoinsAreWhole(s, from) <==> Whole(s, from, end) && JoinsAreWhole(s, end))
  {
    hide Joins, RunEnd;
    var end := RunEnd(s, from + 1);
    RunEndIsRun(s, from, from + 1);
    forall k | from <= k < end
      ensures Valid(s, s.entries[k])
    {
      RunEntry(s, from, k);
    }
    if JoinsAreWhole(s, from) {
      forall k | from <= k < end - 1
        ensures s.entries[k].count % 3 == 0
      {
        assert Joins(s, k + 1) && Valid(s, s.entries[k + 1 - 1]);
      }
    }
    if Whole(s, from, end) && JoinsAreWhole(s, end) {
      forall k | from < k < |s.entries| && Valid(s, s.entries[k - 1]) && Joins(s, k)
        ensures s.entries[k - 1].count % 3 == 0
      {
        assert k != end;
      }
    }
  }

  lemma {:induction false} DrawnFrom(s: Scene, i: nat) returns (t: nat)
    requires InRange(s) && i <= |s.entries|
    ensures JoinsAreWhole(s, i) ==> Drawn(Batches(s, i)) == Alone(s, i, |s.entries|)
    ensures !JoinsAreWhole(s, i) ==>
      && t < |Drawn(Batches(s, i))| && t < |Alone(s, i, |s.entries|)|
      && Drawn(Batches(s, i))[t] != Alone(s, i, |s.entries|)[t]
    decreases |s.entries| - i
  {
    hide Joins, Triangles, RunEnd, Total;
    t := 0;
    if i >= |s.entries| {
    } else {
      if !Valid(s, s.entries[i]) {
        t := DrawnFrom(s, i + 1);
        AloneSplit(s, i, i + 1, |s.entries|);
        assert Alone(s, i, i + 1) == [] by { assert Alone(s, i, i) == []; }
        assert JoinsAreWhole(s, i) <==> JoinsAreWhole(s, i + 1);
      } else {
        t := DrawnFromRun(s, i);
      }
    }
  }

  lemma {:induction false} DrawnFromRun(s: Scene, i: nat) returns (t: nat)
    requires InRange(s) && i < |s.entries| && Valid(s, s.entries[i])
    ensures JoinsAreWhole(s, i) ==> Drawn(Batches(s, i)) == Alone(s, i, |s.entries|)
    ensures !JoinsAreWhole(s, i) ==>
      && t < |Drawn(Batches(s, i))| && t < |Alone(s, i, |s.entries|)|
      && Drawn(Batches(s, i))[t] != Alone(s, i, |s.entries|)[t]
    decreases |s.entries| - i, 0
  {
    hide Joins, Triangles, RunEnd, Total, Whole, JoinsAreWhole;
    var e, end := s.entries[i], RunEnd(s, i + 1);
    var run := Triangles(e.poly, e.first, Total(s, i, end));
    RunEndIsRun(s, i, i + 1);
    JoinsOfRun(s, i);
    AloneSplit(s, i, end, |s.entries|);
    assert Drawn(Batches(s, i)) == run + Drawn(Batches(s, end)) by {
      assert Batches(s, i)[1..] == Batches(s, end);
    }
    t := RunDrawn(s, i, end);
    if Whole(s, i, end) {
      var u := DrawnFrom(s, end);
      t := |run| + u;
    }
  }

  /**
   The coalesced draws give the same triangles with the same materials, in the same order, as drawing
   every valid entry by itself, exactly when every entry that is continued is made of whole triangles.
   */
  lemma CoalescingPreservesDrawing(s: Scene)
    requires InRange(s)
    ensures Drawn(Batches(s, 0)) == Alone(s, 0, |s.entries|) <==> JoinsAreWhole(s, 0)
  {
    hide Drawn, Batches, Alone, JoinsAreWhole;
    var t := DrawnFrom(s, 0);
  }

  /** In particular when every count is a multiple of three. */
  lemma WholeTrianglesPreserved(s: Scene)
    requires InRange(s) && forall k :: 0 <= k < |s.entries| ==> s.entries[k].count % 3 == 0
    ensures Drawn(Batches(s, 0)) == Alone(s, 0, |s.entries|)
  {
    CoalescingPreservesDrawing(s);
  }

  // ---------------------------------------------------------------- nothing left to merge

  predicate Mergeable(a: Batch, b: Batch) {
    a.poly == b.poly && b.first == a.first + a.count
  }

  /** Each draw stands for a maximal run; the first one starts no earlier than `i`. */
  lemma {:induction false} BatchIsRun(s: Scene, i: nat, k: nat)
    requires i <= |s.entries| && k < |Batches(s, i)|
    ensures var b := Batches(s, i)[k];
      && i <= b.from && IsRun(s, b.from, b.end) && b == BatchOf(s, b.from, b.end)
      && (b.end < |s.entries| ==> !Joins(s, b.end))
    decreases |s.entries| - i
  {
    hide Valid, Joins;
    if !Valid(s, s.entries[i]) {
      BatchIsRun(s, i + 1, k);
    } else {
      var end := RunEnd(s, i + 1);
      RunEndIsRun(s, i, i + 1);
      if k > 0 {
        BatchIsRun(s, end, k - 1);
      }
    }
  }

  /** Entry `j` continues the valid entry `i`, with only entries that are skipped, at least one, between them. */
  predicate ContinuedAfterGap(s: Scene, i: nat, j: nat) {
    && i + 1 < j < |s.entries|
    && Valid(s, s.entries[i]) && Valid(s, s.entries[j])
    && (forall k :: i < k < j ==> !Valid(s, s.entries[k]))
    && s.entries[j].poly == s.entries[i].poly
    && s.entries[j].first == s.entries[i].first + s.entries[i].count
  }

  /** A batch ends where its last entry ends. */
  lemma BatchEnd(s: Scene, from: nat, end: nat)
    requires InRange(s) && IsRun(s, from, end)
    ensures var b, last := BatchOf(s, from, end), s.entries[end - 1];
      Valid(s, last) && b.poly == last.poly && b.first + b.count == last.first + last.count
  {
    hide Joins;
    RunEntry(s, from, end - 1);
  }

  /** Entries that are skipped make no difference to what comes after. */
  lemma {:induction false} SkipTo(s: Scene, i: nat, q: nat)
    requires i <= q <= |s.entries| && forall k :: i <= k < q ==> !Valid(s, s.entries[k])
    ensures Batches(s, i) == Batches(s, q)
    decreases q - i
  {
    if i >= q {
    } else {
      SkipTo(s, i + 1, q);
    }
  }

  lemma {:induction false} FirstBatch(s: Scene, i: nat)
    requires i <= |s.entries| && Batches(s, i) != []
    ensures i <= Batches(s, i)[0].from <= |s.entries|
    ensures forall k :: i <= k < Batches(s, i)[0].from ==> !Valid(s, s.entries[k])
    decreases |s.entries| - i
  {
    hide Valid, RunEnd, Total;
    if Valid(s, s.entries[i]) {
    } else {
      FirstBatch(s, i + 1);
    }
  }

  /** Only entries that are skipped lie between two neighbouring batches. */
  lemma {:induction false} GapInvalid(s: Scene, i: nat, n: nat)
    requires i <= |s.entries| && n + 1 < |Batches(s, i)|
    ensures var a, b := Batches(s, i)[n], Batches(s, i)[n + 1];
      a.end <= b.from <= |s.entries| && forall k :: a.end <= k < b.from ==> !Valid(s, s.entries[k])
    decreases |s.entries| - i
  {
    hide Valid, RunEnd, Total;
    if !Valid(s, s.entries[i]) {
      GapInvalid(s, i + 1, n);
    } else {
      var end := RunEnd(s, i + 1);
      if n == 0 {
        FirstBatch(s, end);
      } else {
        GapInvalid(s, end, n - 1);
      }
    }
  }

  /** Two neighbouring batches that could be merged are an entry continued after a gap. */
  lemma MergeableGap(s: Scene, n: nat)
    requires InRange(s) && n + 1 < |Batches(s, 0)| && Mergeable(Batches(s, 0)[n], Batches(s, 0)[n + 1])
    ensures Batches(s, 0)[n].end > 0 && ContinuedAfterGap(s, Batches(s, 0)[n].end - 1, Batches(s, 0)[n + 1].from)
  {
    hide Batches, Total, S32;
    BatchIsRun(s, 0, n);
    BatchIsRun(s, 0, n + 1);
    GapInvalid(s, 0, n);
    var a, b := Batches(s, 0)[n], Batches(s, 0)[n + 1];
    BatchEnd(s, a.from, a.end);
    var last := s.entries[a.end - 1];
    assert U32(last.first + last.count) == last.first + last.count;
  }

  /** An entry continued after a gap ends its batch, and the next batch starts with what continues it. */
  lemma {:induction false} GapMergeable(s: Scene, i: nat, p: nat, q: nat) returns (n: nat)
    requires InRange(s) && i <= p && ContinuedAfterGap(s, p, q)
    ensures n + 1 < |Batches(s, i)| && Mergeable(Batches(s, i)[n], Batches(s, i)[n + 1])
    decreases |s.entries| - i
  {
    hide Valid, RunEnd, Total, Joins, InRange;
    if !Valid(s, s.entries[i]) {
      n := GapMergeable(s, i + 1, p, q);
    } else {
      var end := RunEnd(s, i + 1);
      RunEndIsRun(s, i, i + 1);
      if end <= p {
        var m := GapMergeable(s, end, p, q);
        n := m + 1;
      } else {
        if p + 1 < end {
          RunEntry(s, i, p + 1);
          assert false;
        }
        BatchEnd(s, i, end);
        SkipTo(s, end, q);
        n := 0;
      }
    }
  }

  /** Draw `n` and the one after it could be one draw. */
  predicate MergeableAt(draws: seq<Batch>, n: nat) {
    n + 1 < |draws| && Mergeable(draws[n], draws[n + 1])
  }

  /** Two neighbouring draws can still be merged exactly when the list continues an entry after skipping others. */
  lemma NothingLeftToMerge(s: Scene)
    requires InRange(s)
    ensures (exists n :: MergeableAt(Batches(s, 0), n)) <==> (exists i, j :: ContinuedAfterGap(s, i, j))
  {
    hide Batches, Mergeable, ContinuedAfterGap, InRange;
    if n :| MergeableAt(Batches(s, 0), n) {
      MergeableGap(s, n);
    }
    if i, j :| ContinuedAfterGap(s, i, j) {
      var n := GapMergeable(s, 0, i, j);
      assert MergeableAt(Batches(s, 0), n);
    }
  }

  /** An entry without a whole triangle between two runs keeps them apart. */
  lemma SkippedEntryKeepsApart()
    ensures var s := Scene([Entry(0, 3, 0), Entry(3, 0, 0), Entry(3, 3, 0)], 6, 1);
      && InRange(s) && |Batches(s, 0)| == 2
      && Mergeable(Batches(s, 0)[0], Batches(s, 0)[1])
  {
    var s := Scene([Entry(0, 3, 0), Entry(3, 0, 0), Entry(3, 3, 0)], 6, 1);
    assert Batches(s, 3) == [];
    assert Total(s, 2, 3) == 3 && Total(s, 0, 1) == 3 by {
      assert Total(s, 2, 2) == 0 && Total(s, 0, 0) == 0;
    }
    assert Batches(s, 2) == [BatchOf(s, 2, 3)];
    assert Batches(s, 1) == Batches(s, 2);
    assert !Joins(s, 1);
    assert RunEnd(s, 1) == 1;
    assert Batches(s, 0) == [BatchOf(s, 0, 1)] + Batches(s, 1);
  }

  // ---------------------------------------------------------------- no draw leaves its buffers

  /** Every draw has a material, whole triangles, and indices inside the index buffer. */
  lemma DrawsAreInside(s: Scene, n: nat)
    requires InRange(s) && n < |Batches(s, 0)|
    ensures var b := Batches(s, 0)[n];
      b.poly < s.polys && b.count >= 3 && b.first + b.count <= s.indices
  {
    hide Batches, Joins;
    BatchIsRun(s, 0, n);
    var b := Batches(s, 0)[n];
    RunEntry(s, b.from, b.end - 1);
    BatchEnd(s, b.from, b.end);
    var last := s.entries[b.end - 1];
    assert last.first + last.count < 0x8000_0000;
    assert S32(last.first + last.count) == last.first + last.count;
  }

  /** No entry that fits is left out: it belongs to some draw. */
  lemma {:induction false} ValidIsDrawn(s: Scene, i: nat, k: nat) returns (n: nat)
    requires InRange(s) && i <= k < |s.entries| && Valid(s, s.entries[k])
    ensures n < |Batches(s, i)| && Batches(s, i)[n].from <= k < Batches(s, i)[n].end
    decreases |s.entries| - i
  {
    hide Valid, RunEnd, Total, Joins, InRange;
    if !Valid(s, s.entries[i]) {
      n := ValidIsDrawn(s, i + 1, k);
    } else {
      var end := RunEnd(s, i + 1);
      if k < end {
        n := 0;
      } else {
        var m := ValidIsDrawn(s, end, k);
        n := m + 1;
      }
    }
  }
}
