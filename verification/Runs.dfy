/** Coalescing consecutive must-fetch chunks into byte ranges. */
module Runs {
  import opened Base
  import opened ChunkIndex
  import opened Delta

  datatype Run = Run(offset: int, length: int, first: nat, count: nat) {
    function End(): nat {
      first + count
    }
  }

  predicate Fetchable(s: ChunkSource) {
    !s.local && s.length > 0
  }

  /** Total length of the first i sources. */
  function Upto(src: seq<ChunkSource>, i: nat): nat
    requires i <= |src|
  {
    if i == 0 then 0 else Upto(src, i - 1) + src[i - 1].length
  }

  lemma {:induction false} UptoMonotone(src: seq<ChunkSource>, i: nat, j: nat)
    requires i <= j <= |src|
    ensures Upto(src, i) <= Upto(src, j)
  {
    if i < j {
      UptoMonotone(src, i, j - 1);
    }
  }

  /** The true total length of the chunks from a up to b. */
  function Stretch(src: seq<ChunkSource>, a: nat, b: nat): nat
    requires a <= b <= |src|
  {
    UptoMonotone(src, a, b);
    Upto(src, b) - Upto(src, a)
  }

  predicate Covers(r: Run, i: nat) {
    r.first <= i < r.End()
  }

  /** Chunk i does not lie inside a run, behind its start. */
  predicate AtBorder(src: seq<ChunkSource>, i: nat)
    requires i <= |src|
  {
    i == 0 || i == |src| || !Fetchable(src[i - 1]) || !Fetchable(src[i])
  }

  /** A non-empty stretch of must-fetch chunks that cannot be extended on either side; its length is an int64 sum. */
  ghost predicate IsRun(src: seq<ChunkSource>, r: Run) {
    && 0 < r.count && r.End() <= |src|
    && (forall j :: r.first <= j < r.End() ==> Fetchable(src[j]))
    && (0 < r.first ==> !Fetchable(src[r.first - 1]))
    && (r.End() < |src| ==> !Fetchable(src[r.End()]))
    && r.offset == ToInt64(src[r.first].offset)
    && r.length == Int64(Stretch(src, r.first, r.End()))
  }

  /** The runs in order, disjoint, covering every must-fetch chunk among the first n. */
  ghost predicate AreRuns(src: seq<ChunkSource>, runs: seq<Run>, n: nat) {
    && (forall k :: 0 <= k < |runs| ==> IsRun(src, runs[k]))
    && (forall k, l :: 0 <= k < l < |runs| ==> runs[k].End() < runs[l].first)
    && (forall i :: 0 <= i < n <= |src| && Fetchable(src[i]) ==> exists k :: 0 <= k < |runs| && Covers(runs[k], i))
  }

  /** The number of the run that holds chunk i. */
  ghost function RunOf(src: seq<ChunkSource>, runs: seq<Run>, i: nat): (k: nat)
    requires AreRuns(src, runs, |src|) && i < |src| && Fetchable(src[i])
    ensures k < |runs| && Covers(runs[k], i)
  {
    var k :| 0 <= k < |runs| && Covers(runs[k], i);
    k
  }

  lemma RunOfUnique(src: seq<ChunkSource>, runs: seq<Run>, i: nat, k: nat)
    requires AreRuns(src, runs, |src|) && k < |runs| && Covers(runs[k], i)
    ensures i < |src| && Fetchable(src[i]) && RunOf(src, runs, i) == k
  {
  }

  /** A must-fetch chunk after one that is not, or the first chunk, starts a run: `runAt` has it. */
  lemma RunStarts(src: seq<ChunkSource>, runs: seq<Run>, i: nat)
    requires AreRuns(src, runs, |src|) && i < |src| && Fetchable(src[i])
    requires AtBorder(src, i)
    ensures runs[RunOf(src, runs, i)].first == i
  {
  }

  /** The runs are determined by the plan. */
  lemma RunsUnique(src: seq<ChunkSource>, a: seq<Run>, b: seq<Run>)
    requires AreRuns(src, a, |src|) && AreRuns(src, b, |src|)
    ensures a == b
  {
    hide AreRuns;
    RunsPrefix(src, a, b, |a|);
    RunsPrefix(src, b, a, |b|);
  }

  lemma {:induction false} RunsPrefix(src: seq<ChunkSource>, a: seq<Run>, b: seq<Run>, n: nat)
    requires AreRuns(src, a, |src|) && AreRuns(src, b, |src|) && n <= |a|
    ensures n <= |b| && forall j :: 0 <= j < n ==> a[j] == b[j]
  {
    hide AreRuns;
    if n > 0 {
      RunsPrefix(src, a, b, n - 1);
      var m := NotEarlier(src, b, a, n - 1);
      var l := NotEarlier(src, a, b, n - 1);
      SameStart(src, a, b, n - 1);
    }
  }

  /** After n common runs, the next run of b starts no later than that of a. */
  lemma NotEarlier(src: seq<ChunkSource>, b: seq<Run>, a: seq<Run>, n: nat) returns (m: nat)
    requires AreRuns(src, a, |src|) && AreRuns(src, b, |src|) && n < |a|
    requires n <= |b| && forall j :: 0 <= j < n ==> a[j] == b[j]
    ensures n <= m < |b| && b[n].first <= a[n].first
  {
    hide AreRuns, IsRun;
    FirstIsFetched(src, a, n);
    m := RunOf(src, b, a[n].first);
    if m < n {
      InOrder(src, a, m, n);
      assert false;
    }
    if n < m {
      InOrder(src, b, n, m);
    }
  }

  lemma FirstIsFetched(src: seq<ChunkSource>, runs: seq<Run>, k: nat)
    requires AreRuns(src, runs, |src|) && k < |runs|
    ensures runs[k].first < |src| && Fetchable(src[runs[k].first])
  {
    hide Stretch;
    assert IsRun(src, runs[k]);
  }

  lemma InOrder(src: seq<ChunkSource>, runs: seq<Run>, k: nat, l: nat)
    requires AreRuns(src, runs, |src|) && k < l < |runs|
    ensures runs[k].first < runs[k].End() < runs[l].first
  {
    hide Stretch;
    assert IsRun(src, runs[k]);
  }

  lemma SameStart(src: seq<ChunkSource>, a: seq<Run>, b: seq<Run>, n: nat)
    requires AreRuns(src, a, |src|) && AreRuns(src, b, |src|)
    requires n < |a| && n < |b| && a[n].first == b[n].first
    ensures a[n] == b[n]
  {
    hide Upto;
    var r, q := a[n], b[n];
    assert IsRun(src, r) && IsRun(src, q);
    if r.End() < q.End() {
      assert false;
    } else if q.End() < r.End() {
      assert false;
    }
  }

  /** The sum of the lengths requested by the first k runs. */
  function RunBytes(runs: seq<Run>, k: nat): int
    requires k <= |runs|
  {
    if k == 0 then 0 else RunBytes(runs, k - 1) + runs[k - 1].length
  }

  /** The sum of the true lengths of the first k runs. */
  function RunSpan(src: seq<ChunkSource>, runs: seq<Run>, k: nat): nat
    requires k <= |runs| && forall j :: 0 <= j < |runs| ==> runs[j].End() <= |src|
  {
    if k == 0 then 0 else RunSpan(src, runs, k - 1) + Stretch(src, runs[k - 1].first, runs[k - 1].End())
  }

  /**
   The runs span exactly the bytes that are to be fetched, and the lengths requested add up to what
   the plan reports as fetched, modulo 2^64 as it is reported; exactly when the plan's lengths fit an int64.
   */
  lemma RunsSumToFetch(src: seq<ChunkSource>, runs: seq<Run>)
    requires AreRuns(src, runs, |src|)
    ensures forall j :: 0 <= j < |runs| ==> runs[j].End() <= |src|
    ensures RunSpan(src, runs, |runs|) == Total(src, false, |src|)
    ensures Congruent(RunBytes(runs, |runs|), Total(src, false, |src|))
    ensures Upto(src, |src|) < TWO63 ==> RunBytes(runs, |runs|) == Total(src, false, |src|)
  {
    hide AreRuns, Upto, Total;
    RunsEnd(src, runs);
    SpanUpto(src, runs, |runs|);
    GapIsFree(src, runs, |runs|, GapStart(runs, |runs|), |src|);
    BytesAreSpan(src, runs, |runs|);
  }

  lemma RunsEnd(src: seq<ChunkSource>, runs: seq<Run>)
    requires AreRuns(src, runs, |src|)
    ensures forall j :: 0 <= j < |runs| ==> runs[j].End() <= |src|
  {
  }

  lemma RunIsRun(src: seq<ChunkSource>, runs: seq<Run>, k: nat)
    requires AreRuns(src, runs, |src|) && k < |runs|
    ensures IsRun(src, runs[k])
    ensures k > 0 ==> runs[k - 1].End() < runs[k].first
  {
  }

  /** Where the chunks behind the first k runs begin. */
  function GapStart(runs: seq<Run>, k: nat): nat
    requires k <= |runs|
  {
    if k == 0 then 0 else runs[k - 1].End()
  }

  lemma {:induction false} BytesAreSpan(src: seq<ChunkSource>, runs: seq<Run>, k: nat)
    requires AreRuns(src, runs, |src|) && k <= |runs| && forall j :: 0 <= j < |runs| ==> runs[j].End() <= |src|
    ensures Congruent(RunBytes(runs, k), RunSpan(src, runs, k))
    ensures Upto(src, |src|) < TWO63 ==> RunBytes(runs, k) == RunSpan(src, runs, k)
  {
    hide AreRuns, Upto, Int64;
    if k > 0 {
      BytesAreSpan(src, runs, k - 1);
      RunIsRun(src, runs, k - 1);
      var r := runs[k - 1];
      StretchWithin(src, r.first, r.End());
      var span := Stretch(src, r.first, r.End());
      Int64Is(span);
      AddCongruent(RunBytes(runs, k - 1), RunSpan(src, runs, k - 1), r.length, span);
    }
  }

  lemma StretchWithin(src: seq<ChunkSource>, a: nat, b: nat)
    requires a <= b <= |src|
    ensures Stretch(src, a, b) <= Upto(src, |src|)
  {
    UptoMonotone(src, b, |src|);
  }

  lemma {:induction false} SpanUpto(src: seq<ChunkSource>, runs: seq<Run>, k: nat)
    requires AreRuns(src, runs, |src|) && k <= |runs| && forall j :: 0 <= j < |runs| ==> runs[j].End() <= |src|
    ensures RunSpan(src, runs, k) == Total(src, false, GapStart(runs, k))
  {
    hide AreRuns, Stretch, Upto;
    if k > 0 {
      SpanUpto(src, runs, k - 1);
      SpanStep(src, runs, k - 1);
    }
  }

  /** Nothing is fetched in the gap before a run, and all of the run is. */
  lemma SpanStep(src: seq<ChunkSource>, runs: seq<Run>, k: nat)
    requires AreRuns(src, runs, |src|) && k < |runs|
    ensures GapStart(runs, k) <= runs[k].End() <= |src|
    ensures Total(src, false, runs[k].End())
         == Total(src, false, GapStart(runs, k)) + Stretch(src, runs[k].first, runs[k].End())
  {
    hide AreRuns, Upto, Total;
    RunIsRun(src, runs, k);
    GapIsFree(src, runs, k, GapStart(runs, k), runs[k].first);
    RunIsFetched(src, runs[k], runs[k].End());
  }

  lemma NotInGap(src: seq<ChunkSource>, runs: seq<Run>, k: nat, l: nat, i: nat)
    requires AreRuns(src, runs, |src|) && k <= |runs| && l < |runs|
    requires GapStart(runs, k) <= i && (k < |runs| ==> i < runs[k].first)
    ensures !Covers(runs[l], i)
  {
    hide Upto, IsRun;
    if l < k {
      if l < k - 1 {
        assert runs[l].End() < runs[k - 1].first;
      }
    } else if k < l {
      assert runs[k].End() < runs[l].first;
    }
  }

  lemma GapChunk(src: seq<ChunkSource>, runs: seq<Run>, k: nat, i: nat)
    requires AreRuns(src, runs, |src|) && k <= |runs| && i < |src|
    requires GapStart(runs, k) <= i && (k < |runs| ==> i < runs[k].first)
    ensures !Fetchable(src[i])
  {
    hide IsRun;
    forall l | 0 <= l < |runs|
      ensures !Covers(runs[l], i)
    {
      NotInGap(src, runs, k, l, i);
    }
  }

  lemma {:induction false} GapIsFree(src: seq<ChunkSource>, runs: seq<Run>, k: nat, i: nat, j: nat)
    requires AreRuns(src, runs, |src|) && k <= |runs| && i <= j <= |src|
    requires GapStart(runs, k) <= i && (k < |runs| ==> j <= runs[k].first)
    ensures Total(src, false, i) == Total(src, false, j)
  {
    hide AreRuns;
    if i < j {
      GapIsFree(src, runs, k, i, j - 1);
      GapChunk(src, runs, k, j - 1);
    }
  }

  lemma {:induction false} RunIsFetched(src: seq<ChunkSource>, r: Run, j: nat)
    requires IsRun(src, r) && r.first <= j <= r.End()
    ensures Total(src, false, j) == Total(src, false, r.first) + Stretch(src, r.first, j)
  {
    if r.first < j {
      RunIsFetched(src, r, j - 1);
      assert Fetchable(src[j - 1]);
    }
  }

  // ---------------------------------------------------------------- runs of a plan

  lemma {:induction false} UptoOfPlan(local: seq<Entry>, target: seq<Entry>, i: nat)
    requires i <= |target|
    ensures Upto(Sources(local, target), i) == Offset(target, i)
  {
    if i > 0 {
      UptoOfPlan(local, target, i - 1);
    }
  }

  /**
   For a plan of a target body, a run asks for exactly the stretch of that body its chunks occupy,
   and the consumer's running position finds each chunk's own range in it.
   */
  lemma RunIsRange(local: seq<Entry>, target: seq<Entry>, r: Run, i: nat)
    requires BodyLength(target) < TWO63
    requires IsRun(Sources(local, target), r) && Covers(r, i)
    ensures r.offset == Offset(target, r.first)
    ensures r.offset + r.length == Offset(target, r.End())
    ensures 0 <= r.offset <= r.offset + r.length <= BodyLength(target)
    ensures r.first <= i < |target| && r.offset + Stretch(Sources(local, target), r.first, i) == Offset(target, i)
    ensures Offset(target, i) + target[i].compLength <= Offset(target, r.End()) <= BodyLength(target)
  {
    hide Upto, Offset, SourceOf, ToInt64, Int64;
    var src := Sources(local, target);
    assert Fetchable(src[r.first]);
    RemotePlace(local, target, r.first);
    OffsetStep(target, i);
    UptoOfPlan(local, target, r.first);
    UptoOfPlan(local, target, i);
    UptoOfPlan(local, target, r.End());
    OffsetMonotone(target, i + 1, r.End());
    OffsetMonotone(target, r.first, r.End());
    OffsetMonotone(target, r.End(), |target|);
    Int64Is(Stretch(src, r.first, r.End()));
  }

  /** A must-fetch chunk is fetched from its own place. */
  lemma RemotePlace(local: seq<Entry>, target: seq<Entry>, i: nat)
    requires BodyLength(target) < TWO63 && i < |target| && Fetchable(SourceOf(local, target, i))
    ensures ToInt64(SourceOf(local, target, i).offset) == Offset(target, i)
  {
    hide Offset, FirstWith;
    OffsetMonotone(target, i, |target|);
    assert Offset(target, i) % TWO64 == Offset(target, i);
  }

  lemma {:induction false} OffsetFlat(chunks: seq<Entry>, a: nat, b: nat)
    requires a <= b <= |chunks|
    ensures Offset(chunks, a) == Offset(chunks, b) <==> forall i :: a <= i < b ==> chunks[i].compLength == 0
  {
    if a < b {
      OffsetFlat(chunks, a, b - 1);
      OffsetMonotone(chunks, a, b - 1);
    }
  }

  /** Two runs are adjacent in the body, and could have been one range, exactly when only empty chunks part them. */
  lemma RunsTouch(local: seq<Entry>, target: seq<Entry>, runs: seq<Run>, k: nat, l: nat)
    requires AreRuns(Sources(local, target), runs, |target|) && k < l < |runs| && BodyLength(target) < TWO63
    ensures runs[k].End() <= runs[l].first <= |target|
    ensures runs[k].offset + runs[k].length == runs[l].offset
            <==> forall i :: runs[k].End() <= i < runs[l].first ==> target[i].compLength == 0
  {
    hide AreRuns, Offset, Upto, SourceOf;
    var src := Sources(local, target);
    RunIsRun(src, runs, k);
    RunIsRun(src, runs, l);
    InOrder(src, runs, k, l);
    FirstIsFetched(src, runs, k);
    FirstIsFetched(src, runs, l);
    RunIsRange(local, target, runs[k], runs[k].first);
    RunIsRange(local, target, runs[l], runs[l].first);
    OffsetFlat(target, runs[k].End(), runs[l].first);
  }

  // ---------------------------------------------------------------- the loops

  /** `remoteRuns`. */
  method RemoteRuns(src: seq<ChunkSource>) returns (runs: seq<Run>)
    ensures AreRuns(src, runs, |src|)
  {
    hide Upto, IsRun;
    runs := [];
    var i := 0;
    while i < |src|
      invariant 0 <= i <= |src|
      invariant AreRuns(src, runs, i)
      invariant AtBorder(src, i)
      invariant forall k :: 0 <= k < |runs| ==>
              runs[k].End() < i || (runs[k].End() == i && (i == |src| || !Fetchable(src[i])))
    {
      var s := src[i];
      if s.local || s.length == 0 {
        i := i + 1;
        continue;
      }
      var run := TakeRun(src, i);
      i := run.End();
      CoveredByOneMore(src, runs, run);
      runs := runs + [run];
    }
  }

  lemma CoveredByOneMore(src: seq<ChunkSource>, runs: seq<Run>, run: Run)
    requires AreRuns(src, runs, run.first) && run.first <= |src|
    ensures forall j :: 0 <= j < run.End() <= |src| && Fetchable(src[j]) ==>
            exists k :: 0 <= k < |runs + [run]| && Covers((runs + [run])[k], j)
  {
    var more := runs + [run];
    forall j | 0 <= j < run.End() <= |src| && Fetchable(src[j])
      ensures exists k :: 0 <= k < |more| && Covers(more[k], j)
    {
      if j < run.first {
        var k :| 0 <= k < |runs| && Covers(runs[k], j);
        assert Covers(more[k], j);
      } else {
        assert Covers(more[|runs|], j);
      }
    }
  }

  /** The inner loop: collect must-fetch chunks until one is local, empty or missing. */
  method TakeRun(src: seq<ChunkSource>, start: nat) returns (run: Run)
    requires start < |src| && Fetchable(src[start]) && (start == 0 || !Fetchable(src[start - 1]))
    ensures IsRun(src, run) && run.first == start
  {
    var i := start;
    run := Run(ToInt64(src[start].offset), 0, start, 0);
    while i < |src| && !src[i].local && src[i].length > 0
      invariant start <= i <= |src| && run.End() == i && run.first == start
      invariant run.offset == ToInt64(src[start].offset)
      invariant run.length == Int64(Stretch(src, start, i))
      invariant forall j :: start <= j < i ==> Fetchable(src[j])
    {
      RunningSum(Stretch(src, start, i), src[i].length);
      run := run.(length := Int64(run.length + ToInt64(src[i].length)), count := run.count + 1);
      i := i + 1;
    }
  }
}
