/** When the assembly of a body panics: the int64 sums of a run's lengths wrap, and a slice is out of range. */
module Panics {
  import opened Base
  import opened Checksum
  import opened ChunkIndex
  import opened Delta
  import opened Runs
  import opened Assemble

  ghost predicate EndsInPanic(o: Outcome) {
    o.err.Some? && o.err.value.SliceOutOfRange?
  }

  // ---------------------------------------------------------------- one range

  /** A slice that is in range, starting where the true sum says, ends where the true sum says. */
  lemma InRangeIsExact(data: Bytes, start: nat, length: uint64, i: nat)
    requires start < TWO63 && SliceAt(data, Int64(start), ToInt64(length), i).Ok?
    ensures start + length < TWO63
  {
    Int64Is(start);
    if length >= TWO63 {
      Int64Is(start + length - TWO64);
    } else if start + length >= TWO63 {
      SameResidue(start + length, start + length - TWO64);
      Int64Is(start + length - TWO64);
    }
  }

  lemma {:induction false} InRangeSoFar(src: seq<ChunkSource>, run: Run, data: Bytes, j: nat)
    requires IsRun(src, run) && run.first <= j <= run.End()
    requires forall i :: run.first <= i < j ==> RunSlice(src, run, data, i).Ok?
    ensures Stretch(src, run.first, j) < TWO63
  {
    hide SliceAt;
    if run.first < j {
      InRangeSoFar(src, run, data, j - 1);
      assert RunSlice(src, run, data, j - 1).Ok?;
      InRangeIsExact(data, Stretch(src, run.first, j - 1), src[j - 1].length, j - 1);
    }
  }

  /** Every slice taken from a fetched range is in range if and only if the run's lengths add up to an int64. */
  lemma SlicesFit(src: seq<ChunkSource>, run: Run, data: Bytes)
    requires IsRun(src, run) && |data| == run.length
    ensures run.End() <= |src|
    ensures (forall i :: run.first <= i < run.End() ==> RunSlice(src, run, data, i).Ok?) <==>
            Stretch(src, run.first, run.End()) < TWO63
  {
    hide RunSlice, IsRun, Upto;
    RunEnds(src, run);
    if Stretch(src, run.first, run.End()) < TWO63 {
      forall i | run.first <= i < run.End()
        ensures RunSlice(src, run, data, i).Ok?
      {
        SliceInRun(src, run, data, i);
      }
    } else if forall i :: run.first <= i < run.End() ==> RunSlice(src, run, data, i).Ok? {
      InRangeSoFar(src, run, data, run.End());
    }
  }

  // ---------------------------------------------------------------- a plan

  /** The lengths of run k add up to more than an int64 holds. */
  ghost predicate IsLong(src: seq<ChunkSource>, runs: seq<Run>, k: nat)
    requires AreRuns(src, runs, |src|) && k < |runs|
  {
    RunIsRun(src, runs, k);
    Stretch(src, runs[k].first, runs[k].End()) >= TWO63
  }

  /** Run k or one before it asks for a negative number of bytes, which no answer can have. */
  ghost predicate RefusedBy(runs: seq<Run>, k: nat) {
    exists j :: 0 <= j <= k && j < |runs| && runs[j].length < 0
  }

  /** Every run whose lengths wrap is, or comes after, one that asks for a negative number of bytes. */
  ghost predicate Harmless(src: seq<ChunkSource>, runs: seq<Run>)
    requires AreRuns(src, runs, |src|)
  {
    forall k :: 0 <= k < |runs| && IsLong(src, runs, k) ==> RefusedBy(runs, k)
  }

  /** When a plan's lengths add up to an int64, nothing wraps. */
  lemma ShortIsHarmless(src: seq<ChunkSource>, runs: seq<Run>)
    requires AreRuns(src, runs, |src|) && Upto(src, |src|) < TWO63
    ensures Harmless(src, runs)
  {
    hide AreRuns, Upto, Stretch;
    forall k | 0 <= k < |runs|
      ensures !IsLong(src, runs, k)
    {
      RunIsRun(src, runs, k);
      RunEnds(src, runs[k]);
      StretchWithin(src, runs[k].first, runs[k].End());
    }
  }

  ghost predicate IsCall(job: Job, answers: seq<Result<Bytes>>, src: seq<ChunkSource>, runs: seq<Run>) {
    job.src == src && job.runs == runs && job.Valid() && |answers| == |runs|
  }

  /** All chunks from a up to b that are not empty have been taken from their sources. */
  ghost predicate TakenUpto(job: Job, answers: seq<Result<Bytes>>, b: nat)
    requires job.Valid() && |answers| == |job.runs| && b <= |job.src|
  {
    forall i :: 0 <= i < b && job.src[i].length > 0 ==> Piece(job, answers, i).Ok?
  }

  // ---------------------------------------------------------------- harmless plans do not panic

  /** A run whose first chunk has been taken was answered with as many bytes as it asked for. */
  lemma TakenIsAnswered(job: Job, answers: seq<Result<Bytes>>, b: nat, k: nat)
    requires job.Valid() && |answers| == |job.runs| && b <= |job.src| && TakenUpto(job, answers, b)
    requires k < |job.runs| && job.runs[k].first < b
    ensures job.runs[k].length >= 0
  {
    hide Stretch, RunSlice;
    var i := job.runs[k].first;
    assert IsRun(job.src, job.runs[k]);
    RunOfUnique(job.src, job.runs, i, k);
    assert Piece(job, answers, i).Ok?;
  }

  lemma PieceIsNoPanic(job: Job, answers: seq<Result<Bytes>>, i: nat)
    requires job.Valid() && |answers| == |job.runs| && Harmless(job.src, job.runs)
    requires i < |job.src| && job.src[i].length > 0 && TakenUpto(job, answers, i)
    ensures var p := Piece(job, answers, i); p.Err? ==> !p.error.SliceOutOfRange?
  {
    hide Stretch, AreRuns, RunSlice, TakenUpto, RefusedBy;
    if !job.src[i].local {
      var k := RunOf(job.src, job.runs, i);
      var run := job.runs[k];
      RunIsRun(job.src, job.runs, k);
      var d := Checked(answers[k], run.length);
      if d.Ok? {
        if IsLong(job.src, job.runs, k) {
          NotRefused(job, answers, i, k);
        }
        SliceInRun(job.src, run, d.value, i);
      }
    }
  }

  /** When a chunk of run k is reached and its range has arrived, no run up to k was refused. */
  lemma NotRefused(job: Job, answers: seq<Result<Bytes>>, i: nat, k: nat)
    requires job.Valid() && |answers| == |job.runs| && i < |job.src| && TakenUpto(job, answers, i)
    requires k < |job.runs| && Covers(job.runs[k], i) && job.runs[k].length >= 0
    ensures !RefusedBy(job.runs, k)
  {
    hide AreRuns, TakenUpto;
    forall j | 0 <= j < k
      ensures job.runs[j].length >= 0
    {
      InOrder(job.src, job.runs, j, k);
      TakenIsAnswered(job, answers, i, j);
    }
  }

  lemma VerifyIsNoPanic(job: Job, i: nat, data: Bytes, out: Bytes)
    requires i < |job.target.chunks|
    ensures var a := VerifyWrite(job, i, data, out); a.err.Some? ==> !a.err.value.SliceOutOfRange?
  {
  }

  /** A harmless plan cannot be made to panic: not by the source, the local copy or the output. */
  lemma {:induction false} NoPanic(job: Job, answers: seq<Result<Bytes>>, i: nat, out: Bytes)
    requires job.Valid() && |answers| == |job.runs| && Harmless(job.src, job.runs)
    requires i <= |job.src| && TakenUpto(job, answers, i)
    ensures !EndsInPanic(AssembleFrom(job, answers, i, out))
    decreases |job.src| - i
  {
    hide Piece, VerifyWrite, AreRuns, Harmless;
    if i < |job.src| {
      if job.src[i].length == 0 {
        NoPanic(job, answers, i + 1, out);
      } else {
        PieceIsNoPanic(job, answers, i);
        if Piece(job, answers, i).Ok? {
          var data := Piece(job, answers, i).value;
          var a := VerifyWrite(job, i, data, out);
          VerifyIsNoPanic(job, i, data, out);
          if a.err.None? {
            NoPanic(job, answers, i + 1, out + data[..a.n]);
          }
        }
      }
    }
  }

  // ---------------------------------------------------------------- other plans can

  function Zeros(n: int): (z: Bytes)
    ensures n >= 0 ==> |z| == n
  {
    if n < 0 then [] else seq(n, i => 0)
  }

  function ZeroHasher(): (h: Hasher)
    ensures forall t, x :: h(t, x) == Zeros(SizeOf(t))
  {
    (t: nat, x: Bytes) => Zeros(SizeOf(t))
  }

  function ZeroReader(): (r: ReaderAt)
    ensures forall off, n :: |r(off, n).data| == n
  {
    (off: int, n: nat) => ReadAtAnswer(Zeros(n), None)
  }

  /** A call in which everything matches: digests and data are zeros, and the output takes everything. */
  ghost function ZeroJob(src: seq<ChunkSource>, runs: seq<Run>): (job: Job)
    requires AreRuns(src, runs, |src|)
    ensures IsCall(job, ZeroAnswers(runs), src, runs) && Known(job.target.ckType)
  {
    var e := Entry(Zeros(SizeOf(SHA1)), None, 0, 0);
    Job(ZeroHasher(), Index(SHA1, seq(|src|, i => e)), src, runs, ZeroReader(), BufferWriter(), [])
  }

  function ZeroAnswers(runs: seq<Run>): (a: seq<Result<Bytes>>)
    ensures |a| == |runs| && forall k :: 0 <= k < |runs| ==> a[k] == Ok(Zeros(runs[k].length))
  {
    seq(|runs|, k requires 0 <= k < |runs| => Ok(Zeros(runs[k].length)))
  }

  lemma ZerosVerify(src: seq<ChunkSource>, runs: seq<Run>, i: nat, data: Bytes, out: Bytes)
    requires AreRuns(src, runs, |src|) && i < |src|
    ensures VerifyWrite(ZeroJob(src, runs), i, data, out) == WriteAnswer(|data|, None)
  {
    hide AreRuns, Zeros;
  }

  /** Up to the first slice that is out of range the zeros are assembled; there the assembly panics. */
  lemma {:induction false} ZerosPanic(src: seq<ChunkSource>, runs: seq<Run>, i: nat, stop: nat, out: Bytes)
    requires AreRuns(src, runs, |src|) && i <= stop < |src| && src[stop].length > 0
    requires TakenUpto(ZeroJob(src, runs), ZeroAnswers(runs), stop)
    requires Piece(ZeroJob(src, runs), ZeroAnswers(runs), stop) == Err(SliceOutOfRange(stop))
    ensures EndsInPanic(AssembleFrom(ZeroJob(src, runs), ZeroAnswers(runs), i, out))
    decreases stop - i
  {
    hide Piece, VerifyWrite, AreRuns, ZeroJob;
    var job, answers := ZeroJob(src, runs), ZeroAnswers(runs);
    if i < stop {
      if src[i].length == 0 {
        ZerosPanic(src, runs, i + 1, stop, out);
      } else {
        var data := Piece(job, answers, i).value;
        ZerosVerify(src, runs, i, data, out);
        ZerosPanic(src, runs, i + 1, stop, out + data[..|data|]);
      }
    }
  }

  /** The first run whose lengths wrap. */
  lemma {:induction false} FirstLong(src: seq<ChunkSource>, runs: seq<Run>, k: nat) returns (m: nat)
    requires AreRuns(src, runs, |src|) && k < |runs| && IsLong(src, runs, k)
    ensures m <= k && IsLong(src, runs, m) && forall j :: 0 <= j < m ==> !IsLong(src, runs, j)
  {
    hide AreRuns, IsLong;
    if j :| 0 <= j < k && IsLong(src, runs, j) {
      m := FirstLong(src, runs, j);
    } else {
      m := k;
    }
  }

  /** The first slice of a range that is out of range. */
  lemma {:induction false} FirstOutside(src: seq<ChunkSource>, run: Run, data: Bytes, n: nat) returns (i: nat)
    requires IsRun(src, run) && run.first <= n <= run.End()
    requires exists j :: run.first <= j < n && RunSlice(src, run, data, j).Err?
    ensures run.first <= i < n && RunSlice(src, run, data, i) == Err(SliceOutOfRange(i))
    ensures forall j :: run.first <= j < i ==> RunSlice(src, run, data, j).Ok?
  {
    hide RunSlice, IsRun;
    RunEnds(src, run);
    if exists j :: run.first <= j < n - 1 && RunSlice(src, run, data, j).Err? {
      i := FirstOutside(src, run, data, n - 1);
    } else {
      i := n - 1;
      OutsideError(src, run, data, i);
    }
  }

  lemma OutsideError(src: seq<ChunkSource>, run: Run, data: Bytes, i: nat)
    requires run.first <= i < |src| && RunSlice(src, run, data, i).Err?
    ensures RunSlice(src, run, data, i) == Err(SliceOutOfRange(i))
  {
  }

  /** Before the first bad slice of the first long run, every zero piece is there. */
  lemma ZeroPieceTaken(src: seq<ChunkSource>, runs: seq<Run>, m: nat, stop: nat, i: nat)
    requires AreRuns(src, runs, |src|) && m < |runs| && Covers(runs[m], stop) && i < stop < |src| && src[i].length > 0
    requires forall j :: 0 <= j <= m ==> runs[j].length >= 0
    requires forall j :: 0 <= j < m ==> !IsLong(src, runs, j)
    requires forall j :: runs[m].first <= j < stop ==> RunSlice(src, runs[m], Zeros(runs[m].length), j).Ok?
    ensures Piece(ZeroJob(src, runs), ZeroAnswers(runs), i).Ok?
  {
    hide AreRuns, Stretch, RunSlice, Zeros;
    var job, answers := ZeroJob(src, runs), ZeroAnswers(runs);
    if !src[i].local {
      var k := RunOf(src, runs, i);
      if m < k {
        InOrder(src, runs, m, k);
      } else {
        PieceInRun(job, answers, k, i);
        if k < m {
          assert !IsLong(src, runs, k);
          SliceInRun(src, runs[k], Zeros(runs[k].length), i);
        }
      }
    }
  }

  lemma HarmfulPanics(src: seq<ChunkSource>, runs: seq<Run>)
    requires AreRuns(src, runs, |src|) && !Harmless(src, runs)
    ensures EndsInPanic(AssembleBody(ZeroJob(src, runs), ZeroAnswers(runs)))
  {
    hide AreRuns, IsLong, RunSlice, Piece, Zeros, AssembleFrom;
    var k :| 0 <= k < |runs| && IsLong(src, runs, k) && !RefusedBy(runs, k);
    var m := FirstLong(src, runs, k);
    var run, data := runs[m], Zeros(runs[m].length);
    RunIsRun(src, runs, m);
    LongIsOutside(src, runs, m, data);
    var stop := FirstOutside(src, run, data, run.End());
    RunEnds(src, run);
    CoveredIsFetched(src, run, stop);
    PieceInRun(ZeroJob(src, runs), ZeroAnswers(runs), m, stop);
    forall i | 0 <= i < stop && src[i].length > 0
      ensures Piece(ZeroJob(src, runs), ZeroAnswers(runs), i).Ok?
    {
      ZeroPieceTaken(src, runs, m, stop, i);
    }
    ZerosPanic(src, runs, 0, stop, []);
  }

  lemma CoveredIsFetched(src: seq<ChunkSource>, run: Run, i: nat)
    requires IsRun(src, run) && run.first <= i < run.End()
    ensures Covers(run, i) && i < |src| && src[i].length > 0
  {
    hide Stretch;
    assert Fetchable(src[i]);
  }

  lemma LongIsOutside(src: seq<ChunkSource>, runs: seq<Run>, m: nat, data: Bytes)
    requires AreRuns(src, runs, |src|) && m < |runs| && IsLong(src, runs, m) && |data| == runs[m].length
    ensures runs[m].End() <= |src|
    ensures exists j :: runs[m].first <= j < runs[m].End() && RunSlice(src, runs[m], data, j).Err?
  {
    hide AreRuns, RunSlice, Stretch;
    RunIsRun(src, runs, m);
    SlicesFit(src, runs[m], data);
  }

  /**
   Exactly when a plan can be made to panic. No call of AssembleBody with this plan panics, whatever its
   digests, sources and output are, if and only if every run whose lengths add up to 2^63 or more is,
   or comes after, one that asks for a negative number of bytes.
   */
  lemma PanicsExactly(src: seq<ChunkSource>, runs: seq<Run>)
    requires AreRuns(src, runs, |src|)
    ensures (forall job, answers :: IsCall(job, answers, src, runs) ==> !EndsInPanic(AssembleBody(job, answers)))
            <==> Harmless(src, runs)
  {
    hide AreRuns, Harmless, ZeroJob, ZeroAnswers, AssembleFrom, Piece;
    if Harmless(src, runs) {
      forall job, answers | IsCall(job, answers, src, runs)
        ensures !EndsInPanic(AssembleBody(job, answers))
      {
        NoPanic(job, answers, 0, []);
      }
    } else {
      HarmfulPanics(src, runs);
      assert IsCall(ZeroJob(src, runs), ZeroAnswers(runs), src, runs);
    }
  }

  // ---------------------------------------------------------------- an instance

  /** Two chunks of 2^63 and 2^63 + 10 bytes. */
  function WrappedPlan(): seq<ChunkSource> {
    [ChunkSource(0, false, 0, TWO63), ChunkSource(1, false, TWO63, TWO63 + 10)]
  }

  lemma WrappedRuns()
    ensures AreRuns(WrappedPlan(), [Run(0, 10, 0, 2)], 2)
  {
    var src, runs := WrappedPlan(), [Run(0, 10, 0, 2)];
    WrappedRun();
    hide IsRun;
    assert IsRun(src, runs[0]);
    assert Covers(runs[0], 0) && Covers(runs[0], 1);
  }

  lemma WrappedRun()
    ensures IsRun(WrappedPlan(), Run(0, 10, 0, 2))
  {
    var src := WrappedPlan();
    assert Upto(src, 1) == TWO63;
    assert Upto(src, 2) == TWO64 + 10;
    SameResidue(TWO64 + 10, 10);
    Int64Is(10);
  }

  /** Ten bytes are asked for, and when they arrive the first slice is out of range: before any digest is looked at. */
  lemma WrappedAssembly(job: Job, data: Bytes)
    requires job.src == WrappedPlan() && job.runs == [Run(0, 10, 0, 2)] && |job.target.chunks| == 2
    requires |data| == 10 && Known(job.target.ckType)
    ensures job.Valid()
    ensures AssembleBody(job, [Ok(data)]) == Outcome([], 0, Some(SliceOutOfRange(0)))
  {
    WrappedRuns();
    WrappedSlice(data);
    hide AreRuns, RunSlice;
    PieceInRun(job, [Ok(data)], 0, 0);
  }

  lemma WrappedSlice(data: Bytes)
    requires |data| == 10
    ensures RunSlice(WrappedPlan(), Run(0, 10, 0, 2), data, 0) == Err(SliceOutOfRange(0))
  {
    Int64Is(0);
    Int64Is(0 - TWO63);
  }
}
