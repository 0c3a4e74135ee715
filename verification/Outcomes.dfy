/**
 The outcome of assembling a body, described apart from the loop: the chunks before some point have
 been taken, verified and written, and there the first thing that goes wrong in source order decides.
 */
module Outcomes {
  import opened Base
  import opened Checksum
  import opened ChunkIndex
  import opened Delta
  import opened Runs
  import opened Assemble

  ghost predicate IsCallWith(job: Job, answers: seq<Result<Bytes>>) {
    job.Valid() && |answers| == |job.runs|
  }

  /** The range of run k arrived with the length asked for, and this is the part of it that chunk i is taken from. */
  ghost predicate IsSliceOf(job: Job, answers: seq<Result<Bytes>>, i: nat, k: nat, data: Bytes)
    requires IsCallWith(job, answers) && i < |job.src|
  {
    && k < |job.runs| && Covers(job.runs[k], i) && answers[k].Ok? && |answers[k].value| == job.runs[k].length
    && var pos := Int64(Stretch(job.src, job.runs[k].first, i));
    && var end := Int64(pos + ToInt64(job.src[i].length));
    && 0 <= pos <= end <= |answers[k].value| && data == answers[k].value[pos..end]
  }

  /** data is what the local copy or the source yields for chunk i. */
  ghost predicate IsPiece(job: Job, answers: seq<Result<Bytes>>, i: nat, data: Bytes)
    requires IsCallWith(job, answers) && i < |job.src|
  {
    var s := job.src[i];
    if s.local then job.local(ToInt64(s.offset), s.length).data == data && |data| == s.length
    else exists k :: IsSliceOf(job, answers, i, k, data)
  }

  /** The chunks before i have been taken, verified and written; `out` is what they left. */
  ghost predicate Assembled(job: Job, answers: seq<Result<Bytes>>, i: nat, out: Bytes)
    requires IsCallWith(job, answers) && i <= |job.src|
    decreases i, 0
  {
    if i == 0 then out == []
    else if job.src[i - 1].length == 0 then Assembled(job, answers, i - 1, out)
    else AssembledWith(job, answers, i - 1, out)
  }

  /** As above, up to and with chunk i, which is not empty. */
  ghost predicate AssembledWith(job: Job, answers: seq<Result<Bytes>>, i: nat, out: Bytes)
    requires IsCallWith(job, answers) && i < |job.src|
    decreases i, 1
  {
    exists before, data :: Assembled(job, answers, i, before) && Delivered(job, answers, i, before, data, out)
  }

  ghost predicate Delivered(job: Job, answers: seq<Result<Bytes>>, i: nat, before: Bytes, data: Bytes, out: Bytes)
    requires IsCallWith(job, answers) && i < |job.src|
  {
    && IsPiece(job, answers, i, data)
    && job.h(job.target.ckType, data) == job.target.chunks[i].digest
    && job.out(job.sent + before, data).err.None?
    && out == before + data
  }

  // ---------------------------------------------------------------- what can go wrong at chunk i

  ghost predicate LocalFails(job: Job, i: nat, before: Bytes, o: Outcome)
    requires i < |job.src|
  {
    && job.src[i].local
    && var a := job.local(ToInt64(job.src[i].offset), job.src[i].length);
    && |a.data| != job.src[i].length
    && o == Outcome(before, |before|, Some(LocalRead(i, if a.err.Some? then a.err.value else UnexpectedEnd)))
  }

  /** A failed range is reported with its first chunk. */
  ghost predicate RangeFails(job: Job, answers: seq<Result<Bytes>>, i: nat, before: Bytes, o: Outcome)
    requires IsCallWith(job, answers) && i < |job.src|
  {
    exists k :: && 0 <= k < |job.runs| && job.runs[k].first == i &&
        RunFails(answers[k], job.runs[k].length, i, before, o)
  }

  predicate RunFails(answer: Result<Bytes>, want: int, i: nat, before: Bytes, o: Outcome) {
    match answer
    case Err(e) => o == Outcome(before, |before|, Some(FetchChunk(i, e)))
    case Ok(d) => |d| != want && o == Outcome(before, |before|, Some(FetchChunk(i, ShortRange(|d|, want))))
  }

  ghost predicate SliceFails(job: Job, answers: seq<Result<Bytes>>, i: nat, before: Bytes, o: Outcome)
    requires IsCallWith(job, answers) && i < |job.src|
  {
    && !job.src[i].local
    && (exists k :: Arrived(job, answers, i, k))
    && (forall data :: !IsPiece(job, answers, i, data))
    && o == Outcome(before, |before|, Some(SliceOutOfRange(i)))
  }

  ghost predicate Arrived(job: Job, answers: seq<Result<Bytes>>, i: nat, k: nat)
    requires IsCallWith(job, answers)
  {
    k < |job.runs| && Covers(job.runs[k], i) && answers[k].Ok? && |answers[k].value| == job.runs[k].length
  }

  ghost predicate DigestFails(job: Job, answers: seq<Result<Bytes>>, i: nat, before: Bytes, o: Outcome)
    requires IsCallWith(job, answers) && i < |job.src|
  {
    exists data :: && IsPiece(job, answers, i, data)
                   && job.h(job.target.ckType, data) != job.target.chunks[i].digest
                   && o == Outcome(before, |before|, Some(DigestMismatch(i)))
  }

  ghost predicate WriteFails(job: Job, answers: seq<Result<Bytes>>, i: nat, before: Bytes, o: Outcome)
    requires IsCallWith(job, answers) && i < |job.src|
  {
    exists data :: && IsPiece(job, answers, i, data)
                   && job.h(job.target.ckType, data) == job.target.chunks[i].digest
                   && var a := job.out(job.sent + before, data);
                   && a.err.Some?
                   && o == Outcome(before + data[..a.n], |before| + a.n, Some(WriteChunk(i, a.err.value)))
  }

  ghost predicate FailsAt(job: Job, answers: seq<Result<Bytes>>, i: nat, before: Bytes, o: Outcome)
    requires IsCallWith(job, answers)
  {
    && i < |job.src| && job.src[i].length > 0 && Assembled(job, answers, i, before)
    && (|| LocalFails(job, i, before, o) || RangeFails(job, answers, i, before, o) || SliceFails(job, answers, i,
                                                                                                 before, o)
        || DigestFails(job, answers, i, before, o) || WriteFails(job, answers, i, before, o))
  }

  /** All chunks have been delivered, or the first failure in source order has ended the assembly. */
  ghost predicate IsOutcome(job: Job, answers: seq<Result<Bytes>>, o: Outcome)
    requires IsCallWith(job, answers)
  {
    || (Assembled(job, answers, |job.src|, o.out) && o == Outcome(o.out, |o.out|, None))
    || exists i, before :: FailsAt(job, answers, i, before, o)
  }

  // ---------------------------------------------------------------- the loop has exactly this outcome

  lemma PieceIs(job: Job, answers: seq<Result<Bytes>>, i: nat, data: Bytes)
    requires IsCallWith(job, answers) && i < |job.src| && job.src[i].length > 0
    ensures Piece(job, answers, i) == Ok(data) <==> IsPiece(job, answers, i, data)
  {
    hide AreRuns, Stretch, Int64, ToInt64;
    if !job.src[i].local {
      if k: nat :| IsSliceOf(job, answers, i, k, data) {
        RunOfUnique(job.src, job.runs, i, k);
      }
      if Piece(job, answers, i) == Ok(data) {
        assert IsSliceOf(job, answers, i, RunOf(job.src, job.runs, i), data);
      }
    }
  }

  lemma {:induction false} PieceFound(job: Job, answers: seq<Result<Bytes>>, i: nat, out: Bytes, j: nat)
    requires IsCallWith(job, answers) && j < i <= |job.src| && Assembled(job, answers, i, out) && job.src[j].length > 0
    ensures Piece(job, answers, j).Ok?
    decreases i
  {
    hide IsPiece, Piece, AreRuns;
    if job.src[i - 1].length == 0 {
      PieceFound(job, answers, i - 1, out, j);
    } else {
      var before, data :| Assembled(job, answers, i - 1, before) && Delivered(job, answers, i - 1, before, data, out);
      if j == i - 1 {
        PieceIs(job, answers, j, data);
      } else {
        PieceFound(job, answers, i - 1, before, j);
      }
    }
  }

  lemma OneDelivered(job: Job, answers: seq<Result<Bytes>>, i: nat, before: Bytes, data: Bytes, out: Bytes)
    requires IsCallWith(job, answers) && i < |job.src| && job.src[i].length > 0
    requires Delivered(job, answers, i, before, data, out)
    ensures AssembleFrom(job, answers, i, before) == AssembleFrom(job, answers, i + 1, out)
  {
    hide IsPiece, Piece, AreRuns;
    PieceIs(job, answers, i, data);
    var a := VerifyWrite(job, i, data, before);
    assert a.err.None? && data[..a.n] == data;
  }

  /** The loop gets to every point that can be reached. */
  lemma {:induction false} Reaches(job: Job, answers: seq<Result<Bytes>>, i: nat, out: Bytes)
    requires IsCallWith(job, answers) && i <= |job.src| && Assembled(job, answers, i, out)
    ensures AssembleFrom(job, answers, 0, []) == AssembleFrom(job, answers, i, out)
  {
    hide Delivered, AssembleFrom, AreRuns;
    if i > 0 {
      if job.src[i - 1].length == 0 {
        Reaches(job, answers, i - 1, out);
        SkipEmpty(job, answers, i - 1, out);
      } else {
        var before, data :| Assembled(job, answers, i - 1, before) && Delivered(job, answers, i - 1, before, data, out);
        Reaches(job, answers, i - 1, before);
        OneDelivered(job, answers, i - 1, before, data, out);
      }
    }
  }

  /** What goes wrong at a point is what the loop reports there. */
  lemma FailureEnds(job: Job, answers: seq<Result<Bytes>>, i: nat, before: Bytes, o: Outcome)
    requires IsCallWith(job, answers) && FailsAt(job, answers, i, before, o)
    ensures AssembleFrom(job, answers, i, before) == o
  {
    hide IsPiece, Piece, AreRuns, RunFails, Assembled, SliceAt, Stretch, AssembleFrom;
    if LocalFails(job, i, before, o) {
      LocalFailureEnds(job, answers, i, before, o);
    } else if RangeFails(job, answers, i, before, o) {
      var k :| 0 <= k < |job.runs| && job.runs[k].first == i && RunFails(answers[k], job.runs[k].length, i, before, o);
      RunFailureEnds(job, answers, k, before, o);
    } else if SliceFails(job, answers, i, before, o) {
      SliceFailureEnds(job, answers, i, before, o);
    } else if DigestFails(job, answers, i, before, o) {
      DigestFailureEnds(job, answers, i, before, o);
    } else {
      WriteFailureEnds(job, answers, i, before, o);
    }
  }

  lemma LocalFailureEnds(job: Job, answers: seq<Result<Bytes>>, i: nat, before: Bytes, o: Outcome)
    requires IsCallWith(job, answers) && i < |job.src| && job.src[i].length > 0 && LocalFails(job, i, before, o)
    ensures AssembleFrom(job, answers, i, before) == o
  {
    hide AreRuns;
    assert Piece(job, answers, i) == LocalPiece(job, i);
  }

  lemma RunFailureEnds(job: Job, answers: seq<Result<Bytes>>, k: nat, before: Bytes, o: Outcome)
    requires IsCallWith(job, answers) && k < |job.runs|
    requires RunFails(answers[k], job.runs[k].length, job.runs[k].first, before, o)
    ensures job.runs[k].first < |job.src| && AssembleFrom(job, answers, job.runs[k].first, before) == o
  {
    hide AreRuns, AssembleFrom;
    FailedRun(job, answers, k, before);
  }

  lemma SliceFailureEnds(job: Job, answers: seq<Result<Bytes>>, i: nat, before: Bytes, o: Outcome)
    requires IsCallWith(job, answers) && i < |job.src| && job.src[i].length > 0 &&
            SliceFails(job, answers, i, before, o)
    ensures AssembleFrom(job, answers, i, before) == o
  {
    hide IsPiece, AreRuns, Stretch;
    var k :| Arrived(job, answers, i, k);
    PieceInRun(job, answers, k, i);
    var p := Piece(job, answers, i);
    if p.Ok? {
      PieceIs(job, answers, i, p.value);
    }
  }

  lemma DigestFailureEnds(job: Job, answers: seq<Result<Bytes>>, i: nat, before: Bytes, o: Outcome)
    requires IsCallWith(job, answers) && i < |job.src| && job.src[i].length > 0 &&
            DigestFails(job, answers, i, before, o)
    ensures AssembleFrom(job, answers, i, before) == o
  {
    hide IsPiece, Piece, AreRuns;
    var data :| IsPiece(job, answers, i, data) && job.h(job.target.ckType, data) != job.target.chunks[i].digest;
    PieceIs(job, answers, i, data);
    assert before + data[..0] == before;
  }

  lemma WriteFailureEnds(job: Job, answers: seq<Result<Bytes>>, i: nat, before: Bytes, o: Outcome)
    requires IsCallWith(job, answers) && i < |job.src| && job.src[i].length > 0 &&
            WriteFails(job, answers, i, before, o)
    ensures AssembleFrom(job, answers, i, before) == o
  {
    hide IsPiece, Piece, AreRuns;
    var data :| IsPiece(job, answers, i, data) && job.h(job.target.ckType, data) == job.target.chunks[i].digest
      && job.out(job.sent + before, data).err.Some?
      && o == Outcome(before + data[..job.out(job.sent + before, data).n],
                      |before| + job.out(job.sent + before, data).n,
                      Some(WriteChunk(i, job.out(job.sent + before, data).err.value)));
    PieceIs(job, answers, i, data);
  }

  /** From every point that is reached, the loop ends in one of the ways described. */
  lemma {:induction false} Trace(job: Job, answers: seq<Result<Bytes>>, i: nat, out: Bytes)
    requires IsCallWith(job, answers) && i <= |job.src| && Assembled(job, answers, i, out)
    ensures IsOutcome(job, answers, AssembleFrom(job, answers, i, out))
    decreases |job.src| - i
  {
    hide IsPiece, Piece, AreRuns, VerifyWrite, Delivered, FailsAt;
    if i < |job.src| {
      if job.src[i].length == 0 {
        Trace(job, answers, i + 1, out);
      } else if Piece(job, answers, i).Err? {
        PieceFails(job, answers, i, out);
      } else {
        var data := Piece(job, answers, i).value;
        var a := VerifyWrite(job, i, data, out);
        if a.err.Some? {
          StepFails(job, answers, i, out, data);
        } else {
          StepDelivers(job, answers, i, out, data);
          Trace(job, answers, i + 1, out + data[..a.n]);
        }
      }
    }
  }

  lemma StepDelivers(job: Job, answers: seq<Result<Bytes>>, i: nat, out: Bytes, data: Bytes)
    requires IsCallWith(job, answers) && i < |job.src| && job.src[i].length > 0 && Assembled(job, answers, i, out)
    requires Piece(job, answers, i) == Ok(data) && VerifyWrite(job, i, data, out).err.None?
    ensures Assembled(job, answers, i + 1, out + data[..VerifyWrite(job, i, data, out).n])
  {
    hide IsPiece, Piece, AreRuns;
    PieceIs(job, answers, i, data);
    assert data[..VerifyWrite(job, i, data, out).n] == data;
    assert Delivered(job, answers, i, out, data, out + data);
  }

  lemma StepFails(job: Job, answers: seq<Result<Bytes>>, i: nat, out: Bytes, data: Bytes)
    requires IsCallWith(job, answers) && i < |job.src| && job.src[i].length > 0 && Assembled(job, answers, i, out)
    requires Piece(job, answers, i) == Ok(data) && VerifyWrite(job, i, data, out).err.Some?
    ensures FailsAt(job, answers, i, out, AssembleFrom(job, answers, i, out))
  {
    hide IsPiece, Piece, AreRuns, Assembled;
    PieceIs(job, answers, i, data);
    assert out + data[..0] == out;
    var o := AssembleFrom(job, answers, i, out);
    if job.h(job.target.ckType, data) != job.target.chunks[i].digest {
      assert DigestFails(job, answers, i, out, o);
    } else {
      assert WriteFails(job, answers, i, out, o);
    }
  }

  lemma PieceFails(job: Job, answers: seq<Result<Bytes>>, i: nat, out: Bytes)
    requires IsCallWith(job, answers) && i < |job.src| && job.src[i].length > 0 && Assembled(job, answers, i, out)
    requires Piece(job, answers, i).Err?
    ensures FailsAt(job, answers, i, out, AssembleFrom(job, answers, i, out))
  {
    hide IsPiece, AreRuns, Assembled, RunSlice, Stretch;
    var o := AssembleFrom(job, answers, i, out);
    if job.src[i].local {
      assert LocalFails(job, i, out, o);
    } else {
      var k := RunOf(job.src, job.runs, i);
      RunIsRun(job.src, job.runs, k);
      if Checked(answers[k], job.runs[k].length).Err? {
        FailsAtStart(job, answers, i, out, k);
        assert RunFails(answers[k], job.runs[k].length, i, out, o);
        assert RangeFails(job, answers, i, out, o);
      } else {
        assert Arrived(job, answers, i, k);
        SliceError(job, answers, i, k);
        forall data
          ensures !IsPiece(job, answers, i, data)
        {
          PieceIs(job, answers, i, data);
        }
        assert SliceFails(job, answers, i, out, o);
      }
    }
  }

  /** A run that failed is met at its first chunk. */
  lemma FailsAtStart(job: Job, answers: seq<Result<Bytes>>, i: nat, out: Bytes, k: nat)
    requires IsCallWith(job, answers) && i < |job.src| && Assembled(job, answers, i, out)
    requires k < |job.runs| && Covers(job.runs[k], i) && Checked(answers[k], job.runs[k].length).Err?
    ensures job.runs[k].first == i
  {
    hide AreRuns, Assembled, RunSlice, Stretch;
    var j := job.runs[k].first;
    FirstIsFetched(job.src, job.runs, k);
    RunIsRun(job.src, job.runs, k);
    if j < i {
      PieceFound(job, answers, i, out, j);
      RunOfUnique(job.src, job.runs, j, k);
    }
  }

  lemma SliceError(job: Job, answers: seq<Result<Bytes>>, i: nat, k: nat)
    requires IsCallWith(job, answers) && i < |job.src| && Arrived(job, answers, i, k)
    ensures Fetchable(job.src[i])
    ensures Piece(job, answers, i).Err? ==> Piece(job, answers, i).error == SliceOutOfRange(i)
  {
    hide AreRuns, Stretch;
    PieceInRun(job, answers, k, i);
  }

  /**
   The outcome of AssembleBody is exactly the one described: every chunk delivered, or the first failure in
   source order with what had been written by then, its kind, and the number of its chunk.
   */
  lemma OutcomeExactly(job: Job, answers: seq<Result<Bytes>>, o: Outcome)
    requires IsCallWith(job, answers) && job.target.ckType <= 3
    ensures AssembleBody(job, answers) == o <==> IsOutcome(job, answers, o)
  {
    hide AreRuns, Assembled, FailsAt, AssembleFrom;
    NothingAssembled(job, answers);
    Trace(job, answers, 0, []);
    if IsOutcome(job, answers, o) {
      if Assembled(job, answers, |job.src|, o.out) && o == Outcome(o.out, |o.out|, None) {
        Reaches(job, answers, |job.src|, o.out);
        FinishedBody(job, answers, o.out);
      } else {
        var i, before :| FailsAt(job, answers, i, before, o);
        FailsWhere(job, answers, i, before, o);
        Reaches(job, answers, i, before);
        FailureEnds(job, answers, i, before, o);
      }
    }
  }

  lemma NothingAssembled(job: Job, answers: seq<Result<Bytes>>)
    requires IsCallWith(job, answers)
    ensures Assembled(job, answers, 0, [])
  {
  }

  lemma FailsWhere(job: Job, answers: seq<Result<Bytes>>, i: nat, before: Bytes, o: Outcome)
    requires IsCallWith(job, answers) && FailsAt(job, answers, i, before, o)
    ensures i < |job.src| && Assembled(job, answers, i, before)
  {
  }
}
