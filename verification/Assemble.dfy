/** Assembling a target body from local chunks and fetched ranges: the sequential reading of AssembleBody. */
module Assemble {
  import opened Base
  import opened Checksum
  import opened ChunkIndex
  import opened Delta
  import opened Runs

  /**
   One call of AssembleBody: target, plan and its runs, the local body, and the output that has already
   taken `sent`.
   */
  datatype Job = Job(h: Hasher, target: Index, src: seq<ChunkSource>, runs: seq<Run>, local: ReaderAt, out: Writer,
                     sent: Bytes) {
    ghost predicate Valid() {
      && |src| == |target.chunks|
      && AreRuns(src, runs, |src|)
    }
  }

  datatype Outcome = Outcome(out: Bytes, written: nat, err: Option<Error>)

  /** A fetched range counts only when it has the length asked for. */
  function Checked(answer: Result<Bytes>, want: int): (r: Result<Bytes>)
    ensures r.Ok? ==> |r.value| == want
  {
    if answer.Ok? && |answer.value| != want then Err(ShortRange(|answer.value|, want)) else answer
  }

  function LocalPiece(job: Job, i: nat): Result<Bytes>
    requires i < |job.src|
  {
    var s := job.src[i];
    var a := job.local(ToInt64(s.offset), s.length);
    if |a.data| == s.length then Ok(a.data)
    else Err(LocalRead(i, if a.err.Some? then a.err.value else UnexpectedEnd))
  }

  /** The bytes the consumer takes for chunk i, given the answer to every range request. */
  ghost function Piece(job: Job, answers: seq<Result<Bytes>>, i: nat): Result<Bytes>
    requires job.Valid() && |answers| == |job.runs|
    requires i < |job.src| && job.src[i].length > 0
  {
    if job.src[i].local then LocalPiece(job, i)
    else
      var k := RunOf(job.src, job.runs, i);
      var run := job.runs[k];
      match Checked(answers[k], run.length)
      case Err(e) => Err(FetchChunk(run.first, e))
      case Ok(d) => RunSlice(job.src, run, d, i)
  }

  /** `data[pos : pos+length]`, which panics unless the bounds are in order and inside the data. */
  function SliceAt(data: Bytes, pos: int, length: int, i: nat): Result<Bytes> {
    var end := Int64(pos + length);
    if 0 <= pos <= end <= |data| then Ok(data[pos..end]) else Err(SliceOutOfRange(i))
  }

  /** The part of a run's bytes that belongs to chunk i; positions are int64 sums. */
  function RunSlice(src: seq<ChunkSource>, run: Run, data: Bytes, i: nat): Result<Bytes>
    requires run.first <= i < |src|
  {
    SliceAt(data, Int64(Stretch(src, run.first, i)), ToInt64(src[i].length), i)
  }

  /** `verifyWriteChunk`: check the digest, then write. */
  function VerifyWrite(job: Job, i: nat, data: Bytes, out: Bytes): (a: WriteAnswer)
    requires i < |job.target.chunks|
    ensures a.n <= |data| && (a.err.None? ==> a.n == |data|)
  {
    if job.h(job.target.ckType, data) != job.target.chunks[i].digest then WriteAnswer(0, Some(DigestMismatch(i)))
    else
      var a := job.out(job.sent + out, data);
      WriteAnswer(a.n, if a.err.Some? then Some(WriteChunk(i, a.err.value)) else None)
  }

  /** The sequential loop, chunk by chunk from i on, with `out` already assembled. */
  ghost function AssembleFrom(job: Job, answers: seq<Result<Bytes>>, i: nat, out: Bytes): Outcome
    requires job.Valid() && |answers| == |job.runs| && i <= |job.src|
    decreases |job.src| - i
  {
    if i == |job.src| then Outcome(out, |out|, None)
    else if job.src[i].length == 0 then AssembleFrom(job, answers, i + 1, out)
    else match Piece(job, answers, i)
      case Err(e) => Outcome(out, |out|, Some(e))
      case Ok(data) =>
        var a := VerifyWrite(job, i, data, out);
        var more := out + data[..a.n];
        if a.err.Some? then Outcome(more, |more|, a.err) else AssembleFrom(job, answers, i + 1, more)
  }

  /** The whole body, or the refusal of an unknown chunk checksum type. */
  ghost function AssembleBody(job: Job, answers: seq<Result<Bytes>>): Outcome
    requires job.Valid() && |answers| == |job.runs|
  {
    if !Known(job.target.ckType) then Outcome([], 0, Some(UnknownChecksumType(job.target.ckType)))
    else AssembleFrom(job, answers, 0, [])
  }

  /** What a source answers to the requests of the runs, shifted by the offset of the body. */
  function AnswersOf(remote: RangeReader, base: int, runs: seq<Run>): (a: seq<Result<Bytes>>)
    ensures |a| == |runs|
    ensures forall k :: 0 <= k < |runs| ==> a[k] == remote(Int64(base + runs[k].offset), runs[k].length)
  {
    seq(|runs|, k requires 0 <= k < |runs| => remote(Int64(base + runs[k].offset), runs[k].length))
  }

  // ---------------------------------------------------------------- when slices are in range

  /** Without wrap-around a slice is where it should be. */
  lemma SliceInRun(src: seq<ChunkSource>, run: Run, data: Bytes, i: nat)
    requires IsRun(src, run) && Covers(run, i) && |data| == run.length
    requires Stretch(src, run.first, run.End()) < TWO63
    ensures 0 <= Stretch(src, run.first, i) + src[i].length <= run.length
    ensures RunSlice(src, run, data, i)
         == Ok(data[Stretch(src, run.first, i)..Stretch(src, run.first, i) + src[i].length])
  {
    hide Upto;
    StretchStep(src, run.first, i);
    StretchGrows(src, run.first, i + 1, run.End());
    Int64Is(Stretch(src, run.first, i));
    Int64Is(Stretch(src, run.first, i + 1));
    Int64Is(run.length);
  }

  lemma StretchStep(src: seq<ChunkSource>, a: nat, i: nat)
    requires a <= i < |src|
    ensures Stretch(src, a, i + 1) == Stretch(src, a, i) + src[i].length
  {
  }

  lemma StretchGrows(src: seq<ChunkSource>, a: nat, b: nat, c: nat)
    requires a <= b <= c <= |src|
    ensures Stretch(src, a, b) <= Stretch(src, a, c)
  {
    UptoMonotone(src, b, c);
  }

  // ---------------------------------------------------------------- what the loop keeps

  /** The output only grows, and the count is its length. */
  lemma {:induction false} CountsWhatItWrites(job: Job, answers: seq<Result<Bytes>>, i: nat, out: Bytes)
    requires job.Valid() && |answers| == |job.runs| && i <= |job.src|
    ensures var o := AssembleFrom(job, answers, i, out);
            o.written == |o.out| && out <= o.out
    decreases |job.src| - i
  {
    hide Piece, VerifyWrite, AreRuns;
    if i < |job.src| {
      if job.src[i].length == 0 {
        CountsWhatItWrites(job, answers, i + 1, out);
      } else if Piece(job, answers, i).Ok? {
        var data := Piece(job, answers, i).value;
        var a := VerifyWrite(job, i, data, out);
        if a.err.None? {
          CountsWhatItWrites(job, answers, i + 1, out + data[..a.n]);
        }
      }
    }
  }

  // ---------------------------------------------------------------- the code, fetching each run when it is reached

  /** `ReadAt` into the front of a buffer. */
  method ReadInto(local: ReaderAt, off: int, buf: array<byte>, n: nat) returns (got: nat, err: Option<Error>)
    requires n <= buf.Length
    modifies buf
    ensures got == |local(off, n).data| && err == local(off, n).err
    ensures buf[..got] == local(off, n).data
  {
    var a := local(off, n);
    got, err := |a.data|, a.err;
    for i := 0 to got
      invariant buf[..i] == a.data[..i]
    {
      buf[i] := a.data[i];
    }
  }

  /**
   What the output holds after `body` has been assembled: it follows `sent`, which follows what was
   there before the job's writer came into being, and a teed hasher has seen all of the body.
   */
  ghost predicate Holds(out: Sink, job: Job, from: Bytes, body: Bytes)
    reads out
  {
    HoldsAfterError(out, job, from, body) && (out.tee ==> out.hashed == body)
  }

  /** As Holds, but after a failed write the hasher may lag behind. */
  ghost predicate HoldsAfterError(out: Sink, job: Job, from: Bytes, body: Bytes)
    reads out
  {
    job.out == Continued(out.writer, from) && out.data == from + (job.sent + body)
  }

  method VerifyWriteChunk(job: Job, i: nat, data: Bytes, ghost from: Bytes, ghost body: Bytes, out: Sink)
    returns (a: WriteAnswer)
    requires i < |job.target.chunks| && Holds(out, job, from, body)
    modifies out
    ensures a == VerifyWrite(job, i, data, body) && out.tee == old(out.tee)
    ensures HoldsAfterError(out, job, from, body + data[..a.n])
    ensures a.err.None? ==> Holds(out, job, from, body + data[..a.n])
  {
    if job.h(job.target.ckType, data) != job.target.chunks[i].digest {
      assert body + data[..0] == body;
      return WriteAnswer(0, Some(DigestMismatch(i)));
    }
    a := out.Write(data);
    Assoc(from, job.sent + body, data[..a.n]);
    Assoc(job.sent, body, data[..a.n]);
    if a.err.Some? {
      a := WriteAnswer(a.n, Some(WriteChunk(i, a.err.value)));
    } else {
      assert data[..a.n] == data;
    }
  }

  /**
   A call under way: its job, the answers to its ranges, and what the output held before the job's
   writer came into being.
   */
  datatype Call = Call(job: Job, answers: seq<Result<Bytes>>, from: Bytes) {
    ghost predicate Valid() {
      job.Valid() && |answers| == |job.runs|
    }
  }

  /** With `body` assembled, what remains from chunk i on leads to the outcome `goal`. */
  ghost predicate Going(out: Sink, call: Call, goal: Outcome, i: nat, body: Bytes)
    reads out
  {
    && call.Valid() && i <= |call.job.src|
    && Holds(out, call.job, call.from, body)
    && AssembleFrom(call.job, call.answers, i, body) == goal
  }

  /** The outcome has been reached by an error. */
  ghost predicate Ended(out: Sink, call: Call, goal: Outcome, body: Bytes, err: Option<Error>)
    reads out
  {
    HoldsAfterError(out, call.job, call.from, body) && goal == Outcome(body, |body|, err)
  }

  /** A piece in hand is verified and written. */
  method ConsumePiece(job: Job, i: nat, data: Bytes, ghost call: Call, ghost goal: Outcome, ghost body: Bytes,
                      out: Sink)
    returns (n: nat, err: Option<Error>, ghost more: Bytes)
    requires call.job == job && Going(out, call, goal, i, body) && i < |job.src| && job.src[i].length > 0
    requires Piece(job, call.answers, i) == Ok(data)
    modifies out
    ensures out.tee == old(out.tee) && |more| == |body| + n
    ensures if err.None? then Going(out, call, goal, i + 1, more) else Ended(out, call, goal, more, err)
  {
    hide VerifyWrite, AreRuns, Piece, Holds, HoldsAfterError;
    var a := VerifyWriteChunk(job, i, data, call.from, body, out);
    n, err, more := a.n, a.err, body + data[..a.n];
  }

  /** A local chunk is read into the reused scratch buffer, grown when it is too small. */
  method ConsumeLocal(job: Job, i: nat, scratch: array<byte>, ghost call: Call, ghost goal: Outcome,
                      ghost body: Bytes, out: Sink)
    returns (buf: array<byte>, n: nat, err: Option<Error>, ghost more: Bytes)
    requires call.job == job && Going(out, call, goal, i, body)
    requires i < |job.src| && job.src[i].local && job.src[i].length > 0
    modifies out, scratch
    ensures buf == scratch || fresh(buf)
    ensures out.tee == old(out.tee) && |more| == |body| + n
    ensures if err.None? then Going(out, call, goal, i + 1, more) else Ended(out, call, goal, more, err)
  {
    hide VerifyWrite, AreRuns;
    var s := job.src[i];
    buf := scratch;
    if buf.Length < s.length {
      buf := new byte[s.length];
    }
    var got, rerr := ReadInto(job.local, ToInt64(s.offset), buf, s.length);
    if got != s.length {
      return buf, 0, Some(LocalRead(i, if rerr.Some? then rerr.value else UnexpectedEnd)), body;
    }
    n, err, more := ConsumePiece(job, i, buf[..s.length], call, goal, body, out);
  }

  /** One chunk of a fetched range. */
  method ConsumePart(job: Job, k: nat, i: nat, pos: int, fetched: Bytes, ghost call: Call, ghost goal: Outcome,
                     ghost body: Bytes, out: Sink)
    returns (n: nat, err: Option<Error>, ghost more: Bytes)
    requires call.job == job && Going(out, call, goal, i, body)
    requires k < |job.runs| && Covers(job.runs[k], i) && i < |job.src|
    requires Checked(call.answers[k], job.runs[k].length) == Ok(fetched)
    requires pos == Int64(Stretch(job.src, job.runs[k].first, i))
    modifies out
    ensures out.tee == old(out.tee) && |more| == |body| + n
    ensures if err.None? then Going(out, call, goal, i + 1, more) else Ended(out, call, goal, more, err)
  {
    hide VerifyWrite, AreRuns, Upto, Checked, Piece, SliceAt;
    PieceInRun(job, call.answers, k, i);
    var data := SliceAt(fetched, pos, ToInt64(job.src[i].length), i);
    if data.Err? {
      return 0, Some(data.error), body;
    }
    n, err, more := ConsumePiece(job, i, data.value, call, goal, body, out);
  }

  /** One fetched range is split back into its chunks. */
  method ConsumeRun(job: Job, k: nat, fetched: Bytes, ghost call: Call, ghost goal: Outcome, ghost body: Bytes,
                    out: Sink)
    returns (n: nat, err: Option<Error>, ghost more: Bytes)
    requires call.job == job && k < |job.runs| && IsRun(job.src, job.runs[k])
    requires Going(out, call, goal, job.runs[k].first, body)
    requires Checked(call.answers[k], job.runs[k].length) == Ok(fetched)
    modifies out
    ensures out.tee == old(out.tee) && |more| == |body| + n
    ensures if err.None? then Going(out, call, goal, job.runs[k].End(), more) else Ended(out, call, goal, more, err)
  {
    hide *;
    var run := job.runs[k];
    RunEnds(job.src, run);
    NoStretch(job.src, run.first);
    n, err, more := 0, None, body;
    var pos := 0;
    for c := 0 to run.count
      invariant out.tee == old(out.tee) && |more| == |body| + n && err.None?
      invariant pos == Int64(Stretch(job.src, run.first, run.first + c))
      invariant Going(out, call, goal, run.first + c, more)
    {
      InsideRun(run, c);
      var written;
      written, err, more := ConsumePart(job, k, run.first + c, pos, fetched, call, goal, more, out);
      n := n + written;
      if err.Some? {
        return;
      }
      NextPosition(job.src, run.first, run.first + c);
      pos := Int64(pos + ToInt64(job.src[run.first + c].length));
    }
  }

  lemma InsideRun(run: Run, c: nat)
    requires c < run.count
    ensures Covers(run, run.first + c)
  {
  }

  lemma NoStretch(src: seq<ChunkSource>, a: nat)
    requires a <= |src|
    ensures Int64(Stretch(src, a, a)) == 0
  {
  }

  lemma NextPosition(src: seq<ChunkSource>, a: nat, i: nat)
    requires a <= i < |src|
    ensures Int64(Int64(Stretch(src, a, i)) + ToInt64(src[i].length)) == Int64(Stretch(src, a, i + 1))
  {
    hide Int64, Stretch;
    RunningSum(Stretch(src, a, i), src[i].length);
    StretchStep(src, a, i);
  }

  lemma PieceInRun(job: Job, answers: seq<Result<Bytes>>, k: nat, i: nat)
    requires job.Valid() && |answers| == |job.runs|
    requires k < |job.runs| && Covers(job.runs[k], i) && Checked(answers[k], job.runs[k].length).Ok?
    ensures i < |job.src| && Fetchable(job.src[i]) && IsRun(job.src, job.runs[k])
    ensures Piece(job, answers, i) == RunSlice(job.src, job.runs[k], Checked(answers[k], job.runs[k].length).value, i)
  {
    hide Upto, RunSlice;
    RunOfUnique(job.src, job.runs, i, k);
  }

  /** Each run is found under its first chunk. */
  ghost predicate KnowsStarts(runs: seq<Run>, runAt: map<nat, nat>) {
    forall k :: 0 <= k < |runs| ==> runs[k].first in runAt && runAt[runs[k].first] == k
  }

  /** `runAt`: the number of the run that starts at a chunk. */
  method IndexRuns(runs: seq<Run>) returns (runAt: map<nat, nat>)
    requires forall k, l :: 0 <= k < l < |runs| ==> runs[k].first < runs[l].first
    ensures KnowsStarts(runs, runAt)
  {
    runAt := map[];
    for k := 0 to |runs|
      invariant KnowsStarts(runs[..k], runAt)
    {
      runAt := runAt[runs[k].first := k];
    }
    assert runs[..|runs|] == runs;
  }

  /** The consumer's loop, with each run fetched when the loop reaches it. */
  method AssembleSequentially(job: Job, remote: RangeReader, base: int, ghost from: Bytes, out: Sink)
    returns (written: nat, err: Option<Error>)
    requires job.Valid() && Holds(out, job, from, [])
    modifies out
    ensures out.tee == old(out.tee)
    ensures var o := AssembleBody(job, AnswersOf(remote, base, job.runs));
            && written == o.written && err == o.err && HoldsAfterError(out, job, from, o.out)
            && (err.None? ==> Holds(out, job, from, o.out))
  {
    hide AssembleFrom, Holds, HoldsAfterError, IsRun;
    written, err := 0, None;
    if !Known(job.target.ckType) {
      HoldsAlso(out, job, from, []);
      return 0, Some(UnknownChecksumType(job.target.ckType));
    }
    var runAt := IndexRuns(job.runs);
    ghost var call := Call(job, AnswersOf(remote, base, job.runs), from);
    ghost var body;
    written, err, body := ConsumeAll(job, remote, base, runAt, call, AssembleFrom(job, call.answers, 0, []), out);
    if err.None? {
      FinishedBody(job, call.answers, body);
      HoldsAlso(out, job, from, body);
    }
  }

  lemma FirstBorder(src: seq<ChunkSource>)
    ensures AtBorder(src, 0)
  {
  }

  /** The loop over the plan. */
  method ConsumeAll(job: Job, remote: RangeReader, base: int, runAt: map<nat, nat>, ghost call: Call,
                    ghost goal: Outcome, out: Sink)
    returns (written: nat, err: Option<Error>, ghost body: Bytes)
    requires call.job == job && call.answers == AnswersOf(remote, base, job.runs) && Going(out, call, goal, 0, [])
    requires KnowsStarts(job.runs, runAt)
    modifies out
    ensures out.tee == old(out.tee) && written == |body|
    ensures if err.None? then Going(out, call, goal, |job.src|, body) else Ended(out, call, goal, body, err)
  {
    hide *;
    written, err, body := 0, None, [];
    var scratch := new byte[0];
    var i := 0;
    FirstBorder(job.src);
    while i < |job.src|
      invariant 0 <= i <= |job.src| && written == |body| && err.None?
      invariant out.tee == old(out.tee) && fresh(scratch)
      invariant Going(out, call, goal, i, body) && AtBorder(job.src, i)
      decreases |job.src| - i
    {
      var n;
      scratch, i, n, err, body := ConsumeNext(job, remote, base, runAt, i, scratch, call, goal, body, out);
      written := written + n;
      if err.Some? {
        return;
      }
    }
  }

  /** One turn of the loop: an empty chunk, a local chunk, or a whole run. */
  method ConsumeNext(job: Job, remote: RangeReader, base: int, runAt: map<nat, nat>, i: nat, scratch: array<byte>,
                     ghost call: Call, ghost goal: Outcome, ghost body: Bytes, out: Sink)
    returns (buf: array<byte>, next: nat, n: nat, err: Option<Error>, ghost more: Bytes)
    requires call.job == job && call.answers == AnswersOf(remote, base, job.runs) && Going(out, call, goal, i, body)
    requires KnowsStarts(job.runs, runAt) && i < |job.src| && AtBorder(job.src, i)
    modifies out, scratch
    ensures buf == scratch || fresh(buf)
    ensures out.tee == old(out.tee) && |more| == |body| + n
    ensures i < next <= |job.src| && AtBorder(job.src, next)
    ensures if err.None? then Going(out, call, goal, next, more) else Ended(out, call, goal, more, err)
  {
    hide *;
    var s := job.src[i];
    buf, next, n, err, more := scratch, i + 1, 0, None, body;
    if s.length == 0 || s.local {
      NextBorder(job.src, i);
      if s.length == 0 {
        GoOnEmpty(out, call, goal, i, body);
      } else {
        buf, n, err, more := ConsumeLocal(job, i, scratch, call, goal, body, out);
      }
    } else {
      assert Fetchable(s) by {
        IsFetchable(s);
      }
      RunAtBorder(out, call, goal, runAt, i, body);
      var k := runAt[i];
      n, err, more := FetchRun(job, remote, base, k, call, goal, body, out);
      next := i + job.runs[k].count;
    }
  }

  lemma IsFetchable(s: ChunkSource)
    requires s.length != 0 && !s.local
    ensures Fetchable(s)
  {
  }

  lemma NextBorder(src: seq<ChunkSource>, i: nat)
    requires i < |src| && (src[i].length == 0 || src[i].local)
    ensures AtBorder(src, i + 1)
  {
  }

  /** At a must-fetch chunk the loop finds the run that starts there. */
  lemma RunAtBorder(out: Sink, call: Call, goal: Outcome, runAt: map<nat, nat>, i: nat, body: Bytes)
    requires Going(out, call, goal, i, body) && KnowsStarts(call.job.runs, runAt)
    requires i < |call.job.src| && Fetchable(call.job.src[i]) && AtBorder(call.job.src, i)
    ensures i in runAt && runAt[i] < |call.job.runs| && call.job.runs[runAt[i]].first == i
  {
    hide IsRun, Holds;
    RunStarts(call.job.src, call.job.runs, i);
    assert runAt[call.job.runs[RunOf(call.job.src, call.job.runs, i)].first] == RunOf(call.job.src, call.job.runs, i);
  }

  lemma GoOnEmpty(out: Sink, call: Call, goal: Outcome, i: nat, body: Bytes)
    requires Going(out, call, goal, i, body) && i < |call.job.src| && call.job.src[i].length == 0
    ensures Going(out, call, goal, i + 1, body)
  {
    SkipEmpty(call.job, call.answers, i, body);
  }

  /** The remote case of the consumer's loop. */
  method FetchRun(job: Job, remote: RangeReader, base: int, k: nat, ghost call: Call, ghost goal: Outcome,
                  ghost body: Bytes, out: Sink)
    returns (n: nat, err: Option<Error>, ghost more: Bytes)
    requires call.job == job && call.answers == AnswersOf(remote, base, job.runs)
    requires k < |job.runs| && Going(out, call, goal, job.runs[k].first, body)
    modifies out
    ensures out.tee == old(out.tee) && |more| == |body| + n
    ensures var end := job.runs[k].first + job.runs[k].count;
            && job.runs[k].first < end <= |job.src| && AtBorder(job.src, end)
            && if err.None? then Going(out, call, goal, end, more) else Ended(out, call, goal, more, err)
  {
    hide AssembleFrom, AreRuns, IsRun, Holds, HoldsAfterError;
    var run := job.runs[k];
    RunIsRun(job.src, job.runs, k);
    RunEnds(job.src, run);
    var data := Checked(remote(Int64(base + run.offset), run.length), run.length);
    if data.Err? {
      FailedRun(job, call.answers, k, body);
      HoldsAlso(out, job, call.from, body);
      return 0, Some(FetchChunk(run.first, data.error)), body;
    }
    n, err, more := ConsumeRun(job, k, data.value, call, goal, body, out);
  }

  lemma HoldsAlso(out: Sink, job: Job, from: Bytes, body: Bytes)
    ensures Holds(out, job, from, body) ==> HoldsAfterError(out, job, from, body)
  {
  }

  lemma SkipEmpty(job: Job, answers: seq<Result<Bytes>>, i: nat, body: Bytes)
    requires job.Valid() && |answers| == |job.runs| && i < |job.src| && job.src[i].length == 0
    ensures AssembleFrom(job, answers, i, body) == AssembleFrom(job, answers, i + 1, body)
  {
  }

  lemma FinishedBody(job: Job, answers: seq<Result<Bytes>>, body: Bytes)
    requires job.Valid() && |answers| == |job.runs|
    ensures AssembleFrom(job, answers, |job.src|, body) == Outcome(body, |body|, None)
  {
  }

  lemma FailedRun(job: Job, answers: seq<Result<Bytes>>, k: nat, body: Bytes)
    requires job.Valid() && |answers| == |job.runs| && k < |job.runs|
    requires Checked(answers[k], job.runs[k].length).Err?
    ensures job.runs[k].first < |job.src|
    ensures AssembleFrom(job, answers, job.runs[k].first, body)
         == Outcome(body, |body|, Some(FetchChunk(job.runs[k].first, Checked(answers[k], job.runs[k].length).error)))
  {
    hide Upto;
    assert IsRun(job.src, job.runs[k]);
    RunOfUnique(job.src, job.runs, job.runs[k].first, k);
  }

  lemma RunEnds(src: seq<ChunkSource>, run: Run)
    requires IsRun(src, run)
    ensures 0 < run.count && run.End() == run.first + run.count <= |src|
    ensures run.End() < |src| ==> !Fetchable(src[run.End()])
  {
  }
}
