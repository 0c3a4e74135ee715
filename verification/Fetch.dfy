/**
 AssembleBody as it runs: one goroutine per range under a four-slot semaphore, one consumer that
 waits for each range in source order, and a return that waits for every goroutine.

 `answers` holds what each range request will answer; quantifying over it covers every behaviour
 of the source, since each range is requested once.
 */
module Fetch {
  import opened Base
  import opened Checksum
  import opened ChunkIndex
  import opened Delta
  import opened Runs
  import opened Assemble

  const CONCURRENCY := 4

  /** Where a worker stands; the last two steps are its deferred calls, last deferred first. */
  datatype Worker =
    | NotStarted
    | Queued    // wg.Add done, waiting for a slot
    | Fetching  // holds a slot, its request is under way
    | Stored    // its result is written
    | Closed    // its ready channel is closed
    | Released  // its slot is given back
    | Done      // wg.Done

  datatype Consumer =
    | Spawning(next: nat)
    | AtChunk(i: nat, out: Bytes, written: nat)
    | InRun(k: nat, c: nat, pos: int, out: Bytes, written: nat)
    | Draining(outcome: Outcome)  // the loop is left, the deferred wg.Wait is not
    | Returned(outcome: Outcome)

  datatype State = State(workers: seq<Worker>, results: seq<Option<Result<Bytes>>>, slots: nat, consumer: Consumer)

  datatype Event =
    | Work(k: nat)  // worker k takes its next step
    | Consume       // the calling goroutine takes its next step

  function Init(job: Job): State {
    State(seq(|job.runs|, k => NotStarted), seq(|job.runs|, k => None), 0, Spawning(0))
  }

  /** ready[k] is closed. */
  predicate IsReady(w: Worker) {
    w == Closed || w == Released || w == Done
  }

  predicate HoldsSlot(w: Worker) {
    w == Fetching || w == Stored || w == Closed
  }

  /** A lookup in the map from run starts to run numbers; a missing key yields 0. */
  function RunAt(runs: seq<Run>, i: nat): nat {
    if runs == [] then 0
    else if runs[|runs| - 1].first == i then |runs| - 1
    else RunAt(runs[..|runs| - 1], i)
  }

  // ---------------------------------------------------------------- steps

  predicate WorkerCanStep(s: State, k: nat) {
    && k < |s.workers|
    && match s.workers[k]
       case NotStarted => false
       case Queued => s.slots < CONCURRENCY
       case Closed => s.slots > 0
       case Done => false
       case _ => true
  }

  function WorkerStep(job: Job, answers: seq<Result<Bytes>>, s: State, k: nat): State
    requires |answers| == |job.runs| == |s.workers| == |s.results|
    requires WorkerCanStep(s, k)
  {
    match s.workers[k]
    case Queued => s.(workers := s.workers[k := Fetching], slots := s.slots + 1)
    case Fetching => s.(workers := s.workers[k := Stored],
                        results := s.results[k := Some(Checked(answers[k], job.runs[k].length))])
    case Stored => s.(workers := s.workers[k := Closed])
    case Closed => s.(workers := s.workers[k := Released], slots := s.slots - 1)
    case Released => s.(workers := s.workers[k := Done])
  }

  /**
   The consumer can step unless it waits for a range or, at the end, for workers. A slice out of range is a
   panic, which leaves the loop like an error, since the deferred wait is still made.
   */
  predicate ConsumerCanStep(job: Job, s: State)
    requires |job.src| == |job.target.chunks|
  {
    match s.consumer
    case Spawning(k) => k <= |s.workers|
    case AtChunk(i, _, _) =>
      && i <= |job.src|
      && (i < |job.src| && Fetchable(job.src[i]) ==>
            var k := RunAt(job.runs, i);
            k < |s.workers| && k < |s.results| && IsReady(s.workers[k]) && s.results[k].Some?)
    case InRun(k, c, pos, _, _) =>
      && k < |job.runs| && k < |s.results| && s.results[k].Some? && s.results[k].value.Ok? && c <= job.runs[k].count
      && (if c == job.runs[k].count then job.runs[k].count > 0 else job.runs[k].first + c < |job.src|)
    case Draining(_) => forall k :: 0 <= k < |s.workers| ==> s.workers[k] == Done
    case Returned(_) => false
  }

  function ConsumerStep(job: Job, s: State): (t: State)
    requires |job.src| == |job.target.chunks| && ConsumerCanStep(job, s)
    ensures t.results == s.results
  {
    match s.consumer
    case Spawning(k) =>
      if k == |s.workers| then s.(consumer := AtChunk(0, [], 0))
      else s.(workers := s.workers[k := Queued], consumer := Spawning(k + 1))
    case AtChunk(i, out, written) =>
      if i == |job.src| then s.(consumer := Draining(Outcome(out, written, None)))
      else if job.src[i].length == 0 then s.(consumer := AtChunk(i + 1, out, written))
      else if job.src[i].local then
        var piece := LocalPiece(job, i);
        if piece.Err? then s.(consumer := Draining(Outcome(out, written, Some(piece.error))))
        else Write(job, s, i, piece.value, out, written, (o: Bytes, w: nat) => AtChunk(i + 1, o, w))
      else
        var k := RunAt(job.runs, i);
        var r := s.results[k].value;
        if r.Err? then s.(consumer := Draining(Outcome(out, written, Some(FetchChunk(i, r.error)))))
        else s.(consumer := InRun(k, 0, 0, out, written))
    case InRun(k, c, pos, out, written) =>
      var run := job.runs[k];
      if c == run.count then s.(consumer := AtChunk(run.End(), out, written))
      else
        var i := run.first + c;
        var n := ToInt64(job.src[i].length);
        var data := SliceAt(s.results[k].value.value, pos, n, i);
        if data.Err? then s.(consumer := Draining(Outcome(out, written, Some(data.error))))
        else Write(job, s, i, data.value, out, written, (o: Bytes, w: nat) => InRun(k, c + 1, Int64(pos + n), o, w))
    case Draining(o) => s.(consumer := Returned(o))
  }

  /** Verify and write one chunk; on success go on, on failure leave the loop. */
  function Write(job: Job, s: State, i: nat, data: Bytes, out: Bytes, written: nat,
                 next: (Bytes, nat) -> Consumer): State
    requires i < |job.target.chunks|
  {
    var a := VerifyWrite(job, i, data, out);
    var more, count := out + data[..a.n], written + a.n;
    s.(consumer := if a.err.Some? then Draining(Outcome(more, count, a.err)) else next(more, count))
  }

  predicate Enabled(job: Job, s: State, e: Event)
    requires |job.src| == |job.target.chunks|
  {
    match e
    case Work(k) => WorkerCanStep(s, k)
    case Consume => ConsumerCanStep(job, s)
  }

  function Step(job: Job, answers: seq<Result<Bytes>>, s: State, e: Event): State
    requires |job.src| == |job.target.chunks|
    requires |answers| == |job.runs| == |s.workers| == |s.results|
    requires Enabled(job, s, e)
  {
    match e
    case Work(k) => WorkerStep(job, answers, s, k)
    case Consume => ConsumerStep(job, s)
  }

  /**
   The life of a worker: it takes a slot, fetches, stores the checked answer, closes its channel, and only then,
   last deferred first, gives the slot back and reports that it is done.
   */
  lemma WorkerOrder(job: Job, answers: seq<Result<Bytes>>, s: State, k: nat)
    requires |answers| == |job.runs| == |s.workers| == |s.results| && WorkerCanStep(s, k)
    ensures var t := WorkerStep(job, answers, s, k);
            var w, u := s.workers[k], t.workers[k];
            && (w == Queued ==> u == Fetching && t.slots == s.slots + 1)
            && (w == Fetching ==> u == Stored && t.results[k] == Some(Checked(answers[k], job.runs[k].length)))
            && (w == Stored ==> u == Closed) && (w == Closed ==> u == Released && t.slots == s.slots - 1)
            && (w == Released ==> u == Done)
            && (w != Queued && w != Closed ==> t.slots == s.slots) && (w != Fetching ==> t.results == s.results)
            && (HoldsSlot(w) <==> w == Fetching || w == Stored || w == Closed)
            && (IsReady(w) <==> w == Closed || w == Released || w == Done)
            && t.consumer == s.consumer && forall j :: 0 <= j < |s.workers| && j != k ==> t.workers[j] == s.workers[j]
  {
    hide Checked;
  }

  // ---------------------------------------------------------------- the invariant

  /** How many workers hold a slot. */
  function Holders(ws: seq<Worker>): nat {
    if ws == [] then 0 else Holders(ws[..|ws| - 1]) + if HoldsSlot(ws[|ws| - 1]) then 1 else 0
  }

  predicate HasResult(w: Worker) {
    w == Stored || IsReady(w)
  }

  ghost predicate WorkersInv(job: Job, answers: seq<Result<Bytes>>, s: State)
    requires |answers| == |job.runs|
  {
    && |s.workers| == |s.results| == |job.runs|
    && s.slots == Holders(s.workers) <= CONCURRENCY
    && (forall k :: 0 <= k < |s.results| ==>
          s.results[k] == if HasResult(s.workers[k]) then Some(Checked(answers[k], job.runs[k].length)) else None)
  }

  ghost predicate AllStarted(s: State) {
    forall k :: 0 <= k < |s.workers| ==> s.workers[k] != NotStarted
  }

  /** What the consumer has written is what the sequential loop has written when it stands at the same chunk. */
  ghost predicate ConsumerInv(job: Job, answers: seq<Result<Bytes>>, s: State)
    requires job.Valid() && |answers| == |job.runs|
  {
    match s.consumer
    case Spawning(n) =>
      n <= |s.workers| && forall k :: 0 <= k < |s.workers| ==> (s.workers[k] == NotStarted <==> n <= k)
    case AtChunk(i, out, written) =>
      && AllStarted(s) && i <= |job.src| && written == |out|
      && AtBorder(job.src, i)
      && AssembleFrom(job, answers, 0, []) == AssembleFrom(job, answers, i, out)
    case InRun(k, c, pos, out, written) =>
      && AllStarted(s) && k < |job.runs| && k < |s.workers| && IsReady(s.workers[k])
      && Checked(answers[k], job.runs[k].length).Ok?
      && written == |out| && c <= job.runs[k].count && job.runs[k].first + c <= |job.src|
      && pos == Int64(Stretch(job.src, job.runs[k].first, job.runs[k].first + c))
      && AssembleFrom(job, answers, 0, []) == AssembleFrom(job, answers, job.runs[k].first + c, out)
    case Draining(o) => AllStarted(s) && o == AssembleFrom(job, answers, 0, [])
    case Returned(o) =>
      && o == AssembleFrom(job, answers, 0, [])
      && forall k :: 0 <= k < |s.workers| ==> s.workers[k] == Done
  }

  ghost predicate Inv(job: Job, answers: seq<Result<Bytes>>, s: State)
    requires job.Valid() && |answers| == |job.runs|
  {
    WorkersInv(job, answers, s) && ConsumerInv(job, answers, s)
  }

  lemma {:induction false} HoldersUpdate(ws: seq<Worker>, k: nat, w: Worker)
    requires k < |ws|
    ensures Holders(ws[k := w]) == Holders(ws) - (if HoldsSlot(ws[k]) then 1 else 0) + (if HoldsSlot(w) then 1 else 0)
  {
    var last := |ws| - 1;
    if k < last {
      HoldersUpdate(ws[..last], k, w);
      assert ws[k := w][..last] == ws[..last][k := w];
    } else {
      assert ws[k := w][..last] == ws[..last];
    }
  }

  lemma {:induction false} SomeHolder(ws: seq<Worker>) returns (k: nat)
    requires Holders(ws) > 0
    ensures k < |ws| && HoldsSlot(ws[k])
  {
    if HoldsSlot(ws[|ws| - 1]) {
      k := |ws| - 1;
    } else {
      k := SomeHolder(ws[..|ws| - 1]);
    }
  }

  lemma {:induction false} NoHolders(n: nat)
    ensures Holders(seq(n, k => NotStarted)) == 0
  {
    if n > 0 {
      NoHolders(n - 1);
      assert seq(n, k => NotStarted)[..n - 1] == seq(n - 1, k => NotStarted);
    }
  }

  lemma InitInv(job: Job, answers: seq<Result<Bytes>>)
    requires job.Valid() && |answers| == |job.runs|
    ensures Inv(job, answers, Init(job))
  {
    hide AssembleFrom, AreRuns;
    NoHolders(|job.runs|);
    assert Init(job).workers == seq(|job.runs|, k => NotStarted);
  }

  lemma WorkerKeepsInv(job: Job, answers: seq<Result<Bytes>>, s: State, k: nat)
    requires job.Valid() && |answers| == |job.runs| && Inv(job, answers, s) && WorkerCanStep(s, k)
    ensures Inv(job, answers, WorkerStep(job, answers, s, k))
  {
    hide WorkersInv, ConsumerInv, WorkerStep;
    WorkerKeepsCounts(job, answers, s, k);
    WorkerKeepsConsumer(job, answers, s, k);
  }

  lemma WorkerKeepsCounts(job: Job, answers: seq<Result<Bytes>>, s: State, k: nat)
    requires |answers| == |job.runs| && WorkersInv(job, answers, s) && WorkerCanStep(s, k)
    ensures WorkersInv(job, answers, WorkerStep(job, answers, s, k))
  {
    hide Holders, Checked;
    var s' := WorkerStep(job, answers, s, k);
    HoldersUpdate(s.workers, k, s'.workers[k]);
    assert s'.workers == s.workers[k := s'.workers[k]];
  }

  /** No worker that has started is needed in a state that its step leaves. */
  lemma WorkerKeepsConsumer(job: Job, answers: seq<Result<Bytes>>, s: State, k: nat)
    requires job.Valid() && |answers| == |job.runs| && Inv(job, answers, s) && WorkerCanStep(s, k)
    ensures WorkersInv(job, answers, s) && ConsumerInv(job, answers, WorkerStep(job, answers, s, k))
  {
    hide AssembleFrom, Holders, Checked, AreRuns, Stretch, Int64;
    var s' := WorkerStep(job, answers, s, k);
    assert s.workers[k] != NotStarted && s'.workers[k] != NotStarted;
  }

  // ---------------------------------------------------------------- the consumer keeps the invariant

  lemma {:induction false} RunAtIsRunOf(runs: seq<Run>, i: nat, k: nat)
    requires k < |runs| && runs[k].first == i
    requires forall a, b :: 0 <= a < b < |runs| ==> runs[a].first < runs[b].first
    ensures RunAt(runs, i) == k
  {
    if k < |runs| - 1 {
      RunAtIsRunOf(runs[..|runs| - 1], i, k);
    }
  }

  /** At every must-fetch chunk the loop meets, the map has the run that starts there. */
  lemma RunFound(job: Job, i: nat)
    requires job.Valid() && i < |job.src| && Fetchable(job.src[i])
    requires AtBorder(job.src, i)
    ensures var k := RunAt(job.runs, i);
            && k < |job.runs| && job.runs[k].first == i && k == RunOf(job.src, job.runs, i)
            && 0 < job.runs[k].count && job.runs[k].End() <= |job.src|
  {
    hide Upto, RunAt;
    Runs.RunStarts(job.src, job.runs, i);
    var k := RunOf(job.src, job.runs, i);
    assert IsRun(job.src, job.runs[k]);
    RunAtIsRunOf(job.runs, i, k);
  }

  lemma WriteKeepsInv(job: Job, answers: seq<Result<Bytes>>, i: nat, data: Bytes, out: Bytes)
    requires job.Valid() && |answers| == |job.runs| && i < |job.src| && job.src[i].length > 0
    requires Piece(job, answers, i) == Ok(data)
    ensures var a := VerifyWrite(job, i, data, out);
            var more := out + data[..a.n];
            AssembleFrom(job, answers, i, out) ==
              if a.err.Some? then Outcome(more, |out| + a.n, a.err) else AssembleFrom(job, answers, i + 1, more)
  {
    hide Piece;
  }

  lemma AtChunkKeepsInv(job: Job, answers: seq<Result<Bytes>>, s: State)
    requires job.Valid() && |answers| == |job.runs| && Inv(job, answers, s)
    requires s.consumer.AtChunk? && ConsumerCanStep(job, s)
    ensures Inv(job, answers, ConsumerStep(job, s))
  {
    hide AssembleFrom, AreRuns, Holders, RunAt, ConsumerStep;
    var i := s.consumer.i;
    if i < |job.src| && job.src[i].length > 0 {
      if job.src[i].local {
        LocalChunkKeepsInv(job, answers, s);
      } else {
        RemoteChunkKeepsInv(job, answers, s);
      }
    } else {
      NoChunkKeepsInv(job, answers, s);
    }
  }

  lemma NoChunkKeepsInv(job: Job, answers: seq<Result<Bytes>>, s: State)
    requires job.Valid() && |answers| == |job.runs| && Inv(job, answers, s)
    requires s.consumer.AtChunk? && ConsumerCanStep(job, s)
    requires s.consumer.i < |job.src| ==> job.src[s.consumer.i].length == 0
    ensures Inv(job, answers, ConsumerStep(job, s))
  {
    hide VerifyWrite, AreRuns, Upto, Holders, RunAt, Piece, LocalPiece, AssembleFrom;
    if s.consumer.i < |job.src| {
      SkipEmpty(job, answers, s.consumer.i, s.consumer.out);
    } else {
      FinishedBody(job, answers, s.consumer.out);
    }
  }

  lemma LocalChunkKeepsInv(job: Job, answers: seq<Result<Bytes>>, s: State)
    requires job.Valid() && |answers| == |job.runs| && Inv(job, answers, s)
    requires s.consumer.AtChunk? && s.consumer.i < |job.src|
    requires job.src[s.consumer.i].length > 0 && job.src[s.consumer.i].local
    ensures Inv(job, answers, ConsumerStep(job, s))
  {
    hide VerifyWrite, AreRuns, AssembleFrom, Piece, LocalPiece, WorkersInv;
    var i := s.consumer.i;
    var piece := LocalPiece(job, i);
    PieceIsLocal(job, answers, i);
    if piece.Ok? {
      WriteKeepsInv(job, answers, i, piece.value, s.consumer.out);
    } else {
      PieceFails(job, answers, i, s.consumer.out);
    }
    SameWorkers(job, answers, s, ConsumerStep(job, s));
  }

  lemma PieceIsLocal(job: Job, answers: seq<Result<Bytes>>, i: nat)
    requires job.Valid() && |answers| == |job.runs| && i < |job.src| && job.src[i].length > 0 && job.src[i].local
    ensures Piece(job, answers, i) == LocalPiece(job, i)
  {
  }

  lemma RemoteChunkKeepsInv(job: Job, answers: seq<Result<Bytes>>, s: State)
    requires job.Valid() && |answers| == |job.runs| && Inv(job, answers, s)
    requires s.consumer.AtChunk? && s.consumer.i < |job.src| && Fetchable(job.src[s.consumer.i])
    requires ConsumerCanStep(job, s)
    ensures Inv(job, answers, ConsumerStep(job, s))
  {
    hide VerifyWrite, AreRuns, Upto, Holders, RunAt, AssembleFrom, Piece, Checked;
    RunFound(job, s.consumer.i);
    var k := RunAt(job.runs, s.consumer.i);
    if Checked(answers[k], job.runs[k].length).Err? {
      FailedRun(job, answers, k, s.consumer.out);
    }
  }

  lemma SameWorkers(job: Job, answers: seq<Result<Bytes>>, s: State, t: State)
    requires |answers| == |job.runs| && WorkersInv(job, answers, s)
    requires t.workers == s.workers && t.results == s.results && t.slots == s.slots
    ensures WorkersInv(job, answers, t)
  {
  }

  lemma InRunKeepsInv(job: Job, answers: seq<Result<Bytes>>, s: State)
    requires job.Valid() && |answers| == |job.runs| && Inv(job, answers, s)
    requires s.consumer.InRun? && ConsumerCanStep(job, s)
    ensures Inv(job, answers, ConsumerStep(job, s))
  {
    hide VerifyWrite, AssembleFrom, AreRuns, Stretch, Int64, SliceAt, WorkersInv, Checked;
    var InRun(k, c, pos, out, written) := s.consumer;
    SameWorkers(job, answers, s, ConsumerStep(job, s));
    RunIsRun(job.src, job.runs, k);
    RunEnds(job.src, job.runs[k]);
    if c < job.runs[k].count {
      PartKeepsInv(job, answers, s);
    }
  }

  lemma PartKeepsInv(job: Job, answers: seq<Result<Bytes>>, s: State)
    requires job.Valid() && |answers| == |job.runs| && Inv(job, answers, s)
    requires s.consumer.InRun? && ConsumerCanStep(job, s) && s.consumer.c < job.runs[s.consumer.k].count
    ensures ConsumerInv(job, answers, ConsumerStep(job, s))
  {
    hide VerifyWrite, AssembleFrom, AreRuns, Upto, Holders, Piece, SliceAt, Int64, Stretch, ToInt64, Checked;
    var InRun(k, c, pos, out, written) := s.consumer;
    var run := job.runs[k];
    var i := run.first + c;
    PieceInRun(job, answers, k, i);
    assert run.first <= i;
    NextPosition(job.src, run.first, i);
    var data := RunSlice(job.src, run, s.results[k].value.value, i);
    if data.Ok? {
      WriteKeepsInv(job, answers, i, data.value, out);
    } else {
      PieceFails(job, answers, i, out);
    }
  }

  lemma PieceFails(job: Job, answers: seq<Result<Bytes>>, i: nat, out: Bytes)
    requires job.Valid() && |answers| == |job.runs| && i < |job.src| && job.src[i].length > 0
    requires Piece(job, answers, i).Err?
    ensures AssembleFrom(job, answers, i, out) == Outcome(out, |out|, Some(Piece(job, answers, i).error))
  {
    hide Piece;
  }

  lemma ConsumerKeepsInv(job: Job, answers: seq<Result<Bytes>>, s: State)
    requires job.Valid() && |answers| == |job.runs| && Inv(job, answers, s) && ConsumerCanStep(job, s)
    ensures Inv(job, answers, ConsumerStep(job, s))
  {
    hide AssembleFrom, AreRuns, Upto, Holders, VerifyWrite;
    match s.consumer
    case Spawning(k) =>
      if k < |s.workers| {
        HoldersUpdate(s.workers, k, Queued);
      }
    case AtChunk(_, _, _) => AtChunkKeepsInv(job, answers, s);
    case InRun(_, _, _, _, _) => InRunKeepsInv(job, answers, s);
    case Draining(_) =>
  }

  lemma StepKeepsInv(job: Job, answers: seq<Result<Bytes>>, s: State, e: Event)
    requires job.Valid() && |answers| == |job.runs| && Inv(job, answers, s) && Enabled(job, s, e)
    ensures Inv(job, answers, Step(job, answers, s, e))
  {
    hide Inv, ConsumerCanStep, WorkerCanStep;
    match e
    case Work(k) => WorkerKeepsInv(job, answers, s, k);
    case Consume => ConsumerKeepsInv(job, answers, s);
  }

  // ---------------------------------------------------------------- progress

  function Rank(w: Worker): nat {
    match w
    case NotStarted => 6
    case Queued => 5
    case Fetching => 4
    case Stored => 3
    case Closed => 2
    case Released => 1
    case Done => 0
  }

  function WorkLeft(ws: seq<Worker>): nat {
    if ws == [] then 0 else WorkLeft(ws[..|ws| - 1]) + Rank(ws[|ws| - 1])
  }

  function Over(n: nat, i: nat): nat {
    if i <= n then n - i else 0
  }

  function ConsumerLeft(job: Job, c: Consumer): nat {
    match c
    case Spawning(k) => 3 * |job.src| + 4
    case AtChunk(i, _, _) => 3 * Over(|job.src|, i) + 3
    case InRun(k, c, _, _, _) =>
      3 * Over(|job.src|, (if k < |job.runs| then job.runs[k].first else 0) + c) + if c == 0 then 2 else 4
    case Draining(_) => 1
    case Returned(_) => 0
  }

  /** Bounds the number of steps still to come. */
  function Measure(job: Job, s: State): nat {
    WorkLeft(s.workers) + ConsumerLeft(job, s.consumer)
  }

  lemma {:induction false} WorkLeftUpdate(ws: seq<Worker>, k: nat, w: Worker)
    requires k < |ws|
    ensures WorkLeft(ws[k := w]) == WorkLeft(ws) - Rank(ws[k]) + Rank(w)
  {
    var last := |ws| - 1;
    if k < last {
      WorkLeftUpdate(ws[..last], k, w);
      assert ws[k := w][..last] == ws[..last][k := w];
    } else {
      assert ws[k := w][..last] == ws[..last];
    }
  }

  lemma {:induction false} WorkLeftAtFirst(n: nat)
    ensures WorkLeft(seq(n, k => NotStarted)) == 6 * n
  {
    if n > 0 {
      WorkLeftAtFirst(n - 1);
      assert seq(n, k => NotStarted)[..n - 1] == seq(n - 1, k => NotStarted);
    }
  }

  lemma WorkerStepDecreases(job: Job, answers: seq<Result<Bytes>>, s: State, k: nat)
    requires |answers| == |job.runs| == |s.workers| == |s.results| && WorkerCanStep(s, k)
    ensures Measure(job, WorkerStep(job, answers, s, k)) < Measure(job, s)
  {
    hide Checked;
    var s' := WorkerStep(job, answers, s, k);
    WorkLeftUpdate(s.workers, k, s'.workers[k]);
    assert s'.workers == s.workers[k := s'.workers[k]];
  }

  lemma ConsumerStepDecreases(job: Job, answers: seq<Result<Bytes>>, s: State)
    requires job.Valid() && |answers| == |job.runs| && Inv(job, answers, s) && ConsumerCanStep(job, s)
    ensures Measure(job, ConsumerStep(job, s)) < Measure(job, s)
  {
    hide AssembleFrom, AreRuns, Holders;
    match s.consumer
    case Spawning(_) => SpawningDecreases(job, answers, s);
    case AtChunk(_, _, _) => AtChunkDecreases(job, answers, s);
    case InRun(_, _, _, _, _) => InRunDecreases(job, answers, s);
    case Draining(_) =>
  }

  lemma SpawningDecreases(job: Job, answers: seq<Result<Bytes>>, s: State)
    requires job.Valid() && |answers| == |job.runs| && Inv(job, answers, s)
    requires s.consumer.Spawning? && ConsumerCanStep(job, s)
    ensures Measure(job, ConsumerStep(job, s)) < Measure(job, s)
  {
    hide AssembleFrom, AreRuns, Holders, Checked;
    var k := s.consumer.next;
    if k < |s.workers| {
      WorkLeftUpdate(s.workers, k, Queued);
    }
  }

  lemma AtChunkDecreases(job: Job, answers: seq<Result<Bytes>>, s: State)
    requires job.Valid() && |answers| == |job.runs| && Inv(job, answers, s)
    requires s.consumer.AtChunk? && ConsumerCanStep(job, s)
    ensures ConsumerStep(job, s).workers == s.workers
    ensures ConsumerLeft(job, ConsumerStep(job, s).consumer) < ConsumerLeft(job, s.consumer)
  {
    hide AssembleFrom, AreRuns, WorkersInv, VerifyWrite, RunAt, LocalPiece;
    var i := s.consumer.i;
    if i < |job.src| && Fetchable(job.src[i]) {
      RunFound(job, i);
    }
  }

  lemma InRunDecreases(job: Job, answers: seq<Result<Bytes>>, s: State)
    requires job.Valid() && |answers| == |job.runs| && Inv(job, answers, s)
    requires s.consumer.InRun? && ConsumerCanStep(job, s)
    ensures ConsumerStep(job, s).workers == s.workers
    ensures ConsumerLeft(job, ConsumerStep(job, s).consumer) < ConsumerLeft(job, s.consumer)
  {
    hide AssembleFrom, AreRuns, WorkersInv, VerifyWrite, SliceAt, Stretch, Int64, ToInt64;
    RunIsRun(job.src, job.runs, s.consumer.k);
    RunEnds(job.src, job.runs[s.consumer.k]);
  }

  /** Every step brings the end nearer. */
  lemma StepDecreases(job: Job, answers: seq<Result<Bytes>>, s: State, e: Event)
    requires job.Valid() && |answers| == |job.runs| && Inv(job, answers, s) && Enabled(job, s, e)
    ensures Measure(job, Step(job, answers, s, e)) < Measure(job, s)
  {
    hide Measure, ConsumerCanStep, WorkerCanStep, ConsumerInv;
    match e
    case Work(k) => WorkerStepDecreases(job, answers, s, k);
    case Consume => ConsumerStepDecreases(job, answers, s);
  }

  /** A worker that is not done can step, or another one that holds a slot can. */
  lemma SomeWorkerSteps(job: Job, answers: seq<Result<Bytes>>, s: State, k: nat) returns (m: nat)
    requires |answers| == |job.runs| && WorkersInv(job, answers, s)
    requires k < |s.workers| && s.workers[k] != NotStarted && s.workers[k] != Done
    ensures WorkerCanStep(s, m)
  {
    hide Holders;
    m := k;
    if s.workers[k] == Queued && s.slots == CONCURRENCY {
      m := SomeHolder(s.workers);
    } else if s.workers[k] == Closed {
      HolderCounts(s.workers, k);
    }
    if s.workers[m] == Closed {
      HolderCounts(s.workers, m);
    }
  }

  lemma {:induction false} HolderCounts(ws: seq<Worker>, k: nat)
    requires k < |ws| && HoldsSlot(ws[k])
    ensures Holders(ws) > 0
  {
    if k < |ws| - 1 {
      HolderCounts(ws[..|ws| - 1], k);
    }
  }

  /** No deadlock: until AssembleBody has returned, some step is enabled. */
  lemma Progress(job: Job, answers: seq<Result<Bytes>>, s: State) returns (e: Event)
    requires job.Valid() && |answers| == |job.runs| && Inv(job, answers, s) && !s.consumer.Returned?
    ensures Enabled(job, s, e)
  {
    hide AssembleFrom, AreRuns, Upto, Holders, RunAt, Checked;
    e := Consume;
    match s.consumer
    case Spawning(_) =>
    case AtChunk(i, _, _) =>
      if i < |job.src| && Fetchable(job.src[i]) {
        RunFound(job, i);
        var k := RunAt(job.runs, i);
        if !IsReady(s.workers[k]) {
          var m := SomeWorkerSteps(job, answers, s, k);
          e := Work(m);
        }
      }
    case InRun(k, c, pos, _, _) => InRunCanStep(job, answers, s);
    case Draining(_) =>
      if k :| 0 <= k < |s.workers| && s.workers[k] != Done {
        var m := SomeWorkerSteps(job, answers, s, k);
        e := Work(m);
      }
  }

  lemma InRunCanStep(job: Job, answers: seq<Result<Bytes>>, s: State)
    requires job.Valid() && |answers| == |job.runs| && Inv(job, answers, s) && s.consumer.InRun?
    ensures ConsumerCanStep(job, s)
  {
    hide AssembleFrom, AreRuns, Upto, Holders, Piece;
    RunIsRun(job.src, job.runs, s.consumer.k);
  }

  // ---------------------------------------------------------------- whole runs

  /** Each event is enabled in the state its predecessors lead to. */
  ghost predicate Legal(job: Job, answers: seq<Result<Bytes>>, s: State, events: seq<Event>)
    requires job.Valid() && |answers| == |job.runs| && Inv(job, answers, s)
    decreases |events|
  {
    || events == []
    || (&& Enabled(job, s, events[0])
        && (StepKeepsInv(job, answers, s, events[0]);
            Legal(job, answers, Step(job, answers, s, events[0]), events[1..])))
  }

  ghost function After(job: Job, answers: seq<Result<Bytes>>, s: State, events: seq<Event>): (t: State)
    requires job.Valid() && |answers| == |job.runs| && Inv(job, answers, s) && Legal(job, answers, s, events)
    ensures Inv(job, answers, t)
    decreases |events|
  {
    if events == [] then s else
      StepKeepsInv(job, answers, s, events[0]);
      After(job, answers, Step(job, answers, s, events[0]), events[1..])
  }

  /** A run of AssembleBody: any legal sequence of steps of workers and consumer from the start. */
  ghost predicate IsExecution(job: Job, answers: seq<Result<Bytes>>, events: seq<Event>)
    requires job.Valid() && |answers| == |job.runs|
  {
    InitInv(job, answers);
    Legal(job, answers, Init(job), events)
  }

  ghost function Reached(job: Job, answers: seq<Result<Bytes>>, events: seq<Event>): (s: State)
    requires job.Valid() && |answers| == |job.runs| && IsExecution(job, answers, events)
    ensures Inv(job, answers, s)
  {
    InitInv(job, answers);
    After(job, answers, Init(job), events)
  }

  /**
   Refinement: whatever the interleaving, a call that returns has written, counted and reported
   exactly what the sequential loop does with the same answers, so the first failure in source
   order wins; and no worker outlives it.
   */
  lemma EveryInterleavingIsSequential(job: Job, answers: seq<Result<Bytes>>, events: seq<Event>)
    requires job.Valid() && |answers| == |job.runs| && Known(job.target.ckType)
    requires IsExecution(job, answers, events) && Reached(job, answers, events).consumer.Returned?
    ensures Reached(job, answers, events).consumer.outcome == AssembleBody(job, answers)
    ensures forall k :: 0 <= k < |job.runs| ==> Reached(job, answers, events).workers[k] == Done
  {
    hide AssembleFrom, IsExecution, Reached;
  }

  /**
   Safety in every reachable state: at most four workers hold a slot, exactly those the semaphore
   counts, and a closed ready channel means that its result is the checked answer to its request.
   */
  lemma SlotsAndResults(job: Job, answers: seq<Result<Bytes>>, events: seq<Event>)
    requires job.Valid() && |answers| == |job.runs| && IsExecution(job, answers, events)
    ensures var s := Reached(job, answers, events);
            && |s.workers| == |s.results| == |job.runs|
            && s.slots == |HolderSet(s.workers)| <= 4
            && (forall k :: 0 <= k < |s.workers| && s.workers[k] == Queued ==>
                  (WorkerCanStep(s, k) <==> |HolderSet(s.workers)| < 4))
            && (forall k :: 0 <= k < |s.workers| && IsReady(s.workers[k]) ==>
                s.results[k] == Some(Checked(answers[k], job.runs[k].length)))
  {
    hide Inv, IsExecution, Reached;
    var s := Reached(job, answers, events);
    assert WorkersInv(job, answers, s) by {
      InvParts(job, answers, s);
    }
    HoldersIsCount(s.workers);
  }

  lemma InvParts(job: Job, answers: seq<Result<Bytes>>, s: State)
    requires job.Valid() && |answers| == |job.runs| && Inv(job, answers, s)
    ensures WorkersInv(job, answers, s)
  {
  }

  function HolderSet(ws: seq<Worker>): set<nat> {
    set k: nat | k < |ws| && HoldsSlot(ws[k])
  }

  lemma {:induction false} HoldersIsCount(ws: seq<Worker>)
    ensures |HolderSet(ws)| == Holders(ws)
  {
    if ws != [] {
      var last := |ws| - 1;
      HoldersIsCount(ws[..last]);
      if HoldsSlot(ws[last]) {
        assert HolderSet(ws) == HolderSet(ws[..last]) + {last};
      } else {
        assert HolderSet(ws) == HolderSet(ws[..last]);
      }
    }
  }

  /** A result, once written, is never changed. */
  lemma {:induction false} ResultsAreFinal(job: Job, answers: seq<Result<Bytes>>, s: State, events: seq<Event>, k: nat)
    requires job.Valid() && |answers| == |job.runs| && Inv(job, answers, s) && Legal(job, answers, s, events)
    requires k < |job.runs| && s.results[k].Some?
    ensures After(job, answers, s, events).results[k] == s.results[k]
    decreases |events|
  {
    hide AssembleFrom, ConsumerInv, Enabled, ConsumerCanStep, WorkerCanStep;
    if events != [] {
      StepKeepsInv(job, answers, s, events[0]);
      var t := Step(job, answers, s, events[0]);
      ResultKept(job, answers, s, events[0], k);
      ResultsAreFinal(job, answers, t, events[1..], k);
    }
  }

  lemma ResultKept(job: Job, answers: seq<Result<Bytes>>, s: State, e: Event, k: nat)
    requires |job.src| == |job.target.chunks| && |answers| == |job.runs|
    requires WorkersInv(job, answers, s) && Enabled(job, s, e)
    requires k < |job.runs| && s.results[k].Some?
    ensures Step(job, answers, s, e).results[k] == s.results[k]
  {
    hide AssembleFrom, AreRuns, Holders, Checked, ConsumerInv, ConsumerStep, ConsumerCanStep;
  }

  /** Every run is finite, with a bound known in advance. */
  lemma RunsAreShort(job: Job, answers: seq<Result<Bytes>>, events: seq<Event>)
    requires job.Valid() && |answers| == |job.runs| && IsExecution(job, answers, events)
    ensures |events| <= 6 * |job.runs| + 3 * |job.src| + 4
  {
    InitInv(job, answers);
    WorkLeftAtFirst(|job.runs|);
    assert Init(job).workers == seq(|job.runs|, k => NotStarted);
    LegalIsShort(job, answers, Init(job), events);
  }

  lemma {:induction false} LegalIsShort(job: Job, answers: seq<Result<Bytes>>, s: State, events: seq<Event>)
    requires job.Valid() && |answers| == |job.runs| && Inv(job, answers, s) && Legal(job, answers, s, events)
    ensures |events| <= Measure(job, s)
    decreases |events|
  {
    hide ConsumerInv, Enabled, Measure, Step;
    if events != [] {
      StepDecreases(job, answers, s, events[0]);
      StepKeepsInv(job, answers, s, events[0]);
      LegalIsShort(job, answers, Step(job, answers, s, events[0]), events[1..]);
    }
  }

  lemma {:induction false} FinishFrom(job: Job, answers: seq<Result<Bytes>>, s: State) returns (events: seq<Event>)
    requires job.Valid() && |answers| == |job.runs| && Inv(job, answers, s)
    ensures Legal(job, answers, s, events) && After(job, answers, s, events).consumer.Returned?
    decreases Measure(job, s)
  {
    hide ConsumerInv, Enabled, Measure, Step;
    events := [];
    if !s.consumer.Returned? {
      var e := Progress(job, answers, s);
      StepKeepsInv(job, answers, s, e);
      StepDecreases(job, answers, s, e);
      var more := FinishFrom(job, answers, Step(job, answers, s, e));
      events := [e] + more;
      assert events[1..] == more;
    }
  }

  lemma {:induction false} LegalAppend(job: Job, answers: seq<Result<Bytes>>, s: State, a: seq<Event>, b: seq<Event>)
    requires job.Valid() && |answers| == |job.runs| && Inv(job, answers, s)
    requires Legal(job, answers, s, a) && Legal(job, answers, After(job, answers, s, a), b)
    ensures Legal(job, answers, s, a + b)
    ensures After(job, answers, s, a + b) == After(job, answers, After(job, answers, s, a), b)
    decreases |a|
  {
    hide ConsumerInv, Enabled, Step;
    if a == [] {
      assert [] + b == b;
    } else {
      StepKeepsInv(job, answers, s, a[0]);
      LegalAppend(job, answers, Step(job, answers, s, a[0]), a[1..], b);
      assert (a + b)[0] == a[0] && (a + b)[1..] == a[1..] + b;
    }
  }

  /** However far an execution has got, it can be completed to a return. */
  lemma EveryExecutionCanFinish(job: Job, answers: seq<Result<Bytes>>, events: seq<Event>) returns (more: seq<Event>)
    requires job.Valid() && |answers| == |job.runs| && IsExecution(job, answers, events)
    ensures IsExecution(job, answers, events + more) && Reached(job, answers, events + more).consumer.Returned?
  {
    hide Inv, Legal, After;
    InitInv(job, answers);
    more := FinishFrom(job, answers, Reached(job, answers, events));
    LegalAppend(job, answers, Init(job), events, more);
  }

  /** A run that cannot go on has returned: with RunsAreShort, every call of AssembleBody returns. */
  lemma StuckMeansReturned(job: Job, answers: seq<Result<Bytes>>, events: seq<Event>)
    requires job.Valid() && |answers| == |job.runs| && IsExecution(job, answers, events)
    requires forall e :: !Enabled(job, Reached(job, answers, events), e)
    ensures Reached(job, answers, events).consumer.Returned?
  {
    hide Enabled, Inv, IsExecution, Reached;
    var s := Reached(job, answers, events);
    if !s.consumer.Returned? {
      var e := Progress(job, answers, s);
    }
  }
}
