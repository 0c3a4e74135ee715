/** Delta download: header, plan, assembled body, final checksum; and what reaches the output. */
module Download {
  import opened Base
  import opened Checksum
  import opened LeadFormat
  import opened PrefaceFormat
  import opened ChunkIndex
  import opened HeaderFile
  import opened RemoteHeaders
  import opened Delta
  import opened Runs
  import opened Assemble
  import opened Panics
  import opened Fetch

  /** The body assembly that a download of rh runs, once its header is written. */
  function JobOf(h: Hasher, rh: RemoteHeader, src: seq<ChunkSource>, runs: seq<Run>, local: ReaderAt,
                 out: Writer): Job {
    Job(h, rh.index, src, runs, local, out, RestoredHeader(rh))
  }

  /**
   What `DownloadDeltaWithHeader` does around a body assembly that ends like this: header first, data
   checksum last.
   */
  function DownloadAround(h: Hasher, rh: RemoteHeader, localIndex: Option<Index>, out: Writer, body: Outcome): Outcome {
    var plan := Plan(localIndex, rh.index);
    if plan.Err? then Outcome([], 0, Some(plan.error)) else
      var header := RestoredHeader(rh);
      var a := out([], header);
      if a.err.Some? then Outcome(header[..a.n], a.n, Some(WriteHeader(a.err.value))) else
        var err := if body.err.None? && !UncompressedSource(rh.preface.flags) &&
            h(rh.lead.ckType, body.out) != rh.preface.dataChecksum
                   then Some(DataChecksumMismatch) else body.err;
        Outcome(header + body.out, |header| + body.written, err)
  }

  /** `DownloadDeltaWithHeader`, given the answers to the range requests of its runs. */
  ghost function DownloadWith(h: Hasher, rh: RemoteHeader, localIndex: Option<Index>, runs: seq<Run>,
                              answers: seq<Result<Bytes>>,
                              local: ReaderAt, out: Writer): Outcome
    requires Plan(localIndex, rh.index).Ok? ==>
               AreRuns(Plan(localIndex, rh.index).value, runs, |rh.index.chunks|) && |answers| == |runs|
  {
    var plan := Plan(localIndex, rh.index);
    if plan.Err? then Outcome([], 0, Some(plan.error))
    else DownloadAround(h, rh, localIndex, out, AssembleBody(JobOf(h, rh, plan.value, runs, local, out), answers))
  }

  // ---------------------------------------------------------------- the count, and when there is no error

  /** Around a body assembly that counts what it writes, the download counts what it writes: on every outcome. */
  lemma AroundCounts(h: Hasher, rh: RemoteHeader, localIndex: Option<Index>, out: Writer, body: Outcome)
    requires body.written == |body.out|
    ensures var o := DownloadAround(h, rh, localIndex, out, body); o.written == |o.out|
  {
    hide RestoredHeader;
  }

  /**
   The count returned is the number of bytes the output took, for every header, index, source, local
   copy and output.
   */
  lemma DownloadCounts(h: Hasher, rh: RemoteHeader, localIndex: Option<Index>, runs: seq<Run>,
                       answers: seq<Result<Bytes>>,
                       local: ReaderAt, out: Writer)
    requires Plan(localIndex, rh.index).Ok? ==>
               AreRuns(Plan(localIndex, rh.index).value, runs, |rh.index.chunks|) && |answers| == |runs|
    ensures var o := DownloadWith(h, rh, localIndex, runs, answers, local, out); o.written == |o.out|
  {
    hide AreRuns, AssembleFrom, DownloadAround;
    var plan := Plan(localIndex, rh.index);
    if plan.Ok? {
      PlanIsRefused(localIndex, rh.index);
      var job := JobOf(h, rh, plan.value, runs, local, out);
      CountsWhatItWrites(job, answers, 0, []);
      AroundCounts(h, rh, localIndex, out, AssembleBody(job, answers));
    }
  }

  /**
   What a download comes to, by what happens in it: a refused plan writes nothing, a failed header write
   leaves what the output took of the full-file header, and behind the header the body's outcome stands,
   but that a body without an error is refused when its digest is not the one recorded, unless the
   uncompressed-source flag says that none is.
   */
  lemma DownloadExactly(h: Hasher, rh: RemoteHeader, localIndex: Option<Index>, out: Writer, body: Outcome)
    requires rh.preface.flags < 8
    ensures var o := DownloadAround(h, rh, localIndex, out, body);
            var header := RestoredHeader(rh);
            var known := if localIndex.Some? then localIndex.value.chunks else [];
            var refused := |known| > 0 && localIndex.value.ckType != rh.index.ckType;
            var a := out([], header);
            var wrong := h(rh.lead.ckType, body.out) != rh.preface.dataChecksum && rh.preface.flags < 4;
            && (o.err.None? <==> !refused && a.err.None? && body.err.None? && !wrong)
            && (refused ==> o == Outcome([], 0, Some(ChecksumTypeMismatch(localIndex.value.ckType, rh.index.ckType))))
            && (!refused && a.err.Some? ==> o == Outcome(header[..a.n], a.n, Some(WriteHeader(a.err.value))))
            && (!refused && a.err.None? ==>
                  && o.out == header + body.out && o.written == |header| + body.written
                  && (body.err.Some? ==> o.err == body.err)
                  && (body.err.None? && wrong ==> o.err == Some(DataChecksumMismatch)))
  {
    hide RestoredHeader;
    PlanIsRefused(localIndex, rh.index);
  }

  /** The header written: the one received, but for a detached one the first five bytes are the embedded magic. */
  lemma RestoredExactly(rh: RemoteHeader)
    requires |rh.headerBytes| >= 5
    ensures |RestoredHeader(rh)| == |rh.headerBytes| && RestoredHeader(rh)[5..] == rh.headerBytes[5..]
    ensures RestoredHeader(rh)[..5] == if rh.lead.detached then [0x00, 0x5A, 0x43, 0x4B, 0x31] else rh.headerBytes[..5]
  {
  }

  // ---------------------------------------------------------------- safety of the assembled body

  /**
   None of the strings that the consumer was handed, by whatever source, is a second preimage of
   the chunk it stands for. Only strings that occur in this very run are spoken of.
   */
  ghost predicate NothingCollides(job: Job, answers: seq<Result<Bytes>>, body: Bytes)
    requires job.Valid() && |answers| == |job.runs|
  {
    && BodyLength(job.target.chunks) == |body|
    && forall i :: 0 <= i < |job.src| && job.src[i].length > 0 && Piece(job, answers, i).Ok? ==>
         !Collide(job.h, job.target.ckType, Piece(job, answers, i).value, Chunk(job.target.chunks, body, i))
  }

  ghost predicate LengthsAgree(job: Job)
    requires job.Valid()
  {
    forall i :: 0 <= i < |job.src| ==> job.src[i].length == job.target.chunks[i].compLength
  }

  lemma {:induction false} AssembledIsBody(job: Job, answers: seq<Result<Bytes>>, body: Bytes, i: nat, out: Bytes)
    requires job.Valid() && |answers| == |job.runs| && i <= |job.src| && LengthsAgree(job)
    requires Describes(job.h, job.target, body) && NothingCollides(job, answers, body)
    requires Offset(job.target.chunks, i) <= |body| && out == body[..Offset(job.target.chunks, i)]
    ensures AssembleFrom(job, answers, i, out).err.None? ==> AssembleFrom(job, answers, i, out).out == body
    decreases |job.src| - i
  {
    hide Piece, Offset, AreRuns, Chunk;
    var chunks := job.target.chunks;
    if i == |job.src| {
      assert body[..|body|] == body;
    } else {
      ChunkStep(chunks, body, i);
      if job.src[i].length == 0 {
        assert body[..Offset(chunks, i)] + Chunk(chunks, body, i) == out;
        AssembledIsBody(job, answers, body, i + 1, out);
      } else if Piece(job, answers, i).Ok? {
        var data := Piece(job, answers, i).value;
        var a := VerifyWrite(job, i, data, out);
        if a.err.None? {
          assert data == Chunk(chunks, body, i);
          assert data[..a.n] == data;
          AssembledIsBody(job, answers, body, i + 1, out + data);
        }
      }
    }
  }

  /** The header a download writes, followed by the body, is the file; and the body is what the index describes. */
  lemma RestoredIsFile(h: Hasher, detached: bool, parts: Parts)
    requires File(h, parts).Ok? && |File(h, parts).value| < TWO63
    ensures Header(h, MagicOf(detached), parts).Ok? && |HeaderBody(h, parts).value| < TWO64
    ensures RestoredHeader(WrittenHeader(h, detached, parts)) + parts.body == File(h, parts).value
    ensures Known(parts.overall)
  {
    hide HeaderBody, LeadBytes, HeaderChecksum, FieldsOf, StreamedHeader, CutHeader;
    DetachedAgreesWithFile(h, parts);
    if !detached {
      assert RestoredHeader(WrittenHeader(h, detached, parts)) == Header(h, MAGIC, parts).value;
    }
  }

  /** The hypotheses under which a header describes a file, and a plan and its runs belong to it. */
  ghost predicate Scenario(h: Hasher, detached: bool, parts: Parts, localIndex: Option<Index>, runs: seq<Run>,
                           answers: seq<Result<Bytes>>) {
    && File(h, parts).Ok? && |File(h, parts).value| < TWO63
    && Header(h, MagicOf(detached), parts).Ok? && |HeaderBody(h, parts).value| < TWO64
    && Describes(h, parts.index, parts.body)
    && var target := WrittenHeader(h, detached, parts).index;
    && Plan(localIndex, target).Ok?
    && AreRuns(Plan(localIndex, target).value, runs, |target.chunks|) && |answers| == |runs|
  }

  /**
   Safety of the whole download. For a written file whose index describes its body, driven by its
   own or its detached header, with any local index and body, any answers to the range requests
   and any output: a nil error means that the output is the file byte for byte and the count is
   its length, unless one of the strings actually received collides with the chunk it replaced.
   */
  lemma DownloadIsTheFile(h: Hasher, detached: bool, parts: Parts, localIndex: Option<Index>, runs: seq<Run>,
                          answers: seq<Result<Bytes>>, local: ReaderAt, out: Writer)
    requires Scenario(h, detached, parts, localIndex, runs, answers)
    requires var rh := WrittenHeader(h, detached, parts);
             var job := JobOf(h, rh, Plan(localIndex, rh.index).value, runs, local, out);
             NothingCollides(job, answers, parts.body)
    ensures var o := DownloadWith(h, WrittenHeader(h, detached, parts), localIndex, runs, answers, local, out);
            o.err.None? ==> o.out == File(h, parts).value && o.written == |File(h, parts).value|
  {
    hide HeaderBody, File, Header, AssembleFrom, AreRuns, Describes;
    hide RestoredHeader, Offset, LeadOf, NothingCollides, Plan;
    var rh := WrittenHeader(h, detached, parts);
    var job := JobOf(h, rh, Plan(localIndex, rh.index).value, runs, local, out);
    RestoredIsFile(h, detached, parts);
    VisibleDescribes(h, parts.index, HasUncompressedSource(parts), parts.body);
    PlanShape(localIndex, rh.index);
    BodyIsSafe(job, answers, parts.body);
  }

  lemma PlanShape(localIndex: Option<Index>, target: Index)
    requires Plan(localIndex, target).Ok?
    ensures var src := Plan(localIndex, target).value;
            |src| == |target.chunks| && forall i :: 0 <= i < |src| ==> src[i].length == target.chunks[i].compLength
  {
  }

  lemma BodyIsSafe(job: Job, answers: seq<Result<Bytes>>, body: Bytes)
    requires job.Valid() && |answers| == |job.runs| && LengthsAgree(job)
    requires Describes(job.h, job.target, body)
    requires NothingCollides(job, answers, body)
    ensures AssembleBody(job, answers).written == |AssembleBody(job, answers).out|
    ensures AssembleBody(job, answers).err.None? ==> AssembleBody(job, answers).out == body
  {
    hide AssembleFrom, NothingCollides, AreRuns;
    assert body[..0] == [];
    AssembledIsBody(job, answers, body, 0, []);
    CountsWhatItWrites(job, answers, 0, []);
  }

  /**
   The final data checksum alone: whatever the index says, when the checksum is generated a nil
   error means that the assembled body is the file's body, unless these two strings collide.
   */
  lemma DataChecksumAlone(h: Hasher, detached: bool, parts: Parts, localIndex: Option<Index>, runs: seq<Run>,
                          answers: seq<Result<Bytes>>, local: ReaderAt, out: Writer, body: Bytes)
    requires File(h, parts).Ok? && |File(h, parts).value| < TWO63 && !HasUncompressedSource(parts)
    requires Header(h, MagicOf(detached), parts).Ok? && |HeaderBody(h, parts).value| < TWO64
    requires var target := WrittenHeader(h, detached, parts).index;
             && Plan(localIndex, target).Ok? && |answers| == |runs|
             && AreRuns(Plan(localIndex, target).value, runs, |target.chunks|)
    requires var rh := WrittenHeader(h, detached, parts);
             body == AssembleBody(JobOf(h, rh, Plan(localIndex, rh.index).value, runs, local, out), answers).out
    requires !Collide(h, parts.overall, body, parts.body)
    ensures var o := DownloadWith(h, WrittenHeader(h, detached, parts), localIndex, runs, answers, local, out);
            o.err.None? ==> o.out == File(h, parts).value
  {
    hide HeaderBody, File, Header, AssembleBody, AreRuns, RestoredHeader, Plan;
    RestoredIsFile(h, detached, parts);
  }

  // ---------------------------------------------------------------- success with honest sources

  /** A local copy serves its body wherever it is asked inside it. */
  ghost predicate ServesBody(local: ReaderAt, body: Bytes) {
    forall off: int, n: nat :: 0 <= off && off + n <= |body| ==> local(off, n).data == body[off..off + n]
  }

  /** Each range is answered with that part of the body. */
  ghost predicate HonestAnswers(runs: seq<Run>, answers: seq<Result<Bytes>>, body: Bytes)
    requires |answers| == |runs|
  {
    forall k :: 0 <= k < |runs| && 0 <= runs[k].offset <= runs[k].offset + runs[k].length <= |body| ==>
      answers[k] == Ok(body[runs[k].offset..runs[k].offset + runs[k].length])
  }

  /** No local chunk collides with a chunk of the target. */
  ghost predicate CopiesAreGenuine(h: Hasher, local: seq<Entry>, localBody: Bytes, target: Index, body: Bytes)
  {
    && BodyLength(local) == |localBody| && BodyLength(target.chunks) == |body|
    && forall i, j :: 0 <= i < |target.chunks| && 0 <= j < |local| && local[j].compLength > 0 ==>
         !Collide(h, target.ckType, Chunk(local, localBody, j), Chunk(target.chunks, body, i))
  }

  /** With honest sources every piece is the chunk it stands for. */
  ghost predicate PiecesAreChunks(job: Job, answers: seq<Result<Bytes>>, body: Bytes)
    requires job.Valid() && |answers| == |job.runs|
  {
    && BodyLength(job.target.chunks) == |body|
    && forall i :: 0 <= i < |job.src| && job.src[i].length > 0 ==>
        Piece(job, answers, i) == Ok(Chunk(job.target.chunks, body, i))
  }

  lemma LocalPieceIsChunk(job: Job, local: seq<Entry>, localBody: Bytes, body: Bytes, i: nat)
    requires job.src == Sources(local, job.target.chunks) && i < |job.src| && job.src[i].length > 0 && job.src[i].local
    requires Describes(job.h, job.target, body) && Describes(job.h, Index(job.target.ckType, local), localBody)
    requires |localBody| < TWO63 && ServesBody(job.local, localBody)
    requires CopiesAreGenuine(job.h, local, localBody, job.target, body)
    ensures LocalPiece(job, i) == Ok(Chunk(job.target.chunks, body, i))
  {
    hide Offset, FirstWith;
    var chunks := job.target.chunks;
    var j := FirstWith(local, |local|, chunks[i].digest).value;
    ChunkStep(local, localBody, j);
    ChunkStep(chunks, body, i);
    assert Index(job.target.ckType, local).chunks[j].digest == job.h(job.target.ckType, Chunk(local, localBody, j));
    assert Chunk(local, localBody, j) == Chunk(chunks, body, i);
    assert job.src[i].offset == Offset(local, j);
  }

  lemma RemotePieceIsChunk(job: Job, answers: seq<Result<Bytes>>, local: seq<Entry>, body: Bytes, i: nat)
    requires job.Valid() && |answers| == |job.runs| && BodyLength(job.target.chunks) == |body| < TWO63
    requires job.src == Sources(local, job.target.chunks) && i < |job.src| && Fetchable(job.src[i])
    requires HonestAnswers(job.runs, answers, body)
    ensures Piece(job, answers, i) == Ok(Chunk(job.target.chunks, body, i))
  {
    hide Offset, Upto, AreRuns, IsRun, SourceOf, RunSlice, Chunk;
    var k := RunOf(job.src, job.runs, i);
    var run := job.runs[k];
    RunIsRun(job.src, job.runs, k);
    RunIsRange(local, job.target.chunks, run, i);
    PieceInRun(job, answers, k, i);
    SliceIsChunk(local, job.target.chunks, run, body, i);
  }

  lemma SliceIsChunk(local: seq<Entry>, chunks: seq<Entry>, run: Run, body: Bytes, i: nat)
    requires BodyLength(chunks) == |body| < TWO63
    requires IsRun(Sources(local, chunks), run) && Covers(run, i)
    requires 0 <= run.offset <= run.offset + run.length <= |body|
    ensures i < |Sources(local, chunks)|
    ensures RunSlice(Sources(local, chunks), run, body[run.offset..run.offset + run.length], i)
            == Ok(Chunk(chunks, body, i))
  {
    hide Offset, Upto, SourceOf, IsRun, RunSlice, Stretch;
    var src := Sources(local, chunks);
    CoveredLength(local, chunks, run, i);
    RunIsRange(local, chunks, run, i);
    OffsetStep(chunks, i);
    ChunkStep(chunks, body, i);
    RunEnds(src, run);
    UptoOfPlan(local, chunks, |chunks|);
    StretchWithin(src, run.first, run.End());
    SliceInRun(src, run, body[run.offset..run.offset + run.length], i);
    SliceOfSlice(body, run.offset, run.offset + run.length, Stretch(src, run.first, i), src[i].length);
  }

  lemma CoveredLength(local: seq<Entry>, chunks: seq<Entry>, run: Run, i: nat)
    requires IsRun(Sources(local, chunks), run) && Covers(run, i)
    ensures i < |chunks| && Sources(local, chunks)[i].length == chunks[i].compLength
  {
    hide Upto, Offset;
    assert Fetchable(Sources(local, chunks)[i]);
  }

  lemma SliceOfSlice(s: Bytes, a: nat, b: nat, pos: nat, n: nat)
    requires a <= b <= |s| && pos + n <= b - a
    ensures s[a..b][pos..pos + n] == s[a + pos..a + pos + n]
  {
    var l, r := s[a..b][pos..pos + n], s[a + pos..a + pos + n];
    assert |l| == |r| && forall j :: 0 <= j < n ==> l[j] == r[j];
  }

  lemma {:induction false} HonestAssembly(job: Job, answers: seq<Result<Bytes>>, body: Bytes, i: nat, out: Bytes)
    requires job.Valid() && |answers| == |job.runs| && i <= |job.src| && LengthsAgree(job)
    requires Describes(job.h, job.target, body) && PiecesAreChunks(job, answers, body) && NeverFails(job.out)
    ensures AssembleFrom(job, answers, i, out).err.None?
    decreases |job.src| - i
  {
    hide Piece, Offset, AreRuns, Chunk;
    if i < |job.src| {
      if job.src[i].length == 0 {
        HonestAssembly(job, answers, body, i + 1, out);
      } else {
        var data := Piece(job, answers, i).value;
        var a := VerifyWrite(job, i, data, out);
        HonestAssembly(job, answers, body, i + 1, out + data[..a.n]);
      }
    }
  }

  /**
   Success: with an output that never fails, honest answers, and either no local copy or one of
   the same chunk checksum type that is what its index says, the download ends without an error,
   so its output is the file.
   */
  lemma HonestDownloadSucceeds(h: Hasher, detached: bool, parts: Parts, localIndex: Option<Index>, localBody: Bytes,
                               runs: seq<Run>,
                               answers: seq<Result<Bytes>>, local: ReaderAt, out: Writer)
    requires Scenario(h, detached, parts, localIndex, runs, answers) && Known(parts.index.ckType)
    requires Describes(h, Index(parts.index.ckType, LocalChunks(localIndex)), localBody)
    requires |localBody| < TWO63 && ServesBody(local, localBody)
    requires CopiesAreGenuine(h, LocalChunks(localIndex), localBody, parts.index, parts.body)
    requires HonestAnswers(runs, answers, parts.body) && NeverFails(out)
    ensures var o := DownloadWith(h, WrittenHeader(h, detached, parts), localIndex, runs, answers, local, out);
            o == Outcome(File(h, parts).value, |File(h, parts).value|, None)
  {
    hide HeaderBody, File, Header, AssembleFrom, AreRuns, RestoredHeader, Offset;
    var us := HasUncompressedSource(parts);
    var rh := WrittenHeader(h, detached, parts);
    var src := Plan(localIndex, rh.index).value;
    var job := JobOf(h, rh, src, runs, local, out);
    RestoredIsFile(h, detached, parts);
    VisibleDescribes(h, parts.index, us, parts.body);
    PlanShape(localIndex, rh.index);
    GenuineVisible(h, LocalChunks(localIndex), localBody, parts.index, us, parts.body);
    HonestPieces(job, answers, LocalChunks(localIndex), localBody, parts.body);
    HonestBody(job, answers, parts.body);
  }

  lemma GenuineVisible(h: Hasher, local: seq<Entry>, localBody: Bytes, idx: Index, us: bool, body: Bytes)
    requires CopiesAreGenuine(h, local, localBody, idx, body)
    ensures CopiesAreGenuine(h, local, localBody, VisibleIndex(idx, us), body)
  {
    hide Offset;
    var v := VisibleIndex(idx, us);
    VisibleOffset(idx.chunks, us, |idx.chunks|);
    forall i, j | 0 <= i < |v.chunks| && 0 <= j < |local| && local[j].compLength > 0
      ensures !Collide(h, v.ckType, Chunk(local, localBody, j), Chunk(v.chunks, body, i))
    {
      VisibleOffset(idx.chunks, us, i);
      VisibleOffset(idx.chunks, us, i + 1);
      assert Chunk(v.chunks, body, i) == Chunk(idx.chunks, body, i);
    }
  }

  lemma HonestPieces(job: Job, answers: seq<Result<Bytes>>, local: seq<Entry>, localBody: Bytes, body: Bytes)
    requires job.Valid() && |answers| == |job.runs| && job.src == Sources(local, job.target.chunks)
    requires Describes(job.h, job.target, body) && Describes(job.h, Index(job.target.ckType, local), localBody)
    requires |localBody| < TWO63 && |body| < TWO63 && ServesBody(job.local, localBody)
    requires CopiesAreGenuine(job.h, local, localBody, job.target, body) && HonestAnswers(job.runs, answers, body)
    ensures PiecesAreChunks(job, answers, body)
  {
    hide Offset, AreRuns, CopiesAreGenuine, HonestAnswers, Describes, LocalPiece, SourceOf, Chunk;
    assert BodyLength(job.target.chunks) == |body| by {
      DescribedLength(job.h, job.target, body);
    }
    forall i | 0 <= i < |job.src| && job.src[i].length > 0
      ensures Piece(job, answers, i) == Ok(Chunk(job.target.chunks, body, i))
    {
      if job.src[i].local {
        LocalPieceIsChunk(job, local, localBody, body, i);
      } else {
        RemotePieceIsChunk(job, answers, local, body, i);
      }
    }
  }

  lemma HonestBody(job: Job, answers: seq<Result<Bytes>>, body: Bytes)
    requires job.Valid() && |answers| == |job.runs| && LengthsAgree(job) && Known(job.target.ckType)
    requires Describes(job.h, job.target, body) && PiecesAreChunks(job, answers, body) && NeverFails(job.out)
    ensures AssembleBody(job, answers) == Outcome(body, |body|, None)
  {
    hide AssembleFrom, AreRuns, Piece;
    assert body[..0] == [];
    HonestAssembly(job, answers, body, 0, []);
    AssembledIsBody(job, answers, body, 0, []);
    CountsWhatItWrites(job, answers, 0, []);
  }

  // ---------------------------------------------------------------- every interleaving, and the header fetched as well

  /**
   Whatever the interleaving of the fetch workers and the consumer, the download around it ends like
   the sequential one.
   */
  lemma EveryInterleavingDownloads(h: Hasher, rh: RemoteHeader, localIndex: Option<Index>, runs: seq<Run>,
                                   answers: seq<Result<Bytes>>,
                                   local: ReaderAt, out: Writer, job: Job, events: seq<Event>)
    requires Plan(localIndex, rh.index).Ok? && |answers| == |runs| && Known(rh.index.ckType)
    requires AreRuns(Plan(localIndex, rh.index).value, runs, |rh.index.chunks|)
    requires job == JobOf(h, rh, Plan(localIndex, rh.index).value, runs, local, out) && job.Valid()
    requires IsExecution(job, answers, events) && Reached(job, answers, events).consumer.Returned?
    ensures DownloadAround(h, rh, localIndex, out, Reached(job, answers, events).consumer.outcome)
         == DownloadWith(h, rh, localIndex, runs, answers, local, out)
  {
    hide AssembleBody, AreRuns, RestoredHeader, Plan, IsExecution, Reached;
    EveryInterleavingIsSequential(job, answers, events);
  }

  /**
   Safety for the concurrent engine itself: in every interleaving of the fetch workers and the
   consumer, a download of a written file that ends without an error has delivered that file.
   */
  lemma EveryInterleavingDelivers(h: Hasher, detached: bool, parts: Parts, localIndex: Option<Index>, runs: seq<Run>,
                                  answers: seq<Result<Bytes>>, local: ReaderAt, out: Writer, job: Job,
                                  events: seq<Event>)
    requires Scenario(h, detached, parts, localIndex, runs, answers) && Known(parts.index.ckType)
    requires var rh := WrittenHeader(h, detached, parts);
             job == JobOf(h, rh, Plan(localIndex, rh.index).value, runs, local, out)
    requires NothingCollides(job, answers, parts.body)
    requires IsExecution(job, answers, events) && Reached(job, answers, events).consumer.Returned?
    ensures var o := DownloadAround(h, WrittenHeader(h, detached, parts), localIndex, out,
                                    Reached(job, answers, events).consumer.outcome);
            o.err.None? ==> o.out == File(h, parts).value && o.written == |File(h, parts).value|
  {
    hide HeaderBody, File, Header, AssembleBody, AreRuns, Describes;
    hide RestoredHeader, Offset, LeadOf, NothingCollides, Plan;
    hide IsExecution, Reached, DownloadAround, DownloadWith;
    PlanShape(localIndex, WrittenHeader(h, detached, parts).index);
    EveryInterleavingDownloads(h, WrittenHeader(h, detached, parts), localIndex, runs, answers, local, out, job,
                               events);
    DownloadIsTheFile(h, detached, parts, localIndex, runs, answers, local, out);
  }

  /** And with honest sources every interleaving succeeds: the engine delivers the file and reports no error. */
  lemma EveryHonestInterleavingSucceeds(h: Hasher, detached: bool, parts: Parts, localIndex: Option<Index>,
                                        localBody: Bytes, runs: seq<Run>,
                                        answers: seq<Result<Bytes>>, local: ReaderAt, out: Writer, job: Job,
                                        events: seq<Event>)
    requires Scenario(h, detached, parts, localIndex, runs, answers) && Known(parts.index.ckType)
    requires Describes(h, Index(parts.index.ckType, LocalChunks(localIndex)), localBody)
    requires |localBody| < TWO63 && ServesBody(local, localBody)
    requires CopiesAreGenuine(h, LocalChunks(localIndex), localBody, parts.index, parts.body)
    requires HonestAnswers(runs, answers, parts.body) && NeverFails(out)
    requires var rh := WrittenHeader(h, detached, parts);
             job == JobOf(h, rh, Plan(localIndex, rh.index).value, runs, local, out) && job.Valid()
    requires IsExecution(job, answers, events) && Reached(job, answers, events).consumer.Returned?
    ensures DownloadAround(h, WrittenHeader(h, detached, parts), localIndex, out,
                           Reached(job, answers, events).consumer.outcome)
         == Outcome(File(h, parts).value, |File(h, parts).value|, None)
  {
    hide HeaderBody, File, Header, AssembleBody, AreRuns, Describes, RestoredHeader, Offset, LeadOf, Plan;
    hide IsExecution, Reached, DownloadAround, DownloadWith, CopiesAreGenuine, ServesBody, HonestAnswers;
    EveryInterleavingDownloads(h, WrittenHeader(h, detached, parts), localIndex, runs, answers, local, out, job,
                               events);
    HonestDownloadSucceeds(h, detached, parts, localIndex, localBody, runs, answers, local, out);
  }

  /** A download whose plan is harmless does not panic, whatever the source, the local copy and the output do. */
  lemma DownloadDoesNotPanic(h: Hasher, rh: RemoteHeader, localIndex: Option<Index>, runs: seq<Run>,
                             answers: seq<Result<Bytes>>, local: ReaderAt, out: Writer)
    requires Plan(localIndex, rh.index).Ok? ==>
               && AreRuns(Plan(localIndex, rh.index).value, runs, |rh.index.chunks|) && |answers| == |runs|
               && |Plan(localIndex, rh.index).value| == |rh.index.chunks|
               && Harmless(Plan(localIndex, rh.index).value, runs)
    ensures !EndsInPanic(DownloadWith(h, rh, localIndex, runs, answers, local, out))
  {
    hide RestoredHeader, AssembleFrom, AreRuns, Harmless;
    var plan := Plan(localIndex, rh.index);
    if plan.Ok? {
      NoPanic(JobOf(h, rh, plan.value, runs, local, out), answers, 0, []);
    }
  }

  /** In particular for an index whose lengths add up to an int64. */
  lemma ShortIndexIsHarmless(rh: RemoteHeader, localIndex: Option<Index>, runs: seq<Run>)
    requires BodyLength(rh.index.chunks) < TWO63 && Plan(localIndex, rh.index).Ok?
    requires AreRuns(Plan(localIndex, rh.index).value, runs, |rh.index.chunks|)
    ensures |Plan(localIndex, rh.index).value| == |rh.index.chunks|
    ensures Harmless(Plan(localIndex, rh.index).value, runs)
  {
    hide AreRuns, Harmless, Upto, Offset;
    PlanTotal(localIndex, rh.index);
    ShortIsHarmless(Plan(localIndex, rh.index).value, runs);
  }

  /**
   A header makes the download panic when it declares two chunks of 2^63 and 2^63 + 10 bytes and the
   source answers the one request it leads to with ten bytes of anything, under any digests.
   */
  lemma DownloadPanics(h: Hasher, rh: RemoteHeader, data: Bytes, local: ReaderAt, out: Writer)
    requires |rh.index.chunks| == 2 && Known(rh.index.ckType) && |data| == 10
    requires rh.index.chunks[0].compLength == TWO63 && rh.index.chunks[1].compLength == TWO63 + 10
    requires out([], RestoredHeader(rh)).err.None?
    ensures Plan(None, rh.index).Ok? && AreRuns(Plan(None, rh.index).value, [Run(0, 10, 0, 2)], 2)
    ensures var header := RestoredHeader(rh);
            DownloadWith(h, rh, None, [Run(0, 10, 0, 2)], [Ok(data)], local, out)
            == Outcome(header, |header|, Some(SliceOutOfRange(0)))
  {
    WrappedSources(rh.index.chunks);
    WrappedRuns();
    var job := JobOf(h, rh, WrappedPlan(), [Run(0, 10, 0, 2)], local, out);
    WrappedAssembly(job, data);
    hide AssembleBody, AreRuns, RestoredHeader, Sources, WrappedPlan;
    assert RestoredHeader(rh) + [] == RestoredHeader(rh);
  }

  /** Such a header is accepted: any written header with such an index will do. */
  lemma AcceptedHeaderPanics(h: Hasher, parts: Parts, rest: Bytes, data: Bytes, local: ReaderAt, out: Writer)
    requires Header(h, MAGIC, parts).Ok? && |HeaderBody(h, parts).value| < TWO64
    requires |parts.index.chunks| == 2 && Known(parts.index.ckType) && |data| == 10 && NeverFails(out)
    requires parts.index.chunks[0].compLength == TWO63 && parts.index.chunks[1].compLength == TWO63 + 10
    ensures var rh := WrittenHeader(h, false, parts);
            && StreamedHeader(h, Header(h, MAGIC, parts).value + rest) == Ok(Parsed(rh, rest))
            && Plan(None, rh.index).Ok? && AreRuns(Plan(None, rh.index).value, [Run(0, 10, 0, 2)], 2)
            && |rh.index.chunks| == 2
            && EndsInPanic(DownloadWith(h, rh, None, [Run(0, 10, 0, 2)], [Ok(data)], local, out))
  {
    hide HeaderBody, Header, RestoredHeader, StreamedHeader, DownloadWith, AreRuns, Plan, LeadOf;
    StreamWritten(h, false, parts, rest);
    DownloadPanics(h, WrittenHeader(h, false, parts), data, local, out);
  }

  lemma WrappedSources(chunks: seq<Entry>)
    requires |chunks| == 2 && chunks[0].compLength == TWO63 && chunks[1].compLength == TWO63 + 10
    ensures Sources([], chunks) == WrappedPlan()
  {
    assert Offset(chunks, 0) == 0;
    assert Offset(chunks, 1) == TWO63;
    assert Sources([], chunks)[0] == SourceOf([], chunks, 0) == WrappedPlan()[0];
    assert Sources([], chunks)[1] == SourceOf([], chunks, 1) == WrappedPlan()[1];
  }

  /** `DownloadDelta`: the header is fetched from the same source as the ranges. */
  ghost function DownloadAll(h: Hasher, remote: RangeReader, localIndex: Option<Index>, runs: seq<Run>,
                             local: ReaderAt, out: Writer): Outcome
    requires FetchedHeader(h, remote).Ok? && Plan(localIndex, FetchedHeader(h, remote).value.index).Ok? ==>
               AreRuns(Plan(localIndex, FetchedHeader(h, remote).value.index).value, runs,
                       |FetchedHeader(h, remote).value.index.chunks|)
  {
    match FetchedHeader(h, remote)
    case Err(e) => Outcome([], 0, Some(e))
    case Ok(rh) => DownloadWith(h, rh, localIndex, runs, AnswersOf(remote, rh.bodyOffset, runs), local, out)
  }

  /**
   With the header fetched as well: a header that is not had writes nothing, and the count is right on
   every outcome.
   */
  lemma DownloadAllCounts(h: Hasher, remote: RangeReader, localIndex: Option<Index>, runs: seq<Run>, local: ReaderAt,
                          out: Writer)
    requires FetchedHeader(h, remote).Ok? && Plan(localIndex, FetchedHeader(h, remote).value.index).Ok? ==>
               AreRuns(Plan(localIndex, FetchedHeader(h, remote).value.index).value, runs,
                       |FetchedHeader(h, remote).value.index.chunks|)
    ensures var o := DownloadAll(h, remote, localIndex, runs, local, out); o.written == |o.out|
    ensures FetchedHeader(h, remote).Err? ==>
              DownloadAll(h, remote, localIndex, runs, local, out)
                  == Outcome([], 0, Some(FetchedHeader(h, remote).error))
  {
    hide FetchedHeader, AreRuns, DownloadWith, Plan;
    if FetchedHeader(h, remote).Ok? {
      var rh := FetchedHeader(h, remote).value;
      DownloadCounts(h, rh, localIndex, runs, AnswersOf(remote, rh.bodyOffset, runs), local, out);
    }
  }

  /**
   End to end: if the source answers the two header requests as a server of the file would,
   whatever it answers to the body ranges and whatever the local copy is, a nil error means that
   the file was delivered.
   */
  lemma EndToEnd(h: Hasher, parts: Parts, remote: RangeReader, localIndex: Option<Index>, runs: seq<Run>,
                 local: ReaderAt, out: Writer)
    requires File(h, parts).Ok? && |File(h, parts).value| < TWO63 && Describes(h, parts.index, parts.body)
    requires ServesHeader(remote, File(h, parts).value)
    requires Header(h, MAGIC, parts).Ok? && |HeaderBody(h, parts).value| < TWO64
    requires var rh := WrittenHeader(h, false, parts);
             Plan(localIndex, rh.index).Ok? ==>
               var job := JobOf(h, rh, Plan(localIndex, rh.index).value, runs, local, out);
               job.Valid() && NothingCollides(job, AnswersOf(remote, rh.bodyOffset, runs), parts.body)
    ensures FetchedHeader(h, remote) == Ok(WrittenHeader(h, false, parts))
    ensures var o := DownloadAll(h, remote, localIndex, runs, local, out);
            o.err.None? ==> o.out == File(h, parts).value && o.written == |File(h, parts).value|
  {
    hide HeaderBody, File, Header, AssembleBody, AreRuns, Describes;
    hide WrittenHeader, NothingCollides, FetchedHeader, ServesHeader;
    FetchWritten(h, parts, remote);
    var rh := WrittenHeader(h, false, parts);
    if Plan(localIndex, rh.index).Ok? {
      DownloadIsTheFile(h, false, parts, localIndex, runs, AnswersOf(remote, rh.bodyOffset, runs), local, out);
    }
  }

  /** A server of the whole file answers every run of a plan for its body honestly. */
  lemma ServingIsHonest(h: Hasher, parts: Parts, localIndex: Option<Index>, runs: seq<Run>)
    requires File(h, parts).Ok? && |File(h, parts).value| < TWO63 && Describes(h, parts.index, parts.body)
    requires Header(h, MAGIC, parts).Ok? && |HeaderBody(h, parts).value| < TWO64
    ensures var base := WrittenHeader(h, false, parts).bodyOffset;
            HonestAnswers(runs, AnswersOf(Serving(File(h, parts).value), base, runs), parts.body)
  {
    hide HeaderBody, Header, Describes, LeadOf, FieldsOf;
    var f := File(h, parts).value;
    var base := WrittenHeader(h, false, parts).bodyOffset;
    var answers := AnswersOf(Serving(f), base, runs);
    forall k | 0 <= k < |runs| && 0 <= runs[k].offset <= runs[k].offset + runs[k].length <= |parts.body|
      ensures answers[k] == Ok(parts.body[runs[k].offset..runs[k].offset + runs[k].length])
    {
      var a, b := runs[k].offset, runs[k].offset + runs[k].length;
      SliceBehind(Header(h, MAGIC, parts).value, parts.body, a, b);
      Int64Is(base + a);
      assert f[Min(base + a, |f|)..Min(base + a + runs[k].length, |f|)] == f[base + a..base + b];
    }
  }

  lemma SliceBehind(header: Bytes, body: Bytes, a: nat, b: nat)
    requires a <= b <= |body|
    ensures (header + body)[|header| + a..|header| + b] == body[a..b]
  {
    var l, r := (header + body)[|header| + a..|header| + b], body[a..b];
    assert |l| == |r| && forall i :: 0 <= i < |l| ==> l[i] == r[i];
    assert l == r;
  }

  /** A file served honestly is delivered: the two ends of the previous results put together. */
  lemma ServedFileIsDelivered(h: Hasher, parts: Parts, localIndex: Option<Index>, localBody: Bytes, runs: seq<Run>,
                              local: ReaderAt, out: Writer)
    requires File(h, parts).Ok? && |File(h, parts).value| < TWO63
    requires Describes(h, parts.index, parts.body) && Known(parts.index.ckType)
    requires Header(h, MAGIC, parts).Ok? && |HeaderBody(h, parts).value| < TWO64
    requires var target := WrittenHeader(h, false, parts).index;
             Plan(localIndex, target).Ok? && AreRuns(Plan(localIndex, target).value, runs, |target.chunks|)
    requires Describes(h, Index(parts.index.ckType, LocalChunks(localIndex)), localBody)
    requires |localBody| < TWO63 && ServesBody(local, localBody)
    requires CopiesAreGenuine(h, LocalChunks(localIndex), localBody, parts.index, parts.body) && NeverFails(out)
    ensures var remote := Serving(File(h, parts).value);
            && FetchedHeader(h, remote) == Ok(WrittenHeader(h, false, parts))
            && DownloadAll(h, remote, localIndex, runs, local, out)
                == Outcome(File(h, parts).value, |File(h, parts).value|, None)
  {
    hide HeaderBody, File, Header, AssembleBody, AreRuns, Describes;
    hide WrittenHeader, FetchedHeader, HonestAnswers, CopiesAreGenuine, ServesBody;
    var f := File(h, parts).value;
    FetchWritten(h, parts, Serving(f));
    ServingIsHonest(h, parts, localIndex, runs);
    var rh := WrittenHeader(h, false, parts);
    HonestDownloadSucceeds(h, false, parts, localIndex, localBody, runs,
                           AnswersOf(Serving(f), rh.bodyOffset, runs), local, out);
  }

  // ---------------------------------------------------------------- the code

  /**
   `DownloadDeltaWithHeader`, for a header as the readers return it. The runs are those that the ranges
   are requested for.
   */
  method DownloadDeltaWithHeader(h: Hasher, rh: RemoteHeader, remote: RangeReader, localIndex: Option<Index>,
                                 local: ReaderAt, out: Sink)
    returns (written: nat, err: Option<Error>, ghost runs: seq<Run>)
    requires Known(rh.lead.ckType) && |rh.headerBytes| >= |DETACHED_MAGIC|
    modifies out
    ensures Plan(localIndex, rh.index).Ok? ==> AreRuns(Plan(localIndex, rh.index).value, runs, |rh.index.chunks|)
    ensures var w := Continued(out.writer, old(out.data));
            var o := DownloadWith(h, rh, localIndex, runs, AnswersOf(remote, rh.bodyOffset, runs), local, w);
            out.data == old(out.data) + o.out && written == o.written && err == o.err
  {
    hide Plan, AssembleBody, AreRuns, RestoredHeader;
    runs := [];
    var from := out.data;
    var plan := PlanDelta(localIndex, rh.index);
    if plan.Err? {
      assert from + [] == from;
      return 0, Some(plan.error), runs;
    }
    PlanShape(localIndex, rh.index);
    var headerBytes := rh.headerBytes;
    if rh.lead.detached {
      headerBytes := MAGIC + rh.headerBytes[|DETACHED_MAGIC|..];
    }
    HeaderIsRestored(rh, headerBytes);
    var theRuns := RemoteRuns(plan.value);
    runs := theRuns;
    var a := out.Write(headerBytes);
    assert from + [] == from;
    written := a.n;
    if a.err.Some? {
      return written, Some(WriteHeader(a.err.value)), runs;
    }
    assert headerBytes[..a.n] == headerBytes;
    var hashing := !UncompressedSource(rh.preface.flags);
    out.tee, out.hashed := hashing, [];
    ghost var job := JobOf(h, rh, plan.value, theRuns, local, Continued(out.writer, from));
    var n;
    n, err := AssembleAfterHeader(h, rh, plan.value, theRuns, remote, local, from, headerBytes, out);
    Assoc(from, headerBytes, AssembleBody(job, AnswersOf(remote, rh.bodyOffset, theRuns)).out);
    written := written + n;
    if err.Some? {
      return;
    }
    if hashing {
      var sum := h(rh.lead.ckType, out.hashed);
      if sum != rh.preface.dataChecksum {
        return written, Some(DataChecksumMismatch), runs;
      }
    }
  }

  lemma HeaderIsRestored(rh: RemoteHeader, headerBytes: Bytes)
    requires |rh.headerBytes| >= |DETACHED_MAGIC|
    requires headerBytes == if rh.lead.detached then MAGIC + rh.headerBytes[|DETACHED_MAGIC|..] else rh.headerBytes
    ensures headerBytes == RestoredHeader(rh)
  {
  }

  /** `plan.AssembleBody`, called with the output behind the header. */
  method AssembleAfterHeader(h: Hasher, rh: RemoteHeader, src: seq<ChunkSource>, runs: seq<Run>, remote: RangeReader,
                             local: ReaderAt,
                             from: Bytes, ghost header: Bytes, out: Sink)
    returns (n: nat, err: Option<Error>)
    requires |src| == |rh.index.chunks| && AreRuns(src, runs, |src|)
    requires out.data == from + header && header == RestoredHeader(rh) && out.hashed == []
    modifies out
    ensures out.tee == old(out.tee)
    ensures var o := AssembleBody(JobOf(h, rh, src, runs, local, Continued(out.writer, from)),
                                  AnswersOf(remote, rh.bodyOffset, runs));
            && n == o.written && err == o.err && out.data == from + (header + o.out)
            && (err.None? && out.tee ==> out.hashed == o.out)
  {
    hide AssembleBody, AreRuns, RestoredHeader;
    var job := JobOf(h, rh, src, runs, local, Continued(out.writer, from));
    assert header + [] == header;
    n, err := AssembleSequentially(job, remote, rh.bodyOffset, from, out);
  }

  lemma PlanTotal(localIndex: Option<Index>, target: Index)
    requires Plan(localIndex, target).Ok?
    ensures var src := Plan(localIndex, target).value;
            |src| == |target.chunks| && Upto(src, |src|) == BodyLength(target.chunks)
  {
    UptoOfPlan(LocalChunks(localIndex), target.chunks, |target.chunks|);
  }

  method DownloadDelta(h: Hasher, remote: RangeReader, localIndex: Option<Index>, local: ReaderAt, out: Sink)
    returns (written: nat, err: Option<Error>, ghost runs: seq<Run>)
    modifies out
    ensures FetchedHeader(h, remote).Ok? && Plan(localIndex, FetchedHeader(h, remote).value.index).Ok? ==>
              AreRuns(Plan(localIndex, FetchedHeader(h, remote).value.index).value, runs,
                      |FetchedHeader(h, remote).value.index.chunks|)
    ensures var o := DownloadAll(h, remote, localIndex, runs, local, Continued(out.writer, old(out.data)));
            out.data == old(out.data) + o.out && written == o.written && err == o.err
  {
    hide FetchedHeader, DownloadWith, Plan, AreRuns;
    runs := [];
    assert out.data + [] == out.data;
    var rh := ReadRemoteHeader(h, remote);
    if rh.Err? {
      return 0, Some(rh.error), runs;
    }
    FetchedIsWellFormed(h, remote);
    written, err, runs := DownloadDeltaWithHeader(h, rh.value, remote, localIndex, local, out);
  }

  lemma FetchedIsWellFormed(h: Hasher, remote: RangeReader)
    requires FetchedHeader(h, remote).Ok?
    ensures Known(FetchedHeader(h, remote).value.lead.ckType)
    ensures |FetchedHeader(h, remote).value.headerBytes| >= |DETACHED_MAGIC|
  {
    hide ParseLead, RecomputedLength, Verify, ParseFields;
    var prefix := remote(0, MAX_LEAD_PREFIX).value;
    RecomputedLengthBound(prefix);
    var e, f := LeadShape(prefix);
  }
}
