# A verified model of zchunk's core

zchunk splits a file into chunks that are compressed one by one, lists the chunks' digests in a
header, and lets a client that holds an older copy download only the chunks it lacks. This project
models the four parts of the Go implementation that carry that promise, and proves that they keep it.

* **Wire format** (`CompressedInt`, `LeadFormat`, `PrefaceFormat`, `ChunkIndex`, `HeaderFile`,
  `RemoteHeaders`, `Grammar`). For every section there is a pure parser and printer, the loops of the code are
  methods proved against them, and parser and printer are proved to undo each other whatever follows. A
  grammar stated apart from the parsers says which bytes spell which value, and each parser accepts exactly these.
  Integers may arrive padded; that is where the readers of remote headers can disagree. The exact condition under
  which they agree is proved, and what the range reader does with a padded header.
* **Delta download** (`Delta`, `Runs`, `Assemble`, `Outcomes`, `Panics`, `Fetch`, `Download`). The plan, its coalesced
  ranges, and the assembly of a body: as the sequential loop over classes and buffers, as a description
  of its outcome by the first failure in source order, and
  as a transition system of fetch workers (program counters in the order of the deferred calls), a
  four-slot semaphore, ready channels, and the ordered consumer. Every interleaving is proved to end as the
  sequential loop does, to be free of deadlock and to be finite, and the whole download is proved to
  deliver the file byte for byte or to report an error. Range lengths are int64 sums that wrap, and the
  plans that can be made to panic are characterised exactly.
* **Dictionary content selection** (`Sums`, `DictContent`, `DictProperties`). The sliding window with
  its incremental multiset and uint32 score, the greedy loop, and what the selection guarantees: the
  earliest best window each time, completeness below the target size, and the greedy coverage bound. The
  uint32 counts can wrap; the guarantees hold for samples whose candidate windows each weigh less than 2^32.
* **Build and extract** (`ChunkCodec`, `Extraction`, `FileBuilder`, `Commands`). The builder's
  invariant, the extractor with its two reused buffers, and `extract` after `create` as the identity.

How to read the model:

* A digest algorithm is an arbitrary function with the right digest lengths (`Hasher`); a streaming
  hasher is the one-shot digest of what it was fed. No theorem assumes that no two strings
  collide. The download theorems exclude a collision only between a string that was actually received
  in the run at hand and the chunk it stands for (`NothingCollides`), or between a chunk of the local copy and one
  of the target (`CopiesAreGenuine`).
* zstd is an arbitrary `Codec`. The round trips need it to be `Lawful`: for no dictionary and for
  those that the encoder accepts, decoding undoes encoding, only nothing encodes to nothing, and the
  decoder accepts the dictionary too. Extraction safety needs nothing of it.
* A `Writer` may fail after any number of bytes and may answer differently each time. A `ReaderAt` may
  deliver anything of at most the length asked for. A `RangeReader` may answer anything at all.
  By the contract of `io.Writer` a short write carries an error.
* What a range request answers is fixed per run of the plan (`answers`); since each run is requested
  once, quantifying over `answers` covers every behaviour of the source.
* Sequential readers are fixed bytes with a position, behind which the input ends or fails with an I/O
  error (`Reader`); `Seen` says how an error of a parser shows in the second case. A Go slice over a reused buffer is a
  length and a backing array (`Slice`).
* A `Sink` may have taken bytes before a call; `Continued` is its writer from that point on. Error values
  keep the kind of failure and the chunk number, not the message text.
* Two error values stand for run-time panics: `SliceOutOfRange`, and `BadLength` for a negative length or
  index. The slice a range source returns has no spare capacity. A panic in the consumer leaves its loop like an error, because
  the deferred wait for the workers is made all the same.
* Machine arithmetic is written out: uint64 sums modulo 2^64, uint32 counts modulo 2^32, the conversion to
  int64 as two's complement. Masks and shifts are quotients and remainders; the bitwise or is defined
  bit by bit and proved to be the addition it stands for.

## Model

| member | source | states |
|---|---|---|
| CompressedInt.EncodeIsCode | internal/zchunk/zchunk.go:42-53 | an encoding has the high bit on its last byte only, and denotes the number encoded |
| CompressedInt.EncodeIsShortest | internal/zchunk/zchunk.go:42-53 | among all code words of a value, the encoder's is the only shortest one |
| CompressedInt.EncodeFits | internal/zchunk/zchunk.go:47-53 | a uint64 takes at most ten bytes |
| CompressedInt.DecodeEncode | internal/zchunk/zchunk.go:42-81 | decoding an encoded integer gives it back and leaves any suffix untouched |
| CompressedInt.DecodeAccepts | internal/zchunk/zchunk.go:58-81 | a code word is accepted if and only if it has at most ten groups and a value below 2^64 |
| CompressedInt.DecodeConsumes | internal/zchunk/zchunk.go:58-81 | whatever is accepted was a code word; re-encoding is never longer, and as long only if it is the same bytes |
| CompressedInt.DecodeRefuses | internal/zchunk/zchunk.go:61-80 | byte by byte: an integer is truncated if and only if the input ends within ten unmarked bytes, and overflows if and only if its tenth byte cannot be the last |
| Grammar.IntGrammar | internal/zchunk/zchunk.go:55-81 | an integer is read if and only if the input begins with one of its spellings |
| CompressedInt.BitOrDisjoint | internal/zchunk/zchunk.go:73 | or-ing a shifted group into lower bits adds it |
| CompressedInt.AppendCompressedInt | internal/zchunk/zchunk.go:47-53 | the loop appends exactly the canonical code word |
| CompressedInt.ReadCompressedInt | internal/zchunk/zchunk.go:58-81 | the loop yields the value, the position after it, or the error that the code-word view prescribes; an I/O error is passed on as it is |
| CompressedInt.OrGroup | internal/zchunk/zchunk.go:73 | shifting and or-ing one group loses no bit of a uint64 |
| LeadFormat.LeadRoundTrip | internal/zchunk/lead.go:46-142 | a printed lead reads back with both magics, leaves the suffix, and has the recomputed length |
| LeadFormat.LeadReframe | internal/zchunk/lead.go:44-88 | reading a lead depends only on the bytes it consumes |
| LeadFormat.RecomputedLengthBound | internal/zchunk/remote.go:43-58 | the recomputed lead length never exceeds what was consumed, equals it exactly for minimal integers, and every lead fits the fetched prefix |
| LeadFormat.ReadLead | internal/zchunk/lead.go:46-88 | the reader's steps parse the lead, with the same errors in the same order |
| LeadFormat.WriteLead | internal/zchunk/lead.go:120-142 | the bytes that the reader undoes go out in one call, whose count and error are returned; a bad lead writes nothing |
| LeadFormat.VerifyHeader | internal/zchunk/lead.go:98-116 | accepts exactly a header whose digest behind the embedded-magic lead is the one recorded |
| LeadFormat.VerifyExactly | internal/zchunk/lead.go:90-116 | a header verifies if and only if its type is known and the recorded checksum is the digest of the embedded magic, the type, the size and the header, byte for byte |
| LeadFormat.ChecksumPinsHeader | internal/zchunk/lead.go:98-116 | two headers that verify under one checksum have one size and are the same, unless the two strings digested collide |
| Grammar.LeadGrammar | internal/zchunk/lead.go:44-88 | a lead is read if and only if the input begins with one of its spellings |
| Grammar.LeadRefuses | internal/zchunk/lead.go:46-70 | a short front, a front that is no magic, and an unknown type are refused by name |
| Grammar.LeadIsWritten | internal/zchunk/lead.go:120-128 | a lead is written if and only if its checksum has the length of its type, with the error else |
| Grammar.DigestLengths | internal/zchunk/zchunk.go:87-110 | the four checksum types and their digest lengths |
| PrefaceFormat.PrefaceRoundTrip | internal/zchunk/preface.go:71-157 | every preface that can be written reads back, optional elements included, leaving any suffix |
| PrefaceFormat.PrefaceCanonical | internal/zchunk/preface.go:71-157 | an accepted preface can be written again if and only if it is not flagged for elements it lacks; then in no more bytes, in equally many only if they are the same, and it reparses to itself |
| PrefaceFormat.FlagWithoutElements | internal/zchunk/preface.go:137-140 | a concrete preface that is read but cannot be written |
| PrefaceFormat.ReadPreface | internal/zchunk/preface.go:71-125 | the reader's steps parse the preface |
| PrefaceFormat.ReadElements | internal/zchunk/preface.go:104-123 | the loop reads as many elements as counted, or stops at the first that fails |
| PrefaceFormat.WritePreface | internal/zchunk/preface.go:130-157 | the bytes that the reader undoes go out in one call, whose count and error are returned; the first fault of the preface writes nothing |
| Grammar.FlagsMean | internal/zchunk/preface.go:60-67 | which flag values are known and what they say, and which compression types are valid |
| Grammar.PrefaceGrammar | internal/zchunk/preface.go:69-125 | a preface is read if and only if the input begins with one of its spellings |
| Grammar.PrefaceRefuses | internal/zchunk/preface.go:82-97 | unknown flags and compression types are refused by name, in this order |
| Grammar.PrefaceIsWritten | internal/zchunk/preface.go:127-140 | a preface is written if and only if flags, compression type and elements are in order; else the first fault is named |
| ChunkIndex.ParsedEntryShrinks | internal/zchunk/index.go:78-98 | each accepted entry consumes at least its digest and two bytes, so the loop terminates |
| ChunkIndex.IndexRoundTrip | internal/zchunk/index.go:47-137 | a written index reads back, uncompressed digests present exactly under the flag |
| ChunkIndex.IndexCanonical | internal/zchunk/index.go:47-137 | every accepted index can be written again in no more bytes, in equally many only if they are the same, and reparses to itself |
| ChunkIndex.ReadIndex | internal/zchunk/index.go:47-57 | reads exactly the declared index bytes and parses them |
| ChunkIndex.ParseIndexBuffer | internal/zchunk/index.go:59-103 | the draining loop collects every entry and checks the declared count last |
| ChunkIndex.WriteIndex | internal/zchunk/index.go:108-137 | the bytes that the reader undoes go out in one call, whose count and error are returned; the first bad entry writes nothing |
| Grammar.IndexGrammar | internal/zchunk/index.go:44-103 | an index is read if and only if the input begins with one of its spellings, its entries filling the declared size |
| Grammar.IndexRefuses | internal/zchunk/index.go:61-101 | an unknown type and a count that is not that of the entries are refused |
| Grammar.IndexIsWritten | internal/zchunk/index.go:108-131 | an index is written if and only if its type is known and all digests fit; else the first entry that does not is named |
| HeaderFile.ReadSignatures | internal/zchunk/signatures.go:25-34 | accepts a zero count only |
| HeaderFile.WriteSignatures | internal/zchunk/signatures.go:38-44 | writes a zero count in one call and refuses any other |
| Grammar.SignaturesGrammar | internal/zchunk/signatures.go:23-44 | a spelling of zero, and nothing else, is read; zero, and nothing else, is written |
| HeaderFile.ReadFields | internal/zchunk/remote.go:92-104 | preface, index and signatures are read in this order, each with what the one before it says |
| HeaderFile.FieldsRoundTrip | internal/zchunk/file.go:34-45 | preface, index and signatures, concatenated, come back one after the other |
| HeaderFile.FieldsCanonical | internal/zchunk/remote.go:92-104 | accepted sections print again to no more bytes, to equally many only if they are the same, and reparse |
| HeaderFile.HeaderRoundTrip | internal/zchunk/file.go:15-65 | a built header of either kind reads back, verifies, and ends where the body begins |
| HeaderFile.FileRoundTrip | internal/zchunk/file.go:83-94 | a written file gives back its lead and fields, verifies, and leaves the reader exactly at the body |
| HeaderFile.DetachedDiffersInMagic | internal/zchunk/file.go:47-64 | embedded and detached header differ in the five magic bytes and nothing else |
| HeaderFile.BuildHeader | internal/zchunk/file.go:15-65 | the successive appends build the header that the readers undo; the checksum is over the embedded magic |
| HeaderFile.HeaderIsSpelt | internal/zchunk/file.go:47-64 | a built header byte for byte, with the digest of embedded magic, type, size and sections as its checksum |
| Grammar.PrefaceIsFilled | internal/zchunk/file.go:25-32 | the preface written is the caller's with the digest of the body, or with as many zeros under the flag |
| HeaderFile.WriteFile | internal/zchunk/file.go:83-94 | header and body go out in one write, whose count and error are returned; nothing is written when the header cannot be built |
| HeaderFile.WriteDetachedHeader | internal/zchunk/file.go:102-110 | the detached header and no body, in one write, with its count and error |
| RemoteHeaders.ReadRemoteHeader | internal/zchunk/remote.go:34-59 | two range requests, the second at the recomputed lead length, with the length check on its answer |
| RemoteHeaders.ReadDetachedHeader | internal/zchunk/remote.go:68-80 | the streaming reader captures the lead as consumed and stops behind the header |
| RemoteHeaders.ParseHeaderCode | internal/zchunk/remote.go:85-118 | verification comes before any parsing; the offset of the body is the length of the raw header |
| RemoteHeaders.ChecksumComesFirst | internal/zchunk/remote.go:85-90 | a wrong checksum is reported whatever the header contains |
| RemoteHeaders.FetchRefuses | internal/zchunk/remote.go:34-58 | what the range reader makes of each answer to its two requests, errors included |
| RemoteHeaders.StreamRefuses | internal/zchunk/remote.go:68-79 | what the streaming reader makes of a bad lead and of a short header |
| Grammar.HeaderGrammar | internal/zchunk/remote.go:61-118 | a header is read from a stream if and only if it begins with a spelt lead and as many bytes, of the recorded digest, that begin with spelt sections |
| RemoteHeaders.LeadOfPrefix | internal/zchunk/remote.go:14-42 | reading the lead from the fetched prefix is reading it from the file |
| RemoteHeaders.ReadersAgree | internal/zchunk/remote.go:34-80 | on minimal leads both readers return the same header or both fail |
| RemoteHeaders.ReadersAgreeExactly | internal/zchunk/remote.go:43-50 | of an accepted stream the range reader returns the same header if and only if the lead's integers are minimal |
| RemoteHeaders.PaddedLeadIsAccepted | internal/zchunk/remote.go:68-80 | the streaming reader accepts a written header under any spelling of the lead's two integers, with the fields unchanged |
| RemoteHeaders.PaddedChecksumType | internal/zchunk/remote.go:43-48 | a concrete padded lead, accepted by the streaming reader, on which the recomputed length falls one byte short |
| RemoteHeaders.PaddedLeadIsRefused | internal/zchunk/remote.go:50-58 | from a padded lead the range reader takes the header too early and refuses its checksum, barring a collision; if the bytes happen to agree it returns too small a body offset |
| RemoteHeaders.FetchIsServing | internal/zchunk/remote.go:34-59 | the range reader depends on the answers to its two requests and on nothing else of the source |
| RemoteHeaders.StreamWritten | internal/zchunk/remote.go:61-80 | the streaming reader recovers a written header of either kind, whatever follows |
| RemoteHeaders.TrailingBytesIgnored | internal/zchunk/remote.go:92-117 | a written header with anything appended, under its own size and checksum, is accepted with the same fields |
| RemoteHeaders.HeaderCanonical | internal/zchunk/remote.go:61-118 | an accepted header prints again, with size and checksum to match, to no more bytes than were consumed, to equally many only if they are the same bytes, and is accepted again with the same fields |
| RemoteHeaders.FetchWritten | internal/zchunk/remote.go:31-59 | the range reader recovers the header of a written file |
| RemoteHeaders.DetachedAgreesWithFile | cmd/zchunk/main.go:314-343 | cutting the header out of a full file gives the bytes WriteDetachedHeader writes; it reads back with the full file's fields and body offset and restores its header |
| RemoteHeaders.CutHeaderCode | cmd/zchunk/main.go:317-343 | the header command copies an int64 number of bytes and overwrites the magic, runs into the end of the file, or panics on a length below five |
| RemoteHeaders.CutExactly | cmd/zchunk/main.go:323-337 | by the length computed: a panic, a short read, or the bytes of the file with the detached magic |
| RemoteHeaders.CutIsWhole | cmd/zchunk/main.go:327-337 | what it writes is the whole header if and only if the declared size is below 2^63 |
| RemoteHeaders.CutTruncates | cmd/zchunk/main.go:331-337 | a 48-byte lead that declares 2^64 - 1 bytes is cut to 47 bytes without an error |
| Delta.PlanRefinesSearch | internal/zchunk/delta.go:29-76 | a chunk is local if and only if it is empty or a non-empty local chunk has its digest, then at the first such chunk's offset, otherwise at its own |
| Delta.PlanIsRefused | internal/zchunk/delta.go:36-40 | a plan is refused if and only if there are local chunks, of another checksum type |
| Delta.FetchPlusReuse | internal/zchunk/delta.go:78-100 | fetched and reused bytes make up the target body |
| Delta.PlanDelta | internal/zchunk/delta.go:35-76 | the map-driven loop computes the plan of the plain search, or refuses differing checksum types |
| Delta.LocalOffsets | internal/zchunk/delta.go:42-54 | the map holds each digest of a non-empty local chunk at its first offset |
| Delta.PlanChunks | internal/zchunk/delta.go:56-75 | with that map the loop over the target yields the plan of the plain search |
| Delta.SumBytes | internal/zchunk/delta.go:80-100 | the running uint64 total over one half of the plan |
| Runs.RunsUnique | internal/zchunk/download.go:143-161 | the maximal runs of a plan are determined by it |
| Runs.RunStarts | internal/zchunk/download.go:84-87 | the consumer, coming from a chunk that is not fetched, meets a must-fetch chunk only at the start of a run |
| Runs.RunsSumToFetch | internal/zchunk/download.go:144-161 | the runs span exactly the bytes to be fetched, and the lengths requested add up to the reported total modulo 2^64, exactly when it is an int64 |
| Runs.RunIsRange | internal/zchunk/download.go:125-130 | a run asks for the stretch of the target body its chunks occupy, and the running position finds each chunk in it |
| Runs.RunsTouch | internal/zchunk/download.go:143-161 | two runs are adjacent in the body if and only if only empty chunks part them |
| Runs.RemoteRuns | internal/zchunk/download.go:144-161 | for any plan the nested loops return the runs: ordered, disjoint, maximal in chunk order, covering every must-fetch chunk, with int64 sums as lengths |
| Runs.TakeRun | internal/zchunk/download.go:152-158 | the inner loop takes a stretch that cannot be extended; its length is the wrapped true sum |
| Base.RunningSum | internal/zchunk/download.go:154 | an int64 running sum of uint64 lengths is the wrapped form of their true sum |
| Base.FaultIsPassedOn | internal/zchunk/zchunk.go:62-67 | an input that fails is reported with its failure, one that ends as truncated |
| Base.WriteOnceCounts | internal/zchunk/lead.go:140-141 | the count of a write is what the output grew by, and there is no error if and only if all was taken |
| Assemble.CountsWhatItWrites | internal/zchunk/download.go:89-140 | the output only grows and the count returned is its length, on every outcome |
| Outcomes.OutcomeExactly | internal/zchunk/download.go:89-140 | the outcome is: every chunk taken, verified and written; or the first failure in source order, with its kind, its chunk, and what had been written by then |
| Assemble.VerifyWriteChunk | internal/zchunk/download.go:166-176 | nothing is written on a digest mismatch; otherwise what the output took is counted and a failure wrapped |
| Assemble.ConsumeLocal | internal/zchunk/download.go:97-116 | one local chunk through the reused buffer is one step of the sequential assembly |
| Assemble.ConsumeRun | internal/zchunk/download.go:125-137 | a fetched range, split by the running int64 position, is the assembly of its chunks in order |
| Assemble.ConsumePart | internal/zchunk/download.go:127-135 | one chunk of a range: sliced or a panic, verified, written, counted |
| Assemble.FetchRun | internal/zchunk/download.go:117-137 | a range that failed or has the wrong length ends the assembly with the number of its first chunk |
| Assemble.ConsumeAll | internal/zchunk/download.go:89-140 | the loop over the plan, entered at chunk 0, ends where the chunk-by-chunk assembly ends |
| Assemble.AssembleSequentially | internal/zchunk/download.go:49-141 | the consumer's loop, with each run fetched when reached, is the chunk-by-chunk assembly |
| Panics.SlicesFit | internal/zchunk/download.go:125-130 | of a range that arrived, every slice is in range if and only if the run's lengths add up to less than 2^63 |
| Panics.PanicsExactly | internal/zchunk/download.go:89-161 | no call with a plan can panic if and only if every run of 2^63 bytes or more is, or comes after, one that asks for a negative number of bytes |
| Panics.NoPanic | internal/zchunk/download.go:89-140 | with such a plan no source, local copy or output makes the assembly panic |
| Panics.ShortIsHarmless | internal/zchunk/download.go:152-158 | a plan whose lengths add up to less than 2^63 is such a plan |
| Panics.WrappedAssembly | internal/zchunk/download.go:125-130 | two chunks of 2^63 and 2^63 + 10 bytes: ten bytes are asked for, and on any ten bytes the assembly panics |
| Fetch.RunFound | internal/zchunk/download.go:84-120 | the lookup by run start always succeeds where the consumer makes it |
| Fetch.StepKeepsInv | internal/zchunk/download.go:57-140 | every step of every worker and of the consumer keeps the invariant linking written bytes to the sequential loop |
| Fetch.WorkerOrder | internal/zchunk/download.go:66-79 | slot, fetch, result, channel, and last deferred first: slot given back, done |
| Fetch.EveryInterleavingIsSequential | internal/zchunk/download.go:57-141 | whatever the interleaving, output, count and error are those of the sequential loop, and no worker outlives the call |
| Fetch.SlotsAndResults | internal/zchunk/download.go:57-79 | at most four workers hold a slot, exactly as counted, a queued one waits only while four do, and a closed channel means a checked result |
| Fetch.ResultsAreFinal | internal/zchunk/download.go:76-77 | a result once stored never changes |
| Fetch.Progress | internal/zchunk/download.go:64-82 | until the call has returned some step is enabled, also after an early error |
| Fetch.StepDecreases | internal/zchunk/download.go:66-141 | every step lowers a measure |
| Fetch.RunsAreShort | internal/zchunk/download.go:66-141 | the number of steps of any execution has a bound known in advance |
| Fetch.EveryExecutionCanFinish | internal/zchunk/download.go:57-141 | however far an execution has got, it can be completed to a return |
| Fetch.StuckMeansReturned | internal/zchunk/download.go:80-82 | an execution that cannot continue has returned |
| Download.AssembledIsBody | internal/zchunk/download.go:40-48 | verified pieces in source order make up the target body, unless a received string collides |
| Download.DownloadIsTheFile | internal/zchunk/remote.go:152-208 | with any local copy, any answers and any output, no error means the file byte for byte and its length |
| Download.DataChecksumAlone | internal/zchunk/remote.go:139-143 | the final data checksum by itself guarantees the body, whatever the index says |
| Download.DownloadCounts | internal/zchunk/remote.go:179-207 | the count returned is what the output took, on every outcome |
| Download.AroundCounts | internal/zchunk/remote.go:196-207 | likewise around any body assembly that counts what it writes |
| Download.DownloadExactly | internal/zchunk/remote.go:165-208 | when there is no error, and what is written, counted and reported when the plan is refused, the header write fails, the body fails, or the data checksum is wrong |
| Download.RestoredExactly | internal/zchunk/remote.go:171-177 | the header written is the one received, with the embedded magic in a detached one |
| Download.DownloadAllCounts | internal/zchunk/remote.go:144-150 | a header that cannot be had writes nothing, and the count is right on every outcome |
| Download.HonestDownloadSucceeds | internal/zchunk/remote.go:165-208 | with honest sources and an output that does not fail there is no error, and the file is delivered |
| Download.EveryInterleavingDownloads | internal/zchunk/remote.go:165-208 | the download around any interleaving of the engine ends like the sequential one |
| Download.EveryInterleavingDelivers | internal/zchunk/remote.go:165-208 | in every interleaving, a download that reports no error has delivered the file |
| Download.EveryHonestInterleavingSucceeds | internal/zchunk/remote.go:165-208 | with honest sources every interleaving delivers the file and reports no error |
| Download.DownloadDoesNotPanic | internal/zchunk/remote.go:165-208 | a download whose plan is harmless in this sense never panics |
| Download.ShortIndexIsHarmless | internal/zchunk/remote.go:165-208 | which is so for an index whose lengths add up to less than 2^63 |
| Download.DownloadPanics | internal/zchunk/remote.go:165-208 | an index of those two chunks makes the download panic behind its header, under any digests |
| Download.AcceptedHeaderPanics | internal/zchunk/remote.go:68-118 | and a header with such an index is accepted by the reader |
| Download.EndToEnd | internal/zchunk/remote.go:131-150 | header fetched, ranges fetched: no error means the file was delivered |
| Download.ServingIsHonest | internal/zchunk/remote.go:120-129 | shifting by the body offset turns ranges of the file into ranges of the body |
| Download.ServedFileIsDelivered | internal/zchunk/remote.go:144-208 | an honestly served file arrives without an error |
| Download.DownloadDeltaWithHeader | internal/zchunk/remote.go:165-208 | for any header as the readers return it: plan, header with restored magic, teed body, data checksum; output, count and error as specified |
| Download.DownloadDelta | internal/zchunk/remote.go:144-150 | the same with the header fetched from the source |
| DictContent.LittleEndianInjective | internal/zchunk/zdict.go:19-22 | a dmer's integer identifies its eight bytes |
| DictContent.BestIsUnique | internal/zchunk/zdict.go:102-149 | the earliest window of maximal score is unique |
| DictContent.TrackedScore | internal/zchunk/zdict.go:116-145 | the incremental score is the score of the window recomputed from nothing |
| DictContent.Enter | internal/zchunk/zdict.go:119-122 | a dmer that enters adds its frequency only when it was not active |
| DictContent.Leave | internal/zchunk/zdict.go:130-134 | a dmer that leaves takes its frequency with it only when its last occurrence goes |
| DictContent.Slide | internal/zchunk/zdict.go:130-139 | one slide keeps the active map the exact multiset of the window's dmers |
| DictContent.BestSegment | internal/zchunk/zdict.go:105-149 | returns the earliest window of maximal score over all samples, nothing when all score zero; with segments below seven bytes it panics if and only if some sample holds a dmer |
| DictContent.CountDmers | internal/zchunk/zdict.go:72-77 | frequencies over all samples modulo 2^32, with a key for every dmer that occurs |
| DictContent.Retire | internal/zchunk/zdict.go:90-92 | exactly the dmers of the pick drop to zero |
| DictContent.SelectDictContent | internal/zchunk/zdict.go:70-100 | the content is that of a complete greedy selection: best windows left, the first pick at the tail, ending only without room or without value; with segments below seven bytes it panics if and only if there is room and a dmer |
| DictProperties.CountsAreExact | internal/zchunk/zdict.go:72-77 | when every candidate window weighs less than 2^32, no count wraps |
| DictProperties.CountableFits | internal/zchunk/zdict.go:72-77 | which is so for any samples of fewer than 2^32 positions |
| DictProperties.FirstScoresAreTrue | internal/zchunk/zdict.go:102-145 | the first scores of all windows are their true weights if and only if every candidate window weighs less than 2^32 |
| DictProperties.ScoresAreExact | internal/zchunk/zdict.go:102-145 | the score of a window that weighs less than 2^32 is the original weight of its dmers not yet retired |
| DictProperties.SelectionIsUnique | internal/zchunk/zdict.go:67-100 | samples, target size and segment length determine every pick |
| DictProperties.ContentIsUnique | internal/zchunk/zdict.go:67-100 | the content is a function of samples, target size and segment length |
| DictProperties.SelectionIsComplete | internal/zchunk/zdict.go:84-89 | content shorter than the target holds every eight-byte substring of every sample, when every candidate window weighs less than 2^32 |
| DictProperties.SevenSelectsNothing | internal/zchunk/zdict.go:105-149 | with segments of seven bytes, which hold no dmer, nothing is selected |
| DictProperties.CompletenessThreshold | internal/zchunk/zdict.go:72-89 | as a bound on positions alone: completeness holds for all samples of at most n positions if and only if n is below 2^32 |
| DictProperties.WrapLosesEverything | internal/zchunk/zdict.go:75-89 | the input on which it fails: 2^32 occurrences of one dmer count as none, and nothing is selected |
| DictProperties.ContentIsFromSamples | internal/zchunk/zdict.go:93-97 | at most the target size, and a concatenation of non-empty sample substrings |
| DictProperties.PickIsPrepended | internal/zchunk/zdict.go:93-97 | each pick goes before the earlier ones, and keeps its front when it does not fit |
| DictProperties.TieGoesToTheFirst | internal/zchunk/zdict.go:126-145 | of two samples of equal worth the first is taken |
| DictProperties.ScoresSumToCoverage | internal/zchunk/zdict.go:82-98 | the picks' scores add up to the weight of the distinct dmers covered |
| DictProperties.GreedyCoverage | internal/zchunk/zdict.go:82-98 | after t picks, k^t (W - C) is at most (k-1)^t W for the weight W of any k candidate windows |
| ChunkCodec.DecodeUndoesEncode | internal/zchunk/compress.go:88-165 | a chunk decompresses to what was compressed, at its recorded length, with or without a dictionary |
| ChunkCodec.LoadKinds | internal/zchunk/compress.go:22-34 | a dictionary is trained if and only if it begins with the four magic bytes |
| ChunkCodec.DecompressedExactly | internal/zchunk/compress.go:148-165 | what decompression yields, of the declared length only, and its errors |
| ChunkCodec.AppendToFront | internal/zchunk/compress.go:153-160 | appending to an emptied slice reuses its array when the capacity suffices |
| ChunkCodec.ChunkDecoder.Decompress | internal/zchunk/compress.go:148-165 | the reused destination holds the decompressed chunk of the declared length; dictionary and source are untouched |
| Extraction.ReadChunkVerifies | internal/zchunk/extract.go:67-107 | a chunk is handed out only as the verified decompression of its own part of the body; an empty one as nothing |
| Extraction.VerifiedIsRead | internal/zchunk/extract.go:67-107 | conversely, a verified chunk is read |
| Extraction.ReadChunkRefuses | internal/zchunk/extract.go:78-104 | every reason for which a chunk is not read, with its error, in order |
| Extraction.ExtractFromIsSafe | internal/zchunk/extract.go:49-63 | from any chunk on, what is written is a prefix of verified decompressions |
| Extraction.ExtractionIsSafe | internal/zchunk/extract.go:9-65 | at every outcome the output is a prefix of the verified data chunks; without an error all of them, with exactly the index's bytes consumed |
| Extraction.ExtractsExactly | internal/zchunk/extract.go:9-65 | to an output that does not fail an extraction succeeds if and only if the types are known and there are no chunks, or all are verified and the dictionary loads |
| Extraction.ExtractableIsExtracted | internal/zchunk/extract.go:9-65 | and then it writes exactly the verified data chunks |
| Extraction.FirstUnreadEnds | internal/zchunk/extract.go:49-55 | the first chunk that is not read ends it, behind everything before |
| Extraction.ExtractRefuses | internal/zchunk/extract.go:18-43 | unknown types and an unreadable dictionary chunk are refused before anything is written |
| Extraction.UnloadableEnds | internal/zchunk/extract.go:45-48 | so is a dictionary that zstd does not load |
| Extraction.ExtractedLength | internal/zchunk/extract.go:67-107 | an extraction without an error writes what the data entries declare if and only if the empty ones declare nothing |
| Extraction.EmptyEntryUnchecked | internal/zchunk/extract.go:87-89 | a concrete index whose empty entry has any digest and declares five bytes: accepted, and nothing is written |
| Extraction.FillScratch | internal/zchunk/extract.go:78-86 | the scratch buffer, grown or reused, holds exactly the chunk's bytes |
| Extraction.DecodeInto | internal/zchunk/extract.go:87-107 | buffer reuse does not change what is verified and decoded |
| Extraction.ReadChunkCode | internal/zchunk/extract.go:78-107 | one chunk through both reused buffers, with the dictionary slice unchanged |
| Extraction.ExtractData | internal/zchunk/extract.go:38-64 | the loop that reuses scratch and destination writes what the loop without reuse would |
| Extraction.Extract | internal/zchunk/extract.go:17-65 | output, count, error and final position as specified |
| FileBuilder.BuiltOffset | internal/zchunk/builder.go:53-76 | each data chunk starts where the dictionary and the chunks before it end |
| FileBuilder.BuiltDescribes | internal/zchunk/builder.go:30-76 | the index partitions the body, each non-empty entry holds its part's digest, and chunk 0 is the dictionary |
| FileBuilder.BuiltChunk | internal/zchunk/builder.go:64-76 | the part of the body an entry covers is the chunk that was compressed for it |
| FileBuilder.Builder.AddChunk | internal/zchunk/builder.go:67-76 | index and body grow together by one chunk, whose buffer may be reused afterwards |
| FileBuilder.NewBuilder | internal/zchunk/builder.go:30-62 | fails for an unknown type or a rejected dictionary, in that order; otherwise the invariant holds |
| Commands.RecipeIsRefused | internal/zchunk/builder.go:30-41 | what is refused, for which compression type, checksum type and dictionary |
| Commands.SplitConcat | cmd/zchunk/main.go:266-278 | the pieces read are the input, in order |
| Commands.SplitSizes | cmd/zchunk/main.go:266-278 | all pieces but the last have the chunk size, and the last is not empty |
| Commands.FillBuilder | cmd/zchunk/main.go:266-278 | one buffer refilled for every chunk, the last one short, adds exactly the pieces; an input that fails is reported |
| Commands.ReadAndAdd | cmd/zchunk/main.go:268-277 | one turn of the loop: what was read is added before the error is looked at |
| Commands.Create | cmd/zchunk/main.go:259-283 | the file specified for the input goes out in one write, whose error is returned; a refused recipe or a failed input writes nothing |
| Commands.CreateCommand | cmd/zchunk/main.go:219-246 | a chunk size that is not positive is refused before anything is read or written |
| Commands.CreateSucceeds | cmd/zchunk/main.go:259-283 | create fails if and only if the compression type or the dictionary is refused |
| Commands.CreatedReads | cmd/zchunk/main.go:256-283 | a created file as a reader sees it: SHA-256, no flags, no elements, no signatures, the digest of the body, one chunk per piece behind the dictionary |
| Commands.CreateRefuses | cmd/zchunk/main.go:259-277 | the recipe is refused before the input is looked at, whose failure is passed on |
| Commands.ExtractCommand | cmd/zchunk/main.go:471-489 | header parsed section by section, then extracted behind whatever the output holds |
| Commands.ExtractBuilt | internal/zchunk/extract.go:49-64 | the data chunks of a built body extract to their plaintexts |
| Commands.CreateThenExtract | cmd/zchunk/main.go:256-489 | extracting a created file gives back the input and consumes the whole file |
| Commands.CreateDownloadExtract | internal/zchunk/remote.go:152-208 | created, delta-downloaded under any interleaving without an error, and extracted, an input comes out unchanged |
| Commands.HonestJourney | internal/zchunk/remote.go:152-208 | with an honest source and local copy every interleaving ends without an error, and the input comes out |

In one place the code and its documentation differ, and the model follows the code: `ReadPreface` accepts the
optional-element flag with a count of zero, which the format and `WriteTo` refuse (`FlagWithoutElements`). Three
more things that a reader may not expect are stated exactly. Runs are maximal in chunk order: an empty
chunk parts two runs that are adjacent in the body (`RunsTouch`). An entry of compressed length zero is accepted
with any digest and any declared length (`ExtractedLength`). Bytes behind a header's signatures are ignored
(`TrailingBytesIgnored`).

## Left out

- ReadElements: a count or size too large to allocate, on which the source panics, is an end of input here.
- ReadIndex: likewise for a declared index size too large to allocate.
- ReadDetachedHeader: likewise for a header size too large to allocate.
- FillScratch: likewise for a compressed chunk length too large to allocate; so for ConsumeLocal.
- CutHeaderCode: likewise for a positive length too large to allocate; a negative one is a panic in the model too.
- DownloadDeltaWithHeader: requires what `parseHeader` guarantees of a header, a known checksum type and at least the magic bytes.
- FileRoundTrip: and the download and extraction theorems speak of files shorter than 2^63 bytes, which every Go slice is.
- Create: takes a positive chunk size; the command refuses any other before calling it, which CreateCommand models.
- WriteIndex: and the other writers require counts and lengths below 2^64, which every Go length is.
- SelectionIsComplete: and GreedyCoverage require that every candidate window weighs less than 2^32. That is what the first scores need to be true, and FirstScoresAreTrue proves it exactly; for samples with a heavier window the model does not say whether the wrapped scores happen to do no harm.
- AssembleSequentially: fetches each run when the loop reaches it; the concurrent engine is the transition system in `Fetch`, proved to end in the same way.
- ReadPreface: does not distinguish absent optional elements from an empty list of them.
- HTTP transport (`internal/zchunk/httprange.go`): a network client; the model has an arbitrary range source instead.
- zstd itself, its dictionary tables and the SHA functions: library code, taken as arbitrary functions.
- `GenerateDict` beyond the content selection, and `dictID`: library calls and a one-line fact.
- Command-line flags, opening files, `info` and `delta-size` reports, and the re-exports at the root: user interface.
- `CompressChunk` and `DecompressChunk` make an encoder or a decoder for one chunk and use it once; the accessors of `Builder` and `Index` return a field.
