/** The `create` and `extract` commands, and why the second undoes the first. */
module Commands {
  import opened Base
  import opened CompressedInt
  import opened Checksum
  import opened LeadFormat
  import opened PrefaceFormat
  import opened ChunkIndex
  import opened HeaderFile
  import opened Delta
  import opened ChunkCodec
  import opened FileBuilder
  import opened Extraction
  import opened Runs
  import opened Assemble
  import opened Fetch
  import opened RemoteHeaders
  import opened Download

  /** Fixed-size pieces of an input; only the last may be shorter, and none is empty. */
  function Split(input: Bytes, size: nat): (plains: seq<Bytes>)
    requires size > 0
    decreases |input|
  {
    if input == [] then []
    else if |input| <= size then [input]
    else [input[..size]] + Split(input[size..], size)
  }

  lemma {:induction false} SplitConcat(input: Bytes, size: nat)
    requires size > 0
    ensures Concat(Split(input, size)) == input
    decreases |input|
  {
    if 0 < |input| <= size {
      assert [input][1..] == [];
      assert input + [] == input;
    } else if |input| > size {
      SplitConcat(input[size..], size);
      assert Split(input, size)[1..] == Split(input[size..], size);
      assert input == input[..size] + input[size..];
    }
  }

  lemma {:induction false} SplitPieces(input: Bytes, size: nat)
    requires size > 0
    ensures forall p :: p in Split(input, size) ==> 0 < |p| <= |input|
    decreases |input|
  {
    if |input| > size {
      SplitPieces(input[size..], size);
    }
  }

  /** `create` always uses SHA-256, and a preface with nothing but the compression type. */
  function CreateRecipe(h: Hasher, codec: Codec, ct: nat, dict: Bytes): Recipe {
    Recipe(h, codec, ct, SHA256, dict)
  }

  function CreatedParts(r: Recipe, plains: seq<Bytes>): Parts
    requires ValidCompression(r.ct) && Known(r.ckType)
  {
    Parts(SHA256, Preface([], 0, r.ct, []), BuiltIndex(r, plains), 0, BuiltBody(r, plains))
  }

  /** What `create` writes. */
  function Created(h: Hasher, codec: Codec, input: Bytes, size: nat, ct: nat, dict: Bytes): Result<Bytes>
    requires size > 0
  {
    var r := CreateRecipe(h, codec, ct, dict);
    if RecipeError(r).Some? then Err(RecipeError(r).value) else File(h, CreatedParts(r, Split(input, size)))
  }

  /** What `extract` writes, given a whole file. */
  function ExtractedFile(h: Hasher, codec: Codec, f: Bytes, out: Writer): Extracted {
    var lead := ParseLead(f);
    if lead.Err? then Extracted([], f, Some(lead.error)) else
      var fields := ParseFields(lead.value.rest, lead.value.value.ckType);
      if fields.Err? then Extracted([], f, Some(fields.error)) else
        var v := fields.value.value;
        ExtractBody(Setup(h, codec, v.index, v.preface.compression, out), fields.value.rest)
  }

  // ---------------------------------------------------------------- what is created

  /** All pieces but the last have the chunk size, and the last has at most that and is not empty. */
  lemma {:induction false} SplitSizes(input: Bytes, size: nat)
    requires size > 0
    ensures forall i :: 0 <= i < |Split(input, size)| - 1 ==> |Split(input, size)[i]| == size
    ensures Split(input, size) != [] ==> 0 < |Split(input, size)[|Split(input, size)| - 1]| <= size
    ensures Split(input, size) == [] <==> input == []
    decreases |input|
  {
    if |input| > size {
      SplitSizes(input[size..], size);
    }
  }

  /** What the errors of a recipe are, in the order in which they are found. */
  lemma RecipeIsRefused(r: Recipe)
    ensures r.ct != 0 && r.ct != 2 ==> RecipeError(r) == Some(UnknownCompression(r.ct))
    ensures (r.ct == 0 || r.ct == 2) && r.ckType > 3 ==> RecipeError(r) == Some(UnknownChecksumType(r.ckType))
    ensures (r.ct == 0 || r.ct == 2) && r.ckType <= 3 ==>
              RecipeError(r) == if r.ct == 0 || r.dict
                  == [] || r.codec.encLoads(Load(r.dict)) then None else Some(DictionaryRejected)
  {
  }

  /**
   A created file, as a reader sees it: SHA-256 for the header and the chunks, no flags, no optional
   elements, no signatures, the compression type asked for, the digest of the body, and one chunk for
   the dictionary before those of the input.
   */
  lemma CreatedReads(h: Hasher, codec: Codec, input: Bytes, size: nat, ct: nat, dict: Bytes)
    requires size > 0 && Created(h, codec, input, size, ct, dict).Ok?
    requires |Created(h, codec, input, size, ct, dict).value| < TWO63
    ensures var f := Created(h, codec, input, size, ct, dict).value;
            && ParseLead(f).Ok? && ParseLead(f).value.value.ckType == 1 && !ParseLead(f).value.value.detached
            && ParseFields(ParseLead(f).value.rest, 1).Ok?
            && var p := ParseFields(ParseLead(f).value.rest, 1).value;
            && p.value.preface == Preface(h(1, p.rest), 0, ct, []) && p.value.signatures == 0
            && p.value.index.ckType == 1 && |p.value.index.chunks| == |Split(input, size)| + 1
  {
    hide ParseLead, ParseFields, HeaderBody, BuiltBody, LeadBytes, Verify, Split, DataEntries, DictEntry;
    hide Encode, RecomputedLength, HeaderChecksum, Visible;
    var r := CreateRecipe(h, codec, ct, dict);
    FileRoundTrip(h, CreatedParts(r, Split(input, size)));
  }

  // ---------------------------------------------------------------- extract undoes create

  lemma VisibleBuilt(r: Recipe, plains: seq<Bytes>)
    requires Known(r.ckType)
    ensures VisibleIndex(BuiltIndex(r, plains), false) == BuiltIndex(r, plains)
  {
    var idx := BuiltIndex(r, plains);
    assert forall i :: 0 <= i < |idx.chunks| ==> idx.chunks[i].uncompressedDigest.None?;
    assert VisibleAll(idx.chunks, false) == idx.chunks;
  }

  /** The setup of an extraction that reads what the recipe built. */
  ghost predicate Reads(x: Setup, r: Recipe, plains: seq<Bytes>)
    requires Known(r.ckType)
  {
    && x.h == r.h && x.codec == r.codec && x.ct == r.ct && x.index == BuiltIndex(r, plains)
    && NeverFails(x.out) && Lawful(x.codec)
  }

  lemma ReadBuiltChunk(x: Setup, r: Recipe, plains: seq<Bytes>, i: nat, rest: Bytes)
    requires r.Accepted() && Reads(x, r, plains) && i < |plains|
    requires |DataChunk(r, plains[i])| < TWO64 && |plains[i]| < TWO64
    ensures ReadChunk(x, r.dict, i + 1, DataChunk(r, plains[i]) + rest) == Ok(Parsed(plains[i], rest))
  {
    hide Compressed, Decompressed, Lawful;
    var e := x.index.chunks[i + 1];
    assert e == DataEntry(r, plains[i]);
    DecodeUndoesEncode(r.codec, r.ct, r.dict, plains[i]);
    TakeFullAppend(DataChunk(r, plains[i]), rest);
  }

  lemma ReadBuiltDict(x: Setup, r: Recipe, plains: seq<Bytes>, rest: Bytes)
    requires Known(r.ckType) && Reads(x, r, plains) && |DictChunk(r)| < TWO64 && |r.dict| < TWO64
    ensures ReadChunk(x, [], 0, DictChunk(r) + rest) == Ok(Parsed(r.dict, rest))
  {
    hide Compressed, Decompressed, Lawful;
    assert x.index.chunks[0] == DictEntry(r);
    DecodeUndoesEncode(r.codec, r.ct, [], r.dict);
    TakeFullAppend(DictChunk(r), rest);
  }

  /** The data chunks of a built body extract to their plaintexts. */
  lemma {:induction false} ExtractBuilt(x: Setup, r: Recipe, plains: seq<Bytes>, i: nat, out: Bytes)
    requires r.Accepted() && Reads(x, r, plains) && i <= |plains|
    requires |DataBody(r, plains[i..])| < TWO64 && forall p :: p in plains ==> |p| < TWO64
    ensures ExtractFrom(x, r.dict, i + 1, DataBody(r, plains[i..]), out)
            == Extracted(out + Concat(plains[i..]), [], None)
    decreases |plains| - i
  {
    hide *;
    ReadsMeans(x, r, plains);
    if i < |plains| {
      var rest := DataBody(r, plains[i + 1..]);
      SplitOffFirst(r, plains, i);
      ReadBuiltChunk(x, r, plains, i, rest);
      StepWrite(x, r.dict, i + 1, DataBody(r, plains[i..]), out);
      TakesAll(x.out, out, plains[i]);
      ExtractBuilt(x, r, plains, i + 1, out + plains[i]);
      Assoc(out, plains[i], Concat(plains[i + 1..]));
    } else {
      NothingLeft(r, plains);
      StopAtEnd(x, r.dict, i + 1, [], out);
      assert out + [] == out;
    }
  }

  lemma ReadsMeans(x: Setup, r: Recipe, plains: seq<Bytes>)
    requires r.Accepted() && Reads(x, r, plains)
    ensures |x.index.chunks| == |plains| + 1 && x.index.ckType == r.ckType
    ensures x.ct == r.ct && x.codec == r.codec && Lawful(r.codec) && NeverFails(x.out)
  {
  }

  lemma SplitOffFirst(r: Recipe, plains: seq<Bytes>, i: nat)
    requires i < |plains|
    ensures DataBody(r, plains[i..]) == DataChunk(r, plains[i]) + DataBody(r, plains[i + 1..])
    ensures Concat(plains[i..]) == plains[i] + Concat(plains[i + 1..])
    ensures plains[i] in plains
  {
    assert plains[i..][1..] == plains[i + 1..];
  }

  lemma NothingLeft(r: Recipe, plains: seq<Bytes>)
    ensures DataBody(r, plains[|plains|..]) == [] && Concat(plains[|plains|..]) == []
  {
  }

  lemma TakesAll(w: Writer, taken: Bytes, p: Bytes)
    requires NeverFails(w)
    ensures w(taken, p).err.None? && w(taken, p).n == |p| && p[..|p|] == p
  {
  }

  lemma ExtractBuiltBody(x: Setup, r: Recipe, plains: seq<Bytes>)
    requires r.Accepted() && Reads(x, r, plains)
    requires |BuiltBody(r, plains)| < TWO64 && |r.dict| < TWO64 && forall p :: p in plains ==> |p| < TWO64
    ensures ExtractBody(x, BuiltBody(r, plains)) == Extracted(Concat(plains), [], None)
  {
    hide ReadChunk, ExtractFrom, DictChunk, DataBody, BuiltIndex, Reads;
    hide Lawful, EncoderLoads, DecoderLoads, SizeOf, NeverFails, Concat;
    ReadsMeans(x, r, plains);
    LoadsOnBothSides(r.codec, r.ct, r.dict);
    ReadBuiltDict(x, r, plains, DataBody(r, plains));
    assert plains[0..] == plains;
    ExtractBuilt(x, r, plains, 0, []);
    assert [] + Concat(plains) == Concat(plains);
  }

  /**
   `extract` of what `create` wrote gives back the input exactly, and consumes the whole file:
   for any input, chunk size, compression type, and dictionary that the encoder accepts.
   */
  lemma CreateThenExtract(h: Hasher, codec: Codec, input: Bytes, size: nat, ct: nat, dict: Bytes, out: Writer)
    requires size > 0 && Lawful(codec) && NeverFails(out)
    requires Created(h, codec, input, size, ct, dict).Ok? && |Created(h, codec, input, size, ct, dict).value| < TWO63
    requires |input| < TWO63 && |dict| < TWO63
    ensures ExtractedFile(h, codec, Created(h, codec, input, size, ct, dict).value, out) == Extracted(input, [], None)
  {
    hide ParseLead, ParseFields, HeaderBody, ExtractBody, BuiltBody, Lawful, LeadBytes, Verify, Split, Concat;
    hide Encode, RecomputedLength, HeaderChecksum, Compressed, Load, VisibleAll, Visible;
    var r := CreateRecipe(h, codec, ct, dict);
    var plains := Split(input, size);
    var parts := CreatedParts(r, plains);
    FileRoundTrip(h, parts);
    VisibleBuilt(r, plains);
    SplitPieces(input, size);
    SplitConcat(input, size);
    var x := Setup(h, codec, BuiltIndex(r, plains), ct, out);
    ExtractBuiltBody(x, r, plains);
  }

  /** `create` fails exactly for an unknown compression type, or a dictionary that zstd does not load. */
  lemma CreateSucceeds(h: Hasher, codec: Codec, input: Bytes, size: nat, ct: nat, dict: Bytes)
    requires size > 0
    ensures Created(h, codec, input, size, ct, dict).Ok? <==>
            ct == 0 || (ct == 2 && (dict == [] || codec.encLoads(Load(dict))))
  {
    hide Split, Encode, IndexBody, PrefaceBytes, HeaderChecksum, BuiltBody;
    var r := CreateRecipe(h, codec, ct, dict);
    if r.Accepted() {
      var parts := CreatedParts(r, Split(input, size));
      assert PrefaceError(FilledPreface(h, parts)) == None;
      var chunks := parts.index.chunks;
      forall j | 0 <= j < |chunks|
        ensures EntryError(chunks[j], j, 32, false) == None
      {
      }
    }
  }

  /**
   The whole journey: an input is built into a file, the file is delta-downloaded by its own or its
   detached header, with any local copy, any answers of the source, and any interleaving of the fetch
   workers, and what arrived is extracted. If the download reports no error, the input comes out.
   */
  lemma CreateDownloadExtract(h: Hasher, codec: Codec, input: Bytes, size: nat, ct: nat, dict: Bytes, detached: bool,
                              localIndex: Option<Index>, runs: seq<Run>, answers: seq<Result<Bytes>>, local: ReaderAt,
                              saved: Writer, job: Job, events: seq<Event>, out: Writer)
    requires size > 0 && Lawful(codec) && NeverFails(out)
    requires Created(h, codec, input, size, ct, dict).Ok? && |Created(h, codec, input, size, ct, dict).value| < TWO63
    requires |input| < TWO63 && |dict| < TWO63
    requires var parts := CreatedParts(CreateRecipe(h, codec, ct, dict), Split(input, size));
             && Header(h, MagicOf(detached), parts).Ok? && |HeaderBody(h, parts).value| < TWO64
             && var rh := WrittenHeader(h, detached, parts);
             && Plan(localIndex, rh.index).Ok?
             && AreRuns(Plan(localIndex, rh.index).value, runs, |rh.index.chunks|) && |answers| == |runs|
             && job == JobOf(h, rh, Plan(localIndex, rh.index).value, runs, local, saved) && job.Valid()
             && NothingCollides(job, answers, parts.body)
    requires IsExecution(job, answers, events) && Reached(job, answers, events).consumer.Returned?
    ensures var rh := WrittenHeader(h, detached, CreatedParts(CreateRecipe(h, codec, ct, dict), Split(input, size)));
            var o := DownloadAround(h, rh, localIndex, saved, Reached(job, answers, events).consumer.outcome);
            o.err.None? ==> ExtractedFile(h, codec, o.out, out) == Extracted(input, [], None)
  {
    hide Split, HeaderBody, WrittenHeader, Lawful, NothingCollides, AreRuns;
    hide IsExecution, Reached, ExtractedFile, DownloadAround;
    hide BuiltBody, Describes, Header, Plan;
    var r := CreateRecipe(h, codec, ct, dict);
    var plains := Split(input, size);
    var parts := CreatedParts(r, plains);
    assert |parts.body| <= |File(h, parts).value|;
    BuiltDescribes(r, plains);
    CreateThenExtract(h, codec, input, size, ct, dict, out);
    EveryInterleavingDelivers(h, detached, parts, localIndex, runs, answers, local, saved, job, events);
  }

  /** And with an honest source and local copy every interleaving ends without an error, and the input comes out. */
  lemma HonestJourney(h: Hasher, codec: Codec, input: Bytes, size: nat, ct: nat, dict: Bytes, detached: bool,
                      localIndex: Option<Index>, localBody: Bytes, runs: seq<Run>, answers: seq<Result<Bytes>>,
                      local: ReaderAt, saved: Writer, job: Job, events: seq<Event>, out: Writer)
    requires size > 0 && Lawful(codec) && NeverFails(out) && NeverFails(saved)
    requires Created(h, codec, input, size, ct, dict).Ok? && |Created(h, codec, input, size, ct, dict).value| < TWO63
    requires |input| < TWO63 && |dict| < TWO63
    requires var parts := CreatedParts(CreateRecipe(h, codec, ct, dict), Split(input, size));
             && Header(h, MagicOf(detached), parts).Ok? && |HeaderBody(h, parts).value| < TWO64
             && var rh := WrittenHeader(h, detached, parts);
             && Plan(localIndex, rh.index).Ok?
             && AreRuns(Plan(localIndex, rh.index).value, runs, |rh.index.chunks|) && |answers| == |runs|
             && job == JobOf(h, rh, Plan(localIndex, rh.index).value, runs, local, saved) && job.Valid()
             && HonestAnswers(runs, answers, parts.body)
             && CopiesAreGenuine(h, LocalChunks(localIndex), localBody, parts.index, parts.body)
    requires Describes(h, Index(SHA256, LocalChunks(localIndex)), localBody)
    requires |localBody| < TWO63 && ServesBody(local, localBody)
    requires IsExecution(job, answers, events) && Reached(job, answers, events).consumer.Returned?
    ensures var rh := WrittenHeader(h, detached, CreatedParts(CreateRecipe(h, codec, ct, dict), Split(input, size)));
            var o := DownloadAround(h, rh, localIndex, saved, Reached(job, answers, events).consumer.outcome);
            o.err.None? && ExtractedFile(h, codec, o.out, out) == Extracted(input, [], None)
  {
    hide Split, HeaderBody, WrittenHeader, Lawful, AreRuns, IsExecution, Reached, ExtractedFile, DownloadAround;
    hide BuiltBody, Describes, Header, Plan, HonestAnswers, CopiesAreGenuine, ServesBody;
    var r := CreateRecipe(h, codec, ct, dict);
    var plains := Split(input, size);
    var parts := CreatedParts(r, plains);
    assert |parts.body| <= |File(h, parts).value|;
    BuiltDescribes(r, plains);
    CreateThenExtract(h, codec, input, size, ct, dict, out);
    EveryHonestInterleavingSucceeds(h, detached, parts, localIndex, localBody, runs, answers, local, saved, job,
                                    events);
  }

  // ---------------------------------------------------------------- the code

  /** What `create` writes, for an input that may fail: that is reported once the recipe is accepted. */
  function CreatedFrom(h: Hasher, codec: Codec, input: Bytes, fault: Option<int>, size: nat, ct: nat,
                       dict: Bytes): Result<Bytes>
    requires size > 0
  {
    if RecipeError(CreateRecipe(h, codec, ct, dict)).None? && fault.Some? then Err(External(fault.value))
    else Created(h, codec, input, size, ct, dict)
  }

  /** The recipe is looked at before the input; an input that fails is reported with its failure. */
  lemma CreateRefuses(h: Hasher, codec: Codec, input: Bytes, fault: Option<int>, size: nat, ct: nat, dict: Bytes)
    requires size > 0
    ensures var made := CreatedFrom(h, codec, input, fault, size, ct, dict);
            && (ct != 0 && ct != 2 ==> made == Err(UnknownCompression(ct)))
            && (ct == 2 && dict != [] && !codec.encLoads(Load(dict)) ==> made == Err(DictionaryRejected))
            && (ct == 0 || (ct == 2 && (dict == [] || codec.encLoads(Load(dict)))) ==>
                  && (fault.Some? ==> made == Err(External(fault.value)))
                  && (fault.None? ==> made.Ok?))
  {
    hide File, Load, BuiltIndex, BuiltBody, Split;
    CreateSucceeds(h, codec, input, size, ct, dict);
  }

  /** The lengths and counts of a created file are Go lengths. */
  ghost predicate CreatedFits(h: Hasher, codec: Codec, input: Bytes, size: nat, ct: nat, dict: Bytes)
    requires size > 0
  {
    RecipeError(CreateRecipe(h, codec, ct, dict)).None? ==>
      var parts := CreatedParts(CreateRecipe(h, codec, ct, dict), Split(input, size));
      && |parts.index.chunks| < TWO64 && |IndexBody(parts.index, false)| < TWO64
      && (HeaderBody(h, parts).Ok? ==> |HeaderBody(h, parts).value| < TWO64)
  }

  /** `create`: the built file goes out in one write; a refused recipe or a failed input writes nothing. */
  method Create(h: Hasher, codec: Codec, input: Reader, size: nat, ct: nat, dict: Bytes, out: Sink)
    returns (err: Option<Error>)
    requires size > 0 && input.Valid() && CreatedFits(h, codec, input.Rest(), size, ct, dict)
    modifies input`pos, out
    ensures var w := WriteOnce(out.writer, old(out.data),
                               CreatedFrom(h, codec, old(input.Rest()), input.fault, size, ct, dict));
            out.data == w.data && err == w.err
  {
    hide HeaderBody, IndexBody, File, BuiltIndex, BuiltBody, Split;
    var r := CreateRecipe(h, codec, ct, dict);
    var made := NewBuilder(r);
    if made.Err? {
      return Some(made.error);
    }
    var b := made.value;
    err := FillBuilder(b, input, size);
    if err.Some? {
      return;
    }
    var parts := Parts(SHA256, Preface([], 0, ct, []), b.index, 0, b.body);
    assert parts == CreatedParts(r, Split(old(input.Rest()), size));
    var n;
    n, err := WriteFile(h, parts, out);
  }

  /**
   The `create` command with its flags parsed: a chunk size that is not positive is refused before
   anything is read.
   */
  method CreateCommand(h: Hasher, codec: Codec, input: Reader, size: int, ct: nat, dict: Bytes, out: Sink)
    returns (err: Option<Error>)
    requires input.Valid() && (size > 0 ==> CreatedFits(h, codec, input.Rest(), size, ct, dict))
    modifies input`pos, out
    ensures size <= 0 ==> err == Some(BadChunkSize(size)) && out.data == old(out.data) && input.pos == old(input.pos)
    ensures size > 0 ==>
              var made := CreatedFrom(h, codec, old(input.Rest()), input.fault, size, ct, dict);
              var w := WriteOnce(out.writer, old(out.data), made);
              out.data == w.data && err == w.err
  {
    hide CreatedFits, CreatedFrom;
    if size <= 0 {
      return Some(BadChunkSize(size));
    }
    err := Create(h, codec, input, size, ct, dict, out);
  }

  /** What has been read is in the builder; what has not is in the input. */
  ghost predicate Filled(b: Builder, input: Reader, whole: Bytes, size: nat, more: bool)
    reads b, input
  {
    && size > 0 && input.Valid() && b.Valid()
    && Split(whole, size) == b.plains + if more then Split(input.Rest(), size) else []
  }

  /** The chunking loop of `create`: every chunk passes through the same buffer. */
  method FillBuilder(b: Builder, input: Reader, size: nat) returns (err: Option<Error>)
    requires size > 0 && input.Valid() && b.Valid() && b.plains == []
    modifies input`pos, b
    ensures b.Valid() && b.plains == Split(old(input.Rest()), size)
    ensures err == if input.fault.Some? then Some(External(input.fault.value)) else None
  {
    ghost var whole := input.Rest();
    var buf := new byte[size];
    var more := true;
    err := None;
    StartFilling(b, input, size);
    hide *;
    while more
      invariant Filled(b, input, whole, size, more)
      invariant input.pos <= |input.data|
      invariant more ==> err.None?
      invariant !more ==> err == if input.fault.Some? then Some(External(input.fault.value)) else None
      decreases more, |input.data| - input.pos
    {
      more, err := ReadAndAdd(b, input, buf, size, whole);
    }
    DoneFilling(b, input, whole, size);
  }

  lemma StartFilling(b: Builder, input: Reader, size: nat)
    requires size > 0 && input.Valid() && b.Valid() && b.plains == []
    ensures Filled(b, input, input.Rest(), size, true) && input.pos <= |input.data|
  {
    assert [] + Split(input.Rest(), size) == Split(input.Rest(), size);
  }

  lemma DoneFilling(b: Builder, input: Reader, whole: Bytes, size: nat)
    requires Filled(b, input, whole, size, false)
    ensures size > 0 && b.Valid() && b.plains == Split(whole, size)
  {
    assert b.plains + [] == b.plains;
  }

  /** One turn of the loop: fill the buffer, add what it holds, and see whether there may be more. */
  method ReadAndAdd(b: Builder, input: Reader, buf: array<byte>, size: nat, ghost whole: Bytes)
    returns (more: bool, err: Option<Error>)
    requires Filled(b, input, whole, size, true) && buf.Length == size
    modifies input`pos, b, buf
    ensures Filled(b, input, whole, size, more) && input.pos <= |input.data|
    ensures more ==> err.None? && old(input.pos) < input.pos
    ensures !more ==> err == if input.fault.Some? then Some(External(input.fault.value)) else None
  {
    hide *;
    FilledMeans(b, input, whole, size);
    ghost var s, before := input.Rest(), b.plains;
    var n, rerr := input.ReadInto(buf, size);
    ReadMeans(s, size, input);
    if n > 0 {
      b.AddChunk(buf, n);
    }
    FillOn(b, input, whole, size, s, before, n);
    more, err := true, None;
    if rerr.Some? {
      more := false;
      if rerr.value != EndOfInput && rerr.value != UnexpectedEnd {
        err := rerr;
      }
    }
  }

  lemma FilledMeans(b: Builder, input: Reader, whole: Bytes, size: nat)
    requires Filled(b, input, whole, size, true)
    ensures size > 0 && input.Valid() && b.Valid() && Split(whole, size) == b.plains + Split(input.Rest(), size)
  {
  }

  /** After one read and its chunk. */
  lemma FillOn(b: Builder, input: Reader, whole: Bytes, size: nat, s: Bytes, before: seq<Bytes>, n: nat)
    requires size > 0 && input.Valid() && b.Valid() && Split(whole, size) == before + Split(s, size)
    requires n == Min(size, |s|) && input.Rest() == s[n..]
    requires b.plains == if n > 0 then before + [s[..n]] else before
    ensures Filled(b, input, whole, size, n == size) && input.pos <= |input.data|
  {
    SplitStep(s, size);
    hide Split, BuiltIndex, BuiltBody;
    if n > 0 {
      Assoc3(before, s[..n], Split(input.Rest(), size));
    } else {
      assert before + [] == before;
    }
  }

  lemma Assoc3(plains: seq<Bytes>, p: Bytes, others: seq<Bytes>)
    ensures (plains + [p]) + others == plains + ([p] + others)
    ensures plains + [p] == (plains + [p]) + []
  {
  }

  /** One read of the chunking loop. */
  lemma SplitStep(s: Bytes, size: nat)
    requires size > 0
    ensures |s| >= size ==> Split(s, size) == [s[..size]] + Split(s[size..], size)
    ensures 0 < |s| < size ==> Split(s, size) == [s[..|s|]]
    ensures s == [] ==> Split(s, size) == []
  {
    if |s| == size {
      assert s[..size] == s && s[size..] == [];
    }
    assert s[..|s|] == s;
  }

  /** `extract`. */
  method ExtractCommand(h: Hasher, codec: Codec, r: Reader, out: Sink) returns (written: nat, err: Option<Error>)
    requires r.Valid()
    modifies r`pos, out
    ensures var o := ExtractedFile(h, codec, old(r.Rest()), Continued(out.writer, old(out.data)));
            out.data == old(out.data) + o.out && err == SeenAll(r, o.err) && written == |o.out|
  {
    hide ParseLead, ParseFields, ExtractBody, UncompressedSource;
    written, err := 0, None;
    assert out.data + [] == out.data;
    var lead := ReadLead(r);
    if lead.Err? {
      return 0, Some(lead.error);
    }
    var fields := ReadFields(r, lead.value.ckType);
    if fields.Err? {
      return 0, Some(fields.error);
    }
    var x := Setup(h, codec, fields.value.index, fields.value.preface.compression, Continued(out.writer, out.data));
    written, err := Extract(x, r, out);
  }
}
