/** Extracting a file's content from its body: verify, decompress and write chunk by chunk. */
module Extraction {
  import opened Base
  import opened Checksum
  import opened PrefaceFormat
  import opened ChunkIndex
  import opened Delta
  import opened ChunkCodec

  /** What one extraction is given besides the body. */
  datatype Setup = Setup(h: Hasher, codec: Codec, index: Index, ct: nat, out: Writer)

  /**
   Verify one chunk's compressed bytes and decompress them against a dictionary. An empty chunk is not
   verified at all.
   */
  function DecodeChunk(x: Setup, dict: Bytes, n: nat, comp: Bytes): Result<Bytes>
    requires n < |x.index.chunks|
  {
    var e := x.index.chunks[n];
    if e.compLength == 0 then Ok([])
    else if x.h(x.index.ckType, comp) != e.digest then Err(DigestMismatch(n))
    else
      var data := Decompressed(x.codec, x.ct, dict, comp, e.length);
      if data.Err? then Err(InChunk(n, data.error))
      else if e.uncompressedDigest.Some? && x.h(x.index.ckType, data.value) != e.uncompressedDigest.value then
        Err(UncompressedDigestMismatch(n))
      else data
  }

  /** `readChunk`. */
  function ReadChunk(x: Setup, dict: Bytes, n: nat, s: Bytes): Result<Parsed<Bytes>>
    requires n < |x.index.chunks|
  {
    var comp := TakeFull(s, x.index.chunks[n].compLength);
    if comp.Err? then Err(ReadChunkBody(n, comp.error))
    else
      var data := DecodeChunk(x, dict, n, comp.value.value);
      if data.Err? then Err(data.error) else Ok(Parsed(data.value, comp.value.rest))
  }

  /** What was written, what of the body is unread, and the error if any. */
  datatype Extracted = Extracted(out: Bytes, rest: Bytes, err: Option<Error>)

  /** The data chunks from n on. */
  function ExtractFrom(x: Setup, dict: Bytes, n: nat, s: Bytes, out: Bytes): Extracted
    decreases |x.index.chunks| - n
  {
    if n >= |x.index.chunks| then Extracted(out, s, None) else
      var r := ReadChunk(x, dict, n, s);
      if r.Err? then Extracted(out, s, Some(r.error)) else
        var a := x.out(out, r.value.value);
        var more := out + r.value.value[..a.n];
        if a.err.Some? then Extracted(more, r.value.rest, Some(WriteChunk(n, a.err.value)))
        else ExtractFrom(x, dict, n + 1, r.value.rest, more)
  }

  /** `Index.Extract`. */
  function ExtractBody(x: Setup, s: Bytes): Extracted {
    if !Known(x.index.ckType) then Extracted([], s, Some(UnknownChecksumType(x.index.ckType)))
    else if !ValidCompression(x.ct) then Extracted([], s, Some(UnknownCompression(x.ct)))
    else if x.index.chunks == [] then Extracted([], s, None)
    else
      var dict := ReadChunk(x, [], 0, s);
      if dict.Err? then Extracted([], s, Some(dict.error))
      else if !DecoderLoads(x.codec, x.ct, dict.value.value) then
        Extracted([], dict.value.rest, Some(DictionaryRejected))
      else ExtractFrom(x, dict.value.value, 1, dict.value.rest, [])
  }

  // ---------------------------------------------------------------- safety

  /** data is the decompression of chunk n's own part of the body, verified against its digests. */
  ghost predicate IsVerified(x: Setup, dict: Bytes, body: Bytes, n: nat, data: Bytes) {
    && n < |x.index.chunks| && Offset(x.index.chunks, n) <= Offset(x.index.chunks, n + 1) <= |body|
    && var e := x.index.chunks[n];
    && var part := body[Offset(x.index.chunks, n)..Offset(x.index.chunks, n + 1)];
    && |part| == e.compLength
    && (part == [] ==> data == [])
    && (part != [] ==>
          && x.h(x.index.ckType, part) == e.digest
          && Decompressed(x.codec, x.ct, dict, part, e.length) == Ok(data)
          && (e.uncompressedDigest.Some? ==> x.h(x.index.ckType, data) == e.uncompressedDigest.value))
  }

  /** Verified decompressions of consecutive chunks from n on. */
  ghost predicate AreVerified(x: Setup, dict: Bytes, body: Bytes, n: nat, datas: seq<Bytes>) {
    forall i :: 0 <= i < |datas| ==> IsVerified(x, dict, body, n + i, datas[i])
  }

  lemma ReadChunkVerifies(x: Setup, dict: Bytes, body: Bytes, n: nat)
    requires n < |x.index.chunks| && Offset(x.index.chunks, n) <= |body|
    requires ReadChunk(x, dict, n, body[Offset(x.index.chunks, n)..]).Ok?
    ensures var p := ReadChunk(x, dict, n, body[Offset(x.index.chunks, n)..]).value;
            && IsVerified(x, dict, body, n, p.value)
            && Offset(x.index.chunks, n + 1) <= |body| && p.rest == body[Offset(x.index.chunks, n + 1)..]
  {
    hide Decompressed;
    assert x.index.chunks[n].compLength == 0 ==> DecodeChunk(x, dict, n, []) == Ok([]);
    var a, b := Offset(x.index.chunks, n), Offset(x.index.chunks, n + 1);
    assert b == a + x.index.chunks[n].compLength;
    assert body[a..][..b - a] == body[a..b] && body[a..][b - a..] == body[b..];
  }

  /**
   From chunk n on, what is written is a prefix of the verified decompressions, all of them when
   there is no error; and then the reader stands exactly behind the index's chunks.
   */
  lemma {:induction false} ExtractFromIsSafe(x: Setup, dict: Bytes, body: Bytes, n: nat,
                                             out: Bytes) returns (datas: seq<Bytes>)
    requires n <= |x.index.chunks| && Offset(x.index.chunks, n) <= |body|
    ensures AreVerified(x, dict, body, n, datas) && n + |datas| <= |x.index.chunks|
    ensures var o := ExtractFrom(x, dict, n, body[Offset(x.index.chunks, n)..], out);
            && o.out <= out + Concat(datas)
            && (o.err.None? ==> && n + |datas| == |x.index.chunks| && o.out == out + Concat(datas)
                                && BodyLength(x.index.chunks) <= |body| && o.rest == body[BodyLength(x.index.chunks)..])
    decreases |x.index.chunks| - n
  {
    hide ReadChunk, Offset, IsVerified;
    var s := body[Offset(x.index.chunks, n)..];
    datas := [];
    if n < |x.index.chunks| {
      var r := ReadChunk(x, dict, n, s);
      if r.Ok? {
        ReadChunkVerifies(x, dict, body, n);
        var data := r.value.value;
        var a := x.out(out, data);
        if a.err.None? {
          assert data[..a.n] == data;
          var others := ExtractFromIsSafe(x, dict, body, n + 1, out + data);
          datas := [data] + others;
          Assoc(out, data, Concat(others));
        } else {
          datas := [data];
          assert Concat([data]) == data + [];
          assert (out + data)[..|out| + a.n] == out + data[..a.n];
        }
      }
    }
  }

  /**
   Extraction safety, for any index, body, codec and output: the dictionary is a verified
   decompression of chunk 0, and at every outcome the output is a prefix of the verified
   decompressions of the data chunks; without an error it is all of them and exactly the index's
   bytes have been consumed.
   */
  lemma ExtractionIsSafe(x: Setup, body: Bytes) returns (dict: Bytes, datas: seq<Bytes>)
    ensures var o := ExtractBody(x, body);
            && o.out <= Concat(datas)
            && AreVerified(x, dict, body, 1, datas)
            && (datas != [] ==> IsVerified(x, [], body, 0, dict))
            && (o.err.None? ==> Known(x.index.ckType) && ValidCompression(x.ct))
            && (o.err.None? && x.index.chunks != [] ==>
                  && DecoderLoads(x.codec, x.ct, dict) && IsVerified(x, [], body, 0, dict)
                  && |datas| == |x.index.chunks| - 1 && o.out == Concat(datas)
                  && BodyLength(x.index.chunks) <= |body| && o.rest == body[BodyLength(x.index.chunks)..])
  {
    hide ReadChunk, IsVerified, ExtractFrom;
    dict, datas := [], [];
    if Known(x.index.ckType) && ValidCompression(x.ct) && x.index.chunks != [] {
      assert body[Offset(x.index.chunks, 0)..] == body;
      var d := ReadChunk(x, [], 0, body);
      if d.Ok? {
        ReadChunkVerifies(x, [], body, 0);
        dict := d.value.value;
        datas := ExtractFromIsSafe(x, dict, body, 1, []);
        assert [] + Concat(datas) == Concat(datas);
        if !DecoderLoads(x.codec, x.ct, dict) {
          datas := [];
        }
      }
    }
  }

  // ---------------------------------------------------------------- the converse: what is verified is extracted

  /** A verified chunk is read, and the reader then stands behind it. */
  lemma VerifiedIsRead(x: Setup, dict: Bytes, body: Bytes, n: nat, data: Bytes)
    requires IsVerified(x, dict, body, n, data)
    ensures ReadChunk(x, dict, n, body[Offset(x.index.chunks, n)..])
            == Ok(Parsed(data, body[Offset(x.index.chunks, n + 1)..]))
  {
    hide Decompressed;
    var a, b := Offset(x.index.chunks, n), Offset(x.index.chunks, n + 1);
    OffsetStep(x.index.chunks, n);
    hide Offset;
    assert body[a..][..b - a] == body[a..b] && body[a..][b - a..] == body[b..];
  }

  /** A digest is recorded, and it is not that of the data. */
  predicate Differs(x: Setup, digest: Option<Bytes>, data: Bytes) {
    digest.Some? && x.h(x.index.ckType, data) != digest.value
  }

  /** Every reason for which a chunk is not read, in the order in which they are looked for. */
  lemma ReadChunkRefuses(x: Setup, dict: Bytes, n: nat, s: Bytes)
    requires n < |x.index.chunks|
    ensures var e := x.index.chunks[n];
            && (|s| < e.compLength ==>
                  ReadChunk(x, dict, n, s) == Err(ReadChunkBody(n, if s == [] then EndOfInput else UnexpectedEnd)))
            && (0 < e.compLength <= |s| ==>
                  var part := s[..e.compLength];
                  && (x.h(x.index.ckType, part) != e.digest ==> ReadChunk(x, dict, n, s) == Err(DigestMismatch(n)))
                  && (x.h(x.index.ckType, part) == e.digest ==>
                        var d := Decompressed(x.codec, x.ct, dict, part, e.length);
                        && (d.Err? ==> ReadChunk(x, dict, n, s) == Err(InChunk(n, d.error)))
                        && (d.Ok? && Differs(x, e.uncompressedDigest, d.value) ==>
                              ReadChunk(x, dict, n, s) == Err(UncompressedDigestMismatch(n)))))
  {
    hide Decompressed;
  }

  /** Verified chunks are all written, whatever comes after them. */
  lemma {:induction false} VerifiedAreExtracted(x: Setup, dict: Bytes, body: Bytes, n: nat, datas: seq<Bytes>,
                                                out: Bytes)
    requires AreVerified(x, dict, body, n, datas) && NeverFails(x.out)
    requires n + |datas| <= |x.index.chunks|
    ensures ExtractFrom(x, dict, n, TailAt(x, body, n), out)
         == ExtractFrom(x, dict, n + |datas|, TailAt(x, body, n + |datas|), out + Concat(datas))
    decreases |datas|
  {
    hide IsVerified, ReadChunk, ExtractFrom, NeverFails, TailAt;
    if datas == [] {
      assert out + [] == out;
    } else {
      assert IsVerified(x, dict, body, n + 0, datas[0]);
      VerifiedTail(x, dict, body, n, datas[0]);
      StepWrite(x, dict, n, TailAt(x, body, n), out);
      WritesAll(x.out, out, datas[0]);
      forall i | 0 <= i < |datas[1..]|
        ensures IsVerified(x, dict, body, n + 1 + i, datas[1..][i])
      {
        assert IsVerified(x, dict, body, n + (i + 1), datas[i + 1]);
      }
      VerifiedAreExtracted(x, dict, body, n + 1, datas[1..], out + datas[0]);
      Assoc(out, datas[0], Concat(datas[1..]));
    }
  }

  /** The body from chunk n on; nothing when the body ends before. */
  function TailAt(x: Setup, body: Bytes, n: nat): Bytes
    requires n <= |x.index.chunks|
  {
    body[Min(Offset(x.index.chunks, n), |body|)..]
  }

  lemma VerifiedTail(x: Setup, dict: Bytes, body: Bytes, n: nat, data: Bytes)
    requires IsVerified(x, dict, body, n, data)
    ensures n < |x.index.chunks|
    ensures ReadChunk(x, dict, n, TailAt(x, body, n)) == Ok(Parsed(data, TailAt(x, body, n + 1)))
  {
    hide ReadChunk, Offset;
    VerifiedIsRead(x, dict, body, n, data);
  }

  lemma WritesAll(w: Writer, taken: Bytes, p: Bytes)
    requires NeverFails(w)
    ensures w(taken, p).err.None? && p[..w(taken, p).n] == p
  {
  }

  /** What makes a body extractable, in terms of its chunks alone. */
  ghost predicate IsExtractable(x: Setup, body: Bytes, dict: Bytes, datas: seq<Bytes>) {
    && IsVerified(x, [], body, 0, dict)
    && (x.ct == 0 || dict == [] || x.codec.decLoads(Load(dict)))
    && |datas| == |x.index.chunks| - 1 && AreVerified(x, dict, body, 1, datas)
  }

  /** An extractable body is extracted: all of it, and no more is read than its chunks. */
  lemma ExtractableIsExtracted(x: Setup, body: Bytes, dict: Bytes, datas: seq<Bytes>)
    requires x.index.ckType <= 3 && (x.ct == 0 || x.ct == 2) && NeverFails(x.out) && IsExtractable(x, body, dict, datas)
    ensures ExtractBody(x, body) == Extracted(Concat(datas), TailAt(x, body, |x.index.chunks|), None)
  {
    hide IsVerified, AreVerified, ReadChunk, ExtractFrom, NeverFails, Load;
    VerifiedTail(x, [], body, 0, dict);
    assert TailAt(x, body, 0) == body;
    hide TailAt;
    VerifiedAreExtracted(x, dict, body, 1, datas, []);
    assert [] + Concat(datas) == Concat(datas);
    StopAtEnd(x, dict, |x.index.chunks|, TailAt(x, body, |x.index.chunks|), Concat(datas));
  }

  /**
   Exactly when an extraction to an output that does not fail ends without an error: the chunk checksum and
   compression types are known, and there are no chunks, or all are verified and the dictionary loads.
   */
  lemma ExtractsExactly(x: Setup, body: Bytes)
    requires NeverFails(x.out)
    ensures ExtractBody(x, body).err.None? <==>
            && x.index.ckType <= 3 && (x.ct == 0 || x.ct == 2)
            && (x.index.chunks == [] || exists dict, datas :: IsExtractable(x, body, dict, datas))
  {
    hide IsVerified, AreVerified, ExtractFrom, ReadChunk, NeverFails, Load, Offset;
    if ExtractBody(x, body).err.None? && x.index.chunks != [] {
      var dict, datas := ExtractionIsSafe(x, body);
      assert IsExtractable(x, body, dict, datas);
    }
    if x.index.ckType <= 3 && (x.ct == 0 || x.ct == 2) {
      if dict, datas :| IsExtractable(x, body, dict, datas) {
        ExtractableIsExtracted(x, body, dict, datas);
      }
    }
  }

  /** The first chunk that is not read ends the extraction, behind everything before it. */
  lemma FirstUnreadEnds(x: Setup, dict: Bytes, body: Bytes, n: nat, datas: seq<Bytes>, out: Bytes)
    requires AreVerified(x, dict, body, n, datas) && NeverFails(x.out) && n + |datas| < |x.index.chunks|
    requires ReadChunk(x, dict, n + |datas|, TailAt(x, body, n + |datas|)).Err?
    ensures var r := ReadChunk(x, dict, n + |datas|, TailAt(x, body, n + |datas|));
            ExtractFrom(x, dict, n, TailAt(x, body, n), out)
            == Extracted(out + Concat(datas), TailAt(x, body, n + |datas|), Some(r.error))
  {
    hide AreVerified, ReadChunk, ExtractFrom, NeverFails, TailAt;
    VerifiedAreExtracted(x, dict, body, n, datas, out);
    StopAtRead(x, dict, n + |datas|, TailAt(x, body, n + |datas|), out + Concat(datas));
  }

  /** A dictionary that does not load ends it before anything is written. */
  lemma UnloadableEnds(x: Setup, body: Bytes, dict: Bytes)
    requires x.index.ckType <= 3 && x.ct == 2 && IsVerified(x, [], body, 0, dict)
    requires dict != [] && !x.codec.decLoads(Load(dict))
    ensures ExtractBody(x, body).out == [] && ExtractBody(x, body).err == Some(DictionaryRejected)
  {
    hide IsVerified, ReadChunk, ExtractFrom, Load;
    VerifiedTail(x, [], body, 0, dict);
    assert TailAt(x, body, 0) == body;
  }

  /** What is refused before any chunk is written, in the order in which it is looked for. */
  lemma ExtractRefuses(x: Setup, body: Bytes)
    ensures x.index.ckType > 3 ==>
            ExtractBody(x, body) == Extracted([], body, Some(UnknownChecksumType(x.index.ckType)))
    ensures x.index.ckType <= 3 && x.ct != 0 && x.ct != 2 ==>
              ExtractBody(x, body) == Extracted([], body, Some(UnknownCompression(x.ct)))
    ensures x.index.ckType <= 3 && (x.ct == 0 || x.ct == 2) && x.index.chunks != [] &&
            ReadChunk(x, [], 0, body).Err? ==>
              ExtractBody(x, body) == Extracted([], body, Some(ReadChunk(x, [], 0, body).error))
  {
    hide ReadChunk, ExtractFrom;
  }

  // ---------------------------------------------------------------- declared lengths

  /** What the entries from n on declare that they decompress to. */
  function DeclaredLength(chunks: seq<Entry>, n: nat): nat
    requires n <= |chunks|
    decreases |chunks| - n
  {
    if n == |chunks| then 0 else chunks[n].length + DeclaredLength(chunks, n + 1)
  }

  /** Every empty entry from n on declares that it decompresses to nothing. */
  ghost predicate EmptyDeclareNothing(chunks: seq<Entry>, n: nat) {
    forall i :: n <= i < |chunks| && chunks[i].compLength == 0 ==> chunks[i].length == 0
  }

  lemma VerifiedLength(x: Setup, dict: Bytes, body: Bytes, n: nat, data: Bytes)
    requires IsVerified(x, dict, body, n, data)
    ensures n < |x.index.chunks|
    ensures |data| == if x.index.chunks[n].compLength == 0 then 0 else x.index.chunks[n].length
  {
  }

  lemma EmptyStep(chunks: seq<Entry>, n: nat)
    requires n <= |chunks|
    ensures EmptyDeclareNothing(chunks, n) <==>
            n < |chunks| ==> (chunks[n].compLength == 0 ==> chunks[n].length == 0) && EmptyDeclareNothing(chunks, n + 1)
  {
  }

  lemma {:induction false} WrittenIsDeclared(x: Setup, dict: Bytes, body: Bytes, n: nat, datas: seq<Bytes>)
    requires AreVerified(x, dict, body, n, datas) && n + |datas| == |x.index.chunks|
    ensures |Concat(datas)| <= DeclaredLength(x.index.chunks, n)
    ensures |Concat(datas)| == DeclaredLength(x.index.chunks, n) <==> EmptyDeclareNothing(x.index.chunks, n)
    decreases |datas|
  {
    hide IsVerified, EmptyDeclareNothing;
    EmptyStep(x.index.chunks, n);
    if datas != [] {
      assert IsVerified(x, dict, body, n + 0, datas[0]);
      VerifiedLength(x, dict, body, n, datas[0]);
      forall i | 0 <= i < |datas[1..]|
        ensures IsVerified(x, dict, body, n + 1 + i, datas[1..][i])
      {
        assert IsVerified(x, dict, body, n + (i + 1), datas[i + 1]);
      }
      WrittenIsDeclared(x, dict, body, n + 1, datas[1..]);
    }
  }

  /**
   An extraction without an error writes at most what the data entries declare, and exactly that if and
   only if the empty ones among them declare nothing: what an empty entry declares is never checked.
   */
  lemma ExtractedLength(x: Setup, body: Bytes)
    requires ExtractBody(x, body).err.None? && x.index.chunks != []
    ensures |ExtractBody(x, body).out| <= DeclaredLength(x.index.chunks, 1)
    ensures |ExtractBody(x, body).out| == DeclaredLength(x.index.chunks, 1) <==> EmptyDeclareNothing(x.index.chunks, 1)
  {
    hide ExtractBody, AreVerified, IsVerified, Offset;
    var dict, datas := ExtractionIsSafe(x, body);
    WrittenIsDeclared(x, dict, body, 1, datas);
  }

  /** An index of empty entries with any digests, one declaring five bytes: accepted, and nothing is written. */
  lemma EmptyEntryUnchecked(h: Hasher, codec: Codec, out: Writer, digest: Bytes)
    requires NeverFails(out)
    ensures var chunks := [Entry(digest, None, 0, 0), Entry(digest, None, 0, 5)];
            var x := Setup(h, codec, Index(SHA256, chunks), COMPRESSION_NONE, out);
            ExtractBody(x, []) == Extracted([], [], None) && DeclaredLength(chunks, 1) == 5
  {
    var chunks := [Entry(digest, None, 0, 0), Entry(digest, None, 0, 5)];
    var x := Setup(h, codec, Index(SHA256, chunks), COMPRESSION_NONE, out);
    assert ReadChunk(x, [], 0, []) == Ok(Parsed([], []));
    assert ReadChunk(x, [], 1, []) == Ok(Parsed([], []));
    assert ExtractFrom(x, [], 2, [], []) == Extracted([], [], None);
    assert ExtractFrom(x, [], 1, [], []) == Extracted([], [], None);
    assert DeclaredLength(chunks, 2) == 0;
  }

  // ---------------------------------------------------------------- the code, with its reused buffers

  /** Read one chunk into the scratch buffer, grown when it is too small. */
  method FillScratch(r: Reader, scratch: Slice, n: nat) returns (comp: Slice, err: Option<Error>)
    requires r.Valid() && scratch.Fits()
    modifies r`pos, scratch.arr
    ensures r.Valid() && comp.Fits() && (comp.arr == scratch.arr || fresh(comp.arr))
    ensures match TakeFull(old(r.Rest()), n)
            case Ok(p) => err == None && comp.View() == p.value && r.Rest() == p.rest
            case Err(e) => err == Some(r.Seen(e))
  {
    hide TakeFull, Faulted, Min;
    ReadMeans(r.Rest(), n, r);
    var arr := scratch.arr;
    if arr.Length < n {
      arr := new byte[n];
    }
    comp := Slice(arr, n);
    var got, rerr := r.ReadInto(arr, n);
    err := rerr;
  }

  /** One chunk through the scratch buffer and the decoder's destination. */
  method ReadChunkCode(x: Setup, r: Reader, dec: ChunkDecoder, n: nat, scratch: Slice)
    returns (data: Slice, comp: Slice, err: Option<Error>)
    requires n < |x.index.chunks| && x.codec == dec.codec && x.ct == dec.ct
    requires r.Valid() && dec.Valid() && scratch.Fits()
    requires scratch.arr != dec.dst.arr && scratch.arr != dec.dict.arr
    modifies r`pos, dec, dec.dst.arr, scratch.arr
    ensures r.Valid() && dec.Valid() && comp.Fits() && data.Fits()
    ensures dec.dst.arr == old(dec.dst.arr) || fresh(dec.dst.arr)
    ensures comp.arr == scratch.arr || fresh(comp.arr)
    ensures comp.arr != dec.dst.arr && comp.arr != dec.dict.arr
    ensures data.arr == dec.dst.arr || fresh(data.arr)
    ensures data.arr != comp.arr
    ensures dec.dict.View() == old(dec.dict.View())
    ensures match ReadChunk(x, old(dec.dict.View()), n, old(r.Rest()))
            case Ok(p) => err == None && data.View() == p.value && r.Rest() == p.rest
            case Err(e) => err == Some(r.Seen(e))
  {
    hide DecodeChunk;
    var none := new byte[0];
    data := Slice(none, 0);
    comp, err := FillScratch(r, scratch, x.index.chunks[n].compLength);
    if err.Some? {
      return data, comp, Some(ReadChunkBody(n, err.value));
    }
    DecodeErrorsStand(x, dec.dict.View(), n, comp.View(), r.fault);
    data, err := DecodeInto(x, dec, n, comp);
  }

  /** What goes wrong behind the read is no end of the input. */
  lemma DecodeErrorsStand(x: Setup, dict: Bytes, n: nat, comp: Bytes, fault: Option<int>)
    requires n < |x.index.chunks|
    ensures var d := DecodeChunk(x, dict, n, comp); d.Err? ==> Faulted(d.error, fault) == d.error
  {
    hide Decompressed;
  }

  method DecodeInto(x: Setup, dec: ChunkDecoder, n: nat, comp: Slice) returns (data: Slice, err: Option<Error>)
    requires n < |x.index.chunks| && x.codec == dec.codec && x.ct == dec.ct
    requires dec.Valid() && comp.Fits() && comp.arr != dec.dst.arr
    modifies dec, dec.dst.arr
    ensures dec.Valid() && data.Fits()
    ensures dec.dst.arr == old(dec.dst.arr) || fresh(dec.dst.arr)
    ensures data.arr == dec.dst.arr || fresh(data.arr)
    ensures dec.dict.View() == old(dec.dict.View())
    ensures match DecodeChunk(x, old(dec.dict.View()), n, old(comp.View()))
            case Ok(d) => err == None && data.View() == d
            case Err(e) => err == Some(e)
  {
    hide Decompressed;
    var e := x.index.chunks[n];
    var none := new byte[0];
    data, err := Slice(none, 0), None;
    if e.compLength == 0 {
      return;
    }
    if x.h(x.index.ckType, comp.arr[..comp.len]) != e.digest {
      return data, Some(DigestMismatch(n));
    }
    var plain := dec.Decompress(comp, e.length);
    if plain.Err? {
      return data, Some(InChunk(n, plain.error));
    }
    if e.uncompressedDigest.Some? {
      if x.h(x.index.ckType, plain.value.arr[..plain.value.len]) != e.uncompressedDigest.value {
        return data, Some(UncompressedDigestMismatch(n));
      }
    }
    data := plain.value;
  }

  /** How an outcome's error shows when the body is read from r. */
  function SeenAll(r: Reader, err: Option<Error>): Option<Error> {
    if err.Some? then Some(r.Seen(err.value)) else None
  }

  /**
   `Index.Extract`. The dictionary is a slice of the first decoder's destination; the second
   decoder reads it while it and the scratch buffer are overwritten chunk after chunk.
   */
  method Extract(x: Setup, r: Reader, out: Sink) returns (written: nat, err: Option<Error>)
    requires r.Valid() && x.out == Continued(out.writer, out.data)
    modifies r`pos, out
    ensures r.Valid()
    ensures var o := ExtractBody(x, old(r.Rest()));
            && out.data == old(out.data) + o.out && written == |o.out| && err == SeenAll(r, o.err)
            && (err.None? ==> r.Rest() == o.rest)
  {
    hide ReadChunk, ExtractFrom, DecoderLoads;
    written, err := 0, None;
    ghost var body := r.Rest();
    assert out.data + [] == out.data;
    if !Known(x.index.ckType) {
      return 0, Some(UnknownChecksumType(x.index.ckType));
    }
    if !ValidCompression(x.ct) {
      return 0, Some(UnknownCompression(x.ct));
    }
    if |x.index.chunks| == 0 {
      return;
    }
    var none := new byte[0];
    var scratch := new byte[0];
    var dictDec := new ChunkDecoder(x.codec, x.ct, Slice(none, 0));
    assert Slice(none, 0).View() == [];
    var dict, comp, derr := ReadChunkCode(x, r, dictDec, 0, Slice(scratch, 0));
    if derr.Some? {
      return 0, derr;
    }
    if !DecoderLoads(x.codec, x.ct, dict.arr[..dict.len]) {
      return 0, Some(DictionaryRejected);
    }
    var dec := new ChunkDecoder(x.codec, x.ct, dict);
    written, err := ExtractData(x, r, dec, comp, out);
  }

  /** The loop of `Index.Extract` over the data chunks. */
  method ExtractData(x: Setup, r: Reader, dec: ChunkDecoder, scratch: Slice, out: Sink)
    returns (written: nat, err: Option<Error>)
    requires |x.index.chunks| > 0 && r.Valid() && dec.Valid() && scratch.Fits()
    requires dec.codec == x.codec && dec.ct == x.ct
    requires scratch.arr != dec.dst.arr && scratch.arr != dec.dict.arr
    requires x.out == Continued(out.writer, out.data)
    modifies r`pos, out, dec, dec.dst.arr, scratch.arr
    ensures r.Valid()
    ensures var o := ExtractFrom(x, old(dec.dict.View()), 1, old(r.Rest()), []);
            && out.data == old(out.data) + o.out && written == |o.out| && err == SeenAll(r, o.err)
            && (err.None? ==> r.Rest() == o.rest)
  {
    hide ReadChunk, ExtractFrom;
    written, err := 0, None;
    ghost var content, whole := dec.dict.View(), r.Rest();
    ghost var from, put: Bytes := out.data, [];
    var comp := scratch;
    var n := 1;
    while n < |x.index.chunks|
      invariant 1 <= n <= |x.index.chunks| && r.Valid() && dec.Valid() && comp.Fits()
      invariant (comp.arr == scratch.arr || fresh(comp.arr)) && (dec.dst.arr == old(dec.dst.arr) || fresh(dec.dst.arr))
      invariant comp.arr != dec.dst.arr && comp.arr != dec.dict.arr
      invariant dec.dict.View() == content
      invariant out.data == from + put && written == |put| && err.None?
      invariant ExtractFrom(x, content, 1, whole, []) == ExtractFrom(x, content, n, r.Rest(), put)
    {
      var data;
      ghost var s := r.Rest();
      data, comp, err := ReadChunkCode(x, r, dec, n, comp);
      if err.Some? {
        StopAtRead(x, content, n, s, put);
        return;
      }
      var a := out.Write(data.arr[..data.len]);
      written := written + a.n;
      StepWrite(x, content, n, s, put);
      Assoc(from, put, data.View()[..a.n]);
      put := put + data.View()[..a.n];
      if a.err.Some? {
        return written, Some(WriteChunk(n, a.err.value));
      }
      n := n + 1;
    }
    StopAtEnd(x, content, n, r.Rest(), put);
  }

  lemma StopAtRead(x: Setup, dict: Bytes, n: nat, s: Bytes, out: Bytes)
    requires n < |x.index.chunks| && ReadChunk(x, dict, n, s).Err?
    ensures ExtractFrom(x, dict, n, s, out) == Extracted(out, s, Some(ReadChunk(x, dict, n, s).error))
  {
  }

  lemma StepWrite(x: Setup, dict: Bytes, n: nat, s: Bytes, out: Bytes)
    requires n < |x.index.chunks| && ReadChunk(x, dict, n, s).Ok?
    ensures var p := ReadChunk(x, dict, n, s).value;
            var a := x.out(out, p.value);
            var more := out + p.value[..a.n];
            ExtractFrom(x, dict, n, s, out) ==
              if a.err.Some? then Extracted(more, p.rest, Some(WriteChunk(n, a.err.value)))
              else ExtractFrom(x, dict, n + 1, p.rest, more)
  {
    hide ReadChunk;
  }

  lemma StopAtEnd(x: Setup, dict: Bytes, n: nat, s: Bytes, out: Bytes)
    requires n >= |x.index.chunks|
    ensures ExtractFrom(x, dict, n, s, out) == Extracted(out, s, None)
  {
  }
}
