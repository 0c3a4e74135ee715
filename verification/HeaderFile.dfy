/** Assembling a header and a whole file from their parts, and parsing the parts back in order. */
module HeaderFile {
  import opened Base
  import opened CompressedInt
  import opened Checksum
  import opened LeadFormat
  import opened PrefaceFormat
  import opened ChunkIndex

  // ---------------------------------------------------------------- signatures

  function ParseSignatures(s: Bytes): Result<Parsed<nat>> {
    var count :- Decode(s);
    if count.value > 0 then Err(SignaturesUnsupported(count.value)) else Ok(Parsed(0, count.rest))
  }

  function PrintSignatures(count: nat): Result<Bytes> {
    if count > 0 then Err(SignaturesUnsupported(count)) else Ok(Encode(count))
  }

  method ReadSignatures(r: Reader) returns (res: Result<nat>)
    requires r.Valid()
    modifies r`pos
    ensures r.Valid() && old(r.pos) <= r.pos
    ensures match ParseSignatures(old(r.Rest()))
            case Ok(p) => res == Ok(p.value) && r.Rest() == p.rest
            case Err(e) => res == Err(r.Seen(e))
  {
    var count := ReadCompressedInt(r);
    if count.Err? {
      return Err(count.error);
    }
    if count.value > 0 {
      return Err(SignaturesUnsupported(count.value));
    }
    res := Ok(0);
  }

  /** `Signatures.WriteTo`. */
  method WriteSignatures(count: uint64, out: Sink) returns (n: nat, err: Option<Error>)
    modifies out
    ensures Written(out.data, n, err) == WriteOnce(out.writer, old(out.data), PrintSignatures(count))
  {
    if count > 0 {
      return 0, Some(SignaturesUnsupported(count));
    }
    var buf := AppendCompressedInt([], count);
    assert buf == Encode(count);
    var a := out.Write(buf);
    n, err := a.n, a.err;
  }

  // ---------------------------------------------------------------- the header as a function of its parts

  /** Everything a header and its file are built from. The checksum in `preface` is ignored. */
  datatype Parts = Parts(overall: nat, preface: Preface, index: Index, signatures: uint64, body: Bytes)

  predicate HasUncompressedSource(parts: Parts) {
    UncompressedSource(parts.preface.flags)
  }

  /** The preface as written: with the body's checksum, or zeros when the flag suppresses it. */
  function FilledPreface(h: Hasher, parts: Parts): Preface {
    var sum := if HasUncompressedSource(parts) then seq(SizeOf(parts.overall), i => 0)
               else h(parts.overall, parts.body);
    parts.preface.(dataChecksum := sum)
  }

  /** Preface, index and signatures, in the order written. */
  function HeaderBody(h: Hasher, parts: Parts): Result<Bytes> {
    var p :- PrintPreface(FilledPreface(h, parts));
    var i :- PrintIndex(parts.index, HasUncompressedSource(parts));
    var g :- PrintSignatures(parts.signatures);
    Ok(p + (i + g))
  }

  function HeaderChecksum(h: Hasher, t: nat, header: Bytes): Bytes {
    h(t, ChecksumInput(t, |header|, header))
  }

  function Header(h: Hasher, magic: Bytes, parts: Parts): Result<Bytes> {
    var size :- Size(parts.overall);
    var hb :- HeaderBody(h, parts);
    Ok(LeadBytes(magic, parts.overall, |hb|, HeaderChecksum(h, parts.overall, hb)) + hb)
  }

  /** What `WriteFile` writes. */
  function File(h: Hasher, parts: Parts): Result<Bytes> {
    var header :- Header(h, MAGIC, parts);
    Ok(header + parts.body)
  }

  // ---------------------------------------------------------------- parsing in order

  datatype Fields = Fields(preface: Preface, index: Index, signatures: nat)

  function ParseFields(s: Bytes, ckType: nat): Result<Parsed<Fields>> {
    var p :- ParsePreface(s, ckType);
    var i :- ParseIndex(p.rest, UncompressedSource(p.value.flags));
    var g :- ParseSignatures(i.rest);
    Ok(Parsed(Fields(p.value, i.value, g.value), g.rest))
  }

  /** The fields a reader must get back. */
  function FieldsOf(h: Hasher, parts: Parts): Fields {
    Fields(FilledPreface(h, parts), VisibleIndex(parts.index, HasUncompressedSource(parts)), 0)
  }

  /** The lead a reader must get back. */
  function LeadOf(h: Hasher, detached: bool, parts: Parts): Lead
    requires Known(parts.overall) && HeaderBody(h, parts).Ok? && |HeaderBody(h, parts).value| < TWO64
  {
    var hb := HeaderBody(h, parts).value;
    Lead(detached, parts.overall, |hb|, HeaderChecksum(h, parts.overall, hb))
  }

  // ---------------------------------------------------------------- properties

  /** A header of realistic length has only lengths and counts that a uint64 holds. */
  lemma PartsFit(h: Hasher, parts: Parts)
    requires HeaderBody(h, parts).Ok? && |HeaderBody(h, parts).value| < TWO64
    ensures LengthsFit(parts.preface.elements)
    ensures |parts.index.chunks| < TWO64 && |IndexBody(parts.index, HasUncompressedSource(parts))| < TWO64
  {
    hide Encode, PrintElements, PrintEntries;
    ElementsFit(parts.preface.elements);
    EntriesFit(parts.index.chunks, HasUncompressedSource(parts));
    var n := |PrintPreface(FilledPreface(h, parts)).value|;
    assert parts.preface.elements != [] ==> |PrintElements(parts.preface.elements)| <= n < TWO64;
  }

  /** The three sections come back, and the reader stands right behind them. */
  lemma FieldsRoundTrip(h: Hasher, parts: Parts, rest: Bytes)
    requires Known(parts.overall)
    requires HeaderBody(h, parts).Ok? && |HeaderBody(h, parts).value| < TWO64
    ensures ParseFields(HeaderBody(h, parts).value + rest, parts.overall) == Ok(Parsed(FieldsOf(h, parts), rest))
  {
    hide Decode, Encode, PrintPreface, ParsePreface, PrintIndex, ParseIndex, VisibleIndex, LengthsFit, IndexBody;
    var p := FilledPreface(h, parts);
    var us := HasUncompressedSource(parts);
    var pb, ib, gb := PrintPreface(p).value, PrintIndex(parts.index, us).value, Encode(0);
    Assoc(pb, ib + gb, rest);
    Assoc(ib, gb, rest);
    PartsFit(h, parts);
    PrefaceRoundTrip(p, parts.overall, ib + (gb + rest));
    IndexRoundTrip(parts.index, us, gb + rest);
    DecodeEncode(0, rest);
  }

  /** The fields of an accepted header, printed again. */
  function FieldsBytes(v: Fields): Result<Bytes> {
    var p :- PrintPreface(v.preface);
    var i :- PrintIndex(v.index, UncompressedSource(v.preface.flags));
    Ok(p + (i + Encode(0)))
  }

  /** Accepted sections print again to no more bytes, to equally many only if they are the same, and reparse. */
  lemma FieldsCanonical(s: Bytes, ckType: nat, rest: Bytes)
    requires ParseFields(s, ckType).Ok? && PrintPreface(ParseFields(s, ckType).value.value.preface).Ok?
    ensures var p := ParseFields(s, ckType).value;
            && Known(ckType) && FieldsBytes(p.value).Ok?
            && Reprints(s, FieldsBytes(p.value).value, p.rest)
            && ParseFields(FieldsBytes(p.value).value + rest, ckType) == Ok(Parsed(p.value, rest))
  {
    hide Decode, Encode, ParsePreface, ParseIndex, PrintPreface, PrintIndex, VisibleIndex, Reprints;
    var p := ParsePreface(s, ckType).value;
    var us := UncompressedSource(p.value.flags);
    var i := ParseIndex(p.rest, us).value;
    var g := Decode(i.rest).value;
    IndexCanonical(p.rest, us, Encode(0) + rest);
    var pb, ib, gb := PrintPreface(p.value).value, PrintIndex(i.value, us).value, Encode(0);
    PrefaceCanonical(s, ckType, ib + (gb + rest));
    ReprintsInt(i.rest);
    DecodeEncode(0, rest);
    ReprintsSeq(p.rest, ib, i.rest, gb, g.rest);
    ReprintsSeq(s, pb, p.rest, ib + gb, g.rest);
    Assoc(pb, ib + gb, rest);
    Assoc(ib, gb, rest);
  }

  /** A header with either magic reads back, verifies, and ends where its body begins. */
  lemma HeaderRoundTrip(h: Hasher, detached: bool, parts: Parts, rest: Bytes)
    requires Header(h, MagicOf(detached), parts).Ok?
    requires |HeaderBody(h, parts).value| < TWO64
    ensures var header := Header(h, MagicOf(detached), parts).value;
            var lead := LeadOf(h, detached, parts);
            var hb := HeaderBody(h, parts).value;
            && Known(parts.overall)
            && ParseLead(header + rest) == Ok(Parsed(lead, hb + rest))
            && Verify(h, lead, hb) == None
            && |header| == RecomputedLength(lead) + |hb|
            && ParseFields(hb + rest, parts.overall) == Ok(Parsed(FieldsOf(h, parts), rest))
  {
    hide Decode, Encode, ParseLead, LeadBytes, ChecksumInput, RecomputedLength, HeaderBody, ParseFields;
    var hb := HeaderBody(h, parts).value;
    var lead := LeadOf(h, detached, parts);
    var lb := PrintLead(lead).value;
    Assoc(lb, hb, rest);
    LeadRoundTrip(lead, hb + rest);
    FieldsRoundTrip(h, parts, rest);
  }

  /**
   Whole-file round trip: reading a written file gives back lead, preface, index and signatures,
   the header verifies, and the reader is left exactly at the body, which starts where the lead
   length and the header size say.
   */
  lemma FileRoundTrip(h: Hasher, parts: Parts)
    requires File(h, parts).Ok? && |File(h, parts).value| < TWO63
    ensures |HeaderBody(h, parts).value| < TWO64 && Known(parts.overall)
    ensures var f := File(h, parts).value;
            var lead := LeadOf(h, false, parts);
            var hb := HeaderBody(h, parts).value;
            && ParseLead(f) == Ok(Parsed(lead, hb + parts.body))
            && Verify(h, lead, hb) == None
            && ParseFields(hb + parts.body, lead.ckType) == Ok(Parsed(FieldsOf(h, parts), parts.body))
            && RecomputedLength(lead) + lead.headerSize == |f| - |parts.body|
            && f[RecomputedLength(lead) + lead.headerSize..] == parts.body
  {
    hide HeaderBody, ParseLead, ParseFields, LeadBytes, Verify;
    HeaderRoundTrip(h, false, parts, parts.body);
    var header := Header(h, MAGIC, parts).value;
    assert (header + parts.body)[|header|..] == parts.body;
  }

  /** A built header, byte for byte, with the digest that its lead carries. */
  lemma HeaderIsSpelt(h: Hasher, detached: bool, parts: Parts)
    requires Header(h, MagicOf(detached), parts).Ok?
    ensures HeaderBody(h, parts).Ok?
    ensures var hb := HeaderBody(h, parts).value;
            var sum := h(parts.overall, SpeltInput(parts.overall, |hb|, hb));
            var magic: Bytes := if detached then [0x00, 0x5A, 0x48, 0x52, 0x31] else [0x00, 0x5A, 0x43, 0x4B, 0x31];
            Header(h, MagicOf(detached), parts).value == (magic + (Encode(parts.overall) + (Encode(|hb|) + sum))) + hb
  {
    hide Encode, HeaderBody, SpeltInput, ChecksumInput;
    var hb := HeaderBody(h, parts).value;
    InputIsSpelt(parts.overall, |hb|, hb);
  }

  /** Nothing about the magic enters the header but its own five bytes. */
  lemma DetachedDiffersInMagic(h: Hasher, parts: Parts)
    ensures Header(h, MAGIC, parts).Ok? == Header(h, DETACHED_MAGIC, parts).Ok?
    ensures Header(h, MAGIC, parts).Ok? ==>
              && |Header(h, MAGIC, parts).value| >= 5
              && Header(h, DETACHED_MAGIC, parts).value == DETACHED_MAGIC + Header(h, MAGIC, parts).value[5..]
              && Header(h, MAGIC, parts).value == MAGIC + Header(h, DETACHED_MAGIC, parts).value[5..]
  {
    hide HeaderBody, Encode, HeaderChecksum;
    if Header(h, MAGIC, parts).Ok? {
      var hb := HeaderBody(h, parts).value;
      var tail := Encode(parts.overall) + (Encode(|hb|) + HeaderChecksum(h, parts.overall, hb));
      Assoc(MAGIC, tail, hb);
      Assoc(DETACHED_MAGIC, tail, hb);
      assert (MAGIC + (tail + hb))[5..] == tail + hb;
      assert (DETACHED_MAGIC + (tail + hb))[5..] == tail + hb;
    }
  }

  // ---------------------------------------------------------------- the code

  /** `ReadPreface`, `ReadIndex` and `ReadSignatures`, one after the other. */
  method ReadFields(r: Reader, ckType: nat) returns (res: Result<Fields>)
    requires r.Valid()
    modifies r`pos
    ensures r.Valid() && old(r.pos) <= r.pos
    ensures match ParseFields(old(r.Rest()), ckType)
            case Ok(p) => res == Ok(p.value) && r.Rest() == p.rest
            case Err(e) => res == Err(r.Seen(e))
  {
    hide ParsePreface, ParseIndex, ParseSignatures, UncompressedSource, Faulted;
    var p := ReadPreface(r, ckType);
    if p.Err? {
      return Err(p.error);
    }
    var i := ReadIndex(r, UncompressedSource(p.value.flags));
    if i.Err? {
      return Err(i.error);
    }
    var g := ReadSignatures(r);
    if g.Err? {
      return Err(g.error);
    }
    res := Ok(Fields(p.value, i.value, g.value));
  }

  /** `buildHeader`: the caller's preface is copied, not changed. */
  method BuildHeader(h: Hasher, magic: Bytes, parts: Parts) returns (res: Result<Bytes>)
    requires LengthsFit(parts.preface.elements)
    requires |parts.index.chunks| < TWO64 && |IndexBody(parts.index, HasUncompressedSource(parts))| < TWO64
    requires HeaderBody(h, parts).Ok? ==> |HeaderBody(h, parts).value| < TWO64
    ensures res == Header(h, magic, parts)
  {
    hide Encode, IndexBody, PrintPreface, PrintIndex;
    var size := Size(parts.overall);
    if size.Err? {
      return Err(size.error);
    }
    var p := parts.preface;
    if UncompressedSource(p.flags) {
      p := p.(dataChecksum := seq(size.value, i => 0));
    } else {
      p := p.(dataChecksum := h(parts.overall, parts.body));
    }
    assert p == FilledPreface(h, parts);
    res := SerialiseSections(h, p, parts);
    if res.Ok? {
      var out := FinishHeader(h, magic, parts.overall, res.value);
      res := Ok(out);
    }
  }

  /** Preface, index and signatures are written one after the other to a buffer. */
  method SerialiseSections(h: Hasher, p: Preface, parts: Parts) returns (res: Result<Bytes>)
    requires p == FilledPreface(h, parts) && LengthsFit(p.elements)
    requires |parts.index.chunks| < TWO64 && |IndexBody(parts.index, HasUncompressedSource(parts))| < TWO64
    ensures res == HeaderBody(h, parts)
  {
    hide Encode, IndexBody, PrintPreface, PrintIndex;
    var hdr := new Sink(BufferWriter());
    var n, err := WritePreface(p, hdr);
    if err.Some? {
      return Err(err.value);
    }
    ghost var pb := PrintPreface(p).value;
    assert hdr.data == pb;
    n, err := WriteIndex(parts.index, UncompressedSource(p.flags), hdr);
    if err.Some? {
      return Err(err.value);
    }
    ghost var ib := PrintIndex(parts.index, HasUncompressedSource(parts)).value;
    assert hdr.data == pb + ib;
    n, err := WriteSignatures(parts.signatures, hdr);
    if err.Some? {
      return Err(err.value);
    }
    ghost var gb := PrintSignatures(parts.signatures).value;
    assert hdr.data == (pb + ib) + gb;
    Assoc(pb, ib, gb);
    res := Ok(hdr.data);
  }

  method FinishHeader(h: Hasher, magic: Bytes, t: nat, hdr: Bytes) returns (out: Bytes)
    requires Known(t) && |hdr| < TWO64
    ensures out == LeadBytes(magic, t, |hdr|, HeaderChecksum(h, t, hdr)) + hdr
  {
    hide Encode;
    var toHash := AppendCompressedInt(MAGIC, t);
    toHash := AppendCompressedInt(toHash, |hdr|);
    assert toHash + hdr == ChecksumInput(t, |hdr|, hdr);
    toHash := toHash + hdr;
    var checksum := h(t, toHash);
    out := AppendCompressedInt(magic, t);
    out := AppendCompressedInt(out, |hdr|);
    out := out + checksum;
    assert out == LeadBytes(magic, t, |hdr|, checksum) by {
      Assoc(magic + Encode(t), Encode(|hdr|), checksum);
      Assoc(magic, Encode(t), Encode(|hdr|) + checksum);
    }
    out := out + hdr;
  }

  /** `WriteFile`: header and body in one write. */
  method WriteFile(h: Hasher, parts: Parts, out: Sink) returns (n: nat, err: Option<Error>)
    requires LengthsFit(parts.preface.elements)
    requires |parts.index.chunks| < TWO64 && |IndexBody(parts.index, HasUncompressedSource(parts))| < TWO64
    requires HeaderBody(h, parts).Ok? ==> |HeaderBody(h, parts).value| < TWO64
    modifies out
    ensures Written(out.data, n, err) == WriteOnce(out.writer, old(out.data), File(h, parts))
  {
    var header := BuildHeader(h, MAGIC, parts);
    if header.Err? {
      return 0, Some(header.error);
    }
    var a := out.Write(header.value + parts.body);
    n, err := a.n, a.err;
  }

  /** `WriteDetachedHeader`: no body. */
  method WriteDetachedHeader(h: Hasher, parts: Parts, out: Sink) returns (n: nat, err: Option<Error>)
    requires LengthsFit(parts.preface.elements)
    requires |parts.index.chunks| < TWO64 && |IndexBody(parts.index, HasUncompressedSource(parts))| < TWO64
    requires HeaderBody(h, parts).Ok? ==> |HeaderBody(h, parts).value| < TWO64
    modifies out
    ensures Written(out.data, n, err) == WriteOnce(out.writer, old(out.data), Header(h, DETACHED_MAGIC, parts))
  {
    var header := BuildHeader(h, DETACHED_MAGIC, parts);
    if header.Err? {
      return 0, Some(header.error);
    }
    var a := out.Write(header.value);
    n, err := a.n, a.err;
  }
}
