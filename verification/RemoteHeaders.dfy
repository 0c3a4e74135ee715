/** Reading a header from a byte-range source or a stream, and the command that cuts a header out of a file. */
module RemoteHeaders {
  import opened Base
  import opened CompressedInt
  import opened Checksum
  import opened LeadFormat
  import opened PrefaceFormat
  import opened ChunkIndex
  import opened HeaderFile

  datatype RemoteHeader = RemoteHeader(lead: Lead, preface: Preface, index: Index, signatures: nat,
                                       headerBytes: Bytes, bodyOffset: nat)

  /** `parseHeader`: verify first, then parse; bytes left over in the header are ignored. */
  function ParseHeader(h: Hasher, lead: Lead, leadBytes: Bytes, header: Bytes): Result<RemoteHeader> {
    var err := Verify(h, lead, header);
    if err.Some? then Err(err.value) else
      match ParseFields(header, lead.ckType)
      case Err(e) => Err(InHeader(e))
      case Ok(p) => Ok(RemoteHeader(lead, p.value.preface, p.value.index, p.value.signatures,
                                    leadBytes + header, |leadBytes| + |header|))
  }

  /** What the two-request reader yields. */
  function FetchedHeader(h: Hasher, remote: RangeReader): Result<RemoteHeader> {
    var prefix :- remote(0, MAX_LEAD_PREFIX);
    var lead :- ParseLead(prefix);
    RecomputedLengthBound(prefix);
    var n := RecomputedLength(lead.value);
    var header :- remote(n, ToInt64(lead.value.headerSize));
    if |header| != ToInt64(lead.value.headerSize) then Err(ShortHeader)
    else ParseHeader(h, lead.value, prefix[..n], header)
  }

  /** What the streaming reader yields. */
  function StreamedHeader(h: Hasher, s: Bytes): Result<Parsed<RemoteHeader>> {
    var lead :- ParseLead(s);
    RecomputedLengthBound(s);
    var header :- TakeFull(lead.rest, lead.value.headerSize);
    var rh :- ParseHeader(h, lead.value, s[..|s| - |lead.rest|], header.value);
    Ok(Parsed(rh, header.rest))
  }

  /** A source that serves a file honestly, cutting requests off at its end. */
  function Serving(f: Bytes): RangeReader {
    (offset: int, length: int) =>
      if offset < 0 || length < 0 then Err(External(0))
      else Ok(f[Min(offset, |f|)..Min(offset + length, |f|)])
  }

  /** The header of a written file or of its detached form, as a reader must see it. */
  function WrittenHeader(h: Hasher, detached: bool, parts: Parts): RemoteHeader
    requires Header(h, MagicOf(detached), parts).Ok? && |HeaderBody(h, parts).value| < TWO64
  {
    var header := Header(h, MagicOf(detached), parts).value;
    var fields := FieldsOf(h, parts);
    RemoteHeader(LeadOf(h, detached, parts), fields.preface, fields.index, fields.signatures, header, |header|)
  }

  /** The header bytes of the full file that a download reproduces. */
  function RestoredHeader(rh: RemoteHeader): Bytes {
    if rh.lead.detached && |rh.headerBytes| >= |DETACHED_MAGIC| then
      MAGIC + rh.headerBytes[|DETACHED_MAGIC|..]
    else
      rh.headerBytes
  }

  /**
   What the `header` command writes for a full file f. The length is an int64 sum; making a buffer
   of a negative length, or reaching for five bytes in a shorter one, is a panic.
   */
  function CutHeader(f: Bytes): Result<Bytes> {
    var lead :- ParseLead(f);
    RecomputedLengthBound(f);
    var n := Int64(|f| - |lead.rest| + ToInt64(lead.value.headerSize));
    if n < |DETACHED_MAGIC| then Err(BadLength(n))
    else if |f| < n then Err(EndOfInput)
    else Ok(DETACHED_MAGIC + f[|DETACHED_MAGIC|..n])
  }

  // ---------------------------------------------------------------- properties

  lemma ServedPrefix(f: Bytes)
    ensures Serving(f)(0, MAX_LEAD_PREFIX) == Ok(f[..Min(MAX_LEAD_PREFIX, |f|)])
  {
    assert f[Min(0, |f|)..Min(0 + MAX_LEAD_PREFIX, |f|)] == f[..Min(MAX_LEAD_PREFIX, |f|)];
  }

  /** On the front part of a file, ReadLead answers as on the whole file. */
  lemma LeadOfPrefix(f: Bytes, k: nat)
    requires MAX_LEAD_PREFIX <= k
    ensures var prefix := f[..Min(k, |f|)];
            && ParseLead(prefix).Ok? == ParseLead(f).Ok?
            && (ParseLead(f).Ok? ==>
                  && |ParseLead(f).value.rest| <= |f| && |f| - |ParseLead(f).value.rest| <= |prefix|
                  && ParseLead(prefix)
                      == Ok(Parsed(ParseLead(f).value.value, prefix[|f| - |ParseLead(f).value.rest|..])))
  {
    hide ParseLead;
    var prefix := f[..Min(k, |f|)];
    if ParseLead(prefix).Ok? {
      LeadExtends(prefix, f[|prefix|..]);
      assert prefix + f[|prefix|..] == f;
    }
    if ParseLead(f).Ok? {
      LeadIsShort(f);
      LeadReframe(f, prefix[|f| - |ParseLead(f).value.rest|..]);
      assert f[..|f| - |ParseLead(f).value.rest|] + prefix[|f| - |ParseLead(f).value.rest|..] == prefix;
    }
  }

  lemma LeadIsShort(f: Bytes)
    requires ParseLead(f).Ok?
    ensures |ParseLead(f).value.rest| <= |f| && |f| - |ParseLead(f).value.rest| <= MAX_LEAD_PREFIX
  {
    RecomputedLengthBound(f);
  }

  lemma LeadExtends(s: Bytes, more: Bytes)
    requires ParseLead(s).Ok?
    ensures ParseLead(s + more).Ok?
  {
    hide ParseLead;
    var rest := ParseLead(s).value.rest;
    TakenIsPrefix(s);
    LeadReframe(s, rest + more);
    Assoc(s[..|s| - |rest|], rest, more);
  }

  lemma TakenIsPrefix(s: Bytes)
    requires ParseLead(s).Ok?
    ensures |ParseLead(s).value.rest| <= |s|
    ensures s == s[..|s| - |ParseLead(s).value.rest|] + ParseLead(s).value.rest
  {
    var e, f := LeadShape(s);
    var p := ParseLead(s).value;
    Regroup(MagicOf(p.value.detached), e, f, p.value.headerChecksum, p.rest);
    TakeFullAppend(MagicOf(p.value.detached) + (e + (f + p.value.headerChecksum)), p.rest);
  }

  /**
   On every file that does not start with a lead holding padded integers, the two-request reader
   and the streaming reader accept the same headers and return the same values.
   */
  lemma ReadersAgree(h: Hasher, f: Bytes)
    requires |f| < TWO63
    requires ParseLead(f).Ok? ==> |f| - |ParseLead(f).value.rest| == RecomputedLength(ParseLead(f).value.value)
    ensures FetchedHeader(h, Serving(f)).Ok? == StreamedHeader(h, f).Ok?
    ensures FetchedHeader(h, Serving(f)).Ok? ==> FetchedHeader(h, Serving(f)).value == StreamedHeader(h, f).value.value
  {
    hide ParseLead, ParseHeader, RecomputedLength, FetchedHeader, StreamedHeader;
    if ParseLead(f).Err? {
      NeitherReads(h, f);
    } else if ParseLead(f).value.value.headerSize <= |ParseLead(f).value.rest| {
      var p := ParseLead(f).value;
      TakenIsPrefix(f);
      FetchedFrom(h, f);
      StreamedFrom(h, f);
      var n, size := RecomputedLength(p.value), p.value.headerSize;
      assert f[n..n + size] == f[n..][..size];
    } else {
      BothRunShort(h, f);
    }
  }

  lemma NeitherReads(h: Hasher, f: Bytes)
    requires ParseLead(f).Err?
    ensures FetchedHeader(h, Serving(f)).Err? && StreamedHeader(h, f).Err?
  {
    hide ParseLead, ParseHeader;
    LeadOfPrefix(f, MAX_LEAD_PREFIX);
    ServedPrefix(f);
  }

  lemma BothRunShort(h: Hasher, f: Bytes)
    requires |f| < TWO63 && ParseLead(f).Ok?
    requires ParseLead(f).value.value.headerSize > |ParseLead(f).value.rest|
    requires |f| - |ParseLead(f).value.rest| == RecomputedLength(ParseLead(f).value.value)
    ensures FetchedHeader(h, Serving(f)).Err? && StreamedHeader(h, f).Err?
  {
    hide ParseLead, ParseHeader, RecomputedLength;
    LeadOfPrefix(f, MAX_LEAD_PREFIX);
    ServedPrefix(f);
    var lead := ParseLead(f).value.value;
    var n, size := RecomputedLength(lead), lead.headerSize;
    if size < TWO63 {
      assert |f[Min(n, |f|)..Min(n + size, |f|)]| < size;
    }
  }

  lemma StreamedFrom(h: Hasher, f: Bytes)
    requires ParseLead(f).Ok? && ParseLead(f).value.value.headerSize <= |ParseLead(f).value.rest|
    ensures |ParseLead(f).value.rest| <= |f|
    ensures var lead, rest := ParseLead(f).value.value, ParseLead(f).value.rest;
            var rh := ParseHeader(h, lead, f[..|f| - |rest|], rest[..lead.headerSize]);
            StreamedHeader(h, f) == if rh.Err? then Err(rh.error) else Ok(Parsed(rh.value, rest[lead.headerSize..]))
  {
    hide ParseLead, ParseHeader, RecomputedLength;
    RecomputedLengthBound(f);
  }

  /**
   Of a stream whose header is accepted, the two-request reader returns the same header if and
   only if the lead's integers are minimal: with padding it looks for the header too early.
   */
  lemma ReadersAgreeExactly(h: Hasher, f: Bytes)
    requires |f| < TWO63 && StreamedHeader(h, f).Ok?
    ensures FetchedHeader(h, Serving(f)) == Ok(StreamedHeader(h, f).value.value) <==>
            |f| - |ParseLead(f).value.rest| == RecomputedLength(ParseLead(f).value.value)
  {
    hide ParseLead, RecomputedLength, Verify, ParseFields;
    var p := ParseLead(f).value;
    RecomputedLengthBound(f);
    LeadOfPrefix(f, MAX_LEAD_PREFIX);
    ServedPrefix(f);
    if |f| - |p.rest| == RecomputedLength(p.value) {
      ReadersAgree(h, f);
    }
  }

  /**
   Any spelling of a written header's two integers is accepted by the streaming reader, with the
   fields unchanged; each padding byte puts the header one byte behind the recomputed lead length.
   */
  lemma PaddedLeadIsAccepted(h: Hasher, detached: bool, parts: Parts, e: Bytes, k: Bytes, rest: Bytes)
    requires Header(h, MagicOf(detached), parts).Ok? && |HeaderBody(h, parts).value| < TWO64
    requires IsCode(e) && |e| <= MAX_LEN && Value(e) == parts.overall
    requires IsCode(k) && |k| <= MAX_LEN && Value(k) == |HeaderBody(h, parts).value|
    ensures Known(parts.overall)
    ensures var hb := HeaderBody(h, parts).value;
            var lead := LeadOf(h, detached, parts);
            var lb := MagicOf(detached) + (e + (k + lead.headerChecksum));
            && StreamedHeader(h, lb + (hb + rest)) == Ok(Parsed(Respelt(h, detached, parts, lb), rest))
            && ParseLead(lb + (hb + rest)) == Ok(Parsed(lead, hb + rest))
            && |lb| - RecomputedLength(lead) == |e| - |Encode(parts.overall)| + |k| - |Encode(|hb|)|
  {
    hide ParseLead, ParseAfterMagic, ParseFields, HeaderBody, FieldsOf, Verify, Encode, IsCode, Value, HeaderChecksum;
    HeaderRoundTrip(h, detached, parts, rest);
    var hb := HeaderBody(h, parts).value;
    var lead := LeadOf(h, detached, parts);
    var m, sum := MagicOf(detached), lead.headerChecksum;
    var lb := m + (e + (k + sum));
    Regroup(m, e, k, sum, hb + rest);
    FieldsReadBack(detached, e, k, sum, hb + rest);
    ParseMagic(detached, e + (k + (sum + (hb + rest))));
    TakeFullAppend(lb, hb + rest);
    TakeFullAppend(hb, rest);
    FieldsRoundTrip(h, parts, []);
    assert hb + [] == hb;
  }

  /** A written header behind other lead bytes. */
  function Respelt(h: Hasher, detached: bool, parts: Parts, lb: Bytes): RemoteHeader
    requires Header(h, MagicOf(detached), parts).Ok? && |HeaderBody(h, parts).value| < TWO64
  {
    var header := lb + HeaderBody(h, parts).value;
    WrittenHeader(h, detached, parts).(headerBytes := header, bodyOffset := |header|)
  }

  /** Such leads exist: SHA-256 spelt in two bytes, so that the recomputed length falls one short. */
  lemma PaddedChecksumType(h: Hasher, parts: Parts, rest: Bytes)
    requires Header(h, MAGIC, parts).Ok? && |HeaderBody(h, parts).value| < TWO64 && parts.overall == SHA256
    ensures var hb := HeaderBody(h, parts).value;
            var lead := LeadOf(h, false, parts);
            var lb := MAGIC + ([0x01, 0x80] + (Encode(|hb|) + lead.headerChecksum));
            var s := lb + (hb + rest);
            && StreamedHeader(h, s) == Ok(Parsed(Respelt(h, false, parts, lb), rest))
            && |s| - |hb + rest| == RecomputedLength(lead) + 1
  {
    hide HeaderBody, ParseLead, StreamedHeader, LeadOf;
    var e: Bytes := [0x01, 0x80];
    assert Value(e[1..]) == 0 by {
      assert e[1..][1..] == [];
    }
    var n := |HeaderBody(h, parts).value|;
    EncodeIsCode(n);
    EncodeFits(n);
    PaddedLeadIsAccepted(h, false, parts, e, Encode(n), rest);
  }

  /**
   What the two-request reader makes of an accepted stream with a padded lead: it takes the header
   bytes from too early a place. Unless these are by chance the same bytes, the header checksum
   refuses them, barring a collision; if they are, it returns the fields with too small an offset.
   */
  lemma PaddedLeadIsRefused(h: Hasher, f: Bytes)
    requires |f| < TWO63 && StreamedHeader(h, f).Ok?
    requires RecomputedLength(ParseLead(f).value.value) < |f| - |ParseLead(f).value.rest|
    ensures var lead, rest := ParseLead(f).value.value, ParseLead(f).value.rest;
            var n, size := RecomputedLength(lead), lead.headerSize;
            && size <= |rest|
            && var header, shifted := rest[..size], f[n..n + size];
            && (shifted != header && !HeadersCollide(h, lead, shifted, header) ==>
                  FetchedHeader(h, Serving(f)) == Err(HeaderChecksumMismatch))
            && (shifted == header ==>
                  var rh := StreamedHeader(h, f).value.value;
                  FetchedHeader(h, Serving(f)) == Ok(rh.(headerBytes := f[..n] + header, bodyOffset := n + size)))
  {
    hide ParseLead, RecomputedLength, ParseFields, FetchedHeader, Verify, ChecksumInput;
    var p := ParseLead(f).value;
    RecomputedLengthBound(f);
    var n, size := RecomputedLength(p.value), p.value.headerSize;
    FetchedFrom(h, f);
    var header, shifted := p.rest[..size], f[n..n + size];
    if shifted != header && !HeadersCollide(h, p.value, shifted, header) {
      OtherHeaderRefused(h, p.value, header, shifted);
    }
  }

  /** Two headers have one checksum behind this lead. */
  ghost predicate HeadersCollide(h: Hasher, lead: Lead, a: Bytes, b: Bytes) {
    var t, n := lead.ckType, lead.headerSize;
    Collide(h, t, ChecksumInput(t, n, a), ChecksumInput(t, n, b))
  }

  /** When the header's bytes are all there, the range reader takes them from the recomputed place. */
  lemma FetchedFrom(h: Hasher, f: Bytes)
    requires |f| < TWO63 && ParseLead(f).Ok?
    requires ParseLead(f).value.value.headerSize <= |ParseLead(f).value.rest|
    ensures var lead := ParseLead(f).value.value;
            var n := RecomputedLength(lead);
            && n + lead.headerSize <= |f|
            && FetchedHeader(h, Serving(f)) == ParseHeader(h, lead, f[..n], f[n..n + lead.headerSize])
  {
    hide ParseLead, RecomputedLength, ParseHeader;
    var p := ParseLead(f).value;
    RecomputedLengthBound(f);
    var n, size := RecomputedLength(p.value), p.value.headerSize;
    LeadOfPrefix(f, MAX_LEAD_PREFIX);
    ServedPrefix(f);
    assert f[..Min(MAX_LEAD_PREFIX, |f|)][..n] == f[..n];
    assert f[Min(n, |f|)..Min(n + size, |f|)] == f[n..n + size];
  }

  lemma OtherHeaderRefused(h: Hasher, lead: Lead, header: Bytes, other: Bytes)
    requires Verify(h, lead, header) == None && other != header
    requires !HeadersCollide(h, lead, other, header)
    ensures Verify(h, lead, other) == Some(HeaderChecksumMismatch)
  {
    ChecksumInputInjective(lead.ckType, lead.headerSize, other, header);
  }

  lemma ChecksumInputInjective(t: nat, n: nat, a: Bytes, b: Bytes)
    requires a != b
    ensures ChecksumInput(t, n, a) != ChecksumInput(t, n, b)
  {
    var lead := LeadBytes(MAGIC, t, n, []);
    TakeFullAppend(lead, a);
    TakeFullAppend(lead, b);
  }

  /** An accepted header as the writer would have written its fields, with size and checksum to match. */
  function Reprint(h: Hasher, rh: RemoteHeader): Result<Bytes> {
    var hb :- FieldsBytes(Fields(rh.preface, rh.index, rh.signatures));
    var t := rh.lead.ckType;
    Ok(LeadBytes(MagicOf(rh.lead.detached), t, |hb|, HeaderChecksum(h, t, hb)) + hb)
  }

  /**
   The whole header is canonical: unless it has the optional-element flag with zero elements, an accepted
   header prints again to no more bytes than were consumed, to equally many only if they are the same
   bytes, and the new bytes are accepted with the same fields, whatever follows.
   */
  lemma HeaderCanonical(h: Hasher, s: Bytes, more: Bytes)
    requires StreamedHeader(h, s).Ok? && PrintPreface(StreamedHeader(h, s).value.value.preface).Ok?
    ensures var p := StreamedHeader(h, s).value;
            && Reprint(h, p.value).Ok?
            && Reprints(s, Reprint(h, p.value).value, p.rest)
            && var again := StreamedHeader(h, Reprint(h, p.value).value + more);
            && again.Ok? && again.value.rest == more
            && again.value.value.preface == p.value.preface && again.value.value.index == p.value.index
            && again.value.value.signatures == p.value.signatures
  {
    hide ParseLead, ParseFields, FieldsBytes, PrintPreface, LeadBytes, Verify, Reprints, ChecksumInput;
    hide RecomputedLength, HeaderChecksum;
    var lead, rest := ParseLead(s).value.value, ParseLead(s).value.rest;
    var header := TakeFull(rest, lead.headerSize).value;
    FieldsCanonical(header.value, lead.ckType, []);
    var hb := FieldsBytes(ParseFields(header.value, lead.ckType).value.value).value;
    HeaderReprints(h, s, hb);
    ReprintReads(h, lead, hb, more);
  }

  /** A reprint of the sections makes a reprint of the header around them. */
  lemma HeaderReprints(h: Hasher, s: Bytes, hb: Bytes)
    requires ParseLead(s).Ok? && TakeFull(ParseLead(s).value.rest, ParseLead(s).value.value.headerSize).Ok?
    requires var lead, rest := ParseLead(s).value.value, ParseLead(s).value.rest;
             var header := TakeFull(rest, lead.headerSize).value;
             && Verify(h, lead, header.value) == None
             && exists left :: Reprints(header.value, hb, left)
    ensures var lead, rest := ParseLead(s).value.value, ParseLead(s).value.rest;
            var lb := LeadBytes(MagicOf(lead.detached), lead.ckType, |hb|, HeaderChecksum(h, lead.ckType, hb));
            |hb| <= lead.headerSize && Reprints(s, lb + hb, TakeFull(rest, lead.headerSize).value.rest)
  {
    hide ParseLead, Encode, ChecksumInput;
    var lead, rest := ParseLead(s).value.value, ParseLead(s).value.rest;
    var header := TakeFull(rest, lead.headerSize).value;
    var left :| Reprints(header.value, hb, left);
    var lb := LeadBytes(MagicOf(lead.detached), lead.ckType, |hb|, HeaderChecksum(h, lead.ckType, hb));
    RecomputedLengthBound(s);
    EncodeMonotone(|hb|, lead.headerSize);
    LeadLength(h, lead, hb);
    if |lb + hb| + |header.rest| == |s| {
      assert left == [];
      assert hb + [] == hb;
      assert header.value == hb;
      Assoc(lb, hb, header.rest);
      TakeFullShape(rest, lead.headerSize);
    }
  }

  lemma LeadLength(h: Hasher, lead: Lead, hb: Bytes)
    requires Known(lead.ckType)
    ensures |LeadBytes(MagicOf(lead.detached), lead.ckType, |hb|, HeaderChecksum(h, lead.ckType, hb))|
         == RecomputedLength(lead) - |Encode(lead.headerSize)| + |Encode(|hb|)|
  {
  }

  lemma ReprintReads(h: Hasher, lead: Lead, hb: Bytes, more: Bytes)
    requires Known(lead.ckType) && |hb| < TWO64 && ParseFields(hb + [], lead.ckType).Ok?
    ensures var lb := LeadBytes(MagicOf(lead.detached), lead.ckType, |hb|, HeaderChecksum(h, lead.ckType, hb));
            var v := ParseFields(hb + [], lead.ckType).value.value;
            var again := StreamedHeader(h, (lb + hb) + more);
            && again.Ok? && again.value.rest == more
            && again.value.value.preface == v.preface && again.value.value.index == v.index
            && again.value.value.signatures == v.signatures
  {
    hide ParseLead, ParseFields, LeadBytes, RecomputedLength, ChecksumInput;
    var sum := HeaderChecksum(h, lead.ckType, hb);
    var made := Lead(lead.detached, lead.ckType, |hb|, sum);
    var lb := PrintLead(made).value;
    LeadRoundTrip(made, hb + more);
    Assoc(lb, hb, more);
    TakeFullAppend(lb, hb + more);
    TakeFullAppend(hb, more);
    assert hb + [] == hb;
  }

  /** A wrong checksum is reported before anything in the header is looked at. */
  lemma ChecksumComesFirst(h: Hasher, lead: Lead, leadBytes: Bytes, header: Bytes)
    requires lead.ckType <= 3 && h(lead.ckType, SpeltInput(lead.ckType, lead.headerSize, header)) != lead.headerChecksum
    ensures ParseHeader(h, lead, leadBytes, header) == Err(HeaderChecksumMismatch)
  {
    hide ParseFields, SpeltInput;
    VerifyExactly(h, lead, header);
  }

  /** Every reason for which the range reader fails, in the order of its two requests. */
  lemma FetchRefuses(h: Hasher, remote: RangeReader)
    ensures remote(0, 89).Err? ==> FetchedHeader(h, remote) == Err(remote(0, 89).error)
    ensures remote(0, 89).Ok? && ParseLead(remote(0, 89).value).Err? ==>
              FetchedHeader(h, remote) == Err(ParseLead(remote(0, 89).value).error)
    ensures remote(0, 89).Ok? && ParseLead(remote(0, 89).value).Ok? ==>
              var lead := ParseLead(remote(0, 89).value).value.value;
              var n := 5 + |Encode(lead.ckType)| + |Encode(lead.headerSize)| + SizeOf(lead.ckType);
              var header := remote(n, ToInt64(lead.headerSize));
              && (header.Err? ==> FetchedHeader(h, remote) == Err(header.error))
              && (header.Ok? && |header.value| != ToInt64(lead.headerSize) ==>
                  FetchedHeader(h, remote) == Err(ShortHeader))
              && (header.Ok? && |header.value| == ToInt64(lead.headerSize) ==>
                    && n <= |remote(0, 89).value|
                    && FetchedHeader(h, remote) == ParseHeader(h, lead, remote(0, 89).value[..n], header.value))
  {
    hide ParseLead, ParseHeader, Encode, PrintLead;
    if remote(0, 89).Ok? && ParseLead(remote(0, 89).value).Ok? {
      RecomputedLengthBound(remote(0, 89).value);
    }
  }

  /** The streaming reader fails on the lead, on a header that is not all there, and on what is in it. */
  lemma StreamRefuses(h: Hasher, s: Bytes)
    ensures ParseLead(s).Err? ==> StreamedHeader(h, s) == Err(ParseLead(s).error)
    ensures ParseLead(s).Ok? && |ParseLead(s).value.rest| < ParseLead(s).value.value.headerSize ==>
              StreamedHeader(h, s) == Err(if ParseLead(s).value.rest == [] then EndOfInput else UnexpectedEnd)
    ensures ParseLead(s).Ok? && |ParseLead(s).value.rest| >= ParseLead(s).value.value.headerSize ==>
              var lead, rest := ParseLead(s).value.value, ParseLead(s).value.rest;
              && |rest| <= |s|
              && var rh := ParseHeader(h, lead, s[..|s| - |rest|], rest[..lead.headerSize]);
              && (rh.Err? ==> StreamedHeader(h, s) == Err(rh.error))
              && (rh.Ok? ==> StreamedHeader(h, s) == Ok(Parsed(rh.value, rest[lead.headerSize..])))
  {
    hide ParseLead, ParseHeader, RecomputedLength;
    if ParseLead(s).Ok? {
      RecomputedLengthBound(s);
    }
  }

  /** The two header requests are answered as an honest server of f answers them. */
  ghost predicate ServesHeader(remote: RangeReader, f: Bytes) {
    && remote(0, 89) == Serving(f)(0, 89)
    && (ParseLead(f).Ok? ==>
          var lead := ParseLead(f).value.value;
          var n, size := RecomputedLength(lead), ToInt64(lead.headerSize);
          remote(n, size) == Serving(f)(n, size))
  }

  lemma FetchIsServing(h: Hasher, remote: RangeReader, f: Bytes)
    requires ServesHeader(remote, f)
    ensures FetchedHeader(h, remote) == FetchedHeader(h, Serving(f))
  {
    hide ParseLead, ParseHeader, RecomputedLength;
    LeadOfPrefix(f, MAX_LEAD_PREFIX);
    ServedPrefix(f);
  }

  /** The streaming reader on a written header of either kind, followed by anything. */
  lemma StreamWritten(h: Hasher, detached: bool, parts: Parts, rest: Bytes)
    requires Header(h, MagicOf(detached), parts).Ok? && |HeaderBody(h, parts).value| < TWO64
    ensures StreamedHeader(h, Header(h, MagicOf(detached), parts).value + rest)
         == Ok(Parsed(WrittenHeader(h, detached, parts), rest))
  {
    hide ParseLead, ParseFields, HeaderBody, LeadBytes, FieldsOf, Verify, RecomputedLength;
    HeaderRoundTrip(h, detached, parts, rest);
    var header := Header(h, MagicOf(detached), parts).value;
    var hb := HeaderBody(h, parts).value;
    var lead := LeadOf(h, detached, parts);
    var s := header + rest;
    TakenIsPrefix(s);
    var lb := LeadBytes(MagicOf(detached), parts.overall, |hb|, HeaderChecksum(h, parts.overall, hb));
    Assoc(lb, hb, rest);
    TakeFullAppend(hb, rest);
    assert s == lb + (hb + rest);
    assert |lb| == |s| - |hb + rest|;
    assert s[..|lb|] == lb;
    FieldsRoundTrip(h, parts, []);
    assert hb + [] == hb;
  }

  /**
   Bytes behind the signatures are accepted: a written header with anything appended, under its own
   size and checksum, is read with the same fields.
   */
  lemma TrailingBytesIgnored(h: Hasher, detached: bool, parts: Parts, junk: Bytes, rest: Bytes)
    requires Known(parts.overall) && HeaderBody(h, parts).Ok? && |HeaderBody(h, parts).value + junk| < TWO64
    ensures var header := HeaderBody(h, parts).value + junk;
            var lead := Lead(detached, parts.overall, |header|, HeaderChecksum(h, parts.overall, header));
            var lb := LeadBytes(MagicOf(detached), parts.overall, |header|, lead.headerChecksum);
            var v := FieldsOf(h, parts);
            StreamedHeader(h, lb + (header + rest))
            == Ok(Parsed(RemoteHeader(lead, v.preface, v.index, v.signatures, lb + header, |lb + header|), rest))
  {
    hide ParseLead, ParseFields, HeaderBody, LeadBytes, FieldsOf, RecomputedLength, ChecksumInput;
    var header := HeaderBody(h, parts).value + junk;
    var lead := Lead(detached, parts.overall, |header|, HeaderChecksum(h, parts.overall, header));
    var lb := PrintLead(lead).value;
    LeadRoundTrip(lead, header + rest);
    FieldsRoundTrip(h, parts, junk);
    TakeFullAppend(lb, header + rest);
    TakeFullAppend(header, rest);
  }

  /** The two-request reader on a written file. */
  lemma FetchWritten(h: Hasher, parts: Parts, remote: RangeReader)
    requires File(h, parts).Ok? && |File(h, parts).value| < TWO63
    requires ServesHeader(remote, File(h, parts).value)
    ensures |HeaderBody(h, parts).value| < TWO64
    ensures FetchedHeader(h, remote) == Ok(WrittenHeader(h, false, parts))
  {
    hide ParseLead, ParseFields, HeaderBody, LeadBytes, FieldsOf, Verify, RecomputedLength;
    hide WrittenHeader, StreamedHeader, FetchedHeader;
    var f := File(h, parts).value;
    FileRoundTrip(h, parts);
    FetchIsServing(h, remote, f);
    ReadersAgree(h, f);
    StreamWritten(h, false, parts, parts.body);
  }

  /**
   The detached header and the embedded one: the `header` command on the full file produces
   exactly what WriteDetachedHeader writes, it reads back with the same lead fields and the body
   offset of the full file, and a download driven by it restores the full file's own header.
   */
  lemma DetachedAgreesWithFile(h: Hasher, parts: Parts)
    requires File(h, parts).Ok? && |File(h, parts).value| < TWO63
    ensures Header(h, DETACHED_MAGIC, parts).Ok? && |HeaderBody(h, parts).value| < TWO64
    ensures var detached := Header(h, DETACHED_MAGIC, parts).value;
            var rh := WrittenHeader(h, true, parts);
            && CutHeader(File(h, parts).value) == Ok(detached)
            && StreamedHeader(h, detached) == Ok(Parsed(rh, []))
            && rh == WrittenHeader(h, false, parts).(lead := rh.lead, headerBytes := detached)
            && rh.lead == WrittenHeader(h, false, parts).lead.(detached := true)
            && RestoredHeader(rh) + parts.body == File(h, parts).value
            && File(h, parts).value[rh.bodyOffset..] == parts.body
  {
    hide ParseLead, ParseFields, HeaderBody, LeadBytes, FieldsOf;
    hide Verify, RecomputedLength, StreamedHeader, HeaderChecksum;
    var f := File(h, parts).value;
    var embedded := Header(h, MAGIC, parts).value;
    FileRoundTrip(h, parts);
    DetachedDiffersInMagic(h, parts);
    var detached := Header(h, DETACHED_MAGIC, parts).value;
    StreamWritten(h, true, parts, []);
    assert detached + [] == detached;
    assert f[5..|embedded|] == embedded[5..];
    HeaderRoundTrip(h, false, parts, parts.body);
    assert |f| - |ParseLead(f).value.rest| + ParseLead(f).value.value.headerSize == |embedded| by {
      TakenIsPrefix(f);
    }
  }

  /** What the `header` command does with the length it computes: a panic below five, a short read, or a header. */
  lemma CutExactly(f: Bytes)
    ensures ParseLead(f).Err? ==> CutHeader(f) == Err(ParseLead(f).error)
    ensures ParseLead(f).Ok? ==>
              var size := ParseLead(f).value.value.headerSize;
              var n := |f| - |ParseLead(f).value.rest| + if size < TWO63 then size else size - TWO64;
              n < TWO63 ==>
                && (n < 5 ==> CutHeader(f) == Err(BadLength(n)))
                && (n > |f| && n >= 5 ==> CutHeader(f) == Err(EndOfInput))
                && (5 <= n <= |f| ==>
                      CutHeader(f).Ok? && |CutHeader(f).value| == n && CutHeader(f).value[5..] == f[5..n]
                      && CutHeader(f).value[..5] == [0x00, 0x5A, 0x48, 0x52, 0x31])
  {
    hide ParseLead, RecomputedLength, PrintLead;
    if ParseLead(f).Ok? {
      RecomputedLengthBound(f);
      var size := ParseLead(f).value.value.headerSize;
      Int64Is(|f| - |ParseLead(f).value.rest| + ToInt64(size));
    }
  }

  /** The `header` command writes the whole header, if anything, exactly when the declared size is an int64. */
  lemma CutIsWhole(f: Bytes)
    requires CutHeader(f).Ok?
    ensures var lead, rest := ParseLead(f).value.value, ParseLead(f).value.rest;
            |CutHeader(f).value| == |f| - |rest| + lead.headerSize <==> lead.headerSize < TWO63
  {
    hide ParseLead, RecomputedLength;
    RecomputedLengthBound(f);
  }

  /** A lead that declares 2^64 - 1 bytes makes it write 47 bytes, one less than the lead has, without an error. */
  lemma CutTruncates(sum: Bytes)
    requires |sum| == SizeOf(SHA256)
    ensures var f := PrintLead(Lead(false, SHA256, TWO64 - 1, sum)).value;
            |f| == 48 && CutHeader(f) == Ok(DETACHED_MAGIC + f[5..47])
  {
    hide ParseLead, Value, Pow128;
    var lead := Lead(false, SHA256, TWO64 - 1, sum);
    var f := PrintLead(lead).value;
    LeadRoundTrip(lead, []);
    assert f + [] == f;
    var e := Encode(TWO64 - 1);
    EncodeIsCode(TWO64 - 1);
    EncodeFits(TWO64 - 1);
    ValueBound(e);
    Pow128Nine();
    if |e| < MAX_LEN {
      Pow128Mono(|e|, 9);
    }
    assert |Encode(SHA256)| == 1;
  }

  // ---------------------------------------------------------------- the code

  method ReadRemoteHeader(h: Hasher, remote: RangeReader) returns (res: Result<RemoteHeader>)
    ensures res == FetchedHeader(h, remote)
  {
    hide ParseLead, ParseHeader, PrintLead, Encode;
    var prefix := remote(0, MAX_LEAD_PREFIX);
    if prefix.Err? {
      return Err(prefix.error);
    }
    var r := new Reader(prefix.value);
    var lead := ReadLead(r);
    if lead.Err? {
      return Err(lead.error);
    }
    var t := AppendCompressedInt([], lead.value.ckType);
    var n := AppendCompressedInt([], lead.value.headerSize);
    assert t == Encode(lead.value.ckType) && n == Encode(lead.value.headerSize);
    var leadLen := |MAGIC| + |t| + |n| + SizeOf(lead.value.ckType);
    RecomputedLengthBound(prefix.value);
    var header := remote(leadLen, ToInt64(lead.value.headerSize));
    if header.Err? {
      return Err(header.error);
    }
    if |header.value| != ToInt64(lead.value.headerSize) {
      return Err(ShortHeader);
    }
    res := ParseHeaderCode(h, lead.value, prefix.value[..leadLen], header.value);
  }

  /** The lead's raw bytes are captured as they are consumed. */
  method ReadDetachedHeader(h: Hasher, r: Reader) returns (res: Result<RemoteHeader>)
    requires r.Valid()
    modifies r`pos
    ensures r.Valid()
    ensures match StreamedHeader(h, old(r.Rest()))
            case Ok(p) => res == Ok(p.value) && r.Rest() == p.rest
            case Err(e) => res == Err(r.Seen(e))
  {
    hide ParseLead, ParseHeader, StreamedHeader, Faulted, TakeFull, Min;
    ghost var s := r.Rest();
    StreamRefuses(h, s);
    var start := r.pos;
    var lead := ReadLead(r);
    if lead.Err? {
      return Err(lead.error);
    }
    var leadBytes := r.data[start..r.pos];
    Consumed(r.data, start, r.pos);
    ReadMeans(r.Rest(), lead.value.headerSize, r);
    var header := r.ReadFull(lead.value.headerSize);
    if header.Err? {
      return Err(header.error);
    }
    res := ParseHeaderCode(h, lead.value, leadBytes, header.value);
    HeaderErrorsStand(h, lead.value, leadBytes, header.value, r.fault);
  }

  lemma Consumed(data: Bytes, a: nat, b: nat)
    requires a <= b <= |data|
    ensures data[a..b] == data[a..][..|data[a..]| - |data[b..]|]
  {
  }

  /** A header is parsed from memory, so none of its errors is an end of the stream. */
  lemma HeaderErrorsStand(h: Hasher, lead: Lead, leadBytes: Bytes, header: Bytes, fault: Option<int>)
    ensures ParseHeader(h, lead, leadBytes, header).Err? ==>
              Faulted(ParseHeader(h, lead, leadBytes, header).error, fault)
                  == ParseHeader(h, lead, leadBytes, header).error
  {
    hide ParseFields;
  }

  method ParseHeaderCode(h: Hasher, lead: Lead, leadBytes: Bytes, header: Bytes) returns (res: Result<RemoteHeader>)
    ensures res == ParseHeader(h, lead, leadBytes, header)
  {
    hide ParseFields, Verify, SizeOf;
    var err := VerifyHeader(h, lead, header);
    if err.Some? {
      return Err(err.value);
    }
    var hr := new Reader(header);
    var p := ReadFields(hr, lead.ckType);
    if p.Err? {
      return Err(InHeader(p.error));
    }
    var v := p.value;
    res := Ok(RemoteHeader(lead, v.preface, v.index, v.signatures, leadBytes + header, |leadBytes| + |header|));
  }

  /** The `header` command: a short `ReadAt` is an end of input; the magic is overwritten in place in the buffer. */
  method CutHeaderCode(f: Bytes) returns (res: Result<Bytes>)
    ensures res == CutHeader(f)
  {
    hide ParseLead, PrintLead, RecomputedLength, SizeOf, Int64, ToInt64;
    var r := new Reader(f);
    var lead := ReadLead(r);
    if lead.Err? {
      return Err(lead.error);
    }
    TakenIsPrefix(f);
    RecomputedLengthBound(f);
    var leadLen := r.pos;
    assert leadLen == |f| - |r.Rest()|;
    var n := Int64(leadLen + ToInt64(lead.value.headerSize));
    if n < |DETACHED_MAGIC| {
      return Err(BadLength(n));
    }
    res := CopyHeader(f, n);
  }

  /** The front of the file, with the magic exchanged. */
  method CopyHeader(f: Bytes, n: nat) returns (res: Result<Bytes>)
    requires n >= |DETACHED_MAGIC|
    ensures res == if |f| < n then Err(EndOfInput) else Ok(DETACHED_MAGIC + f[|DETACHED_MAGIC|..n])
  {
    var at := new Reader(f);
    var content := at.ReadFull(n);
    if content.Err? {
      return Err(EndOfInput);
    }
    assert content.value == f[..n];
    var swapped := SwapMagic(content.value);
    res := Ok(swapped);
  }

  method SwapMagic(content: Bytes) returns (out: Bytes)
    requires |content| >= |DETACHED_MAGIC|
    ensures out == DETACHED_MAGIC + content[|DETACHED_MAGIC|..]
  {
    var header := new byte[|content|](i requires 0 <= i < |content| => content[i]);
    for i := 0 to |DETACHED_MAGIC|
      invariant forall j :: 0 <= j < i ==> header[j] == DETACHED_MAGIC[j]
      invariant forall j :: i <= j < |content| ==> header[j] == content[j]
    {
      header[i] := DETACHED_MAGIC[i];
    }
    out := header[..];
  }
}
