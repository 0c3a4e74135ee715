/** The lead: magic, checksum type, header size and header checksum. */
module LeadFormat {
  import opened Base
  import opened CompressedInt
  import opened Checksum

  const MAGIC: Bytes := [0x00, 0x5A, 0x43, 0x4B, 0x31]
  const DETACHED_MAGIC: Bytes := [0x00, 0x5A, 0x48, 0x52, 0x31]
  const MAX_LEAD_PREFIX := 5 + 2 * MAX_LEN + 64

  datatype Lead = Lead(detached: bool, ckType: uint64, headerSize: uint64, headerChecksum: Bytes)

  function MagicOf(detached: bool): (m: Bytes)
    ensures |m| == 5
  {
    if detached then DETACHED_MAGIC else MAGIC
  }

  function ParseLead(s: Bytes): Result<Parsed<Lead>> {
    var id :- TakeFull(s, |MAGIC|);
    if id.value != MAGIC && id.value != DETACHED_MAGIC then Err(BadMagic(id.value))
    else ParseAfterMagic(id.value == DETACHED_MAGIC, id.rest)
  }

  function ParseAfterMagic(detached: bool, s: Bytes): Result<Parsed<Lead>> {
    var t :- Decode(s);
    var size :- Size(t.value);
    var n :- Decode(t.rest);
    var sum :- TakeFull(n.rest, size);
    Ok(Parsed(Lead(detached, t.value, n.value, sum.value), sum.rest))
  }

  /** The bytes of a lead with the given magic and checksum type, for a header of n bytes. */
  function LeadBytes(magic: Bytes, t: nat, n: nat, sum: Bytes): Bytes {
    magic + (Encode(t) + (Encode(n) + sum))
  }

  function PrintLead(l: Lead): Result<Bytes> {
    var size :- Size(l.ckType);
    if |l.headerChecksum| != size then Err(ChecksumLength(|l.headerChecksum|, size))
    else Ok(LeadBytes(MagicOf(l.detached), l.ckType, l.headerSize, l.headerChecksum))
  }

  /** What the header checksum covers: the lead up to the checksum, always with the embedded magic, then the header. */
  function ChecksumInput(t: nat, n: nat, header: Bytes): Bytes {
    LeadBytes(MAGIC, t, n, []) + header
  }

  /** `Lead.VerifyHeader`: no error exactly when this is None. */
  function Verify(h: Hasher, l: Lead, header: Bytes): Option<Error> {
    match Sum(h, l.ckType, ChecksumInput(l.ckType, l.headerSize, header))
    case Err(e) => Some(e)
    case Ok(sum) => if sum != l.headerChecksum then Some(HeaderChecksumMismatch) else None
  }

  /** The lead length that `ReadRemoteHeader` recomputes by encoding the two integers again. */
  function RecomputedLength(l: Lead): nat {
    |MAGIC| + |Encode(l.ckType)| + |Encode(l.headerSize)| + SizeOf(l.ckType)
  }

  // ---------------------------------------------------------------- properties

  /** Reading back four fields given as code words; which magic they follow does not matter. */
  lemma FieldsReadBack(detached: bool, e: Bytes, f: Bytes, sum: Bytes, rest: Bytes)
    requires IsCode(e) && |e| <= MAX_LEN && IsCode(f) && |f| <= MAX_LEN
    requires Known(Value(e)) && Value(f) < TWO64 && |sum| == SizeOf(Value(e))
    ensures ParseAfterMagic(detached, e + (f + (sum + rest)))
            == Ok(Parsed(Lead(detached, Value(e), Value(f), sum), rest))
  {
    hide Decode, IsCode, Value;
    DecodeAccepts(e, f + (sum + rest));
    DecodeAccepts(f, sum + rest);
    TakeFullAppend(sum, rest);
  }

  lemma ParseMagic(detached: bool, s: Bytes)
    ensures ParseLead(MagicOf(detached) + s) == ParseAfterMagic(detached, s)
  {
    TakeFullAppend(MagicOf(detached), s);
    assert MAGIC[2] != DETACHED_MAGIC[2];
  }

  /** An accepted lead splits into the fields it was read from. */
  lemma LeadShape(s: Bytes) returns (e: Bytes, f: Bytes)
    requires ParseLead(s).Ok?
    ensures var p := ParseLead(s).value;
            && IsCode(e) && Value(e) == p.value.ckType && |e| <= MAX_LEN
            && IsCode(f) && Value(f) == p.value.headerSize && |f| <= MAX_LEN
            && Known(p.value.ckType) && |p.value.headerChecksum| == SizeOf(p.value.ckType)
            && s == MagicOf(p.value.detached) + (e + (f + (p.value.headerChecksum + p.rest)))
  {
    TakeFullShape(s, 5);
    var id := TakeFull(s, 5).value;
    e, f := FieldsShape(id.value == DETACHED_MAGIC, id.rest);
  }

  lemma FieldsShape(detached: bool, s: Bytes) returns (e: Bytes, f: Bytes)
    requires ParseAfterMagic(detached, s).Ok?
    ensures var p := ParseAfterMagic(detached, s).value;
            && IsCode(e) && Value(e) == p.value.ckType && |e| <= MAX_LEN
            && IsCode(f) && Value(f) == p.value.headerSize && |f| <= MAX_LEN
            && Known(p.value.ckType) && |p.value.headerChecksum| == SizeOf(p.value.ckType)
            && p.value.detached == detached
            && s == e + (f + (p.value.headerChecksum + p.rest))
  {
    hide Decode, IsCode, Value, FirstFinal;
    e := DecodeShape(s);
    var t := Decode(s).value;
    f := DecodeShape(t.rest);
    TakeFullShape(Decode(t.rest).value.rest, SizeOf(t.value));
  }

  /** Parsing undoes printing whatever follows. */
  lemma LeadRoundTrip(l: Lead, rest: Bytes)
    requires PrintLead(l).Ok?
    ensures ParseLead(PrintLead(l).value + rest) == Ok(Parsed(l, rest))
    ensures |PrintLead(l).value| == RecomputedLength(l)
  {
    var m, e, f := MagicOf(l.detached), Encode(l.ckType), Encode(l.headerSize);
    EncodeIsCode(l.ckType);
    EncodeFits(l.ckType);
    EncodeIsCode(l.headerSize);
    EncodeFits(l.headerSize);
    FieldsReadBack(l.detached, e, f, l.headerChecksum, rest);
    ParseMagic(l.detached, e + (f + (l.headerChecksum + rest)));
    Regroup(m, e, f, l.headerChecksum, rest);
  }

  /** What follows an accepted lead has no influence on how it was read. */
  lemma LeadReframe(s: Bytes, rest: Bytes)
    requires ParseLead(s).Ok?
    ensures var p := ParseLead(s).value;
            |p.rest| <= |s| && ParseLead(s[..|s| - |p.rest|] + rest) == Ok(Parsed(p.value, rest))
  {
    var e, f := LeadShape(s);
    var p := ParseLead(s).value;
    var m, sum := MagicOf(p.value.detached), p.value.headerChecksum;
    Regroup(m, e, f, sum, p.rest);
    Regroup(m, e, f, sum, rest);
    var taken := m + (e + (f + sum));
    TakeFullAppend(taken, p.rest);
    assert s[..|s| - |p.rest|] == taken;
    FieldsReadBack(p.value.detached, e, f, sum, rest);
    ParseMagic(p.value.detached, e + (f + (sum + rest)));
  }

  /**
   The recomputed lead length never exceeds what was consumed, so slicing the fetched prefix at
   it is safe; it is what was consumed exactly when the lead is the one that would be printed,
   that is when both integers are minimal; and every accepted lead fits the fetched prefix.
   */
  lemma RecomputedLengthBound(s: Bytes)
    requires ParseLead(s).Ok?
    ensures var p := ParseLead(s).value;
            && PrintLead(p.value).Ok?
            && 5 <= RecomputedLength(p.value) <= |s| - |p.rest| <= MAX_LEAD_PREFIX
            && (RecomputedLength(p.value) == |s| - |p.rest| <==> s == PrintLead(p.value).value + p.rest)
  {
    var e, f := LeadShape(s);
    var p := ParseLead(s).value;
    CompareFields(e, f, p.value, s, p.rest);
  }

  lemma CompareFields(e: Bytes, f: Bytes, l: Lead, s: Bytes, rest: Bytes)
    requires IsCode(e) && Value(e) == l.ckType && |e| <= MAX_LEN
    requires IsCode(f) && Value(f) == l.headerSize && |f| <= MAX_LEN
    requires Known(l.ckType) && |l.headerChecksum| == SizeOf(l.ckType)
    requires s == MagicOf(l.detached) + (e + (f + (l.headerChecksum + rest)))
    ensures PrintLead(l).Ok?
    ensures 5 <= RecomputedLength(l) <= |s| - |rest| <= MAX_LEAD_PREFIX
    ensures RecomputedLength(l) == |s| - |rest| <==> s == PrintLead(l).value + rest
  {
    hide Encode, IsCode, Value;
    var m, sum := MagicOf(l.detached), l.headerChecksum;
    var e', f' := Encode(l.ckType), Encode(l.headerSize);
    EncodeIsShortest(e);
    EncodeIsShortest(f);
    LengthOf(m, e, f, sum, rest);
    LengthOf(m, e', f', sum, rest);
    assert PrintLead(l).value + rest == m + (e' + (f' + (sum + rest))) by {
      Regroup(m, e', f', sum, rest);
    }
    if s == PrintLead(l).value + rest {
    } else {
      assert e != e' || f != f';
    }
  }

  lemma LengthOf(m: Bytes, e: Bytes, f: Bytes, sum: Bytes, rest: Bytes)
    ensures |m + (e + (f + (sum + rest)))| == |m| + |e| + |f| + |sum| + |rest|
  {
  }

  /** The string that the header checksum is taken of, byte for byte: the embedded magic, type, size, header. */
  function SpeltInput(t: nat, n: nat, header: Bytes): Bytes {
    ([0x00, 0x5A, 0x43, 0x4B, 0x31] + (Encode(t) + Encode(n))) + header
  }

  lemma InputIsSpelt(t: nat, n: nat, header: Bytes)
    ensures ChecksumInput(t, n, header) == SpeltInput(t, n, header)
  {
    hide Encode;
    assert Encode(n) + [] == Encode(n);
  }

  /** A header verifies exactly when its type is known and the recorded checksum is the digest of that string. */
  lemma VerifyExactly(h: Hasher, l: Lead, header: Bytes)
    ensures Verify(h, l, header).None? <==>
            l.ckType <= 3 && h(l.ckType, SpeltInput(l.ckType, l.headerSize, header)) == l.headerChecksum
    ensures l.ckType > 3 ==> Verify(h, l, header) == Some(UnknownChecksumType(l.ckType))
    ensures l.ckType <= 3 && Verify(h, l, header).Some? ==> Verify(h, l, header) == Some(HeaderChecksumMismatch)
  {
    hide SpeltInput, ChecksumInput;
    InputIsSpelt(l.ckType, l.headerSize, header);
  }

  /** The string determines the size and the header. */
  lemma InputInjective(t: nat, m: uint64, a: Bytes, n: uint64, b: Bytes)
    requires SpeltInput(t, m, a) == SpeltInput(t, n, b)
    ensures m == n && a == b
  {
    hide Encode, Decode;
    var front := [0x00, 0x5A, 0x43, 0x4B, 0x31] + Encode(t);
    assert SpeltInput(t, m, a)[|front|..] == Encode(m) + a;
    assert SpeltInput(t, n, b)[|front|..] == Encode(n) + b;
    DecodeEncode(m, a);
    DecodeEncode(n, b);
  }

  /** One checksum fixes one size and one header, unless two different strings collide. */
  lemma ChecksumPinsHeader(h: Hasher, l: Lead, a: Bytes, k: Lead, b: Bytes)
    requires l.ckType == k.ckType && l.headerChecksum == k.headerChecksum
    requires Verify(h, l, a).None? && Verify(h, k, b).None?
    ensures || (l.headerSize == k.headerSize && a == b)
            || Collide(h, l.ckType, SpeltInput(l.ckType, l.headerSize, a), SpeltInput(k.ckType, k.headerSize, b))
  {
    hide SpeltInput, Verify;
    VerifyExactly(h, l, a);
    VerifyExactly(h, k, b);
    if SpeltInput(l.ckType, l.headerSize, a) == SpeltInput(k.ckType, k.headerSize, b) {
      InputInjective(l.ckType, l.headerSize, a, k.headerSize, b);
    }
  }

  // ---------------------------------------------------------------- the code

  method ReadLead(r: Reader) returns (res: Result<Lead>)
    requires r.Valid()
    modifies r`pos
    ensures r.Valid() && old(r.pos) <= r.pos
    ensures match ParseLead(old(r.Rest()))
            case Ok(p) => res == Ok(p.value) && r.Rest() == p.rest
            case Err(e) => res == Err(r.Seen(e))
  {
    hide ParseAfterMagic;
    var id := r.ReadFull(|MAGIC|);
    if id.Err? {
      return Err(id.error);
    }
    var detached: bool;
    if id.value == MAGIC {
      detached := false;
    } else if id.value == DETACHED_MAGIC {
      detached := true;
    } else {
      return Err(BadMagic(id.value));
    }
    res := ReadAfterMagic(r, detached);
  }

  method ReadAfterMagic(r: Reader, detached: bool) returns (res: Result<Lead>)
    requires r.Valid()
    modifies r`pos
    ensures r.Valid() && old(r.pos) <= r.pos
    ensures match ParseAfterMagic(detached, old(r.Rest()))
            case Ok(p) => res == Ok(p.value) && r.Rest() == p.rest
            case Err(e) => res == Err(r.Seen(e))
  {
    hide Decode;
    var rawType := ReadCompressedInt(r);
    if rawType.Err? {
      return Err(rawType.error);
    }
    var size := Size(rawType.value);
    if size.Err? {
      return Err(size.error);
    }
    var headerSize := ReadCompressedInt(r);
    if headerSize.Err? {
      return Err(headerSize.error);
    }
    var sum := r.ReadFull(size.value);
    if sum.Err? {
      return Err(sum.error);
    }
    res := Ok(Lead(detached, rawType.value, headerSize.value, sum.value));
  }

  /** `Lead.WriteTo`. */
  method WriteLead(l: Lead, out: Sink) returns (n: nat, err: Option<Error>)
    modifies out
    ensures Written(out.data, n, err) == WriteOnce(out.writer, old(out.data), PrintLead(l))
  {
    var size := Size(l.ckType);
    if size.Err? {
      return 0, Some(size.error);
    }
    if |l.headerChecksum| != size.value {
      return 0, Some(ChecksumLength(|l.headerChecksum|, size.value));
    }
    var buf := MAGIC;
    if l.detached {
      buf := DETACHED_MAGIC;
    }
    buf := AppendCompressedInt(buf, l.ckType);
    buf := AppendCompressedInt(buf, l.headerSize);
    Assoc(MagicOf(l.detached) + Encode(l.ckType), Encode(l.headerSize), l.headerChecksum);
    Assoc(MagicOf(l.detached), Encode(l.ckType), Encode(l.headerSize) + l.headerChecksum);
    var a := out.Write(buf + l.headerChecksum);
    n, err := a.n, a.err;
  }

  method VerifyHeader(h: Hasher, l: Lead, header: Bytes) returns (err: Option<Error>)
    ensures err == Verify(h, l, header)
  {
    var toHash := AppendCompressedInt(MAGIC, l.ckType);
    toHash := AppendCompressedInt(toHash, l.headerSize);
    assert toHash + header == ChecksumInput(l.ckType, l.headerSize, header);
    toHash := toHash + header;
    var sum := Sum(h, l.ckType, toHash);
    if sum.Err? {
      return Some(sum.error);
    }
    if sum.value != l.headerChecksum {
      return Some(HeaderChecksumMismatch);
    }
    err := None;
  }
}
