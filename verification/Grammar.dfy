/**
 The grammar of the wire format, stated apart from the parsers: which bytes spell which value. Each
 parser accepts exactly the spellings, whatever follows, and returns the value that is spelt.
 */
module Grammar {
  import opened Base
  import opened CompressedInt
  import opened Checksum
  import opened LeadFormat
  import opened PrefaceFormat
  import opened ChunkIndex
  import opened HeaderFile
  import opened RemoteHeaders

  // ---------------------------------------------------------------- integers

  /** At most ten groups, the last one marked, with a value below 2^64; padding is allowed. */
  ghost predicate SpellsInt(t: Bytes, v: nat) {
    IsCode(t) && |t| <= 10 && Value(t) == v && v < 0x1_0000_0000_0000_0000
  }

  lemma ReadInt(t: Bytes, v: nat, rest: Bytes)
    requires SpellsInt(t, v)
    ensures Decode(t + rest) == Ok(Parsed(v, rest))
  {
    hide IsCode, Value, Decode;
    DecodeAccepts(t, rest);
  }

  lemma SpeltInt(s: Bytes) returns (t: Bytes)
    requires Decode(s).Ok?
    ensures SpellsInt(t, Decode(s).value.value) && s == t + Decode(s).value.rest
  {
    hide IsCode, Value, Decode;
    t := DecodeShape(s);
  }

  lemma IntGrammar(s: Bytes, v: uint64, rest: Bytes)
    ensures Decode(s) == Ok(Parsed(v, rest)) <==> exists t :: SpellsInt(t, v) && s == t + rest
  {
    hide SpellsInt, Decode;
    if Decode(s) == Ok(Parsed(v, rest)) {
      var t := SpeltInt(s);
    }
    if t :| SpellsInt(t, v) && s == t + rest {
      ReadInt(t, v, rest);
    }
  }

  // ---------------------------------------------------------------- the lead

  /** Digest lengths of the four checksum types. */
  function DigestBytes(t: nat): nat {
    if t == 0 then 20 else if t == 1 then 32 else if t == 2 then 64 else if t == 3 then 16 else 0
  }

  lemma DigestLengths(t: nat)
    ensures SizeOf(t) == DigestBytes(t)
    ensures Known(t) <==> t <= 3
    ensures Size(t) == if t <= 3 then Ok(DigestBytes(t)) else Err(UnknownChecksumType(t))
  {
  }

  function MagicBytes(detached: bool): Bytes {
    if detached then [0x00, 0x5A, 0x48, 0x52, 0x31] else [0x00, 0x5A, 0x43, 0x4B, 0x31]
  }

  ghost predicate SpellsLead(t: Bytes, l: Lead) {
    && l.ckType <= 3 && |l.headerChecksum| == DigestBytes(l.ckType)
    && exists e, f :: SpellsInt(e, l.ckType) && SpellsInt(f, l.headerSize)
                      && t == MagicBytes(l.detached) + (e + (f + l.headerChecksum))
  }

  lemma LeadGrammar(s: Bytes, l: Lead, rest: Bytes)
    ensures ParseLead(s) == Ok(Parsed(l, rest)) <==> exists t :: SpellsLead(t, l) && s == t + rest
  {
    hide ParseLead, IsCode, Value;
    DigestLengths(l.ckType);
    if ParseLead(s) == Ok(Parsed(l, rest)) {
      var e, f := LeadShape(s);
      assert SpellsInt(e, l.ckType) && SpellsInt(f, l.headerSize);
      var t := MagicBytes(l.detached) + (e + (f + l.headerChecksum));
      Regroup(MagicBytes(l.detached), e, f, l.headerChecksum, rest);
      assert SpellsLead(t, l);
    }
    if t :| SpellsLead(t, l) && s == t + rest {
      var e, f :| SpellsInt(e, l.ckType) && SpellsInt(f, l.headerSize)
        && t == MagicBytes(l.detached) + (e + (f + l.headerChecksum));
      Regroup(MagicBytes(l.detached), e, f, l.headerChecksum, rest);
      FieldsReadBack(l.detached, e, f, l.headerChecksum, rest);
      ParseMagic(l.detached, e + (f + (l.headerChecksum + rest)));
    }
  }

  /** A lead is written exactly when its type is known and its checksum has that type's length. */
  lemma LeadIsWritten(l: Lead)
    ensures PrintLead(l).Ok? <==> l.ckType <= 3 && |l.headerChecksum| == DigestBytes(l.ckType)
    ensures l.ckType > 3 ==> PrintLead(l) == Err(UnknownChecksumType(l.ckType))
    ensures l.ckType <= 3 && PrintLead(l).Err? ==>
              PrintLead(l) == Err(ChecksumLength(|l.headerChecksum|, DigestBytes(l.ckType)))
  {
    hide LeadBytes;
    DigestLengths(l.ckType);
  }

  /** A front that is no magic, and a type that is not known, are refused by name. */
  lemma LeadRefuses(s: Bytes, detached: bool, e: Bytes, t: nat, rest: Bytes)
    ensures |s| >= 5 && s[..5] != MagicBytes(true) && s[..5] != MagicBytes(false) ==>
            ParseLead(s) == Err(BadMagic(s[..5]))
    ensures |s| < 5 ==> ParseLead(s) == Err(if s == [] then EndOfInput else UnexpectedEnd)
    ensures SpellsInt(e, t) && t > 3 ==> ParseLead(MagicBytes(detached) + (e + rest)) == Err(UnknownChecksumType(t))
  {
    hide SpellsInt, Decode;
    ParseMagic(detached, e + rest);
    if SpellsInt(e, t) {
      ReadInt(e, t, rest);
    }
  }

  // ---------------------------------------------------------------- the preface

  /** Bit 1 of the flags: optional elements follow. */
  predicate SaysElements(flags: nat) {
    flags == 2 || flags == 3 || flags == 6 || flags == 7
  }

  /** Bit 2 of the flags: digests are of the uncompressed source. */
  predicate SaysUncompressed(flags: nat) {
    4 <= flags <= 7
  }

  /** What the flag and compression tests of the code mean. */
  lemma FlagsMean(flags: nat, compression: nat)
    ensures UnknownBits(flags) == 0 <==> flags < 8
    ensures flags < 8 ==> (HasOptionalElements(flags) <==> SaysElements(flags))
    ensures flags < 8 ==> (UncompressedSource(flags) <==> SaysUncompressed(flags))
    ensures ValidCompression(compression) <==> compression == 0 || compression == 2
  {
  }

  ghost predicate SpellsElement(t: Bytes, e: OptionalElement) {
    exists a, b :: SpellsInt(a, e.id) && SpellsInt(b, |e.data|) && t == a + (b + e.data)
  }

  ghost predicate SpellsElements(t: Bytes, els: seq<OptionalElement>)
    decreases |els|
  {
    if els == [] then t == []
    else exists a, b :: SpellsElement(a, els[0]) && SpellsElements(b, els[1..]) && t == a + b
  }

  /** The count and the elements, or nothing, as the flag says. */
  ghost predicate SpellsOptional(t: Bytes, flags: nat, els: seq<OptionalElement>) {
    if SaysElements(flags) then exists k, o :: SpellsInt(k, |els|) && SpellsElements(o, els) && t == k + o
    else t == [] && els == []
  }

  ghost predicate SpellsPreface(t: Bytes, p: Preface, ckType: nat) {
    && ckType <= 3 && |p.dataChecksum| == DigestBytes(ckType)
    && p.flags < 8 && (p.compression == 0 || p.compression == 2)
    && exists f, c, o :: SpellsInt(f, p.flags) && SpellsInt(c, p.compression) && SpellsOptional(o, p.flags, p.elements)
                         && t == p.dataChecksum + (f + (c + o))
  }

  lemma ReadElementSpelt(t: Bytes, e: OptionalElement, rest: Bytes)
    requires SpellsElement(t, e)
    ensures ParseElement(t + rest) == Ok(Parsed(e, rest))
  {
    hide SpellsInt, Decode;
    var a, b :| SpellsInt(a, e.id) && SpellsInt(b, |e.data|) && t == a + (b + e.data);
    Assoc(a, b + e.data, rest);
    Assoc(b, e.data, rest);
    ReadInt(a, e.id, b + (e.data + rest));
    ReadInt(b, |e.data|, e.data + rest);
    TakeFullAppend(e.data, rest);
  }

  lemma SpeltElement(s: Bytes) returns (t: Bytes)
    requires ParseElement(s).Ok?
    ensures SpellsElement(t, ParseElement(s).value.value) && s == t + ParseElement(s).value.rest
  {
    hide SpellsInt, Decode;
    var a := SpeltInt(s);
    var id := Decode(s).value;
    var b := SpeltInt(id.rest);
    var size := Decode(id.rest).value;
    TakeFullShape(size.rest, size.value);
    var p := ParseElement(s).value;
    t := a + (b + p.value.data);
    Assoc(a, b + p.value.data, p.rest);
    Assoc(b, p.value.data, p.rest);
  }

  lemma {:induction false} ReadElementsSpelt(t: Bytes, els: seq<OptionalElement>, rest: Bytes)
    requires SpellsElements(t, els)
    ensures ParseElements(t + rest, |els|) == Ok(Parsed(els, rest))
    decreases |els|
  {
    hide SpellsElement, ParseElement;
    if els == [] {
      assert [] + rest == rest;
    } else {
      var a, b :| SpellsElement(a, els[0]) && SpellsElements(b, els[1..]) && t == a + b;
      Assoc(a, b, rest);
      ReadElementSpelt(a, els[0], b + rest);
      ReadElementsSpelt(b, els[1..], rest);
      assert [els[0]] + els[1..] == els;
    }
  }

  lemma {:induction false} SpeltElements(s: Bytes, count: nat) returns (t: Bytes)
    requires ParseElements(s, count).Ok?
    ensures SpellsElements(t, ParseElements(s, count).value.value) && s == t + ParseElements(s, count).value.rest
    ensures |ParseElements(s, count).value.value| == count
    decreases count
  {
    hide SpellsElement, ParseElement;
    if count == 0 {
      t := [];
      assert [] + s == s;
    } else {
      var a := SpeltElement(s);
      var first := ParseElement(s).value;
      var b := SpeltElements(first.rest, count - 1);
      var others := ParseElements(first.rest, count - 1).value;
      t := a + b;
      ElementsCons(first.value, others.value);
      Assoc(a, b, others.rest);
    }
  }

  lemma ElementsCons(e: OptionalElement, els: seq<OptionalElement>)
    ensures ([e] + els)[0] == e && ([e] + els)[1..] == els
  {
  }

  lemma ReadOptionalSpelt(t: Bytes, flags: nat, els: seq<OptionalElement>, rest: Bytes)
    requires flags < 8 && SpellsOptional(t, flags, els)
    ensures ParseOptional(t + rest, flags) == Ok(Parsed(els, rest))
  {
    hide SpellsInt, SpellsElements, Decode, ParseElements;
    FlagsMean(flags, 0);
    if SaysElements(flags) {
      var k, o :| SpellsInt(k, |els|) && SpellsElements(o, els) && t == k + o;
      Assoc(k, o, rest);
      ReadInt(k, |els|, o + rest);
      ReadElementsSpelt(o, els, rest);
    } else {
      assert [] + rest == rest;
    }
  }

  lemma SpeltOptional(s: Bytes, flags: nat) returns (t: Bytes)
    requires flags < 8 && ParseOptional(s, flags).Ok?
    ensures SpellsOptional(t, flags, ParseOptional(s, flags).value.value) && s == t + ParseOptional(s, flags).value.rest
  {
    hide SpellsInt, SpellsElements, Decode, ParseElements;
    FlagsMean(flags, 0);
    if SaysElements(flags) {
      var k := SpeltInt(s);
      var count := Decode(s).value;
      var o := SpeltElements(count.rest, count.value);
      t := k + o;
      Assoc(k, o, ParseOptional(s, flags).value.rest);
    } else {
      t := [];
      assert [] + s == s;
    }
  }

  lemma ReadPrefaceSpelt(t: Bytes, p: Preface, ckType: nat, rest: Bytes)
    requires SpellsPreface(t, p, ckType)
    ensures ParsePreface(t + rest, ckType) == Ok(Parsed(p, rest))
  {
    hide SpellsInt, SpellsOptional, Decode, ParseOptional;
    DigestLengths(ckType);
    FlagsMean(p.flags, p.compression);
    var f, c, o :| SpellsInt(f, p.flags) && SpellsInt(c, p.compression) && SpellsOptional(o, p.flags, p.elements)
      && t == p.dataChecksum + (f + (c + o));
    Regroup(p.dataChecksum, f, c, o, rest);
    TakeFullAppend(p.dataChecksum, f + (c + (o + rest)));
    ReadInt(f, p.flags, c + (o + rest));
    ReadInt(c, p.compression, o + rest);
    ReadOptionalSpelt(o, p.flags, p.elements, rest);
  }

  lemma SpeltPreface(s: Bytes, ckType: nat) returns (t: Bytes)
    requires ParsePreface(s, ckType).Ok?
    ensures SpellsPreface(t, ParsePreface(s, ckType).value.value, ckType)
    ensures s == t + ParsePreface(s, ckType).value.rest
  {
    hide SpellsInt, SpellsOptional, Decode, ParseOptional;
    DigestLengths(ckType);
    var p := ParsePreface(s, ckType).value;
    FlagsMean(p.value.flags, p.value.compression);
    TakeFullShape(s, SizeOf(ckType));
    var sum := TakeFull(s, SizeOf(ckType)).value;
    var f := SpeltInt(sum.rest);
    var flags := Decode(sum.rest).value;
    var c := SpeltInt(flags.rest);
    var comp := Decode(flags.rest).value;
    var o := SpeltOptional(comp.rest, flags.value);
    t := p.value.dataChecksum + (f + (c + o));
    Regroup(p.value.dataChecksum, f, c, o, p.rest);
  }

  lemma PrefaceGrammar(s: Bytes, ckType: nat, p: Preface, rest: Bytes)
    ensures ParsePreface(s, ckType) == Ok(Parsed(p, rest)) <==> exists t :: SpellsPreface(t, p, ckType) && s == t + rest
  {
    hide SpellsPreface, ParsePreface;
    if ParsePreface(s, ckType) == Ok(Parsed(p, rest)) {
      var t := SpeltPreface(s, ckType);
    }
    if t :| SpellsPreface(t, p, ckType) && s == t + rest {
      ReadPrefaceSpelt(t, p, ckType, rest);
    }
  }

  /**
   A preface is written exactly when its flags, its compression type and its elements are in order;
   else the first fault is named.
   */
  lemma PrefaceIsWritten(p: Preface)
    ensures PrintPreface(p).Ok? <==>
            p.flags < 8 && (p.compression == 0 || p.compression == 2) && (SaysElements(p.flags) <==> p.elements != [])
    ensures p.flags >= 8 ==> PrintPreface(p) == Err(UnknownFlags(p.flags - p.flags % 8))
    ensures p.flags < 8 && p.compression != 0 && p.compression != 2 ==>
            PrintPreface(p) == Err(UnknownCompression(p.compression))
    ensures p.flags < 8 && (p.compression == 0 || p.compression == 2) && PrintPreface(p).Err? ==>
              PrintPreface(p) == Err(FlagDisagrees(|p.elements|))
  {
    hide PrefaceBytes;
    FlagsMean(p.flags, p.compression);
  }

  /** Preface fields that are not known are refused by name, in the order they stand. */
  lemma PrefaceRefuses(sum: Bytes, f: Bytes, flags: nat, c: Bytes, compression: nat, ckType: nat, rest: Bytes)
    requires ckType <= 3 && |sum| == DigestBytes(ckType) && SpellsInt(f, flags) && SpellsInt(c, compression)
    ensures flags >= 8 ==> ParsePreface(sum + (f + (c + rest)), ckType) == Err(UnknownFlags(flags - flags % 8))
    ensures flags < 8 && compression != 0 && compression != 2 ==>
              ParsePreface(sum + (f + (c + rest)), ckType) == Err(UnknownCompression(compression))
  {
    hide SpellsInt, Decode;
    DigestLengths(ckType);
    FlagsMean(flags, compression);
    TakeFullAppend(sum, f + (c + rest));
    ReadInt(f, flags, c + rest);
    ReadInt(c, compression, rest);
  }

  /** The preface as built: the caller's, with the body's digest or, under the flag, as many zeros. */
  lemma PrefaceIsFilled(h: Hasher, parts: Parts)
    requires parts.preface.flags < 8
    ensures var p := FilledPreface(h, parts);
            && p.flags == parts.preface.flags && p.compression == parts.preface.compression
            && p.elements == parts.preface.elements
            && (!SaysUncompressed(p.flags) ==> p.dataChecksum == h(parts.overall, parts.body))
            && (SaysUncompressed(p.flags) ==>
                  |p.dataChecksum| == DigestBytes(parts.overall) && forall i :: 0 <= i < |p.dataChecksum| ==>
                      p.dataChecksum[i] == 0)
  {
    FlagsMean(parts.preface.flags, 0);
    DigestLengths(parts.overall);
  }

  // ---------------------------------------------------------------- the index

  ghost predicate SpellsEntry(t: Bytes, e: Entry, size: nat, us: bool) {
    && |e.digest| == size
    && (if us then e.uncompressedDigest.Some? && |e.uncompressedDigest.value| == size else e.uncompressedDigest.None?)
    && exists c, n :: SpellsInt(c, e.compLength) && SpellsInt(n, e.length)
                      && t == e.digest + ((if us then e.uncompressedDigest.value else []) + (c + n))
  }

  ghost predicate SpellsEntries(t: Bytes, es: seq<Entry>, size: nat, us: bool)
    decreases |es|
  {
    if es == [] then t == []
    else exists a, b :: SpellsEntry(a, es[0], size, us) && SpellsEntries(b, es[1..], size, us) && t == a + b
  }

  ghost predicate SpellsIndexBody(t: Bytes, idx: Index, us: bool) {
    && idx.ckType <= 3
    && exists a, k, o :: SpellsInt(a, idx.ckType) && SpellsInt(k, |idx.chunks|)
                         && SpellsEntries(o, idx.chunks, DigestBytes(idx.ckType), us) && t == a + (k + o)
  }

  /** The size of the rest, the chunk checksum type, the number of entries, and the entries, which fill that size. */
  ghost predicate SpellsIndex(t: Bytes, idx: Index, us: bool) {
    exists n, b :: SpellsInt(n, |b|) && SpellsIndexBody(b, idx, us) && t == n + b
  }

  lemma ReadEntrySpelt(t: Bytes, e: Entry, size: nat, us: bool, rest: Bytes)
    requires SpellsEntry(t, e, size, us)
    ensures ParseEntry(t + rest, size, us) == Ok(Parsed(e, rest)) && t != []
  {
    hide SpellsInt, Decode;
    var u := if us then e.uncompressedDigest.value else [];
    var c, n :| SpellsInt(c, e.compLength) && SpellsInt(n, e.length) && t == e.digest + (u + (c + n));
    Regroup(e.digest, u, c, n, rest);
    TakeFullAppend(e.digest, u + (c + (n + rest)));
    TakeFullAppend(u, c + (n + rest));
    assert !us ==> u + (c + (n + rest)) == c + (n + rest);
    ReadInt(c, e.compLength, n + rest);
    ReadInt(n, e.length, rest);
    SpellingNotEmpty(c, e.compLength);
  }

  lemma SpellingNotEmpty(t: Bytes, v: nat)
    requires SpellsInt(t, v)
    ensures t != []
  {
  }

  lemma SpeltEntry(s: Bytes, size: nat, us: bool) returns (t: Bytes)
    requires ParseEntry(s, size, us).Ok?
    ensures SpellsEntry(t, ParseEntry(s, size, us).value.value, size, us) && s == t + ParseEntry(s, size, us).value.rest
  {
    hide SpellsInt, Decode;
    var p := ParseEntry(s, size, us).value;
    TakeFullShape(s, size);
    var d := TakeFull(s, size).value;
    var u := ParseUncompressedDigest(d.rest, size, us).value;
    var ud := if us then u.value.value else [];
    if us {
      TakeFullShape(d.rest, size);
    }
    assert d.rest == ud + u.rest;
    var c := SpeltInt(u.rest);
    var comp := Decode(u.rest).value;
    var n := SpeltInt(comp.rest);
    t := d.value + (ud + (c + n));
    Regroup(d.value, ud, c, n, p.rest);
  }

  lemma {:induction false} ReadEntriesSpelt(t: Bytes, es: seq<Entry>, size: nat, us: bool)
    requires SpellsEntries(t, es, size, us)
    ensures ParseEntries(t, size, us) == Ok(es)
    decreases |es|
  {
    hide SpellsEntry, ParseEntry;
    if es != [] {
      var a, b :| SpellsEntry(a, es[0], size, us) && SpellsEntries(b, es[1..], size, us) && t == a + b;
      ReadEntrySpelt(a, es[0], size, us, b);
      ReadEntriesSpelt(b, es[1..], size, us);
      assert [es[0]] + es[1..] == es;
    }
  }

  lemma {:induction false} SpeltEntries(s: Bytes, size: nat, us: bool)
    requires ParseEntries(s, size, us).Ok?
    ensures SpellsEntries(s, ParseEntries(s, size, us).value, size, us)
    decreases |s|
  {
    hide SpellsEntry, ParseEntry;
    if s != [] {
      ParsedEntryShrinks(s, size, us);
      var a := SpeltEntry(s, size, us);
      var first := ParseEntry(s, size, us).value;
      SpeltEntries(first.rest, size, us);
      var others := ParseEntries(first.rest, size, us).value;
      assert ([first.value] + others)[0] == first.value && ([first.value] + others)[1..] == others;
    }
  }

  lemma ReadIndexBodySpelt(t: Bytes, idx: Index, us: bool)
    requires SpellsIndexBody(t, idx, us)
    ensures ParseIndexBody(t, us) == Ok(idx)
  {
    hide SpellsInt, SpellsEntries, Decode, ParseEntries;
    var size := DigestBytes(idx.ckType);
    var a, k, o :| SpellsInt(a, idx.ckType) && SpellsInt(k, |idx.chunks|)
      && SpellsEntries(o, idx.chunks, size, us) && t == a + (k + o);
    DigestLengths(idx.ckType);
    ReadInt(a, idx.ckType, k + o);
    ReadInt(k, |idx.chunks|, o);
    ReadEntriesSpelt(o, idx.chunks, size, us);
  }

  lemma SpeltIndexBody(s: Bytes, us: bool)
    requires ParseIndexBody(s, us).Ok?
    ensures SpellsIndexBody(s, ParseIndexBody(s, us).value, us)
  {
    hide SpellsInt, SpellsEntries, Decode, ParseEntries;
    var a := SpeltInt(s);
    var t := Decode(s).value;
    var k := SpeltInt(t.rest);
    var count := Decode(t.rest).value;
    DigestLengths(t.value);
    SpeltEntries(count.rest, SizeOf(t.value), us);
    assert s == a + (k + count.rest);
  }

  lemma IndexGrammar(s: Bytes, us: bool, idx: Index, rest: Bytes)
    ensures ParseIndex(s, us) == Ok(Parsed(idx, rest)) <==> exists t :: SpellsIndex(t, idx, us) && s == t + rest
  {
    hide SpellsInt, SpellsIndexBody, Decode, ParseIndexBody;
    if ParseIndex(s, us) == Ok(Parsed(idx, rest)) {
      var n := SpeltInt(s);
      var size := Decode(s).value;
      TakeFullShape(size.rest, size.value);
      var b := TakeFull(size.rest, size.value).value;
      SpeltIndexBody(b.value, us);
      Assoc(n, b.value, rest);
      assert SpellsIndex(n + b.value, idx, us);
    }
    if t :| SpellsIndex(t, idx, us) && s == t + rest {
      var n, b :| SpellsInt(n, |b|) && SpellsIndexBody(b, idx, us) && t == n + b;
      Assoc(n, b, rest);
      ReadInt(n, |b|, b + rest);
      TakeFullAppend(b, rest);
      ReadIndexBodySpelt(b, idx, us);
    }
  }

  /** An unknown type is refused, and so is a count that is not that of the entries. */
  lemma IndexRefuses(a: Bytes, t: nat, k: Bytes, count: nat, o: Bytes, es: seq<Entry>, us: bool)
    requires SpellsInt(a, t) && SpellsInt(k, count)
    ensures t > 3 ==> ParseIndexBody(a + (k + o), us) == Err(UnknownChecksumType(t))
    ensures t <= 3 && SpellsEntries(o, es, DigestBytes(t), us) && |es| != count ==>
              ParseIndexBody(a + (k + o), us) == Err(CountMismatch(count, |es|))
  {
    hide SpellsInt, SpellsEntries, Decode, ParseEntries;
    DigestLengths(t);
    ReadInt(a, t, k + o);
    ReadInt(k, count, o);
    if t <= 3 && SpellsEntries(o, es, DigestBytes(t), us) {
      ReadEntriesSpelt(o, es, DigestBytes(t), us);
    }
  }

  /** An entry can be written when its digests have the right lengths. */
  predicate DigestsFit(e: Entry, size: nat, us: bool) {
    |e.digest| == size && (us ==> e.uncompressedDigest.Some? && |e.uncompressedDigest.value| == size)
  }

  /** The error for an entry with a digest of the wrong length. */
  function Misfit(e: Entry, i: nat, size: nat): Error {
    if |e.digest| != size then DigestLength(i) else UncompressedDigestLength(i)
  }

  /**
   An index is written exactly when its type is known and all digests fit; else the first entry that
   does not is named.
   */
  lemma IndexIsWritten(idx: Index, us: bool)
    ensures PrintIndex(idx, us).Ok? <==>
            idx.ckType <= 3 && forall i :: 0 <= i < |idx.chunks| ==>
                DigestsFit(idx.chunks[i], DigestBytes(idx.ckType), us)
    ensures idx.ckType > 3 ==> PrintIndex(idx, us) == Err(UnknownChecksumType(idx.ckType))
    ensures idx.ckType <= 3 && PrintIndex(idx, us).Err? ==>
              exists i :: && 0 <= i < |idx.chunks| && !DigestsFit(idx.chunks[i], DigestBytes(idx.ckType), us)
                          && (forall j :: 0 <= j < i ==> DigestsFit(idx.chunks[j], DigestBytes(idx.ckType), us))
                          && PrintIndex(idx, us).error == Misfit(idx.chunks[i], i, DigestBytes(idx.ckType))
  {
    hide IndexBody, DigestsFit, Misfit;
    DigestLengths(idx.ckType);
    if idx.ckType <= 3 {
      var i := FirstUnwritable(idx.chunks, 0, DigestBytes(idx.ckType), us);
    }
  }

  lemma {:induction false} FirstUnwritable(chunks: seq<Entry>, i: nat, size: nat, us: bool) returns (k: nat)
    requires i <= |chunks|
    ensures i <= k <= |chunks| && forall j :: i <= j < k ==> DigestsFit(chunks[j], size, us)
    ensures k == |chunks| ==> EntriesError(chunks, i, size, us) == None
    ensures k < |chunks| ==> !DigestsFit(chunks[k], size, us)
    ensures k < |chunks| ==> EntriesError(chunks, i, size, us) == Some(Misfit(chunks[k], k, size))
    decreases |chunks| - i
  {
    k := i;
    if i < |chunks| && EntryError(chunks[i], i, size, us).None? {
      k := FirstUnwritable(chunks, i + 1, size, us);
    }
  }

  // ---------------------------------------------------------------- signatures

  lemma SignaturesGrammar(s: Bytes, count: nat, rest: Bytes)
    ensures ParseSignatures(s) == Ok(Parsed(count, rest)) <==>
            count == 0 && exists t :: SpellsInt(t, 0) && s == t + rest
    ensures PrintSignatures(count).Ok? <==> count == 0
  {
    hide Decode, SpellsInt;
    IntGrammar(s, 0, rest);
  }

  // ---------------------------------------------------------------- the whole header

  /** Preface, index and a zero count of signatures, one behind the other. */
  ghost predicate SpellsFields(t: Bytes, v: Fields, ckType: nat) {
    && v.signatures == 0
    && exists p, i, g :: SpellsPreface(p, v.preface, ckType) &&
        SpellsIndex(i, v.index, SaysUncompressed(v.preface.flags))
                         && SpellsInt(g, 0) && t == p + (i + g)
  }

  lemma PrefaceFlags(t: Bytes, p: Preface, ckType: nat)
    requires SpellsPreface(t, p, ckType)
    ensures SaysUncompressed(p.flags) == UncompressedSource(p.flags)
  {
    FlagsMean(p.flags, 0);
  }

  lemma FieldsGrammar(s: Bytes, ckType: nat, v: Fields, rest: Bytes)
    ensures ParseFields(s, ckType) == Ok(Parsed(v, rest)) <==> exists t :: SpellsFields(t, v, ckType) && s == t + rest
  {
    hide SpellsPreface, SpellsIndex, SpellsInt, ParsePreface, ParseIndex;
    hide ParseSignatures, SaysUncompressed, UncompressedSource;
    if ParseFields(s, ckType) == Ok(Parsed(v, rest)) {
      var p := ParsePreface(s, ckType).value;
      var i := ParseIndex(p.rest, UncompressedSource(p.value.flags)).value;
      PrefaceGrammar(s, ckType, p.value, p.rest);
      var pt :| SpellsPreface(pt, p.value, ckType) && s == pt + p.rest;
      PrefaceFlags(pt, p.value, ckType);
      IndexGrammar(p.rest, UncompressedSource(p.value.flags), i.value, i.rest);
      var it :| SpellsIndex(it, i.value, UncompressedSource(p.value.flags)) && p.rest == it + i.rest;
      SignaturesGrammar(i.rest, v.signatures, rest);
      var gt :| SpellsInt(gt, 0) && i.rest == gt + rest;
      Assoc(pt, it + gt, rest);
      Assoc(it, gt, rest);
      assert SpellsFields(pt + (it + gt), v, ckType);
    }
    if t :| SpellsFields(t, v, ckType) && s == t + rest {
      var pt, it, gt :| SpellsPreface(pt, v.preface, ckType) &&
          SpellsIndex(it, v.index, SaysUncompressed(v.preface.flags))
        && SpellsInt(gt, 0) && t == pt + (it + gt);
      Assoc(pt, it + gt, rest);
      Assoc(it, gt, rest);
      PrefaceFlags(pt, v.preface, ckType);
      PrefaceGrammar(s, ckType, v.preface, it + (gt + rest));
      IndexGrammar(it + (gt + rest), SaysUncompressed(v.preface.flags), v.index, gt + rest);
      SignaturesGrammar(gt + rest, 0, rest);
    }
  }

  ghost predicate BeginsWith(header: Bytes, v: Fields, ckType: nat) {
    exists t, left :: SpellsFields(t, v, ckType) && header == t + left
  }

  /** The bytes of a header: a lead, and as many bytes as it says, of the digest it says, that begin with the fields. */
  ghost predicate SpellsHeader(h: Hasher, lb: Bytes, header: Bytes, rh: RemoteHeader) {
    && SpellsLead(lb, rh.lead) && |header| == rh.lead.headerSize
    && h(rh.lead.ckType, SpeltInput(rh.lead.ckType, rh.lead.headerSize, header)) == rh.lead.headerChecksum
    && BeginsWith(header, Fields(rh.preface, rh.index, rh.signatures), rh.lead.ckType)
    && rh.headerBytes == lb + header && rh.bodyOffset == |lb| + |header|
  }

  /** The streaming reader accepts exactly the headers, whatever follows, and leaves the reader behind them. */
  lemma HeaderGrammar(h: Hasher, s: Bytes, rh: RemoteHeader, rest: Bytes)
    ensures StreamedHeader(h, s) == Ok(Parsed(rh, rest))
            <==> exists lb, header :: SpellsHeader(h, lb, header, rh) && s == lb + (header + rest)
  {
    hide SpellsLead, SpellsFields, ParseLead, ParseFields, Verify, SpeltInput, RecomputedLength, PrintLead;
    if StreamedHeader(h, s) == Ok(Parsed(rh, rest)) {
      var p := ParseLead(s).value;
      var lb := SpeltHeader(h, s);
      var header := TakeFull(p.rest, p.value.headerSize).value;
      TakeFullShape(p.rest, p.value.headerSize);
      assert SpellsHeader(h, lb, header.value, rh);
    }
    if lb, header :| SpellsHeader(h, lb, header, rh) && s == lb + (header + rest) {
      ReadHeaderSpelt(h, lb, header, rh, rest);
    }
  }

  lemma SpeltHeader(h: Hasher, s: Bytes) returns (lb: Bytes)
    requires StreamedHeader(h, s).Ok?
    ensures ParseLead(s).Ok? && s == lb + ParseLead(s).value.rest
    ensures TakeFull(ParseLead(s).value.rest, ParseLead(s).value.value.headerSize).Ok?
    ensures SpellsHeader(h, lb, TakeFull(ParseLead(s).value.rest, ParseLead(s).value.value.headerSize).value.value,
                         StreamedHeader(h, s).value.value)
  {
    hide SpellsLead, SpellsFields, ParseLead, ParseFields, SpeltInput, Verify, RecomputedLength, PrintLead;
    var p := ParseLead(s).value;
    LeadGrammar(s, p.value, p.rest);
    lb :| SpellsLead(lb, p.value) && s == lb + p.rest;
    assert s[..|s| - |p.rest|] == lb;
    var header := TakeFull(p.rest, p.value.headerSize).value.value;
    VerifyExactly(h, p.value, header);
    var v := ParseFields(header, p.value.ckType).value;
    FieldsGrammar(header, p.value.ckType, v.value, v.rest);
    RecomputedLengthBound(s);
  }

  lemma ReadHeaderSpelt(h: Hasher, lb: Bytes, header: Bytes, rh: RemoteHeader, rest: Bytes)
    requires SpellsHeader(h, lb, header, rh)
    ensures StreamedHeader(h, lb + (header + rest)) == Ok(Parsed(rh, rest))
  {
    hide SpellsFields, SpellsLead, ParseLead, ParseFields, SpeltInput, RecomputedLength, PrintLead, Verify;
    var s := lb + (header + rest);
    LeadGrammar(s, rh.lead, header + rest);
    KnownLead(lb, rh.lead);
    VerifyExactly(h, rh.lead, header);
    BeginsWithFields(h, lb, header, rh);
    TakeFullAppend(lb, header + rest);
    TakeFullAppend(header, rest);
    assert |s| - |header + rest| == |lb|;
  }

  lemma KnownLead(t: Bytes, l: Lead)
    requires SpellsLead(t, l)
    ensures l.ckType <= 3
  {
  }

  lemma BeginsWithFields(h: Hasher, lb: Bytes, header: Bytes, rh: RemoteHeader)
    requires SpellsHeader(h, lb, header, rh)
    ensures var p := ParseFields(header, rh.lead.ckType);
            p.Ok? && p.value.value == Fields(rh.preface, rh.index, rh.signatures)
  {
    hide SpellsFields, SpellsLead, ParseFields, SpeltInput;
    var v := Fields(rh.preface, rh.index, rh.signatures);
    var t, left :| SpellsFields(t, v, rh.lead.ckType) && header == t + left;
    FieldsGrammar(header, rh.lead.ckType, v, left);
  }
}
