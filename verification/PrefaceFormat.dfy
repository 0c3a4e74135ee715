/** The preface: data checksum, flags, compression type and the optional elements. */
module PrefaceFormat {
  import opened Base
  import opened CompressedInt
  import opened Checksum

  // Flag bits: 1 data streams, 2 optional elements, 4 uncompressed source. No other bit is known.
  const FLAG_OPTIONAL_ELEMENTS := 2
  const FLAG_UNCOMPRESSED_SOURCE := 4
  const KNOWN_FLAGS := 7

  const COMPRESSION_NONE := 0
  const COMPRESSION_ZSTD := 2

  predicate ValidCompression(c: nat) {
    c == COMPRESSION_NONE || c == COMPRESSION_ZSTD
  }

  datatype OptionalElement = OptionalElement(id: uint64, data: Bytes)

  datatype Preface = Preface(dataChecksum: Bytes, flags: uint64, compression: uint64, elements: seq<OptionalElement>)

  predicate HasOptionalElements(flags: nat) {
    flags / FLAG_OPTIONAL_ELEMENTS % 2 == 1
  }

  predicate UncompressedSource(flags: nat) {
    flags / FLAG_UNCOMPRESSED_SOURCE % 2 == 1
  }

  /** The bits of flags outside the known ones: `flags &^ knownFlags`. */
  function UnknownBits(flags: nat): nat {
    flags / (KNOWN_FLAGS + 1) * (KNOWN_FLAGS + 1)
  }

  // ---------------------------------------------------------------- reading

  function ParseElement(s: Bytes): Result<Parsed<OptionalElement>> {
    var id :- Decode(s);
    var size :- Decode(id.rest);
    var data :- TakeFull(size.rest, size.value);
    Ok(Parsed(OptionalElement(id.value, data.value), data.rest))
  }

  function ParseElements(s: Bytes, count: nat): Result<Parsed<seq<OptionalElement>>> {
    if count == 0 then Ok(Parsed([], s)) else
      var first :- ParseElement(s);
      var others :- ParseElements(first.rest, count - 1);
      Ok(Parsed([first.value] + others.value, others.rest))
  }

  function ParseFlags(s: Bytes): Result<Parsed<uint64>> {
    var flags :- Decode(s);
    if UnknownBits(flags.value) != 0 then Err(UnknownFlags(UnknownBits(flags.value))) else Ok(flags)
  }

  function ParseCompression(s: Bytes): Result<Parsed<uint64>> {
    var c :- Decode(s);
    if !ValidCompression(c.value) then Err(UnknownCompression(c.value)) else Ok(c)
  }

  function ParseOptional(s: Bytes, flags: nat): Result<Parsed<seq<OptionalElement>>> {
    if !HasOptionalElements(flags) then Ok(Parsed([], s)) else
      var count :- Decode(s);
      ParseElements(count.rest, count.value)
  }

  function ParsePreface(s: Bytes, ckType: nat): Result<Parsed<Preface>> {
    var size :- Size(ckType);
    var sum :- TakeFull(s, size);
    var flags :- ParseFlags(sum.rest);
    var c :- ParseCompression(flags.rest);
    var els :- ParseOptional(c.rest, flags.value);
    Ok(Parsed(Preface(sum.value, flags.value, c.value, els.value), els.rest))
  }

  // ---------------------------------------------------------------- writing

  function PrintElement(e: OptionalElement): Bytes {
    Encode(e.id) + (Encode(|e.data|) + e.data)
  }

  function PrintElements(els: seq<OptionalElement>): Bytes {
    if els == [] then [] else PrintElement(els[0]) + PrintElements(els[1..])
  }

  function PrintOptional(els: seq<OptionalElement>): Bytes {
    if els == [] then [] else Encode(|els|) + PrintElements(els)
  }

  function PrefaceError(p: Preface): Option<Error> {
    if UnknownBits(p.flags) != 0 then Some(UnknownFlags(UnknownBits(p.flags)))
    else if !ValidCompression(p.compression) then Some(UnknownCompression(p.compression))
    else if HasOptionalElements(p.flags) != (p.elements != []) then Some(FlagDisagrees(|p.elements|))
    else None
  }

  function PrefaceBytes(p: Preface): Bytes {
    p.dataChecksum + (Encode(p.flags) + (Encode(p.compression) + PrintOptional(p.elements)))
  }

  function PrintPreface(p: Preface): Result<Bytes> {
    match PrefaceError(p)
    case Some(e) => Err(e)
    case None => Ok(PrefaceBytes(p))
  }

  /** The counts and sizes to be written are uint64 values, as every Go length is. */
  ghost predicate LengthsFit(els: seq<OptionalElement>) {
    |els| < TWO64 && forall e :: e in els ==> |e.data| < TWO64
  }

  // ---------------------------------------------------------------- properties

  lemma {:induction false} ElementsRoundTrip(els: seq<OptionalElement>, rest: Bytes)
    requires forall e :: e in els ==> |e.data| < TWO64
    ensures ParseElements(PrintElements(els) + rest, |els|) == Ok(Parsed(els, rest))
  {
    if els == [] {
      assert [] + rest == rest;
    } else {
      var e, tail := els[0], PrintElements(els[1..]) + rest;
      Assoc(PrintElement(e), PrintElements(els[1..]), rest);
      ElementRoundTrip(e, tail);
      ElementsRoundTrip(els[1..], rest);
      assert els == [e] + els[1..];
    }
  }

  lemma ElementRoundTrip(e: OptionalElement, rest: Bytes)
    requires |e.data| < TWO64
    ensures ParseElement(PrintElement(e) + rest) == Ok(Parsed(e, rest))
  {
    Assoc(Encode(e.id), Encode(|e.data|) + e.data, rest);
    Assoc(Encode(|e.data|), e.data, rest);
    DecodeEncode(e.id, Encode(|e.data|) + (e.data + rest));
    DecodeEncode(|e.data|, e.data + rest);
    TakeFullAppend(e.data, rest);
  }

  lemma OptionalRoundTrip(els: seq<OptionalElement>, flags: nat, rest: Bytes)
    requires LengthsFit(els) && HasOptionalElements(flags) == (els != [])
    ensures ParseOptional(PrintOptional(els) + rest, flags) == Ok(Parsed(els, rest))
  {
    if els == [] {
      assert [] + rest == rest;
    } else {
      Assoc(Encode(|els|), PrintElements(els), rest);
      DecodeEncode(|els|, PrintElements(els) + rest);
      ElementsRoundTrip(els, rest);
    }
  }

  /** Parsing undoes printing whatever follows, for every preface that can be printed. */
  lemma PrefaceRoundTrip(p: Preface, ckType: nat, rest: Bytes)
    requires PrintPreface(p).Ok? && LengthsFit(p.elements)
    requires Known(ckType) && |p.dataChecksum| == SizeOf(ckType)
    ensures ParsePreface(PrintPreface(p).value + rest, ckType) == Ok(Parsed(p, rest))
  {
    var opt := PrintOptional(p.elements);
    Regroup(p.dataChecksum, Encode(p.flags), Encode(p.compression), opt, rest);
    OptionalRoundTrip(p.elements, p.flags, rest);
    FixedFieldsReadBack(p, ckType, opt + rest, rest);
  }

  lemma FixedFieldsReadBack(p: Preface, ckType: nat, tail: Bytes, rest: Bytes)
    requires UnknownBits(p.flags) == 0 && ValidCompression(p.compression)
    requires Known(ckType) && |p.dataChecksum| == SizeOf(ckType)
    requires ParseOptional(tail, p.flags) == Ok(Parsed(p.elements, rest))
    ensures ParsePreface(p.dataChecksum + (Encode(p.flags) + (Encode(p.compression) + tail)), ckType)
            == Ok(Parsed(p, rest))
  {
    hide Decode;
    TakeFullAppend(p.dataChecksum, Encode(p.flags) + (Encode(p.compression) + tail));
    DecodeEncode(p.flags, Encode(p.compression) + tail);
    DecodeEncode(p.compression, tail);
  }

  lemma ParsedElement(s: Bytes)
    requires ParseElement(s).Ok?
    ensures var p := ParseElement(s).value;
            |p.value.data| < TWO64 && |p.rest| < |s| && Reprints(s, PrintElement(p.value), p.rest)
  {
    hide Decode, Encode, IsCode, Value, Reprints;
    DecodeConsumes(s);
    var id := Decode(s).value;
    DecodeConsumes(id.rest);
    var size := Decode(id.rest).value;
    var data := TakeFull(size.rest, size.value).value;
    ReprintsInt(s);
    ReprintsInt(id.rest);
    ReprintsTaken(size.rest, size.value);
    ReprintsSeq(id.rest, Encode(size.value), size.rest, data.value, data.rest);
    ReprintsSeq(s, Encode(id.value), id.rest, Encode(size.value) + data.value, data.rest);
  }

  lemma {:induction false} ParsedElements(s: Bytes, count: nat)
    requires ParseElements(s, count).Ok?
    ensures var p := ParseElements(s, count).value;
            && |p.value| == count && (forall e :: e in p.value ==> |e.data| < TWO64)
            && Reprints(s, PrintElements(p.value), p.rest)
    decreases count
  {
    hide ParseElement, PrintElement, Reprints;
    if count > 0 {
      ParsedElement(s);
      var first := ParseElement(s).value;
      ParsedElements(first.rest, count - 1);
      var others := ParseElements(first.rest, count - 1).value;
      PrintCons(first.value, others.value);
      ReprintsSeq(s, PrintElement(first.value), first.rest, PrintElements(others.value), others.rest);
    } else {
      ReprintsNothing(s);
    }
  }

  lemma PrintCons(e: OptionalElement, els: seq<OptionalElement>)
    ensures PrintElements([e] + els) == PrintElement(e) + PrintElements(els)
  {
    assert ([e] + els)[1..] == els;
  }

  lemma ParsedOptional(s: Bytes, flags: nat)
    requires ParseOptional(s, flags).Ok?
    ensures var p := ParseOptional(s, flags).value;
            && LengthsFit(p.value) && (p.value != [] ==> HasOptionalElements(flags))
            && |p.rest| <= |s|
            && (HasOptionalElements(flags) == (p.value != []) ==> Reprints(s, PrintOptional(p.value), p.rest))
  {
    hide Decode, Encode, ParseElements, PrintElements;
    if HasOptionalElements(flags) {
      DecodeConsumes(s);
      var count := Decode(s).value;
      ParsedElements(count.rest, count.value);
      var els := ParseElements(count.rest, count.value).value;
      ReprintsInt(s);
      ReprintsSeq(s, Encode(count.value), count.rest, PrintElements(els.value), els.rest);
    } else {
      ReprintsNothing(s);
    }
  }

  /**
   An accepted preface can be written again unless it has the optional-element flag with zero
   elements; then the new bytes are no longer than those consumed, of equal length only if they are
   the same, and denote the same preface.
   */
  lemma PrefaceCanonical(s: Bytes, ckType: nat, rest: Bytes)
    requires ParsePreface(s, ckType).Ok?
    ensures var p := ParsePreface(s, ckType).value;
            && |p.rest| <= |s| && |p.value.dataChecksum| == SizeOf(ckType) && Known(ckType)
            && (PrintPreface(p.value).Ok? <==> !(HasOptionalElements(p.value.flags) && p.value.elements == []))
            && (PrintPreface(p.value).Ok? ==>
                  && Reprints(s, PrintPreface(p.value).value, p.rest)
                  && ParsePreface(PrintPreface(p.value).value + rest, ckType) == Ok(Parsed(p.value, rest)))
  {
    hide Decode, Encode, ParseOptional, PrintOptional, Reprints;
    var p := ParsePreface(s, ckType).value;
    var sum := TakeFull(s, SizeOf(ckType)).value;
    var flags := ParseFlags(sum.rest).value;
    var c := ParseCompression(flags.rest).value;
    ParsedOptional(c.rest, flags.value);
    ReprintsTaken(s, SizeOf(ckType));
    ReprintsInt(sum.rest);
    ReprintsInt(flags.rest);
    ReprintsShrinks(s, sum.value, sum.rest);
    ReprintsShrinks(sum.rest, Encode(flags.value), flags.rest);
    ReprintsShrinks(flags.rest, Encode(c.value), c.rest);
    if PrintPreface(p.value).Ok? {
      PrefaceRoundTrip(p.value, ckType, rest);
      var opt := PrintOptional(p.value.elements);
      ReprintsSeq(flags.rest, Encode(c.value), c.rest, opt, p.rest);
      ReprintsSeq(sum.rest, Encode(flags.value), flags.rest, Encode(c.value) + opt, p.rest);
      ReprintsSeq(s, sum.value, sum.rest, Encode(flags.value) + (Encode(c.value) + opt), p.rest);
    }
  }

  /** The exception does occur: flags 2 with a count of zero is read but cannot be written. */
  lemma FlagWithoutElements(sum: Bytes)
    requires |sum| == SizeOf(SHA256)
    ensures var p := Preface(sum, FLAG_OPTIONAL_ELEMENTS, COMPRESSION_ZSTD, []);
            && ParsePreface(sum + (Encode(2) + (Encode(2) + Encode(0))), SHA256) == Ok(Parsed(p, []))
            && PrintPreface(p) == Err(FlagDisagrees(0))
  {
    hide Decode, Encode;
    TakeFullAppend(sum, Encode(2) + (Encode(2) + Encode(0)));
    DecodeEncode(2, Encode(2) + Encode(0));
    DecodeEncode(2, Encode(0));
    assert Encode(0) + [] == Encode(0);
    DecodeEncode(0, []);
  }

  /** The lengths written into a preface are below the length of its bytes. */
  lemma {:induction false} ElementsFit(els: seq<OptionalElement>)
    ensures |els| <= |PrintElements(els)|
    ensures forall e :: e in els ==> |e.data| <= |PrintElements(els)|
  {
    if els != [] {
      ElementsFit(els[1..]);
      EncodeFits(els[0].id);
    }
  }

  // ---------------------------------------------------------------- the code

  method ReadPreface(r: Reader, ckType: nat) returns (res: Result<Preface>)
    requires r.Valid()
    modifies r`pos
    ensures r.Valid() && old(r.pos) <= r.pos
    ensures match ParsePreface(old(r.Rest()), ckType)
            case Ok(p) => res == Ok(p.value) && r.Rest() == p.rest
            case Err(e) => res == Err(r.Seen(e))
  {
    hide Decode, ParseElements;
    var size := Size(ckType);
    if size.Err? {
      return Err(size.error);
    }
    var sum := r.ReadFull(size.value);
    if sum.Err? {
      return Err(sum.error);
    }
    var flags := ReadFlags(r);
    if flags.Err? {
      return Err(flags.error);
    }
    var c := ReadCompression(r);
    if c.Err? {
      return Err(c.error);
    }
    if !HasOptionalElements(flags.value) {
      return Ok(Preface(sum.value, flags.value, c.value, []));
    }
    var els := ReadElements(r);
    if els.Err? {
      return Err(els.error);
    }
    res := Ok(Preface(sum.value, flags.value, c.value, els.value));
  }

  method ReadFlags(r: Reader) returns (res: Result<uint64>)
    requires r.Valid()
    modifies r`pos
    ensures r.Valid() && old(r.pos) <= r.pos
    ensures match ParseFlags(old(r.Rest()))
            case Ok(p) => res == Ok(p.value) && r.Rest() == p.rest
            case Err(e) => res == Err(r.Seen(e))
  {
    res := ReadCompressedInt(r);
    if res.Ok? && UnknownBits(res.value) != 0 {
      res := Err(UnknownFlags(UnknownBits(res.value)));
    }
  }

  method ReadCompression(r: Reader) returns (res: Result<uint64>)
    requires r.Valid()
    modifies r`pos
    ensures r.Valid() && old(r.pos) <= r.pos
    ensures match ParseCompression(old(r.Rest()))
            case Ok(p) => res == Ok(p.value) && r.Rest() == p.rest
            case Err(e) => res == Err(r.Seen(e))
  {
    res := ReadCompressedInt(r);
    if res.Ok? && !ValidCompression(res.value) {
      res := Err(UnknownCompression(res.value));
    }
  }

  method ReadElement(r: Reader) returns (res: Result<OptionalElement>)
    requires r.Valid()
    modifies r`pos
    ensures r.Valid() && old(r.pos) <= r.pos
    ensures match ParseElement(old(r.Rest()))
            case Ok(p) => res == Ok(p.value) && r.Rest() == p.rest
            case Err(e) => res == Err(r.Seen(e))
  {
    var id := ReadCompressedInt(r);
    if id.Err? {
      return Err(id.error);
    }
    var size := ReadCompressedInt(r);
    if size.Err? {
      return Err(size.error);
    }
    var data := r.ReadFull(size.value);
    if data.Err? {
      return Err(data.error);
    }
    res := Ok(OptionalElement(id.value, data.value));
  }

  /** Prepending already read elements to what a parser of the remaining ones yields. */
  ghost function Prepend(els: seq<OptionalElement>,
                         tail: Result<Parsed<seq<OptionalElement>>>): Result<Parsed<seq<OptionalElement>>> {
    match tail
    case Err(e) => Err(e)
    case Ok(p) => Ok(Parsed(els + p.value, p.rest))
  }

  method ReadElements(r: Reader) returns (res: Result<seq<OptionalElement>>)
    requires r.Valid()
    modifies r`pos
    ensures r.Valid() && old(r.pos) <= r.pos
    ensures match ParseOptional(old(r.Rest()), FLAG_OPTIONAL_ELEMENTS)
            case Ok(p) => res == Ok(p.value) && r.Rest() == p.rest
            case Err(e) => res == Err(r.Seen(e))
  {
    hide ParseElement, Decode;
    var count := ReadCompressedInt(r);
    if count.Err? {
      return Err(count.error);
    }
    ghost var whole := ParseElements(r.Rest(), count.value);
    var els: seq<OptionalElement> := [];
    PrependNone(whole);
    var i := 0;
    while i < count.value
      invariant 0 <= i <= count.value && |els| == i
      invariant r.Valid() && old(r.pos) <= r.pos
      invariant whole == Prepend(els, ParseElements(r.Rest(), count.value - i))
    {
      var e := ReadElement(r);
      if e.Err? {
        return Err(e.error);
      }
      PrependOne(els, e.value, ParseElements(r.Rest(), count.value - i - 1));
      els := els + [e.value];
      i := i + 1;
    }
    assert whole == Ok(Parsed(els, r.Rest())) by {
      assert els + [] == els;
    }
    res := Ok(els);
  }

  lemma PrependNone(tail: Result<Parsed<seq<OptionalElement>>>)
    ensures Prepend([], tail) == tail
  {
    if tail.Ok? {
      assert [] + tail.value.value == tail.value.value;
    }
  }

  lemma PrependOne(els: seq<OptionalElement>, e: OptionalElement, tail: Result<Parsed<seq<OptionalElement>>>)
    ensures Prepend(els + [e], tail) == Prepend(els, Prepend([e], tail))
  {
    if tail.Ok? {
      assert (els + [e]) + tail.value.value == els + ([e] + tail.value.value);
    }
  }

  method AppendElement(buf: Bytes, e: OptionalElement) returns (out: Bytes)
    requires |e.data| < TWO64
    ensures out == buf + PrintElement(e)
  {
    out := AppendCompressedInt(buf, e.id);
    out := AppendCompressedInt(out, |e.data|);
    out := out + e.data;
  }

  /** `Preface.WriteTo`. */
  method WritePreface(p: Preface, out: Sink) returns (n: nat, err: Option<Error>)
    requires LengthsFit(p.elements)
    modifies out
    ensures Written(out.data, n, err) == WriteOnce(out.writer, old(out.data), PrintPreface(p))
  {
    var content := SerialisePreface(p);
    if content.Err? {
      return 0, Some(content.error);
    }
    var a := out.Write(content.value);
    n, err := a.n, a.err;
  }

  /** The bytes that `Preface.WriteTo` hands to its writer. */
  method SerialisePreface(p: Preface) returns (res: Result<Bytes>)
    requires LengthsFit(p.elements)
    ensures res == PrintPreface(p)
  {
    hide Encode;
    if UnknownBits(p.flags) != 0 {
      return Err(UnknownFlags(UnknownBits(p.flags)));
    }
    if !ValidCompression(p.compression) {
      return Err(UnknownCompression(p.compression));
    }
    if HasOptionalElements(p.flags) != (|p.elements| > 0) {
      return Err(FlagDisagrees(|p.elements|));
    }
    var buf := AppendCompressedInt(p.dataChecksum, p.flags);
    buf := AppendCompressedInt(buf, p.compression);
    ghost var fixed := buf;
    if |p.elements| > 0 {
      buf := AppendCompressedInt(buf, |p.elements|);
      for i := 0 to |p.elements|
        invariant buf + PrintElements(p.elements[i..]) == fixed + PrintOptional(p.elements)
      {
        assert p.elements[i..][1..] == p.elements[i + 1..];
        Assoc(buf, PrintElement(p.elements[i]), PrintElements(p.elements[i + 1..]));
        buf := AppendElement(buf, p.elements[i]);
      }
    }
    assert buf == fixed + PrintOptional(p.elements);
    Assoc(p.dataChecksum + Encode(p.flags), Encode(p.compression), PrintOptional(p.elements));
    Assoc(p.dataChecksum, Encode(p.flags), Encode(p.compression) + PrintOptional(p.elements));
    res := Ok(buf);
  }
}
