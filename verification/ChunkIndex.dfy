/** The chunk index: one entry per chunk, chunk 0 being the dictionary. */
module ChunkIndex {
  import opened Base
  import opened CompressedInt
  import opened Checksum

  datatype Entry = Entry(digest: Bytes, uncompressedDigest: Option<Bytes>, compLength: uint64, length: uint64)

  datatype Index = Index(ckType: uint64, chunks: seq<Entry>)

  // ---------------------------------------------------------------- reading

  function ParseUncompressedDigest(s: Bytes, size: nat, us: bool): Result<Parsed<Option<Bytes>>> {
    if !us then Ok(Parsed(None, s)) else
      var d :- TakeFull(s, size);
      Ok(Parsed(Some(d.value), d.rest))
  }

  function ParseEntry(s: Bytes, size: nat, us: bool): Result<Parsed<Entry>> {
    var d :- TakeFull(s, size);
    var u :- ParseUncompressedDigest(d.rest, size, us);
    var c :- Decode(u.rest);
    var n :- Decode(c.rest);
    Ok(Parsed(Entry(d.value, u.value, c.value, n.value), n.rest))
  }

  /** Every accepted entry takes at least its digest and two bytes, so reading entries terminates. */
  lemma ParsedEntryShrinks(s: Bytes, size: nat, us: bool)
    requires ParseEntry(s, size, us).Ok?
    ensures |ParseEntry(s, size, us).value.rest| + size + 2 <= |s|
  {
    var u := ParseUncompressedDigest(TakeFull(s, size).value.rest, size, us).value;
    DecodeConsumes(u.rest);
    DecodeConsumes(Decode(u.rest).value.rest);
  }

  /** Entries are read until the index body is used up. */
  function ParseEntries(s: Bytes, size: nat, us: bool): Result<seq<Entry>>
    decreases |s|
  {
    if s == [] then Ok([]) else
      var first :- ParseEntry(s, size, us);
      ParsedEntryShrinks(s, size, us);
      var others :- ParseEntries(first.rest, size, us);
      Ok([first.value] + others)
  }

  function ParseIndexBody(s: Bytes, us: bool): Result<Index> {
    var t :- Decode(s);
    var size :- Size(t.value);
    var count :- Decode(t.rest);
    var chunks :- ParseEntries(count.rest, size, us);
    if |chunks| != count.value then Err(CountMismatch(count.value, |chunks|)) else Ok(Index(t.value, chunks))
  }

  function ParseIndex(s: Bytes, us: bool): Result<Parsed<Index>> {
    var n :- Decode(s);
    var body :- TakeFull(n.rest, n.value);
    match ParseIndexBody(body.value, us)
    case Err(e) => Err(InIndex(e))
    case Ok(idx) => Ok(Parsed(idx, body.rest))
  }

  // ---------------------------------------------------------------- writing

  function EntryError(e: Entry, i: nat, size: nat, us: bool): Option<Error> {
    if |e.digest| != size then Some(DigestLength(i))
    else if us && (e.uncompressedDigest.None? || |e.uncompressedDigest.value| != size) then
      Some(UncompressedDigestLength(i))
    else None
  }

  /** The error of the first chunk from i on that cannot be written. */
  function EntriesError(chunks: seq<Entry>, i: nat, size: nat, us: bool): (err: Option<Error>)
    ensures err == None <==> forall j :: i <= j < |chunks| ==> EntryError(chunks[j], j, size, us) == None
    decreases |chunks| - i
  {
    if i >= |chunks| then None
    else if EntryError(chunks[i], i, size, us).Some? then EntryError(chunks[i], i, size, us)
    else EntriesError(chunks, i + 1, size, us)
  }

  function PrintEntry(e: Entry, us: bool): Bytes {
    var u := if us && e.uncompressedDigest.Some? then e.uncompressedDigest.value else [];
    e.digest + (u + (Encode(e.compLength) + Encode(e.length)))
  }

  function PrintEntries(chunks: seq<Entry>, us: bool): Bytes {
    if chunks == [] then [] else PrintEntry(chunks[0], us) + PrintEntries(chunks[1..], us)
  }

  function IndexBody(idx: Index, us: bool): Bytes {
    Encode(idx.ckType) + (Encode(|idx.chunks|) + PrintEntries(idx.chunks, us))
  }

  function PrintIndex(idx: Index, us: bool): Result<Bytes> {
    var size :- Size(idx.ckType);
    match EntriesError(idx.chunks, 0, size, us)
    case Some(e) => Err(e)
    case None => Ok(Encode(|IndexBody(idx, us)|) + IndexBody(idx, us))
  }

  /** What a reader sees of an entry: no uncompressed digest unless the flag is set. */
  function Visible(e: Entry, us: bool): Entry {
    if us then e else e.(uncompressedDigest := None)
  }

  function VisibleAll(chunks: seq<Entry>, us: bool): (v: seq<Entry>)
    ensures |v| == |chunks| && forall i :: 0 <= i < |v| ==> v[i] == Visible(chunks[i], us)
  {
    seq(|chunks|, i requires 0 <= i < |chunks| => Visible(chunks[i], us))
  }

  function VisibleIndex(idx: Index, us: bool): Index {
    Index(idx.ckType, VisibleAll(idx.chunks, us))
  }

  // ---------------------------------------------------------------- properties

  lemma EntryRoundTrip(e: Entry, i: nat, size: nat, us: bool, rest: Bytes)
    requires EntryError(e, i, size, us) == None
    ensures ParseEntry(PrintEntry(e, us) + rest, size, us) == Ok(Parsed(Visible(e, us), rest))
  {
    var c, n := Encode(e.compLength), Encode(e.length);
    var u := if us && e.uncompressedDigest.Some? then e.uncompressedDigest.value else [];
    assert PrintEntry(e, us) + rest == e.digest + (u + (c + (n + rest))) by {
      Assoc(e.digest, u + (c + n), rest);
      Assoc(u, c + n, rest);
      Assoc(c, n, rest);
    }
    TakeFullAppend(e.digest, u + (c + (n + rest)));
    TakeFullAppend(u, c + (n + rest));
    assert !us ==> u + (c + (n + rest)) == c + (n + rest);
    DecodeEncode(e.compLength, n + rest);
    DecodeEncode(e.length, rest);
  }

  lemma {:induction false} EntriesRoundTrip(chunks: seq<Entry>, size: nat, us: bool)
    requires forall i :: 0 <= i < |chunks| ==> EntryError(chunks[i], i, size, us) == None
    ensures ParseEntries(PrintEntries(chunks, us), size, us) == Ok(VisibleAll(chunks, us))
  {
    hide ParseEntry, PrintEntry, EntryError, Visible;
    if chunks != [] {
      var tail := chunks[1..];
      forall i | 0 <= i < |tail|
        ensures EntryError(tail[i], i, size, us) == None
      {
        assert EntryError(chunks[i + 1], i + 1, size, us) == None;
        ErrorAnywhere(chunks[i + 1], i + 1, i, size, us);
      }
      EntryRoundTrip(chunks[0], 0, size, us, PrintEntries(tail, us));
      EntriesRoundTrip(tail, size, us);
      EntryNotEmpty(chunks[0], us);
      assert [Visible(chunks[0], us)] + VisibleAll(tail, us) == VisibleAll(chunks, us);
    }
  }

  /** Whether an entry can be written does not depend on its number. */
  lemma ErrorAnywhere(e: Entry, i: nat, j: nat, size: nat, us: bool)
    ensures EntryError(e, i, size, us) == None <==> EntryError(e, j, size, us) == None
  {
  }

  lemma EntryNotEmpty(e: Entry, us: bool)
    ensures |PrintEntry(e, us)| > 0
  {
    hide Encode;
    EncodeFits(e.length);
  }

  /** Parsing undoes printing whatever follows, up to digests that the flag hides. */
  lemma IndexRoundTrip(idx: Index, us: bool, rest: Bytes)
    requires PrintIndex(idx, us).Ok?
    requires |idx.chunks| < TWO64 && |IndexBody(idx, us)| < TWO64
    ensures ParseIndex(PrintIndex(idx, us).value + rest, us) == Ok(Parsed(VisibleIndex(idx, us), rest))
  {
    var body := IndexBody(idx, us);
    Assoc(Encode(|body|), body, rest);
    DecodeEncode(|body|, body + rest);
    TakeFullAppend(body, rest);
    IndexBodyRoundTrip(idx, us);
  }

  lemma IndexBodyRoundTrip(idx: Index, us: bool)
    requires PrintIndex(idx, us).Ok? && |idx.chunks| < TWO64
    ensures ParseIndexBody(IndexBody(idx, us), us) == Ok(VisibleIndex(idx, us))
  {
    hide Decode, Encode, ParseEntries, PrintEntries, VisibleAll;
    var entries := PrintEntries(idx.chunks, us);
    DecodeEncode(idx.ckType, Encode(|idx.chunks|) + entries);
    DecodeEncode(|idx.chunks|, entries);
    EntriesRoundTrip(idx.chunks, SizeOf(idx.ckType), us);
  }

  lemma ParsedEntry(s: Bytes, i: nat, size: nat, us: bool)
    requires ParseEntry(s, size, us).Ok?
    ensures var p := ParseEntry(s, size, us).value;
            && |p.rest| < |s| && EntryError(p.value, i, size, us) == None && Visible(p.value, us) == p.value
            && Reprints(s, PrintEntry(p.value, us), p.rest)
  {
    hide Decode, Encode, Reprints;
    ParsedEntryShrinks(s, size, us);
    var d := TakeFull(s, size).value;
    var u := ParseUncompressedDigest(d.rest, size, us).value;
    var c := Decode(u.rest).value;
    var n := Decode(c.rest).value;
    var ud := if u.value.Some? then u.value.value else [];
    ReprintsTaken(s, size);
    if us {
      ReprintsTaken(d.rest, size);
    } else {
      ReprintsNothing(d.rest);
    }
    ReprintsInt(u.rest);
    ReprintsInt(c.rest);
    ReprintsSeq(u.rest, Encode(c.value), c.rest, Encode(n.value), n.rest);
    ReprintsSeq(d.rest, ud, u.rest, Encode(c.value) + Encode(n.value), n.rest);
    ReprintsSeq(s, d.value, d.rest, ud + (Encode(c.value) + Encode(n.value)), n.rest);
  }

  lemma PrintCons(e: Entry, es: seq<Entry>, us: bool)
    ensures PrintEntries([e] + es, us) == PrintEntry(e, us) + PrintEntries(es, us)
  {
    assert ([e] + es)[1..] == es;
  }

  /** Entries that can be written and of which a reader sees everything. */
  ghost predicate Canonical(chunks: seq<Entry>, size: nat, us: bool) {
    forall e :: e in chunks ==> EntryError(e, 0, size, us) == None && Visible(e, us) == e
  }

  lemma {:induction false} ParsedEntries(s: Bytes, size: nat, us: bool)
    requires ParseEntries(s, size, us).Ok?
    ensures var es := ParseEntries(s, size, us).value;
            Canonical(es, size, us) && Reprints(s, PrintEntries(es, us), []) && |es| <= |s|
    decreases |s|
  {
    hide ParseEntry, PrintEntry, EntryError, Visible, Reprints;
    if s != [] {
      ParsedEntryShrinks(s, size, us);
      var first := ParseEntry(s, size, us).value;
      ParsedEntry(s, 0, size, us);
      ParsedEntries(first.rest, size, us);
      var others := ParseEntries(first.rest, size, us).value;
      PrintCons(first.value, others, us);
      ReprintsSeq(s, PrintEntry(first.value, us), first.rest, PrintEntries(others, us), []);
    } else {
      ReprintsNothing(s);
    }
  }

  /**
   An accepted index can be written again, in no more bytes than were consumed, in equally many only if
   they are the same, and denotes the same index.
   */
  lemma IndexCanonical(s: Bytes, us: bool, rest: Bytes)
    requires ParseIndex(s, us).Ok?
    ensures var p := ParseIndex(s, us).value;
            && PrintIndex(p.value, us).Ok? && VisibleIndex(p.value, us) == p.value
            && Reprints(s, PrintIndex(p.value, us).value, p.rest)
            && ParseIndex(PrintIndex(p.value, us).value + rest, us) == Ok(Parsed(p.value, rest))
  {
    hide Decode, Encode, IndexBody, ParseIndexBody, VisibleIndex, EntriesError;
    var p := ParseIndex(s, us).value;
    var n := Decode(s).value;
    var body := TakeFull(n.rest, n.value).value;
    IndexBodyCanonical(body.value, us);
    SizedReprint(s, IndexBody(p.value, us));
    IndexRoundTrip(p.value, us, rest);
  }

  /** A reprint of a part that is preceded by its size. */
  lemma SizedReprint(s: Bytes, b: Bytes)
    requires Decode(s).Ok? && TakeFull(Decode(s).value.rest, Decode(s).value.value).Ok?
    requires Reprints(TakeFull(Decode(s).value.rest, Decode(s).value.value).value.value, b, [])
    ensures Reprints(s, Encode(|b|) + b, TakeFull(Decode(s).value.rest, Decode(s).value.value).value.rest)
  {
    hide Decode, Encode;
    var n := Decode(s).value;
    var body := TakeFull(n.rest, n.value).value;
    ReprintsInt(s);
    EncodeMonotone(|b|, n.value);
    if |b| == n.value {
      assert b + [] == b;
      ReprintsTaken(n.rest, n.value);
      ReprintsSeq(s, Encode(n.value), n.rest, body.value, body.rest);
    }
  }

  lemma IndexBodyCanonical(s: Bytes, us: bool)
    requires ParseIndexBody(s, us).Ok?
    ensures var idx := ParseIndexBody(s, us).value;
            && PrintIndex(idx, us).Ok? && VisibleIndex(idx, us) == idx
            && Reprints(s, IndexBody(idx, us), []) && |idx.chunks| < TWO64
  {
    hide Decode, Encode, ParseEntries, PrintEntries, EntryError, Reprints;
    var t := Decode(s).value;
    var count := Decode(t.rest).value;
    var chunks := ParseIndexBody(s, us).value.chunks;
    ParsedEntries(count.rest, SizeOf(t.value), us);
    AllVisible(chunks, SizeOf(t.value), us);
    ReprintsInt(s);
    ReprintsInt(t.rest);
    ReprintsSeq(t.rest, Encode(count.value), count.rest, PrintEntries(chunks, us), []);
    ReprintsSeq(s, Encode(t.value), t.rest, Encode(count.value) + PrintEntries(chunks, us), []);
  }

  lemma AllVisible(chunks: seq<Entry>, size: nat, us: bool)
    requires Canonical(chunks, size, us)
    ensures VisibleAll(chunks, us) == chunks && EntriesError(chunks, 0, size, us) == None
  {
    hide EntryError, Visible;
    forall i | 0 <= i < |chunks|
      ensures EntryError(chunks[i], i, size, us) == None
    {
      ErrorAnywhere(chunks[i], 0, i, size, us);
    }
  }

  lemma {:induction false} EncodeMonotone(a: nat, b: nat)
    requires a <= b
    ensures |Encode(a)| <= |Encode(b)|
  {
    if a >= 0x80 {
      EncodeMonotone(a / 0x80, b / 0x80);
    }
  }

  /** The number of entries is below the number of bytes they take. */
  lemma {:induction false} EntriesFit(chunks: seq<Entry>, us: bool)
    ensures |chunks| <= |PrintEntries(chunks, us)|
  {
    if chunks != [] {
      EntriesFit(chunks[1..], us);
      EncodeFits(chunks[0].length);
    }
  }

  // ---------------------------------------------------------------- the code

  method ReadIndex(r: Reader, us: bool) returns (res: Result<Index>)
    requires r.Valid()
    modifies r`pos
    ensures r.Valid() && old(r.pos) <= r.pos
    ensures match ParseIndex(old(r.Rest()), us)
            case Ok(p) => res == Ok(p.value) && r.Rest() == p.rest
            case Err(e) => res == Err(r.Seen(e))
  {
    var n := ReadCompressedInt(r);
    if n.Err? {
      return Err(n.error);
    }
    var buf := r.ReadFull(n.value);
    if buf.Err? {
      return Err(buf.error);
    }
    res := ParseIndexBuffer(buf.value, us);
    if res.Err? {
      res := Err(InIndex(res.error));
    }
  }

  method ParseIndexBuffer(buf: Bytes, us: bool) returns (res: Result<Index>)
    ensures res == ParseIndexBody(buf, us)
  {
    hide Decode, ParseEntry;
    var rd := new Reader(buf);
    var rawType := ReadCompressedInt(rd);
    if rawType.Err? {
      return Err(rawType.error);
    }
    var size := Size(rawType.value);
    if size.Err? {
      return Err(size.error);
    }
    var declared := ReadCompressedInt(rd);
    if declared.Err? {
      return Err(declared.error);
    }
    ghost var whole := ParseEntries(rd.Rest(), size.value, us);
    var chunks: seq<Entry> := [];
    PrependNone(whole);
    while rd.pos < |rd.data|
      invariant rd.Valid() && fresh(rd)
      invariant whole == Prepend(chunks, ParseEntries(rd.Rest(), size.value, us))
      decreases |rd.data| - rd.pos
    {
      ghost var s := rd.Rest();
      var e := ReadEntry(rd, size.value, us);
      if e.Err? {
        return Err(e.error);
      }
      ParsedEntryShrinks(s, size.value, us);
      PrependOne(chunks, e.value, ParseEntries(rd.Rest(), size.value, us));
      chunks := chunks + [e.value];
    }
    assert whole == Ok(chunks) by {
      assert rd.Rest() == [];
      assert chunks + [] == chunks;
    }
    if |chunks| != declared.value {
      return Err(CountMismatch(declared.value, |chunks|));
    }
    res := Ok(Index(rawType.value, chunks));
  }

  method ReadEntry(rd: Reader, size: nat, us: bool) returns (res: Result<Entry>)
    requires rd.Valid()
    modifies rd`pos
    ensures rd.Valid() && old(rd.pos) <= rd.pos
    ensures match ParseEntry(old(rd.Rest()), size, us)
            case Ok(p) => res == Ok(p.value) && rd.Rest() == p.rest
            case Err(e) => res == Err(rd.Seen(e))
  {
    var d := rd.ReadFull(size);
    if d.Err? {
      return Err(d.error);
    }
    var u: Option<Bytes> := None;
    if us {
      var ud := rd.ReadFull(size);
      if ud.Err? {
        return Err(ud.error);
      }
      u := Some(ud.value);
    }
    var c := ReadCompressedInt(rd);
    if c.Err? {
      return Err(c.error);
    }
    var n := ReadCompressedInt(rd);
    if n.Err? {
      return Err(n.error);
    }
    res := Ok(Entry(d.value, u, c.value, n.value));
  }

  ghost function Prepend(chunks: seq<Entry>, tail: Result<seq<Entry>>): Result<seq<Entry>> {
    match tail
    case Err(e) => Err(e)
    case Ok(es) => Ok(chunks + es)
  }

  lemma PrependNone(tail: Result<seq<Entry>>)
    ensures Prepend([], tail) == tail
  {
    if tail.Ok? {
      assert [] + tail.value == tail.value;
    }
  }

  lemma PrependOne(chunks: seq<Entry>, e: Entry, tail: Result<seq<Entry>>)
    ensures Prepend(chunks + [e], tail) == Prepend(chunks, Prepend([e], tail))
  {
    if tail.Ok? {
      assert (chunks + [e]) + tail.value == chunks + ([e] + tail.value);
    }
  }

  /** `Index.WriteTo`. */
  method WriteIndex(idx: Index, us: bool, out: Sink) returns (n: nat, err: Option<Error>)
    requires |idx.chunks| < TWO64 && |IndexBody(idx, us)| < TWO64
    modifies out
    ensures Written(out.data, n, err) == WriteOnce(out.writer, old(out.data), PrintIndex(idx, us))
  {
    var content := SerialiseIndex(idx, us);
    if content.Err? {
      return 0, Some(content.error);
    }
    var a := out.Write(content.value);
    n, err := a.n, a.err;
  }

  /** The bytes that `Index.WriteTo` hands to its writer. */
  method SerialiseIndex(idx: Index, us: bool) returns (res: Result<Bytes>)
    requires |idx.chunks| < TWO64 && |IndexBody(idx, us)| < TWO64
    ensures res == PrintIndex(idx, us)
  {
    var size := Size(idx.ckType);
    if size.Err? {
      return Err(size.error);
    }
    var body := AppendCompressedInt([], idx.ckType);
    body := AppendCompressedInt(body, |idx.chunks|);
    assert body == Encode(idx.ckType) + Encode(|idx.chunks|);
    Assoc(Encode(idx.ckType), Encode(|idx.chunks|), PrintEntries(idx.chunks, us));
    assert idx.chunks[0..] == idx.chunks;
    for i := 0 to |idx.chunks|
      invariant body + PrintEntries(idx.chunks[i..], us) == IndexBody(idx, us)
      invariant EntriesError(idx.chunks, 0, size.value, us) == EntriesError(idx.chunks, i, size.value, us)
    {
      assert idx.chunks[i..][1..] == idx.chunks[i + 1..];
      Assoc(body, PrintEntry(idx.chunks[i], us), PrintEntries(idx.chunks[i + 1..], us));
      var next := AppendEntry(body, idx.chunks[i], i, size.value, us);
      if next.Err? {
        return Err(next.error);
      }
      body := next.value;
    }
    assert body == IndexBody(idx, us);
    var out := AppendCompressedInt([], |body|);
    assert out == Encode(|body|);
    res := Ok(out + body);
  }

  method AppendEntry(body: Bytes, e: Entry, i: nat, size: nat, us: bool) returns (res: Result<Bytes>)
    ensures res == match EntryError(e, i, size, us) case Some(err) => Err(err) case None => Ok(body + PrintEntry(e, us))
  {
    hide Encode;
    if |e.digest| != size {
      return Err(DigestLength(i));
    }
    var out := body + e.digest;
    if us {
      if e.uncompressedDigest.None? || |e.uncompressedDigest.value| != size {
        return Err(UncompressedDigestLength(i));
      }
      out := out + e.uncompressedDigest.value;
    }
    out := AppendCompressedInt(out, e.compLength);
    out := AppendCompressedInt(out, e.length);
    assert out == body + PrintEntry(e, us);
    res := Ok(out);
  }
}
