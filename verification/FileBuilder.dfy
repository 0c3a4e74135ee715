/** Building a file's index and body chunk by chunk. */
module FileBuilder {
  import opened Base
  import opened Checksum
  import opened PrefaceFormat
  import opened ChunkIndex
  import opened Delta
  import opened ChunkCodec

  /** What a builder is made for. */
  datatype Recipe = Recipe(h: Hasher, codec: Codec, ct: nat, ckType: nat, dict: Bytes) {
    /** `NewBuilder` accepts the recipe. */
    predicate Accepted() {
      ValidCompression(ct) && Known(ckType) && EncoderLoads(codec, ct, dict)
    }
  }

  /** Go's conversion of a length to uint64. */
  function Len64(x: Bytes): uint64 {
    |x| % TWO64
  }

  /** The dictionary chunk: nothing for an empty dictionary, else coded against no dictionary. */
  function DictChunk(r: Recipe): Bytes {
    if r.dict == [] then [] else Compressed(r.codec, r.ct, [], r.dict)
  }

  /** Chunk 0: zero lengths and an all-zero digest when the dictionary is empty. */
  function DictEntry(r: Recipe): Entry {
    if r.dict == [] then Entry(seq(SizeOf(r.ckType), i => 0), None, 0, 0)
    else Entry(r.h(r.ckType, DictChunk(r)), None, Len64(DictChunk(r)), Len64(r.dict))
  }

  function DataChunk(r: Recipe, plain: Bytes): Bytes {
    Compressed(r.codec, r.ct, r.dict, plain)
  }

  function DataEntry(r: Recipe, plain: Bytes): Entry {
    Entry(r.h(r.ckType, DataChunk(r, plain)), None, Len64(DataChunk(r, plain)), Len64(plain))
  }

  function DataEntries(r: Recipe, plains: seq<Bytes>): (es: seq<Entry>)
    ensures |es| == |plains| && forall i :: 0 <= i < |es| ==> es[i] == DataEntry(r, plains[i])
  {
    seq(|plains|, i requires 0 <= i < |plains| => DataEntry(r, plains[i]))
  }

  function DataBody(r: Recipe, plains: seq<Bytes>): Bytes {
    if plains == [] then [] else DataChunk(r, plains[0]) + DataBody(r, plains[1..])
  }

  function BuiltIndex(r: Recipe, plains: seq<Bytes>): Index
    requires Known(r.ckType)
  {
    Index(r.ckType, [DictEntry(r)] + DataEntries(r, plains))
  }

  function BuiltBody(r: Recipe, plains: seq<Bytes>): Bytes {
    DictChunk(r) + DataBody(r, plains)
  }

  // ---------------------------------------------------------------- the builder's invariant, as properties

  lemma {:induction false} DataBodyAppend(r: Recipe, plains: seq<Bytes>, plain: Bytes)
    ensures DataBody(r, plains + [plain]) == DataBody(r, plains) + DataChunk(r, plain)
  {
    if plains == [] {
      assert [] + [plain] == [plain];
      assert [plain][1..] == [];
    } else {
      assert (plains + [plain])[1..] == plains[1..] + [plain];
      DataBodyAppend(r, plains[1..], plain);
    }
  }

  lemma {:induction false} DataBodySplit(r: Recipe, plains: seq<Bytes>, i: nat)
    requires i <= |plains|
    ensures DataBody(r, plains) == DataBody(r, plains[..i]) + DataBody(r, plains[i..])
  {
    if i == 0 {
      assert plains[0..] == plains;
    } else {
      DataBodySplit(r, plains[1..], i - 1);
      assert plains[..i][1..] == plains[1..][..i - 1];
      assert plains[i..] == plains[1..][i - 1..];
      Assoc(DataChunk(r, plains[0]), DataBody(r, plains[1..][..i - 1]), DataBody(r, plains[i..]));
    }
  }

  /** Entry i of a built index records the length of the chunk that was compressed for it. */
  lemma BuiltEntry(r: Recipe, plains: seq<Bytes>, i: nat)
    requires Known(r.ckType) && i <= |plains| && |BuiltBody(r, plains)| < TWO64
    ensures var chunks := BuiltIndex(r, plains).chunks;
            && |chunks| == |plains| + 1
            && chunks[i].compLength == |if i == 0 then DictChunk(r) else DataChunk(r, plains[i - 1])|
  {
    hide DataChunk, DictChunk, BuiltBody, SizeOf;
    if i == 0 {
      NoDictChunk(r);
    }
    PartsAreShort(r, plains, i);
  }

  lemma PartsAreShort(r: Recipe, plains: seq<Bytes>, i: nat)
    requires i <= |plains|
    ensures |DictChunk(r)| <= |BuiltBody(r, plains)|
    ensures i > 0 ==> |DataChunk(r, plains[i - 1])| <= |BuiltBody(r, plains)|
  {
    hide DataChunk, DictChunk;
    if i > 0 {
      DataBodySplit(r, plains, i - 1);
      assert plains[i - 1..][0] == plains[i - 1];
    }
  }

  /** Data chunk i starts where the dictionary and the chunks before it end. */
  lemma {:induction false} BuiltOffset(r: Recipe, plains: seq<Bytes>, i: nat)
    requires Known(r.ckType) && i <= |plains| && |BuiltBody(r, plains)| < TWO64
    ensures |BuiltIndex(r, plains).chunks| == |plains| + 1
    ensures Offset(BuiltIndex(r, plains).chunks, i + 1) == |DictChunk(r)| + |DataBody(r, plains[..i])|
  {
    hide *;
    var chunks := BuiltIndex(r, plains).chunks;
    BuiltEntry(r, plains, i);
    OffsetStep(chunks, i);
    if i == 0 {
      OffsetStart(chunks);
      NoDataBody(r);
      assert plains[..0] == [];
    } else {
      BuiltOffset(r, plains, i - 1);
      assert plains[..i] == plains[..i - 1] + [plains[i - 1]];
      DataBodyAppend(r, plains[..i - 1], plains[i - 1]);
    }
  }

  lemma OffsetStart(chunks: seq<Entry>)
    ensures Offset(chunks, 0) == 0
  {
  }

  lemma NoDataBody(r: Recipe)
    ensures DataBody(r, []) == []
  {
  }

  lemma NoDictChunk(r: Recipe)
    ensures r.dict == [] ==> DictChunk(r) == []
  {
  }

  /**
   The builder invariant: after any chunks have been added, the index's lengths partition the body
   exactly, every non-empty entry holds the digest of its own part, and chunk 0 is the dictionary.
   */
  lemma BuiltDescribes(r: Recipe, plains: seq<Bytes>)
    requires Known(r.ckType) && |BuiltBody(r, plains)| < TWO64
    ensures Describes(r.h, BuiltIndex(r, plains), BuiltBody(r, plains))
    ensures BuiltIndex(r, plains).chunks[0] == DictEntry(r)
    ensures r.dict == [] ==> DictEntry(r) == Entry(seq(SizeOf(r.ckType), i => 0), None, 0, 0)
  {
    hide DataChunk, DictChunk, Offset;
    var idx, body := BuiltIndex(r, plains), BuiltBody(r, plains);
    BuiltOffset(r, plains, |plains|);
    assert plains[..|plains|] == plains;
    forall i | 0 <= i < |idx.chunks| && idx.chunks[i].compLength > 0
      ensures idx.chunks[i].digest == r.h(idx.ckType, Chunk(idx.chunks, body, i))
    {
      BuiltChunk(r, plains, i);
    }
  }

  /** The part of the body that entry i covers is the chunk that was compressed for it. */
  lemma BuiltChunk(r: Recipe, plains: seq<Bytes>, i: nat)
    requires Known(r.ckType) && |BuiltBody(r, plains)| < TWO64 && i <= |plains|
    requires |BuiltIndex(r, plains).chunks| == |plains| + 1
    requires BodyLength(BuiltIndex(r, plains).chunks) == |BuiltBody(r, plains)|
    ensures Chunk(BuiltIndex(r, plains).chunks, BuiltBody(r, plains), i)
         == if i == 0 then DictChunk(r) else DataChunk(r, plains[i - 1])
  {
    hide DataChunk, DictChunk, DataBody, Offset, BuiltIndex, SizeOf;
    var chunks, body := BuiltIndex(r, plains).chunks, BuiltBody(r, plains);
    BuiltOffset(r, plains, i);
    ChunkStep(chunks, body, i);
    if i == 0 {
      OffsetStart(chunks);
      NoDataBody(r);
      assert plains[..0] == [];
      assert body[..|DictChunk(r)|] == DictChunk(r);
    } else {
      BuiltOffset(r, plains, i - 1);
      var before, comp, after := DataBody(r, plains[..i - 1]), DataChunk(r, plains[i - 1]), DataBody(r, plains[i..]);
      assert plains[..i] == plains[..i - 1] + [plains[i - 1]];
      DataBodyAppend(r, plains[..i - 1], plains[i - 1]);
      DataBodySplit(r, plains, i);
      MiddlePart(DictChunk(r), before, comp, after);
    }
  }

  lemma MiddlePart(a: Bytes, b: Bytes, c: Bytes, d: Bytes)
    ensures (a + ((b + c) + d))[|a| + |b|..|a| + |b + c|] == c
  {
  }

  // ---------------------------------------------------------------- the code

  /** `Builder`: index and body grow together; `plains` records what was added. */
  class Builder {
    const recipe: Recipe
    var index: Index
    var body: Bytes
    ghost var plains: seq<Bytes>

    ghost predicate Valid()
      reads this
    {
      recipe.Accepted() && index == BuiltIndex(recipe, plains) && body == BuiltBody(recipe, plains)
    }

    constructor (recipe: Recipe)
      requires recipe.Accepted()
      ensures Valid() && this.recipe == recipe && plains == []
    {
      this.recipe := recipe;
      plains := [];
      var chunks: seq<Entry> := [];
      var bytes: Bytes := [];
      if recipe.dict == [] {
        chunks := chunks + [Entry(seq(SizeOf(recipe.ckType), i => 0), None, 0, 0)];
      } else {
        var comp := Compressed(recipe.codec, recipe.ct, [], recipe.dict);
        chunks := chunks + [Entry(recipe.h(recipe.ckType, comp), None, Len64(comp), Len64(recipe.dict))];
        bytes := bytes + comp;
      }
      index := Index(recipe.ckType, chunks);
      body := bytes;
      assert chunks == [DictEntry(recipe)] + DataEntries(recipe, []);
      assert bytes == DictChunk(recipe) + DataBody(recipe, []);
    }

    /** The chunk is given as the front of a buffer that the caller will reuse. */
    method AddChunk(buf: array<byte>, n: nat)
      requires Valid() && n <= buf.Length
      modifies this
      ensures Valid() && plains == old(plains) + [buf[..n]]
    {
      var plain := buf[..n];
      var comp := Compressed(recipe.codec, recipe.ct, recipe.dict, plain);
      var digest := recipe.h(recipe.ckType, comp);
      index := index.(chunks := index.chunks + [Entry(digest, None, Len64(comp), Len64(plain))]);
      body := body + comp;
      DataBodyAppend(recipe, plains, plain);
      Assoc(DictChunk(recipe), DataBody(recipe, plains), comp);
      assert DataEntries(recipe, plains + [plain]) == DataEntries(recipe, plains) + [DataEntry(recipe, plain)];
      plains := plains + [plain];
    }
  }

  /** `NewBuilder`: the errors in the order they are found. */
  function RecipeError(r: Recipe): (err: Option<Error>)
    ensures err.None? <==> r.Accepted()
  {
    if !ValidCompression(r.ct) then Some(UnknownCompression(r.ct))
    else if !Known(r.ckType) then Some(UnknownChecksumType(r.ckType))
    else if !EncoderLoads(r.codec, r.ct, r.dict) then Some(DictionaryRejected)
    else None
  }

  method NewBuilder(r: Recipe) returns (res: Result<Builder>)
    ensures match RecipeError(r)
            case Some(e) => res == Err(e)
            case None =>
              && res.Ok? && fresh(res.value) && res.value.Valid()
              && res.value.recipe == r && res.value.plains == []
  {
    if !ValidCompression(r.ct) {
      return Err(UnknownCompression(r.ct));
    }
    var size := Size(r.ckType);
    if size.Err? {
      return Err(size.error);
    }
    if !EncoderLoads(r.codec, r.ct, r.dict) {
      return Err(DictionaryRejected);
    }
    var b := new Builder(r);
    res := Ok(b);
  }
}
