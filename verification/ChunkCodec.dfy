/** Compressing and decompressing one chunk, with zstd as an arbitrary codec, and the decoder that reuses its buffer. */
module ChunkCodec {
  import opened Base
  import opened PrefaceFormat

  /** How a dictionary is loaded: not at all, as raw content, or as a trained dictionary. */
  datatype Dictionary = NoDictionary | RawContent(content: Bytes) | Trained(content: Bytes)

  const DICT_MAGIC: Bytes := [0x37, 0xA4, 0x30, 0xEC]

  /** By the magic of a trained dictionary; encoder and decoder load alike. */
  function Load(dict: Bytes): Dictionary {
    if dict == [] then NoDictionary
    else if DICT_MAGIC <= dict then Trained(dict)
    else RawContent(dict)
  }

  /** zstd, as far as chunks need it: encoding, decoding, and which dictionaries each side accepts. */
  datatype Codec = Codec(enc: (Dictionary, Bytes) -> Bytes, dec: (Dictionary, Bytes) -> Option<Bytes>,
                         encLoads: Dictionary -> bool, decLoads: Dictionary -> bool)

  /**
   What the round trip relies on, for no dictionary and for those that the encoder accepts: decoding
   undoes encoding, only nothing encodes to nothing, and the decoder accepts them too.
   */
  ghost predicate Lawful(c: Codec) {
    forall d: Dictionary :: d == NoDictionary || c.encLoads(d) ==> LawfulWith(c, d)
  }

  ghost predicate LawfulWith(c: Codec, d: Dictionary) {
    && (forall x: Bytes :: c.dec(d, c.enc(d, x)) == Some(x))
    && (forall x: Bytes :: c.enc(d, x) == [] ==> x == [])
    && (d != NoDictionary ==> c.decLoads(d))
  }

  function Compressed(c: Codec, ct: nat, dict: Bytes, src: Bytes): Bytes {
    if ct == COMPRESSION_NONE then src else c.enc(Load(dict), src)
  }

  function Decompressed(c: Codec, ct: nat, dict: Bytes, src: Bytes, n: nat): Result<Bytes> {
    if ct == COMPRESSION_NONE then
      if |src| != n then Err(ChunkLength(|src|, n)) else Ok(src)
    else
      match c.dec(Load(dict), src)
      case None => Err(DecodeFailed)
      case Some(out) => if |out| != n then Err(ChunkLength(|out|, n)) else Ok(out)
  }

  /** Only loading a dictionary can fail when an encoder or a decoder is made. */
  predicate EncoderLoads(c: Codec, ct: nat, dict: Bytes) {
    ct == COMPRESSION_NONE || dict == [] || c.encLoads(Load(dict))
  }

  predicate DecoderLoads(c: Codec, ct: nat, dict: Bytes) {
    ct == COMPRESSION_NONE || dict == [] || c.decLoads(Load(dict))
  }

  lemma DecodeUndoesEncode(c: Codec, ct: nat, dict: Bytes, src: Bytes)
    requires Lawful(c) && EncoderLoads(c, ct, dict)
    ensures Decompressed(c, ct, dict, Compressed(c, ct, dict, src), |src|) == Ok(src)
    ensures Compressed(c, ct, dict, src) == [] ==> src == []
  {
    if ct != COMPRESSION_NONE {
      var d := Load(dict);
      assert LawfulWith(c, d);
    }
  }

  /** A dictionary that the encoder loads, the decoder also loads. */
  lemma LoadsOnBothSides(c: Codec, ct: nat, dict: Bytes)
    requires Lawful(c) && EncoderLoads(c, ct, dict)
    ensures DecoderLoads(c, ct, dict)
  {
    if ct != COMPRESSION_NONE && dict != [] {
      assert LawfulWith(c, Load(dict));
    }
  }

  /** Which dictionaries are loaded how: by the four magic bytes of a trained one. */
  lemma LoadKinds(d: Bytes)
    ensures Load(d) == NoDictionary <==> d == []
    ensures Load(d) == Trained(d) <==> |d| >= 4 && d[0] == 0x37 && d[1] == 0xA4 && d[2] == 0x30 && d[3] == 0xEC
    ensures Load(d).RawContent? ==> Load(d) == RawContent(d)
  {
    if |d| >= 4 && d[0] == 0x37 && d[1] == 0xA4 && d[2] == 0x30 && d[3] == 0xEC {
      assert d[..4] == DICT_MAGIC;
    }
  }

  /** What decompression yields: the stored bytes, or what the codec makes of them, of the declared length only. */
  lemma DecompressedExactly(c: Codec, ct: nat, dict: Bytes, src: Bytes, n: nat, out: Bytes)
    requires ct == 0 || ct == 2
    ensures var d := Decompressed(c, ct, dict, src, n);
            var plain := if ct == 0 then Some(src) else c.dec(Load(dict), src);
            && (d == Ok(out) <==> plain == Some(out) && |out| == n)
            && (plain.None? ==> d == Err(DecodeFailed))
            && (plain.Some? && |plain.value| != n ==> d == Err(ChunkLength(|plain.value|, n)))
  {
  }

  // ---------------------------------------------------------------- slices and the decoder

  /** A Go slice: the first len bytes of a backing array, whose length is the capacity. */
  datatype Slice = Slice(arr: array<byte>, len: nat) {
    ghost predicate Fits() {
      len <= arr.Length
    }

    function View(): Bytes
      requires Fits()
      reads arr
    {
      arr[..len]
    }
  }

  /** `append(dst[:0], data...)`: in place when the capacity suffices, otherwise in a new array. */
  method AppendToFront(dst: Slice, data: Bytes) returns (out: Slice)
    requires dst.Fits()
    modifies dst.arr
    ensures out.Fits() && out.View() == data
    ensures out.arr == dst.arr || fresh(out.arr)
  {
    var arr := dst.arr;
    if arr.Length < |data| {
      arr := new byte[|data|];
    }
    for i := 0 to |data|
      invariant arr[..i] == data[..i]
    {
      arr[i] := data[i];
    }
    out := Slice(arr, |data|);
  }

  /** A decoder bound to a dictionary slice it does not own, with a destination reused across calls. */
  class ChunkDecoder {
    const codec: Codec
    const ct: nat
    const dict: Slice
    var dst: Slice

    ghost predicate Valid()
      reads this
    {
      dict.Fits() && dst.Fits() && dst.arr != dict.arr
    }

    constructor (codec: Codec, ct: nat, dict: Slice)
      requires dict.Fits()
      ensures Valid() && this.codec == codec && this.ct == ct && this.dict == dict && fresh(dst.arr)
    {
      this.codec, this.ct, this.dict := codec, ct, dict;
      var none := new byte[0];
      dst := Slice(none, 0);
    }

    /** The result lives in the reused destination; neither the dictionary nor the source is written. */
    method Decompress(src: Slice, n: nat) returns (res: Result<Slice>)
      requires Valid() && src.Fits() && src.arr != dst.arr
      modifies this, dst.arr
      ensures Valid() && (dst.arr == old(dst.arr) || fresh(dst.arr))
      ensures dict.View() == old(dict.View())
      ensures match Decompressed(codec, ct, old(dict.View()), old(src.View()), n)
              case Ok(d) => res == Ok(dst) && dst.View() == d
              case Err(e) => res == Err(e)
    {
      if ct == COMPRESSION_NONE {
        if src.len != n {
          return Err(ChunkLength(src.len, n));
        }
        var stored := AppendToFront(dst, src.arr[..src.len]);
        dst := stored;
        return Ok(dst);
      }
      var out := codec.dec(Load(dict.arr[..dict.len]), src.arr[..src.len]);
      if out.None? {
        return Err(DecodeFailed);
      }
      var decoded := AppendToFront(dst, out.value);
      dst := decoded;
      if |out.value| != n {
        return Err(ChunkLength(|out.value|, n));
      }
      res := Ok(dst);
    }
  }
}
