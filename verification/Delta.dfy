/** Planning a delta: which chunks of a target body a local body already holds, and where. */
module Delta {
  import opened Base
  import opened Checksum
  import opened ChunkIndex

  datatype ChunkSource = ChunkSource(index: nat, local: bool, offset: uint64, length: uint64)

  /** Where chunk i starts in a body laid out by these entries. */
  function Offset(chunks: seq<Entry>, i: nat): nat
    requires i <= |chunks|
  {
    if i == 0 then 0 else Offset(chunks, i - 1) + chunks[i - 1].compLength
  }

  function BodyLength(chunks: seq<Entry>): nat {
    Offset(chunks, |chunks|)
  }

  predicate Offers(e: Entry, digest: Bytes) {
    e.compLength > 0 && e.digest == digest
  }

  /** The first of the n first entries that is non-empty and has the digest. */
  function FirstWith(chunks: seq<Entry>, n: nat, digest: Bytes): (r: Option<nat>)
    requires n <= |chunks|
    ensures r.Some? ==> r.value < n && Offers(chunks[r.value], digest)
    ensures r.Some? ==> forall j :: 0 <= j < r.value ==> !Offers(chunks[j], digest)
    ensures r.None? ==> forall j :: 0 <= j < n ==> !Offers(chunks[j], digest)
  {
    if n == 0 then None else
      var r := FirstWith(chunks, n - 1, digest);
      if r.Some? then r else if Offers(chunks[n - 1], digest) then Some(n - 1) else None
  }

  function LocalChunks(local: Option<Index>): seq<Entry> {
    if local.Some? then local.value.chunks else []
  }

  /** Offsets are uint64 sums. */
  function SourceOf(local: seq<Entry>, target: seq<Entry>, i: nat): ChunkSource
    requires i < |target|
  {
    var e := target[i];
    var r := FirstWith(local, |local|, e.digest);
    if e.compLength == 0 then ChunkSource(i, true, 0, 0)
    else if r.Some? then ChunkSource(i, true, Offset(local, r.value) % TWO64, e.compLength)
    else ChunkSource(i, false, Offset(target, i) % TWO64, e.compLength)
  }

  function Sources(local: seq<Entry>, target: seq<Entry>): (s: seq<ChunkSource>)
    ensures |s| == |target| && forall i :: 0 <= i < |s| ==> s[i] == SourceOf(local, target, i)
  {
    seq(|target|, i requires 0 <= i < |target| => SourceOf(local, target, i))
  }

  predicate TypesDiffer(local: Option<Index>, target: Index) {
    LocalChunks(local) != [] && local.value.ckType != target.ckType
  }

  function Plan(local: Option<Index>, target: Index): Result<seq<ChunkSource>> {
    if TypesDiffer(local, target) then Err(ChecksumTypeMismatch(local.value.ckType, target.ckType))
    else Ok(Sources(LocalChunks(local), target.chunks))
  }

  /** Total length of the first i sources that are local, or of those that are not. */
  function Total(src: seq<ChunkSource>, local: bool, i: nat): nat
    requires i <= |src|
  {
    if i == 0 then 0 else Total(src, local, i - 1) + if src[i - 1].local == local then src[i - 1].length else 0
  }

  // ---------------------------------------------------------------- properties

  /** A plan is refused exactly when there are local chunks, of another checksum type. */
  lemma PlanIsRefused(local: Option<Index>, target: Index)
    ensures Plan(local, target).Err? <==>
            local.Some? && |local.value.chunks| > 0 && local.value.ckType != target.ckType
    ensures Plan(local, target).Err? ==>
            Plan(local, target).error == ChecksumTypeMismatch(local.value.ckType, target.ckType)
    ensures Plan(local, target).Ok? ==> |Plan(local, target).value| == |target.chunks|
  {
  }

  /**
   The plan refines a plain search: chunk i is taken locally exactly when it is empty or some
   non-empty local chunk has its digest, and then from where the first such chunk starts;
   otherwise from its own place in the target body. Offsets are uint64 sums.
   */
  lemma PlanRefinesSearch(local: Option<Index>, target: Index, i: nat)
    requires Plan(local, target).Ok? && i < |target.chunks|
    ensures var s := Plan(local, target).value[i];
            var e := target.chunks[i];
            && s.index == i && s.length == e.compLength
            && (s.local <==>
                  || e.compLength == 0
                  || exists j :: 0 <= j < |LocalChunks(local)| && Offers(LocalChunks(local)[j], e.digest))
            && (e.compLength == 0 ==> s.offset == 0)
            && (!s.local ==> s.offset == Offset(target.chunks, i) % 0x1_0000_0000_0000_0000)
            && (s.local && e.compLength > 0 ==>
                  exists j :: && 0 <= j < |LocalChunks(local)| && Offers(LocalChunks(local)[j], e.digest)
                              && s.offset == Offset(LocalChunks(local), j) % 0x1_0000_0000_0000_0000
                              && forall k :: 0 <= k < j ==> !Offers(LocalChunks(local)[k], e.digest))
  {
    hide Offset, FirstWith;
    var known := LocalChunks(local);
    var r := FirstWith(known, |known|, target.chunks[i].digest);
  }

  lemma OffsetStep(target: seq<Entry>, i: nat)
    requires i < |target|
    ensures Offset(target, i + 1) == Offset(target, i) + target[i].compLength
  {
  }

  lemma {:induction false} OffsetMonotone(chunks: seq<Entry>, i: nat, j: nat)
    requires i <= j <= |chunks|
    ensures Offset(chunks, i) <= Offset(chunks, j)
  {
    if i < j {
      OffsetMonotone(chunks, i, j - 1);
    }
  }

  /** What is fetched and what is reused make up the target body. */
  lemma {:induction false} FetchPlusReuse(local: seq<Entry>, target: seq<Entry>, i: nat)
    requires i <= |target|
    ensures Total(Sources(local, target), false, i) + Total(Sources(local, target), true, i) == Offset(target, i)
  {
    if i > 0 {
      FetchPlusReuse(local, target, i - 1);
    }
  }

  // ---------------------------------------------------------------- indexes that describe bodies

  /** The bytes of chunk i of a body. */
  function Chunk(chunks: seq<Entry>, body: Bytes, i: nat): Bytes
    requires i < |chunks| && BodyLength(chunks) == |body|
  {
    OffsetMonotone(chunks, i + 1, |chunks|);
    body[Offset(chunks, i)..Offset(chunks, i + 1)]
  }

  /** The index partitions the body, and each non-empty entry holds the digest of its own part. */
  ghost predicate Describes(h: Hasher, idx: Index, body: Bytes) {
    && BodyLength(idx.chunks) == |body|
    && forall i :: 0 <= i < |idx.chunks| && idx.chunks[i].compLength > 0 ==>
        idx.chunks[i].digest == h(idx.ckType, Chunk(idx.chunks, body, i))
  }

  lemma {:induction false} VisibleOffset(chunks: seq<Entry>, us: bool, i: nat)
    requires i <= |chunks|
    ensures Offset(VisibleAll(chunks, us), i) == Offset(chunks, i)
  {
    if i > 0 {
      VisibleOffset(chunks, us, i - 1);
    }
  }

  lemma VisibleDescribes(h: Hasher, idx: Index, us: bool, body: Bytes)
    requires Describes(h, idx, body)
    ensures Describes(h, VisibleIndex(idx, us), body)
  {
    hide Offset;
    var v := VisibleIndex(idx, us);
    VisibleOffset(idx.chunks, us, |idx.chunks|);
    forall i | 0 <= i < |v.chunks| && v.chunks[i].compLength > 0
      ensures v.chunks[i].digest == h(v.ckType, Chunk(v.chunks, body, i))
    {
      VisibleOffset(idx.chunks, us, i);
      VisibleOffset(idx.chunks, us, i + 1);
      assert Chunk(v.chunks, body, i) == Chunk(idx.chunks, body, i);
    }
  }

  lemma ChunkStep(chunks: seq<Entry>, body: Bytes, i: nat)
    requires i < |chunks| && BodyLength(chunks) == |body|
    ensures Offset(chunks, i) <= Offset(chunks, i + 1) <= |body|
    ensures body[..Offset(chunks, i + 1)] == body[..Offset(chunks, i)] + Chunk(chunks, body, i)
    ensures |Chunk(chunks, body, i)| == chunks[i].compLength
  {
    OffsetMonotone(chunks, i + 1, |chunks|);
  }

  lemma DescribedLength(h: Hasher, idx: Index, body: Bytes)
    requires Describes(h, idx, body)
    ensures BodyLength(idx.chunks) == |body|
  {
  }

  // ---------------------------------------------------------------- the loops

  method PlanDelta(local: Option<Index>, target: Index) returns (res: Result<seq<ChunkSource>>)
    ensures res == Plan(local, target)
  {
    if local.Some? && |local.value.chunks| > 0 && local.value.ckType != target.ckType {
      return Err(ChecksumTypeMismatch(local.value.ckType, target.ckType));
    }
    var localOffsets := LocalOffsets(LocalChunks(local));
    var src := PlanChunks(LocalChunks(local), localOffsets, target.chunks);
    res := Ok(src);
  }

  /** The map holds exactly the digests of the first n chunks that are not empty, each at its first offset. */
  ghost predicate HoldsFirst(m: map<Bytes, uint64>, chunks: seq<Entry>, n: nat)
    requires n <= |chunks|
  {
    forall d :: Lookup(m, d) == FirstOffset(chunks, n, d)
  }

  function Lookup(m: map<Bytes, uint64>, d: Bytes): Option<uint64> {
    if d in m then Some(m[d]) else None
  }

  function FirstOffset(chunks: seq<Entry>, n: nat, d: Bytes): Option<uint64>
    requires n <= |chunks|
  {
    var r := FirstWith(chunks, n, d);
    if r.Some? then Some(Offset(chunks, r.value) % TWO64) else None
  }

  /** The loop over the target's chunks. */
  method PlanChunks(known: seq<Entry>, localOffsets: map<Bytes, uint64>, target: seq<Entry>)
    returns (src: seq<ChunkSource>)
    requires HoldsFirst(localOffsets, known, |known|)
    ensures src == Sources(known, target)
  {
    hide Offset, FirstWith, HoldsFirst, FirstOffset, SourceOf;
    src := [];
    var off: uint64 := 0;
    NoOffset(target);
    for i := 0 to |target|
      invariant off == Offset(target, i) % TWO64
      invariant |src| == i && forall k :: 0 <= k < i ==> src[k] == SourceOf(known, target, k)
    {
      var e := target[i];
      var s := ChunkSource(i, false, 0, e.compLength);
      if e.compLength == 0 {
        s := s.(local := true);
      } else if e.digest in localOffsets {
        s := s.(local := true, offset := localOffsets[e.digest]);
      } else {
        s := s.(offset := off);
      }
      IsSource(known, localOffsets, target, i, s);
      src := src + [s];
      NextOffset(target, i);
      off := (off + e.compLength) % TWO64;
    }
  }

  lemma NoOffset(chunks: seq<Entry>)
    ensures Offset(chunks, 0) % TWO64 == 0
  {
  }

  /** The running uint64 offset is the wrapped prefix sum. */
  lemma NextOffset(chunks: seq<Entry>, i: nat)
    requires i < |chunks|
    ensures (Offset(chunks, i) % TWO64 + chunks[i].compLength) % TWO64 == Offset(chunks, i + 1) % TWO64
  {
    AddModulo64(Offset(chunks, i), chunks[i].compLength);
  }

  lemma IsSource(known: seq<Entry>, localOffsets: map<Bytes, uint64>, target: seq<Entry>, i: nat, s: ChunkSource)
    requires HoldsFirst(localOffsets, known, |known|) && i < |target|
    requires var e := target[i];
             s == if e.compLength == 0 then ChunkSource(i, true, 0, 0)
                  else if e.digest in localOffsets then ChunkSource(i, true, localOffsets[e.digest], e.compLength)
                  else ChunkSource(i, false, Offset(target, i) % TWO64, e.compLength)
    ensures s == SourceOf(known, target, i)
  {
    hide Offset, FirstWith;
    assert Lookup(localOffsets, target[i].digest) == FirstOffset(known, |known|, target[i].digest);
  }

  method LocalOffsets(chunks: seq<Entry>) returns (m: map<Bytes, uint64>)
    ensures HoldsFirst(m, chunks, |chunks|)
  {
    hide Offset, FirstWith, HoldsFirst, FirstOffset;
    m := map[];
    var off: uint64 := 0;
    NoOffset(chunks);
    NothingHeld(chunks);
    for i := 0 to |chunks|
      invariant off == Offset(chunks, i) % TWO64
      invariant HoldsFirst(m, chunks, i)
    {
      var e := chunks[i];
      HoldsNext(m, chunks, i);
      if e.compLength > 0 {
        if e.digest !in m {
          m := m[e.digest := off];
        }
      }
      NextOffset(chunks, i);
      off := (off + e.compLength) % TWO64;
    }
  }

  lemma NothingHeld(chunks: seq<Entry>)
    ensures HoldsFirst(map[], chunks, 0)
  {
  }

  /** What becomes of the map at chunk i. */
  lemma HoldsNext(m: map<Bytes, uint64>, chunks: seq<Entry>, i: nat)
    requires i < |chunks| && HoldsFirst(m, chunks, i)
    ensures var e := chunks[i];
            var more := if e.compLength > 0 && e.digest !in m then m[e.digest := Offset(chunks, i) % TWO64] else m;
            HoldsFirst(more, chunks, i + 1)
  {
    hide Offset;
    var e := chunks[i];
    var more := if e.compLength > 0 && e.digest !in m then m[e.digest := Offset(chunks, i) % TWO64] else m;
    forall d
      ensures Lookup(more, d) == FirstOffset(chunks, i + 1, d)
    {
      assert Lookup(m, d) == FirstOffset(chunks, i, d);
    }
  }

  /** `FetchBytes` and `ReuseBytes`: the same uint64 sum over the other half of the plan. */
  method SumBytes(src: seq<ChunkSource>, local: bool) returns (n: uint64)
    ensures n == Total(src, local, |src|) % TWO64
  {
    n := 0;
    for i := 0 to |src|
      invariant n == Total(src, local, i) % TWO64
    {
      if src[i].local == local {
        AddModulo64(Total(src, local, i), src[i].length);
        n := (n + src[i].length) % TWO64;
      }
    }
  }
}
