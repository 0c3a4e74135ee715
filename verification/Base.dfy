/** Bytes, machine words, error values and the byte streams that the wire-format code reads and writes. */
module Base {

  type byte = b: int | 0 <= b < 0x100
  type Bytes = seq<byte>

  const TWO32: int := 0x1_0000_0000
  const TWO63: int := 0x8000_0000_0000_0000
  const TWO64: int := 0x1_0000_0000_0000_0000

  type uint32 = x: int | 0 <= x < 0x1_0000_0000
  type uint64 = x: int | 0 <= x < 0x1_0000_0000_0000_0000

  /** Go's conversion of a uint64 to int64: the same 64 bits read as two's complement. */
  function ToInt64(x: uint64): int {
    if x < TWO63 then x else x - TWO64
  }

  datatype Option<+T> = None | Some(value: T)

  /** The int64 that the low 64 bits of x spell: what Go's wrapping arithmetic makes of a sum. */
  function Int64(x: int): int {
    ToInt64(x % TWO64)
  }

  /** It is an int64, congruent to x, and x itself when that is an int64. */
  lemma Int64Is(x: int)
    ensures -TWO63 <= Int64(x) < TWO63 && Congruent(Int64(x), x)
    ensures -TWO63 <= x < TWO63 ==> Int64(x) == x
  {
    var q := x / TWO64;
    assert x == q * TWO64 + x % TWO64;
  }

  predicate Congruent(x: int, y: int) {
    (x - y) % TWO64 == 0
  }

  /** Int64 depends on the residue only. */
  lemma SameResidue(x: int, y: int)
    requires Congruent(x, y)
    ensures Int64(x) == Int64(y)
  {
    var q := (x - y) / TWO64;
    assert x == y + q * TWO64;
  }

  lemma AddCongruent(a: int, b: int, c: int, d: int)
    requires Congruent(a, b) && Congruent(c, d)
    ensures Congruent(a + c, b + d)
  {
    var p, q := (a - b) / TWO64, (c - d) / TWO64;
    assert (a + c) - (b + d) == (p + q) * TWO64;
  }

  /** An int64 running sum of uint64 values is the wrapped form of their true sum. */
  lemma RunningSum(x: int, y: uint64)
    ensures Int64(Int64(x) + ToInt64(y)) == Int64(x + y)
  {
    hide Int64, Congruent;
    Int64Is(x);
    ToInt64Is(y);
    AddCongruent(Int64(x), x, ToInt64(y), y);
    SameResidue(Int64(x) + ToInt64(y), x + y);
  }

  lemma ToInt64Is(y: uint64)
    ensures Congruent(ToInt64(y), y)
  {
  }

  /** A wrapped running sum is the wrapped sum. */
  lemma AddModulo64(a: nat, b: nat)
    ensures (a % TWO64 + b) % TWO64 == (a + b) % TWO64
  {
    assert a + b == a / TWO64 * TWO64 + (a % TWO64 + b);
  }

  lemma AddModulo32(a: nat, b: nat)
    ensures (a % TWO32 + b) % TWO32 == (a + b) % TWO32
  {
    assert a + b == a / TWO32 * TWO32 + (a % TWO32 + b);
  }

  /** One constructor for each way in which the modelled code fails; the last two are run-time panics. */
  datatype Error =
    | EndOfInput
    | UnexpectedEnd
    | TruncatedInt
    | OverflowInt
    | UnknownChecksumType(ckType: nat)
    | BadMagic(id: Bytes)
    | ChecksumLength(got: nat, want: nat)
    | UnknownFlags(flags: nat)
    | UnknownCompression(comp: nat)
    | FlagDisagrees(elements: nat)
    | DigestLength(chunk: nat)
    | UncompressedDigestLength(chunk: nat)
    | CountMismatch(declared: nat, read: nat)
    | SignaturesUnsupported(count: nat)
    | HeaderChecksumMismatch
    | ShortHeader
    | ChecksumTypeMismatch(local: nat, target: nat)
    | LocalRead(chunk: nat, cause: Error)
    | FetchChunk(chunk: nat, cause: Error)
    | ShortRange(got: nat, wanted: int)
    | DigestMismatch(chunk: nat)
    | UncompressedDigestMismatch(chunk: nat)
    | WriteHeader(cause: Error)
    | WriteChunk(chunk: nat, cause: Error)
    | DataChecksumMismatch
    | ReadChunkBody(chunk: nat, cause: Error)
    | ChunkLength(got: nat, want: nat)
    | InChunk(chunk: nat, cause: Error)
    | DecodeFailed
    | DictionaryRejected
    | BadChunkSize(size: int)
    | InIndex(cause: Error)
    | InHeader(cause: Error)
    | External(code: int)
    | SliceOutOfRange(chunk: nat)
    | BadLength(n: int)

  /** The value of a Go call that returns a value and an error. */
  datatype Result<+T> = Ok(value: T) | Err(error: Error) {
    predicate IsFailure() { Err? }

    function PropagateFailure<U>(): Result<U>
      requires Err?
    {
      Err(error)
    }

    function Extract(): T
      requires Ok?
    {
      value
    }
  }

  /** What a parser that consumes a prefix of its input returns. */
  datatype Parsed<+T> = Parsed(value: T, rest: Bytes)

  /** `io.ReadFull` of n bytes, as a function of the unread input. */
  function TakeFull(s: Bytes, n: nat): Result<Parsed<Bytes>> {
    if n <= |s| then Ok(Parsed(s[..n], s[n..]))
    else if s == [] then Err(EndOfInput)
    else Err(UnexpectedEnd)
  }

  lemma TakeFullAppend(a: Bytes, b: Bytes)
    ensures TakeFull(a + b, |a|) == Ok(Parsed(a, b))
  {
    assert (a + b)[..|a|] == a && (a + b)[|a|..] == b;
  }

  lemma TakeFullShape(s: Bytes, n: nat)
    requires TakeFull(s, n).Ok?
    ensures var p := TakeFull(s, n).value; s == p.value + p.rest && |p.value| == n
  {
  }

  lemma Assoc(a: Bytes, b: Bytes, c: Bytes)
    ensures (a + b) + c == a + (b + c)
  {
  }

  lemma Regroup(a: Bytes, b: Bytes, c: Bytes, d: Bytes, rest: Bytes)
    ensures (a + (b + (c + d))) + rest == a + (b + (c + (d + rest)))
  {
    Assoc(a, b + (c + d), rest);
    Assoc(b, c + d, rest);
    Assoc(c, d, rest);
  }

  /**
   b stands for what was consumed from the front of s up to `rest`: no longer, and equally long only if
   the same bytes.
   */
  ghost predicate Reprints(s: Bytes, b: Bytes, rest: Bytes) {
    && |b| + |rest| <= |s|
    && (|b| + |rest| == |s| ==> s == b + rest)
  }

  lemma ReprintsShrinks(s: Bytes, b: Bytes, rest: Bytes)
    requires Reprints(s, b, rest)
    ensures |rest| <= |s|
  {
  }

  lemma ReprintsSeq(s: Bytes, a: Bytes, mid: Bytes, b: Bytes, rest: Bytes)
    requires Reprints(s, a, mid) && Reprints(mid, b, rest)
    ensures Reprints(s, a + b, rest)
  {
    Assoc(a, b, rest);
  }

  lemma ReprintsNothing(s: Bytes)
    ensures Reprints(s, [], s)
  {
    assert [] + s == s;
  }

  lemma ReprintsTaken(s: Bytes, n: nat)
    requires TakeFull(s, n).Ok?
    ensures Reprints(s, TakeFull(s, n).value.value, TakeFull(s, n).value.rest)
  {
  }

  function Concat(pieces: seq<Bytes>): Bytes {
    if pieces == [] then [] else pieces[0] + Concat(pieces[1..])
  }

  /** The errors that report a premature end of the input. */
  predicate IsEnd(e: Error) {
    e.EndOfInput? || e.UnexpectedEnd? || e.TruncatedInt?
  }

  /** What becomes of an error when the input does not end but fails with an I/O error instead. */
  function Faulted(e: Error, fault: Option<int>): Error {
    if fault.None? then e
    else if IsEnd(e) then External(fault.value)
    else if e.ReadChunkBody? && IsEnd(e.cause) then ReadChunkBody(e.chunk, External(fault.value))
    else e
  }

  /**
   Where the input fails, the failure itself is reported, with the chunk when one was being read;
   nothing else changes.
   */
  lemma FaultIsPassedOn(e: Error, code: int, n: nat)
    ensures e == EndOfInput || e == UnexpectedEnd || e == TruncatedInt ==>
              Faulted(e, Some(code)) == External(code) &&
                  Faulted(ReadChunkBody(n, e), Some(code)) == ReadChunkBody(n, External(code))
    ensures e != EndOfInput && e != UnexpectedEnd && e != TruncatedInt && !e.ReadChunkBody? ==>
            Faulted(e, Some(code)) == e
    ensures Faulted(e, None) == e
  {
  }

  /** An `io.Reader` over fixed bytes, behind which it ends or fails; only its position moves. */
  class Reader {
    const data: Bytes
    const fault: Option<int>
    var pos: nat

    /** How an error that a parser reports on the unread bytes shows when they are read from here. */
    function Seen(e: Error): Error {
      Faulted(e, fault)
    }

    ghost predicate Valid()
      reads this
    {
      pos <= |data|
    }

    function Rest(): Bytes
      requires Valid()
      reads this
    {
      data[pos..]
    }

    constructor (data: Bytes, fault: Option<int> := None)
      ensures Valid() && this.data == data && this.fault == fault && pos == 0 && Rest() == data
    {
      this.data := data;
      this.fault := fault;
      pos := 0;
    }

    /** A full read delivers exactly n bytes or fails; a short one drains the input. */
    method ReadFull(n: nat) returns (res: Result<Bytes>)
      requires Valid()
      modifies this`pos
      ensures Valid() && old(pos) <= pos
      ensures match TakeFull(old(Rest()), n)
              case Ok(p) => res == Ok(p.value) && Rest() == p.rest && pos == old(pos) + n
              case Err(e) => res == Err(Seen(e)) && Rest() == []
    {
      if pos + n <= |data| {
        res := Ok(data[pos..pos + n]);
        assert Rest()[..n] == res.value && Rest()[n..] == data[pos + n..];
        pos := pos + n;
      } else {
        res := Err(Seen(if pos == |data| then EndOfInput else UnexpectedEnd));
        pos := |data|;
      }
    }

    /** The same read into the front of a buffer, which keeps what a short read delivered. */
    method ReadInto(buf: array<byte>, n: nat) returns (got: nat, err: Option<Error>)
      requires Valid() && n <= buf.Length
      modifies this`pos, buf
      ensures Valid() && got == Min(n, |old(Rest())|) && pos == old(pos) + got
      ensures buf[..got] == old(Rest())[..got] && Rest() == old(Rest())[got..]
      ensures err == match TakeFull(old(Rest()), n) case Ok(_) => None case Err(e) => Some(Seen(e))
    {
      ghost var s := Rest();
      got := if n <= |data| - pos then n else |data| - pos;
      for i := 0 to got
        invariant pos == old(pos) && buf[..i] == s[..i]
      {
        buf[i] := data[pos + i];
      }
      err := if got == n then None else Some(Seen(if got == 0 then EndOfInput else UnexpectedEnd));
      pos := pos + got;
    }
  }

  function Min(a: nat, b: nat): nat {
    if a < b then a else b
  }

  /** A full read leaves no error; a short one ends in the fault, if there is one. */
  lemma ReadMeans(s: Bytes, size: nat, r: Reader)
    ensures match TakeFull(s, size)
            case Ok(p) => Min(size, |s|) == size && p.value == s[..size] && p.rest == s[size..]
            case Err(e) =>
              && Min(size, |s|) == |s| < size
              && e == (if s == [] then EndOfInput else UnexpectedEnd)
              && (r.fault.None? ==> r.Seen(e) == e)
              && (r.fault.Some? ==> r.Seen(e) == External(r.fault.value))
  {
  }

  /** The outcome of one `Write` call: how many bytes were taken, and the error if any. */
  datatype WriteAnswer = WriteAnswer(n: nat, err: Option<Error>)

  /** An `io.Writer`: what it answers may depend on all it has taken before.
      By the io.Writer contract a short write carries an error. */
  type Writer = w: (Bytes, Bytes) -> WriteAnswer
    | forall taken: Bytes, p: Bytes :: w(taken, p).n <= |p| && (w(taken, p).err.None? ==> w(taken, p).n == |p|)
    witness (taken: Bytes, p: Bytes) => WriteAnswer(|p|, None)

  /** A writer that never fails. */
  ghost predicate NeverFails(w: Writer) {
    forall taken: Bytes, p: Bytes :: w(taken, p).err.None?
  }

  /** A writer from the point where it has taken some bytes. */
  function Continued(w: Writer, taken: Bytes): Writer {
    (more: Bytes, p: Bytes) => w(taken + more, p)
  }

  /** A `bytes.Buffer`, which takes everything. */
  function BufferWriter(): (w: Writer)
    ensures NeverFails(w)
  {
    (taken: Bytes, p: Bytes) => WriteAnswer(|p|, None)
  }

  /** What an output holds, how many bytes a call reports, and its error. */
  datatype Written = Written(data: Bytes, n: nat, err: Option<Error>)

  /** A `WriteTo` method: nothing is written when there is no content, which else goes out in one call. */
  function WriteOnce(w: Writer, taken: Bytes, content: Result<Bytes>): Written {
    match content
    case Err(e) => Written(taken, 0, Some(e))
    case Ok(p) =>
      var a := w(taken, p);
      Written(taken + p[..a.n], a.n, a.err)
  }

  /** There is no error exactly when there was content and the writer took it; the count is what the output grew by. */
  lemma WriteOnceCounts(w: Writer, taken: Bytes, content: Result<Bytes>)
    ensures var o := WriteOnce(w, taken, content);
            && |o.data| == |taken| + o.n && taken <= o.data
            && (o.err.None? <==> content.Ok? && w(taken, content.value).err.None?)
            && (o.err.None? ==> o.data == taken + content.value)
            && (content.Err? ==> o == Written(taken, 0, Some(content.error)))
            && (content.Ok? ==> o.err == w(taken, content.value).err && o.n == w(taken, content.value).n)
  {
  }

  /**
   An output: what it has taken, and optionally a hasher fed with every completely written piece
   (an `io.MultiWriter` over the output and a hasher).
   */
  class Sink {
    const writer: Writer
    var data: Bytes
    var tee: bool
    var hashed: Bytes

    constructor (writer: Writer)
      ensures this.writer == writer && data == [] && !tee && hashed == []
    {
      this.writer := writer;
      data, tee, hashed := [], false, [];
    }

    method Write(p: Bytes) returns (a: WriteAnswer)
      modifies this
      ensures a == writer(old(data), p)
      ensures data == old(data) + p[..a.n] && tee == old(tee)
      ensures hashed == if old(tee) && a.err.None? then old(hashed) + p else old(hashed)
    {
      a := writer(data, p);
      data := data + p[..a.n];
      if tee && a.err.None? {
        hashed := hashed + p;
      }
    }
  }

  /** The outcome of one `ReadAt` call: the bytes delivered, and the error if any. */
  datatype ReadAtAnswer = ReadAtAnswer(data: Bytes, err: Option<Error>)

  /** An `io.ReaderAt`: by its contract it never delivers more than was asked for. */
  type ReaderAt = r: (int, nat) -> ReadAtAnswer | forall off: int, n: nat :: |r(off, n).data| <= n
    witness (off: int, n: nat) => ReadAtAnswer([], Some(EndOfInput))

  /** `RangeReader.ReadRange(offset, length)`: what it answers to each request. */
  type RangeReader = (int, int) -> Result<Bytes>
}
