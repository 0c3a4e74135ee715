/**
 The zchunk compressed integer: groups of seven bits, least significant group first,
 the high bit set on the final byte only.
 */
module CompressedInt {
  import opened Base

  const MAX_LEN := 10

  // ---------------------------------------------------------------- the code as such

  /** A code word: one or more bytes, of which exactly the last has its high bit set. */
  ghost predicate IsCode(e: Bytes) {
    |e| > 0 && e[|e| - 1] >= 0x80 && forall i :: 0 <= i < |e| - 1 ==> e[i] < 0x80
  }

  /** The number that a string of groups denotes, high bits ignored. */
  function Value(e: Bytes): nat {
    if e == [] then 0 else e[0] % 0x80 + 0x80 * Value(e[1..])
  }

  /** The canonical code word of v. */
  function Encode(v: nat): Bytes {
    if v < 0x80 then [v + 0x80] else [v % 0x80] + Encode(v / 0x80)
  }

  /** Position of the first byte that ends a code word; |s| when there is none. */
  function FirstFinal(s: Bytes): (n: nat)
    ensures n <= |s|
    ensures n < |s| ==> s[n] >= 0x80
    ensures forall i :: 0 <= i < n ==> s[i] < 0x80
  {
    if s == [] then 0 else if s[0] >= 0x80 then 0 else 1 + FirstFinal(s[1..])
  }

  /** What decoding one integer from the front of s yields. The tenth byte may only carry bit 63. */
  function Decode(s: Bytes): Result<Parsed<uint64>> {
    var n := FirstFinal(s);
    if |s| >= MAX_LEN && n >= MAX_LEN - 1 && (s[MAX_LEN - 1] % 0x80 > 1 || n >= MAX_LEN) then Err(OverflowInt)
    else if n == |s| then Err(TruncatedInt)
    else ValueInRange(s[..n + 1]); Ok(Parsed(Value(s[..n + 1]), s[n + 1..]))
  }

  // ---------------------------------------------------------------- powers and bounds

  function Pow128(k: nat): (p: nat)
    ensures p > 0
  {
    if k == 0 then 1 else 0x80 * Pow128(k - 1)
  }

  lemma Pow128Nine()
    ensures Pow128(9) == TWO63 && Pow128(10) == 0x80 * TWO63
  {
    assert Pow128(3) == 0x20_0000;
    assert Pow128(6) == 0x400_0000_0000;
  }

  lemma Pow128Mono(a: nat, b: nat)
    requires a <= b
    ensures Pow128(a) <= Pow128(b)
  {
    if a < b {
      Pow128Mono(a, b - 1);
    }
  }

  lemma {:induction false} ValueBound(e: Bytes)
    ensures Value(e) < Pow128(|e|)
  {
    if e != [] {
      ValueBound(e[1..]);
    }
  }

  lemma {:induction false} ValueAppend(e: Bytes, b: byte)
    ensures Value(e + [b]) == Value(e) + b % 0x80 * Pow128(|e|)
  {
    if e == [] {
      assert [] + [b] == [b];
    } else {
      assert (e + [b])[1..] == e[1..] + [b];
      ValueAppend(e[1..], b);
      var p := Pow128(|e| - 1);
      assert 0x80 * (b % 0x80 * p) == b % 0x80 * (0x80 * p);
    }
  }

  /** Ten groups stay below 2^64 exactly when the last payload is 0 or 1. */
  lemma ValueInRange(e: Bytes)
    requires 0 < |e| <= MAX_LEN
    ensures Value(e) < TWO64 <==> (|e| < MAX_LEN || e[MAX_LEN - 1] % 0x80 <= 1)
  {
    Pow128Nine();
    ValueBound(e);
    if |e| < MAX_LEN {
      Pow128Mono(|e|, 9);
    } else {
      var init := e[..9];
      assert e == init + [e[9]];
      ValueAppend(init, e[9]);
      ValueBound(init);
    }
  }

  // ---------------------------------------------------------------- the code is a bijection up to padding

  lemma CodeCons(b: byte, e: Bytes)
    requires IsCode(e) && b < 0x80
    ensures IsCode([b] + e) && Value([b] + e) == b + 0x80 * Value(e)
  {
    var s := [b] + e;
    assert s[1..] == e;
    assert forall i :: 0 < i < |s| ==> s[i] == e[i - 1];
  }

  lemma {:induction false} EncodeIsCode(v: nat)
    ensures IsCode(Encode(v)) && Value(Encode(v)) == v
  {
    if v < 0x80 {
      assert Encode(v)[1..] == [];
    } else {
      var e := Encode(v / 0x80);
      EncodeIsCode(v / 0x80);
      CodeCons(v % 0x80, e);
    }
  }

  /** Every code word of v is at least as long as Encode(v), which is the only shortest one. */
  lemma {:induction false} EncodeIsShortest(e: Bytes)
    requires IsCode(e)
    ensures |Encode(Value(e))| <= |e|
    ensures |Encode(Value(e))| == |e| <==> e == Encode(Value(e))
  {
    var v := Value(e);
    if |e| == 1 {
      assert e[1..] == [];
    } else {
      var t := e[1..];
      EncodeIsShortest(t);
      assert v == e[0] + 0x80 * Value(t);
      if v >= 0x80 {
        assert v / 0x80 == Value(t) && v % 0x80 == e[0];
        assert e == [e[0]] + t;
        assert Encode(v)[1..] == Encode(Value(t));
      }
    }
  }

  lemma {:induction false} EncodeLength(v: nat, k: nat)
    requires k > 0 && v < Pow128(k)
    ensures |Encode(v)| <= k
  {
    if v >= 0x80 {
      EncodeLength(v / 0x80, k - 1);
    }
  }

  /** A uint64 needs at most ten bytes. */
  lemma EncodeFits(v: uint64)
    ensures 1 <= |Encode(v)| <= MAX_LEN
  {
    Pow128Nine();
    EncodeLength(v, MAX_LEN);
  }

  /** A code word at the front of the input fixes where the first final byte is. */
  lemma FirstFinalOfCode(e: Bytes, rest: Bytes)
    requires IsCode(e)
    ensures FirstFinal(e + rest) == |e| - 1
  {
    var s := e + rest;
    var n := FirstFinal(s);
    assert s[|e| - 1] >= 0x80;
    assert forall i :: 0 <= i < |e| - 1 ==> s[i] == e[i];
  }

  // ---------------------------------------------------------------- decoding

  /** Decoding undoes encoding whatever follows. */
  lemma DecodeEncode(v: uint64, rest: Bytes)
    ensures Decode(Encode(v) + rest) == Ok(Parsed(v, rest))
  {
    var e := Encode(v);
    EncodeIsCode(v);
    EncodeFits(v);
    FirstFinalOfCode(e, rest);
    assert (e + rest)[..|e|] == e && (e + rest)[|e|..] == rest;
    ValueInRange(e);
  }

  /** The decoder accepts exactly the code words of at most ten groups whose value is a uint64. */
  lemma DecodeAccepts(e: Bytes, rest: Bytes)
    requires IsCode(e)
    ensures Decode(e + rest).Ok? <==> (|e| <= MAX_LEN && Value(e) < TWO64)
    ensures Decode(e + rest).Ok? ==> Decode(e + rest) == Ok(Parsed(Value(e), rest))
  {
    FirstFinalOfCode(e, rest);
    var s := e + rest;
    assert s[..|e|] == e && s[|e|..] == rest;
    if |e| <= MAX_LEN {
      ValueInRange(e);
    }
  }

  /** Whatever is accepted was a code word followed by the remaining input. */
  lemma DecodeConsumes(s: Bytes)
    requires Decode(s).Ok?
    ensures var p := Decode(s).value;
            var e := s[..|s| - |p.rest|];
            |p.rest| < |s| && IsCode(e) && s == e + p.rest && |e| <= MAX_LEN && Value(e) == p.value
    ensures |Encode(Decode(s).value.value)| <= |s| - |Decode(s).value.rest|
    ensures |Encode(Decode(s).value.value)| == |s| - |Decode(s).value.rest| <==>
            s == Encode(Decode(s).value.value) + Decode(s).value.rest
  {
    var n := FirstFinal(s);
    var p := Decode(s).value;
    var e := s[..n + 1];
    assert |s| - |p.rest| == n + 1;
    assert s == e + p.rest;
    EncodeIsShortest(e);
    var c := Encode(p.value);
    if s == c + p.rest {
      assert |c| == |s| - |p.rest|;
    }
  }

  lemma ReprintsInt(s: Bytes)
    requires Decode(s).Ok?
    ensures Reprints(s, Encode(Decode(s).value.value), Decode(s).value.rest)
  {
    DecodeConsumes(s);
  }

  /** The code word that decoding took from the front of s. */
  lemma DecodeShape(s: Bytes) returns (e: Bytes)
    requires Decode(s).Ok?
    ensures IsCode(e) && |e| <= MAX_LEN && Value(e) == Decode(s).value.value && s == e + Decode(s).value.rest
  {
    DecodeConsumes(s);
    e := s[..|s| - |Decode(s).value.rest|];
  }

  /**
   The two refusals, byte by byte: a stream that ends within ten unmarked bytes, and a tenth byte that
   cannot be the last.
   */
  lemma DecodeRefuses(s: Bytes)
    ensures Decode(s) == Err(TruncatedInt) <==> |s| < 10 && forall i :: 0 <= i < |s| ==> s[i] < 0x80
    ensures Decode(s) == Err(OverflowInt) <==>
            |s| >= 10 && (forall i :: 0 <= i < 9 ==> s[i] < 0x80) && (s[9] % 0x80 > 1 || s[9] < 0x80)
    ensures Decode(s).Err? ==> Decode(s).error == TruncatedInt || Decode(s).error == OverflowInt
  {
    hide Value;
    var n := FirstFinal(s);
  }

  // ---------------------------------------------------------------- the loops

  function Pow2(k: nat): (p: nat)
    ensures p > 0
  {
    if k == 0 then 1 else 2 * Pow2(k - 1)
  }

  /** Bitwise or of two naturals. */
  function BitOr(a: nat, b: nat): nat {
    if a == 0 then b else if b == 0 then a
    else (if a % 2 == 1 || b % 2 == 1 then 1 else 0) + 2 * BitOr(a / 2, b / 2)
  }

  /** Or-ing in bits above all the set ones is addition. */
  lemma {:induction false} BitOrDisjoint(a: nat, g: nat, k: nat)
    requires a < Pow2(k)
    ensures BitOr(a, g * Pow2(k)) == a + g * Pow2(k)
  {
    if a != 0 && g != 0 {
      var q := Pow2(k - 1);
      assert g * Pow2(k) == 2 * (g * q);
      assert g * q > 0;
      BitOrDisjoint(a / 2, g, k - 1);
    }
  }

  lemma Pow2Seven(k: nat)
    ensures Pow2(k + 7) == 0x80 * Pow2(k)
  {
    assert Pow2(k + 7) == 2 * Pow2(k + 6) == 4 * Pow2(k + 5) == 8 * Pow2(k + 4);
    assert Pow2(k + 4) == 2 * Pow2(k + 3) == 4 * Pow2(k + 2) == 8 * Pow2(k + 1);
  }

  lemma {:induction false} Pow128IsShift(i: nat)
    ensures Pow128(i) == Pow2(7 * i)
  {
    if i > 0 {
      Pow128IsShift(i - 1);
      Pow2Seven(7 * (i - 1));
    }
  }

  /** `byte(v)|0x80` on a group sets the final bit and keeps the payload. */
  lemma FinalBit(w: nat)
    requires w < 0x80
    ensures BitOr(w, 0x80) == w + 0x80
  {
    Pow2Seven(0);
    BitOrDisjoint(w, 1, 7);
  }

  method AppendCompressedInt(dst: Bytes, v: uint64) returns (out: Bytes)
    ensures out == dst + Encode(v)
  {
    hide BitOr, Pow2, Encode;
    out := dst;
    var w: nat := v;
    while w >= 0x80
      invariant out + Encode(w) == dst + Encode(v)
      decreases w
    {
      EncodeStep(w);
      Assoc(out, [w % 0x80], Encode(w / 0x80));
      out := out + [w % 0x100 % 0x80];
      w := w / 0x80;
    }
    FinalBit(w);
    EncodeStep(w);
    out := out + [BitOr(w, 0x80)];
  }

  lemma EncodeStep(w: nat)
    ensures Encode(w) == if w < 0x80 then [w + 0x80] else [w % 0x80] + Encode(w / 0x80)
    ensures w % 0x100 % 0x80 == w % 0x80
  {
  }

  /** The exits of the decoding loop, by the position i of the byte that decides. */
  lemma DecodeAt(s: Bytes, i: nat)
    requires i < MAX_LEN && i <= |s| && forall j :: 0 <= j < i ==> s[j] < 0x80
    ensures i == |s| ==> Decode(s) == Err(TruncatedInt)
    ensures i < |s| && i == MAX_LEN - 1 && s[i] % 0x80 > 1 ==> Decode(s) == Err(OverflowInt)
    ensures i < |s| && !(i == MAX_LEN - 1 && s[i] % 0x80 > 1) && s[i] >= 0x80 ==>
              Decode(s) == Ok(Parsed(Value(s[..i + 1]), s[i + 1..]))
    ensures i < |s| && i == MAX_LEN - 1 && s[i] < 0x80 ==> Decode(s) == Err(OverflowInt)
  {
    hide Value;
    assert FirstFinal(s) >= i;
    if i < |s| && s[i] >= 0x80 {
      assert FirstFinal(s) == i;
    }
  }

  method ReadCompressedInt(r: Reader) returns (res: Result<uint64>)
    requires r.Valid()
    modifies r`pos
    ensures r.Valid() && old(r.pos) <= r.pos
    ensures match Decode(old(r.Rest()))
            case Ok(p) => res == Ok(p.value) && r.Rest() == p.rest
            case Err(e) => res == Err(r.Seen(e))
  {
    hide Decode, FirstFinal, Value;
    ghost var s := r.Rest();
    NoValue();
    var v: nat := 0;
    var i := 0;
    while i < MAX_LEN
      invariant 0 <= i <= MAX_LEN && i <= |s|
      invariant r.Valid() && r.pos == old(r.pos) + i && r.Rest() == s[i..]
      invariant forall j :: 0 <= j < i ==> s[j] < 0x80
      invariant i == MAX_LEN ==> Decode(s) == Err(OverflowInt)
      invariant v == Value(s[..i])
    {
      DecodeAt(s, i);
      var b := r.ReadFull(1);
      if b.Err? {
        return Err(if b.error == EndOfInput then TruncatedInt else b.error);
      }
      var x := b.value[0];
      assert x == s[i];
      if i == MAX_LEN - 1 && x % 0x80 > 1 {
        return Err(OverflowInt);
      }
      v := OrGroup(s[..i], v, x, i);
      assert s[..i + 1] == s[..i] + [x];
      if x >= 0x80 {
        return Ok(v);
      }
      i := i + 1;
    }
    res := Err(OverflowInt);
  }

  lemma NoValue()
    ensures Value([]) == 0
  {
  }

  /** `v |= uint64(b&0x7f) << (7*i)` extends the value read so far by one group and loses no bit. */
  method OrGroup(ghost e: Bytes, v: nat, b: byte, i: nat) returns (w: uint64)
    requires i < MAX_LEN && |e| == i && v == Value(e)
    requires i == MAX_LEN - 1 ==> b % 0x80 <= 1
    ensures w == Value(e + [b])
  {
    var unit := Pow2(7 * i);
    GroupFits(e, b, unit);
    var shifted := b % 0x80 * unit % TWO64;
    w := BitOr(v, shifted);
  }

  lemma GroupFits(e: Bytes, b: byte, unit: nat)
    requires |e| < MAX_LEN && unit == Pow2(7 * |e|)
    requires |e| == MAX_LEN - 1 ==> b % 0x80 <= 1
    ensures b % 0x80 * unit % TWO64 == b % 0x80 * unit
    ensures BitOr(Value(e), b % 0x80 * unit) == Value(e + [b]) < TWO64
  {
    hide Value, Pow2, Pow128, BitOr;
    ValueBound(e);
    ValueAppend(e, b);
    ValueInRange(e + [b]);
    Pow128IsShift(|e|);
    BitOrDisjoint(Value(e), b % 0x80, 7 * |e|);
    var g := b % 0x80 * unit;
    assert 0 <= g < TWO64;
  }
}
