/**
 The SCALE decoder of the genesis script: what each primitive reads at an offset,
 the decoder object that advances a cursor, and the canonical encoder of
 section A.2.2 of the Polkadot Protocol Specification.
 */
module Scale {
  import opened Bytes

  datatype Error =
    | Short
    | BadOptionTag
    | DuplicateChapter
    | DuplicateSection
    | DuplicateArticle
    | TrailingBytes
    | BadUtf8  // only the area-data reader checks text

  datatype Result<+T> = Ok(value: T) | Error(error: Error) {
    predicate IsFailure() { Error? }
    function PropagateFailure<U>(): Result<U> requires Error? { Error(error) }
    function Extract(): T requires Ok? { value }
  }

  /** A read at an offset: the value together with the offset behind it, or an exception. */
  datatype Step<+T> = Done(value: T, next: nat) | Fail(error: Error) {
    predicate IsFailure() { Fail? }
    function PropagateFailure<U>(): Step<U> requires Fail? { Fail(error) }
    function Extract(): (T, nat) requires Done? { (value, next) }
    function Outcome(): Result<T> { match this case Done(v, _) => Ok(v) case Fail(e) => Error(e) }
  }

  // ----- what is read at an offset -----

  function ReadRaw(d: seq<byte>, i: nat, n: nat): (r: Step<seq<byte>>)
    ensures r.Done? ==> |r.value| == n && r.next <= |d|
  {
    if i + n > |d| then Fail(Short) else Done(d[i..i + n], i + n)
  }

  function ReadU8(d: seq<byte>, i: nat): (r: Step<byte>)
    ensures r.Done? ==> i < r.next <= |d|
  {
    if i + 1 > |d| then Fail(Short) else Done(d[i], i + 1)
  }

  function ReadUint(d: seq<byte>, i: nat, width: nat): (r: Step<nat>)
    ensures r.Done? ==> r.next == i + width <= |d| && r.value < Pow256(width)
  {
    var (b, k) :- ReadRaw(d, i, width);
    Done(FromLE(b), k)
  }

  function ReadCompact(d: seq<byte>, i: nat): (r: Step<nat>)
    ensures r.Done? ==> i < r.next <= |d|
  {
    var (first, j) :- ReadU8(d, i);
    if first % 4 == 0 then
      Done(first / 4, j)
    else if first % 4 == 1 then
      var (second, k) :- ReadU8(d, j);
      Done((second * 256 + first) / 4, k)
    else if first % 4 == 2 then
      var (rest, k) :- ReadRaw(d, j, 3);
      Done(FromLE([first] + rest) / 4, k)
    else
      var (body, k) :- ReadRaw(d, j, first / 4 + 4);
      Done(FromLE(body), k)
  }

  function ReadVec(d: seq<byte>, i: nat): (r: Step<seq<byte>>)
    ensures r.Done? ==> i < r.next <= |d|
  {
    var (n, j) :- ReadCompact(d, i);
    ReadRaw(d, j, n)
  }

  function ReadOptVec(d: seq<byte>, i: nat): (r: Step<Option<seq<byte>>>)
    ensures r.Done? ==> i < r.next <= |d|
  {
    var (tag, j) :- ReadU8(d, i);
    if tag == 0 then
      Done(None, j)
    else if tag != 1 then
      Fail(BadOptionTag)
    else
      var (v, k) :- ReadVec(d, j);
      Done(Some(v), k)
  }

  function ReadOptU32(d: seq<byte>, i: nat): (r: Step<Option<nat>>)
    ensures r.Done? ==> i < r.next <= |d|
  {
    var (tag, j) :- ReadU8(d, i);
    if tag == 0 then
      Done(None, j)
    else if tag != 1 then
      Fail(BadOptionTag)
    else
      var (v, k) :- ReadUint(d, j, 4);
      Done(Some(v), k)
  }

  // ----- the decoder object -----

  /** `class Scale`: a byte string and a cursor that only moves forward inside it. */
  class Decoder {
    const data: seq<byte>
    var i: nat

    ghost predicate Valid()
      reads this
    {
      i <= |data|
    }

    constructor (data: seq<byte>)
      ensures Valid() && this.data == data && i == 0
    {
      this.data := data;
      i := 0;
    }

    method U8() returns (r: Result<byte>)
      requires Valid()
      modifies this
      ensures Valid() && i >= old(i)
      ensures r == ReadU8(data, old(i)).Outcome()
      ensures r.Ok? ==> i == ReadU8(data, old(i)).next
    {
      if i + 1 > |data| { return Error(Short); }
      r := Ok(data[i]);
      i := i + 1;
    }

    method Raw(n: nat) returns (r: Result<seq<byte>>)
      requires Valid()
      modifies this
      ensures Valid() && i >= old(i)
      ensures r == ReadRaw(data, old(i), n).Outcome()
      ensures r.Ok? ==> i == ReadRaw(data, old(i), n).next
    {
      if i + n > |data| { return Error(Short); }
      r := Ok(data[i..i + n]);
      i := i + n;
    }

    method U32() returns (r: Result<nat>)
      requires Valid()
      modifies this
      ensures Valid() && i >= old(i)
      ensures r == ReadUint(data, old(i), 4).Outcome()
      ensures r.Ok? ==> i == ReadUint(data, old(i), 4).next
    {
      if i + 4 > |data| { return Error(Short); }
      r := Ok(FromLE(data[i..i + 4]));
      i := i + 4;
    }

    method U64() returns (r: Result<nat>)
      requires Valid()
      modifies this
      ensures Valid() && i >= old(i)
      ensures r == ReadUint(data, old(i), 8).Outcome()
      ensures r.Ok? ==> i == ReadUint(data, old(i), 8).next
    {
      if i + 8 > |data| { return Error(Short); }
      r := Ok(FromLE(data[i..i + 8]));
      i := i + 8;
    }

    method Compact() returns (r: Result<nat>)
      requires Valid()
      modifies this
      ensures Valid() && i >= old(i)
      ensures r == ReadCompact(data, old(i)).Outcome()
      ensures r.Ok? ==> i == ReadCompact(data, old(i)).next
    {
      var first :- U8();
      if first % 4 == 0 { return Ok(first / 4); }
      if first % 4 == 1 {
        var second :- U8();
        return Ok(((second as int) * 256 + first as int) / 4);
      }
      if first % 4 == 2 {
        var rest :- Raw(3);
        return Ok(FromLE([first] + rest) / 4);
      }
      var body :- Raw(first / 4 + 4);
      return Ok(FromLE(body));
    }

    method VecBytes() returns (r: Result<seq<byte>>)
      requires Valid()
      modifies this
      ensures Valid() && i >= old(i)
      ensures r == ReadVec(data, old(i)).Outcome()
      ensures r.Ok? ==> i == ReadVec(data, old(i)).next
    {
      var n :- Compact();
      r := Raw(n);
    }

    method OptBytes() returns (r: Result<Option<seq<byte>>>)
      requires Valid()
      modifies this
      ensures Valid() && i >= old(i)
      ensures r == ReadOptVec(data, old(i)).Outcome()
      ensures r.Ok? ==> i == ReadOptVec(data, old(i)).next
    {
      var tag :- U8();
      if tag == 0 { return Ok(None); }
      if tag != 1 { return Error(BadOptionTag); }
      var v :- VecBytes();
      return Ok(Some(v));
    }

    method OptU32() returns (r: Result<Option<nat>>)
      requires Valid()
      modifies this
      ensures Valid() && i >= old(i)
      ensures r == ReadOptU32(data, old(i)).Outcome()
      ensures r.Ok? ==> i == ReadOptU32(data, old(i)).next
    {
      var tag :- U8();
      if tag == 0 { return Ok(None); }
      if tag != 1 { return Error(BadOptionTag); }
      var v :- U32();
      return Ok(Some(v));
    }
  }

  // ----- the canonical encoder -----

  /** Number of bytes of the shortest little-endian form of `n`. */
  function ByteLength(n: nat): (k: nat)
    ensures n < Pow256(k)
  {
    if n == 0 then 0 else 1 + ByteLength(n / 256)
  }

  lemma {:induction false} ByteLengthAtMost(n: nat, k: nat)
    requires n < Pow256(k)
    ensures ByteLength(n) <= k
  {
    if n > 0 {
      ByteLengthAtMost(n / 256, k - 1);
    }
  }

  /** The largest number a compact integer can hold is below 2^536. */
  predicate CompactSized(n: nat) { n < Pow256(67) }

  function EncodeCompact(n: nat): (e: seq<byte>)
    requires CompactSized(n)
    ensures |e| >= 1
  {
    if n < 64 then ToLE(4 * n, 1)
    else if n < 0x4000 then ToLE(4 * n + 1, 2)
    else if n < 0x4000_0000 then ToLE(4 * n + 2, 4)
    else
      var k := BigLength(n);
      [4 * (k - 4) + 3] + ToLE(n, k)
  }

  function BigLength(n: nat): (k: nat)
    requires CompactSized(n)
    ensures 4 <= k <= 67 && n < Pow256(k)
  {
    ByteLengthAtMost(n, 67);
    var k := ByteLength(n);
    if k < 4 then Pow256Monotone(k, 4); 4 else k
  }

  function EncodeVec(v: seq<byte>): (e: seq<byte>)
    requires CompactSized(|v|)
  {
    EncodeCompact(|v|) + v
  }

  function EncodeOptVec(v: Option<seq<byte>>): (e: seq<byte>)
    requires v.Some? ==> CompactSized(|v.value|)
  {
    match v
    case None => [0]
    case Some(w) => [1] + EncodeVec(w)
  }

  function EncodeOptU32(v: Option<nat>): (e: seq<byte>) {
    match v
    case None => [0]
    case Some(w) => [1] + ToLE(w, 4)
  }

  // ----- decoding undoes encoding, whatever follows -----

  lemma RawRoundTrip(v: seq<byte>, d: seq<byte>, i: nat)
    requires At(d, i, v)
    ensures ReadRaw(d, i, |v|) == Done(v, i + |v|)
  {}

  lemma UintRoundTrip(v: nat, width: nat, d: seq<byte>, i: nat)
    requires v < Pow256(width) && At(d, i, ToLE(v, width))
    ensures ReadUint(d, i, width) == Done(v, i + width)
  {
    LittleEndianRoundTrip(v, width);
  }

  lemma U8RoundTrip(v: byte, d: seq<byte>, i: nat)
    requires At(d, i, [v])
    ensures ReadU8(d, i) == Done(v, i + 1)
  {
    assert d[i..i + 1][0] == d[i];
  }

  lemma FirstByte(e: seq<byte>, d: seq<byte>, i: nat)
    requires |e| >= 1 && At(d, i, e)
    ensures i < |d| && d[i] == e[0]
  {
    assert d[i..i + |e|][0] == d[i];
  }

  lemma CompactOneByte(n: nat, d: seq<byte>, i: nat)
    requires n < 64 && At(d, i, ToLE(4 * n, 1))
    ensures ReadCompact(d, i) == Done(n, i + 1)
  {
    FirstByte(ToLE(4 * n, 1), d, i);
  }

  lemma CompactTwoBytes(n: nat, d: seq<byte>, i: nat)
    requires 64 <= n < 0x4000 && At(d, i, ToLE(4 * n + 1, 2))
    ensures ReadCompact(d, i) == Done(n, i + 2)
  {
    var e := ToLE(4 * n + 1, 2);
    FirstByte(e, d, i);
    assert e[0] == (4 * n + 1) % 256;
    assert e[1..] == ToLE((4 * n + 1) / 256, 1);
    assert e[1] == e[1..][0] == (4 * n + 1) / 256;
    assert d[i..i + 2][1] == d[i + 1];
  }

  lemma CompactFourBytes(n: nat, d: seq<byte>, i: nat)
    requires 0x4000 <= n < 0x4000_0000 && At(d, i, ToLE(4 * n + 2, 4))
    ensures ReadCompact(d, i) == Done(n, i + 4)
  {
    FirstByte(ToLE(4 * n + 2, 4), d, i);
    assert 4 * n + 2 < Pow256(4) by { Pow256Small(); }
    LittleEndianRoundTrip(4 * n + 2, 4);
    assert d[i..i + 4] == [d[i]] + d[i + 1..i + 4];
  }

  lemma CompactBig(n: nat, k: nat, d: seq<byte>, i: nat)
    requires 4 <= k <= 67 && n < Pow256(k) && At(d, i, [4 * (k - 4) + 3] + ToLE(n, k))
    ensures ReadCompact(d, i) == Done(n, i + 1 + k)
  {
    var head: byte := 4 * (k - 4) + 3;
    FirstByte([head] + ToLE(n, k), d, i);
    LittleEndianRoundTrip(n, k);
    AtSplit(d, i, [head], ToLE(n, k));
  }

  /** Compact decoding undoes compact encoding for every natural below 2^536. */
  lemma CompactRoundTrip(n: nat, d: seq<byte>, i: nat)
    requires CompactSized(n) && At(d, i, EncodeCompact(n))
    ensures ReadCompact(d, i) == Done(n, i + |EncodeCompact(n)|)
  {
    hide ReadCompact, ByteLength, BigLength, ToLE, At;
    if n < 64 {
      CompactOneByte(n, d, i);
    } else if n < 0x4000 {
      CompactTwoBytes(n, d, i);
    } else if n < 0x4000_0000 {
      CompactFourBytes(n, d, i);
    } else {
      CompactBig(n, BigLength(n), d, i);
    }
  }

  lemma VecRoundTrip(v: seq<byte>, d: seq<byte>, i: nat)
    requires CompactSized(|v|) && At(d, i, EncodeVec(v))
    ensures ReadVec(d, i) == Done(v, i + |EncodeVec(v)|)
  {
    hide ReadCompact, EncodeCompact;
    AtSplit(d, i, EncodeCompact(|v|), v);
    CompactRoundTrip(|v|, d, i);
  }

  lemma OptVecRoundTrip(v: Option<seq<byte>>, d: seq<byte>, i: nat)
    requires v.Some? ==> CompactSized(|v.value|)
    requires At(d, i, EncodeOptVec(v))
    ensures ReadOptVec(d, i) == Done(v, i + |EncodeOptVec(v)|)
  {
    hide ReadVec, EncodeVec, ReadU8, At;
    match v
    case None => U8RoundTrip(0, d, i);
    case Some(w) =>
      AtSplit(d, i, [1], EncodeVec(w));
      U8RoundTrip(1, d, i);
      VecRoundTrip(w, d, i + 1);
  }

  lemma OptU32RoundTrip(v: Option<nat>, d: seq<byte>, i: nat)
    requires v.Some? ==> v.value < Pow256(4)
    requires At(d, i, EncodeOptU32(v))
    ensures ReadOptU32(d, i) == Done(v, i + |EncodeOptU32(v)|)
  {
    hide ReadUint, ReadU8, At, ToLE;
    match v
    case None => U8RoundTrip(0, d, i);
    case Some(w) =>
      AtSplit(d, i, [1], ToLE(w, 4));
      U8RoundTrip(1, d, i);
      UintRoundTrip(w, 4, d, i + 1);
  }

  /** What is not read: counts that reach behind the data, and option tags other than 0 and 1. */
  lemma ReadsRefused(d: seq<byte>, i: nat)
    ensures ReadVec(d, i).Done? <==>
            ReadCompact(d, i).Done? && ReadCompact(d, i).next + ReadCompact(d, i).value <= |d|
    ensures ReadVec(d, i).Fail? ==> ReadVec(d, i) == Fail(Short)
    ensures ReadOptVec(d, i).Done? <==> i < |d| && (d[i] == 0 || (d[i] == 1 && ReadVec(d, i + 1).Done?))
    ensures ReadOptU32(d, i).Done? <==> i < |d| && (d[i] == 0 || (d[i] == 1 && i + 5 <= |d|))
    ensures (ReadOptVec(d, i) == Fail(BadOptionTag)) <==> i < |d| && d[i] > 1
    ensures (ReadOptU32(d, i) == Fail(BadOptionTag)) <==> i < |d| && d[i] > 1
  {}

  // ----- a successful read depends on the bytes it consumed and on nothing else -----

  /** The bytes `d[i..k]` stand in `d'` at `j`. */
  predicate Copied(d: seq<byte>, i: nat, k: nat, d': seq<byte>, j: nat) {
    i <= k <= |d| && At(d', j, d[i..k])
  }

  lemma CopiedSlice(d: seq<byte>, i: nat, k: nat, d': seq<byte>, j: nat)
    requires Copied(d, i, k, d', j)
    ensures i <= k <= |d| && j + (k - i) <= |d'| && d'[j..j + (k - i)] == d[i..k]
  {}

  lemma CopiedSplit(d: seq<byte>, i: nat, m: nat, k: nat, d': seq<byte>, j: nat)
    requires i <= m <= k && Copied(d, i, k, d', j)
    ensures Copied(d, i, m, d', j) && Copied(d, m, k, d', j + (m - i))
  {
    SliceSplit(d, i, m, k);
    AtSplit(d', j, d[i..m], d[m..k]);
  }

  lemma RawLocal(d: seq<byte>, i: nat, n: nat, d': seq<byte>, j: nat)
    requires ReadRaw(d, i, n).Done? && Copied(d, i, i + n, d', j)
    ensures ReadRaw(d', j, n) == Done(ReadRaw(d, i, n).value, j + n)
  {}

  lemma UintLocal(d: seq<byte>, i: nat, width: nat, d': seq<byte>, j: nat)
    requires ReadUint(d, i, width).Done? && Copied(d, i, i + width, d', j)
    ensures ReadUint(d', j, width) == Done(ReadUint(d, i, width).value, j + width)
  {}

  lemma U8Local(d: seq<byte>, i: nat, d': seq<byte>, j: nat)
    requires ReadU8(d, i).Done? && Copied(d, i, i + 1, d', j)
    ensures ReadU8(d', j) == Done(d[i], j + 1)
  {
    assert d[i..i + 1][0] == d'[j..j + 1][0];
  }

  lemma CompactLocal(d: seq<byte>, i: nat, d': seq<byte>, j: nat)
    requires ReadCompact(d, i).Done? && Copied(d, i, ReadCompact(d, i).next, d', j)
    ensures ReadCompact(d', j) == Done(ReadCompact(d, i).value, j + (ReadCompact(d, i).next - i))
  {
    var k := ReadCompact(d, i).next;
    CopiedSplit(d, i, i + 1, k, d', j);
    U8Local(d, i, d', j);
    if d[i] % 4 == 1 {
      U8Local(d, i + 1, d', j + 1);
    } else if d[i] % 4 == 2 {
      RawLocal(d, i + 1, 3, d', j + 1);
    } else if d[i] % 4 == 3 {
      RawLocal(d, i + 1, d[i] / 4 + 4, d', j + 1);
    }
  }

  lemma VecLocal(d: seq<byte>, i: nat, d': seq<byte>, j: nat)
    requires ReadVec(d, i).Done? && Copied(d, i, ReadVec(d, i).next, d', j)
    ensures ReadVec(d', j) == Done(ReadVec(d, i).value, j + (ReadVec(d, i).next - i))
  {
    hide ReadCompact;
    var m := ReadCompact(d, i);
    CopiedSplit(d, i, m.next, ReadVec(d, i).next, d', j);
    CompactLocal(d, i, d', j);
    RawLocal(d, m.next, m.value, d', j + (m.next - i));
  }

  lemma OptVecLocal(d: seq<byte>, i: nat, d': seq<byte>, j: nat)
    requires ReadOptVec(d, i).Done? && Copied(d, i, ReadOptVec(d, i).next, d', j)
    ensures ReadOptVec(d', j) == Done(ReadOptVec(d, i).value, j + (ReadOptVec(d, i).next - i))
  {
    hide ReadVec;
    CopiedSplit(d, i, i + 1, ReadOptVec(d, i).next, d', j);
    U8Local(d, i, d', j);
    if d[i] == 1 {
      VecLocal(d, i + 1, d', j + 1);
    }
  }

  // ----- the second compact decoder (old-chain transaction export) -----

  /** Python slicing clips at the end of the data instead of failing. */
  function Slice(d: seq<byte>, a: nat, b: nat): (s: seq<byte>)
    requires a <= b
  {
    d[Min(a, |d|)..Min(b, |d|)]
  }

  /** `compact_u32`; `None` is the IndexError of reading the first byte behind the end. */
  function CompactU32(d: seq<byte>, offset: nat): (r: Option<(nat, nat)>) {
    if offset >= |d| then None
    else
      var b0 := d[offset];
      if b0 % 4 == 0 then Some((b0 / 4, offset + 1))
      else if b0 % 4 == 1 then Some((FromLE(Slice(d, offset, offset + 2)) / 4, offset + 2))
      else if b0 % 4 == 2 then Some((FromLE(Slice(d, offset, offset + 4)) / 4, offset + 4))
      else
        var n := b0 / 4 + 4;
        Some((FromLE(Slice(d, offset + 1, offset + 1 + n)), offset + 1 + n))
  }

  /**
   The two decoders agree on every input the genesis script accepts, canonical or not, and the
   exporter's end offset tells when that is: it stays inside the data exactly then.
   */
  lemma CompactDecodersAgree(d: seq<byte>, i: nat)
    ensures ReadCompact(d, i).Done? <==> CompactU32(d, i).Some? && CompactU32(d, i).value.1 <= |d|
    ensures ReadCompact(d, i).Done? ==>
              CompactU32(d, i) == Some((ReadCompact(d, i).value, ReadCompact(d, i).next))
  {
    if i < |d| && d[i] % 4 == 1 && i + 2 <= |d| {
      var s := d[i..i + 2];
      assert s[1..] == [d[i + 1]] && s[1..][1..] == [];
      assert FromLE(s) == d[i] + 256 * FromLE(s[1..]);
    } else if i < |d| && d[i] % 4 == 2 && i + 4 <= |d| {
      assert d[i..i + 4] == [d[i]] + d[i + 1..i + 4];
    }
  }
}
