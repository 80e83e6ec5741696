/**
 Moving the chunk offsets of an MP4 movie header (sections 8.7.5 and 4.2 of ISO/IEC 14496-12):
 a walk over nested boxes that adds a distance to every entry of every stco and co64 table,
 in place.
 */
module ChunkOffsets {
  import opened Bytes

  const STCO: seq<byte> := [115, 116, 99, 111]
  const CO64: seq<byte> := [99, 111, 54, 52]
  const META: seq<byte> := [109, 101, 116, 97]

  /** moov, trak, mdia, minf, stbl, edts, dinf, udta, meta. */
  const CONTAINERS: set<seq<byte>> := {
    [109, 111, 111, 118], [116, 114, 97, 107], [109, 100, 105, 97], [109, 105, 110, 102], [115, 116, 98, 108],
    [101, 100, 116, 115], [100, 105, 110, 102], [117, 100, 116, 97], META
  }

  const TWO_31: nat := 0x8000_0000
  const TWO_32: nat := 0x1_0000_0000
  const TWO_63: nat := 0x8000_0000_0000_0000
  const TWO_64: nat := 0x1_0000_0000_0000_0000

  // ----- numbers in place -----

  function Number(b: seq<byte>, p: nat, width: nat): (v: nat)
    requires p + width <= |b|
    ensures v < Pow256(width)
  {
    FromBE(b[p..p + width])
  }

  function Put(b: seq<byte>, p: nat, e: seq<byte>): (c: seq<byte>)
    requires p + |e| <= |b|
    ensures |c| == |b|
  {
    b[..p] + e + b[p + |e|..]
  }

  /** Kotlin's `Long` with these 64 bits. */
  function Signed(v: nat): (n: int)
    requires v < TWO_64
  {
    if v < TWO_63 then v else v - TWO_64
  }

  /** An entry moved by `delta`: 4-byte entries stay 32-bit numbers, 8-byte entries non-negative `Long`s. */
  function Moved(width: nat, v: nat, delta: nat): (n: Option<nat>)
    requires v < TWO_64
    ensures n.Some? ==> n.value < TWO_64 && (width == 4 ==> n.value < TWO_32)
  {
    if width == 4 then (if v + delta < TWO_32 then Some(v + delta) else None)
    else (var n := Signed(v) + delta; if 0 <= n < TWO_63 then Some(n) else None)
  }

  // ----- the walk -----

  datatype Header = Header(length: nat, size: int)

  /** The header at `o`; `None` is a 64-bit size reaching behind the array. */
  function ReadHeader(b: seq<byte>, o: nat): (h: Option<Header>)
    requires o + 8 <= |b|
    ensures h.Some? ==> 8 <= h.value.length <= 16
  {
    if Number(b, o, 4) != 1 then Some(Header(8, Number(b, o, 4)))
    else if o + 16 > |b| then None
    else Pow256Small(); Some(Header(16, Signed(Number(b, o + 8, 8))))
  }

  function Kind(b: seq<byte>, o: nat): (k: seq<byte>)
    requires o + 8 <= |b|
  {
    b[o + 4..o + 8]
  }

  function PatchEntries(b: seq<byte>, p: nat, n: nat, width: nat, delta: nat): (r: Option<seq<byte>>)
    requires width in {4, 8} && p + n * width <= |b|
    ensures r.Some? ==> |r.value| == |b|
    decreases n
  {
    if n == 0 then Some(b)
    else
      var v := MovedAt(b, p, width, delta);
      if v.None? then None else PatchEntries(Put(b, p, ToBE(v.value, width)), p + width, n - 1, width, delta)
  }

  /** The entry at `p`, moved. */
  function MovedAt(b: seq<byte>, p: nat, width: nat, delta: nat): (v: Option<nat>)
    requires width in {4, 8} && p + width <= |b|
  {
    Pow256Small();
    Moved(width, Number(b, p, width), delta)
  }

  /** `patchStco` with width 4, `patchCo64` with width 8. A count of 2^31 or more is a negative `Int`. */
  function PatchTable(b: seq<byte>, s: nat, e: nat, width: nat, delta: nat): (r: Option<seq<byte>>)
    requires width in {4, 8} && e <= |b|
    ensures r.Some? ==> |r.value| == |b|
  {
    if s + 8 > e then None
    else
      var count := Number(b, s + 4, 4);
      if count >= TWO_31 then Some(b)
      else if s + 8 + count * width > e then None
      else PatchEntries(b, s + 8, count, width, delta)
  }

  predicate IsTable(kind: seq<byte>) { kind == STCO || kind == CO64 }

  /** `Overflow`: the walk met a header whose end is no `Long`. Of a table such an end lies before its start. */
  datatype Patched = Done(bytes: seq<byte>) | Refused | Overflow

  function Lift(r: Option<seq<byte>>): Patched { if r.Some? then Done(r.value) else Refused }

  function Extent(from: nat, to: nat): nat { if from < to then to - from else 0 }

  /** `patchBoxes`. */
  function Patch(b: seq<byte>, o: nat, end: nat, delta: nat): (r: Patched)
    requires end <= |b|
    ensures r.Done? ==> |r.bytes| == |b|
    decreases Extent(o, end), 1
  {
    if o + 8 > end then Done(b)
    else
      var h := ReadHeader(b, o);
      if h.None? then Refused
      else if h.value.size < h.value.length then Done(b)
      else if o + h.value.size >= TWO_63 then (if IsTable(Kind(b, o)) then Refused else Overflow)
      else if o + h.value.size > end then Done(b)
      else
        var r := PatchBox(b, Kind(b, o), o + h.value.length, o + h.value.size, delta);
        if r.Done? then Patch(r.bytes, o + h.value.size, end, delta) else r
  }

  function PatchBox(b: seq<byte>, kind: seq<byte>, s: nat, e: nat, delta: nat): (r: Patched)
    requires e <= |b|
    ensures r.Done? ==> |r.bytes| == |b|
    decreases Extent(s, e), 2
  {
    if kind == STCO then Lift(PatchTable(b, s, e, 4, delta))
    else if kind == CO64 then Lift(PatchTable(b, s, e, 8, delta))
    else if kind in CONTAINERS then Patch(b, if kind == META then s + 4 else s, e, delta)
    else Done(b)
  }

  // ----- the same walk on an array -----

  method PutNumber(a: array<byte>, p: nat, v: nat, width: nat)
    requires p + width <= a.Length
    modifies a
    ensures a[..] == Put(old(a[..]), p, ToBE(v, width))
  {
    var e := ToBE(v, width);
    for i := 0 to width
      invariant a[..] == Put(old(a[..]), p, e[..i])
    {
      a[p + i] := e[i];
      assert e[..i + 1] == e[..i] + [e[i]];
    }
    assert e[..width] == e;
  }

  method PatchTableInPlace(a: array<byte>, s: nat, e: nat, width: nat, delta: nat) returns (done: bool)
    requires width in {4, 8} && e <= a.Length
    modifies a
    ensures done <==> PatchTable(old(a[..]), s, e, width, delta).Some?
    ensures done ==> a[..] == PatchTable(old(a[..]), s, e, width, delta).value
  {
    hide Number, Moved, Put, MovedAt, PatchEntries;
    if s + 8 > e { return false; }
    var count := Number(a[..], s + 4, 4);
    if count >= TWO_31 { return true; }
    if s + 8 + count * width > e { return false; }
    ghost var goal := PatchEntries(a[..], s + 8, count, width, delta);
    var index, position := 0, s + 8;
    while index < count
      invariant 0 <= index <= count && position + (count - index) * width == s + 8 + count * width <= a.Length
      invariant goal == PatchEntries(a[..], position, count - index, width, delta)
    {
      Distribute(count - index, width);
      EntryStep(a[..], position, count - index, width, delta);
      var value := MovedAt(a[..], position, width, delta);
      if value.None? { return false; }
      PutNumber(a, position, value.value, width);
      index, position := index + 1, position + width;
    }
    EntryStep(a[..], position, 0, width, delta);
    return true;
  }

  lemma Distribute(n: nat, width: nat)
    requires n > 0
    ensures n * width == (n - 1) * width + width >= width
  {}

  lemma EntryStep(b: seq<byte>, p: nat, n: nat, width: nat, delta: nat)
    requires width in {4, 8} && p + n * width <= |b|
    ensures n == 0 ==> PatchEntries(b, p, n, width, delta) == Some(b)
    ensures n > 0 ==> p + width + (n - 1) * width <= |b|
    ensures n > 0 ==> var v := MovedAt(b, p, width, delta);
                      PatchEntries(b, p, n, width, delta) == if v.None? then None
                      else PatchEntries(Put(b, p, ToBE(v.value, width)), p + width, n - 1, width, delta)
  {
    hide Number, Moved, Put;
  }

  datatype Outcome = Finished | Failed | Wrapped

  predicate Is(out: Outcome, r: Patched) {
    (out == Finished <==> r.Done?) && (out == Failed <==> r == Refused) && (out == Wrapped <==> r == Overflow)
  }

  method PatchBoxes(a: array<byte>, start: nat, end: nat, delta: nat) returns (out: Outcome)
    requires end <= a.Length
    modifies a
    ensures Is(out, Patch(old(a[..]), start, end, delta))
    ensures out == Finished ==> a[..] == Patch(old(a[..]), start, end, delta).bytes
    decreases Extent(start, end)
  {
    hide Patch, PatchBox, PatchTable, PatchEntries, Number, ReadHeader, Kind;
    var offset := start;
    while offset + 8 <= end
      invariant start <= offset
      invariant Patch(old(a[..]), start, end, delta) == Patch(a[..], offset, end, delta)
      decreases end - offset
    {
      Step(a[..], offset, end, delta);
      var h := ReadHeader(a[..], offset);
      if h.None? { return Failed; }
      var header, size := h.value.length, h.value.size;
      if size < header { return Finished; }
      var kind := Kind(a[..], offset);
      if offset + size >= TWO_63 { return if IsTable(kind) then Failed else Wrapped; }
      if offset + size > end { return Finished; }
      BoxStep(a[..], kind, offset + header, offset + size, delta);
      if kind == STCO {
        var done := PatchTableInPlace(a, offset + header, offset + size, 4, delta);
        if !done { return Failed; }
      } else if kind == CO64 {
        var done := PatchTableInPlace(a, offset + header, offset + size, 8, delta);
        if !done { return Failed; }
      } else if kind in CONTAINERS {
        var childStart := offset + header + if kind == META then 4 else 0;
        var inner := PatchBoxes(a, childStart, offset + size, delta);
        if inner != Finished { return inner; }
      }
      offset := offset + size;
    }
    Step(a[..], offset, end, delta);
    return Finished;
  }

  /** One round of the walk. */
  lemma Step(b: seq<byte>, o: nat, end: nat, delta: nat)
    requires end <= |b|
    ensures o + 8 > end ==> Patch(b, o, end, delta) == Done(b)
    ensures o + 8 <= end ==>
              match ReadHeader(b, o)
              case None => Patch(b, o, end, delta) == Refused
              case Some(h) =>
                if h.size < h.length then Patch(b, o, end, delta) == Done(b)
                else if o + h.size >= TWO_63 then Patch(b, o, end, delta) == if IsTable(Kind(b, o)) then Refused else Overflow
                else if o + h.size > end then Patch(b, o, end, delta) == Done(b)
                else var r := PatchBox(b, Kind(b, o), o + h.length, o + h.size, delta);
                     Patch(b, o, end, delta) == if r.Done? then Patch(r.bytes, o + h.size, end, delta) else r
  {
    hide ReadHeader, PatchBox, Kind;
  }

  lemma BoxStep(b: seq<byte>, kind: seq<byte>, s: nat, e: nat, delta: nat)
    requires e <= |b|
    ensures PatchBox(b, kind, s, e, delta) ==
            if kind == STCO then Lift(PatchTable(b, s, e, 4, delta))
            else if kind == CO64 then Lift(PatchTable(b, s, e, 8, delta))
            else if kind in CONTAINERS then Patch(b, if kind == META then s + 4 else s, e, delta)
            else Done(b)
  {
    hide PatchTable, Patch;
  }
}
