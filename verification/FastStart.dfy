/**
 The walk over the top-level boxes of an MP4 file (section 4.2 of ISO/IEC 14496-12) that
 decides whether the movie header stands before the media data.
 */
module FastStart {
  import opened Bytes

  const MOOV: seq<byte> := [109, 111, 111, 118]
  const MDAT: seq<byte> := [109, 100, 97, 116]
  const TWO_64: nat := 0x1_0000_0000_0000_0000

  // ----- one box header -----

  function Size32(f: seq<byte>, o: nat): nat
    requires o + 8 <= |f|
  {
    FromBE(f[o..o + 4])
  }

  function TypeAt(f: seq<byte>, o: nat): seq<byte>
    requires o + 8 <= |f|
  {
    f[o + 4..o + 8]
  }

  /** The size a header claims: 32 bits, 64 bits, or up to the end of the file. */
  function ClaimedSize(f: seq<byte>, o: nat): (n: Option<nat>)
    requires o + 8 <= |f|
  {
    var n := Size32(f, o);
    if n == 1 then (if o + 16 <= |f| then Some(FromBE(f[o + 8..o + 16])) else None)
    else if n == 0 then Some(|f| - o)
    else Some(n)
  }

  predicate BoxOk(f: seq<byte>, o: nat) {
    o + 8 <= |f| && ClaimedSize(f, o).Some? && 8 <= ClaimedSize(f, o).value <= |f| - o
  }

  /** The unsigned 64-bit sum of offset and size overflows, which traps. */
  predicate Traps(f: seq<byte>, o: nat) {
    o + 8 <= |f| && ClaimedSize(f, o).Some? && ClaimedSize(f, o).value >= 8
    && o + ClaimedSize(f, o).value >= TWO_64
  }

  // ----- tilings -----

  /** A top-level box: where it starts and its four-byte type. */
  datatype Found = Found(offset: nat, kind: seq<byte>)

  /** From offset `o` on, the file is the boxes of `l` and fewer than 8 trailing bytes. */
  predicate Tiles(f: seq<byte>, o: nat, l: seq<Found>)
    decreases |l|
  {
    if l == [] then o <= |f| < o + 8
    else BoxOk(f, o) && l[0] == Found(o, TypeAt(f, o)) && Tiles(f, o + ClaimedSize(f, o).value, l[1..])
  }

  /** Some walk from `o` over well-formed boxes reaches a header whose end overflows. */
  ghost predicate ReachesTrap(f: seq<byte>, o: nat)
    decreases |f| - o
  {
    Traps(f, o) || (BoxOk(f, o) && ReachesTrap(f, o + ClaimedSize(f, o).value))
  }

  /** The last box of type moov stands before the last box of type mdat. */
  predicate MoovFirst(kinds: seq<seq<byte>>) {
    exists i, j | 0 <= i < j < |kinds| :: LastOf(kinds, MOOV, i) && LastOf(kinds, MDAT, j)
  }

  predicate LastOf(kinds: seq<seq<byte>>, kind: seq<byte>, i: nat) {
    i < |kinds| && kinds[i] == kind && forall k | i < k < |kinds| :: kinds[k] != kind
  }

  function Kinds(l: seq<Found>): (ks: seq<seq<byte>>)
    ensures |ks| == |l|
  {
    seq(|l|, i requires 0 <= i < |l| => l[i].kind)
  }

  lemma {:induction false} TilingUnique(f: seq<byte>, o: nat, a: seq<Found>, b: seq<Found>)
    requires Tiles(f, o, a) && Tiles(f, o, b)
    ensures a == b
    decreases |a|
  {
    hide ClaimedSize, TypeAt;
    if a != [] && b != [] {
      TilingUnique(f, o + ClaimedSize(f, o).value, a[1..], b[1..]);
      assert a == [a[0]] + a[1..] && b == [b[0]] + b[1..];
    }
  }

  /** A file that tiles never traps: the sizes of its boxes stay inside it. */
  lemma {:induction false} TiledNeverTraps(f: seq<byte>, o: nat, l: seq<Found>)
    requires Tiles(f, o, l) && |f| < TWO_64
    ensures !ReachesTrap(f, o)
    decreases |l|
  {
    hide ClaimedSize, TypeAt;
    if l != [] {
      TiledNeverTraps(f, o + ClaimedSize(f, o).value, l[1..]);
    }
  }

  // ----- the program -----

  function LastOffset(l: seq<Found>, kind: seq<byte>): (at: Option<nat>) {
    if l == [] then None
    else if l[|l| - 1].kind == kind then Some(l[|l| - 1].offset)
    else LastOffset(l[..|l| - 1], kind)
  }

  /** What is still to walk, behind the boxes already seen. */
  ghost predicate Extends(f: seq<byte>, seen: seq<Found>, o: nat) {
    && o <= |f|
    && (forall rest :: Tiles(f, o, rest) ==> Tiles(f, 0, seen + rest))
    && (forall l :: Tiles(f, 0, l) ==> exists rest :: l == seen + rest && Tiles(f, o, rest))
    && (ReachesTrap(f, 0) <==> ReachesTrap(f, o))
    && (forall i, j | 0 <= i < j < |seen| :: seen[i].offset < seen[j].offset)
    && (forall i | 0 <= i < |seen| :: seen[i].offset < o)
  }

  lemma OneMoreBox(f: seq<byte>, seen: seq<Found>, o: nat)
    requires |f| < TWO_64 && Extends(f, seen, o) && BoxOk(f, o)
    ensures Extends(f, seen + [Found(o, TypeAt(f, o))], o + ClaimedSize(f, o).value)
  {
    hide ClaimedSize, TypeAt;
    var box := Found(o, TypeAt(f, o));
    var o' := o + ClaimedSize(f, o).value;
    forall rest | Tiles(f, o', rest) ensures Tiles(f, 0, seen + [box] + rest) {
      assert ([box] + rest)[1..] == rest;
      assert Tiles(f, o, [box] + rest);
      assert seen + ([box] + rest) == seen + [box] + rest;
    }
    forall l | Tiles(f, 0, l) ensures exists rest :: l == seen + [box] + rest && Tiles(f, o', rest) {
      var rest :| l == seen + rest && Tiles(f, o, rest);
      assert rest == [box] + rest[1..];
      assert l == seen + [box] + rest[1..];
    }
  }

  /**
   `isFastStart`. `None` is the trap of an overflowing addition. The answer is true exactly
   when the file tiles into boxes with the last moov before the last mdat.
   */
  method IsFastStart(f: seq<byte>) returns (r: Option<bool>)
    requires |f| < 0x8000_0000_0000_0000
    ensures r == Some(true) <==> exists l :: Tiles(f, 0, l) && MoovFirst(Kinds(l))
    ensures r == None <==> ReachesTrap(f, 0)
  {
    hide ClaimedSize, TypeAt, MoovFirst, LastOffset, Extends;
    var offset: nat := 0;
    var moovOffset: Option<nat> := None;
    var mdatOffset: Option<nat> := None;
    ghost var seen: seq<Found> := [];
    NothingSeen(f);
    while offset + 8 <= |f|
      invariant offset <= |f| && Extends(f, seen, offset)
      invariant moovOffset == LastOffset(seen, MOOV) && mdatOffset == LastOffset(seen, MDAT)
      decreases |f| - offset
    {
      var claimed := ClaimedSize(f, offset);
      if claimed.None? || claimed.value < 8 { Stuck(f, seen, offset); return Some(false); }
      if offset + claimed.value >= TWO_64 { Stuck(f, seen, offset); return None; }
      if offset + claimed.value > |f| { Stuck(f, seen, offset); return Some(false); }
      OneMoreBox(f, seen, offset);
      var kind := TypeAt(f, offset);
      SeeBox(seen, Found(offset, kind), MOOV);
      SeeBox(seen, Found(offset, kind), MDAT);
      if kind == MOOV { moovOffset := Some(offset); }
      if kind == MDAT { mdatOffset := Some(offset); }
      seen := seen + [Found(offset, kind)];
      offset := offset + claimed.value;
    }
    Finished(f, seen, offset);
    if moovOffset.None? || mdatOffset.None? { return Some(false); }
    return Some(moovOffset.value < mdatOffset.value);
  }

  lemma NothingSeen(f: seq<byte>)
    ensures Extends(f, [], 0) && LastOffset([], MOOV) == None && LastOffset([], MDAT) == None
  {
    hide Tiles, ReachesTrap;
    forall rest: seq<Found> ensures [] + rest == rest {}
  }

  lemma SeeBox(seen: seq<Found>, box: Found, kind: seq<byte>)
    ensures LastOffset(seen + [box], kind) == if box.kind == kind then Some(box.offset) else LastOffset(seen, kind)
  {
    assert (seen + [box])[..|seen|] == seen;
  }

  /** At a header that is no box the file does not tile, and traps only if this header does. */
  lemma Stuck(f: seq<byte>, seen: seq<Found>, o: nat)
    requires Extends(f, seen, o) && o + 8 <= |f| && !BoxOk(f, o)
    ensures forall l :: !Tiles(f, 0, l)
    ensures ReachesTrap(f, 0) <==> Traps(f, o)
  {
    hide ClaimedSize;
  }

  lemma Finished(f: seq<byte>, seen: seq<Found>, o: nat)
    requires Extends(f, seen, o) && o <= |f| < o + 8 && |f| < TWO_64
    ensures Tiles(f, 0, seen) && !ReachesTrap(f, 0)
    ensures (exists l :: Tiles(f, 0, l) && MoovFirst(Kinds(l)))
       <==> (var a, b := LastOffset(seen, MOOV), LastOffset(seen, MDAT);
             a.Some? && b.Some? && a.value < b.value)
  {
    hide MoovFirst, LastOffset;
    assert seen + [] == seen;
    assert Tiles(f, o, []);
    assert Tiles(f, 0, seen);
    forall l | Tiles(f, 0, l) ensures l == seen { TilingUnique(f, 0, l, seen); }
    TiledNeverTraps(f, 0, seen);
    OffsetsDecide(seen);
  }

  lemma {:induction false} LastOffsetIsLast(l: seq<Found>, kind: seq<byte>) returns (i: nat)
    requires forall i, j | 0 <= i < j < |l| :: l[i].offset < l[j].offset
    ensures match LastOffset(l, kind)
            case None => forall k | 0 <= k < |l| :: Kinds(l)[k] != kind
            case Some(o) => LastOf(Kinds(l), kind, i) && l[i].offset == o
    decreases |l|
  {
    i := 0;
    if l != [] {
      if l[|l| - 1].kind == kind {
        i := |l| - 1;
      } else {
        i := LastOffsetIsLast(l[..|l| - 1], kind);
        assert forall k | 0 <= k < |l| - 1 :: Kinds(l[..|l| - 1])[k] == Kinds(l)[k];
      }
    }
  }

  /** Comparing the two remembered offsets is comparing the places of the two last boxes. */
  lemma {:induction false} OffsetsDecide(l: seq<Found>)
    requires forall i, j | 0 <= i < j < |l| :: l[i].offset < l[j].offset
    ensures MoovFirst(Kinds(l))
       <==> (var a, b := LastOffset(l, MOOV), LastOffset(l, MDAT);
             a.Some? && b.Some? && a.value < b.value)
  {
    hide LastOffset, Kinds;
    var i := LastOffsetIsLast(l, MOOV);
    var j := LastOffsetIsLast(l, MDAT);
    if LastOffset(l, MOOV).Some? && LastOffset(l, MDAT).Some? {
      assert LastOf(Kinds(l), MOOV, i) && LastOf(Kinds(l), MDAT, j);
      forall i', j' | LastOf(Kinds(l), MOOV, i') && LastOf(Kinds(l), MDAT, j') ensures i' == i && j' == j {}
    }
  }

  // ----- serialised box lists -----

  datatype Form = Short | Long | ToEnd

  datatype Box = Box(form: Form, kind: seq<byte>, payload: seq<byte>)

  function BoxSize(b: Box): nat { (if b.form == Long then 16 else 8) + |b.payload| }

  predicate BoxFits(b: Box) {
    |b.kind| == 4 && (b.form == Short ==> BoxSize(b) < 0x1_0000_0000) && BoxSize(b) < TWO_64
  }

  /** Only the last box may extend to the end of the file, and then nothing follows it. */
  predicate ListFits(bs: seq<Box>, tail: seq<byte>) {
    if bs == [] then |tail| < 8
    else BoxFits(bs[0]) && (bs[0].form == ToEnd ==> |bs| == 1 && tail == []) && ListFits(bs[1..], tail)
  }

  function Header(b: Box): (s: seq<byte>)
    requires BoxFits(b)
  {
    match b.form
    case Short => ToBE(BoxSize(b), 4) + b.kind
    case Long => ToBE(1, 4) + b.kind + ToBE(BoxSize(b), 8)
    case ToEnd => ToBE(0, 4) + b.kind
  }

  function File(bs: seq<Box>, tail: seq<byte>): (s: seq<byte>)
    requires ListFits(bs, tail)
  {
    if bs == [] then tail else Header(bs[0]) + (bs[0].payload + File(bs[1..], tail))
  }

  /** The boxes of the list at the offsets where they start, the first one at `o`. */
  function Placed(bs: seq<Box>, o: nat): (l: seq<Found>)
    ensures |l| == |bs|
  {
    if bs == [] then [] else [Found(o, bs[0].kind)] + Placed(bs[1..], o + BoxSize(bs[0]))
  }

  /** The big-endian number standing at an offset. */
  lemma NumberAt(n: nat, width: nat, f: seq<byte>, o: nat)
    requires n < Pow256(width) && At(f, o, ToBE(n, width))
    ensures o + width <= |f| && FromBE(f[o..o + width]) == n
  {
    BigEndianRoundTrip(n, width);
  }

  lemma HeaderRead(b: Box, f: seq<byte>, o: nat)
    requires BoxFits(b) && At(f, o, Header(b))
    ensures o + 8 <= |f| && TypeAt(f, o) == b.kind
    ensures ClaimedSize(f, o) == Some(if b.form == ToEnd then |f| - o else BoxSize(b))
  {
    Pow256Small();
    hide ToBE, FromBE, Pow256, At;
    var lead := if b.form == Short then BoxSize(b) else if b.form == Long then 1 else 0;
    var rest := if b.form == Long then ToBE(BoxSize(b), 8) else [];
    assert Header(b) == ToBE(lead, 4) + (b.kind + rest);
    AtSplit(f, o, ToBE(lead, 4), b.kind + rest);
    AtSplit(f, o + 4, b.kind, rest);
    NumberAt(lead, 4, f, o);
    KindAt(b.kind, f, o + 4);
    if b.form == Long { NumberAt(BoxSize(b), 8, f, o + 8); }
  }

  lemma KindAt(kind: seq<byte>, f: seq<byte>, o: nat)
    requires At(f, o, kind)
    ensures o + |kind| <= |f| && f[o..o + |kind|] == kind
  {}

  lemma TilesCons(f: seq<byte>, o: nat, b: Box, l: seq<Found>)
    requires o + 8 <= |f| && TypeAt(f, o) == b.kind && ClaimedSize(f, o) == Some(BoxSize(b))
    requires Tiles(f, o + BoxSize(b), l) && o + BoxSize(b) <= |f|
    ensures Tiles(f, o, [Found(o, b.kind)] + l)
  {
    hide ClaimedSize, TypeAt;
    HeaderLengthAtLeast(b);
    assert ([Found(o, b.kind)] + l)[1..] == l;
  }

  lemma HeaderLengthAtLeast(b: Box)
    ensures BoxSize(b) >= 8
  {}

  /** What is known about a file that starts with the box `b`. */
  lemma FirstBox(b: Box, rest: seq<byte>, f: seq<byte>, o: nat)
    requires BoxFits(b) && At(f, o, Header(b) + (b.payload + rest))
    requires o + |Header(b) + (b.payload + rest)| == |f| && (b.form == ToEnd ==> rest == [])
    ensures o + 8 <= |f| && TypeAt(f, o) == b.kind && ClaimedSize(f, o) == Some(BoxSize(b))
    ensures At(f, o + BoxSize(b), rest) && o + BoxSize(b) + |rest| == |f|
  {
    HeaderLength(b);
    hide ClaimedSize, TypeAt, BoxFits, At, Header, BoxSize;
    AtSplit(f, o, Header(b), b.payload + rest);
    AtSplit(f, o + |Header(b)|, b.payload, rest);
    HeaderRead(b, f, o);
  }

  lemma {:induction false} ListTiles(bs: seq<Box>, tail: seq<byte>, f: seq<byte>, o: nat)
    requires ListFits(bs, tail) && o + |File(bs, tail)| == |f| && At(f, o, File(bs, tail))
    ensures Tiles(f, o, Placed(bs, o))
    decreases |bs|
  {
    hide ClaimedSize, TypeAt, BoxFits, At, Header, BoxSize;
    if bs != [] {
      hide Tiles;
      var b, rest := bs[0], File(bs[1..], tail);
      FirstBox(b, rest, f, o);
      ListTiles(bs[1..], tail, f, o + BoxSize(b));
      TilesCons(f, o, b, Placed(bs[1..], o + BoxSize(b)));
    }
  }

  lemma HeaderLength(b: Box)
    requires BoxFits(b)
    ensures |Header(b)| + |b.payload| == BoxSize(b) >= 8
  {}

  lemma {:induction false} PlacedKinds(bs: seq<Box>, o: nat)
    ensures forall k | 0 <= k < |bs| :: Placed(bs, o)[k].kind == bs[k].kind
    decreases |bs|
  {
    if bs != [] { PlacedKinds(bs[1..], o + BoxSize(bs[0])); }
  }

  /**
   Walking a serialised box list recovers its boxes and their offsets and nothing else, so
   the file is a fast start exactly when the list has its last moov before its last mdat.
   */
  lemma SerializedListRecovered(bs: seq<Box>, tail: seq<byte>)
    requires ListFits(bs, tail) && |File(bs, tail)| < TWO_64
    ensures forall l :: Tiles(File(bs, tail), 0, l) <==> l == Placed(bs, 0)
    ensures Kinds(Placed(bs, 0)) == seq(|bs|, i requires 0 <= i < |bs| => bs[i].kind)
    ensures !ReachesTrap(File(bs, tail), 0)
  {
    var f := File(bs, tail);
    assert f[0..|f|] == f;
    ListTiles(bs, tail, f, 0);
    hide Tiles, ReachesTrap, File, Placed;
    TiledNeverTraps(f, 0, Placed(bs, 0));
    forall l | Tiles(f, 0, l) ensures l == Placed(bs, 0) { TilingUnique(f, 0, l, Placed(bs, 0)); }
    PlacedKinds(bs, 0);
  }

  // ----- files that are not divided into boxes -----

  /** Well-formed boxes lead from `o` to `e`. */
  predicate WalksTo(f: seq<byte>, o: nat, boxes: nat, e: nat)
    decreases boxes
  {
    if boxes == 0 then o == e else BoxOk(f, o) && WalksTo(f, o + ClaimedSize(f, o).value, boxes - 1, e)
  }

  /**
   At the first header behind well-formed boxes that is no box, because it lacks its long size, claims too few bytes or
   claims more than is left, the file does not tile; the walk traps there exactly when the claimed end is over 64 bits,
   and in every other case the answer is false.
   */
  lemma {:induction false} StopsExactly(f: seq<byte>, o: nat, boxes: nat, e: nat)
    requires WalksTo(f, o, boxes, e) && e + 8 <= |f| < TWO_64 && !BoxOk(f, e)
    ensures forall l :: !Tiles(f, o, l)
    ensures ReachesTrap(f, o) <==>
            ClaimedSize(f, e).Some? && ClaimedSize(f, e).value >= 8 && e + ClaimedSize(f, e).value >= 0x1_0000_0000_0000_0000
    decreases boxes
  {
    hide ClaimedSize, TypeAt;
    if boxes > 0 {
      WalkForward(f, o, boxes, e);
      StopsExactly(f, o + ClaimedSize(f, o).value, boxes - 1, e);
      forall l ensures !Tiles(f, o, l) {
        if l != [] { assert !Tiles(f, o + ClaimedSize(f, o).value, l[1..]); }
      }
    }
  }

  lemma {:induction false} WalkForward(f: seq<byte>, o: nat, boxes: nat, e: nat)
    requires WalksTo(f, o, boxes, e)
    ensures o <= e && (boxes > 0 ==> o + 8 <= e <= |f|)
    decreases boxes
  {
    hide ClaimedSize;
    if boxes > 0 { WalkForward(f, o + ClaimedSize(f, o).value, boxes - 1, e); }
  }

  // ----- files at the edge -----

  /** An 8-byte box and a box that claims the largest 64-bit size: the walk traps. */
  const TRAPPING: seq<byte> := [0, 0, 0, 8, 102, 114, 101, 101, 0, 0, 0, 1, 102, 114, 101, 101,
                                255, 255, 255, 255, 255, 255, 255, 255]

  lemma TrapReachable()
    ensures ReachesTrap(TRAPPING, 0)
  {
    var f := TRAPPING;
    FourAt(f, 0);
    FourAt(f, 8);
    FourAt(f, 16);
    FourAt(f, 20);
    SliceSplit(f, 16, 20, 24);
    TrapAt(f);
  }

  lemma TrapAt(f: seq<byte>)
    requires |f| == 24 && f[0..4] == [0, 0, 0, 8] && f[8..12] == [0, 0, 0, 1]
    requires f[16..24] == [255, 255, 255, 255] + [255, 255, 255, 255]
    ensures ReachesTrap(f, 0)
  {
    FourBytes([0, 0, 0, 8]);
    FourBytes([0, 0, 0, 1]);
    FourBytes([255, 255, 255, 255]);
    EightBytes(f[16..24], [255, 255, 255, 255], [255, 255, 255, 255]);
    hide FromBE;
    assert Traps(f, 8);
  }

  /** A movie header that claims 12 bytes in a 16-byte head: the media data begins inside that head. */
  const OVERLAPPING: seq<byte> := [0, 0, 0, 1, 109, 111, 111, 118, 0, 0, 0, 0, 0, 0, 0, 12,
                                   109, 100, 97, 116, 0, 0, 0, 0]

  /** The walk accepts it: it asks for 8 bytes of any box, also of one with a 16-byte head. */
  lemma ShortLongSizeAccepted()
    ensures ClaimedSize(OVERLAPPING, 0) == Some(12)
    ensures var l := [Found(0, MOOV), Found(12, MDAT)]; Tiles(OVERLAPPING, 0, l) && MoovFirst(Kinds(l))
  {
    var f := OVERLAPPING;
    FourAt(f, 0);
    FourAt(f, 4);
    FourAt(f, 8);
    FourAt(f, 12);
    FourAt(f, 16);
    SliceSplit(f, 8, 12, 16);
    OverlapAccepted(f);
    MoovThenMdat();
  }

  lemma OverlapAccepted(f: seq<byte>)
    requires |f| == 24 && f[0..4] == [0, 0, 0, 1] && f[4..8] == MOOV
    requires f[8..16] == [0, 0, 0, 0] + [0, 0, 0, 12] && f[12..16] == [0, 0, 0, 12] && f[16..20] == MDAT
    ensures ClaimedSize(f, 0) == Some(12) && Tiles(f, 0, [Found(0, MOOV), Found(12, MDAT)])
  {
    FourBytes([0, 0, 0, 0]);
    FourBytes([0, 0, 0, 1]);
    FourBytes([0, 0, 0, 12]);
    EightBytes(f[8..16], [0, 0, 0, 0], [0, 0, 0, 12]);
    hide FromBE;
    assert ClaimedSize(f, 0) == Some(12) && ClaimedSize(f, 12) == Some(12);
    hide ClaimedSize;
    assert Tiles(f, 24, []);
    assert [Found(12, MDAT)][1..] == [] && Tiles(f, 12, [Found(12, MDAT)]);
    assert [Found(0, MOOV), Found(12, MDAT)][1..] == [Found(12, MDAT)];
  }

  lemma MoovThenMdat()
    ensures MoovFirst(Kinds([Found(0, MOOV), Found(12, MDAT)]))
  {
    var l := [Found(0, MOOV), Found(12, MDAT)];
    assert MOOV[1] != MDAT[1];
    assert LastOf(Kinds(l), MOOV, 0) && LastOf(Kinds(l), MDAT, 1);
  }
}
