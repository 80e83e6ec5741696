/**
 Files at the edge of the relocation: one that is damaged, one whose chunk offsets stay behind,
 and a movie header on which the walk does not end.
 */
module RelocationCases {
  import opened Bytes
  import opened ChunkOffsets
  import opened ChunkTables
  import opened Relocation
  import opened RelocationTheorem
  import F = FastStart

  lemma KindsApart()
    ensures F.MOOV[1] != F.MDAT[1] && |F.MOOV| == |F.MDAT| == |STCO| == 4 && STCO !in CONTAINERS && STCO != CO64
  {
    assert STCO[0] == 115 && CO64[0] == 99;
    assert forall c | c in CONTAINERS :: c[0] != 115 || c[2] != 99;
  }

  lemma TwoBoxes(f: seq<byte>, d: Atom, p: Atom)
    requires AtomAt(f, 0) == Some(d) && d.kind == F.MDAT && AtomAt(f, d.size) == Some(p) && p.kind == F.MOOV
    requires d.size + p.size == |f|
    ensures Layout(f, [d, p], 0, 1)
  {
    KindsApart();
    hide AtomAt;
    assert [p][1..] == [] && [d, p][1..] == [p];
    assert Chain(f, |f|, [], |f|) && Chain(f, d.size, [p], |f|) && Chain(f, 0, [d, p], |f|);
  }

  // ----- a movie header without a length of its own -----

  const UNSIZED: seq<byte> := [0, 0, 0, 8] + F.MDAT + ([0, 0, 0, 0] + F.MOOV)

  /** Such a file is replaced before it is refused. */
  lemma UnsizedFileDamaged()
    ensures Optimized(UNSIZED).Damaged?
  {
    var f := UNSIZED;
    assert |f| == 16 && f[0..4] == [0, 0, 0, 8] && f[4..8] == F.MDAT && f[8..12] == [0, 0, 0, 0] && f[12..16] == F.MOOV;
    UnsizedDamaged(f);
  }

  lemma UnsizedDamaged(f: seq<byte>)
    requires |f| == 16 && f[0..4] == [0, 0, 0, 8] && f[4..8] == F.MDAT && f[8..12] == [0, 0, 0, 0] && f[12..16] == F.MOOV
    ensures Optimized(f).Damaged?
  {
    FourBytes([0, 0, 0, 8]);
    FourBytes([0, 0, 0, 0]);
    hide FromBE;
    var d, p := Atom(0, 8, 8, F.MDAT), Atom(8, 8, 8, F.MOOV);
    assert AtomAt(f, 0) == Some(d) && AtomAt(f, 8) == Some(p) && !Sized(f, 8);
    TwoBoxes(f, d, p);
    Step(f[8..16], 8, 8, 8);
    hide AtomAt, Patch, Layout, Sized, Optimized;
    OptimizedExactly(f, [d, p], 0, 1);
  }

  // ----- a movie header with a 64-bit length -----

  /** A head of 16 bytes and a table with one entry, which leads to the first byte of the media data. */
  const LONG_MOVIE: seq<byte> :=
    [0, 0, 0, 1] + F.MOOV + ([0, 0, 0, 0] + [0, 0, 0, 36])
    + ([0, 0, 0, 20] + STCO + ([0, 0, 0, 0] + [0, 0, 0, 1] + [0, 0, 0, 8]))

  const LONG_HEAD: seq<byte> := [0, 0, 0, 12] + F.MDAT + [1, 2, 3, 4] + LONG_MOVIE

  lemma LongMovieTables(b: seq<byte>)
    requires |b| == 36 && b[0..4] == [0, 0, 0, 1] && b[8..16] == [0, 0, 0, 0] + [0, 0, 0, 36]
    requires b[16..20] == [0, 0, 0, 20] && b[20..24] == STCO && b[28..32] == [0, 0, 0, 1]
    ensures Number(b, 0, 4) == 1 && Number(b, 8, 8) == 36 && Slots(b, 16, 36) == Some([Slot(32, 4)])
  {
    FourBytes([0, 0, 0, 0]);
    FourBytes([0, 0, 0, 1]);
    FourBytes([0, 0, 0, 20]);
    FourBytes([0, 0, 0, 36]);
    EightBytes(b[8..16], [0, 0, 0, 0], [0, 0, 0, 36]);
    KindsApart();
    hide FromBE;
    assert Entries(36, 0, 4) == [] && Entries(32, 1, 4) == [Slot(32, 4)];
    assert TableSlots(b, 24, 36, 4) == Some([Slot(32, 4)]);
    assert Slots(b, 36, 36) == Some([]);
    assert BoxSlots(b, STCO, 24, 36) == Some([Slot(32, 4)]);
    hide TableSlots, BoxSlots;
    assert [Slot(32, 4)] + [] == [Slot(32, 4)];
  }

  const LONG_BOXES: seq<Atom> := [Atom(0, 12, 8, F.MDAT), Atom(12, 36, 16, F.MOOV)]

  /** The file is rewritten, its media data moves by 36 bytes, and the entry stays what it was. */
  lemma LongHeadLeavesOffsets()
    ensures Relocatable(LONG_HEAD, LONG_BOXES, 0, 1, LONG_MOVIE) && Optimized(LONG_HEAD).Rewritten?
    ensures |LONG_MOVIE| == 36 && Slots(LONG_MOVIE, 16, 36) == Some([Slot(32, 4)])
    ensures !AllMoved(LONG_MOVIE, LONG_MOVIE, [Slot(32, 4)], 36)
  {
    var f, b := LONG_HEAD, LONG_MOVIE;
    assert |f| == 48 && f[0..4] == [0, 0, 0, 12] && f[4..8] == F.MDAT;
    assert f[12..48] == b;
    assert |b| == 36 && b[0..4] == [0, 0, 0, 1] && b[4..8] == F.MOOV && b[8..16] == [0, 0, 0, 0] + [0, 0, 0, 36];
    assert b[16..20] == [0, 0, 0, 20] && b[20..24] == STCO && b[28..32] == [0, 0, 0, 1];
    LongHeadCase(f, b);
  }

  lemma LongHeadCase(f: seq<byte>, b: seq<byte>)
    requires |f| == 48 && f[0..4] == [0, 0, 0, 12] && f[4..8] == F.MDAT && f[12..48] == b
    requires |b| == 36 && b[0..4] == [0, 0, 0, 1] && b[4..8] == F.MOOV && b[8..16] == [0, 0, 0, 0] + [0, 0, 0, 36]
    requires b[16..20] == [0, 0, 0, 20] && b[20..24] == STCO && b[28..32] == [0, 0, 0, 1]
    ensures Relocatable(f, LONG_BOXES, 0, 1, b) && Optimized(f).Rewritten?
    ensures Slots(b, 16, 36) == Some([Slot(32, 4)]) && !AllMoved(b, b, [Slot(32, 4)], 36)
  {
    LongMovieTables(b);
    LongBoxesAre(f, b);
    LongHeadNotPatched(b, 36);
    hide AtomAt, Patch, Sized, Optimized, AllMoved, Number, Slots;
    OptimizedExactly(f, LONG_BOXES, 0, 1);
    OffsetsFollowExactly(f, LONG_BOXES, 0, 1, b);
  }

  lemma LongBoxesAre(f: seq<byte>, b: seq<byte>)
    requires |f| == 48 && f[0..4] == [0, 0, 0, 12] && f[4..8] == F.MDAT && f[12..48] == b
    requires |b| == 36 && b[4..8] == F.MOOV && Number(b, 0, 4) == 1 && Number(b, 8, 8) == 36
    ensures Layout(f, LONG_BOXES, 0, 1) && Sized(f, 12)
  {
    FourBytes([0, 0, 0, 12]);
    hide FromBE;
    PartNumber(f, 12, 36, 0, 4);
    PartNumber(f, 12, 36, 4, 4);
    PartNumber(f, 12, 36, 8, 8);
    assert AtomAt(f, 0) == Some(LONG_BOXES[0]) && AtomAt(f, 12) == Some(LONG_BOXES[1]);
    TwoBoxes(f, LONG_BOXES[0], LONG_BOXES[1]);
  }

  // ----- an entry that leads out of the media data -----

  /** A head of 8 bytes and a table with one entry, which leads to the first byte of the movie header itself. */
  const SHORT_MOVIE: seq<byte> :=
    [0, 0, 0, 28] + F.MOOV + ([0, 0, 0, 20] + STCO + ([0, 0, 0, 0] + [0, 0, 0, 1] + [0, 0, 0, 12]))

  const SHORT_HEAD: seq<byte> := [0, 0, 0, 12] + F.MDAT + [1, 2, 3, 4] + SHORT_MOVIE

  const SHORT_BOXES: seq<Atom> := [Atom(0, 12, 8, F.MDAT), Atom(12, 28, 8, F.MOOV)]

  /** The file is rewritten, the byte at 12 goes to 0, and the entry that led to it leads to 40. */
  lemma EntryLeftBehind() returns (m: seq<byte>)
    ensures Relocatable(SHORT_HEAD, SHORT_BOXES, 0, 1, m) && Optimized(SHORT_HEAD).Rewritten?
    ensures |SHORT_MOVIE| == |m| == 28 && Slots(SHORT_MOVIE, 8, 28) == Some([Slot(24, 4)])
    ensures SlotValue(SHORT_MOVIE, Slot(24, 4)) == Some(12) && SlotValue(m, Slot(24, 4)) == Some(40)
    ensures NewPlace(0, 12, 28, 12) == 0
  {
    var f, b := SHORT_HEAD, SHORT_MOVIE;
    assert |f| == 40 && f[0..4] == [0, 0, 0, 12] && f[4..8] == F.MDAT;
    assert f[12..40] == b;
    assert |b| == 28 && b[0..4] == [0, 0, 0, 28] && b[4..8] == F.MOOV;
    assert b[8..12] == [0, 0, 0, 20] && b[12..16] == STCO && b[20..24] == [0, 0, 0, 1] && b[24..28] == [0, 0, 0, 12];
    ShortMovieTables(b);
    ShortMovieMoves(b);
    ShortBoxesAre(f, b);
    hide AtomAt, Patch, Sized, Optimized, Number, Slots, SlotValue;
    OptimizedExactly(f, SHORT_BOXES, 0, 1);
    m := Patch(b, 8, 28, 28).bytes;
  }

  /** One table box behind the head. */
  predicate ShortMovie(b: seq<byte>) {
    && |b| == 28 && b[0..4] == [0, 0, 0, 28] && b[4..8] == F.MOOV && b[8..12] == [0, 0, 0, 20]
    && b[12..16] == STCO && b[20..24] == [0, 0, 0, 1] && b[24..28] == [0, 0, 0, 12]
  }

  lemma ShortMovieTables(b: seq<byte>)
    requires ShortMovie(b)
    ensures Number(b, 0, 4) == 28 && ReadHeader(b, 8) == Some(Header(8, 20)) && Kind(b, 8) == STCO
    ensures Slots(b, 8, 28) == Some([Slot(24, 4)]) && SlotValue(b, Slot(24, 4)) == Some(12)
  {
    FourBytes([0, 0, 0, 1]);
    FourBytes([0, 0, 0, 12]);
    FourBytes([0, 0, 0, 20]);
    FourBytes([0, 0, 0, 28]);
    KindsApart();
    hide FromBE;
    assert Entries(28, 0, 4) == [] && Entries(24, 1, 4) == [Slot(24, 4)];
    assert TableSlots(b, 16, 28, 4) == Some([Slot(24, 4)]);
    assert Slots(b, 28, 28) == Some([]);
    assert BoxSlots(b, STCO, 16, 28) == Some([Slot(24, 4)]);
    hide TableSlots, BoxSlots;
    assert [Slot(24, 4)] + [] == [Slot(24, 4)];
  }

  lemma ShortMovieMoves(b: seq<byte>)
    requires ShortMovie(b)
    ensures Patch(b, 8, 28, 28).Done? && SlotValue(Patch(b, 8, 28, 28).bytes, Slot(24, 4)) == Some(40)
  {
    ShortMovieTables(b);
    Step(b, 8, 28, 28);
    BoxStep(b, STCO, 16, 28, 28);
    var r := PatchBox(b, STCO, 16, 28, 28);
    if r.Done? { Step(r.bytes, 28, 28, 28); }
    OffsetsMovedExactly(b, 8, 28, 28);
    TwelveMoved(b);
    hide Patch, PatchBox, Slots, SlotValue, SlotMoved;
  }

  lemma TwelveMoved(b: seq<byte>)
    requires SlotValue(b, Slot(24, 4)) == Some(12)
    ensures SlotMoved(b, Slot(24, 4), 28) == Some(40)
  {
    hide Number;
  }

  lemma ShortBoxesAre(f: seq<byte>, b: seq<byte>)
    requires |f| == 40 && f[0..4] == [0, 0, 0, 12] && f[4..8] == F.MDAT && f[12..40] == b
    requires |b| == 28 && b[4..8] == F.MOOV && Number(b, 0, 4) == 28
    ensures Layout(f, SHORT_BOXES, 0, 1) && Sized(f, 12)
  {
    FourBytes([0, 0, 0, 12]);
    hide FromBE;
    PartNumber(f, 12, 28, 0, 4);
    PartNumber(f, 12, 28, 4, 4);
    assert AtomAt(f, 0) == Some(SHORT_BOXES[0]) && AtomAt(f, 12) == Some(SHORT_BOXES[1]);
    TwoBoxes(f, SHORT_BOXES[0], SHORT_BOXES[1]);
  }

  // ----- a length whose end is no `Long` -----

  /** Kotlin's `Long.toInt`: the low 32 bits. */
  function ToInt(n: nat): (i: int) { if n % TWO_32 < TWO_31 then n % TWO_32 else n % TWO_32 - TWO_32 }

  /** Behind an overflow the walk goes back, to the same place by which of its two sums it is measured. */
  lemma OverflowGoesBack(o: nat, size: nat)
    requires o < TWO_31 && size < TWO_63 <= o + size
    ensures Signed(o + size) == o + size - TWO_64
    ensures o + ToInt(size) == o + size - TWO_63 == ToInt(o + size) && o + ToInt(size) < o
  {
    var t := TWO_63 - size;
    assert size == (TWO_31 - 1) * TWO_32 + (TWO_32 - t);
    assert size % TWO_32 == TWO_32 - t;
    assert o + size == TWO_31 * TWO_32 + (o - t);
    assert (o + size) % TWO_32 == o - t;
  }

  /** The next round of the loop over boxes without tables, overflow included; `None` where the loop ends. */
  function NextRound(b: seq<byte>, o: nat, end: nat): Option<int>
    requires end <= |b|
  {
    if o + 8 > end then None
    else
      var h := ReadHeader(b, o);
      if h.None? || h.value.size < h.value.length || end < o + h.value.size < TWO_63 then None
      else Some(o + ToInt(h.value.size))
  }

  const FREE: seq<byte> := [102, 114, 101, 101]

  /** Behind the head a box of 8 bytes, and one whose end overflows to the start of the first. */
  const ENDLESS: seq<byte> :=
    [0, 0, 0, 32] + F.MOOV + ([0, 0, 0, 8] + FREE) + ([0, 0, 0, 1] + FREE + ([127, 255, 255, 255] + [255, 255, 255, 248]))

  /** The walk overflows, and goes round between two boxes that it does not touch. */
  lemma EndlessWalk(delta: nat)
    ensures |ENDLESS| == 32 && Patch(ENDLESS, 8, 32, delta) == Overflow
    ensures NextRound(ENDLESS, 8, 32) == Some(16) && NextRound(ENDLESS, 16, 32) == Some(8)
    ensures Kind(ENDLESS, 8) == Kind(ENDLESS, 16) == FREE && FREE !in CONTAINERS + {STCO, CO64}
  {
    var b := ENDLESS;
    assert |b| == 32 && b[8..12] == [0, 0, 0, 8] && b[12..16] == FREE && b[16..20] == [0, 0, 0, 1] && b[20..24] == FREE;
    assert b[24..32] == [127, 255, 255, 255] + [255, 255, 255, 248];
    EndlessCase(b, delta);
  }

  lemma EndlessCase(b: seq<byte>, delta: nat)
    requires |b| == 32 && b[8..12] == [0, 0, 0, 8] && b[12..16] == FREE && b[16..20] == [0, 0, 0, 1] && b[20..24] == FREE
    requires b[24..32] == [127, 255, 255, 255] + [255, 255, 255, 248]
    ensures Patch(b, 8, 32, delta) == Overflow
    ensures NextRound(b, 8, 32) == Some(16) && NextRound(b, 16, 32) == Some(8)
    ensures Kind(b, 8) == Kind(b, 16) == FREE && FREE !in CONTAINERS + {STCO, CO64}
  {
    FourBytes([0, 0, 0, 8]);
    FourBytes([0, 0, 0, 1]);
    FourBytes([127, 255, 255, 255]);
    FourBytes([255, 255, 255, 248]);
    EightBytes(b[24..32], [127, 255, 255, 255], [255, 255, 255, 248]);
    Pow256Small();
    hide FromBE;
    FreeIsFree();
    assert ReadHeader(b, 8) == Some(Header(8, 8)) && ReadHeader(b, 16) == Some(Header(16, TWO_63 - 8));
    OverflowGoesBack(16, TWO_63 - 8);
    hide ReadHeader, Patch;
    Step(b, 8, 32, delta);
    BoxStep(b, FREE, 16, 16, delta);
    Step(b, 16, 32, delta);
  }

  lemma FreeIsFree()
    ensures FREE !in CONTAINERS + {STCO, CO64}
  {
    assert forall c | c in CONTAINERS + {STCO, CO64} :: c[0] != 102;
  }
}
