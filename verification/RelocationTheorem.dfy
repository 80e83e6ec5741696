/**
 What the relocation of a movie header preserves: the file is again a list of boxes, its chunk offsets
 lead to the same media bytes, and relocating twice changes nothing. And where it does not.
 */
module RelocationTheorem {
  import opened Bytes
  import opened ChunkOffsets
  import opened ChunkTables
  import opened Relocation
  import F = FastStart

  /** A file whose movie header stands behind its media data, and the header with moved offsets. */
  ghost predicate Relocatable(f: seq<byte>, l: seq<Atom>, i: nat, j: nat, m: seq<byte>) {
    && Layout(f, l, i, j) && l[j].size <= MAX_MOOV_BYTES && l[i].offset <= l[j].offset
    && l[j].offset + l[j].size <= |f| && |m| == l[j].size
    && Patch(f[l[j].offset..l[j].offset + l[j].size], 8, l[j].size, l[j].size) == Done(m)
  }

  /** The relocated file. */
  function Relocated(f: seq<byte>, l: seq<Atom>, i: nat, j: nat, m: seq<byte>): seq<byte>
    requires i < |l| && j < |l| && l[i].offset <= l[j].offset && l[j].offset + |m| <= |f|
  {
    Reordered(f, l[i].offset, l[j].offset, m)
  }

  // ----- where the parts go -----

  lemma PartsCopied(f: seq<byte>, d: nat, p: nat, m: seq<byte>)
    requires d <= p && p + |m| <= |f|
    ensures var g := Reordered(f, d, p, m);
            && Copied(f, 0, d, g, 0) && Copied(f, d, p, g, d + |m|) && Copied(f, p + |m|, |f|, g, p + |m|)
            && g[d..d + |m|] == m
  {
    var g := Reordered(f, d, p, m);
    var a, b, c := f[..d], f[d..p], f[p + |m|..];
    assert g == a + m + (b + c);
    assert g[0..d] == a && f[0..d] == a;
    assert g[d..d + |m|] == m;
    assert g[d + |m|..p + |m|] == b;
    assert g[p + |m|..|g|] == c && f[p + |m|..|f|] == c;
  }

  /** Patching from byte 8 on leaves the first 24 bytes: tables have two headers in front of them. */
  lemma MovieHeadKept(b: seq<byte>, m: seq<byte>, delta: nat)
    requires Patch(b, 8, |b|, delta) == Done(m)
    ensures |m| == |b| && Same(b, m, 0, 24)
  {
    OffsetsMovedExactly(b, 8, |b|, delta);
    SlotsLaid(b, 8, |b|);
    var l := Slots(b, 8, |b|).value;
    hide Patch, Slots, Laid, InSlot, AllMoved;
    forall x: nat | x < 24 && x < |b| ensures b[x] == m[x] {
      if InSlot(l, x) { InSlotRange(l, 24, |b|, x); }
    }
  }

  lemma PartNumber(f: seq<byte>, p: nat, s: nat, i: nat, width: nat)
    requires p + s <= |f| && i + width <= s
    ensures Number(f, p + i, width) == Number(f[p..p + s], i, width)
    ensures f[p + i..p + i + width] == f[p..p + s][i..i + width]
  {
    SliceOfSlice(f, p, p + s, i, i + width);
  }

  /** The header of a part that kept its first 24 bytes. */
  lemma HeaderCarried(f: seq<byte>, p: nat, g: seq<byte>, d: nat, s: nat)
    requires p + s <= |f| && d + s <= |g| && 8 <= s && Same(f[p..p + s], g[d..d + s], 0, 24)
    ensures Number(f, p, 4) == Number(g, d, 4) && Kind(f, p) == Kind(g, d)
    ensures s >= 16 ==> Number(f, p + 8, 8) == Number(g, d + 8, 8)
  {
    var b, c := f[p..p + s], g[d..d + s];
    PartNumber(f, p, s, 0, 4);
    PartNumber(g, d, s, 0, 4);
    NumberSame(b, c, 0, 4);
    PartNumber(f, p, s, 4, 4);
    PartNumber(g, d, s, 4, 4);
    assert b[4..8] == c[4..8];
    if s >= 16 {
      PartNumber(f, p, s, 8, 8);
      PartNumber(g, d, s, 8, 8);
      NumberSame(b, c, 8, 8);
    }
  }

  /** The relocated movie header is read as the same box, unless it claims the rest of the file. */
  lemma MovieHeader(f: seq<byte>, p: nat, g: seq<byte>, d: nat)
    requires AtomAt(f, p).Some? && d <= p && |g| == |f|
    requires var s := AtomAt(f, p).value.size; d + s <= |g| && Same(f[p..p + s], g[d..d + s], 0, 24)
    ensures Number(f, p, 4) != 0 ==> AtomAt(g, d) == Some(AtomAt(f, p).value.(offset := d))
    ensures Number(f, p, 4) == 0 ==> AtomAt(g, d) == Some(Atom(d, |g| - d, 8, AtomAt(f, p).value.kind))
  {
    var a := AtomAt(f, p).value;
    HeaderCarried(f, p, g, d, a.size);
    hide Number;
  }

  /** The box at `p` says how long it is. */
  predicate Sized(f: seq<byte>, p: nat) { p + 8 <= |f| && Number(f, p, 4) != 0 }

  lemma MovieMoved(f: seq<byte>, l: seq<Atom>, i: nat, j: nat, m: seq<byte>)
    requires Relocatable(f, l, i, j, m)
    ensures var g, d, a := Relocated(f, l, i, j, m), l[i].offset, l[j];
            && |g| == |f| && AtomAt(f, a.offset) == Some(a)
            && (Sized(f, a.offset) ==> AtomAt(g, d) == Some(a.(offset := d)))
            && (!Sized(f, a.offset) ==> AtomAt(g, d) == Some(Atom(d, |g| - d, 8, F.MOOV)))
  {
    hide AtomAt, Patch, Reordered, Chain;
    LayoutChains(f, l, i, j);
    var a := l[j];
    PartsCopied(f, l[i].offset, a.offset, m);
    MovieHeadKept(f[a.offset..a.offset + a.size], m, a.size);
    MovieHeader(f, a.offset, Relocated(f, l, i, j, m), l[i].offset);
  }

  // ----- the relocated file as a list of boxes -----

  /** The boxes in their new order and at their new places. */
  function NewList(l: seq<Atom>, i: nat, j: nat): (r: seq<Atom>)
    requires i < j < |l| && Behind(l[i..j], l[i].offset)
  {
    l[..i] + ([l[j].(offset := l[i].offset)] + (Shift(l[i..j], l[i].offset, l[i].offset + l[j].size) + l[j + 1..]))
  }

  lemma ShiftNowhere(l: seq<Atom>, o: nat)
    requires Behind(l, o)
    ensures Shift(l, o, o) == l
  {}

  lemma CopiedInPlace(f: seq<byte>, o: nat, l: seq<Atom>, e: nat, g: seq<byte>)
    requires Chain(f, o, l, e) && Copied(f, o, e, g, o) && |g| == |f|
    ensures Chain(g, o, l, e)
  {
    hide Chain, Copied, Shift;
    ChainForward(f, o, l, e);
    ChainCopied(f, o, l, e, g, o);
    ShiftNowhere(l, o);
  }

  lemma FrontStays(f: seq<byte>, l: seq<Atom>, i: nat, j: nat, m: seq<byte>)
    requires Relocatable(f, l, i, j, m)
    ensures Chain(Relocated(f, l, i, j, m), 0, l[..i], l[i].offset)
  {
    hide Chain, Copied, Patch, Reordered;
    LayoutChains(f, l, i, j);
    PartsCopied(f, l[i].offset, l[j].offset, m);
    CopiedInPlace(f, 0, l[..i], l[i].offset, Relocated(f, l, i, j, m));
  }

  lemma BackMoves(f: seq<byte>, l: seq<Atom>, i: nat, j: nat, m: seq<byte>)
    requires Relocatable(f, l, i, j, m)
    ensures var g, d, p, s := Relocated(f, l, i, j, m), l[i].offset, l[j].offset, l[j].size;
            && Behind(l[i..j], d)
            && Chain(g, d + s, Shift(l[i..j], d, d + s), p + s)
            && Chain(g, p + s, l[j + 1..], |g|)
  {
    hide Chain, Copied, Patch, Reordered, Shift;
    LayoutChains(f, l, i, j);
    var g, d, p, s := Relocated(f, l, i, j, m), l[i].offset, l[j].offset, l[j].size;
    PartsCopied(f, d, p, m);
    Positive(f, l, j);
    ChainCopied(f, d, l[i..j], p, g, d + s);
    CopiedInPlace(f, p + s, l[j + 1..], |f|, g);
  }

  lemma ChainOne(g: seq<byte>, o: nat, a: Atom)
    requires AtomAt(g, o) == Some(a)
    ensures Chain(g, o, [a], o + a.size)
  {
    assert [a][1..] == [];
  }

  /** A movie header with a size of its own: the relocated file is the same boxes in the new order. */
  lemma NewChain(f: seq<byte>, l: seq<Atom>, i: nat, j: nat, m: seq<byte>)
    requires Relocatable(f, l, i, j, m) && Sized(f, l[j].offset)
    ensures Behind(l[i..j], l[i].offset)
    ensures Chain(Relocated(f, l, i, j, m), 0, NewList(l, i, j), |f|)
  {
    hide Chain, AtomAt, Patch, Reordered, Shift, Sized;
    var g, d, s := Relocated(f, l, i, j, m), l[i].offset, l[j].size;
    FrontStays(f, l, i, j, m);
    MovieMoved(f, l, i, j, m);
    BackMoves(f, l, i, j, m);
    var a := l[j].(offset := d);
    ChainOne(g, d, a);
    ChainJoin(g, d + s, Shift(l[i..j], d, d + s), l[j].offset + s, l[j + 1..], |g|);
    ChainJoin(g, d, [a], d + s, Shift(l[i..j], d, d + s) + l[j + 1..], |g|);
    ChainJoin(g, 0, l[..i], d, [a] + (Shift(l[i..j], d, d + s) + l[j + 1..]), |g|);
  }

  lemma NewKinds(l: seq<Atom>, i: nat, j: nat)
    requires i < j < |l| && Behind(l[i..j], l[i].offset) && OnlyAt(l, F.MDAT, i) && OnlyAt(l, F.MOOV, j)
    ensures var r := NewList(l, i, j);
            && OnlyAt(r, F.MOOV, i) && OnlyAt(r, F.MDAT, i + 1)
            && r[i].offset == l[i].offset && r[i + 1].offset == l[i].offset + l[j].size
  {
    var r := NewList(l, i, j);
    assert |r| == |l|;
    forall k | 0 <= k < |l| ensures r[k].kind == if k < i then l[k].kind else if k == i then l[j].kind
                                    else if k <= j then l[k - 1].kind else l[k].kind {
      if k < i { assert r[k] == l[..i][k]; }
      else if k == i { }
      else if k <= j { assert r[k] == Shift(l[i..j], l[i].offset, l[i].offset + l[j].size)[k - i - 1]; }
      else { assert r[k] == l[j + 1..][k - j - 1]; }
    }
    assert F.MOOV[1] != F.MDAT[1];
    assert r[i + 1] == Shift(l[i..j], l[i].offset, l[i].offset + l[j].size)[0];
    hide NewList, Shift;
  }

  lemma AtomsAre(g: seq<byte>, r: seq<Atom>)
    requires Chain(g, 0, r, |g|)
    ensures Atoms(g, 0) == Some(r)
  {
    AtomsChain(g, 0, r);
  }

  /** The relocated file is a fast start, and a second relocation leaves it as it is. */
  lemma RelocatedIsFast(f: seq<byte>, l: seq<Atom>, i: nat, j: nat, m: seq<byte>)
    requires Relocatable(f, l, i, j, m) && Sized(f, l[j].offset)
    ensures NowFast(Relocated(f, l, i, j, m)) && Optimized(Relocated(f, l, i, j, m)) == Unchanged
  {
    var g := Relocated(f, l, i, j, m);
    Positive(f, l, j);
    NewChain(f, l, i, j, m);
    NewKinds(l, i, j);
    hide Chain, AtomAt, Patch, Reordered, Sized, NewList, Atoms, Single, IndexOfFirst, OnlyAt;
    var r := NewList(l, i, j);
    AtomsAre(g, r);
    AtIsSingle(r, F.MOOV, i);
    AtIsSingle(r, F.MDAT, i + 1);
  }

  /** A movie header that claims the rest of the file swallows the media data when it is moved. */
  lemma UnsizedHeaderDamages(f: seq<byte>, l: seq<Atom>, i: nat, j: nat, m: seq<byte>)
    requires Relocatable(f, l, i, j, m) && !Sized(f, l[j].offset)
    ensures !NowFast(Relocated(f, l, i, j, m))
  {
    hide Chain, AtomAt, Patch, Reordered, Sized, Atoms, OnlyAt, FastStarted, NowFast;
    var g, d := Relocated(f, l, i, j, m), l[i].offset;
    var a := Atom(d, |g| - d, 8, F.MOOV);
    MovieMoved(f, l, i, j, m);
    FrontStays(f, l, i, j, m);
    ChainOne(g, d, a);
    ChainJoin(g, 0, l[..i], d, [a], |g|);
    AtomsAre(g, l[..i] + [a]);
    NoMediaData(l, i, a);
    NotFast(g, l[..i] + [a]);
  }

  lemma NoMediaData(l: seq<Atom>, i: nat, a: Atom)
    requires OnlyAt(l, F.MDAT, i) && a.kind == F.MOOV
    ensures IndexOfFirst(l[..i] + [a], F.MDAT) == -1
  {
    var r := l[..i] + [a];
    assert F.MOOV[1] != F.MDAT[1];
    forall k | 0 <= k < |r| ensures r[k].kind != F.MDAT { if k < i { assert r[k] == l[k]; } }
    NoIndex(r, F.MDAT);
  }

  lemma NotFast(g: seq<byte>, r: seq<Atom>)
    requires Atoms(g, 0) == Some(r) && IndexOfFirst(r, F.MDAT) == -1
    ensures !NowFast(g)
  {
    hide Atoms, IndexOfFirst;
  }

  // ----- the outcome -----

  /**
   A file with its movie header behind the media data is rewritten exactly when the header is not
   too big, its chunk offsets can be moved and it says how long it is; without a length of its own it is
   damaged; in all other cases, overflow apart, the file stays as it is.
   */
  lemma OptimizedExactly(f: seq<byte>, l: seq<Atom>, i: nat, j: nat)
    requires Layout(f, l, i, j)
    ensures l[i].offset <= l[j].offset && l[j].offset + l[j].size <= |f|
    ensures var r := Patch(f[l[j].offset..l[j].offset + l[j].size], 8, l[j].size, l[j].size);
            var ok := l[j].size <= MAX_MOOV_BYTES && r.Done?;
            && (Optimized(f).Rewritten? <==> ok && Sized(f, l[j].offset))
            && (Optimized(f).Damaged? <==> ok && !Sized(f, l[j].offset))
            && (Optimized(f).Unmodelled? <==> l[j].size <= MAX_MOOV_BYTES && r == Overflow)
            && Optimized(f) != Unchanged
            && (Optimized(f).Rewritten? ==> Optimized(f).file == Relocated(f, l, i, j, r.bytes))
  {
    hide Chain, AtomAt, Patch, Reordered, Sized, NowFast, Optimized, Layout, OptimizedBack;
    OptimizedIsBack(f, l, i, j);
    BackFails(f, l[i], l[j]);
    var r := Patch(f[l[j].offset..l[j].offset + l[j].size], 8, l[j].size, l[j].size);
    if l[j].size <= MAX_MOOV_BYTES && r.Done? {
      BackDone(f, l[i], l[j], r.bytes);
      assert Relocatable(f, l, i, j, r.bytes);
      if Sized(f, l[j].offset) { RelocatedIsFast(f, l, i, j, r.bytes); } else { UnsizedHeaderDamages(f, l, i, j, r.bytes); }
    }
  }

  lemma BackDone(f: seq<byte>, mdat: Atom, moov: Atom, m: seq<byte>)
    requires mdat.offset <= moov.offset && moov.offset + moov.size <= |f| && moov.size <= MAX_MOOV_BYTES
    requires Patch(f[moov.offset..moov.offset + moov.size], 8, moov.size, moov.size) == Done(m)
    ensures var g := Reordered(f, mdat.offset, moov.offset, m);
            OptimizedBack(f, mdat, moov) == if NowFast(g) then Rewritten(g) else Damaged(g)
  {
    hide Patch, NowFast, Reordered;
  }

  lemma OptimizedIsBack(f: seq<byte>, l: seq<Atom>, i: nat, j: nat)
    requires Layout(f, l, i, j)
    ensures i < j < |l| && l[i].offset <= l[j].offset && l[j].offset + l[j].size <= |f|
    ensures Optimized(f) == OptimizedBack(f, l[i], l[j])
  {
    hide Chain, AtomAt, Single, OptimizedBack, Atoms, OnlyAt, IndexOfFirst;
    LayoutChains(f, l, i, j);
    AtomsAre(f, l);
    AtIsSingle(l, F.MDAT, i);
    AtIsSingle(l, F.MOOV, j);
  }

  /** Only files of that layout are rewritten. */
  lemma RewrittenHasLayout(f: seq<byte>) returns (l: seq<Atom>, i: nat, j: nat)
    requires Optimized(f).Rewritten? || Optimized(f).Damaged?
    ensures Layout(f, l, i, j)
  {
    hide Single, Layout, OptimizedBack;
    l := Atoms(f, 0).value;
    i, j := InBack(f, l);
  }

  /** A rewritten file has the old length, and rewriting it again leaves it as it is. */
  lemma OptimizingTwice(f: seq<byte>)
    requires Optimized(f).Rewritten?
    ensures |Optimized(f).file| == |f| && Optimized(Optimized(f).file) == Unchanged
  {
    var l, i, j := RewrittenHasLayout(f);
    hide Chain, AtomAt, Patch, Sized, NowFast, Optimized, Layout, Reordered;
    OptimizedExactly(f, l, i, j);
    var m := Patch(f[l[j].offset..l[j].offset + l[j].size], 8, l[j].size, l[j].size).bytes;
    RelocatedIsFast(f, l, i, j, m);
  }

  // ----- the chunks -----

  lemma MediaMoves(f: seq<byte>, d: nat, p: nat, m: seq<byte>, v: nat, n: nat)
    requires d <= p && p + |m| <= |f| && d <= v && v + n <= p
    ensures var g := Reordered(f, d, p, m);
            v + |m| + n <= |g| && g[v + |m|..v + |m| + n] == f[v..v + n]
  {
    hide Reordered;
    PartsCopied(f, d, p, m);
    CopiedNumber(f, d, p, Reordered(f, d, p, m), d + |m|, v, n);
  }

  /** An entry that leads into the file is moved by exactly the distance. */
  lemma EntryInFile(b: seq<byte>, s: Slot, delta: nat, v: nat)
    requires SlotValue(b, s) == Some(v) && SlotMoved(b, s, delta).Some? && v + delta < TWO_63
    ensures SlotMoved(b, s, delta) == Some(v + delta)
  {
    hide Number;
  }

  /**
   The meaning of the offsets is kept: for a movie header with a short head, the rewritten file has the
   same tables, and where an entry led to `n` bytes between the start of the media data and the movie
   header, the same entry now leads to the same bytes.
   */
  lemma ChunksFollow(f: seq<byte>, l: seq<Atom>, i: nat, j: nat, m: seq<byte>, k: nat, v: nat, n: nat)
    requires Relocatable(f, l, i, j, m) && l[j].headerSize == 8 && |f| < TWO_63
    requires var b := f[l[j].offset..l[j].offset + l[j].size];
             Slots(b, 8, |b|).Some? && k < |Slots(b, 8, |b|).value| && SlotValue(b, Slots(b, 8, |b|).value[k]) == Some(v)
    requires l[i].offset <= v && v + n <= l[j].offset
    ensures var g, d, s := Relocated(f, l, i, j, m), l[i].offset, l[j].size;
            var b, c := f[l[j].offset..l[j].offset + s], g[d..d + s];
            && Slots(c, 8, |c|) == Slots(b, 8, |b|)
            && SlotValue(c, Slots(c, 8, |c|).value[k]) == Some(v + s)
            && v + s + n <= |g| && g[v + s..v + s + n] == f[v..v + n]
  {
    hide Chain, AtomAt, Patch, Reordered, Slots, SlotValue;
    PartsCopied(f, l[i].offset, l[j].offset, m);
    ChunkFollows(f, l[i].offset, l[j].offset, f[l[j].offset..l[j].offset + l[j].size], m, k, v, n);
  }

  lemma ChunkFollows(f: seq<byte>, d: nat, p: nat, b: seq<byte>, m: seq<byte>, k: nat, v: nat, n: nat)
    requires d <= p && p + |m| <= |f| < TWO_63 && b == f[p..p + |m|] && Patch(b, 8, |m|, |m|) == Done(m)
    requires Slots(b, 8, |b|).Some? && k < |Slots(b, 8, |b|).value| && SlotValue(b, Slots(b, 8, |b|).value[k]) == Some(v)
    requires d <= v && v + n <= p
    ensures Slots(m, 8, |m|) == Slots(b, 8, |b|) && SlotValue(m, Slots(b, 8, |b|).value[k]) == Some(v + |m|)
    ensures var g := Reordered(f, d, p, m);
            v + |m| + n <= |g| && g[v + |m|..v + |m| + n] == f[v..v + n]
  {
    hide Patch, Reordered, Slots, SlotValue, SlotMoved, SameBeside;
    OffsetsMovedExactly(b, 8, |m|, |m|);
    var slot := Slots(b, 8, |b|).value[k];
    assert SlotValue(m, slot) == SlotMoved(b, slot, |m|);
    MovedEntry(b, m, slot, v);
    MediaMoves(f, d, p, m, v, n);
  }

  lemma MovedEntry(b: seq<byte>, m: seq<byte>, slot: Slot, v: nat)
    requires SlotValue(b, slot) == Some(v) && SlotValue(m, slot) == SlotMoved(b, slot, |m|) && |m| == |b|
    requires v + |m| < TWO_63
    ensures SlotValue(m, slot) == Some(v + |m|)
  {
    assert SlotValue(m, slot).Some?;
    hide SlotValue, SlotMoved;
    EntryInFile(b, slot, |m|, v);
  }

  /** Where the byte at `v` stands in the relocated file: `s` bytes of movie header went from `p` to `d`. */
  function NewPlace(d: nat, p: nat, s: nat, v: nat): nat
    requires d <= p
  {
    if v < d || p + s <= v then v else if v < p then v + s else d + (v - p)
  }

  /** Every byte outside the movie header went there. */
  lemma BytesGoToNewPlace(f: seq<byte>, d: nat, p: nat, m: seq<byte>, v: nat)
    requires d <= p && p + |m| <= |f| && v < |f| && !(p <= v < p + |m|)
    ensures var g := Reordered(f, d, p, m);
            NewPlace(d, p, |m|, v) < |g| && g[NewPlace(d, p, |m|, v)] == f[v]
  {
    hide Reordered;
    var g := Reordered(f, d, p, m);
    PartsCopied(f, d, p, m);
    if v < d {
      CopiedNumber(f, 0, d, g, 0, v, 1);
      assert g[v..v + 1][0] == f[v..v + 1][0];
    } else if v < p {
      CopiedNumber(f, d, p, g, d + |m|, v, 1);
      assert g[v + |m|..v + |m| + 1][0] == f[v..v + 1][0];
    } else {
      CopiedNumber(f, p + |m|, |f|, g, p + |m|, v, 1);
      assert g[v..v + 1][0] == f[v..v + 1][0];
    }
  }

  /**
   With a short head, an entry that leads to byte `v` leads to where that byte went if and only if `v` lies between
   the start of the media data and the movie header.
   */
  lemma EntryFollowsExactly(f: seq<byte>, l: seq<Atom>, i: nat, j: nat, m: seq<byte>, k: nat, v: nat)
    requires Relocatable(f, l, i, j, m) && l[j].headerSize == 8 && v < |f| < TWO_63
    requires var b := f[l[j].offset..l[j].offset + l[j].size];
             Slots(b, 8, |b|).Some? && k < |Slots(b, 8, |b|).value| && SlotValue(b, Slots(b, 8, |b|).value[k]) == Some(v)
    ensures var b := f[l[j].offset..l[j].offset + l[j].size];
            SlotValue(m, Slots(b, 8, |b|).value[k]) == Some(NewPlace(l[i].offset, l[j].offset, l[j].size, v))
            <==> l[i].offset <= v < l[j].offset
  {
    Positive(f, l, j);
    hide Chain, AtomAt, Patch, Slots, SlotValue;
    EntryFollows(f[l[j].offset..l[j].offset + l[j].size], m, l[i].offset, l[j].offset, k, v);
  }

  lemma EntryFollows(b: seq<byte>, m: seq<byte>, d: nat, p: nat, k: nat, v: nat)
    requires |m| == |b| > 0 && Patch(b, 8, |m|, |m|) == Done(m) && d <= p && v < TWO_63
    requires Slots(b, 8, |b|).Some? && k < |Slots(b, 8, |b|).value| && SlotValue(b, Slots(b, 8, |b|).value[k]) == Some(v)
    ensures SlotValue(m, Slots(b, 8, |b|).value[k]) == Some(NewPlace(d, p, |m|, v)) <==> d <= v < p
  {
    hide Patch, Slots, SlotValue, SlotMoved, SameBeside;
    OffsetsMovedExactly(b, 8, |m|, |m|);
    var slot := Slots(b, 8, |b|).value[k];
    assert SlotValue(m, slot) == SlotMoved(b, slot, |m|);
    MovedAlways(b, m, slot, v);
  }

  lemma MovedAlways(b: seq<byte>, m: seq<byte>, slot: Slot, v: nat)
    requires SlotValue(b, slot) == Some(v) && SlotValue(m, slot) == SlotMoved(b, slot, |m|) && |m| == |b|
    requires v < TWO_63
    ensures SlotValue(m, slot) == Some(v + |m|)
  {
    assert SlotValue(m, slot).Some?;
    hide Number;
  }

  /** A 64-bit length below 2^32 starts with four zero bytes. */
  lemma HighWordZero(b: seq<byte>)
    requires |b| >= 16 && Number(b, 8, 8) < TWO_32
    ensures Number(b, 8, 4) == 0
  {
    assert b[8..16] == b[8..12] + b[12..16];
    SplitBE(b[8..12], b[12..16]);
    Pow256Small();
  }

  /** A movie header with a 64-bit length: the walk starts inside its head, reads a zero and stops. */
  lemma LongHeadNotPatched(b: seq<byte>, delta: nat)
    requires 16 <= |b| <= MAX_MOOV_BYTES && Number(b, 8, 8) == |b|
    ensures Patch(b, 8, |b|, delta) == Done(b)
  {
    HighWordZero(b);
    Step(b, 8, |b|, delta);
    hide Patch, PatchBox, Number;
  }

  /** No entry holds its own moved value: the distance is not zero. */
  lemma NotMovedInPlace(b: seq<byte>, s: Slot, delta: nat)
    requires 0 < delta < TWO_63 && SlotValue(b, s).Some? && s.width in {4, 8}
    ensures SlotValue(b, s) != SlotMoved(b, s, delta)
  {
    Pow256Small();
    hide Number;
  }

  lemma LongHead(f: seq<byte>, a: Atom)
    requires AtomAt(f, a.offset) == Some(a) && a.headerSize == 16
    ensures 16 <= a.size && a.offset + a.size <= |f|
    ensures var b := f[a.offset..a.offset + a.size]; Number(b, 8, 8) == |b|
  {
    PartNumber(f, a.offset, a.size, 8, 8);
    hide Number;
  }

  /**
   The tables a reader finds behind the head of the movie header are moved with the media data if and
   only if the head is a short one or there is no entry to move.
   */
  lemma OffsetsFollowExactly(f: seq<byte>, l: seq<Atom>, i: nat, j: nat, m: seq<byte>)
    requires Relocatable(f, l, i, j, m)
    requires var b := f[l[j].offset..l[j].offset + l[j].size]; Slots(b, l[j].headerSize, |b|).Some?
    ensures var b := f[l[j].offset..l[j].offset + l[j].size];
            var tables := Slots(b, l[j].headerSize, |b|).value;
            AllMoved(b, m, tables, l[j].size) <==> l[j].headerSize == 8 || tables == []
  {
    hide Chain, Patch, Slots, SlotValue, SlotMoved, OnlyAt;
    LayoutChains(f, l, i, j);
    var a := l[j];
    var b := f[a.offset..a.offset + a.size];
    var tables := Slots(b, a.headerSize, |b|).value;
    HeadLengths(f, a.offset);
    if a.headerSize == 8 {
      OffsetsMovedExactly(b, 8, |b|, a.size);
    } else {
      LongHead(f, a);
      LongHeadNotPatched(b, a.size);
      assert m == b;
      if tables != [] {
        FirstEntry(b, a.headerSize, tables);
        NotMovedInPlace(b, tables[0], a.size);
        assert SlotValue(m, tables[0]) != SlotMoved(b, tables[0], a.size);
      }
    }
  }

  lemma HeadLengths(f: seq<byte>, o: nat)
    requires AtomAt(f, o).Some?
    ensures AtomAt(f, o).value.headerSize in {8, 16}
  {}

  lemma FirstEntry(b: seq<byte>, o: nat, l: seq<Slot>)
    requires Slots(b, o, |b|) == Some(l) && l != []
    ensures SlotValue(b, l[0]).Some? && l[0].width in {4, 8}
  {
    hide Slots;
    SlotsLaid(b, o, |b|);
    LaidAt(l, o + 16, |b|, 0);
  }
}
