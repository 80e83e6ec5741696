/**
 Whole movie files, written out from their boxes: what the relocation makes of them, box by box, and one
 ordinary file with its chunk offsets where encoders put them.
 */
module MovieFiles {
  import opened Bytes
  import opened ChunkOffsets
  import opened Relocation
  import opened RelocationTheorem
  import opened MovieTrees
  import F = FastStart

  // ----- the boxes of a file -----

  function AtomOf(x: Box, o: nat): Atom { Atom(o, |BoxBytes(x)|, HeadLength(x.long), TypeOf(x)) }

  function AtomsOf(l: seq<Box>, o: nat): (r: seq<Atom>)
    ensures |r| == |l|
  {
    if l == [] then [] else [AtomOf(l[0], o)] + AtomsOf(l[1..], o + |BoxBytes(l[0])|)
  }

  lemma SizeIs(x: Box)
    requires BoxFits(x)
    ensures |BoxBytes(x)| == HeadLength(x.long) + (|Lead(x)| + |Inner(x)|)
    ensures |BoxBytes(x)| < if x.long then TWO_63 else TWO_32
  {
    PartsOf(x);
    FitsHead(x);
    hide *;
  }

  lemma AtomIsRead(f: seq<byte>, o: nat, x: Box)
    requires BoxFits(x) && At(f, o, BoxBytes(x)) && |f| < TWO_63
    ensures AtomAt(f, o) == Some(AtomOf(x, o)) && Sized(f, o)
  {
    hide At, Head, Lead, Inner, TypeOf, Front, BoxBytes, BoxFits, Kind, Number;
    BoxHead(f, o, x);
    SizeIs(x);
    HeadIsRead(f, o, TypeOf(x), x.long, |Lead(x)| + |Inner(x)|);
  }

  /** A file written from boxes is divided into these boxes. */
  lemma {:induction false} FileDivides(f: seq<byte>, o: nat, l: seq<Box>)
    requires Fits(l) && At(f, o, ForestBytes(l)) && o + |ForestBytes(l)| == |f| < TWO_63
    ensures Atoms(f, o) == Some(AtomsOf(l, o))
    decreases |l|
  {
    hide At, AtomAt, BoxBytes, BoxFits, TypeOf;
    if l != [] {
      ForestHead(f, o, l);
      AtomIsRead(f, o, l[0]);
      BoxHead(f, o, l[0]);
      FrontLong(l[0]);
      FileDivides(f, o + |BoxBytes(l[0])|, l[1..]);
    }
  }

  lemma FrontLong(x: Box)
    ensures |BoxBytes(x)| >= 8
  {
    PartsOf(x);
    hide BoxBytes, Front, Inner, Lead;
  }

  lemma {:induction false} ForestAppend(a: seq<Box>, c: seq<Box>)
    ensures ForestBytes(a + c) == ForestBytes(a) + ForestBytes(c)
    decreases |a|
  {
    hide BoxBytes;
    if a == [] {
      assert a + c == c;
    } else {
      assert (a + c)[1..] == a[1..] + c;
      ForestAppend(a[1..], c);
      assert BoxBytes(a[0]) + (ForestBytes(a[1..]) + ForestBytes(c)) == (BoxBytes(a[0]) + ForestBytes(a[1..])) + ForestBytes(c);
    }
  }

  lemma {:induction false} AtomOfPlace(l: seq<Box>, o: nat, k: nat)
    requires k < |l|
    ensures AtomsOf(l, o)[k] == AtomOf(l[k], o + |ForestBytes(l[..k])|)
    decreases |l|
  {
    hide AtomOf, BoxBytes;
    if k == 0 {
      assert l[..0] == [];
    } else {
      AtomOfPlace(l[1..], o + |BoxBytes(l[0])|, k - 1);
      assert l[..k][1..] == l[1..][..k - 1];
    }
  }

  lemma {:induction false} FitsAt(l: seq<Box>, k: nat)
    requires Fits(l) && k < |l|
    ensures BoxFits(l[k])
  {
    if k > 0 { FitsAt(l[1..], k - 1); }
  }

  // ----- movies -----

  /** The only box of this type stands at `k`. */
  predicate OnlyBox(l: seq<Box>, kind: fourcc, k: nat) {
    k < |l| && TypeOf(l[k]) == kind && forall m | 0 <= m < |l| && m != k :: TypeOf(l[m]) != kind
  }

  function Mdat(): fourcc { Code('m', 'd', 'a', 't') }

  lemma OnlyAtom(l: seq<Box>, kind: fourcc, k: nat)
    ensures OnlyBox(l, kind, k) <==> OnlyAt(AtomsOf(l, 0), kind, k)
  {
    hide TypeOf, BoxBytes, AtomsOf;
    forall m: nat | m < |l| ensures AtomsOf(l, 0)[m].kind == TypeOf(l[m]) { AtomOfPlace(l, 0, m); }
  }

  lemma KindNames()
    ensures F.MDAT == Mdat() && F.MOOV == Name(Moov)
  {}

  /** One movie header behind one `mdat`, and nothing that does not fit its field. */
  ghost predicate Movie(top: seq<Box>, i: nat, j: nat) {
    && Fits(top) && |ForestBytes(top)| < TWO_63
    && OnlyBox(top, Mdat(), i) && OnlyBox(top, Name(Moov), j) && top[j].Node?
  }

  lemma MovieDivides(top: seq<Box>)
    requires Fits(top) && |ForestBytes(top)| < TWO_63
    ensures Atoms(ForestBytes(top), 0) == Some(AtomsOf(top, 0))
  {
    hide *;
    AtFront(ForestBytes(top), []);
    assert ForestBytes(top) + [] == ForestBytes(top);
    FileDivides(ForestBytes(top), 0, top);
  }

  lemma MovieLayout(top: seq<Box>, i: nat, j: nat)
    requires Movie(top, i, j) && i < j
    ensures Layout(ForestBytes(top), AtomsOf(top, 0), i, j)
  {
    hide Atoms, Chain, AtomsOf, ForestBytes, Fits, OnlyAt, TypeOf;
    MovieDivides(top);
    AtomsChain(ForestBytes(top), 0, AtomsOf(top, 0));
    KindNames();
    OnlyAtom(top, Mdat(), i);
    OnlyAtom(top, Name(Moov), j);
  }

  // ----- the movie header -----

  /** What becomes of the movie header: with a 64-bit length nothing, otherwise every entry is moved. */
  function NewHeader(moov: Box, delta: nat): Option<Box> { if moov.long then Some(moov) else MovedBox(moov, delta) }

  lemma HeaderParts(moov: Box)
    requires moov.Node? && moov.name == Moov && BoxFits(moov)
    ensures Lead(moov) == [] && Inner(moov) == ForestBytes(moov.children) && Fits(moov.children)
  {}

  lemma AtWhole(b: seq<byte>)
    ensures At(b, 0, b)
  {
    AtFront(b, []);
    assert b + [] == b;
  }

  /** The walk over the bytes of a movie header. */
  lemma HeaderPatched(moov: Box)
    requires moov.Node? && moov.name == Moov && BoxFits(moov) && |BoxBytes(moov)| <= MAX_MOOV_BYTES
    ensures var b := BoxBytes(moov);
            Patch(b, 8, |b|, |b|) == match NewHeader(moov, |b|) case None => Refused case Some(y) => Done(BoxBytes(y))
  {
    var b := BoxBytes(moov);
    hide At, Head, Lead, Inner, TypeOf, Front, BoxBytes, BoxFits, ForestBytes, Patch;
    AtWhole(b);
    BoxHead(b, 0, moov);
    HeaderParts(moov);
    if moov.long {
      LongNumber(moov);
      LongHeadNotPatched(b, |b|);
    } else {
      ForestPatched(b, 8, moov.children, |b|);
      if MovedBox(moov, |b|).Some? {
        var y := MovedBox(moov, |b|).value;
        MovedBoxShape(moov, |b|);
        NewInner(moov, |b|);
        BoxWritten(b, 0, moov, y, Put(b, 8, Inner(y)));
        PutWhole(b, BoxBytes(y));
      }
    }
  }

  lemma NewInner(moov: Box, delta: nat)
    requires moov.Node? && MovedBox(moov, delta).Some?
    ensures MovedForest(moov.children, delta).Some?
    ensures Inner(MovedBox(moov, delta).value) == ForestBytes(MovedForest(moov.children, delta).value)
  {}

  lemma PutWhole(b: seq<byte>, e: seq<byte>)
    requires |b| == |e|
    ensures Put(b, 0, e) == e
  {}

  lemma LongNumber(x: Box)
    requires BoxFits(x) && x.long
    ensures |BoxBytes(x)| >= 16 && Number(BoxBytes(x), 8, 8) == |BoxBytes(x)|
  {
    var b := BoxBytes(x);
    hide At, Head, Lead, Inner, TypeOf, Front, BoxBytes, BoxFits, Number, Kind;
    AtWhole(b);
    BoxHead(b, 0, x);
    SizeIs(x);
    HeadIsRead(b, 0, TypeOf(x), true, |Lead(x)| + |Inner(x)|);
    LongLength(b);
  }

  lemma LongLength(b: seq<byte>)
    requires |b| >= 16 && ReadHeader(b, 0).Some? && ReadHeader(b, 0).value.length == 16 && ReadHeader(b, 0).value.size >= 0
    ensures Number(b, 8, 8) == ReadHeader(b, 0).value.size
  {
    Pow256Small();
    hide Number;
  }

  // ----- the whole file -----

  /** The parts of the file around the movie header. */
  lemma FileParts(top: seq<Box>, i: nat, j: nat)
    requires i < j < |top|
    ensures var f, d, p, b := ForestBytes(top), |ForestBytes(top[..i])|, |ForestBytes(top[..j])|, BoxBytes(top[j]);
            && d <= p && p + |b| <= |f| && f[..d] == ForestBytes(top[..i]) && f[d..p] == ForestBytes(top[i..j])
            && f[p..p + |b|] == b && f[p + |b|..] == ForestBytes(top[j + 1..])
  {
    var x, y, z, w := top[..i], top[i..j], [top[j]], top[j + 1..];
    hide ForestBytes, BoxBytes;
    assert top == (x + y) + (z + w) && top[..j] == x + y;
    ForestAppend(x, y);
    ForestAppend(z, w);
    ForestAppend(x + y, z + w);
    OneBox(top[j]);
    FourSlices(ForestBytes(x), ForestBytes(y), BoxBytes(top[j]), ForestBytes(w));
  }

  lemma OneBox(x: Box)
    ensures ForestBytes([x]) == BoxBytes(x)
  {
    hide BoxBytes;
    assert [x][1..] == [];
    assert BoxBytes(x) + [] == BoxBytes(x);
  }

  lemma FourSlices(x: seq<byte>, y: seq<byte>, b: seq<byte>, w: seq<byte>)
    ensures var f, d, p := (x + y) + (b + w), |x|, |x| + |y|;
            f[..d] == x && f[d..p] == y && f[p..p + |b|] == b && f[p + |b|..] == w
  {}

  lemma FileRebuilt(top: seq<Box>, i: nat, j: nat, y: Box)
    requires i < j < |top| && |BoxBytes(y)| == |BoxBytes(top[j])|
    ensures |ForestBytes(top[..i])| <= |ForestBytes(top[..j])|
            && |ForestBytes(top[..j])| + |BoxBytes(y)| <= |ForestBytes(top)|
    ensures Reordered(ForestBytes(top), |ForestBytes(top[..i])|, |ForestBytes(top[..j])|, BoxBytes(y))
         == ForestBytes(top[..i] + ([y] + (top[i..j] + top[j + 1..])))
  {
    hide ForestBytes, BoxBytes;
    FileParts(top, i, j);
    OneBox(y);
    ForestAppend(top[i..j], top[j + 1..]);
    ForestAppend([y], top[i..j] + top[j + 1..]);
    ForestAppend(top[..i], [y] + (top[i..j] + top[j + 1..]));
    Grouped(ForestBytes(top[..i]), BoxBytes(y), ForestBytes(top[i..j]) + ForestBytes(top[j + 1..]));
  }

  lemma Grouped(x: seq<byte>, y: seq<byte>, z: seq<byte>)
    ensures x + y + z == x + (y + z)
  {}

  lemma NewHeaderShape(moov: Box, delta: nat)
    requires NewHeader(moov, delta).Some?
    ensures |BoxBytes(NewHeader(moov, delta).value)| == |BoxBytes(moov)|
  {
    hide Front, Inner, BoxBytes, MovedBox;
    PartsOf(moov);
    PartsOf(NewHeader(moov, delta).value);
    if !moov.long { MovedBoxShape(moov, delta); }
  }

  /**
   A movie with its header behind the media data becomes the movie with the header in front of it and, if the
   header has a 32-bit length, every chunk offset at every depth moved by the length of the header. It is rejected
   exactly when the header is over 64 MiB or an offset cannot be moved.
   */
  lemma MovieRelocated(top: seq<Box>, i: nat, j: nat)
    requires Movie(top, i, j) && i < j
    ensures var n := |BoxBytes(top[j])|;
            var moov := NewHeader(top[j], n);
            Optimized(ForestBytes(top)) ==
            if n > 64 * 1024 * 1024 || moov.None? then Rejected
            else Rewritten(ForestBytes(top[..i] + ([moov.value] + (top[i..j] + top[j + 1..]))))
  {
    var f, n := ForestBytes(top), |BoxBytes(top[j])|;
    hide *;
    HeaderIn(top, i, j);
    MovieOutcome(top, i, j);
    if n <= 64 * 1024 * 1024 {
      HeaderPatched(top[j]);
      if NewHeader(top[j], n).Some? {
        NewHeaderShape(top[j], n);
        FileRebuilt(top, i, j, NewHeader(top[j], n).value);
      }
    }
  }

  lemma HeaderIn(top: seq<Box>, i: nat, j: nat)
    requires Movie(top, i, j) && i < j
    ensures i < j < |top| && top[j].Node? && top[j].name == Moov && BoxFits(top[j])
    ensures MAX_MOOV_BYTES == 64 * 1024 * 1024
  {
    HeaderAt(top, j);
  }

  /** The outcome by the walk over the movie header. */
  lemma MovieOutcome(top: seq<Box>, i: nat, j: nat)
    requires Movie(top, i, j) && i < j < |top|
    ensures var f, d, p, b := ForestBytes(top), |ForestBytes(top[..i])|, |ForestBytes(top[..j])|, BoxBytes(top[j]);
            var r := Patch(b, 8, |b|, |b|);
            && d <= p && p + |b| <= |f|
            && (|b| > MAX_MOOV_BYTES ==> Optimized(f) == Rejected)
            && (|b| <= MAX_MOOV_BYTES && r == Refused ==> Optimized(f) == Rejected)
            && (|b| <= MAX_MOOV_BYTES && r.Done? ==> Optimized(f) == Rewritten(Reordered(f, d, p, r.bytes)))
  {
    var f, l := ForestBytes(top), AtomsOf(top, 0);
    hide *;
    MovieLayout(top, i, j);
    AtomPlaced(top, i);
    AtomPlaced(top, j);
    HeaderSlice(top, i, j);
    MovieSized(top, i, j);
    OutcomeOf(f, l, i, j, |ForestBytes(top[..i])|, |ForestBytes(top[..j])|, BoxBytes(top[j]));
  }

  lemma AtomPlaced(top: seq<Box>, k: nat)
    requires k < |top|
    ensures AtomsOf(top, 0)[k].offset == |ForestBytes(top[..k])| && AtomsOf(top, 0)[k].size == |BoxBytes(top[k])|
  {
    hide AtomsOf, ForestBytes, BoxBytes;
    AtomOfPlace(top, 0, k);
  }

  lemma HeaderSlice(top: seq<Box>, i: nat, j: nat)
    requires i < j < |top|
    ensures var f, p, b := ForestBytes(top), |ForestBytes(top[..j])|, BoxBytes(top[j]);
            p + |b| <= |f| && f[p..p + |b|] == b
  {
    hide *;
    FileParts(top, i, j);
  }

  lemma OutcomeOf(f: seq<byte>, l: seq<Atom>, i: nat, j: nat, d: nat, p: nat, b: seq<byte>)
    requires Layout(f, l, i, j) && i < |l| && j < |l| && l[i].offset == d && l[j].offset == p && l[j].size == |b|
    requires p + |b| <= |f| && f[p..p + |b|] == b && Sized(f, p)
    ensures d <= p
    ensures var r := Patch(b, 8, |b|, |b|);
            && (|b| > MAX_MOOV_BYTES ==> Optimized(f) == Rejected)
            && (|b| <= MAX_MOOV_BYTES && r == Refused ==> Optimized(f) == Rejected)
            && (|b| <= MAX_MOOV_BYTES && r.Done? ==> Optimized(f) == Rewritten(Reordered(f, d, p, r.bytes)))
  {
    hide Layout, Patch, Optimized, Sized, Reordered;
    OptimizedExactly(f, l, i, j);
  }

  lemma HeaderAt(top: seq<Box>, j: nat)
    requires Fits(top) && OnlyBox(top, Name(Moov), j) && top[j].Node?
    ensures top[j].name == Moov && BoxFits(top[j])
  {
    FitsAt(top, j);
    NameOfMoov(top[j].name);
    hide Fits, BoxFits, Name;
  }

  lemma NameOfMoov(c: Container)
    ensures Name(c) == Name(Moov) ==> c == Moov
  {
    assert Name(Moov) == [109, 111, 111, 118];
    assert c == Moov || Name(c)[0] != 109 || Name(c)[1] != 111;
  }

  lemma MovieSized(top: seq<Box>, i: nat, j: nat)
    requires Movie(top, i, j) && i < j
    ensures Sized(ForestBytes(top), |ForestBytes(top[..j])|)
  {
    var f, p, b := ForestBytes(top), |ForestBytes(top[..j])|, BoxBytes(top[j]);
    HeaderAt(top, j);
    hide ForestBytes, BoxBytes, Sized, BoxFits, AtomAt;
    FileParts(top, i, j);
    AtomIsRead(f, p, top[j]);
  }

  /** A movie whose header stands in front of the media data stays as it is. */
  lemma MovieKept(top: seq<Box>, i: nat, j: nat)
    requires Movie(top, i, j) && j < i
    ensures Optimized(ForestBytes(top)) == Unchanged
  {
    hide Atoms, AtomsOf, ForestBytes, BoxBytes, Single, OnlyAt, OnlyBox, Fits, Name, TypeOf;
    MovieDivides(top);
    KindNames();
    OnlyAtom(top, Mdat(), i);
    OnlyAtom(top, Name(Moov), j);
    AtIsSingle(AtomsOf(top, 0), F.MDAT, i);
    AtIsSingle(AtomsOf(top, 0), F.MOOV, j);
    AtomOfPlace(top, 0, i);
    AtomOfPlace(top, 0, j);
    InFront(top, j, i);
  }

  lemma InFront(top: seq<Box>, j: nat, i: nat)
    requires j < i < |top|
    ensures |ForestBytes(top[..j])| < |ForestBytes(top[..i])|
  {
    assert top[..i] == top[..j] + top[j..i];
    assert top[j..i][0] == top[j];
    ForestAppend(top[..j], top[j..i]);
    FrontLong(top[j]);
    ForestIs(top[j..i]);
    hide ForestBytes, BoxBytes;
  }

  /** Without exactly one `moov` and exactly one `mdat` a file is rejected. */
  lemma OthersRejected(top: seq<Box>)
    requires Fits(top) && |ForestBytes(top)| < TWO_63
    requires (forall k :: !OnlyBox(top, Mdat(), k)) || (forall k :: !OnlyBox(top, Name(Moov), k))
    ensures Optimized(ForestBytes(top)) == Rejected
  {
    hide Atoms, AtomsOf, ForestBytes, Single, OnlyAt, OnlyBox, Fits, Name;
    MovieDivides(top);
    KindNames();
    var l := AtomsOf(top, 0);
    if Single(l, F.MDAT).Some? && Single(l, F.MOOV).Some? {
      var i := SingleAt(l, F.MDAT);
      var j := SingleAt(l, F.MOOV);
      OnlyAtom(top, Mdat(), i);
      OnlyAtom(top, Name(Moov), j);
    }
  }

  // ----- an ordinary file -----

  /** The path to the one chunk offset of a track. */
  function Track(entry: nat): Box {
    Node(Moov, false, [], [Node(Trak, false, [], [Node(Mdia, false, [], [Node(Minf, false, [],
      [Node(Stbl, false, [], [Table(false, false, [0, 0, 0, 0], [entry])])])])])])
  }

  function Samples(): Box { Leaf(Mdat(), false, [1, 2, 3, 4]) }

  const MDAT_BYTES: seq<byte> := [0, 0, 0, 12, 109, 100, 97, 116, 1, 2, 3, 4]

  /** The same path as bytes: moov, trak, mdia, minf, stbl, stco with one entry. */
  function TrackBytes(entry: byte): seq<byte> {
    [0, 0, 0, 60, 109, 111, 111, 118] + ([0, 0, 0, 52, 116, 114, 97, 107] + ([0, 0, 0, 44, 109, 100, 105, 97]
    + ([0, 0, 0, 36, 109, 105, 110, 102] + ([0, 0, 0, 28, 115, 116, 98, 108]
    + ([0, 0, 0, 20, 115, 116, 99, 111] + [0, 0, 0, 0, 0, 0, 0, 1] + [0, 0, 0, entry])))))
  }

  lemma SmallBE(n: byte)
    ensures ToBE(n, 4) == [0, 0, 0, n]
  {
    assert ToBE(n as nat / 256, 3) == [0, 0, 0] by {
      assert ToBE(0, 1) == [0] && ToBE(0, 2) == [0, 0];
    }
  }

  /** A box around one other box. */
  lemma Wrapped(c: Container, child: Box, bytes: seq<byte>, n: byte)
    requires c != Meta && BoxBytes(child) == bytes && 8 + |bytes| == n && BoxFits(child)
    ensures var x := Node(c, false, [], [child]);
            BoxBytes(x) == [0, 0, 0, n] + Name(c) + bytes && |BoxBytes(x)| == n && BoxFits(x)
  {
    var x := Node(c, false, [], [child]);
    hide BoxBytes;
    OneBox(child);
    SmallBE(n);
    assert Inner(x) == bytes && Lead(x) == [];
    assert [child][1..] == [] && Fits([]) && Fits([child]);
    assert BoxFits(x);
    PartsOf(x);
    hide Inner, Lead, Front, BoxFits;
    assert Head(Name(c), false, |bytes|) == [0, 0, 0, n] + Name(c);
  }

  lemma StcoBytes(entry: byte)
    ensures var x := Table(false, false, [0, 0, 0, 0], [entry]);
            BoxFits(x) && BoxBytes(x) == [0, 0, 0, 20, 115, 116, 99, 111] + [0, 0, 0, 0, 0, 0, 0, 1] + [0, 0, 0, entry]
  {
    var x := Table(false, false, [0, 0, 0, 0], [entry]);
    hide ToBE;
    SmallBE(entry);
    SmallBE(1);
    SmallBE(20);
    assert EntryBytes([], false) == [] && [entry as nat][1..] == [];
    assert Inner(x) == [0, 0, 0, entry];
    assert Lead(x) == [0, 0, 0, 0, 0, 0, 0, 1];
    PartsOf(x);
  }

  lemma TrackIs(entry: byte)
    ensures BoxFits(Track(entry)) && BoxBytes(Track(entry)) == TrackBytes(entry)
  {
    var stco := Table(false, false, [0, 0, 0, 0], [entry]);
    var stbl := Node(Stbl, false, [], [stco]);
    var minf := Node(Minf, false, [], [stbl]);
    var mdia := Node(Mdia, false, [], [minf]);
    var trak := Node(Trak, false, [], [mdia]);
    hide *;
    StcoBytes(entry);
    Wrapped(Stbl, stco, BoxBytes(stco), 28);
    Wrapped(Minf, stbl, BoxBytes(stbl), 36);
    Wrapped(Mdia, minf, BoxBytes(minf), 44);
    Wrapped(Trak, mdia, BoxBytes(mdia), 52);
    Wrapped(Moov, trak, BoxBytes(trak), 60);
    TrackSpelled(entry);
    TrackNested(entry);
  }

  lemma TrackNested(entry: nat)
    ensures Track(entry) == Node(Moov, false, [], [Node(Trak, false, [], [Node(Mdia, false, [], [Node(Minf, false, [],
                              [Node(Stbl, false, [], [Table(false, false, [0, 0, 0, 0], [entry])])])])])])
  {}

  lemma TrackSpelled(entry: byte)
    ensures [0, 0, 0, 60] + Name(Moov) + ([0, 0, 0, 52] + Name(Trak) + ([0, 0, 0, 44] + Name(Mdia)
            + ([0, 0, 0, 36] + Name(Minf) + ([0, 0, 0, 28] + Name(Stbl)
            + ([0, 0, 0, 20, 115, 116, 99, 111] + [0, 0, 0, 0, 0, 0, 0, 1] + [0, 0, 0, entry])))))
         == TrackBytes(entry)
  {
    assert [0, 0, 0, 60] + Name(Moov) == [0, 0, 0, 60, 109, 111, 111, 118];
    assert [0, 0, 0, 52] + Name(Trak) == [0, 0, 0, 52, 116, 114, 97, 107];
    assert [0, 0, 0, 44] + Name(Mdia) == [0, 0, 0, 44, 109, 100, 105, 97];
    assert [0, 0, 0, 36] + Name(Minf) == [0, 0, 0, 36, 109, 105, 110, 102];
    assert [0, 0, 0, 28] + Name(Stbl) == [0, 0, 0, 28, 115, 116, 98, 108];
    hide Name;
  }

  lemma SamplesAre()
    ensures BoxFits(Samples()) && BoxBytes(Samples()) == MDAT_BYTES
  {
    var x := Samples();
    SmallBE(12);
    MdatIsLeaf();
    assert Inner(x) == [1, 2, 3, 4] && Lead(x) == [];
    PartsOf(x);
    hide ToBE;
  }

  lemma MdatIsLeaf()
    ensures (forall c :: Mdat() != Name(c)) && Mdat() != TableName(false) && Mdat() != TableName(true)
  {
    forall c ensures Mdat() != Name(c) {
      assert Mdat()[0] == 109 && Mdat()[1] == 100 && Mdat()[2] == 97;
      assert Name(c)[0] != 109 || Name(c)[1] != 100 || Name(c)[2] != 97;
    }
    assert Mdat()[0] != TableName(false)[0] && Mdat()[0] != TableName(true)[0];
  }

  /** An entry below moov, trak, mdia, minf and stbl leads to byte 8; behind the move it leads to 68, where that byte is. */
  lemma OrdinaryFile()
    ensures Optimized(MDAT_BYTES + TrackBytes(8)) == Rewritten(TrackBytes(68) + MDAT_BYTES)
    ensures (MDAT_BYTES + TrackBytes(8))[8] == (TrackBytes(68) + MDAT_BYTES)[68] == 1
  {
    hide *;
    SamplesAre();
    TrackIs(8);
    TrackIs(68);
    OrdinaryRelocated();
    TwoBytes(Samples(), Track(8));
    TwoBytes(Track(68), Samples());
    TheByte();
  }

  lemma TheByte()
    ensures |MDAT_BYTES| == 12 && |TrackBytes(68)| == |TrackBytes(8)| == 60
    ensures (MDAT_BYTES + TrackBytes(8))[8] == (TrackBytes(68) + MDAT_BYTES)[68] == 1
  {
    assert MDAT_BYTES[8] == 1;
  }

  lemma OrdinaryRelocated()
    ensures Optimized(ForestBytes([Samples(), Track(8)])) == Rewritten(ForestBytes([Track(68), Samples()]))
  {
    var top := [Samples(), Track(8)];
    hide *;
    TrackIs(8);
    TrackMoves();
    TheByte();
    OrdinaryMovie();
    MovieRelocated(top, 0, 1);
    NewHeaderShort(Track(8), 60);
    Swapped(Samples(), Track(8), Track(68));
  }

  lemma Swapped(x: Box, y: Box, z: Box)
    ensures var top := [x, y]; top[..0] + ([z] + (top[0..1] + top[2..])) == [z, x]
  {}

  lemma NewHeaderShort(moov: Box, delta: nat)
    requires !moov.long
    ensures NewHeader(moov, delta) == MovedBox(moov, delta)
  {}

  lemma TwoBytes(x: Box, y: Box)
    ensures ForestBytes([x, y]) == BoxBytes(x) + BoxBytes(y)
  {
    hide BoxBytes;
    assert [x, y][1..] == [y];
    OneBox(y);
  }

  lemma TrackMoves()
    ensures MovedBox(Track(8), 60) == Some(Track(68)) && !Track(8).long
  {
    var stco, stco' := Table(false, false, [0, 0, 0, 0], [8]), Table(false, false, [0, 0, 0, 0], [68]);
    var es: seq<nat> := [8];
    assert es[1..] == [] && MovedEntries([], false, 60) == Some([]) && MovieTrees.MovedEntry(false, 8, 60) == Some(68);
    assert [68 as nat] + [] == [68];
    assert MovedEntries(es, false, 60) == Some([68]);
    assert MovedBox(stco, 60) == Some(stco');
    hide MovedEntries;
    MovesInside(Stbl, stco, stco');
    var stbl, stbl' := Node(Stbl, false, [], [stco]), Node(Stbl, false, [], [stco']);
    MovesInside(Minf, stbl, stbl');
    var minf, minf' := Node(Minf, false, [], [stbl]), Node(Minf, false, [], [stbl']);
    MovesInside(Mdia, minf, minf');
    var mdia, mdia' := Node(Mdia, false, [], [minf]), Node(Mdia, false, [], [minf']);
    MovesInside(Trak, mdia, mdia');
    var trak, trak' := Node(Trak, false, [], [mdia]), Node(Trak, false, [], [mdia']);
    MovesInside(Moov, trak, trak');
  }

  lemma MovesInside(c: Container, x: Box, y: Box)
    requires MovedBox(x, 60) == Some(y)
    ensures MovedBox(Node(c, false, [], [x]), 60) == Some(Node(c, false, [], [y]))
  {
    assert MovedForest([], 60) == Some([]) && [x][1..] == [] && [y] + [] == [y];
    assert MovedForest([x], 60) == Some([y]);
  }

  lemma OrdinaryMovie()
    ensures Movie([Samples(), Track(8)], 0, 1)
  {
    var top := [Samples(), Track(8)];
    SamplesAre();
    TrackIs(8);
    MdatIsLeaf();
    TwoBytes(Samples(), Track(8));
    assert top[1..] == [Track(8)] && top[1..][1..] == [];
    assert TypeOf(top[0]) == Mdat() && TypeOf(top[1]) == Name(Moov);
    hide BoxBytes, BoxFits, Name, Mdat;
    assert Fits(top[1..]);
    assert |ForestBytes(top)| == |MDAT_BYTES| + |TrackBytes(8)|;
  }
}
