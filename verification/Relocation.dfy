/**
 Moving the movie header of an MP4 file in front of its media data: the boxes are copied in a new
 order and the chunk offsets are moved by the distance the media data travels.
 */
module Relocation {
  import opened Bytes
  import opened ChunkOffsets
  import F = FastStart

  const MAX_MOOV_BYTES: nat := 64 * 1024 * 1024

  datatype Atom = Atom(offset: nat, size: nat, headerSize: nat, kind: seq<byte>)

  // ----- top-level boxes -----

  /** The box at `o`; `None` where the code throws. */
  function AtomAt(f: seq<byte>, o: nat): (r: Option<Atom>)
    ensures r.Some? ==> r.value.offset == o && 8 <= r.value.headerSize <= r.value.size <= |f| - o
  {
    if o + 8 > |f| then None
    else
      var size32 := Number(f, o, 4);
      if size32 == 1 && o + 16 > |f| then None
      else
        Pow256Small();
        var size := if size32 == 0 then |f| - o else if size32 == 1 then Signed(Number(f, o + 8, 8)) else size32;
        var header := if size32 == 1 then 16 else 8;
        if size < header || o + size > |f| then None else Some(Atom(o, size, header, Kind(f, o)))
  }

  function Atoms(f: seq<byte>, o: nat): Option<seq<Atom>>
    requires o <= |f|
    decreases |f| - o
  {
    if o == |f| then Some([])
    else
      var a := AtomAt(f, o);
      if a.None? then None
      else
        var rest := Atoms(f, o + a.value.size);
        if rest.None? then None else Some([a.value] + rest.value)
  }

  /** `topLevelAtoms`. */
  method TopLevelAtoms(f: seq<byte>) returns (r: Option<seq<Atom>>)
    ensures r == Atoms(f, 0)
  {
    hide AtomAt;
    var atoms: seq<Atom>, offset := [], 0;
    assert forall rest: seq<Atom> :: [] + rest == rest;
    while offset < |f|
      invariant offset <= |f|
      invariant Atoms(f, 0) == match Atoms(f, offset) case None => None case Some(rest) => Some(atoms + rest)
      decreases |f| - offset
    {
      var a := AtomAt(f, offset);
      if a.None? { return None; }
      ghost var rest := Atoms(f, offset + a.value.size);
      if rest.Some? { assert atoms + ([a.value] + rest.value) == (atoms + [a.value]) + rest.value; }
      atoms := atoms + [a.value];
      offset := offset + a.value.size;
    }
    assert atoms + [] == atoms;
    return Some(atoms);
  }

  /** The boxes of `l` stand one behind the other from `o` to `e`. */
  predicate Chain(f: seq<byte>, o: nat, l: seq<Atom>, e: nat)
    decreases |l|
  {
    if l == [] then o == e else AtomAt(f, o) == Some(l[0]) && Chain(f, o + l[0].size, l[1..], e)
  }

  lemma {:induction false} AtomsChain(f: seq<byte>, o: nat, l: seq<Atom>)
    requires o <= |f|
    ensures Atoms(f, o) == Some(l) <==> Chain(f, o, l, |f|)
    decreases |l|
  {
    hide AtomAt;
    if l != [] && o < |f| && AtomAt(f, o) == Some(l[0]) {
      AtomsChain(f, o + l[0].size, l[1..]);
      assert l == [l[0]] + l[1..];
    }
  }

  lemma {:induction false} ChainForward(f: seq<byte>, o: nat, l: seq<Atom>, e: nat)
    requires Chain(f, o, l, e)
    ensures o <= e && (l != [] ==> o + 8 <= e <= |f|)
    decreases |l|
  {
    hide AtomAt;
    if l != [] { ChainForward(f, o + l[0].size, l[1..], e); }
  }

  lemma {:induction false} ChainSplit(f: seq<byte>, o: nat, l: seq<Atom>, e: nat, i: nat)
    requires Chain(f, o, l, e) && i < |l|
    ensures Chain(f, o, l[..i], l[i].offset) && AtomAt(f, l[i].offset) == Some(l[i])
    ensures Chain(f, l[i].offset + l[i].size, l[i + 1..], e)
    decreases |l|
  {
    hide AtomAt;
    if i > 0 {
      ChainSplit(f, o + l[0].size, l[1..], e, i - 1);
      assert l[..i][1..] == l[1..][..i - 1] && l[1..][i..] == l[i + 1..];
    }
  }

  lemma {:induction false} ChainJoin(f: seq<byte>, o: nat, a: seq<Atom>, m: nat, b: seq<Atom>, e: nat)
    requires Chain(f, o, a, m) && Chain(f, m, b, e)
    ensures Chain(f, o, a + b, e)
    decreases |a|
  {
    hide AtomAt;
    if a == [] {
      assert a + b == b;
    } else {
      ChainJoin(f, o + a[0].size, a[1..], m, b, e);
      assert (a + b)[1..] == a[1..] + b;
    }
  }

  // ----- boxes at another place -----

  /** The bytes of `f` from `o` to `e` stand in `g` at `o'`. */
  predicate Copied(f: seq<byte>, o: nat, e: nat, g: seq<byte>, o': nat) {
    o <= e <= |f| && o' + (e - o) <= |g| && f[o..e] == g[o'..o' + (e - o)]
  }

  lemma CopiedNumber(f: seq<byte>, o: nat, e: nat, g: seq<byte>, o': nat, p: nat, width: nat)
    requires Copied(f, o, e, g, o') && o <= p && p + width <= e
    ensures Number(f, p, width) == Number(g, p - o + o', width)
    ensures f[p..p + width] == g[p - o + o'..p - o + o' + width]
  {
    SliceOfSlice(f, o, e, p - o, p - o + width);
    SliceOfSlice(g, o', o' + (e - o), p - o, p - o + width);
  }

  lemma CopiedRest(f: seq<byte>, o: nat, e: nat, g: seq<byte>, o': nat, p: nat)
    requires Copied(f, o, e, g, o') && o <= p <= e
    ensures Copied(f, p, e, g, p - o + o')
  {
    CopiedNumber(f, o, e, g, o', p, e - p);
  }

  /** A copied box is read as the same box, unless it extends to the end of another file. */
  lemma AtomCopied(f: seq<byte>, o: nat, e: nat, g: seq<byte>, o': nat)
    requires AtomAt(f, o).Some? && e == o + AtomAt(f, o).value.size && Copied(f, o, e, g, o')
    requires Number(f, o, 4) != 0 || |f| - o == |g| - o'
    ensures AtomAt(g, o') == Some(AtomAt(f, o).value.(offset := o'))
  {
    var a := AtomAt(f, o).value;
    CopiedNumber(f, o, e, g, o', o, 4);
    CopiedNumber(f, o, e, g, o', o + 4, 4);
    assert Kind(f, o) == Kind(g, o');
    if a.headerSize == 16 { CopiedNumber(f, o, e, g, o', o + 8, 8); }
  }

  predicate Behind(l: seq<Atom>, o: nat) { forall i | 0 <= i < |l| :: l[i].offset >= o }

  function Shift(l: seq<Atom>, o: nat, o': nat): (r: seq<Atom>)
    requires Behind(l, o)
    ensures |r| == |l|
  {
    seq(|l|, i requires 0 <= i < |l| => l[i].(offset := l[i].offset - o + o'))
  }

  lemma {:induction false} ChainOffsets(f: seq<byte>, o: nat, l: seq<Atom>, e: nat)
    requires Chain(f, o, l, e)
    ensures forall i | 0 <= i < |l| :: o <= l[i].offset && l[i].offset + l[i].size <= e
    ensures forall i, j | 0 <= i < j < |l| :: l[i].offset + l[i].size <= l[j].offset
    decreases |l|
  {
    hide AtomAt;
    if l != [] {
      ChainForward(f, o + l[0].size, l[1..], e);
      ChainOffsets(f, o + l[0].size, l[1..], e);
      forall i | 0 <= i < |l| ensures o <= l[i].offset && l[i].offset + l[i].size <= e {
        if i > 0 { assert l[i] == l[1..][i - 1]; }
      }
      forall i, j | 0 <= i < j < |l| ensures l[i].offset + l[i].size <= l[j].offset {
        assert l[j] == l[1..][j - 1];
        if i > 0 { assert l[i] == l[1..][i - 1]; }
      }
    }
  }

  /** A chain copied to another place, when it does not touch the end of the file or keeps its distance to it. */
  lemma {:induction false} ChainCopied(f: seq<byte>, o: nat, l: seq<Atom>, e: nat, g: seq<byte>, o': nat)
    requires Chain(f, o, l, e) && Copied(f, o, e, g, o')
    requires e < |f| || |f| - o == |g| - o'
    ensures Behind(l, o)
    ensures Chain(g, o', Shift(l, o, o'), o' + (e - o))
    decreases |l|
  {
    hide *;
    if l == [] {
      EmptyCopied(f, o, e, g, o');
    } else {
      ChainHead(f, o, l, e);
      var m := o + l[0].size;
      ChainForward(f, m, l[1..], e);
      CopiedPart(f, o, e, g, o', m);
      ToEnd(f, o);
      AtomCopied(f, o, m, g, o');
      CopiedRest(f, o, e, g, o', m);
      ChainCopied(f, m, l[1..], e, g, m - o + o');
      ShiftCons(l, o, m, g, o', o' + (e - o));
    }
  }

  lemma EmptyCopied(f: seq<byte>, o: nat, e: nat, g: seq<byte>, o': nat)
    requires Chain(f, o, [], e)
    ensures Behind([], o) && o == e && Chain(g, o', Shift([], o, o'), o' + (e - o))
  {
    assert Shift([], o, o') == [];
  }

  lemma ShiftCons(l: seq<Atom>, o: nat, m: nat, g: seq<byte>, o': nat, z: nat)
    requires l != [] && l[0].offset == o && m == o + l[0].size && Behind(l[1..], m)
    requires AtomAt(g, o') == Some(l[0].(offset := o')) && Chain(g, m - o + o', Shift(l[1..], m, m - o + o'), z)
    ensures Behind(l, o) && Chain(g, o', Shift(l, o, o'), z)
  {
    hide *;
    ShiftStep(l, o, o', m);
    ChainCons(g, o', Shift(l, o, o'), z);
  }

  lemma ChainHead(f: seq<byte>, o: nat, l: seq<Atom>, e: nat)
    requires Chain(f, o, l, e) && l != []
    ensures AtomAt(f, o) == Some(l[0]) && l[0].offset == o && Chain(f, o + l[0].size, l[1..], e)
  {}

  lemma ChainCons(f: seq<byte>, o: nat, l: seq<Atom>, e: nat)
    requires l != [] && AtomAt(f, o) == Some(l[0]) && Chain(f, o + l[0].size, l[1..], e)
    ensures Chain(f, o, l, e)
  {}

  lemma ShiftStep(l: seq<Atom>, o: nat, o': nat, m: nat)
    requires l != [] && l[0].offset == o <= m && Behind(l[1..], m)
    ensures Behind(l, o)
    ensures Shift(l, o, o')[0] == l[0].(offset := o')
    ensures Shift(l, o, o')[1..] == Shift(l[1..], m, m - o + o')
  {
    forall i | 0 <= i < |l| ensures l[i].offset >= o { if i > 0 { assert l[i] == l[1..][i - 1]; } }
  }

  lemma CopiedPart(f: seq<byte>, o: nat, e: nat, g: seq<byte>, o': nat, m: nat)
    requires Copied(f, o, e, g, o') && o <= m <= e
    ensures Copied(f, o, m, g, o')
  {
    CopiedNumber(f, o, e, g, o', o, m - o);
  }

  /** A box without a size of its own reaches to the end of the file. */
  lemma ToEnd(f: seq<byte>, o: nat)
    requires AtomAt(f, o).Some?
    ensures o + 8 <= |f| && (Number(f, o, 4) == 0 ==> o + AtomAt(f, o).value.size == |f|)
  {}

  // ----- the movie header and the media data -----

  function Having(l: seq<Atom>, kind: seq<byte>): seq<Atom> {
    if l == [] then [] else (if l[0].kind == kind then [l[0]] else []) + Having(l[1..], kind)
  }

  /** `singleOrNull`. */
  function Single(l: seq<Atom>, kind: seq<byte>): Option<Atom> {
    var h := Having(l, kind);
    if |h| == 1 then Some(h[0]) else None
  }

  /** `indexOfFirst`. */
  function IndexOfFirst(l: seq<Atom>, kind: seq<byte>): (i: int)
    ensures -1 <= i < |l|
  {
    if l == [] then -1
    else if l[0].kind == kind then 0
    else (var i := IndexOfFirst(l[1..], kind); if i < 0 then -1 else i + 1)
  }

  /** `isFastStart`. */
  predicate FastStarted(l: seq<Atom>) {
    0 <= IndexOfFirst(l, F.MOOV) < IndexOfFirst(l, F.MDAT)
  }

  /** The only box of its kind stands at `i`. */
  predicate OnlyAt(l: seq<Atom>, kind: seq<byte>, i: nat) {
    i < |l| && l[i].kind == kind && forall k | 0 <= k < |l| && k != i :: l[k].kind != kind
  }

  lemma {:induction false} NoneHaving(l: seq<Atom>, kind: seq<byte>)
    ensures Having(l, kind) == [] <==> forall k | 0 <= k < |l| :: l[k].kind != kind
  {
    if l != [] {
      NoneHaving(l[1..], kind);
      if Having(l, kind) == [] {
        forall k | 0 <= k < |l| ensures l[k].kind != kind { if k > 0 { assert l[k] == l[1..][k - 1]; } }
      }
    }
  }

  lemma {:induction false} SingleAt(l: seq<Atom>, kind: seq<byte>) returns (i: nat)
    requires Single(l, kind).Some?
    ensures OnlyAt(l, kind, i) && Single(l, kind) == Some(l[i])
  {
    if l[0].kind == kind {
      i := 0;
      assert Having(l, kind)[1..] == Having(l[1..], kind);
      NoneHaving(l[1..], kind);
      forall k | 0 < k < |l| ensures l[k].kind != kind { assert l[k] == l[1..][k - 1]; }
    } else {
      assert Having(l, kind) == Having(l[1..], kind);
      var j := SingleAt(l[1..], kind);
      i := j + 1;
      forall k | 0 <= k < |l| && k != i ensures l[k].kind != kind { if k > 0 { assert l[k] == l[1..][k - 1]; } }
    }
  }

  lemma {:induction false} AtIsSingle(l: seq<Atom>, kind: seq<byte>, i: nat)
    requires OnlyAt(l, kind, i)
    ensures Single(l, kind) == Some(l[i]) && IndexOfFirst(l, kind) == i
  {
    if i == 0 {
      NoneHaving(l[1..], kind);
    } else {
      assert l[0].kind != kind;
      assert OnlyAt(l[1..], kind, i - 1);
      AtIsSingle(l[1..], kind, i - 1);
    }
  }

  lemma {:induction false} NoIndex(l: seq<Atom>, kind: seq<byte>)
    requires forall k | 0 <= k < |l| :: l[k].kind != kind
    ensures IndexOfFirst(l, kind) == -1
  {
    if l != [] { NoIndex(l[1..], kind); }
  }

  // ----- copying -----

  predicate Kept(a: Atom, cut: nat, front: bool) { a.kind != F.MOOV && (a.offset < cut) == front }

  function Piece(f: seq<byte>, a: Atom, cut: nat, front: bool): seq<byte>
    requires a.offset + a.size <= |f|
  {
    if Kept(a, cut, front) then f[a.offset..a.offset + a.size] else []
  }

  /** The boxes before the cut, or those from it on, one behind the other, without the movie header. */
  function CopyKept(f: seq<byte>, l: seq<Atom>, cut: nat, front: bool): seq<byte>
    requires Inside(f, l)
  {
    if l == [] then []
    else
      InsideTail(f, l);
      Piece(f, l[0], cut, front) + CopyKept(f, l[1..], cut, front)
  }

  predicate Inside(f: seq<byte>, l: seq<Atom>) { forall i | 0 <= i < |l| :: l[i].offset + l[i].size <= |f| }

  lemma InsideTail(f: seq<byte>, l: seq<Atom>)
    requires Inside(f, l) && l != []
    ensures Inside(f, l[1..])
  {}

  lemma {:induction false} CopyAppend(f: seq<byte>, a: seq<Atom>, b: seq<Atom>, cut: nat, front: bool)
    requires Inside(f, a) && Inside(f, b) && Inside(f, a + b)
    ensures CopyKept(f, a + b, cut, front) == CopyKept(f, a, cut, front) + CopyKept(f, b, cut, front)
  {
    hide Kept, Piece, Inside;
    if a == [] {
      assert a + b == b;
      assert [] + CopyKept(f, b, cut, front) == CopyKept(f, b, cut, front);
    } else {
      InsideTail(f, a);
      InsideTail(f, a + b);
      assert (a + b)[1..] == a[1..] + b && (a + b)[0] == a[0];
      CopyAppend(f, a[1..], b, cut, front);
      Bounds(f, a);
      Associate(Piece(f, a[0], cut, front), CopyKept(f, a[1..], cut, front), CopyKept(f, b, cut, front));
    }
  }

  lemma Associate(x: seq<byte>, y: seq<byte>, z: seq<byte>)
    ensures x + (y + z) == (x + y) + z
  {}

  lemma Bounds(f: seq<byte>, l: seq<Atom>)
    requires Inside(f, l) && l != []
    ensures l[0].offset + l[0].size <= |f|
  {}

  lemma {:induction false} CopyRun(f: seq<byte>, o: nat, l: seq<Atom>, e: nat, cut: nat, front: bool)
    requires Chain(f, o, l, e) && Inside(f, l) && o <= |f|
    requires forall i | 0 <= i < |l| :: Kept(l[i], cut, front)
    ensures o <= e <= |f| && CopyKept(f, l, cut, front) == f[o..e]
    decreases |l|
  {
    hide AtomAt, Kept;
    if l != [] {
      ChainHead(f, o, l, e);
      InsideTail(f, l);
      forall i | 0 <= i < |l[1..]| ensures Kept(l[1..][i], cut, front) { assert l[1..][i] == l[i + 1]; }
      assert l[0].offset + l[0].size <= |f|;
      CopyRun(f, o + l[0].size, l[1..], e, cut, front);
      assert f[o..e] == f[o..o + l[0].size] + f[o + l[0].size..e];
    }
  }

  lemma {:induction false} CopyNone(f: seq<byte>, l: seq<Atom>, cut: nat, front: bool)
    requires Inside(f, l) && forall i | 0 <= i < |l| :: !Kept(l[i], cut, front)
    ensures CopyKept(f, l, cut, front) == []
  {
    hide Kept;
    if l != [] {
      InsideTail(f, l);
      forall i | 0 <= i < |l[1..]| ensures !Kept(l[1..][i], cut, front) { assert l[1..][i] == l[i + 1]; }
      CopyNone(f, l[1..], cut, front);
    }
  }

  // ----- the parts of a file whose movie header stands behind its media data -----

  /** `l` divides `f`; its only media data is box `i`, its only movie header box `j` behind it. */
  ghost predicate Layout(f: seq<byte>, l: seq<Atom>, i: nat, j: nat) {
    i < j < |l| && Chain(f, 0, l, |f|) && OnlyAt(l, F.MDAT, i) && OnlyAt(l, F.MOOV, j)
  }

  lemma LayoutChains(f: seq<byte>, l: seq<Atom>, i: nat, j: nat)
    requires Chain(f, 0, l, |f|) && i < j < |l|
    ensures Inside(f, l) && l[i].offset < l[j].offset
    ensures Chain(f, 0, l[..i], l[i].offset) && Chain(f, l[i].offset, l[i..j], l[j].offset)
    ensures Chain(f, l[j].offset + l[j].size, l[j + 1..], |f|)
    ensures AtomAt(f, l[i].offset) == Some(l[i]) && AtomAt(f, l[j].offset) == Some(l[j])
  {
    hide *;
    ChainInside(f, 0, l, |f|);
    ChainSplit(f, 0, l, |f|, i);
    ChainSplit(f, 0, l, |f|, j);
    ChainOffsets(f, 0, l, |f|);
    Positive(f, l, i);
    assert l[i].offset + l[i].size <= l[j].offset;
    var p := l[..j];
    assert p[i] == l[i] && p[..i] == l[..i] && p[i + 1..] == l[i + 1..j];
    ChainSplit(f, 0, p, l[j].offset, i);
    assert l[i..j][0] == l[i] && l[i..j][1..] == l[i + 1..j];
    ChainCons(f, l[i].offset, l[i..j], l[j].offset);
  }

  lemma ChainInside(f: seq<byte>, o: nat, l: seq<Atom>, e: nat)
    requires Chain(f, o, l, e) && e <= |f|
    ensures Inside(f, l)
  {
    hide Chain;
    ChainOffsets(f, o, l, e);
  }

  /** The boxes from `p` to `q` are all kept, or none of them is. */
  ghost predicate AllKept(l: seq<Atom>, p: nat, q: nat, cut: nat, front: bool)
    requires p <= q <= |l|
  {
    forall k | p <= k < q :: Kept(l[k], cut, front)
  }

  ghost predicate NoneKept(l: seq<Atom>, p: nat, q: nat, cut: nat, front: bool)
    requires p <= q <= |l|
  {
    forall k | p <= k < q :: !Kept(l[k], cut, front)
  }

  lemma WhoIsKept(f: seq<byte>, l: seq<Atom>, i: nat, j: nat)
    requires Layout(f, l, i, j)
    ensures var cut := l[i].offset;
            && AllKept(l, 0, i, cut, true) && NoneKept(l, i, |l|, cut, true)
            && NoneKept(l, 0, i, cut, false) && AllKept(l, i, j, cut, false)
            && NoneKept(l, j, j + 1, cut, false) && AllKept(l, j + 1, |l|, cut, false)
  {
    hide AtomAt, Chain;
    ChainOffsets(f, 0, l, |f|);
    forall k | 0 <= k < |l| ensures (l[k].offset < l[i].offset) <==> k < i {
      if k < i { assert l[k].offset + l[k].size <= l[i].offset; Positive(f, l, k); }
      if i < k { assert l[i].offset + l[i].size <= l[k].offset; }
    }
  }

  lemma Positive(f: seq<byte>, l: seq<Atom>, k: nat)
    requires Chain(f, 0, l, |f|) && k < |l|
    ensures l[k].size >= 8
  {
    ChainSplit(f, 0, l, |f|, k);
  }

  lemma CopyFront(f: seq<byte>, l: seq<Atom>, i: nat)
    requires Inside(f, l) && i < |l| && Chain(f, 0, l[..i], l[i].offset)
    requires AllKept(l, 0, i, l[i].offset, true) && NoneKept(l, i, |l|, l[i].offset, true)
    ensures CopyKept(f, l, l[i].offset, true) == f[..l[i].offset]
  {
    var a, b := l[..i], l[i..];
    hide *;
    InsideParts(f, l, i);
    assert l == a + b;
    CopyAppend(f, a, b, l[i].offset, true);
    CopyAllOf(f, l, 0, i, a, l[i].offset, true, 0, l[i].offset);
    CopyNoneOf(f, l, i, |l|, b, l[i].offset, true);
    assert f[0..l[i].offset] + [] == f[..l[i].offset];
  }

  lemma InsideParts(f: seq<byte>, l: seq<Atom>, i: nat)
    requires Inside(f, l) && i <= |l|
    ensures Inside(f, l[..i]) && Inside(f, l[i..])
  {}

  lemma CopyBack(f: seq<byte>, l: seq<Atom>, i: nat, j: nat)
    requires Inside(f, l) && i < j < |l| && l[i].offset <= l[j].offset
    requires Chain(f, l[i].offset, l[i..j], l[j].offset) && Chain(f, l[j].offset + l[j].size, l[j + 1..], |f|)
    requires var cut := l[i].offset;
             && NoneKept(l, 0, i, cut, false) && AllKept(l, i, j, cut, false)
             && NoneKept(l, j, j + 1, cut, false) && AllKept(l, j + 1, |l|, cut, false)
    ensures l[j].offset + l[j].size <= |f|
    ensures CopyKept(f, l, l[i].offset, false) == f[l[i].offset..l[j].offset] + f[l[j].offset + l[j].size..]
  {
    hide *;
    FourParts(l, i, j);
    InsideAt(f, l, i);
    InsideAt(f, l, j);
    CopyBackOf(f, l, i, j, l[0..i], l[i..j], l[j..j + 1], l[j + 1..|l|], l[i].offset, l[j].offset, l[j].offset + l[j].size);
    DropIs(f, l[j].offset + l[j].size);
  }

  lemma CopyBackOf(f: seq<byte>, l: seq<Atom>, i: nat, j: nat,
                   a: seq<Atom>, b: seq<Atom>, c: seq<Atom>, d: seq<Atom>, cut: nat, p: nat, q: nat)
    requires Inside(f, l) && i < j < |l| && cut <= p <= q <= |f|
    requires a == l[0..i] && b == l[i..j] && c == l[j..j + 1] && d == l[j + 1..|l|] && l == a + (b + (c + d))
    requires Chain(f, cut, b, p) && Chain(f, q, d, |f|)
    requires NoneKept(l, 0, i, cut, false) && AllKept(l, i, j, cut, false)
    requires NoneKept(l, j, j + 1, cut, false) && AllKept(l, j + 1, |l|, cut, false)
    ensures CopyKept(f, l, cut, false) == f[cut..p] + f[q..|f|]
  {
    hide *;
    InsideSlice(f, l, 0, i);
    InsideSlice(f, l, i, j);
    InsideSlice(f, l, j, j + 1);
    InsideSlice(f, l, j + 1, |l|);
    CopyNoneOf(f, l, 0, i, a, cut, false);
    CopyAllOf(f, l, i, j, b, cut, false, cut, p);
    CopyNoneOf(f, l, j, j + 1, c, cut, false);
    CopyAllOf(f, l, j + 1, |l|, d, cut, false, q, |f|);
    Assemble(f, l, a, b, c, d, cut);
  }

  lemma DropIs(f: seq<byte>, p: nat)
    requires p <= |f|
    ensures f[p..|f|] == f[p..]
  {}

  lemma Assemble(f: seq<byte>, l: seq<Atom>, a: seq<Atom>, b: seq<Atom>, c: seq<Atom>, d: seq<Atom>, cut: nat)
    requires Inside(f, l) && Inside(f, a) && Inside(f, b) && Inside(f, c) && Inside(f, d) && l == a + (b + (c + d))
    requires CopyKept(f, a, cut, false) == [] && CopyKept(f, c, cut, false) == []
    ensures CopyKept(f, l, cut, false) == CopyKept(f, b, cut, false) + CopyKept(f, d, cut, false)
  {
    hide *;
    CopyParts(f, a, b, c, d, cut, false);
    Nothing(CopyKept(f, b, cut, false), CopyKept(f, d, cut, false));
  }

  lemma FourParts(l: seq<Atom>, i: nat, j: nat)
    requires i < j < |l|
    ensures l == l[0..i] + (l[i..j] + (l[j..j + 1] + l[j + 1..|l|]))
    ensures l[j + 1..] == l[j + 1..|l|]
  {}

  lemma InsideAt(f: seq<byte>, l: seq<Atom>, i: nat)
    requires Inside(f, l) && i < |l|
    ensures l[i].offset + l[i].size <= |f|
  {}

  lemma InsideSlice(f: seq<byte>, l: seq<Atom>, i: nat, j: nat)
    requires Inside(f, l) && i <= j <= |l|
    ensures Inside(f, l[i..j])
  {}

  lemma CopyNoneOf(f: seq<byte>, l: seq<Atom>, p: nat, q: nat, part: seq<Atom>, cut: nat, front: bool)
    requires p <= q <= |l| && part == l[p..q] && Inside(f, part)
    requires NoneKept(l, p, q, cut, front)
    ensures CopyKept(f, part, cut, front) == []
  {
    hide Kept, CopyKept;
    forall k | 0 <= k < |part| ensures !Kept(part[k], cut, front) { assert part[k] == l[p + k]; }
    CopyNone(f, part, cut, front);
  }

  lemma CopyAllOf(f: seq<byte>, l: seq<Atom>, p: nat, q: nat, part: seq<Atom>, cut: nat, front: bool, o: nat, e: nat)
    requires p <= q <= |l| && part == l[p..q] && Inside(f, part) && o <= |f| && Chain(f, o, part, e)
    requires AllKept(l, p, q, cut, front)
    ensures o <= e <= |f| && CopyKept(f, part, cut, front) == f[o..e]
  {
    hide Kept, CopyKept, Chain, Inside;
    forall k | 0 <= k < |part| ensures Kept(part[k], cut, front) { assert part[k] == l[p + k]; }
    CopyRun(f, o, part, e, cut, front);
  }

  lemma Nothing(x: seq<byte>, y: seq<byte>)
    ensures [] + (x + ([] + y)) == x + y
  {}

  /** What the two copying loops write. */
  lemma CopiesAre(f: seq<byte>, l: seq<Atom>, i: nat, j: nat)
    requires Layout(f, l, i, j)
    ensures Inside(f, l) && l[i].offset <= l[j].offset && l[j].offset + l[j].size <= |f|
    ensures CopyKept(f, l, l[i].offset, true) == f[..l[i].offset]
    ensures CopyKept(f, l, l[i].offset, false) == f[l[i].offset..l[j].offset] + f[l[j].offset + l[j].size..]
  {
    hide AtomAt, Kept, Chain, CopyKept;
    LayoutChains(f, l, i, j);
    WhoIsKept(f, l, i, j);
    CopyFront(f, l, i);
    CopyBack(f, l, i, j);
  }

  lemma CopyParts(f: seq<byte>, a: seq<Atom>, b: seq<Atom>, c: seq<Atom>, d: seq<Atom>, cut: nat, front: bool)
    requires Inside(f, a) && Inside(f, b) && Inside(f, c) && Inside(f, d)
    ensures Inside(f, a + (b + (c + d)))
    ensures CopyKept(f, a + (b + (c + d)), cut, front) ==
            CopyKept(f, a, cut, front) + (CopyKept(f, b, cut, front) + (CopyKept(f, c, cut, front) + CopyKept(f, d, cut, front)))
  {
    hide CopyKept;
    CopyAppend(f, c, d, cut, front);
    CopyAppend(f, b, c + d, cut, front);
    CopyAppend(f, a, b + (c + d), cut, front);
  }

  // ----- the rewrite -----

  /**
   `Rejected`: the code throws and the file stays. `Damaged`: the file was replaced and the last
   check throws. `Unmodelled`: a size in the movie header overflows a `Long`.
   */
  datatype Result = Unchanged | Rewritten(file: seq<byte>) | Damaged(file: seq<byte>) | Rejected | Unmodelled

  function Reordered(f: seq<byte>, d: nat, p: nat, m: seq<byte>): (g: seq<byte>)
    requires d <= p && p + |m| <= |f|
    ensures |g| == |f|
  {
    f[..d] + m + (f[d..p] + f[p + |m|..])
  }

  predicate NowFast(g: seq<byte>) {
    match Atoms(g, 0)
    case None => false
    case Some(l) => FastStarted(l)
  }

  function Optimized(f: seq<byte>): Result {
    match Atoms(f, 0)
    case None => Rejected
    case Some(l) =>
      var moov, mdat := Single(l, F.MOOV), Single(l, F.MDAT);
      if moov.None? || mdat.None? then Rejected
      else if moov.value.offset < mdat.value.offset then Unchanged
      else OptimizedBack(f, mdat.value, moov.value)
  }

  /** The rewrite of a file with the movie header behind the media data. */
  function OptimizedBack(f: seq<byte>, mdat: Atom, moov: Atom): Result {
    if moov.size > MAX_MOOV_BYTES || moov.offset < mdat.offset || moov.offset + moov.size > |f| then Rejected
    else
      match Patch(f[moov.offset..moov.offset + moov.size], 8, moov.size, moov.size)
      case Refused => Rejected
      case Overflow => Unmodelled
      case Done(m) =>
        var g := Reordered(f, mdat.offset, moov.offset, m);
        if NowFast(g) then Rewritten(g) else Damaged(g)
  }

  /** `optimize`. */
  method Optimize(f: seq<byte>) returns (r: Result)
    ensures r == Optimized(f)
  {
    var atoms := TopLevelAtoms(f);
    if atoms.None? { return Rejected; }
    var l := atoms.value;
    var moov, mdat := Single(l, F.MOOV), Single(l, F.MDAT);
    if moov.None? || mdat.None? { return Rejected; }
    if moov.value.offset < mdat.value.offset { return Unchanged; }
    ghost var i, j := InBack(f, l);
    r := Relocate(f, l, moov.value, mdat.value, i, j);
  }

  /** The part of `optimize` behind its early exits. */
  method Relocate(f: seq<byte>, l: seq<Atom>, moov: Atom, mdat: Atom, ghost i: nat, ghost j: nat) returns (r: Result)
    requires Layout(f, l, i, j) && l[i] == mdat && l[j] == moov
    ensures r == OptimizedBack(f, mdat, moov)
  {
    hide *;
    CopiesAre(f, l, i, j);
    BackFails(f, mdat, moov);
    if moov.size > MAX_MOOV_BYTES { return Rejected; }
    var prefix := SizeOfFront(f, l, mdat.offset);
    var newMdatOffset := prefix + moov.size;
    var delta := (newMdatOffset + mdat.headerSize) - (mdat.offset + mdat.headerSize);
    var out, m := MoveOffsets(f, moov.offset, moov.size, delta);
    if out == Failed { return Rejected; }
    if out == Wrapped { return Unmodelled; }
    var front := CopyBoxes(f, l, mdat.offset, true);
    var back := CopyBoxes(f, l, mdat.offset, false);
    BackSucceeds(f, mdat, moov, m, front, back);
    var fast := IsNowFast(front + m + back);
    return if fast then Rewritten(front + m + back) else Damaged(front + m + back);
  }

  lemma BackFails(f: seq<byte>, mdat: Atom, moov: Atom)
    requires mdat.offset <= moov.offset && moov.offset + moov.size <= |f|
    ensures moov.size > MAX_MOOV_BYTES ==> OptimizedBack(f, mdat, moov) == Rejected
    ensures moov.size <= MAX_MOOV_BYTES ==>
              var r := Patch(f[moov.offset..moov.offset + moov.size], 8, moov.size, moov.size);
              && (r == Refused ==> OptimizedBack(f, mdat, moov) == Rejected)
              && (r == Overflow ==> OptimizedBack(f, mdat, moov) == Unmodelled)
  {
    hide Patch, Reordered, NowFast;
  }

  lemma BackSucceeds(f: seq<byte>, mdat: Atom, moov: Atom, m: seq<byte>, front: seq<byte>, back: seq<byte>)
    requires mdat.offset <= moov.offset && moov.offset + moov.size <= |f| && moov.size <= MAX_MOOV_BYTES
    requires Patch(f[moov.offset..moov.offset + moov.size], 8, moov.size, moov.size) == Done(m)
    requires front == f[..mdat.offset] && back == f[mdat.offset..moov.offset] + f[moov.offset + moov.size..]
    ensures var g := front + m + back;
            OptimizedBack(f, mdat, moov) == if NowFast(g) then Rewritten(g) else Damaged(g)
  {
    hide Patch, NowFast;
  }

  /** The movie header read into memory and patched there. */
  method MoveOffsets(f: seq<byte>, p: nat, size: nat, delta: nat) returns (out: Outcome, m: seq<byte>)
    requires p + size <= |f|
    ensures var r := Patch(f[p..p + size], 8, size, delta);
            && (out == Finished <==> r.Done?) && (out == Failed <==> r == Refused) && (out == Wrapped <==> r == Overflow)
            && (out == Finished ==> m == r.bytes)
  {
    hide Patch;
    var a := new byte[size](k requires 0 <= k < size => f[p + k]);
    assert a[..] == f[p..p + size];
    out := PatchBoxes(a, 8, size, delta);
    m := a[..];
  }

  /** `prefix.sumOf { it.size }`. */
  method SizeOfFront(ghost f: seq<byte>, l: seq<Atom>, cut: nat) returns (n: nat)
    requires Inside(f, l)
    ensures n == |CopyKept(f, l, cut, true)|
  {
    hide Kept;
    n := 0;
    for k := 0 to |l|
      invariant n == |CopyKept(f, l[..k], cut, true)|
    {
      assert l[..k + 1] == l[..k] + [l[k]];
      CopyAppend(f, l[..k], [l[k]], cut, true);
      assert CopyKept(f, [l[k]], cut, true) == Piece(f, l[k], cut, true);
      if Kept(l[k], cut, true) { n := n + l[k].size; }
    }
    assert l[..|l|] == l;
  }

  /** `isFastStart`; false also where it throws. */
  method IsNowFast(g: seq<byte>) returns (fast: bool)
    ensures fast <==> NowFast(g)
  {
    hide Atoms;
    var now := TopLevelAtoms(g);
    return now.Some? && FastStarted(now.value);
  }

  lemma InBack(f: seq<byte>, l: seq<Atom>) returns (i: nat, j: nat)
    requires Atoms(f, 0) == Some(l) && Single(l, F.MOOV).Some? && Single(l, F.MDAT).Some?
    requires Single(l, F.MOOV).value.offset >= Single(l, F.MDAT).value.offset
    ensures Layout(f, l, i, j) && l[i] == Single(l, F.MDAT).value && l[j] == Single(l, F.MOOV).value
  {
    hide AtomAt, Chain, Single;
    AtomsChain(f, 0, l);
    i := SingleAt(l, F.MDAT);
    j := SingleAt(l, F.MOOV);
    assert F.MOOV[1] != F.MDAT[1];
    ChainOffsets(f, 0, l, |f|);
    if j < i { Positive(f, l, j); }
  }

  /** One copying loop. */
  method CopyBoxes(f: seq<byte>, l: seq<Atom>, cut: nat, front: bool) returns (output: seq<byte>)
    requires Inside(f, l)
    ensures output == CopyKept(f, l, cut, front)
  {
    hide Kept;
    output := [];
    for k := 0 to |l|
      invariant output == CopyKept(f, l[..k], cut, front)
    {
      assert l[..k + 1] == l[..k] + [l[k]];
      CopyAppend(f, l[..k], [l[k]], cut, front);
      assert CopyKept(f, [l[k]], cut, front) == Piece(f, l[k], cut, front);
      if Kept(l[k], cut, front) { output := output + f[l[k].offset..l[k].offset + l[k].size]; }
    }
    assert l[..|l|] == l;
  }
}
