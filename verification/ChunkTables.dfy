/**
 What the walk over the movie header does, said without the walk: a movie has a list of chunk
 offset entries; each of them is moved, nothing else is touched, and the moved movie has the
 same list.
 */
module ChunkTables {
  import opened Bytes
  import opened ChunkOffsets

  /** An entry of a chunk offset table: where it stands and how many bytes it has. */
  datatype Slot = Slot(at: nat, width: nat)

  // ----- the entries of a movie -----

  function Entries(p: nat, n: nat, width: nat): (l: seq<Slot>)
    ensures |l| == n
    decreases n
  {
    if n == 0 then [] else [Slot(p, width)] + Entries(p + width, n - 1, width)
  }

  function TableSlots(b: seq<byte>, s: nat, e: nat, width: nat): Option<seq<Slot>>
    requires e <= |b|
  {
    if s + 8 > e then None
    else
      var count := Number(b, s + 4, 4);
      if count >= TWO_31 then Some([])
      else if s + 8 + count * width > e then None
      else Some(Entries(s + 8, count, width))
  }

  /** The entries of all tables between `o` and `end`; `None` where a table does not fit its box or its end is no `Long`. */
  function Slots(b: seq<byte>, o: nat, end: nat): Option<seq<Slot>>
    requires end <= |b|
    decreases Extent(o, end), 1
  {
    if o + 8 > end then Some([])
    else
      var h := ReadHeader(b, o);
      if h.None? then None
      else if h.value.size < h.value.length then Some([])
      else if o + h.value.size >= TWO_63 && IsTable(Kind(b, o)) then None
      else if o + h.value.size > end then Some([])
      else
        var own := BoxSlots(b, Kind(b, o), o + h.value.length, o + h.value.size);
        var rest := Slots(b, o + h.value.size, end);
        if own.None? || rest.None? then None else Some(own.value + rest.value)
  }

  function BoxSlots(b: seq<byte>, kind: seq<byte>, s: nat, e: nat): Option<seq<Slot>>
    requires e <= |b|
    decreases Extent(s, e), 2
  {
    if kind == STCO then TableSlots(b, s, e, 4)
    else if kind == CO64 then TableSlots(b, s, e, 8)
    else if kind in CONTAINERS then Slots(b, if kind == META then s + 4 else s, e)
    else Some([])
  }

  /** The entries lie one behind the other between `lo` and `hi`. */
  predicate Laid(l: seq<Slot>, lo: nat, hi: nat) {
    l == [] || (l[0].width in {4, 8} && lo <= l[0].at && l[0].at + l[0].width <= hi
                && Laid(l[1..], l[0].at + l[0].width, hi))
  }

  predicate InSlot(l: seq<Slot>, x: nat) {
    l != [] && (l[0].at <= x < l[0].at + l[0].width || InSlot(l[1..], x))
  }

  function Value(b: seq<byte>, s: Slot): nat
    requires s.at + s.width <= |b|
  {
    Number(b, s.at, s.width)
  }

  // ----- lists of entries -----

  lemma {:induction false} LaidWider(l: seq<Slot>, lo: nat, hi: nat, lo': nat, hi': nat)
    requires Laid(l, lo, hi) && lo' <= lo && hi <= hi'
    ensures Laid(l, lo', hi')
  {
    if l != [] { LaidWider(l[1..], l[0].at + l[0].width, hi, l[0].at + l[0].width, hi'); }
  }

  lemma LaidWithin(l: seq<Slot>, lo: nat, hi: nat)
    requires Laid(l, lo, hi) && l != []
    ensures l[0].width in {4, 8} && lo <= l[0].at && l[0].at + l[0].width <= hi
    ensures Laid(l[1..], l[0].at + l[0].width, hi)
  {}

  lemma LaidCons(l: seq<Slot>, lo: nat, hi: nat)
    requires l != [] && l[0].width in {4, 8} && lo <= l[0].at && l[0].at + l[0].width <= hi
    requires Laid(l[1..], l[0].at + l[0].width, hi)
    ensures Laid(l, lo, hi)
  {}

  lemma {:induction false} LaidAppend(a: seq<Slot>, c: seq<Slot>, lo: nat, mid: nat, hi: nat)
    requires Laid(a, lo, mid) && Laid(c, mid, hi) && lo <= mid <= hi
    ensures Laid(a + c, lo, hi)
  {
    if a == [] {
      assert a + c == c;
      LaidWider(c, mid, hi, lo, hi);
    } else {
      LaidWithin(a, lo, mid);
      LaidAppend(a[1..], c, a[0].at + a[0].width, mid, hi);
      assert (a + c)[1..] == a[1..] + c && (a + c)[0] == a[0];
      hide Laid;
      LaidCons(a + c, lo, hi);
    }
  }

  lemma {:induction false} InSlotAppend(a: seq<Slot>, c: seq<Slot>, x: nat)
    ensures InSlot(a + c, x) <==> InSlot(a, x) || InSlot(c, x)
  {
    if a == [] {
      assert a + c == c;
    } else {
      InSlotAppend(a[1..], c, x);
      assert (a + c)[1..] == a[1..] + c;
    }
  }

  lemma {:induction false} InSlotRange(l: seq<Slot>, lo: nat, hi: nat, x: nat)
    requires Laid(l, lo, hi) && InSlot(l, x)
    ensures lo <= x < hi
  {
    if !(l[0].at <= x < l[0].at + l[0].width) { InSlotRange(l[1..], l[0].at + l[0].width, hi, x); }
    else { assert l[0].at + l[0].width <= hi; }
  }

  lemma {:induction false} EntriesLaid(p: nat, n: nat, width: nat)
    requires width in {4, 8}
    ensures Laid(Entries(p, n, width), p, p + n * width)
    decreases n
  {
    if n > 0 {
      Distribute(n, width);
      EntriesLaid(p + width, n - 1, width);
      assert Entries(p, n, width)[1..] == Entries(p + width, n - 1, width);
    }
  }

  lemma TableLaid(b: seq<byte>, s: nat, e: nat, width: nat)
    requires e <= |b| && width in {4, 8}
    ensures match TableSlots(b, s, e, width)
            case None => true
            case Some(l) => Laid(l, s + 8, e)
  {
    if s + 8 <= e {
      var count := Number(b, s + 4, 4);
      if count < TWO_31 && s + 8 + count * width <= e {
        EntriesLaid(s + 8, count, width);
        LaidWider(Entries(s + 8, count, width), s + 8, s + 8 + count * width, s + 8, e);
      }
    }
  }

  /** Entries lie behind the two headers in front of them. */
  lemma {:induction false} SlotsLaid(b: seq<byte>, o: nat, end: nat)
    requires end <= |b|
    ensures match Slots(b, o, end)
            case None => true
            case Some(l) => Laid(l, o + 16, end)
    decreases Extent(o, end)
  {
    hide TableSlots, Kind, Number, ReadHeader, Laid;
    LaidNothing(o + 16, end);
    if o + 8 <= end && ReadHeader(b, o).Some? {
      var h := ReadHeader(b, o).value;
      if h.size >= h.length && o + h.size <= end {
        var s, e, kind := o + h.length, o + h.size, Kind(b, o);
        if kind in CONTAINERS { SlotsLaid(b, if kind == META then s + 4 else s, e); }
        TableLaid(b, s, e, 4);
        TableLaid(b, s, e, 8);
        SlotsLaid(b, e, end);
        if Slots(b, o, end).Some? {
          var own, rest := BoxSlots(b, kind, s, e).value, Slots(b, e, end).value;
          LaidNothing(o + 16, e);
          if kind in CONTAINERS { LaidWider(own, (if kind == META then s + 4 else s) + 16, e, o + 16, e); }
          else if kind == STCO || kind == CO64 { LaidWider(own, s + 8, e, o + 16, e); }
          LaidTail(own, rest, o + 16, e, end);
        }
      }
    }
  }

  lemma LaidNothing(lo: nat, hi: nat)
    ensures Laid([], lo, hi)
  {}

  lemma LaidTail(own: seq<Slot>, rest: seq<Slot>, lo: nat, e: nat, end: nat)
    requires Laid(own, lo, e) && Laid(rest, e + 16, end) && lo <= e + 16 && e <= end
    ensures Laid(own + rest, lo, end)
  {
    if own == [] {
      assert own + rest == rest;
      LaidWider(rest, e + 16, end, lo, end);
    } else {
      LaidWider(rest, e + 16, end, e, end);
      LaidAppend(own, rest, lo, e, end);
    }
  }

  // ----- moving entries one by one -----

  function MoveAll(b: seq<byte>, l: seq<Slot>, delta: nat): (r: Option<seq<byte>>)
    requires Laid(l, 0, |b|)
    ensures r.Some? ==> |r.value| == |b|
    decreases |l|
  {
    if l == [] then Some(b)
    else
      var v := MovedAt(b, l[0].at, l[0].width, delta);
      if v.None? then None
      else
        LaidWider(l[1..], l[0].at + l[0].width, |b|, 0, |b|);
        MoveAll(Put(b, l[0].at, ToBE(v.value, l[0].width)), l[1..], delta)
  }

  lemma {:induction false} MoveAppend(b: seq<byte>, a: seq<Slot>, c: seq<Slot>, delta: nat)
    requires Laid(a, 0, |b|) && Laid(c, 0, |b|) && Laid(a + c, 0, |b|)
    ensures MoveAll(b, a + c, delta) ==
            match MoveAll(b, a, delta) case None => None case Some(q) => MoveAll(q, c, delta)
    decreases |a|
  {
    hide MovedAt, Put;
    if a == [] {
      assert a + c == c;
    } else {
      assert (a + c)[1..] == a[1..] + c;
      var v := MovedAt(b, a[0].at, a[0].width, delta);
      if v.Some? {
        LaidWider(a[1..], a[0].at + a[0].width, |b|, 0, |b|);
        LaidWider((a + c)[1..], a[0].at + a[0].width, |b|, 0, |b|);
        MoveAppend(Put(b, a[0].at, ToBE(v.value, a[0].width)), a[1..], c, delta);
      }
    }
  }

  lemma {:induction false} EntriesMoved(b: seq<byte>, p: nat, n: nat, width: nat, delta: nat)
    requires width in {4, 8} && p + n * width <= |b|
    ensures Laid(Entries(p, n, width), 0, |b|)
    ensures PatchEntries(b, p, n, width, delta) == MoveAll(b, Entries(p, n, width), delta)
    decreases n
  {
    hide MovedAt, Put, PatchEntries, Laid, MoveAll;
    EntriesLaid(p, n, width);
    LaidWider(Entries(p, n, width), p, p + n * width, 0, |b|);
    EntryStep(b, p, n, width, delta);
    EntriesStep(b, p, n, width, delta);
    if n > 0 {
      var v := MovedAt(b, p, width, delta);
      if v.Some? { EntriesMoved(Put(b, p, ToBE(v.value, width)), p + width, n - 1, width, delta); }
    }
  }

  /** Moving a run of entries moves the first one and then the others. */
  lemma EntriesStep(b: seq<byte>, p: nat, n: nat, width: nat, delta: nat)
    requires width in {4, 8} && Laid(Entries(p, n, width), 0, |b|)
    ensures n == 0 ==> MoveAll(b, Entries(p, n, width), delta) == Some(b)
    ensures n > 0 ==>
      && p + width <= |b| && Laid(Entries(p + width, n - 1, width), 0, |b|)
      && var v := MovedAt(b, p, width, delta);
         MoveAll(b, Entries(p, n, width), delta) == if v.None? then None
         else MoveAll(Put(b, p, ToBE(v.value, width)), Entries(p + width, n - 1, width), delta)
  {
    if n > 0 {
      var l := Entries(p, n, width);
      assert l[0] == Slot(p, width) && l[1..] == Entries(p + width, n - 1, width);
      LaidWider(l[1..], p + width, |b|, 0, |b|);
      hide MovedAt, Put, Entries;
    }
  }

  // ----- what stays -----

  lemma PutFrame(b: seq<byte>, p: nat, e: seq<byte>)
    requires p + |e| <= |b|
    ensures forall x | 0 <= x < |b| && !(p <= x < p + |e|) :: Put(b, p, e)[x] == b[x]
    ensures Put(b, p, e)[p..p + |e|] == e
  {}

  lemma {:induction false} MoveFrame(b: seq<byte>, l: seq<Slot>, delta: nat, x: nat)
    requires Laid(l, 0, |b|) && MoveAll(b, l, delta).Some? && x < |b| && !InSlot(l, x)
    ensures MoveAll(b, l, delta).value[x] == b[x]
    decreases |l|
  {
    hide MovedAt, Put;
    if l != [] {
      var e := ToBE(MovedAt(b, l[0].at, l[0].width, delta).value, l[0].width);
      LaidWider(l[1..], l[0].at + l[0].width, |b|, 0, |b|);
      PutFrame(b, l[0].at, e);
      MoveFrame(Put(b, l[0].at, e), l[1..], delta, x);
    }
  }

  /** The bytes of `p..q` are the same in both. */
  ghost predicate Same(b: seq<byte>, c: seq<byte>, p: nat, q: nat) {
    |b| == |c| && forall x: nat | p <= x < q && x < |b| :: b[x] == c[x]
  }

  /** `b` and `c` differ between `p` and `q` in entries of `l` only. */
  ghost predicate SameBeside(b: seq<byte>, c: seq<byte>, l: seq<Slot>, p: nat, q: nat) {
    |b| == |c| && forall x: nat | p <= x < q && x < |b| && !InSlot(l, x) :: b[x] == c[x]
  }

  lemma NumberSame(b: seq<byte>, c: seq<byte>, p: nat, width: nat)
    requires p + width <= |b| && Same(b, c, p, p + width)
    ensures Number(b, p, width) == Number(c, p, width)
  {
    assert b[p..p + width] == c[p..p + width];
  }

  lemma KindSame(b: seq<byte>, c: seq<byte>, o: nat)
    requires o + 8 <= |b| && Same(b, c, o, o + 8)
    ensures Kind(b, o) == Kind(c, o)
  {
    assert b[o + 4..o + 8] == c[o + 4..o + 8];
  }

  /** Below an address that no entry reaches down to, nothing differs. */
  lemma SameBelow(b: seq<byte>, c: seq<byte>, l: seq<Slot>, p: nat, q: nat, lo: nat, hi: nat)
    requires SameBeside(b, c, l, p, q) && Laid(l, lo, hi)
    ensures Same(b, c, p, if lo < q then lo else q)
  {
    forall x: nat | p <= x < (if lo < q then lo else q) && x < |b| ensures b[x] == c[x] {
      if InSlot(l, x) { InSlotRange(l, lo, hi, x); }
    }
  }

  lemma SamePart(b: seq<byte>, c: seq<byte>, own: seq<Slot>, rest: seq<Slot>, p: nat, q: nat, p': nat, q': nat)
    requires SameBeside(b, c, own + rest, p, q) && p <= p' && q' <= q
    requires forall x | p' <= x < q' :: !InSlot(rest, x)
    ensures SameBeside(b, c, own, p', q')
  {
    forall x: nat | p' <= x < q' && x < |b| && !InSlot(own, x) ensures b[x] == c[x] { InSlotAppend(own, rest, x); }
  }

  lemma SameLater(b: seq<byte>, c: seq<byte>, own: seq<Slot>, rest: seq<Slot>, p: nat, q: nat, e: nat)
    requires SameBeside(b, c, own + rest, p, q) && p <= e && Laid(own, 0, e)
    ensures SameBeside(b, c, rest, e, q)
  {
    forall x: nat | e <= x < q && x < |b| && !InSlot(rest, x) ensures b[x] == c[x] {
      InSlotAppend(own, rest, x);
      if InSlot(own, x) { InSlotRange(own, 0, e, x); }
    }
  }

  // ----- the structure does not depend on the entries -----

  /** Entries lie behind the header, also where its length reaches over the end of the walk. */
  lemma HeaderKept(b: seq<byte>, c: seq<byte>, o: nat, end: nat, l: seq<Slot>)
    requires o + 8 <= end <= |b| && Laid(l, o + 16, end) && SameBeside(b, c, l, o, end + 8)
    ensures |c| == |b| && Kind(b, o) == Kind(c, o) && ReadHeader(b, o) == ReadHeader(c, o)
  {
    SameBelow(b, c, l, o, end + 8, o + 16, end);
    hide Number, Kind;
    KindSame(b, c, o);
    NumberSame(b, c, o, 4);
    if o + 16 <= |b| { NumberSame(b, c, o + 8, 8); }
  }

  lemma TableKept(b: seq<byte>, c: seq<byte>, s: nat, e: nat, width: nat, l: seq<Slot>)
    requires e <= |b| && width in {4, 8} && TableSlots(b, s, e, width) == Some(l) && SameBeside(b, c, l, s, e)
    ensures |c| == |b| && TableSlots(c, s, e, width) == Some(l)
  {
    TableLaid(b, s, e, width);
    if s + 8 <= e {
      SameBelow(b, c, l, s, e, s + 8, e);
      NumberSame(b, c, s + 4, 4);
    }
  }

  /** Whoever changes entries only leaves the list of entries as it is. A last header may reach over the end. */
  lemma {:induction false} SlotsKept(b: seq<byte>, c: seq<byte>, o: nat, end: nat, l: seq<Slot>)
    requires end <= |b| && Slots(b, o, end) == Some(l) && SameBeside(b, c, l, o, end + 8)
    ensures |c| == |b| && Slots(c, o, end) == Some(l)
    decreases Extent(o, end)
  {
    hide TableSlots, Kind, Number, ReadHeader, Laid, SameBeside, InSlot;
    SlotsLaid(b, o, end);
    BesideLength(b, c, l, o, end + 8);
    if o + 8 <= end {
      HeaderKept(b, c, o, end, l);
      var h := ReadHeader(b, o).value;
      if h.size >= h.length && o + h.size <= end {
        var s, e, kind := o + h.length, o + h.size, Kind(b, o);
        var own, rest := BoxSlots(b, kind, s, e).value, Slots(b, e, end).value;
        SlotsLaid(b, e, end);
        BoxLaid(b, kind, s, e);
        OwnPart(b, c, own, rest, o, end, s, e);
        Narrower(b, c, own, s, e + 8, s, e);
        SameLater(b, c, own, rest, o, end + 8, e);
        SlotsKept(b, c, e, end, rest);
        if kind == STCO { TableKept(b, c, s, e, 4, own); }
        else if kind == CO64 { TableKept(b, c, s, e, 8, own); }
        else if kind in CONTAINERS {
          var s' := if kind == META then s + 4 else s;
          Narrower(b, c, own, s, e + 8, s', e + 8);
          SlotsKept(b, c, s', e, own);
        }
      }
    }
  }

  lemma BesideLength(b: seq<byte>, c: seq<byte>, l: seq<Slot>, p: nat, q: nat)
    requires SameBeside(b, c, l, p, q)
    ensures |c| == |b|
  {}

  lemma Narrower(b: seq<byte>, c: seq<byte>, l: seq<Slot>, p: nat, q: nat, p': nat, q': nat)
    requires SameBeside(b, c, l, p, q) && p <= p' && q' <= q
    ensures SameBeside(b, c, l, p', q')
  {}

  lemma BoxLaid(b: seq<byte>, kind: seq<byte>, s: nat, e: nat)
    requires e <= |b|
    ensures match BoxSlots(b, kind, s, e)
            case None => true
            case Some(l) => Laid(l, 0, e)
  {
    hide TableSlots, Slots, Laid;
    LaidNothing(0, e);
    TableLaid(b, s, e, 4);
    TableLaid(b, s, e, 8);
    var s' := if kind == META then s + 4 else s;
    SlotsLaid(b, s', e);
    var own := BoxSlots(b, kind, s, e);
    if own.Some? {
      if kind == STCO || kind == CO64 { LaidWider(own.value, s + 8, e, 0, e); }
      else if kind in CONTAINERS { LaidWider(own.value, s' + 16, e, 0, e); }
    }
  }

  lemma OwnPart(b: seq<byte>, c: seq<byte>, own: seq<Slot>, rest: seq<Slot>, o: nat, end: nat, s: nat, e: nat)
    requires SameBeside(b, c, own + rest, o, end + 8) && o <= s && e <= end && Laid(rest, e + 16, end)
    ensures SameBeside(b, c, own, s, e + 8)
  {
    forall x | s <= x < e + 8 ensures !InSlot(rest, x) {
      if InSlot(rest, x) { InSlotRange(rest, e + 16, end, x); }
    }
    SamePart(b, c, own, rest, o, end + 8, s, e + 8);
  }

  lemma SlotsSame(b: seq<byte>, c: seq<byte>, o: nat, end: nat)
    requires end <= |b| && Same(b, c, o, |b|)
    ensures |c| == |b| && Slots(b, o, end) == Slots(c, o, end)
  {
    hide Slots;
    if Slots(b, o, end).Some? { SlotsKept(b, c, o, end, Slots(b, o, end).value); }
    if Slots(c, o, end).Some? { SlotsKept(c, b, o, end, Slots(c, o, end).value); }
  }

  // ----- the walk moves every entry -----

  /** What moving the entries of a list, if there is one, gives. */
  function MoveListed(b: seq<byte>, l: Option<seq<Slot>>, delta: nat): Patched
    requires l.Some? ==> Laid(l.value, 0, |b|)
  {
    if l.None? then Refused else Lift(MoveAll(b, l.value, delta))
  }

  lemma TableMoves(b: seq<byte>, s: nat, e: nat, width: nat, delta: nat)
    requires e <= |b| && width in {4, 8}
    ensures TableSlots(b, s, e, width).Some? ==> Laid(TableSlots(b, s, e, width).value, 0, |b|)
    ensures Lift(PatchTable(b, s, e, width, delta)) == MoveListed(b, TableSlots(b, s, e, width), delta)
  {
    hide PatchEntries, Entries, MoveAll, Laid, Number;
    MoveNothing(b, delta);
    if s + 8 <= e {
      var count := Number(b, s + 4, 4);
      if count < TWO_31 && s + 8 + count * width <= e { EntriesMoved(b, s + 8, count, width, delta); }
    }
  }

  lemma ListedLaid(b: seq<byte>, o: nat, end: nat)
    requires end <= |b|
    ensures Slots(b, o, end).Some? ==> Laid(Slots(b, o, end).value, 0, |b|)
  {
    hide Slots, Laid;
    SlotsLaid(b, o, end);
    if Slots(b, o, end).Some? { LaidWider(Slots(b, o, end).value, o + 16, end, 0, |b|); }
  }

  /** Where it does not overflow, the walk moves exactly the listed entries, or refuses. */
  lemma {:induction false} PatchMoves(b: seq<byte>, o: nat, end: nat, delta: nat)
    requires end <= |b| && Patch(b, o, end, delta) != Overflow
    ensures Slots(b, o, end).Some? ==> Laid(Slots(b, o, end).value, 0, |b|)
    ensures Patch(b, o, end, delta) == MoveListed(b, Slots(b, o, end), delta)
    decreases Extent(o, end), 1
  {
    hide Patch, PatchBox, BoxSlots, Kind, Number, ReadHeader, MoveAll, Laid;
    ListedLaid(b, o, end);
    Step(b, o, end, delta);
    LaidNothing(0, |b|);
    MoveNothing(b, delta);
    if o + 8 <= end && ReadHeader(b, o).Some? {
      var h := ReadHeader(b, o).value;
      if h.size >= h.length && o + h.size < TWO_63 && o + h.size <= end {
        var s, e, kind := o + h.length, o + h.size, Kind(b, o);
        BoxMoves(b, kind, s, e, delta);
        var own, rest := BoxSlots(b, kind, s, e), Slots(b, e, end);
        ListedLaid(b, e, end);
        var r := PatchBox(b, kind, s, e, delta);
        if r.Done? {
          BoxFrame(b, kind, s, e, delta);
          SlotsSame(b, r.bytes, e, end);
          PatchMoves(r.bytes, e, end, delta);
        }
        if own.Some? && rest.Some? { MoveAppend(b, own.value, rest.value, delta); }
      }
    }
  }

  lemma MoveNothing(b: seq<byte>, delta: nat)
    ensures Laid([], 0, |b|) && MoveAll(b, [], delta) == Some(b)
  {}

  lemma BoxFrame(b: seq<byte>, kind: seq<byte>, s: nat, e: nat, delta: nat)
    requires e <= |b|
    requires BoxSlots(b, kind, s, e).Some? && Laid(BoxSlots(b, kind, s, e).value, 0, |b|)
    requires MoveAll(b, BoxSlots(b, kind, s, e).value, delta).Some?
    ensures Same(b, MoveAll(b, BoxSlots(b, kind, s, e).value, delta).value, e, |b|)
  {
    var l := BoxSlots(b, kind, s, e).value;
    BoxLaid(b, kind, s, e);
    var c := MoveAll(b, l, delta).value;
    hide BoxSlots, MoveAll, Laid;
    forall x: nat | e <= x < |b| ensures b[x] == c[x] {
      if InSlot(l, x) { InSlotRange(l, 0, e, x); } else { MoveFrame(b, l, delta, x); }
    }
  }

  lemma {:induction false} BoxMoves(b: seq<byte>, kind: seq<byte>, s: nat, e: nat, delta: nat)
    requires e <= |b| && PatchBox(b, kind, s, e, delta) != Overflow
    ensures BoxSlots(b, kind, s, e).Some? ==> Laid(BoxSlots(b, kind, s, e).value, 0, |b|)
    ensures PatchBox(b, kind, s, e, delta) == MoveListed(b, BoxSlots(b, kind, s, e), delta)
    decreases Extent(s, e), 2
  {
    hide Patch, Slots, PatchTable, TableSlots, MoveAll, Laid;
    if kind == STCO { TableMoves(b, s, e, 4, delta); }
    else if kind == CO64 { TableMoves(b, s, e, 8, delta); }
    else if kind in CONTAINERS { PatchMoves(b, if kind == META then s + 4 else s, e, delta); }
    else { MoveNothing(b, delta); }
  }

  // ----- what moving means, entry by entry -----

  lemma {:induction false} LaidAt(l: seq<Slot>, lo: nat, hi: nat, i: nat)
    requires Laid(l, lo, hi) && i < |l|
    ensures l[i].width in {4, 8} && lo <= l[i].at && l[i].at + l[i].width <= hi
  {
    if i > 0 { LaidAt(l[1..], l[0].at + l[0].width, hi, i - 1); }
    else { assert l[0].at + l[0].width <= hi; }
  }

  /** What the entry holds in `b`, moved; `None` where it does not fit. */
  function SlotMoved(b: seq<byte>, s: Slot, delta: nat): Option<nat> {
    if s.width in {4, 8} && s.at + s.width <= |b| then MovedAt(b, s.at, s.width, delta) else None
  }

  function SlotValue(b: seq<byte>, s: Slot): Option<nat> {
    if s.at + s.width <= |b| then Some(Number(b, s.at, s.width)) else None
  }

  ghost predicate AllMovable(b: seq<byte>, l: seq<Slot>, delta: nat) {
    forall i | 0 <= i < |l| :: SlotMoved(b, l[i], delta).Some?
  }

  ghost predicate AllMoved(b: seq<byte>, c: seq<byte>, l: seq<Slot>, delta: nat) {
    forall i | 0 <= i < |l| :: SlotValue(c, l[i]) == SlotMoved(b, l[i], delta)
  }

  lemma MovedSame(b: seq<byte>, c: seq<byte>, s: Slot, delta: nat)
    requires s.at + s.width <= |b| && Same(b, c, s.at, s.at + s.width)
    ensures SlotMoved(b, s, delta) == SlotMoved(c, s, delta) && SlotValue(b, s) == SlotValue(c, s)
  {
    if s.width in {4, 8} { NumberSame(b, c, s.at, s.width); }
    NumberSame(b, c, s.at, s.width);
  }

  lemma PutValue(b: seq<byte>, p: nat, v: nat, width: nat)
    requires p + width <= |b| && width in {4, 8} && v < Pow256(width)
    ensures SlotValue(Put(b, p, ToBE(v, width)), Slot(p, width)) == Some(v)
  {
    PutFrame(b, p, ToBE(v, width));
    BigEndianRoundTrip(v, width);
  }

  lemma MovedFits(b: seq<byte>, p: nat, width: nat, delta: nat)
    requires p + width <= |b| && width in {4, 8} && MovedAt(b, p, width, delta).Some?
    ensures MovedAt(b, p, width, delta).value < Pow256(width)
  {
    Pow256Small();
  }

  /** Writing the first entry does not touch the later ones. */
  lemma TailUntouched(b: seq<byte>, c: seq<byte>, l: seq<Slot>, delta: nat, i: nat)
    requires Laid(l, 0, |b|) && 0 < i < |l| && |c| == |b|
    requires forall x | 0 <= x < |b| && !(l[0].at <= x < l[0].at + l[0].width) :: c[x] == b[x]
    ensures SlotMoved(b, l[i], delta) == SlotMoved(c, l[i], delta)
  {
    LaidAt(l[1..], l[0].at + l[0].width, |b|, i - 1);
    MovedSame(b, c, l[i], delta);
  }

  lemma HeadKept(b: seq<byte>, l: seq<Slot>, delta: nat)
    requires l != [] && Laid(l, 0, |b|) && Laid(l[1..], 0, |b|) && MoveAll(b, l[1..], delta).Some?
    ensures SlotValue(MoveAll(b, l[1..], delta).value, l[0]) == SlotValue(b, l[0])
  {
    var c := MoveAll(b, l[1..], delta).value;
    forall x: nat | l[0].at <= x < l[0].at + l[0].width && x < |b| ensures b[x] == c[x] {
      if InSlot(l[1..], x) { InSlotRange(l[1..], l[0].at + l[0].width, |b|, x); }
      else { MoveFrame(b, l[1..], delta, x); }
    }
    hide MoveAll;
    MovedSame(b, c, l[0], delta);
  }

  /** Moving succeeds exactly when every entry fits, and then every entry holds its moved value. */
  lemma {:induction false} MoveExactly(b: seq<byte>, l: seq<Slot>, delta: nat)
    requires Laid(l, 0, |b|)
    ensures MoveAll(b, l, delta).Some? <==> AllMovable(b, l, delta)
    ensures MoveAll(b, l, delta).Some? ==> AllMoved(b, MoveAll(b, l, delta).value, l, delta)
    decreases |l|
  {
    if l != [] {
      var v := MovedAt(b, l[0].at, l[0].width, delta);
      assert SlotMoved(b, l[0], delta) == v;
      if v.Some? {
        var e := ToBE(v.value, l[0].width);
        var q := Put(b, l[0].at, e);
        PutFrame(b, l[0].at, e);
        MovedFits(b, l[0].at, l[0].width, delta);
        PutValue(b, l[0].at, v.value, l[0].width);
        LaidWider(l[1..], l[0].at + l[0].width, |b|, 0, |b|);
        MoveExactly(q, l[1..], delta);
        MoveSplit(b, q, l, delta);
      }
    }
  }

  /** From the tail, moved on the array in which the head is written, to the whole list. */
  lemma MoveSplit(b: seq<byte>, q: seq<byte>, l: seq<Slot>, delta: nat)
    requires l != [] && Laid(l, 0, |b|) && Laid(l[1..], 0, |b|) && |q| == |b|
    requires forall x | 0 <= x < |b| && !(l[0].at <= x < l[0].at + l[0].width) :: q[x] == b[x]
    requires SlotMoved(b, l[0], delta).Some? && SlotValue(q, l[0]) == SlotMoved(b, l[0], delta)
    requires MoveAll(q, l[1..], delta).Some? <==> AllMovable(q, l[1..], delta)
    requires MoveAll(q, l[1..], delta).Some? ==> AllMoved(q, MoveAll(q, l[1..], delta).value, l[1..], delta)
    ensures AllMovable(b, l, delta) <==> AllMovable(q, l[1..], delta)
    ensures MoveAll(q, l[1..], delta).Some? ==> AllMoved(b, MoveAll(q, l[1..], delta).value, l, delta)
  {
    hide MoveAll, Laid, SlotMoved, SlotValue;
    forall i | 0 < i < |l| ensures SlotMoved(b, l[i], delta) == SlotMoved(q, l[1..][i - 1], delta) {
      TailUntouched(b, q, l, delta, i);
    }
    if AllMovable(b, l, delta) {
      forall i | 0 <= i < |l[1..]| ensures SlotMoved(q, l[1..][i], delta).Some? { assert SlotMoved(b, l[i + 1], delta).Some?; }
    }
    if MoveAll(q, l[1..], delta).Some? {
      HeadKept(q, l, delta);
      var c := MoveAll(q, l[1..], delta).value;
      forall i | 0 <= i < |l| ensures SlotValue(c, l[i]) == SlotMoved(b, l[i], delta) {
        if i > 0 { assert SlotValue(c, l[1..][i - 1]) == SlotMoved(q, l[1..][i - 1], delta); }
      }
    }
  }

  /** The moved movie: the same entries, each moved, and every other byte as it was. */
  ghost predicate MovedMovie(b: seq<byte>, c: seq<byte>, o: nat, end: nat, delta: nat)
    requires end <= |b|
  {
    && Slots(b, o, end).Some? && |c| == |b|
    && Slots(c, o, end) == Slots(b, o, end)
    && AllMoved(b, c, Slots(b, o, end).value, delta)
    && SameBeside(b, c, Slots(b, o, end).value, 0, |b|)
  }

  /**
   Unless it overflows, the walk succeeds exactly when every table fits its box and every entry
   can be moved. It then moves every entry of every table and nothing else, and the movie it leaves
   has the same tables.
   */
  lemma OffsetsMovedExactly(b: seq<byte>, o: nat, end: nat, delta: nat)
    requires end <= |b| && Patch(b, o, end, delta) != Overflow
    ensures Patch(b, o, end, delta).Done? <==>
            Slots(b, o, end).Some? && AllMovable(b, Slots(b, o, end).value, delta)
    ensures Patch(b, o, end, delta).Done? ==> MovedMovie(b, Patch(b, o, end, delta).bytes, o, end, delta)
  {
    hide Patch, Slots, MoveAll, Laid, AllMovable, AllMoved, InSlot;
    PatchMoves(b, o, end, delta);
    if Slots(b, o, end).Some? {
      var l := Slots(b, o, end).value;
      MoveExactly(b, l, delta);
      if MoveAll(b, l, delta).Some? {
        var c := MoveAll(b, l, delta).value;
        forall x: nat | x < |b| && !InSlot(l, x) ensures b[x] == c[x] { MoveFrame(b, l, delta, x); }
        SlotsKept(b, c, o, end, l);
      }
    }
  }

  /** From `p` on no eight bytes hold a number that could carry an address over the largest `Long`. */
  ghost predicate Modest(b: seq<byte>, p: nat) {
    forall x: nat | p <= x && x + 8 <= |b| :: Number(b, x, 8) >= TWO_63 || Number(b, x, 8) + |b| < TWO_63
  }

  lemma ModestHeader(b: seq<byte>, o: nat)
    requires o + 8 <= |b| < TWO_31 && Modest(b, o) && ReadHeader(b, o).Some?
    ensures o + ReadHeader(b, o).value.size < TWO_63
  {
    Pow256Small();
    hide Number;
  }

  lemma ModestLater(b: seq<byte>, c: seq<byte>, o: nat, e: nat)
    requires Modest(b, o) && o <= e && Same(b, c, e, |b|)
    ensures Modest(c, e)
  {
    hide Number;
    forall x: nat | e <= x && x + 8 <= |c| ensures Number(c, x, 8) >= TWO_63 || Number(c, x, 8) + |c| < TWO_63 {
      NumberSame(b, c, x, 8);
    }
  }

  /** Without such numbers the walk does not overflow. */
  lemma {:induction false} ModestNeverOverflows(b: seq<byte>, o: nat, end: nat, delta: nat)
    requires end <= |b| < TWO_31 && Modest(b, o)
    ensures Patch(b, o, end, delta) != Overflow
    decreases Extent(o, end)
  {
    hide Patch, PatchTable, PatchBox, BoxSlots, Kind, Number, ReadHeader, Modest, Same, MoveAll;
    Step(b, o, end, delta);
    if o + 8 <= end && ReadHeader(b, o).Some? {
      ModestHeader(b, o);
      var h := ReadHeader(b, o).value;
      if h.size >= h.length && o + h.size <= end {
        var s, e, kind := o + h.length, o + h.size, Kind(b, o);
        BoxStep(b, kind, s, e, delta);
        if kind in CONTAINERS {
          var s' := if kind == META then s + 4 else s;
          SameAll(b);
          ModestLater(b, b, o, s');
          ModestNeverOverflows(b, s', e, delta);
        }
        BoxMoves(b, kind, s, e, delta);
        var r := PatchBox(b, kind, s, e, delta);
        if r.Done? {
          BoxFrame(b, kind, s, e, delta);
          ModestLater(b, r.bytes, o, e);
          ModestNeverOverflows(r.bytes, e, end, delta);
        }
      }
    }
  }

  lemma SameAll(b: seq<byte>)
    ensures forall p :: Same(b, b, p, |b|)
  {}
}
