/**
 Movies as trees of boxes (sections 4.2 and 8.7.5 of ISO/IEC 14496-12), written out to bytes: what the walk
 over nested boxes does to such bytes is what moving the entries does to the tree.
 */
module MovieTrees {
  import opened Bytes
  import opened ChunkOffsets
  import opened ChunkTables

  /** The boxes the walk descends into. */
  datatype Container = Moov | Trak | Mdia | Minf | Stbl | Edts | Dinf | Udta | Meta

  type fourcc = s: seq<byte> | |s| == 4 witness [0, 0, 0, 0]

  /** Four characters as bytes. */
  function Code(a: char, b: char, c: char, d: char): (r: fourcc)
    requires a < '\U{100}' && b < '\U{100}' && c < '\U{100}' && d < '\U{100}'
  {
    [a as int, b as int, c as int, d as int]
  }

  function Name(c: Container): (r: fourcc) {
    match c
    case Moov => Code('m', 'o', 'o', 'v')
    case Trak => Code('t', 'r', 'a', 'k')
    case Mdia => Code('m', 'd', 'i', 'a')
    case Minf => Code('m', 'i', 'n', 'f')
    case Stbl => Code('s', 't', 'b', 'l')
    case Edts => Code('e', 'd', 't', 's')
    case Dinf => Code('d', 'i', 'n', 'f')
    case Udta => Code('u', 'd', 't', 'a')
    case Meta => Code('m', 'e', 't', 'a')
  }

  /** `flags`: version and flags in front of a table or of the children of `meta`. `long`: a 64-bit length. */
  datatype Box =
    | Node(name: Container, long: bool, flags: seq<byte>, children: seq<Box>)
    | Table(wide: bool, long: bool, flags: seq<byte>, entries: seq<nat>)
    | Leaf(kind: fourcc, long: bool, payload: seq<byte>)

  function TableName(wide: bool): fourcc { if wide then Code('c', 'o', '6', '4') else Code('s', 't', 'c', 'o') }

  function TypeOf(x: Box): fourcc {
    match x
    case Node(name, _, _, _) => Name(name)
    case Table(wide, _, _, _) => TableName(wide)
    case Leaf(kind, _, _) => kind
  }

  // ----- the bytes of a tree -----

  function EntryWidth(wide: bool): (w: nat) { if wide then 8 else 4 }

  function EntryBytes(entries: seq<nat>, wide: bool): (s: seq<byte>)
    ensures |s| == |entries| * EntryWidth(wide)
  {
    if entries == [] then [] else ToBE(entries[0], EntryWidth(wide)) + EntryBytes(entries[1..], wide)
  }

  function HeadLength(long: bool): nat { if long then 16 else 8 }

  /** The header of a box with a body of `n` bytes. */
  function Head(kind: fourcc, long: bool, n: nat): (s: seq<byte>)
    ensures |s| == HeadLength(long)
  {
    if long then ToBE(1, 4) + (kind + ToBE(16 + n, 8)) else ToBE(8 + n, 4) + kind
  }

  /** What stands in front of the children, or of the entries. */
  function Lead(x: Box): seq<byte> {
    match x
    case Node(_, _, flags, _) => flags
    case Table(_, _, flags, entries) => flags + ToBE(|entries|, 4)
    case Leaf(_, _, _) => []
  }

  function Inner(x: Box): seq<byte>
    decreases x, 0
  {
    match x
    case Node(_, _, _, children) => ForestBytes(children)
    case Table(wide, _, _, entries) => EntryBytes(entries, wide)
    case Leaf(_, _, payload) => payload
  }

  /** The header, and what stands in front of the inner part. */
  function Front(x: Box): (s: seq<byte>)
    decreases x, 1
  {
    Head(TypeOf(x), x.long, |Lead(x)| + |Inner(x)|) + Lead(x)
  }

  function BoxBytes(x: Box): (s: seq<byte>)
    decreases x, 2
  {
    Front(x) + Inner(x)
  }

  function ForestBytes(l: seq<Box>): (s: seq<byte>)
    decreases l
  {
    if l == [] then [] else BoxBytes(l[0]) + ForestBytes(l[1..])
  }

  /** Lengths, counts and entries fit their fields, `meta` and tables have their flags, and leaves are neither. */
  predicate BoxFits(x: Box)
    decreases x, 0
  {
    && HeadLength(x.long) + |Lead(x)| + |Inner(x)| < (if x.long then TWO_63 else TWO_32)
    && match x
       case Node(name, _, flags, children) => |flags| == (if name == Meta then 4 else 0) && Fits(children)
       case Table(wide, _, flags, entries) =>
         |flags| == 4 && |entries| < TWO_31 && forall e | e in entries :: e < if wide then TWO_64 else TWO_32
       case Leaf(kind, _, _) =>
         (forall c :: kind != Name(c)) && kind != TableName(false) && kind != TableName(true)
  }

  predicate Fits(l: seq<Box>)
    decreases l
  {
    l == [] || (BoxFits(l[0]) && Fits(l[1..]))
  }

  // ----- moving the entries of a tree -----

  /** Four bytes stay below 2^32; eight bytes are a `Long`, which wraps around and may not become negative. */
  function MovedEntry(wide: bool, e: nat, delta: nat): Option<nat> {
    if wide then (if (e + delta) % TWO_64 < TWO_63 then Some((e + delta) % TWO_64) else None)
    else if e + delta < TWO_32 then Some(e + delta) else None
  }

  function MovedEntries(entries: seq<nat>, wide: bool, delta: nat): (r: Option<seq<nat>>)
    ensures r.Some? ==> |r.value| == |entries|
  {
    if entries == [] then Some([])
    else
      var e, rest := MovedEntry(wide, entries[0], delta), MovedEntries(entries[1..], wide, delta);
      if e.None? || rest.None? then None else Some([e.value] + rest.value)
  }

  function MovedBox(x: Box, delta: nat): (r: Option<Box>)
    decreases x, 0
  {
    match x
    case Node(_, _, _, children) =>
      var m := MovedForest(children, delta);
      if m.None? then None else Some(x.(children := m.value))
    case Table(wide, _, _, entries) =>
      var m := MovedEntries(entries, wide, delta);
      if m.None? then None else Some(x.(entries := m.value))
    case Leaf(_, _, _) => Some(x)
  }

  /** The same tree with every entry of every table moved; `None` where one does not fit. */
  function MovedForest(l: seq<Box>, delta: nat): (r: Option<seq<Box>>)
    ensures r.Some? ==> |r.value| == |l|
    decreases l
  {
    if l == [] then Some([])
    else
      var x, rest := MovedBox(l[0], delta), MovedForest(l[1..], delta);
      if x.None? || rest.None? then None else Some([x.value] + rest.value)
  }

  lemma ForestCons(x: Box, rest: seq<Box>)
    ensures ForestBytes([x] + rest) == BoxBytes(x) + ForestBytes(rest)
  {
    assert ([x] + rest)[1..] == rest;
  }

  /** Moving entries changes no length: the front of every box stays what it is. */
  lemma {:induction false} MovedBoxShape(x: Box, delta: nat)
    requires MovedBox(x, delta).Some?
    ensures var y := MovedBox(x, delta).value; |Inner(y)| == |Inner(x)| && Front(y) == Front(x) && TypeOf(y) == TypeOf(x)
    decreases x, 0
  {
    if x.Node? { MovedShape(x.children, delta); }
  }

  lemma {:induction false} MovedShape(l: seq<Box>, delta: nat)
    requires MovedForest(l, delta).Some?
    ensures |ForestBytes(MovedForest(l, delta).value)| == |ForestBytes(l)|
    decreases l
  {
    if l != [] {
      hide Front, Inner, MovedBox;
      MovedBoxShape(l[0], delta);
      MovedShape(l[1..], delta);
      ForestCons(MovedBox(l[0], delta).value, MovedForest(l[1..], delta).value);
    }
  }

  // ----- reading a header that was written -----

  lemma KindsKnown(c: Container)
    ensures Name(c) in CONTAINERS && !IsTable(Name(c)) && (Name(c) == META <==> c == Meta)
  {
    assert Name(c)[0] in {109, 116, 115, 101, 100, 117};
    match c {
      case Moov => assert Name(c) == [109, 111, 111, 118];
      case Trak => assert Name(c) == [116, 114, 97, 107];
      case Mdia => assert Name(c) == [109, 100, 105, 97];
      case Minf => assert Name(c) == [109, 105, 110, 102];
      case Stbl => assert Name(c) == [115, 116, 98, 108]; assert Name(c)[2] != STCO[2];
      case Edts => assert Name(c) == [101, 100, 116, 115];
      case Dinf => assert Name(c) == [100, 105, 110, 102];
      case Udta => assert Name(c) == [117, 100, 116, 97];
      case Meta => assert Name(c) == [109, 101, 116, 97];
    }
  }

  lemma TablesKnown()
    ensures TableName(false) == STCO && TableName(true) == CO64 && STCO != CO64
    ensures STCO !in CONTAINERS && CO64 !in CONTAINERS
  {
    assert STCO[0] == 115 && CO64[0] == 99;
    assert forall c | c in CONTAINERS :: c[0] != 99 && (c[0] != 115 || c[2] != 99);
  }

  lemma OthersUnknown(kind: fourcc)
    requires forall c :: kind != Name(c)
    ensures kind !in CONTAINERS
  {
    assert kind != Name(Moov) && kind != Name(Trak) && kind != Name(Mdia) && kind != Name(Minf) && kind != Name(Stbl);
    assert kind != Name(Edts) && kind != Name(Dinf) && kind != Name(Udta) && kind != Name(Meta);
  }

  lemma AtSlice(b: seq<byte>, i: nat, s: seq<byte>)
    requires At(b, i, s)
    ensures i + |s| <= |b| && b[i..i + |s|] == s
  {}

  lemma HeadIsRead(b: seq<byte>, o: nat, kind: fourcc, long: bool, n: nat)
    requires At(b, o, Head(kind, long, n)) && HeadLength(long) + n < if long then TWO_63 else TWO_32
    ensures o + HeadLength(long) <= |b| && Kind(b, o) == kind
    ensures ReadHeader(b, o) == Some(Header(HeadLength(long), HeadLength(long) + n))
  {
    Pow256Small();
    hide FromBE, ToBE, Pow256, At;
    if long {
      BigEndianRoundTrip(16 + n, 8);
      BigEndianRoundTrip(1, 4);
      LongHeadParts(b, o, kind, ToBE(1, 4), ToBE(16 + n, 8));
    } else {
      BigEndianRoundTrip(8 + n, 4);
      AtSplit(b, o, ToBE(8 + n, 4), kind);
      AtSlice(b, o, ToBE(8 + n, 4));
      AtSlice(b, o + 4, kind);
    }
  }

  lemma LongHeadParts(b: seq<byte>, o: nat, kind: fourcc, one: seq<byte>, length: seq<byte>)
    requires At(b, o, one + (kind + length)) && |one| == 4 && |length| == 8
    ensures o + 16 <= |b| && b[o..o + 4] == one && b[o + 4..o + 8] == kind && b[o + 8..o + 16] == length
  {
    AtSplit(b, o, one, kind + length);
    AtSplit(b, o + 4, kind, length);
  }

  // ----- writing in place -----

  lemma PutAt(b: seq<byte>, p: nat, e: seq<byte>)
    requires p + |e| <= |b|
    ensures At(Put(b, p, e), p, e) && |Put(b, p, e)| == |b|
  {}

  lemma PutElsewhere(b: seq<byte>, p: nat, e: seq<byte>, q: nat, s: seq<byte>)
    requires p + |e| <= |b| && At(b, q, s) && (q + |s| <= p || p + |e| <= q)
    ensures At(Put(b, p, e), q, s)
  {}

  lemma PutSame(b: seq<byte>, p: nat, e: seq<byte>)
    requires At(b, p, e)
    ensures Put(b, p, e) == b
  {}

  /** Writing two parts, one behind the other, is writing both. */
  lemma PutBoth(b: seq<byte>, p: nat, x: seq<byte>, y: seq<byte>)
    requires p + |x| + |y| <= |b|
    ensures Put(Put(b, p, x), p + |x|, y) == Put(b, p, x + y)
  {
    var c := Put(b, p, x);
    assert c[..p + |x|] == b[..p] + x;
    assert c[p + |x| + |y|..] == b[p + |x| + |y|..];
    assert b[..p] + (x + y) == (b[..p] + x) + y;
  }

  /** Where the first part stands already, writing the second is writing both. */
  lemma PutSecond(b: seq<byte>, p: nat, x: seq<byte>, y: seq<byte>)
    requires At(b, p, x) && p + |x| + |y| <= |b|
    ensures Put(b, p + |x|, y) == Put(b, p, x + y)
  {
    hide Put, At;
    PutSame(b, p, x);
    AtSlice(b, p, x);
    PutBoth(b, p, x, y);
  }

  // ----- the walk on the bytes of a tree -----

  lemma EntryIs(wide: bool, e: nat, delta: nat)
    requires e < (if wide then TWO_64 else TWO_32) && delta < TWO_63
    ensures Moved(EntryWidth(wide), e, delta) == MovedEntry(wide, e, delta)
  {
    if e + delta >= TWO_64 { assert (e + delta) % TWO_64 == e + delta - TWO_64; }
  }

  lemma {:induction false} EntriesPatched(b: seq<byte>, p: nat, entries: seq<nat>, wide: bool, delta: nat)
    requires At(b, p, EntryBytes(entries, wide)) && delta < TWO_63
    requires forall e | e in entries :: e < if wide then TWO_64 else TWO_32
    ensures p + |entries| * EntryWidth(wide) <= |b|
    ensures PatchEntries(b, p, |entries|, EntryWidth(wide), delta)
         == match MovedEntries(entries, wide, delta)
            case None => None
            case Some(m) => Some(Put(b, p, EntryBytes(m, wide)))
    decreases |entries|
  {
    var w := EntryWidth(wide);
    hide Number, Moved, MovedEntry, At, Put, PatchEntries, ToBE;
    AtSlice(b, p, EntryBytes(entries, wide));
    EntryStep(b, p, |entries|, w, delta);
    if entries == [] {
      PutSame(b, p, []);
    } else {
      var e, rest := entries[0], entries[1..];
      assert e in entries && forall d | d in rest :: d in entries;
      AtSplit(b, p, ToBE(e, w), EntryBytes(rest, wide));
      EntryRead(b, p, e, wide, delta);
      var v := MovedEntry(wide, e, delta);
      if v.Some? {
        hide EntryWidth;
        EntriesBehind(b, p, v.value, rest, wide);
        EntriesPatched(Put(b, p, ToBE(v.value, w)), p + w, rest, wide, delta);
        var m := MovedEntries(rest, wide, delta);
        if m.Some? { FirstEntryToo(b, p, v.value, m.value, wide); }
      }
    }
  }

  /** Writing an entry leaves the ones behind it. */
  lemma EntriesBehind(b: seq<byte>, p: nat, v: nat, rest: seq<nat>, wide: bool)
    requires p + EntryWidth(wide) <= |b| && At(b, p + EntryWidth(wide), EntryBytes(rest, wide))
    ensures At(Put(b, p, ToBE(v, EntryWidth(wide))), p + EntryWidth(wide), EntryBytes(rest, wide))
  {
    hide Put, At, EntryBytes;
    PutElsewhere(b, p, ToBE(v, EntryWidth(wide)), p + EntryWidth(wide), EntryBytes(rest, wide));
  }

  lemma FirstEntryToo(b: seq<byte>, p: nat, v: nat, m: seq<nat>, wide: bool)
    requires p + EntryWidth(wide) + |m| * EntryWidth(wide) <= |b|
    ensures p + |EntryBytes([v] + m, wide)| <= |b|
    ensures Put(Put(b, p, ToBE(v, EntryWidth(wide))), p + EntryWidth(wide), EntryBytes(m, wide))
         == Put(b, p, EntryBytes([v] + m, wide))
  {
    hide Put, ToBE;
    assert ([v] + m)[1..] == m;
    PutBoth(b, p, ToBE(v, EntryWidth(wide)), EntryBytes(m, wide));
  }

  lemma EntryRead(b: seq<byte>, p: nat, e: nat, wide: bool, delta: nat)
    requires At(b, p, ToBE(e, EntryWidth(wide))) && e < (if wide then TWO_64 else TWO_32) && delta < TWO_63
    ensures p + EntryWidth(wide) <= |b| && Number(b, p, EntryWidth(wide)) == e
    ensures MovedAt(b, p, EntryWidth(wide), delta) == MovedEntry(wide, e, delta)
  {
    Pow256Small();
    BigEndianRoundTrip(e, EntryWidth(wide));
    EntryIs(wide, e, delta);
  }

  /** A table, where it stands with its flags and its count. */
  lemma TablePatched(b: seq<byte>, s: nat, e: nat, x: Box, delta: nat)
    requires x.Table? && BoxFits(x) && At(b, s, Lead(x)) && At(b, s + |Lead(x)|, Inner(x)) && delta < TWO_63
    requires s + |Lead(x)| + |Inner(x)| == e <= |b|
    ensures |Lead(x)| == 8
    ensures var m := MovedEntries(x.entries, x.wide, delta);
            && (m.None? ==> PatchTable(b, s, e, EntryWidth(x.wide), delta) == None)
            && (m.Some? ==> s + 8 + |EntryBytes(m.value, x.wide)| == e
                            && PatchTable(b, s, e, EntryWidth(x.wide), delta) == Some(Put(b, s + 8, EntryBytes(m.value, x.wide))))
  {
    hide *;
    TableParts(x);
    MovedLength(x.entries, x.wide, delta);
    CountRead(b, s, x.flags, |x.entries|);
    TableStep(b, s, e, |x.entries|, EntryWidth(x.wide), delta);
    EntriesPatched(b, s + 8, x.entries, x.wide, delta);
  }

  lemma MovedLength(entries: seq<nat>, wide: bool, delta: nat)
    ensures match MovedEntries(entries, wide, delta)
            case None => true
            case Some(m) => |EntryBytes(m, wide)| == |EntryBytes(entries, wide)| == |entries| * EntryWidth(wide)
  {
    hide EntryWidth, EntryBytes;
  }

  lemma TableParts(x: Box)
    requires x.Table? && BoxFits(x)
    ensures Lead(x) == x.flags + ToBE(|x.entries|, 4) && Inner(x) == EntryBytes(x.entries, x.wide)
    ensures |x.flags| == 4 && |Lead(x)| == 8 && |x.entries| < TWO_31 < TWO_32 && EntryWidth(x.wide) in {4, 8}
    ensures forall e | e in x.entries :: e < if x.wide then TWO_64 else TWO_32
  {}

  /** A table whose count fills its box. */
  lemma TableStep(b: seq<byte>, s: nat, e: nat, n: nat, width: nat, delta: nat)
    requires width in {4, 8} && s + 8 + n * width == e <= |b| && Number(b, s + 4, 4) == n < TWO_31
    ensures PatchTable(b, s, e, width, delta) == PatchEntries(b, s + 8, n, width, delta)
  {
    hide PatchEntries, Number;
  }

  lemma CountRead(b: seq<byte>, s: nat, flags: seq<byte>, n: nat)
    requires At(b, s, flags + ToBE(n, 4)) && |flags| == 4 && n < TWO_32
    ensures s + 8 <= |b| && Number(b, s + 4, 4) == n
  {
    AtSplit(b, s, flags, ToBE(n, 4));
    AtSlice(b, s + 4, ToBE(n, 4));
    Pow256Small();
    BigEndianRoundTrip(n, 4);
    hide At, FromBE, ToBE;
  }

  lemma PartsOf(x: Box)
    ensures BoxBytes(x) == Front(x) + Inner(x) && |Front(x)| == HeadLength(x.long) + |Lead(x)|
    ensures Front(x) == Head(TypeOf(x), x.long, |Lead(x)| + |Inner(x)|) + Lead(x)
  {}

  lemma ForestIs(l: seq<Box>)
    requires l != []
    ensures ForestBytes(l) == BoxBytes(l[0]) + ForestBytes(l[1..])
  {}

  lemma ForestHead(b: seq<byte>, o: nat, l: seq<Box>)
    requires l != [] && At(b, o, ForestBytes(l))
    ensures At(b, o, BoxBytes(l[0])) && At(b, o + |BoxBytes(l[0])|, ForestBytes(l[1..]))
  {
    hide *;
    ForestIs(l);
    AtSplit(b, o, BoxBytes(l[0]), ForestBytes(l[1..]));
  }

  lemma BoxHead(b: seq<byte>, o: nat, x: Box)
    requires At(b, o, BoxBytes(x))
    ensures |BoxBytes(x)| == |Front(x)| + |Inner(x)| && o + |BoxBytes(x)| <= |b|
    ensures |Front(x)| == HeadLength(x.long) + |Lead(x)|
    ensures At(b, o, Front(x)) && At(b, o + |Front(x)|, Inner(x))
    ensures At(b, o, Head(TypeOf(x), x.long, |Lead(x)| + |Inner(x)|)) && At(b, o + HeadLength(x.long), Lead(x))
  {
    hide *;
    PartsOf(x);
    AtSplit(b, o, Front(x), Inner(x));
    AtSlice(b, o, BoxBytes(x));
    FrontHead(b, o, x);
  }

  lemma FrontHead(b: seq<byte>, o: nat, x: Box)
    requires At(b, o, Front(x))
    ensures At(b, o, Head(TypeOf(x), x.long, |Lead(x)| + |Inner(x)|)) && At(b, o + HeadLength(x.long), Lead(x))
  {
    hide *;
    PartsOf(x);
    AtSplit(b, o, Head(TypeOf(x), x.long, |Lead(x)| + |Inner(x)|), Lead(x));
  }

  /** The body of one box. */
  lemma {:induction false} BoxPatched(b: seq<byte>, s: nat, x: Box, delta: nat)
    requires BoxFits(x) && At(b, s, Lead(x)) && At(b, s + |Lead(x)|, Inner(x)) && delta < TWO_63
    requires s + |Lead(x)| + |Inner(x)| <= |b| < TWO_63
    ensures MovedBox(x, delta).Some? ==> |Inner(MovedBox(x, delta).value)| == |Inner(x)|
    ensures PatchBox(b, TypeOf(x), s, s + |Lead(x)| + |Inner(x)|, delta)
         == match MovedBox(x, delta)
            case None => Refused
            case Some(y) => Done(Put(b, s + |Lead(x)|, Inner(y)))
    decreases x, 0
  {
    var e := s + |Lead(x)| + |Inner(x)|;
    hide PatchBox, Patch, PatchTable, At, Put, IsTable;
    if MovedBox(x, delta).Some? { MovedBoxShape(x, delta); }
    BoxStep(b, TypeOf(x), s, e, delta);
    TablesKnown();
    match x
    case Node(name, _, flags, children) =>
      KindsKnown(name);
      ForestPatched(b, s + |flags|, children, delta);
    case Table(wide, _, _, entries) =>
      TablePatched(b, s, e, x, delta);
    case Leaf(kind, _, payload) =>
      OthersUnknown(kind);
      PutSame(b, s, payload);
  }

  lemma FitsHead(x: Box)
    requires BoxFits(x)
    ensures HeadLength(x.long) + (|Lead(x)| + |Inner(x)|) < if x.long then TWO_63 else TWO_32
    ensures x.Leaf? ==> |Lead(x)| == 0
  {}

  /** The front of a box stays, its inner part is written. */
  lemma BoxWritten(b: seq<byte>, o: nat, x: Box, y: Box, c: seq<byte>)
    requires At(b, o, Front(x)) && Front(y) == Front(x) && |Inner(y)| == |Inner(x)|
    requires o + |Front(x)| + |Inner(x)| <= |b| && c == Put(b, o + |Front(x)|, Inner(y))
    ensures |BoxBytes(y)| == |BoxBytes(x)| && c == Put(b, o, BoxBytes(y))
  {
    hide Front, Inner, Put;
    PutSecond(b, o, Front(x), Inner(y));
  }

  /**
   The walk over the bytes of a tree writes the bytes of the tree with every entry moved, at every depth; it is
   refused exactly when one of them cannot be moved, and it never overflows.
   */
  lemma {:induction false} ForestPatched(b: seq<byte>, o: nat, l: seq<Box>, delta: nat)
    requires Fits(l) && At(b, o, ForestBytes(l)) && delta < TWO_63 && o + |ForestBytes(l)| <= |b| < TWO_63
    ensures MovedForest(l, delta).Some? ==> |ForestBytes(MovedForest(l, delta).value)| == |ForestBytes(l)|
    ensures Patch(b, o, o + |ForestBytes(l)|, delta)
         == match MovedForest(l, delta)
            case None => Refused
            case Some(m) => Done(Put(b, o, ForestBytes(m)))
    decreases l
  {
    var end := o + |ForestBytes(l)|;
    hide Patch, PatchBox, At, Put, ReadHeader, Kind, MovedBox, Head, Lead, Inner, TypeOf, Front, BoxBytes;
    Step(b, o, end, delta);
    if l == [] {
      PutSame(b, o, []);
    } else {
      var x, rest := l[0], l[1..];
      ForestHead(b, o, l);
      BoxHead(b, o, x);
      FitsHead(x);
      HeadIsRead(b, o, TypeOf(x), x.long, |Lead(x)| + |Inner(x)|);
      var s, e := o + HeadLength(x.long), o + |BoxBytes(x)|;
      BoxPatched(b, s, x, delta);
      var y := MovedBox(x, delta);
      if y.Some? {
        MovedBoxShape(x, delta);
        var c := Put(b, s + |Lead(x)|, Inner(y.value));
        BoxWritten(b, o, x, y.value, c);
        PutElsewhere(b, s + |Lead(x)|, Inner(y.value), e, ForestBytes(rest));
        ForestPatched(c, e, rest, delta);
        var m := MovedForest(rest, delta);
        if m.Some? {
          MovedShape(rest, delta);
          PutBoth(b, o, BoxBytes(y.value), ForestBytes(m.value));
          ForestCons(y.value, m.value);
        }
      }
    }
  }

  // ----- the entries of a tree, where they stand -----

  function BoxSlotsAt(x: Box, s: nat): (l: seq<Slot>)
    decreases x, 0
  {
    match x
    case Node(_, _, _, children) => ForestSlotsAt(children, s)
    case Table(wide, _, _, entries) => Entries(s, |entries|, EntryWidth(wide))
    case Leaf(_, _, _) => []
  }

  /** The places of all entries of all tables, at every depth, when the boxes are written from `o` on. */
  function ForestSlotsAt(l: seq<Box>, o: nat): seq<Slot>
    decreases l
  {
    if l == [] then []
    else BoxSlotsAt(l[0], o + |Front(l[0])|) + ForestSlotsAt(l[1..], o + |BoxBytes(l[0])|)
  }

  function BoxEntries(x: Box): seq<nat>
    decreases x, 0
  {
    match x
    case Node(_, _, _, children) => ForestEntries(children)
    case Table(_, _, _, entries) => entries
    case Leaf(_, _, _) => []
  }

  /** The entries of all tables, in the order of the bytes. */
  function ForestEntries(l: seq<Box>): seq<nat>
    decreases l
  {
    if l == [] then [] else BoxEntries(l[0]) + ForestEntries(l[1..])
  }

  /** At the places of `l` stand the numbers of `v`. */
  ghost predicate Holds(b: seq<byte>, l: seq<Slot>, v: seq<nat>) {
    |l| == |v| && forall i | 0 <= i < |l| :: SlotValue(b, l[i]) == Some(v[i])
  }

  lemma HoldsAppend(b: seq<byte>, l: seq<Slot>, v: seq<nat>, k: seq<Slot>, w: seq<nat>)
    requires Holds(b, l, v) && Holds(b, k, w)
    ensures Holds(b, l + k, v + w)
  {
    hide SlotValue;
  }

  lemma {:induction false} EntriesHeld(b: seq<byte>, p: nat, entries: seq<nat>, wide: bool)
    requires At(b, p, EntryBytes(entries, wide))
    requires forall e | e in entries :: e < if wide then TWO_64 else TWO_32
    ensures Holds(b, Entries(p, |entries|, EntryWidth(wide)), entries)
    decreases |entries|
  {
    hide At, ToBE, Number, EntryWidth, SlotValue;
    if entries != [] {
      var e, rest, w := entries[0], entries[1..], EntryWidth(wide);
      assert e in entries && forall d | d in rest :: d in entries;
      AtSplit(b, p, ToBE(e, w), EntryBytes(rest, wide));
      EntryHeld(b, p, e, wide);
      EntriesHeld(b, p + w, rest, wide);
      HoldsAppend(b, [Slot(p, w)], [e], Entries(p + w, |rest|, w), rest);
      assert entries == [e] + rest;
    }
  }

  lemma EntryHeld(b: seq<byte>, p: nat, e: nat, wide: bool)
    requires At(b, p, ToBE(e, EntryWidth(wide))) && e < if wide then TWO_64 else TWO_32
    ensures Holds(b, [Slot(p, EntryWidth(wide))], [e])
  {
    hide At, ToBE, Number, EntryWidth;
    EntryRead(b, p, e, wide, 0);
  }

  lemma TableListed(b: seq<byte>, s: nat, e: nat, x: Box)
    requires x.Table? && BoxFits(x) && At(b, s, Lead(x)) && At(b, s + |Lead(x)|, Inner(x))
    requires s + |Lead(x)| + |Inner(x)| == e <= |b|
    ensures |Lead(x)| == 8 && TableSlots(b, s, e, EntryWidth(x.wide)) == Some(Entries(s + 8, |x.entries|, EntryWidth(x.wide)))
    ensures Holds(b, Entries(s + 8, |x.entries|, EntryWidth(x.wide)), x.entries)
  {
    hide *;
    TableParts(x);
    CountRead(b, s, x.flags, |x.entries|);
    TableSlotsAre(b, s, e, |x.entries|, EntryWidth(x.wide));
    EntriesHeld(b, s + 8, x.entries, x.wide);
  }

  lemma TableSlotsAre(b: seq<byte>, s: nat, e: nat, n: nat, width: nat)
    requires s + 8 + n * width == e <= |b| && Number(b, s + 4, 4) == n < TWO_31
    ensures TableSlots(b, s, e, width) == Some(Entries(s + 8, n, width))
  {
    hide Number;
  }

  lemma SlotsStep(b: seq<byte>, o: nat, end: nat, h: Header)
    requires o + 8 <= end <= |b| && ReadHeader(b, o) == Some(h) && h.length <= h.size && o + h.size <= end && o + h.size < TWO_63
    ensures var own, rest := BoxSlots(b, Kind(b, o), o + h.length, o + h.size), Slots(b, o + h.size, end);
            Slots(b, o, end) == if own.None? || rest.None? then None else Some(own.value + rest.value)
  {
    hide ReadHeader, Kind, BoxSlots;
  }

  lemma BoxSlotsAre(b: seq<byte>, kind: seq<byte>, s: nat, e: nat)
    requires e <= |b|
    ensures BoxSlots(b, kind, s, e) ==
            if kind == STCO then TableSlots(b, s, e, 4)
            else if kind == CO64 then TableSlots(b, s, e, 8)
            else if kind in CONTAINERS then Slots(b, if kind == META then s + 4 else s, e)
            else Some([])
  {
    hide TableSlots, Slots;
  }

  lemma {:induction false} BoxListed(b: seq<byte>, s: nat, x: Box)
    requires BoxFits(x) && At(b, s, Lead(x)) && At(b, s + |Lead(x)|, Inner(x))
    requires s + |Lead(x)| + |Inner(x)| <= |b| < TWO_63
    ensures BoxSlots(b, TypeOf(x), s, s + |Lead(x)| + |Inner(x)|) == Some(BoxSlotsAt(x, s + |Lead(x)|))
    ensures Holds(b, BoxSlotsAt(x, s + |Lead(x)|), BoxEntries(x))
    decreases x, 0
  {
    var e := s + |Lead(x)| + |Inner(x)|;
    hide BoxSlots, Slots, TableSlots, At, Entries, SlotValue;
    BoxSlotsAre(b, TypeOf(x), s, e);
    TablesKnown();
    match x
    case Node(name, _, flags, children) =>
      KindsKnown(name);
      ForestListed(b, s + |flags|, children);
    case Table(wide, _, _, entries) =>
      TableListed(b, s, e, x);
    case Leaf(kind, _, payload) =>
      OthersUnknown(kind);
  }

  /**
   The entries found in the bytes of a tree are exactly the entries of its tables, at every depth and in order,
   and at their places stand their numbers.
   */
  lemma {:induction false} ForestListed(b: seq<byte>, o: nat, l: seq<Box>)
    requires Fits(l) && At(b, o, ForestBytes(l)) && o + |ForestBytes(l)| <= |b| < TWO_63
    ensures Slots(b, o, o + |ForestBytes(l)|) == Some(ForestSlotsAt(l, o))
    ensures Holds(b, ForestSlotsAt(l, o), ForestEntries(l))
    decreases l
  {
    hide At, ReadHeader, Kind, Head, Lead, Inner, TypeOf, Front, BoxBytes, BoxSlots, BoxSlotsAt, BoxEntries, SlotValue, BoxFits;
    if l != [] {
      hide Slots;
      var x, rest := l[0], l[1..];
      var end := o + |ForestBytes(l)|;
      ForestHead(b, o, l);
      BoxHead(b, o, x);
      FitsHead(x);
      HeadIsRead(b, o, TypeOf(x), x.long, |Lead(x)| + |Inner(x)|);
      var s, e := o + HeadLength(x.long), o + |BoxBytes(x)|;
      BoxListed(b, s, x);
      ForestListed(b, e, rest);
      SlotsStep(b, o, end, ReadHeader(b, o).value);
      HoldsAppend(b, BoxSlotsAt(x, o + |Front(x)|), BoxEntries(x), ForestSlotsAt(rest, e), ForestEntries(rest));
    }
  }
}
