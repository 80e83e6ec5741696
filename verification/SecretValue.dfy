/**
 The native value tree of the Flutter codec: marked nodes wipe their bytes when they are
 cleared, overwritten or destroyed.
 */
module SecretValue {
  import opened Bytes

  datatype Data =
    | Null
    | Bool(b: bool)
    | Int(i: int)
    | Text(chars: array<byte>)
    | Blob(bytes: array<byte>)
    | List(items: seq<Value>)

  ghost predicate Zero(a: array<byte>)
    reads a
  {
    forall i | 0 <= i < a.Length :: a[i] == 0
  }

  ghost function AllNodes(items: seq<Value>): set<Value>
    reads items
  {
    if items == [] then {} else AllNodes(items[..|items| - 1]) + items[|items| - 1].nodes
  }

  ghost function AllBufs(items: seq<Value>): set<array<byte>>
    reads items
  {
    if items == [] then {} else AllBufs(items[..|items| - 1]) + items[|items| - 1].bufs
  }

  /** Trees that share nothing and make up exactly `below` and `buffers`. */
  ghost predicate Apart(items: seq<Value>, below: set<Value>, buffers: set<array<byte>>)
    reads items
  {
    && (forall i | 0 <= i < |items| ::
          items[i] in items[i].nodes && items[i].nodes <= below && items[i].bufs <= buffers)
    && (forall i, j | 0 <= i < j < |items| ::
          items[i].nodes !! items[j].nodes && items[i].bufs !! items[j].bufs)
    && below == AllNodes(items) && buffers == AllBufs(items)
  }

  /** Nothing is left below `v`: no non-zero byte and no mark. */
  ghost predicate Cleared(v: Value)
    reads v, v.nodes, v.bufs
  {
    (forall b | b in v.bufs :: Zero(b)) && (forall w | w in v.nodes :: !w.sensitive)
  }

  class Value {
    var data: Data
    var sensitive: bool

    /** All nodes and all buffers of the tree below and including this node. */
    ghost var nodes: set<Value>
    ghost var bufs: set<array<byte>>

    ghost predicate Valid()
      reads this, nodes
      decreases nodes
    {
      && this in nodes
      && match data
         case Text(a) => nodes == {this} && bufs == {a}
         case Blob(a) => nodes == {this} && bufs == {a}
         case List(items) =>
           && (forall i | 0 <= i < |items| ::
                 && items[i] in nodes && items[i].nodes < nodes && this !in items[i].nodes
                 && items[i].bufs <= bufs && items[i].Valid())
           && (forall i, j | 0 <= i < j < |items| ::
                 items[i].nodes !! items[j].nodes && items[i].bufs !! items[j].bufs)
           && (forall w | w in nodes :: w == this || exists i :: 0 <= i < |items| && w in items[i].nodes)
           && (forall b | b in bufs :: exists i :: 0 <= i < |items| && b in items[i].bufs)
         case _ => nodes == {this} && bufs == {}
    }

    /** The tree has the same nodes, buffers and links as before; flags and bytes may differ. */
    twostate predicate SameShape()
      reads this, nodes
    {
      && data == old(data) && nodes == old(nodes) && bufs == old(bufs)
      && forall w | w in old(nodes) :: w.data == old(w.data) && w.nodes == old(w.nodes) && w.bufs == old(w.bufs)
    }

    twostate lemma {:induction false} ShapeKeepsValid()
      requires old(Valid()) && SameShape()
      ensures Valid()
      decreases old(nodes)
    {
      if data.List? {
        forall i | 0 <= i < |data.items| ensures data.items[i].Valid() {
          assert forall w | w in old(data.items[i].nodes) :: w in old(nodes);
          data.items[i].ShapeKeepsValid();
        }
      }
    }

    /** Every node of the tree is valid, and owns only buffers of the tree. */
    lemma {:induction false} NodesValid(w: Value)
      requires Valid() && w in nodes
      ensures w.Valid() && w.nodes <= nodes && w.bufs <= bufs
      decreases nodes
    {
      if w != this {
        var i :| 0 <= i < |data.items| && w in data.items[i].nodes;
        data.items[i].NodesValid(w);
      }
    }

    /**
     `clear_sensitive`: a marked node zeroes every byte below it, including children that
     were never marked, and leaves no mark; an unmarked node changes nothing.
     */
    method ClearSensitive()
      requires Valid()
      modifies nodes, bufs
      ensures SameShape() && Valid()
      ensures old(sensitive) ==> (forall b | b in bufs :: Zero(b)) && (forall w | w in nodes :: !w.sensitive)
      ensures !old(sensitive) ==>
                (forall b | b in bufs :: b[..] == old(b[..]))
                && (forall w | w in nodes :: w.sensitive == old(w.sensitive))
      decreases nodes, 2
    {
      if !sensitive { return; }
      match data {
        case Text(a) => Wipe(a);
        case Blob(a) => Wipe(a);
        case List(items) => ClearItems(items);
        case _ =>
      }
      sensitive := false;
      ShapeKeepsValid();
    }

    /** How the children of a list lie in memory: inside the tree and apart from each other. */
    lemma Layout(items: seq<Value>)
      requires Valid() && data == List(items)
      ensures forall i | 0 <= i < |items| ::
                items[i] in nodes && items[i].nodes < nodes && this !in items[i].nodes
                && items[i].bufs <= bufs && items[i].Valid() && items[i] in items[i].nodes
      ensures forall i, j | 0 <= i < |items| && 0 <= j < |items| && i != j ::
                items[i].nodes !! items[j].nodes && items[i].bufs !! items[j].bufs
      ensures forall w | w in nodes :: w == this || exists i :: 0 <= i < |items| && w in items[i].nodes
      ensures forall b | b in bufs :: exists i :: 0 <= i < |items| && b in items[i].bufs
    {
      forall i, j | 0 <= i < |items| && 0 <= j < |items| && i != j
        ensures items[i].nodes !! items[j].nodes && items[i].bufs !! items[j].bufs
      {
        if j < i { assert items[j].nodes !! items[i].nodes; }
      }
    }

    /** The part of the layout that one round of a loop needs. */
    lemma LayoutOf(items: seq<Value>, k: nat)
      requires Valid() && data == List(items) && k < |items|
      ensures items[k].Valid() && items[k].nodes <= nodes - {this} && items[k].nodes < nodes && items[k].bufs <= bufs
    {
      hide Valid;
      Layout(items);
    }

    /** What the loop over the children does to each: mark, then clear. */
    method MarkAndClear()
      requires Valid()
      modifies nodes, bufs
      ensures SameShape() && Valid() && Cleared(this)
      decreases nodes, 3
    {
      sensitive := true;
      ShapeKeepsValid();
      ClearSensitive();
    }

    method ClearChild(k: nat)
      requires Valid() && data.List? && k < |data.items|
      modifies data.items[k].nodes, data.items[k].bufs
      ensures SameShape() && Valid() && Cleared(data.items[k])
      ensures forall j | 0 <= j < |data.items| && j != k && old(Cleared(data.items[j])) :: Cleared(data.items[j])
      decreases nodes, 0
    {
      hide Valid, Zero, Cleared;
      Layout(data.items);
      data.items[k].MarkAndClear();
      forall w | w in old(nodes)
        ensures w.data == old(w.data) && w.nodes == old(w.nodes) && w.bufs == old(w.bufs) {}
      ShapeKeepsValid();
    }

    /** The loop over the children. */
    method ClearItems(items: seq<Value>)
      requires Valid() && data == List(items)
      modifies nodes - {this}, bufs
      ensures SameShape() && sensitive == old(sensitive)
      ensures forall b | b in bufs :: Zero(b)
      ensures forall w | w in nodes && w != this :: !w.sensitive
      decreases nodes, 1
    {
      hide Valid, Zero, Cleared;
      for k := 0 to |items|
        invariant SameShape() && Valid() && sensitive == old(sensitive)
        invariant forall j | 0 <= j < k :: Cleared(items[j])
      {
        LayoutOf(items, k);
        ClearChild(k);
      }
      AllCleared(items);
    }

    lemma AllCleared(items: seq<Value>)
      requires Valid() && data == List(items) && forall j | 0 <= j < |items| :: Cleared(items[j])
      ensures forall b | b in bufs :: Zero(b)
      ensures forall w | w in nodes && w != this :: !w.sensitive
    {
      hide Valid, Zero;
      Layout(items);
      forall b | b in bufs ensures Zero(b) {
        var i :| 0 <= i < |items| && b in items[i].bufs;
        assert Cleared(items[i]);
      }
      forall w | w in nodes && w != this ensures !w.sensitive {
        var i :| 0 <= i < |items| && w in items[i].nodes;
        assert Cleared(items[i]);
      }
    }
  
    // ----- destruction -----

    /** The buffers below marked nodes. */
    ghost function Secret(): (bs: set<array<byte>>)
      reads this, nodes
    {
      set w, b | w in nodes && w.sensitive && b in w.bufs :: b
    }

    lemma SecretInside()
      requires Valid()
      ensures Secret() <= bufs
    {
      forall b | b in Secret() ensures b in bufs {
        var w :| w in nodes && w.sensitive && b in w.bufs;
        NodesValid(w);
      }
    }

    /** What is secret below an unmarked node is secret in one of its children. */
    lemma SecretOfChild()
      requires Valid() && !sensitive
      ensures forall b | b in Secret() ::
                data.List? && exists i :: 0 <= i < |data.items| && b in data.items[i].Secret()
    {
      forall b | b in Secret()
        ensures data.List? && exists i :: 0 <= i < |data.items| && b in data.items[i].Secret()
      {
        var w :| w in nodes && w.sensitive && b in w.bufs;
        var i :| 0 <= i < |data.items| && w in data.items[i].nodes;
      }
    }

    /**
     The destructor: clear, then destroy the members, children of unmarked nodes included.
     No non-zero byte is left below any node that was marked; other buffers keep their bytes.
     */
    method Destroy()
      requires Valid()
      modifies nodes, bufs
      ensures SameShape() && Valid()
      ensures forall b | b in old(Secret()) :: Zero(b)
      ensures forall b | b in bufs :: Zero(b) || b[..] == old(b[..])
      ensures forall b | b in bufs && old(Zero(b)) :: Zero(b)
      decreases nodes, 3
    {
      SecretInside();
      if !sensitive { SecretOfChild(); }
      hide Valid, Zero, Secret;
      ClearSensitive();
      if data.List? {
        if !old(sensitive) { ChildSecretsKept(data.items); }
        DestroyItems(data.items);
      }
    }

    /** Where no mark has changed, each child holds the same secrets as before. */
    twostate lemma ChildSecretsKept(items: seq<Value>)
      requires old(Valid()) && SameShape() && data == List(items)
      requires forall w | w in nodes :: w.sensitive == old(w.sensitive)
      ensures forall i | 0 <= i < |items| :: items[i].Secret() == old(items[i].Secret())
    {
      forall i | 0 <= i < |items| ensures items[i].Secret() == old(items[i].Secret()) {
        assert items[i].nodes == old(items[i].nodes);
        assert forall w | w in items[i].nodes :: w in nodes && w.bufs == old(w.bufs);
      }
    }

    method DestroyItems(items: seq<Value>)
      requires Valid() && data == List(items)
      modifies nodes - {this}, bufs
      ensures SameShape() && Valid()
      ensures forall i, b | 0 <= i < |items| && b in old(items[i].Secret()) :: Zero(b)
      ensures forall b | b in bufs :: Zero(b) || b[..] == old(b[..])
      ensures forall b | b in bufs && old(Zero(b)) :: Zero(b)
      decreases nodes, 1
    {
      hide Valid, Secret, Zero;
      ghost var done: set<array<byte>> := {};
      for k := 0 to |items|
        invariant SameShape() && Valid()
        invariant done <= bufs && forall b | b in done :: Zero(b)
        invariant forall j | 0 <= j < k :: old(items[j].Secret()) <= done
        invariant forall j | k <= j < |items| :: items[j].Secret() == old(items[j].Secret())
        invariant forall b | b in bufs :: Zero(b) || b[..] == old(b[..])
        invariant forall b | b in bufs && old(Zero(b)) :: Zero(b)
      {
        LayoutOf(items, k);
        items[k].SecretInside();
        done := done + items[k].Secret();
        DestroyChild(k);
      }
    }

    method DestroyChild(k: nat)
      requires Valid() && data.List? && k < |data.items|
      modifies data.items[k].nodes, data.items[k].bufs
      ensures SameShape() && Valid()
      ensures forall b | b in old(data.items[k].Secret()) :: Zero(b)
      ensures forall j | 0 <= j < |data.items| && j != k :: data.items[j].Secret() == old(data.items[j].Secret())
      ensures forall b | b in bufs :: Zero(b) || b[..] == old(b[..])
      ensures forall b | b in bufs && old(Zero(b)) :: Zero(b)
      decreases nodes, 0
    {
      hide Valid, Zero, Secret;
      Layout(data.items);
      data.items[k].Destroy();
      forall w | w in old(nodes)
        ensures w.data == old(w.data) && w.nodes == old(w.nodes) && w.bufs == old(w.bufs) {}
      ShapeKeepsValid();
    }
  
    // ----- copying and moving -----

    constructor (data: Data, sensitive: bool, ghost below: set<Value>, ghost buffers: set<array<byte>>)
      ensures this.data == data && this.sensitive == sensitive
      ensures nodes == {this} + below && bufs == buffers
    {
      this.data := data;
      this.sensitive := sensitive;
      this.nodes := {this} + below;
      this.bufs := buffers;
    }

    /** The copy constructor: new nodes and new buffers with the same contents and marks. */
    method Clone() returns (c: Value)
      requires Valid()
      ensures c.Valid() && c in c.nodes && fresh(c.nodes) && fresh(c.bufs) && Equal(this, c)
      decreases nodes, 1
    {
      match data {
        case Text(a) =>
          var b := Duplicate(a);
          c := new Value(Text(b), sensitive, {}, {b});
        case Blob(a) =>
          var b := Duplicate(a);
          c := new Value(Blob(b), sensitive, {}, {b});
        case List(items) =>
          c := CloneList(items);
        case _ =>
          c := new Value(data, sensitive, {}, {});
      }
    }

    method CloneList(items: seq<Value>) returns (c: Value)
      requires Valid() && data == List(items)
      ensures c.Valid() && c in c.nodes && fresh(c.nodes) && fresh(c.bufs) && Equal(this, c)
      decreases nodes, 0, 1
    {
      hide Valid, Apart, Equal;
      var copies, below, buffers := CloneItems(items);
      c := new Value(List(copies), sensitive, below, buffers);
      ListOfApart(c, copies, below, buffers);
      ListsEqual(this, c);
    }

    method CloneItems(items: seq<Value>)
      returns (copies: seq<Value>, ghost below: set<Value>, ghost buffers: set<array<byte>>)
      requires Valid() && data == List(items)
      ensures |copies| == |items| && fresh(below) && fresh(buffers)
      ensures Apart(copies, below, buffers)
      ensures forall i | 0 <= i < |items| :: items[i].Valid() && copies[i].Valid() && Equal(items[i], copies[i])
      decreases nodes, 0, 0
    {
      ApartNothing();
      hide Valid, Apart, Equal;
      copies, below, buffers := [], {}, {};
      for k := 0 to |items|
        invariant |copies| == k && fresh(below) && fresh(buffers)
        invariant Apart(copies, below, buffers)
        invariant forall i | 0 <= i < k :: items[i].Valid() && copies[i].Valid() && Equal(items[i], copies[i])
      {
        LayoutOf(items, k);
        var c := items[k].Clone();
        ApartAppend(copies, below, buffers, c);
        copies, below, buffers := copies + [c], below + c.nodes, buffers + c.bufs;
      }
    }
  
    /**
     Copy assignment: the old tree is wiped where it was marked, then replaced by a copy of
     the other tree with its marks. Assigning a value to itself does nothing.
     */
    method Assign(other: Value)
      requires Valid() && other.Valid()
      requires other == this || (other.nodes !! nodes && other.bufs !! bufs)
      modifies nodes, bufs
      ensures Valid() && other.Valid()
      ensures other == this ==> SameShape() && sensitive == old(sensitive) && unchanged(nodes) && unchanged(bufs)
      ensures other != this ==>
                && Equal(other, this) && fresh(nodes - {this}) && fresh(bufs)
                && (forall b | b in old(Secret()) :: Zero(b))
                && (forall b | b in old(bufs) :: Zero(b) || b[..] == old(b[..]))
    {
      if this == other { return; }
      hide Valid, Zero, Secret, Equal;
      SelfInside();
      other.SelfInside();
      Destroy();
      hide SameShape;
      CopyFrom(other);
    }

    /** `data = other.data; sensitive = other.sensitive`, on a tree that is wiped. */
    method CopyFrom(other: Value)
      requires Valid() && other.Valid() && this !in other.nodes
      modifies this
      ensures Valid() && other.Valid() && Equal(other, this)
      ensures fresh(nodes - {this}) && fresh(bufs)
    {
      hide Valid, Equal;
      var c := other.Clone();
      TakeCopy(other, c);
    }

    method TakeCopy(other: Value, c: Value)
      requires other.Valid() && c.Valid() && Equal(other, c)
      requires c != this && this !in c.nodes && this !in other.nodes
      modifies this
      ensures Valid() && other.Valid() && Equal(other, this)
      ensures nodes == c.nodes - {c} + {this} && bufs == c.bufs
    {
      hide Valid, Equal;
      other.SelfInside();
      TakeOver(c);
      TakenOverEqual(other, this, c);
    }

    /** The assignments of `data` and of the mark. */
    method TakeOver(c: Value)
      requires c.Valid() && c != this && this !in c.nodes
      modifies this
      ensures Valid() && data == c.data && sensitive == c.sensitive
      ensures nodes == c.nodes - {c} + {this} && bufs == c.bufs
    {
      hide Valid;
      data := c.data;
      sensitive := c.sensitive;
      nodes := c.nodes - {c} + {this};
      bufs := c.bufs;
      TakenOver(this, c);
    }

    lemma SelfInside()
      requires Valid()
      ensures this in nodes
    {}

    /**
     Move assignment: the old tree is wiped where it was marked, then everything of the
     other value is taken over as it is; the other is left empty and unmarked.
     */
    method MoveAssign(other: Value)
      requires Valid() && other.Valid()
      requires other == this || (other.nodes !! nodes && other.bufs !! bufs)
      modifies nodes, bufs, other
      ensures Valid() && other.Valid()
      ensures other == this ==> SameShape() && sensitive == old(sensitive) && unchanged(nodes) && unchanged(bufs)
      ensures other != this ==>
                && data == old(other.data) && sensitive == old(other.sensitive)
                && bufs == old(other.bufs) && (forall b | b in bufs :: b[..] == old(b[..]))
                && !other.sensitive && other.nodes == {other} && (forall b | b in other.bufs :: b.Length == 0)
                && (forall b | b in old(Secret()) :: Zero(b))
    {
      if this == other { return; }
      hide Valid, Zero, Secret;
      SelfInside();
      other.SelfInside();
      Destroy();
      hide SameShape;
      TakeOver(other);
      OtherOutside(other);
      other.Empty();
    }

    /** What is left behind a move: the same alternative, without contents. */
    method Empty()
      modifies this
      ensures Valid() && !sensitive && nodes == {this} && fresh(bufs) && (forall b | b in bufs :: b.Length == 0)
    {
      sensitive := false;
      nodes, bufs := {this}, {};
      match data {
        case Text(_) =>
          var a := new byte[0];
          data := Text(a);
          bufs := {a};
        case Blob(_) =>
          var a := new byte[0];
          data := Blob(a);
          bufs := {a};
        case List(_) => data := List([]);
        case _ =>
      }
    }

    lemma OtherOutside(other: Value)
      requires other != this && nodes == other.nodes - {other} + {this}
      ensures other !in nodes
    {}
  }

  /** A node that took over everything of `c` but `c` itself. */
  lemma TakenOver(v: Value, c: Value)
    requires c.Valid() && v !in c.nodes && v.data == c.data
    requires v.nodes == c.nodes - {c} + {v} && v.bufs == c.bufs
    ensures v.Valid()
  {
    if c.data.List? {
      c.Layout(c.data.items);
    }
  }

  lemma TakenOverEqual(other: Value, v: Value, c: Value)
    requires other.Valid() && c.Valid() && v.Valid() && Equal(other, c)
    requires v.data == c.data && v.sensitive == c.sensitive
    ensures Equal(other, v)
  {}

  lemma ApartNothing()
    ensures Apart([], {}, {})
  {}

  lemma ApartAppend(items: seq<Value>, below: set<Value>, buffers: set<array<byte>>, c: Value)
    requires Apart(items, below, buffers) && c in c.nodes && c.nodes !! below && c.bufs !! buffers
    ensures Apart(items + [c], below + c.nodes, buffers + c.bufs)
  {
    assert (items + [c])[..|items|] == items;
  }

  lemma {:induction false} OwnerOf(items: seq<Value>)
    ensures forall w | w in AllNodes(items) :: exists i :: 0 <= i < |items| && w in items[i].nodes
    ensures forall b | b in AllBufs(items) :: exists i :: 0 <= i < |items| && b in items[i].bufs
  {
    if items != [] {
      var front := items[..|items| - 1];
      OwnerOf(front);
      forall w | w in AllNodes(items) ensures exists i :: 0 <= i < |items| && w in items[i].nodes {
        if w in AllNodes(front) {
          var i :| 0 <= i < |front| && w in front[i].nodes;
          assert w in items[i].nodes;
        }
      }
      forall b | b in AllBufs(items) ensures exists i :: 0 <= i < |items| && b in items[i].bufs {
        if b in AllBufs(front) {
          var i :| 0 <= i < |front| && b in front[i].bufs;
          assert b in items[i].bufs;
        }
      }
    }
  }

  /** A list node over values that share nothing is a valid tree. */
  lemma ListOfApart(c: Value, items: seq<Value>, below: set<Value>, buffers: set<array<byte>>)
    requires Apart(items, below, buffers) && forall i | 0 <= i < |items| :: items[i].Valid()
    requires c.data == List(items) && c.nodes == {c} + below && c.bufs == buffers && c !in below
    ensures c.Valid()
  {
    hide AllNodes, AllBufs;
    OwnerOf(items);
  }

  lemma ListsEqual(v: Value, w: Value)
    requires v.Valid() && w.Valid() && v.sensitive == w.sensitive
    requires v.data.List? && w.data.List? && |v.data.items| == |w.data.items|
    requires forall i | 0 <= i < |v.data.items| ::
               v.data.items[i].Valid() && w.data.items[i].Valid() && Equal(v.data.items[i], w.data.items[i])
    ensures Equal(v, w)
  {}

  /** Same kinds, bytes, marks and children all the way down. */
  ghost predicate Equal(v: Value, w: Value)
    requires v.Valid() && w.Valid()
    reads v, v.nodes, v.bufs, w, w.nodes, w.bufs
    decreases v.nodes
  {
    && v.sensitive == w.sensitive
    && match v.data
       case Text(a) => w.data.Text? && w.data.chars[..] == a[..]
       case Blob(a) => w.data.Blob? && w.data.bytes[..] == a[..]
       case List(items) =>
         w.data.List? && |w.data.items| == |items|
         && forall i | 0 <= i < |items| :: Equal(items[i], w.data.items[i])
       case d => w.data == d
  }

  method Duplicate(a: array<byte>) returns (b: array<byte>)
    ensures fresh(b) && b[..] == a[..]
  {
    b := new byte[a.Length](i requires 0 <= i < a.Length reads a => a[i]);
  }

  method Wipe(a: array<byte>)
    modifies a
    ensures Zero(a)
  {
    for i := 0 to a.Length
      invariant forall j | 0 <= j < i :: a[j] == 0
    {
      a[i] := 0;
    }
  }
}
