/**
 Listing the contacts of one binding page by page, newest first, while other devices keep
 writing to the same table.
 */
module ContactPaging {
  import opened Bytes
  import opened Text
  import opened Contacts

  /** The rows of one binding, by contact. */
  type View = map<string, Row>

  function ViewOf(rows: map<Key, Row>, session: Session): View {
    map k | k in rows && k.cid == session.cid && k.revision == session.revision && k.account == session.account
      :: k.contactId := rows[k]
  }

  // ----- listing order -----

  /** `p` is listed behind `q`: ORDER BY updated_at DESC, contact_id DESC. */
  predicate Below(p: Pos, q: Pos) {
    p.updatedAt < q.updatedAt || (p.updatedAt == q.updatedAt && Less(p.contactId, q.contactId))
  }

  lemma BelowTotal(p: Pos, q: Pos)
    ensures Below(p, q) || p == q || Below(q, p)
    ensures !(Below(p, q) && Below(q, p)) && !Below(p, p)
  {
    LessTotal(p.contactId, q.contactId);
    LessIrreflexive(p.contactId);
  }

  lemma BelowTransitive(p: Pos, q: Pos, r: Pos)
    requires Below(p, q) && Below(q, r)
    ensures Below(p, r)
  {
    if p.updatedAt == r.updatedAt { LessTransitive(p.contactId, q.contactId, r.contactId); }
  }

  predicate Descending(s: seq<Pos>) {
    forall i, j | 0 <= i < j < |s| :: Below(s[j], s[i])
  }

  function Elems(s: seq<Pos>): set<Pos> { set p | p in s }

  ghost predicate IsTop(p: Pos, ps: set<Pos>) {
    p in ps && forall q | q in ps :: q == p || Below(q, p)
  }

  lemma {:induction false} TopExists(ps: set<Pos>)
    requires ps != {}
    ensures exists p :: IsTop(p, ps)
    decreases |ps|
  {
    var p :| p in ps;
    if ps == {p} {
      assert IsTop(p, ps);
    } else {
      TopExists(ps - {p});
      var t :| IsTop(t, ps - {p});
      BelowTotal(p, t);
      if Below(p, t) {
        assert IsTop(t, ps);
      } else {
        forall q | q in ps ensures q == p || Below(q, p) {
          if q != p && q != t { BelowTransitive(q, t, p); }
        }
        assert IsTop(p, ps);
      }
    }
  }

  lemma ElemsAppend(a: seq<Pos>, b: seq<Pos>)
    ensures Elems(a + b) == Elems(a) + Elems(b)
  {}

  /** Two descending runs, all of the second behind the last of the first. */
  lemma DescendingAppend(a: seq<Pos>, b: seq<Pos>)
    requires Descending(a) && Descending(b)
    requires a != [] ==> forall q | q in Elems(b) :: Below(q, a[|a| - 1])
    ensures Descending(a + b)
  {
    hide Below;
    forall i, j | 0 <= i < j < |a + b| ensures Below((a + b)[j], (a + b)[i]) {
      if i < |a| <= j {
        assert b[j - |a|] in Elems(b);
        if i < |a| - 1 { BelowTransitive(b[j - |a|], a[|a| - 1], a[i]); }
      }
    }
  }

  /** The elements sorted newest first. */
  ghost function Sorted(ps: set<Pos>): (s: seq<Pos>)
    ensures Descending(s) && Elems(s) == ps
    decreases |ps|
  {
    if ps == {} then []
    else
      TopExists(ps);
      var p :| IsTop(p, ps);
      var rest := Sorted(ps - {p});
      DescendingAppend([p], rest);
      ElemsAppend([p], rest);
      assert Elems([p]) == {p};
      [p] + rest
  }

  /** There is only one descending arrangement. */
  lemma {:induction false} SortedUnique(a: seq<Pos>, b: seq<Pos>)
    requires Descending(a) && Descending(b) && Elems(a) == Elems(b)
    ensures a == b
    decreases |a|
  {
    assert a != [] ==> a[0] in Elems(a);
    assert b != [] ==> b[0] in Elems(b);
    if a != [] && b != [] {
      var i :| 0 <= i < |b| && b[i] == a[0];
      var j :| 0 <= j < |a| && a[j] == b[0];
      BelowTotal(a[0], b[0]);
      assert a[0] == b[0];
      forall p ensures p in a[1..] <==> p in b[1..] {
        TailMembers(a, p);
        TailMembers(b, p);
        assert p in Elems(a) <==> p in Elems(b);
      }
      assert Elems(a[1..]) == Elems(b[1..]);
      SortedUnique(a[1..], b[1..]);
      assert a == [a[0]] + a[1..] && b == [b[0]] + b[1..];
    }
  }

  lemma TailMembers(a: seq<Pos>, p: Pos)
    requires Descending(a) && a != []
    ensures p in a[1..] <==> p in a && p != a[0]
  {
    if p in a[1..] {
      var i :| 0 <= i < |a[1..]| && a[1..][i] == p;
      assert a[i + 1] == p;
      BelowTotal(p, a[0]);
    }
    if p in a && p != a[0] {
      var i :| 0 <= i < |a| && a[i] == p;
      assert a[1..][i - 1] == p;
    }
  }

  // ----- one page -----

  function PosOf(v: View, id: string): Pos
    requires id in v
  {
    Pos(v[id].updatedAt, id)
  }

  /** The rows behind the cursor. */
  function Eligible(v: View, cursor: Option<Pos>): set<Pos> {
    set id | id in v && (cursor.None? || Below(PosOf(v, id), cursor.value)) :: PosOf(v, id)
  }

  datatype Item = Item(contactId: string, row: Row)

  datatype Page = Page(items: seq<Item>, next: Option<Pos>)

  ghost function Items(v: View, ps: seq<Pos>): (r: seq<Item>)
    requires forall p | p in ps :: p.contactId in v
    ensures |r| == |ps|
  {
    seq(|ps|, i requires 0 <= i < |ps| => Item(ps[i].contactId, v[ps[i].contactId]))
  }

  /** The places on a page: one row more is fetched than shown, to know whether there is another page. */
  ghost function PagePlaces(v: View, cursor: Option<Pos>, limit: nat): (ps: seq<Pos>)
    ensures forall p | p in ps :: p in Eligible(v, cursor)
    ensures forall p | p in ps :: p.contactId in v && p == PosOf(v, p.contactId)
  {
    var all := Sorted(Eligible(v, cursor));
    var fetched := all[..Min(limit + 1, |all|)];
    var ps := fetched[..Min(limit, |fetched|)];
    assert forall p | p in ps :: p in all && p in Elems(all);
    ps
  }

  ghost function HasMore(v: View, cursor: Option<Pos>, limit: nat): bool {
    |Sorted(Eligible(v, cursor))| > limit
  }

  /** `listContactsRoute` behind its parameter checks. */
  ghost function ListPage(v: View, cursor: Option<Pos>, limit: nat): (page: Page)
    requires limit >= 1
  {
    var ps := PagePlaces(v, cursor, limit);
    Page(Items(v, ps), if HasMore(v, cursor, limit) && ps != [] then Some(ps[|ps| - 1]) else None)
  }

  /** The handler's cursor goes through text and comes back as the same place. */
  lemma NextCursorSurvivesText(v: View, cursor: Option<Pos>, limit: nat)
    requires limit >= 1 && forall id | id in v :: Listed(PosOf(v, id))
    ensures var next := ListPage(v, cursor, limit).next;
            ParseCursor(if next.Some? then Some(FormatCursor(next.value)) else None) == Ok(next)
  {
    var ps := PagePlaces(v, cursor, limit);
    var next := ListPage(v, cursor, limit).next;
    if next.Some? {
      assert ps[|ps| - 1] in ps;
      CursorRoundTrip(next.value);
    }
  }

  /** What a page and its cursor split the eligible rows into. */
  lemma PageSplits(v: View, cursor: Option<Pos>, limit: nat)
    requires limit >= 1
    ensures var ps, page := PagePlaces(v, cursor, limit), ListPage(v, cursor, limit);
            && Descending(ps)
            && (page.next == None ==> Elems(ps) == Eligible(v, cursor))
            && (page.next.Some? ==>
                  && ps != [] && page.next.value == ps[|ps| - 1]
                  && (cursor.Some? ==> Below(page.next.value, cursor.value))
                  && (forall p | p in ps :: !Below(p, page.next.value))
                  && (forall p | p in Eligible(v, cursor) :: p in ps || Below(p, page.next.value)))
  {
    hide Below, Eligible, Sorted;
    var all := Sorted(Eligible(v, cursor));
    var ps := PagePlaces(v, cursor, limit);
    assert ps == all[..Min(limit, |all|)];
    if |all| <= limit {
      assert ps == all;
    } else {
      var last := ps[limit - 1];
      assert last in Eligible(v, cursor);
      if cursor.Some? { EligibleBelow(v, cursor, last); }
      forall p | p in ps ensures !Below(p, last) {
        BelowTotal(p, last);
      }
      forall p | p in Eligible(v, cursor) ensures p in ps || Below(p, last) {
        assert p in Elems(all);
        var i :| 0 <= i < |all| && all[i] == p;
        assert i < limit ==> ps[i] == p;
      }
    }
  }

  lemma {:induction false} DescendingSize(s: seq<Pos>)
    requires Descending(s)
    ensures |Elems(s)| == |s|
  {
    if s != [] {
      forall p ensures p in s[1..] <==> p in s && p != s[0] { TailMembers(s, p); }
      assert Elems(s) == {s[0]} + Elems(s[1..]);
      DescendingSize(s[1..]);
    }
  }

  /** A page is full, or shows every row that is left; a cursor is handed out exactly when rows are left behind it. */
  lemma PageSize(v: View, cursor: Option<Pos>, limit: nat)
    requires limit >= 1
    ensures var page, left := ListPage(v, cursor, limit), |Eligible(v, cursor)|;
            && |page.items| == |PagePlaces(v, cursor, limit)| == (if left < limit then left else limit)
            && (page.next.Some? <==> left > limit)
  {
    hide Eligible, Sorted;
    DescendingSize(Sorted(Eligible(v, cursor)));
  }

  /** Newest first on a page, and at equal times the greater contact id, character by character. */
  lemma PageOrder(v: View, cursor: Option<Pos>, limit: nat, i: nat, j: nat)
    requires limit >= 1 && i < j < |ListPage(v, cursor, limit).items|
    ensures var p, q := ListPage(v, cursor, limit).items[i], ListPage(v, cursor, limit).items[j];
            && p.contactId in v && p.row == v[p.contactId] && q.contactId in v && q.row == v[q.contactId]
            && (p.row.updatedAt > q.row.updatedAt
                || (p.row.updatedAt == q.row.updatedAt
                    && exists k: nat :: k <= |q.contactId| && k < |p.contactId| && q.contactId[..k] == p.contactId[..k]
                         && (k == |q.contactId| || q.contactId[k] < p.contactId[k])))
  {
    hide Eligible, Sorted, Less;
    var ps := PagePlaces(v, cursor, limit);
    assert ps[i] in ps && ps[j] in ps;
    assert Below(ps[j], ps[i]);
    LessExactly(ps[j].contactId, ps[i].contactId);
  }

  lemma EligibleBelow(v: View, cursor: Option<Pos>, p: Pos)
    requires p in Eligible(v, cursor)
    ensures cursor.Some? ==> Below(p, cursor.value)
  {}

  // ----- a walk on an unchanged table -----

  ghost function WalkPlaces(v: View, cursor: Option<Pos>, limit: nat): (ps: seq<Pos>)
    requires limit >= 1
    decreases |Eligible(v, cursor)|
  {
    var ps := PagePlaces(v, cursor, limit);
    var next := ListPage(v, cursor, limit).next;
    if next.None? then ps
    else
      NextIsSmaller(v, cursor, limit);
      ps + WalkPlaces(v, next, limit)
  }

  /** Every page leaves fewer rows behind its cursor: the walk ends. */
  lemma NextIsSmaller(v: View, cursor: Option<Pos>, limit: nat)
    requires limit >= 1 && ListPage(v, cursor, limit).next.Some?
    ensures Eligible(v, ListPage(v, cursor, limit).next) < Eligible(v, cursor)
    ensures |Eligible(v, ListPage(v, cursor, limit).next)| < |Eligible(v, cursor)|
  {
    PageSplits(v, cursor, limit);
    var ps := PagePlaces(v, cursor, limit);
    var next := ListPage(v, cursor, limit).next;
    var rest := Eligible(v, next);
    forall p | p in rest ensures p in Eligible(v, cursor) {
      if cursor.Some? { BelowTransitive(p, next.value, cursor.value); }
    }
    assert next.value in ps;
    BelowTotal(next.value, next.value);
    assert next.value !in rest && next.value in Eligible(v, cursor);
    SmallerSet(rest, Eligible(v, cursor));
  }

  lemma {:induction false} SmallerSet(a: set<Pos>, b: set<Pos>)
    requires a < b
    ensures |a| < |b|
  {
    var x :| x in b && x !in a;
    SubsetSize(a, b - {x});
  }

  lemma {:induction false} SubsetSize(a: set<Pos>, b: set<Pos>)
    requires a <= b
    ensures |a| <= |b|
    decreases |a|
  {
    if a != {} {
      var x :| x in a;
      SubsetSize(a - {x}, b - {x});
    }
  }

  lemma EligibleSplits(v: View, cursor: Option<Pos>, limit: nat)
    requires limit >= 1 && ListPage(v, cursor, limit).next.Some?
    ensures var ps, next := PagePlaces(v, cursor, limit), ListPage(v, cursor, limit).next;
            && Eligible(v, cursor) == Elems(ps) + Eligible(v, next)
            && forall q | q in Eligible(v, next) :: Below(q, next.value)
  {
    hide *;
    var ps, next := PagePlaces(v, cursor, limit), ListPage(v, cursor, limit).next;
    forall p ensures p in Eligible(v, cursor) <==> p in ps || p in Eligible(v, next) {
      PlaceSplits(v, cursor, limit, p);
    }
    forall q | q in Eligible(v, next) ensures Below(q, next.value) {
      EligibleForm(v, next, q);
    }
    ElemsMembers(ps);
  }

  lemma PlaceSplits(v: View, cursor: Option<Pos>, limit: nat, p: Pos)
    requires limit >= 1 && ListPage(v, cursor, limit).next.Some?
    ensures p in Eligible(v, cursor)
            <==> p in PagePlaces(v, cursor, limit) || p in Eligible(v, ListPage(v, cursor, limit).next)
  {
    PageSplits(v, cursor, limit);
    NextIsSmaller(v, cursor, limit);
    EligibleForm(v, cursor, p);
    EligibleForm(v, ListPage(v, cursor, limit).next, p);
    hide *;
  }

  lemma ElemsMembers(s: seq<Pos>)
    ensures forall p :: p in Elems(s) <==> p in s
  {}

  lemma EligibleForm(v: View, cursor: Option<Pos>, p: Pos)
    ensures p in Eligible(v, cursor) <==>
            p.contactId in v && p == PosOf(v, p.contactId) && (cursor.None? || Below(p, cursor.value))
  {}

  lemma WalkStep(v: View, cursor: Option<Pos>, limit: nat)
    requires limit >= 1
    ensures var ps, next := PagePlaces(v, cursor, limit), ListPage(v, cursor, limit).next;
            WalkPlaces(v, cursor, limit) == if next.None? then ps else ps + WalkPlaces(v, next, limit)
  {
    hide PagePlaces, ListPage, Eligible;
  }

  /** On an unchanged table the pages, one behind the other, are the sorted table. */
  lemma {:induction false} WalkIsSorted(v: View, cursor: Option<Pos>, limit: nat)
    requires limit >= 1
    ensures WalkPlaces(v, cursor, limit) == Sorted(Eligible(v, cursor))
    decreases |Eligible(v, cursor)|
  {
    hide *;
    var ps, next := PagePlaces(v, cursor, limit), ListPage(v, cursor, limit).next;
    WalkStep(v, cursor, limit);
    PageSplits(v, cursor, limit);
    if next.None? {
      SortedUnique(ps, Sorted(Eligible(v, cursor)));
    } else {
      NextIsSmaller(v, cursor, limit);
      WalkIsSorted(v, next, limit);
      EligibleSplits(v, cursor, limit);
      var rest := Sorted(Eligible(v, next));
      DescendingAppend(ps, rest);
      ElemsAppend(ps, rest);
      SortedUnique(ps + rest, Sorted(Eligible(v, cursor)));
    }
  }

  // ----- a walk while others write -----

  datatype Write = Write(contactId: string, row: Row)

  /** The view behind a sequence of PUTs to its binding. */
  function AfterWrites(v: View, ws: seq<Write>): (w: View)
    decreases |ws|
  {
    if ws == [] then v
    else
      var id := ws[0].contactId;
      var stored := if id in v then Some(v[id]) else None;
      AfterWrites(v[id := Upsert(stored, ws[0].row).value], ws[1..])
  }

  /** Rows stay, and move up in the listing at most; rows nobody writes stay as they are. */
  lemma {:induction false} WritesMoveUp(v: View, ws: seq<Write>, id: string)
    requires id in v
    ensures id in AfterWrites(v, ws) && AfterWrites(v, ws)[id].updatedAt >= v[id].updatedAt
    ensures (forall w | w in ws :: w.contactId != id) ==> AfterWrites(v, ws)[id] == v[id]
    decreases |ws|
  {
    if ws != [] {
      var x := ws[0].contactId;
      var stored := if x in v then Some(v[x]) else None;
      assert ws[0] in ws && forall w | w in ws[1..] :: w in ws;
      WritesMoveUp(v[x := Upsert(stored, ws[0].row).value], ws[1..], id);
    }
  }

  /** A PUT on the table is one write to the view of its own binding and nothing to any other. */
  lemma PutOnView(rows: map<Key, Row>, k: Key, row: Row, session: Session)
    ensures var rows' := rows[k := Upsert(Lookup(rows, k), row).value];
            ViewOf(rows', session)
            == if k.cid == session.cid && k.revision == session.revision && k.account == session.account
               then AfterWrites(ViewOf(rows, session), [Write(k.contactId, row)])
               else ViewOf(rows, session)
  {
    var v := ViewOf(rows, session);
    var w := Write(k.contactId, row);
    var stored := if w.contactId in v then Some(v[w.contactId]) else None;
    assert AfterWrites(v, [w]) == v[w.contactId := Upsert(stored, row).value];
    if k.cid == session.cid && k.revision == session.revision && k.account == session.account {
      assert k == Key(session.cid, session.revision, session.account, k.contactId);
      assert stored == Lookup(rows, k);
    }
  }

  /** The rows a client collects, and whether it came to the end. */
  datatype Walk = Walk(items: seq<Item>, finished: bool)

  /** Page after page; `writes[k]` is what other requests write between page k and page k + 1. */
  ghost function LiveWalk(v: View, cursor: Option<Pos>, limit: nat, writes: seq<seq<Write>>): (w: Walk)
    requires limit >= 1
    decreases |writes|
  {
    var page := ListPage(v, cursor, limit);
    if page.next.None? then Walk(page.items, true)
    else if writes == [] then Walk(page.items, false)
    else
      var rest := LiveWalk(AfterWrites(v, writes[0]), page.next, limit, writes[1..]);
      Walk(page.items + rest.items, rest.finished)
  }

  /** No contact appears twice. */
  predicate DistinctContacts(items: seq<Item>) {
    forall i, j | 0 <= i < j < |items| :: items[i].contactId != items[j].contactId
  }

  function Ids(items: seq<Item>): set<string> { set it | it in items :: it.contactId }

  /** What a page shows: rows behind the cursor as they are now, each once. */
  lemma PageShows(v: View, cursor: Option<Pos>, limit: nat)
    requires limit >= 1
    ensures var page := ListPage(v, cursor, limit);
            && (forall it | it in page.items ::
                  it.contactId in v && it.row == v[it.contactId]
                  && PosOf(v, it.contactId) in Eligible(v, cursor)
                  && (page.next.Some? ==> !Below(PosOf(v, it.contactId), page.next.value)))
            && DistinctContacts(page.items)
            && (forall id | id in v && PosOf(v, id) in Eligible(v, cursor) ::
                  Item(id, v[id]) in page.items
                  || (page.next.Some? && Below(PosOf(v, id), page.next.value)))
  {
    PageSplits(v, cursor, limit);
    hide Below, Eligible, Sorted, HasMore;
    var ps := PagePlaces(v, cursor, limit);
    var page := ListPage(v, cursor, limit);
    forall it | it in page.items
      ensures it.contactId in v && it.row == v[it.contactId]
              && PosOf(v, it.contactId) in Eligible(v, cursor)
              && (page.next.Some? ==> !Below(PosOf(v, it.contactId), page.next.value))
    {
      var i :| 0 <= i < |ps| && page.items[i] == it;
      assert ps[i] in ps;
    }
    forall i, j | 0 <= i < j < |page.items| ensures page.items[i].contactId != page.items[j].contactId {
      assert ps[i] in ps && ps[j] in ps;
      BelowTotal(ps[i], ps[j]);
    }
    forall id | id in v && PosOf(v, id) in Eligible(v, cursor)
      ensures Item(id, v[id]) in page.items || (page.next.Some? && Below(PosOf(v, id), page.next.value))
    {
      if PosOf(v, id) in Elems(ps) {
        var i :| 0 <= i < |ps| && ps[i] == PosOf(v, id);
        assert page.items[i] == Item(id, v[id]);
      }
    }
  }

  lemma EligibleExactly(v: View, cursor: Option<Pos>, id: string)
    requires id in v
    ensures PosOf(v, id) in Eligible(v, cursor) <==> cursor.None? || Below(PosOf(v, id), cursor.value)
  {}

  /** A row that is not behind the cursor now is not behind it after more writes either. */
  lemma StaysAbove(v: View, ws: seq<Write>, id: string, c: Pos)
    requires id in v && !Below(PosOf(v, id), c)
    ensures id in AfterWrites(v, ws) && !Below(PosOf(AfterWrites(v, ws), id), c)
  {
    WritesMoveUp(v, ws, id);
    var w := AfterWrites(v, ws);
    if Below(PosOf(w, id), c) && w[id].updatedAt > v[id].updatedAt {
      BelowTransitive(PosOf(v, id), PosOf(w, id), c);
    }
  }

  lemma NextIsBelowCursor(v: View, c: Pos, limit: nat, q: Pos)
    requires limit >= 1 && ListPage(v, Some(c), limit).next.Some?
    requires !Below(q, c)
    ensures !Below(q, ListPage(v, Some(c), limit).next.value)
  {
    PageSplits(v, Some(c), limit);
    hide ListPage, PagePlaces, Below;
    var n := ListPage(v, Some(c), limit).next.value;
    if Below(q, n) { BelowTransitive(q, n, c); }
  }

  /** Rows above the cursor never show up any more. */
  lemma {:induction false} AboveNeverShown(v: View, c: Pos, limit: nat, writes: seq<seq<Write>>, id: string)
    requires limit >= 1 && id in v && !Below(PosOf(v, id), c)
    ensures id !in Ids(LiveWalk(v, Some(c), limit, writes).items)
    decreases |writes|
  {
    var page := ListPage(v, Some(c), limit);
    PageShows(v, Some(c), limit);
    EligibleExactly(v, Some(c), id);
    hide Below, ListPage, Eligible, AfterWrites;
    if page.next.Some? && writes != [] {
      NextIsBelowCursor(v, c, limit, PosOf(v, id));
      StaysAbove(v, writes[0], id, page.next.value);
      AboveNeverShown(AfterWrites(v, writes[0]), page.next.value, limit, writes[1..], id);
    }
  }

  /** While any writes happen between the pages, no contact is ever returned twice. */
  lemma {:induction false} NoContactTwice(v: View, cursor: Option<Pos>, limit: nat, writes: seq<seq<Write>>)
    requires limit >= 1
    ensures DistinctContacts(LiveWalk(v, cursor, limit, writes).items)
    decreases |writes|
  {
    hide Below, ListPage, Eligible, AfterWrites;
    var page := ListPage(v, cursor, limit);
    PageShows(v, cursor, limit);
    if page.next.Some? && writes != [] {
      var v' := AfterWrites(v, writes[0]);
      var rest := LiveWalk(v', page.next, limit, writes[1..]).items;
      NoContactTwice(v', page.next, limit, writes[1..]);
      forall it | it in page.items ensures it.contactId !in Ids(rest) {
        StaysAbove(v, writes[0], it.contactId, page.next.value);
        AboveNeverShown(v', page.next.value, limit, writes[1..], it.contactId);
      }
      DistinctAppend(page.items, rest);
    }
  }

  lemma DistinctAppend(a: seq<Item>, b: seq<Item>)
    requires DistinctContacts(a) && DistinctContacts(b)
    requires forall it | it in a :: it.contactId !in Ids(b)
    ensures DistinctContacts(a + b)
  {
    forall i, j | 0 <= i < j < |a + b| ensures (a + b)[i].contactId != (a + b)[j].contactId {
      if i < |a| <= j {
        assert a[i] in a && b[j - |a|] in b;
        assert b[j - |a|].contactId in Ids(b);
      }
    }
  }

  ghost predicate Unwritten(id: string, writes: seq<seq<Write>>) {
    forall ws | ws in writes :: forall w | w in ws :: w.contactId != id
  }

  /**
   A walk that comes to its end has returned every contact that was there at the start and
   was not written meanwhile, with its row; by `NoContactTwice`, exactly once.
   */
  lemma {:induction false} UnwrittenContactReturned(v: View, cursor: Option<Pos>, limit: nat,
                                                    writes: seq<seq<Write>>, id: string)
    requires limit >= 1 && id in v && PosOf(v, id) in Eligible(v, cursor)
    requires Unwritten(id, writes) && LiveWalk(v, cursor, limit, writes).finished
    ensures Item(id, v[id]) in LiveWalk(v, cursor, limit, writes).items
    decreases |writes|
  {
    hide Below, ListPage, Eligible, AfterWrites;
    var page := ListPage(v, cursor, limit);
    PageShows(v, cursor, limit);
    if page.next.Some? && Item(id, v[id]) !in page.items {
      assert writes[0] in writes && forall ws | ws in writes[1..] :: ws in writes;
      WritesMoveUp(v, writes[0], id);
      var v' := AfterWrites(v, writes[0]);
      EligibleExactly(v', page.next, id);
      UnwrittenContactReturned(v', page.next, limit, writes[1..], id);
    }
  }

  /** From the front, with the two results together. */
  lemma WalkReturnsUnwrittenOnce(v: View, limit: nat, writes: seq<seq<Write>>, id: string)
    requires limit >= 1 && id in v && Unwritten(id, writes)
    requires LiveWalk(v, None, limit, writes).finished
    ensures var items := LiveWalk(v, None, limit, writes).items;
            exists i :: 0 <= i < |items| && items[i] == Item(id, v[id])
                        && forall j | 0 <= j < |items| && j != i :: items[j].contactId != id
  {
    hide Below, LiveWalk;
    assert PosOf(v, id) in Eligible(v, None);
    UnwrittenContactReturned(v, None, limit, writes, id);
    NoContactTwice(v, None, limit, writes);
    var items := LiveWalk(v, None, limit, writes).items;
    var i :| 0 <= i < |items| && items[i] == Item(id, v[id]);
    forall j | 0 <= j < |items| && j != i ensures items[j].contactId != id {
      assert items[if i < j then i else j].contactId != items[if i < j then j else i].contactId;
    }
  }

  // ----- the contacts a walk misses -----

  /**
   Behind some page, while the contact still lies below its cursor, writes lift it to the cursor or above:
   the walk has passed the place where it now stands.
   */
  ghost predicate Overtaken(v: View, cursor: Option<Pos>, limit: nat, writes: seq<seq<Write>>, id: string)
    requires limit >= 1 && id in v
    decreases |writes|
  {
    var next := ListPage(v, cursor, limit).next;
    next.Some? && writes != [] && Below(PosOf(v, id), next.value)
    && (var v' := AfterWrites(v, writes[0]);
        WritesMoveUp(v, writes[0], id);
        !Below(PosOf(v', id), next.value) || Overtaken(v', next, limit, writes[1..], id))
  }

  /** A finished walk misses a contact that was there at its start exactly when writes overtook it. */
  lemma {:induction false} ContactMissedExactly(v: View, cursor: Option<Pos>, limit: nat,
                                                writes: seq<seq<Write>>, id: string)
    requires limit >= 1 && id in v && PosOf(v, id) in Eligible(v, cursor)
    requires LiveWalk(v, cursor, limit, writes).finished
    ensures id !in Ids(LiveWalk(v, cursor, limit, writes).items) <==> Overtaken(v, cursor, limit, writes, id)
    decreases |writes|
  {
    hide Below, ListPage, Eligible, AfterWrites, WalkPlaces;
    var page := ListPage(v, cursor, limit);
    PageShows(v, cursor, limit);
    OnPage(page.items, id);
    if page.next.Some? {
      WritesMoveUp(v, writes[0], id);
      var v' := AfterWrites(v, writes[0]);
      var rest := LiveWalk(v', page.next, limit, writes[1..]).items;
      IdsAppend(page.items, rest, id);
      if Below(PosOf(v, id), page.next.value) {
        if Below(PosOf(v', id), page.next.value) {
          EligibleExactly(v', page.next, id);
          ContactMissedExactly(v', page.next, limit, writes[1..], id);
        } else {
          AboveNeverShown(v', page.next.value, limit, writes[1..], id);
        }
      } else {
        assert Item(id, v[id]) in page.items;
      }
    }
  }

  lemma OnPage(items: seq<Item>, id: string)
    ensures id in Ids(items) <==> exists it :: it in items && it.contactId == id
  {}

  lemma IdsAppend(a: seq<Item>, b: seq<Item>, id: string)
    ensures id in Ids(a + b) <==> id in Ids(a) || id in Ids(b)
  {
    forall it | it in a ensures it in a + b {}
    forall it | it in b ensures it in a + b {}
  }

  /** Two contacts listed on two pages; behind the first page the second contact is written. */
  lemma WrittenContactMissed(a: string, b: string, row: Row)
    requires a != b
    ensures var v := map[a := row.(updatedAt := 1), b := row.(updatedAt := 2)];
            var writes := [[Write(a, row.(updatedAt := 3))]];
            var walk := LiveWalk(v, None, 1, writes);
            && walk.finished && Ids(walk.items) == {b} && a in AfterWrites(v, writes[0])
            && Overtaken(v, None, 1, writes, a)
  {
    var v := map[a := row.(updatedAt := 1), b := row.(updatedAt := 2)];
    var ws := [Write(a, row.(updatedAt := 3))];
    var p, q := Pos(2, b), Pos(1, a);
    assert Eligible(v, None) == {p, q} by {
      assert PosOf(v, b) == p && PosOf(v, a) == q;
    }
    assert Descending([p, q]) && Elems([p, q]) == {p, q};
    SortedUnique([p, q], Sorted(Eligible(v, None)));
    assert ListPage(v, None, 1) == Page([Item(b, v[b])], Some(p)) by { FirstPageOf(v, p, q); }
    var w := AfterWrites(v, ws);
    var v1 := v[a := row.(updatedAt := 3)];
    assert ws[1..] == [] && ws[0].contactId in v && AfterWrites(v1, []) == v1;
    assert Upsert(Some(v[a]), ws[0].row).value == row.(updatedAt := 3);
    assert w == v1;
    BelowTotal(p, p);
    assert PosOf(w, a) == Pos(3, a) && PosOf(w, b) == p;
    assert Eligible(w, Some(p)) == {};
    LastPageEmpty(w, Some(p));
    hide ListPage, Sorted, Eligible;
    var writes := [ws];
    assert writes[1..] == [];
    assert LiveWalk(w, Some(p), 1, []) == Walk([], true);
    assert LiveWalk(v, None, 1, writes) == Walk([Item(b, v[b])] + [], true);
    assert [Item(b, v[b])] + [] == [Item(b, v[b])];
  }

  lemma FirstPageOf(v: View, p: Pos, q: Pos)
    requires Sorted(Eligible(v, None)) == [p, q] && p.contactId in v && p == PosOf(v, p.contactId)
    ensures ListPage(v, None, 1) == Page([Item(p.contactId, v[p.contactId])], Some(p))
  {
    hide Eligible, Sorted;
    assert PagePlaces(v, None, 1) == [p];
  }

  lemma SomeElems(s: seq<Pos>)
    ensures |s| > 0 ==> Elems(s) != {}
  {
    if |s| > 0 { assert s[0] in Elems(s); }
  }

  lemma LastPageEmpty(v: View, cursor: Option<Pos>)
    requires Eligible(v, cursor) == {}
    ensures ListPage(v, cursor, 1) == Page([], None)
  {
    hide Eligible;
    SomeElems(Sorted(Eligible(v, cursor)));
    assert PagePlaces(v, cursor, 1) == [];
  }
}
