/**
 The rotating consistency audit of stored media: one run reads one page of each table
 behind a stored cursor, wraps around at the end, and stores the new cursor.
 */
module MediaAudit {
  import opened Bytes
  import opened Text

  // ----- the order of the two tables -----

  datatype MediaKey = MediaKey(updatedAt: int, uploadId: string, mediaIndex: int)
  datatype ManifestKey = ManifestKey(completedAt: int, uploadId: string)

  /** Row values compared as SQL compares them: column by column. */
  predicate MediaLess(a: MediaKey, b: MediaKey) {
    a.updatedAt < b.updatedAt || (a.updatedAt == b.updatedAt &&
      (Less(a.uploadId, b.uploadId) || (a.uploadId == b.uploadId && a.mediaIndex < b.mediaIndex)))
  }

  predicate ManifestLess(a: ManifestKey, b: ManifestKey) {
    a.completedAt < b.completedAt || (a.completedAt == b.completedAt && Less(a.uploadId, b.uploadId))
  }

  /** A strict total order. */
  ghost predicate Total<K(!new)>(less: (K, K) -> bool) {
    && (forall a, b :: less(a, b) || a == b || less(b, a))
    && (forall a, b :: !(less(a, b) && less(b, a)))
    && (forall a, b, c :: less(a, b) && less(b, c) ==> less(a, c))
  }

  lemma MediaOrderTotal()
    ensures Total(MediaLess)
  {
    hide Less;
    forall a: MediaKey, b: MediaKey
      ensures (MediaLess(a, b) || a == b || MediaLess(b, a)) && !(MediaLess(a, b) && MediaLess(b, a))
    {
      LessTotal(a.uploadId, b.uploadId);
      LessIrreflexive(a.uploadId);
    }
    forall a: MediaKey, b: MediaKey, c: MediaKey | MediaLess(a, b) && MediaLess(b, c) ensures MediaLess(a, c) {
      if Less(a.uploadId, b.uploadId) && Less(b.uploadId, c.uploadId) {
        LessTransitive(a.uploadId, b.uploadId, c.uploadId);
      }
    }
  }

  lemma ManifestOrderTotal()
    ensures Total(ManifestLess)
  {
    hide Less;
    forall a: ManifestKey, b: ManifestKey
      ensures (ManifestLess(a, b) || a == b || ManifestLess(b, a)) && !(ManifestLess(a, b) && ManifestLess(b, a))
    {
      LessTotal(a.uploadId, b.uploadId);
      LessIrreflexive(a.uploadId);
    }
    forall a: ManifestKey, b: ManifestKey, c: ManifestKey | ManifestLess(a, b) && ManifestLess(b, c)
      ensures ManifestLess(a, c)
    {
      if Less(a.uploadId, b.uploadId) && Less(b.uploadId, c.uploadId) {
        LessTransitive(a.uploadId, b.uploadId, c.uploadId);
      }
    }
  }

  // ----- one page -----

  /** A table in the order the query asks for. */
  ghost predicate Ascending<K(!new)>(less: (K, K) -> bool, rows: seq<K>) {
    forall i, j | 0 <= i < j < |rows| :: less(rows[i], rows[j])
  }

  /** The rows of `rows` behind the cursor, in order. */
  function Behind<K(==)>(less: (K, K) -> bool, rows: seq<K>, cursor: K): (r: seq<K>) {
    if rows == [] then []
    else (if less(cursor, rows[0]) then [rows[0]] else []) + Behind(less, rows[1..], cursor)
  }

  function Take<K>(s: seq<K>, n: nat): (r: seq<K>) { if |s| <= n then s else s[..n] }

  /** `readMediaAuditPage` and `readManifestAuditPage`. */
  function ReadPage<K(==)>(less: (K, K) -> bool, rows: seq<K>, cursor: Option<K>, limit: nat): (page: seq<K>) {
    if cursor.Some? && Take(Behind(less, rows, cursor.value), limit) != []
    then Take(Behind(less, rows, cursor.value), limit)
    else Take(rows, limit)
  }

  /** The cursor behind a page; an empty page leaves it alone. */
  function NextCursor<K>(cursor: Option<K>, page: seq<K>): Option<K> {
    if page == [] then cursor else Some(page[|page| - 1])
  }

  // ----- the cursor as a place in the table -----

  /** How many rows do not lie behind the cursor. */
  function Place<K(==)>(less: (K, K) -> bool, rows: seq<K>, cursor: Option<K>): (n: nat)
    ensures n <= |rows|
  {
    if cursor.None? then 0 else |rows| - BehindCount(less, rows, cursor.value)
  }

  function BehindCount<K(==)>(less: (K, K) -> bool, rows: seq<K>, cursor: K): (n: nat)
    ensures n == |Behind(less, rows, cursor)| <= |rows|
  {
    if rows == [] then 0
    else (if less(cursor, rows[0]) then 1 else 0) + BehindCount(less, rows[1..], cursor)
  }

  /** In an ascending table the rows behind a cursor are a tail of the table. */
  lemma {:induction false} BehindIsTail<K(!new)>(less: (K, K) -> bool, rows: seq<K>, cursor: K)
    requires Total(less) && Ascending(less, rows)
    ensures var n := |rows| - |Behind(less, rows, cursor)|;
            0 <= n && Behind(less, rows, cursor) == rows[n..]
            && (forall i | 0 <= i < n :: !less(cursor, rows[i]))
            && (forall i | n <= i < |rows| :: less(cursor, rows[i]))
    decreases |rows|
  {
    if rows != [] {
      AscendingTail(less, rows);
      BehindIsTail(less, rows[1..], cursor);
      var m := |rows[1..]| - |Behind(less, rows[1..], cursor)|;
      if less(cursor, rows[0]) {
        AllBehind(less, rows, cursor);
        assert m == 0;
        assert rows == [rows[0]] + rows[1..];
      } else {
        assert Behind(less, rows, cursor) == [] + Behind(less, rows[1..], cursor) == Behind(less, rows[1..], cursor);
        hide Total, Ascending, Behind;
        assert rows[1..][m..] == rows[m + 1..];
        forall i | 0 <= i < m + 1 ensures !less(cursor, rows[i]) {
          if i > 0 { assert rows[i] == rows[1..][i - 1]; }
        }
        forall i | m + 1 <= i < |rows| ensures less(cursor, rows[i]) {
          assert rows[i] == rows[1..][i - 1];
        }
      }
    }
  }

  lemma AscendingTail<K(!new)>(less: (K, K) -> bool, rows: seq<K>)
    requires Ascending(less, rows) && rows != []
    ensures Ascending(less, rows[1..])
  {
    forall i, j | 0 <= i < j < |rows[1..]| ensures less(rows[1..][i], rows[1..][j]) {
      assert less(rows[i + 1], rows[j + 1]);
    }
  }

  /** When the first row lies behind the cursor, all do. */
  lemma AllBehind<K(!new)>(less: (K, K) -> bool, rows: seq<K>, cursor: K)
    requires Total(less) && Ascending(less, rows) && rows != [] && less(cursor, rows[0])
    ensures forall i | 0 <= i < |rows| :: less(cursor, rows[i])
    ensures forall i | 0 <= i < |rows[1..]| :: less(cursor, rows[1..][i])
  {
    forall i | 0 <= i < |rows| ensures less(cursor, rows[i]) {
      if i > 0 { assert less(rows[0], rows[i]); }
    }
    forall i | 0 <= i < |rows[1..]| ensures less(cursor, rows[1..][i]) { assert rows[1..][i] == rows[i + 1]; }
  }

  /** The place from which a run reads: behind the cursor, or the front when nothing is there. */
  function From(n: nat, place: nat): nat { if place >= n then 0 else place }

  /** Where a run over `n` rows ends. */
  function Upto(n: nat, place: nat, limit: nat): nat {
    if From(n, place) + limit <= n then From(n, place) + limit else n
  }

  /** A run reads the rows from `From` to `Upto`, and its cursor is the place `Upto`. */
  lemma PageIsSlice<K(!new)>(less: (K, K) -> bool, rows: seq<K>, cursor: Option<K>, limit: nat)
    requires Total(less) && Ascending(less, rows) && limit >= 1
    ensures var place, page := Place(less, rows, cursor), ReadPage(less, rows, cursor, limit);
            && From(|rows|, place) <= Upto(|rows|, place, limit) <= |rows|
            && page == rows[From(|rows|, place)..Upto(|rows|, place, limit)]
            && Place(less, rows, NextCursor(cursor, page)) == Upto(|rows|, place, limit)
  {
    hide Total, Ascending, Behind;
    var n := |rows|;
    var place := Place(less, rows, cursor);
    if cursor.Some? { BehindIsTail(less, rows, cursor.value); }
    var page := ReadPage(less, rows, cursor, limit);
    assert rows[0..] == rows;
    if rows != [] {
      var upto := Upto(n, place, limit);
      assert page == rows[From(n, place)..upto];
      hide Place, ReadPage;
      assert page[|page| - 1] == rows[upto - 1];
      PlaceOfRow(less, rows, upto - 1);
    }
  }

  lemma PlaceOfRow<K(!new)>(less: (K, K) -> bool, rows: seq<K>, k: nat)
    requires Total(less) && Ascending(less, rows) && k < |rows|
    ensures Place(less, rows, Some(rows[k])) == k + 1
  {
    BehindIsTail(less, rows, rows[k]);
    var m := |rows| - |Behind(less, rows, rows[k])|;
    assert !less(rows[k], rows[k]);
    assert k + 1 < |rows| ==> less(rows[k], rows[k + 1]);
  }

  // ----- successive runs -----

  /** The cursor behind `k` runs. */
  function CursorAfter<K(==)>(less: (K, K) -> bool, rows: seq<K>, cursor: Option<K>, limit: nat, k: nat): Option<K> {
    if k == 0 then cursor
    else
      var c := CursorAfter(less, rows, cursor, limit, k - 1);
      NextCursor(c, ReadPage(less, rows, c, limit))
  }

  /** The page of the run behind `k` runs. */
  function PageOfRun<K(==)>(less: (K, K) -> bool, rows: seq<K>, cursor: Option<K>, limit: nat, k: nat): seq<K> {
    ReadPage(less, rows, CursorAfter(less, rows, cursor, limit, k), limit)
  }

  /** The place behind `k` runs, by places alone. */
  function PlaceAfter(n: nat, place: nat, limit: nat, k: nat): (p: nat)
    requires place <= n && limit >= 1
    ensures p <= n
  {
    if k == 0 then place else Upto(n, PlaceAfter(n, place, limit, k - 1), limit)
  }

  lemma {:induction false} RunsFollowPlaces<K(!new)>(less: (K, K) -> bool, rows: seq<K>, cursor: Option<K>, limit: nat, k: nat)
    requires Total(less) && Ascending(less, rows) && limit >= 1
    ensures Place(less, rows, CursorAfter(less, rows, cursor, limit, k))
         == PlaceAfter(|rows|, Place(less, rows, cursor), limit, k)
  {
    hide Total, Ascending, Place, ReadPage, NextCursor;
    if k > 0 {
      RunsFollowPlaces(less, rows, cursor, limit, k - 1);
      PageIsSlice(less, rows, CursorAfter(less, rows, cursor, limit, k - 1), limit);
    }
  }

  /** Number of pages of `limit` rows that cover `n` rows. */
  function Pages(n: nat, limit: nat): nat
    requires limit >= 1
  {
    (n + limit - 1) / limit
  }

  /** Run `k` reads row `i`. */
  predicate Reads(n: nat, place: nat, limit: nat, k: nat, i: nat)
    requires place <= n && limit >= 1
  {
    var p := PlaceAfter(n, place, limit, k);
    From(n, p) <= i < Upto(n, p, limit)
  }

  /** Going up from a place, row `i` is read after at most as many runs as pages up to it. */
  lemma {:induction false} ReadOnTheWayUp(n: nat, place: nat, limit: nat, k: nat, i: nat) returns (m: nat)
    requires place <= n && limit >= 1
    requires From(n, PlaceAfter(n, place, limit, k)) <= i < n
    ensures k <= m && Reads(n, place, limit, m, i)
    ensures (m - k) * limit <= i - From(n, PlaceAfter(n, place, limit, k))
    decreases i - From(n, PlaceAfter(n, place, limit, k))
  {
    var p := PlaceAfter(n, place, limit, k);
    m := k;
    assert (k - k) * limit == 0;
    if i >= Upto(n, p, limit) {
      assert PlaceAfter(n, place, limit, k + 1) == From(n, p) + limit < n;
      hide PlaceAfter, Upto, Reads;
      m := ReadOnTheWayUp(n, place, limit, k + 1, i);
      Multiply(0, m - k - 1, limit);
    }
  }

  /** From a place not at the end, the end is reached after so many runs. */
  lemma {:induction false} EndReached(n: nat, place: nat, limit: nat, k: nat) returns (m: nat)
    requires place <= n && limit >= 1 && n > 0
    ensures k < m && PlaceAfter(n, place, limit, m) == n
    ensures (m - 1 - k) * limit < n - From(n, PlaceAfter(n, place, limit, k))
    decreases n - From(n, PlaceAfter(n, place, limit, k))
  {
    var p := PlaceAfter(n, place, limit, k);
    m := k + 1;
    if Upto(n, p, limit) < n {
      m := EndReached(n, place, limit, k + 1);
    }
  }

  /**
   Bounded fairness by places: within one run more than the pages of the table, every row
   is read, from whatever place the cursor starts.
   */
  lemma EveryPlaceRead(n: nat, place: nat, limit: nat, i: nat) returns (k: nat)
    requires place <= n && limit >= 1 && i < n
    ensures k < Pages(n, limit) + 1 && Reads(n, place, limit, k, i)
  {
    var first := From(n, place);
    if first <= i {
      k := ReadOnTheWayUp(n, place, limit, 0, i);
      FewerThanPages(n, limit, k, i - first);
    } else {
      var m := EndReached(n, place, limit, 0);
      k := ReadOnTheWayUp(n, place, limit, m, i);
      assert (m - 1) * limit < n - first;
      assert (k - m) * limit <= i;
      assert (k - 1) * limit == (m - 1) * limit + (k - m) * limit;
      FewerThanPages(n, limit, k - 1, n - 1);
    }
  }

  lemma FewerThanPages(n: nat, limit: nat, k: nat, bound: nat)
    requires limit >= 1 && k * limit <= bound < n
    ensures k < Pages(n, limit)
  {
    var q := Pages(n, limit);
    assert q * limit >= n;
    Multiply(q, k, limit);
  }

  lemma Multiply(a: nat, b: nat, limit: nat)
    ensures a <= b ==> a * limit <= b * limit
    ensures (b + 1) * limit == b * limit + limit
  {}

  /**
   On unchanged eligible rows, from any stored or missing cursor, every row is audited
   within one run more than the table has pages.
   */
  lemma EveryRowAudited<K(!new)>(less: (K, K) -> bool, rows: seq<K>, cursor: Option<K>, limit: nat, i: nat)
    requires Total(less) && Ascending(less, rows) && limit >= 1 && i < |rows|
    ensures exists k :: 0 <= k <= Pages(|rows|, limit) && rows[i] in PageOfRun(less, rows, cursor, limit, k)
  {
    hide Total, Ascending, Place, ReadPage, CursorAfter, PlaceAfter, Pages;
    var n, place := |rows|, Place(less, rows, cursor);
    var k := EveryPlaceRead(n, place, limit, i);
    RunsFollowPlaces(less, rows, cursor, limit, k);
    PageIsSlice(less, rows, CursorAfter(less, rows, cursor, limit, k), limit);
    var p := PlaceAfter(n, place, limit, k);
    var page := PageOfRun(less, rows, cursor, limit, k);
    assert page[i - From(n, p)] == rows[i];
  }

  /** Between two wraps the pages ascend: a page is followed by larger rows, or by the front. */
  lemma PagesAscendUntilWrap<K(!new)>(less: (K, K) -> bool, rows: seq<K>, cursor: Option<K>, limit: nat, k: nat)
    requires Total(less) && Ascending(less, rows) && limit >= 1
    ensures var a, b := PageOfRun(less, rows, cursor, limit, k), PageOfRun(less, rows, cursor, limit, k + 1);
            || (forall x, y | x in a && y in b :: less(x, y))
            || (a != [] && a[|a| - 1] == rows[|rows| - 1] && b == Take(rows, limit))
  {
    hide ReadPage, NextCursor, Place, Take, From, Upto, Ascending, Total;
    var c := CursorAfter(less, rows, cursor, limit, k);
    var a := ReadPage(less, rows, c, limit);
    var c' := NextCursor(c, a);
    assert CursorAfter(less, rows, cursor, limit, k + 1) == c';
    assert PageOfRun(less, rows, cursor, limit, k) == a;
    assert PageOfRun(less, rows, cursor, limit, k + 1) == ReadPage(less, rows, c', limit);
    hide *;
    PageIsSlice(less, rows, c, limit);
    PageIsSlice(less, rows, c', limit);
    NeighbouringSlices(less, rows, Place(less, rows, c), limit);
  }

  lemma NeighbouringSlices<K(!new)>(less: (K, K) -> bool, rows: seq<K>, place: nat, limit: nat)
    requires Ascending(less, rows) && limit >= 1 && place <= |rows|
    ensures var n := |rows|;
            var upto := Upto(n, place, limit);
            var a, b := rows[From(n, place)..upto], rows[From(n, upto)..Upto(n, upto, limit)];
            || (forall x, y | x in a && y in b :: less(x, y))
            || (a != [] && a[|a| - 1] == rows[|rows| - 1] && b == Take(rows, limit))
  {
    var n := |rows|;
    var upto := Upto(n, place, limit);
    var a, b := rows[From(n, place)..upto], rows[From(n, upto)..Upto(n, upto, limit)];
    if upto < n {
      forall x, y | x in a && y in b ensures less(x, y) {
        var i :| 0 <= i < |a| && a[i] == x;
        var j :| 0 <= j < |b| && b[j] == y;
        assert x == rows[From(n, place) + i] && y == rows[upto + j];
      }
    }
  }

  /** As long as no run reaches the end, each starts where the one before it ended. */
  lemma {:induction false} PlacesClimb(n: nat, place: nat, limit: nat, j: nat, k: nat)
    requires place <= n && limit >= 1 && j < k
    requires forall x: nat | j <= x < k :: Upto(n, PlaceAfter(n, place, limit, x), limit) < n
    ensures Upto(n, PlaceAfter(n, place, limit, j), limit) <= From(n, PlaceAfter(n, place, limit, k))
  {
    assert Upto(n, PlaceAfter(n, place, limit, k - 1), limit) < n;
    if j < k - 1 { PlacesClimb(n, place, limit, j, k - 1); }
  }

  lemma PageOfPlace<K(!new)>(less: (K, K) -> bool, rows: seq<K>, cursor: Option<K>, limit: nat, k: nat)
    requires Total(less) && Ascending(less, rows) && limit >= 1
    ensures var n := |rows|;
            var p := PlaceAfter(n, Place(less, rows, cursor), limit, k);
            && From(n, p) <= Upto(n, p, limit) <= n
            && PageOfRun(less, rows, cursor, limit, k) == rows[From(n, p)..Upto(n, p, limit)]
  {
    hide ReadPage, NextCursor, Place, Take, From, Upto, Ascending, Total, PlaceAfter;
    RunsFollowPlaces(less, rows, cursor, limit, k);
    PageIsSlice(less, rows, CursorAfter(less, rows, cursor, limit, k), limit);
  }

  /**
   Any two pages between two wraps ascend and are disjoint: no run from `j` on has reached the last row before
   run `k`.
   */
  lemma PagesBetweenWraps<K(!new)>(less: (K, K) -> bool, rows: seq<K>, cursor: Option<K>, limit: nat, j: nat, k: nat)
    requires Total(less) && Ascending(less, rows) && limit >= 1 && |rows| > 0 && j < k
    requires forall x: nat | j <= x < k :: rows[|rows| - 1] !in PageOfRun(less, rows, cursor, limit, x)
    ensures forall a, b | a in PageOfRun(less, rows, cursor, limit, j) && b in PageOfRun(less, rows, cursor, limit, k) ::
              less(a, b) && a != b
  {
    hide ReadPage, NextCursor, Place, Take, CursorAfter, PageOfRun, PlaceAfter;
    var n, place := |rows|, Place(less, rows, cursor);
    forall x: nat | j <= x < k ensures Upto(n, PlaceAfter(n, place, limit, x), limit) < n {
      PageOfPlace(less, rows, cursor, limit, x);
      LastInSlice(rows, From(n, PlaceAfter(n, place, limit, x)), Upto(n, PlaceAfter(n, place, limit, x), limit));
    }
    PlacesClimb(n, place, limit, j, k);
    PageOfPlace(less, rows, cursor, limit, j);
    PageOfPlace(less, rows, cursor, limit, k);
    var p, q := PlaceAfter(n, place, limit, j), PlaceAfter(n, place, limit, k);
    SlicesAscend(less, rows, From(n, p), Upto(n, p, limit), From(n, q), Upto(n, q, limit));
  }

  lemma LastInSlice<K>(rows: seq<K>, p: nat, q: nat)
    requires p <= q <= |rows| && |rows| > 0
    ensures q == |rows| && p < q ==> rows[|rows| - 1] in rows[p..q]
  {
    if q == |rows| && p < q { assert rows[p..q][q - 1 - p] == rows[q - 1]; }
  }

  lemma SlicesAscend<K(!new)>(less: (K, K) -> bool, rows: seq<K>, p: nat, q: nat, p': nat, q': nat)
    requires Total(less) && Ascending(less, rows) && p <= q <= p' <= q' <= |rows|
    ensures forall a, b | a in rows[p..q] && b in rows[p'..q'] :: less(a, b) && a != b
  {
    forall a, b | a in rows[p..q] && b in rows[p'..q'] ensures less(a, b) && a != b {
      var i :| 0 <= i < q - p && rows[p..q][i] == a;
      var j :| 0 <= j < q' - p' && rows[p'..q'][j] == b;
      assert a == rows[p + i] && b == rows[p' + j] && less(rows[p + i], rows[p' + j]);
    }
  }

  // ----- the audit job -----

  datatype Cursor = Cursor(media: Option<MediaKey>, manifest: Option<ManifestKey>)

  datatype Result = Result(checkedMedia: nat, checkedManifests: nat, missingPublic: nat, missingPrivate: nat)

  /** Objects of these rows that storage does not have; each media row has two. */
  function MissingPublic(page: seq<MediaKey>, has: MediaKey -> (bool, bool)): (n: nat)
    ensures n <= 2 * |page|
  {
    if page == [] then 0
    else
      var last := has(page[|page| - 1]);
      MissingPublic(page[..|page| - 1], has) + (if last.0 then 0 else 1) + (if last.1 then 0 else 1)
  }

  function MissingPrivate(page: seq<ManifestKey>, has: ManifestKey -> bool): (n: nat)
    ensures n <= |page|
  {
    if page == [] then 0
    else MissingPrivate(page[..|page| - 1], has) + if has(page[|page| - 1]) then 0 else 1
  }

  /** The rows of a page for which storage lacks an object, by their places. */
  function Lacking<K>(page: seq<K>, lacks: K -> bool): set<nat> { set i: nat | i < |page| && lacks(page[i]) }

  lemma LackingStep<K>(page: seq<K>, lacks: K -> bool)
    requires page != []
    ensures |Lacking(page, lacks)| == |Lacking(page[..|page| - 1], lacks)| + if lacks(page[|page| - 1]) then 1 else 0
  {
    var n := |page| - 1;
    var front := page[..n];
    assert forall i: nat | i < n :: front[i] == page[i];
    if lacks(page[n]) {
      assert Lacking(page, lacks) == Lacking(front, lacks) + {n};
    } else {
      assert Lacking(page, lacks) == Lacking(front, lacks);
    }
  }

  /** The two counts: the rows without their source plus those without their derivative. */
  lemma {:induction false} MissingPublicCounts(page: seq<MediaKey>, has: MediaKey -> (bool, bool))
    ensures MissingPublic(page, has) == |Lacking(page, x => !has(x).0)| + |Lacking(page, x => !has(x).1)|
  {
    if page == [] {
      assert Lacking(page, x => !has(x).0) == {} && Lacking(page, x => !has(x).1) == {};
    } else {
      MissingPublicCounts(page[..|page| - 1], has);
      LackingStep(page, x => !has(x).0);
      LackingStep(page, x => !has(x).1);
    }
  }

  lemma {:induction false} MissingPrivateCounts(page: seq<ManifestKey>, has: ManifestKey -> bool)
    ensures MissingPrivate(page, has) == |Lacking(page, x => !has(x))|
  {
    if page == [] {
      assert Lacking(page, x => !has(x)) == {};
    } else {
      MissingPrivateCounts(page[..|page| - 1], has);
      LackingStep(page, x => !has(x));
    }
  }

  class AuditJob {
    /** The cursor kept in the key-value store; a missing or malformed part is `None`. */
    var stored: Cursor

    constructor (stored: Cursor)
      ensures this.stored == stored
    {
      this.stored := stored;
    }

    /** One run; rows are the eligible rows in query order, `hasPublic` and `hasPrivate` ask storage. */
    method Run(media: seq<MediaKey>, manifests: seq<ManifestKey>, limit: int,
               hasPublic: MediaKey -> (bool, bool), hasPrivate: ManifestKey -> bool) returns (r: Result)
      modifies this
      ensures var bounded := if limit < 1 then 1 else if limit > 100 then 100 else limit;
              var assets := ReadPage(MediaLess, media, old(stored).media, bounded);
              var uploads := ReadPage(ManifestLess, manifests, old(stored).manifest, bounded);
              && stored == Cursor(NextCursor(old(stored).media, assets), NextCursor(old(stored).manifest, uploads))
              && r.checkedMedia == |assets| && r.checkedManifests == |uploads|
              && r.missingPublic == |Lacking(assets, x => !hasPublic(x).0)| + |Lacking(assets, x => !hasPublic(x).1)|
              && r.missingPrivate == |Lacking(uploads, x => !hasPrivate(x))|
      ensures media == [] ==> stored.media == old(stored).media
      ensures manifests == [] ==> stored.manifest == old(stored).manifest
    {
      var bounded := if limit < 1 then 1 else if limit > 100 then 100 else limit;
      var assets := ReadPage(MediaLess, media, stored.media, bounded);
      var uploads := ReadPage(ManifestLess, manifests, stored.manifest, bounded);
      var missingPublic := 0;
      for i := 0 to |assets|
        invariant missingPublic == MissingPublic(assets[..i], hasPublic)
      {
        assert assets[..i + 1][..i] == assets[..i];
        var (source, derivative) := hasPublic(assets[i]);
        if !source || !derivative {
          missingPublic := missingPublic + (if source then 0 else 1) + (if derivative then 0 else 1);
        }
      }
      var missingPrivate := 0;
      for i := 0 to |uploads|
        invariant missingPrivate == MissingPrivate(uploads[..i], hasPrivate)
      {
        assert uploads[..i + 1][..i] == uploads[..i];
        if !hasPrivate(uploads[i]) { missingPrivate := missingPrivate + 1; }
      }
      assert assets[..|assets|] == assets && uploads[..|uploads|] == uploads;
      if assets != [] || uploads != [] {
        stored := Cursor(if assets != [] then Some(assets[|assets| - 1]) else stored.media,
                         if uploads != [] then Some(uploads[|uploads| - 1]) else stored.manifest);
      }
      MissingPublicCounts(assets, hasPublic);
      MissingPrivateCounts(uploads, hasPrivate);
      r := Result(|assets|, |uploads|, missingPublic, missingPrivate);
    }
  }
}
