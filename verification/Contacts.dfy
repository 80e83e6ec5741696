/**
 The encrypted contact store: request checks, the table with its three statements, and
 last-writer-wins convergence of repeated writes to one contact.
 */
module Contacts {
  import opened Bytes
  import opened Text
  import Base64

  datatype Key = Key(cid: string, revision: nat, account: string, contactId: string)

  /** The ciphertext columns of a row. */
  datatype Row = Row(ciphertext: string, nonce: string, mac: string, updatedAt: nat)

  /** The binding a request was admitted under: it was the current one of its CID at that time. */
  datatype Session = Session(cid: string, revision: nat, account: string)

  datatype Error =
    | InvalidContactId | InvalidBinding | BindingNotAllowed
    | InvalidCiphertext | InvalidNonce | InvalidMac | InvalidUpdatedAt | InvalidCursor

  datatype Result<+T> = Ok(value: T) | Fail(error: Error) {
    predicate IsFailure() { Fail? }
    function PropagateFailure<U>(): Result<U> requires Fail? { Fail(error) }
    function Extract(): T requires Ok? { value }
  }

  const MAX_FUTURE_SKEW_MS: nat := 300_000
  const MAX_CIPHERTEXT_BYTES: nat := 8192
  const NONCE_BYTES: nat := 12
  const MAC_BYTES: nat := 16

  // ----- request checks -----

  predicate IsAccountId(s: string) { |s| == 66 && s[..2] == "0x" && LowerHex(s[2..], 64) }

  datatype Operation = WriteOp | DeleteOp

  /** `revision` is the number the request carries; `None` stands for anything that is not a number. */
  function ParseCipherBinding(revision: Option<int>, account: string, session: Session, op: Operation)
    : (r: Result<(nat, string)>)
  {
    if revision.None? || !(0 < revision.value <= MAX_SAFE_INTEGER) then Fail(InvalidBinding)
    else if !IsAccountId(account) then Fail(InvalidBinding)
    else if revision.value == session.revision && account == session.account then Ok((revision.value, account))
    else if op == DeleteOp && revision.value + 1 == session.revision && account != session.account then
      Ok((revision.value, account))
    else Fail(BindingNotAllowed)
  }

  function ParseContactId(id: string): (r: Result<string>) {
    if LowerHex(id, 64) then Ok(id) else Fail(InvalidContactId)
  }

  function ParseUpdatedAt(t: int, now: nat): (r: Result<nat>) {
    if 0 < t <= MAX_SAFE_INTEGER && t <= now + MAX_FUTURE_SKEW_MS then Ok(t) else Fail(InvalidUpdatedAt)
  }

  /** The ciphertext, nonce and mac of a PUT, checked in this order, then its timestamp. */
  function ParseRow(row: Row, now: nat): (r: Result<Row>) {
    if Base64.ParseBase64Url(row.ciphertext, 1, MAX_CIPHERTEXT_BYTES).None? then Fail(InvalidCiphertext)
    else if Base64.ParseBase64Url(row.nonce, NONCE_BYTES, NONCE_BYTES).None? then Fail(InvalidNonce)
    else if Base64.ParseBase64Url(row.mac, MAC_BYTES, MAC_BYTES).None? then Fail(InvalidMac)
    else
      var _ :- ParseUpdatedAt(row.updatedAt, now);
      Ok(row)
  }

  /** A stored row: an encoded 12-byte nonce is 16 characters, an encoded 16-byte mac 22. */
  predicate WellFormed(row: Row) {
    && 1 < |row.ciphertext| <= 10923 && |row.nonce| == 16 && |row.mac| == 22
    && (forall c | c in row.ciphertext + row.nonce + row.mac :: Base64.IsUrlChar(c))
    && 0 < row.updatedAt <= MAX_SAFE_INTEGER
  }

  lemma ParsedRowShape(row: Row, now: nat)
    requires ParseRow(row, now).Ok?
    ensures WellFormed(row) && row.updatedAt <= now + MAX_FUTURE_SKEW_MS
  {
    hide Base64.ParseBase64Url, Base64.IsUrlChar;
    Base64.ParseBase64UrlExactly(row.ciphertext, 1, MAX_CIPHERTEXT_BYTES);
    Base64.ParseBase64UrlExactly(row.nonce, NONCE_BYTES, NONCE_BYTES);
    Base64.ParseBase64UrlExactly(row.mac, MAC_BYTES, MAC_BYTES);
  }

  // ----- cursor text -----

  /** A place in the listing order. */
  datatype Pos = Pos(updatedAt: nat, contactId: string)

  function FormatCursor(p: Pos): string { Decimal(p.updatedAt) + "." + p.contactId }

  /** A missing or empty cursor starts at the front. */
  function ParseCursor(value: Option<string>): (r: Result<Option<Pos>>) {
    if value.None? || value.value == "" then Ok(None)
    else
      var v := value.value;
      var k := |v| - 65;
      if k <= 0 || v[k] != '.' || !Digits(v[..k]) || !LowerHex(v[k + 1..], 64) then Fail(InvalidCursor)
      else
        var t := ParseDecimal(v[..k]);
        if t <= 0 || t > MAX_SAFE_INTEGER then Fail(InvalidCursor) else Ok(Some(Pos(t, v[k + 1..])))
  }

  /** A place that a stored row can have. */
  predicate Listed(p: Pos) { 0 < p.updatedAt <= MAX_SAFE_INTEGER && LowerHex(p.contactId, 64) }

  /** The cursor handed out for a row is read back as that row's place. */
  lemma CursorRoundTrip(p: Pos)
    requires Listed(p)
    ensures ParseCursor(Some(FormatCursor(p))) == Ok(Some(p))
  {
    var v := FormatCursor(p);
    var d := Decimal(p.updatedAt);
    assert |v| - 65 == |d|;
    assert v[..|d|] == d && v[|d| + 1..] == p.contactId;
    DecimalRoundTrip(p.updatedAt);
  }

  // ----- one contact under repeated writes -----

  /** INSERT ... ON CONFLICT DO UPDATE ... WHERE excluded.updated_at >= updated_at. */
  function Upsert(stored: Option<Row>, row: Row): (r: Option<Row>) {
    if stored.None? || row.updatedAt >= stored.value.updatedAt then Some(row) else stored
  }

  function AfterPuts(stored: Option<Row>, puts: seq<Row>): (r: Option<Row>)
    decreases |puts|
  {
    if puts == [] then stored else AfterPuts(Upsert(stored, puts[0]), puts[1..])
  }

  /** `k` is the last of the puts that carry the greatest timestamp. */
  predicate LastGreatest(puts: seq<Row>, k: nat) {
    && k < |puts|
    && (forall j | 0 <= j < |puts| :: puts[j].updatedAt <= puts[k].updatedAt)
    && (forall j | k < j < |puts| :: puts[j].updatedAt < puts[k].updatedAt)
  }

  /** The row that stays is the last in arrival order among those with the greatest timestamp. */
  lemma {:induction false} LastGreatestStays(puts: seq<Row>) returns (k: nat)
    requires puts != []
    ensures LastGreatest(puts, k) && AfterPuts(None, puts) == Some(puts[k])
  {
    assert Upsert(None, puts[0]) == Some(puts[0]);
    k := GreatestFrom(puts, 1, 0);
    assert puts[1..] == puts[1..];
  }

  lemma {:induction false} GreatestFrom(puts: seq<Row>, i: nat, best: nat) returns (k: nat)
    requires best < i <= |puts| && LastGreatest(puts[..i], best)
    ensures LastGreatest(puts, k) && AfterPuts(Some(puts[best]), puts[i..]) == Some(puts[k])
    decreases |puts| - i
  {
    if i == |puts| {
      assert puts[..i] == puts;
      k := best;
    } else {
      assert puts[i..][0] == puts[i] && puts[i..][1..] == puts[i + 1..];
      var best' := if puts[i].updatedAt >= puts[best].updatedAt then i else best;
      assert puts[..i + 1][..i] == puts[..i];
      assert forall j | 0 <= j < i :: puts[..i + 1][j] == puts[..i][j];
      k := GreatestFrom(puts, i + 1, best');
    }
  }

  /** The stored timestamp never falls. */
  lemma {:induction false} UpdatedAtNeverFalls(stored: Row, puts: seq<Row>)
    ensures AfterPuts(Some(stored), puts).Some?
            && AfterPuts(Some(stored), puts).value.updatedAt >= stored.updatedAt
    decreases |puts|
  {
    if puts != [] {
      UpdatedAtNeverFalls(Upsert(Some(stored), puts[0]).value, puts[1..]);
    }
  }

  /**
   Convergence: two deliveries of the same puts, in any order and with any repetitions,
   leave the same row, as long as equal timestamps mean equal puts.
   */
  lemma DeliveriesConverge(a: seq<Row>, b: seq<Row>)
    requires forall r :: r in a <==> r in b
    requires forall r, q | r in a && q in a && r.updatedAt == q.updatedAt :: r == q
    ensures AfterPuts(None, a) == AfterPuts(None, b)
  {
    assert b != [] ==> b[0] in b;
    if a != [] {
      assert a[0] in b;
      var j := LastGreatestStays(a);
      var k := LastGreatestStays(b);
      assert a[j] in b && b[k] in a;
      var k' :| 0 <= k' < |b| && b[k'] == a[j];
      var j' :| 0 <= j' < |a| && a[j'] == b[k];
    }
  }

  // ----- the table -----

  class ContactTable {
    var rows: map<Key, Row>

    constructor ()
      ensures rows == map[]
    {
      rows := map[];
    }

    /** PUT: the checks in the order of the handler, then one upsert; the result is `applied`. */
    method Put(session: Session, contactId: string, revision: Option<int>, account: string,
               row: Row, now: nat) returns (r: Result<bool>)
      modifies this
      ensures match PutTarget(session, contactId, revision, account, row, now)
              case Fail(e) => r == Fail(e) && rows == old(rows)
              case Ok(k) =>
                && k in rows && Some(rows[k]) == Upsert(Lookup(old(rows), k), row)
                && rows == old(rows)[k := rows[k]]
                && r == Ok(rows[k] == row)
    {
      var id :- ParseContactId(contactId);
      var target :- ParseCipherBinding(revision, account, session, WriteOp);
      var _ :- ParseRow(row, now);
      var k := Key(session.cid, target.0, target.1, id);
      if k !in rows || row.updatedAt >= rows[k].updatedAt {
        rows := rows[k := row];
        return Ok(true);
      }
      return Ok(false);
    }

    /** DELETE: one statement on the named key; the result is `deleted`. */
    method Delete(session: Session, contactId: string, revision: Option<int>, account: string)
      returns (r: Result<bool>)
      modifies this
      ensures match DeleteTarget(session, contactId, revision, account)
              case Fail(e) => r == Fail(e) && rows == old(rows)
              case Ok(k) => r == Ok(k in old(rows)) && rows == old(rows) - {k}
    {
      var id :- ParseContactId(contactId);
      var target :- ParseCipherBinding(revision, account, session, DeleteOp);
      var k := Key(session.cid, target.0, target.1, id);
      r := Ok(k in rows);
      rows := rows - {k};
    }
  }

  function Lookup(rows: map<Key, Row>, k: Key): Option<Row> {
    if k in rows then Some(rows[k]) else None
  }

  /** The key a PUT may write. */
  function PutTarget(session: Session, contactId: string, revision: Option<int>, account: string,
                     row: Row, now: nat): (r: Result<Key>)
  {
    var id :- ParseContactId(contactId);
    var target :- ParseCipherBinding(revision, account, session, WriteOp);
    var _ :- ParseRow(row, now);
    Ok(Key(session.cid, target.0, target.1, id))
  }

  /** The key a DELETE may remove. */
  function DeleteTarget(session: Session, contactId: string, revision: Option<int>, account: string)
    : (r: Result<Key>)
  {
    var id :- ParseContactId(contactId);
    var target :- ParseCipherBinding(revision, account, session, DeleteOp);
    Ok(Key(session.cid, target.0, target.1, id))
  }
}
