/**
 What the contact requests accept, written out on the text of the request: which one is refused, with
 which error, and which row it names otherwise; and what a cursor may look like.
 */
module ContactChecks {
  import opened Bytes
  import opened Text
  import opened Contacts
  import opened ContactRuns
  import Base64

  // ----- the text of a request -----

  predicate HexText(s: string, n: nat) {
    |s| == n && forall i | 0 <= i < n :: '0' <= s[i] <= '9' || 'a' <= s[i] <= 'f'
  }

  predicate AccountText(s: string) { |s| == 66 && s[0] == '0' && s[1] == 'x' && HexText(s[2..], 64) }

  /** A number from 1 to 2^53 - 1. */
  predicate PositiveSafe(n: int) { 0 < n < 0x20_0000_0000_0000 }

  predicate UrlText(s: string) {
    forall i | 0 <= i < |s| ::
      'A' <= s[i] <= 'Z' || 'a' <= s[i] <= 'z' || '0' <= s[i] <= '9' || s[i] == '-' || s[i] == '_'
  }

  /** One to 8192 encoded bytes. */
  predicate CiphertextText(s: string) { UrlText(s) && |s| % 4 != 1 && 2 <= |s| <= 10923 }

  predicate BindingText(revision: Option<int>, account: string) {
    revision.Some? && PositiveSafe(revision.value) && AccountText(account)
  }

  predicate IsCurrent(session: Session, revision: int, account: string) {
    revision == session.revision && account == session.account
  }

  predicate IsPrevious(session: Session, revision: int, account: string) {
    revision + 1 == session.revision && account != session.account
  }

  lemma HexIsHex(s: string, n: nat)
    ensures LowerHex(s, n) <==> HexText(s, n)
  {
    if LowerHex(s, n) {
      forall i | 0 <= i < n ensures '0' <= s[i] <= '9' || 'a' <= s[i] <= 'f' { assert s[i] in s; }
    }
  }

  lemma AccountIsAccount(s: string)
    ensures IsAccountId(s) <==> AccountText(s)
  {
    if |s| == 66 {
      HexIsHex(s[2..], 64);
      assert s[..2] == "0x" <==> s[0] == '0' && s[1] == 'x';
    }
    hide LowerHex, HexText;
  }

  lemma UrlIsUrl(s: string)
    ensures (forall c | c in s :: Base64.IsUrlChar(c)) <==> UrlText(s)
  {
    if forall c | c in s :: Base64.IsUrlChar(c) {
      forall i | 0 <= i < |s|
        ensures 'A' <= s[i] <= 'Z' || 'a' <= s[i] <= 'z' || '0' <= s[i] <= '9' || s[i] == '-' || s[i] == '_'
      {
        assert s[i] in s && Base64.IsUrlChar(s[i]);
      }
    }
  }

  /** The answer to a DELETE, without the checks: which error, or the row it deletes. */
  lemma DeleteAcceptedExactly(session: Session, contactId: string, revision: Option<int>, account: string)
    ensures DeleteTarget(session, contactId, revision, account)
         == if !HexText(contactId, 64) then Fail(InvalidContactId)
            else if !BindingText(revision, account) then Fail(InvalidBinding)
            else if !IsCurrent(session, revision.value, account) && !IsPrevious(session, revision.value, account)
            then Fail(BindingNotAllowed)
            else Ok(Key(session.cid, revision.value, account, contactId))
  {
    HexIsHex(contactId, 64);
    AccountIsAccount(account);
    hide LowerHex, HexText, IsAccountId, AccountText;
  }

  lemma FieldIs(value: string, minBytes: nat, maxBytes: nat)
    requires minBytes > 0
    ensures Base64.ParseBase64Url(value, minBytes, maxBytes).Some?
            <==> UrlText(value) && |value| % 4 != 1 && minBytes <= 3 * |value| / 4 <= maxBytes
  {
    Base64.ParseBase64UrlExactly(value, minBytes, maxBytes);
    UrlIsUrl(value);
    hide UrlText, Base64.ParseBase64Url;
  }

  /** A nonce has 12 bytes, a mac 16: their encodings have one length each. */
  lemma RowAcceptedExactly(row: Row, now: nat)
    ensures ParseRow(row, now)
         == if !CiphertextText(row.ciphertext) then Fail(InvalidCiphertext)
            else if !(UrlText(row.nonce) && |row.nonce| == 16) then Fail(InvalidNonce)
            else if !(UrlText(row.mac) && |row.mac| == 22) then Fail(InvalidMac)
            else if !(PositiveSafe(row.updatedAt) && row.updatedAt <= now + 300_000) then Fail(InvalidUpdatedAt)
            else Ok(row)
  {
    hide UrlText, Base64.ParseBase64Url;
    FieldIs(row.ciphertext, 1, MAX_CIPHERTEXT_BYTES);
    FieldIs(row.nonce, NONCE_BYTES, NONCE_BYTES);
    FieldIs(row.mac, MAC_BYTES, MAC_BYTES);
    FieldLengths(|row.ciphertext|);
    FieldLengths(|row.nonce|);
    FieldLengths(|row.mac|);
  }

  lemma FieldLengths(n: nat)
    ensures n % 4 != 1 && 1 <= 3 * n / 4 <= 8192 <==> n % 4 != 1 && 2 <= n <= 10923
    ensures n % 4 != 1 && 12 <= 3 * n / 4 <= 12 <==> n == 16
    ensures n % 4 != 1 && 16 <= 3 * n / 4 <= 16 <==> n == 22
  {}

  /** The answer to a PUT, without the checks: which error, or the row it writes. */
  lemma PutAcceptedExactly(session: Session, contactId: string, revision: Option<int>, account: string,
                           row: Row, now: nat)
    ensures PutTarget(session, contactId, revision, account, row, now)
         == if !HexText(contactId, 64) then Fail(InvalidContactId)
            else if !BindingText(revision, account) then Fail(InvalidBinding)
            else if !IsCurrent(session, revision.value, account) then Fail(BindingNotAllowed)
            else if !CiphertextText(row.ciphertext) then Fail(InvalidCiphertext)
            else if !(UrlText(row.nonce) && |row.nonce| == 16) then Fail(InvalidNonce)
            else if !(UrlText(row.mac) && |row.mac| == 22) then Fail(InvalidMac)
            else if !(PositiveSafe(row.updatedAt) && row.updatedAt <= now + 300_000) then Fail(InvalidUpdatedAt)
            else Ok(Key(session.cid, revision.value, account, contactId))
  {
    HexIsHex(contactId, 64);
    AccountIsAccount(account);
    RowAcceptedExactly(row, now);
    hide LowerHex, HexText, IsAccountId, AccountText, ParseRow, CiphertextText, UrlText;
  }

  // ----- the rows of the current binding over runs -----

  /** The key lies under the binding in force, and can be named by a request. */
  predicate UnderCurrent(s: State, k: Key) {
    && k.cid in s.current && s.current[k.cid] == Binding(k.revision, k.account)
    && PositiveSafe(k.revision) && AccountText(k.account) && HexText(k.contactId, 64)
  }

  lemma RowDeletable(s: State, k: Key) returns (steps: seq<Step>, s': State)
    requires UnderCurrent(s, k)
    ensures Run(s, steps, s') && s' == s.(rows := s.rows - {k})
  {
    var session := Session(k.cid, k.revision, k.account);
    var request := DeleteRequest(k.contactId, Some(k.revision), k.account);
    DeleteAcceptedExactly(session, k.contactId, Some(k.revision), k.account);
    var id := FreshId(s);
    hide HexText, AccountText, DeleteTarget;
    var t, u := Admit(id, session, request), Execute(id, 0);
    var s1 := Apply(s, t);
    assert Target(Pending(session, request), 0) == Ok(k);
    TwoSteps(s, t, u);
    steps, s' := [t, u], Apply(s1, u);
    assert s'.pending == s.pending;
  }

  /** The columns of a row that can be stored at some time. */
  predicate RowText(row: Row) {
    && CiphertextText(row.ciphertext) && UrlText(row.nonce) && |row.nonce| == 16
    && UrlText(row.mac) && |row.mac| == 22 && PositiveSafe(row.updatedAt)
  }

  lemma RowUpserted(s: State, k: Key, row: Row) returns (steps: seq<Step>, s': State)
    requires UnderCurrent(s, k) && RowText(row)
    ensures Run(s, steps, s') && s' == s.(rows := s.rows[k := Upsert(Lookup(s.rows, k), row).value])
  {
    var session := Session(k.cid, k.revision, k.account);
    var request := PutRequest(k.contactId, Some(k.revision), k.account, row);
    PutAcceptedExactly(session, k.contactId, Some(k.revision), k.account, row, row.updatedAt);
    var id := FreshId(s);
    hide HexText, AccountText, PutTarget, CiphertextText, UrlText;
    var t, u := Admit(id, session, request), Execute(id, row.updatedAt);
    var s1 := Apply(s, t);
    assert Target(Pending(session, request), row.updatedAt) == Ok(k);
    TwoSteps(s, t, u);
    steps, s' := [t, u], Apply(s1, u);
    assert s'.pending == s.pending;
  }

  /** In every reachable state some run removes a row of the current binding and changes nothing else. */
  lemma CurrentRowRemovable(steps: seq<Step>, s: State, k: Key)
    requires Run(INIT, steps, s) && k in s.rows
    requires k.cid in s.current && s.current[k.cid] == Binding(k.revision, k.account)
    ensures exists more, s' :: Run(s, more, s') && s' == s.(rows := s.rows - {k})
  {
    EveryRunPlacesRows(steps, s);
    HexIsHex(k.contactId, 64);
    AccountIsAccount(k.account);
    hide Run, AccountText, HexText, IsAccountId, LowerHex, WellFormed;
    assert Placed(s, k);
    var more, s' := RowDeletable(s, k);
  }

  /** From any state on, any row that passes the checks can be brought under any key of the current binding. */
  lemma CurrentRowWritable(s: State, k: Key, row: Row)
    requires UnderCurrent(s, k) && RowText(row)
    ensures exists more, s' :: Run(s, more, s') && s' == s.(rows := s.rows[k := row])
  {
    hide Run, RowText, AccountText, HexText;
    var more, s' := RowDeletable(s, k);
    var rest, s'' := RowUpserted(s', k, row);
    RunTogether(s, more, s', rest, s'');
    assert (s.rows - {k})[k := row] == s.rows[k := row];
  }

  lemma {:induction false} RunTogether(s: State, a: seq<Step>, m: State, b: seq<Step>, s': State)
    requires Run(s, a, m) && Run(m, b, s')
    ensures Run(s, a + b, s')
    decreases |a|
  {
    hide Apply, Enabled;
    if a == [] {
      assert a + b == b;
    } else {
      assert (a + b)[1..] == a[1..] + b && (a + b)[0] == a[0];
      RunTogether(Apply(s, a[0]), a[1..], m, b, s');
    }
  }

  // ----- cursors -----

  predicate NumberText(s: string) { s != "" && forall i | 0 <= i < |s| :: '0' <= s[i] <= '9' }

  /** The number a string of digits denotes: the digits in their order, leading zeros included. */
  function Denoted(s: string): nat
    requires NumberText(s)
  {
    var d := s[|s| - 1] as int - '0' as int;
    if |s| == 1 then d else assert NumberText(s[..|s| - 1]); d + 10 * Denoted(s[..|s| - 1])
  }

  lemma NumberIsNumber(s: string)
    ensures Digits(s) <==> NumberText(s)
  {
    if Digits(s) {
      forall i | 0 <= i < |s| ensures '0' <= s[i] <= '9' { assert s[i] in s && IsDigit(s[i]); }
    }
  }

  lemma {:induction false} DenotedIsParsed(s: string)
    requires Digits(s)
    ensures NumberText(s) && Denoted(s) == ParseDecimal(s)
  {
    NumberIsNumber(s);
    if |s| > 1 {
      DigitsPrefix(s);
      DenotedIsParsed(s[..|s| - 1]);
    }
  }

  /** What stands in front of the last 65 characters. */
  function CursorDigits(v: string): string { if |v| < 65 then "" else v[..|v| - 65] }

  /** Decimal digits of a positive safe number, a dot and 64 hexadecimal digits. */
  predicate CursorText(v: string, p: Pos) {
    var digits := CursorDigits(v);
    && v == digits + "." + p.contactId && HexText(p.contactId, 64)
    && NumberText(digits) && Denoted(digits) == p.updatedAt && PositiveSafe(p.updatedAt)
  }

  /** A cursor is a place exactly when it is written like this; none is the front, every other one is refused. */
  lemma CursorAcceptedExactly(v: string, p: Pos)
    ensures ParseCursor(Some(v)) == Ok(Some(p)) <==> CursorText(v, p)
    ensures v == "" <==> ParseCursor(Some(v)) == Ok(None)
    ensures ParseCursor(Some(v)).Fail? ==> ParseCursor(Some(v)) == Fail(InvalidCursor)
  {
    var k := |v| - 65;
    if k > 0 {
      HexIsHex(v[k + 1..], 64);
      NumberIsNumber(v[..k]);
      if Digits(v[..k]) { DenotedIsParsed(v[..k]); }
      assert v == v[..k] + [v[k]] + v[k + 1..];
      hide Digits, NumberText, HexText, LowerHex, Denoted, ParseDecimal;
      if CursorText(v, p) { SplitBehind(v[..k], '.', p.contactId); }
    } else {
      hide HexText, LowerHex;
    }
  }

  lemma SplitBehind(a: string, c: char, b: string)
    ensures (a + [c] + b)[|a|] == c && (a + [c] + b)[|a| + 1..] == b
  {}
}
