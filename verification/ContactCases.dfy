/**
 Runs of the contact store that show what its checks do not rule out: a request overtaken by
 a re-binding, and a row left behind by one.
 */
module ContactCases {
  import opened Bytes
  import opened Text
  import opened Contacts
  import opened ContactRuns
  import Base64

  const CID := "ZS001"
  const ID: string := Repeat('a', 64)
  const FIRST: string := "0x" + Repeat('1', 64)
  const SECOND: string := "0x" + Repeat('2', 64)
  const ROW: Row := Row("AA", Repeat('A', 16), Repeat('A', 22), 1)

  const KEY := Key(CID, 1, FIRST, ID)
  const PUT := PutRequest(ID, Some(1), FIRST, ROW)
  const DELETE := DeleteRequest(ID, Some(1), FIRST)

  lemma RepeatIsAccount(c: char)
    requires IsLowerHex(c)
    ensures IsAccountId("0x" + Repeat(c, 64)) && LowerHex(Repeat(c, 64), 64)
  {
    var a := Repeat(c, 64);
    hide Repeat;
    assert ("0x" + a)[..2] == "0x" && ("0x" + a)[2..] == a;
  }

  lemma TwoAccounts()
    ensures FIRST != SECOND
  {
    var a, b := Repeat('1', 64), Repeat('2', 64);
    hide Repeat;
    assert a[0] in a && b[0] in b;
    assert ("0x" + a)[2] == a[0] && ("0x" + b)[2] == b[0];
  }

  lemma SampleAccounts()
    ensures IsAccountId(FIRST) && IsAccountId(SECOND) && LowerHex(ID, 64) && FIRST != SECOND
  {
    hide IsAccountId, LowerHex, Repeat;
    RepeatIsAccount('a');
    RepeatIsAccount('1');
    RepeatIsAccount('2');
    TwoAccounts();
  }

  lemma SampleAlphabet()
    ensures forall c | c in ROW.ciphertext :: Base64.IsUrlChar(c)
    ensures forall c | c in ROW.nonce :: Base64.IsUrlChar(c)
    ensures forall c | c in ROW.mac :: Base64.IsUrlChar(c)
  {
  }

  lemma SampleRow(now: nat)
    ensures ParseRow(ROW, now) == Ok(ROW)
  {
    SampleAlphabet();
    hide Base64.ParseBase64Url, Base64.IsUrlChar, Repeat;
    Base64.ParseBase64UrlExactly(ROW.ciphertext, 1, MAX_CIPHERTEXT_BYTES);
    Base64.ParseBase64UrlExactly(ROW.nonce, NONCE_BYTES, NONCE_BYTES);
    Base64.ParseBase64UrlExactly(ROW.mac, MAC_BYTES, MAC_BYTES);
  }

  lemma PutNamesKey(now: nat)
    ensures Target(Pending(Session(CID, 1, FIRST), PUT), now) == Ok(KEY)
  {
    SampleAccounts();
    SampleRow(now);
    hide IsAccountId, LowerHex, ParseRow;
  }

  lemma DeleteNamesKey(now: nat)
    ensures Target(Pending(Session(CID, 2, SECOND), DELETE), now) == Ok(KEY)
  {
    SampleAccounts();
    hide IsAccountId, LowerHex, Repeat;
  }

  /** Registered, without rows, with these requests pending. */
  function Registered(pending: map<nat, Pending>): State {
    State(map[], map[CID := Binding(1, FIRST)], map[(CID, 1) := FIRST], pending)
  }

  lemma PutAdmitted() returns (steps: seq<Step>)
    ensures Run(INIT, steps, Registered(map[0 := Pending(Session(CID, 1, FIRST), PUT)]))
  {
    var t, u := Register(CID, 1, FIRST), Admit(0, Session(CID, 1, FIRST), PUT);
    assert Apply(INIT, t) == Registered(map[]);
    assert Apply(Registered(map[]), u) == Registered(map[0 := Pending(Session(CID, 1, FIRST), PUT)]);
    TwoSteps(INIT, t, u);
    steps := [t, u];
  }

  /** A PUT that was overtaken by a re-binding writes a row under a revision that is over. */
  lemma LatePutWritesOldRow() returns (steps: seq<Step>, s: State, s': State)
    ensures Run(INIT, steps, s) && Run(s, [Execute(0, 0)], s')
    ensures AtLeastBack(s, KEY, 1) && KEY !in s.rows && s'.rows == map[KEY := ROW]
    ensures !OnlyDeleted(s, s', KEY) && WriterPending(s, KEY)
  {
    steps := PutAdmitted();
    var p := Pending(Session(CID, 1, FIRST), PUT);
    var s1 := Registered(map[0 := p]);
    RunThen(INIT, steps, s1, Rebind(CID, 2, SECOND));
    steps, s := steps + [Rebind(CID, 2, SECOND)], Apply(s1, Rebind(CID, 2, SECOND));
    PutNamesKey(0);
    hide Target;
    assert Aimed(p, KEY);
    RunThen(s, [], s, Execute(0, 0));
    assert [] + [Execute(0, 0)] == [Execute(0, 0)];
    s' := Apply(s, Execute(0, 0));
  }

  /** The row written in time, and a binding to `account` behind it. */
  function Stored(account: string): State {
    State(map[KEY := ROW], map[CID := Binding(2, account)], map[(CID, 1) := FIRST, (CID, 2) := account], map[])
  }

  lemma PutExecuted()
    ensures var s := Registered(map[0 := Pending(Session(CID, 1, FIRST), PUT)]);
            Enabled(s, Execute(0, 0)) && Apply(s, Execute(0, 0)) == Written()
  {
    PutNamesKey(0);
    hide Target, Repeat;
  }

  function Written(): State {
    State(map[KEY := ROW], map[CID := Binding(1, FIRST)], map[(CID, 1) := FIRST], map[])
  }

  lemma Rebound(account: string)
    ensures Enabled(Written(), Rebind(CID, 2, account)) && Apply(Written(), Rebind(CID, 2, account)) == Stored(account)
  {
    hide Repeat;
    assert map[(CID, 1) := FIRST][(CID, 2) := account] == map[(CID, 1) := FIRST, (CID, 2) := account];
  }

  lemma RowStored(account: string) returns (steps: seq<Step>)
    ensures Run(INIT, steps, Stored(account))
  {
    steps := PutAdmitted();
    hide *;
    PutExecuted();
    Rebound(account);
    RunThen(INIT, steps, Registered(map[0 := Pending(Session(CID, 1, FIRST), PUT)]), Execute(0, 0));
    steps := steps + [Execute(0, 0)];
    RunThen(INIT, steps, Written(), Rebind(CID, 2, account));
    steps := steps + [Rebind(CID, 2, account)];
  }

  /** A DELETE that was overtaken by a re-binding removes a row two revisions back. */
  lemma LateDeleteRemovesOldRow() returns (steps: seq<Step>, s: State, s': State)
    ensures Run(INIT, steps, s) && Run(s, [Execute(0, 0)], s')
    ensures AtLeastBack(s, KEY, 2) && s.rows == map[KEY := ROW] && s'.rows == map[]
    ensures !Untouched(s, s', KEY) && AnyPending(s, KEY)
  {
    steps := RowStored(SECOND);
    var p := Pending(Session(CID, 2, SECOND), DELETE);
    var t := Admit(0, p.session, DELETE);
    var s1 := Stored(SECOND);
    RunThen(INIT, steps, s1, t);
    var s2 := Apply(s1, t);
    RunThen(INIT, steps + [t], s2, Rebind(CID, 3, FIRST));
    steps, s := steps + [t] + [Rebind(CID, 3, FIRST)], Apply(s2, Rebind(CID, 3, FIRST));
    DeleteNamesKey(0);
    hide Target;
    assert Aimed(p, KEY);
    RunThen(s, [], s, Execute(0, 0));
    assert [] + [Execute(0, 0)] == [Execute(0, 0)];
    s' := Apply(s, Execute(0, 0));
  }

  /** A row written before the same account was bound again stays through every later run. */
  lemma RowStuck() returns (steps: seq<Step>, s: State)
    ensures Run(INIT, steps, s) && AtLeastBack(s, KEY, 1) && KEY in s.rows
    ensures forall more, s' | Run(s, more, s') :: KEY in s'.rows && s'.rows[KEY] == ROW
  {
    steps := RowStored(FIRST);
    s := Stored(FIRST);
    forall more, s' | Run(s, more, s') ensures KEY in s'.rows && s'.rows[KEY] == ROW {
      OldRowsOverRuns(s, more, s', KEY, true);
    }
  }
}
