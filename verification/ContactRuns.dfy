/**
 The contact store over whole runs: writes, deletes and re-bindings of many identities, in
 any order. A request is admitted under the binding current at that moment; its statement
 comes later, and re-bindings may lie in between.
 */
module ContactRuns {
  import opened Bytes
  import opened Text
  import opened Contacts

  datatype Binding = Binding(revision: nat, account: string)

  datatype Request =
    | PutRequest(contactId: string, revision: Option<int>, account: string, row: Row)
    | DeleteRequest(contactId: string, revision: Option<int>, account: string)

  /** A request behind the entry guard and before its statement. */
  datatype Pending = Pending(session: Session, request: Request)

  /** `inForce` remembers which account each revision of a CID was bound to. */
  datatype State = State(rows: map<Key, Row>, current: map<string, Binding>,
                         inForce: map<(string, nat), string>, pending: map<nat, Pending>)

  datatype Step =
    | Register(cid: string, revision: nat, account: string)
    | Rebind(cid: string, revision: nat, account: string)
    | Admit(id: nat, session: Session, request: Request)
    | Execute(id: nat, now: nat)
    | Drop(id: nat)

  const INIT := State(map[], map[], map[], map[])

  /** The guard compares the session with the current binding; a re-binding raises the revision. */
  predicate Enabled(s: State, t: Step) {
    match t
    case Register(cid, revision, _) => cid !in s.current && revision > 0
    case Rebind(cid, revision, _) => cid in s.current && revision > s.current[cid].revision
    case Admit(id, session, _) =>
      && id !in s.pending && session.cid in s.current
      && s.current[session.cid] == Binding(session.revision, session.account)
    case Execute(id, _) => id in s.pending
    case Drop(id) => id in s.pending
  }

  /** The row a request names, at time `now`; the checks use the session it was admitted with. */
  function Target(p: Pending, now: nat): Result<Key> {
    match p.request
    case PutRequest(contactId, revision, account, row) => PutTarget(p.session, contactId, revision, account, row, now)
    case DeleteRequest(contactId, revision, account) => DeleteTarget(p.session, contactId, revision, account)
  }

  /** The statement of a request. */
  function Statement(rows: map<Key, Row>, p: Pending, now: nat): map<Key, Row> {
    match Target(p, now)
    case Fail(_) => rows
    case Ok(k) =>
      if p.request.PutRequest? then rows[k := Upsert(Lookup(rows, k), p.request.row).value] else rows - {k}
  }

  function Apply(s: State, t: Step): State
    requires Enabled(s, t)
  {
    match t
    case Register(cid, revision, account) => Bind(s, cid, Binding(revision, account))
    case Rebind(cid, revision, account) => Bind(s, cid, Binding(revision, account))
    case Admit(id, session, request) => s.(pending := s.pending[id := Pending(session, request)])
    case Execute(id, now) => s.(rows := Statement(s.rows, s.pending[id], now), pending := s.pending - {id})
    case Drop(id) => s.(pending := s.pending - {id})
  }

  function Bind(s: State, cid: string, b: Binding): State {
    s.(current := s.current[cid := b], inForce := s.inForce[(cid, b.revision) := b.account])
  }

  predicate Run(s: State, steps: seq<Step>, s': State)
    decreases |steps|
  {
    if steps == [] then s' == s
    else Enabled(s, steps[0]) && Run(Apply(s, steps[0]), steps[1..], s')
  }

  // ----- where rows can lie -----

  /** The row lies under the account in force at its revision, and its columns passed the checks. */
  ghost predicate Placed(s: State, k: Key)
    requires k in s.rows
  {
    && k.cid in s.current && 0 < k.revision <= s.current[k.cid].revision
    && (k.cid, k.revision) in s.inForce && s.inForce[(k.cid, k.revision)] == k.account
    && IsAccountId(k.account) && k.revision <= MAX_SAFE_INTEGER
    && LowerHex(k.contactId, 64) && WellFormed(s.rows[k])
  }

  /** The request was admitted under a binding that was once in force. */
  ghost predicate Admitted(s: State, p: Pending) {
    && p.session.cid in s.current && 0 < p.session.revision <= s.current[p.session.cid].revision
    && (p.session.cid, p.session.revision) in s.inForce
    && s.inForce[(p.session.cid, p.session.revision)] == p.session.account
  }

  ghost predicate Inv(s: State) {
    && (forall c | c in s.current ::
          && 0 < s.current[c].revision
          && (c, s.current[c].revision) in s.inForce
          && s.inForce[(c, s.current[c].revision)] == s.current[c].account)
    && (forall c, r | (c, r) in s.inForce :: c in s.current && r <= s.current[c].revision)
    && (forall k | k in s.rows :: Placed(s, k))
    && (forall id | id in s.pending :: Admitted(s, s.pending[id]))
  }

  /** A PUT names a key of its session's binding; a DELETE one of that binding or of the one before it. */
  lemma TargetsAreRecent(p: Pending, now: nat)
    ensures match Target(p, now)
            case Fail(_) => true
            case Ok(k) =>
              && k.cid == p.session.cid && k.contactId == p.request.contactId
              && IsAccountId(k.account) && 0 < k.revision <= MAX_SAFE_INTEGER && LowerHex(k.contactId, 64)
              && (p.request.PutRequest? ==>
                    k.revision == p.session.revision && k.account == p.session.account && WellFormed(p.request.row))
              && ((k.revision == p.session.revision && k.account == p.session.account)
                  || (k.revision + 1 == p.session.revision && k.account != p.session.account))
  {
    if p.request.PutRequest? && ParseRow(p.request.row, now).Ok? { ParsedRowShape(p.request.row, now); }
    hide LowerHex, ParseRow, WellFormed;
  }

  /** Revisions only rise, and what was in force at one of them stays recorded. */
  lemma BindingsKept(s: State, t: Step)
    requires Inv(s) && Enabled(s, t)
    ensures var s' := Apply(s, t);
            && (forall c | c in s.current :: c in s'.current && s.current[c].revision <= s'.current[c].revision)
            && (forall x | x in s.inForce :: x in s'.inForce && s'.inForce[x] == s.inForce[x])
  {
    hide Statement, Placed, Admitted;
  }

  lemma RowsStayPlaced(s: State, t: Step)
    requires Inv(s) && Enabled(s, t)
    ensures forall k | k in Apply(s, t).rows :: Placed(Apply(s, t), k)
  {
    BindingsKept(s, t);
    var s' := Apply(s, t);
    if t.Execute? {
      TargetsAreRecent(s.pending[t.id], t.now);
      assert Admitted(s, s.pending[t.id]);
    }
    hide LowerHex, IsAccountId, Target, WellFormed, Admitted;
    forall k | k in s'.rows ensures Placed(s', k) {
      assert k in s.rows ==> Placed(s, k);
    }
  }

  lemma StepKeepsInv(s: State, t: Step)
    requires Inv(s) && Enabled(s, t)
    ensures Inv(Apply(s, t))
  {
    BindingsKept(s, t);
    RowsStayPlaced(s, t);
    hide Statement, Placed;
    var s' := Apply(s, t);
    forall id | id in s'.pending ensures Admitted(s', s'.pending[id]) {
      assert id in s.pending ==> Admitted(s, s.pending[id]);
    }
  }

  lemma {:induction false} RunKeepsInv(s: State, steps: seq<Step>, s': State)
    requires Inv(s) && Run(s, steps, s')
    ensures Inv(s')
    decreases |steps|
  {
    hide Inv, Apply;
    if steps != [] {
      StepKeepsInv(s, steps[0]);
      RunKeepsInv(Apply(s, steps[0]), steps[1..], s');
    }
  }

  /** In every reachable state each row lies under the account in force at its revision. */
  lemma EveryRunPlacesRows(steps: seq<Step>, s: State)
    requires Run(INIT, steps, s)
    ensures forall k | k in s.rows :: Placed(s, k)
  {
    RunKeepsInv(INIT, steps, s);
  }

  // ----- who can change a row -----

  /** The statement of `p` would name `k` at some time. */
  ghost predicate Aimed(p: Pending, k: Key) { exists now :: Target(p, now) == Ok(k) }

  /** A step changes a row only if it is the statement of a request that names it. */
  lemma OnlyAimedChanges(s: State, t: Step, k: Key)
    requires Enabled(s, t) && Lookup(Apply(s, t).rows, k) != Lookup(s.rows, k)
    ensures t.Execute? && Target(s.pending[t.id], t.now) == Ok(k)
  {
    hide Target;
  }

  /** How many revisions ago the revision of `k` was current, at least. */
  ghost predicate AtLeastBack(s: State, k: Key, n: nat) {
    k.cid in s.current && k.revision + n <= s.current[k.cid].revision
  }

  /** A request aimed at `k` is pending: a PUT, or any request. */
  ghost predicate WriterPending(s: State, k: Key) {
    exists id :: id in s.pending && s.pending[id].request.PutRequest? && Aimed(s.pending[id], k)
  }

  ghost predicate AnyPending(s: State, k: Key) {
    exists id :: id in s.pending && Aimed(s.pending[id], k)
  }

  /** `k` will get no new writers, or no new requests at all: its time is over. */
  ghost predicate Closed(s: State, k: Key, all: bool) {
    && AtLeastBack(s, k, 1)
    && (all ==> AtLeastBack(s, k, 2) || s.current[k.cid] == Binding(k.revision + 1, k.account))
  }

  /** Some step of the run is a statement that names `k`, a PUT unless `all`. */
  ghost predicate Statements(s: State, steps: seq<Step>, k: Key, all: bool)
    decreases |steps|
  {
    steps != [] && Enabled(s, steps[0])
    && ((steps[0].Execute? && Target(s.pending[steps[0].id], steps[0].now) == Ok(k)
         && (all || s.pending[steps[0].id].request.PutRequest?))
        || Statements(Apply(s, steps[0]), steps[1..], k, all))
  }

  ghost predicate PendingFor(s: State, k: Key, all: bool) { if all then AnyPending(s, k) else WriterPending(s, k) }

  /** Behind its time a row gets no new requests; pending ones only become fewer. */
  lemma ClosedStaysClosed(s: State, t: Step, k: Key, all: bool)
    requires Enabled(s, t) && Closed(s, k, all)
    ensures Closed(Apply(s, t), k, all)
    ensures PendingFor(Apply(s, t), k, all) ==> PendingFor(s, k, all)
    ensures t.Execute? && Target(s.pending[t.id], t.now) == Ok(k) && (all || s.pending[t.id].request.PutRequest?)
            ==> PendingFor(s, k, all)
  {
    var s' := Apply(s, t);
    hide Target, Statement;
    if PendingFor(s', k, all) {
      var id :| id in s'.pending && (all || s'.pending[id].request.PutRequest?) && Aimed(s'.pending[id], k);
      if id !in s.pending {
        var now :| Target(s'.pending[id], now) == Ok(k);
        TargetsAreRecent(s'.pending[id], now);
      }
    }
    if t.Execute? && Target(s.pending[t.id], t.now) == Ok(k) { assert Aimed(s.pending[t.id], k); }
  }

  lemma {:induction false} StatementsArePending(s: State, steps: seq<Step>, k: Key, all: bool)
    requires Closed(s, k, all) && Statements(s, steps, k, all)
    ensures PendingFor(s, k, all)
    decreases |steps|
  {
    hide Closed, PendingFor, Apply, Enabled;
    ClosedStaysClosed(s, steps[0], k, all);
    if Statements(Apply(s, steps[0]), steps[1..], k, all) {
      StatementsArePending(Apply(s, steps[0]), steps[1..], k, all);
    }
  }

  lemma PendingCanRun(s: State, k: Key, all: bool)
    requires PendingFor(s, k, all)
    ensures exists steps, s' :: Run(s, steps, s') && Statements(s, steps, k, all)
  {
    var id :| id in s.pending && (all || s.pending[id].request.PutRequest?) && Aimed(s.pending[id], k);
    var now :| Target(s.pending[id], now) == Ok(k);
    hide Target;
    var t := Execute(id, now);
    assert Run(Apply(s, t), [], Apply(s, t));
    assert [t][1..] == [];
    assert Run(s, [t], Apply(s, t)) && Statements(s, [t], k, all);
  }

  /**
   Behind its revision a row is named by a PUT statement of some run if and only if a PUT aimed at it was
   admitted in time and is still pending. Two revisions back, or one if the account stayed the same, the same
   holds of every statement. Such a statement may leave the row as it is: an older PUT does, and a DELETE of no row.
   */
  lemma OldRowsReachedExactly(s: State, k: Key, all: bool)
    requires Closed(s, k, all)
    ensures (exists steps, s' :: Run(s, steps, s') && Statements(s, steps, k, all)) <==> PendingFor(s, k, all)
  {
    hide Closed, PendingFor, Run;
    forall steps, s' | Run(s, steps, s') && Statements(s, steps, k, all) ensures PendingFor(s, k, all) {
      StatementsArePending(s, steps, k, all);
    }
    if PendingFor(s, k, all) { PendingCanRun(s, k, all); }
  }

  /** Between the two states the row under `k` stayed, or went and stayed away. */
  ghost predicate OnlyDeleted(s: State, s': State, k: Key) {
    k in s'.rows ==> k in s.rows && s'.rows[k] == s.rows[k]
  }

  ghost predicate Untouched(s: State, s': State, k: Key) {
    Lookup(s'.rows, k) == Lookup(s.rows, k)
  }

  lemma StepOnOldRow(s: State, t: Step, k: Key, all: bool)
    requires Enabled(s, t) && Closed(s, k, all) && !PendingFor(s, k, all)
    ensures OnlyDeleted(s, Apply(s, t), k) && (all ==> Untouched(s, Apply(s, t), k))
  {
    if Lookup(Apply(s, t).rows, k) != Lookup(s.rows, k) {
      OnlyAimedChanges(s, t, k);
      ClosedStaysClosed(s, t, k, all);
    }
    hide Target;
  }

  /**
   From any state on, over every run: with no PUT aimed at it pending, a row one revision back can only be
   deleted, never written again; with no request aimed at it pending, a row two or more revisions back, or one
   back under the account that is bound again, never changes in any way.
   */
  lemma {:induction false} OldRowsOverRuns(s: State, steps: seq<Step>, s': State, k: Key, all: bool)
    requires Run(s, steps, s') && Closed(s, k, all) && !PendingFor(s, k, all)
    ensures OnlyDeleted(s, s', k) && (all ==> Untouched(s, s', k))
    decreases |steps|
  {
    hide Apply, Closed, PendingFor, Enabled;
    if steps != [] {
      StepOnOldRow(s, steps[0], k, all);
      ClosedStaysClosed(s, steps[0], k, all);
      OldRowsOverRuns(Apply(s, steps[0]), steps[1..], s', k, all);
    }
  }

  lemma FreshId(s: State) returns (id: nat)
    ensures id !in s.pending
  {
    id := Above(s.pending.Keys);
  }

  lemma {:induction false} Above(ids: set<nat>) returns (id: nat)
    ensures forall x | x in ids :: x < id
    decreases |ids|
  {
    if ids == {} { return 0; }
    var x :| x in ids;
    id := Above(ids - {x});
    if id <= x { id := x + 1; }
    forall y | y in ids ensures y < id { assert y == x || y in ids - {x}; }
  }

  /**
   When a row of the revision before the current one can still go, no request aimed at it being pending: exactly
   when the re-binding changed the account.
   */
  lemma PreviousRowDeletableExactly(s: State, k: Key)
    requires Inv(s) && k in s.rows && k.revision + 1 == s.current[k.cid].revision && !AnyPending(s, k)
    ensures (exists steps, s' :: Run(s, steps, s') && k !in s'.rows) <==> k.account != s.current[k.cid].account
  {
    assert Placed(s, k);
    hide IsAccountId, Placed;
    if k.account == s.current[k.cid].account {
      forall steps, s' | Run(s, steps, s') ensures k in s'.rows {
        OldRowsOverRuns(s, steps, s', k, true);
      }
    } else {
      var id := FreshId(s);
      var steps, s' := RowGoesAnew(s, k, id);
    }
  }

  /** Where the account changed, a new DELETE can remove a row of the previous revision. */
  lemma RowGoesAnew(s: State, k: Key, id: nat) returns (steps: seq<Step>, s': State)
    requires k.cid in s.current && k.revision + 1 == s.current[k.cid].revision && id !in s.pending
    requires 0 < k.revision <= MAX_SAFE_INTEGER && IsAccountId(k.account) && LowerHex(k.contactId, 64)
    requires k.account != s.current[k.cid].account
    ensures Run(s, steps, s') && k !in s'.rows && s'.pending == s.pending
  {
    hide IsAccountId, LowerHex;
    var session := Session(k.cid, s.current[k.cid].revision, s.current[k.cid].account);
    var request := DeleteRequest(k.contactId, Some(k.revision), k.account);
    assert Target(Pending(session, request), 0) == Ok(k);
    var t, u := Admit(id, session, request), Execute(id, 0);
    var s1 := Apply(s, t);
    TwoSteps(s, t, u);
    steps, s' := [t, u], Apply(s1, u);
    assert s'.pending == s.pending;
  }

  lemma TwoSteps(s: State, t: Step, u: Step)
    requires Enabled(s, t) && Enabled(Apply(s, t), u)
    ensures Run(s, [t, u], Apply(Apply(s, t), u))
  {
    hide Apply, Enabled;
    var s1 := Apply(s, t);
    var s2 := Apply(s1, u);
    assert Run(s2, [], s2);
    assert [u][1..] == [] && Run(s1, [u], s2);
    assert [t, u][1..] == [u] && Run(s, [t, u], s2);
  }

  lemma {:induction false} RunThen(s: State, steps: seq<Step>, s': State, t: Step)
    requires Run(s, steps, s') && Enabled(s', t)
    ensures Run(s, steps + [t], Apply(s', t))
    decreases |steps|
  {
    hide Apply, Enabled;
    if steps == [] {
      assert [] + [t] == [t] && [t][1..] == [];
      assert Run(Apply(s', t), [], Apply(s', t));
    } else {
      RunThen(Apply(s, steps[0]), steps[1..], s', t);
      assert (steps + [t])[1..] == steps[1..] + [t];
    }
  }
}
