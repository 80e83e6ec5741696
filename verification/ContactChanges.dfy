/**
 When a contact row whose revision is over can still change: exact conditions on the requests that
 are pending, for any change and for a write that leaves something other than a deletion.
 */
module ContactChanges {
  import opened Bytes
  import opened Text
  import opened Contacts
  import opened ContactRuns

  /** The statement of `p` can put another row under `k` now. */
  ghost predicate Overwrites(rows: map<Key, Row>, p: Pending, k: Key) {
    && p.request.PutRequest? && Aimed(p, k)
    && (k in rows ==> p.request.row != rows[k] && p.request.row.updatedAt >= rows[k].updatedAt)
  }

  /** The statement of `p` can remove the row under `k` now. */
  ghost predicate Removes(rows: map<Key, Row>, p: Pending, k: Key) {
    p.request.DeleteRequest? && Aimed(p, k) && k in rows
  }

  lemma StatementChanges(rows: map<Key, Row>, p: Pending, now: nat, k: Key)
    ensures Lookup(Statement(rows, p, now), k) != Lookup(rows, k)
            <==> Target(p, now) == Ok(k) && (Overwrites(rows, p, k) || Removes(rows, p, k))
  {
    hide Target;
    if Target(p, now) == Ok(k) { assert Aimed(p, k); }
  }

  // ----- any change -----

  ghost predicate WouldChange(s: State, k: Key) {
    exists id :: id in s.pending && (Overwrites(s.rows, s.pending[id], k) || Removes(s.rows, s.pending[id], k))
  }

  lemma NoNewAim(s: State, t: Step, k: Key)
    requires Enabled(s, t) && Closed(s, k, true) && t.Admit?
    ensures !Aimed(Pending(t.session, t.request), k)
  {
    var p := Pending(t.session, t.request);
    if Aimed(p, k) {
      var now :| Target(p, now) == Ok(k);
      TargetsAreRecent(p, now);
      hide Target, IsAccountId, LowerHex, WellFormed;
      assert false;
    }
  }

  lemma QuietStep(s: State, t: Step, k: Key)
    requires Enabled(s, t) && Closed(s, k, true) && !WouldChange(s, k)
    ensures Untouched(s, Apply(s, t), k) && !WouldChange(Apply(s, t), k)
  {
    if t.Execute? { StatementChanges(s.rows, s.pending[t.id], t.now, k); }
    if t.Admit? { NoNewAim(s, t, k); }
    hide Statement, Aimed;
  }

  lemma {:induction false} QuietRun(s: State, steps: seq<Step>, s': State, k: Key)
    requires Run(s, steps, s') && Closed(s, k, true) && !WouldChange(s, k)
    ensures Untouched(s, s', k)
    decreases |steps|
  {
    hide Apply, Closed, PendingFor, Enabled, WouldChange;
    if steps != [] {
      QuietStep(s, steps[0], k);
      ClosedStaysClosed(s, steps[0], k, true);
      QuietRun(Apply(s, steps[0]), steps[1..], s', k);
    }
  }

  lemma OneStep(s: State, t: Step)
    requires Enabled(s, t)
    ensures Run(s, [t], Apply(s, t))
  {
    hide Apply, Enabled;
    assert [t][1..] == [] && Run(Apply(s, t), [], Apply(s, t));
  }

  /**
   Two revisions back, or one back under the account that is bound again, a row changes in some run exactly
   when one request pending now would change it at once.
   */
  lemma RowChangedExactly(s: State, k: Key)
    requires Closed(s, k, true)
    ensures (exists steps, s' :: Run(s, steps, s') && !Untouched(s, s', k)) <==> WouldChange(s, k)
  {
    if WouldChange(s, k) {
      var id :| id in s.pending && (Overwrites(s.rows, s.pending[id], k) || Removes(s.rows, s.pending[id], k));
      var now :| Target(s.pending[id], now) == Ok(k);
      StatementChanges(s.rows, s.pending[id], now, k);
      hide Statement, Target;
      OneStep(s, Execute(id, now));
    } else {
      hide *;
      forall steps, s' | Run(s, steps, s') ensures Untouched(s, s', k) {
        QuietRun(s, steps, s', k);
      }
    }
  }

  // ----- another row written -----

  /** A DELETE under the current binding may name `k`. */
  predicate DeleteAdmissible(s: State, k: Key) {
    && k.cid in s.current && k.revision + 1 == s.current[k.cid].revision && k.account != s.current[k.cid].account
    && IsAccountId(k.account) && 0 < k.revision <= MAX_SAFE_INTEGER && LowerHex(k.contactId, 64)
  }

  ghost predicate Deletable(s: State, k: Key) {
    DeleteAdmissible(s, k) || exists id :: id in s.pending && s.pending[id].request.DeleteRequest? && Aimed(s.pending[id], k)
  }

  /** A pending PUT aimed at `k` carries another row that is not older, or the stored row can go first. */
  ghost predicate WouldWrite(s: State, k: Key) {
    exists id :: id in s.pending && s.pending[id].request.PutRequest? && Aimed(s.pending[id], k)
      && (k in s.rows ==>
            && s.pending[id].request.row != s.rows[k]
            && (s.pending[id].request.row.updatedAt >= s.rows[k].updatedAt || Deletable(s, k)))
  }

  /** A PUT aimed at the key of `was` carries that row, or is older than it and the row cannot go. */
  ghost predicate Harmless(s: State, p: Pending, k: Key, was: Option<Row>) {
    p.request.PutRequest? && Aimed(p, k) ==>
      && was.Some?
      && (p.request.row == was.value
          || (k in s.rows && p.request.row.updatedAt < was.value.updatedAt && !Deletable(s, k)))
  }

  /** Under `k` lies the row of `was`, or none, and no pending PUT can write another one. */
  ghost predicate Settled(s: State, k: Key, was: Option<Row>) {
    && (k in s.rows ==> Some(s.rows[k]) == was)
    && forall id | id in s.pending :: Harmless(s, s.pending[id], k, was)
  }

  /** Behind its revision a row gets no new PUTs, and new DELETEs only where one is admissible now. */
  lemma NewAims(s: State, t: Step, k: Key)
    requires Enabled(s, t) && Closed(s, k, false) && t.Admit? && Aimed(Pending(t.session, t.request), k)
    ensures t.request.DeleteRequest? && DeleteAdmissible(s, k)
  {
    var p := Pending(t.session, t.request);
    var now :| Target(p, now) == Ok(k);
    TargetsAreRecent(p, now);
    hide Target, IsAccountId, LowerHex, WellFormed;
  }

  lemma DeletableFalls(s: State, t: Step, k: Key)
    requires Enabled(s, t) && Closed(s, k, false) && Deletable(Apply(s, t), k)
    ensures Deletable(s, k)
  {
    hide Aimed, Statement, IsAccountId, LowerHex;
    if t.Admit? && Aimed(Pending(t.session, t.request), k) { NewAims(s, t, k); }
  }

  /** What one statement leaves under `k`. */
  lemma StatementUnder(rows: map<Key, Row>, p: Pending, now: nat, k: Key)
    ensures var after := Lookup(Statement(rows, p, now), k);
            if Target(p, now) != Ok(k) then after == Lookup(rows, k)
            else if p.request.PutRequest? then after == Upsert(Lookup(rows, k), p.request.row)
            else after == None
  {
    hide Target;
  }

  lemma SettledStep(s: State, t: Step, k: Key, was: Option<Row>)
    requires Enabled(s, t) && Closed(s, k, false) && Settled(s, k, was)
    ensures Settled(Apply(s, t), k, was)
  {
    var s' := Apply(s, t);
    if t.Execute? {
      var p := s.pending[t.id];
      StatementUnder(s.rows, p, t.now, k);
      assert Target(p, t.now) == Ok(k) ==> Aimed(p, k);
      assert Harmless(s, p, k, was);
    }
    hide Aimed, Statement, Target;
    forall id | id in s'.pending ensures Harmless(s', s'.pending[id], k, was) {
      if Deletable(s', k) { DeletableFalls(s, t, k); }
      if id in s.pending {
        assert Harmless(s, s.pending[id], k, was);
      } else if Aimed(s'.pending[id], k) {
        NewAims(s, t, k);
      }
    }
  }

  lemma {:induction false} SettledRun(s: State, steps: seq<Step>, s': State, k: Key, was: Option<Row>)
    requires Run(s, steps, s') && Closed(s, k, false) && Settled(s, k, was)
    ensures Settled(s', k, was)
    decreases |steps|
  {
    hide Apply, Closed, PendingFor, Enabled, Settled;
    if steps != [] {
      SettledStep(s, steps[0], k, was);
      ClosedStaysClosed(s, steps[0], k, false);
      SettledRun(Apply(s, steps[0]), steps[1..], s', k, was);
    }
  }

  lemma NeverWritten(s: State, steps: seq<Step>, s': State, k: Key)
    requires Run(s, steps, s') && Closed(s, k, false) && !WouldWrite(s, k)
    ensures OnlyDeleted(s, s', k)
  {
    hide Run, Closed, Aimed, Deletable;
    assert forall id | id in s.pending :: Harmless(s, s.pending[id], k, Lookup(s.rows, k));
    SettledRun(s, steps, s', k, Lookup(s.rows, k));
  }

  /** A PUT that is executed over no row, or over another row that is not newer, writes its own. */
  lemma PutWrites(s: State, id: nat, now: nat, k: Key)
    requires id in s.pending && s.pending[id].request.PutRequest? && Target(s.pending[id], now) == Ok(k)
    requires k in s.rows ==> s.pending[id].request.row.updatedAt >= s.rows[k].updatedAt
    ensures var s' := Apply(s, Execute(id, now)); k in s'.rows && s'.rows[k] == s.pending[id].request.row
  {
    hide Target;
  }

  lemma RowGoes(s: State, k: Key) returns (steps: seq<Step>, s': State)
    requires Deletable(s, k)
    ensures Run(s, steps, s') && k !in s'.rows
    ensures forall id | id in s.pending && s.pending[id].request.PutRequest? ::
              id in s'.pending && s'.pending[id] == s.pending[id]
  {
    if id :| id in s.pending && s.pending[id].request.DeleteRequest? && Aimed(s.pending[id], k) {
      var now :| Target(s.pending[id], now) == Ok(k);
      hide Target;
      OneStep(s, Execute(id, now));
      steps, s' := [Execute(id, now)], Apply(s, Execute(id, now));
    } else {
      var id := FreshId(s);
      steps, s' := RowGoesAnew(s, k, id);
    }
  }

  /** The PUT is executed at once, or behind the DELETE of a newer row. */
  lemma SomeRunWrites(s: State, k: Key) returns (steps: seq<Step>, s': State)
    requires WouldWrite(s, k)
    ensures Run(s, steps, s') && !OnlyDeleted(s, s', k)
  {
    var id :| id in s.pending && s.pending[id].request.PutRequest? && Aimed(s.pending[id], k)
      && (k in s.rows ==>
            && s.pending[id].request.row != s.rows[k]
            && (s.pending[id].request.row.updatedAt >= s.rows[k].updatedAt || Deletable(s, k)));
    var now :| Target(s.pending[id], now) == Ok(k);
    hide Target, Deletable, Apply;
    steps, s' := [], s;
    if k in s.rows && s.pending[id].request.row.updatedAt < s.rows[k].updatedAt {
      steps, s' := RowGoes(s, k);
    }
    PutWrites(s', id, now, k);
    RunThen(s, steps, s', Execute(id, now));
    steps, s' := steps + [Execute(id, now)], Apply(s', Execute(id, now));
  }

  /**
   Behind its revision a row is written in some run, by more than its deletion, exactly when a pending PUT aimed
   at it carries another row that is not older than the stored one, or the stored one can be deleted first.
   */
  lemma RowWrittenExactly(s: State, k: Key)
    requires Closed(s, k, false)
    ensures (exists steps, s' :: Run(s, steps, s') && !OnlyDeleted(s, s', k)) <==> WouldWrite(s, k)
  {
    hide *;
    if WouldWrite(s, k) {
      var steps, s' := SomeRunWrites(s, k);
    } else {
      forall steps, s' | Run(s, steps, s') ensures OnlyDeleted(s, s', k) {
        NeverWritten(s, steps, s', k);
      }
    }
  }
}
