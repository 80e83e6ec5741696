/**
 Any number of publication requests interleaved: each handler reads the row in one
 database step and updates it in a later one. Every run linearises to the atomic
 compare-and-set row, in an order that respects real time.
 */
module PublicationRuns {
  import opened Bytes
  import opened Text
  import opened Publications

  type Id = nat

  /** Where one request stands; `at` is the place of a finished operation in the log. */
  datatype Progress =
    | Arrived(p: Platform, q: Request)
    | HasRead(p: Platform, q: Request, current: Row)
    | Answered(p: Platform, q: Request, response: Response, at: nat)
    | Returned(p: Platform, q: Request, response: Response, at: nat)
  {
    predicate Finished() { Answered? || Returned? }
  }

  datatype Event = Call(id: Id) | Return(id: Id)

  /** An operation at the instant it takes effect. */
  datatype Entry = Entry(id: Id, p: Platform, q: Request, after: Row, response: Response)

  datatype State = State(rows: map<Platform, Row>, ops: map<Id, Progress>,
                         history: seq<Event>, log: seq<Entry>)

  datatype Step =
    | Arrive(id: Id, p: Platform, q: Request)
    | DoRead(id: Id)
    | DoUpdate(id: Id, now: nat)
    | DoReturn(id: Id)

  const INIT := State(InitialRows(), map[], [], [])

  // ----- the handlers' steps -----

  predicate Enabled(s: State, t: Step) {
    match t
    case Arrive(id, _, _) => id !in s.ops
    case DoRead(id) => id in s.ops && s.ops[id].Arrived?
    case DoUpdate(id, _) => id in s.ops && s.ops[id].HasRead? && s.ops[id].q.Put?
    case DoReturn(id) => id in s.ops && s.ops[id].Answered?
  }

  function Apply(s: State, t: Step): State
    requires Enabled(s, t)
  {
    match t
    case Arrive(id, p, q) =>
      s.(ops := s.ops[id := Arrived(p, q)], history := s.history + [Call(id)])
    case DoRead(id) =>
      var o := s.ops[id];
      (match Decide(o.p, o.q, s.rows)
       case Answer(response) => Finish(s, id, s.rows, response)
       case Update(current) => s.(ops := s.ops[id := HasRead(o.p, o.q, current)]))
    case DoUpdate(id, now) =>
      var o := s.ops[id];
      if o.p in s.rows && s.rows[o.p].revision == o.current.revision then
        var value := Written(o.q.publication, o.current.revision + 1, now);
        Finish(s, id, s.rows[o.p := value], Success(value))
      else
        Finish(s, id, s.rows, Conflict)
    case DoReturn(id) =>
      var o := s.ops[id];
      s.(ops := s.ops[id := Returned(o.p, o.q, o.response, o.at)], history := s.history + [Return(id)])
  }

  /** The step at which an operation gets its answer and takes effect. */
  function Finish(s: State, id: Id, rows: map<Platform, Row>, response: Response): State
    requires id in s.ops
  {
    var o := s.ops[id];
    var after := if o.p in rows then rows[o.p] else EMPTY_ROW;
    s.(rows := rows, ops := s.ops[id := Answered(o.p, o.q, response, |s.log|)],
       log := s.log + [Entry(id, o.p, o.q, after, response)])
  }

  predicate Run(s: State, steps: seq<Step>, s': State)
    decreases |steps|
  {
    if steps == [] then s' == s
    else Enabled(s, steps[0]) && Run(Apply(s, steps[0]), steps[1..], s')
  }

  // ----- the sequential object -----

  predicate Total(rows: map<Platform, Row>) { forall p: Platform :: p in rows }

  lemma InitialTotal()
    ensures Total(InitialRows())
  {
    forall p: Platform ensures p in InitialRows() {
      match p case LinuxArm => case LinuxAmd => case Macos => case Windows =>
    }
  }

  /** The table behind the first operations of the log. */
  function RowsAfter(log: seq<Entry>): (m: map<Platform, Row>)
    ensures Total(m)
  {
    if log == [] then InitialTotal(); InitialRows()
    else RowsAfter(log[..|log| - 1])[log[|log| - 1].p := log[|log| - 1].after]
  }

  /** Operation `e` is allowed on the table behind `log`. */
  ghost predicate LegalAfter(log: seq<Entry>, e: Entry) {
    CasAllows(e.p, e.q, RowsAfter(log)[e.p], e.after, e.response)
  }

  /** The log is a run of the atomic object from the schema's baseline. */
  ghost predicate Sequential(log: seq<Entry>) {
    log == [] || (Sequential(log[..|log| - 1]) && LegalAfter(log[..|log| - 1], log[|log| - 1]))
  }

  // ----- the invariant: data -----

  ghost predicate RowsOk(rows: map<Platform, Row>) {
    Total(rows) && forall p | p in rows :: RowOk(p, rows[p])
  }

  /** A handler between read and update holds an admissible PUT whose row can only have moved on. */
  ghost predicate ReaderSound(o: Progress, rows: map<Platform, Row>) {
    o.HasRead? ==>
      && o.q.Put? && Admissible(o.p, o.q) && o.p in rows
      && o.current.revision == o.q.expected && o.current.revision <= MAX_SAFE_INTEGER
      && !SamePublication(o.current, o.q.publication)
      && o.current.revision <= rows[o.p].revision
      && (o.current.revision == rows[o.p].revision ==> rows[o.p] == o.current)
  }

  ghost predicate DataInv(s: State) {
    && RowsOk(s.rows) && s.rows == RowsAfter(s.log) && Sequential(s.log)
    && forall id | id in s.ops :: ReaderSound(s.ops[id], s.rows)
  }

  /** An answer the atomic object allows keeps the data invariant. */
  lemma FinishKeepsData(s: State, id: Id, after: Row, response: Response)
    requires DataInv(s) && id in s.ops
    requires var o := s.ops[id]; Total(s.rows) && CasAllows(o.p, o.q, s.rows[o.p], after, response)
    ensures DataInv(Finish(s, id, s.rows[s.ops[id].p := after], response))
  {
    var o := s.ops[id];
    var s' := Finish(s, id, s.rows[o.p := after], response);
    CasKeepsRow(o.p, o.q, s.rows[o.p], after, response);
    hide CasAllows, RowOk, SamePublication, Admissible, ValidPublication;
    assert s'.log[..|s.log|] == s.log;
    assert s'.log[|s.log|] == Entry(id, o.p, o.q, after, response);
    assert LegalAfter(s.log, s'.log[|s.log|]);
    assert RowsOk(s'.rows);
    forall x | x in s'.ops ensures ReaderSound(s'.ops[x], s'.rows) {
      assert x in s.ops;
      assert ReaderSound(s.ops[x], s.rows);
    }
  }

  lemma ReadKeepsData(s: State, id: Id)
    requires DataInv(s) && id in s.ops && s.ops[id].Arrived?
    ensures DataInv(Apply(s, DoRead(id)))
  {
    var o := s.ops[id];
    assert o.p in s.rows;
    match Decide(o.p, o.q, s.rows)
    case Answer(response) =>
      assert s.rows[o.p := s.rows[o.p]] == s.rows;
      DecisionAllowed(o.p, o.q, s.rows);
      hide CasAllows, Decide, RowsOk;
      FinishKeepsData(s, id, s.rows[o.p], response);
    case Update(current) =>
      var s' := Apply(s, DoRead(id));
      assert ReaderSound(s'.ops[id], s'.rows);
      hide ReaderSound, RowsOk, Sequential, RowsAfter;
  }

  /** What the read answers at once, the atomic object may answer. */
  lemma DecisionAllowed(p: Platform, q: Request, rows: map<Platform, Row>)
    requires p in rows && Decide(p, q, rows).Answer?
    ensures CasAllows(p, q, rows[p], rows[p], Decide(p, q, rows).response)
  {}

  /** The conditional update, whether it hits or misses, is allowed too. */
  lemma UpdateAllowed(o: Progress, rows: map<Platform, Row>, now: nat)
    requires o.HasRead? && ReaderSound(o, rows)
    ensures var value := Written(o.q.publication, o.current.revision + 1, now);
            rows[o.p].revision == o.current.revision ==>
              CasAllows(o.p, o.q, rows[o.p], value, Success(value))
    ensures rows[o.p].revision != o.current.revision ==>
              CasAllows(o.p, o.q, rows[o.p], rows[o.p], Conflict)
  {}

  lemma ReaderIsSound(s: State, id: Id)
    requires DataInv(s) && id in s.ops
    ensures ReaderSound(s.ops[id], s.rows) && Total(s.rows)
  {}

  lemma UpdateKeepsData(s: State, id: Id, now: nat)
    requires DataInv(s) && Enabled(s, DoUpdate(id, now))
    ensures DataInv(Apply(s, DoUpdate(id, now)))
  {
    hide DataInv, CasAllows, Written, Finish;
    var o := s.ops[id];
    ReaderIsSound(s, id);
    UpdateAllowed(o, s.rows, now);
    hide ReaderSound;
    assert o.p in s.rows;
    if s.rows[o.p].revision == o.current.revision {
      var value := Written(o.q.publication, o.current.revision + 1, now);
      FinishKeepsData(s, id, value, Success(value));
    } else {
      assert s.rows[o.p := s.rows[o.p]] == s.rows;
      FinishKeepsData(s, id, s.rows[o.p], Conflict);
    }
  }

  lemma StepKeepsData(s: State, t: Step)
    requires DataInv(s) && Enabled(s, t)
    ensures DataInv(Apply(s, t))
  {
    match t
    case DoRead(id) => ReadKeepsData(s, id);
    case DoUpdate(id, now) => UpdateKeepsData(s, id, now);
    case _ => hide RowsOk, Sequential, RowsAfter;
  }

  // ----- the invariant: order -----

  /** Log entries and finished operations are the same things. */
  ghost predicate LogMatchesOps(s: State) {
    && (forall k | 0 <= k < |s.log| ::
          && s.log[k].id in s.ops
          && var o := s.ops[s.log[k].id];
             o.Finished() && o.at == k && o.p == s.log[k].p && o.q == s.log[k].q
             && o.response == s.log[k].response)
    && (forall id | id in s.ops && s.ops[id].Finished() ::
          s.ops[id].at < |s.log| && s.log[s.ops[id].at].id == id)
  }

  ghost predicate HistoryMatchesOps(s: State) {
    forall i | 0 <= i < |s.history| ::
      s.history[i].id in s.ops && (s.history[i].Return? ==> s.ops[s.history[i].id].Returned?)
  }

  /** An operation that returned before another was called stands before it in the log. */
  ghost predicate RealTime(s: State)
    requires HistoryMatchesOps(s)
  {
    forall i, j |
      && 0 <= i < j < |s.history| && s.history[i].Return? && s.history[j].Call?
      && s.ops[s.history[j].id].Finished() ::
      s.ops[s.history[i].id].at < s.ops[s.history[j].id].at
  }

  ghost predicate OrderInv(s: State) {
    LogMatchesOps(s) && HistoryMatchesOps(s) && RealTime(s)
  }

  lemma FinishKeepsOrder(s: State, id: Id, rows: map<Platform, Row>, response: Response)
    requires OrderInv(s) && id in s.ops && !s.ops[id].Finished()
    ensures OrderInv(Finish(s, id, rows, response))
  {
    var s' := Finish(s, id, rows, response);
    assert HistoryMatchesOps(s');
    assert LogMatchesOps(s');
    forall i, j |
      && 0 <= i < j < |s'.history| && s'.history[i].Return? && s'.history[j].Call?
      && s'.ops[s'.history[j].id].Finished()
      ensures s'.ops[s'.history[i].id].at < s'.ops[s'.history[j].id].at
    {
      assert s.ops[s.history[i].id].Returned?;
    }
  }

  lemma ArriveKeepsOrder(s: State, id: Id, p: Platform, q: Request)
    requires OrderInv(s) && id !in s.ops
    ensures OrderInv(Apply(s, Arrive(id, p, q)))
  {}

  lemma ReturnKeepsOrder(s: State, id: Id)
    requires OrderInv(s) && id in s.ops && s.ops[id].Answered?
    ensures OrderInv(Apply(s, DoReturn(id)))
  {}

  lemma StepKeepsOrder(s: State, t: Step)
    requires OrderInv(s) && Enabled(s, t)
    ensures OrderInv(Apply(s, t))
  {
    hide Decide, Written;
    match t
    case Arrive(id, p, q) => ArriveKeepsOrder(s, id, p, q);
    case DoReturn(id) => ReturnKeepsOrder(s, id);
    case DoRead(id) =>
      var o := s.ops[id];
      match Decide(o.p, o.q, s.rows) {
        case Answer(response) => FinishKeepsOrder(s, id, s.rows, response);
        case Update(current) =>
      }
    case DoUpdate(id, now) =>
      var o := s.ops[id];
      var value := Written(o.q.publication, o.current.revision + 1, now);
      FinishKeepsOrder(s, id, s.rows[o.p := value], Success(value));
      FinishKeepsOrder(s, id, s.rows, Conflict);
  }

  // ----- every run -----

  lemma {:induction false} RunKeepsInv(s: State, steps: seq<Step>, s': State)
    requires DataInv(s) && OrderInv(s) && Run(s, steps, s')
    ensures DataInv(s') && OrderInv(s')
    decreases |steps|
  {
    hide DataInv, OrderInv, Apply, Enabled;
    if steps != [] {
      StepKeepsData(s, steps[0]);
      StepKeepsOrder(s, steps[0]);
      RunKeepsInv(Apply(s, steps[0]), steps[1..], s');
    }
  }

  lemma InitInv()
    ensures DataInv(INIT) && OrderInv(INIT)
  {
    InitialTotal();
  }

  // ----- what every run guarantees -----

  /**
   Linearisability. In every reachable state the log is a run of the atomic object that
   ends in the actual table; each answered request stands in it exactly once, with the
   answer it got; a request that returned before another was called stands before it; and
   a request not yet answered has had no effect.
   */
  lemma EveryRunLinearises(steps: seq<Step>, s: State)
    requires Run(INIT, steps, s)
    ensures Sequential(s.log) && s.rows == RowsAfter(s.log)
    ensures forall id | id in s.ops && s.ops[id].Finished() ::
              exists k :: 0 <= k < |s.log| && s.log[k].id == id && s.log[k].p == s.ops[id].p
                          && s.log[k].q == s.ops[id].q && s.log[k].response == s.ops[id].response
    ensures forall j, k | 0 <= j < k < |s.log| :: s.log[j].id != s.log[k].id
    ensures forall k | 0 <= k < |s.log| :: s.log[k].id in s.ops && s.ops[s.log[k].id].Finished()
    ensures forall i, j, m, n |
              && 0 <= i < j < |s.history| && s.history[i].Return? && s.history[j].Call?
              && 0 <= m < |s.log| && 0 <= n < |s.log|
              && s.log[m].id == s.history[i].id && s.log[n].id == s.history[j].id :: m < n
  {
    InitInv();
    RunKeepsInv(INIT, steps, s);
    hide Run, Sequential, RowsAfter, RowsOk, ReaderSound;
    forall id | id in s.ops && s.ops[id].Finished()
      ensures exists k :: 0 <= k < |s.log| && s.log[k].id == id && s.log[k].p == s.ops[id].p
                          && s.log[k].q == s.ops[id].q && s.log[k].response == s.ops[id].response
    {
      assert s.log[s.ops[id].at].id == id;
    }
  }

  /** How often the operations of the log changed the row of `p`. */
  ghost function Writes(log: seq<Entry>, p: Platform): nat {
    if log == [] then 0
    else
      var front, last := log[..|log| - 1], log[|log| - 1];
      Writes(front, p) + if last.p == p && last.after != RowsAfter(front)[p] then 1 else 0
  }

  lemma {:induction false} SequentialRowsOk(log: seq<Entry>)
    requires Sequential(log)
    ensures RowsOk(RowsAfter(log))
  {
    if log == [] {
      InitialTotal();
    } else {
      var front, last := log[..|log| - 1], log[|log| - 1];
      SequentialRowsOk(front);
      assert RowOk(last.p, RowsAfter(front)[last.p]);
      CasKeepsRow(last.p, last.q, RowsAfter(front)[last.p], last.after, last.response);
    }
  }

  /** One operation leaves a row alone or moves its revision up by exactly one. */
  lemma {:induction false} LastOperation(log: seq<Entry>, p: Platform)
    requires log != [] && Sequential(log)
    ensures var a, b := RowsAfter(log[..|log| - 1])[p], RowsAfter(log)[p];
            a == b || b.revision == a.revision + 1
    ensures log[|log| - 1].response != InvalidStored
  {
    var front, last := log[..|log| - 1], log[|log| - 1];
    SequentialRowsOk(front);
    assert RowOk(last.p, RowsAfter(front)[last.p]);
    CasKeepsRow(last.p, last.q, RowsAfter(front)[last.p], last.after, last.response);
  }

  /** No effective write is lost and none shares its revision: the revision counts them. */
  lemma {:induction false} RevisionCountsWrites(log: seq<Entry>, p: Platform)
    requires Sequential(log)
    ensures RowsAfter(log)[p].revision == Writes(log, p)
  {
    if log == [] {
      match p case LinuxArm => case LinuxAmd => case Macos => case Windows =>
    } else {
      RevisionCountsWrites(log[..|log| - 1], p);
      LastOperation(log, p);
    }
  }

  lemma {:induction false} SequentialPrefix(log: seq<Entry>, k: nat)
    requires Sequential(log) && k <= |log|
    ensures Sequential(log[..k])
    decreases |log|
  {
    if k == |log| {
      assert log[..k] == log;
    } else {
      SequentialPrefix(log[..|log| - 1], k);
      assert log[..|log| - 1][..k] == log[..k];
    }
  }

  /** Over the whole history, platform and revision determine the row, and revisions never fall. */
  lemma {:induction false} RevisionDeterminesRow(log: seq<Entry>, j: nat, k: nat, p: Platform)
    requires Sequential(log) && j <= k <= |log|
    ensures var a, b := RowsAfter(log[..j])[p], RowsAfter(log[..k])[p];
            a.revision <= b.revision && (a.revision == b.revision ==> a == b)
    decreases k
  {
    hide Sequential, RowsAfter;
    if j < k {
      RevisionDeterminesRow(log, j, k - 1, p);
      SequentialPrefix(log, k);
      LastOperation(log[..k], p);
      assert log[..k][..k - 1] == log[..k - 1];
    }
  }

  /**
   In every reachable state each row is entirely null or entirely set and valid for its own
   platform, so neither the next public redirect nor any redirect already answered fails validation.
   */
  lemma EveryRunKeepsRowsValid(steps: seq<Step>, s: State)
    requires Run(INIT, steps, s)
    ensures forall p: Platform :: p in s.rows && RowOk(p, s.rows[p])
    ensures forall p: Platform, q: Request :: Decide(p, q, s.rows) != Answer(InvalidStored)
    ensures forall id | id in s.ops && s.ops[id].Finished() :: s.ops[id].response != InvalidStored
  {
    InitInv();
    RunKeepsInv(INIT, steps, s);
    hide Run;
    forall p: Platform, q: Request ensures Decide(p, q, s.rows) != Answer(InvalidStored) {
      assert RowOk(p, s.rows[p]);
    }
    forall k | 0 <= k < |s.log| ensures s.log[k].response != InvalidStored {
      SequentialPrefix(s.log, k + 1);
      LastOperation(s.log[..k + 1], s.log[k].p);
    }
    hide Sequential, RowsAfter, RowsOk, ReaderSound, Decide;
  }

  // ----- requests can be served -----

  lemma OneMore(s: State, t: Step, more: seq<Step>, s': State)
    requires Enabled(s, t) && Run(Apply(s, t), more, s')
    ensures Run(s, [t] + more, s')
  {
    hide Apply, Enabled;
    assert ([t] + more)[1..] == more;
  }

  lemma NoMore(s: State)
    ensures Run(s, [], s)
  {}

  /** The update of a handler that has read, hit or miss. */
  lemma CanUpdate(s: State, id: Id, now: nat)
    requires DataInv(s) && id in s.ops && s.ops[id].HasRead?
    ensures Enabled(s, DoUpdate(id, now)) && id in Apply(s, DoUpdate(id, now)).ops
    ensures Apply(s, DoUpdate(id, now)).ops[id].Answered?
  {
    ReaderIsSound(s, id);
  }

  lemma ReachableDataInv(steps: seq<Step>, s: State)
    requires Run(INIT, steps, s)
    ensures DataInv(s)
  {
    InitInv();
    RunKeepsInv(INIT, steps, s);
  }

  /** A request on its way is answered in at most three steps of its own, whatever the others do. */
  lemma EveryRequestCompletes(ran: seq<Step>, s: State, id: Id) returns (more: seq<Step>, s': State)
    requires Run(INIT, ran, s) && id in s.ops && !s.ops[id].Returned?
    ensures Run(s, more, s') && |more| <= 3 && id in s'.ops && s'.ops[id].Returned?
  {
    ReachableDataInv(ran, s);
    if s.ops[id].Answered? {
      s' := Apply(s, DoReturn(id));
      hide DataInv;
      NoMore(s');
      OneMore(s, DoReturn(id), [], s');
      more := [DoReturn(id)] + [];
    } else if s.ops[id].HasRead? {
      CanUpdate(s, id, 0);
      UpdateKeepsData(s, id, 0);
      more, s' := EveryRequestCompletesAfter(s, id, DoUpdate(id, 0));
    } else {
      ReadKeepsData(s, id);
      hide DataInv;
      var m := Apply(s, DoRead(id));
      if m.ops[id].Answered? {
        more, s' := EveryRequestCompletesAfter(s, id, DoRead(id));
      } else {
        CanUpdate(m, id, 0);
        UpdateKeepsData(m, id, 0);
        more, s' := EveryRequestCompletesAfter(m, id, DoUpdate(id, 0));
        OneMore(s, DoRead(id), more, s');
        more := [DoRead(id)] + more;
      }
    }
  }

  /** Behind the step that answered it a request returns. */
  lemma EveryRequestCompletesAfter(s: State, id: Id, t: Step) returns (more: seq<Step>, s': State)
    requires Enabled(s, t) && id in Apply(s, t).ops && Apply(s, t).ops[id].Answered?
    ensures Run(s, more, s') && |more| == 2 && id in s'.ops && s'.ops[id].Returned?
  {
    var m := Apply(s, t);
    s' := Apply(m, DoReturn(id));
    NoMore(s');
    OneMore(m, DoReturn(id), [], s');
    OneMore(s, t, [DoReturn(id)] + [], s');
    more := [t] + ([DoReturn(id)] + []);
  }

  /** The row holds what is asked for. */
  predicate Holds(r: Row, v: Option<Publication>) {
    if v.Some? then IsPublished(r) && Content(r) == v.value else !IsPublished(r)
  }

  lemma PutArrives(s: State, id: Id, p: Platform, q: Request)
    requires id !in s.ops
    ensures Enabled(s, Arrive(id, p, q))
    ensures var s' := Apply(s, Arrive(id, p, q)); s'.rows == s.rows && id in s'.ops && s'.ops[id] == Arrived(p, q)
  {}

  lemma PutReads(s: State, id: Id, p: Platform, v: Option<Publication>)
    requires p in s.rows && RowOk(p, s.rows[p]) && Admissible(p, Put(s.rows[p].revision, v))
    requires id in s.ops && s.ops[id] == Arrived(p, Put(s.rows[p].revision, v))
    ensures Enabled(s, DoRead(id))
    ensures var s' := Apply(s, DoRead(id));
            && s'.rows == s.rows && id in s'.ops
            && (s'.ops[id] == HasRead(p, Put(s.rows[p].revision, v), s.rows[p])
                || (s'.ops[id].Answered? && s'.ops[id].response == Success(s.rows[p]) && Holds(s.rows[p], v)))
  {
    hide ValidPublication;
  }

  lemma PutUpdates(s: State, id: Id, p: Platform, v: Option<Publication>, now: nat)
    requires p in s.rows && id in s.ops && s.ops[id] == HasRead(p, Put(s.rows[p].revision, v), s.rows[p])
    ensures Enabled(s, DoUpdate(id, now))
    ensures var s' := Apply(s, DoUpdate(id, now));
            && p in s'.rows && s'.rows == s.rows[p := s'.rows[p]] && id in s'.ops
            && s'.ops[id].Answered? && s'.ops[id].response == Success(s'.rows[p]) && Holds(s'.rows[p], v)
            && s'.rows[p].revision == s.rows[p].revision + 1
            && s'.rows[p].publishedAt == if v.Some? then Some(now) else None
  {}

  /**
   From every reachable state a new PUT of an admissible publication that expects the stored revision succeeds,
   if nobody comes in between: the row holds that publication, and its time where it was written.
   */
  lemma PutCanSucceed(ran: seq<Step>, s: State, id: Id, p: Platform, v: Option<Publication>, now: nat)
    returns (more: seq<Step>, s': State)
    requires Run(INIT, ran, s) && id !in s.ops && p in s.rows && Admissible(p, Put(s.rows[p].revision, v))
    ensures Run(s, more, s') && id in s'.ops && p in s'.rows && s'.rows == s.rows[p := s'.rows[p]]
    ensures s'.ops[id].Answered? && s'.ops[id].response == Success(s'.rows[p])
    ensures Holds(s'.rows[p], v)
    ensures s'.rows[p] != s.rows[p] ==>
              s'.rows[p].revision == s.rows[p].revision + 1
              && s'.rows[p].publishedAt == if v.Some? then Some(now) else None
  {
    hide *;
    EveryRunKeepsRowsValid(ran, s);
    var q := Put(s.rows[p].revision, v);
    var t, u, w := Arrive(id, p, q), DoRead(id), DoUpdate(id, now);
    PutArrives(s, id, p, q);
    var s1 := Apply(s, t);
    PutReads(s1, id, p, v);
    var s2 := Apply(s1, u);
    if s2.ops[id].Answered? {
      assert s.rows[p := s.rows[p]] == s.rows;
      NoMore(s2);
      OneMore(s1, u, [], s2);
      OneMore(s, t, [u] + [], s2);
      more, s' := [t] + ([u] + []), s2;
    } else {
      PutUpdates(s2, id, p, v, now);
      var s3 := Apply(s2, w);
      NoMore(s3);
      OneMore(s2, w, [], s3);
      OneMore(s1, u, [w] + [], s3);
      OneMore(s, t, [u] + ([w] + []), s3);
      more, s' := [t] + ([u] + ([w] + [])), s3;
    }
  }
}
