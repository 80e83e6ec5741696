/**
 Copying the samples of a video and an optional audio track: one pump per track, each on
 its own serial queue, joined by a dispatch group before one continuation is resumed.
 The media reader and writer are abstract: a reader delivers the samples of its tracks in
 order until it has failed or been cancelled, and is completed only when all were taken.
 */
module MediaPump {

  datatype Lane = Video | Audio

  // ----- one pump -----

  datatype Pc =
    | Unstarted
    | Waiting                // between two callbacks
    | Looping                // inside the callback, before the readiness test
    | Holding(sample: nat)   // took a sample, has not appended it
    | Failing                // append refused, error not recorded yet
    | Leaving                // finished, has not left the group yet

  /** `refused` and `left` are history: an append was refused, the group was left so often. */
  datatype Pump = Pump(track: seq<nat>, taken: nat, appended: seq<nat>, pc: Pc, finished: bool,
                       refused: bool, left: nat)

  datatype Action =
    | Start         // group.enter and the request for callbacks
    | Fire          // the input calls back
    | NotReady      // the input takes no more data now
    | Take          // copyNextSampleBuffer gave a sample
    | TakeNothing   // copyNextSampleBuffer gave none
    | AppendOk
    | AppendFails
    | Record        // firstError = firstError ?? ...
    | Leave         // group.leave

  datatype ReaderStatus = Reading | ReadAll | ReadFailed | ReadCancelled

  predicate CanAct(p: Pump, a: Action, reader: ReaderStatus) {
    match a
    case Start => p.pc == Unstarted
    case Fire => p.pc == Waiting
    case NotReady => p.pc == Looping
    case Take => p.pc == Looping && reader == Reading && p.taken < |p.track|
    case TakeNothing => p.pc == Looping && (reader != Reading || p.taken >= |p.track|)
    case AppendOk => p.pc.Holding?
    case AppendFails => p.pc.Holding?
    case Record => p.pc == Failing
    case Leave => p.pc == Leaving
  }

  function Act(p: Pump, a: Action, reader: ReaderStatus): Pump
    requires CanAct(p, a, reader)
  {
    match a
    case Start => p.(pc := Waiting)
    case Fire => if p.finished then p else p.(pc := Looping)
    case NotReady => p.(pc := Waiting)
    case Take => p.(pc := Holding(p.track[p.taken]), taken := p.taken + 1)
    case TakeNothing => p.(finished := true, pc := Leaving)
    case AppendOk => p.(pc := Looping, appended := p.appended + [p.pc.sample])
    case AppendFails => p.(finished := true, refused := true, pc := Failing)
    case Record => p.(pc := Leaving)
    case Leave => p.(pc := Waiting, left := p.left + 1)
  }

  /** The pump has entered the group and not left it. */
  predicate InGroup(p: Pump) { p.pc != Unstarted && p.left == 0 }

  /** What one pump has done with its track. */
  ghost predicate PumpOk(p: Pump) {
    && p.taken <= |p.track| && p.left <= 1
    && (p.pc == Unstarted ==> !p.finished && p.left == 0)
    && (p.finished <==> p.pc.Failing? || p.pc.Leaving? || p.left == 1)
    && (p.left == 1 ==> p.pc == Waiting)
    && (p.pc == Failing ==> p.refused) && (p.refused ==> p.finished)
    && if p.pc.Holding? || p.refused
       then 0 < p.taken && p.appended == p.track[..p.taken - 1]
            && (p.pc.Holding? ==> p.pc.sample == p.track[p.taken - 1])
       else p.appended == p.track[..p.taken]
  }

  lemma ActKeepsPump(p: Pump, a: Action, reader: ReaderStatus)
    requires PumpOk(p) && CanAct(p, a, reader)
    ensures PumpOk(Act(p, a, reader)) && Act(p, a, reader).track == p.track
    ensures reader != Reading ==> Act(p, a, reader).taken == p.taken
    ensures a != Start && a != Leave ==> (InGroup(Act(p, a, reader)) <==> InGroup(p))
    ensures a == Start ==> !InGroup(p) && InGroup(Act(p, a, reader))
    ensures a == Leave ==> InGroup(p) && !InGroup(Act(p, a, reader))
    ensures p.pc != Unstarted ==> Act(p, a, reader).pc != Unstarted
    ensures p.left == 1 ==> a == Fire && Act(p, a, reader) == p
    ensures Act(p, a, reader).refused && Act(p, a, reader).pc != Failing ==>
              (p.refused && p.pc != Failing) || a == Record
  {
    if a == AppendOk {
      assert p.track[..p.taken] == p.track[..p.taken - 1] + [p.track[p.taken - 1]];
    }
    if a == Take {
      assert p.track[..p.taken + 1 - 1] == p.track[..p.taken];
    }
  }

  // ----- the whole copy -----

  datatype Notify = Unregistered | Registered | FinishingFile | Over

  /** `resumes` lists every resumption of the continuation: true for success. */
  datatype State = State(pumps: map<Lane, Pump>, group: int, firstError: bool,
                         reader: ReaderStatus, notify: Notify, resumes: seq<bool>)

  datatype Step =
    | Lane(lane: Lane, action: Action)
    | Register                  // group.notify, behind the calls of pump
    | Joined                    // the notify block runs
    | FileFinished(ok: bool)    // finishWriting calls back
    | ReaderCompletes
    | ReaderFails
    | Cancel                    // cancelReading from outside

  function Unbegun(track: seq<nat>): Pump { Pump(track, 0, [], Unstarted, false, false, 0) }

  predicate IsInitial(s: State) {
    && Video in s.pumps && (forall l | l in s.pumps :: s.pumps[l] == Unbegun(s.pumps[l].track))
    && s.group == 0 && !s.firstError && s.reader == Reading && s.notify == Unregistered && s.resumes == []
  }

  predicate AllTaken(s: State) { forall l | l in s.pumps :: s.pumps[l].taken == |s.pumps[l].track| }
  predicate AllStarted(s: State) { forall l | l in s.pumps :: s.pumps[l].pc != Unstarted }

  predicate Enabled(s: State, t: Step) {
    match t
    case Lane(l, a) => l in s.pumps && CanAct(s.pumps[l], a, s.reader)
                       && (a == Start ==> s.notify == Unregistered)
    case Register => s.notify == Unregistered && AllStarted(s)
    case Joined => s.notify == Registered && s.group == 0
    case FileFinished(_) => s.notify == FinishingFile
    case ReaderCompletes => s.reader == Reading && AllTaken(s)
    case ReaderFails => s.reader == Reading
    case Cancel => s.reader == Reading
  }

  function Apply(s: State, t: Step): State
    requires Enabled(s, t)
  {
    match t
    case Lane(l, a) =>
      s.(pumps := s.pumps[l := Act(s.pumps[l], a, s.reader)],
         group := s.group + (if a == Start then 1 else if a == Leave then -1 else 0),
         firstError := s.firstError || a == Record)
    case Register => s.(notify := Registered)
    case Joined =>
      if s.firstError then
        s.(notify := Over, resumes := s.resumes + [false],
           reader := if s.reader == Reading then ReadCancelled else s.reader)
      else if s.reader != ReadAll then s.(notify := Over, resumes := s.resumes + [false])
      else s.(notify := FinishingFile)
    case FileFinished(ok) => s.(notify := Over, resumes := s.resumes + [ok])
    case ReaderCompletes => s.(reader := ReadAll)
    case ReaderFails => s.(reader := ReadFailed)
    case Cancel => s.(reader := ReadCancelled)
  }

  predicate Run(s: State, steps: seq<Step>, s': State)
    decreases |steps|
  {
    if steps == [] then s' == s
    else Enabled(s, steps[0]) && Run(Apply(s, steps[0]), steps[1..], s')
  }

  // ----- safety -----

  function Open(pumps: map<Lane, Pump>, l: Lane): nat {
    if l in pumps && InGroup(pumps[l]) then 1 else 0
  }

  ghost predicate PumpsOk(s: State) {
    && Video in s.pumps
    && (forall l | l in s.pumps :: PumpOk(s.pumps[l]))
    && (forall l | l in s.pumps :: s.pumps[l].refused && s.pumps[l].pc != Failing ==> s.firstError)
    && s.group == Open(s.pumps, Video) + Open(s.pumps, Audio)
    && (s.reader == ReadAll ==> AllTaken(s))
  }

  ghost predicate AllLeft(s: State) { forall l | l in s.pumps :: s.pumps[l].left == 1 }
  ghost predicate AllCopied(s: State) { forall l | l in s.pumps :: s.pumps[l].appended == s.pumps[l].track }

  ghost predicate JoinOk(s: State) {
    && (s.notify != Unregistered ==> AllStarted(s))
    && (s.notify in {FinishingFile, Over} ==> AllLeft(s))
    && (s.notify == FinishingFile ==> AllCopied(s))
    && |s.resumes| == (if s.notify == Over then 1 else 0)
    && (s.resumes == [true] ==> AllCopied(s))
  }

  ghost predicate Inv(s: State) { PumpsOk(s) && JoinOk(s) }

  lemma LaneKeepsPumps(s: State, l: Lane, a: Action)
    requires PumpsOk(s) && Enabled(s, Lane(l, a))
    ensures PumpsOk(Apply(s, Lane(l, a)))
  {
    ActKeepsPump(s.pumps[l], a, s.reader);
    hide PumpOk, Act, CanAct, InGroup;
    match l case Video => case Audio =>
  }

  lemma LaneKeepsJoin(s: State, l: Lane, a: Action)
    requires Inv(s) && Enabled(s, Lane(l, a))
    ensures JoinOk(Apply(s, Lane(l, a)))
  {
    ActKeepsPump(s.pumps[l], a, s.reader);
    hide PumpOk, Act, CanAct;
  }

  /** When the group is empty behind the registration, every pump has left it. */
  lemma EmptyGroupMeansAllLeft(s: State)
    requires PumpsOk(s) && AllStarted(s) && s.group == 0
    ensures AllLeft(s)
    ensures !s.firstError && s.reader == ReadAll ==> AllCopied(s)
  {
    forall l | l in s.pumps
      ensures s.pumps[l].left == 1
      ensures !s.firstError && s.reader == ReadAll ==> s.pumps[l].appended == s.pumps[l].track
    {
      var p := s.pumps[l];
      assert PumpOk(p);
      assert Open(s.pumps, l) == 0 by { match l case Video => case Audio => }
      assert p.track[..|p.track|] == p.track;
    }
  }

  lemma StepKeepsInv(s: State, t: Step)
    requires Inv(s) && Enabled(s, t)
    ensures Inv(Apply(s, t))
  {
    if t.Lane? {
      LaneKeepsPumps(s, t.lane, t.action);
      LaneKeepsJoin(s, t.lane, t.action);
    } else {
      if t == Joined { EmptyGroupMeansAllLeft(s); }
      assert forall b :: (s.resumes + [b])[|s.resumes|] == b;
      hide PumpOk, InGroup, Act, CanAct;
    }
  }

  lemma {:induction false} RunKeepsInv(s: State, steps: seq<Step>, s': State)
    requires Inv(s) && Run(s, steps, s')
    ensures Inv(s')
    decreases |steps|
  {
    hide Inv, Apply, Enabled;
    if steps != [] {
      StepKeepsInv(s, steps[0]);
      RunKeepsInv(Apply(s, steps[0]), steps[1..], s');
    }
  }

  /**
   In every interleaving each pump leaves the group at most once, the group count is never
   negative, the continuation is resumed at most once and only when all pumps have left,
   and a successful resumption means that every input received its whole track in order.
   */
  lemma EveryInterleavingIsSafe(s: State, steps: seq<Step>, s': State)
    requires IsInitial(s) && Run(s, steps, s')
    ensures forall l | l in s'.pumps :: s'.pumps[l].left <= 1
    ensures s'.group >= 0 && |s'.resumes| <= 1
    ensures s'.resumes != [] ==> AllLeft(s')
    ensures s'.resumes == [true] ==> AllCopied(s')
  {
    assert Inv(s);
    RunKeepsInv(s, steps, s');
    hide Run, InGroup;
    forall l | l in s'.pumps ensures s'.pumps[l].left <= 1 {
      assert PumpOk(s'.pumps[l]);
    }
  }

  // ----- liveness -----

  /** How much one pump still has to do; waiting for readiness costs nothing. */
  function Work(p: Pump): nat {
    (if p.taken <= |p.track| then 2 * (|p.track| - p.taken) else 0)
    + match p.pc
      case Unstarted => 5
      case Waiting => if p.finished then 0 else 4
      case Looping => 4
      case Holding(_) => 5
      case Failing => 2
      case Leaving => 1
  }

  function WorkOf(pumps: map<Lane, Pump>, l: Lane): nat { if l in pumps then Work(pumps[l]) else 0 }

  function Remaining(s: State): nat {
    WorkOf(s.pumps, Video) + WorkOf(s.pumps, Audio) + (if s.reader == Reading then 1 else 0)
    + match s.notify case Unregistered => 4 case Registered => 3 case FinishingFile => 1 case Over => 0
  }

  /** A callback that only finds out whether the input is ready. */
  predicate Idle(t: Step) { t.Lane? && (t.action == Fire || t.action == NotReady) }

  lemma ActWorks(p: Pump, a: Action, reader: ReaderStatus)
    requires PumpOk(p) && CanAct(p, a, reader)
    ensures if a == Fire || a == NotReady then Work(Act(p, a, reader)) == Work(p)
            else Work(Act(p, a, reader)) < Work(p)
  {}

  lemma StepWorks(s: State, t: Step)
    requires Inv(s) && Enabled(s, t)
    ensures if Idle(t) then Remaining(Apply(s, t)) == Remaining(s) else Remaining(Apply(s, t)) < Remaining(s)
  {
    if t.Lane? {
      ActWorks(s.pumps[t.lane], t.action, s.reader);
      hide Work, Act, CanAct, PumpOk;
      match t.lane case Video => case Audio =>
    } else {
      hide Work, PumpOk;
    }
  }

  function Busy(steps: seq<Step>): nat {
    if steps == [] then 0 else (if Idle(steps[0]) then 0 else 1) + Busy(steps[1..])
  }

  /** Apart from readiness polling, every interleaving is finite, with a bound known at the start. */
  lemma {:induction false} BusyStepsAreBounded(s: State, steps: seq<Step>, s': State)
    requires Inv(s) && Run(s, steps, s')
    ensures Busy(steps) + Remaining(s') <= Remaining(s)
    decreases |steps|
  {
    hide Inv, Apply, Enabled, Remaining, Idle;
    if steps != [] {
      StepWorks(s, steps[0]);
      StepKeepsInv(s, steps[0]);
      BusyStepsAreBounded(Apply(s, steps[0]), steps[1..], s');
    }
  }

  /** The next thing a started pump does: a callback or the continuation of one. */
  lemma PumpCanGoOn(p: Pump, reader: ReaderStatus) returns (a: Action)
    requires PumpOk(p) && InGroup(p)
    ensures CanAct(p, a, reader) && a != Start && a != NotReady
    ensures a == Fire ==> p.pc == Waiting && !p.finished
  {
    match p.pc
    case Waiting => a := Fire;
    case Looping => a := if reader == Reading && p.taken < |p.track| then Take else TakeNothing;
    case Holding(_) => a := AppendOk;
    case Failing => a := Record;
    case Leaving => a := Leave;
  }

  /** A callback of an input that is finished: it does nothing. */
  predicate LateCallback(s: State, t: Step) {
    t.Lane? && t.action == Fire && t.lane in s.pumps && s.pumps[t.lane].finished
  }

  /**
   Until the continuation has been resumed, some step can be taken: the set-up goes on, a
   pump inside the group goes on (at worst by a further callback of its input), or the
   join does.
   */
  lemma NeverStuck(s: State) returns (t: Step)
    requires Inv(s) && s.resumes == []
    ensures Enabled(s, t) && !LateCallback(s, t) && !Polls(t)
  {
    t := Register;
    if s.notify == FinishingFile {
      t := FileFinished(true);
    } else if s.notify == Unregistered {
      if l :| l in s.pumps && s.pumps[l].pc == Unstarted { t := Lane(l, Start); }
    } else if s.group == 0 {
      t := Joined;
    } else {
      var l: Lane := if Open(s.pumps, Video) == 1 then Video else Audio;
      assert l in s.pumps && InGroup(s.pumps[l]) && PumpOk(s.pumps[l]);
      var a := PumpCanGoOn(s.pumps[l], s.reader);
      t := Lane(l, a);
    }
  }

  /** The pump waits, or will wait once it is started, for a callback that has something to do. */
  function Idling(p: Pump): nat { if p.pc == Unstarted || (p.pc == Waiting && !p.finished) then 1 else 0 }

  function IdlingOf(pumps: map<Lane, Pump>, l: Lane): nat { if l in pumps then Idling(pumps[l]) else 0 }

  function AllIdling(s: State): nat { IdlingOf(s.pumps, Video) + IdlingOf(s.pumps, Audio) }

  /** What a step takes from the work, the waiting and the two kinds of fruitless callbacks. */
  lemma StepCosts(s: State, t: Step)
    requires Inv(s) && Enabled(s, t)
    ensures 1 + Remaining(Apply(s, t)) + AllIdling(Apply(s, t)) <=
            Remaining(s) + AllIdling(s) + (if Polls(t) then 2 else if LateCallback(s, t) then 1 else 0)
  {
    StepWorks(s, t);
    hide Remaining, Work;
    if t.Lane? {
      ActIdles(s.pumps[t.lane], t.action, s.reader);
      hide Act, CanAct, PumpOk;
      match t.lane case Video => case Audio =>
    } else {
      hide PumpOk;
    }
  }

  lemma ActIdles(p: Pump, a: Action, reader: ReaderStatus)
    requires PumpOk(p) && CanAct(p, a, reader)
    ensures Idling(Act(p, a, reader)) <= Idling(p) + (if a == NotReady then 1 else 0)
    ensures a == Fire && !p.finished ==> Idling(Act(p, a, reader)) < Idling(p)
  {}

  /** An input that takes no more data now. */
  predicate Polls(t: Step) { t.Lane? && t.action == NotReady }

  function Polling(steps: seq<Step>): nat {
    if steps == [] then 0 else (if Polls(steps[0]) then 1 else 0) + Polling(steps[1..])
  }

  /** Callbacks of finished inputs in a run. */
  function Late(s: State, steps: seq<Step>): nat
    decreases |steps|
  {
    if steps == [] || !Enabled(s, steps[0]) then 0
    else (if LateCallback(s, steps[0]) then 1 else 0) + Late(Apply(s, steps[0]), steps[1..])
  }

  /** The length of a whole run, from how often inputs were not ready or called back after their end. */
  lemma {:induction false} RunsAreBounded(s: State, steps: seq<Step>, s': State)
    requires Inv(s) && Run(s, steps, s')
    ensures |steps| + Remaining(s') + AllIdling(s') <= Remaining(s) + AllIdling(s) + 2 * Polling(steps) + Late(s, steps)
    decreases |steps|
  {
    hide Inv, Apply, Enabled, Remaining, AllIdling, LateCallback, Polls;
    if steps != [] {
      StepCosts(s, steps[0]);
      StepKeepsInv(s, steps[0]);
      RunsAreBounded(Apply(s, steps[0]), steps[1..], s');
      Exclusive(s, steps[0]);
    }
  }

  lemma Exclusive(s: State, t: Step)
    ensures !(LateCallback(s, t) && Polls(t))
  {}

  /** Every pump has left exactly once and the continuation has been resumed exactly once. */
  ghost predicate Complete(s: State) { s.notify == Over && |s.resumes| == 1 && AllLeft(s) }

  /** From every state on there is a run to completion. */
  lemma {:induction false} CompletionReachable(s: State) returns (steps: seq<Step>, s': State)
    requires Inv(s)
    ensures Run(s, steps, s') && Complete(s')
    decreases Remaining(s) + AllIdling(s)
  {
    if s.notify == Over {
      steps, s' := [], s;
    } else {
      var t := NeverStuck(s);
      StepCosts(s, t);
      StepKeepsInv(s, t);
      hide Inv, Apply, Enabled, Remaining, AllIdling, LateCallback, Polls;
      var rest: seq<Step>;
      rest, s' := CompletionReachable(Apply(s, t));
      steps := [t] + rest;
      assert steps[1..] == rest;
    }
  }

  /**
   Exactly once: a run that cannot be continued, other than by callbacks of finished inputs, has left the group
   once for each pump and has resumed the continuation once.
   */
  lemma EveryFullRunCompletes(s: State, steps: seq<Step>, s': State)
    requires IsInitial(s) && Run(s, steps, s') && forall t | Enabled(s', t) :: LateCallback(s', t)
    ensures Complete(s')
  {
    assert Inv(s);
    RunKeepsInv(s, steps, s');
    hide Run, Enabled, PumpsOk;
    if s'.resumes == [] { var t := NeverStuck(s'); }
  }

  // ----- both conditions of the join are needed -----

  lemma {:induction false} RunThen(s: State, steps: seq<Step>, s': State, t: Step)
    requires Run(s, steps, s') && Enabled(s', t)
    ensures Run(s, steps + [t], Apply(s', t))
    decreases |steps|
  {
    hide Enabled, Apply;
    if steps == [] {
      assert steps + [t] == [t] && [t][1..] == [];
    } else {
      assert (steps + [t])[1..] == steps[1..] + [t] && (steps + [t])[0] == steps[0];
      RunThen(Apply(s, steps[0]), steps[1..], s', t);
    }
  }

  /** A copy of a video track alone, before any resumption. */
  function Alone(p: Pump, group: int, firstError: bool, reader: ReaderStatus, notify: Notify): State {
    State(map[Video := p], group, firstError, reader, notify, [])
  }

  function OneSample(): State { Alone(Unbegun([7]), 0, false, Reading, Unregistered) }

  lemma OneSampleIsInitial()
    ensures IsInitial(OneSample())
  {}

  /** A joinable end in which the only input did not get its whole track. */
  lemma EndsIncomplete(q: Pump, firstError: bool, reader: ReaderStatus)
    requires |q.appended| != |q.track|
    ensures var s := Alone(q, 0, firstError, reader, Registered);
            Enabled(s, Joined) && s.firstError == firstError && s.reader == reader && !AllCopied(s)
  {
    assert Video in Alone(q, 0, firstError, reader, Registered).pumps;
  }

  lemma VideoStep(steps: seq<Step>, p: Pump, group: int, firstError: bool, reader: ReaderStatus, a: Action, q: Pump)
    returns (steps': seq<Step>)
    requires CanAct(p, a, reader) && q == Act(p, a, reader) && a != Start
    requires Run(OneSample(), steps, Alone(p, group, firstError, reader, Registered))
    ensures Run(OneSample(), steps', Alone(q, if a == Leave then group - 1 else group, firstError || a == Record,
                                          reader, Registered))
  {
    hide Run, Act, CanAct;
    var s := Alone(p, group, firstError, reader, Registered);
    RunThen(OneSample(), steps, s, Lane(Video, a));
    steps' := steps + [Lane(Video, a)];
    assert Apply(s, Lane(Video, a)).pumps == map[Video := q];
  }

  lemma ReaderStep(steps: seq<Step>, p: Pump, group: int, t: Step) returns (steps': seq<Step>)
    requires t == ReaderFails || (t == ReaderCompletes && p.taken == |p.track|)
    requires Run(OneSample(), steps, Alone(p, group, false, Reading, Registered))
    ensures Run(OneSample(), steps', Alone(p, group, false, if t == ReaderFails then ReadFailed else ReadAll, Registered))
  {
    hide Run;
    RunThen(OneSample(), steps, Alone(p, group, false, Reading, Registered), t);
    steps' := steps + [t];
  }

  /** Started and registered: the pump waits for its first callback. */
  lemma SetUp() returns (steps: seq<Step>)
    ensures Run(OneSample(), steps, Alone(Waits(), 1, false, Reading, Registered))
  {
    var q := Waits();
    assert Run(OneSample(), [], OneSample());
    hide Run;
    RunThen(OneSample(), [], OneSample(), Lane(Video, Start));
    var s := Alone(q, 1, false, Reading, Unregistered);
    assert Apply(OneSample(), Lane(Video, Start)).pumps == map[Video := q];
    RunThen(OneSample(), [] + [Lane(Video, Start)], s, Register);
    steps := [] + [Lane(Video, Start)] + [Register];
  }

  /** Without the reader's status: a reader that fails leaves no recorded error behind. */
  lemma StatusTestNeeded() returns (steps: seq<Step>, s: State)
    ensures IsInitial(OneSample()) && Run(OneSample(), steps, s)
    ensures Enabled(s, Joined) && !s.firstError && !AllCopied(s)
  {
    var p := Waits();
    var done := p.(finished := true, pc := Leaving);
    s := Alone(done.(pc := Waiting, left := 1), 0, false, ReadFailed, Registered);
    OneSampleIsInitial();
    EndsIncomplete(done.(pc := Waiting, left := 1), false, ReadFailed);
    hide Run, Alone, OneSample, IsInitial, Enabled, AllCopied;
    steps := SetUp();
    steps := ReaderStep(steps, p, 1, ReaderFails);
    steps := VideoStep(steps, p, 1, false, ReadFailed, Fire, p.(pc := Looping));
    steps := VideoStep(steps, p.(pc := Looping), 1, false, ReadFailed, TakeNothing, done);
    steps := VideoStep(steps, done, 1, false, ReadFailed, Leave, done.(pc := Waiting, left := 1));
  }

  // A pump on the way to a refused append.
  function Waits(): Pump { Unbegun([7]).(pc := Waiting) }
  function Loops(): Pump { Pump([7], 0, [], Looping, false, false, 0) }
  function Holds(): Pump { Pump([7], 1, [], Holding(7), false, false, 0) }
  function Refuses(): Pump { Pump([7], 1, [], Failing, true, true, 0) }
  function Leaves(): Pump { Pump([7], 1, [], Leaving, true, true, 0) }
  function Gone(): Pump { Pump([7], 1, [], Waiting, true, true, 1) }

  lemma RefusedPath()
    ensures CanAct(Waits(), Fire, Reading) && Loops() == Act(Waits(), Fire, Reading)
    ensures CanAct(Loops(), Take, Reading) && Holds() == Act(Loops(), Take, Reading)
    ensures CanAct(Holds(), AppendFails, ReadAll) && Refuses() == Act(Holds(), AppendFails, ReadAll)
    ensures CanAct(Refuses(), Record, ReadAll) && Leaves() == Act(Refuses(), Record, ReadAll)
    ensures CanAct(Leaves(), Leave, ReadAll) && Gone() == Act(Leaves(), Leave, ReadAll)
    ensures Holds().taken == |Holds().track| && |Gone().appended| != |Gone().track|
  {}

  /** Without the recorded error: a refused last sample leaves a completed reader behind. */
  lemma ErrorRecordNeeded() returns (steps: seq<Step>, s: State)
    ensures IsInitial(OneSample()) && Run(OneSample(), steps, s)
    ensures Enabled(s, Joined) && s.reader == ReadAll && !AllCopied(s)
  {
    hide *;
    RefusedPath();
    OneSampleIsInitial();
    EndsIncomplete(Gone(), true, ReadAll);
    steps := SetUp();
    steps := VideoStep(steps, Waits(), 1, false, Reading, Fire, Loops());
    steps := VideoStep(steps, Loops(), 1, false, Reading, Take, Holds());
    steps := ReaderStep(steps, Holds(), 1, ReaderCompletes);
    steps := VideoStep(steps, Holds(), 1, false, ReadAll, AppendFails, Refuses());
    steps := VideoStep(steps, Refuses(), 1, false, ReadAll, Record, Leaves());
    steps := VideoStep(steps, Leaves(), 1, true, ReadAll, Leave, Gone());
    s := Alone(Gone(), 0, true, ReadAll, Registered);
  }
}
