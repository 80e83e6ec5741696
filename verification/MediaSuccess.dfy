/**
 When a copy of samples succeeds: read off the steps of the run alone. Every copy can succeed, and one that meets
 no failure on the way still fails if its reader has not completed at the join.
 */
module MediaSuccess {
  import opened MediaPump

  // ----- what the steps say -----

  /** An input refused a sample. */
  predicate Refused(steps: seq<Step>) { Lane(Video, AppendFails) in steps || Lane(Audio, AppendFails) in steps }

  predicate Recorded(steps: seq<Step>) { Lane(Video, Record) in steps || Lane(Audio, Record) in steps }

  predicate CompletedBeforeJoin(steps: seq<Step>) {
    exists i, j | 0 <= i < j < |steps| :: steps[i] == ReaderCompletes && steps[j] == Joined
  }

  /** A run that can only be continued by callbacks of finished inputs. */
  ghost predicate Full(s: State) { forall t | Enabled(s, t) :: LateCallback(s, t) }

  lemma InTail(steps: seq<Step>, t: Step)
    requires steps != []
    ensures t in steps <==> t == steps[0] || t in steps[1..]
  {
    assert steps == [steps[0]] + steps[1..];
  }

  lemma BeforeJoinTail(steps: seq<Step>)
    requires steps != []
    ensures CompletedBeforeJoin(steps) <==>
            CompletedBeforeJoin(steps[1..]) || (steps[0] == ReaderCompletes && Joined in steps[1..])
  {
    if CompletedBeforeJoin(steps) {
      var i, j :| 0 <= i < j < |steps| && steps[i] == ReaderCompletes && steps[j] == Joined;
      assert steps[1..][j - 1] == Joined;
      if i > 0 { assert steps[1..][i - 1] == ReaderCompletes; }
    }
    if CompletedBeforeJoin(steps[1..]) {
      var i, j :| 0 <= i < j < |steps[1..]| && steps[1..][i] == ReaderCompletes && steps[1..][j] == Joined;
      assert steps[i + 1] == ReaderCompletes && steps[j + 1] == Joined;
    }
    if steps[0] == ReaderCompletes && Joined in steps[1..] {
      var j :| 0 <= j < |steps[1..]| && steps[1..][j] == Joined;
      assert steps[j + 1] == Joined;
    }
  }

  // ----- behind the join -----

  /** What a step does to the state in which the join stands. */
  lemma Phases(s: State, t: Step)
    requires Inv(s) && Enabled(s, t)
    ensures var s' := Apply(s, t);
            && (s.notify == Over ==> s'.notify == Over && s'.resumes == s.resumes && t != Joined && !t.FileFinished?)
            && (s.notify == FinishingFile ==>
                  && t != Joined && s.resumes == []
                  && if t.FileFinished? then s'.notify == Over && s'.resumes == [t.ok] else s'.notify == FinishingFile)
            && (s.notify in {Unregistered, Registered} ==>
                  && !t.FileFinished? && s.resumes == []
                  && if t != Joined then s'.notify in {Unregistered, Registered}
                     else if !s.firstError && s.reader == ReadAll then s'.notify == FinishingFile && s'.resumes == []
                     else s'.notify == Over && s'.resumes == [false])
            && (s'.firstError <==> s.firstError || t == Lane(Video, Record) || t == Lane(Audio, Record))
            && (s.notify in {FinishingFile, Over} ==> t != Lane(Video, Record) && t != Lane(Audio, Record))
            && (s'.reader == ReadAll <==> s.reader == ReadAll || t == ReaderCompletes)
  {
    hide PumpOk, Act, InGroup;
    if t.Lane? && s.notify in {FinishingFile, Over} { LeftPumpsRest(s, t.lane, t.action); }
    if t.Lane? { match t.lane case Video => case Audio => }
  }

  lemma LeftPumpsRest(s: State, l: Lane, a: Action)
    requires Inv(s) && s.notify in {FinishingFile, Over} && Enabled(s, Lane(l, a))
    ensures a == Fire
  {
    ActKeepsPump(s.pumps[l], a, s.reader);
  }

  /** Once the continuation has been resumed, neither a join nor a finished file follows. */
  lemma {:induction false} NothingAfterOver(s: State, steps: seq<Step>, s': State)
    requires Inv(s) && Run(s, steps, s') && s.notify == Over
    ensures s'.resumes == s.resumes && s'.notify == Over
    ensures Joined !in steps && FileFinished(true) !in steps && FileFinished(false) !in steps
    decreases |steps|
  {
    hide Inv, Apply, Enabled;
    if steps != [] {
      Phases(s, steps[0]);
      StepKeepsInv(s, steps[0]);
      NothingAfterOver(Apply(s, steps[0]), steps[1..], s');
      forall t | t == Joined || t.FileFinished? ensures t !in steps { InTail(steps, t); }
    }
  }

  /** While the file is finished: what its end says is what the continuation is resumed with. */
  lemma {:induction false} FinishDecides(s: State, steps: seq<Step>, s': State)
    requires Inv(s) && Run(s, steps, s') && s.notify == FinishingFile
    ensures Joined !in steps && !Recorded(steps)
    ensures s'.resumes == [true] <==> FileFinished(true) in steps
    ensures s'.resumes == [false] <==> FileFinished(false) in steps
    ensures s'.notify == Over ==> s'.resumes in {[true], [false]}
    decreases |steps|
  {
    hide Inv, Apply, Enabled;
    if steps == [] {
      FinishingNotResumed(s);
    } else {
      var t := steps[0];
      Phases(s, t);
      StepKeepsInv(s, t);
      if t.FileFinished? {
        NothingAfterOver(Apply(s, t), steps[1..], s');
        RestNotRecorded(Apply(s, t), steps[1..], s');
        assert [true][0] != [false][0];
      } else {
        FinishDecides(Apply(s, t), steps[1..], s');
      }
      TailFacts(steps);
    }
  }

  lemma FinishingNotResumed(s: State)
    requires Inv(s) && s.notify != Over
    ensures s.resumes == []
  {}

  lemma {:induction false} RestNotRecorded(s: State, steps: seq<Step>, s': State)
    requires Inv(s) && Run(s, steps, s') && s.notify in {FinishingFile, Over}
    ensures !Recorded(steps)
    decreases |steps|
  {
    hide Inv, Apply, Enabled;
    if steps != [] {
      Phases(s, steps[0]);
      StepKeepsInv(s, steps[0]);
      RestNotRecorded(Apply(s, steps[0]), steps[1..], s');
      TailFacts(steps);
    }
  }

  lemma TailFacts(steps: seq<Step>)
    requires steps != []
    ensures Joined in steps <==> steps[0] == Joined || Joined in steps[1..]
    ensures FileFinished(true) in steps <==> steps[0] == FileFinished(true) || FileFinished(true) in steps[1..]
    ensures FileFinished(false) in steps <==> steps[0] == FileFinished(false) || FileFinished(false) in steps[1..]
    ensures Recorded(steps) <==>
            steps[0] == Lane(Video, Record) || steps[0] == Lane(Audio, Record) || Recorded(steps[1..])
    ensures Refused(steps) <==>
            steps[0] == Lane(Video, AppendFails) || steps[0] == Lane(Audio, AppendFails) || Refused(steps[1..])
  {
    forall t ensures t in steps <==> t == steps[0] || t in steps[1..] { InTail(steps, t); }
  }

  // ----- before the join -----

  /** The reader has completed, or does so before the join. */
  predicate Completes(s: State, steps: seq<Step>) {
    (s.reader == ReadAll && Joined in steps) || CompletedBeforeJoin(steps)
  }

  /** The steps decide, from any state before the join. */
  lemma {:induction false} StepsDecide(s: State, steps: seq<Step>, s': State)
    requires Inv(s) && Run(s, steps, s') && s.notify in {Unregistered, Registered} && s'.notify == Over
    ensures s'.resumes == [true] <==>
            !s.firstError && !Recorded(steps) && Completes(s, steps) && FileFinished(false) !in steps
    ensures s'.resumes == [true] <==> FileFinished(true) in steps
    ensures s'.resumes in {[true], [false]}
    decreases |steps|
  {
    hide Inv, Apply, Enabled, CompletedBeforeJoin, Recorded;
    var t := steps[0];
    Phases(s, t);
    StepKeepsInv(s, t);
    TailFacts(steps);
    BeforeJoinTail(steps);
    var m, rest := Apply(s, t), steps[1..];
    assert [true][0] != [false][0];
    if t != Joined {
      StepsDecide(m, rest, s');
    } else {
      if m.notify == Over { NothingAfterOver(m, rest, s'); } else { FinishDecides(m, rest, s'); }
      RestNotRecorded(m, rest, s');
      NoJoinNoMatch(rest);
    }
  }

  lemma NoJoinNoMatch(steps: seq<Step>)
    ensures Joined !in steps ==> !CompletedBeforeJoin(steps)
  {}

  // ----- refused and recorded -----

  ghost predicate AnyRefused(s: State) { exists l :: l in s.pumps && s.pumps[l].refused }

  lemma RefusedStep(s: State, t: Step)
    requires Inv(s) && Enabled(s, t)
    ensures AnyRefused(Apply(s, t)) <==>
            AnyRefused(s) || t == Lane(Video, AppendFails) || t == Lane(Audio, AppendFails)
    ensures t == Lane(Video, Record) || t == Lane(Audio, Record) ==> AnyRefused(s)
  {
    if t.Lane? {
      var s' := Apply(s, t);
      RefusedAct(s.pumps[t.lane], t.action, s.reader);
      hide Act, CanAct, PumpOk, InGroup;
      assert s'.pumps[t.lane].refused <==> s.pumps[t.lane].refused || t.action == AppendFails;
      assert forall l | l in s.pumps && l != t.lane :: s'.pumps[l] == s.pumps[l];
      match t.lane case Video => case Audio =>
    }
  }

  lemma RefusedAct(p: Pump, a: Action, reader: ReaderStatus)
    requires PumpOk(p) && CanAct(p, a, reader)
    ensures Act(p, a, reader).refused <==> p.refused || a == AppendFails
    ensures a == Record ==> p.refused
  {}

  lemma {:induction false} RefusedSteps(s: State, steps: seq<Step>, s': State)
    requires Inv(s) && Run(s, steps, s')
    ensures AnyRefused(s') <==> AnyRefused(s) || Refused(steps)
    ensures s'.firstError <==> s.firstError || Recorded(steps)
    ensures Recorded(steps) ==> AnyRefused(s')
    decreases |steps|
  {
    hide Inv, Apply, Enabled, AnyRefused, Recorded, Refused;
    if steps == [] {
      NothingRefused();
    } else {
      TailFacts(steps);
      RefusedStep(s, steps[0]);
      Phases(s, steps[0]);
      StepKeepsInv(s, steps[0]);
      RefusedSteps(Apply(s, steps[0]), steps[1..], s');
    }
  }

  lemma NothingRefused()
    ensures !Refused([]) && !Recorded([])
  {}

  lemma OverIsRecorded(s: State)
    requires Inv(s) && AllLeft(s) && AnyRefused(s)
    ensures s.firstError
  {
    var l :| l in s.pumps && s.pumps[l].refused;
    assert PumpOk(s.pumps[l]);
  }

  lemma InitialFacts(s: State)
    requires IsInitial(s)
    ensures Inv(s) && !AnyRefused(s) && !s.firstError && s.reader == Reading && s.notify == Unregistered
  {}

  /**
   A copy succeeds exactly when no input refused a sample, the reader completed before the join and the file was
   finished without a failure; a finished file without a failure alone says the same, and a copy that does
   not succeed fails.
   */
  lemma SucceedsExactly(s: State, steps: seq<Step>, s': State)
    requires IsInitial(s) && Run(s, steps, s') && Full(s')
    ensures s'.resumes == [true] <==> !Refused(steps) && CompletedBeforeJoin(steps) && FileFinished(false) !in steps
    ensures s'.resumes == [true] <==> FileFinished(true) in steps
    ensures s'.resumes in {[true], [false]}
  {
    InitialFacts(s);
    EveryFullRunCompletes(s, steps, s');
    RunKeepsInv(s, steps, s');
    RefusedSteps(s, steps, s');
    hide Inv, Run, Full, CompletedBeforeJoin, Recorded, Refused, AnyRefused, IsInitial, AllLeft;
    StepsDecide(s, steps, s');
    if Refused(steps) { OverIsRecorded(s'); }
  }

  // ----- every copy can succeed -----

  /** Nothing has failed so far, and a pump that has ended has taken its whole track. */
  ghost predicate Well(s: State) {
    && Inv(s) && !s.firstError && s.reader in {Reading, ReadAll} && s.resumes != [false]
    && forall l | l in s.pumps :: !s.pumps[l].refused && (s.pumps[l].finished ==> s.pumps[l].taken == |s.pumps[l].track|)
  }

  /** The next thing a pump does when nothing fails. */
  lemma PumpGoesOn(p: Pump, reader: ReaderStatus) returns (a: Action)
    requires PumpOk(p) && InGroup(p) && !p.refused && reader in {Reading, ReadAll}
    requires reader == ReadAll ==> p.taken == |p.track|
    requires p.finished ==> p.taken == |p.track|
    ensures CanAct(p, a, reader) && a !in {Start, NotReady, Record} && (a == Fire ==> !p.finished)
    ensures var q := Act(p, a, reader); !q.refused && (q.finished ==> q.taken == |q.track|)
  {
    match p.pc
    case Waiting => a := Fire;
    case Looping => a := if p.taken < |p.track| then Take else TakeNothing;
    case Holding(_) => a := AppendOk;
    case Leaving => a := Leave;
  }

  lemma WellGoesOn(s: State) returns (t: Step)
    requires Well(s) && s.resumes == []
    ensures Enabled(s, t) && !LateCallback(s, t) && !Polls(t) && Well(Apply(s, t))
  {
    if l :| l in s.pumps && s.pumps[l].pc == Unstarted && s.notify == Unregistered {
      t := Lane(l, Start);
    } else if s.notify == Unregistered {
      t := Register;
    } else if s.notify == FinishingFile {
      t := FileFinished(true);
    } else if s.group > 0 {
      var l: Lane := if Open(s.pumps, Video) == 1 then Video else Audio;
      assert l in s.pumps && InGroup(s.pumps[l]) && PumpOk(s.pumps[l]);
      var a := PumpGoesOn(s.pumps[l], s.reader);
      t := Lane(l, a);
    } else if s.reader == Reading {
      EmptyGroupMeansAllLeft(s);
      forall l | l in s.pumps ensures s.pumps[l].taken == |s.pumps[l].track| { assert PumpOk(s.pumps[l]); }
      t := ReaderCompletes;
    } else {
      t := Joined;
    }
    StepKeepsInv(s, t);
    hide PumpOk, Act, CanAct, InGroup;
    assert [true][0] != [false][0];
  }

  lemma {:induction false} WellSucceeds(s: State) returns (steps: seq<Step>, s': State)
    requires Well(s)
    ensures Run(s, steps, s') && s'.resumes == [true]
    decreases Remaining(s) + AllIdling(s)
  {
    if s.notify == Over {
      OverWell(s);
      steps, s' := [], s;
    } else {
      FinishingNotResumed(s);
      var t := WellGoesOn(s);
      StepCosts(s, t);
      hide Well, Apply, Enabled, Remaining, AllIdling, LateCallback, Polls;
      var rest: seq<Step>;
      rest, s' := WellSucceeds(Apply(s, t));
      steps := [t] + rest;
      assert steps[1..] == rest;
    }
  }

  lemma OverWell(s: State)
    requires Well(s) && s.notify == Over
    ensures s.resumes == [true]
  {
    assert |s.resumes| == 1;
    assert s.resumes == [s.resumes[0]];
    assert s.resumes[0] || s.resumes == [false];
  }

  /** From every initial state, whatever the tracks, some run succeeds, and then every track was copied. */
  lemma EveryCopyCanSucceed(s: State) returns (steps: seq<Step>, s': State)
    requires IsInitial(s)
    ensures Run(s, steps, s') && s'.resumes == [true] && AllCopied(s')
  {
    InitialFacts(s);
    assert Well(s);
    hide Well, Inv;
    steps, s' := WellSucceeds(s);
    EveryInterleavingIsSafe(s, steps, s');
  }

  // ----- the reader's status at the join -----

  // The pump on the way to its regular end.
  function Appended(): Pump { Pump([7], 1, [7], Looping, false, false, 0) }
  function Ended(): Pump { Pump([7], 1, [7], Leaving, true, false, 0) }
  function Left(): Pump { Pump([7], 1, [7], Waiting, true, false, 1) }

  lemma RegularPath()
    ensures CanAct(Waits(), Fire, Reading) && Loops() == Act(Waits(), Fire, Reading)
    ensures CanAct(Loops(), Take, Reading) && Holds() == Act(Loops(), Take, Reading)
    ensures CanAct(Holds(), AppendOk, Reading) && Appended() == Act(Holds(), AppendOk, Reading)
    ensures CanAct(Appended(), TakeNothing, Reading) && Ended() == Act(Appended(), TakeNothing, Reading)
    ensures CanAct(Ended(), Leave, Reading) && Left() == Act(Ended(), Leave, Reading)
  {
    assert [] + [7] == [7];
  }

  function Missed(): State { State(map[Video := Left()], 0, false, ReadAll, Over, [false]) }

  lemma MissedIsFull()
    ensures Full(Missed())
  {
    forall t | Enabled(Missed(), t) ensures LateCallback(Missed(), t) {
      if t.Lane? { assert t.lane == Video; }
    }
  }

  /** Every sample copied and nothing failed, but the reader says so only behind the join: the copy fails. */
  lemma CompletionAfterJoinFails() returns (steps: seq<Step>, s: State)
    ensures IsInitial(OneSample()) && Run(OneSample(), steps, s) && Full(s)
    ensures s.resumes == [false] && AllCopied(s) && ReaderCompletes in steps
  {
    hide *;
    RegularPath();
    OneSampleIsInitial();
    MissedIsFull();
    steps := SetUp();
    steps := VideoStep(steps, Waits(), 1, false, Reading, Fire, Loops());
    steps := VideoStep(steps, Loops(), 1, false, Reading, Take, Holds());
    steps := VideoStep(steps, Holds(), 1, false, Reading, AppendOk, Appended());
    steps := VideoStep(steps, Appended(), 1, false, Reading, TakeNothing, Ended());
    steps := VideoStep(steps, Ended(), 1, false, Reading, Leave, Left());
    JoinTooEarly();
    var m := Alone(Left(), 0, false, Reading, Registered);
    RunThen(OneSample(), steps, m, Joined);
    RunThen(OneSample(), steps + [Joined], Apply(m, Joined), ReaderCompletes);
    steps, s := steps + [Joined] + [ReaderCompletes], Missed();
  }

  lemma JoinTooEarly()
    ensures var m := Alone(Left(), 0, false, Reading, Registered);
            && Enabled(m, Joined) && Enabled(Apply(m, Joined), ReaderCompletes)
            && Apply(Apply(m, Joined), ReaderCompletes) == Missed()
    ensures AllCopied(Missed()) && Missed().resumes == [false]
  {}
}
