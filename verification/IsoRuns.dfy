/** What whole runs of an isochronous stream do: while nothing goes wrong every transfer goes round
    and round, and a transfer that has come back from a lost device never flies again. */
module IsoRuns {
  import opened IsoStream

  // ---------------------------------------------------------------- nothing goes wrong

  /** No stop, no report of a lost device, no refused submission. */
  predicate Smooth(step: Step) {
    match step
    case SubmitNext(accepted) => accepted
    case Complete(_, status) => status != NoDevice && status != Cancelled
    case SubmitAgain(_, accepted, _) => accepted
    case Stop => false
    case _ => true
  }

  predicate AllSmooth(steps: seq<Step>) {
    forall step | step in steps :: Smooth(step)
  }

  predicate Serving(x: Xfer) {
    x == Flying || x == Called(Completed) || x == Called(OtherError) || x == Resubmitting
  }

  /** The stream is being started or runs, and every transfer that was submitted is in use. */
  predicate Going(s: Stream) {
    && !s.dead && s.deadXfers == 0 && (s.owner.Starting? || s.owner == Running)
    && (s.owner.Starting? ==> s.owner.next <= |s.xfers|)
    && (forall i: nat | i < |s.xfers| ::
          if s.owner.Starting? && i >= s.owner.next then s.xfers[i] == Unsubmitted else Serving(s.xfers[i]))
  }

  datatype Turn = Completion | Callback | Resubmission

  predicate IsTurn(step: Step, turn: Turn, i: nat) {
    match turn
    case Completion => step.Complete? && step.i == i
    case Callback => step.RunCallback? && step.j == i
    case Resubmission => step.SubmitAgain? && step.k == i
  }

  /** How often a transfer has completed, has been called back, has been submitted again. */
  function Times(steps: seq<Step>, turn: Turn, i: nat): nat {
    if steps == [] then 0 else (if IsTurn(steps[0], turn, i) then 1 else 0) + Times(steps[1..], turn, i)
  }

  /** 1 if a transfer's callback has been called but has not got past the test of `dead`. */
  function BeforeTest(x: Xfer): nat {
    if x.Called? then 1 else 0
  }

  function AfterTest(x: Xfer): nat {
    if x == Resubmitting then 1 else 0
  }

  lemma GoingStep(s: Stream, step: Step)
    requires Going(s) && Enabled(s, step) && Smooth(step)
    ensures Going(Apply(s, step)) && Apply(s, step).deviceDead == s.deviceDead
    ensures |Apply(s, step).xfers| == |s.xfers|
  {
  }

  lemma TurnStep(s: Stream, step: Step, i: nat)
    requires Going(s) && Enabled(s, step) && Smooth(step) && i < |s.xfers|
    requires |Apply(s, step).xfers| == |s.xfers|
    ensures
      var x := Apply(s, step).xfers[i];
      && BeforeTest(x) + Times([step], Callback, i) == BeforeTest(s.xfers[i]) + Times([step], Completion, i)
      && AfterTest(x) + Times([step], Resubmission, i) == AfterTest(s.xfers[i]) + Times([step], Callback, i)
  {
  }

  lemma {:induction false} TimesCons(steps: seq<Step>, turn: Turn, i: nat)
    requires steps != []
    ensures Times(steps, turn, i) == Times(steps[..1], turn, i) + Times(steps[1..], turn, i)
  {
    assert steps[..1][1..] == [];
  }

  lemma {:induction false} GoingRun(s: Stream, steps: seq<Step>)
    requires Going(s) && Executable(s, steps) && AllSmooth(steps)
    ensures Going(Exec(s, steps)) && Exec(s, steps).deviceDead == s.deviceDead
    ensures |Exec(s, steps).xfers| == |s.xfers|
    decreases |steps|
  {
    if steps == [] {
    } else {
      assert steps[0] in steps;
      GoingStep(s, steps[0]);
      hide Apply, Enabled, Going, Smooth;
      GoingRun(Apply(s, steps[0]), steps[1..]);
    }
  }

  lemma {:induction false} TurnsAddUp(s: Stream, steps: seq<Step>, i: nat)
    requires Going(s) && Executable(s, steps) && AllSmooth(steps) && i < |s.xfers|
    ensures |Exec(s, steps).xfers| == |s.xfers|
    ensures
      var x := Exec(s, steps).xfers[i];
      && BeforeTest(x) + Times(steps, Callback, i) == BeforeTest(s.xfers[i]) + Times(steps, Completion, i)
      && AfterTest(x) + Times(steps, Resubmission, i) == AfterTest(s.xfers[i]) + Times(steps, Callback, i)
    decreases |steps|
  {
    if steps == [] {
    } else {
      assert steps[0] in steps;
      GoingStep(s, steps[0]);
      TurnStep(s, steps[0], i);
      assert steps[..1] == [steps[0]];
      TimesCons(steps, Completion, i);
      TimesCons(steps, Callback, i);
      TimesCons(steps, Resubmission, i);
      hide Apply, Enabled, Going, Smooth, Times, BeforeTest, AfterTest;
      TurnsAddUp(Apply(s, steps[0]), steps[1..], i);
    }
  }

  /** In such a run no transfer dies, the device stays as it was, and every transfer that has been
      submitted is with libusb, in its callback, or about to be submitted again; it has been
      submitted again as often as it completed, but for the completion that is being dealt with. */
  lemma KeepsGoing(s: Stream, steps: seq<Step>)
    requires Init(s) && Executable(s, steps) && AllSmooth(steps)
    ensures
      var t := Exec(s, steps);
      && t.deadXfers == 0 && !t.dead && t.deviceDead == s.deviceDead && |t.xfers| == |s.xfers|
      && forall i: nat | i < |t.xfers| && (t.owner.Starting? ==> i < t.owner.next) ::
           var calls, again := Times(steps, Callback, i), Times(steps, Resubmission, i);
           match t.xfers[i]
           case Flying => Times(steps, Completion, i) == calls == again
           case Called(status) =>
             (status == Completed || status == OtherError) && Times(steps, Completion, i) == calls + 1 == again + 1
           case Resubmitting => Times(steps, Completion, i) == calls == again + 1
           case _ => false
  {
    GoingRun(s, steps);
    var t := Exec(s, steps);
    hide Executable, Exec, Times;
    forall i: nat | i < |t.xfers|
      ensures BeforeTest(t.xfers[i]) + Times(steps, Callback, i) == Times(steps, Completion, i)
      ensures AfterTest(t.xfers[i]) + Times(steps, Resubmission, i) == Times(steps, Callback, i)
    {
      TurnsAddUp(s, steps, i);
    }
  }

  // ---------------------------------------------------------------- the device is lost

  lemma {:induction false} DeviceStaysDead(s: Stream, steps: seq<Step>)
    requires Executable(s, steps)
    ensures s.deviceDead ==> Exec(s, steps).deviceDead
    ensures s.dead ==> Exec(s, steps).dead
    ensures |Exec(s, steps).xfers| == |s.xfers|
    decreases |steps|
  {
    if steps == [] {
    } else {
      DeviceStaysDead(Apply(s, steps[0]), steps[1..]);
    }
  }

  /** A step that completes a transfer, calls it back or submits it. */
  predicate Uses(step: Step, i: nat) {
    IsTurn(step, Completion, i) || IsTurn(step, Callback, i) || IsTurn(step, Resubmission, i)
  }

  lemma GoneStep(s: Stream, step: Step, i: nat)
    requires Inv(s) && Enabled(s, step) && i < |s.xfers|
    requires Counted(s.xfers[i]) || s.xfers[i] == Retesting
    ensures !Uses(step, i)
    ensures
      var t := Apply(s, step);
      if Counted(s.xfers[i]) then Counted(t.xfers[i]) else Counted(t.xfers[i]) <==> step == TestAgain(i)
    ensures s.xfers[i] == Leaving(true) ==>
              Apply(s, step).xfers[i] == Leaving(true) || (Apply(s, step).xfers[i] == Dead && Apply(s, step).deviceDead)
  {
    hide Count;
  }

  /** A counted transfer is never used again, and when the callback that has seen the device lost
      has returned, the device is dead for good. */
  lemma {:induction false} GoneForGood(s: Stream, steps: seq<Step>, i: nat)
    requires Inv(s) && Executable(s, steps) && i < |s.xfers| && Counted(s.xfers[i])
    ensures |Exec(s, steps).xfers| == |s.xfers| && Counted(Exec(s, steps).xfers[i])
    ensures forall step | step in steps :: !Uses(step, i)
    ensures s.xfers[i] == Leaving(true) ==> Exec(s, steps).xfers[i] == Leaving(true) || Exec(s, steps).deviceDead
    decreases |steps|
  {
    DeviceStaysDead(s, steps);
    if steps == [] {
    } else {
      InvStep(s, steps[0]);
      GoneStep(s, steps[0], i);
      DeviceStaysDead(Apply(s, steps[0]), steps[1..]);
      hide Apply, Enabled, Inv, Uses;
      GoneForGood(Apply(s, steps[0]), steps[1..], i);
    }
  }

  lemma {:induction false} StatusIsKept(s: Stream, i: nat, status: Status, steps: seq<Step>)
    requires Inv(s) && i < |s.xfers| && s.xfers[i] == Called(status) && Executable(s, steps)
    requires RunCallback(i) !in steps
    ensures |Exec(s, steps).xfers| == |s.xfers| && Exec(s, steps).xfers[i] == Called(status)
    decreases |steps|
  {
    if steps == [] {
    } else {
      var t := Apply(s, steps[0]);
      InvStep(s, steps[0]);
      assert steps[0] in steps;
      assert |t.xfers| == |s.xfers| && t.xfers[i] == Called(status);
      hide Apply, Enabled, Inv;
      StatusIsKept(t, i, status, steps[1..]);
    }
  }

  /** The callback sees the status with which the transfer has completed. */
  lemma CompletesWith(s: Stream, i: nat, status: Status, steps: seq<Step>)
    requires Inv(s) && Enabled(s, Complete(i, status)) && Executable(Apply(s, Complete(i, status)), steps)
    requires RunCallback(i) !in steps
    ensures
      var t := Exec(Apply(s, Complete(i, status)), steps);
      i < |t.xfers| && t.xfers[i] == Called(status)
  {
    InvStep(s, Complete(i, status));
    StatusIsKept(Apply(s, Complete(i, status)), i, status, steps);
  }

  /** A transfer that comes back from a lost device in a live stream is counted then and there, and
      in every continuation it is not used again; once its callback has returned the device is dead. */
  lemma NoDeviceIsFinal(s: Stream, i: nat, steps: seq<Step>)
    requires Inv(s) && !s.dead && Enabled(s, RunCallback(i)) && s.xfers[i] == Called(NoDevice)
    requires Executable(Apply(s, RunCallback(i)), steps)
    ensures Apply(s, RunCallback(i)).deadXfers == s.deadXfers + 1
    ensures
      var t := Exec(Apply(s, RunCallback(i)), steps);
      |t.xfers| == |s.xfers| && Counted(t.xfers[i]) && (t.xfers[i] == Dead ==> t.deviceDead)
    ensures forall step | step in steps :: !Uses(step, i)
  {
    InvStep(s, RunCallback(i));
    GoneForGood(Apply(s, RunCallback(i)), steps, i);
  }

  lemma RetestStep(s: Stream, step: Step, i: nat)
    requires Inv(s) && i < |s.xfers| && s.xfers[i] == Retesting && Enabled(s, step)
    ensures
      var t := Apply(s, step);
      && Inv(t) && |t.xfers| == |s.xfers| && (s.dead ==> t.dead) && !Uses(step, i)
      && if step == TestAgain(i) then Counted(t.xfers[i]) && (s.dead || t.deviceDead) else t.xfers[i] == Retesting
  {
    InvStep(s, step);
    hide Inv;
  }

  /** What becomes of a transfer before the second test: it is not used again, and it is counted
      from that test on; if that found the stream live, the device is dead from then on. */
  lemma {:induction false} RetestedOnce(s: Stream, i: nat, steps: seq<Step>)
    requires Inv(s) && i < |s.xfers| && s.xfers[i] == Retesting && Executable(s, steps)
    ensures |Exec(s, steps).xfers| == |s.xfers| && forall step | step in steps :: !Uses(step, i)
    ensures if TestAgain(i) in steps then Counted(Exec(s, steps).xfers[i]) else Exec(s, steps).xfers[i] == Retesting
    ensures TestAgain(i) in steps && !Exec(s, steps).dead ==> Exec(s, steps).deviceDead
    decreases |steps|
  {
    if steps == [] {
    } else {
      var t := Apply(s, steps[0]);
      RetestStep(s, steps[0], i);
      DeviceStaysDead(t, steps[1..]);
      hide Apply, Enabled, Inv, Uses, Counted;
      if steps[0] == TestAgain(i) {
        GoneForGood(t, steps[1..], i);
      } else {
        RetestedOnce(t, i, steps[1..]);
      }
    }
  }

  /** A transfer that comes back cancelled although nobody has stopped the stream: it is not used
      again, it is counted once the callback has looked again, and unless the stream has been
      stopped meanwhile the device is dead from then on. */
  lemma CancelledIsFinal(s: Stream, i: nat, steps: seq<Step>)
    requires Inv(s) && !s.dead && Enabled(s, RunCallback(i)) && s.xfers[i] == Called(Cancelled)
    requires Executable(Apply(s, RunCallback(i)), steps)
    ensures |Exec(Apply(s, RunCallback(i)), steps).xfers| == |s.xfers|
    ensures
      var t := Exec(Apply(s, RunCallback(i)), steps);
      if TestAgain(i) in steps then Counted(t.xfers[i]) && (t.dead || t.deviceDead) else t.xfers[i] == Retesting
    ensures forall step | step in steps :: !Uses(step, i)
  {
    InvStep(s, RunCallback(i));
    RetestedOnce(Apply(s, RunCallback(i)), i, steps);
  }

  /** A transfer that is refused when it is submitted again is not used again either; the device is
      dead if that was the reason. */
  lemma RefusedIsFinal(s: Stream, i: nat, noDevice: bool, steps: seq<Step>)
    requires Inv(s) && Enabled(s, SubmitAgain(i, false, noDevice))
    requires Executable(Apply(s, SubmitAgain(i, false, noDevice)), steps)
    ensures Apply(s, SubmitAgain(i, false, noDevice)).deadXfers == s.deadXfers + 1
    ensures
      var t := Exec(Apply(s, SubmitAgain(i, false, noDevice)), steps);
      |t.xfers| == |s.xfers| && Counted(t.xfers[i]) && (noDevice && t.xfers[i] == Dead ==> t.deviceDead)
    ensures forall step | step in steps :: !Uses(step, i)
  {
    InvStep(s, SubmitAgain(i, false, noDevice));
    GoneForGood(Apply(s, SubmitAgain(i, false, noDevice)), steps, i);
  }

  // ---------------------------------------------------------------- and only then

  /** libusb says that the device is gone, or cancels a transfer by itself. */
  predicate Reports(step: Step) {
    match step
    case Complete(_, status) => status == NoDevice || status == Cancelled
    case SubmitAgain(_, accepted, noDevice) => !accepted && noDevice
    case _ => false
  }

  predicate Unreported(x: Xfer) {
    x != Called(NoDevice) && x != Called(Cancelled) && x != Retesting && x != Leaving(true)
  }

  predicate NoneReported(s: Stream) {
    forall i: nat | i < |s.xfers| :: Unreported(s.xfers[i])
  }

  lemma {:induction false} UnreportedRun(s: Stream, steps: seq<Step>)
    requires Executable(s, steps) && NoneReported(s) && forall step | step in steps :: !Reports(step)
    ensures NoneReported(Exec(s, steps)) && Exec(s, steps).deviceDead == s.deviceDead
    decreases |steps|
  {
    if steps == [] {
    } else {
      var t := Apply(s, steps[0]);
      assert steps[0] in steps;
      assert NoneReported(t) && t.deviceDead == s.deviceDead;
      hide Apply, Enabled, NoneReported;
      UnreportedRun(t, steps[1..]);
    }
  }

  /** Without such a report the device is not taken for dead, whatever else happens. */
  lemma DeviceDeadOnlyIfReported(s: Stream, steps: seq<Step>)
    requires Init(s) && Executable(s, steps) && Exec(s, steps).deviceDead && !s.deviceDead
    ensures exists step :: step in steps && Reports(step)
  {
    hide Executable, Exec, Reports;
    if forall step | step in steps :: !Reports(step) {
      UnreportedRun(s, steps);
    }
  }

  predicate NoneLeavingLost(s: Stream) {
    forall i: nat | i < |s.xfers| :: s.xfers[i] != Leaving(true)
  }

  /** And a stream that has been stopped does not take its transfers' coming back, however they do,
      for the loss of the device: only a refused submission still tells it that. */
  lemma {:induction false} StoppedIsNotLost(s: Stream, steps: seq<Step>)
    requires Executable(s, steps) && s.dead && NoneLeavingLost(s)
    requires forall step | step in steps :: Reports(step) ==> step.Complete?
    ensures Exec(s, steps).deviceDead == s.deviceDead
    decreases |steps|
  {
    if steps == [] {
    } else {
      var t := Apply(s, steps[0]);
      assert steps[0] in steps;
      assert t.dead && NoneLeavingLost(t) && t.deviceDead == s.deviceDead;
      hide Apply, Enabled, NoneLeavingLost;
      StoppedIsNotLost(t, steps[1..]);
    }
  }

  // ---------------------------------------------------------------- stopping gets to its end

  lemma {:induction false} ReachesFreed(s: Stream, t: Stream, k: nat)
    requires Reaches(s, t) && t.owner == Freeing(0) && k <= |t.xfers|
    ensures Reaches(s, t.(owner := Freeing(k)))
    decreases k
  {
    hide Reaches;
    if k == 0 {
      assert t.(owner := Freeing(0)) == t;
    } else {
      ReachesFreed(s, t, k - 1);
      ReachesNext(s, t.(owner := Freeing(k - 1)), FreeNext, t.(owner := Freeing(k)));
    }
  }

  /** When the last transfer is counted, nothing keeps the stopping thread from freeing them all. */
  lemma StopEnds(s: Stream)
    requires s.owner == Waiting && s.deadXfers >= |s.xfers|
    ensures Reaches(s, s.(owner := Stopped))
  {
    ReachesSelf(s);
    hide Reaches;
    var t := s.(owner := Freeing(0));
    ReachesNext(s, s, WaitDone, t);
    ReachesFreed(s, t, |s.xfers|);
    ReachesNext(s, t.(owner := Freeing(|s.xfers|)), FreeDone, s.(owner := Stopped));
  }
}
