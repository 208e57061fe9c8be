/** The life of an isochronous stream (usb_libusb10.c): its transfers are submitted one after
    the other, completed and submitted again by the event handling of any thread, and freed
    when the stream has been stopped.  Each step is one that no other thread can see half of. */
module IsoStream {
  datatype Status = Completed | NoDevice | Cancelled | OtherError

  /** Where a transfer is: not submitted yet, with libusb, in its callback before the test of
      `dead`, in its callback about to be submitted again, in its callback before the second test
      of `dead` that a cancelled transfer gets, counted in dead_xfers but still in its callback,
      which goes on to read the transfer and the stream, or counted and done with. */
  datatype Xfer = Unsubmitted | Flying | Called(status: Status) | Resubmitting | Retesting
                | Leaving(deviceLost: bool) | Dead

  /** The thread that starts and stops the stream. */
  datatype Owner = Starting(next: nat) | Running | Cancelling(index: nat) | Waiting | Freeing(freed: nat) | Stopped

  datatype Stream = Stream(xfers: seq<Xfer>, deadXfers: nat, dead: bool, deviceDead: bool, owner: Owner)

  datatype Step =
    | SubmitNext(accepted: bool)  // fnusb_start_iso; a failed allocation counts like a refusal
    | StartDone
    | Complete(i: nat, status: Status)
    | RunCallback(j: nat)
    | SubmitAgain(k: nat, accepted: bool, noDevice: bool)
    | TestAgain(m: nat)
    | Return(l: nat)
    | Stop
    | CancelNext
    | CancelDone
    | WaitDone
    | FreeNext
    | FreeDone

  ghost predicate Enabled(s: Stream, step: Step) {
    match step
    case SubmitNext(_) => s.owner.Starting? && s.owner.next < |s.xfers|
    case StartDone => s.owner.Starting? && s.owner.next >= |s.xfers|
    case Complete(i, _) => i < |s.xfers| && s.xfers[i] == Flying
    case RunCallback(i) => i < |s.xfers| && s.xfers[i].Called?
    case SubmitAgain(i, _, _) => i < |s.xfers| && s.xfers[i] == Resubmitting
    case TestAgain(i) => i < |s.xfers| && s.xfers[i] == Retesting
    case Return(i) => i < |s.xfers| && s.xfers[i].Leaving?
    case Stop => s.owner == Running
    case CancelNext => s.owner.Cancelling? && s.owner.index < |s.xfers|
    case CancelDone => s.owner.Cancelling? && s.owner.index >= |s.xfers|
    case WaitDone => s.owner == Waiting && s.deadXfers >= |s.xfers|
    case FreeNext => s.owner.Freeing? && s.owner.freed < |s.xfers|
    case FreeDone => s.owner.Freeing? && s.owner.freed >= |s.xfers|
  }

  /** dead_xfers++, for transfer `i`; in its callback, or in fnusb_start_iso. */
  function Bury(s: Stream, i: nat, x: Xfer): Stream
    requires i < |s.xfers|
  {
    s.(xfers := s.xfers[i := x], deadXfers := s.deadXfers + 1)
  }

  ghost function Apply(s: Stream, step: Step): Stream
    requires Enabled(s, step)
  {
    match step
    case SubmitNext(accepted) =>
      var i := s.owner.next;
      var t := s.(owner := Starting(i + 1));
      if accepted then t.(xfers := s.xfers[i := Flying]) else Bury(t, i, Dead)
    case StartDone => s.(owner := Running)
    case Complete(i, status) => s.(xfers := s.xfers[i := Called(status)])
    case RunCallback(i) =>
      if s.dead then Bury(s, i, Leaving(false))
      else if s.xfers[i].status == NoDevice then Bury(s, i, Leaving(true))
      else if s.xfers[i].status == Cancelled then s.(xfers := s.xfers[i := Retesting])
      else s.(xfers := s.xfers[i := Resubmitting])
    case SubmitAgain(i, accepted, noDevice) =>
      if accepted then s.(xfers := s.xfers[i := Flying]) else Bury(s, i, Leaving(noDevice))
    case TestAgain(i) => Bury(s, i, Leaving(false)).(deviceDead := s.deviceDead || !s.dead)
    case Return(i) =>
      s.(xfers := s.xfers[i := Dead], deviceDead := s.deviceDead || s.xfers[i].deviceLost)
    case Stop => s.(dead := true, owner := Cancelling(0))
    case CancelNext => s.(owner := Cancelling(s.owner.index + 1))
    case CancelDone => s.(owner := Waiting)
    case WaitDone => s.(owner := Freeing(0))
    case FreeNext => s.(owner := Freeing(s.owner.freed + 1))
    case FreeDone => s.(owner := Stopped)
  }

  predicate Init(s: Stream) {
    && (forall i | 0 <= i < |s.xfers| :: s.xfers[i] == Unsubmitted)
    && s.deadXfers == 0 && !s.dead && s.owner == Starting(0)
  }

  // ---------------------------------------------------------------- conservation

  /** In a callback that has not counted the transfer yet. */
  predicate InCallback(x: Xfer) {
    x.Called? || x == Resubmitting || x == Retesting
  }

  predicate Counted(x: Xfer) {
    x.Leaving? || x == Dead
  }

  datatype Kind = NotYet | InFlight | InCallbacks | Gone

  predicate IsKind(x: Xfer, kind: Kind) {
    match kind
    case NotYet => x == Unsubmitted
    case InFlight => x == Flying
    case InCallbacks => InCallback(x)
    case Gone => Counted(x)
  }

  function Count(xs: seq<Xfer>, kind: Kind): nat {
    if xs == [] then 0 else Count(xs[..|xs| - 1], kind) + if IsKind(xs[|xs| - 1], kind) then 1 else 0
  }

  lemma {:induction false} CountUpdate(xs: seq<Xfer>, i: nat, x: Xfer, kind: Kind)
    requires i < |xs|
    ensures Count(xs[i := x], kind)
         == Count(xs, kind) - (if IsKind(xs[i], kind) then 1 else 0) + (if IsKind(x, kind) then 1 else 0)
    decreases |xs|
  {
    var k := |xs| - 1;
    if i < k {
      CountUpdate(xs[..k], i, x, kind);
      assert xs[i := x][..k] == xs[..k][i := x];
    } else {
      assert xs[i := x][..k] == xs[..k];
    }
  }

  lemma {:induction false} CountAll(xs: seq<Xfer>)
    ensures Count(xs, NotYet) + Count(xs, InFlight) + Count(xs, InCallbacks) + Count(xs, Gone) == |xs|
    decreases |xs|
  {
    if xs == [] {
    } else {
      CountAll(xs[..|xs| - 1]);
    }
  }

  lemma {:induction false} CountBound(xs: seq<Xfer>, kind: Kind)
    ensures Count(xs, kind) <= |xs|
    decreases |xs|
  {
    if xs == [] {
    } else {
      CountBound(xs[..|xs| - 1], kind);
    }
  }

  lemma {:induction false} AllOfKind(xs: seq<Xfer>, kind: Kind, i: nat)
    requires Count(xs, kind) == |xs| && i < |xs|
    ensures IsKind(xs[i], kind)
    decreases |xs|
  {
    CountBound(xs[..|xs| - 1], kind);
    if i < |xs| - 1 {
      AllOfKind(xs[..|xs| - 1], kind, i);
    }
  }

  lemma {:induction false} CountNone(xs: seq<Xfer>)
    requires forall i | 0 <= i < |xs| :: xs[i] == Unsubmitted
    ensures Count(xs, Gone) == 0
    decreases |xs|
  {
    if xs == [] {
    } else {
      CountNone(xs[..|xs| - 1]);
    }
  }

  /** What holds in every state. */
  ghost predicate Inv(s: Stream) {
    && s.deadXfers == Count(s.xfers, Gone)
    && (s.owner.Starting? ==> s.owner.next <= |s.xfers|)
    && (forall i | 0 <= i < |s.xfers| ::
          s.xfers[i] == Unsubmitted <==> s.owner.Starting? && i >= s.owner.next)
    && (s.dead <==> !s.owner.Starting? && s.owner != Running)
    && (s.owner.Freeing? || s.owner == Stopped ==> s.deadXfers == |s.xfers|)
  }

  lemma InvInit(s: Stream)
    requires Init(s)
    ensures Inv(s)
  {
    CountNone(s.xfers);
  }

  lemma InvUpdate(s: Stream, t: Stream, i: nat, x: Xfer)
    requires Inv(s) && i < |s.xfers| && x != Unsubmitted && (Counted(s.xfers[i]) ==> Counted(x))
    requires t.xfers == s.xfers[i := x] && t.dead == s.dead
    requires t.deadXfers == s.deadXfers + if Counted(x) && !Counted(s.xfers[i]) then 1 else 0
    requires if s.xfers[i] == Unsubmitted then s.owner == Starting(i) && t.owner == Starting(i + 1)
             else t.owner == s.owner
    ensures Inv(t)
  {
    CountUpdate(s.xfers, i, x, Gone);
    CountBound(t.xfers, Gone);
  }

  lemma InvStep(s: Stream, step: Step)
    requires Inv(s) && Enabled(s, step)
    ensures Inv(Apply(s, step))
  {
    hide Count;
    match step
    case SubmitNext(accepted) => InvUpdate(s, Apply(s, step), s.owner.next, if accepted then Flying else Dead);
    case Complete(i, status) => InvUpdate(s, Apply(s, step), i, Called(status));
    case RunCallback(i) => InvUpdate(s, Apply(s, step), i, Apply(s, step).xfers[i]);
    case SubmitAgain(i, _, _) => InvUpdate(s, Apply(s, step), i, Apply(s, step).xfers[i]);
    case TestAgain(i) => InvUpdate(s, Apply(s, step), i, Leaving(false));
    case Return(i) => InvUpdate(s, Apply(s, step), i, Dead);
    case WaitDone => CountBound(s.xfers, Gone);
    case _ =>
  }

  ghost predicate Executable(s: Stream, steps: seq<Step>)
    decreases |steps|
  {
    steps == [] || (Enabled(s, steps[0]) && Executable(Apply(s, steps[0]), steps[1..]))
  }

  ghost function Exec(s: Stream, steps: seq<Step>): Stream
    requires Executable(s, steps)
    decreases |steps|
  {
    if steps == [] then s else Exec(Apply(s, steps[0]), steps[1..])
  }

  lemma {:induction false} RunInv(s: Stream, steps: seq<Step>)
    requires Inv(s) && Executable(s, steps)
    ensures Inv(Exec(s, steps))
    decreases |steps|
  {
    if steps == [] {
    } else {
      InvStep(s, steps[0]);
      RunInv(Apply(s, steps[0]), steps[1..]);
    }
  }

  /** The buffers are being freed, or have been. */
  predicate Freed(s: Stream) {
    s.owner.Freeing? || s.owner == Stopped
  }

  lemma AllCounted(s: Stream)
    requires Inv(s) && s.deadXfers >= |s.xfers|
    ensures forall i | 0 <= i < |s.xfers| :: Counted(s.xfers[i])
  {
    CountBound(s.xfers, Gone);
    forall i | 0 <= i < |s.xfers| ensures Counted(s.xfers[i]) {
      AllOfKind(s.xfers, Gone, i);
    }
  }

  /** Conservation, over every run of every number of threads: counted, in flight, in a callback
      before it counts and not yet submitted transfers add up to num_xfers; and the buffers are
      freed only when every transfer is counted, none being with libusb or about to be again. */
  lemma Conservation(s: Stream, steps: seq<Step>)
    requires Init(s) && Executable(s, steps)
    ensures
      var t := Exec(s, steps);
      && t.deadXfers + Count(t.xfers, InFlight) + Count(t.xfers, InCallbacks) + Count(t.xfers, NotYet) == |t.xfers|
      && (Freed(t) ==> forall i | 0 <= i < |t.xfers| :: Counted(t.xfers[i]))
  {
    InvInit(s);
    RunInv(s, steps);
    var t := Exec(s, steps);
    CountAll(t.xfers);
    if Freed(t) {
      AllCounted(t);
    }
  }

  // ---------------------------------------------------------------- callbacks that are still leaving

  predicate NoneInCallback(s: Stream) {
    forall i | 0 <= i < |s.xfers| :: !InCallback(s.xfers[i]) && !s.xfers[i].Leaving?
  }

  predicate OfTransfer(step: Step) {
    step.Complete? || step.RunCallback? || step.SubmitAgain? || step.TestAgain? || step.Return?
  }

  /** Only the thread that starts and stops the stream handles events: whenever it takes a step
      of its own, it is not in a callback. */
  ghost predicate OwnerHandlesEvents(s: Stream, steps: seq<Step>)
    requires Executable(s, steps)
    decreases |steps|
  {
    steps != [] ==>
      && (!OfTransfer(steps[0]) ==> NoneInCallback(s))
      && OwnerHandlesEvents(Apply(s, steps[0]), steps[1..])
  }

  predicate FreedOnlyDead(s: Stream) {
    Freed(s) ==> forall i | 0 <= i < |s.xfers| :: s.xfers[i] == Dead
  }

  lemma DeadStep(s: Stream, step: Step)
    requires Inv(s) && FreedOnlyDead(s) && Enabled(s, step) && (!OfTransfer(step) ==> NoneInCallback(s))
    ensures FreedOnlyDead(Apply(s, step))
  {
    hide Count;
    if step == WaitDone {
      AllCounted(s);
    }
  }

  lemma {:induction false} StaysSafe(s: Stream, steps: seq<Step>)
    requires Inv(s) && FreedOnlyDead(s) && Executable(s, steps) && OwnerHandlesEvents(s, steps)
    ensures FreedOnlyDead(Exec(s, steps))
    decreases |steps|
  {
    if steps == [] {
    } else {
      DeadStep(s, steps[0]);
      InvStep(s, steps[0]);
      StaysSafe(Apply(s, steps[0]), steps[1..]);
    }
  }

  /** Then, in every such run, a transfer is freed only after its callback has returned. */
  lemma FreedAfterReturn(s: Stream, steps: seq<Step>)
    requires Init(s) && Executable(s, steps) && OwnerHandlesEvents(s, steps)
    ensures FreedOnlyDead(Exec(s, steps))
  {
    InvInit(s);
    StaysSafe(s, steps);
  }

  // ---------------------------------------------------------------- with another event handler

  ghost predicate Reaches(s: Stream, t: Stream) {
    exists steps :: Executable(s, steps) && Exec(s, steps) == t
  }

  lemma {:induction false} ExecSnoc(s: Stream, steps: seq<Step>, step: Step)
    requires Executable(s, steps) && Enabled(Exec(s, steps), step)
    ensures Executable(s, steps + [step]) && Exec(s, steps + [step]) == Apply(Exec(s, steps), step)
    decreases |steps|
  {
    if steps == [] {
      assert steps + [step] == [step] && [step][1..] == [];
    } else {
      assert (steps + [step])[1..] == steps[1..] + [step];
      hide Enabled, Apply;
      ExecSnoc(Apply(s, steps[0]), steps[1..], step);
    }
  }

  lemma ReachesSelf(s: Stream)
    ensures Reaches(s, s)
  {
    assert Executable(s, []) && Exec(s, []) == s;
  }

  lemma ReachesNext(s: Stream, t: Stream, step: Step, u: Stream)
    requires Reaches(s, t) && Enabled(t, step) && Apply(t, step) == u
    ensures Reaches(s, u)
  {
    var steps :| Executable(s, steps) && Exec(s, steps) == t;
    ExecSnoc(s, steps, step);
  }

  /** The first `k` transfers have been submitted. */
  function Submitted(s: Stream, k: nat): Stream {
    s.(xfers := seq(|s.xfers|, i => if i < k then Flying else Unsubmitted), owner := Starting(k))
  }

  lemma {:induction false} ReachesSubmitted(s: Stream, k: nat)
    requires Init(s) && k <= |s.xfers|
    ensures Reaches(s, Submitted(s, k))
    decreases k
  {
    if k == 0 {
      ReachesSelf(s);
      assert Submitted(s, 0) == s;
    } else {
      ReachesSubmitted(s, k - 1);
      assert Submitted(s, k).xfers == Submitted(s, k - 1).xfers[k - 1 := Flying];
      ReachesNext(s, Submitted(s, k - 1), SubmitNext(true), Submitted(s, k));
    }
  }

  /** The stream is being stopped, and the first `k` transfers have been cancelled. */
  function CancelledUpTo(s: Stream, k: nat): Stream {
    Submitted(s, |s.xfers|).(dead := true, owner := Cancelling(k))
  }

  lemma {:induction false} ReachesCancelled(s: Stream, k: nat)
    requires Init(s) && k <= |s.xfers|
    ensures Reaches(s, CancelledUpTo(s, k))
    decreases k
  {
    if k == 0 {
      var full := Submitted(s, |s.xfers|);
      ReachesSubmitted(s, |s.xfers|);
      ReachesNext(s, full, StartDone, full.(owner := Running));
      ReachesNext(s, full.(owner := Running), Stop, CancelledUpTo(s, 0));
    } else {
      ReachesCancelled(s, k - 1);
      ReachesNext(s, CancelledUpTo(s, k - 1), CancelNext, CancelledUpTo(s, k));
    }
  }

  /** All transfers behind the first up to the `k`-th have come back, and their callbacks have
      returned. */
  function Returned(s: Stream, k: nat): Stream {
    s.(xfers := seq(|s.xfers|, i => if 1 <= i <= k then Dead else Flying), deadXfers := k, dead := true,
       owner := Waiting)
  }

  lemma {:induction false} ReachesReturned(s: Stream, k: nat)
    requires Init(s) && k < |s.xfers|
    ensures Reaches(s, Returned(s, k))
    decreases k
  {
    if k == 0 {
      ReachesCancelled(s, |s.xfers|);
      assert CancelledUpTo(s, |s.xfers|).xfers == Returned(s, 0).xfers;
      ReachesNext(s, CancelledUpTo(s, |s.xfers|), CancelDone, Returned(s, 0));
    } else {
      ReachesReturned(s, k - 1);
      var t := Returned(s, k - 1);
      var called := t.(xfers := t.xfers[k := Called(Cancelled)]);
      var leaving := t.(xfers := called.xfers[k := Leaving(false)], deadXfers := k);
      ReachesNext(s, t, Complete(k, Cancelled), called);
      ReachesNext(s, called, RunCallback(k), leaving);
      assert Returned(s, k).xfers == leaving.xfers[k := Dead];
      ReachesNext(s, leaving, Return(k), Returned(s, k));
    }
  }

  /** If another thread handles events as well, a transfer can be freed under its callback, however
      many transfers there are and although only one callback runs at a time: the last one has
      counted its transfer, the stopping thread sees that, and frees it. */
  lemma FreedUnderCallback(s: Stream) returns (t: Stream)
    requires Init(s) && s.xfers != []
    ensures Reaches(s, t) && |t.xfers| == |s.xfers| && t.owner == Freeing(1) && t.xfers[0] == Leaving(false)
  {
    var n := |s.xfers|;
    ReachesReturned(s, n - 1);
    var r := Returned(s, n - 1);
    var called := r.(xfers := r.xfers[0 := Called(Cancelled)]);
    var leaving := r.(xfers := called.xfers[0 := Leaving(false)], deadXfers := n);
    t := leaving.(owner := Freeing(1));
    ReachesNext(s, r, Complete(0, Cancelled), called);
    ReachesNext(s, called, RunCallback(0), leaving);
    ReachesNext(s, leaving, WaitDone, leaving.(owner := Freeing(0)));
    ReachesNext(s, leaving.(owner := Freeing(0)), FreeNext, t);
  }

  /** The transfers that have been freed. */
  function FreedCount(s: Stream): nat {
    match s.owner
    case Freeing(freed) => freed
    case Stopped => |s.xfers|
    case _ => 0
  }

  /** No transfer has been freed whose callback has not returned. */
  predicate FreedDead(s: Stream) {
    forall i | 0 <= i < |s.xfers| && i < FreedCount(s) :: s.xfers[i] == Dead
  }

  /** The runs in question: of any threads, or with the stopping thread as the only event handler. */
  ghost predicate Allowed(s: Stream, steps: seq<Step>, ownerOnly: bool) {
    Executable(s, steps) && (ownerOnly ==> OwnerHandlesEvents(s, steps))
  }

  /** Freeing is safe exactly if only the stopping thread handles events. */
  lemma SafeIffOwnerOnly(s: Stream, ownerOnly: bool)
    requires Init(s) && s.xfers != []
    ensures (forall steps | Allowed(s, steps, ownerOnly) :: FreedDead(Exec(s, steps))) <==> ownerOnly
    ensures (forall steps | Allowed(s, steps, ownerOnly) :: FreedOnlyDead(Exec(s, steps))) <==> ownerOnly
  {
    hide Executable, Exec, OwnerHandlesEvents;
    if ownerOnly {
      forall steps | Allowed(s, steps, ownerOnly)
        ensures FreedOnlyDead(Exec(s, steps)) && FreedDead(Exec(s, steps))
      {
        FreedAfterReturn(s, steps);
      }
    } else {
      var t := FreedUnderCallback(s);
      var steps :| Executable(s, steps) && Exec(s, steps) == t;
      assert Allowed(s, steps, ownerOnly);
      assert !FreedDead(t) && !FreedOnlyDead(t);
    }
  }

  // ---------------------------------------------------------------- stopping ends

  /** How many more callback steps a transfer can cause once the stream is dead. */
  function Left(x: Xfer): nat {
    match x
    case Unsubmitted => 0
    case Dead => 0
    case Leaving(_) => 1
    case Called(_) => 2
    case Retesting => 2
    case Flying => 3
    case Resubmitting => 4
  }

  function TotalLeft(xs: seq<Xfer>): nat {
    if xs == [] then 0 else TotalLeft(xs[..|xs| - 1]) + Left(xs[|xs| - 1])
  }

  lemma {:induction false} TotalLeftUpdate(xs: seq<Xfer>, i: nat, x: Xfer)
    requires i < |xs|
    ensures TotalLeft(xs[i := x]) == TotalLeft(xs) - Left(xs[i]) + Left(x)
    decreases |xs|
  {
    var k := |xs| - 1;
    if i < k {
      TotalLeftUpdate(xs[..k], i, x);
      assert xs[i := x][..k] == xs[..k][i := x];
    } else {
      assert xs[i := x][..k] == xs[..k];
    }
  }

  /** After `dead` is set every completion and every callback brings the end nearer: a transfer
      that slipped through the test can fly only once more. */
  lemma StopShrinks(s: Stream, step: Step)
    requires Inv(s) && s.dead && Enabled(s, step) && OfTransfer(step)
    ensures TotalLeft(Apply(s, step).xfers) < TotalLeft(s.xfers)
  {
    match step
    case Complete(i, status) => TotalLeftUpdate(s.xfers, i, Called(status));
    case RunCallback(i) => TotalLeftUpdate(s.xfers, i, Leaving(false));
    case SubmitAgain(i, accepted, noDevice) =>
      TotalLeftUpdate(s.xfers, i, if accepted then Flying else Leaving(noDevice));
    case TestAgain(i) => TotalLeftUpdate(s.xfers, i, Leaving(false));
    case Return(i) => TotalLeftUpdate(s.xfers, i, Dead);
  }

  lemma {:induction false} SomeUncounted(xs: seq<Xfer>)
    requires Count(xs, Gone) < |xs|
    ensures exists i :: 0 <= i < |xs| && !Counted(xs[i])
    decreases |xs|
  {
    var init, last := xs[..|xs| - 1], xs[|xs| - 1];
    if Counted(last) {
      SomeUncounted(init);
      var i :| 0 <= i < |init| && !Counted(init[i]);
      assert xs[i] == init[i];
    } else {
      assert !Counted(xs[|xs| - 1]);
    }
  }

  /** The wait in fnusb_stop_iso never gets stuck: as long as it has to go on, some transfer has
      a step to take, so by StopShrinks it ends. */
  lemma StopProgress(s: Stream)
    requires Inv(s) && s.owner == Waiting && s.deadXfers < |s.xfers|
    ensures exists step :: OfTransfer(step) && Enabled(s, step)
  {
    SomeUncounted(s.xfers);
    var i :| 0 <= i < |s.xfers| && !Counted(s.xfers[i]);
    match s.xfers[i]
    case Flying => assert Enabled(s, Complete(i, Cancelled)) && OfTransfer(Complete(i, Cancelled));
    case Called(_) => assert Enabled(s, RunCallback(i)) && OfTransfer(RunCallback(i));
    case Resubmitting => assert Enabled(s, SubmitAgain(i, true, false)) && OfTransfer(SubmitAgain(i, true, false));
    case Retesting => assert Enabled(s, TestAgain(i)) && OfTransfer(TestAgain(i));
  }

  function TransferSteps(steps: seq<Step>): nat {
    if steps == [] then 0 else (if OfTransfer(steps[0]) then 1 else 0) + TransferSteps(steps[1..])
  }

  /** The steps of the stopping thread leave the transfers as they are, and the stream dead. */
  lemma OwnerKeeps(s: Stream, step: Step)
    requires Inv(s) && s.dead && Enabled(s, step)
    ensures Apply(s, step).dead && (!OfTransfer(step) ==> Apply(s, step).xfers == s.xfers)
  {
  }

  lemma {:induction false} TransferStepsBound(s: Stream, steps: seq<Step>)
    requires Inv(s) && s.dead && Executable(s, steps)
    ensures TransferSteps(steps) <= TotalLeft(s.xfers)
    decreases |steps|
  {
    if steps == [] {
    } else {
      var step := steps[0];
      OwnerKeeps(s, step);
      InvStep(s, step);
      if OfTransfer(step) {
        StopShrinks(s, step);
      }
      hide Enabled, Apply, Inv, TotalLeft;
      TransferStepsBound(Apply(s, step), steps[1..]);
    }
  }

  lemma {:induction false} TotalLeftBound(xs: seq<Xfer>)
    ensures TotalLeft(xs) <= 4 * |xs|
    decreases |xs|
  {
    if xs == [] {
    } else {
      TotalLeftBound(xs[..|xs| - 1]);
    }
  }

  /** In any run of a dead stream, the stopping thread's steps included, its transfers take at most
      four more steps each. */
  lemma StopIsBounded(s: Stream, steps: seq<Step>)
    requires Inv(s) && s.dead && Executable(s, steps)
    ensures TransferSteps(steps) <= TotalLeft(s.xfers) <= 4 * |s.xfers|
  {
    TransferStepsBound(s, steps);
    TotalLeftBound(s.xfers);
  }
}
