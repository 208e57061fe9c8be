/** The event-lock / event-waiters / poll-modify protocol of libusb (io.c, core.c, sync.c),
    as a step system: any number of threads, one program counter each, one shared-memory
    access per step.

    `pollfd_modify_lock` only ever protects one access of `pollfd_modify`, so the locked
    access is one step.  `events_lock` is recursive and carries an owner and a depth.
    `event_waiters_lock` is an ordinary mutex.  A thread in a condition wait is `Asleep`;
    a broadcast (or a timeout) moves it to `Woken`, where it must take the mutex again. */
module EventProtocol {
  import opened Basics

  type Tid = nat
  type Flag = nat  // the address of a `completed` integer

  /** The two places that modify the poll set. */
  datatype Modifier = Notify | Close

  /** Who called libusb_unlock_events: an event handler, the end of a modify section, or
      do_close (whose section may have failed to write to the control pipe). */
  datatype Caller = Handler | Section | DoClose(writeFailed: bool)

  datatype PC =
    | Idle
    // libusb_handle_events_timeout_completed, as the handler
    | TryReadModify
    | TryLock
    | TrySetActive
    | CheckCompleted
    | Polling
    | Handling
    | CompleteLock(flag: Flag)
    | CompleteBroadcast(flag: Flag)
    | CompleteUnlock
    // libusb_handle_events_timeout_completed, as a waiter
    | WaiterLock
    | WaiterCheckCompleted
    | WaiterReadModify
    | WaiterReadActive
    | WaiterSleep
    | Asleep
    | Woken
    | WaiterUnlockReturn
    | WaiterUnlockRetry
    // usbi_fd_notification and libusb_close
    | Write(m: Modifier)
    | AcquireEvents(m: Modifier)
    | SetActive(m: Modifier)
    | ReadPipe(m: Modifier)
    | Decrement
    | FailDecrement
    // do_close
    | CloseAcquire(writeFailed: bool)
    | CloseSetActive(writeFailed: bool)
    // libusb_unlock_events
    | ClearActive(caller: Caller)
    | ReleaseEvents(caller: Caller)
    | UnlockLockWaiters(caller: Caller)
    | UnlockBroadcast(caller: Caller)
    | UnlockUnlockWaiters(caller: Caller)

  /** `nested` says that the thread is running a modify section from inside a transfer or
      hotplug callback, so that it already holds the events lock once.
      `wait` is the `completed` pointer of the current handle_events call, if not NULL. */
  datatype Thread = Thread(pc: PC, nested: bool, wait: Option<Flag>)

  /** The context's shared variables. */
  datatype Shared = Shared(
    modifying: int,            // pollfd_modify
    pipe: nat,                 // bytes in the control pipe
    owner: Option<Tid>,        // events_lock
    depth: nat,
    active: bool,              // event_handler_active
    waitersOwner: Option<Tid>, // event_waiters_lock
    flags: set<Flag>,          // completed integers that are nonzero
    writeLost: bool)           // history: some modify section ended after a failed write

  datatype State = State(threads: map<Tid, Thread>, sh: Shared)

  /** The nondeterminism of a step. */
  datatype Choice =
    | Go
    | StartHandle(wait: Option<Flag>)
    | StartModify(m: Modifier)
    | Complete(f: Flag)
    | Finish
    | Fail

  // ---------------------------------------------------------------- the step relation

  /** The effect of a step: the thread's new state, the shared variables, and whether the
      step was a condition broadcast. */
  datatype Outcome = Outcome(th: Thread, sh: Shared, wake: bool)

  function To(th: Thread, pc: PC, sh: Shared): Outcome {
    Outcome(th.(pc := pc), sh, false)
  }

  /** Where a modify section returns to. */
  function AfterSection(th: Thread): PC {
    if th.nested then Handling else Idle
  }

  function AfterUnlock(th: Thread, caller: Caller): PC {
    match caller
    case Handler => Idle
    case Section => AfterSection(th)
    case DoClose(failed) => if failed then FailDecrement else Decrement
  }

  predicate EventsFree(sh: Shared, t: Tid) {
    sh.owner == None || sh.owner == Some(t)
  }

  function TakeEvents(sh: Shared, t: Tid): Shared {
    sh.(owner := Some(t), depth := sh.depth + 1)
  }

  function DropEvents(sh: Shared): Shared {
    if sh.depth <= 1 then sh.(owner := None, depth := 0) else sh.(depth := sh.depth - 1)
  }

  predicate Done(th: Thread, sh: Shared) {
    th.wait.Some? && th.wait.value in sh.flags
  }

  /** Can a thread in state `th` take the step `c`?  The guards are exactly the blocking
      operations: the two mutexes, the pipe read, poll, and the condition wait. */
  predicate Ready(th: Thread, sh: Shared, t: Tid, c: Choice)
  {
    match th.pc
    case Idle => c.StartHandle? || c.StartModify?
    case Polling => c == Go || c == Finish
    case Handling => c.Complete? || c == Finish || c.StartModify?
    case CompleteLock(_) => c == Go && sh.waitersOwner == None
    case WaiterLock => c == Go && sh.waitersOwner == None
    case Woken => c == Go && sh.waitersOwner == None
    case UnlockLockWaiters(_) => c == Go && sh.waitersOwner == None
    case Write(_) => c == Go || c == Fail
    case AcquireEvents(_) => c == Go && EventsFree(sh, t)
    case CloseAcquire(_) => c == Go && EventsFree(sh, t)
    case ReadPipe(_) => c == Go && sh.pipe > 0
    case _ => c == Go  // Asleep too: cond_timedwait may time out
  }

  /** libusb_handle_events_timeout_completed and what it calls while holding the lock. */
  function HandlerStep(th: Thread, sh: Shared, t: Tid, c: Choice): Outcome
    requires Ready(th, sh, t, c)
  {
    match th.pc
    case Idle =>
      if c.StartHandle? then Outcome(Thread(TryReadModify, false, c.wait), sh, false)
      else Outcome(Thread(Write(c.m), false, th.wait), sh.(modifying := sh.modifying + 1), false)
    case TryReadModify => To(th, if sh.modifying != 0 then WaiterLock else TryLock, sh)
    case TryLock => if EventsFree(sh, t) then To(th, TrySetActive, TakeEvents(sh, t)) else To(th, WaiterLock, sh)
    case TrySetActive => To(th, CheckCompleted, sh.(active := true))
    case CheckCompleted => To(th, if Done(th, sh) then ClearActive(Handler) else Polling, sh)
    case Polling => To(th, if c == Finish then ClearActive(Handler) else Handling, sh)
    case Handling =>
      if c.Complete? then To(th, CompleteLock(c.f), sh.(flags := sh.flags + {c.f}))
      else if c.StartModify? then
        Outcome(Thread(Write(c.m), true, th.wait), sh.(modifying := sh.modifying + 1), false)
      else To(th, ClearActive(Handler), sh)
    case CompleteLock(f) => To(th, CompleteBroadcast(f), sh.(waitersOwner := Some(t)))
    case CompleteBroadcast(f) => To(th, CompleteUnlock, sh).(wake := true)
    case CompleteUnlock => To(th, Handling, sh.(waitersOwner := None))
    case _ => To(th, th.pc, sh)
  }

  /** The waiting half of libusb_handle_events_timeout_completed. */
  function WaiterStep(th: Thread, sh: Shared, t: Tid): Outcome
  {
    match th.pc
    case WaiterLock => To(th, WaiterCheckCompleted, sh.(waitersOwner := Some(t)))
    case WaiterCheckCompleted => To(th, if Done(th, sh) then WaiterUnlockReturn else WaiterReadModify, sh)
    case WaiterReadModify => To(th, if sh.modifying != 0 then WaiterSleep else WaiterReadActive, sh)
    case WaiterReadActive => To(th, if sh.active then WaiterSleep else WaiterUnlockRetry, sh)
    case WaiterSleep => To(th, Asleep, sh.(waitersOwner := None))
    case Asleep => To(th, Woken, sh)
    case Woken => To(th, WaiterUnlockReturn, sh.(waitersOwner := Some(t)))
    case WaiterUnlockReturn => To(th, Idle, sh.(waitersOwner := None))
    case WaiterUnlockRetry => To(th, TryReadModify, sh.(waitersOwner := None))
    case _ => To(th, th.pc, sh)
  }

  /** usbi_fd_notification, libusb_close and do_close. */
  function ModifierStep(th: Thread, sh: Shared, t: Tid, c: Choice): Outcome
    requires Ready(th, sh, t, c)
  {
    match th.pc
    case Write(m) =>
      if c == Go then To(th, AcquireEvents(m), sh.(pipe := sh.pipe + 1))
      else To(th, if m == Notify then FailDecrement else CloseAcquire(true), sh)
    case AcquireEvents(m) => To(th, SetActive(m), TakeEvents(sh, t))
    case SetActive(m) => To(th, ReadPipe(m), sh.(active := true))
    case ReadPipe(m) => To(th, if m == Notify then Decrement else CloseAcquire(false), sh.(pipe := sh.pipe - 1))
    case CloseAcquire(failed) => To(th, CloseSetActive(failed), TakeEvents(sh, t))
    case CloseSetActive(failed) => To(th, ClearActive(DoClose(failed)), sh.(active := true))
    case Decrement => To(th, ClearActive(Section), sh.(modifying := sh.modifying - 1))
    case FailDecrement => To(th, AfterSection(th), sh.(modifying := sh.modifying - 1, writeLost := true))
    case _ => To(th, th.pc, sh)
  }

  /** libusb_unlock_events. */
  function UnlockStep(th: Thread, sh: Shared, t: Tid): Outcome
  {
    match th.pc
    case ClearActive(k) => To(th, ReleaseEvents(k), sh.(active := false))
    case ReleaseEvents(k) => To(th, UnlockLockWaiters(k), DropEvents(sh))
    case UnlockLockWaiters(k) => To(th, UnlockBroadcast(k), sh.(waitersOwner := Some(t)))
    case UnlockBroadcast(k) => To(th, UnlockUnlockWaiters(k), sh).(wake := true)
    case UnlockUnlockWaiters(k) => To(th, AfterUnlock(th, k), sh.(waitersOwner := None))
    case _ => To(th, th.pc, sh)
  }

  datatype Role = HandlerRole | WaiterRole | ModifierRole | UnlockRole

  function RoleOf(pc: PC): Role {
    if pc.WaiterLock? || pc.WaiterCheckCompleted? || pc.WaiterReadModify? || pc.WaiterReadActive? || pc.WaiterSleep?
       || pc.Asleep? || pc.Woken? || pc.WaiterUnlockReturn? || pc.WaiterUnlockRetry? then WaiterRole
    else if pc.Write? || pc.AcquireEvents? || pc.SetActive? || pc.ReadPipe? || pc.Decrement? || pc.FailDecrement?
       || pc.CloseAcquire? || pc.CloseSetActive? then ModifierRole
    else if pc.ClearActive? || pc.ReleaseEvents? || pc.UnlockLockWaiters? || pc.UnlockBroadcast?
       || pc.UnlockUnlockWaiters? then UnlockRole
    else HandlerRole
  }

  function Step(th: Thread, sh: Shared, t: Tid, c: Choice): Outcome
    requires Ready(th, sh, t, c)
  {
    match RoleOf(th.pc)
    case HandlerRole => HandlerStep(th, sh, t, c)
    case WaiterRole => WaiterStep(th, sh, t)
    case ModifierRole => ModifierStep(th, sh, t, c)
    case UnlockRole => UnlockStep(th, sh, t)
  }

  function WakeAll(threads: map<Tid, Thread>): map<Tid, Thread> {
    map t | t in threads :: if threads[t].pc == Asleep then threads[t].(pc := Woken) else threads[t]
  }

  predicate Enabled(s: State, t: Tid, c: Choice) {
    t in s.threads && Ready(s.threads[t], s.sh, t, c)
  }

  function Apply(s: State, t: Tid, c: Choice): State
    requires Enabled(s, t, c)
  {
    var o := Step(s.threads[t], s.sh, t, c);
    State((if o.wake then WakeAll(s.threads) else s.threads)[t := o.th], o.sh)
  }

  datatype Event = Event(t: Tid, c: Choice)

  /** Freshly initialised context: every thread idle, everything zero (usbi_io_init). */
  predicate Init(s: State) {
    && (forall t | t in s.threads :: s.threads[t] == Thread(Idle, false, None))
    && s.sh == Shared(0, 0, None, 0, false, None, {}, false)
  }

  /** `run` is executable from `s`, one enabled step after the other. */
  predicate Executable(s: State, run: seq<Event>)
    decreases |run|
  {
    run == [] || (Enabled(s, run[0].t, run[0].c) && Executable(Apply(s, run[0].t, run[0].c), run[1..]))
  }

  function Exec(s: State, run: seq<Event>): State
    requires Executable(s, run)
    decreases |run|
  {
    if run == [] then s else Exec(Apply(s, run[0].t, run[0].c), run[1..])
  }

  // ---------------------------------------------------------------- who holds what

  /** What an unlock_events call still holds after its release. */
  function HeldInUnlock(base: nat, k: Caller): nat {
    match k
    case Handler => 0
    case Section => base
    case DoClose(failed) => if failed then base else base + 1
  }

  /** How often a thread holds the events lock, read off its program counter. */
  function EventsDepth(th: Thread): nat {
    var base := if th.nested then 1 else 0;
    match th.pc
    case TrySetActive => 1
    case CheckCompleted => 1
    case Polling => 1
    case Handling => 1
    case CompleteLock(_) => 1
    case CompleteBroadcast(_) => 1
    case CompleteUnlock => 1
    case Write(_) => base
    case AcquireEvents(_) => base
    case FailDecrement => base
    case SetActive(_) => base + 1
    case ReadPipe(_) => base + 1
    case Decrement => base + 1
    case CloseAcquire(failed) => if failed then base else base + 1
    case CloseSetActive(failed) => if failed then base + 1 else base + 2
    case ClearActive(k) => HeldInUnlock(base, k) + 1
    case ReleaseEvents(k) => HeldInUnlock(base, k) + 1
    case UnlockLockWaiters(k) => HeldInUnlock(base, k)
    case UnlockBroadcast(k) => HeldInUnlock(base, k)
    case UnlockUnlockWaiters(k) => HeldInUnlock(base, k)
    case _ => 0
  }

  predicate HoldsWaiters(pc: PC) {
    || pc.CompleteBroadcast? || pc.CompleteUnlock? || pc.UnlockBroadcast? || pc.UnlockUnlockWaiters?
    || pc.WaiterCheckCompleted? || pc.WaiterReadModify? || pc.WaiterReadActive? || pc.WaiterSleep?
    || pc.WaiterUnlockReturn? || pc.WaiterUnlockRetry?
  }

  /** Between the increment and the decrement of pollfd_modify. */
  predicate InModify(pc: PC) {
    || pc.Write? || pc.AcquireEvents? || pc.SetActive? || pc.ReadPipe? || pc.Decrement? || pc.FailDecrement?
    || pc.CloseAcquire? || pc.CloseSetActive?
    || (pc.ClearActive? && pc.caller.DoClose?) || (pc.ReleaseEvents? && pc.caller.DoClose?)
    || (pc.UnlockLockWaiters? && pc.caller.DoClose?) || (pc.UnlockBroadcast? && pc.caller.DoClose?)
    || (pc.UnlockUnlockWaiters? && pc.caller.DoClose?)
  }

  /** Between the write to and the read from the control pipe. */
  predicate InPipe(pc: PC) {
    pc.AcquireEvents? || pc.SetActive? || pc.ReadPipe?
  }

  /** A waiter that has looked at its completed flag and has not woken up since. */
  predicate PastFlagCheck(pc: PC) {
    pc.WaiterReadModify? || pc.WaiterReadActive? || pc.WaiterSleep? || pc.Asleep?
  }

  /** A waiter that has decided to sleep. */
  predicate Committed(pc: PC) {
    pc.WaiterSleep? || pc.Asleep?
  }

  /** Has let go of the events lock but not broadcast yet. */
  predicate BroadcastPending(pc: PC) {
    pc.UnlockLockWaiters? || pc.UnlockBroadcast?
  }

  predicate Completing(pc: PC, f: Flag) {
    pc == CompleteLock(f) || pc == CompleteBroadcast(f)
  }

  ghost function Select(threads: map<Tid, Thread>, p: PC -> bool): set<Tid> {
    set t | t in threads && p(threads[t].pc)
  }

  // ---------------------------------------------------------------- the invariant

  /** The part of the invariant that speaks of one thread and the shared variables. */
  ghost predicate OwnInv(th: Thread, sh: Shared, t: Tid) {
    && EventsDepth(th) == (if sh.owner == Some(t) then sh.depth else 0)
    && (HoldsWaiters(th.pc) <==> sh.waitersOwner == Some(t))
    && (th.pc.ReleaseEvents? ==> !sh.active)
    && (th.pc == Polling ==> !Done(th, sh))
  }

  ghost predicate SharedInv(sh: Shared) {
    && (sh.owner == None <==> sh.depth == 0)
    && (sh.active ==> sh.owner.Some?)
  }

  ghost predicate LockInv(s: State) {
    && SharedInv(s.sh)
    && (forall t | t in s.threads :: OwnInv(s.threads[t], s.sh, t))
    && (s.sh.owner.Some? ==> s.sh.owner.value in s.threads)
    && (s.sh.waitersOwner.Some? ==> s.sh.waitersOwner.value in s.threads)
  }

  ghost predicate CountInv(s: State) {
    && s.sh.modifying == |Select(s.threads, InModify)|
    && s.sh.pipe == |Select(s.threads, InPipe)|
  }

  /** What keeps a sleeper from being forgotten. */
  ghost predicate Covered(s: State) {
    s.sh.modifying > 0 || s.sh.owner.Some? || exists u | u in s.threads :: BroadcastPending(s.threads[u].pc)
  }

  ghost predicate AllCovered(s: State) {
    forall t | t in s.threads && Committed(s.threads[t].pc) :: Covered(s)
  }

  ghost predicate SleepInv(s: State) {
    !s.sh.writeLost ==> AllCovered(s)
  }

  ghost predicate CompletionPending(s: State, f: Flag) {
    exists u | u in s.threads :: Completing(s.threads[u].pc, f)
  }

  ghost predicate FlagInv(s: State) {
    forall t | t in s.threads && PastFlagCheck(s.threads[t].pc) && Done(s.threads[t], s.sh) ::
      CompletionPending(s, s.threads[t].wait.value)
  }

  ghost predicate Inv(s: State) {
    LockInv(s) && CountInv(s) && SleepInv(s) && FlagInv(s)
  }

  // ---------------------------------------------------------------- one step

  /** What a step of `t` may do to the shared variables, as every other thread sees it. */
  ghost predicate SharedMoves(sh: Shared, sh': Shared, t: Tid) {
    && ((sh'.owner == sh.owner && sh'.depth == sh.depth) || (EventsFree(sh, t) && EventsFree(sh', t)))
    && (|| sh'.waitersOwner == sh.waitersOwner
        || (sh.waitersOwner == None && sh'.waitersOwner == Some(t))
        || (sh.waitersOwner == Some(t) && sh'.waitersOwner == None))
    && (sh'.active && !sh.active ==> sh.owner == Some(t))
    && (sh'.flags != sh.flags ==> sh.owner == Some(t))
  }

  lemma OwnHandlerStep(th: Thread, sh: Shared, t: Tid, c: Choice)
    requires Ready(th, sh, t, c) && RoleOf(th.pc) == HandlerRole && OwnInv(th, sh, t) && SharedInv(sh)
    ensures
      var o := HandlerStep(th, sh, t, c);
      OwnInv(o.th, o.sh, t) && SharedInv(o.sh) && SharedMoves(sh, o.sh, t)
  {
  }

  lemma OwnWaiterStep(th: Thread, sh: Shared, t: Tid, c: Choice)
    requires Ready(th, sh, t, c) && RoleOf(th.pc) == WaiterRole && OwnInv(th, sh, t) && SharedInv(sh)
    ensures
      var o := WaiterStep(th, sh, t);
      OwnInv(o.th, o.sh, t) && SharedInv(o.sh) && SharedMoves(sh, o.sh, t)
  {
  }

  lemma OwnModifierStep(th: Thread, sh: Shared, t: Tid, c: Choice)
    requires Ready(th, sh, t, c) && RoleOf(th.pc) == ModifierRole && OwnInv(th, sh, t) && SharedInv(sh)
    ensures
      var o := ModifierStep(th, sh, t, c);
      OwnInv(o.th, o.sh, t) && SharedInv(o.sh) && SharedMoves(sh, o.sh, t)
  {
  }

  lemma OwnUnlockStep(th: Thread, sh: Shared, t: Tid, c: Choice)
    requires Ready(th, sh, t, c) && RoleOf(th.pc) == UnlockRole && OwnInv(th, sh, t) && SharedInv(sh)
    ensures
      var o := UnlockStep(th, sh, t);
      OwnInv(o.th, o.sh, t) && SharedInv(o.sh) && SharedMoves(sh, o.sh, t)
  {
  }

  lemma OwnStep(th: Thread, sh: Shared, t: Tid, c: Choice)
    requires Ready(th, sh, t, c) && OwnInv(th, sh, t) && SharedInv(sh)
    ensures
      var o := Step(th, sh, t, c);
      OwnInv(o.th, o.sh, t) && SharedInv(o.sh) && SharedMoves(sh, o.sh, t)
  {
    match RoleOf(th.pc)
    case HandlerRole => OwnHandlerStep(th, sh, t, c);
    case WaiterRole => OwnWaiterStep(th, sh, t, c);
    case ModifierRole => OwnModifierStep(th, sh, t, c);
    case UnlockRole => OwnUnlockStep(th, sh, t, c);
  }

  /** A step of `t` touches no other thread, except that a broadcast wakes the sleepers. */
  ghost predicate Frame(s: State, t: Tid, s': State) {
    && t in s.threads && s'.threads.Keys == s.threads.Keys
    && (forall u | u in s.threads && u != t ::
          || s'.threads[u] == s.threads[u]
          || (s.threads[u].pc == Asleep && s'.threads[u] == s.threads[u].(pc := Woken)))
  }

  lemma LockFrame(s: State, t: Tid, s': State)
    requires LockInv(s) && Frame(s, t, s')
    requires OwnInv(s'.threads[t], s'.sh, t) && SharedInv(s'.sh) && SharedMoves(s.sh, s'.sh, t)
    ensures LockInv(s')
  {
    forall u | u in s'.threads ensures OwnInv(s'.threads[u], s'.sh, u) {
      if u != t {
        assert OwnInv(s.threads[u], s.sh, u);
        assert EventsDepth(s.threads[u]) > 0 ==> s.sh.owner == Some(u);
        assert s.threads[u].pc.ReleaseEvents? || s.threads[u].pc == Polling ==> EventsDepth(s.threads[u]) > 0;
      }
    }
  }

  lemma LockStep(s: State, t: Tid, c: Choice)
    requires Enabled(s, t, c) && LockInv(s)
    ensures LockInv(Apply(s, t, c)) && Frame(s, t, Apply(s, t, c))
  {
    OwnStep(s.threads[t], s.sh, t, c);
    LockFrame(s, t, Apply(s, t, c));
  }

  lemma SelectStep(s: State, t: Tid, s': State, p: PC -> bool)
    requires Frame(s, t, s')
    requires !p(Asleep) && !p(Woken)
    ensures |Select(s'.threads, p)| - |Select(s.threads, p)|
         == (if p(s'.threads[t].pc) then 1 else 0) - (if p(s.threads[t].pc) then 1 else 0)
  {
    var before, after := Select(s.threads, p), Select(s'.threads, p);
    forall u | u != t ensures u in before <==> u in after {
    }
    assert before - {t} == after - {t};
    assert p(s.threads[t].pc) ==> before == (before - {t}) + {t};
    assert !p(s.threads[t].pc) ==> before == before - {t};
    assert p(s'.threads[t].pc) ==> after == (after - {t}) + {t};
    assert !p(s'.threads[t].pc) ==> after == after - {t};
  }

  /** The counters move exactly with the thread's program counter. */
  ghost predicate CountMoves(th: Thread, sh: Shared, o: Outcome) {
    && o.sh.modifying - sh.modifying == (if InModify(o.th.pc) then 1 else 0) - (if InModify(th.pc) then 1 else 0)
    && o.sh.pipe - sh.pipe == (if InPipe(o.th.pc) then 1 else 0) - (if InPipe(th.pc) then 1 else 0)
  }

  lemma CountHandlerStep(th: Thread, sh: Shared, t: Tid, c: Choice)
    requires Ready(th, sh, t, c) && RoleOf(th.pc) == HandlerRole
    ensures CountMoves(th, sh, HandlerStep(th, sh, t, c))
  {
  }

  lemma CountWaiterStep(th: Thread, sh: Shared, t: Tid, c: Choice)
    requires Ready(th, sh, t, c) && RoleOf(th.pc) == WaiterRole
    ensures CountMoves(th, sh, WaiterStep(th, sh, t))
  {
  }

  lemma CountModifierStep(th: Thread, sh: Shared, t: Tid, c: Choice)
    requires Ready(th, sh, t, c) && RoleOf(th.pc) == ModifierRole
    ensures CountMoves(th, sh, ModifierStep(th, sh, t, c))
  {
  }

  lemma CountUnlockStep(th: Thread, sh: Shared, t: Tid, c: Choice)
    requires Ready(th, sh, t, c) && RoleOf(th.pc) == UnlockRole
    ensures CountMoves(th, sh, UnlockStep(th, sh, t))
  {
  }

  lemma OwnCountStep(th: Thread, sh: Shared, t: Tid, c: Choice)
    requires Ready(th, sh, t, c)
    ensures CountMoves(th, sh, Step(th, sh, t, c))
  {
    match RoleOf(th.pc)
    case HandlerRole => CountHandlerStep(th, sh, t, c);
    case WaiterRole => CountWaiterStep(th, sh, t, c);
    case ModifierRole => CountModifierStep(th, sh, t, c);
    case UnlockRole => CountUnlockStep(th, sh, t, c);
  }

  lemma CountStep(s: State, t: Tid, c: Choice)
    requires Enabled(s, t, c) && Frame(s, t, Apply(s, t, c)) && CountInv(s)
    ensures CountInv(Apply(s, t, c))
  {
    OwnCountStep(s.threads[t], s.sh, t, c);
    SelectStep(s, t, Apply(s, t, c), InModify);
    SelectStep(s, t, Apply(s, t, c), InPipe);
  }

  /** What one step does to the reasons for which a sleeper will be woken: a thread only
      commits itself for a reason, a reason only goes away in favour of another one, and a
      broadcast is made under the waiters lock. */
  ghost predicate SleepMoves(th: Thread, sh: Shared, o: Outcome, t: Tid) {
    && (Committed(o.th.pc) && !Committed(th.pc) ==> o.sh.modifying != 0 || o.sh.owner.Some?)
    && (o.sh.modifying < sh.modifying ==> o.sh.owner.Some? || th.pc == FailDecrement)
    && (sh.owner.Some? && o.sh.owner == None ==> BroadcastPending(o.th.pc))
    && (BroadcastPending(th.pc) && !BroadcastPending(o.th.pc) ==>
          o.wake && sh.waitersOwner == Some(t) && !Committed(o.th.pc))
    && (th.pc == FailDecrement ==>
          && o.sh == sh.(modifying := sh.modifying - 1, writeLost := true)
          && !o.wake && !Committed(o.th.pc) && !BroadcastPending(o.th.pc))
    && (sh.writeLost ==> o.sh.writeLost)
  }

  lemma SleepHandlerStep(th: Thread, sh: Shared, t: Tid, c: Choice)
    requires Ready(th, sh, t, c) && RoleOf(th.pc) == HandlerRole && OwnInv(th, sh, t) && SharedInv(sh)
    ensures SleepMoves(th, sh, HandlerStep(th, sh, t, c), t)
  {
  }

  lemma SleepWaiterStep(th: Thread, sh: Shared, t: Tid, c: Choice)
    requires Ready(th, sh, t, c) && RoleOf(th.pc) == WaiterRole && OwnInv(th, sh, t) && SharedInv(sh)
    ensures SleepMoves(th, sh, WaiterStep(th, sh, t), t)
  {
  }

  lemma SleepModifierStep(th: Thread, sh: Shared, t: Tid, c: Choice)
    requires Ready(th, sh, t, c) && RoleOf(th.pc) == ModifierRole && OwnInv(th, sh, t) && SharedInv(sh)
    ensures SleepMoves(th, sh, ModifierStep(th, sh, t, c), t)
  {
  }

  lemma SleepUnlockStep(th: Thread, sh: Shared, t: Tid, c: Choice)
    requires Ready(th, sh, t, c) && RoleOf(th.pc) == UnlockRole && OwnInv(th, sh, t) && SharedInv(sh)
    ensures SleepMoves(th, sh, UnlockStep(th, sh, t), t)
  {
  }

  lemma OwnSleepStep(th: Thread, sh: Shared, t: Tid, c: Choice)
    requires Ready(th, sh, t, c) && OwnInv(th, sh, t) && SharedInv(sh)
    ensures SleepMoves(th, sh, Step(th, sh, t, c), t)
  {
    match RoleOf(th.pc)
    case HandlerRole => SleepHandlerStep(th, sh, t, c);
    case WaiterRole => SleepWaiterStep(th, sh, t, c);
    case ModifierRole => SleepModifierStep(th, sh, t, c);
    case UnlockRole => SleepUnlockStep(th, sh, t, c);
  }

  /** The one step that can take away a sleeper's last reason: usbi_fd_notification or
      libusb_close giving up after a failed write, with nobody else around to broadcast. */
  ghost predicate DropsLastReason(s: State, t: Tid) {
    && t in s.threads && s.threads[t].pc == FailDecrement
    && s.sh.modifying == 1 && s.sh.owner == None
    && !(exists u | u in s.threads :: BroadcastPending(s.threads[u].pc))
    && (exists v | v in s.threads :: Committed(s.threads[v].pc))
  }

  lemma CoverFrame(s: State, t: Tid, s': State, o: Outcome)
    requires t in s.threads && LockInv(s) && AllCovered(s) && s'.sh.modifying >= 0
    requires s' == State((if o.wake then WakeAll(s.threads) else s.threads)[t := o.th], o.sh)
    requires SleepMoves(s.threads[t], s.sh, o, t)
    requires !DropsLastReason(s, t)
    ensures AllCovered(s')
  {
    forall v | v in s'.threads && Committed(s'.threads[v].pc) ensures Covered(s') {
      if Committed(s.threads[v].pc) {
        assert Covered(s);
        if s.sh.modifying <= 0 && s.sh.owner == None && s'.sh.owner == None {
          var u :| u in s.threads && BroadcastPending(s.threads[u].pc);
          assert OwnInv(s.threads[v], s.sh, v);
          assert BroadcastPending(s'.threads[u].pc);
        } else if s.threads[t].pc == FailDecrement && s'.sh.modifying == 0 && s'.sh.owner == None {
          var u :| u in s.threads && BroadcastPending(s.threads[u].pc);
          assert BroadcastPending(s'.threads[u].pc);
        } else {
          assert BroadcastPending(s'.threads[t].pc) || s'.sh.modifying > 0 || s'.sh.owner.Some?;
        }
      } else {
        assert v == t;
      }
    }
  }

  lemma CoverLost(s: State, t: Tid)
    requires DropsLastReason(s, t) && LockInv(s) && Enabled(s, t, Go)
    requires SleepMoves(s.threads[t], s.sh, Step(s.threads[t], s.sh, t, Go), t)
    ensures !AllCovered(Apply(s, t, Go))
  {
    var s' := Apply(s, t, Go);
    var v :| v in s.threads && Committed(s.threads[v].pc);
    assert Committed(s'.threads[v].pc);
    forall u | u in s'.threads ensures !BroadcastPending(s'.threads[u].pc) {
      assert u != t ==> s'.threads[u] == s.threads[u];
    }
  }

  /** Exactly one kind of step loses a sleeper. */
  lemma CoverStep(s: State, t: Tid, c: Choice)
    requires Enabled(s, t, c) && LockInv(s) && CountInv(s) && AllCovered(s)
    ensures AllCovered(Apply(s, t, c)) <==> !DropsLastReason(s, t)
  {
    LockStep(s, t, c);
    CountStep(s, t, c);
    OwnSleepStep(s.threads[t], s.sh, t, c);
    if DropsLastReason(s, t) {
      CoverLost(s, t);
    } else {
      CoverFrame(s, t, Apply(s, t, c), Step(s.threads[t], s.sh, t, c));
    }
  }

  lemma SleepStep(s: State, t: Tid, c: Choice)
    requires Enabled(s, t, c) && LockInv(s) && CountInv(s) && SleepInv(s)
    ensures SleepInv(Apply(s, t, c))
  {
    OwnSleepStep(s.threads[t], s.sh, t, c);
    if !Apply(s, t, c).sh.writeLost {
      CoverStep(s, t, c);
    }
  }

  /** What one step does to the completed flags. */
  ghost predicate FlagMoves(th: Thread, sh: Shared, o: Outcome, t: Tid) {
    && sh.flags <= o.sh.flags
    && (forall f | f in o.sh.flags && f !in sh.flags :: Completing(o.th.pc, f))
    && (forall f :: Completing(th.pc, f) && !Completing(o.th.pc, f) ==> o.wake && sh.waitersOwner == Some(t))
    && (PastFlagCheck(o.th.pc) ==>
          && o.sh.flags == sh.flags
          && o.th.wait == th.wait
          && (PastFlagCheck(th.pc) || !Done(o.th, o.sh)))
  }

  lemma FlagHandlerStep(th: Thread, sh: Shared, t: Tid, c: Choice)
    requires Ready(th, sh, t, c) && RoleOf(th.pc) == HandlerRole && OwnInv(th, sh, t)
    ensures FlagMoves(th, sh, HandlerStep(th, sh, t, c), t)
  {
  }

  lemma FlagWaiterStep(th: Thread, sh: Shared, t: Tid, c: Choice)
    requires Ready(th, sh, t, c) && RoleOf(th.pc) == WaiterRole && OwnInv(th, sh, t)
    ensures FlagMoves(th, sh, WaiterStep(th, sh, t), t)
  {
  }

  lemma FlagModifierStep(th: Thread, sh: Shared, t: Tid, c: Choice)
    requires Ready(th, sh, t, c) && RoleOf(th.pc) == ModifierRole && OwnInv(th, sh, t)
    ensures FlagMoves(th, sh, ModifierStep(th, sh, t, c), t)
  {
  }

  lemma FlagUnlockStep(th: Thread, sh: Shared, t: Tid, c: Choice)
    requires Ready(th, sh, t, c) && RoleOf(th.pc) == UnlockRole && OwnInv(th, sh, t)
    ensures FlagMoves(th, sh, UnlockStep(th, sh, t), t)
  {
  }

  lemma OwnFlagStep(th: Thread, sh: Shared, t: Tid, c: Choice)
    requires Ready(th, sh, t, c) && OwnInv(th, sh, t)
    ensures FlagMoves(th, sh, Step(th, sh, t, c), t)
  {
    match RoleOf(th.pc)
    case HandlerRole => FlagHandlerStep(th, sh, t, c);
    case WaiterRole => FlagWaiterStep(th, sh, t, c);
    case ModifierRole => FlagModifierStep(th, sh, t, c);
    case UnlockRole => FlagUnlockStep(th, sh, t, c);
  }

  /** A completion that was pending for a sleeper still is, unless its broadcast woke it. */
  lemma CompletionKept(s: State, t: Tid, s': State, o: Outcome, v: Tid, f: Flag)
    requires t in s.threads && LockInv(s) && CompletionPending(s, f)
    requires s' == State((if o.wake then WakeAll(s.threads) else s.threads)[t := o.th], o.sh)
    requires FlagMoves(s.threads[t], s.sh, o, t)
    requires v in s.threads && PastFlagCheck(s.threads[v].pc) && PastFlagCheck(s'.threads[v].pc)
    ensures CompletionPending(s', f)
  {
    var u :| u in s.threads && Completing(s.threads[u].pc, f);
    assert OwnInv(s.threads[v], s.sh, v);
    assert Completing(s'.threads[u].pc, f);
  }

  lemma FlagFrame(s: State, t: Tid, s': State, o: Outcome)
    requires t in s.threads && LockInv(s) && FlagInv(s)
    requires s' == State((if o.wake then WakeAll(s.threads) else s.threads)[t := o.th], o.sh)
    requires FlagMoves(s.threads[t], s.sh, o, t)
    ensures FlagInv(s')
  {
    forall v | v in s'.threads && PastFlagCheck(s'.threads[v].pc) && Done(s'.threads[v], s'.sh)
      ensures CompletionPending(s', s'.threads[v].wait.value)
    {
      var f := s'.threads[v].wait.value;
      assert PastFlagCheck(s.threads[v].pc) && s.threads[v].wait == s'.threads[v].wait;
      if f in s.sh.flags {
        CompletionKept(s, t, s', o, v, f);
      } else {
        assert Completing(s'.threads[t].pc, f);
      }
    }
  }

  lemma InvStep(s: State, t: Tid, c: Choice)
    requires Enabled(s, t, c) && Inv(s)
    ensures Inv(Apply(s, t, c))
  {
    LockStep(s, t, c);
    CountStep(s, t, c);
    SleepStep(s, t, c);
    OwnFlagStep(s.threads[t], s.sh, t, c);
    FlagFrame(s, t, Apply(s, t, c), Step(s.threads[t], s.sh, t, c));
  }

  lemma InitInv(s: State)
    requires Init(s)
    ensures Inv(s)
  {
    assert Select(s.threads, InModify) == {};
    assert Select(s.threads, InPipe) == {};
  }

  lemma {:induction false} RunInv(s: State, run: seq<Event>)
    requires Inv(s) && Executable(s, run)
    ensures Inv(Exec(s, run))
    decreases |run|
  {
    if run == [] {
    } else {
      InvStep(s, run[0].t, run[0].c);
      RunInv(Apply(s, run[0].t, run[0].c), run[1..]);
    }
  }

  ghost predicate Reachable(s: State) {
    exists s0, run :: Init(s0) && Executable(s0, run) && Exec(s0, run) == s
  }

  lemma ReachableInv(s: State)
    requires Reachable(s)
    ensures Inv(s)
  {
    var s0, run :| Init(s0) && Executable(s0, run) && Exec(s0, run) == s;
    InitInv(s0);
    RunInv(s0, run);
  }

  lemma {:induction false} ExecSnoc(s: State, run: seq<Event>, e: Event)
    requires Executable(s, run) && Enabled(Exec(s, run), e.t, e.c)
    ensures Executable(s, run + [e]) && Exec(s, run + [e]) == Apply(Exec(s, run), e.t, e.c)
    decreases |run|
  {
    if run == [] {
      assert run + [e] == [e] && [e][1..] == [];
    } else {
      ExecSnoc(Apply(s, run[0].t, run[0].c), run[1..], e);
      assert (run + [e])[1..] == run[1..] + [e];
    }
  }

  lemma ReachableStep(s: State, t: Tid, c: Choice)
    requires Reachable(s) && Enabled(s, t, c)
    ensures Reachable(Apply(s, t, c))
  {
    var s0, run :| Init(s0) && Executable(s0, run) && Exec(s0, run) == s;
    ExecSnoc(s0, run, Event(t, c));
  }

  // ---------------------------------------------------------------- main results

  predicate OwesBroadcast(th: Thread) {
    InModify(th.pc) || EventsDepth(th) > 0 || BroadcastPending(th.pc)
  }

  lemma CoverWitness(s: State)
    requires LockInv(s) && CountInv(s) && Covered(s)
    ensures exists u | u in s.threads :: OwesBroadcast(s.threads[u])
  {
    if s.sh.modifying > 0 {
      var u :| u in Select(s.threads, InModify);
      assert OwesBroadcast(s.threads[u]);
    } else if s.sh.owner.Some? {
      assert OwnInv(s.threads[s.sh.owner.value], s.sh, s.sh.owner.value);
      assert OwesBroadcast(s.threads[s.sh.owner.value]);
    }
  }

  /** No lost wakeup.  While writes to the control pipe succeed, for a thread asleep in
      libusb_wait_for_event there is always somebody who still owes a broadcast: a thread in
      a modify section, the holder of the events lock, or a thread that has released it and
      not broadcast yet.  If the sleeper's own transfer has completed, the broadcast of the
      completing thread is still to come. */
  lemma NoLostWakeup(s: State, t: Tid)
    requires Reachable(s) && t in s.threads && s.threads[t].pc == Asleep
    ensures !s.sh.writeLost ==> exists u | u in s.threads :: OwesBroadcast(s.threads[u])
    ensures Done(s.threads[t], s.sh) ==> CompletionPending(s, s.threads[t].wait.value)
  {
    ReachableInv(s);
    if !s.sh.writeLost {
      assert Covered(s);
      CoverWitness(s);
    }
  }

  function Pair(a: PC, b: PC, sh: Shared): State {
    State(map[0 := Thread(a, false, None), 1 := Thread(b, false, None)], sh)
  }

  /** A step of one of the pair leads from a reachable pair to a reachable pair. */
  lemma PairStep(a: PC, b: PC, sh: Shared, t: Tid, c: Choice, pc': PC, sh': Shared)
    requires t < 2 && Reachable(Pair(a, b, sh))
    requires Ready(Thread(if t == 0 then a else b, false, None), sh, t, c)
    requires Step(Thread(if t == 0 then a else b, false, None), sh, t, c) ==
             Outcome(Thread(pc', false, None), sh', false)
    ensures Reachable(if t == 0 then Pair(pc', b, sh') else Pair(a, pc', sh'))
  {
    hide Step, Ready, Reachable;
    var s, s' := Pair(a, b, sh), if t == 0 then Pair(pc', b, sh') else Pair(a, pc', sh');
    assert Apply(s, t, c).threads == s'.threads;
    ReachableStep(s, t, c);
  }

  lemma WaiterTakesLock(b: PC, sh: Shared)
    requires sh.modifying != 0 && sh.waitersOwner == None && Reachable(Pair(Idle, b, sh))
    ensures Reachable(Pair(WaiterCheckCompleted, b, sh.(waitersOwner := Some(0))))
  {
    hide Reachable, Pair;
    PairStep(Idle, b, sh, 0, StartHandle(None), TryReadModify, sh);
    PairStep(TryReadModify, b, sh, 0, Go, WaiterLock, sh);
    PairStep(WaiterLock, b, sh, 0, Go, WaiterCheckCompleted, sh.(waitersOwner := Some(0)));
  }

  /** Whenever a modify section is open, a waiter goes to sleep. */
  lemma WaiterFallsAsleep(b: PC, sh: Shared)
    requires sh.modifying != 0 && sh.waitersOwner == None && Reachable(Pair(Idle, b, sh))
    ensures Reachable(Pair(Asleep, b, sh))
  {
    hide Reachable, Pair;
    var taken := sh.(waitersOwner := Some(0));
    WaiterTakesLock(b, sh);
    PairStep(WaiterCheckCompleted, b, taken, 0, Go, WaiterReadModify, taken);
    PairStep(WaiterReadModify, b, taken, 0, Go, WaiterSleep, taken);
    PairStep(WaiterSleep, b, taken, 0, Go, Asleep, sh);
  }

  /** Thread 1 counts itself as a modifier, and its write fails. */
  lemma NotificationFails(sh: Shared)
    requires Reachable(Pair(Idle, Idle, sh)) && sh.modifying == 0
    ensures Reachable(Pair(Idle, FailDecrement, sh.(modifying := 1)))
  {
    hide Reachable, Pair;
    var counted := sh.(modifying := 1);
    PairStep(Idle, Idle, sh, 1, StartModify(Notify), Write(Notify), counted);
    PairStep(Idle, Write(Notify), counted, 1, Fail, FailDecrement, counted);
  }

  /** In between, thread 0 goes to sleep. */
  lemma FailedWriteRun(sh: Shared)
    requires Reachable(Pair(Idle, Idle, sh)) && sh.modifying == 0 && sh.waitersOwner == None
    ensures Reachable(Pair(Asleep, Idle, sh.(writeLost := true)))
  {
    hide Reachable, Pair;
    NotificationFails(sh);
    WaiterFallsAsleep(FailDecrement, sh.(modifying := 1));
    PairStep(Asleep, FailDecrement, sh.(modifying := 1), 1, Go, Idle, sh.(writeLost := true));
  }

  lemma PairUncovered(sh: Shared)
    requires sh.modifying == 0 && sh.owner == None
    ensures !Covered(Pair(Asleep, Idle, sh))
  {
  }

  /** The failed-write paths do lose wakeups: there is a reachable state of two threads in
      which thread 0 is asleep, thread 1 is idle, and nobody owes a broadcast. */
  lemma FailedWriteLosesWakeup() returns (s: State)
    ensures Reachable(s) && s.threads.Keys == {0, 1}
    ensures s.threads[0].pc == Asleep && s.threads[1].pc == Idle && !Covered(s)
  {
    var sh := Shared(0, 0, None, 0, false, None, {}, false);
    assert Init(Pair(Idle, Idle, sh)) && Executable(Pair(Idle, Idle, sh), []);
    FailedWriteRun(sh);
    PairUncovered(sh.(writeLost := true));
    s := Pair(Asleep, Idle, sh.(writeLost := true));
  }

  /** Modifier accounting, including the failed-write paths and the recursive lock of
      do_close. */
  lemma ModifierAccounting(s: State)
    requires Reachable(s)
    ensures s.sh.modifying == |Select(s.threads, InModify)|
    ensures s.sh.pipe == |Select(s.threads, InPipe)|
    // event_handler_active = 1 only under the lock, which one thread holds
    ensures s.sh.active ==> s.sh.owner.Some?
    ensures forall t, u | t in s.threads && u in s.threads ::
              EventsDepth(s.threads[t]) > 0 && EventsDepth(s.threads[u]) > 0 ==> t == u
    // a modifier's read never blocks
    ensures forall t | t in s.threads && s.threads[t].pc.ReadPipe? :: Enabled(s, t, Go)
    // poll returns at once while a modifier waits for the events lock
    ensures (exists m | m in s.threads :: s.threads[m].pc.AcquireEvents?) ==> s.sh.pipe > 0
    // nobody polls for a transfer of its own that has completed
    ensures forall t | t in s.threads && s.threads[t].pc == Polling :: !Done(s.threads[t], s.sh)
  {
    ReachableInv(s);
    forall t, u | t in s.threads && u in s.threads
      ensures EventsDepth(s.threads[t]) > 0 && EventsDepth(s.threads[u]) > 0 ==> t == u
    {
      assert OwnInv(s.threads[t], s.sh, t) && OwnInv(s.threads[u], s.sh, u);
    }
    forall t | t in s.threads && InPipe(s.threads[t].pc) ensures s.sh.pipe > 0 {
      assert t in Select(s.threads, InPipe);
    }
    forall t | t in s.threads && s.threads[t].pc == Polling ensures !Done(s.threads[t], s.sh) {
      assert OwnInv(s.threads[t], s.sh, t);
    }
  }

  /** Can take a step of its own accord: not idle, not asleep, and not in a poll that
      has nothing to report. */
  predicate Runnable(s: State, t: Tid) {
    && t in s.threads
    && s.threads[t].pc != Idle && s.threads[t].pc != Asleep
    && (s.threads[t].pc == Polling ==> s.sh.pipe > 0)
    && (Ready(s.threads[t], s.sh, t, Go) || Ready(s.threads[t], s.sh, t, Finish))
  }

  /** The holder of the events lock runs, unless it polls an empty pipe or the waiters
      lock is taken (whose holder runs then). */
  lemma HolderRuns(s: State, h: Tid)
    requires Inv(s) && s.sh.owner == Some(h) && s.sh.waitersOwner == None
    ensures Runnable(s, h) || (s.threads[h].pc == Polling && s.sh.pipe == 0)
  {
    assert OwnInv(s.threads[h], s.sh, h);
    if s.threads[h].pc.ReadPipe? {
      assert h in Select(s.threads, InPipe);
    }
  }

  lemma WaitersHolderRuns(s: State, w: Tid)
    requires Inv(s) && s.sh.waitersOwner == Some(w)
    ensures Runnable(s, w)
  {
    assert OwnInv(s.threads[w], s.sh, w);
  }

  lemma ModifierRuns(s: State, m: Tid)
    requires Inv(s) && s.sh.waitersOwner == None && m in s.threads && InModify(s.threads[m].pc)
    requires s.sh.owner == None || (s.sh.owner != Some(m) && s.sh.pipe == 0 && s.threads[m].pc != CloseAcquire(true))
    ensures Runnable(s, m)
  {
    assert OwnInv(s.threads[m], s.sh, m);
    if InPipe(s.threads[m].pc) {
      assert m in Select(s.threads, InPipe);
    }
  }

  /** Has to do with the locks or the poll set: in a modify section, or holding one of the locks. */
  predicate Involved(th: Thread) {
    InModify(th.pc) || EventsDepth(th) > 0 || HoldsWaiters(th.pc)
  }

  /** A handler polls an empty pipe, nobody holds the waiters lock, and every open modify section
      belongs to a close that, after a failed write, waits for that handler to let go of the events
      lock. */
  predicate ClosesBehindPoll(s: State) {
    && s.sh.pipe == 0 && s.sh.waitersOwner == None && s.sh.owner.Some? && s.sh.owner.value in s.threads
    && s.threads[s.sh.owner.value].pc == Polling
    && forall m | m in s.threads && InModify(s.threads[m].pc) :: s.threads[m].pc == CloseAcquire(true)
  }

  ghost predicate InvolvedRuns(s: State) {
    exists u | u in s.threads :: Runnable(s, u) && Involved(s.threads[u])
  }

  /** Behind such a poll nobody who is involved can run. */
  lemma NobodyInvolvedRuns(s: State, u: Tid)
    requires Inv(s) && ClosesBehindPoll(s) && u in s.threads && Involved(s.threads[u])
    ensures !Runnable(s, u)
  {
    assert OwnInv(s.threads[u], s.sh, u);
  }

  lemma OwnerIsInvolved(s: State, u: Tid)
    requires Inv(s) && (s.sh.owner == Some(u) || s.sh.waitersOwner == Some(u))
    ensures u in s.threads && Involved(s.threads[u])
  {
    assert OwnInv(s.threads[u], s.sh, u);
  }

  lemma SomebodyInvolvedRuns(s: State)
    requires Inv(s) && s.sh.modifying > 0 && !ClosesBehindPoll(s)
    ensures InvolvedRuns(s)
  {
    if s.sh.waitersOwner.Some? {
      WaitersHolderRuns(s, s.sh.waitersOwner.value);
      OwnerIsInvolved(s, s.sh.waitersOwner.value);
    } else if s.sh.owner == None {
      var m :| m in Select(s.threads, InModify);
      ModifierRuns(s, m);
    } else {
      var h := s.sh.owner.value;
      HolderRuns(s, h);
      OwnerIsInvolved(s, h);
      if !Runnable(s, h) {
        var m :| m in s.threads && InModify(s.threads[m].pc) && s.threads[m].pc != CloseAcquire(true);
        ModifierRuns(s, m);
      }
    }
  }

  /** No deadlock among modifiers, exactly: while a modify section is open, some thread in such a
      section or holding a lock can run, whatever the devices do, if and only if it is not so that
      all that is open are closes going on after failed writes behind a handler that nobody has
      told. */
  lemma ModifiersProgress(s: State)
    requires Reachable(s) && s.sh.modifying > 0
    ensures InvolvedRuns(s) <==> !ClosesBehindPoll(s)
  {
    ReachableInv(s);
    if ClosesBehindPoll(s) {
      forall u | u in s.threads ensures !(Runnable(s, u) && Involved(s.threads[u])) {
        if Involved(s.threads[u]) {
          NobodyInvolvedRuns(s, u);
        }
      }
    } else {
      SomebodyInvolvedRuns(s);
    }
  }

  /** Thread 0 becomes the handler, and polls. */
  lemma HandlerLocks(sh: Shared)
    requires Reachable(Pair(Idle, Idle, sh)) && sh.modifying == 0 && sh.owner == None && sh.depth == 0
    ensures Reachable(Pair(TrySetActive, Idle, sh.(owner := Some(0), depth := 1)))
  {
    hide Reachable, Pair;
    PairStep(Idle, Idle, sh, 0, StartHandle(None), TryReadModify, sh);
    PairStep(TryReadModify, Idle, sh, 0, Go, TryLock, sh);
    PairStep(TryLock, Idle, sh, 0, Go, TrySetActive, sh.(owner := Some(0), depth := 1));
  }

  lemma HandlerPolls(sh: Shared)
    requires Reachable(Pair(TrySetActive, Idle, sh))
    ensures Reachable(Pair(Polling, Idle, sh.(active := true)))
  {
    hide Reachable, Pair;
    PairStep(TrySetActive, Idle, sh, 0, Go, CheckCompleted, sh.(active := true));
    PairStep(CheckCompleted, Idle, sh.(active := true), 0, Go, Polling, sh.(active := true));
  }

  /** Thread 1 closes a device, and cannot write to the pipe. */
  lemma CloseFails(sh: Shared)
    requires Reachable(Pair(Polling, Idle, sh)) && sh.modifying == 0
    ensures Reachable(Pair(Polling, CloseAcquire(true), sh.(modifying := 1)))
  {
    hide Reachable, Pair;
    var counted := sh.(modifying := 1);
    PairStep(Polling, Idle, sh, 1, StartModify(Close), Write(Close), counted);
    PairStep(Polling, Write(Close), counted, 1, Fail, CloseAcquire(true), counted);
  }

  lemma NeitherRuns(sh: Shared)
    requires sh.owner == Some(0) && sh.pipe == 0 && sh.waitersOwner == None
    ensures ClosesBehindPoll(Pair(Polling, CloseAcquire(true), sh))
    ensures !exists u :: Runnable(Pair(Polling, CloseAcquire(true), sh), u)
  {
  }

  /** The exception is reachable: thread 0 polls, thread 1 goes on closing, and neither can
      run. */
  lemma FailedCloseWaits() returns (s: State)
    ensures Reachable(s) && s.sh.modifying > 0 && ClosesBehindPoll(s)
    ensures !exists u :: Runnable(s, u)
  {
    var sh := Shared(0, 0, None, 0, false, None, {}, false);
    assert Init(Pair(Idle, Idle, sh)) && Executable(Pair(Idle, Idle, sh), []);
    HandlerLocks(sh);
    HandlerPolls(sh.(owner := Some(0), depth := 1));
    hide Reachable, Runnable, ClosesBehindPoll;
    var held := sh.(owner := Some(0), depth := 1, active := true);
    CloseFails(held);
    NeitherRuns(held.(modifying := 1));
    s := Pair(Polling, CloseAcquire(true), held.(modifying := 1));
  }

  /** No deadlock among waiters: while a thread is asleep, either some thread can run or a
      handler is polling the devices. */
  lemma SleepersProgress(s: State, t: Tid)
    requires Reachable(s) && !s.sh.writeLost && t in s.threads && s.threads[t].pc == Asleep
    ensures exists u | u in s.threads :: Runnable(s, u) || s.threads[u].pc == Polling
  {
    ReachableInv(s);
    if s.sh.waitersOwner.Some? {
      WaitersHolderRuns(s, s.sh.waitersOwner.value);
    } else if s.sh.owner.Some? {
      HolderRuns(s, s.sh.owner.value);
    } else if s.sh.modifying > 0 {
      var m :| m in Select(s.threads, InModify);
      ModifierRuns(s, m);
    } else {
      assert Covered(s);
      var u :| u in s.threads && BroadcastPending(s.threads[u].pc);
      assert Runnable(s, u);
    }
  }

  // ---------------------------------------------------------------- bounded wakeup

  /** Has not met a failed write. */
  predicate Unfailed(pc: PC) {
    && pc != FailDecrement
    && (pc.CloseAcquire? || pc.CloseSetActive? ==> !pc.writeFailed)
    && (RoleOf(pc) == UnlockRole ==> pc.caller != DoClose(true))
  }

  /** Has a broadcast ahead of it (and has not met a failed write). */
  predicate OnTheWay(th: Thread) {
    OwesBroadcast(th) && Unfailed(th.pc)
  }

  /** A bound on the thread's own steps before its next broadcast. */
  function Rank(pc: PC): nat {
    match pc
    case CompleteBroadcast(_) => 1
    case UnlockBroadcast(_) => 1
    case CompleteLock(_) => 2
    case UnlockLockWaiters(_) => 2
    case ReleaseEvents(_) => 3
    case ClearActive(_) => 4
    case Decrement => 5
    case CloseSetActive(_) => 5
    case CloseAcquire(_) => 6
    case ReadPipe(_) => 7
    case SetActive(_) => 8
    case AcquireEvents(_) => 9
    case Write(_) => 10
    case Handling => 11
    case CompleteUnlock => 12
    case UnlockUnlockWaiters(_) => 12
    case Polling => 12
    case CheckCompleted => 13
    case TrySetActive => 14
    case _ => 0
  }

  ghost predicate RankMoves(th: Thread, o: Outcome) {
    o.wake || (OnTheWay(o.th) && Rank(o.th.pc) < Rank(th.pc))
  }

  lemma RankHandlerStep(th: Thread, sh: Shared, t: Tid, c: Choice)
    requires Ready(th, sh, t, c) && RoleOf(th.pc) == HandlerRole && OnTheWay(th) && c != Fail
    ensures RankMoves(th, HandlerStep(th, sh, t, c))
  {
  }

  lemma RankModifierStep(th: Thread, sh: Shared, t: Tid, c: Choice)
    requires Ready(th, sh, t, c) && RoleOf(th.pc) == ModifierRole && OnTheWay(th) && c != Fail
    ensures RankMoves(th, ModifierStep(th, sh, t, c))
  {
  }

  lemma RankUnlockStep(th: Thread, sh: Shared, t: Tid, c: Choice)
    requires Ready(th, sh, t, c) && RoleOf(th.pc) == UnlockRole && OnTheWay(th) && c != Fail
    ensures RankMoves(th, UnlockStep(th, sh, t))
  {
  }

  lemma RankStep(th: Thread, sh: Shared, t: Tid, c: Choice)
    requires Ready(th, sh, t, c) && OnTheWay(th) && c != Fail
    ensures RankMoves(th, Step(th, sh, t, c))
  {
    match RoleOf(th.pc)
    case HandlerRole => RankHandlerStep(th, sh, t, c);
    case WaiterRole => assert false;
    case ModifierRole => RankModifierStep(th, sh, t, c);
    case UnlockRole => RankUnlockStep(th, sh, t, c);
  }

  function StepsOf(run: seq<Event>, t: Tid): nat {
    if run == [] then 0 else (if run[0].t == t then 1 else 0) + StepsOf(run[1..], t)
  }

  predicate NoFailure(run: seq<Event>, u: Tid) {
    forall i | 0 <= i < |run| :: run[i].t == u ==> run[i].c != Fail
  }

  ghost predicate WokenWithin(s: State, run: seq<Event>, t: Tid)
    requires Executable(s, run)
  {
    exists k :: 0 <= k <= |run| && Executable(s, run[..k]) && t in Exec(s, run[..k]).threads
                && Exec(s, run[..k]).threads[t].pc != Asleep
  }

  /** In every run in which a thread that owes a broadcast takes as many steps of its own
      as its rank (at most 14), every sleeper is woken on the way, whatever the other
      threads do in between. */
  lemma {:induction false} BoundedWakeup(s: State, run: seq<Event>, t: Tid, u: Tid)
    requires Executable(s, run) && NoFailure(run, u)
    requires t in s.threads && s.threads[t].pc == Asleep
    requires u in s.threads && OnTheWay(s.threads[u]) && StepsOf(run, u) >= Rank(s.threads[u].pc)
    ensures WokenWithin(s, run, t)
    decreases |run|
  {
    assert Rank(s.threads[u].pc) > 0;
    var e := run[0];
    var s' := Apply(s, e.t, e.c);
    if s'.threads[t].pc != Asleep {
      assert run[..1] == [e] && Executable(s, run[..1]) && run[..1][1..] == [];
      assert Exec(s, run[..1]) == s';
    } else {
      if e.t == u {
        RankStep(s.threads[u], s.sh, u, e.c);
      }
      BoundedWakeup(s', run[1..], t, u);
      var k :| 0 <= k <= |run[1..]| && Executable(s', run[1..][..k]) && t in Exec(s', run[1..][..k]).threads
               && Exec(s', run[1..][..k]).threads[t].pc != Asleep;
      assert run[..k + 1][1..] == run[1..][..k];
      assert Exec(s, run[..k + 1]) == Exec(s', run[1..][..k]);
    }
  }

  // ---------------------------------------------------------------- no sleeper is far from waking

  ghost predicate NoneFailed(s: State) {
    !s.sh.writeLost && forall t | t in s.threads :: Unfailed(s.threads[t].pc)
  }

  predicate WritesSucceed(run: seq<Event>) {
    forall e | e in run :: e.c != Fail
  }

  lemma UnfailedStep(th: Thread, sh: Shared, t: Tid, c: Choice)
    requires Ready(th, sh, t, c) && Unfailed(th.pc) && !sh.writeLost && c != Fail
    ensures
      var o := Step(th, sh, t, c);
      Unfailed(o.th.pc) && !o.sh.writeLost
  {
  }

  lemma NoneFailedStep(s: State, t: Tid, c: Choice)
    requires Enabled(s, t, c) && NoneFailed(s) && c != Fail
    ensures NoneFailed(Apply(s, t, c))
  {
    UnfailedStep(s.threads[t], s.sh, t, c);
    hide Step;
  }

  lemma {:induction false} NoneFailedRun(s: State, run: seq<Event>)
    requires NoneFailed(s) && Executable(s, run) && WritesSucceed(run)
    ensures NoneFailed(Exec(s, run))
    decreases |run|
  {
    if run == [] {
    } else {
      assert run[0] in run;
      NoneFailedStep(s, run[0].t, run[0].c);
      NoneFailedRun(Apply(s, run[0].t, run[0].c), run[1..]);
    }
  }

  lemma OneOnTheWay(s: State, t: Tid)
    requires Reachable(s) && NoneFailed(s) && t in s.threads && s.threads[t].pc == Asleep
    ensures exists u | u in s.threads :: OnTheWay(s.threads[u]) && Rank(s.threads[u].pc) <= 14
  {
    NoLostWakeup(s, t);
    hide Reachable, Unfailed, OwesBroadcast;
    var u :| u in s.threads && OwesBroadcast(s.threads[u]);
    assert OnTheWay(s.threads[u]) && Rank(s.threads[u].pc) <= 14;
  }

  /** Every sleeper that is reached without a failed write has a thread on the way to waking it, at
      most 14 steps of its own away. */
  lemma SomebodyOnTheWay(s0: State, run: seq<Event>, t: Tid)
    requires Init(s0) && Executable(s0, run) && WritesSucceed(run)
    requires t in Exec(s0, run).threads && Exec(s0, run).threads[t].pc == Asleep
    ensures
      var s := Exec(s0, run);
      exists u | u in s.threads :: OnTheWay(s.threads[u]) && Rank(s.threads[u].pc) <= 14
  {
    NoneFailedRun(s0, run);
    hide Executable, Exec, Init, NoneFailed, OnTheWay, Rank;
    assert Reachable(Exec(s0, run));
    OneOnTheWay(Exec(s0, run), t);
  }

  /** While writes succeed, no sleeper is more than 14 steps of some one thread away from waking: in
      every continuation in which that thread takes them, whatever the others do, it is woken. */
  lemma SleeperWakes(s0: State, run: seq<Event>, t: Tid) returns (u: Tid)
    requires Init(s0) && Executable(s0, run) && WritesSucceed(run)
    requires t in Exec(s0, run).threads && Exec(s0, run).threads[t].pc == Asleep
    ensures u in Exec(s0, run).threads && OnTheWay(Exec(s0, run).threads[u])
    ensures forall next | Executable(Exec(s0, run), next) && NoFailure(next, u) && StepsOf(next, u) >= 14 ::
              WokenWithin(Exec(s0, run), next, t)
  {
    var s := Exec(s0, run);
    SomebodyOnTheWay(s0, run, t);
    u :| u in s.threads && OnTheWay(s.threads[u]) && Rank(s.threads[u].pc) <= 14;
    forall next | Executable(s, next) && NoFailure(next, u) && StepsOf(next, u) >= 14
      ensures WokenWithin(s, next, t)
    {
      BoundedWakeup(s, next, t, u);
    }
  }
}
