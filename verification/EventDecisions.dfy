/** When a thread of the event protocol handles events, waits, or tries again; and what one call
    does when nobody else gets in between (libusb_handle_events_timeout_completed,
    usbi_fd_notification and libusb_close, from start to end). */
module EventDecisions {
  import opened Basics
  import opened EventProtocol

  // ---------------------------------------------------------------- reasons that persist

  /** The shared variables have a property before every step of a run. */
  ghost predicate Throughout(s: State, run: seq<Event>, p: Shared -> bool)
    requires Executable(s, run)
    decreases |run|
  {
    run == [] || (p(s.sh) && Throughout(Apply(s, run[0].t, run[0].c), run[1..], p))
  }

  predicate Quiet(sh: Shared) {
    sh.modifying == 0 && !sh.active
  }

  predicate Active(sh: Shared) {
    sh.active
  }

  predicate Modifying(sh: Shared) {
    sh.modifying != 0
  }

  /** The step by itself: who decides to sleep, to try again, to take the lock. */
  lemma Decisions(th: Thread, sh: Shared, t: Tid, c: Choice)
    requires Ready(th, sh, t, c)
    ensures
      var pc := Step(th, sh, t, c).th.pc;
      && (!Committed(th.pc) && Committed(pc) ==> !Quiet(sh))
      && (th.pc != WaiterUnlockRetry && pc == WaiterUnlockRetry ==> !Active(sh))
      && (th.pc != TryLock && pc == TryLock ==> !Modifying(sh))
  {
  }

  lemma OthersKeep(s: State, u: Tid, c: Choice, t: Tid)
    requires Enabled(s, u, c) && t in s.threads && t != u
    ensures
      var t' := Apply(s, u, c).threads[t];
      t' == s.threads[t] || (s.threads[t].pc == Asleep && t' == s.threads[t].(pc := Woken))
  {
    hide Step;
  }

  lemma OneDecision(s: State, u: Tid, c: Choice, t: Tid)
    requires Enabled(s, u, c) && t in s.threads
    ensures t in Apply(s, u, c).threads
    ensures
      var before, after := s.threads[t].pc, Apply(s, u, c).threads[t].pc;
      && (!Committed(before) && Quiet(s.sh) ==> !Committed(after))
      && (before != WaiterUnlockRetry && Active(s.sh) ==> after != WaiterUnlockRetry)
      && (before != TryLock && Modifying(s.sh) ==> after != TryLock)
  {
    if t == u {
      Decisions(s.threads[t], s.sh, t, c);
    } else {
      OthersKeep(s, u, c, t);
    }
    hide Step;
  }

  /** While nobody modifies the poll set or handles events, nobody goes to sleep. */
  lemma {:induction false} NobodySleepsInQuiet(s: State, run: seq<Event>, t: Tid)
    requires Executable(s, run) && t in s.threads && Throughout(s, run, Quiet) && !Committed(s.threads[t].pc)
    ensures t in Exec(s, run).threads && !Committed(Exec(s, run).threads[t].pc)
    decreases |run|
  {
    if run == [] {
    } else {
      OneDecision(s, run[0].t, run[0].c, t);
      hide Apply, Enabled, Committed, Quiet;
      NobodySleepsInQuiet(Apply(s, run[0].t, run[0].c), run[1..], t);
    }
  }

  /** While somebody handles events, a waiter does not try again but goes on to sleep. */
  lemma {:induction false} NoRetryWhileActive(s: State, run: seq<Event>, t: Tid)
    requires Executable(s, run) && t in s.threads && Throughout(s, run, Active)
    requires s.threads[t].pc != WaiterUnlockRetry
    ensures t in Exec(s, run).threads && Exec(s, run).threads[t].pc != WaiterUnlockRetry
    decreases |run|
  {
    if run == [] {
    } else {
      OneDecision(s, run[0].t, run[0].c, t);
      hide Apply, Enabled, Active;
      NoRetryWhileActive(Apply(s, run[0].t, run[0].c), run[1..], t);
    }
  }

  /** While somebody wants to modify the poll set, nobody else takes the lock to handle events. */
  lemma {:induction false} ModifiersGoFirst(s: State, run: seq<Event>, t: Tid)
    requires Executable(s, run) && t in s.threads && Throughout(s, run, Modifying) && s.threads[t].pc != TryLock
    ensures t in Exec(s, run).threads && Exec(s, run).threads[t].pc != TryLock
    decreases |run|
  {
    if run == [] {
    } else {
      OneDecision(s, run[0].t, run[0].c, t);
      hide Apply, Enabled, Modifying;
      ModifiersGoFirst(Apply(s, run[0].t, run[0].c), run[1..], t);
    }
  }

  // ---------------------------------------------------------------- one thread alone

  datatype Local = Local(th: Thread, sh: Shared)

  /** One thread takes `n` steps in a row, if it can. */
  function GoOn(l: Local, t: Tid, n: nat): Option<Local>
    decreases n
  {
    if n == 0 then Some(l)
    else if !Ready(l.th, l.sh, t, Go) then None
    else
      var o := Step(l.th, l.sh, t, Go);
      GoOn(Local(o.th, o.sh), t, n - 1)
  }

  function Alone(t: Tid, n: nat): (run: seq<Event>)
    ensures |run| == n
  {
    seq(n, _ => Event(t, Go))
  }

  /** It does the same in any state, whatever the other threads are in the middle of. */
  lemma {:induction false} AloneIsExec(s: State, t: Tid, n: nat)
    requires t in s.threads && GoOn(Local(s.threads[t], s.sh), t, n).Some?
    ensures Executable(s, Alone(t, n)) && t in Exec(s, Alone(t, n)).threads
    ensures
      var u := Exec(s, Alone(t, n));
      Local(u.threads[t], u.sh) == GoOn(Local(s.threads[t], s.sh), t, n).value
    decreases n
  {
    if n == 0 {
    } else {
      assert Alone(t, n)[1..] == Alone(t, n - 1) && Alone(t, n)[0] == Event(t, Go);
      hide Step;
      AloneIsExec(Apply(s, t, Go), t, n - 1);
    }
  }

  lemma Onward(l: Local, t: Tid, pc: PC, sh: Shared, n: nat)
    requires n > 0 && Ready(l.th, l.sh, t, Go)
    requires Step(l.th, l.sh, t, Go).th == l.th.(pc := pc) && Step(l.th, l.sh, t, Go).sh == sh
    ensures GoOn(l, t, n) == GoOn(Local(l.th.(pc := pc), sh), t, n - 1)
  {
    hide Step, Ready;
  }

  lemma Arrived(l: Local, t: Tid)
    ensures GoOn(l, t, 0) == Some(l)
  {
  }

  lemma WakeAlone(th: Thread, sh: Shared, t: Tid, caller: Caller, n: nat)
    requires th.pc == UnlockLockWaiters(caller) && sh.waitersOwner == None && n >= 3
    ensures GoOn(Local(th, sh), t, n) == GoOn(Local(th.(pc := AfterUnlock(th, caller)), sh), t, n - 3)
  {
    hide GoOn;
    var locked := sh.(waitersOwner := Some(t));
    assert locked.(waitersOwner := None) == sh;
    Onward(Local(th, sh), t, UnlockBroadcast(caller), locked, n);
    Onward(Local(th.(pc := UnlockBroadcast(caller)), locked), t, UnlockUnlockWaiters(caller), locked, n - 1);
    Onward(Local(th.(pc := UnlockUnlockWaiters(caller)), locked), t, AfterUnlock(th, caller), sh, n - 2);
  }

  lemma DropKeeps(sh: Shared)
    ensures DropEvents(sh).waitersOwner == sh.waitersOwner
  {
  }

  /** libusb_unlock_events. */
  lemma UnlockAlone(th: Thread, sh: Shared, t: Tid, caller: Caller, n: nat)
    requires th.pc == ClearActive(caller) && sh.waitersOwner == None && n >= 5
    ensures GoOn(Local(th, sh), t, n)
         == GoOn(Local(th.(pc := AfterUnlock(th, caller)), DropEvents(sh.(active := false))), t, n - 5)
  {
    hide GoOn, DropEvents;
    var released := DropEvents(sh.(active := false));
    DropKeeps(sh.(active := false));
    Onward(Local(th, sh), t, ReleaseEvents(caller), sh.(active := false), n);
    Onward(Local(th.(pc := ReleaseEvents(caller)), sh.(active := false)), t, UnlockLockWaiters(caller), released,
           n - 1);
    hide Step;
    WakeAlone(th.(pc := UnlockLockWaiters(caller)), released, t, caller, n - 2);
  }

  /** The lock is free, and so is that of the waiters. */
  predicate Free(sh: Shared) {
    sh.owner == None && sh.depth == 0 && !sh.active && sh.waitersOwner == None
  }

  predicate HasCompleted(wait: Option<Flag>, sh: Shared) {
    wait.Some? && wait.value in sh.flags
  }

  lemma LockAlone(sh: Shared, t: Tid, wait: Option<Flag>, n: nat)
    requires sh.modifying == 0 && Free(sh) && n >= 3
    ensures GoOn(Local(Thread(TryReadModify, false, wait), sh), t, n)
         == GoOn(Local(Thread(CheckCompleted, false, wait), sh.(owner := Some(t), depth := 1, active := true)), t,
                 n - 3)
  {
    hide GoOn;
    var th, taken := Thread(TryReadModify, false, wait), sh.(owner := Some(t), depth := 1);
    Onward(Local(th, sh), t, TryLock, sh, n);
    Onward(Local(th.(pc := TryLock), sh), t, TrySetActive, taken, n - 1);
    Onward(Local(th.(pc := TrySetActive), taken), t, CheckCompleted, taken.(active := true), n - 2);
  }

  /** A call that finds the lock free takes it and polls, unless what it waits for has been
      completed: then it returns, and nothing has changed. */
  lemma HandlerAlone(sh: Shared, t: Tid, wait: Option<Flag>)
    requires sh.modifying == 0 && Free(sh)
    ensures
      var l, taken := Local(Thread(TryReadModify, false, wait), sh), sh.(owner := Some(t), depth := 1, active := true);
      && (HasCompleted(wait, sh) ==> GoOn(l, t, 9) == Some(Local(Thread(Idle, false, wait), sh)))
      && (!HasCompleted(wait, sh) ==> GoOn(l, t, 4) == Some(Local(Thread(Polling, false, wait), taken)))
  {
    hide GoOn;
    var th, taken := Thread(CheckCompleted, false, wait), sh.(owner := Some(t), depth := 1, active := true);
    if HasCompleted(wait, sh) {
      LockAlone(sh, t, wait, 9);
      Onward(Local(th, taken), t, ClearActive(Handler), taken, 6);
      UnlockAlone(th.(pc := ClearActive(Handler)), taken, t, Handler, 5);
      assert DropEvents(taken.(active := false)) == sh;
      Arrived(Local(th.(pc := Idle), sh), t);
    } else {
      LockAlone(sh, t, wait, 4);
      Onward(Local(th, taken), t, Polling, taken, 1);
      Arrived(Local(th.(pc := Polling), taken), t);
    }
  }

  lemma WaiterChecks(sh: Shared, t: Tid, wait: Option<Flag>, n: nat)
    requires (sh.modifying != 0 || (sh.owner.Some? && sh.owner != Some(t))) && sh.waitersOwner == None && n >= 3
    ensures GoOn(Local(Thread(TryReadModify, false, wait), sh), t, if sh.modifying != 0 then n - 1 else n)
         == GoOn(Local(Thread(WaiterCheckCompleted, false, wait), sh.(waitersOwner := Some(t))), t, n - 3)
  {
    hide GoOn;
    var th := Thread(TryReadModify, false, wait);
    if sh.modifying != 0 {
      Onward(Local(th, sh), t, WaiterLock, sh, n - 1);
    } else {
      Onward(Local(th, sh), t, TryLock, sh, n);
      Onward(Local(th.(pc := TryLock), sh), t, WaiterLock, sh, n - 1);
    }
    Onward(Local(th.(pc := WaiterLock), sh), t, WaiterCheckCompleted, sh.(waitersOwner := Some(t)), n - 2);
  }

  lemma WaiterLeaves(sh: Shared, t: Tid, wait: Option<Flag>, pc: PC, to: PC, n: nat)
    requires sh.waitersOwner == None && n >= 1
    requires (pc == WaiterUnlockReturn && to == Idle) || (pc == WaiterUnlockRetry && to == TryReadModify)
             || (pc == WaiterSleep && to == Asleep)
    ensures GoOn(Local(Thread(pc, false, wait), sh.(waitersOwner := Some(t))), t, n)
         == GoOn(Local(Thread(to, false, wait), sh), t, n - 1)
  {
    hide GoOn;
    assert sh.(waitersOwner := Some(t)).(waitersOwner := None) == sh;
    Onward(Local(Thread(pc, false, wait), sh.(waitersOwner := Some(t))), t, to, sh, n);
  }

  /** A call that finds the lock taken returns if what it waits for has been completed; otherwise
      it goes to sleep if events are being handled, and tries again if not. */
  lemma WaiterAlone(sh: Shared, t: Tid, wait: Option<Flag>, u: Tid)
    requires sh.modifying == 0 && sh.owner == Some(u) && u != t && sh.waitersOwner == None
    ensures
      var l := Local(Thread(TryReadModify, false, wait), sh);
      && (HasCompleted(wait, sh) ==> GoOn(l, t, 5) == Some(Local(Thread(Idle, false, wait), sh)))
      && (!HasCompleted(wait, sh) ==>
            GoOn(l, t, 7) == Some(if sh.active then Local(Thread(Asleep, false, wait), sh) else l))
  {
    hide GoOn;
    var th, locked := Thread(WaiterCheckCompleted, false, wait), sh.(waitersOwner := Some(t));
    if HasCompleted(wait, sh) {
      WaiterChecks(sh, t, wait, 5);
      Onward(Local(th, locked), t, WaiterUnlockReturn, locked, 2);
      WaiterLeaves(sh, t, wait, WaiterUnlockReturn, Idle, 1);
      Arrived(Local(th.(pc := Idle), sh), t);
    } else {
      var next := if sh.active then WaiterSleep else WaiterUnlockRetry;
      var end := if sh.active then Asleep else TryReadModify;
      WaiterChecks(sh, t, wait, 7);
      Onward(Local(th, locked), t, WaiterReadModify, locked, 4);
      Onward(Local(th.(pc := WaiterReadModify), locked), t, WaiterReadActive, locked, 3);
      Onward(Local(th.(pc := WaiterReadActive), locked), t, next, locked, 2);
      WaiterLeaves(sh, t, wait, next, end, 1);
      Arrived(Local(th.(pc := end), sh), t);
    }
  }

  /** While the poll set is being modified a call goes to sleep without trying the lock. */
  lemma WaitsForModifiers(sh: Shared, t: Tid, wait: Option<Flag>)
    requires sh.modifying != 0 && sh.waitersOwner == None && !HasCompleted(wait, sh)
    ensures GoOn(Local(Thread(TryReadModify, false, wait), sh), t, 5) == Some(Local(Thread(Asleep, false, wait), sh))
  {
    hide GoOn;
    var th, locked := Thread(WaiterCheckCompleted, false, wait), sh.(waitersOwner := Some(t));
    WaiterChecks(sh, t, wait, 6);
    Onward(Local(th, locked), t, WaiterReadModify, locked, 3);
    Onward(Local(th.(pc := WaiterReadModify), locked), t, WaiterSleep, locked, 2);
    WaiterLeaves(sh, t, wait, WaiterSleep, Asleep, 1);
    Arrived(Local(th.(pc := Asleep), sh), t);
  }

  /** A waiter that has been woken returns. */
  lemma WokenAlone(sh: Shared, t: Tid, wait: Option<Flag>)
    requires sh.waitersOwner == None
    ensures GoOn(Local(Thread(Woken, false, wait), sh), t, 2) == Some(Local(Thread(Idle, false, wait), sh))
  {
    hide GoOn;
    Onward(Local(Thread(Woken, false, wait), sh), t, WaiterUnlockReturn, sh.(waitersOwner := Some(t)), 2);
    WaiterLeaves(sh, t, wait, WaiterUnlockReturn, Idle, 1);
    Arrived(Local(Thread(Idle, false, wait), sh), t);
  }

  /** The thread holds the lock `depth` times. */
  predicate HeldBy(sh: Shared, t: Tid, depth: nat) {
    sh.waitersOwner == None && sh.depth == depth && sh.owner == if depth == 0 then None else Some(t)
  }

  lemma SectionBegins(th: Thread, sh: Shared, t: Tid, m: Modifier, depth: nat, n: nat)
    requires th.pc == Write(m) && HeldBy(sh, t, depth) && n >= 2
    ensures GoOn(Local(th, sh), t, n)
         == GoOn(Local(th.(pc := SetActive(m)), sh.(pipe := sh.pipe + 1, owner := Some(t), depth := depth + 1)), t,
                 n - 2)
  {
    hide GoOn;
    var written := sh.(pipe := sh.pipe + 1);
    Onward(Local(th, sh), t, AcquireEvents(m), written, n);
    Onward(Local(th.(pc := AcquireEvents(m)), written), t, SetActive(m),
           written.(owner := Some(t), depth := depth + 1), n - 1);
  }

  /** What a modify section begins with: one more byte in the pipe, the lock, the byte out again. */
  lemma SectionAlone(th: Thread, sh: Shared, t: Tid, m: Modifier, depth: nat, n: nat)
    requires th.pc == Write(m) && HeldBy(sh, t, depth) && n >= 4
    ensures
      var held := sh.(owner := Some(t), depth := depth + 1, active := true);
      GoOn(Local(th, sh), t, n)
        == GoOn(Local(th.(pc := if m == Notify then Decrement else CloseAcquire(false)), held), t, n - 4)
  {
    hide GoOn;
    SectionBegins(th, sh, t, m, depth, n);
    var taken := sh.(pipe := sh.pipe + 1, owner := Some(t), depth := depth + 1);
    var held := sh.(owner := Some(t), depth := depth + 1, active := true);
    Onward(Local(th.(pc := SetActive(m)), taken), t, ReadPipe(m), taken.(active := true), n - 2);
    Onward(Local(th.(pc := ReadPipe(m)), taken.(active := true)), t,
           if m == Notify then Decrement else CloseAcquire(false), held, n - 3);
  }

  /** And what it ends with. */
  lemma SectionEnds(th: Thread, sh: Shared, t: Tid, depth: nat)
    requires th.pc == Decrement && HeldBy(sh, t, depth + 1)
    ensures GoOn(Local(th, sh), t, 6)
         == Some(Local(th.(pc := if th.nested then Handling else Idle),
                       sh.(modifying := sh.modifying - 1, depth := depth, active := false,
                           owner := if depth == 0 then None else Some(t))))
  {
    hide GoOn;
    var last := sh.(modifying := sh.modifying - 1);
    Onward(Local(th, sh), t, ClearActive(Section), last, 6);
    UnlockAlone(th.(pc := ClearActive(Section)), last, t, Section, 5);
    var left := DropEvents(last.(active := false));
    assert left == last.(depth := depth, active := false, owner := if depth == 0 then None else Some(t));
    Arrived(Local(th.(pc := AfterSection(th)), left), t);
  }

  /** A notification, from its start to its end, leaves everything as it was, except that within a
      callback the handler, which keeps its lock, is no longer marked as handling events. */
  lemma NotifyAlone(th: Thread, sh: Shared, t: Tid, nested: bool)
    requires th.pc == (if nested then Handling else Idle) && HeldBy(sh, t, if nested then 1 else 0)
    ensures
      var started := Step(th, sh, t, StartModify(Notify));
      GoOn(Local(started.th, started.sh), t, 10)
        == Some(Local(th.(nested := nested), sh.(active := false)))
  {
    hide GoOn;
    var depth: nat := if nested then 1 else 0;
    var begun, more := th.(pc := Write(Notify), nested := nested), sh.(modifying := sh.modifying + 1);
    assert Step(th, sh, t, StartModify(Notify)).th == begun && Step(th, sh, t, StartModify(Notify)).sh == more;
    SectionAlone(begun, more, t, Notify, depth, 10);
    var held := more.(owner := Some(t), depth := depth + 1, active := true);
    SectionEnds(begun.(pc := Decrement), held, t, depth);
    assert held.(modifying := held.modifying - 1, depth := depth, active := false,
                 owner := if depth == 0 then None else Some(t)) == sh.(active := false);
    hide Step;
  }

  /** do_close. */
  lemma CloseInside(begun: Thread, held: Shared, t: Tid, depth: nat)
    requires HeldBy(held, t, depth + 1) && held.active
    ensures GoOn(Local(begun.(pc := CloseAcquire(false)), held), t, 13)
         == GoOn(Local(begun.(pc := Decrement), held.(active := false)), t, 6)
  {
    hide GoOn;
    var twice := held.(depth := depth + 2);
    Onward(Local(begun.(pc := CloseAcquire(false)), held), t, CloseSetActive(false), twice, 13);
    Onward(Local(begun.(pc := CloseSetActive(false)), twice), t, ClearActive(DoClose(false)), twice, 12);
    UnlockAlone(begun.(pc := ClearActive(DoClose(false))), twice, t, DoClose(false), 11);
    assert DropEvents(twice.(active := false)) == held.(active := false);
  }

  /** So does closing a handle, which takes the lock twice. */
  lemma CloseAlone(th: Thread, sh: Shared, t: Tid, nested: bool)
    requires th.pc == (if nested then Handling else Idle) && HeldBy(sh, t, if nested then 1 else 0)
    ensures
      var started := Step(th, sh, t, StartModify(Close));
      GoOn(Local(started.th, started.sh), t, 17)
        == Some(Local(th.(nested := nested), sh.(active := false)))
  {
    hide GoOn;
    var depth: nat := if nested then 1 else 0;
    var begun, more := th.(pc := Write(Close), nested := nested), sh.(modifying := sh.modifying + 1);
    assert Step(th, sh, t, StartModify(Close)).th == begun && Step(th, sh, t, StartModify(Close)).sh == more;
    SectionAlone(begun, more, t, Close, depth, 17);
    var held := more.(owner := Some(t), depth := depth + 1, active := true);
    CloseInside(begun, held, t, depth);
    SectionEnds(begun.(pc := Decrement), held.(active := false), t, depth);
    assert held.(modifying := held.modifying - 1, depth := depth, active := false,
                 owner := if depth == 0 then None else Some(t)) == sh.(active := false);
    hide Step;
  }

  lemma {:induction false} GoOnFurther(l: Local, t: Tid, m: nat, n: nat)
    requires GoOn(l, t, m).Some?
    ensures GoOn(l, t, m + n) == GoOn(GoOn(l, t, m).value, t, n)
    decreases m
  {
    if m == 0 {
    } else {
      hide Step, Ready;
      var o := Step(l.th, l.sh, t, Go);
      GoOnFurther(Local(o.th, o.sh), t, m - 1, n);
    }
  }

  /** So after a notification from within a callback of thread `u`, another thread's call goes round
      and round, seven steps at a time, without ever going to sleep, for as long as the callback's
      handler keeps the lock. */
  lemma {:induction false} GoesRound(sh: Shared, t: Tid, wait: Option<Flag>, u: Tid, k: nat)
    requires sh.modifying == 0 && sh.owner == Some(u) && u != t && sh.waitersOwner == None && !sh.active
    requires !HasCompleted(wait, sh)
    ensures
      var l := Local(Thread(TryReadModify, false, wait), sh);
      GoOn(l, t, 7 * k) == Some(l)
    decreases k
  {
    var l := Local(Thread(TryReadModify, false, wait), sh);
    if k == 0 {
      Arrived(l, t);
    } else {
      hide GoOn, HasCompleted;
      WaiterAlone(sh, t, wait, u);
      GoOnFurther(l, t, 7, 7 * (k - 1));
      GoesRound(sh, t, wait, u, k - 1);
    }
  }
}
