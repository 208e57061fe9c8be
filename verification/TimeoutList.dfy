/** libusb's list of flying transfers: an intrusive circular doubly linked list (libusbi.h),
    kept sorted by timeout (io.c), with the scans that rely on the order. */
module TimeoutList {
  // ---------------------------------------------------------------- time

  /** A timeval; (0, 0) means that there is no timeout. */
  datatype TimeVal = TimeVal(sec: nat, usec: nat)

  predicate IsSet(t: TimeVal) {
    t.sec != 0 || t.usec != 0
  }

  predicate Normal(t: TimeVal) {
    t.usec < 1_000_000
  }

  function Micros(t: TimeVal): nat {
    t.sec * 1_000_000 + t.usec
  }

  /** The comparison that the code writes out. */
  predicate Later(a: TimeVal, b: TimeVal) {
    a.sec > b.sec || (a.sec == b.sec && a.usec > b.usec)
  }

  lemma LaterIsGreater(a: TimeVal, b: TimeVal)
    requires Normal(a) && Normal(b)
    ensures Later(a, b) <==> Micros(a) > Micros(b)
  {
  }

  /** May `a` stand before `b`?  Whatever has no timeout goes last. */
  predicate InOrder(a: TimeVal, b: TimeVal) {
    !IsSet(b) || (IsSet(a) && !Later(a, b))
  }

  // ---------------------------------------------------------------- the ring

  /** A list_head together with the transfer that contains it.  The head of the list is a link
      whose transfer fields nobody reads. */
  class Link {
    var prev: Link?
    var next: Link?
    var timeout: TimeVal
    var timedOut: bool  // USBI_TRANSFER_TIMED_OUT
    var osHandlesTimeout: bool  // USBI_TRANSFER_OS_HANDLES_TIMEOUT
    const handle: int  // which device handle the transfer belongs to

    constructor (h: int)
      ensures prev == null && next == null && handle == h && timeout == TimeVal(0, 0)
    {
      prev, next, timeout, timedOut, osHandlesTimeout, handle := null, null, TimeVal(0, 0), false, false, h;
    }
  }

  function Circle(head: Link, s: seq<Link>): (c: seq<Link>)
    ensures |c| == |s| + 2
  {
    [head] + s + [head]
  }

  ghost predicate Distinct(head: Link, s: seq<Link>) {
    && (forall i :: 0 <= i < |s| ==> s[i] != head)
    && (forall i, j :: 0 <= i < j < |s| ==> s[i] != s[j])
  }

  ghost predicate Linked(c: seq<Link>)
    reads c`next, c`prev
  {
    forall i, j :: 0 <= i && j == i + 1 && j < |c| ==> c[i].next == c[j] && c[j].prev == c[i]
  }

  /** `s` is what the ring around `head` holds, in order. */
  ghost predicate Ring(head: Link, s: seq<Link>)
    reads Circle(head, s)`next, Circle(head, s)`prev
  {
    Distinct(head, s) && Linked(Circle(head, s))
  }

  function Inserted(s: seq<Link>, k: nat, e: Link): seq<Link>
    requires k <= |s|
  {
    s[..k] + [e] + s[k..]
  }

  function Removed(s: seq<Link>, k: nat): seq<Link>
    requires k < |s|
  {
    s[..k] + s[k + 1..]
  }

  lemma InsertedMembers(s: seq<Link>, k: nat, e: Link)
    requires k <= |s|
    ensures e in Inserted(s, k, e) && forall x | x in s :: x in Inserted(s, k, e)
    ensures forall x | x in Inserted(s, k, e) :: x == e || x in s
  {
    forall x | x in s ensures x in Inserted(s, k, e) {
      assert x in s[..k] + s[k..];
    }
    assert Inserted(s, k, e)[k] == e;
  }

  lemma InsertedDistinct(head: Link, s: seq<Link>, k: nat, e: Link)
    requires Distinct(head, s) && e != head && e !in s && k <= |s|
    ensures Distinct(head, Inserted(s, k, e))
    ensures Circle(head, Inserted(s, k, e)) == Circle(head, s)[..k + 1] + [e] + Circle(head, s)[k + 1..]
  {
  }

  /** Within a circle every link has one place, except the head, which closes it. */
  lemma CircleDistinct(head: Link, s: seq<Link>)
    requires Distinct(head, s)
    ensures
      var c := Circle(head, s);
      && (forall i, j :: 0 <= i < j <= |s| ==> c[i] != c[j])
      && (forall i, j :: 1 <= i < j <= |s| + 1 ==> c[i] != c[j])
  {
  }

  method ListInit(head: Link)
    modifies head`prev, head`next
    ensures Ring(head, [])
  {
    head.prev := head;
    head.next := head;
  }

  /** Where the iteration macros are after `i` steps. */
  function Nth(head: Link, s: seq<Link>, i: nat): Link
    requires i <= |s|
  {
    if i < |s| then s[i] else head
  }

  /** list_add_tail, in front of any member of the ring (the head for its end). */
  method ListAddTail(entry: Link, pos: Link, ghost head: Link, ghost s: seq<Link>, ghost k: nat)
    requires Ring(head, s) && entry != head && entry !in s
    requires k <= |s| && pos == Nth(head, s, k)
    modifies entry`prev, entry`next, pos`prev, (set x | x in Circle(head, s))`next
    ensures Ring(head, Inserted(s, k, entry))
  {
    ghost var c := Circle(head, s);
    ghost var d := Circle(head, Inserted(s, k, entry));
    CircleDistinct(head, s);
    InsertedDistinct(head, s, k, entry);
    assert c[k].next == c[k + 1] && c[k + 1].prev == c[k];
    entry.next := pos;
    entry.prev := pos.prev;
    pos.prev.next := entry;
    pos.prev := entry;
    forall i, j | 0 <= i && j == i + 1 && j < |d| ensures d[i].next == d[j] && d[j].prev == d[i] {
      if i < k {
        assert c[i].next == c[i + 1] && c[i + 1].prev == c[i];
      } else if i > k + 1 {
        assert c[i - 1].next == c[i] && c[i].prev == c[i - 1];
      }
    }
  }

  /** list_add: right behind the head. */
  method ListAdd(entry: Link, head: Link, ghost s: seq<Link>)
    requires Ring(head, s) && entry != head && entry !in s
    modifies entry`prev, entry`next, head`next, (set x | x in Circle(head, s))`prev
    ensures Ring(head, [entry] + s)
  {
    ghost var c := Circle(head, s);
    ghost var d := Circle(head, Inserted(s, 0, entry));
    CircleDistinct(head, s);
    InsertedDistinct(head, s, 0, entry);
    assert c[0].next == c[1] && c[1].prev == c[0];
    entry.next := head.next;
    entry.prev := head;
    head.next.prev := entry;
    head.next := entry;
    forall i, j | 0 <= i && j == i + 1 && j < |d| ensures d[i].next == d[j] && d[j].prev == d[i] {
      if i > 1 {
        assert c[i - 1].next == c[i] && c[i].prev == c[i - 1];
      }
    }
    assert Inserted(s, 0, entry) == [entry] + s;
  }

  lemma RemovedMembers(head: Link, s: seq<Link>, k: nat)
    requires k < |s|
    ensures forall x | x in Circle(head, Removed(s, k)) :: x in Circle(head, s)
  {
  }

  lemma RemovedDistinct(head: Link, s: seq<Link>, k: nat)
    requires Distinct(head, s) && k < |s|
    ensures Distinct(head, Removed(s, k)) && s[k] !in Removed(s, k)
    ensures Circle(head, Removed(s, k)) == Circle(head, s)[..k + 1] + Circle(head, s)[k + 2..]
  {
  }

  method ListDel(entry: Link, ghost head: Link, ghost s: seq<Link>, ghost k: nat)
    requires Ring(head, s) && k < |s| && s[k] == entry
    modifies entry`prev, entry`next, (set x | x in Circle(head, s))`next, (set x | x in Circle(head, s))`prev
    ensures Ring(head, Removed(s, k)) && entry.next == null && entry.prev == null
  {
    ghost var c := Circle(head, s);
    ghost var d := Circle(head, Removed(s, k));
    CircleDistinct(head, s);
    RemovedDistinct(head, s, k);
    assert c[k].next == c[k + 1] && c[k + 1].prev == c[k] && c[k + 1].next == c[k + 2] && c[k + 2].prev == c[k + 1];
    entry.next.prev := entry.prev;
    entry.prev.next := entry.next;
    entry.next := null;
    entry.prev := null;
    forall i, j | 0 <= i && j == i + 1 && j < |d| ensures d[i].next == d[j] && d[j].prev == d[i] {
      if i < k {
        assert c[i].next == c[i + 1] && c[i + 1].prev == c[i];
      } else if i > k {
        assert c[i + 1].next == c[i + 2] && c[i + 2].prev == c[i + 1];
      }
    }
  }

  /** list_empty, and the first and the next step of the iteration macros. */
  lemma RingWalk(head: Link, s: seq<Link>, i: nat)
    requires Ring(head, s) && i <= |s|
    ensures head.next == Nth(head, s, 0)
    ensures i < |s| ==> s[i].next == Nth(head, s, i + 1) && s[i] != head
  {
    var c := Circle(head, s);
    assert c[0].next == c[1];
    if i < |s| {
      assert c[i + 1].next == c[i + 2];
    }
  }

  // ---------------------------------------------------------------- order

  ghost predicate SortedLinks(s: seq<Link>)
    reads s`timeout
  {
    && (forall i, j :: 0 <= i < j < |s| ==> InOrder(s[i].timeout, s[j].timeout))
    && (forall i :: 0 <= i < |s| ==> Normal(s[i].timeout))
  }

  /** `k` is the place behind everything that may stand before `t`: behind equal timeouts, and
      at the end if `t` has none. */
  ghost predicate Place(s: seq<Link>, k: nat, t: TimeVal)
    reads s`timeout
  {
    && k <= |s|
    && (forall i | 0 <= i < k :: InOrder(s[i].timeout, t))
    && (forall i | k <= i < |s| :: !InOrder(s[i].timeout, t))
  }

  lemma ListedIsNormal(s: seq<Link>, k: nat)
    requires SortedLinks(s) && k < |s|
    ensures Normal(s[k].timeout)
  {
  }

  lemma InsertedSorted(s: seq<Link>, k: nat, e: Link)
    requires SortedLinks(s) && Place(s, k, e.timeout) && Normal(e.timeout)
    ensures SortedLinks(Inserted(s, k, e))
  {
  }

  /** Equal timeouts stand in the order of their insertion, which `turn` records; `now` is the
      number of insertions so far. */
  ghost predicate Stable(s: seq<Link>, turn: map<Link, nat>, now: nat)
    reads s`timeout
  {
    && (forall x | x in s :: x in turn && turn[x] < now)
    && (forall i, j :: 0 <= i < j < |s| && s[i].timeout == s[j].timeout ==> turn[s[i]] < turn[s[j]])
  }

  /** Insertion is stable: the newest transfer goes behind those with the same timeout. */
  lemma InsertedStable(s: seq<Link>, k: nat, e: Link, turn: map<Link, nat>, now: nat)
    requires SortedLinks(s) && Stable(s, turn, now) && Place(s, k, e.timeout) && e !in s
    ensures Stable(Inserted(s, k, e), turn[e := now], now + 1)
  {
    var t, turn' := Inserted(s, k, e), turn[e := now];
    forall x | x in t ensures x in turn' && turn'[x] <= now {
      assert x in s || x == e;
    }
    forall j | k < j < |t| ensures t[j].timeout != e.timeout {
      assert t[j] == s[j - 1];
    }
    forall i, j | 0 <= i < j < |t| && t[i].timeout == t[j].timeout ensures turn'[t[i]] < turn'[t[j]] {
      if j == k {
        assert t[i] == s[i] && t[i] in s;
      } else if i != k {
        var i', j' := if i < k then i else i - 1, if j < k then j else j - 1;
        assert t[i] == s[i'] && t[j] == s[j'] && s[i'] in s && s[j'] in s;
      }
    }
  }

  lemma RemovedStable(s: seq<Link>, k: nat, turn: map<Link, nat>, now: nat)
    requires Stable(s, turn, now) && k < |s|
    ensures Stable(Removed(s, k), turn, now)
  {
    var t := Removed(s, k);
    forall x | x in t ensures x in s {
      var i :| 0 <= i < |t| && t[i] == x;
      assert t[i] == s[if i < k then i else i + 1];
    }
    forall i, j | 0 <= i < j < |t| && t[i].timeout == t[j].timeout ensures turn[t[i]] < turn[t[j]] {
      assert t[i] == s[if i < k then i else i + 1] && t[j] == s[if j < k then j else j + 1];
    }
  }

  lemma LastPlace(s: seq<Link>, t: TimeVal)
    requires s == [] || !IsSet(t)
    ensures Place(s, |s|, t)
  {
  }

  lemma RemovedSorted(s: seq<Link>, k: nat)
    requires SortedLinks(s) && k < |s|
    ensures SortedLinks(Removed(s, k))
  {
  }

  /** In a sorted list the timeouts after one that has not come, or is not set, have not come
      either. */
  lemma LaterOnes(s: seq<Link>, i: nat, j: nat, now: TimeVal)
    requires SortedLinks(s) && i <= j < |s|
    requires !IsSet(s[i].timeout) || Later(s[i].timeout, now)
    ensures !IsSet(s[j].timeout) || Later(s[j].timeout, now)
  {
  }

  // ---------------------------------------------------------------- scans

  predicate Handled(t: Link)
    reads t
  {
    t.timedOut || t.osHandlesTimeout
  }

  /** A transfer whose timeout is still to be handled. */
  predicate Waiting(t: Link)
    reads t
  {
    Micros(t.timeout) > 0 && !t.timedOut && !t.osHandlesTimeout
  }

  predicate Expired(t: Link, now: TimeVal)
    reads t
  {
    Waiting(t) && Micros(t.timeout) <= Micros(now)
  }

  lemma SetIff(t: TimeVal)
    ensures IsSet(t) <==> Micros(t) > 0
  {
  }

  lemma WaitingIff(t: Link)
    ensures Waiting(t) <==> IsSet(t.timeout) && !Handled(t)
  {
    SetIff(t.timeout);
    hide Micros, IsSet;
  }

  lemma ExpiredIff(t: Link, now: TimeVal)
    requires Normal(t.timeout) && Normal(now)
    ensures Expired(t, now) <==> IsSet(t.timeout) && !Handled(t) && !Later(t.timeout, now)
  {
    WaitingIff(t);
    LaterIsGreater(t.timeout, now);
    hide Micros, IsSet, Later, Waiting;
  }

  function ExpiredFlags(s: seq<Link>, now: TimeVal): (flags: seq<bool>)
    reads s
    ensures |flags| == |s|
  {
    seq(|s|, i requires 0 <= i < |s| reads s => Expired(s[i], now))
  }

  function Chosen(s: seq<Link>, flags: seq<bool>): seq<Link>
    requires |s| == |flags|
  {
    if s == [] then []
    else
      var k := |s| - 1;
      Chosen(s[..k], flags[..k]) + if flags[k] then [s[k]] else []
  }

  /** The transfers whose timeout has expired and has not been handled, in order. */
  function ExpiredOnes(s: seq<Link>, now: TimeVal): seq<Link>
    reads s
  {
    Chosen(s, ExpiredFlags(s, now))
  }

  lemma NoneChosen()
    ensures Chosen([], []) == []
  {
  }

  lemma ChosenSnoc(s: seq<Link>, flags: seq<bool>, i: nat)
    requires i < |s| == |flags|
    ensures Chosen(s[..i + 1], flags[..i + 1]) == Chosen(s[..i], flags[..i]) + if flags[i] then [s[i]] else []
  {
    assert s[..i + 1][..i] == s[..i] && flags[..i + 1][..i] == flags[..i];
  }

  lemma {:induction false} NoMoreChosen(s: seq<Link>, flags: seq<bool>, i: nat)
    requires i <= |s| == |flags| && forall j | i <= j < |s| :: !flags[j]
    ensures Chosen(s, flags) == Chosen(s[..i], flags[..i])
    decreases |s| - i
  {
    if i == |s| {
      assert s[..i] == s && flags[..i] == flags;
    } else {
      NoMoreChosen(s, flags, i + 1);
      ChosenSnoc(s, flags, i);
    }
  }

  /** `at` are increasing places at which `s` has the elements of `chosen`. */
  ghost predicate Places(s: seq<Link>, flags: seq<bool>, chosen: seq<Link>, at: seq<nat>) {
    && |at| == |chosen| && |flags| == |s|
    && (forall i: nat | i < |at| :: at[i] < |s| && flags[at[i]] && chosen[i] == s[at[i]])
    && (forall i: nat, j: nat | i < j < |at| :: at[i] < at[j])
  }

  lemma PlacesStep(s: seq<Link>, flags: seq<bool>, chosen: seq<Link>, at: seq<nat>)
    requires s != [] && |flags| == |s| && Places(s[..|s| - 1], flags[..|s| - 1], chosen, at)
    ensures Places(s, flags, chosen, at)
    ensures flags[|s| - 1] ==> Places(s, flags, chosen + [s[|s| - 1]], at + [|s| - 1])
  {
  }

  lemma {:induction false} ChosenPlaces(s: seq<Link>, flags: seq<bool>) returns (at: seq<nat>)
    requires |s| == |flags|
    ensures Places(s, flags, Chosen(s, flags), at)
    decreases |s|
  {
    if s == [] {
      at := [];
    } else {
      var k := |s| - 1;
      at := ChosenPlaces(s[..k], flags[..k]);
      PlacesStep(s, flags, Chosen(s[..k], flags[..k]), at);
      hide Places;
      if flags[k] {
        at := at + [k];
      }
    }
  }

  lemma {:induction false} ChosenHas(s: seq<Link>, flags: seq<bool>, p: nat)
    requires |s| == |flags| && p < |s| && flags[p]
    ensures s[p] in Chosen(s, flags)
    decreases |s|
  {
    var k := |s| - 1;
    if p < k {
      ChosenHas(s[..k], flags[..k], p);
    }
  }

  /** Each once, the earliest deadline first. */
  ghost predicate EarliestFirst(s: seq<Link>)
    reads s`timeout
  {
    forall i: nat, j: nat | i < j < |s| :: s[i] != s[j] && Micros(s[i].timeout) <= Micros(s[j].timeout)
  }

  lemma SortedByTime(s: seq<Link>, i: nat, j: nat)
    requires SortedLinks(s) && i < j < |s| && Waiting(s[i]) && Waiting(s[j])
    ensures Micros(s[i].timeout) <= Micros(s[j].timeout)
  {
    WaitingIff(s[j]);
    LaterIsGreater(s[i].timeout, s[j].timeout);
  }

  lemma ChosenByTime(head: Link, s: seq<Link>, flags: seq<bool>)
    requires Ring(head, s) && SortedLinks(s) && |flags| == |s|
    requires forall i: nat | i < |s| && flags[i] :: Waiting(s[i])
    ensures EarliestFirst(Chosen(s, flags))
  {
    var at := ChosenPlaces(s, flags);
    var chosen := Chosen(s, flags);
    hide Chosen, Waiting;
    forall i: nat, j: nat | i < j < |chosen|
      ensures chosen[i] != chosen[j] && Micros(chosen[i].timeout) <= Micros(chosen[j].timeout)
    {
      assert at[i] < at[j];
      SortedByTime(s, at[i], at[j]);
    }
  }

  lemma ExpiredInOrder(head: Link, s: seq<Link>, now: TimeVal)
    requires Ring(head, s) && SortedLinks(s)
    ensures forall t | t in ExpiredOnes(s, now) :: t in s
    ensures forall t | t in s :: t in ExpiredOnes(s, now) <==> Expired(t, now)
    ensures EarliestFirst(ExpiredOnes(s, now))
  {
    var flags, chosen := ExpiredFlags(s, now), ExpiredOnes(s, now);
    ChosenByTime(head, s, flags);
    var at := ChosenPlaces(s, flags);
    hide Chosen, Waiting, Ring, SortedLinks, EarliestFirst;
    forall t | t in chosen ensures t in s && Expired(t, now) {
      var i: nat :| i < |chosen| && chosen[i] == t;
      assert t == s[at[i]];
    }
    forall t | t in s && Expired(t, now) ensures t in chosen {
      var p: nat :| p < |s| && s[p] == t;
      ChosenHas(s, flags, p);
    }
  }

  ghost predicate SomeWaiting(s: seq<Link>)
    reads s
  {
    exists t :: t in s && Waiting(t)
  }

  ghost predicate EarliestWaiting(s: seq<Link>, t: Link)
    reads s, t
  {
    t in s && Waiting(t) && forall u | u in s && Waiting(u) :: Micros(t.timeout) <= Micros(u.timeout)
  }

  /** In a sorted list the first waiting transfer has the earliest timeout. */
  lemma FirstIsEarliest(s: seq<Link>, k: nat)
    requires SortedLinks(s) && k < |s| && Waiting(s[k]) && forall i | 0 <= i < k :: !Waiting(s[i])
    ensures EarliestWaiting(s, s[k]) && SomeWaiting(s) && Normal(s[k].timeout)
  {
    forall u | u in s && Waiting(u) ensures Micros(s[k].timeout) <= Micros(u.timeout) {
      var j :| 0 <= j < |s| && s[j] == u;
      WaitingIff(s[k]);
      WaitingIff(u);
      LaterIsGreater(s[k].timeout, u.timeout);
    }
  }

  /** Once a scan meets a timeout that has not come, no later transfer has expired. */
  lemma NoneLater(s: seq<Link>, i: nat, now: TimeVal)
    requires SortedLinks(s) && i < |s| && (!IsSet(s[i].timeout) || (!Handled(s[i]) && Later(s[i].timeout, now)))
    requires Normal(now)
    ensures forall j | i <= j < |s| :: !Expired(s[j], now)
  {
    forall j | i <= j < |s| ensures !Expired(s[j], now) {
      LaterOnes(s, i, j, now);
      ExpiredIff(s[j], now);
    }
  }

  function Belonging(s: seq<Link>, handle: int): seq<Link> {
    if s == [] then []
    else
      (if s[0].handle == handle then [s[0]] else []) + Belonging(s[1..], handle)
  }

  function Others(s: seq<Link>, handle: int): seq<Link> {
    if s == [] then []
    else
      (if s[0].handle != handle then [s[0]] else []) + Others(s[1..], handle)
  }

  /** What clock_gettime says. */
  datatype Clock = Reading(sec: nat, nsec: nat) | Unreadable

  predicate Readable(c: Clock) {
    c.Reading? ==> c.nsec < 1_000_000_000
  }

  function Nanos(c: Clock): nat
    requires c.Reading?
  {
    c.sec * 1_000_000_000 + c.nsec
  }

  /** TIMESPEC_TO_TIMEVAL. */
  function InMicros(c: Clock): (t: TimeVal)
    requires Readable(c) && c.Reading?
    ensures Normal(t) && Micros(t) == Nanos(c) / 1000
  {
    TimeVal(c.sec, c.nsec / 1000)
  }

  /** The deadline of a transfer, rounded down to microseconds.  A transfer without a timeout
      keeps whatever deadline it had when it was submitted before. */
  method CalculateTimeout(t: Link, duration: nat, clock: Clock) returns (ok: bool)
    requires Readable(clock) && Normal(t.timeout)
    modifies t`timeout
    ensures Normal(t.timeout) && (ok <==> duration == 0 || clock.Reading?)
    ensures duration == 0 || clock == Unreadable ==> t.timeout == old(t.timeout)
    ensures duration > 0 && clock.Reading? ==> Micros(t.timeout) == (Nanos(clock) + duration * 1_000_000) / 1000
    ensures ok ==> IsSet(t.timeout) == (duration > 0 || old(IsSet(t.timeout)))
  {
    if duration == 0 {
      return true;
    }
    if clock == Unreadable {
      return false;
    }
    var sec, nsec := clock.sec + duration / 1000, clock.nsec + (duration % 1000) * 1_000_000;
    while nsec >= 1_000_000_000
      invariant sec * 1_000_000_000 + nsec == Nanos(clock) + duration * 1_000_000 && nsec >= 0
    {
      nsec := nsec - 1_000_000_000;
      sec := sec + 1;
    }
    t.timeout := InMicros(Reading(sec, nsec));
    ok := true;
  }

  lemma {:induction false} NoneBelong(s: seq<Link>, handle: int)
    requires forall i | 0 <= i < |s| :: s[i].handle != handle
    ensures Belonging(s, handle) == [] && Others(s, handle) == s
    decreases |s|
  {
    if s == [] {
    } else {
      NoneBelong(s[1..], handle);
      assert s == [s[0]] + s[1..];
    }
  }

  lemma {:induction false} FirstBelongs(s: seq<Link>, k: nat, handle: int)
    requires k < |s| && s[k].handle == handle && forall i | 0 <= i < k :: s[i].handle != handle
    ensures Belonging(s, handle) == [s[k]] + Belonging(Removed(s, k), handle)
    ensures Others(s, handle) == Others(Removed(s, k), handle)
    decreases k
  {
    if k > 0 {
      FirstBelongs(s[1..], k - 1, handle);
      assert Removed(s, k)[1..] == Removed(s[1..], k - 1);
    } else {
      assert Removed(s, 0) == s[1..];
    }
  }

  lemma {:induction false} OthersSnoc(s: seq<Link>, t: Link, handle: int)
    ensures Others(s + [t], handle) == Others(s, handle) + if t.handle != handle then [t] else []
    decreases |s|
  {
    if s == [] {
      assert [t][1..] == [] && s + [t] == [t];
    } else {
      assert (s + [t])[1..] == s[1..] + [t];
      OthersSnoc(s[1..], t, handle);
    }
  }

  /** A pass over `s` that has dealt with its first `i` transfers and kept `k` of them. */
  ghost predicate Closing(s: seq<Link>, now: seq<Link>, handle: int, i: nat, k: nat) {
    i <= |s| && k == |Others(s[..i], handle)| && now == Others(s[..i], handle) + s[i..]
  }

  lemma ClosingStart(s: seq<Link>, handle: int)
    ensures Closing(s, s, handle, 0, 0)
  {
    assert s[..0] == [] && s[0..] == s;
  }

  lemma ClosingStep(s: seq<Link>, now: seq<Link>, handle: int, i: nat, k: nat)
    requires Closing(s, now, handle, i, k) && k < |now|
    ensures i < |s| && now[k] == s[i]
    ensures if s[i].handle == handle then Closing(s, Removed(now, k), handle, i + 1, k)
            else Closing(s, now, handle, i + 1, k + 1)
  {
    hide Others;
    assert s[..i + 1] == s[..i] + [s[i]] && s[i..] == [s[i]] + s[i + 1..];
    OthersSnoc(s[..i], s[i], handle);
  }

  lemma ClosingEnd(s: seq<Link>, now: seq<Link>, handle: int, i: nat, k: nat)
    requires Closing(s, now, handle, i, k) && k >= |now|
    ensures now == Others(s, handle)
  {
    hide Others;
    assert s[..i] == s;
  }

  lemma ListedIsNotHead(head: Link, s: seq<Link>, k: nat)
    requires Ring(head, s) && k <= |s| && Nth(head, s, k) == head
    ensures k == |s|
  {
  }

  /** timercmp, timerclear and timersub. */
  method Remaining(timeout: TimeVal, now: TimeVal) returns (tv: TimeVal)
    requires Normal(timeout) && Normal(now)
    ensures Normal(tv)
    ensures Micros(tv) == if Micros(timeout) > Micros(now) then Micros(timeout) - Micros(now) else 0
  {
    LaterIsGreater(timeout, now);
    if !Later(timeout, now) {
      tv := TimeVal(0, 0);
    } else {
      var sec, usec := timeout.sec - now.sec, timeout.usec - now.usec;
      if usec < 0 {
        sec, usec := sec - 1, usec + 1_000_000;
      }
      tv := TimeVal(sec, usec);
    }
  }

  class Context {
    const flyingTransfers: Link
    ghost var flying: seq<Link>
    ghost var turn: map<Link, nat>
    ghost var insertions: nat

    /** A ring, in the order of the timeouts, and among equal ones in that of the insertions. */
    ghost predicate Valid()
      reads this, flyingTransfers, flying
    {
      Ring(flyingTransfers, flying) && SortedLinks(flying) && Stable(flying, turn, insertions)
    }

    constructor (head: Link)
      modifies head`prev, head`next
      ensures Valid() && flyingTransfers == head && flying == []
    {
      flyingTransfers := head;
      flying, turn, insertions := [], map[], 0;
      new;
      ListInit(head);
    }

    /** The loop that finds the first timeout after `t`, or the head if there is none. */
    method FindPlace(t: TimeVal) returns (cur: Link, ghost k: nat)
      requires Valid() && IsSet(t)
      ensures k <= |flying| && cur == Nth(flyingTransfers, flying, k) && Place(flying, k, t)
    {
      var head := flyingTransfers;
      k := 0;
      RingWalk(head, flying, 0);
      cur := head.next;
      while cur != head
        invariant Valid() && k <= |flying| && cur == Nth(head, flying, k)
        invariant forall i | 0 <= i < k :: InOrder(flying[i].timeout, t)
        decreases |flying| - k
      {
        RingWalk(head, flying, k);
        if !IsSet(cur.timeout) || Later(cur.timeout, t) {
          forall i | k <= i < |flying| ensures !InOrder(flying[i].timeout, t) {
            LaterOnes(flying, k, i, t);
          }
          return;
        }
        cur := cur.next;
        k := k + 1;
      }
      RingWalk(head, flying, k);
    }

    /** The loop that finds the first transfer whose timeout is still to be handled, or the
        head if there is none. */
    method FindWaiting() returns (cur: Link, ghost earliest: Link?)
      requires Valid()
      ensures cur != flyingTransfers <==> SomeWaiting(flying)
      ensures cur != flyingTransfers ==> earliest == cur && EarliestWaiting(flying, cur) && Normal(cur.timeout)
    {
      hide Ring, SortedLinks, Stable, IsSet, EarliestWaiting, Waiting;
      var head := flyingTransfers;
      ghost var k := 0;
      earliest := null;
      RingWalk(head, flying, 0);
      cur := head.next;
      while cur != head
        invariant Valid() && k <= |flying| && cur == Nth(head, flying, k)
        invariant forall i | 0 <= i < k :: !Waiting(flying[i])
        decreases |flying| - k
      {
        RingWalk(head, flying, k);
        ListedIsNormal(flying, k);
        WaitingIff(cur);
        if !Handled(cur) && IsSet(cur.timeout) {
          earliest := cur;
          FirstIsEarliest(flying, k);
          return;
        }
        cur := cur.next;
        k := k + 1;
      }
      RingWalk(head, flying, k);
    }

    /** Stable insertion into the sorted list. */
    method AddToFlyingList(t: Link) returns (ghost k: nat)
      requires Valid() && t != flyingTransfers && t !in flying && Normal(t.timeout)
      modifies `flying, `turn, `insertions, t`prev, t`next, (set x | x in Circle(flyingTransfers, flying))`next,
               (set x | x in Circle(flyingTransfers, flying))`prev
      ensures Valid()
      ensures k <= |old(flying)| && flying == Inserted(old(flying), k, t) && Place(old(flying), k, t.timeout)
      ensures turn == old(turn)[t := old(insertions)] && insertions == old(insertions) + 1
    {
      hide Ring, InOrder, Stable;
      var head := flyingTransfers;
      ghost var s := flying;
      RingWalk(head, s, 0);
      if head.next == head {
        k := 0;
        LastPlace(s, t.timeout);
        ListAdd(t, head, s);
        assert Inserted(s, 0, t) == [t] + s;
      } else if !IsSet(t.timeout) {
        k := |s|;
        LastPlace(s, t.timeout);
        ListAddTail(t, head, head, s, k);
      } else {
        var cur;
        cur, k := FindPlace(t.timeout);
        ListAddTail(t, cur, head, s, k);
      }
      InsertedSorted(s, k, t);
      InsertedStable(s, k, t, turn, insertions);
      flying, turn, insertions := Inserted(s, k, t), turn[t := insertions], insertions + 1;
    }

    /** The scan after `i` transfers: those have been handled if they were due. */
    ghost predicate Scanned(before: seq<bool>, due: seq<bool>, i: nat, now: TimeVal)
      reads `flying, flying
    {
      && |before| == |due| == |flying| && i <= |flying|
      && (forall j | 0 <= j < i :: flying[j].timedOut == (before[j] || due[j]))
      && (forall j | i <= j < |flying| :: flying[j].timedOut == before[j] && due[j] == Expired(flying[j], now))
    }

    /** The body of the scan, for a transfer that does not end it. */
    method HandleOne(cur: Link, now: TimeVal, ghost before: seq<bool>, ghost due: seq<bool>, ghost i: nat)
      returns (expired: bool)
      requires Valid() && Scanned(before, due, i, now) && i < |flying| && cur == flying[i]
      requires IsSet(cur.timeout) && (Handled(cur) || !Later(cur.timeout, now)) && Normal(now)
      modifies cur`timedOut
      ensures Valid() && Scanned(before, due, i + 1, now) && expired == due[i]
    {
      ExpiredIff(cur, now);
      expired := !Handled(cur);
      if expired {
        cur.timedOut := true;
      }
    }

    lemma ScanComplete(before: seq<bool>, due: seq<bool>, i: nat, now: TimeVal)
      requires Scanned(before, due, i, now) && forall j | i <= j < |flying| :: !Expired(flying[j], now)
      ensures Chosen(flying, due) == Chosen(flying[..i], due[..i])
      ensures Scanned(before, due, |flying|, now)
    {
      NoMoreChosen(flying, due, i);
    }

    method Scan(now: TimeVal, ghost before: seq<bool>, ghost due: seq<bool>) returns (cancelled: seq<Link>)
      requires Valid() && |due| == |flying| && Scanned(before, due, 0, now) && Normal(now)
      modifies (set x | x in flying)`timedOut
      ensures Valid() && Scanned(before, due, |flying|, now)
      ensures cancelled == Chosen(flying, due)
    {
      hide Ring, SortedLinks, Stable, IsSet, Later, Chosen, Scanned;
      NoneChosen();
      var head := flyingTransfers;
      ghost var i: nat := 0;
      cancelled := [];
      RingWalk(head, flying, 0);
      var cur := head.next;
      while cur != head
        invariant Valid() && i <= |flying| && cur == Nth(head, flying, i)
        invariant |due| == |flying| && Scanned(before, due, i, now) && cancelled == Chosen(flying[..i], due[..i])
        decreases |flying| - i
      {
        RingWalk(head, flying, i);
        if !IsSet(cur.timeout) || (!Handled(cur) && Later(cur.timeout, now)) {
          NoneLater(flying, i, now);
          ScanComplete(before, due, i, now);
          return;
        }
        ChosenSnoc(flying, due, i);
        var expired := HandleOne(cur, now, before, due, i);
        if expired {
          cancelled := cancelled + [cur];
        }
        cur := cur.next;
        i := i + 1;
      }
      RingWalk(head, flying, i);
      ScanComplete(before, due, i, now);
    }

    /** The scan of handle_timeouts_locked, once the clock has been read. */
    method CancelExpired(now: TimeVal) returns (cancelled: seq<Link>)
      requires Valid() && Normal(now)
      modifies (set x | x in flying)`timedOut
      ensures Valid()
      ensures cancelled == old(ExpiredOnes(flying, now))
      ensures forall t | t in flying :: t.timedOut == (old(t.timedOut) || old(Expired(t, now)))
    {
      ghost var before: seq<bool> := seq(|flying|, i requires 0 <= i < |flying| reads this, flying =>
        flying[i].timedOut);
      ghost var due := ExpiredFlags(flying, now);
      hide Ring, SortedLinks, Stable, Waiting, Chosen;
      cancelled := Scan(now, before, due);
    }

    /** handle_timeouts_locked: marks and cancels exactly the transfers whose timeout has expired
        and has not been handled, the earliest first, although it stops at the first one that has
        not expired. */
    method HandleTimeouts(clock: Clock) returns (ok: bool, cancelled: seq<Link>)
      requires Valid() && Readable(clock)
      modifies (set x | x in flying)`timedOut
      ensures Valid() && (ok <==> flying == [] || clock.Reading?)
      ensures forall t | t in cancelled :: t in flying
      ensures forall t | t in flying :: t in cancelled <==> clock.Reading? && old(Expired(t, InMicros(clock)))
      ensures forall t | t in flying :: t.timedOut == (old(t.timedOut) || t in cancelled)
      ensures EarliestFirst(cancelled)
    {
      hide SortedLinks, Stable, Waiting, ExpiredOnes;
      ok, cancelled := true, [];
      RingWalk(flyingTransfers, flying, 0);
      if flyingTransfers.next == flyingTransfers {
        return;
      }
      hide Ring, Expired;
      if clock == Unreadable {
        ok := false;
        return;
      }
      ExpiredInOrder(flyingTransfers, flying, InMicros(clock));
      ghost var due := ExpiredOnes(flying, InMicros(clock));
      cancelled := CancelExpired(InMicros(clock));
      assert cancelled == due && forall t | t in due :: t.timeout == old(t.timeout);
    }

    /** libusb_get_next_timeout: how long until the earliest timeout that is still to be handled;
        none is found if the clock cannot be read. */
    method GetNextTimeout(clock: Clock) returns (found: bool, tv: TimeVal, ghost earliest: Link?)
      requires Valid() && Readable(clock)
      ensures found <==> clock.Reading? && SomeWaiting(flying)
      ensures found ==> earliest != null && EarliestWaiting(flying, earliest) && Normal(tv)
      ensures found ==>
                Micros(tv) == if Micros(earliest.timeout) > Nanos(clock) / 1000
                              then Micros(earliest.timeout) - Nanos(clock) / 1000 else 0
    {
      var next;
      next, earliest := FindWaiting();
      found, tv := next != flyingTransfers && clock != Unreadable, TimeVal(0, 0);
      if found {
        tv := Remaining(next.timeout, InMicros(clock));
      }
    }

    /** list_del, as completion and a failed submission use it. */
    method Remove(t: Link, ghost k: nat)
      requires Valid() && k < |flying| && flying[k] == t
      modifies `flying, t`prev, t`next, (set x | x in Circle(flyingTransfers, flying))`next,
               (set x | x in Circle(flyingTransfers, flying))`prev
      ensures Valid() && flying == Removed(old(flying), k)
      ensures t.next == null && t.prev == null
    {
      hide Ring, InOrder, Stable;
      ListDel(t, flyingTransfers, flying, k);
      RemovedSorted(flying, k);
      RemovedStable(flying, k, turn, insertions);
      flying := Removed(flying, k);
    }

    /** libusb_submit_transfer: the transfer is queued by its deadline, and taken out again if
        the backend refuses it. */
    method Submit(t: Link, duration: nat, clock: Clock, backendAccepts: bool) returns (ok: bool, ghost k: nat)
      requires Valid() && t != flyingTransfers && t !in flying && Normal(t.timeout) && Readable(clock)
      modifies `flying, `turn, `insertions, t`prev, t`next, t`timeout, t`timedOut, t`osHandlesTimeout,
               (set x | x in Circle(flyingTransfers, flying))`next, (set x | x in Circle(flyingTransfers, flying))`prev
      ensures Valid()
      ensures ok <==> (duration == 0 || clock.Reading?) && backendAccepts
      ensures !ok ==> flying == old(flying)
      ensures ok ==> k <= |old(flying)| && flying == Inserted(old(flying), k, t) && Place(old(flying), k, t.timeout)
      ensures ok ==> IsSet(t.timeout) == (duration > 0 || old(IsSet(t.timeout)))
      ensures ok ==> turn == old(turn)[t := old(insertions)] && insertions == old(insertions) + 1
      ensures !t.timedOut && !t.osHandlesTimeout && (ok && duration > 0 ==> Waiting(t))
      ensures ok && duration > 0 ==> Micros(t.timeout) == (Nanos(clock) + duration * 1_000_000) / 1000
      ensures ok && duration == 0 ==> t.timeout == old(t.timeout)
    {
      hide Ring, SortedLinks, Place, IsSet, Stable;
      k := 0;
      t.timedOut := false;
      t.osHandlesTimeout := false;
      ok := CalculateTimeout(t, duration, clock);
      if !ok {
        return;
      }
      SetIff(t.timeout);
      hide Micros, Nanos;
      ghost var s := flying;
      k := AddToFlyingList(t);
      if !backendAccepts {
        Remove(t, k);
        assert Removed(Inserted(s, k, t), k) == s;
        ok := false;
      }
    }

    /** A transfer that is submitted is cancelled by a later call exactly if its deadline has come
        by then, even if it had timed out when it was submitted before.  Without a timeout it is
        cancelled all the same if it was submitted with one before and that deadline has come. */
    method SubmitAndHandle(t: Link, duration: nat, clock: Clock, later: Clock) returns (ok: bool, cancelled: seq<Link>)
      requires Valid() && t != flyingTransfers && t !in flying && Normal(t.timeout)
      requires Readable(clock) && Readable(later) && later.Reading?
      modifies `flying, `turn, `insertions, t`prev, t`next, t`timeout, t`timedOut, t`osHandlesTimeout,
               (set x | x in Circle(flyingTransfers, flying))`next, (set x | x in Circle(flyingTransfers, flying))`prev,
               (set x | x in flying)`timedOut
      ensures Valid() && (ok <==> duration == 0 || clock.Reading?)
      ensures ok && duration > 0 ==>
                (t in cancelled <==> Nanos(later) / 1000 >= (Nanos(clock) + duration * 1_000_000) / 1000)
      ensures ok && duration == 0 ==>
                (t in cancelled <==> 0 < old(Micros(t.timeout)) <= Nanos(later) / 1000)
      ensures forall u | u in old(flying) :: u in cancelled <==> ok && old(Expired(u, InMicros(later)))
    {
      hide Ring, SortedLinks, Stable, Place, Inserted, Nanos, Micros, InMicros, IsSet;
      ghost var k;
      ghost var s := flying;
      cancelled := [];
      ok, k := Submit(t, duration, clock, true);
      if ok {
        InsertedMembers(s, k, t);
        var handled;
        handled, cancelled := HandleTimeouts(later);
      }
    }

    /** The loop that looks for a transfer of this device handle. */
    method FindFor(handle: int) returns (cur: Link, ghost k: nat)
      requires Valid()
      ensures k <= |flying| && cur == Nth(flyingTransfers, flying, k)
      ensures forall i | 0 <= i < k :: flying[i].handle != handle
      ensures k < |flying| ==> cur != flyingTransfers && cur.handle == handle
    {
      hide Ring, SortedLinks, Stable;
      var head := flyingTransfers;
      k := 0;
      RingWalk(head, flying, 0);
      cur := head.next;
      while cur != head
        invariant Valid() && k <= |flying| && cur == Nth(head, flying, k)
        invariant forall i | 0 <= i < k :: flying[i].handle != handle
        decreases |flying| - k
      {
        RingWalk(head, flying, k);
        if cur.handle == handle {
          return;
        }
        cur := cur.next;
        k := k + 1;
      }
      RingWalk(head, flying, k);
    }

    /** usbi_handle_disconnect, with callbacks that do not submit again: it ends with no
        transfer of the handle in flight, having completed each of them once, and leaves the
        others in place. */
    method HandleDisconnect(handle: int) returns (completed: seq<Link>)
      requires Valid()
      modifies `flying, (set x | x in Circle(flyingTransfers, flying))`next,
               (set x | x in Circle(flyingTransfers, flying))`prev
      ensures Valid()
      ensures completed == Belonging(old(flying), handle) && flying == Others(old(flying), handle)
    {
      hide Ring, SortedLinks, Stable;
      completed := [];
      while true
        invariant Valid() &&
                  forall x | x in Circle(flyingTransfers, flying) :: x in old(Circle(flyingTransfers, flying))
        invariant completed + Belonging(flying, handle) == Belonging(old(flying), handle)
        invariant Others(flying, handle) == Others(old(flying), handle)
        decreases |flying|
      {
        var toCancel;
        ghost var k;
        toCancel, k := FindFor(handle);
        if toCancel == flyingTransfers {
          NoneBelong(flying, handle);
          break;
        }
        FirstBelongs(flying, k, handle);
        assert flying[k] in Circle(flyingTransfers, flying);
        ghost var before := flying;
        Remove(toCancel, k);
        RemovedMembers(flyingTransfers, before, k);
        completed := completed + [toCancel];
      }
    }

    /** The loop of do_close: one pass that takes out every transfer of a device handle on the way,
        having looked up the next one before. */
    method CloseHandle(handle: int)
      requires Valid()
      modifies `flying, (set x | x in Circle(flyingTransfers, flying))`next,
               (set x | x in Circle(flyingTransfers, flying))`prev
      ensures Valid() && flying == Others(old(flying), handle)
    {
      hide Ring, SortedLinks, Stable, Others;
      var head := flyingTransfers;
      ghost var s := flying;
      ghost var i: nat, k: nat := 0, 0;
      RingWalk(head, flying, 0);
      var cur := head.next;
      ClosingStart(s, handle);
      while cur != head
        invariant Valid() &&
                  forall x | x in Circle(flyingTransfers, flying) :: x in old(Circle(flyingTransfers, flying))
        invariant Closing(s, flying, handle, i, k) && cur == Nth(head, flying, k)
        decreases |s| - i
      {
        RingWalk(head, flying, k);
        var tmp := cur.next;
        ClosingStep(s, flying, handle, i, k);
        if cur.handle == handle {
          assert cur in Circle(flyingTransfers, flying);
          RemovedMembers(flyingTransfers, flying, k);
          Remove(cur, k);
        } else {
          k := k + 1;
        }
        i := i + 1;
        cur := tmp;
      }
      ListedIsNotHead(head, flying, k);
      ClosingEnd(s, flying, handle, i, k);
    }
  }
}
