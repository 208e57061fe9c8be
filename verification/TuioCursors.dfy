/** Cursors, and the allocation of cursor IDs that TuioServer.cpp and TuioClient.cpp share: an
    ID given up below the largest one in use is kept in a free list, and a new cursor takes
    over the free ID whose last position is closest to it. */
module TuioCursors {
  import opened Basics

  /** Coordinates, speeds and accelerations are opaque 32-bit words. */
  type Float = U32

  datatype Time = Time(seconds: int, microseconds: int)

  datatype Position = Position(x: Float, y: Float)

  datatype Motion = Motion(xSpeed: Float, ySpeed: Float, accel: Float)

  datatype TuioCursor = TuioCursor(time: Time, session: I32, id: int, pos: Position, motion: Motion)

  const AT_REST := Motion(0, 0, 0)

  type Distance = (Position, Position) -> real

  function Without<T>(s: seq<T>, k: nat): (r: seq<T>)
    requires k < |s|
    ensures |r| == |s| - 1
  {
    s[..k] + s[k + 1..]
  }

  // ---------------------------------------------------------------- sets of IDs

  function Ids(s: seq<TuioCursor>): set<int> {
    set c | c in s :: c.id
  }

  ghost predicate DistinctIds(s: seq<TuioCursor>) {
    forall i, j :: 0 <= i < j < |s| ==> s[i].id != s[j].id
  }

  predicate Between(n: int, max: int) {
    0 <= n <= max
  }

  function UpTo(max: int): set<int> {
    set n | 0 <= n <= max && Between(n, max)
  }

  /** What the allocator maintains: the IDs in use and the free ones are disjoint, without
      repetition and together exactly 0..max, and `max` is in use unless there are none. */
  ghost predicate PoolOk(active: seq<TuioCursor>, free: seq<TuioCursor>, max: int) {
    && DistinctIds(active) && DistinctIds(free)
    && Ids(active) !! Ids(free)
    && Ids(active) + Ids(free) == UpTo(max)
    && (if active == [] then max == -1 else max in Ids(active))
  }

  lemma IdsSnoc(s: seq<TuioCursor>, c: TuioCursor)
    ensures Ids(s + [c]) == Ids(s) + {c.id}
  {
    assert forall d :: d in s + [c] <==> d in s || d == c;
  }

  lemma {:induction false} IdsCount(s: seq<TuioCursor>)
    requires DistinctIds(s)
    ensures |Ids(s)| == |s|
    decreases |s|
  {
    if s == [] {
    } else {
      var init, last := s[..|s| - 1], s[|s| - 1];
      assert s == init + [last];
      IdsSnoc(init, last);
      IdsCount(init);
    }
  }

  lemma {:induction false} UpToCount(max: int)
    requires -1 <= max
    ensures |UpTo(max)| == max + 1
    decreases max
  {
    if max == -1 {
      assert UpTo(max) == {};
    } else {
      assert UpTo(max) == UpTo(max - 1) + {max};
      UpToCount(max - 1);
    }
  }

  lemma IdsWithout(s: seq<TuioCursor>, k: nat)
    requires k < |s| && DistinctIds(s)
    ensures Ids(Without(s, k)) == Ids(s) - {s[k].id} && DistinctIds(Without(s, k))
  {
    var r := Without(s, k);
    forall c | c in s && c.id != s[k].id ensures c in r {
      var i :| 0 <= i < |s| && s[i] == c;
      assert c == r[if i < k then i else i - 1];
    }
  }

  // ---------------------------------------------------------------- allocation

  /** No ID is lost: every one that was ever handed out and not pruned is in use or free. */
  lemma PoolCount(active: seq<TuioCursor>, free: seq<TuioCursor>, max: int)
    requires PoolOk(active, free, max)
    ensures |active| + |free| == max + 1
  {
    IdsCount(active);
    IdsCount(free);
    assert -1 <= max by {
      if active != [] { assert max in UpTo(max); }
    }
    UpToCount(max);
    assert |Ids(active) + Ids(free)| == |Ids(active)| + |Ids(free)|;
  }

  /** The guard under which no free ID is taken: then the number of cursors is the next ID. */
  lemma TakeFresh(active: seq<TuioCursor>, free: seq<TuioCursor>, max: int)
    requires PoolOk(active, free, max) && !(|active| <= max && |free| > 0)
    ensures free == [] && |active| == max + 1 && -1 <= max
  {
    PoolCount(active, free, max);
  }

  lemma UpdateKeepsPool(active: seq<TuioCursor>, free: seq<TuioCursor>, max: int, k: nat, c: TuioCursor)
    requires PoolOk(active, free, max) && k < |active| && c.id == active[k].id
    ensures PoolOk(active[k := c], free, max)
  {
    var t := active[k := c];
    forall i | 0 <= i < |active| ensures t[i].id == active[i].id && active[i] in active && t[i] in t {
    }
    assert Ids(t) == Ids(active);
  }

  lemma FreshKeepsPool(active: seq<TuioCursor>, c: TuioCursor, max: int)
    requires PoolOk(active, [], max) && |active| == max + 1 && c.id == |active|
    ensures PoolOk(active + [c], [], max + 1)
  {
    IdsSnoc(active, c);
    assert UpTo(max + 1) == UpTo(max) + {max + 1};
    forall i | 0 <= i < |active| ensures active[i].id != c.id {
      assert active[i].id in UpTo(max);
    }
  }

  lemma ReuseKeepsPool(active: seq<TuioCursor>, free: seq<TuioCursor>, max: int, k: nat, c: TuioCursor)
    requires PoolOk(active, free, max) && k < |free| && c.id == free[k].id
    requires active != []
    ensures PoolOk(active + [c], Without(free, k), max)
  {
    IdsSnoc(active, c);
    IdsWithout(free, k);
    forall i | 0 <= i < |active| ensures active[i].id != c.id {
      assert active[i].id in Ids(active) && c.id in Ids(free);
    }
  }

  /** The search for the closest free cursor: the first one at the least distance. */
  method ClosestFree(free: seq<TuioCursor>, at: Position, distance: Distance) returns (closest: nat)
    requires free != []
    ensures closest < |free|
    ensures forall i | 0 <= i < |free| :: distance(free[closest].pos, at) <= distance(free[i].pos, at)
    ensures forall i | 0 <= i < closest :: distance(free[closest].pos, at) < distance(free[i].pos, at)
  {
    closest := 0;
    for i := 0 to |free|
      invariant closest < |free|
      invariant closest == 0 || closest < i
      invariant forall j | 0 <= j < i :: distance(free[closest].pos, at) <= distance(free[j].pos, at)
      invariant forall j | 0 <= j < closest :: distance(free[closest].pos, at) < distance(free[j].pos, at)
    {
      if distance(free[i].pos, at) < distance(free[closest].pos, at) {
        closest := i;
      }
    }
  }

  ghost predicate TookClosest(free: seq<TuioCursor>, at: Position, distance: Distance, id: int, rest: seq<TuioCursor>) {
    exists k: nat | k < |free| ::
      && id == free[k].id && rest == Without(free, k)
      && (forall i | 0 <= i < |free| :: distance(free[k].pos, at) <= distance(free[i].pos, at))
      && (forall i | 0 <= i < k :: distance(free[k].pos, at) < distance(free[i].pos, at))
  }

  lemma SomeActive(active: seq<TuioCursor>, free: seq<TuioCursor>, max: int)
    requires PoolOk(active, free, max) && free != []
    ensures active != []
  {
    assert free[0].id in UpTo(max);
  }

  /** Which ID a new cursor at `at` gets, and what is left of the free list. */
  method TakeId(active: seq<TuioCursor>, free: seq<TuioCursor>, max: int, at: Position, distance: Distance)
    returns (id: int, free': seq<TuioCursor>, max': int)
    requires PoolOk(active, free, max)
    ensures forall c: TuioCursor | c.id == id :: PoolOk(active + [c], free', max')
    ensures max' == max || max' == |active|
    ensures free == [] ==> id == max' == max + 1 && free' == []
    ensures free != [] ==> max' == max && TookClosest(free, at, distance, id, free')
  {
    id := |active|;
    if |active| <= max && |free| > 0 {
      var closest := ClosestFree(free, at, distance);
      id := free[closest].id;
      free' := Without(free, closest);
      max' := max;
      forall c: TuioCursor | c.id == id ensures PoolOk(active + [c], free', max') {
        SomeActive(active, free, max);
        ReuseKeepsPool(active, free, max, closest, c);
      }
    } else {
      TakeFresh(active, free, max);
      max' := id;
      free' := free;
      forall c: TuioCursor | c.id == id ensures PoolOk(active + [c], free', max') {
        FreshKeepsPool(active, c, max);
      }
    }
  }

  // ---------------------------------------------------------------- release

  function Pruned(free: seq<TuioCursor>, max: int): seq<TuioCursor> {
    if free == [] then []
    else
      var last := free[|free| - 1];
      Pruned(free[..|free| - 1], max) + if last.id > max then [] else [last]
  }

  lemma {:induction false} PrunedIds(free: seq<TuioCursor>, max: int)
    requires DistinctIds(free)
    ensures DistinctIds(Pruned(free, max))
    ensures Ids(Pruned(free, max)) == set n | n in Ids(free) && n <= max
    decreases |free|
  {
    if free == [] {
    } else {
      var init, last := free[..|free| - 1], free[|free| - 1];
      assert free == init + [last];
      PrunedIds(init, max);
      IdsSnoc(init, last);
      var kept := Pruned(init, max);
      IdsSnoc(kept, last);
      forall i | 0 <= i < |kept| ensures kept[i].id != last.id {
        assert kept[i].id in Ids(kept) && kept[i].id in Ids(init);
      }
      assert Pruned(free, max) == if last.id > max then kept else kept + [last];
      hide Pruned, Ids;
    }
  }

  method LargestId(active: seq<TuioCursor>) returns (max: int)
    ensures active == [] ==> max == -1
    ensures active != [] && (forall c | c in active :: 0 <= c.id) ==> max in Ids(active)
    ensures forall c | c in active :: c.id <= max
  {
    max := -1;
    for i := 0 to |active|
      invariant max == -1 || max in Ids(active)
      invariant -1 <= max && (i == 0 ==> max == -1)
      invariant forall j | 0 <= j < i :: active[j].id <= max
    {
      if active[i].id > max {
        max := active[i].id;
        assert active[i] in active;
      }
    }
    if active != [] {
      assert active[0] in active;
    }
  }

  method PruneFree(free: seq<TuioCursor>, max: int) returns (kept: seq<TuioCursor>)
    ensures kept == Pruned(free, max)
  {
    kept := [];
    for i := 0 to |free|
      invariant kept == Pruned(free[..i], max)
    {
      assert free[..i + 1][..i] == free[..i];
      if !(free[i].id > max) {
        kept := kept + [free[i]];
      }
    }
    assert free[..|free|] == free;
  }

  lemma ReleaseBelowMax(active: seq<TuioCursor>, free: seq<TuioCursor>, max: int, k: nat)
    requires PoolOk(active, free, max) && k < |active| && active[k].id != max
    ensures PoolOk(Without(active, k), free + [active[k]], max)
  {
    IdsWithout(active, k);
    IdsSnoc(free, active[k]);
    assert active[k].id in Ids(active);
    forall i | 0 <= i < |free| ensures free[i].id != active[k].id {
      assert free[i].id in Ids(free);
    }
    assert max in Ids(Without(active, k));
  }

  lemma ReleaseMax(active: seq<TuioCursor>, free: seq<TuioCursor>, max: int, k: nat, max': int)
    requires PoolOk(active, free, max) && k < |active| && active[k].id == max
    requires if Without(active, k) == [] then max' == -1 else max' in Ids(Without(active, k))
    requires forall c | c in Without(active, k) :: c.id <= max'
    ensures PoolOk(Without(active, k), Pruned(free, max'), max') && max' < max
  {
    var rest := Without(active, k);
    IdsWithout(active, k);
    PrunedIds(free, max');
    assert max in UpTo(max) by {
      assert active[k].id in Ids(active);
    }
    assert max' < max by {
      if rest != [] { assert max' in UpTo(max); }
    }
    forall n | n in UpTo(max') ensures n in Ids(rest) + Ids(Pruned(free, max')) {
      assert n in UpTo(max);
    }
    forall n | n in Ids(rest) + Ids(Pruned(free, max')) ensures n in UpTo(max') {
      assert n in UpTo(max);
    }
    assert Ids(rest) + Ids(Pruned(free, max')) == UpTo(max');
  }

  lemma {:induction false} PruneAll(free: seq<TuioCursor>)
    requires forall c | c in free :: 0 <= c.id
    ensures Pruned(free, -1) == []
    decreases |free|
  {
    if free == [] {
    } else {
      assert free[|free| - 1] in free;
      PruneAll(free[..|free| - 1]);
    }
  }

  /** What becomes of the free list and of the largest ID when the k-th cursor goes. */
  method ReleaseId(active: seq<TuioCursor>, k: nat, free: seq<TuioCursor>, max: int)
    returns (free': seq<TuioCursor>, max': int)
    requires PoolOk(active, free, max) && k < |active|
    ensures PoolOk(Without(active, k), free', max')
    ensures max' <= max
    ensures active[k].id != max ==> max' == max && free' == free + [active[k]]
    ensures active[k].id == max ==> max' < max && free' == Pruned(free, max')
  {
    var rest := Without(active, k);
    IdsWithout(active, k);
    free', max' := free, max;
    if active[k].id == max {
      forall c | c in rest ensures 0 <= c.id {
        assert c.id in Ids(rest) && c.id in UpTo(max);
      }
      max' := LargestId(rest);
      if |rest| > 0 {
        free' := PruneFree(free, max');
      } else {
        free' := [];
        forall c | c in free ensures 0 <= c.id {
          assert c.id in Ids(free) && c.id in UpTo(max);
        }
        PruneAll(free);
      }
      ReleaseMax(active, free, max, k, max');
    } else {
      assert active[k].id in Ids(active) && active[k].id in UpTo(max);
      ReleaseBelowMax(active, free, max, k);
      if active[k].id < max {
        free' := free + [active[k]];
      }
    }
  }

  // ---------------------------------------------------------------- sessions

  function SessionSet(s: seq<TuioCursor>): set<int> {
    set c | c in s :: c.session
  }

  ghost predicate DistinctSessions(s: seq<TuioCursor>) {
    forall i, j :: 0 <= i < j < |s| ==> s[i].session != s[j].session
  }

  /** The loop that looks a cursor up by its session ID: its index, or the length. */
  function Find(s: seq<TuioCursor>, session: int): (k: nat)
    ensures k <= |s| && (k < |s| ==> s[k].session == session)
    ensures forall i | 0 <= i < k :: s[i].session != session
    ensures k < |s| <==> session in SessionSet(s)
  {
    if s == [] || s[0].session == session then 0
    else
      assert s == [s[0]] + s[1..];
      1 + Find(s[1..], session)
  }

  lemma FindAt(s: seq<TuioCursor>, k: nat)
    requires DistinctSessions(s) && k < |s|
    ensures Find(s, s[k].session) == k
  {
    assert s[k].session in SessionSet(s);
    var f := Find(s, s[k].session);
    assert !(f < k) && !(k < f);
  }

  /** What an observer sees: the sessions that are present, and where they are. */
  function View(s: seq<TuioCursor>): (v: map<int, Position>)
    ensures v.Keys == SessionSet(s)
  {
    map n | n in SessionSet(s) :: s[Find(s, n)].pos
  }

  lemma ViewAt(s: seq<TuioCursor>, k: nat)
    requires DistinctSessions(s) && k < |s|
    ensures s[k].session in View(s) && View(s)[s[k].session] == s[k].pos
  {
    FindAt(s, k);
  }

  lemma AppendSessions(s: seq<TuioCursor>, c: TuioCursor)
    ensures SessionSet(s + [c]) == SessionSet(s) + {c.session}
  {
    assert forall d :: d in s + [c] <==> d in s || d == c;
  }

  lemma UpdateSessions(s: seq<TuioCursor>, k: nat, c: TuioCursor)
    requires k < |s| && c.session == s[k].session
    ensures SessionSet(s[k := c]) == SessionSet(s)
  {
    var t := s[k := c];
    forall i | 0 <= i < |s| ensures t[i].session == s[i].session && s[i] in s && t[i] in t {
    }
  }

  lemma WithoutSessions(s: seq<TuioCursor>, k: nat)
    requires DistinctSessions(s) && k < |s|
    ensures SessionSet(Without(s, k)) == SessionSet(s) - {s[k].session}
  {
    var t := Without(s, k);
    forall c | c in s && c.session != s[k].session ensures c in t {
      var i :| 0 <= i < |s| && s[i] == c;
      assert c == t[if i < k then i else i - 1];
    }
  }

  lemma ViewAppend(s: seq<TuioCursor>, c: TuioCursor)
    requires DistinctSessions(s) && c.session !in SessionSet(s)
    ensures DistinctSessions(s + [c])
    ensures View(s + [c]) == View(s)[c.session := c.pos]
  {
    hide View;
    hide Find;
    var t := s + [c];
    AppendSessions(s, c);
    forall i | 0 <= i < |s| ensures s[i].session != c.session {
      assert s[i].session in SessionSet(s);
    }
    forall n | n in SessionSet(t) ensures View(t)[n] == View(s)[c.session := c.pos][n] {
      var k := Find(t, n);
      ViewAt(t, k);
      if k < |s| { ViewAt(s, k); }
    }
  }

  lemma ViewUpdate(s: seq<TuioCursor>, k: nat, c: TuioCursor)
    requires DistinctSessions(s) && k < |s| && c.session == s[k].session
    ensures DistinctSessions(s[k := c]) && SessionSet(s[k := c]) == SessionSet(s)
    ensures View(s[k := c]) == View(s)[c.session := c.pos]
  {
    hide View;
    hide Find;
    var t := s[k := c];
    UpdateSessions(s, k, c);
    forall i | 0 <= i < |s| ensures t[i].session == s[i].session {
    }
    assert s[k].session in SessionSet(s);
    forall n | n in SessionSet(t) ensures View(t)[n] == View(s)[c.session := c.pos][n] {
      var j := Find(t, n);
      ViewAt(t, j);
      ViewAt(s, j);
    }
  }

  lemma ViewWithout(s: seq<TuioCursor>, k: nat)
    requires DistinctSessions(s) && k < |s|
    ensures DistinctSessions(Without(s, k))
    ensures View(Without(s, k)) == View(s) - {s[k].session}
  {
    hide View;
    hide Find;
    var t := Without(s, k);
    WithoutSessions(s, k);
    forall n | n in SessionSet(t) ensures View(t)[n] == View(s)[n] {
      var j := Find(t, n);
      ViewAt(t, j);
      ViewAt(s, if j < k then j else j + 1);
    }
  }
}
