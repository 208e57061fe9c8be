/** Whole runs of a TUIO server and a client that receives all it sends: a specification of what
    the server has and what the client shows, the two programs against it, and when they agree. */
module TuioRuns {
  import opened Basics
  import opened OscEncoding
  import opened OscStream
  import opened TuioClients
  import opened TuioConvergence
  import opened TuioCursors
  import opened TuioPackets
  import opened TuioServers

  // ---------------------------------------------------------------- the specification

  /** Where a session is, and the time of the frame in which it was last touched. */
  datatype Spot = Spot(pos: Position, time: Time)

  type Spots = map<int, Spot>

  /** The server as its user sees it: the sessions that are present, the last session number, the
      frame time, whether anything has changed since the last frame went out, and the second in
      which the last overdue frame did. */
  datatype World = World(spots: Spots, lastSession: int, frameTime: Time, changed: bool, lastUpdate: int)

  datatype Setup = Setup(full: bool, periodic: bool, capacity: nat)

  datatype Op = AddOp(at: Position) | UpdateOp(session: int, at: Position) | RemoveOp(session: int)

  /** Adding takes a fresh session; updating leaves alone what this frame has touched. */
  function AfterOp(w: World, op: Op): World {
    match op
    case AddOp(at) =>
      var n := w.lastSession + 1;
      w.(spots := w.spots[n := Spot(at, w.frameTime)], lastSession := n, changed := true)
    case UpdateOp(n, at) =>
      if n in w.spots && w.spots[n].time != w.frameTime
      then w.(spots := w.spots[n := Spot(at, w.frameTime)], changed := true) else w
    case RemoveOp(n) => if n in w.spots then w.(spots := w.spots - {n}, changed := true) else w
  }

  /** Does a frame with changes set this session? */
  predicate Sets(w: World, full: bool, n: int) {
    n in w.spots && (full || w.spots[n].time == w.frameTime)
  }

  /** A frame without changes goes out once a second. */
  predicate IsOverdue(w: World, setup: Setup) {
    !w.changed && !setup.periodic && w.lastUpdate < w.frameTime.seconds
  }

  /** The alive message with the bundle header, and a set and an fseq message or the fseq message
      alone, must fit a packet. */
  predicate Commits(w: World, setup: Setup) {
    var alive := 40 + RoundUp4(|w.spots| + 3) + 4 * |w.spots|;
    if w.changed then
      alive + (if exists n | n in w.spots :: Sets(w, setup.full, n) then CUR_MESSAGE_SIZE else 32) <= setup.capacity
    else IsOverdue(w, setup) ==> alive + 32 <= setup.capacity
  }

  function Committed(w: World, setup: Setup): World {
    w.(changed := false, lastUpdate := if IsOverdue(w, setup) then w.frameTime.seconds else w.lastUpdate)
  }

  /** What the client shows after a frame: who is set is where it is, who is not alive is gone,
      and everything else is as it was shown before. */
  function Refreshed(w: World, v: Presence, setup: Setup): Presence {
    if w.changed then
      map n | n in w.spots && (Sets(w, setup.full, n) || n in v) ::
        if Sets(w, setup.full, n) then w.spots[n].pos else v[n]
    else if IsOverdue(w, setup) then map n | n in v && n in w.spots :: v[n]
    else v
  }

  /** The server, and what the client shows. */
  datatype Joint = Joint(world: World, shown: Presence)

  datatype Call = Change(op: Op) | InitFrame(time: Time) | CommitFrame

  /** A commit that does not fit throws. */
  function Next(j: Joint, call: Call, setup: Setup): Option<Joint> {
    match call
    case Change(op) => Some(j.(world := AfterOp(j.world, op)))
    case InitFrame(time) => Some(j.(world := j.world.(frameTime := time)))
    case CommitFrame =>
      if Commits(j.world, setup) then Some(Joint(Committed(j.world, setup), Refreshed(j.world, j.shown, setup)))
      else None
  }

  /** A run, until a call throws. */
  function Play(j: Joint, calls: seq<Call>, setup: Setup): Option<Joint>
    decreases |calls|
  {
    if calls == [] then Some(j)
    else
      match Next(j, calls[0], setup)
      case None => None
      case Some(k) => Play(k, calls[1..], setup)
  }

  // ---------------------------------------------------------------- the server and the specification

  function SpotOf(c: TuioCursor): Spot {
    Spot(c.pos, c.time)
  }

  function SpotsOf(s: seq<TuioCursor>): (spots: Spots)
    ensures spots.Keys == SessionSet(s)
  {
    map n | n in SessionSet(s) :: SpotOf(s[Find(s, n)])
  }

  function Places(spots: Spots): Presence {
    map n | n in spots :: spots[n].pos
  }

  lemma PlacesOfSpots(s: seq<TuioCursor>)
    ensures Places(SpotsOf(s)) == View(s)
  {
  }

  lemma SpotAt(s: seq<TuioCursor>, k: nat)
    requires DistinctSessions(s) && k < |s|
    ensures s[k].session in SpotsOf(s) && SpotsOf(s)[s[k].session] == SpotOf(s[k])
  {
    FindAt(s, k);
  }

  lemma SpotsAppend(s: seq<TuioCursor>, c: TuioCursor)
    requires DistinctSessions(s) && c.session !in SessionSet(s)
    ensures SpotsOf(s + [c]) == SpotsOf(s)[c.session := SpotOf(c)]
  {
    ViewAppend(s, c);
    AppendSessions(s, c);
    hide SpotsOf, Find, View;
    var t := s + [c];
    forall n | n in SessionSet(t) ensures SpotsOf(t)[n] == SpotsOf(s)[c.session := SpotOf(c)][n] {
      var k := Find(t, n);
      SpotAt(t, k);
      if k < |s| {
        SpotAt(s, k);
        assert s[k].session in SessionSet(s);
      }
    }
  }

  lemma SpotUpdateAt(s: seq<TuioCursor>, k: nat, c: TuioCursor, n: int)
    requires DistinctSessions(s) && k < |s| && c.session == s[k].session && n in SessionSet(s)
    ensures n in SpotsOf(s[k := c]) && SpotsOf(s[k := c])[n] == SpotsOf(s)[c.session := SpotOf(c)][n]
  {
    ViewUpdate(s, k, c);
    hide SpotsOf, Find, View;
    var t := s[k := c];
    var j := Find(t, n);
    SpotAt(t, j);
    SpotAt(s, j);
  }

  lemma SpotsUpdate(s: seq<TuioCursor>, k: nat, c: TuioCursor)
    requires DistinctSessions(s) && k < |s| && c.session == s[k].session
    ensures SpotsOf(s[k := c]) == SpotsOf(s)[c.session := SpotOf(c)]
  {
    UpdateSessions(s, k, c);
    assert s[k].session in SessionSet(s);
    forall n | n in SessionSet(s) ensures SpotsOf(s[k := c])[n] == SpotsOf(s)[c.session := SpotOf(c)][n] {
      SpotUpdateAt(s, k, c, n);
    }
  }

  lemma SpotsWithout(s: seq<TuioCursor>, k: nat)
    requires DistinctSessions(s) && k < |s|
    ensures SpotsOf(Without(s, k)) == SpotsOf(s) - {s[k].session}
  {
    ViewWithout(s, k);
    WithoutSessions(s, k);
    hide SpotsOf, Find, View;
    var t := Without(s, k);
    forall n | n in SessionSet(t) ensures SpotsOf(t)[n] == SpotsOf(s)[n] {
      var j := Find(t, n);
      SpotAt(t, j);
      SpotAt(s, if j < k then j else j + 1);
    }
  }

  ghost function WorldOf(server: TuioServer): World
    reads server
  {
    World(SpotsOf(server.cursorList), server.sessionID, server.currentFrameTime, server.updateCursor,
          server.lastCursorUpdate)
  }

  ghost function SetupOf(server: TuioServer): Setup {
    Setup(server.fullUpdate, server.periodicUpdate, server.oscPacket.Capacity())
  }

  lemma FreshSession(server: TuioServer)
    requires server.Valid()
    ensures forall n | n in SessionSet(server.cursorList) :: n <= server.sessionID
    ensures DistinctSessions(server.cursorList)
  {
  }

  lemma MovableSpots(server: TuioServer, session: int)
    requires server.Valid()
    ensures
      var spots := SpotsOf(server.cursorList);
      server.Movable(session) <==> session in spots && spots[session].time != server.currentFrameTime
  {
  }

  /** The server does what the specification says. */
  method Perform(server: TuioServer, op: Op)
    requires server.Valid() && (op.AddOp? ==> server.sessionID < 0x7FFF_FFFF)
    modifies server`cursorList, server`freeCursorList, server`maxCursorID, server`sessionID, server`updateCursor,
             server`peak
    ensures server.Valid()
    ensures WorldOf(server) == AfterOp(old(WorldOf(server)), op)
  {
    hide SpotsOf, View, PoolOk, DistinctSessions, TuioServer.Valid, TuioServer.Movable;
    FreshSession(server);
    ghost var cursors := server.cursorList;
    match op
    case AddOp(at) =>
      var c := server.AddTuioCursor(at);
      SpotsAppend(cursors, c);
    case UpdateOp(session, at) =>
      MovableSpots(server, session);
      if server.Movable(session) {
        var k := Find(cursors, session);
        SpotsUpdate(cursors, k, server.Moved(cursors[k], at));
      }
      server.UpdateTuioCursor(session, at);
    case RemoveOp(session) =>
      if session in SessionSet(cursors) {
        SpotsWithout(cursors, Find(cursors, session));
      }
      server.RemoveTuioCursor(session);
  }

  // ---------------------------------------------------------------- frames and the specification

  lemma {:induction false} NothingTouched(cursors: seq<TuioCursor>, t: Time, full: bool)
    ensures TouchedItems(Entries(cursors, t, full)) == [] <==> forall c | c in cursors :: !Touched(c, t, full)
    decreases |cursors|
  {
    if cursors != [] {
      var init, last := cursors[..|cursors| - 1], cursors[|cursors| - 1];
      var es := Entries(cursors, t, full);
      assert cursors == init + [last];
      assert es[..|init|] == Entries(init, t, full) && es[|init|] == Entry(CursorItem(last), Touched(last, t, full));
      NothingTouched(init, t, full);
    } else {
      assert Entries(cursors, t, full) == [];
    }
  }

  /** A cursor of the list is touched exactly if the specification sets some session. */
  lemma TouchedIffSets(cursors: seq<TuioCursor>, w: World, full: bool)
    requires DistinctSessions(cursors) && w.spots == SpotsOf(cursors)
    ensures (exists c | c in cursors :: Touched(c, w.frameTime, full)) <==> exists n | n in w.spots :: Sets(w, full, n)
  {
    hide SpotsOf, Find;
    if c :| c in cursors && Touched(c, w.frameTime, full) {
      var k :| 0 <= k < |cursors| && cursors[k] == c;
      SpotAt(cursors, k);
      assert Sets(w, full, c.session);
    }
    if n :| n in w.spots && Sets(w, full, n) {
      var k := Find(cursors, n);
      SpotAt(cursors, k);
      assert cursors[k] in cursors;
    }
  }

  lemma SpotCount(s: seq<TuioCursor>)
    requires DistinctSessions(s)
    ensures |SpotsOf(s)| == |s|
  {
    SessionCount(s);
    assert |SpotsOf(s).Keys| == |SpotsOf(s)|;
  }

  lemma NoSets()
    ensures TouchedItems([]) == []
  {
  }

  lemma NothingToSet(cursors: seq<TuioCursor>, w: World, full: bool)
    requires DistinctSessions(cursors) && w.spots == SpotsOf(cursors)
    ensures TouchedItems(Entries(cursors, w.frameTime, full)) != [] <==> exists n | n in w.spots :: Sets(w, full, n)
  {
    hide SpotsOf, TouchedItems, Entries, Sets, Touched, DistinctSessions;
    NothingTouched(cursors, w.frameTime, full);
    TouchedIffSets(cursors, w, full);
  }

  lemma RoomIff(cursors: seq<TuioCursor>, w: World, setup: Setup)
    requires DistinctSessions(cursors) && w.spots == SpotsOf(cursors) && w.changed
    ensures
      var sets := TouchedItems(Entries(cursors, w.frameTime, setup.full));
      FrameFits(CURSOR_2D, AliveList(cursors), sets, CUR_MESSAGE_SIZE, setup.capacity) <==> Commits(w, setup)
  {
    hide FrameFits, SpotsOf, TouchedItems, Entries, RoundUp4, Sets, Touched, DistinctSessions, AliveList;
    SpotCount(cursors);
    NothingToSet(cursors, w, setup.full);
    RoomForCursors(AliveList(cursors), TouchedItems(Entries(cursors, w.frameTime, setup.full)), CUR_MESSAGE_SIZE,
                   setup.capacity);
  }

  /** When the specification lets a commit through. */
  lemma CommitsIff(server: TuioServer)
    requires server.Valid()
    ensures server.CanCommit() <==> Commits(WorldOf(server), SetupOf(server))
  {
    FreshSession(server);
    hide TuioServer.Valid, FrameFits, SpotsOf, TouchedItems, Entries, RoundUp4, Sets, Touched, DistinctSessions,
      AliveList;
    var cursors, w, setup := server.cursorList, WorldOf(server), SetupOf(server);
    SpotCount(cursors);
    if server.updateCursor {
      RoomIff(cursors, w, setup);
    } else {
      NoSets();
      RoomForCursors(server.Alive(), [], CUR_MESSAGE_SIZE, setup.capacity);
    }
  }

  lemma SetsOne(cursors: seq<TuioCursor>, w: World, full: bool, n: int)
    requires DistinctSessions(cursors) && w.spots == SpotsOf(cursors)
    ensures CursorItems(TouchedItems(Entries(cursors, w.frameTime, full)))
    ensures
      var m := SetMap(TouchedItems(Entries(cursors, w.frameTime, full)));
      && (n in m <==> Sets(w, full, n)) && (n in m ==> m[n] == w.spots[n].pos)
      && (n in AliveList(cursors) <==> n in w.spots)
  {
    SetsSayWhere(cursors, w.frameTime, full, n);
    AliveSessions(cursors, n);
  }

  lemma SetsPresent(w: World, full: bool, n: int)
    ensures Sets(w, full, n) ==> n in w.spots
  {
  }

  /** What merging the sets of a frame does is what the specification says. */
  lemma MergeRefreshes(cursors: seq<TuioCursor>, w: World, v: Presence, setup: Setup)
    requires DistinctSessions(cursors) && w.spots == SpotsOf(cursors) && w.changed
    ensures CursorItems(TouchedItems(Entries(cursors, w.frameTime, setup.full)))
    ensures Merge(v, AliveList(cursors), TouchedItems(Entries(cursors, w.frameTime, setup.full))) ==
            Refreshed(w, v, setup)
  {
    CursorItemsOfCursors(cursors, w.frameTime, setup.full);
    var alive, sets := AliveList(cursors), TouchedItems(Entries(cursors, w.frameTime, setup.full));
    hide SpotsOf, SetMap, TouchedItems, Entries, AliveList, DistinctSessions, CursorItems, Sets;
    forall n ensures n in Merge(v, alive, sets) <==> n in Refreshed(w, v, setup) {
      SetsOne(cursors, w, setup.full, n);
      SetsPresent(w, setup.full, n);
    }
    forall n | n in Refreshed(w, v, setup) ensures Merge(v, alive, sets)[n] == Refreshed(w, v, setup)[n] {
      SetsOne(cursors, w, setup.full, n);
      SetsPresent(w, setup.full, n);
    }
  }

  /** Merging a frame that sets nothing. */
  lemma MergeEmpty(cursors: seq<TuioCursor>, w: World, v: Presence, setup: Setup)
    requires w.spots == SpotsOf(cursors) && IsOverdue(w, setup)
    ensures Merge(v, AliveList(cursors), []) == Refreshed(w, v, setup)
  {
    hide SpotsOf, AliveList;
    forall n ensures n in AliveList(cursors) <==> n in w.spots {
      AliveSessions(cursors, n);
    }
    assert SetMap([]) == map[];
  }

  /** All the packets of a committed frame have arrived. */
  lemma DeliveredRefreshes(cursors: seq<TuioCursor>, w: World, v: Presence, setup: Setup, groups: seq<seq<Item>>,
                           u: Presence)
    requires DistinctSessions(cursors) && w.spots == SpotsOf(cursors)
    requires Flatten(groups) ==
             if w.changed then TouchedItems(Entries(cursors, w.frameTime, setup.full)) else TouchedItems([])
    requires groups != [] <==> w.changed || IsOverdue(w, setup)
    requires ViewAfter(v, AliveList(cursors), groups, |groups|, u)
    ensures u == Refreshed(w, v, setup)
  {
    assert groups[..|groups|] == groups && TouchedItems([]) == [];
    hide SpotsOf, Merge, Entries, AliveList, DistinctSessions, TouchedItems, Flatten, Sets;
    if w.changed {
      MergeRefreshes(cursors, w, v, setup);
    } else if IsOverdue(w, setup) {
      MergeEmpty(cursors, w, v, setup);
    }
  }

  method DeliverCommitted(client: TuioClient, packets: seq<Bytes>, now: Time, ghost cursors: seq<TuioCursor>,
                          ghost w: World, ghost setup: Setup, ghost groups: seq<seq<Item>>, ghost fseq: I32)
    requires client.Valid() && client.frameCursors == [] && client.currentFrame <= fseq
    requires DistinctSessions(cursors) && w.spots == SpotsOf(cursors)
    requires Flatten(groups) ==
             if w.changed then TouchedItems(Entries(cursors, w.frameTime, setup.full)) else TouchedItems([])
    requires groups != [] <==> w.changed || IsOverdue(w, setup)
    requires packets == FramePackets(CURSOR_2D, AliveList(cursors), groups, fseq) && PacketsFit(packets, 0xFFFF_FFFF)
    modifies client
    ensures client.Valid() && client.frameCursors == [] && client.currentFrame <= fseq
    ensures View(client.cursorList) == Refreshed(w, old(View(client.cursorList)), setup)
  {
    hide View, SpotsOf, TuioClient.Valid, TouchedItems, Entries, FramePackets, PacketsFit, Flatten, AliveList,
      DistinctSessions, WellFormed, ViewAfter, Refreshed;
    ghost var v := View(client.cursorList);
    forall k | 0 <= k < |groups| ensures WellFormed(Frame(AliveList(cursors), groups[k], fseq)) {
      GroupsOfCommit(cursors, w.frameTime, setup.full, w.changed, groups, k, fseq);
    }
    DeliverFrame(client, packets, now, AliveList(cursors), groups, fseq);
    DeliveredRefreshes(cursors, w, v, setup, groups, View(client.cursorList));
  }

  /** commitFrame, in terms of the specification. */
  method Commit(server: TuioServer) returns (ok: bool, ghost groups: seq<seq<Item>>)
    requires server.Valid()
    modifies server`updateCursor, server`lastCursorUpdate, server`sent, server.oscPacket, server.oscPacket.data
    ensures server.Valid()
    ensures ok <==> Commits(old(WorldOf(server)), SetupOf(server))
    ensures ok ==> WorldOf(server) == Committed(old(WorldOf(server)), SetupOf(server))
    ensures server.sent == old(server.sent) +
            FramePackets(CURSOR_2D, AliveList(server.cursorList), groups, server.currentFrame)
    ensures PacketsFit(FramePackets(CURSOR_2D, AliveList(server.cursorList), groups, server.currentFrame), 0xFFFF_FFFF)
    ensures
      var w := old(WorldOf(server));
      ok ==>
        && (groups != [] <==> w.changed || IsOverdue(w, SetupOf(server)))
        && Flatten(groups)
             == if w.changed then TouchedItems(Entries(server.cursorList, w.frameTime, server.fullUpdate))
                else TouchedItems([])
  {
    ServerFacts(server);
    CommitsIff(server);
    hide SpotsOf, TuioServer.Valid, TouchedItems, Entries, FramePackets, PacketsFit, Flatten, AliveList, FullGroups,
      DistinctSessions, TuioServer.CanCommit, Commits;
    ok, groups := server.CommitFrame();
    SmallPackets(FramePackets(CURSOR_2D, AliveList(server.cursorList), groups, server.currentFrame),
                 server.oscPacket.Capacity());
  }

  /** commitFrame, and the client receives all its packets in order. */
  method CommitAndDeliver(server: TuioServer, client: TuioClient, now: Time) returns (ok: bool)
    requires server.Valid() && client.Valid() && client.frameCursors == []
    requires client.currentFrame <= server.currentFrame
    modifies server`updateCursor, server`lastCursorUpdate, server`sent, server.oscPacket, server.oscPacket.data, client
    ensures server.Valid() && client.Valid()
    ensures ok <==> Commits(old(WorldOf(server)), SetupOf(server))
    ensures ok ==> WorldOf(server) == Committed(old(WorldOf(server)), SetupOf(server))
    ensures ok ==>
              View(client.cursorList) == Refreshed(old(WorldOf(server)), old(View(client.cursorList)), SetupOf(server))
    ensures ok ==> client.frameCursors == [] && client.currentFrame <= server.currentFrame
  {
    FreshSession(server);
    hide View, SpotsOf, TuioClient.Valid, TuioServer.Valid, TouchedItems, Entries, FramePackets, PacketsFit, Flatten,
      AliveList, DistinctSessions, Commits, Committed, Refreshed;
    ghost var w := WorldOf(server);
    var n := |server.sent|;
    ghost var groups;
    ok, groups := Commit(server);
    if ok {
      DeliverCommitted(client, server.sent[n..], now, server.cursorList, w, SetupOf(server), groups,
                       server.currentFrame);
    }
  }

  // ---------------------------------------------------------------- runs of the two programs

  ghost function JointOf(server: TuioServer, client: TuioClient): Joint
    reads server, client
  {
    Joint(WorldOf(server), View(client.cursorList))
  }

  /** Both at rest between two calls, nothing lost. */
  ghost predicate Linked(server: TuioServer, client: TuioClient)
    reads server, server.oscPacket, server.oscPacket.data, client
  {
    server.Valid() && client.Valid() && client.frameCursors == [] && client.currentFrame <= server.currentFrame
  }

  function FrameCount(calls: seq<Call>): nat {
    if calls == [] then 0 else (if calls[0].InitFrame? then 1 else 0) + FrameCount(calls[1..])
  }

  function AddCount(calls: seq<Call>): nat {
    if calls == [] then 0
    else (if calls[0].Change? && calls[0].op.AddOp? then 1 else 0) + AddCount(calls[1..])
  }

  method PlayOne(server: TuioServer, client: TuioClient, call: Call, now: Time) returns (ok: bool)
    requires Linked(server, client)
    requires call.InitFrame? ==> server.currentFrame < 0x7FFF_FFFF
    requires call.Change? && call.op.AddOp? ==> server.sessionID < 0x7FFF_FFFF
    modifies server, server.oscPacket, server.oscPacket.data, client
    ensures server.Valid() && client.Valid() && (ok ==> Linked(server, client))
    ensures ok <==> Next(old(JointOf(server, client)), call, SetupOf(server)).Some?
    ensures ok ==> Some(JointOf(server, client)) == Next(old(JointOf(server, client)), call, SetupOf(server))
    ensures server.currentFrame == old(server.currentFrame) + if call.InitFrame? then 1 else 0
    ensures server.sessionID == old(server.sessionID) + if call.Change? && call.op.AddOp? then 1 else 0
  {
    hide View, SpotsOf, TuioServer.Valid, TuioClient.Valid, Commits, Committed, Refreshed;
    ok := true;
    match call
    case Change(op) => Perform(server, op);
    case InitFrame(time) => server.InitFrame(time);
    case CommitFrame => ok := CommitAndDeliver(server, client, now);
  }

  /** `trace` is what the specification says after each of the calls that have gone through. */
  ghost predicate Traces(trace: seq<Joint>, j: Joint, calls: seq<Call>, setup: Setup) {
    |trace| <= |calls| && forall k: nat | k < |trace| :: Play(j, calls[..k + 1], setup) == Some(trace[k])
  }

  /** The joint state after the calls of a trace. */
  function Latest(trace: seq<Joint>, j: Joint): Joint {
    if trace == [] then j else trace[|trace| - 1]
  }

  lemma {:induction false} PlayConcat(j: Joint, xs: seq<Call>, ys: seq<Call>, setup: Setup)
    ensures Play(j, xs + ys, setup)
         == (match Play(j, xs, setup) case None => None case Some(k) => Play(k, ys, setup))
    decreases |xs|
  {
    if xs == [] {
      assert xs + ys == ys;
    } else {
      assert (xs + ys)[1..] == xs[1..] + ys;
      match Next(j, xs[0], setup)
      case None =>
      case Some(k) => PlayConcat(k, xs[1..], ys, setup);
    }
  }

  lemma PlaySingle(j: Joint, call: Call, setup: Setup)
    ensures Play(j, [call], setup) == Next(j, call, setup)
  {
    assert [call][1..] == [];
  }

  lemma TraceGrows(trace: seq<Joint>, j: Joint, calls: seq<Call>, setup: Setup)
    requires Traces(trace, j, calls, setup) && |trace| < |calls|
    ensures
      var next := Next(Latest(trace, j), calls[|trace|], setup);
      && Play(j, calls[..|trace| + 1], setup) == next
      && (next.Some? ==> Traces(trace + [next.value], j, calls, setup))
      && (next.None? ==> Play(j, calls, setup) == None)
  {
    hide Next;
    var n, call := |trace|, calls[|trace|];
    assert calls[..n + 1] == calls[..n] + [call];
    assert n > 0 ==> calls[..n] == calls[..(n - 1) + 1];
    PlayConcat(j, calls[..n], [call], setup);
    PlaySingle(Latest(trace, j), call, setup);
    assert calls == calls[..n + 1] + calls[n + 1..];
    PlayConcat(j, calls[..n + 1], calls[n + 1..], setup);
  }

  lemma NoTrace(j: Joint, calls: seq<Call>, setup: Setup)
    ensures Traces([], j, calls, setup)
  {
  }

  lemma TraceEnds(trace: seq<Joint>, j: Joint, calls: seq<Call>, setup: Setup)
    requires Traces(trace, j, calls, setup) && |trace| == |calls|
    ensures Play(j, calls, setup) == Some(Latest(trace, j))
  {
    if calls != [] {
      assert calls[..(|calls| - 1) + 1] == calls;
    }
  }

  lemma LinkedValid(server: TuioServer, client: TuioClient)
    requires Linked(server, client)
    ensures server.Valid() && client.Valid()
  {
  }

  /** The two programs, for any calls: they go through exactly if every commit fits, and after
      each call the server has and the client shows what the specification says. */
  method PlayRun(server: TuioServer, client: TuioClient, calls: seq<Call>, now: Time)
    returns (ok: bool, ghost trace: seq<Joint>)
    requires Linked(server, client)
    requires server.currentFrame + FrameCount(calls) <= 0x7FFF_FFFF && server.sessionID + AddCount(calls) <= 0x7FFF_FFFF
    modifies server, server.oscPacket, server.oscPacket.data, client
    ensures server.Valid() && client.Valid() && (ok ==> Linked(server, client))
    ensures ok <==> Play(old(JointOf(server, client)), calls, SetupOf(server)).Some?
    ensures ok ==> Some(JointOf(server, client)) == Play(old(JointOf(server, client)), calls, SetupOf(server))
    ensures ok <==> |trace| == |calls|
    ensures Traces(trace, old(JointOf(server, client)), calls, SetupOf(server))
  {
    hide Linked, JointOf, Next, Play, Traces, TuioServer.Valid, TuioClient.Valid;
    LinkedValid(server, client);
    ghost var j, setup := JointOf(server, client), SetupOf(server);
    trace := [];
    NoTrace(j, calls, setup);
    for i := 0 to |calls|
      invariant Linked(server, client) && server.Valid() && client.Valid()
      invariant server.currentFrame + FrameCount(calls[i..]) <= 0x7FFF_FFFF
      invariant server.sessionID + AddCount(calls[i..]) <= 0x7FFF_FFFF
      invariant |trace| == i && Traces(trace, j, calls, setup) && JointOf(server, client) == Latest(trace, j)
    {
      assert calls[i..][1..] == calls[i + 1..];
      TraceGrows(trace, j, calls, setup);
      ok := PlayOne(server, client, calls[i], now);
      if !ok {
        return;
      }
      trace := trace + [JointOf(server, client)];
    }
    TraceEnds(trace, j, calls, setup);
    ok := true;
  }

  // ---------------------------------------------------------------- when the two agree

  /** Between frames, with nothing left to send. */
  predicate Agreed(j: Joint) {
    j.shown == Places(j.world.spots) && !j.world.changed
  }

  /** The client already shows a session where it is. */
  predicate ShownRight(w: World, v: Presence, n: int)
    requires n in w.spots
  {
    n in v && v[n] == w.spots[n].pos
  }

  /** Exactly when a frame that is committed and delivered makes the client show what the server
      has: whatever it does not set must already be shown correctly, and if nothing goes out there
      must be nothing to take away. */
  lemma CommitAgreesIff(w: World, v: Presence, setup: Setup)
    ensures Refreshed(w, v, setup) == Places(w.spots)
       <==> && (forall n | n in w.spots :: (w.changed && Sets(w, setup.full, n)) || ShownRight(w, v, n))
            && (w.changed || IsOverdue(w, setup) || forall n | n in v :: n in w.spots)
  {
    var shown, places := Refreshed(w, v, setup), Places(w.spots);
    if shown == places {
      forall n | n in w.spots ensures (w.changed && Sets(w, setup.full, n)) || ShownRight(w, v, n) {
        assert n in places && shown[n] == w.spots[n].pos;
      }
      forall n | n in v && !w.changed && !IsOverdue(w, setup) ensures n in w.spots {
        assert n in shown;
      }
    } else if (forall n | n in w.spots :: (w.changed && Sets(w, setup.full, n)) || ShownRight(w, v, n))
              && (w.changed || IsOverdue(w, setup) || forall n | n in v :: n in w.spots) {
      assert forall n :: n in shown <==> n in places;
      assert forall n | n in places :: shown[n] == places[n];
      assert false;
    }
  }

  /** During a frame: what is not shown correctly will be set. */
  predicate Follows(j: Joint, full: bool) {
    && (forall n | n in j.world.spots :: Sets(j.world, full, n) || ShownRight(j.world, j.shown, n))
    && (!j.world.changed ==> j.shown == Places(j.world.spots))
  }

  lemma FrameBegins(j: Joint, time: Time, setup: Setup)
    requires Agreed(j)
    ensures Follows(j.(world := j.world.(frameTime := time)), setup.full)
  {
  }

  lemma ChangeFollows(j: Joint, op: Op, setup: Setup)
    requires Follows(j, setup.full)
    ensures Follows(j.(world := AfterOp(j.world, op)), setup.full)
  {
  }

  lemma FrameEnds(j: Joint, setup: Setup)
    requires Follows(j, setup.full)
    ensures Agreed(Joint(Committed(j.world, setup), Refreshed(j.world, j.shown, setup)))
  {
    CommitAgreesIff(j.world, j.shown, setup);
    assert forall n | n in j.world.spots && !j.world.changed :: ShownRight(j.world, j.shown, n);
  }

  /** A frame as an app makes it: initFrame, any changes, commitFrame. */
  datatype Script = Script(time: Time, ops: seq<Op>)

  function Changes(ops: seq<Op>): seq<Call> {
    if ops == [] then [] else Changes(ops[..|ops| - 1]) + [Change(ops[|ops| - 1])]
  }

  function CallsOf(frames: seq<Script>): seq<Call> {
    if frames == [] then []
    else
      var f := frames[|frames| - 1];
      CallsOf(frames[..|frames| - 1]) + ([InitFrame(f.time)] + (Changes(f.ops) + [CommitFrame]))
  }

  lemma {:induction false} ChangesFollow(j: Joint, ops: seq<Op>, setup: Setup)
    requires Follows(j, setup.full)
    ensures Play(j, Changes(ops), setup).Some? && Follows(Play(j, Changes(ops), setup).value, setup.full)
    decreases |ops|
  {
    if ops == [] {
    } else {
      var init, op := ops[..|ops| - 1], ops[|ops| - 1];
      hide Follows, Play;
      ChangesFollow(j, init, setup);
      PlayConcat(j, Changes(init), [Change(op)], setup);
      PlaySingle(Play(j, Changes(init), setup).value, Change(op), setup);
      ChangeFollows(Play(j, Changes(init), setup).value, op, setup);
    }
  }

  /** One frame: it goes through exactly if it fits, and then the two agree again. */
  lemma FrameAgrees(j: Joint, f: Script, setup: Setup)
    requires Agreed(j)
    ensures
      var r := Play(j, [InitFrame(f.time)] + (Changes(f.ops) + [CommitFrame]), setup);
      r.Some? ==> Agreed(r.value)
  {
    hide Agreed, Follows, Play, Committed, Refreshed, Commits;
    var start := j.(world := j.world.(frameTime := f.time));
    FrameBegins(j, f.time, setup);
    ChangesFollow(start, f.ops, setup);
    var end := Play(start, Changes(f.ops), setup).value;
    PlayConcat(j, [InitFrame(f.time)], Changes(f.ops) + [CommitFrame], setup);
    PlaySingle(j, InitFrame(f.time), setup);
    PlayConcat(start, Changes(f.ops), [CommitFrame], setup);
    PlaySingle(end, CommitFrame, setup);
    FrameEnds(end, setup);
  }

  /** Convergence: after every frame of any run in which changes are made inside of frames, the
      client shows exactly what the server has. */
  lemma {:induction false} FramesAgree(j: Joint, frames: seq<Script>, setup: Setup)
    requires Agreed(j) && Play(j, CallsOf(frames), setup).Some?
    ensures Agreed(Play(j, CallsOf(frames), setup).value)
    decreases |frames|
  {
    if frames == [] {
    } else {
      var init, f := frames[..|frames| - 1], frames[|frames| - 1];
      PlayConcat(j, CallsOf(init), [InitFrame(f.time)] + (Changes(f.ops) + [CommitFrame]), setup);
      hide Agreed, Play;
      FramesAgree(j, init, setup);
      FrameAgrees(Play(j, CallsOf(init), setup).value, f, setup);
    }
  }

  lemma {:induction false} CallsPrefix(frames: seq<Script>, m: nat)
    requires m <= |frames|
    ensures CallsOf(frames[..m]) <= CallsOf(frames) && (m > 0 ==> CallsOf(frames[..m]) != [])
    decreases |frames|
  {
    if m == |frames| {
      assert frames[..m] == frames;
    } else {
      CallsPrefix(frames[..|frames| - 1], m);
      assert frames[..|frames| - 1][..m] == frames[..m];
    }
  }

  /** After every frame of a traced run the two agree. */
  ghost predicate AgreedAfterFrames(trace: seq<Joint>, frames: seq<Script>) {
    forall m: nat | 0 < m <= |frames| ::
      var n := |CallsOf(frames[..m])|;
      0 < n <= |trace| && Agreed(trace[n - 1])
  }

  lemma TraceAgrees(trace: seq<Joint>, j: Joint, frames: seq<Script>, setup: Setup)
    requires Agreed(j) && Traces(trace, j, CallsOf(frames), setup) && |trace| == |CallsOf(frames)|
    ensures AgreedAfterFrames(trace, frames)
  {
    hide Play, Agreed, CallsOf;
    forall m: nat | 0 < m <= |frames|
      ensures 0 < |CallsOf(frames[..m])| <= |trace| && Agreed(trace[|CallsOf(frames[..m])| - 1])
    {
      CallsPrefix(frames, m);
      var calls := CallsOf(frames[..m]);
      assert CallsOf(frames)[..(|calls| - 1) + 1] == calls;
      FramesAgree(j, frames[..m], setup);
    }
  }

  lemma AgreedViews(server: TuioServer, client: TuioClient)
    requires Agreed(JointOf(server, client))
    ensures View(client.cursorList) == View(server.cursorList)
  {
    PlacesOfSpots(server.cursorList);
  }

  /** Convergence of the two programs: if every commit of a run of frames fits, the client shows
      exactly the server's cursors after each of the frames. */
  method PlayFrames(server: TuioServer, client: TuioClient, frames: seq<Script>, now: Time)
    returns (ok: bool, ghost trace: seq<Joint>)
    requires Linked(server, client) && Agreed(JointOf(server, client))
    requires server.currentFrame + FrameCount(CallsOf(frames)) <= 0x7FFF_FFFF
    requires server.sessionID + AddCount(CallsOf(frames)) <= 0x7FFF_FFFF
    modifies server, server.oscPacket, server.oscPacket.data, client
    ensures server.Valid() && client.Valid() && (ok ==> Linked(server, client))
    ensures ok <==> Play(old(JointOf(server, client)), CallsOf(frames), SetupOf(server)).Some?
    ensures Traces(trace, old(JointOf(server, client)), CallsOf(frames), SetupOf(server))
    ensures ok ==> AgreedAfterFrames(trace, frames)
    ensures ok ==> View(client.cursorList) == View(server.cursorList)
  {
    hide Linked, Play, TuioServer.Valid, TuioClient.Valid, OutboundPacketStream.Valid, TuioClient.Consistent, Agreed,
      CallsOf, WorldOf, View, SpotsOf, Traces, AgreedAfterFrames;
    ghost var j := JointOf(server, client);
    ok, trace := PlayRun(server, client, CallsOf(frames), now);
    if ok {
      TraceAgrees(trace, j, frames, SetupOf(server));
      FramesAgree(j, frames, SetupOf(server));
      AgreedViews(server, client);
    }
  }

  // ---------------------------------------------------------------- changes anywhere

  predicate NoCommit(calls: seq<Call>) {
    forall call | call in calls :: call != CommitFrame
  }

  /** Until something is committed the client shows what it did, and unless something has changed
      the server has what it had. */
  lemma {:induction false} NoCommitKeeps(j: Joint, calls: seq<Call>, setup: Setup)
    requires NoCommit(calls)
    ensures
      var r := Play(j, calls, setup);
      && r.Some? && r.value.shown == j.shown
      && (!r.value.world.changed ==> !j.world.changed && r.value.world.spots == j.world.spots)
    decreases |calls|
  {
    if calls == [] {
    } else {
      assert calls[0] in calls;
      assert forall call | call in calls[1..] :: call in calls;
      NoCommitKeeps(Next(j, calls[0], setup).value, calls[1..], setup);
    }
  }

  /** Every session is set by this frame, or is where it was before. */
  predicate SetOrSame(before: Spots, w: World, full: bool) {
    forall n | n in w.spots :: Sets(w, full, n) || (n in before && before[n].pos == w.spots[n].pos)
  }

  /** Exactly when a frame makes the two agree, on the server's side alone and wherever its changes
      were made: every session must have been touched in the frame, or be where it was when the
      client last agreed. */
  lemma AgreesIff(j: Joint, calls: seq<Call>, setup: Setup)
    requires Agreed(j) && NoCommit(calls) && Play(j, calls + [CommitFrame], setup).Some?
    ensures
      var m := Play(j, calls + [CommitFrame], setup).value;
      m.shown == Places(m.world.spots) <==> SetOrSame(j.world.spots, m.world, setup.full)
  {
    hide Play, Commits, Refreshed;
    NoCommitKeeps(j, calls, setup);
    var k := Play(j, calls, setup).value;
    PlayConcat(j, calls, [CommitFrame], setup);
    PlaySingle(k, CommitFrame, setup);
    CommitAgreesIff(k.world, k.shown, setup);
  }

  /** The same on the two programs: after a frame with changes made anywhere since the last one. */
  method PlayToCommit(server: TuioServer, client: TuioClient, calls: seq<Call>, now: Time) returns (ok: bool)
    requires Linked(server, client) && Agreed(JointOf(server, client)) && NoCommit(calls)
    requires server.currentFrame + FrameCount(calls + [CommitFrame]) <= 0x7FFF_FFFF
    requires server.sessionID + AddCount(calls + [CommitFrame]) <= 0x7FFF_FFFF
    modifies server, server.oscPacket, server.oscPacket.data, client
    ensures server.Valid() && client.Valid() && (ok ==> Linked(server, client))
    ensures ok <==> Play(old(JointOf(server, client)), calls + [CommitFrame], SetupOf(server)).Some?
    ensures ok ==>
              (View(client.cursorList) == View(server.cursorList)
               <==> SetOrSame(old(SpotsOf(server.cursorList)), WorldOf(server), server.fullUpdate))
  {
    hide Linked, Play, TuioServer.Valid, TuioClient.Valid, OutboundPacketStream.Valid, TuioClient.Consistent, Agreed,
      NoCommit, View, SpotsOf, Traces, SetOrSame;
    ghost var j := JointOf(server, client);
    ghost var trace;
    ok, trace := PlayRun(server, client, calls + [CommitFrame], now);
    if ok {
      AgreesIff(j, calls, SetupOf(server));
      PlacesOfSpots(server.cursorList);
    }
  }

  // ---------------------------------------------------------------- changes between frames

  /** A cursor added between two frames. */
  function LateAdd(at: Position, time: Time): seq<Call> {
    [Change(AddOp(at))] + ([InitFrame(time)] + [CommitFrame])
  }

  lemma LateAddPlays(j: Joint, at: Position, time: Time, setup: Setup)
    ensures
      var w := AfterOp(j.world, AddOp(at)).(frameTime := time);
      Play(j, LateAdd(at, time), setup)
        == if Commits(w, setup) then Some(Joint(Committed(w, setup), Refreshed(w, j.shown, setup))) else None
  {
    hide Play, Commits, Committed, Refreshed, AfterOp;
    var added := j.(world := AfterOp(j.world, AddOp(at)));
    PlayConcat(j, [Change(AddOp(at))], [InitFrame(time)] + [CommitFrame], setup);
    PlaySingle(j, Change(AddOp(at)), setup);
    PlayConcat(added, [InitFrame(time)], [CommitFrame], setup);
    PlaySingle(added, InitFrame(time), setup);
    PlaySingle(added.(world := added.world.(frameTime := time)), CommitFrame, setup);
  }

  /** The next frame leaves it out, unless the frame has the same time as the one before or
      everything is always sent: the client then shows everything but the cursor that is there. */
  lemma LateAddMissing(j: Joint, at: Position, time: Time, setup: Setup)
    requires Agreed(j) && j.world.lastSession + 1 !in j.world.spots && Play(j, LateAdd(at, time), setup).Some?
    ensures
      var k, n := Play(j, LateAdd(at, time), setup).value, j.world.lastSession + 1;
      && n in k.world.spots && k.world.frameTime == time && k.world.spots[n] == Spot(at, j.world.frameTime)
      && k.shown == (if setup.full || time == j.world.frameTime then Places(k.world.spots)
                     else Places(k.world.spots) - {n})
  {
    LateAddPlays(j, at, time, setup);
  }

  /** A call that neither moves session `n` nor starts a frame at time `last`. */
  predicate Ignores(call: Call, n: int, last: Time) {
    match call
    case Change(op) => !(op.UpdateOp? && op.session == n)
    case InitFrame(time) => time != last
    case CommitFrame => true
  }

  /** The client does not show session `n`, which was last touched at `last`, or is gone. */
  predicate Missing(j: Joint, n: int, last: Time) {
    && n !in j.shown && n <= j.world.lastSession
    && (n in j.world.spots ==> j.world.spots[n].time == last && j.world.frameTime != last)
  }

  lemma MissingStep(j: Joint, call: Call, n: int, last: Time, setup: Setup)
    requires !setup.full && Missing(j, n, last) && Ignores(call, n, last) && j.world.frameTime != last
    requires Next(j, call, setup).Some?
    ensures Missing(Next(j, call, setup).value, n, last) && Next(j, call, setup).value.world.frameTime != last
  {
    hide Commits;
  }

  /** And goes on not showing it, whatever else happens, until it is moved. */
  lemma {:induction false} StaysMissing(j: Joint, calls: seq<Call>, n: int, last: Time, setup: Setup)
    requires !setup.full && Missing(j, n, last) && (forall call | call in calls :: Ignores(call, n, last))
    requires j.world.frameTime != last && Play(j, calls, setup).Some?
    ensures n !in Play(j, calls, setup).value.shown
    decreases |calls|
  {
    if calls == [] {
    } else {
      assert Ignores(calls[0], n, last);
      MissingStep(j, calls[0], n, last, setup);
      StaysMissing(Next(j, calls[0], setup).value, calls[1..], n, last, setup);
    }
  }

  /** Once it is moved in a frame of its own time, it appears. */
  lemma MovedAppears(j: Joint, n: int, at: Position, time: Time, setup: Setup)
    requires n in j.world.spots && j.world.spots[n].time != time
    requires Play(j, [InitFrame(time)] + ([Change(UpdateOp(n, at))] + [CommitFrame]), setup).Some?
    ensures
      var k := Play(j, [InitFrame(time)] + ([Change(UpdateOp(n, at))] + [CommitFrame]), setup).value;
      n in k.shown && k.shown[n] == at
  {
    hide Play, Commits;
    var start := j.(world := j.world.(frameTime := time));
    var moved := start.(world := AfterOp(start.world, UpdateOp(n, at)));
    PlayConcat(j, [InitFrame(time)], [Change(UpdateOp(n, at))] + [CommitFrame], setup);
    PlaySingle(j, InitFrame(time), setup);
    PlayConcat(start, [Change(UpdateOp(n, at))], [CommitFrame], setup);
    PlaySingle(start, Change(UpdateOp(n, at)), setup);
    PlaySingle(moved, CommitFrame, setup);
  }

  /** The client shows everything the server has but session `n`, which it will not be sent again
      unless it is moved. */
  predicate LacksOnly(j: Joint, n: int, last: Time) {
    n in j.world.spots && j.shown == Places(j.world.spots) - {n} && Missing(j, n, last)
  }

  lemma NextSession(server: TuioServer, client: TuioClient)
    requires Linked(server, client)
    ensures server.Valid()
    ensures
      var w := JointOf(server, client).world;
      && w.lastSession + 1 !in w.spots
      && w.lastSession == server.sessionID && w.frameTime == server.currentFrameTime
  {
    FreshSession(server);
  }

  lemma LateAddCounts(at: Position, time: Time)
    ensures FrameCount(LateAdd(at, time)) == 1 && AddCount(LateAdd(at, time)) == 1
  {
    var calls := LateAdd(at, time);
    assert calls[1..] == [InitFrame(time)] + [CommitFrame];
    assert FrameCount([CommitFrame]) == 0 && AddCount([CommitFrame]) == 0;
    assert ([InitFrame(time)] + [CommitFrame])[1..] == [CommitFrame];
    assert FrameCount([InitFrame(time)] + [CommitFrame]) == 1 && AddCount([InitFrame(time)] + [CommitFrame]) == 0;
  }

  lemma LateAddOutcome(j: Joint, at: Position, time: Time, setup: Setup)
    requires Agreed(j) && j.world.lastSession + 1 !in j.world.spots && Play(j, LateAdd(at, time), setup).Some?
    requires !setup.full && time != j.world.frameTime
    ensures LacksOnly(Play(j, LateAdd(at, time), setup).value, j.world.lastSession + 1, j.world.frameTime)
  {
    LateAddMissing(j, at, time, setup);
    LateAddPlays(j, at, time, setup);
  }

  /** The failing case on the two programs: after a frame, a cursor is added before the next
      initFrame.  When that frame has been delivered, the client lacks a cursor that is alive. */
  method AddBetweenFrames(server: TuioServer, client: TuioClient, at: Position, time: Time,
                          now: Time) returns (ok: bool)
    requires Linked(server, client) && Agreed(JointOf(server, client)) && !server.fullUpdate
    requires time != server.currentFrameTime && server.currentFrame < 0x7FFF_FFFF && server.sessionID < 0x7FFF_FFFF
    modifies server, server.oscPacket, server.oscPacket.data, client
    ensures server.Valid() && client.Valid() && (ok ==> Linked(server, client))
    ensures ok <==> Play(old(JointOf(server, client)), LateAdd(at, time), SetupOf(server)).Some?
    ensures ok ==> LacksOnly(JointOf(server, client), old(server.sessionID) + 1, old(server.currentFrameTime))
  {
    hide Linked, Play, TuioServer.Valid, TuioClient.Valid, OutboundPacketStream.Valid, TuioClient.Consistent, Agreed,
      LateAdd, LacksOnly, JointOf, WorldOf, View, SpotsOf, Places, Traces;
    ghost var j := JointOf(server, client);
    NextSession(server, client);
    LateAddCounts(at, time);
    ghost var trace;
    ok, trace := PlayRun(server, client, LateAdd(at, time), now);
    if ok {
      LateAddOutcome(j, at, time, SetupOf(server));
    }
  }
}
