/** TUIO's client: it rebuilds the server's cursors from alive, set and fseq messages and tells
    its listeners what happened (TuioClient.cpp). */
module TuioClients {
  import opened Basics
  import opened OscEncoding
  import opened TuioCursors
  import opened TuioPackets

  type Presence = map<int, Position>

  // ---------------------------------------------------------------- what listeners are told

  datatype Event =
    | Added(session: int, pos: Position)
    | Updated(session: int, pos: Position)
    | Removed(session: int)

  /** A listener that is told about a session must have heard of it in the right order. */
  function Hear(v: Presence, e: Event): Option<Presence> {
    match e
    case Added(n, p) => if n in v then None else Some(v[n := p])
    case Updated(n, p) => if n in v then Some(v[n := p]) else None
    case Removed(n) => if n in v then Some(v - {n}) else None
  }

  function Replay(v: Presence, es: seq<Event>): Option<Presence> {
    if es == [] then Some(v)
    else
      match Replay(v, es[..|es| - 1])
      case None => None
      case Some(w) => Hear(w, es[|es| - 1])
  }

  lemma ReplaySnoc(v: Presence, es: seq<Event>, e: Event)
    ensures Replay(v, es + [e]) == (match Replay(v, es) case None => None case Some(w) => Hear(w, e))
  {
    assert (es + [e])[..|es|] == es;
  }

  lemma {:induction false} ReplayConcat(v: Presence, xs: seq<Event>, ys: seq<Event>)
    ensures Replay(v, xs + ys) == (match Replay(v, xs) case None => None case Some(w) => Replay(w, ys))
    decreases |ys|
  {
    if ys == [] {
      assert xs + ys == xs;
    } else {
      var init, last := ys[..|ys| - 1], ys[|ys| - 1];
      assert ys == init + [last] && xs + ys == (xs + init) + [last];
      ReplayConcat(v, xs, init);
      ReplaySnoc(v, xs + init, last);
    }
  }

  lemma ReplayPrefix(v: Presence, es: seq<Event>, k: nat)
    requires k <= |es| && Replay(v, es).Some?
    ensures Replay(v, es[..k]).Some?
  {
    assert es == es[..k] + es[k..];
    ReplayConcat(v, es[..k], es[k..]);
  }

  function About(es: seq<Event>, session: int): seq<Event> {
    if es == [] then []
    else
      var last := es[|es| - 1];
      About(es[..|es| - 1], session) + if last.session == session then [last] else []
  }

  /** The words of (add update* remove)*, followed by "add update*" if `present`. */
  predicate Lives(es: seq<Event>, present: bool) {
    if es == [] then !present
    else
      match es[|es| - 1]
      case Added(_, _) => present && Lives(es[..|es| - 1], false)
      case Updated(_, _) => present && Lives(es[..|es| - 1], true)
      case Removed(_) => !present && Lives(es[..|es| - 1], true)
  }

  lemma LivesSnoc(es: seq<Event>, e: Event)
    requires Lives(es, !e.Added?)
    ensures Lives(es + [e], !e.Removed?)
  {
    assert (es + [e])[..|es|] == es;
  }

  /** A trace that can be replayed has, for each session, the form
      (add update* remove)* up to an open suffix. */
  lemma {:induction false} TraceGrammar(es: seq<Event>, session: int)
    requires Replay(map[], es).Some?
    ensures Lives(About(es, session), session in Replay(map[], es).value)
    decreases |es|
  {
    if es == [] {
    } else {
      var init, last := es[..|es| - 1], es[|es| - 1];
      TraceGrammar(init, session);
      var w := Replay(map[], init).value;
      assert Replay(map[], es) == Hear(w, last);
      if last.session == session {
        LivesSnoc(About(init, session), last);
      } else {
        assert About(es, session) == About(init, session);
      }
    }
  }

  /** The most sessions that were ever present at once. */
  function Peak(es: seq<Event>): nat {
    if es == [] then 0
    else
      var before := Peak(es[..|es| - 1]);
      match Replay(map[], es)
      case None => before
      case Some(v) => if |v| > before then |v| else before
  }

  lemma PeakSnoc(es: seq<Event>, e: Event)
    requires Replay(map[], es + [e]).Some?
    ensures Peak(es + [e]) >= Peak(es) && Peak(es + [e]) >= |Replay(map[], es + [e]).value|
  {
    assert (es + [e])[..|es|] == es;
  }

  // ---------------------------------------------------------------- frame cursors

  /** What one set or removal will do when the frame is complete. */
  datatype FrameCursor =
    | Add(session: I32, pos: Position)
    | Update(session: I32, pos: Position, motion: Motion)
    | Remove(session: I32)

  function EventOf(c: FrameCursor): Event {
    match c
    case Add(n, p) => Added(n, p)
    case Update(n, p, _) => Updated(n, p)
    case Remove(n) => Removed(n)
  }

  function EventsOf(frame: seq<FrameCursor>): (es: seq<Event>)
    ensures |es| == |frame|
  {
    seq(|frame|, i requires 0 <= i < |frame| => EventOf(frame[i]))
  }

  /** What a set message adds to the frame: nothing if the cursor is unchanged. */
  function SetEffect(cursors: seq<TuioCursor>, session: I32, pos: Position, motion: Motion): seq<FrameCursor> {
    var k := Find(cursors, session);
    if k == |cursors| then [Add(session, pos)]
    else if cursors[k].pos != pos || cursors[k].motion != motion then [Update(session, pos, motion)]
    else []
  }

  /** Nothing, exactly if the cursor is there just like that; an addition, exactly if the session is
      not there; an update otherwise. */
  lemma SetEffectIff(cursors: seq<TuioCursor>, session: I32, pos: Position, motion: Motion)
    requires DistinctSessions(cursors)
    ensures
      var effect := SetEffect(cursors, session, pos, motion);
      && (effect == [] <==>
          exists c :: c in cursors && c.session == session && c.pos == pos && c.motion == motion)
      && (effect == [Add(session, pos)] <==> forall c | c in cursors :: c.session != session)
      && (effect == [] || effect == [Add(session, pos)] || effect == [Update(session, pos, motion)])
  {
    var k := Find(cursors, session);
    if k < |cursors| {
      assert cursors[k] in cursors;
      forall c | c in cursors && c.session == session ensures c == cursors[k] {
        var i :| 0 <= i < |cursors| && cursors[i] == c;
        FindAt(cursors, i);
      }
    } else {
      forall c | c in cursors ensures c.session != session {
        var i :| 0 <= i < |cursors| && cursors[i] == c;
      }
    }
  }

  /** The cursors that are no longer alive. */
  function Removals(cursors: seq<TuioCursor>, alive: seq<I32>): seq<FrameCursor> {
    if cursors == [] then []
    else
      var last := cursors[|cursors| - 1];
      Removals(cursors[..|cursors| - 1], alive) + if last.session in alive then [] else [Remove(last.session)]
  }

  function Gone(sessions: set<int>, alive: seq<I32>): set<int> {
    set n | n in sessions && n !in alive
  }

  lemma DistinctSnoc(init: seq<TuioCursor>, last: TuioCursor)
    requires DistinctSessions(init + [last])
    ensures DistinctSessions(init) && last.session !in SessionSet(init)
    ensures SessionSet(init + [last]) == SessionSet(init) + {last.session}
  {
    var s := init + [last];
    AppendSessions(init, last);
    forall i | 0 <= i < |init| ensures init[i].session != last.session {
      assert s[i].session != s[|init|].session;
    }
    forall i, j | 0 <= i < j < |init| ensures init[i].session != init[j].session {
      assert s[i].session != s[j].session;
    }
  }

  lemma HearRemoved(w: Presence, gone: set<int>, n: int)
    requires n in w && n !in gone
    ensures Hear(w - gone, Removed(n)) == Some(w - (gone + {n}))
  {
    assert (w - gone) - {n} == w - (gone + {n});
  }

  lemma EventsSnoc(frame: seq<FrameCursor>, c: FrameCursor)
    ensures EventsOf(frame + [c]) == EventsOf(frame) + [EventOf(c)]
  {
  }

  lemma {:induction false} RemovalsReplay(w: Presence, cursors: seq<TuioCursor>, alive: seq<I32>)
    requires DistinctSessions(cursors) && SessionSet(cursors) <= w.Keys
    ensures Replay(w, EventsOf(Removals(cursors, alive))) == Some(w - Gone(SessionSet(cursors), alive))
    decreases |cursors|
  {
    if cursors == [] {
      assert w - Gone(SessionSet(cursors), alive) == w;
    } else {
      hide DistinctSessions, SessionSet, Replay, Hear;
      var init, last := cursors[..|cursors| - 1], cursors[|cursors| - 1];
      var gone := Gone(SessionSet(init), alive);
      assert cursors == init + [last];
      DistinctSnoc(init, last);
      RemovalsReplay(w, init, alive);
      if last.session in alive {
        assert Removals(cursors, alive) == Removals(init, alive);
        assert Gone(SessionSet(cursors), alive) == gone;
      } else {
        assert Gone(SessionSet(cursors), alive) == gone + {last.session};
        EventsSnoc(Removals(init, alive), Remove(last.session));
        ReplaySnoc(w, EventsOf(Removals(init, alive)), Removed(last.session));
        HearRemoved(w, gone, last.session);
      }
    }
  }

  /** What a frame's sets leave, as positions. */
  function FrameMap(frame: seq<FrameCursor>): Presence {
    if frame == [] then map[]
    else
      var last := frame[|frame| - 1];
      var before := FrameMap(frame[..|frame| - 1]);
      if last.Remove? then before else before[last.session := last.pos]
  }

  predicate InFrame(frame: seq<FrameCursor>, session: int) {
    exists c | c in frame :: c.session == session
  }

  /** The frame collected so far: at most one entry a session, and only an addition for a
      session that is not there. */
  ghost predicate Pending(sessions: set<int>, frame: seq<FrameCursor>) {
    && (forall i, j :: 0 <= i < j < |frame| ==> frame[i].session != frame[j].session)
    && (forall c | c in frame :: !c.Remove? && (c.Add? <==> c.session !in sessions))
  }

  lemma PendingSnoc(sessions: set<int>, init: seq<FrameCursor>, last: FrameCursor)
    requires Pending(sessions, init + [last])
    ensures Pending(sessions, init) && !InFrame(init, last.session)
    ensures !last.Remove? && (last.Add? <==> last.session !in sessions)
  {
    var frame := init + [last];
    assert last in frame;
    forall i, j | 0 <= i < j < |init| ensures init[i].session != init[j].session {
      assert frame[i].session != frame[j].session;
    }
    forall c | c in init ensures c.session != last.session {
      var i :| 0 <= i < |init| && init[i] == c;
      assert frame[i].session != frame[|init|].session;
    }
  }

  lemma {:induction false} FrameMapKeys(frame: seq<FrameCursor>, session: int)
    requires session in FrameMap(frame)
    ensures InFrame(frame, session)
    decreases |frame|
  {
    var init, last := frame[..|frame| - 1], frame[|frame| - 1];
    if last.Remove? || session != last.session {
      FrameMapKeys(init, session);
    }
  }

  lemma HearEntry(v: Presence, m: Presence, c: FrameCursor)
    requires !c.Remove? && (c.Add? <==> c.session !in v) && c.session !in m
    ensures Hear(v + m, EventOf(c)) == Some(v + m[c.session := c.pos])
  {
    assert (v + m)[c.session := c.pos] == v + m[c.session := c.pos];
  }

  lemma {:induction false} FrameReplay(v: Presence, frame: seq<FrameCursor>)
    requires Pending(v.Keys, frame)
    ensures Replay(v, EventsOf(frame)) == Some(v + FrameMap(frame))
    decreases |frame|
  {
    if frame == [] {
      assert v + map[] == v;
    } else {
      hide Pending, InFrame, Hear, Replay;
      var init, last := frame[..|frame| - 1], frame[|frame| - 1];
      assert frame == init + [last];
      PendingSnoc(v.Keys, init, last);
      FrameReplay(v, init);
      EventsSnoc(init, last);
      ReplaySnoc(v, EventsOf(init), EventOf(last));
      if last.session in FrameMap(init) {
        FrameMapKeys(init, last.session);
      }
      HearEntry(v, FrameMap(init), last);
    }
  }

  /** When the fseq message arrives, every entry of the frame finds what it expects. */
  lemma CompleteFrameReplays(cursors: seq<TuioCursor>, frame: seq<FrameCursor>, alive: seq<I32>)
    requires DistinctSessions(cursors) && Pending(SessionSet(cursors), frame)
    ensures Replay(View(cursors), EventsOf(frame + Removals(cursors, alive)))
         == Some((View(cursors) + FrameMap(frame)) - Gone(SessionSet(cursors), alive))
  {
    hide View, Pending, FrameMap, Removals, DistinctSessions, Replay;
    var removals := Removals(cursors, alive);
    FrameReplay(View(cursors), frame);
    RemovalsReplay(View(cursors) + FrameMap(frame), cursors, alive);
    assert EventsOf(frame + removals) == EventsOf(frame) + EventsOf(removals);
    ReplayConcat(View(cursors), EventsOf(frame), EventsOf(removals));
  }

  // ---------------------------------------------------------------- messages

  datatype Command =
    | SetCommand(session: I32, pos: Position, motion: Motion)
    | AliveCommand(ids: seq<I32>)
    | FseqCommand(fseq: I32)
    | ObjectFseqCommand(fseq: I32)  // ends a frame of objects, which count in the same frame numbers
    | NoCommand  // another address, another command, or an exception before anything happened

  function LeadingInts(args: seq<Arg>): seq<I32> {
    if args == [] || !args[0].Int32? then [] else [args[0].i] + LeadingInts(args[1..])
  }

  function ParseSet(args: seq<Arg>): Command {
    if |args| >= 6 && args[0].Int32? && args[1].Float? && args[2].Float? && args[3].Float? && args[4].Float?
       && args[5].Float?
    then SetCommand(args[0].i, Position(args[1].bits, args[2].bits), Motion(args[3].bits, args[4].bits, args[5].bits))
    else NoCommand
  }

  function ParseCursor(address: CString, cmd: CString, args: seq<Arg>): Command {
    if cmd == SET then if address == CURSOR_2D then ParseSet(args) else NoCommand
    else if cmd == ALIVE then AliveCommand(LeadingInts(args))
    else if cmd == FSEQ && args != [] && args[0].Int32? then FseqCommand(args[0].i)
    else NoCommand
  }

  /** Reading the argument stream.  An argument of the wrong type ends a message, but the
      alive IDs before it have been taken in.  Cursors in 2D and in 3D share their lists. */
  function Parse(e: Element): Command {
    if !e.Message? || e.args == [] || !e.args[0].Str? then NoCommand
    else if e.address == OBJECT_2D then
      if e.args[0].s == FSEQ && |e.args| >= 2 && e.args[1].Int32? then ObjectFseqCommand(e.args[1].i) else NoCommand
    else if e.address == CURSOR_2D || e.address == CURSOR_3D then ParseCursor(e.address, e.args[0].s, e.args[1..])
    else NoCommand
  }

  /** A message of some address, with at least these arguments. */
  predicate Begins(e: Element, address: CString, args: seq<Arg>) {
    e.Message? && e.address == address && args <= e.args
  }

  /** Which messages set a cursor, end a frame of cursors or of objects, or list the living: exactly
      those of the right addresses with arguments of the right types, whatever else follows them. */
  lemma ParsesAs(e: Element, n: I32, p: Position, m: Motion)
    ensures Parse(e) == SetCommand(n, p, m)
       <==> Begins(e, CURSOR_2D, [Str(SET), Int32(n), Float(p.x), Float(p.y), Float(m.xSpeed), Float(m.ySpeed),
                                  Float(m.accel)])
    ensures Parse(e) == FseqCommand(n)
       <==> Begins(e, CURSOR_2D, [Str(FSEQ), Int32(n)]) || Begins(e, CURSOR_3D, [Str(FSEQ), Int32(n)])
    ensures Parse(e) == ObjectFseqCommand(n) <==> Begins(e, OBJECT_2D, [Str(FSEQ), Int32(n)])
    ensures Parse(e).AliveCommand? <==> Begins(e, CURSOR_2D, [Str(ALIVE)]) || Begins(e, CURSOR_3D, [Str(ALIVE)])
  {
  }

  /** The living are the integers up to the first argument that is none. */
  lemma {:induction false} LeadingIntsAre(args: seq<Arg>, k: nat)
    ensures |LeadingInts(args)| <= |args|
    ensures k < |LeadingInts(args)| ==> args[k] == Int32(LeadingInts(args)[k])
    ensures k == |LeadingInts(args)| < |args| ==> !args[k].Int32?
    decreases |args|
  {
    if args == [] || !args[0].Int32? {
    } else {
      LeadingIntsAre(args[1..], if k > 0 then k - 1 else 0);
    }
  }

  /** A frame number that is behind by at most 100 is late; zero and below never are. */
  predicate Late(currentFrame: int, fseq: int) {
    fseq > 0 && fseq < currentFrame && currentFrame - fseq <= 100
  }

  function Milliseconds(t: Time): int {
    t.seconds * 1000 + t.microseconds / 1000
  }

  /** The frame number after an fseq message: it goes forward, or back by more than a hundred. */
  function NextFrame(currentFrame: int, fseq: int): int {
    if fseq > 0 && !Late(currentFrame, fseq) then fseq else currentFrame
  }

  /** The frame time: new with every new number, and after 100 ms without numbers. */
  function NextTime(currentFrame: int, currentTime: Time, fseq: int, now: Time): Time {
    if fseq > 0 then if fseq > currentFrame then now else currentTime
    else if Milliseconds(now) - Milliseconds(currentTime) > 100 then now else currentTime
  }

  lemma PendingAdd(sessions: set<int>, frame: seq<FrameCursor>, c: FrameCursor)
    requires Pending(sessions, frame) && !InFrame(frame, c.session)
    requires !c.Remove? && (c.Add? <==> c.session !in sessions)
    ensures Pending(sessions, frame + [c])
  {
    var all := frame + [c];
    forall i, j | 0 <= i < j < |all| ensures all[i].session != all[j].session {
      assert all[i] in frame;
    }
  }

  lemma {:induction false} SessionCount(s: seq<TuioCursor>)
    requires DistinctSessions(s)
    ensures |SessionSet(s)| == |s|
    decreases |s|
  {
    if s == [] {
    } else {
      var init, last := s[..|s| - 1], s[|s| - 1];
      assert s == init + [last];
      AppendSessions(init, last);
      SessionCount(init);
    }
  }

  lemma ViewCount(s: seq<TuioCursor>)
    requires DistinctSessions(s)
    ensures |View(s)| == |s|
  {
    SessionCount(s);
    assert |View(s).Keys| == |View(s)|;
  }

  lemma OnlyThere(s: seq<TuioCursor>, k: nat)
    requires DistinctSessions(s) && k < |s|
    ensures forall i | 0 <= i < |s| && i != k :: s[i].session != s[k].session
  {
  }

  class TuioClient {
    const distance: Distance
    const motionOf: (TuioCursor, Time, Position) -> Motion
    const isZero: Float -> bool

    var cursorList: seq<TuioCursor>
    var freeCursorList: seq<TuioCursor>
    var frameCursors: seq<FrameCursor>
    var aliveCursorList: seq<I32>
    var maxCursorID: int
    var currentFrame: int
    var currentTime: Time
    var events: seq<Event>  // what the listeners were told

    /** The cursor list is exactly what a listener knows, and the IDs are in order. */
    ghost predicate Consistent()
      reads `cursorList, `freeCursorList, `maxCursorID, `events
    {
      && PoolOk(cursorList, freeCursorList, maxCursorID)
      && DistinctSessions(cursorList)
      && Replay(map[], events) == Some(View(cursorList))
      && maxCursorID + 1 <= Peak(events)
    }

    ghost predicate Valid()
      reads `cursorList, `freeCursorList, `maxCursorID, `events, `frameCursors
    {
      Consistent() && Pending(SessionSet(cursorList), frameCursors)
    }

    constructor (dist: Distance, motion: (TuioCursor, Time, Position) -> Motion, zero: Float -> bool, now: Time)
      ensures Valid() && cursorList == [] && frameCursors == [] && events == [] && currentFrame == -1
    {
      distance := dist;
      motionOf := motion;
      isZero := zero;
      cursorList := [];
      freeCursorList := [];
      frameCursors := [];
      aliveCursorList := [];
      maxCursorID := -1;
      currentFrame := -1;
      currentTime := now;
      events := [];
    }

    method AddCursor(session: I32, pos: Position)
      requires Consistent() && session !in SessionSet(cursorList)
      modifies `cursorList, `freeCursorList, `maxCursorID, `events
      ensures Consistent()
      ensures events == old(events) + [Added(session, pos)]
      ensures View(cursorList) == old(View(cursorList))[session := pos]
      ensures exists id :: cursorList == old(cursorList) + [TuioCursor(currentTime, session, id, pos, AT_REST)]
    {
      hide PoolOk, View, Find, SessionSet, DistinctSessions;
      var id, free, max := TakeId(cursorList, freeCursorList, maxCursorID, pos, distance);
      var c := TuioCursor(currentTime, session, id, pos, AT_REST);
      ViewAppend(cursorList, c);
      cursorList := cursorList + [c];
      freeCursorList, maxCursorID := free, max;
      ReplaySnoc(map[], events, Added(session, pos));
      PeakSnoc(events, Added(session, pos));
      ViewCount(cursorList);
      events := events + [Added(session, pos)];
      assert cursorList == old(cursorList) + [TuioCursor(currentTime, session, id, pos, AT_REST)];
    }

    /** A cursor keeps its place in the list and its ID.  Its motion is the one it was set with,
        unless that has no speed in a direction in which the cursor has moved. */
    method UpdateCursor(session: I32, pos: Position, motion: Motion)
      requires Consistent() && session in SessionSet(cursorList)
      modifies `cursorList, `events
      ensures Consistent()
      ensures events == old(events) + [Updated(session, pos)]
      ensures View(cursorList) == old(View(cursorList))[session := pos]
      ensures |cursorList| == |old(cursorList)|
      ensures forall i | 0 <= i < |cursorList| ::
                var was, c := old(cursorList)[i], cursorList[i];
                if was.session != session then c == was
                else
                  && c.session == session && c.id == was.id && c.time == currentTime && c.pos == pos
                  && c.motion == if (pos.x == was.pos.x || !isZero(motion.xSpeed))
                                    && (pos.y == was.pos.y || !isZero(motion.ySpeed)) then motion
                                 else motionOf(was, currentTime, pos)
    {
      hide PoolOk, View, SessionSet, DistinctSessions;
      var k := Find(cursorList, session);
      var was := cursorList[k];
      var recompute := (pos.x != was.pos.x && isZero(motion.xSpeed)) || (pos.y != was.pos.y && isZero(motion.ySpeed));
      var c := was.(time := currentTime, pos := pos,
                    motion := if recompute then motionOf(was, currentTime, pos) else motion);
      ViewUpdate(cursorList, k, c);
      UpdateKeepsPool(cursorList, freeCursorList, maxCursorID, k, c);
      OnlyThere(cursorList, k);
      cursorList := cursorList[k := c];
      ReplaySnoc(map[], events, Updated(session, pos));
      PeakSnoc(events, Updated(session, pos));
      events := events + [Updated(session, pos)];
    }

    method RemoveCursor(session: int)
      requires Consistent() && session in SessionSet(cursorList)
      modifies `cursorList, `freeCursorList, `maxCursorID, `events
      ensures Consistent()
      ensures events == old(events) + [Removed(session)]
      ensures View(cursorList) == old(View(cursorList)) - {session}
    {
      hide PoolOk, View, SessionSet, DistinctSessions;
      var k := Find(cursorList, session);
      ReplaySnoc(map[], events, Removed(session));
      PeakSnoc(events, Removed(session));
      events := events + [Removed(session)];
      ViewWithout(cursorList, k);
      var free, max := ReleaseId(cursorList, k, freeCursorList, maxCursorID);
      cursorList := Without(cursorList, k);
      freeCursorList, maxCursorID := free, max;
    }

    /** One entry of the finished frame. */
    method Apply(c: FrameCursor)
      requires Consistent() && Hear(View(cursorList), EventOf(c)).Some?
      modifies `cursorList, `freeCursorList, `maxCursorID, `events
      ensures Consistent()
      ensures events == old(events) + [EventOf(c)]
      ensures Some(View(cursorList)) == Hear(old(View(cursorList)), EventOf(c))
    {
      hide PoolOk, View, SessionSet, DistinctSessions;
      match c
      case Add(n, p) => AddCursor(n, p);
      case Update(n, p, m) => UpdateCursor(n, p, m);
      case Remove(n) => RemoveCursor(n);
    }

    method ApplyFrame(frame: seq<FrameCursor>)
      requires Consistent() && Replay(View(cursorList), EventsOf(frame)).Some?
      modifies `cursorList, `freeCursorList, `maxCursorID, `events
      ensures Consistent()
      ensures events == old(events) + EventsOf(frame)
      ensures Some(View(cursorList)) == Replay(old(View(cursorList)), EventsOf(frame))
    {
      hide PoolOk, View, SessionSet, DistinctSessions, Hear;
      ghost var v, es := View(cursorList), EventsOf(frame);
      for k := 0 to |frame|
        invariant Consistent() && events == old(events) + es[..k]
        invariant Replay(v, es[..k]) == Some(View(cursorList))
      {
        assert es[..k + 1] == es[..k] + [es[k]];
        ReplayPrefix(v, es, k + 1);
        ReplaySnoc(v, es[..k], es[k]);
        Apply(frame[k]);
      }
      assert es[..|frame|] == es;
    }

    /** The loop that looks for the cursors that have gone. */
    method FindRemovals() returns (removals: seq<FrameCursor>)
      ensures removals == Removals(cursorList, aliveCursorList)
    {
      removals := [];
      for i := 0 to |cursorList|
        invariant removals == Removals(cursorList[..i], aliveCursorList)
      {
        assert cursorList[..i + 1][..i] == cursorList[..i];
        if cursorList[i].session !in aliveCursorList {
          removals := removals + [Remove(cursorList[i].session)];
        }
      }
      assert cursorList[..|cursorList|] == cursorList;
    }

    method HandleSet(session: I32, pos: Position, motion: Motion)
      requires Valid() && !InFrame(frameCursors, session)
      modifies `frameCursors
      ensures Valid()
      ensures frameCursors == old(frameCursors) + SetEffect(cursorList, session, pos, motion)
    {
      hide PoolOk, View, DistinctSessions;
      var k := Find(cursorList, session);
      var before := frameCursors;
      if k == |cursorList| {
        frameCursors := frameCursors + [Add(session, pos)];
        PendingAdd(SessionSet(cursorList), before, Add(session, pos));
      } else if cursorList[k].pos != pos || cursorList[k].motion != motion {
        frameCursors := frameCursors + [Update(session, pos, motion)];
        PendingAdd(SessionSet(cursorList), before, Update(session, pos, motion));
      } else {
        assert frameCursors == frameCursors + [];
      }
    }

    /** What happens to a frame that is not late: additions and updates first, then removals. */
    method CompleteFrame()
      requires Valid()
      modifies `cursorList, `freeCursorList, `maxCursorID, `events, `frameCursors
      ensures Valid() && frameCursors == []
      ensures events == old(events) + EventsOf(old(frameCursors) + Removals(old(cursorList), aliveCursorList))
      ensures View(cursorList) == (old(View(cursorList)) + FrameMap(old(frameCursors)))
                                  - Gone(old(SessionSet(cursorList)), aliveCursorList)
    {
      hide PoolOk, View, SessionSet, DistinctSessions, Replay, FrameMap, Removals, EventsOf, Gone;
      var removals := FindRemovals();
      CompleteFrameReplays(cursorList, frameCursors, aliveCursorList);
      ApplyFrame(frameCursors + removals);
      frameCursors := [];
    }

    /** What every fseq message begins with, also one for objects. */
    method NumberFrame(fseq: I32, now: Time) returns (lateFrame: bool)
      modifies `currentFrame, `currentTime
      ensures lateFrame == Late(old(currentFrame), fseq)
      ensures currentFrame == NextFrame(old(currentFrame), fseq)
      ensures currentTime == NextTime(old(currentFrame), old(currentTime), fseq, now)
    {
      lateFrame := false;
      if fseq > 0 {
        if fseq > currentFrame {
          currentTime := now;
        }
        if fseq >= currentFrame || currentFrame - fseq > 100 {
          currentFrame := fseq;
        } else {
          lateFrame := true;
        }
      } else if Milliseconds(now) - Milliseconds(currentTime) > 100 {
        currentTime := now;
      }
    }

    /** What an fseq message does: a late one drops the frame, any other completes it. */
    ghost predicate FrameEnd(fseq: int, frameBefore: int, cursors: seq<TuioCursor>, frame: seq<FrameCursor>,
                             told: seq<Event>)
      reads this
    {
      && frameCursors == []
      && currentFrame == NextFrame(frameBefore, fseq)
      && (if Late(frameBefore, fseq) then cursorList == cursors && events == told
          else
            && events == told + EventsOf(frame + Removals(cursors, aliveCursorList))
            && View(cursorList) == (View(cursors) + FrameMap(frame)) - Gone(SessionSet(cursors), aliveCursorList))
    }

    method HandleFseq(fseq: I32, now: Time)
      requires Valid()
      modifies `cursorList, `freeCursorList, `maxCursorID, `events, `frameCursors, `currentFrame, `currentTime
      ensures Valid()
      ensures currentTime == NextTime(old(currentFrame), old(currentTime), fseq, now)
      ensures FrameEnd(fseq, old(currentFrame), old(cursorList), old(frameCursors), old(events))
    {
      hide Consistent, View, SessionSet, Replay, FrameMap, Removals, EventsOf, Gone;
      var lateFrame := NumberFrame(fseq, now);
      if lateFrame {
        frameCursors := [];
      } else {
        CompleteFrame();
      }
    }

    /** A set message may name each session at most once a frame. */
    ghost predicate Acceptable(c: Command)
      reads this
    {
      c.SetCommand? ==> !InFrame(frameCursors, c.session)
    }

    method ProcessMessage(e: Element, now: Time)
      requires Valid() && Acceptable(Parse(e))
      modifies this
      ensures Valid()
      ensures Parse(e).NoCommand? ==> unchanged(this)
      ensures Parse(e).SetCommand? ==>
                && unchanged(`cursorList, `freeCursorList, `maxCursorID, `events, `aliveCursorList, `currentFrame,
                             `currentTime)
                && frameCursors == old(frameCursors)
                     + SetEffect(cursorList, Parse(e).session, Parse(e).pos, Parse(e).motion)
      ensures Parse(e).AliveCommand? ==>
                && unchanged(`cursorList, `freeCursorList, `maxCursorID, `events, `frameCursors, `currentFrame,
                             `currentTime)
                && aliveCursorList == Parse(e).ids
      ensures Parse(e).FseqCommand? ==> unchanged(`aliveCursorList)
                                        && currentTime == NextTime(old(currentFrame),
                                                                   old(currentTime), Parse(e).fseq, now)
      ensures Parse(e).ObjectFseqCommand? ==>
                && unchanged(`cursorList, `freeCursorList, `maxCursorID, `events, `frameCursors, `aliveCursorList)
                && currentFrame == NextFrame(old(currentFrame), Parse(e).fseq)
                && currentTime == NextTime(old(currentFrame), old(currentTime), Parse(e).fseq, now)
      ensures Parse(e).FseqCommand? ==>
                FrameEnd(Parse(e).fseq, old(currentFrame), old(cursorList), old(frameCursors), old(events))
    {
      hide Parse, Pending, FrameEnd, Consistent, SetEffect;
      match Parse(e)
      case NoCommand =>
      case SetCommand(session, pos, motion) => HandleSet(session, pos, motion);
      case AliveCommand(ids) => aliveCursorList := ids;
      case FseqCommand(fseq) => HandleFseq(fseq, now);
      case ObjectFseqCommand(fseq) => var _ := NumberFrame(fseq, now);
    }
  }
}
