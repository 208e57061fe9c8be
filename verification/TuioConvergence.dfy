/** What a server's frame does to a client.  The effect of a bundle is a function of its alive list
    and its sets, a split frame has the effect of a whole one, and a client that sees any
    well-formed bundles in any order stays safe. */
module TuioConvergence {
  import opened Basics
  import opened OscDecoding
  import opened OscEncoding
  import opened TuioClients
  import opened TuioCursors
  import opened TuioPackets
  import opened TuioServers

  // ---------------------------------------------------------------- what a bundle means

  predicate IsCursorItem(it: Item) {
    |it.details| == 5 && forall d | d in it.details :: d.Float?
  }

  function PosOf(it: Item): Position
    requires IsCursorItem(it)
  {
    Position(it.details[0].bits, it.details[1].bits)
  }

  function MotionOf(it: Item): Motion
    requires IsCursorItem(it)
  {
    Motion(it.details[2].bits, it.details[3].bits, it.details[4].bits)
  }

  predicate CursorItems(sets: seq<Item>) {
    forall it | it in sets :: IsCursorItem(it)
  }

  ghost predicate DistinctItems(sets: seq<Item>) {
    forall i, j :: 0 <= i < j < |sets| ==> sets[i].session != sets[j].session
  }

  /** One alive message, at most one set for each session and only for sessions that are
      alive, one fseq message. */
  ghost predicate WellFormed(f: Frame) {
    CursorItems(f.sets) && DistinctItems(f.sets) && forall it | it in f.sets :: it.session in f.alive
  }

  function SetMap(sets: seq<Item>): Presence
    requires CursorItems(sets)
  {
    if sets == [] then map[]
    else
      var last := sets[|sets| - 1];
      SetMap(sets[..|sets| - 1])[last.session := PosOf(last)]
  }

  /** Whoever is not alive goes; whoever is set is where the set message says. */
  function Merge(v: Presence, alive: seq<I32>, sets: seq<Item>): Presence
    requires CursorItems(sets)
  {
    (map n | n in v && n in alive :: v[n]) + SetMap(sets)
  }

  predicate SetsSession(sets: seq<Item>, n: int) {
    exists it | it in sets :: it.session == n
  }

  lemma {:induction false} SetMapKeys(sets: seq<Item>, n: int)
    requires CursorItems(sets)
    ensures n in SetMap(sets) <==> SetsSession(sets, n)
    decreases |sets|
  {
    if sets == [] {
    } else {
      var init, last := sets[..|sets| - 1], sets[|sets| - 1];
      assert sets == init + [last];
      SetMapKeys(init, n);
      assert forall it :: it in sets <==> it in init || it == last;
    }
  }

  lemma {:induction false} SetMapConcat(a: seq<Item>, b: seq<Item>)
    requires CursorItems(a) && CursorItems(b)
    ensures CursorItems(a + b) && SetMap(a + b) == SetMap(a) + SetMap(b)
    decreases |b|
  {
    if b == [] {
      assert a + b == a && SetMap(a) + map[] == SetMap(a);
    } else {
      var init, last := b[..|b| - 1], b[|b| - 1];
      assert (a + b)[..|a + b| - 1] == a + init;
      SetMapConcat(a, init);
      assert SetMap(a) + SetMap(b) == (SetMap(a) + SetMap(init))[last.session := PosOf(last)];
    }
  }

  /** Two bundles of one frame have the effect of one bundle with all the sets. */
  lemma MergeConcat(v: Presence, alive: seq<I32>, a: seq<Item>, b: seq<Item>)
    requires CursorItems(a) && CursorItems(b) && (forall it | it in a :: it.session in alive)
    ensures CursorItems(a + b) && Merge(Merge(v, alive, a), alive, b) == Merge(v, alive, a + b)
  {
    hide SetMap;
    SetMapConcat(a, b);
    forall n | n in SetMap(a) ensures n in alive {
      SetMapKeys(a, n);
    }
    assert Merge(Merge(v, alive, a), alive, b) == Merge(v, alive, a + b);
  }

  // ---------------------------------------------------------------- the client and one bundle

  lemma {:induction false} LeadingSessions(ids: seq<I32>)
    ensures LeadingInts(Sessions(ids)) == ids
    decreases |ids|
  {
    if ids == [] {
    } else {
      assert Sessions(ids)[1..] == Sessions(ids[1..]);
      LeadingSessions(ids[1..]);
    }
  }

  lemma ParseAlive(alive: seq<I32>)
    ensures Parse(AliveMessage(CURSOR_2D, alive)) == AliveCommand(alive)
  {
    assert ([Str(ALIVE)] + Sessions(alive))[1..] == Sessions(alive);
    LeadingSessions(alive);
  }

  lemma ParseSetMessage(it: Item)
    requires IsCursorItem(it)
    ensures Parse(SetMessage(CURSOR_2D, it)) == SetCommand(it.session, PosOf(it), MotionOf(it))
  {
    var args := [Str(SET), Int32(it.session)] + it.details;
    assert args[1..] == [Int32(it.session)] + it.details;
    assert forall i | 0 <= i < 5 :: it.details[i] in it.details;
  }

  lemma ParseFseq(fseq: I32)
    ensures Parse(FseqMessage(CURSOR_2D, fseq)) == FseqCommand(fseq)
  {
  }

  /** The frame cursors that the sets leave behind. */
  function FrameFor(cursors: seq<TuioCursor>, sets: seq<Item>): seq<FrameCursor>
    requires CursorItems(sets)
  {
    if sets == [] then []
    else
      var last := sets[|sets| - 1];
      FrameFor(cursors, sets[..|sets| - 1]) + SetEffect(cursors, last.session, PosOf(last), MotionOf(last))
  }

  lemma FrameForSnoc(cursors: seq<TuioCursor>, sets: seq<Item>, it: Item)
    requires CursorItems(sets) && IsCursorItem(it)
    ensures CursorItems(sets + [it])
    ensures FrameFor(cursors, sets + [it]) == FrameFor(cursors, sets) +
              SetEffect(cursors, it.session, PosOf(it), MotionOf(it))
  {
    assert (sets + [it])[..|sets|] == sets;
  }

  lemma {:induction false} FrameForSessions(cursors: seq<TuioCursor>, sets: seq<Item>, c: FrameCursor)
    requires CursorItems(sets) && c in FrameFor(cursors, sets)
    ensures SetsSession(sets, c.session)
    decreases |sets|
  {
    var init, last := sets[..|sets| - 1], sets[|sets| - 1];
    assert sets == init + [last] && last in sets;
    if c in FrameFor(cursors, init) {
      FrameForSessions(cursors, init, c);
    }
  }

  lemma FrameMapSnoc(frame: seq<FrameCursor>, c: FrameCursor)
    requires !c.Remove?
    ensures FrameMap(frame + [c]) == FrameMap(frame)[c.session := c.pos]
  {
    assert (frame + [c])[..|frame|] == frame;
  }

  lemma LastIsNew(init: seq<Item>, last: Item)
    requires CursorItems(init) && DistinctItems(init + [last])
    ensures last.session !in SetMap(init)
  {
    var sets := init + [last];
    SetMapKeys(init, last.session);
    forall it | it in init ensures it.session != last.session {
      var i :| 0 <= i < |init| && init[i] == it;
      assert sets[i].session != sets[|init|].session;
    }
  }

  lemma OverlayStep(v: Presence, a: Presence, b: Presence, n: int, p: Position)
    requires v + a == v + b
    ensures v + a[n := p] == v + b[n := p]
  {
    assert v + a[n := p] == (v + a)[n := p];
    assert v + b[n := p] == (v + b)[n := p];
  }

  lemma OverlaySame(v: Presence, m: Presence, n: int)
    requires n in v && n !in m
    ensures v + m[n := v[n]] == v + m
  {
  }

  lemma OneMoreSet(cursors: seq<TuioCursor>, frame: seq<FrameCursor>, m: Presence, it: Item)
    requires IsCursorItem(it) && DistinctSessions(cursors) && it.session !in m
    requires View(cursors) + FrameMap(frame) == View(cursors) + m
    ensures View(cursors) + FrameMap(frame + SetEffect(cursors, it.session, PosOf(it), MotionOf(it)))
         == View(cursors) + m[it.session := PosOf(it)]
  {
    hide FrameMap, DistinctSessions, View;
    var v, k, pos := View(cursors), Find(cursors, it.session), PosOf(it);
    var effect := SetEffect(cursors, it.session, pos, MotionOf(it));
    hide Find;
    if effect == [] {
      assert frame + effect == frame;
      ViewAt(cursors, k);
      OverlaySame(v, m, it.session);
    } else {
      FrameMapSnoc(frame, effect[0]);
      assert effect == [effect[0]] && effect[0].pos == pos;
      OverlayStep(v, FrameMap(frame), m, it.session, pos);
    }
  }

  /** Leaving out the sets that change nothing changes nothing. */
  lemma {:induction false} FrameForMap(cursors: seq<TuioCursor>, sets: seq<Item>)
    requires CursorItems(sets) && DistinctItems(sets) && DistinctSessions(cursors)
    ensures View(cursors) + FrameMap(FrameFor(cursors, sets)) == View(cursors) + SetMap(sets)
    decreases |sets|
  {
    if sets == [] {
      assert FrameMap(FrameFor(cursors, sets)) == SetMap(sets);
    } else {
      var init, last := sets[..|sets| - 1], sets[|sets| - 1];
      assert sets == init + [last];
      FrameForMap(cursors, init);
      LastIsNew(init, last);
      OneMoreSet(cursors, FrameFor(cursors, init), SetMap(init), last);
    }
  }

  /** The effect of a complete frame on the client's view. */
  lemma FrameMerges(cursors: seq<TuioCursor>, f: Frame)
    requires WellFormed(f) && DistinctSessions(cursors)
    ensures (View(cursors) + FrameMap(FrameFor(cursors, f.sets))) - Gone(SessionSet(cursors), f.alive)
         == Merge(View(cursors), f.alive, f.sets)
  {
    hide SetMap, FrameMap, FrameFor, DistinctSessions, View;
    FrameForMap(cursors, f.sets);
    forall n | n in SetMap(f.sets) ensures n in f.alive {
      SetMapKeys(f.sets, n);
    }
    var v := View(cursors);
    assert (v + SetMap(f.sets)) - Gone(SessionSet(cursors), f.alive) == Merge(v, f.alive, f.sets);
  }

  /** The k-th set message of a bundle names a session that the frame does not contain yet. */
  lemma SetStep(cursors: seq<TuioCursor>, f: Frame, k: nat)
    requires WellFormed(f) && k < |f.sets|
    ensures
      var it := f.sets[k];
      && IsCursorItem(it) && CursorItems(f.sets[..k]) && CursorItems(f.sets[..k + 1])
      && Parse(SetMessage(CURSOR_2D, it)) == SetCommand(it.session, PosOf(it), MotionOf(it))
      && !InFrame(FrameFor(cursors, f.sets[..k]), it.session)
      && FrameFor(cursors, f.sets[..k + 1])
           == FrameFor(cursors, f.sets[..k]) + SetEffect(cursors, it.session, PosOf(it), MotionOf(it))
  {
    hide Parse, FrameFor, SetEffect;
    var it, before := f.sets[k], f.sets[..k];
    assert it in f.sets && forall x | x in before :: x in f.sets;
    ParseSetMessage(it);
    assert f.sets[..k + 1] == before + [it];
    FrameForSnoc(cursors, before, it);
    forall c | c in FrameFor(cursors, before) ensures c.session != it.session {
      FrameForSessions(cursors, before, c);
      var x :| x in before && x.session == c.session;
      var i :| 0 <= i < |before| && before[i] == x;
      assert f.sets[i].session != f.sets[k].session;
    }
  }

  predicate Elements(es: seq<Element>, f: Frame) {
    es == Unfinished(CURSOR_2D, f.alive, f.sets) + [FseqMessage(CURSOR_2D, f.fseq)]
  }

  /** The client after the first `i` elements of a bundle. */
  ghost predicate Collected(client: TuioClient, f: Frame, i: nat)
    reads client
    requires CursorItems(f.sets)
  {
    && client.Valid() && i <= |f.sets| + 1
    && (if i == 0 then client.frameCursors == []
        else client.aliveCursorList == f.alive && client.frameCursors == FrameFor(client.cursorList, f.sets[..i - 1]))
  }

  lemma CollectedStart(client: TuioClient, f: Frame)
    requires WellFormed(f) && client.Valid() && client.frameCursors == []
    ensures CursorItems(f.sets) && Collected(client, f, 0)
  {
  }

  method ProcessElement(client: TuioClient, e: Element, now: Time, ghost f: Frame, ghost i: nat)
    requires WellFormed(f) && Collected(client, f, i) && i <= |f.sets|
    requires e == Unfinished(CURSOR_2D, f.alive, f.sets)[i]
    modifies client
    ensures Collected(client, f, i + 1)
    ensures unchanged(client`cursorList) && unchanged(client`events) && unchanged(client`currentFrame)
    ensures unchanged(client`currentTime)
  {
    ghost var cursors := client.cursorList;
    assert f.sets[..0] == [] && FrameFor(cursors, []) == [];
    hide Parse, View, FrameFor, WellFormed, TuioClient.Consistent, Pending, SetEffect, DistinctSessions, InFrame;
    if i == 0 {
      ParseAlive(f.alive);
    } else {
      SetStep(cursors, f, i - 1);
    }
    client.ProcessMessage(e, now);
  }

  /** The client after a whole bundle, compared to what it was before: nothing has changed if its
      number is behind by at most 100, and otherwise it is merged, and a positive number taken over. */
  ghost predicate Received(client: TuioClient, f: Frame, frameBefore: int, cursors: seq<TuioCursor>, told: seq<Event>)
    reads client
    requires CursorItems(f.sets)
  {
    && client.Valid() && client.frameCursors == []
    && (if 0 < f.fseq < frameBefore <= f.fseq + 100 then
          client.cursorList == cursors && client.events == told && client.currentFrame == frameBefore
        else
          && View(client.cursorList) == Merge(View(cursors), f.alive, f.sets)
          && client.currentFrame == if f.fseq > 0 then f.fseq else frameBefore)
  }

  function Micros(t: Time): int {
    t.seconds * 1_000_000 + t.microseconds
  }

  lemma WholeMilliseconds(t: Time)
    ensures Milliseconds(t) == Micros(t) / 1000
  {
  }

  /** The frame time is that of the first bundle with the highest number so far; without numbers, it
      is renewed when it is more than 100 milliseconds old. */
  ghost predicate Timed(client: TuioClient, f: Frame, frameBefore: int, timeBefore: Time, now: Time)
    reads client
  {
    && (f.fseq > 0 ==> client.currentTime == if f.fseq > frameBefore then now else timeBefore)
    && (f.fseq <= 0 ==>
          client.currentTime == if Micros(now) / 1000 > Micros(timeBefore) / 1000 + 100 then now else timeBefore)
  }

  lemma TimeTaken(client: TuioClient, f: Frame, frameBefore: int, timeBefore: Time, now: Time)
    ensures client.currentTime == NextTime(frameBefore, timeBefore, f.fseq, now)
       <==> Timed(client, f, frameBefore, timeBefore, now)
  {
    WholeMilliseconds(now);
    WholeMilliseconds(timeBefore);
    hide Milliseconds, Micros;
  }

  lemma EndReceives(client: TuioClient, f: Frame, frameBefore: int, cursors: seq<TuioCursor>, told: seq<Event>)
    requires WellFormed(f) && DistinctSessions(cursors) && client.Valid() && client.aliveCursorList == f.alive
    requires client.FrameEnd(f.fseq, frameBefore, cursors, FrameFor(cursors, f.sets), told)
    ensures Received(client, f, frameBefore, cursors, told)
  {
    hide View, FrameFor, FrameMap, TuioClient.Valid, DistinctSessions, Merge, SessionSet, Removals, EventsOf, Gone;
    FrameMerges(cursors, f);
  }

  method ProcessEnd(client: TuioClient, e: Element, now: Time, ghost f: Frame)
    requires WellFormed(f) && Collected(client, f, |f.sets| + 1) && e == FseqMessage(CURSOR_2D, f.fseq)
    modifies client
    ensures Received(client, f, old(client.currentFrame), old(client.cursorList), old(client.events))
    ensures Timed(client, f, old(client.currentFrame), old(client.currentTime), now)
  {
    ghost var cursors := client.cursorList;
    assert DistinctSessions(cursors) && f.sets[..|f.sets|] == f.sets;
    hide Parse, View, FrameFor, FrameMap, WellFormed, TuioClient.Consistent, TuioClient.FrameEnd, Pending,
      DistinctSessions, Received, Timed, NextTime;
    ParseFseq(f.fseq);
    client.ProcessMessage(e, now);
    TimeTaken(client, f, old(client.currentFrame), old(client.currentTime), now);
    EndReceives(client, f, old(client.currentFrame), cursors, old(client.events));
  }

  /** ProcessBundle, on any well-formed bundle. */
  method ProcessBundle(client: TuioClient, es: seq<Element>, now: Time, ghost f: Frame)
    requires client.Valid() && client.frameCursors == []
    requires WellFormed(f) && Elements(es, f)
    modifies client
    ensures Received(client, f, old(client.currentFrame), old(client.cursorList), old(client.events))
    ensures Timed(client, f, old(client.currentFrame), old(client.currentTime), now)
  {
    CollectedStart(client, f);
    hide WellFormed, CursorItems, Collected, Received, Timed;
    for i := 0 to |es|
      invariant i < |es| ==> Collected(client, f, i)
      invariant i < |es| ==> client.currentTime == old(client.currentTime)
      invariant i == |es| ==> Timed(client, f, old(client.currentFrame), old(client.currentTime), now)
      invariant i < |es| ==> client.cursorList == old(client.cursorList) && client.events == old(client.events)
      invariant i < |es| ==> client.currentFrame == old(client.currentFrame)
      invariant i == |es| ==>
                  Received(client, f, old(client.currentFrame), old(client.cursorList), old(client.events))
    {
      if i < |es| - 1 {
        ProcessElement(client, es[i], now, f, i);
      } else {
        ProcessEnd(client, es[i], now, f);
      }
    }
  }

  /** A datagram as it comes from the network. */
  method ProcessPacket(client: TuioClient, packet: Bytes, now: Time, ghost f: Frame)
    requires client.Valid() && client.frameCursors == []
    requires WellFormed(f) && packet == Encode(FrameBundle(CURSOR_2D, f)) && |packet| < 0x1_0000_0000
    modifies client
    ensures Received(client, f, old(client.currentFrame), old(client.cursorList), old(client.events))
    ensures Timed(client, f, old(client.currentFrame), old(client.currentTime), now)
  {
    hide TuioClient.Valid, Decode, Encode, Received, WellFormed, Timed;
    FrameSurvivesTransport(CURSOR_2D, f);
    match Decode(packet)
    case Some(Bundle(_, es)) => ProcessBundle(client, es, now, f);
  }

  // ---------------------------------------------------------------- any bundles, in any order

  /** Exactly who is present after a bundle that was accepted. */
  lemma PresentAfter(v: Presence, f: Frame, n: int)
    requires WellFormed(f)
    ensures n in Merge(v, f.alive, f.sets) <==> n in f.alive && (n in v || SetsSession(f.sets, n))
  {
    SetMapKeys(f.sets, n);
  }

  /** What a client shows, the highest frame number, and the frame time. */
  datatype Shown = Shown(view: Presence, frame: int, time: Time)

  predicate AllCursorItems(fs: seq<Frame>) {
    forall f | f in fs :: CursorItems(f.sets)
  }

  /** One bundle of a sequence. */
  function ReceiveOne(s: Shown, f: Frame, now: Time): Shown
    requires CursorItems(f.sets)
  {
    Shown(if Late(s.frame, f.fseq) then s.view else Merge(s.view, f.alive, f.sets), NextFrame(s.frame, f.fseq),
          NextTime(s.frame, s.time, f.fseq, now))
  }

  /** The client after a sequence of bundles, whatever was lost or reordered before them. */
  function ReceiveAll(s: Shown, fs: seq<Frame>, times: seq<Time>): Shown
    requires AllCursorItems(fs) && |fs| == |times|
  {
    if fs == [] then s
    else
      var k := |fs| - 1;
      ReceiveOne(ReceiveAll(s, fs[..k], times[..k]), fs[k], times[k])
  }

  /** Positive numbers that are within a hundred of each other and of the client's. */
  ghost predicate Close(frame: int, fs: seq<Frame>) {
    && (forall f | f in fs :: f.fseq > 0 && frame - f.fseq <= 100)
    && (forall f, g | f in fs && g in fs :: f.fseq - g.fseq <= 100)
  }

  ghost predicate IsLargest(largest: int, frame: int, fs: seq<Frame>) {
    && frame <= largest && (forall f | f in fs :: f.fseq <= largest)
    && (largest != frame ==> exists f :: f in fs && f.fseq == largest)
  }

  ghost predicate Newest(f: Frame, frame: int, before: seq<Frame>) {
    frame <= f.fseq && forall g | g in before :: g.fseq <= f.fseq
  }

  /** The bundles whose number is not smaller than any that came before. */
  ghost function Ascending(frame: int, fs: seq<Frame>): (some: seq<Frame>)
    ensures forall f | f in some :: f in fs
  {
    if fs == [] then []
    else
      var init, last := fs[..|fs| - 1], fs[|fs| - 1];
      Ascending(frame, init) + if Newest(last, frame, init) then [last] else []
  }

  function MergeAll(v: Presence, fs: seq<Frame>): Presence
    requires AllCursorItems(fs)
  {
    if fs == [] then v
    else
      var last := fs[|fs| - 1];
      Merge(MergeAll(v, fs[..|fs| - 1]), last.alive, last.sets)
  }

  lemma MergeAllSnoc(v: Presence, fs: seq<Frame>, f: Frame)
    requires AllCursorItems(fs) && CursorItems(f.sets)
    ensures AllCursorItems(fs + [f]) && MergeAll(v, fs + [f]) == Merge(MergeAll(v, fs), f.alive, f.sets)
  {
    assert (fs + [f])[..|fs|] == fs;
  }

  /** The time at which the largest number came first. */
  ghost predicate FirstArrival(s: Shown, fs: seq<Frame>, times: seq<Time>, largest: int, time: Time)
    requires |fs| == |times|
  {
    if largest == s.frame then time == s.time
    else exists k: nat | k < |fs| ::
           fs[k].fseq == largest && time == times[k] && forall j: nat | j < k :: fs[j].fseq != largest
  }

  /** Bundles that are close to each other, in any order and with any of them missing: the largest
      number wins, what comes behind a larger number has no part in the view, and everything else
      has been merged in the order of its arrival. */
  ghost predicate LargestWins(s: Shown, fs: seq<Frame>, times: seq<Time>, t: Shown)
    requires AllCursorItems(fs) && |fs| == |times|
  {
    && IsLargest(t.frame, s.frame, fs)
    && AllCursorItems(Ascending(s.frame, fs)) && t.view == MergeAll(s.view, Ascending(s.frame, fs))
    && FirstArrival(s, fs, times, t.frame, t.time)
  }

  lemma FirstArrivalStep(s: Shown, init: seq<Frame>, times: seq<Time>, t: Shown, f: Frame, now: Time)
    requires |init| == |times| && f.fseq > 0 && IsLargest(t.frame, s.frame, init)
    requires FirstArrival(s, init, times, t.frame, t.time)
    ensures FirstArrival(s, init + [f], times + [now], if f.fseq > t.frame then f.fseq else t.frame,
                         NextTime(t.frame, t.time, f.fseq, now))
  {
    var fs, all := init + [f], times + [now];
    if f.fseq > t.frame {
      assert fs[|init|] == f && all[|init|] == now;
      forall j: nat | j < |init| ensures fs[j].fseq != f.fseq {
        assert fs[j] in init;
      }
    } else if t.frame != s.frame {
      var k: nat :| k < |init| && init[k].fseq == t.frame && t.time == times[k]
                    && forall j: nat | j < k :: init[j].fseq != t.frame;
      assert fs[k] == init[k] && all[k] == times[k];
      forall j: nat | j < k ensures fs[j].fseq != t.frame {
        assert fs[j] == init[j];
      }
    }
  }

  lemma AscendingSnoc(frame: int, init: seq<Frame>, f: Frame)
    ensures Ascending(frame, init + [f]) == Ascending(frame, init) + if Newest(f, frame, init) then [f] else []
  {
    assert (init + [f])[..|init|] == init;
  }

  lemma LargestSnoc(frame: int, init: seq<Frame>, largest: int, f: Frame)
    requires IsLargest(largest, frame, init)
    ensures Newest(f, frame, init) <==> f.fseq >= largest
    ensures IsLargest(if f.fseq > largest then f.fseq else largest, frame, init + [f])
  {
    var fs := init + [f];
    assert f in fs && forall g | g in init :: g in fs;
    assert forall g | g in fs :: g in init || g == f;
    if largest != frame {
      var g :| g in init && g.fseq == largest;
      assert g in fs;
    }
  }

  lemma ViewStep(frame: int, v: Presence, init: seq<Frame>, f: Frame)
    requires AllCursorItems(init) && CursorItems(f.sets)
    ensures AllCursorItems(init + [f]) && AllCursorItems(Ascending(frame, init))
    ensures AllCursorItems(Ascending(frame, init + [f]))
    ensures MergeAll(v, Ascending(frame, init + [f]))
         == var w := MergeAll(v, Ascending(frame, init));
            if Newest(f, frame, init) then Merge(w, f.alive, f.sets) else w
  {
    hide CursorItems, MergeAll, Merge, Ascending, Newest;
    AscendingSnoc(frame, init, f);
    if Newest(f, frame, init) {
      MergeAllSnoc(v, Ascending(frame, init), f);
    } else {
      assert Ascending(frame, init + [f]) == Ascending(frame, init);
    }
  }

  lemma CloseLast(frame: int, init: seq<Frame>, largest: int, f: Frame)
    requires Close(frame, init + [f]) && IsLargest(largest, frame, init)
    ensures f.fseq > 0 && largest - f.fseq <= 100
  {
    var fs := init + [f];
    assert f in fs && forall g | g in init :: g in fs;
  }

  lemma LargestStep(s: Shown, init: seq<Frame>, times: seq<Time>, t: Shown, f: Frame, now: Time)
    requires AllCursorItems(init) && |init| == |times| && CursorItems(f.sets)
    requires Close(s.frame, init + [f]) && LargestWins(s, init, times, t)
    ensures AllCursorItems(init + [f]) && LargestWins(s, init + [f], times + [now], ReceiveOne(t, f, now))
  {
    hide IsLargest, Newest, Ascending, Close, FirstArrival, NextTime, Merge, MergeAll, AllCursorItems, CursorItems;
    CloseLast(s.frame, init, t.frame, f);
    LargestSnoc(s.frame, init, t.frame, f);
    ViewStep(s.frame, s.view, init, f);
    FirstArrivalStep(s, init, times, t, f, now);
  }

  lemma {:induction false} ReceiveAllLargest(s: Shown, fs: seq<Frame>, times: seq<Time>)
    requires AllCursorItems(fs) && |fs| == |times| && Close(s.frame, fs)
    ensures LargestWins(s, fs, times, ReceiveAll(s, fs, times))
    decreases |fs|
  {
    if fs == [] {
    } else {
      var k := |fs| - 1;
      var init, early := fs[..k], times[..k];
      assert fs == init + [fs[k]] && times == early + [times[k]];
      assert forall f | f in init :: f in fs;
      hide LargestWins, ReceiveOne;
      ReceiveAllLargest(s, init, early);
      LargestStep(s, init, early, ReceiveAll(s, init, early), fs[k], times[k]);
    }
  }

  lemma WellFormedItems(f: Frame)
    requires WellFormed(f)
    ensures CursorItems(f.sets)
  {
  }

  ghost function ShownBy(client: TuioClient): Shown
    reads client
  {
    Shown(View(client.cursorList), client.currentFrame, client.currentTime)
  }

  lemma ReceivedOne(client: TuioClient, f: Frame, before: Shown, cursors: seq<TuioCursor>, told: seq<Event>, now: Time)
    requires CursorItems(f.sets) && before.view == View(cursors)
    requires Received(client, f, before.frame, cursors, told) && Timed(client, f, before.frame, before.time, now)
    ensures ShownBy(client) == ReceiveOne(before, f, now) && client.Valid() && client.frameCursors == []
  {
    TimeTaken(client, f, before.frame, before.time, now);
    hide TuioClient.Valid, View, Merge, CursorItems, Timed, NextTime;
  }

  lemma EveryTrace(client: TuioClient)
    requires client.Valid()
    ensures forall n :: Lives(About(client.events, n), n in View(client.cursorList))
  {
    hide View, Lives, About, Replay;
    forall n ensures Lives(About(client.events, n), n in View(client.cursorList)) {
      TraceGrammar(client.events, n);
    }
  }

  /** Safety under loss: whatever well-formed bundles arrive, in whatever order, the client's
      sessions stay distinct, its IDs stay in order, its listeners' trace replays to exactly
      its cursors, each session's part of the trace is (add update* remove)* up to an open
      suffix, and the result is the one that late bundles have no part in. */
  method ReceiveBundles(client: TuioClient, fs: seq<Frame>, bundles: seq<seq<Element>>, times: seq<Time>)
    requires client.Valid() && client.frameCursors == [] && |fs| == |bundles| == |times|
    requires forall i | 0 <= i < |fs| :: WellFormed(fs[i]) && Elements(bundles[i], fs[i])
    modifies client
    ensures client.Valid() && client.frameCursors == [] && AllCursorItems(fs)
    ensures ShownBy(client) == ReceiveAll(old(ShownBy(client)), fs, times)
    ensures Close(old(client.currentFrame), fs) ==> LargestWins(old(ShownBy(client)), fs, times, ShownBy(client))
    ensures forall n :: Lives(About(client.events, n), n in View(client.cursorList))
  {
    hide TuioClient.Valid, View, WellFormed, Elements, CursorItems, Received, Timed, ReceiveOne, LargestWins;
    ghost var start := ShownBy(client);
    assert AllCursorItems(fs) by {
      forall f | f in fs ensures CursorItems(f.sets) {
        var i :| 0 <= i < |fs| && fs[i] == f;
        WellFormedItems(fs[i]);
      }
    }
    for i := 0 to |fs|
      invariant client.Valid() && client.frameCursors == []
      invariant ShownBy(client) == ReceiveAll(start, fs[..i], times[..i])
    {
      assert fs[..i + 1][..i] == fs[..i] && times[..i + 1][..i] == times[..i];
      ghost var before, cursors, told := ShownBy(client), client.cursorList, client.events;
      ProcessBundle(client, bundles[i], times[i], fs[i]);
      ReceivedOne(client, fs[i], before, cursors, told, times[i]);
    }
    assert fs[..|fs|] == fs && times[..|fs|] == times;
    EveryTrace(client);
    if Close(start.frame, fs) {
      ReceiveAllLargest(start, fs, times);
    }
  }

  // ---------------------------------------------------------------- what a server's frame sets

  lemma CursorItemsOfCursors(cursors: seq<TuioCursor>, t: Time, full: bool)
    ensures CursorItems(TouchedItems(Entries(cursors, t, full)))
    decreases |cursors|
  {
    if cursors != [] {
      var init := cursors[..|cursors| - 1];
      assert Entries(cursors, t, full)[..|init|] == Entries(init, t, full);
      CursorItemsOfCursors(init, t, full);
    }
  }

  lemma FindSnoc(init: seq<TuioCursor>, last: TuioCursor, n: int)
    requires DistinctSessions(init + [last])
    ensures
      var k := Find(init + [last], n);
      && (n == last.session ==> k == |init|)
      && (n != last.session ==> k == if Find(init, n) < |init| then Find(init, n) else |init| + 1)
  {
    hide Find;
    var all := init + [last];
    if n == last.session {
      FindAt(all, |init|);
    } else if Find(init, n) < |init| {
      assert all[Find(init, n)].session == n;
      FindAt(all, Find(init, n));
    } else {
      forall i | 0 <= i < |init| ensures all[i].session != n {
        assert all[i] == init[i];
      }
    }
  }

  lemma TouchedSetMap(init: seq<TuioCursor>, last: TuioCursor, t: Time, full: bool)
    ensures CursorItems(TouchedItems(Entries(init, t, full))) &&
            CursorItems(TouchedItems(Entries(init + [last], t, full)))
    ensures SetMap(TouchedItems(Entries(init + [last], t, full)))
         == if Touched(last, t, full) then SetMap(TouchedItems(Entries(init, t, full)))[last.session := last.pos]
            else SetMap(TouchedItems(Entries(init, t, full)))
  {
    CursorItemsOfCursors(init, t, full);
    CursorItemsOfCursors(init + [last], t, full);
    var items, es := TouchedItems(Entries(init, t, full)), Entries(init + [last], t, full);
    assert es[..|init|] == Entries(init, t, full) && es[|init|] == Entry(CursorItem(last), Touched(last, t, full));
    if Touched(last, t, full) {
      assert (items + [CursorItem(last)])[..|items|] == items;
    } else {
      assert items + [] == items;
    }
  }

  /** The set messages of a frame say where the touched cursors are. */
  lemma {:induction false} SetsSayWhere(cursors: seq<TuioCursor>, t: Time, full: bool, n: int)
    requires DistinctSessions(cursors)
    ensures CursorItems(TouchedItems(Entries(cursors, t, full)))
    ensures
      var m, k := SetMap(TouchedItems(Entries(cursors, t, full))), Find(cursors, n);
      && (n in m <==> k < |cursors| && Touched(cursors[k], t, full))
      && (n in m ==> m[n] == cursors[k].pos)
    decreases |cursors|
  {
    CursorItemsOfCursors(cursors, t, full);
    if cursors != [] {
      hide Find, DistinctSessions, SetMap;
      var init, last := cursors[..|cursors| - 1], cursors[|cursors| - 1];
      var es := Entries(cursors, t, full);
      assert cursors == init + [last] && es[..|init|] == Entries(init, t, full);
      DistinctSnoc(init, last);
      SetsSayWhere(init, t, full, n);
      FindSnoc(init, last, n);
      TouchedSetMap(init, last, t, full);
    } else {
      assert TouchedItems(Entries(cursors, t, full)) == [];
    }
  }

  lemma {:induction false} ItemSessions(cursors: seq<TuioCursor>, t: Time, full: bool)
    requires DistinctSessions(cursors)
    ensures DistinctItems(TouchedItems(Entries(cursors, t, full)))
    ensures forall it | it in TouchedItems(Entries(cursors, t, full)) :: it.session in SessionSet(cursors)
    decreases |cursors|
  {
    if cursors == [] {
      assert Entries(cursors, t, full) == [];
    } else {
      var init, last := cursors[..|cursors| - 1], cursors[|cursors| - 1];
      var es := Entries(cursors, t, full);
      assert cursors == init + [last] && es[..|init|] == Entries(init, t, full);
      DistinctSnoc(init, last);
      ItemSessions(init, t, full);
    }
  }

  lemma {:induction false} GroupOfFlatten(groups: seq<seq<Item>>, k: nat)
    requires k < |groups| && DistinctItems(Flatten(groups))
    ensures DistinctItems(groups[k]) && (forall it | it in groups[k] :: it in Flatten(groups))
    decreases |groups|
  {
    var init, last := groups[..|groups| - 1], groups[|groups| - 1];
    var all, before := Flatten(groups), Flatten(init);
    assert all == before + last;
    if k < |init| {
      forall i, j | 0 <= i < j < |before| ensures before[i].session != before[j].session {
        assert all[i].session != all[j].session;
      }
      GroupOfFlatten(init, k);
    } else {
      forall i, j | 0 <= i < j < |last| ensures last[i].session != last[j].session {
        assert all[|before| + i].session != all[|before| + j].session;
      }
    }
  }

  lemma AliveSessions(cursors: seq<TuioCursor>, n: int)
    ensures n in AliveList(cursors) <==> n in SessionSet(cursors)
  {
    if n in SessionSet(cursors) {
      var c :| c in cursors && c.session == n;
      var i :| 0 <= i < |cursors| && cursors[i] == c;
      assert AliveList(cursors)[i] == n;
    }
  }

  /** Every packet of a committed frame is a well-formed bundle. */
  lemma GroupsWellFormed(cursors: seq<TuioCursor>, t: Time, full: bool, groups: seq<seq<Item>>, k: nat, fseq: I32)
    requires DistinctSessions(cursors) && k < |groups|
    requires Flatten(groups) == TouchedItems(Entries(cursors, t, full)) || Flatten(groups) == []
    ensures WellFormed(Frame(AliveList(cursors), groups[k], fseq))
  {
    hide TouchedItems, Flatten;
    ItemSessions(cursors, t, full);
    CursorItemsOfCursors(cursors, t, full);
    GroupOfFlatten(groups, k);
    forall it | it in groups[k] ensures it.session in AliveList(cursors) {
      AliveSessions(cursors, it.session);
    }
  }

  // ---------------------------------------------------------------- convergence

  /** A client's view after the first `k` packets of a frame. */
  ghost predicate ViewAfter(v: Presence, alive: seq<I32>, groups: seq<seq<Item>>, k: nat, w: Presence) {
    && k <= |groups|
    && CursorItems(Flatten(groups[..k])) && (forall it | it in Flatten(groups[..k]) :: it.session in alive)
    && w == if k == 0 then v else Merge(v, alive, Flatten(groups[..k]))
  }

  lemma GroupStep(v: Presence, alive: seq<I32>, groups: seq<seq<Item>>, k: nat, w: Presence, fseq: I32)
    requires ViewAfter(v, alive, groups, k, w) && k < |groups| && WellFormed(Frame(alive, groups[k], fseq))
    ensures ViewAfter(v, alive, groups, k + 1, Merge(w, alive, groups[k]))
  {
    hide Merge;
    assert groups[..k + 1] == groups[..k] + [groups[k]];
    FlattenSnoc(groups[..k], groups[k]);
    if k == 0 {
      assert Flatten(groups[..k]) + groups[k] == groups[k];
    } else {
      MergeConcat(v, alive, Flatten(groups[..k]), groups[k]);
    }
  }

  lemma ViewBefore(v: Presence, alive: seq<I32>, groups: seq<seq<Item>>)
    ensures ViewAfter(v, alive, groups, 0, v)
  {
  }

  method DeliverPacket(client: TuioClient, packet: Bytes, now: Time,
                       ghost v: Presence, ghost alive: seq<I32>, ghost groups: seq<seq<Item>>, ghost k: nat,
                       ghost fseq: I32)
    requires client.Valid() && client.frameCursors == [] && !Late(client.currentFrame, fseq)
    requires ViewAfter(v, alive, groups, k, View(client.cursorList))
    requires k < |groups| && WellFormed(Frame(alive, groups[k], fseq)) && |packet| < 0x1_0000_0000
    requires packet == Encode(FrameBundle(CURSOR_2D, Frame(alive, groups[k], fseq)))
    modifies client
    ensures client.Valid() && client.frameCursors == [] && !Late(client.currentFrame, fseq)
    ensures ViewAfter(v, alive, groups, k + 1, View(client.cursorList))
    ensures client.currentFrame == old(client.currentFrame) || client.currentFrame == fseq
  {
    ghost var f := Frame(alive, groups[k], fseq);
    GroupStep(v, alive, groups, k, View(client.cursorList), fseq);
    hide TuioClient.Valid, View, ViewAfter, Merge, Encode;
    ProcessPacket(client, packet, now, f);
  }

  /** The client processes the packets of one committed frame, all of them and in order. */
  method DeliverFrame(client: TuioClient, packets: seq<Bytes>, now: Time,
                      ghost alive: seq<I32>, ghost groups: seq<seq<Item>>, ghost fseq: I32)
    requires client.Valid() && client.frameCursors == [] && !Late(client.currentFrame, fseq)
    requires packets == FramePackets(CURSOR_2D, alive, groups, fseq) && PacketsFit(packets, 0xFFFF_FFFF)
    requires forall k | 0 <= k < |groups| :: WellFormed(Frame(alive, groups[k], fseq))
    modifies client
    ensures client.Valid() && client.frameCursors == []
    ensures ViewAfter(old(View(client.cursorList)), alive, groups, |groups|, View(client.cursorList))
    ensures client.currentFrame == old(client.currentFrame) || client.currentFrame == fseq
  {
    ghost var v := View(client.cursorList);
    ViewBefore(v, alive, groups);
    hide TuioClient.Valid, View, ViewAfter, Encode, WellFormed, Late;
    for k := 0 to |packets|
      invariant client.Valid() && client.frameCursors == [] && !Late(client.currentFrame, fseq)
      invariant ViewAfter(v, alive, groups, k, View(client.cursorList))
      invariant client.currentFrame == old(client.currentFrame) || client.currentFrame == fseq
    {
      assert packets[k] in packets;
      DeliverPacket(client, packets[k], now, v, alive, groups, k, fseq);
    }
  }

  lemma ServerFacts(server: TuioServer)
    requires server.Valid()
    ensures DistinctSessions(server.cursorList) && server.oscPacket.Capacity() <= 0xFFFF_FFFF
  {
  }

  lemma SmallPackets(packets: seq<Bytes>, capacity: nat)
    requires PacketsFit(packets, capacity) && capacity <= 0xFFFF_FFFF
    ensures PacketsFit(packets, 0xFFFF_FFFF)
  {
  }

  lemma GroupsOfCommit(cursors: seq<TuioCursor>, t: Time, full: bool, changed: bool, groups: seq<seq<Item>>, k: nat,
                       fseq: I32)
    requires DistinctSessions(cursors) && k < |groups|
    requires Flatten(groups) == if changed then TouchedItems(Entries(cursors, t, full)) else TouchedItems([])
    ensures WellFormed(Frame(AliveList(cursors), groups[k], fseq))
  {
    hide Flatten, Entries, AliveList, WellFormed;
    GroupsWellFormed(cursors, t, full, groups, k, fseq);
  }
}
