/** TUIO's server: it keeps the cursors that are present and, frame by frame, sends what has
    changed (TuioServer.cpp). */
module TuioServers {
  import opened Basics
  import opened OscEncoding
  import opened OscStream
  import opened TuioCursors
  import opened TuioPackets

  // ---------------------------------------------------------------- splitting a frame

  datatype Entry = Entry(item: Item, touched: bool)

  /** The entries whose set messages have to be sent. */
  function TouchedItems(entries: seq<Entry>): seq<Item> {
    if entries == [] then []
    else
      var last := entries[|entries| - 1];
      TouchedItems(entries[..|entries| - 1]) + if last.touched then [last.item] else []
  }

  function Flatten(groups: seq<seq<Item>>): seq<Item> {
    if groups == [] then [] else Flatten(groups[..|groups| - 1]) + groups[|groups| - 1]
  }

  lemma FlattenSnoc(groups: seq<seq<Item>>, g: seq<Item>)
    ensures Flatten(groups + [g]) == Flatten(groups) + g
  {
    assert (groups + [g])[..|groups|] == groups;
  }

  lemma TouchedSnoc(entries: seq<Entry>, i: nat)
    requires i < |entries|
    ensures TouchedItems(entries[..i + 1])
         == TouchedItems(entries[..i]) + if entries[i].touched then [entries[i].item] else []
  {
    assert entries[..i + 1][..i] == entries[..i];
  }

  lemma {:induction false} TouchedGrow(entries: seq<Entry>, i: nat)
    requires i <= |entries| && TouchedItems(entries[..i]) != []
    ensures TouchedItems(entries) != []
    decreases |entries| - i
  {
    if i < |entries| {
      TouchedSnoc(entries, i);
      TouchedGrow(entries, i + 1);
    } else {
      assert entries[..i] == entries;
    }
  }

  function FramePackets(address: CString, alive: seq<I32>, groups: seq<seq<Item>>, fseq: I32): (p: seq<Bytes>)
    ensures |p| == |groups|
  {
    seq(|groups|, i requires 0 <= i < |groups| => Encode(FrameBundle(address, Frame(alive, groups[i], fseq))))
  }

  lemma FramePacketsSnoc(address: CString, alive: seq<I32>, groups: seq<seq<Item>>, g: seq<Item>, fseq: I32)
    ensures FramePackets(address, alive, groups + [g], fseq)
         == FramePackets(address, alive, groups, fseq) + [Encode(FrameBundle(address, Frame(alive, g, fseq)))]
  {
  }

  function SizeWith(address: CString, alive: seq<I32>, sets: seq<Item>): nat {
    BundleSize(Unfinished(address, alive, sets))
  }

  /** When a frame can be sent: the alive and fseq messages fit one packet, and if there is
      anything to set, one set message fits beside them. */
  predicate FrameFits(address: CString, alive: seq<I32>, touched: seq<Item>, limit: nat, capacity: nat) {
    SizeWith(address, alive, []) + (if touched == [] then 32 else limit) <= capacity
  }

  /** The condition in terms of the number of cursors that are present. */
  lemma RoomForCursors(alive: seq<I32>, touched: seq<Item>, limit: nat, capacity: nat)
    ensures FrameFits(CURSOR_2D, alive, touched, limit, capacity)
       <==> 40 + RoundUp4(|alive| + 3) + 4 * |alive| + (if touched == [] then 32 else limit) <= capacity
  {
    hide Encode;
    AliveMessageSize(CURSOR_2D, alive);
    assert Unfinished(CURSOR_2D, alive, []) == [] + [AliveMessage(CURSOR_2D, alive)];
    BundleSizeSnoc([], AliveMessage(CURSOR_2D, alive));
    assert BundleSize([]) == 16;
  }

  /** All groups but the last were closed only because one more set message and the fseq
      message would not have fitted. */
  predicate FullGroups(address: CString, alive: seq<I32>, groups: seq<seq<Item>>, limit: nat, capacity: nat) {
    forall k | 0 <= k < |groups| - 1 :: SizeWith(address, alive, groups[k]) + limit > capacity
  }

  predicate PacketsFit(packets: seq<Bytes>, capacity: nat) {
    forall p | p in packets :: |p| <= capacity
  }

  lemma FrameBundleSize(address: CString, alive: seq<I32>, sets: seq<Item>, fseq: I32)
    requires Address(address)
    ensures |Encode(FrameBundle(address, Frame(alive, sets, fseq)))| == SizeWith(address, alive, sets) + 32
  {
    FseqMessageSize(address, fseq);
    BundleSizeSnoc(Unfinished(address, alive, sets), FseqMessage(address, fseq));
  }

  /** sendCursorBundle followed by startCursorBundle. */
  method Flush(s: OutboundPacketStream, address: CString, alive: seq<I32>, ghost g: seq<Item>, fseq: I32,
               packets: seq<Bytes>, ghost groups: seq<seq<Item>>)
    returns (ok: bool, packets': seq<Bytes>, ghost groups': seq<seq<Item>>)
    requires Address(address) && Holds(s, Unfinished(address, alive, g))
    requires SizeWith(address, alive, []) <= s.Capacity()
    requires packets == FramePackets(address, alive, groups, fseq) && PacketsFit(packets, s.Capacity())
    modifies s, s.data
    ensures s.Valid()
    ensures ok <==> SizeWith(address, alive, g) + 32 <= s.Capacity()
    ensures groups' == if ok then groups + [g] else groups
    ensures packets' == FramePackets(address, alive, groups', fseq) && PacketsFit(packets', s.Capacity())
    ensures ok ==> Holds(s, Unfinished(address, alive, []))
  {
    packets', groups' := packets, groups;
    var packet;
    ok, packet := FinishBundle(s, address, alive, g, fseq);
    if ok {
      FrameBundleSize(address, alive, g, fseq);
      FramePacketsSnoc(address, alive, groups, g, fseq);
      packets', groups' := packets + [packet], groups + [g];
      ok := StartBundle(s, address, alive);
    }
  }

  /** How far commitFrame has come after `i` entries: the groups already sent, and the one
      in the open bundle. */
  ghost predicate Progress(address: CString, alive: seq<I32>, entries: seq<Entry>, i: nat, limit: nat, capacity: nat,
                           groups: seq<seq<Item>>, g: seq<Item>)
  {
    var start := SizeWith(address, alive, []);
    && i <= |entries| && start <= capacity
    && Flatten(groups) + g == TouchedItems(entries[..i])
    && (g != [] ==> SizeWith(address, alive, g) + 32 >= start + limit)
    && (g != [] && start + limit <= capacity ==> SizeWith(address, alive, g) + 32 <= capacity)
    && (groups != [] ==> start + 32 <= capacity)
    && (Flatten(groups) != [] ==> start + limit <= capacity)
    && FullGroups(address, alive, groups, limit, capacity)
    && (groups != [] ==> SizeWith(address, alive, groups[|groups| - 1]) + limit > capacity)
  }

  lemma ProgressStart(address: CString, alive: seq<I32>, entries: seq<Entry>, limit: nat, capacity: nat)
    requires limit >= 32
    ensures BundleSize(Unfinished(address, alive, [])) <= capacity ==>
              Progress(address, alive, entries, 0, limit, capacity, [], [])
    ensures BundleSize(Unfinished(address, alive, [])) > capacity ==>
              !FrameFits(address, alive, TouchedItems(entries), limit, capacity)
  {
    assert entries[..0] == [];
  }

  lemma ProgressFlush(address: CString, alive: seq<I32>, entries: seq<Entry>, i: nat, limit: nat, capacity: nat,
                      groups: seq<seq<Item>>, g: seq<Item>)
    requires Progress(address, alive, entries, i, limit, capacity, groups, g)
    requires SizeWith(address, alive, g) + 32 <= capacity
    ensures SizeWith(address, alive, g) + limit > capacity ==>
              Progress(address, alive, entries, i, limit, capacity, groups + [g], [])
    ensures i == |entries| && limit >= 32 ==> FrameFits(address, alive, TouchedItems(entries), limit, capacity)
    ensures i == |entries| ==> Flatten(groups + [g]) == TouchedItems(entries)
    ensures FullGroups(address, alive, groups + [g], limit, capacity)
  {
    FlattenSnoc(groups, g);
    assert Flatten(groups + [g]) + [] == Flatten(groups) + g;
    if i == |entries| {
      assert entries[..i] == entries;
    }
  }

  lemma ProgressFails(address: CString, alive: seq<I32>, entries: seq<Entry>, i: nat, limit: nat, capacity: nat,
                      groups: seq<seq<Item>>, g: seq<Item>)
    requires Progress(address, alive, entries, i, limit, capacity, groups, g) && limit >= 32
    requires SizeWith(address, alive, g) + 32 > capacity
    ensures !FrameFits(address, alive, TouchedItems(entries), limit, capacity)
  {
    if g != [] {
      TouchedGrow(entries, i);
    }
  }

  lemma ProgressEntry(address: CString, alive: seq<I32>, entries: seq<Entry>, i: nat, limit: nat, capacity: nat,
                      groups: seq<seq<Item>>, g: seq<Item>)
    requires Progress(address, alive, entries, i, limit, capacity, groups, g)
    requires g == [] || SizeWith(address, alive, g) + limit <= capacity
    requires i < |entries| && 4 + |Encode(SetMessage(address, entries[i].item))| + 32 == limit
    ensures
      var g' := if entries[i].touched then g + [entries[i].item] else g;
      && Progress(address, alive, entries, i + 1, limit, capacity, groups, g')
      && (SizeWith(address, alive, g') > capacity ==>
            !FrameFits(address, alive, TouchedItems(entries), limit, capacity))
  {
    TouchedSnoc(entries, i);
    if entries[i].touched {
      SetMessageGrows(address, alive, g, entries[i].item);
      assert Flatten(groups) + (g + [entries[i].item]) == (Flatten(groups) + g) + [entries[i].item];
      TouchedGrow(entries, i + 1);
    }
  }

  method SplitHere(s: OutboundPacketStream, address: CString, alive: seq<I32>, entries: seq<Entry>, ghost i: nat,
                   limit: nat, fseq: I32, packets: seq<Bytes>, ghost groups: seq<seq<Item>>, ghost g: seq<Item>)
    returns (ok: bool, packets': seq<Bytes>, ghost groups': seq<seq<Item>>, ghost g': seq<Item>)
    requires Address(address) && limit >= 32 && Holds(s, Unfinished(address, alive, g))
    requires packets == FramePackets(address, alive, groups, fseq) && PacketsFit(packets, s.Capacity())
    requires Progress(address, alive, entries, i, limit, s.Capacity(), groups, g)
    requires SizeWith(address, alive, g) + limit > s.Capacity()
    modifies s, s.data
    ensures s.Valid()
    ensures packets' == FramePackets(address, alive, groups', fseq) && PacketsFit(packets', s.Capacity())
    ensures ok ==> g' == [] && Holds(s, Unfinished(address, alive, g'))
    ensures ok ==> Progress(address, alive, entries, i, limit, s.Capacity(), groups', g')
    ensures !ok ==> !FrameFits(address, alive, TouchedItems(entries), limit, s.Capacity())
  {
    ok, packets', groups' := Flush(s, address, alive, g, fseq, packets, groups);
    g' := [];
    if ok {
      ProgressFlush(address, alive, entries, i, limit, s.Capacity(), groups, g);
    } else {
      ProgressFails(address, alive, entries, i, limit, s.Capacity(), groups, g);
    }
  }

  method AddEntry(s: OutboundPacketStream, address: CString, alive: seq<I32>, entries: seq<Entry>, i: nat,
                  limit: nat, ghost groups: seq<seq<Item>>, ghost g: seq<Item>)
    returns (ok: bool, ghost g': seq<Item>)
    requires Holds(s, Unfinished(address, alive, g))
    requires i < |entries| && 4 + |Encode(SetMessage(address, entries[i].item))| + 32 == limit
    requires Progress(address, alive, entries, i, limit, s.Capacity(), groups, g)
    requires g == [] || SizeWith(address, alive, g) + limit <= s.Capacity()
    modifies s, s.data
    ensures s.Valid()
    ensures ok ==> Holds(s, Unfinished(address, alive, g'))
    ensures ok ==> Progress(address, alive, entries, i + 1, limit, s.Capacity(), groups, g')
    ensures !ok ==> !FrameFits(address, alive, TouchedItems(entries), limit, s.Capacity())
  {
    ProgressEntry(address, alive, entries, i, limit, s.Capacity(), groups, g);
    ok, g' := true, g;
    if entries[i].touched {
      UnfinishedSnoc(address, alive, g, entries[i].item);
      ok := PutMessage(s, Unfinished(address, alive, g), SetMessage(address, entries[i].item));
      g' := g + [entries[i].item];
    }
  }

  method SendEntry(s: OutboundPacketStream, address: CString, alive: seq<I32>, entries: seq<Entry>, i: nat,
                   limit: nat, fseq: I32, packets: seq<Bytes>, ghost groups: seq<seq<Item>>, ghost g: seq<Item>)
    returns (ok: bool, packets': seq<Bytes>, ghost groups': seq<seq<Item>>, ghost g': seq<Item>)
    requires Address(address) && limit >= 32 && Holds(s, Unfinished(address, alive, g))
    requires packets == FramePackets(address, alive, groups, fseq) && PacketsFit(packets, s.Capacity())
    requires Progress(address, alive, entries, i, limit, s.Capacity(), groups, g)
    requires i < |entries| && 4 + |Encode(SetMessage(address, entries[i].item))| + 32 == limit
    modifies s, s.data
    ensures s.Valid()
    ensures packets' == FramePackets(address, alive, groups', fseq) && PacketsFit(packets', s.Capacity())
    ensures ok ==> Holds(s, Unfinished(address, alive, g'))
    ensures ok ==> Progress(address, alive, entries, i + 1, limit, s.Capacity(), groups', g')
    ensures !ok ==> !FrameFits(address, alive, TouchedItems(entries), limit, s.Capacity())
  {
    ok, packets', groups', g' := true, packets, groups, g;
    HoldsSize(s, Unfinished(address, alive, g));
    if s.Capacity() - s.Size() < limit {
      ok, packets', groups', g' := SplitHere(s, address, alive, entries, i, limit, fseq, packets, groups, g);
    }
    if ok {
      ok, g' := AddEntry(s, address, alive, entries, i, limit, groups', g');
    }
  }

  method FinishFrame(s: OutboundPacketStream, address: CString, alive: seq<I32>, entries: seq<Entry>,
                     limit: nat, fseq: I32, packets: seq<Bytes>, ghost groups: seq<seq<Item>>, ghost g: seq<Item>)
    returns (ok: bool, packets': seq<Bytes>, ghost groups': seq<seq<Item>>)
    requires Address(address) && limit >= 32 && Holds(s, Unfinished(address, alive, g))
    requires packets == FramePackets(address, alive, groups, fseq) && PacketsFit(packets, s.Capacity())
    requires Progress(address, alive, entries, |entries|, limit, s.Capacity(), groups, g)
    modifies s, s.data
    ensures s.Valid()
    ensures packets' == FramePackets(address, alive, groups', fseq) && PacketsFit(packets', s.Capacity())
    ensures ok <==> FrameFits(address, alive, TouchedItems(entries), limit, s.Capacity())
    ensures ok ==> groups' != [] && Flatten(groups') == TouchedItems(entries)
    ensures ok ==> FullGroups(address, alive, groups', limit, s.Capacity())
  {
    packets', groups' := packets, groups;
    var packet;
    ok, packet := FinishBundle(s, address, alive, g, fseq);
    if ok {
      ProgressFlush(address, alive, entries, |entries|, limit, s.Capacity(), groups, g);
      FrameBundleSize(address, alive, g, fseq);
      FramePacketsSnoc(address, alive, groups, g, fseq);
      packets', groups' := packets + [packet], groups + [g];
    } else {
      ProgressFails(address, alive, entries, |entries|, limit, s.Capacity(), groups, g);
    }
  }

  /** The loop of commitFrame: a new bundle is started whenever the current one has less than
      `limit` bytes left.  It gets through exactly if the frame fits; then every touched entry
      is set in exactly one packet, in order, and every packet is the complete encoding of a
      bundle with the full alive list and the same fseq, within the capacity. */
  method SendSplit(s: OutboundPacketStream, address: CString, alive: seq<I32>, entries: seq<Entry>, limit: nat,
                   fseq: I32)
    returns (ok: bool, packets: seq<Bytes>, ghost groups: seq<seq<Item>>)
    requires s.Valid() && Address(address) && limit >= 32
    requires forall e | e in entries :: 4 + |Encode(SetMessage(address, e.item))| + 32 == limit
    modifies s, s.data
    ensures s.Valid()
    ensures ok <==> FrameFits(address, alive, TouchedItems(entries), limit, s.Capacity())
    ensures packets == FramePackets(address, alive, groups, fseq) && PacketsFit(packets, s.Capacity())
    ensures ok ==> groups != [] && Flatten(groups) == TouchedItems(entries)
    ensures ok ==> FullGroups(address, alive, groups, limit, s.Capacity())
  {
    hide Holds, Progress, FrameFits, SizeWith, Unfinished, Started, OutboundPacketStream.Valid;
    ghost var g: seq<Item> := [];
    packets, groups := [], [];
    ProgressStart(address, alive, entries, limit, s.Capacity());
    ok := StartBundle(s, address, alive);
    var i := 0;
    while ok && i < |entries|
      invariant s.Valid() && i <= |entries|
      invariant packets == FramePackets(address, alive, groups, fseq) && PacketsFit(packets, s.Capacity())
      invariant ok ==> Holds(s, Unfinished(address, alive, g))
      invariant ok ==> Progress(address, alive, entries, i, limit, s.Capacity(), groups, g)
      invariant !ok ==> !FrameFits(address, alive, TouchedItems(entries), limit, s.Capacity())
      decreases |entries| - i, ok
    {
      ok, packets, groups, g := SendEntry(s, address, alive, entries, i, limit, fseq, packets, groups, g);
      if ok {
        i := i + 1;
      }
    }
    if ok {
      ok, packets, groups := FinishFrame(s, address, alive, entries, limit, fseq, packets, groups, g);
    }
  }

  // ---------------------------------------------------------------- the server

  /** "setMessage + seqMessage size" */
  const CUR_MESSAGE_SIZE := 88

  function CursorItem(c: TuioCursor): Item {
    Item(c.session, [Float(c.pos.x), Float(c.pos.y), Float(c.motion.xSpeed), Float(c.motion.ySpeed),
         Float(c.motion.accel)])
  }

  function AliveList(cursors: seq<TuioCursor>): (ids: seq<I32>)
    ensures |ids| == |cursors|
  {
    seq(|cursors|, i requires 0 <= i < |cursors| => cursors[i].session)
  }

  /** A cursor is sent if everything is, or if this frame touched it. */
  predicate Touched(c: TuioCursor, frameTime: Time, fullUpdate: bool) {
    fullUpdate || c.time == frameTime
  }

  function Entries(cursors: seq<TuioCursor>, frameTime: Time, fullUpdate: bool): (es: seq<Entry>)
    ensures |es| == |cursors|
  {
    seq(|cursors|, i requires 0 <= i < |cursors| =>
      Entry(CursorItem(cursors[i]), Touched(cursors[i], frameTime, fullUpdate)))
  }

  lemma CursorMessagesFitTheLimit(cursors: seq<TuioCursor>, frameTime: Time, fullUpdate: bool, fseq: I32)
    ensures forall e | e in Entries(cursors, frameTime, fullUpdate) ::
              4 + |Encode(SetMessage(CURSOR_2D, e.item))| + 32 == CUR_MESSAGE_SIZE
  {
    forall e | e in Entries(cursors, frameTime, fullUpdate)
      ensures 4 + |Encode(SetMessage(CURSOR_2D, e.item))| + 32 == CUR_MESSAGE_SIZE
    {
      ThresholdsAreTight(CURSOR_2D, e.item, fseq);
      FseqMessageSize(CURSOR_2D, fseq);
    }
  }

  function Max(a: int, b: int): int {
    if a < b then b else a
  }

  class TuioServer {
    const oscPacket: OutboundPacketStream
    const fullUpdate: bool
    const periodicUpdate: bool
    const distance: Distance
    const motion: (TuioCursor, Time, Position) -> Motion  // speeds computed from the last position

    var cursorList: seq<TuioCursor>
    var freeCursorList: seq<TuioCursor>
    var maxCursorID: int
    var sessionID: I32
    var currentFrame: I32
    var currentFrameTime: Time
    var lastCursorUpdate: int
    var updateCursor: bool
    var sent: seq<Bytes>  // what went to the socket

    ghost var peak: nat  // the most cursors ever present at once

    ghost predicate Valid()
      reads this, oscPacket, oscPacket.data
    {
      && oscPacket.Valid()
      && PoolOk(cursorList, freeCursorList, maxCursorID)
      && DistinctSessions(cursorList) && (forall c | c in cursorList :: c.session <= sessionID)
      && |cursorList| <= peak && maxCursorID + 1 <= peak
      && -1 <= sessionID && -1 <= currentFrame
    }

    constructor (packet: OutboundPacketStream, now: Time, full: bool, periodic: bool,
                 dist: Distance, motionOf: (TuioCursor, Time, Position) -> Motion)
      requires packet.Valid()
      ensures Valid() && oscPacket == packet && fullUpdate == full && periodicUpdate == periodic
      ensures distance == dist && motion == motionOf
      ensures cursorList == [] && sent == [] && !updateCursor && currentFrame == sessionID == -1
    {
      oscPacket := packet;
      fullUpdate := full;
      periodicUpdate := periodic;
      distance := dist;
      motion := motionOf;
      cursorList := [];
      freeCursorList := [];
      maxCursorID := -1;
      sessionID := -1;
      currentFrame := -1;
      currentFrameTime := now;
      lastCursorUpdate := now.seconds;
      updateCursor := false;
      sent := [];
      peak := 0;
    }

    method AddTuioCursor(at: Position) returns (cursor: TuioCursor)
      requires Valid() && sessionID < 0x7FFF_FFFF
      modifies `cursorList, `freeCursorList, `maxCursorID, `sessionID, `updateCursor, `peak
      ensures Valid() && updateCursor
      ensures sessionID == old(sessionID) + 1
      ensures cursor == TuioCursor(currentFrameTime, sessionID, cursor.id, at, AT_REST)
      ensures cursorList == old(cursorList) + [cursor]
      ensures View(cursorList) == old(View(cursorList))[cursor.session := at]
      ensures peak == Max(old(peak), |cursorList|)
      ensures old(freeCursorList) == [] ==> cursor.id == maxCursorID == old(maxCursorID) + 1 && freeCursorList == []
      ensures old(freeCursorList) != [] ==> maxCursorID == old(maxCursorID)
      ensures old(freeCursorList) != [] ==>
                TookClosest(old(freeCursorList), at, distance, cursor.id, freeCursorList)
    {
      hide PoolOk, View, OutboundPacketStream.Valid;
      sessionID := sessionID + 1;
      var cursorID, free, max := TakeId(cursorList, freeCursorList, maxCursorID, at, distance);
      cursor := TuioCursor(currentFrameTime, sessionID, cursorID, at, AT_REST);
      ViewAppend(cursorList, cursor);
      cursorList := cursorList + [cursor];
      freeCursorList, maxCursorID := free, max;
      updateCursor := true;
      peak := Max(peak, |cursorList|);
    }

    function Moved(c: TuioCursor, at: Position): TuioCursor
      reads `currentFrameTime
    {
      c.(time := currentFrameTime, pos := at, motion := motion(c, currentFrameTime, at))
    }

    predicate Movable(session: int)
      reads this
    {
      var k := Find(cursorList, session);
      k < |cursorList| && cursorList[k].time != currentFrameTime
    }

    method MoveCursor(k: nat, at: Position)
      requires Valid() && k < |cursorList|
      modifies `cursorList, `updateCursor
      ensures Valid() && updateCursor
      ensures cursorList == old(cursorList)[k := Moved(old(cursorList)[k], at)]
      ensures View(cursorList) == old(View(cursorList))[old(cursorList)[k].session := at]
    {
      hide PoolOk, View, Find, OutboundPacketStream.Valid;
      var c := Moved(cursorList[k], at);
      ViewUpdate(cursorList, k, c);
      UpdateKeepsPool(cursorList, freeCursorList, maxCursorID, k, c);
      cursorList := cursorList[k := c];
      updateCursor := true;
    }

    /** The cursor is named by its session; one that is not there is the null pointer.  A
        cursor that this frame has already touched is left alone. */
    method UpdateTuioCursor(session: int, at: Position)
      requires Valid()
      modifies `cursorList, `updateCursor
      ensures Valid()
      ensures !old(Movable(session)) ==> unchanged(`cursorList, `updateCursor)
      ensures old(Movable(session)) ==>
                var k := Find(old(cursorList), session);
                && cursorList == old(cursorList)[k := Moved(old(cursorList)[k], at)]
                && View(cursorList) == old(View(cursorList))[session := at] && updateCursor
    {
      hide PoolOk, View, OutboundPacketStream.Valid;
      var k := Find(cursorList, session);
      if k == |cursorList| {
        return;
      }
      if cursorList[k].time == currentFrameTime {
        return;
      }
      MoveCursor(k, at);
    }

    /** What becomes of the removed cursor's ID. */
    ghost predicate Released(c: TuioCursor, free: seq<TuioCursor>, max: int)
      reads this
    {
      && (c.id != max ==> maxCursorID == max && freeCursorList == free + [c])
      && (c.id == max ==> maxCursorID < max && freeCursorList == Pruned(free, maxCursorID))
    }

    method DropCursor(k: nat)
      requires Valid() && k < |cursorList|
      modifies `cursorList, `freeCursorList, `maxCursorID, `updateCursor
      ensures Valid() && updateCursor
      ensures cursorList == Without(old(cursorList), k)
      ensures View(cursorList) == old(View(cursorList)) - {old(cursorList)[k].session}
      ensures Released(old(cursorList)[k], old(freeCursorList), old(maxCursorID))
    {
      hide PoolOk, View, Find, OutboundPacketStream.Valid;
      ViewWithout(cursorList, k);
      var free, max := ReleaseId(cursorList, k, freeCursorList, maxCursorID);
      cursorList := Without(cursorList, k);
      freeCursorList, maxCursorID := free, max;
      updateCursor := true;
    }

    method RemoveTuioCursor(session: int)
      requires Valid()
      modifies `cursorList, `freeCursorList, `maxCursorID, `updateCursor
      ensures Valid()
      ensures session !in old(SessionSet(cursorList)) ==>
                unchanged(`cursorList, `freeCursorList, `maxCursorID, `updateCursor)
      ensures session in old(SessionSet(cursorList)) ==>
                var k := Find(old(cursorList), session);
                && cursorList == Without(old(cursorList), k) && updateCursor
                && View(cursorList) == old(View(cursorList)) - {session}
                && Released(old(cursorList)[k], old(freeCursorList), old(maxCursorID))
    {
      hide PoolOk, View, OutboundPacketStream.Valid;
      var k := Find(cursorList, session);
      if k == |cursorList| {
        return;
      }
      DropCursor(k);
    }

    method InitFrame(time: Time)
      requires Valid() && currentFrame < 0x7FFF_FFFF
      modifies `currentFrameTime, `currentFrame
      ensures Valid() && currentFrame == old(currentFrame) + 1 && currentFrameTime == time
    {
      currentFrameTime := time;
      currentFrame := currentFrame + 1;
    }

    /** Whether commitFrame sends an alive bundle although nothing has changed. */
    predicate Overdue()
      reads this
    {
      !updateCursor && !periodicUpdate && lastCursorUpdate < currentFrameTime.seconds
    }

    /** What commitFrame goes through, and what it has to set. */
    function FrameEntries(): seq<Entry>
      reads this
    {
      if updateCursor then Entries(cursorList, currentFrameTime, fullUpdate) else []
    }

    function FrameSets(): seq<Item>
      reads this
    {
      TouchedItems(FrameEntries())
    }

    function Alive(): seq<I32>
      reads this
    {
      AliveList(cursorList)
    }

    predicate CanCommit()
      reads this, oscPacket
    {
      updateCursor || Overdue() ==>
        FrameFits(CURSOR_2D, Alive(), FrameSets(), CUR_MESSAGE_SIZE, oscPacket.Capacity())
    }

    lemma NothingToSend(capacity: nat)
      ensures TouchedItems([]) == [] && Flatten([]) == []
      ensures FullGroups(CURSOR_2D, Alive(), [], CUR_MESSAGE_SIZE, capacity)
      ensures FramePackets(CURSOR_2D, Alive(), [], currentFrame) == [] && PacketsFit([], capacity)
    {
    }

    method SendFrame(entries: seq<Entry>) returns (ok: bool, ghost groups: seq<seq<Item>>)
      requires Valid() && (entries == [] || entries == Entries(cursorList, currentFrameTime, fullUpdate))
      modifies `sent, oscPacket, oscPacket.data
      ensures Valid()
      ensures sent == old(sent) + FramePackets(CURSOR_2D, Alive(), groups, currentFrame)
      ensures PacketsFit(FramePackets(CURSOR_2D, Alive(), groups, currentFrame), oscPacket.Capacity())
      ensures ok <==> FrameFits(CURSOR_2D, Alive(), TouchedItems(entries), CUR_MESSAGE_SIZE, oscPacket.Capacity())
      ensures ok ==> groups != [] && Flatten(groups) == TouchedItems(entries)
      ensures ok ==> FullGroups(CURSOR_2D, Alive(), groups, CUR_MESSAGE_SIZE, oscPacket.Capacity())
    {
      hide PoolOk, OutboundPacketStream.Valid, TouchedItems, Flatten, FrameFits, FullGroups, SizeWith, Entries;
      hide FramePackets, PacketsFit;
      CursorMessagesFitTheLimit(cursorList, currentFrameTime, fullUpdate, currentFrame);
      var packets;
      ok, packets, groups := SendSplit(oscPacket, CURSOR_2D, Alive(), entries, CUR_MESSAGE_SIZE, currentFrame);
      sent := sent + packets;
    }

    /** Either everything goes out, or an exception ends the frame. */
    method CommitFrame() returns (ok: bool, ghost groups: seq<seq<Item>>)
      requires Valid()
      modifies `updateCursor, `lastCursorUpdate, `sent, oscPacket, oscPacket.data
      ensures Valid()
      ensures sent == old(sent) + FramePackets(CURSOR_2D, Alive(), groups, currentFrame)
      ensures PacketsFit(FramePackets(CURSOR_2D, Alive(), groups, currentFrame), oscPacket.Capacity())
      ensures ok <==> old(CanCommit())
      ensures updateCursor == (old(updateCursor) && !ok)
      ensures lastCursorUpdate == if old(Overdue()) then currentFrameTime.seconds else old(lastCursorUpdate)
      ensures ok ==> Flatten(groups) == old(FrameSets())
      ensures ok ==> (groups != [] <==> old(updateCursor) || old(Overdue()))
      ensures ok ==> FullGroups(CURSOR_2D, Alive(), groups, CUR_MESSAGE_SIZE, oscPacket.Capacity())
    {
      hide PoolOk, OutboundPacketStream.Valid, DistinctSessions, TouchedItems, Entries, FrameFits, FullGroups, SizeWith,
        Flatten, FramePackets, PacketsFit, AliveList;
      ok, groups := true, [];
      if updateCursor {
        ok, groups := SendFrame(FrameEntries());
      } else if !periodicUpdate && lastCursorUpdate < currentFrameTime.seconds {
        lastCursorUpdate := currentFrameTime.seconds;
        ok, groups := SendFrame([]);
      } else {
        NothingToSend(oscPacket.Capacity());
        assert sent == sent + [];
      }
      if ok {
        updateCursor := false;
      }
    }
  }
}
