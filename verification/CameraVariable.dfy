/** The same reassembly for a stream of variable length, whose frames end where the sender marks
    a packet as the last one: the stream gives up whenever a packet is missing, so it reports only
    whole frames. */
module CameraVariable {
  import opened Basics
  import opened CameraAlignment
  import opened CameraStream

  // ---------------------------------------------------------------- the sender

  /** What is sent: the place of each packet in its frame, which packets end a frame, their
      payloads and timestamps. */
  datatype VariableSender = VariableSender(place: nat -> nat, last: nat -> bool, payload: Payloads, stamp: Clock)

  /** A frame has at most as many packets as the buffer has slots, and all but its last are full. */
  predicate SentRight(c: Config, v: VariableSender, n: nat) {
    && v.place(n) < c.pktsPerFrame && v.place(n) <= n
    && v.place(n + 1) == (if v.last(n) then 0 else v.place(n) + 1)
    && (if v.last(n) then |v.payload(n)| <= ExpectedSize(c, v.place(n)) else |v.payload(n)| == c.pktSize)
  }

  ghost predicate WellSent(c: Config, v: VariableSender) {
    forall n: nat :: SentRight(c, v, n)
  }

  function VariableHeader(c: Config, v: VariableSender, n: nat): Header
    requires ConfigOk(c)
  {
    Header(c.flag + (if v.last(n) then 5 else if v.place(n) == 0 then 1 else 2), n % 0x100, v.stamp(n))
  }

  /** The number of the first packet of a frame, and the bytes of its packets up to `n`. */
  function FirstOf(v: VariableSender, n: nat): int {
    n - v.place(n)
  }

  function UpTo(v: VariableSender, n: nat): Bytes
    requires v.place(n) <= n
  {
    Concat(v.payload, FirstOf(v, n), v.place(n) + 1)
  }

  lemma NotTheLast(c: Config, v: VariableSender, n: nat)
    requires WellSent(c, v) && !v.last(n)
    ensures v.place(n) < c.pktsPerFrame - 1 && v.place(n + 1) == v.place(n) + 1
  {
    assert SentRight(c, v, n) && SentRight(c, v, n + 1);
  }

  lemma Before(c: Config, v: VariableSender, n: nat)
    requires WellSent(c, v) && v.place(n) > 0
    ensures n > 0 && !v.last(n - 1) && v.place(n - 1) == v.place(n) - 1
  {
    assert SentRight(c, v, n);
    assert SentRight(c, v, n - 1);
  }

  // ---------------------------------------------------------------- one packet

  function VariableArrive(c: Config, s: State, n: nat, v: VariableSender): Outcome
    requires ConfigOk(c)
  {
    Step(c, s, VariableHeader(c, v, n), |v.payload(n)|)
  }

  /** What arrivals alone say about the packet that is expected next: the receiver synchronizes at
      a packet that is marked as a first one, and gives up when any is missing. */
  function ExpectNext(v: VariableSender, expected: Option<nat>, n: nat): Option<nat> {
    match expected
    case None => if v.place(n) == 0 && !v.last(n) then Some(n + 1) else None
    case Some(e) => if n == e then Some(n + 1) else None
  }

  predicate InStep(c: Config, s: State, v: VariableSender, expected: Option<nat>) {
    && (s.synced <==> expected.Some?)
    && (expected.Some? ==>
          s.seqNo == expected.value % 0x100 && s.pktNum == s.gotPkts == v.place(expected.value))
  }

  /** The buffer holds what has been sent of the frame before packet `e`. */
  predicate HoldsBefore(c: Config, buf: Bytes, v: VariableSender, e: nat) {
    && v.place(e) <= e && |buf| == c.frameSize
    && |Concat(v.payload, FirstOf(v, e), v.place(e))| == v.place(e) * c.pktSize
    && Concat(v.payload, FirstOf(v, e), v.place(e)) <= buf
  }

  /** A frame has been received as it was sent. */
  predicate Delivered(o: Outcome, buf: Bytes, v: VariableSender, n: nat) {
    && v.place(n) <= n && o.reported == |UpTo(v, n)| <= |buf| && buf[..o.reported] == UpTo(v, n)
    && o.state.validPkts == v.place(n) + 1 && o.state.timestamp == v.stamp(n)
  }

  lemma PayloadFits(c: Config, v: VariableSender, n: nat)
    requires WellSent(c, v) && ConfigOk(c)
    ensures |v.payload(n)| <= ExpectedSize(c, v.place(n)) && v.place(n) < c.pktsPerFrame && v.place(n) <= n
    ensures !v.last(n) ==> |v.payload(n)| == ExpectedSize(c, v.place(n)) == c.pktSize
  {
    assert SentRight(c, v, n);
    if !v.last(n) {
      NotTheLast(c, v, n);
    }
  }

  lemma OneMoreSlot(p: nat, size: nat)
    ensures (p + 1) * size == p * size + size
  {
  }

  lemma FrontGrows(c: Config, buf: Bytes, v: VariableSender, n: nat)
    requires WellSent(c, v) && ConfigOk(c) && HoldsBefore(c, buf, v, n)
    ensures v.place(n) * c.pktSize + |v.payload(n)| <= |buf|
    ensures
      var after := Copied(buf, v.place(n) * c.pktSize, v.payload(n));
      && |UpTo(v, n)| == v.place(n) * c.pktSize + |v.payload(n)| && UpTo(v, n) <= after
      && (!v.last(n) ==> HoldsBefore(c, after, v, n + 1))
  {
    PayloadFits(c, v, n);
    SlotFits(c, v.place(n), |v.payload(n)|);
    var front := Concat(v.payload, FirstOf(v, n), v.place(n));
    assert UpTo(v, n) == front + v.payload(n);
    CopyExtends(buf, front, v.payload(n));
    if !v.last(n) {
      NotTheLast(c, v, n);
      OneMoreSlot(v.place(n), c.pktSize);
    }
    hide Concat, Copied;
  }

  lemma FrontOfNothing(c: Config, buf: Bytes, v: VariableSender, n: nat)
    requires v.place(n) == 0 && |buf| == c.frameSize
    ensures HoldsBefore(c, buf, v, n)
  {
    assert 0 * c.pktSize == 0;
  }

  /** The packet that is expected is stored; if it is the last one, its frame is delivered. */
  lemma StoreExpected(c: Config, s: State, buf: Bytes, n: nat, v: VariableSender)
    requires ConfigOk(c) && c.variableLength && WellSent(c, v)
    requires InStep(c, s, v, Some(n)) && HoldsBefore(c, buf, v, n)
    ensures
      var o := Checked(c, s, 0, VariableHeader(c, v, n), |v.payload(n)|);
      && o.slot == Some(v.place(n)) && v.place(n) * c.pktSize + |v.payload(n)| <= |buf|
      && InStep(c, o.state, v, Some(n + 1))
      && HoldsBefore(c, BufferAfter(c, o, buf, v.payload(n)), v, n + 1)
      && (if v.last(n) then
            Delivered(o, BufferAfter(c, o, buf, v.payload(n)), v, n) && o.state.validFrames == s.validFrames + 1
          else o.reported == 0 && o.state.validFrames == s.validFrames)
      && o.state.lostPkts == s.lostPkts
  {
    PayloadFits(c, v, n);
    FrontGrows(c, buf, v, n);
    NextNumber(n);
    assert SentRight(c, v, n);
    if v.last(n) {
      FrontOfNothing(c, Copied(buf, v.place(n) * c.pktSize, v.payload(n)), v, n + 1);
    }
    hide Concat, Copied, HoldsBefore, UpTo, ConfigOk;
  }

  /** Whatever packet arrives: the receiver follows what the arrivals say, and delivers a frame
      exactly when the packet is the expected one and the last of its frame. */
  lemma ArrivalDelivers(c: Config, s: State, buf: Bytes, expected: Option<nat>, n: nat, v: VariableSender)
    requires ConfigOk(c) && c.variableLength && WellSent(c, v) && InStep(c, s, v, expected) && |buf| == c.frameSize
    requires expected.Some? ==>
               HoldsBefore(c, buf, v, expected.value) && expected.value <= n < expected.value + 0x100
    ensures
      var o, next := VariableArrive(c, s, n, v), ExpectNext(v, expected, n);
      && (o.slot.Some? ==> o.slot.value * c.pktSize + |v.payload(n)| <= |buf|)
      && InStep(c, o.state, v, next)
      && (next.Some? ==> HoldsBefore(c, BufferAfter(c, o, buf, v.payload(n)), v, next.value))
      && (if expected == Some(n) && v.last(n) then
            Delivered(o, BufferAfter(c, o, buf, v.payload(n)), v, n) && o.state.validFrames == s.validFrames + 1
          else o.reported == 0 && o.state.validFrames == s.validFrames)
      && o.state.lostPkts == s.lostPkts + (if expected.Some? then n - expected.value else 0)
  {
    hide Checked, HoldsBefore, BufferAfter, Delivered, WellSent;
    match expected
    case None =>
      if v.place(n) == 0 && !v.last(n) {
        var t := Synchronized(s, n % 0x100);
        LostIsExact(n, n);
        NothingSkipped(c, t);
        FrontOfNothing(c, buf, v, n);
        StoreExpected(c, t, buf, n, v);
      }
    case Some(e) =>
      LostIsExact(e, n);
      if n == e {
        NothingSkipped(c, s);
        StoreExpected(c, s, buf, n, v);
      }
  }

  // ---------------------------------------------------------------- runs

  function ExpectedAfter(v: VariableSender, ns: seq<nat>): Option<nat> {
    if ns == [] then None else ExpectNext(v, ExpectedAfter(v, ns[..|ns| - 1]), ns[|ns| - 1])
  }

  /** A frame without any bytes, which is the same as none. */
  predicate EmptyFrame(v: VariableSender, n: nat) {
    v.place(n) == 0 && v.payload(n) == []
  }

  function DeliveredAt(v: VariableSender, expected: Option<nat>, n: nat): seq<nat> {
    if expected == Some(n) && v.last(n) && !EmptyFrame(v, n) then [n] else []
  }

  /** The last packets of the frames that are delivered. */
  function DeliveredFrames(v: VariableSender, ns: seq<nat>): seq<nat> {
    if ns == [] then []
    else
      var init := ns[..|ns| - 1];
      DeliveredFrames(v, init) + DeliveredAt(v, ExpectedAfter(v, init), ns[|ns| - 1])
  }

  lemma DeliveredSnoc(v: VariableSender, ns: seq<nat>, n: nat)
    ensures ExpectedAfter(v, ns + [n]) == ExpectNext(v, ExpectedAfter(v, ns), n)
    ensures DeliveredFrames(v, ns + [n]) == DeliveredFrames(v, ns) + DeliveredAt(v, ExpectedAfter(v, ns), n)
  {
    assert (ns + [n])[..|ns|] == ns;
  }

  lemma ExpectedFollows(v: VariableSender, ns: seq<nat>)
    requires ExpectedAfter(v, ns).Some?
    ensures ns != [] && ExpectedAfter(v, ns).value == ns[|ns| - 1] + 1
  {
  }

  /** The packets of the frame that ends with `n` arrive one behind the other from place `i` on. */
  predicate FrameArrives(v: VariableSender, ns: seq<nat>, n: nat, i: nat) {
    && v.place(n) <= n && i + v.place(n) < |ns|
    && forall j: nat | i <= j <= i + v.place(n) :: ns[j] == FirstOf(v, n) + (j - i)
  }

  /** Its first packet is the one that is expected, or the receiver is waiting for a first packet
      and recognizes it as one; the only packet of a frame is marked as a last one instead. */
  predicate Accepts(v: VariableSender, ns: seq<nat>, n: nat, i: nat)
    requires i <= |ns|
  {
    match ExpectedAfter(v, ns[..i])
    case None => v.place(n) > 0
    case Some(e) => e == FirstOf(v, n)
  }

  ghost predicate ArrivesAccepted(v: VariableSender, ns: seq<nat>, n: nat) {
    exists i: nat | i < |ns| :: FrameArrives(v, ns, n, i) && Accepts(v, ns, n, i)
  }

  lemma {:induction false} PlaceInside(c: Config, v: VariableSender, n: nat, k: nat)
    requires WellSent(c, v) && k <= v.place(n)
    ensures k <= n && v.place(n - k) == v.place(n) - k && (k > 0 ==> !v.last(n - k))
    decreases k
  {
    if k == 0 {
    } else {
      PlaceInside(c, v, n, k - 1);
      Before(c, v, n - (k - 1));
    }
  }

  /** After the first `k` packets of the frame the next one is expected. */
  lemma {:induction false} InsideFrame(c: Config, v: VariableSender, ns: seq<nat>, n: nat, i: nat, k: nat)
    requires WellSent(c, v) && FrameArrives(v, ns, n, i) && Accepts(v, ns, n, i) && k <= v.place(n)
    requires k > 0 || ExpectedAfter(v, ns[..i]).Some?
    ensures ExpectedAfter(v, ns[..i + k]) == Some(FirstOf(v, n) + k)
    decreases k
  {
    if k == 0 {
    } else {
      var m := FirstOf(v, n) + (k - 1);
      PlaceInside(c, v, n, v.place(n) - (k - 1));
      hide WellSent, ExpectedAfter;
      assert ns[i + (k - 1)] == m;
      assert ns[..i + k] == ns[..i + (k - 1)] + [m];
      DeliveredSnoc(v, ns[..i + (k - 1)], m);
      if k > 1 || ExpectedAfter(v, ns[..i]).Some? {
        InsideFrame(c, v, ns, n, i, k - 1);
      }
    }
  }

  lemma {:induction false} DeliveredGrow(v: VariableSender, ns: seq<nat>, m: nat, n: nat)
    requires m <= |ns| && n in DeliveredFrames(v, ns[..m])
    ensures n in DeliveredFrames(v, ns)
    decreases |ns| - m
  {
    if m == |ns| {
      assert ns[..m] == ns;
    } else {
      assert ns[..m + 1] == ns[..m] + [ns[m]];
      DeliveredSnoc(v, ns[..m], ns[m]);
      DeliveredGrow(v, ns, m + 1, n);
    }
  }

  /** The arrival that delivered a frame was its last packet, and was expected. */
  lemma {:induction false} DeliveredWhere(v: VariableSender, ns: seq<nat>, n: nat) returns (j: nat)
    requires n in DeliveredFrames(v, ns)
    ensures j < |ns| && ns[j] == n && ExpectedAfter(v, ns[..j]) == Some(n) && v.last(n) && !EmptyFrame(v, n)
    decreases |ns|
  {
    var init := ns[..|ns| - 1];
    if n in DeliveredFrames(v, init) {
      j := DeliveredWhere(v, init, n);
      assert init[..j] == ns[..j];
    } else {
      j := |ns| - 1;
    }
  }

  /** Before a packet that is expected, those of its frame have arrived. */
  lemma {:induction false} Backwards(c: Config, v: VariableSender, ns: seq<nat>, n: nat, j: nat, k: nat)
    requires WellSent(c, v) && j <= |ns| && k <= v.place(n) && ExpectedAfter(v, ns[..j]) == Some(n)
    ensures k <= j && k <= n && (forall t: nat | j - k <= t < j :: ns[t] == n - (j - t))
    ensures
      match ExpectedAfter(v, ns[..j - k])
      case None => 0 < k == v.place(n)
      case Some(e) => e == n - k
    decreases k
  {
    if k == 0 {
    } else {
      Backwards(c, v, ns, n, j, k - 1);
      PlaceInside(c, v, n, k - 1);
      PlaceInside(c, v, n, k);
      var before := ns[..j - (k - 1)];
      ExpectedFollows(v, before);
      assert before[..|before| - 1] == ns[..j - k];
    }
  }

  /** Which frames are delivered: those whose packets all arrive, one behind the other, while the
      receiver waits for the first of them. */
  lemma DeliveredIff(c: Config, v: VariableSender, ns: seq<nat>, n: nat)
    requires WellSent(c, v)
    ensures n in DeliveredFrames(v, ns) <==> v.last(n) && !EmptyFrame(v, n) && ArrivesAccepted(v, ns, n)
  {
    hide ExpectedAfter, DeliveredFrames;
    assert SentRight(c, v, n);
    var p := v.place(n);
    if n in DeliveredFrames(v, ns) {
      var j := DeliveredWhere(v, ns, n);
      Backwards(c, v, ns, n, j, p);
      forall t: nat | j - p <= t <= j ensures ns[t] == FirstOf(v, n) + (t - (j - p)) {
      }
      assert FrameArrives(v, ns, n, j - p) && Accepts(v, ns, n, j - p);
    }
    if v.last(n) && !EmptyFrame(v, n) && ArrivesAccepted(v, ns, n) {
      var i: nat :| i < |ns| && FrameArrives(v, ns, n, i) && Accepts(v, ns, n, i);
      assert ns[i + p] == n;
      InsideFrame(c, v, ns, n, i, p);
      assert ns[..i + p + 1] == ns[..i + p] + [n];
      DeliveredSnoc(v, ns[..i + p], n);
      DeliveredGrow(v, ns, i + p + 1, n);
    }
  }

  // ---------------------------------------------------------------- the stream and the sender

  datatype Frame = Frame(contents: Bytes, validPkts: nat, timestamp: U32)

  function SentFrame(v: VariableSender, n: nat): Frame
    requires v.place(n) <= n
  {
    Frame(UpTo(v, n), v.place(n) + 1, v.stamp(n))
  }

  ghost predicate AsSent(c: Config, v: VariableSender, log: seq<Frame>, frames: seq<nat>)
    requires WellSent(c, v)
  {
    |log| == |frames|
    && forall k: nat | k < |log| :: SentRight(c, v, frames[k]) && log[k] == SentFrame(v, frames[k])
  }

  /** What is known of the stream after the arrivals `ns`. */
  ghost predicate Known(stream: PacketStream, v: VariableSender, ns: seq<nat>)
    reads stream, stream.rawBuf
  {
    var c := stream.Configuration();
    var expected := ExpectedAfter(v, ns);
    && stream.Valid() && c.variableLength && WellSent(c, v) && InStep(c, stream.Current(), v, expected)
    && (expected.Some? ==> HoldsBefore(c, stream.rawBuf[..], v, expected.value))
  }

  lemma EmptyDelivered(c: Config, v: VariableSender, n: nat)
    requires WellSent(c, v) && ConfigOk(c)
    ensures v.place(n) <= n && (UpTo(v, n) == [] <==> EmptyFrame(v, n))
  {
    assert SentRight(c, v, n);
    var p, front := v.place(n), Concat(v.payload, FirstOf(v, n), v.place(n));
    assert UpTo(v, n) == front + v.payload(n);
    if p > 0 {
      Before(c, v, n);
      PayloadFits(c, v, n - 1);
      assert front == Concat(v.payload, FirstOf(v, n), p - 1) + v.payload(n - 1);
    } else {
      assert front == [];
    }
    hide Concat, WellSent;
  }

  lemma KnownAtStart(stream: PacketStream, v: VariableSender)
    requires stream.Valid() && !stream.synced && stream.variableLength && WellSent(stream.Configuration(), v)
    ensures Known(stream, v, []) && AsSent(stream.Configuration(), v, [], DeliveredFrames(v, []))
  {
  }

  lemma MoreAsSent(c: Config, v: VariableSender, log: seq<Frame>, more: seq<Frame>, frames: seq<nat>, next: seq<nat>)
    requires WellSent(c, v) && AsSent(c, v, log, frames) && AsSent(c, v, more, next)
    ensures AsSent(c, v, log + more, frames + next)
  {
    hide WellSent;
    forall k: nat | k < |log + more|
      ensures SentRight(c, v, (frames + next)[k]) && (log + more)[k] == SentFrame(v, (frames + next)[k])
    {
      if k >= |log| {
        assert SentRight(c, v, next[k - |log|]) && more[k - |log|] == SentFrame(v, next[k - |log|]);
      } else {
        assert SentRight(c, v, frames[k]);
      }
    }
  }

  lemma NothingAsSent(c: Config, v: VariableSender)
    requires WellSent(c, v)
    ensures AsSent(c, v, [], [])
  {
  }

  /** What a call returns after a packet that delivers a frame. */
  lemma OneFrame(c: Config, v: VariableSender, o: Outcome, buf: Bytes, n: nat)
    requires WellSent(c, v) && Delivered(o, buf, v, n)
    ensures AsSent(c, v, [Frame(buf[..o.reported], o.state.validPkts, o.state.timestamp)], [n])
  {
    assert SentRight(c, v, n);
    hide UpTo, SentRight, WellSent;
  }

  method ReceivePacket(stream: PacketStream, n: nat, v: VariableSender, ghost ns: seq<nat>) returns (log: seq<Frame>)
    requires Known(stream, v, ns) && InOrder(ns + [n])
    modifies stream, stream.rawBuf
    ensures Known(stream, v, ns + [n])
    ensures AsSent(stream.Configuration(), v, log, DeliveredAt(v, ExpectedAfter(v, ns), n))
  {
    var c := stream.Configuration();
    var h, data := VariableHeader(c, v, n), v.payload(n);
    PacketHeader(h, data);
    if ExpectedAfter(v, ns).Some? {
      ExpectedFollows(v, ns);
      ArrivalInOrder(ns, n);
    }
    ArrivalDelivers(c, stream.Current(), stream.rawBuf[..], ExpectedAfter(v, ns), n, v);
    EmptyDelivered(c, v, n);
    DeliveredSnoc(v, ns, n);
    ghost var o := VariableArrive(c, stream.Current(), n, v);
    ghost var after := BufferAfter(c, o, stream.rawBuf[..], data);
    if ExpectedAfter(v, ns) == Some(n) && v.last(n) {
      OneFrame(c, v, o, after, n);
    }
    hide Step, Packet, HeaderOf, PayloadOf, VariableHeader, BufferAfter, WellSent, InStep, HoldsBefore, UpTo, InOrder,
      EmptyFrame, ExpectNext, ExpectedAfter, SentFrame, AsSent, SentRight;
    var got := stream.Process(Packet(h, data));
    log := [];
    if got != 0 {
      log := [Frame(stream.rawBuf[..got], stream.validPkts, stream.timestamp)];
    } else {
      NothingAsSent(c, v);
    }
  }

  /** A stream of variable length delivers every frame of which nothing is missing, and no other:
      its bytes, the number of its packets, and the timestamp of the last one. */
  method ReceiveVariable(stream: PacketStream, ns: seq<nat>, v: VariableSender) returns (log: seq<Frame>)
    requires stream.Valid() && !stream.synced && stream.variableLength && InOrder(ns)
    requires WellSent(stream.Configuration(), v)
    modifies stream, stream.rawBuf
    ensures Known(stream, v, ns) && AsSent(stream.Configuration(), v, log, DeliveredFrames(v, ns))
    ensures forall n: nat ::
              n in DeliveredFrames(v, ns) <==> v.last(n) && !EmptyFrame(v, n) && ArrivesAccepted(v, ns, n)
  {
    var c := stream.Configuration();
    log := [];
    KnownAtStart(stream, v);
    hide Known, WellSent, PacketStream.Valid, AsSent, InOrder, DeliveredAt, EmptyFrame, ArrivesAccepted,
      DeliveredFrames;
    for i := 0 to |ns|
      invariant Known(stream, v, ns[..i]) && AsSent(c, v, log, DeliveredFrames(v, ns[..i]))
    {
      assert ns[..i + 1] == ns[..i] + [ns[i]];
      InOrderTake(ns, i + 1);
      DeliveredSnoc(v, ns[..i], ns[i]);
      var more := ReceivePacket(stream, ns[i], v, ns[..i]);
      MoreAsSent(c, v, log, more, DeliveredFrames(v, ns[..i]), DeliveredAt(v, ExpectedAfter(v, ns[..i]), ns[i]));
      log := log + more;
    }
    assert ns[..|ns|] == ns;
    forall n: nat
      ensures n in DeliveredFrames(v, ns) <==> v.last(n) && !EmptyFrame(v, n) && ArrivesAccepted(v, ns, n)
    {
      DeliveredIff(c, v, ns, n);
    }
  }
}
