/** What the reassembly of cameras.c achieves against a sender that numbers its packets modulo
    256 and marks the first, middle and last ones of each frame, when packets are lost but
    arrive in order. */
module CameraAlignment {
  import opened Basics
  import opened CameraStream
  import opened Division

  // ---------------------------------------------------------------- the sender

  function Place(c: Config, n: nat): nat
    requires c.pktsPerFrame > 0
  {
    n % c.pktsPerFrame
  }

  function FrameOf(c: Config, n: nat): nat
    requires c.pktsPerFrame > 0
  {
    n / c.pktsPerFrame
  }

  function SentFlag(c: Config, n: nat): nat
    requires c.pktsPerFrame > 0
  {
    FlagAt(c, Place(c, n))
  }

  function SentHeader(c: Config, n: nat, timestamp: U32): Header
    requires ConfigOk(c)
  {
    Header(SentFlag(c, n), n % 0x100, timestamp)
  }

  function SentSize(c: Config, n: nat): nat
    requires c.pktsPerFrame > 0
  {
    ExpectedSize(c, Place(c, n))
  }

  // ---------------------------------------------------------------- alignment

  /** The streams in question: fixed length, at least six packets a frame. */
  predicate LongFrames(c: Config) {
    ConfigOk(c) && !c.variableLength && c.pktsPerFrame >= 6
  }

  /** The receiver expects packet `e`, and knows its place in its frame. */
  predicate Aligned(c: Config, s: State, e: nat)
    requires c.pktsPerFrame > 0
  {
    s.synced && s.seqNo == e % 0x100 && s.pktNum == Place(c, e) && s.gotPkts <= s.pktNum
  }

  lemma LostIsExact(e: nat, n: nat)
    requires e <= n < e + 0x100
    ensures Lost(e % 0x100, n % 0x100) == n - e
  {
  }

  /** Place and frame number of a packet a few places on. */
  lemma Advance(c: Config, e: nat, k: nat)
    requires 0 < c.pktsPerFrame && k <= c.pktsPerFrame
    ensures Place(c, e) + k < c.pktsPerFrame ==>
              Place(c, e + k) == Place(c, e) + k && FrameOf(c, e + k) == FrameOf(c, e)
    ensures Place(c, e) + k >= c.pktsPerFrame ==>
              Place(c, e + k) == Place(c, e) + k - c.pktsPerFrame && FrameOf(c, e + k) == FrameOf(c, e) + 1
  {
    var p, q, r := c.pktsPerFrame, e / c.pktsPerFrame, e % c.pktsPerFrame;
    assert e == q * p + r;
    if r + k < p {
      DivUnique(e + k, p, q, r + k);
    } else {
      assert (q + 1) * p == q * p + p;
      DivUnique(e + k, p, q + 1, r + k - p);
    }
  }

  lemma NextNumber(n: nat)
    ensures (n + 1) % 0x100 == (n % 0x100 + 1) % 0x100
  {
  }

  /** A packet that is expected in this slot is stored, and the next one is expected. */
  lemma StoreStep(c: Config, s: State, reported: nat, n: nat, timestamp: U32)
    requires LongFrames(c) && Aligned(c, s, n)
    ensures
      var o := Checked(c, s, reported, SentHeader(c, n, timestamp), SentSize(c, n));
      var ends := FrameOf(c, n + 1) - FrameOf(c, n);
      && Aligned(c, o.state, n + 1) && o.slot == Some(Place(c, n))
      && (ends == 0 ==> o.reported == reported) && (ends == 1 ==> o.reported == c.frameSize) && 0 <= ends <= 1
      && (ends == 1 <==> Place(c, n) == c.pktsPerFrame - 1)
      && o.state.validFrames == s.validFrames + ends
      && (ends == 0 ==> o.state.gotPkts == s.gotPkts + 1 && o.state.validPkts == s.validPkts)
      && (ends == 1 ==> o.state.gotPkts == 0 && o.state.validPkts == s.gotPkts + 1)
      && o.state.lastTimestamp == timestamp && o.state.timestamp == (if ends == 1 then timestamp else s.timestamp)
      && o.state.lostPkts == s.lostPkts
  {
    Advance(c, n, 1);
    NextNumber(n);
    hide Place, FrameOf, ConfigOk;
  }

  /** Skipping the lost packets leads to the slot of the one received. */
  lemma SkipStep(c: Config, s: State, e: nat, n: nat)
    requires LongFrames(c) && Aligned(c, s, e) && e < n <= e + MAX_LOST
    ensures
      var t := Skipped(c, s, n - e, n % 0x100);
      var crossed := FrameOf(c, n) - FrameOf(c, e);
      && Aligned(c, t, n) && 0 <= crossed <= 1
      && (Crosses(c, s, n - e) <==> crossed == 1)
      && t.validFrames == s.validFrames + crossed
      && (crossed == 1 ==> Place(c, n) < MAX_LOST)
      && (if crossed == 1 then t.gotPkts == 0 && t.validPkts == s.gotPkts else t.gotPkts == s.gotPkts)
      && t.lastTimestamp == s.lastTimestamp
      && t.timestamp == (if crossed == 1 then s.lastTimestamp else s.timestamp)
      && t.lostPkts == s.lostPkts + (n - e)
  {
    Advance(c, e, n - e);
    hide Place, FrameOf;
  }

  lemma NothingSkipped(c: Config, s: State)
    ensures Skipped(c, s, 0, s.seqNo) == s && !Crosses(c, s, 0)
  {
  }

  /** A receiver that expects `e` and gets `n`: if more than five packets are missing it gives
      up; otherwise the packet goes to its own slot, the receiver expects n + 1, and the frame
      boundary in between, if there is one, is reported once. */
  lemma AlignedStep(c: Config, s: State, e: nat, n: nat, timestamp: U32)
    requires LongFrames(c) && Aligned(c, s, e) && e <= n < e + 0x100
    ensures
      var o := Step(c, s, SentHeader(c, n, timestamp), SentSize(c, n));
      && o.state.lostPkts == s.lostPkts + (n - e)
      && (n - e > MAX_LOST ==> !o.state.synced && o.reported == 0 && o.slot == None
                               && o.state.validFrames == s.validFrames && o.state.timestamp == s.timestamp)
      && (n - e <= MAX_LOST ==>
            && Aligned(c, o.state, n + 1) && o.slot == Some(Place(c, n))
            && FrameOf(c, e) <= FrameOf(c, n + 1) <= FrameOf(c, e) + 1
            && o.reported == (if FrameOf(c, n + 1) > FrameOf(c, e) then c.frameSize else 0)
            && o.state.validFrames == s.validFrames + (FrameOf(c, n + 1) - FrameOf(c, e)))
  {
    LostIsExact(e, n);
    hide Lost, Place, FrameOf, Checked, Skipped, Crosses;
    if n == e {
      NothingSkipped(c, s);
      StoreStep(c, s, 0, n, timestamp);
    } else if n - e <= MAX_LOST {
      SkipStep(c, s, e, n);
      var t := Skipped(c, s, n - e, n % 0x100);
      StoreStep(c, t, if Crosses(c, s, n - e) then c.frameSize else 0, n, timestamp);
    }
  }

  /** A receiver that is not synchronized drops everything up to the first packet of a frame. */
  lemma SyncStep(c: Config, s: State, n: nat, timestamp: U32)
    requires LongFrames(c) && !s.synced
    ensures
      var o := Step(c, s, SentHeader(c, n, timestamp), SentSize(c, n));
      && o.reported == 0
      && (Place(c, n) != 0 ==> o.state == s && o.slot == None)
      && (Place(c, n) == 0 ==> Aligned(c, o.state, n + 1) && o.slot == Some(0) && o.state.validFrames == s.validFrames
                               && o.state.gotPkts == 1)
      && (Place(c, n) == 0 ==> o.state.lastTimestamp == timestamp && o.state.validPkts == 0)
      && o.state.timestamp == s.timestamp && o.state.lostPkts == s.lostPkts
  {
    LostIsExact(n, n);
    hide Lost, Place, FrameOf, Checked, Skipped, Crosses;
    if Place(c, n) == 0 {
      var t := Synchronized(s, n % 0x100);
      NothingSkipped(c, t);
      StoreStep(c, t, 0, n, timestamp);
    }
  }

  /** What becomes of the counts: a packet counts for its own frame, and a frame is reported
      with its count. */
  lemma CountStep(c: Config, s: State, e: nat, n: nat, timestamp: U32)
    requires LongFrames(c) && Aligned(c, s, e) && e <= n <= e + MAX_LOST
    ensures
      var t := Step(c, s, SentHeader(c, n, timestamp), SentSize(c, n)).state;
      var own := if FrameOf(c, n) == FrameOf(c, e) then 1 else 0;
      && (FrameOf(c, n + 1) == FrameOf(c, e) ==> t.gotPkts == s.gotPkts + 1)
      && (FrameOf(c, n + 1) > FrameOf(c, e) ==> t.validPkts == s.gotPkts + own && t.gotPkts == 1 - own)
      && FrameOf(c, e) <= FrameOf(c, n) <= FrameOf(c, n + 1) <= FrameOf(c, e) + 1
  {
    AlignedStep(c, s, e, n, timestamp);
    LostIsExact(e, n);
    hide Lost, Place, FrameOf, Checked, Skipped, Crosses;
    if n == e {
      NothingSkipped(c, s);
      StoreStep(c, s, 0, n, timestamp);
    } else {
      SkipStep(c, s, e, n);
      var t := Skipped(c, s, n - e, n % 0x100);
      StoreStep(c, t, if Crosses(c, s, n - e) then c.frameSize else 0, n, timestamp);
    }
  }

  /** What becomes of the timestamps: a frame that ends with its last packet gets that packet's,
      and one whose end was lost that of the packet before the gap. */
  lemma StampStep(c: Config, s: State, e: nat, n: nat, timestamp: U32)
    requires LongFrames(c) && Aligned(c, s, e) && e <= n <= e + MAX_LOST
    ensures
      var t := Step(c, s, SentHeader(c, n, timestamp), SentSize(c, n)).state;
      && t.lastTimestamp == timestamp
      && (FrameOf(c, n + 1) == FrameOf(c, e) ==> t.timestamp == s.timestamp)
      && (FrameOf(c, n + 1) > FrameOf(c, e) ==>
            t.timestamp == if FrameOf(c, n) == FrameOf(c, e) then timestamp else s.lastTimestamp)
  {
    AlignedStep(c, s, e, n, timestamp);
    LostIsExact(e, n);
    hide Lost, Place, FrameOf, Checked, Skipped, Crosses;
    if n == e {
      NothingSkipped(c, s);
      StoreStep(c, s, 0, n, timestamp);
    } else {
      SkipStep(c, s, e, n);
      var t := Skipped(c, s, n - e, n % 0x100);
      StoreStep(c, t, if Crosses(c, s, n - e) then c.frameSize else 0, n, timestamp);
    }
  }

  // ---------------------------------------------------------------- runs

  /** Packets arrive in order, with fewer than 256 missing between two that arrive. */
  predicate InOrder(ns: seq<nat>) {
    forall i :: 0 < i < |ns| ==> ns[i - 1] < ns[i] <= ns[i - 1] + 0x100
  }

  type Clock = nat -> U32

  function Arrive(c: Config, s: State, n: nat, stamp: Clock): Outcome
    requires ConfigOk(c)
  {
    Step(c, s, SentHeader(c, n, stamp(n)), SentSize(c, n))
  }

  function Run(c: Config, s: State, ns: seq<nat>, stamp: Clock): State
    requires ConfigOk(c)
  {
    if ns == [] then s else Arrive(c, Run(c, s, ns[..|ns| - 1], stamp), ns[|ns| - 1], stamp).state
  }

  function Reports(c: Config, s: State, ns: seq<nat>, stamp: Clock): nat
    requires ConfigOk(c)
  {
    if ns == [] then 0
    else
      var init := ns[..|ns| - 1];
      Reports(c, s, init, stamp)
        + if Arrive(c, Run(c, s, init, stamp), ns[|ns| - 1], stamp).reported != 0 then 1 else 0
  }

  /** What arrivals alone say about the packet that is expected next: a receiver synchronizes
      at the first packet of a frame and gives up only if more than five are missing. */
  function Next(c: Config, expected: Option<nat>, n: nat): Option<nat>
    requires c.pktsPerFrame > 0
  {
    match expected
    case None => if Place(c, n) == 0 then Some(n + 1) else None
    case Some(e) => if n - e > MAX_LOST then None else Some(n + 1)
  }

  /** The frame boundaries this arrival crosses while synchronized. */
  function Crossed(c: Config, expected: Option<nat>, n: nat): int
    requires c.pktsPerFrame > 0
  {
    match expected
    case None => 0
    case Some(e) => if n - e > MAX_LOST then 0 else FrameOf(c, n + 1) - FrameOf(c, e)
  }

  function Expected(c: Config, ns: seq<nat>): Option<nat>
    requires c.pktsPerFrame > 0
  {
    if ns == [] then None else Next(c, Expected(c, ns[..|ns| - 1]), ns[|ns| - 1])
  }

  function Boundaries(c: Config, ns: seq<nat>): int
    requires c.pktsPerFrame > 0
  {
    if ns == [] then 0
    else Boundaries(c, ns[..|ns| - 1]) + Crossed(c, Expected(c, ns[..|ns| - 1]), ns[|ns| - 1])
  }

  /** The packets that were missing while synchronized, those of a gap that made the receiver give
      up among them. */
  function Missing(c: Config, ns: seq<nat>): int
    requires c.pktsPerFrame > 0
  {
    if ns == [] then 0
    else
      var init, n := ns[..|ns| - 1], ns[|ns| - 1];
      Missing(c, init) + match Expected(c, init) case None => 0 case Some(e) => n - e
  }

  lemma ExpectedIsNext(c: Config, ns: seq<nat>)
    requires c.pktsPerFrame > 0 && Expected(c, ns).Some?
    ensures ns != [] && Expected(c, ns).value == ns[|ns| - 1] + 1
  {
  }

  /** The receiver follows what the arrivals say. */
  predicate Follows(c: Config, s: State, expected: Option<nat>)
    requires c.pktsPerFrame > 0
  {
    && (s.synced <==> expected.Some?)
    && (expected.Some? ==> Aligned(c, s, expected.value))
  }

  lemma FrameHasBytes(c: Config)
    requires ConfigOk(c)
    ensures c.frameSize > 0
  {
  }

  lemma ArrivalFollows(c: Config, s: State, expected: Option<nat>, n: nat, stamp: Clock)
    requires LongFrames(c) && Follows(c, s, expected)
    requires expected.Some? ==> expected.value <= n < expected.value + 0x100
    ensures
      var o := Arrive(c, s, n, stamp);
      && Follows(c, o.state, Next(c, expected, n))
      && (o.reported != 0 <==> Crossed(c, expected, n) == 1) && 0 <= Crossed(c, expected, n) <= 1
      && o.state.validFrames == s.validFrames + Crossed(c, expected, n)
  {
    FrameHasBytes(c);
    hide Step, Place, FrameOf, SentHeader, SentSize, ConfigOk, Aligned;
    match expected
    case None => SyncStep(c, s, n, stamp(n));
    case Some(e) => AlignedStep(c, s, e, n, stamp(n));
  }

  lemma ArrivalMisses(c: Config, s: State, expected: Option<nat>, n: nat, stamp: Clock)
    requires LongFrames(c) && Follows(c, s, expected)
    requires expected.Some? ==> expected.value <= n < expected.value + 0x100
    ensures Arrive(c, s, n, stamp).state.lostPkts
         == s.lostPkts + match expected case None => 0 case Some(e) => n - e
  {
    hide Step, Place, FrameOf, SentHeader, SentSize, ConfigOk, Aligned;
    match expected
    case None => SyncStep(c, s, n, stamp(n));
    case Some(e) => AlignedStep(c, s, e, n, stamp(n));
  }

  /** Alignment under loss, over a whole run: the receiver is synchronized exactly when the
      arrivals say so, then it is aligned, it has reported every frame boundary crossed while
      synchronized exactly once, and it has counted what was missing. */
  lemma {:induction false} RunAligned(c: Config, s: State, ns: seq<nat>, stamp: Clock)
    requires LongFrames(c) && !s.synced && InOrder(ns)
    ensures
      var t := Run(c, s, ns, stamp);
      && Follows(c, t, Expected(c, ns))
      && Reports(c, s, ns, stamp) == Boundaries(c, ns)
      && t.validFrames == s.validFrames + Boundaries(c, ns)
      && t.lostPkts == s.lostPkts + Missing(c, ns)
    decreases |ns|
  {
    if ns == [] {
    } else {
      var init, n := ns[..|ns| - 1], ns[|ns| - 1];
      RunAligned(c, s, init, stamp);
      if Expected(c, init).Some? {
        ExpectedIsNext(c, init);
      }
      hide Arrive, Follows, Next, Crossed;
      ArrivalFollows(c, Run(c, s, init, stamp), Expected(c, init), n, stamp);
      ArrivalMisses(c, Run(c, s, init, stamp), Expected(c, init), n, stamp);
    }
  }

  // ---------------------------------------------------------------- how long frames must be

  /** Over every run, the frames counted as received are those reported. */
  ghost predicate ReportsWhatItCounts(c: Config)
    requires ConfigOk(c)
  {
    forall s: State, ns: seq<nat>, stamp: Clock | !s.synced && InOrder(ns) ::
      Run(c, s, ns, stamp).validFrames == s.validFrames + Reports(c, s, ns, stamp)
  }

  /** With two to five packets a frame, as many lost as a frame has can swallow the end of one
      frame and bring the end of the next: two frames counted, one report. */
  lemma ShortFramesMissAReport(c: Config, s: State, timestamp: U32)
    requires ConfigOk(c) && !c.variableLength && 2 <= c.pktsPerFrame <= 5 && Aligned(c, s, c.pktsPerFrame - 1)
    ensures
      var o := Step(c, s, SentHeader(c, 2 * c.pktsPerFrame - 1, timestamp), SentSize(c, 2 * c.pktsPerFrame - 1));
      && o.state.validFrames == s.validFrames + 2 && o.reported == c.frameSize
      && Aligned(c, o.state, 2 * c.pktsPerFrame)
  {
    var p := c.pktsPerFrame;
    DivUnique(p - 1, p, 0, p - 1);
    DivUnique(2 * p - 1, p, 1, p - 1);
    DivUnique(2 * p, p, 2, 0);
    LostIsExact(p - 1, 2 * p - 1);
  }

  /** The first `k` packets of the first frame. */
  function Firsts(k: nat): (ns: seq<nat>)
    ensures |ns| == k
  {
    seq(k, i requires 0 <= i < k => i)
  }

  /** They lead an unsynchronized receiver to the next one, with nothing reported. */
  lemma {:induction false} FirstsAlign(c: Config, s: State, k: nat, stamp: Clock)
    requires ConfigOk(c) && !c.variableLength && 0 < k < c.pktsPerFrame && !s.synced
    ensures Aligned(c, Run(c, s, Firsts(k), stamp), k) && Reports(c, s, Firsts(k), stamp) == 0
    ensures Run(c, s, Firsts(k), stamp).validFrames == s.validFrames
    decreases k
  {
    assert Firsts(k)[..k - 1] == Firsts(k - 1);
    DivUnique(k - 1, c.pktsPerFrame, 0, k - 1);
    DivUnique(k, c.pktsPerFrame, 0, k);
    NextNumber(k - 1);
    LostIsExact(k - 1, k - 1);
    if k == 1 {
      NothingSkipped(c, Synchronized(s, 0));
    } else {
      FirstsAlign(c, s, k - 1, stamp);
      NothingSkipped(c, Run(c, s, Firsts(k - 1), stamp));
    }
  }

  lemma RunSnoc(c: Config, s: State, ns: seq<nat>, n: nat, stamp: Clock)
    requires ConfigOk(c)
    ensures
      var o := Arrive(c, Run(c, s, ns, stamp), n, stamp);
      && Run(c, s, ns + [n], stamp) == o.state
      && Reports(c, s, ns + [n], stamp) == Reports(c, s, ns, stamp) + if o.reported != 0 then 1 else 0
  {
    hide Arrive;
    assert (ns + [n])[..|ns|] == ns;
  }

  predicate Odd(n: nat) {
    n % 2 == 1
  }

  lemma OddNext(n: nat)
    ensures Odd(n + 1) <==> !Odd(n)
  {
  }

  lemma OnePacketStep(c: Config, s: State, n: nat, stamp: Clock)
    requires ConfigOk(c) && !c.variableLength && c.pktsPerFrame == 1 && (s.synced ==> s.pktNum == 1)
    ensures
      var o := Arrive(c, s, n, stamp);
      && (o.state.synced <==> !s.synced) && (o.state.synced ==> o.state.pktNum == 1)
      && o.state.validFrames == s.validFrames + if o.reported != 0 then 1 else 0
  {
    LostIsExact(n, n);
    assert c.frameSize > 0;
    if !s.synced {
      NothingSkipped(c, Synchronized(s, n % 0x100));
    }
  }

  /** With one packet a frame nothing is ever aligned: the packet behind the one it synchronized
      at makes the receiver give up, and only a gap in between is reported, once. */
  lemma {:induction false} OnePacketFrames(c: Config, s: State, ns: seq<nat>, stamp: Clock)
    requires ConfigOk(c) && !c.variableLength && c.pktsPerFrame == 1 && !s.synced
    ensures
      var t := Run(c, s, ns, stamp);
      && (t.synced <==> Odd(|ns|)) && (t.synced ==> t.pktNum == 1)
      && t.validFrames == s.validFrames + Reports(c, s, ns, stamp)
    decreases |ns|
  {
    if ns == [] {
    } else {
      hide Arrive, Run, Reports, ConfigOk, Odd;
      var init, n := ns[..|ns| - 1], ns[|ns| - 1];
      assert ns == init + [n];
      RunSnoc(c, s, init, n, stamp);
      OnePacketFrames(c, s, init, stamp);
      OnePacketStep(c, Run(c, s, init, stamp), n, stamp);
      OddNext(|init|);
    }
  }

  /** The packets of a short first frame up to the last one, and then the last one of the next. */
  lemma ShortFramesRun(c: Config, s: State, stamp: Clock)
    requires ConfigOk(c) && !c.variableLength && 2 <= c.pktsPerFrame <= 5 && !s.synced
    ensures
      var ns := Firsts(c.pktsPerFrame - 1) + [2 * c.pktsPerFrame - 1];
      && InOrder(ns) && Reports(c, s, ns, stamp) == 1
      && Run(c, s, ns, stamp).validFrames == s.validFrames + 2
  {
    hide Step, Run, Reports, Aligned, SentHeader, SentSize;
    var p := c.pktsPerFrame;
    FirstsAlign(c, s, p - 1, stamp);
    ShortFramesMissAReport(c, Run(c, s, Firsts(p - 1), stamp), stamp(2 * p - 1));
    RunSnoc(c, s, Firsts(p - 1), 2 * p - 1, stamp);
    assert c.frameSize > 0;
  }

  /** A fixed-length stream reports what it counts, whatever is lost, exactly if its frames have
      at least six packets (or only one, and are never completed). */
  lemma SixPacketsSuffice(c: Config)
    requires ConfigOk(c) && !c.variableLength
    ensures ReportsWhatItCounts(c) <==> c.pktsPerFrame == 1 || c.pktsPerFrame >= 6
  {
    if c.pktsPerFrame == 1 || c.pktsPerFrame >= 6 {
      forall s: State, ns: seq<nat>, stamp: Clock | !s.synced && InOrder(ns)
        ensures Run(c, s, ns, stamp).validFrames == s.validFrames + Reports(c, s, ns, stamp)
      {
        if c.pktsPerFrame == 1 {
          OnePacketFrames(c, s, ns, stamp);
        } else {
          RunAligned(c, s, ns, stamp);
        }
      }
    } else {
      var s: State, stamp: Clock := State(false, 0, 0, 0, 0, 0, 0, 0, 0), n => 0;
      ShortFramesRun(c, s, stamp);
      hide Run, Reports, InOrder, Firsts;
      var ns := Firsts(c.pktsPerFrame - 1) + [2 * c.pktsPerFrame - 1];
      assert Run(c, s, ns, stamp).validFrames != s.validFrames + Reports(c, s, ns, stamp);
    }
  }

  // ---------------------------------------------------------------- which frames, how complete

  /** How many of the arrivals belong to a frame. */
  function Arrived(c: Config, ns: seq<nat>, f: nat): nat
    requires c.pktsPerFrame > 0
  {
    if ns == [] then 0 else Arrived(c, ns[..|ns| - 1], f) + if FrameOf(c, ns[|ns| - 1]) == f then 1 else 0
  }

  /** The frame that an arrival reports, if it crosses its end. */
  function FramesAt(c: Config, expected: Option<nat>, n: nat): seq<nat>
    requires c.pktsPerFrame > 0
  {
    if Crossed(c, expected, n) > 0 then [FrameOf(c, expected.value)] else []
  }

  function ReportedFrames(c: Config, ns: seq<nat>): seq<nat>
    requires c.pktsPerFrame > 0
  {
    if ns == [] then []
    else ReportedFrames(c, ns[..|ns| - 1]) + FramesAt(c, Expected(c, ns[..|ns| - 1]), ns[|ns| - 1])
  }

  lemma FramesApart(a: nat, b: nat, p: nat)
    requires a < b
    ensures a * p + p <= b * p
  {
    MulAtLeast(b - a, p);
    assert b * p == (b - a) * p + a * p;
  }

  lemma FrameMonotone(c: Config, m: nat, n: nat)
    requires c.pktsPerFrame > 0 && m <= n
    ensures FrameOf(c, m) <= FrameOf(c, n)
  {
    var p := c.pktsPerFrame;
    var a, b := m / p, n / p;
    if a > b {
      FramesApart(b, a, p);
    }
  }

  lemma InOrderPrefix(ns: seq<nat>)
    requires InOrder(ns) && ns != []
    ensures InOrder(ns[..|ns| - 1])
    ensures |ns| > 1 ==> ns[|ns| - 2] < ns[|ns| - 1]
  {
  }

  /** Nothing has arrived of a frame behind the last arrival's. */
  lemma {:induction false} NothingAhead(c: Config, ns: seq<nat>, f: nat)
    requires c.pktsPerFrame > 0 && InOrder(ns) && (ns != [] ==> FrameOf(c, ns[|ns| - 1]) < f)
    ensures Arrived(c, ns, f) == 0
    decreases |ns|
  {
    if ns == [] {
    } else {
      InOrderPrefix(ns);
      if |ns| > 1 {
        FrameMonotone(c, ns[|ns| - 2], ns[|ns| - 1]);
      }
      hide FrameOf, InOrder;
      NothingAhead(c, ns[..|ns| - 1], f);
    }
  }

  /** Only frames that have ended are reported. */
  lemma {:induction false} ReportedHaveEnded(c: Config, ns: seq<nat>, f: nat)
    requires c.pktsPerFrame > 0 && InOrder(ns) && f in ReportedFrames(c, ns)
    ensures ns != [] && f < FrameOf(c, ns[|ns| - 1] + 1)
    decreases |ns|
  {
    var init, n := ns[..|ns| - 1], ns[|ns| - 1];
    InOrderPrefix(ns);
    if f in ReportedFrames(c, init) {
      ReportedHaveEnded(c, init, f);
      FrameMonotone(c, ns[|ns| - 2] + 1, n + 1);
    }
  }

  /** One frame for each boundary crossed. */
  lemma {:induction false} ReportedBoundaries(c: Config, ns: seq<nat>)
    requires LongFrames(c) && InOrder(ns)
    ensures |ReportedFrames(c, ns)| == Boundaries(c, ns)
    decreases |ns|
  {
    if ns == [] {
    } else {
      var init, n := ns[..|ns| - 1], ns[|ns| - 1];
      InOrderPrefix(ns);
      ReportedBoundaries(c, init);
      if Expected(c, init).Some? {
        ExpectedIsNext(c, init);
        var e := Expected(c, init).value;
        if n - e <= MAX_LOST {
          Advance(c, e, n + 1 - e);
        }
      }
      hide FrameOf, ConfigOk;
      assert 0 <= Crossed(c, Expected(c, init), n) <= 1;
    }
  }

  /** While synchronized, the packets counted are those that arrived of the current frame. */
  predicate Counted(c: Config, s: State, expected: Option<nat>, ns: seq<nat>)
    requires c.pktsPerFrame > 0
  {
    expected.Some? ==> s.gotPkts == Arrived(c, ns, FrameOf(c, expected.value))
  }

  lemma ArrivedSnoc(c: Config, ns: seq<nat>, n: nat, f: nat)
    requires c.pktsPerFrame > 0
    ensures Arrived(c, ns + [n], f) == Arrived(c, ns, f) + if FrameOf(c, n) == f then 1 else 0
  {
    assert (ns + [n])[..|ns|] == ns;
  }

  lemma EarlierFrame(c: Config, m: nat, n: nat)
    requires c.pktsPerFrame > 0 && m < n && Place(c, n) == 0
    ensures FrameOf(c, m) < FrameOf(c, n)
  {
    FrameMonotone(c, m, n);
    var p := c.pktsPerFrame;
    assert n == n / p * p && m == m / p * p + m % p;
  }

  lemma NothingYet(c: Config, ns: seq<nat>, n: nat)
    requires c.pktsPerFrame > 1 && Place(c, n) == 0 && InOrder(ns) && (ns != [] ==> ns[|ns| - 1] < n)
    ensures Arrived(c, ns + [n], FrameOf(c, n + 1)) == 1
  {
    Advance(c, n, 1);
    if ns != [] {
      EarlierFrame(c, ns[|ns| - 1], n);
    }
    hide Place, FrameOf, InOrder, Arrived;
    NothingAhead(c, ns, FrameOf(c, n));
    ArrivedSnoc(c, ns, n, FrameOf(c, n));
  }

  lemma FirstOfFrame(c: Config, s: State, ns: seq<nat>, n: nat, stamp: Clock)
    requires LongFrames(c) && !s.synced && Place(c, n) == 0 && InOrder(ns) && (ns != [] ==> ns[|ns| - 1] < n)
    ensures Arrive(c, s, n, stamp).state.gotPkts == Arrived(c, ns + [n], FrameOf(c, n + 1)) == 1
  {
    hide Place, FrameOf, Step, SentHeader, SentSize, InOrder, Arrived, Aligned, ConfigOk;
    NothingYet(c, ns, n);
    SyncStep(c, s, n, stamp(n));
  }

  lemma SyncedCounts(c: Config, s: State, ns: seq<nat>, e: nat, n: nat, stamp: Clock)
    requires LongFrames(c) && InOrder(ns) && ns != [] && ns[|ns| - 1] + 1 == e <= n <= e + MAX_LOST
    requires Aligned(c, s, e) && s.gotPkts == Arrived(c, ns, FrameOf(c, e))
    ensures
      var t := Arrive(c, s, n, stamp).state;
      && t.gotPkts == Arrived(c, ns + [n], FrameOf(c, n + 1))
      && (FrameOf(c, n + 1) > FrameOf(c, e) ==> t.validPkts == Arrived(c, ns + [n], FrameOf(c, e)))
  {
    hide Place, FrameOf, Step, Aligned, SentHeader, SentSize, InOrder, Arrived;
    CountStep(c, s, e, n, stamp(n));
    ArrivedSnoc(c, ns, n, FrameOf(c, e));
    ArrivedSnoc(c, ns, n, FrameOf(c, n + 1));
    FrameMonotone(c, e - 1, e);
    if FrameOf(c, n + 1) > FrameOf(c, e) {
      NothingAhead(c, ns, FrameOf(c, n + 1));
    }
  }

  lemma ArrivalCounts(c: Config, s: State, ns: seq<nat>, n: nat, stamp: Clock)
    requires LongFrames(c) && InOrder(ns + [n])
    requires Follows(c, s, Expected(c, ns)) && Counted(c, s, Expected(c, ns), ns)
    ensures
      var t := Arrive(c, s, n, stamp).state;
      && Counted(c, t, Next(c, Expected(c, ns), n), ns + [n])
      && (forall f | f in FramesAt(c, Expected(c, ns), n) :: t.validPkts == Arrived(c, ns + [n], f))
  {
    hide Arrive, Arrived, FrameOf, Place, InOrder, ConfigOk;
    InOrderPrefix(ns + [n]);
    assert (ns + [n])[..|ns|] == ns;
    match Expected(c, ns)
    case None =>
      if Place(c, n) == 0 {
        FirstOfFrame(c, s, ns, n, stamp);
      }
    case Some(e) =>
      ExpectedIsNext(c, ns);
      if n - e <= MAX_LOST {
        SyncedCounts(c, s, ns, e, n, stamp);
      }
  }

  // ---------------------------------------------------------------- timestamps

  /** The last packet of a frame that has arrived. */
  ghost predicate IsLastOf(c: Config, ns: seq<nat>, f: nat, n: nat)
    requires c.pktsPerFrame > 0
  {
    n in ns && FrameOf(c, n) == f && forall m | m in ns && FrameOf(c, m) == f :: m <= n
  }

  ghost predicate StampOf(c: Config, ns: seq<nat>, f: nat, stamp: Clock, timestamp: U32)
    requires c.pktsPerFrame > 0
  {
    exists n: nat :: IsLastOf(c, ns, f, n) && timestamp == stamp(n)
  }

  /** While synchronized, the receiver remembers the timestamp of the last arrival. */
  predicate Stamped(s: State, expected: Option<nat>, stamp: Clock) {
    expected.Some? && expected.value > 0 ==> s.lastTimestamp == stamp(expected.value - 1)
  }

  lemma {:induction false} LastIsLargest(ns: seq<nat>)
    requires InOrder(ns) && ns != []
    ensures forall m | m in ns :: m <= ns[|ns| - 1]
    decreases |ns|
  {
    var init, n := ns[..|ns| - 1], ns[|ns| - 1];
    assert ns == init + [n];
    if init != [] {
      InOrderPrefix(ns);
      LastIsLargest(init);
    }
  }

  lemma LastOfOwnFrame(c: Config, ns: seq<nat>, n: nat, f: nat)
    requires c.pktsPerFrame > 0 && InOrder(ns + [n]) && FrameOf(c, n) == f
    ensures IsLastOf(c, ns + [n], f, n)
  {
    LastIsLargest(ns + [n]);
    assert (ns + [n])[|ns|] == n;
    hide FrameOf, InOrder;
  }

  lemma LastBeforeGap(c: Config, ns: seq<nat>, n: nat, f: nat)
    requires c.pktsPerFrame > 0 && InOrder(ns + [n]) && ns != []
    requires FrameOf(c, ns[|ns| - 1]) == f < FrameOf(c, n)
    ensures IsLastOf(c, ns + [n], f, ns[|ns| - 1])
  {
    InOrderPrefix(ns + [n]);
    assert (ns + [n])[..|ns|] == ns;
    LastIsLargest(ns);
    hide FrameOf, InOrder;
    assert forall m :: m in ns + [n] <==> m in ns || m == n;
  }

  /** A gap that the receiver survives is too short to hide a whole frame. */
  lemma SameFrameBefore(c: Config, e: nat, n: nat)
    requires LongFrames(c) && 0 < e <= n <= e + MAX_LOST && FrameOf(c, n) > FrameOf(c, e)
    ensures FrameOf(c, e - 1) == FrameOf(c, e)
  {
    Advance(c, e - 1, 1);
    Advance(c, e, n - e);
    hide Place, FrameOf;
  }

  lemma ArrivalInOrder(ns: seq<nat>, n: nat)
    requires InOrder(ns + [n]) && ns != []
    ensures ns[|ns| - 1] < n <= ns[|ns| - 1] + 0x100
  {
    assert (ns + [n])[|ns| - 1] == ns[|ns| - 1] && (ns + [n])[|ns|] == n;
  }

  lemma EndingStamp(c: Config, ns: seq<nat>, n: nat, e: nat)
    requires LongFrames(c) && InOrder(ns + [n]) && ns != [] && ns[|ns| - 1] + 1 == e <= n <= e + MAX_LOST
    ensures FrameOf(c, n) == FrameOf(c, e) ==> IsLastOf(c, ns + [n], FrameOf(c, e), n)
    ensures FrameOf(c, n) != FrameOf(c, e) ==> IsLastOf(c, ns + [n], FrameOf(c, e), e - 1)
  {
    FrameMonotone(c, e, n);
    if FrameOf(c, n) == FrameOf(c, e) {
      LastOfOwnFrame(c, ns, n, FrameOf(c, e));
    } else {
      SameFrameBefore(c, e, n);
      LastBeforeGap(c, ns, n, FrameOf(c, e));
    }
  }

  lemma ArrivalStamps(c: Config, s: State, ns: seq<nat>, n: nat, stamp: Clock)
    requires LongFrames(c) && InOrder(ns + [n])
    requires Follows(c, s, Expected(c, ns)) && Stamped(s, Expected(c, ns), stamp)
    ensures
      var t := Arrive(c, s, n, stamp).state;
      && Stamped(t, Next(c, Expected(c, ns), n), stamp)
      && (Crossed(c, Expected(c, ns), n) == 0 ==> t.timestamp == s.timestamp)
      && (forall f | f in FramesAt(c, Expected(c, ns), n) :: StampOf(c, ns + [n], f, stamp, t.timestamp))
  {
    hide Step, FrameOf, Place, InOrder, SentHeader, SentSize, IsLastOf;
    match Expected(c, ns)
    case None => SyncStep(c, s, n, stamp(n));
    case Some(e) =>
      ExpectedIsNext(c, ns);
      ArrivalInOrder(ns, n);
      AlignedStep(c, s, e, n, stamp(n));
      if n - e <= MAX_LOST {
        StampStep(c, s, e, n, stamp(n));
        EndingStamp(c, ns, n, e);
      }
  }

  /** Later arrivals do not belong to a frame that has been reported. */
  lemma StampIsFinal(c: Config, ns: seq<nat>, n: nat, f: nat, stamp: Clock, timestamp: U32)
    requires c.pktsPerFrame > 0 && f != FrameOf(c, n) && StampOf(c, ns, f, stamp, timestamp)
    ensures StampOf(c, ns + [n], f, stamp, timestamp)
  {
    hide FrameOf;
    var m: nat :| IsLastOf(c, ns, f, m) && timestamp == stamp(m);
    assert forall k :: k in ns + [n] <==> k in ns || k == n;
    assert IsLastOf(c, ns + [n], f, m);
  }

  // ---------------------------------------------------------------- complete frames

  /** All packets of a frame are among the arrivals. */
  predicate AllOf(c: Config, ns: seq<nat>, f: nat) {
    forall n: nat | f * c.pktsPerFrame <= n < f * c.pktsPerFrame + c.pktsPerFrame :: n in ns
  }

  lemma FrameWindow(c: Config, n: nat, f: nat)
    requires c.pktsPerFrame > 0
    ensures FrameOf(c, n) == f <==> f * c.pktsPerFrame <= n < f * c.pktsPerFrame + c.pktsPerFrame
    ensures FrameOf(c, n) == f ==> Place(c, n) == n - f * c.pktsPerFrame
  {
    var p := c.pktsPerFrame;
    if f * p <= n < f * p + p {
      DivUnique(n, p, f, n - f * p);
    } else {
      assert n == n / p * p + n % p;
    }
  }

  /** The arrivals of a frame, and all its packets. */
  function Members(c: Config, ns: seq<nat>, f: nat): set<nat>
    requires c.pktsPerFrame > 0
  {
    set n | n in ns && FrameOf(c, n) == f
  }

  function Range(low: nat, count: nat): set<nat> {
    if count == 0 then {} else Range(low, count - 1) + {low + count - 1}
  }

  lemma {:induction false} RangeSize(low: nat, count: nat)
    ensures |Range(low, count)| == count
    ensures forall n: nat :: n in Range(low, count) <==> low <= n < low + count
    decreases count
  {
    if count == 0 {
    } else {
      RangeSize(low, count - 1);
    }
  }

  lemma {:induction false} AllBelow(ns: seq<nat>, n: nat)
    requires InOrder(ns + [n])
    ensures forall m | m in ns :: m < n
    decreases |ns|
  {
    if ns == [] {
    } else {
      var init, l := ns[..|ns| - 1], ns[|ns| - 1];
      InOrderPrefix(ns + [n]);
      assert (ns + [n])[..|ns|] == ns == init + [l];
      AllBelow(init, l);
    }
  }

  lemma MembersSnoc(c: Config, ns: seq<nat>, n: nat, f: nat)
    requires c.pktsPerFrame > 0
    ensures Members(c, ns + [n], f) == Members(c, ns, f) + if FrameOf(c, n) == f then {n} else {}
  {
    hide FrameOf;
    assert forall m :: m in ns + [n] <==> m in ns || m == n;
  }

  lemma {:induction false} MembersCount(c: Config, ns: seq<nat>, f: nat)
    requires c.pktsPerFrame > 0 && InOrder(ns)
    ensures |Members(c, ns, f)| == Arrived(c, ns, f)
    decreases |ns|
  {
    if ns == [] {
    } else {
      var init, n := ns[..|ns| - 1], ns[|ns| - 1];
      InOrderPrefix(ns);
      assert ns == init + [n];
      AllBelow(init, n);
      assert n !in Members(c, init, f);
      hide FrameOf, InOrder, Arrived, Members;
      ArrivedSnoc(c, init, n, f);
      MembersSnoc(c, init, n, f);
      MembersCount(c, init, f);
    }
  }

  lemma SubsetSize(a: set<nat>, b: set<nat>)
    requires a <= b && |a| == |b|
    ensures a == b
  {
    assert |b - a| == |b| - |a|;
  }

  lemma FullRange(ns: seq<nat>, arrived: set<nat>, low: nat, count: nat)
    requires forall n: nat :: n in arrived <==> n in ns && low <= n < low + count
    ensures |arrived| == count <==> forall n: nat | low <= n < low + count :: n in ns
  {
    RangeSize(low, count);
    var all := Range(low, count);
    hide Range;
    assert arrived <= all;
    if |arrived| == count {
      SubsetSize(arrived, all);
      assert forall n: nat | low <= n < low + count :: n in all && n in arrived;
    }
    if forall n: nat | low <= n < low + count :: n in ns {
      assert arrived == all;
    }
  }

  /** The count of a frame is full exactly if all its packets arrived. */
  lemma FullCount(c: Config, ns: seq<nat>, f: nat)
    requires c.pktsPerFrame > 0 && InOrder(ns)
    ensures Arrived(c, ns, f) == c.pktsPerFrame <==> AllOf(c, ns, f)
  {
    var low := f * c.pktsPerFrame;
    MembersCount(c, ns, f);
    hide FrameOf, InOrder, Arrived;
    forall n: nat ensures n in Members(c, ns, f) <==> n in ns && low <= n < low + c.pktsPerFrame {
      FrameWindow(c, n, f);
    }
    FullRange(ns, Members(c, ns, f), low, c.pktsPerFrame);
  }

  /** All packets of frame `f` arrive from place `i` of the arrivals on. */
  predicate ArrivesAt(c: Config, ns: seq<nat>, f: nat, i: nat) {
    i + c.pktsPerFrame <= |ns| && forall j: nat | i <= j < i + c.pktsPerFrame :: ns[j] == f * c.pktsPerFrame + (j - i)
  }

  lemma ReportedSnoc(c: Config, ns: seq<nat>, n: nat)
    requires c.pktsPerFrame > 0
    ensures ReportedFrames(c, ns + [n]) == ReportedFrames(c, ns) + FramesAt(c, Expected(c, ns), n)
    ensures Expected(c, ns + [n]) == Next(c, Expected(c, ns), n)
    ensures Boundaries(c, ns + [n]) == Boundaries(c, ns) + Crossed(c, Expected(c, ns), n)
  {
    assert (ns + [n])[..|ns|] == ns;
  }

  /** While a whole frame arrives the receiver stays synchronized, or stays unsynchronized. */
  lemma {:induction false} WholeFrame(c: Config, ns: seq<nat>, f: nat, i: nat, k: nat)
    requires LongFrames(c) && ArrivesAt(c, ns, f, i) && 1 <= k <= c.pktsPerFrame
    ensures Expected(c, ns[..i + k])
         == if Expected(c, ns[..i + 1]).Some? then Some(f * c.pktsPerFrame + k) else None
    decreases k
  {
    var n := f * c.pktsPerFrame + (k - 1);
    assert ns[i + (k - 1)] == n;
    assert ns[..i + k] == ns[..i + (k - 1)] + [n];
    ReportedSnoc(c, ns[..i + (k - 1)], n);
    FrameWindow(c, n, f);
    hide Place, FrameOf, Expected;
    if k > 1 {
      WholeFrame(c, ns, f, i, k - 1);
    }
  }

  lemma WholeFrameEnds(c: Config, ns: seq<nat>, f: nat, i: nat)
    requires LongFrames(c) && InOrder(ns) && ArrivesAt(c, ns, f, i)
    ensures Expected(c, ns[..i + 1]).Some? ==> f in ReportedFrames(c, ns[..i + c.pktsPerFrame])
  {
    var p := c.pktsPerFrame;
    var n := f * p + (p - 1);
    assert ns[i + (p - 1)] == n;
    assert ns[..i + p] == ns[..i + (p - 1)] + [n];
    WholeFrame(c, ns, f, i, p - 1);
    ReportedSnoc(c, ns[..i + (p - 1)], n);
    FrameWindow(c, n, f);
    Advance(c, n, 1);
    hide FrameOf, Place, Expected, ReportedFrames;
  }

  lemma DroppedPacket(c: Config, ns: seq<nat>, n: nat, f: nat)
    requires c.pktsPerFrame > 0 && (Expected(c, ns).None? || FramesAt(c, Expected(c, ns), n) == [])
    requires f !in ReportedFrames(c, ns)
    ensures f !in ReportedFrames(c, ns + [n])
  {
    ReportedSnoc(c, ns, n);
    hide FrameOf, Expected, ReportedFrames;
  }

  lemma CountIsFinal(c: Config, ns: seq<nat>, n: nat, f: nat)
    requires c.pktsPerFrame > 0 && InOrder(ns + [n]) && f in ReportedFrames(c, ns)
    ensures Arrived(c, ns + [n], f) == Arrived(c, ns, f) && f < FrameOf(c, n)
  {
    hide ReportedFrames, Arrived, FrameOf;
    InOrderPrefix(ns + [n]);
    assert (ns + [n])[..|ns|] == ns;
    ReportedHaveEnded(c, ns, f);
    FrameMonotone(c, ns[|ns| - 1] + 1, n);
    ArrivedSnoc(c, ns, n, f);
  }

  lemma InOrderTake(ns: seq<nat>, k: nat)
    requires InOrder(ns) && k <= |ns|
    ensures InOrder(ns[..k])
  {
  }

  lemma NotBefore(c: Config, ns: seq<nat>, f: nat, i: nat)
    requires c.pktsPerFrame > 0 && InOrder(ns) && ArrivesAt(c, ns, f, i)
    ensures f !in ReportedFrames(c, ns[..i])
  {
    if f in ReportedFrames(c, ns[..i]) {
      InOrderTake(ns, i + 1);
      assert ns[..i + 1] == ns[..i] + [ns[i]];
      CountIsFinal(c, ns[..i], ns[i], f);
      FrameWindow(c, ns[i], f);
      assert false;
    }
  }

  /** A first packet that leaves the receiver unsynchronized has made it give up. */
  lemma FirstGivenUp(c: Config, ns: seq<nat>, n: nat, f: nat)
    requires c.pktsPerFrame > 0 && n == f * c.pktsPerFrame
    ensures Expected(c, ns + [n]).None?
       <==> Expected(c, ns).Some? && n - Expected(c, ns).value > MAX_LOST
    ensures Expected(c, ns + [n]).None? ==> FramesAt(c, Expected(c, ns), n) == []
  {
    ReportedSnoc(c, ns, n);
    FrameWindow(c, n, f);
    hide Place, FrameOf, Expected;
  }

  lemma ArrivesInside(c: Config, ns: seq<nat>, f: nat, i: nat)
    requires c.pktsPerFrame > 0 && ArrivesAt(c, ns, f, i)
    ensures i + c.pktsPerFrame <= |ns|
    ensures forall j: nat | i <= j < i + c.pktsPerFrame :: ns[j] == f * c.pktsPerFrame + (j - i)
  {
  }

  /** A frame is not reported while its packets are dropped. */
  lemma {:induction false} DroppedFrame(c: Config, ns: seq<nat>, f: nat, i: nat, k: nat)
    requires LongFrames(c) && InOrder(ns) && ArrivesAt(c, ns, f, i) && k <= c.pktsPerFrame
    requires Expected(c, ns[..i + 1]).None?
    ensures f !in ReportedFrames(c, ns[..i + k])
    decreases k
  {
    if k == 0 {
      NotBefore(c, ns, f, i);
    } else {
      ArrivesInside(c, ns, f, i);
      hide InOrder, ReportedFrames, Expected, FrameOf, Place, ArrivesAt, Next, Crossed, Boundaries, ConfigOk;
      var init, n := ns[..i + (k - 1)], ns[i + (k - 1)];
      assert ns[..i + k] == init + [n];
      DroppedFrame(c, ns, f, i, k - 1);
      if k > 1 {
        WholeFrame(c, ns, f, i, k - 1);
      } else {
        FirstGivenUp(c, init, n, f);
      }
      DroppedPacket(c, init, n, f);
    }
  }

  lemma NotNow(c: Config, ns: seq<nat>, f: nat)
    requires c.pktsPerFrame > 0 && |ns| > 1 && f < FrameOf(c, ns[|ns| - 2] + 1)
    ensures f in ReportedFrames(c, ns) <==> f in ReportedFrames(c, ns[..|ns| - 1])
  {
    hide FrameOf, Expected;
    var init := ns[..|ns| - 1];
    if Expected(c, init).Some? {
      ExpectedIsNext(c, init);
    }
    assert f !in FramesAt(c, Expected(c, init), ns[|ns| - 1]);
  }

  lemma {:induction false} StrictlyLater(ns: seq<nat>, a: nat, b: nat)
    requires InOrder(ns) && a <= b < |ns|
    ensures ns[a] <= ns[b]
    decreases b
  {
    if a < b {
      StrictlyLater(ns, a, b - 1);
    }
  }

  /** Later arrivals report later frames. */
  lemma {:induction false} LaterFrames(c: Config, ns: seq<nat>, f: nat, m: nat)
    requires c.pktsPerFrame > 0 && InOrder(ns) && 0 < m <= |ns| && f < FrameOf(c, ns[m - 1] + 1)
    ensures f in ReportedFrames(c, ns) <==> f in ReportedFrames(c, ns[..m])
    decreases |ns|
  {
    hide FrameOf, InOrder, ReportedFrames, FramesAt, Expected;
    if m < |ns| {
      InOrderPrefix(ns);
      StrictlyLater(ns, m - 1, |ns| - 2);
      FrameMonotone(c, ns[m - 1] + 1, ns[|ns| - 2] + 1);
      var init := ns[..|ns| - 1];
      LaterFrames(c, init, f, m);
      NotNow(c, ns, f);
      assert init[..m] == ns[..m];
    } else {
      assert ns[..m] == ns;
    }
  }

  lemma AllArrived(c: Config, ns: seq<nat>, f: nat, i: nat)
    requires ArrivesAt(c, ns, f, i)
    ensures AllOf(c, ns, f)
  {
    var low := f * c.pktsPerFrame;
    forall n: nat | low <= n < low + c.pktsPerFrame ensures n in ns {
      assert ns[i + (n - low)] == n;
    }
  }

  /** The arrival at place `i` ends a gap that makes a synchronized receiver give up. */
  predicate GivesUp(c: Config, ns: seq<nat>, i: nat)
    requires c.pktsPerFrame > 0 && i < |ns|
  {
    var expected := Expected(c, ns[..i]);
    expected.Some? && ns[i] - expected.value > MAX_LOST
  }

  lemma ReportedAtOnce(c: Config, ns: seq<nat>, f: nat, i: nat)
    requires LongFrames(c) && InOrder(ns) && ArrivesAt(c, ns, f, i)
    ensures f in ReportedFrames(c, ns[..i + c.pktsPerFrame]) <==> !GivesUp(c, ns, i)
  {
    assert ns[i] == f * c.pktsPerFrame;
    assert ns[..i + 1] == ns[..i] + [ns[i]];
    FirstGivenUp(c, ns[..i], ns[i], f);
    hide InOrder, ReportedFrames, Expected, FrameOf, Place;
    if Expected(c, ns[..i + 1]).Some? {
      WholeFrameEnds(c, ns, f, i);
    } else {
      DroppedFrame(c, ns, f, i, c.pktsPerFrame);
    }
  }

  lemma LastOfFrame(c: Config, ns: seq<nat>, f: nat, i: nat)
    requires c.pktsPerFrame > 0 && ArrivesAt(c, ns, f, i)
    ensures f < FrameOf(c, ns[i + c.pktsPerFrame - 1] + 1)
  {
    var p := c.pktsPerFrame;
    var last := f * p + (p - 1);
    assert ns[i + p - 1] == last;
    FrameWindow(c, last, f);
    Advance(c, last, 1);
  }

  /** A frame of which nothing is lost is reported exactly if its first packet does not end a
      gap of more than five packets that makes the receiver give up. */
  lemma CompleteFrameReported(c: Config, ns: seq<nat>, f: nat, i: nat)
    requires LongFrames(c) && InOrder(ns) && ArrivesAt(c, ns, f, i)
    ensures f in ReportedFrames(c, ns) <==> !GivesUp(c, ns, i)
    ensures Arrived(c, ns, f) == c.pktsPerFrame
  {
    hide InOrder, ReportedFrames, Expected, FrameOf, Place, ArrivesAt, Arrived, AllOf, GivesUp;
    ReportedAtOnce(c, ns, f, i);
    LastOfFrame(c, ns, f, i);
    ArrivesInside(c, ns, f, i);
    LaterFrames(c, ns, f, i + c.pktsPerFrame);
    AllArrived(c, ns, f, i);
    FullCount(c, ns, f);
  }

  /** Packets that have all arrived have arrived one behind the other. */
  lemma {:induction false} NextInPlace(c: Config, ns: seq<nat>, f: nat, i: nat, k: nat)
    requires c.pktsPerFrame > 0 && InOrder(ns) && AllOf(c, ns, f) && i < |ns| && ns[i] == f * c.pktsPerFrame
    requires k < c.pktsPerFrame
    ensures i + k < |ns| && ns[i + k] == f * c.pktsPerFrame + k
    decreases k
  {
    if k == 0 {
    } else {
      NextInPlace(c, ns, f, i, k - 1);
      var n := f * c.pktsPerFrame + k;
      assert n in ns;
      var j :| 0 <= j < |ns| && ns[j] == n;
      if j < i + k {
        StrictlyLater(ns, j, i + k - 1);
      } else {
        StrictlyLater(ns, i + k, j);
      }
    }
  }

  lemma AllOfArrivesAt(c: Config, ns: seq<nat>, f: nat) returns (i: nat)
    requires c.pktsPerFrame > 0 && InOrder(ns) && AllOf(c, ns, f)
    ensures ArrivesAt(c, ns, f, i)
  {
    assert f * c.pktsPerFrame in ns;
    i :| i < |ns| && ns[i] == f * c.pktsPerFrame;
    forall j: nat | i <= j < i + c.pktsPerFrame ensures j < |ns| && ns[j] == f * c.pktsPerFrame + (j - i) {
      NextInPlace(c, ns, f, i, j - i);
    }
    NextInPlace(c, ns, f, i, c.pktsPerFrame - 1);
  }

  /** The packets of a frame arrive one behind the other, and the first makes nobody give up. */
  ghost predicate ArrivesWhole(c: Config, ns: seq<nat>, f: nat)
    requires c.pktsPerFrame > 0
  {
    exists i: nat | i < |ns| :: ArrivesAt(c, ns, f, i) && !GivesUp(c, ns, i)
  }

  /** Which frames are reported with all their packets: exactly those. */
  lemma ReportedWhole(c: Config, ns: seq<nat>, f: nat)
    requires LongFrames(c) && InOrder(ns)
    ensures f in ReportedFrames(c, ns) && Arrived(c, ns, f) == c.pktsPerFrame <==> ArrivesWhole(c, ns, f)
  {
    hide InOrder, ReportedFrames, Arrived, AllOf, GivesUp, ArrivesAt;
    FullCount(c, ns, f);
    if Arrived(c, ns, f) == c.pktsPerFrame {
      var i := AllOfArrivesAt(c, ns, f);
      ArrivesInside(c, ns, f, i);
      CompleteFrameReported(c, ns, f, i);
    }
    if ArrivesWhole(c, ns, f) {
      var i: nat :| i < |ns| && ArrivesAt(c, ns, f, i) && !GivesUp(c, ns, i);
      CompleteFrameReported(c, ns, f, i);
    }
  }

  // ---------------------------------------------------------------- contents

  type Payloads = nat -> Bytes

  ghost predicate PayloadsFit(c: Config, payload: Payloads)
    requires c.pktsPerFrame > 0
  {
    forall n: nat :: |payload(n)| == SentSize(c, n)
  }

  /** The payloads of `count` packets from `start` on. */
  function Concat(payload: Payloads, start: nat, count: nat): Bytes {
    if count == 0 then [] else Concat(payload, start, count - 1) + payload(start + count - 1)
  }

  /** If nothing has been lost since the frame began, the buffer holds what has been sent of it. */
  predicate Intact(c: Config, s: State, buf: Bytes, e: nat, payload: Payloads)
    requires c.pktsPerFrame > 0
  {
    s.gotPkts == s.pktNum ==>
      && s.pktNum <= e
      && |Concat(payload, e - s.pktNum, s.pktNum)| == s.pktNum * c.pktSize
      && Concat(payload, e - s.pktNum, s.pktNum) <= buf
  }

  /** A frame that is reported with all its packets valid is the concatenation of its payloads. */
  predicate Whole(c: Config, buf: Bytes, f: nat, payload: Payloads) {
    buf == Concat(payload, f * c.pktsPerFrame, c.pktsPerFrame)
  }

  lemma CopyExtends(buf: Bytes, front: Bytes, data: Bytes)
    requires front <= buf && |front| + |data| <= |buf|
    ensures front + data <= Copied(buf, |front|, data)
    ensures |front| + |data| == |buf| ==> Copied(buf, |front|, data) == front + data
  {
  }

  lemma SlotEnds(c: Config, p: nat)
    requires ConfigOk(c) && p < c.pktsPerFrame
    ensures p * c.pktSize + ExpectedSize(c, p) == if p < c.pktsPerFrame - 1 then (p + 1) * c.pktSize else c.frameSize
  {
  }

  /** One more packet behind an intact front. */
  lemma OneMorePacket(c: Config, buf: Bytes, p: nat, n: nat, payload: Payloads)
    requires ConfigOk(c) && |buf| == c.frameSize && p < c.pktsPerFrame && p <= n
    requires |payload(n)| == ExpectedSize(c, p)
    requires |Concat(payload, n - p, p)| == p * c.pktSize && Concat(payload, n - p, p) <= buf
    ensures p * c.pktSize + |payload(n)| <= |buf|
    ensures
      var after, all := Copied(buf, p * c.pktSize, payload(n)), Concat(payload, n - p, p + 1);
      && (p < c.pktsPerFrame - 1 ==> |all| == (p + 1) * c.pktSize && all <= after)
      && (p == c.pktsPerFrame - 1 ==> after == all)
  {
    SlotFits(c, p, |payload(n)|);
    SlotEnds(c, p);
    CopyExtends(buf, Concat(payload, n - p, p), payload(n));
    hide ConfigOk, ExpectedSize, Copied;
    assert Concat(payload, n - p, p + 1) == Concat(payload, n - p, p) + payload(n);
  }

  lemma ConcatNothing(payload: Payloads, n: nat)
    ensures Concat(payload, n, 0) == []
  {
  }

  /** Storing the expected packet keeps the buffer intact, and completes it at the last one. */
  lemma StoreKeeps(c: Config, s: State, buf: Bytes, reported: nat, n: nat, timestamp: U32, payload: Payloads)
    requires LongFrames(c) && Aligned(c, s, n) && |buf| == c.frameSize && PayloadsFit(c, payload)
    requires Intact(c, s, buf, n, payload)
    ensures
      var o := Checked(c, s, reported, SentHeader(c, n, timestamp), SentSize(c, n));
      && o.slot == Some(Place(c, n)) && Place(c, n) * c.pktSize + |payload(n)| <= |buf|
      && Intact(c, o.state, BufferAfter(c, o, buf, payload(n)), n + 1, payload)
      && (Place(c, n) == c.pktsPerFrame - 1 && o.state.validPkts == c.pktsPerFrame ==>
            Whole(c, BufferAfter(c, o, buf, payload(n)), FrameOf(c, n), payload))
      && (Place(c, n) != c.pktsPerFrame - 1 ==> o.state.validPkts == s.validPkts)
  {
    var p := Place(c, n);
    assert |payload(n)| == SentSize(c, n);
    assert n == FrameOf(c, n) * c.pktsPerFrame + p;
    hide Place, FrameOf, Copied, Concat;
    SlotFits(c, p, |payload(n)|);
    if s.gotPkts == s.pktNum {
      OneMorePacket(c, buf, p, n, payload);
    }
    ConcatNothing(payload, n + 1);
  }

  lemma SkipKeeps(c: Config, s: State, buf: Bytes, e: nat, n: nat, payload: Payloads)
    requires LongFrames(c) && Aligned(c, s, e) && e < n <= e + MAX_LOST
    ensures
      var t := Skipped(c, s, n - e, n % 0x100);
      && Intact(c, t, buf, n, payload)
      && (Crosses(c, s, n - e) ==> t.validPkts < c.pktsPerFrame)
  {
    Advance(c, e, n - e);
    hide Place, FrameOf;
  }

  /** Only intact frames are reported as complete: whenever a call reports a frame all of
      whose packets count as valid, the buffer is the exact concatenation of that frame's
      payloads. */
  lemma ArrivalContents(c: Config, s: State, buf: Bytes, e: nat, n: nat, stamp: Clock, payload: Payloads)
    requires LongFrames(c) && Aligned(c, s, e) && e <= n < e + 0x100
    requires |buf| == c.frameSize && PayloadsFit(c, payload) && Intact(c, s, buf, e, payload)
    ensures
      var o := Arrive(c, s, n, stamp);
      && (o.slot.Some? ==> o.slot.value * c.pktSize + |payload(n)| <= |buf|)
      && (o.state.synced ==> Intact(c, o.state, BufferAfter(c, o, buf, payload(n)), n + 1, payload))
      && (o.reported != 0 && o.state.validPkts == c.pktsPerFrame ==>
            Whole(c, BufferAfter(c, o, buf, payload(n)), FrameOf(c, e), payload))
  {
    LostIsExact(e, n);
    AlignedStep(c, s, e, n, stamp(n));
    hide Lost, Place, FrameOf, Checked, Skipped, Crosses, Intact, BufferAfter, Whole, Concat, SentSize, SentHeader;
    if n == e {
      NothingSkipped(c, s);
      StoreKeeps(c, s, buf, 0, n, stamp(n), payload);
      StoreStep(c, s, 0, n, stamp(n));
    } else if n - e <= MAX_LOST {
      var t := Skipped(c, s, n - e, n % 0x100);
      SkipStep(c, s, e, n);
      SkipKeeps(c, s, buf, e, n, payload);
      StoreKeeps(c, t, buf, if Crosses(c, s, n - e) then c.frameSize else 0, n, stamp(n), payload);
      StoreStep(c, t, if Crosses(c, s, n - e) then c.frameSize else 0, n, stamp(n));
    }
  }

  // ---------------------------------------------------------------- the stream and the sender

  function Packet(h: Header, data: Bytes): (pkt: Bytes)
    ensures WellHeaded(pkt) && PayloadOf(pkt) == data
  {
    var b := BE32(h.timestamp);
    [MAGIC0, MAGIC1, 0, h.flag, 0, h.seqNo, 0, 0, b[3], b[2], b[1], b[0]] + data
  }

  lemma PacketHeader(h: Header, data: Bytes)
    ensures HeaderOf(Packet(h, data)) == h
  {
    BE32Weights(h.timestamp);
  }

  /** What the buffer is known to hold, given what the receiver expects. */
  ghost predicate Holds(c: Config, s: State, buf: Bytes, expected: Option<nat>, payload: Payloads)
    requires c.pktsPerFrame > 0
  {
    |buf| == c.frameSize && (expected.Some? ==> Intact(c, s, buf, expected.value, payload))
  }

  lemma SyncHolds(c: Config, s: State, buf: Bytes, n: nat, timestamp: U32, payload: Payloads)
    requires LongFrames(c) && !s.synced && Place(c, n) == 0 && PayloadsFit(c, payload) && |buf| == c.frameSize
    ensures
      var o := Step(c, s, SentHeader(c, n, timestamp), SentSize(c, n));
      && o.slot == Some(0) && |payload(n)| <= |buf|
      && Intact(c, o.state, BufferAfter(c, o, buf, payload(n)), n + 1, payload)
  {
    var t := Synchronized(s, n % 0x100);
    ConcatNothing(payload, n);
    assert t.pktNum == 0 && 0 * c.pktSize == 0;
    StoreKeeps(c, t, buf, 0, n, timestamp, payload);
    NothingSkipped(c, t);
    LostIsExact(n, n);
  }

  lemma ArrivalHolds(c: Config, s: State, buf: Bytes, expected: Option<nat>, n: nat, stamp: Clock, payload: Payloads)
    requires LongFrames(c) && Follows(c, s, expected) && PayloadsFit(c, payload) && Holds(c, s, buf, expected, payload)
    requires expected.Some? ==> expected.value <= n < expected.value + 0x100
    ensures
      var o := Arrive(c, s, n, stamp);
      && (o.slot.Some? ==> o.slot.value * c.pktSize + |payload(n)| <= |buf|)
      && Holds(c, o.state, BufferAfter(c, o, buf, payload(n)), Next(c, expected, n), payload)
      && (o.reported != 0 ==> expected.Some?)
      && (o.reported != 0 && o.state.validPkts == c.pktsPerFrame ==>
            Whole(c, BufferAfter(c, o, buf, payload(n)), FrameOf(c, expected.value), payload))
  {
    match expected
    case Some(e) =>
      hide Step, Place, FrameOf, SentHeader, SentSize, Intact, Whole, BufferAfter;
      ArrivalFollows(c, s, expected, n, stamp);
      ArrivalContents(c, s, buf, e, n, stamp, payload);
    case None =>
      SyncStep(c, s, n, stamp(n));
      if Place(c, n) == 0 {
        SyncHolds(c, s, buf, n, stamp(n), payload);
      }
  }

  datatype Report = Report(validPkts: nat, timestamp: U32, contents: Bytes)

  datatype Sender = Sender(stamp: Clock, payload: Payloads)

  /** A report counts the packets of its frame that arrived, its timestamp is that of the last of
      them, and if these are all, its contents are the frame. */
  ghost predicate TrueReport(c: Config, r: Report, f: nat, ns: seq<nat>, sender: Sender)
    requires c.pktsPerFrame > 0
  {
    && r.validPkts == Arrived(c, ns, f) && StampOf(c, ns, f, sender.stamp, r.timestamp)
    && (Arrived(c, ns, f) == c.pktsPerFrame ==> Whole(c, r.contents, f, sender.payload))
  }

  ghost predicate TrueReports(c: Config, log: seq<Report>, ns: seq<nat>, sender: Sender)
    requires c.pktsPerFrame > 0
  {
    var frames := ReportedFrames(c, ns);
    |log| == |frames| && forall k: nat | k < |log| :: TrueReport(c, log[k], frames[k], ns, sender)
  }

  lemma StaysTrue(c: Config, r: Report, f: nat, ns: seq<nat>, n: nat, sender: Sender)
    requires c.pktsPerFrame > 0 && InOrder(ns + [n]) && f in ReportedFrames(c, ns) && TrueReport(c, r, f, ns, sender)
    ensures TrueReport(c, r, f, ns + [n], sender)
  {
    hide ReportedFrames, Arrived, FrameOf, InOrder, StampOf, Whole;
    CountIsFinal(c, ns, n, f);
    StampIsFinal(c, ns, n, f, sender.stamp, r.timestamp);
  }

  /** What was reported before stays true: later arrivals belong to later frames. */
  lemma ReportsGrow(c: Config, log: seq<Report>, reports: seq<Report>, ns: seq<nat>, n: nat, sender: Sender)
    requires c.pktsPerFrame > 0 && InOrder(ns + [n]) && TrueReports(c, log, ns, sender)
    requires
      var frames := FramesAt(c, Expected(c, ns), n);
      && |reports| == |frames|
      && forall k: nat | k < |frames| :: TrueReport(c, reports[k], frames[k], ns + [n], sender)
    ensures TrueReports(c, log + reports, ns + [n], sender)
  {
    hide TrueReport, FramesAt, ReportedFrames, Expected, InOrder;
    ReportedSnoc(c, ns, n);
    var frames := ReportedFrames(c, ns);
    forall k: nat | k < |log| ensures TrueReport(c, log[k], frames[k], ns + [n], sender) {
      StaysTrue(c, log[k], frames[k], ns, n, sender);
    }
    var all, more := log + reports, FramesAt(c, Expected(c, ns), n);
    forall k: nat | k < |all| ensures TrueReport(c, all[k], (frames + more)[k], ns + [n], sender) {
      if k < |log| {
        assert TrueReport(c, log[k], frames[k], ns + [n], sender);
      } else {
        assert TrueReport(c, reports[k - |log|], more[k - |log|], ns + [n], sender);
      }
    }
  }

  /** What is known of the stream after the arrivals `ns`. */
  ghost predicate After(c: Config, s: State, buf: Bytes, ns: seq<nat>, sender: Sender)
    requires c.pktsPerFrame > 0
  {
    && Follows(c, s, Expected(c, ns)) && Counted(c, s, Expected(c, ns), ns)
    && Stamped(s, Expected(c, ns), sender.stamp) && Holds(c, s, buf, Expected(c, ns), sender.payload)
  }

  lemma ArrivalAfter(c: Config, s: State, buf: Bytes, ns: seq<nat>, n: nat, sender: Sender)
    requires LongFrames(c) && PayloadsFit(c, sender.payload) && InOrder(ns + [n]) && After(c, s, buf, ns, sender)
    ensures
      var o := Arrive(c, s, n, sender.stamp);
      && (o.slot.Some? ==> o.slot.value * c.pktSize + |sender.payload(n)| <= |buf|)
      && After(c, o.state, BufferAfter(c, o, buf, sender.payload(n)), ns + [n], sender)
      && |FramesAt(c, Expected(c, ns), n)| == if o.reported != 0 then 1 else 0
  {
    hide Arrive, Follows, Counted, Stamped, Holds, Arrived, FrameOf, BufferAfter, Whole, PayloadsFit, Next, StampOf,
      ConfigOk;
    if Expected(c, ns).Some? {
      ExpectedIsNext(c, ns);
      ArrivalInOrder(ns, n);
    }
    assert (ns + [n])[..|ns|] == ns;
    ArrivalFollows(c, s, Expected(c, ns), n, sender.stamp);
    ArrivalCounts(c, s, ns, n, sender.stamp);
    ArrivalStamps(c, s, ns, n, sender.stamp);
    ArrivalHolds(c, s, buf, Expected(c, ns), n, sender.stamp, sender.payload);
  }

  lemma ArrivalReports(c: Config, s: State, buf: Bytes, ns: seq<nat>, n: nat, sender: Sender, f: nat)
    requires LongFrames(c) && PayloadsFit(c, sender.payload) && InOrder(ns + [n]) && After(c, s, buf, ns, sender)
    requires f in FramesAt(c, Expected(c, ns), n)
    ensures
      var o := Arrive(c, s, n, sender.stamp);
      && (o.slot.Some? ==> o.slot.value * c.pktSize + |sender.payload(n)| <= |buf|)
      && TrueReport(c, Report(o.state.validPkts, o.state.timestamp, BufferAfter(c, o, buf, sender.payload(n))), f,
                    ns + [n], sender)
  {
    hide Arrive, Follows, Counted, Stamped, Holds, Arrived, FrameOf, BufferAfter, Whole, PayloadsFit, Next, StampOf,
      ConfigOk, Expected;
    ExpectedIsNext(c, ns);
    ArrivalInOrder(ns, n);
    ArrivalFollows(c, s, Expected(c, ns), n, sender.stamp);
    ArrivalCounts(c, s, ns, n, sender.stamp);
    ArrivalStamps(c, s, ns, n, sender.stamp);
    ArrivalHolds(c, s, buf, Expected(c, ns), n, sender.stamp, sender.payload);
  }

  method ReceiveOne(stream: PacketStream, n: nat, sender: Sender, ghost ns: seq<nat>) returns (log: seq<Report>)
    requires stream.Valid() && LongFrames(stream.Configuration())
    requires PayloadsFit(stream.Configuration(), sender.payload)
    requires InOrder(ns + [n]) && After(stream.Configuration(), stream.Current(), stream.rawBuf[..], ns, sender)
    modifies stream, stream.rawBuf
    ensures stream.Valid() && After(stream.Configuration(), stream.Current(), stream.rawBuf[..], ns + [n], sender)
    ensures
      var frames := FramesAt(stream.Configuration(), Expected(stream.Configuration(), ns), n);
      && |log| == |frames|
      && forall k: nat | k < |frames| :: TrueReport(stream.Configuration(), log[k], frames[k], ns + [n], sender)
  {
    var c := stream.Configuration();
    var data := sender.payload(n);
    var h := SentHeader(c, n, sender.stamp(n));
    PacketHeader(h, data);
    assert |data| == SentSize(c, n);
    ArrivalAfter(c, stream.Current(), stream.rawBuf[..], ns, n, sender);
    if f: nat :| f in FramesAt(c, Expected(c, ns), n) {
      ArrivalReports(c, stream.Current(), stream.rawBuf[..], ns, n, sender, f);
    }
    hide Step, After, FramesAt, TrueReport, SentHeader, SentSize, BufferAfter, Packet, HeaderOf, PayloadOf, PayloadsFit;
    var got := stream.Process(Packet(h, data));
    log := [];
    if got != 0 {
      log := [Report(stream.validPkts, stream.timestamp, stream.rawBuf[..])];
      assert FramesAt(c, Expected(c, ns), n)[0] in FramesAt(c, Expected(c, ns), n);
    }
  }

  lemma OneReportEach(c: Config, log: seq<Report>, ns: seq<nat>, sender: Sender)
    requires LongFrames(c) && InOrder(ns) && TrueReports(c, log, ns, sender)
    ensures |log| == Boundaries(c, ns)
  {
    ReportedBoundaries(c, ns);
  }

  lemma AfterNothing(c: Config, s: State, buf: Bytes, sender: Sender)
    requires c.pktsPerFrame > 0 && !s.synced && |buf| == c.frameSize
    ensures After(c, s, buf, [], sender) && TrueReports(c, [], [], sender)
  {
  }

  lemma AfterFollows(c: Config, s: State, buf: Bytes, ns: seq<nat>, sender: Sender)
    requires c.pktsPerFrame > 0 && After(c, s, buf, ns, sender)
    ensures Follows(c, s, Expected(c, ns))
  {
  }

  /** Any in-order loss: the stream follows the sender and reports each frame whose end it
      crosses while synchronized once; a report counts exactly the packets of its frame that
      arrived and has the timestamp of the last of them, and if these are all, the buffer is the
      exact concatenation of that frame's payloads. */
  method ReceiveRun(stream: PacketStream, ns: seq<nat>, sender: Sender) returns (log: seq<Report>)
    requires stream.Valid() && !stream.synced && LongFrames(stream.Configuration()) && InOrder(ns)
    requires PayloadsFit(stream.Configuration(), sender.payload)
    modifies stream, stream.rawBuf
    ensures stream.Valid()
    ensures Follows(stream.Configuration(), stream.Current(), Expected(stream.Configuration(), ns))
    ensures |log| == Boundaries(stream.Configuration(), ns)
    ensures TrueReports(stream.Configuration(), log, ns, sender)
  {
    var c := stream.Configuration();
    log := [];
    AfterNothing(c, stream.Current(), stream.rawBuf[..], sender);
    hide After, PacketStream.Valid, PayloadsFit, InOrder, TrueReports, FramesAt;
    for i := 0 to |ns|
      invariant stream.Valid() && After(c, stream.Current(), stream.rawBuf[..], ns[..i], sender)
      invariant TrueReports(c, log, ns[..i], sender)
    {
      assert ns[..i + 1] == ns[..i] + [ns[i]];
      InOrderTake(ns, i + 1);
      var reports := ReceiveOne(stream, ns[i], sender, ns[..i]);
      ReportsGrow(c, log, reports, ns[..i], ns[i], sender);
      log := log + reports;
    }
    assert ns[..|ns|] == ns;
    AfterFollows(c, stream.Current(), stream.rawBuf[..], ns, sender);
    OneReportEach(c, log, ns, sender);
  }
}
