/** The Kinect's packet streams: stream_process and stream_init of cameras.c put the packets of
    an isochronous stream together into frames, with an 8-bit sequence number to tell how many
    were lost.  Packets are copied (there is no chunk callback). */
module CameraStream {
  import opened Basics
  import opened Division

  // ---------------------------------------------------------------- one packet, as values

  datatype Config = Config(flag: nat, pktSize: nat, frameSize: nat, pktsPerFrame: nat, lastPktSize: nat,
                           variableLength: bool)

  /** What stream_init establishes. */
  predicate ConfigOk(c: Config) {
    && c.flag % 8 == 0 && c.flag + 5 < 0x100
    && 0 < c.lastPktSize <= c.pktSize && c.pktsPerFrame > 0
    && (c.pktsPerFrame - 1) * c.pktSize + c.lastPktSize == c.frameSize
  }

  function Sof(c: Config): nat { c.flag + 1 }
  function Mof(c: Config): nat { c.flag + 2 }
  function Eof(c: Config): nat { c.flag + 5 }

  datatype State = State(synced: bool, seqNo: Byte, pktNum: nat, gotPkts: nat, validPkts: nat, validFrames: nat,
                         lostPkts: nat, timestamp: U32, lastTimestamp: U32)

  datatype Header = Header(flag: Byte, seqNo: Byte, timestamp: U32)

  /** The new state, the reported frame size (0 for none), and the slot the payload went to. */
  datatype Outcome = Outcome(state: State, reported: nat, slot: Option<nat>)

  const MAX_LOST := 5

  function Lost(expected: Byte, seqNo: Byte): Byte {
    (seqNo - expected) % 0x100
  }

  function Synchronized(s: State, seqNo: Byte): State {
    if s.synced then s else s.(synced := true, seqNo := seqNo, pktNum := 0, validPkts := 0, gotPkts := 0)
  }

  /** Do the lost packets reach the end of the frame? */
  predicate Crosses(c: Config, s: State, lost: nat) {
    lost > 0 && c.pktsPerFrame - s.pktNum <= lost
  }

  function Skipped(c: Config, s: State, lost: nat, seqNo: Byte): State {
    var t := s.(lostPkts := s.lostPkts + lost, seqNo := seqNo);
    if Crosses(c, s, lost) then
      t.(pktNum := lost - (c.pktsPerFrame - s.pktNum), validPkts := s.gotPkts, gotPkts := 0,
         timestamp := s.lastTimestamp, validFrames := s.validFrames + 1)
    else t.(pktNum := s.pktNum + lost)
  }

  function ExpectedSize(c: Config, pktNum: nat): nat {
    if pktNum == c.pktsPerFrame - 1 then c.lastPktSize else c.pktSize
  }

  /** Is this the flag of a packet at this place of the frame? */
  predicate FlagOk(c: Config, pktNum: nat, flag: Byte) {
    if c.variableLength then
      || (pktNum == 0 && flag == Sof(c))
      || (pktNum < c.pktsPerFrame && (flag == Eof(c) || flag == Mof(c)))
    else
      || (pktNum == 0 && flag == Sof(c))
      || (pktNum == c.pktsPerFrame - 1 && flag == Eof(c))
      || (0 < pktNum < c.pktsPerFrame - 1 && flag == Mof(c))
  }

  function Stored(c: Config, s: State, reported: nat, h: Header, length: nat): Outcome {
    var t := s.(pktNum := s.pktNum + 1, seqNo := (s.seqNo + 1) % 0x100, gotPkts := s.gotPkts + 1,
                lastTimestamp := h.timestamp);
    if h.flag == Eof(c) then
      Outcome(t.(pktNum := 0, validPkts := t.gotPkts, gotPkts := 0, timestamp := h.timestamp,
                 validFrames := s.validFrames + 1),
              s.pktNum * c.pktSize + (if c.variableLength then length else c.lastPktSize), Some(s.pktNum))
    else Outcome(t, reported, Some(s.pktNum))
  }

  function Checked(c: Config, s: State, reported: nat, h: Header, length: nat): Outcome {
    var expected := ExpectedSize(c, s.pktNum);
    if !FlagOk(c, s.pktNum, h.flag) then Outcome(s.(synced := false), reported, None)
    else if length > expected then Outcome(s.(synced := s.synced && !c.variableLength), reported, None)
    else if c.variableLength && length < expected && h.flag != Eof(c) then Outcome(s.(synced := false), reported, None)
    else Stored(c, s, reported, h, length)
  }

  function SyncedStep(c: Config, s: State, h: Header, length: nat): Outcome {
    var lost := Lost(s.seqNo, h.seqNo);
    if lost > 0 && (lost > MAX_LOST || c.variableLength) then
      Outcome(s.(lostPkts := s.lostPkts + lost, synced := false), 0, None)
    else Checked(c, Skipped(c, s, lost, h.seqNo), if Crosses(c, s, lost) then c.frameSize else 0, h, length)
  }

  function Step(c: Config, s: State, h: Header, length: nat): Outcome {
    if !s.synced && h.flag != Sof(c) then Outcome(s, 0, None)
    else SyncedStep(c, Synchronized(s, h.seqNo), h, length)
  }

  // ---------------------------------------------------------------- bounds, for any packets

  predicate StateOk(c: Config, s: State) {
    s.synced ==> s.gotPkts <= s.pktNum <= c.pktsPerFrame
  }

  lemma SlotFits(c: Config, slot: nat, length: nat)
    requires ConfigOk(c) && slot < c.pktsPerFrame && length <= ExpectedSize(c, slot)
    ensures slot * c.pktSize + length <= c.frameSize
  {
    if slot < c.pktsPerFrame - 1 {
      assert (slot + 1) * c.pktSize <= (c.pktsPerFrame - 1) * c.pktSize;
    }
  }

  /** Whatever arrives: the copy stays inside the frame buffer, no more packets are counted
      than there are slots before the next one, and a fixed-length stream reports nothing or a
      whole frame. */
  lemma StepBounds(c: Config, s: State, h: Header, length: nat)
    requires ConfigOk(c) && StateOk(c, s)
    ensures
      var o := Step(c, s, h, length);
      && StateOk(c, o.state)
      && (o.slot.Some? ==> o.slot.value < c.pktsPerFrame && o.slot.value * c.pktSize + length <= c.frameSize)
      && (!c.variableLength ==> o.reported == 0 || o.reported == c.frameSize)
      && o.reported <= c.frameSize
  {
    var o := Step(c, s, h, length);
    if o.slot.Some? {
      SlotFits(c, o.slot.value, length);
    }
  }

  /** The flags of a frame's packets: the stream's own and 1 for the first one, 5 for the last one,
      2 for those in between. */
  function FlagAt(c: Config, place: nat): nat {
    c.flag + if place == 0 then 1 else if place == c.pktsPerFrame - 1 then 5 else 2
  }

  /** Which packets a synchronized stream of fixed length takes, if none is missing: those with the
      flag of their place and no more data than belongs there.  Too much data is ignored, a wrong
      flag ends the synchronization. */
  lemma TakesIff(c: Config, s: State, h: Header, length: nat)
    requires ConfigOk(c) && StateOk(c, s) && !c.variableLength && c.pktsPerFrame > 1
    requires s.synced && h.seqNo == s.seqNo
    ensures
      var o := Step(c, s, h, length);
      var right := s.pktNum < c.pktsPerFrame && h.flag == FlagAt(c, s.pktNum);
      var room := if s.pktNum == c.pktsPerFrame - 1 then c.lastPktSize else c.pktSize;
      && o.slot == (if right && length <= room then Some(s.pktNum) else None)
      && (!right ==> o.state == s.(synced := false) && o.reported == 0)
      && (right && length > room ==> o.state == s && o.reported == 0)
  {
  }

  /** A stream of variable length does not tell first from middle flags in place 0, takes a last
      one anywhere, and asks every other packet to be full; anything else ends the synchronization. */
  lemma TakesVariableIff(c: Config, s: State, h: Header, length: nat)
    requires ConfigOk(c) && StateOk(c, s) && c.variableLength && s.synced && h.seqNo == s.seqNo
    ensures
      var o := Step(c, s, h, length);
      var mark := h.flag - c.flag;
      var right := s.pktNum < c.pktsPerFrame && (mark == 2 || mark == 5 || (mark == 1 && s.pktNum == 0));
      var room := if s.pktNum == c.pktsPerFrame - 1 then c.lastPktSize else c.pktSize;
      var taken := right && (length == room || (length < room && mark == 5));
      && o.slot == (if taken then Some(s.pktNum) else None)
      && (!taken ==> o.state == s.(synced := false) && o.reported == 0)
  {
  }

  // ---------------------------------------------------------------- the buffer

  function Copied(buf: Bytes, at: nat, data: Bytes): (r: Bytes)
    requires at + |data| <= |buf|
    ensures |r| == |buf|
  {
    buf[..at] + data + buf[at + |data|..]
  }

  function BufferAfter(c: Config, o: Outcome, buf: Bytes, data: Bytes): (r: Bytes)
    requires o.slot.Some? ==> o.slot.value * c.pktSize + |data| <= |buf|
    ensures |r| == |buf|
  {
    if o.slot.Some? then Copied(buf, o.slot.value * c.pktSize, data) else buf
  }

  const HEADER_SIZE := 12
  const MAGIC0: Byte := 0x52  // 'R'
  const MAGIC1: Byte := 0x42  // 'B'

  predicate WellHeaded(pkt: Bytes) {
    |pkt| >= HEADER_SIZE && pkt[0] == MAGIC0 && pkt[1] == MAGIC1
  }

  function HeaderOf(pkt: Bytes): Header
    requires |pkt| >= HEADER_SIZE
  {
    Header(pkt[3], pkt[5],
           pkt[8] as int + 0x100 * (pkt[9] as int + 0x100 * (pkt[10] as int + 0x100 * pkt[11] as int)))
  }

  function PayloadOf(pkt: Bytes): Bytes
    requires |pkt| >= HEADER_SIZE
  {
    pkt[HEADER_SIZE..]
  }

  /** (pkts_per_frame - 1) * pkt_size + last_pkt_size == frame_size */
  lemma PacketsPerFrame(size: nat, packetSize: nat)
    requires size > 0 && packetSize > 0
    ensures
      var last := if size % packetSize == 0 then packetSize else size % packetSize;
      var packets := (size + packetSize - 1) / packetSize;
      && 0 < last <= packetSize && packets > 0
      && (packets - 1) * packetSize + last == size
  {
    var q, r := size / packetSize, size % packetSize;
    assert size == q * packetSize + r;
    if r == 0 {
      DivUnique(size + packetSize - 1, packetSize, q, packetSize - 1);
      assert q > 0;
    } else {
      DivUnique(size + packetSize - 1, packetSize, q + 1, r - 1);
    }
  }

  class PacketStream {
    const flag: nat
    const pktSize: nat
    const variableLength: bool
    const frameSize: nat
    const pktsPerFrame: nat
    const lastPktSize: nat
    const rawBuf: array<Byte>

    var synced: bool
    var seqNo: Byte
    var pktNum: nat
    var gotPkts: nat
    var validPkts: nat
    var validFrames: nat
    var lostPkts: nat
    var timestamp: U32
    var lastTimestamp: U32

    function Configuration(): Config {
      Config(flag, pktSize, frameSize, pktsPerFrame, lastPktSize, variableLength)
    }

    function Current(): State
      reads this
    {
      State(synced, seqNo, pktNum, gotPkts, validPkts, validFrames, lostPkts, timestamp, lastTimestamp)
    }

    ghost predicate Valid()
      reads this
    {
      ConfigOk(Configuration()) && StateOk(Configuration(), Current()) && rawBuf.Length == frameSize
    }

    /** stream_init, on a stream whose flag, packet size and kind are set.  The frames go to a
        buffer of their own if `rlen` is not zero, and else straight to the output buffer. */
    constructor (streamFlag: nat, packetSize: nat, variable: bool, rlen: nat, plen: nat, raw: array<Byte>)
      requires streamFlag % 8 == 0 && streamFlag + 5 < 0x100 && packetSize > 0
      requires raw.Length == (if rlen == 0 then plen else rlen) > 0
      ensures Valid() && !synced && validFrames == 0 && rawBuf == raw
      ensures flag == streamFlag && pktSize == packetSize && variableLength == variable
      ensures frameSize == if rlen == 0 then plen else rlen
    {
      var size := if rlen == 0 then plen else rlen;
      flag, pktSize, variableLength, rawBuf, frameSize := streamFlag, packetSize, variable, raw, size;
      validFrames := 0;
      synced := false;
      var last := size % packetSize;
      if last == 0 {
        last := packetSize;
      }
      lastPktSize := last;
      pktsPerFrame := (size + packetSize - 1) / packetSize;
      PacketsPerFrame(size, packetSize);
    }

    lemma NothingCrosses()
      ensures !Crosses(Configuration(), Current(), 0)
      ensures Skipped(Configuration(), Current(), 0, seqNo) == Current()
    {
    }

    method SkipLost(lost: nat, receivedSeq: Byte) returns (got: nat)
      requires lost > 0
      modifies this
      ensures Current() == Skipped(Configuration(), old(Current()), lost, receivedSeq)
      ensures got == if Crosses(Configuration(), old(Current()), lost) then frameSize else 0
    {
      got := 0;
      lostPkts := lostPkts + lost;
      seqNo := receivedSeq;
      var left := pktsPerFrame - pktNum;
      if left <= lost {
        pktNum := lost - left;
        validPkts := gotPkts;
        gotPkts := 0;
        got := frameSize;
        timestamp := lastTimestamp;
        validFrames := validFrames + 1;
      } else {
        pktNum := pktNum + lost;
      }
    }

    /** memcpy */
    method CopyTo(at: nat, bytes: Bytes)
      requires at + |bytes| <= rawBuf.Length
      modifies rawBuf
      ensures rawBuf[..] == Copied(old(rawBuf[..]), at, bytes)
    {
      for i := 0 to |bytes|
        invariant forall j | 0 <= j < i :: rawBuf[at + j] == bytes[j]
        invariant forall j | 0 <= j < rawBuf.Length && !(at <= j < at + i) :: rawBuf[j] == old(rawBuf[j])
      {
        rawBuf[at + i] := bytes[i];
      }
    }

    method Store(h: Header, data: Bytes, reported: nat) returns (got: nat)
      requires ConfigOk(Configuration()) && rawBuf.Length == frameSize
      requires pktNum < pktsPerFrame && |data| <= ExpectedSize(Configuration(), pktNum)
      modifies this, rawBuf
      ensures
        var o := Stored(Configuration(), old(Current()), reported, h, |data|);
        && got == o.reported && Current() == o.state
        && o.slot == Some(old(pktNum)) && old(pktNum) * pktSize + |data| <= rawBuf.Length
        && rawBuf[..] == Copied(old(rawBuf[..]), old(pktNum) * pktSize, data)
    {
      SlotFits(Configuration(), pktNum, |data|);
      var dbuf := pktNum * pktSize;
      CopyTo(dbuf, data);
      got := reported;
      pktNum := pktNum + 1;
      seqNo := (seqNo + 1) % 0x100;
      gotPkts := gotPkts + 1;
      lastTimestamp := h.timestamp;
      if h.flag == Eof(Configuration()) {
        got := dbuf + if variableLength then |data| else lastPktSize;
        pktNum := 0;
        validPkts := gotPkts;
        gotPkts := 0;
        timestamp := lastTimestamp;
        validFrames := validFrames + 1;
      }
    }

    method CheckAndStore(h: Header, data: Bytes, reported: nat) returns (got: nat)
      requires ConfigOk(Configuration()) && rawBuf.Length == frameSize && seqNo == h.seqNo
      modifies this, rawBuf
      ensures
        var o := Checked(Configuration(), old(Current()), reported, h, |data|);
        && got == o.reported && Current() == o.state
        && (o.slot.Some? ==> o.slot.value * pktSize + |data| <= rawBuf.Length)
        && rawBuf[..] == BufferAfter(Configuration(), o, old(rawBuf[..]), data)
    {
      got := reported;
      var expected := ExpectedSize(Configuration(), pktNum);
      if !FlagOk(Configuration(), pktNum, h.flag) {
        synced := false;
        return;
      }
      if |data| > expected {
        if variableLength {
          synced := false;
        }
        return;
      }
      if variableLength && |data| < expected && h.flag != Eof(Configuration()) {
        synced := false;
        return;
      }
      got := Store(h, data, reported);
    }

    method ProcessSynced(h: Header, data: Bytes) returns (got: nat)
      requires ConfigOk(Configuration()) && rawBuf.Length == frameSize
      modifies this, rawBuf
      ensures
        var o := SyncedStep(Configuration(), old(Current()), h, |data|);
        && got == o.reported && Current() == o.state
        && (o.slot.Some? ==> o.slot.value * pktSize + |data| <= rawBuf.Length)
        && rawBuf[..] == BufferAfter(Configuration(), o, old(rawBuf[..]), data)
    {
      hide Checked, ConfigOk, Crosses;
      got := 0;
      NothingCrosses();
      if seqNo != h.seqNo {
        var lost := Lost(seqNo, h.seqNo);
        if lost > MAX_LOST || variableLength {
          lostPkts := lostPkts + lost;
          synced := false;
          return 0;
        }
        got := SkipLost(lost, h.seqNo);
      }
      got := CheckAndStore(h, data, got);
    }

    method ProcessPacket(h: Header, data: Bytes) returns (got: nat)
      requires Valid()
      modifies this, rawBuf
      ensures Valid()
      ensures
        var o := Step(Configuration(), old(Current()), h, |data|);
        && got == o.reported && Current() == o.state
        && (o.slot.Some? ==> o.slot.value * pktSize + |data| <= rawBuf.Length)
        && rawBuf[..] == BufferAfter(Configuration(), o, old(rawBuf[..]), data)
    {
      StepBounds(Configuration(), Current(), h, |data|);
      hide SyncedStep, ConfigOk, StateOk;
      if !synced {
        if h.flag != Sof(Configuration()) {
          return 0;
        }
        synced, seqNo, pktNum, validPkts, gotPkts := true, h.seqNo, 0, 0, 0;
      }
      got := ProcessSynced(h, data);
    }

    method Process(pkt: Bytes) returns (got: nat)
      requires Valid()
      modifies this, rawBuf
      ensures Valid()
      ensures !WellHeaded(pkt) ==> got == 0 && unchanged(this) && unchanged(rawBuf)
      ensures WellHeaded(pkt) ==>
                var o := Step(Configuration(), old(Current()), HeaderOf(pkt), |PayloadOf(pkt)|);
                && got == o.reported && Current() == o.state
                && (o.slot.Some? ==> o.slot.value * pktSize + |PayloadOf(pkt)| <= rawBuf.Length)
                && rawBuf[..] == BufferAfter(Configuration(), o, old(rawBuf[..]), PayloadOf(pkt))
    {
      hide Step, ConfigOk, StateOk;
      if |pkt| < HEADER_SIZE || pkt[0] != MAGIC0 || pkt[1] != MAGIC1 {
        return 0;
      }
      got := ProcessPacket(HeaderOf(pkt), PayloadOf(pkt));
    }
  }
}
