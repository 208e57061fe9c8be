/** oscpack's OutboundPacketStream (OscOutboundPacketStream.cpp): a packet is built inside a
    caller-supplied buffer.  Arguments grow up from the front, type tags grow down from the
    back in reverse order, and the size slot of every element that is still open holds, in
    host order, the offset of the enclosing element's slot. */
module OscStream {
  import opened Basics
  import opened OscEncoding

  // ---------------------------------------------------------------- what is being built

  datatype OpenBundle = OpenBundle(timeTag: U64, done: seq<Element>)

  datatype MessageState = NoMessage | InMessage(address: CString, args: seq<Arg>)

  /** Finished top-level packets, the open bundles from the outermost in, and the message
      under construction. */
  datatype Building = Building(packets: seq<Element>, open: seq<OpenBundle>, message: MessageState)

  const EMPTY := Building([], [], NoMessage)

  /** Host (little-endian) order, in which offsets are kept while an element is open. */
  function LE32(w: int): (b: Bytes)
    requires 0 <= w < 0x1_0000_0000
    ensures |b| == 4
  {
    var r := BE32(w);
    [r[3], r[2], r[1], r[0]]
  }

  function ReadLE32(b: Bytes): U32
    requires |b| == 4
  {
    ReadBE32([b[3], b[2], b[1], b[0]])
  }

  lemma LE32RoundTrip(w: int)
    requires 0 <= w < 0x1_0000_0000
    ensures ReadLE32(LE32(w)) == w
  {
    BE32RoundTrip(w);
  }

  function Offset(w: nat): (b: Bytes)
    ensures |b| == 4
  {
    LE32(w % 0x1_0000_0000)
  }

  function Packets(ps: seq<Element>): Bytes {
    if ps == [] then [] else Packets(ps[..|ps| - 1]) + Encode(ps[|ps| - 1])
  }

  function BundleStart(b: OpenBundle): Bytes {
    BundleHeader(b.timeTag) + EncodeAll(b.done)
  }

  /** Where the slot of an element opened inside `open` lies (the start of the buffer stands
      in for the missing slot of an outermost element). */
  function SlotAt(ps: seq<Element>, open: seq<OpenBundle>): nat
    decreases |open|, 1
  {
    if open == [] then 0 else |Partial(ps, open)|
  }

  /** The slot in front of an element opened inside `open`: none for an outermost element. */
  function Slot(ps: seq<Element>, open: seq<OpenBundle>): Bytes
    decreases |open|, 2
  {
    if open == [] then [] else Offset(SlotAt(ps, open[..|open| - 1]))
  }

  /** The buffer up to the end of the innermost open bundle's contents. */
  function Partial(ps: seq<Element>, open: seq<OpenBundle>): Bytes
    decreases |open|, 0
  {
    if open == [] then Packets(ps)
    else
      var outer := open[..|open| - 1];
      Partial(ps, outer) + Slot(ps, outer) + BundleStart(open[|open| - 1])
  }

  /** The buffer up to messageCursor_. */
  function CursorBytes(b: Building): Bytes {
    if b.message.NoMessage? then Partial(b.packets, b.open)
    else Partial(b.packets, b.open) + Slot(b.packets, b.open) + PadString(b.message.address)
  }

  const NULL := -1

  function SizePtr(b: Building): int {
    if b.message.InMessage? then SlotAt(b.packets, b.open)
    else if b.open == [] then NULL
    else SlotAt(b.packets, b.open[..|b.open| - 1])
  }

  /** Adding a finished element to whatever encloses it. */
  function Deliver(b: Building, e: Element): Building {
    if b.open == [] then Building(b.packets + [e], [], NoMessage)
    else
      var k := |b.open| - 1;
      Building(b.packets, b.open[k := b.open[k].(done := b.open[k].done + [e])], NoMessage)
  }

  function CloseMessage(b: Building): Building
    requires b.message.InMessage?
  {
    Deliver(b, Message(b.message.address, b.message.args))
  }

  function CloseBundle(b: Building): Building
    requires b.open != []
  {
    var last := b.open[|b.open| - 1];
    Deliver(b.(open := b.open[..|b.open| - 1]), Bundle(last.timeTag, last.done))
  }

  function ReverseTags(args: seq<Arg>): (t: Bytes)
    ensures |t| == |args|
  {
    seq(|args|, i requires 0 <= i < |args| => Tag(args[|args| - 1 - i]))
  }

  // ---------------------------------------------------------------- delivering an element

  lemma PacketsSnoc(ps: seq<Element>, e: Element)
    ensures Packets(ps + [e]) == Packets(ps) + Encode(e)
  {
    assert (ps + [e])[..|ps|] == ps;
  }

  lemma EncodeAllSnoc(es: seq<Element>, e: Element)
    ensures EncodeAll(es + [e]) == EncodeAll(es) + Sized(Encode(e))
  {
    assert (es + [e])[..|es|] == es;
  }

  /** Replacing the slot by the size turns "open bundle, slot, contents" into "open bundle
      with one more element". */
  lemma DeliverPartial(b: Building, e: Element)
    ensures
      var d := Deliver(b, e);
      && Partial(d.packets, d.open)
           == Partial(b.packets, b.open) + (if b.open == [] then [] else BE32(Unsigned32(|Encode(e)|))) + Encode(e)
      && SizePtr(d) == (if b.open == [] then NULL else SlotAt(b.packets, b.open[..|b.open| - 1]))
  {
    if b.open == [] {
      PacketsSnoc(b.packets, e);
      assert Packets(b.packets) + [] == Packets(b.packets);
    } else {
      var k := |b.open| - 1;
      var outer, last := b.open[..k], b.open[k];
      var last' := last.(done := last.done + [e]);
      var open' := b.open[k := last'];
      assert open'[..k] == outer;
      EncodeAllSnoc(last.done, e);
      var before := Partial(b.packets, outer) + Slot(b.packets, outer);
      Assoc(BundleHeader(last.timeTag), EncodeAll(last.done), Sized(Encode(e)));
      Assoc(before, BundleStart(last), Sized(Encode(e)));
      Assoc(before + BundleStart(last), BE32(Unsigned32(|Encode(e)|)), Encode(e));
    }
  }

  lemma PartialNonEmpty(ps: seq<Element>, open: seq<OpenBundle>)
    requires open != []
    ensures |Partial(ps, open)| >= 16 && SlotAt(ps, open[..|open| - 1]) < |Partial(ps, open)|
  {
    assert |BundleStart(open[|open| - 1])| >= 16;
  }

  /** What EndElement does to the front of the buffer, when the slot lies at `ptr`. */
  function Closed(front: Bytes, ptr: nat): Bytes
    requires ptr == 0 || ptr + 4 <= |front|
  {
    if ptr == 0 then front
    else front[..ptr] + BE32(Unsigned32(|front| - ptr - 4)) + front[ptr + 4..]
  }

  lemma StoreCloses(before: Bytes, after: Bytes, ptr: nat, endPtr: nat)
    requires 0 < ptr && ptr + 4 <= endPtr <= |before| == |after|
    requires after[..ptr + 4] == before[..ptr] + BE32(Unsigned32(endPtr - ptr - 4))
    requires after[ptr + 4..] == before[ptr + 4..]
    ensures after[..endPtr] == Closed(before[..endPtr], ptr)
    ensures after[endPtr..] == before[endPtr..]
    ensures before[..endPtr][ptr..ptr + 4] == before[ptr..ptr + 4]
  {
    var front := before[..endPtr];
    assert front[..ptr] == before[..ptr] && front[ptr + 4..] == before[ptr + 4..][..endPtr - ptr - 4];
    assert after[..endPtr] == after[..ptr + 4] + after[ptr + 4..][..endPtr - ptr - 4];
    assert after[endPtr..] == after[ptr + 4..][endPtr - ptr - 4..];
    assert before[endPtr..] == before[ptr + 4..][endPtr - ptr - 4..];
  }

  lemma CloseSlices(p: Bytes, slot: Bytes, body: Bytes)
    requires |slot| == 4 && |p| > 0
    ensures
      var front := p + slot + body;
      && front[|p|..|p| + 4] == slot
      && Closed(front, |p|) == p + BE32(Unsigned32(|body|)) + body
  {
    var front := p + slot + body;
    assert front[|p| + 4..] == body;
  }

  lemma CloseNested(p: Bytes, enclosing: nat, body: Bytes)
    requires enclosing < |p| < 0x1_0000_0000
    ensures
      var front := p + Offset(enclosing) + body;
      && ReadLE32(front[|p|..|p| + 4]) == enclosing
      && Closed(front, |p|) == p + BE32(Unsigned32(|body|)) + body
  {
    CloseSlices(p, Offset(enclosing), body);
    LE32RoundTrip(enclosing);
  }

  /** Closing an element delivers it to whatever encloses it, and the offset found in its
      slot leads back to the enclosing element. */
  lemma CloseDelivers(b: Building, e: Element, front: Bytes)
    requires b.message.NoMessage? && |front| < 0x1_0000_0000
    requires front == Partial(b.packets, b.open) + Slot(b.packets, b.open) + Encode(e)
    ensures
      var ptr := SlotAt(b.packets, b.open);
      && (ptr == 0 || ptr + 4 <= |front|)
      && Closed(front, ptr) == CursorBytes(Deliver(b, e))
      && SizePtr(Deliver(b, e)) == (if ptr == 0 then NULL else ReadLE32(front[ptr..ptr + 4]))
      && Deliver(b, e).message.NoMessage?
  {
    DeliverPartial(b, e);
    if b.open == [] {
      assert Packets(b.packets) + [] == Packets(b.packets);
    } else {
      PartialNonEmpty(b.packets, b.open);
      CloseNested(Partial(b.packets, b.open), SlotAt(b.packets, b.open[..|b.open| - 1]), Encode(e));
    }
  }

  lemma SizePtrBound(b: Building)
    ensures NULL <= SizePtr(b) <= |CursorBytes(b)|
    ensures SizePtr(b) == NULL <==> b.open == [] && b.message.NoMessage?
  {
  }

  lemma OffsetSmall(w: nat)
    requires w < 0x1_0000_0000
    ensures Offset(w) == LE32(w)
  {
  }

  lemma SlotIsSizePtr(b: Building)
    requires b.message.NoMessage? && |CursorBytes(b)| < 0x1_0000_0000
    ensures NULL <= SizePtr(b) <= |CursorBytes(b)|
    ensures Slot(b.packets, b.open) == if SizePtr(b) == NULL then [] else LE32(SizePtr(b))
  {
    SizePtrBound(b);
    if b.open != [] {
      OffsetSmall(SizePtr(b));
    }
  }

  lemma BeginBundlePartial(b: Building, timeTag: U64)
    requires b.message.NoMessage?
    ensures
      var b' := b.(open := b.open + [OpenBundle(timeTag, [])]);
      && CursorBytes(b') == CursorBytes(b) + Slot(b.packets, b.open) + BundleHeader(timeTag)
      && SizePtr(b') == SlotAt(b.packets, b.open)
  {
    assert (b.open + [OpenBundle(timeTag, [])])[..|b.open|] == b.open;
    assert BundleStart(OpenBundle(timeTag, [])) == BundleHeader(timeTag);
  }

  /** An argument given outside a message leaves no trace in the packet. */
  function AddArg(b: Building, a: Arg): Building {
    if b.message.NoMessage? then b
    else b.(message := InMessage(b.message.address, b.message.args + [a]))
  }

  lemma PayloadsSnoc(args: seq<Arg>, a: Arg)
    ensures Payloads(args + [a]) == Payloads(args) + Payload(a)
  {
    assert (args + [a])[..|args|] == args;
  }

  lemma ReverseTagsSnoc(args: seq<Arg>, a: Arg)
    ensures ReverseTags(args + [a]) == [Tag(a)] + ReverseTags(args)
  {
    var all, expected := ReverseTags(args + [a]), [Tag(a)] + ReverseTags(args);
    forall i | 0 <= i <= |args| ensures all[i] == expected[i] {
    }
  }

  /** What stays and what grows with an argument. */
  lemma AddArgFacts(b: Building, a: Arg)
    ensures CursorBytes(AddArg(b, a)) == CursorBytes(b) && SizePtr(AddArg(b, a)) == SizePtr(b)
    ensures b.message.InMessage? ==>
              var args := AddArg(b, a).message.args;
              && Payloads(args) == Payloads(b.message.args) + Payload(a)
              && ReverseTags(args) == [Tag(a)] + ReverseTags(b.message.args)
  {
    if b.message.InMessage? {
      PayloadsSnoc(b.message.args, a);
      ReverseTagsSnoc(b.message.args, a);
    }
  }

  function Reverse(b: Bytes): (r: Bytes)
    ensures |r| == |b|
  {
    seq(|b|, i requires 0 <= i < |b| => b[|b| - 1 - i])
  }

  lemma ReverseReverseTags(args: seq<Arg>)
    ensures Reverse(ReverseTags(args)) == Tags(args)
  {
  }

  /** What the message terminator makes of the tags collected at the back of the buffer. */
  function TagBytes(reversed: Bytes): (b: Bytes)
    ensures |b| == RoundUp4(|reversed| + 2)
  {
    [COMMA] + Reverse(reversed) + Zeros(RoundUp4(|reversed| + 2) - (|reversed| + 1))
  }

  lemma TagBytesAreTypeTags(args: seq<Arg>)
    ensures TagBytes(ReverseTags(args)) == TypeTagString(args)
  {
    TagsNonZero(args);
    ReverseReverseTags(args);
  }

  /** Appending `payload` at `end` keeps what lies before and extends the argument area. */
  lemma ArgumentSlices(before: Bytes, after: Bytes, start: nat, end: nat, payload: Bytes)
    requires start <= end <= end + |payload| <= |before| == |after|
    requires after[..end + |payload|] == before[..end] + payload
    ensures after[..start] == before[..start]
    ensures after[start..end + |payload|] == before[start..end] + payload
  {
    var front, front' := before[..end], after[..end + |payload|];
    assert after[..start] == front'[..start] == front[..start] == before[..start];
    assert after[start..end + |payload|] == front'[start..] == front[start..] + payload;
  }

  /** Moving the arguments up by the size of the tag string and writing that string into the
      gap puts it in front of them. */
  lemma TagsInFrontOfArguments(before: Bytes, moved: Bytes, after: Bytes, pos: nat, tags: Bytes, arguments: Bytes)
    requires pos + |tags| + |arguments| <= |before| && |moved| == |after| == |before|
    requires moved[..pos + |tags| + |arguments|] == before[..pos + |tags|] + arguments
    requires after[..pos + |tags|] == moved[..pos] + tags
    requires after[pos + |tags|..] == moved[pos + |tags|..]
    ensures after[..pos + |tags| + |arguments|] == before[..pos] + tags + arguments
  {
    var k, n := pos + |tags|, pos + |tags| + |arguments|;
    assert moved[..pos] == moved[..n][..pos] == before[..pos];
    assert moved[k..n] == moved[..n][k..] == arguments;
    assert after[k..n] == after[k..][..|arguments|] == moved[k..n];
    assert after[..n] == after[..k] + after[k..n];
  }

  /** The finished message, read off the two ends of the buffer. */
  lemma MessageTexts(b: Building)
    requires b.message.InMessage?
    ensures
      var args := b.message.args;
      && Encode(Message(b.message.address, args))
           == PadString(b.message.address) + TagBytes(ReverseTags(args)) + Payloads(args)
      && (args == [] ==> Payloads(args) == [])
      && CursorBytes(b) + TagBytes(ReverseTags(args)) + Payloads(args)
           == Partial(b.packets, b.open) + Slot(b.packets, b.open) + Encode(Message(b.message.address, args))
  {
    var args, address := b.message.args, PadString(b.message.address);
    var front, tags := Partial(b.packets, b.open) + Slot(b.packets, b.open), TagBytes(ReverseTags(args));
    TagBytesAreTypeTags(args);
    Assoc(front, address, tags);
    Assoc(front, address + tags, Payloads(args));
  }

  /** Pushing a tag at one end and writing a payload at the other do not disturb each other. */
  lemma PutSlices(before: Bytes, tagged: Bytes, after: Bytes, tags: nat, end: nat, tag: Byte, payload: Bytes)
    requires end + |payload| <= tags < |before| && |tagged| == |after| == |before|
    requires tagged[..tags] == before[..tags] && tagged[tags..] == [tag] + before[tags + 1..]
    requires after[..end + |payload|] == tagged[..end] + payload
    requires after[end + |payload|..] == tagged[end + |payload|..]
    ensures after[..end + |payload|] == before[..end] + payload
    ensures after[tags..] == [tag] + before[tags + 1..]
  {
    assert tagged[..end] == tagged[..tags][..end] == before[..tags][..end];
    var n := end + |payload|;
    assert after[tags..] == after[n..][tags - n..] == tagged[n..][tags - n..] == tagged[tags..];
  }

  lemma BlobSlices(after: Bytes, front: Bytes, blob: Bytes)
    requires after == front + BE32(Unsigned32(|blob|)) + blob + Zeros(RoundUp4(|blob|) - |blob|)
    ensures after == front + Payload(Blob(blob))
  {
    var size, zeros := BE32(Unsigned32(|blob|)), Zeros(RoundUp4(|blob|) - |blob|);
    Assoc(front, size, blob);
    Assoc(front, size + blob, zeros);
  }

  // ---------------------------------------------------------------- the stream

  /** What arguments given outside a message have left behind: bytes after the packet, and tags
      at the back of the buffer.  Both count in the space checks. */
  datatype Strays = Strays(bytes: nat, tags: nat)

  const NO_STRAYS := Strays(0, 0)

  /** The exceptions. */
  datatype Status = Ok | OutOfBufferMemory | BundleNotInProgress | MessageInProgress | MessageNotInProgress

  /** The length each overload asks CheckForAvailableArgumentSpace for. */
  function ArgumentLength(a: Arg): (n: nat)
    ensures n == |Payload(a)|
  {
    match a
    case True => 0
    case False => 0
    case Nil => 0
    case Infinitum => 0
    case Int32(_) => 4
    case Float(_) => 4
    case Character(_) => 4
    case Rgba(_) => 4
    case Midi(_) => 4
    case Int64(_) => 8
    case Time(_) => 8
    case Double(_) => 8
    case Str(t) => RoundUp4(|t| + 1)
    case Symbol(t) => RoundUp4(|t| + 1)
    case Blob(d) => 4 + RoundUp4(|d|)
  }

  class OutboundPacketStream {
    const data: array<Byte>   // data_ and end_
    var typeTagsCurrent: nat  // stored in reverse order
    var messageCursor: nat
    var argumentCurrent: nat
    var elementSizePtr: int
    var messageIsInProgress: bool

    ghost var building: Building

    ghost predicate Valid()
      reads this, data
    {
      && data.Length < 0x1_0000_0000
      && typeTagsCurrent <= data.Length
      && messageCursor <= argumentCurrent <= data.Length
      && data[..messageCursor] == CursorBytes(building)
      && elementSizePtr == SizePtr(building)
      && messageIsInProgress == building.message.InMessage?
      && (messageIsInProgress ==>
            && data[messageCursor..argumentCurrent] == Payloads(building.message.args)
            && data[typeTagsCurrent..] == ReverseTags(building.message.args)
            && argumentCurrent + RoundUp4(|building.message.args| + 2) <= data.Length)
    }

    ghost function Stray(): Strays
      requires Valid()
      reads this, data
    {
      if messageIsInProgress then NO_STRAYS else Strays(argumentCurrent - messageCursor, data.Length - typeTagsCurrent)
    }

    constructor (buffer: array<Byte>)
      requires buffer.Length < 0x1_0000_0000
      ensures Valid() && Stray() == NO_STRAYS && data == buffer && building == EMPTY
    {
      data := buffer;
      typeTagsCurrent := buffer.Length;
      messageCursor := 0;
      argumentCurrent := 0;
      elementSizePtr := NULL;
      messageIsInProgress := false;
      building := EMPTY;
    }

    method Clear()
      requires Valid()
      modifies this
      ensures Valid() && Stray() == NO_STRAYS && building == EMPTY
    {
      typeTagsCurrent := data.Length;
      messageCursor := 0;
      argumentCurrent := 0;
      elementSizePtr := NULL;
      messageIsInProgress := false;
      building := EMPTY;
    }

    function Capacity(): nat {
      data.Length
    }

    function Size(): nat
      reads this
      requires messageIsInProgress ==> typeTagsCurrent <= data.Length
    {
      if messageIsInProgress then argumentCurrent + RoundUp4(data.Length - typeTagsCurrent + 2) else argumentCurrent
    }

    predicate IsMessageInProgress()
      reads this
    {
      messageIsInProgress
    }

    predicate IsBundleInProgress()
      reads this
    {
      elementSizePtr != NULL
    }

    predicate IsReady()
      reads this
    {
      !IsMessageInProgress() && !IsBundleInProgress()
    }

    function SlotSize(): nat
      reads this
    {
      if elementSizePtr != NULL then 4 else 0
    }

    /** What BeginElement puts into the new element's slot. */
    function SlotBytes(): (b: Bytes)
      reads this
      requires NULL <= elementSizePtr < 0x1_0000_0000
      ensures |b| == SlotSize()
    {
      if elementSizePtr == NULL then [] else LE32(elementSizePtr)
    }

    /** memcpy, strcpy and FromUInt32 all come down to this. */
    method Store(pos: nat, bytes: Bytes)
      requires pos + |bytes| <= data.Length
      modifies data
      ensures data[..pos + |bytes|] == old(data[..pos]) + bytes
      ensures data[pos + |bytes|..] == old(data[pos + |bytes|..])
    {
      for i := 0 to |bytes|
        invariant forall j | 0 <= j < i :: data[pos + j] == bytes[j]
        invariant forall j | 0 <= j < data.Length && !(pos <= j < pos + i) :: data[j] == old(data[j])
      {
        data[pos + i] := bytes[i];
      }
    }

    method BeginElement(beginPtr: nat) returns (ptr: nat)
      requires NULL <= elementSizePtr < 0x1_0000_0000 && beginPtr + SlotSize() <= data.Length
      modifies this`elementSizePtr, data
      ensures ptr == beginPtr + old(SlotSize()) <= data.Length
      ensures elementSizePtr == if old(elementSizePtr) == NULL then 0 else beginPtr
      ensures data[..ptr] == old(data[..beginPtr]) + old(SlotBytes())
    {
      if elementSizePtr == NULL {
        elementSizePtr := 0;
        ptr := beginPtr;
      } else {
        Store(beginPtr, LE32(elementSizePtr));
        elementSizePtr := beginPtr;
        ptr := beginPtr + 4;
      }
    }

    /** CheckForAvailableBundleSpace, CheckForAvailableMessageSpace and
        CheckForAvailableArgumentSpace: do they let the caller through? */
    predicate BundleSpace()
      reads this
      requires typeTagsCurrent <= data.Length
    {
      Size() + SlotSize() + 16 <= Capacity()
    }

    predicate MessageSpace(address: CString)
      reads this
      requires typeTagsCurrent <= data.Length
    {
      Size() + SlotSize() + RoundUp4(|address| + 1) + 4 <= Capacity()
    }

    predicate ArgumentSpace(length: nat)
      reads this
      requires typeTagsCurrent <= data.Length
    {
      argumentCurrent + length + RoundUp4(data.Length - typeTagsCurrent + 3) <= Capacity()
    }

    method PutBundleHeader(timeTag: U64)
      requires NULL <= elementSizePtr < 0x1_0000_0000 && messageCursor + SlotSize() + 16 <= data.Length
      modifies `elementSizePtr, `messageCursor, `argumentCurrent, data
      ensures messageCursor == argumentCurrent == old(messageCursor + SlotSize()) + 16 <= data.Length
      ensures elementSizePtr == if old(elementSizePtr) == NULL then 0 else old(messageCursor)
      ensures data[..messageCursor] == old(data[..messageCursor]) + old(SlotBytes()) + BundleHeader(timeTag)
    {
      messageCursor := BeginElement(messageCursor);
      Store(messageCursor, BundleHeader(timeTag));
      messageCursor := messageCursor + 16;
      argumentCurrent := messageCursor;
    }

    method WriteBundleHeader(timeTag: U64)
      requires Valid() && !messageIsInProgress && BundleSpace()
      modifies this, data
      ensures Valid() && Stray() == Strays(0, old(Stray()).tags)
      ensures building == old(building).(open := old(building).open + [OpenBundle(timeTag, [])])
    {
      SlotIsSizePtr(building);
      BeginBundlePartial(building, timeTag);
      PutBundleHeader(timeTag);
      building := building.(open := building.open + [OpenBundle(timeTag, [])]);
    }

    method BeginBundle(timeTag: U64) returns (r: Status)
      requires Valid()
      modifies this, data
      ensures Valid()
      ensures r == if old(messageIsInProgress) then MessageInProgress
                   else if !old(BundleSpace()) then OutOfBufferMemory else Ok
      ensures r == Ok ==> building == old(building).(open := old(building).open + [OpenBundle(timeTag, [])])
      ensures r == Ok ==> Stray() == Strays(0, old(Stray()).tags)
      ensures r != Ok ==> unchanged(this) && unchanged(data)
    {
      if messageIsInProgress {
        return MessageInProgress;
      }
      if !BundleSpace() {
        return OutOfBufferMemory;
      }
      WriteBundleHeader(timeTag);
      return Ok;
    }

    method EndElement(endPtr: nat)
      requires 0 <= elementSizePtr
      requires elementSizePtr != 0 ==> elementSizePtr + 4 <= endPtr
      requires endPtr <= data.Length
      modifies `elementSizePtr, data
      ensures data[..endPtr] == Closed(old(data[..endPtr]), old(elementSizePtr))
      ensures data[endPtr..] == old(data[endPtr..])
      ensures elementSizePtr ==
              if old(elementSizePtr) == 0 then NULL
              else ReadLE32(old(data[..endPtr])[old(elementSizePtr)..old(elementSizePtr) + 4])
    {
      if elementSizePtr == 0 {
        elementSizePtr := NULL;
      } else {
        ghost var before := data[..];
        var previous := ReadLE32(data[elementSizePtr..elementSizePtr + 4]);
        Store(elementSizePtr, BE32(Unsigned32(endPtr - elementSizePtr - 4)));
        StoreCloses(before, data[..], elementSizePtr, endPtr);
        elementSizePtr := previous;
      }
    }

    method CloseInnermost()
      requires Valid() && building.message.NoMessage? && building.open != []
      modifies `elementSizePtr, `building, data
      ensures Valid() && building == CloseBundle(old(building)) && Stray() == old(Stray())
    {
      ghost var last := building.open[|building.open| - 1];
      ghost var enclosing := building.(open := building.open[..|building.open| - 1]);
      CloseDelivers(enclosing, Bundle(last.timeTag, last.done), data[..messageCursor]);
      EndElement(messageCursor);
      building := CloseBundle(building);
    }

    method EndBundle() returns (r: Status)
      requires Valid()
      modifies this, data
      ensures Valid()
      ensures r == if old(building) == old(building).(open := [], message := NoMessage) then BundleNotInProgress
                   else if old(messageIsInProgress) then MessageInProgress else Ok
      ensures r == Ok ==> building == CloseBundle(old(building)) && Stray() == old(Stray())
      ensures r != Ok ==> unchanged(this) && unchanged(data)
    {
      SizePtrBound(building);
      if !IsBundleInProgress() {
        return BundleNotInProgress;
      }
      if messageIsInProgress {
        return MessageInProgress;
      }
      CloseInnermost();
      return Ok;
    }

    /** The padding loop: nulls up to the next multiple of four. */
    method StoreZeros(pos: nat, length: nat) returns (next: nat)
      requires pos + RoundUp4(length) - length <= data.Length
      modifies data
      ensures next == pos + RoundUp4(length) - length <= data.Length
      ensures data[..next] == old(data[..pos]) + Zeros(RoundUp4(length) - length)
      ensures data[next..] == old(data[next..])
    {
      next := pos;
      var i := length;
      while i % 4 != 0
        invariant length <= i <= RoundUp4(length) && next == pos + i - length
        invariant data[..next] == old(data[..pos]) + Zeros(i - length)
        invariant data[next..] == old(data[next..])
        decreases RoundUp4(length) - i
      {
        ghost var done := data[..next];
        data[next] := 0;
        assert data[..next + 1] == done + [0];
        next := next + 1;
        i := i + 1;
      }
    }

    method StorePadded(pos: nat, s: CString) returns (next: nat)
      requires pos + RoundUp4(|s| + 1) <= data.Length
      modifies data
      ensures next == pos + RoundUp4(|s| + 1) <= data.Length
      ensures data[..next] == old(data[..pos]) + PadString(s)
      ensures data[next..] == old(data[next..])
    {
      Store(pos, s + [0]);
      next := StoreZeros(pos + |s| + 1, |s| + 1);
    }

    method PutAddress(address: CString)
      requires NULL <= elementSizePtr < 0x1_0000_0000
      requires messageCursor + SlotSize() + RoundUp4(|address| + 1) <= data.Length
      modifies this, data
      ensures messageCursor == argumentCurrent == old(messageCursor + SlotSize()) + RoundUp4(|address| +
                    1) <= data.Length
      ensures typeTagsCurrent == data.Length && messageIsInProgress && building == old(building)
      ensures elementSizePtr == if old(elementSizePtr) == NULL then 0 else old(messageCursor)
      ensures data[..messageCursor] == old(data[..messageCursor]) + old(SlotBytes()) + PadString(address)
    {
      messageCursor := BeginElement(messageCursor);
      messageCursor := StorePadded(messageCursor, address);
      argumentCurrent := messageCursor;
      typeTagsCurrent := data.Length;
      messageIsInProgress := true;
    }

    method WriteAddress(address: CString)
      requires Valid() && !messageIsInProgress && MessageSpace(address)
      modifies this, data
      ensures Valid() && building == old(building).(message := InMessage(address, []))
    {
      SlotIsSizePtr(building);
      PutAddress(address);
      building := building.(message := InMessage(address, []));
    }

    method BeginMessage(address: CString) returns (r: Status)
      requires Valid()
      modifies this, data
      ensures Valid()
      ensures r == if old(messageIsInProgress) then MessageInProgress
                   else if !old(MessageSpace(address)) then OutOfBufferMemory else Ok
      ensures r == Ok ==> building == old(building).(message := InMessage(address, []))
      ensures r != Ok ==> unchanged(this) && unchanged(data)
    {
      if messageIsInProgress {
        return MessageInProgress;
      }
      if !MessageSpace(address) {
        return OutOfBufferMemory;
      }
      WriteAddress(address);
      return Ok;
    }

    method CloseMessageElement()
      requires data.Length < 0x1_0000_0000 && typeTagsCurrent == data.Length
      requires messageCursor == argumentCurrent <= data.Length
      requires building.message.InMessage? && elementSizePtr == SizePtr(building)
      requires data[..messageCursor] == Partial(building.packets, building.open) + Slot(building.packets, building.open)
                                        + Encode(Message(building.message.address, building.message.args))
      modifies `elementSizePtr, `messageIsInProgress, `building, data
      ensures Valid() && building == CloseMessage(old(building)) && !messageIsInProgress
    {
      ghost var e := Message(building.message.address, building.message.args);
      ghost var b := building.(message := NoMessage);
      CloseDelivers(b, e, data[..messageCursor]);
      assert Deliver(b, e) == CloseMessage(building);
      EndElement(messageCursor);
      messageIsInProgress := false;
      building := CloseMessage(building);
    }

    method StoreReversed(pos: nat, reversed: Bytes)
      requires pos + 1 + |reversed| <= data.Length
      modifies data
      ensures data[..pos + 1 + |reversed|] == old(data[..pos]) + [COMMA] + Reverse(reversed)
      ensures data[pos + 1 + |reversed|..] == old(data[pos + 1 + |reversed|..])
    {
      var n := |reversed|;
      ghost var front := data[..pos];
      data[pos] := COMMA;
      assert data[..pos + 1] == front + [COMMA];
      for i := 0 to n
        invariant data[..pos + 1 + i] == front + [COMMA] + Reverse(reversed)[..i]
        invariant data[pos + 1 + i..] == old(data[pos + 1 + i..])
      {
        ghost var done := data[..pos + 1 + i];
        data[pos + i + 1] := reversed[(n - 1) - i];
        assert data[..pos + 1 + i + 1] == done + [Reverse(reversed)[i]];
      }
      assert Reverse(reversed)[..n] == Reverse(reversed);
    }

    method StoreNulls(pos: nat, count: nat)
      requires pos + count <= data.Length
      modifies data
      ensures data[..pos + count] == old(data[..pos]) + Zeros(count)
      ensures data[pos + count..] == old(data[pos + count..])
    {
      for i := 0 to count
        invariant data[..pos + i] == old(data[..pos]) + Zeros(i)
        invariant data[pos + i..] == old(data[pos + i..])
      {
        ghost var done := data[..pos + i];
        data[pos + i] := 0;
        assert data[..pos + i + 1] == done + [0];
      }
    }

    method StoreTags(pos: nat, reversed: Bytes)
      requires pos + RoundUp4(|reversed| + 2) <= data.Length
      modifies data
      ensures data[..pos + RoundUp4(|reversed| + 2)] == old(data[..pos]) + TagBytes(reversed)
      ensures data[pos + RoundUp4(|reversed| + 2)..] == old(data[pos + RoundUp4(|reversed| + 2)..])
    {
      var n, size := |reversed|, RoundUp4(|reversed| + 2);
      ghost var front, before := data[..pos], data[..];
      StoreReversed(pos, reversed);
      ghost var tagged := data[..];
      StoreNulls(pos + 1 + n, size - (n + 1));
      Assoc(front, [COMMA], Reverse(reversed));
      Assoc(front, [COMMA] + Reverse(reversed), Zeros(size - (n + 1)));
      DropDrop(tagged, pos + 1 + n, size - (n + 1));
      DropDrop(before, pos + 1 + n, size - (n + 1));
    }

    method MoveArgumentsAndStoreTags(typeTagSlotSize: nat)
      requires typeTagsCurrent <= data.Length && messageCursor <= argumentCurrent
      requires typeTagSlotSize == RoundUp4(data.Length - typeTagsCurrent + 2)
      requires argumentCurrent + typeTagSlotSize <= data.Length
      modifies data
      ensures data[..argumentCurrent + typeTagSlotSize]
           == old(data[..messageCursor]) + TagBytes(old(data[typeTagsCurrent..])) +
              old(data[messageCursor..argumentCurrent])
    {
      var tempTypeTags := data[typeTagsCurrent..];
      var arguments := data[messageCursor..argumentCurrent];
      ghost var before := data[..];
      Store(messageCursor + typeTagSlotSize, arguments);
      ghost var moved := data[..];
      StoreTags(messageCursor, tempTypeTags);
      TagsInFrontOfArguments(before, moved, data[..], messageCursor, TagBytes(tempTypeTags), arguments);
    }

    /** Moves the arguments up and puts the type tag string in front of them.  The tags are
        copied first: the arguments may move over them. */
    method InsertTypeTags()
      requires typeTagsCurrent <= data.Length && messageCursor <= argumentCurrent
      requires argumentCurrent + RoundUp4(data.Length - typeTagsCurrent + 2) <= data.Length
      requires typeTagsCurrent == data.Length ==> argumentCurrent == messageCursor
      modifies `messageCursor, `argumentCurrent, `typeTagsCurrent, data
      ensures messageCursor == argumentCurrent
                            == old(argumentCurrent) + RoundUp4(data.Length - old(typeTagsCurrent) + 2) <= data.Length
      ensures typeTagsCurrent == data.Length
      ensures data[..messageCursor]
           == old(data[..messageCursor]) + TagBytes(old(data[typeTagsCurrent..])) +
              old(data[messageCursor..argumentCurrent])
    {
      var typeTagsCount := data.Length - typeTagsCurrent;
      if typeTagsCount != 0 {
        var typeTagSlotSize := RoundUp4(typeTagsCount + 2);
        MoveArgumentsAndStoreTags(typeTagSlotSize);
        messageCursor := messageCursor + typeTagSlotSize + (argumentCurrent - messageCursor);
        typeTagsCurrent := data.Length;
      } else {
        Store(messageCursor, [COMMA, 0, 0, 0]);
        messageCursor := messageCursor + 4;
      }
      argumentCurrent := messageCursor;
    }

    method FinishMessage()
      requires Valid() && messageIsInProgress
      modifies this, data
      ensures Valid() && building == CloseMessage(old(building)) && Stray() == NO_STRAYS && Size() == old(Size())
    {
      MessageTexts(building);
      InsertTypeTags();
      CloseMessageElement();
    }

    method EndMessage() returns (r: Status)
      requires Valid()
      modifies this, data
      ensures Valid()
      ensures r == if old(messageIsInProgress) then Ok else MessageNotInProgress
      ensures r == Ok ==> building == CloseMessage(old(building)) && Stray() == NO_STRAYS && Size() == old(Size())
      ensures r != Ok ==> unchanged(this) && unchanged(data)
    {
      if !messageIsInProgress {
        return MessageNotInProgress;
      }
      FinishMessage();
      return Ok;
    }

    // -------------------------------------------------------------- the argument writers

    method PushTag(tag: Byte)
      requires 0 < typeTagsCurrent <= data.Length
      modifies `typeTagsCurrent, data
      ensures typeTagsCurrent == old(typeTagsCurrent) - 1
      ensures data[..typeTagsCurrent] == old(data[..typeTagsCurrent - 1])
      ensures data[typeTagsCurrent..] == [tag] + old(data[typeTagsCurrent..])
    {
      typeTagsCurrent := typeTagsCurrent - 1;
      data[typeTagsCurrent] := tag;
    }

    predicate ArgumentRoom(length: nat)
      reads this
    {
      argumentCurrent + length < typeTagsCurrent <= data.Length
    }

    ghost predicate ArgumentPut(a: Arg, mem: Bytes, tags: nat, end: nat)
      reads this, data
      requires |mem| == data.Length && end <= |mem| && tags <= |mem|
    {
      && typeTagsCurrent == tags - 1 <= data.Length
      && argumentCurrent == end + |Payload(a)| <= data.Length
      && data[..argumentCurrent] == mem[..end] + Payload(a)
      && data[typeTagsCurrent..] == [Tag(a)] + mem[tags..]
    }

    /** An argument of fixed size: a tag, and bytes that are known at once. */
    method PutFixed(ghost a: Arg, tag: Byte, bytes: Bytes)
      requires tag == Tag(a) && bytes == Payload(a)
      requires ArgumentRoom(|Payload(a)|)
      modifies `typeTagsCurrent, `argumentCurrent, data
      ensures ArgumentPut(a, old(data[..]), old(typeTagsCurrent), old(argumentCurrent))
    {
      ghost var before := data[..];
      PushTag(tag);
      ghost var tagged := data[..];
      Store(argumentCurrent, bytes);
      PutSlices(before, tagged, data[..], typeTagsCurrent, argumentCurrent, tag, bytes);
      argumentCurrent := argumentCurrent + |bytes|;
    }

    method PutString(ghost a: Arg, tag: Byte, s: CString)
      requires tag == Tag(a) && PadString(s) == Payload(a)
      requires ArgumentRoom(|Payload(a)|)
      modifies `typeTagsCurrent, `argumentCurrent, data
      ensures ArgumentPut(a, old(data[..]), old(typeTagsCurrent), old(argumentCurrent))
    {
      ghost var before := data[..];
      PushTag(tag);
      ghost var tagged := data[..];
      var next := StorePadded(argumentCurrent, s);
      PutSlices(before, tagged, data[..], typeTagsCurrent, argumentCurrent, tag, PadString(s));
      argumentCurrent := next;
    }

    method StoreBlob(pos: nat, blob: Bytes) returns (next: nat)
      requires pos + |Payload(Blob(blob))| <= data.Length
      modifies data
      ensures next == pos + |Payload(Blob(blob))| <= data.Length
      ensures data[..next] == old(data[..pos]) + Payload(Blob(blob))
      ensures data[next..] == old(data[next..])
    {
      ghost var before := data[..];
      Store(pos, BE32(Unsigned32(|blob|)));
      ghost var sized := data[..];
      Store(pos + 4, blob);
      ghost var stored := data[..];
      next := StoreZeros(pos + 4 + |blob|, |blob|);
      BlobSlices(data[..next], before[..pos], blob);
      DropDrop(stored, pos + 4 + |blob|, next - (pos + 4 + |blob|));
      DropDrop(sized, pos + 4, next - (pos + 4));
      DropDrop(sized, pos + 4 + |blob|, next - (pos + 4 + |blob|));
      DropDrop(before, pos + 4, next - (pos + 4));
    }

    method PutBlob(blob: Bytes)
      requires ArgumentRoom(|Payload(Blob(blob))|)
      modifies `typeTagsCurrent, `argumentCurrent, data
      ensures ArgumentPut(Blob(blob), old(data[..]), old(typeTagsCurrent), old(argumentCurrent))
    {
      ghost var before := data[..];
      PushTag(BLOB_TAG);
      ghost var tagged := data[..];
      var next := StoreBlob(argumentCurrent, blob);
      PutSlices(before, tagged, data[..], typeTagsCurrent, argumentCurrent, BLOB_TAG, Payload(Blob(blob)));
      argumentCurrent := next;
    }

    method PutArgument(a: Arg)
      requires ArgumentRoom(|Payload(a)|)
      modifies `typeTagsCurrent, `argumentCurrent, data
      ensures ArgumentPut(a, old(data[..]), old(typeTagsCurrent), old(argumentCurrent))
    {
      match a
      case True => PutFixed(a, TRUE_TAG, []);
      case False => PutFixed(a, FALSE_TAG, []);
      case Nil => PutFixed(a, NIL_TAG, []);
      case Infinitum => PutFixed(a, INFINITUM_TAG, []);
      case Int32(i) => PutFixed(a, INT32_TAG, BE32(Unsigned32(i)));
      case Float(w) => PutFixed(a, FLOAT_TAG, BE32(w));
      case Character(c) => PutFixed(a, CHAR_TAG, BE32(Unsigned32(c)));
      case Rgba(w) => PutFixed(a, RGBA_COLOR_TAG, BE32(w));
      case Midi(w) => PutFixed(a, MIDI_MESSAGE_TAG, BE32(w));
      case Int64(l) => PutFixed(a, INT64_TAG, BE64(Unsigned64(l)));
      case Time(w) => PutFixed(a, TIME_TAG_TAG, BE64(w));
      case Double(w) => PutFixed(a, DOUBLE_TAG, BE64(w));
      case Str(t) => PutString(a, STRING_TAG, t);
      case Symbol(t) => PutString(a, SYMBOL_TAG, t);
      case Blob(d) => PutBlob(d);
    }

    method WriteArgument(a: Arg)
      requires Valid() && ArgumentSpace(ArgumentLength(a))
      modifies `typeTagsCurrent, `argumentCurrent, `building, data
      ensures Valid() && building == AddArg(old(building), a)
      ensures !messageIsInProgress ==>
                Stray() == Strays(old(Stray()).bytes + ArgumentLength(a), old(Stray()).tags + 1)
    {
      hide CursorBytes, SizePtr, Payloads, ReverseTags, Payload;
      ghost var before := data[..];
      PutArgument(a);
      AddArgFacts(building, a);
      ArgumentSlices(before, data[..], messageCursor, old(argumentCurrent), Payload(a));
      building := AddArg(building, a);
    }

    /** The overloads of operator<< that add an argument to a message. */
    method Append(a: Arg) returns (r: Status)
      requires Valid()
      modifies this, data
      ensures Valid()
      ensures r == if old(ArgumentSpace(ArgumentLength(a))) then Ok else OutOfBufferMemory
      ensures r == Ok ==> building == AddArg(old(building), a)
      ensures r == Ok && !messageIsInProgress ==>
                Stray() == Strays(old(Stray()).bytes + ArgumentLength(a), old(Stray()).tags + 1)
      ensures messageIsInProgress == old(messageIsInProgress) && messageCursor == old(messageCursor)
      ensures r != Ok ==> unchanged(this) && unchanged(data)
    {
      if !ArgumentSpace(ArgumentLength(a)) {
        return OutOfBufferMemory;
      }
      WriteArgument(a);
      return Ok;
    }
  }

  // ---------------------------------------------------------------- what the stream promises
}
