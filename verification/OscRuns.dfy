/** Whole runs of the packet stream: which sequences of calls succeed, what they leave in the
    buffer, and how the slots of the open elements hang together. */
module OscRuns {
  import opened Basics
  import opened OscDecoding
  import opened OscEncoding
  import opened OscStream

  // ---------------------------------------------------------------- the finished packet

  /** No message address looks like the start of a bundle. */
  predicate AddressesOk(e: Element)
    decreases e, 1
  {
    match e
    case Message(address, _) => address == [] || address[0] != HASH
    case Bundle(_, es) => AllAddressesOk(es)
  }

  predicate AllAddressesOk(es: seq<Element>)
    decreases es, 0
  {
    es == [] || (AllAddressesOk(es[..|es| - 1]) && AddressesOk(es[|es| - 1]))
  }

  lemma {:induction false} PayloadsBoundBlobs(args: seq<Arg>, i: nat)
    requires |Payloads(args)| < 0x1_0000_0000 && i < |args|
    ensures ArgFits(args[i])
    decreases |args|
  {
    var init, last := args[..|args| - 1], args[|args| - 1];
    assert |Payloads(args)| == |Payloads(init)| + |Payload(last)|;
    if i < |init| {
      PayloadsBoundBlobs(init, i);
      assert init[i] == args[i];
    } else if last.Blob? {
      RoundUp4IsLeast(|last.blob|, 0);
    }
  }

  /** Whatever fits a 32-bit size is encodable. */
  lemma {:induction false} SmallIsEncodable(e: Element)
    requires AddressesOk(e) && |Encode(e)| < 0x1_0000_0000
    ensures Encodable(e)
    decreases e, 1
  {
    match e
    case Message(_, args) =>
      assert |Payloads(args)| <= |Encode(e)|;
      forall i | 0 <= i < |args| ensures ArgFits(args[i]) {
        PayloadsBoundBlobs(args, i);
      }
    case Bundle(_, es) => SmallAreEncodable(es);
  }

  lemma {:induction false} SmallAreEncodable(es: seq<Element>)
    requires AllAddressesOk(es) && |EncodeAll(es)| < 0x1_0000_0000
    ensures EncodableAll(es)
    decreases es, 0
  {
    if es == [] {
    } else {
      SmallIsEncodable(es[|es| - 1]);
      SmallAreEncodable(es[..|es| - 1]);
    }
  }

  /** Encoding refinement: once a single packet has been built, the first Size() bytes of
      the buffer are its OSC 1.0 encoding and what stray arguments have left behind it; without
      any, decoding them gives back the packet. */
  lemma ReadyPacket(s: OutboundPacketStream, e: Element)
    requires s.Valid() && s.IsReady() && s.building.packets == [e]
    ensures s.Size() == |Encode(e)| + s.Stray().bytes && Encode(e) <= s.data[..s.Size()]
    ensures s.data[..s.Size()] == Encode(e) <==> s.Stray().bytes == 0
    ensures AddressesOk(e) && s.Stray().bytes == 0 ==> Decode(s.data[..s.Size()]) == Some(e)
  {
    SizePtrBound(s.building);
    PacketsSnoc([], e);
    assert [] + [e] == [e] && Packets([]) + Encode(e) == Encode(e);
    assert s.data[..s.messageCursor] == Encode(e) && |s.data[..s.messageCursor]| == s.messageCursor;
    assert s.data[..s.messageCursor] <= s.data[..s.Size()];
    if AddressesOk(e) {
      SmallIsEncodable(e);
      RoundTrip(e);
    }
  }

  // ---------------------------------------------------------------- the stack in the slots

  /** Where following the offsets leads, from a slot position down to the outermost element. */
  function Chain(mem: Bytes, ptr: nat): seq<nat>
    decreases ptr
  {
    if ptr == 0 || ptr + 4 > |mem| then [ptr]
    else
      var next: nat := ReadLE32(mem[ptr..ptr + 4]);
      if next < ptr then [ptr] + Chain(mem, next) else [ptr]
  }

  /** The slot positions of the bundles in `open`, innermost first. */
  function SlotPositions(ps: seq<Element>, open: seq<OpenBundle>): seq<nat>
    decreases |open|
  {
    if open == [] then []
    else
      var outer := open[..|open| - 1];
      [SlotAt(ps, outer)] + SlotPositions(ps, outer)
  }

  lemma MiddleSlice(p: Bytes, m: Bytes, t: Bytes, mem: Bytes)
    requires p + m + t <= mem
    ensures |p| + |m| <= |mem| && mem[|p|..|p| + |m|] == m
  {
    var front := p + m + t;
    assert mem[|p|..|p| + |m|] == front[|p|..|p| + |m|];
  }

  lemma {:induction false} ChainVisitsBundles(mem: Bytes, ps: seq<Element>, open: seq<OpenBundle>)
    requires open != [] && Partial(ps, open) <= mem && |mem| < 0x1_0000_0000
    ensures Chain(mem, SlotAt(ps, open[..|open| - 1])) == SlotPositions(ps, open)
    decreases |open|
  {
    var outer := open[..|open| - 1];
    if outer != [] {
      var at, enclosing := SlotAt(ps, outer), SlotAt(ps, outer[..|outer| - 1]);
      PartialNonEmpty(ps, outer);
      MiddleSlice(Partial(ps, outer), Offset(enclosing), BundleStart(open[|open| - 1]), mem);
      OffsetSmall(enclosing);
      LE32RoundTrip(enclosing);
      assert Partial(ps, outer) <= mem;
      ChainVisitsBundles(mem, ps, outer);
    }
  }

  lemma ChainVisitsMessage(mem: Bytes, b: Building)
    requires b.message.InMessage? && b.open != [] && CursorBytes(b) <= mem && |mem| < 0x1_0000_0000
    ensures
      var at, enclosing := SlotAt(b.packets, b.open), SlotAt(b.packets, b.open[..|b.open| - 1]);
      Chain(mem, at) == [at] + Chain(mem, enclosing)
  {
    var at, enclosing := SlotAt(b.packets, b.open), SlotAt(b.packets, b.open[..|b.open| - 1]);
    PartialNonEmpty(b.packets, b.open);
    MiddleSlice(Partial(b.packets, b.open), Offset(enclosing), PadString(b.message.address), mem);
    OffsetSmall(enclosing);
    LE32RoundTrip(enclosing);
  }

  /** At every moment, following the offsets from elementSizePtr_ visits exactly the open
      elements: the message if there is one, then the bundles from the innermost out. */
  lemma ChainVisitsOpenElements(s: OutboundPacketStream)
    requires s.Valid() && s.elementSizePtr != NULL
    ensures
      var b := s.building;
      Chain(s.data[..], s.elementSizePtr)
        == (if b.message.InMessage? then [SlotAt(b.packets, b.open)] else []) + SlotPositions(b.packets, b.open)
  {
    var b, mem := s.building, s.data[..];
    SizePtrBound(b);
    assert CursorBytes(b) <= mem && Partial(b.packets, b.open) <= mem;
    if b.open != [] {
      ChainVisitsBundles(mem, b.packets, b.open);
      if b.message.InMessage? {
        ChainVisitsMessage(mem, b);
      }
    }
  }

  // ---------------------------------------------------------------- calls and space

  datatype Op =
    | OpBeginBundle(timeTag: U64)
    | OpEndBundle
    | OpBeginMessage(address: CString)
    | OpEndMessage
    | OpAppend(a: Arg)

  /** Size() as a function of what is being built. */
  function BuildingSize(b: Building): nat {
    |CursorBytes(b)| +
    if b.message.NoMessage? then 0 else |Payloads(b.message.args)| + RoundUp4(|b.message.args| + 2)
  }

  function BuildingSlot(b: Building): nat {
    if SizePtr(b) == NULL then 0 else 4
  }

  /** What a call makes of the packet, if it is allowed at all. */
  function After(b: Building, op: Op): Option<Building> {
    match op
    case OpBeginBundle(t) => if b.message.InMessage? then None else Some(b.(open := b.open + [OpenBundle(t, [])]))
    case OpEndBundle => if b.message.InMessage? || b.open == [] then None else Some(CloseBundle(b))
    case OpBeginMessage(a) => if b.message.InMessage? then None else Some(b.(message := InMessage(a, [])))
    case OpEndMessage => if b.message.NoMessage? then None else Some(CloseMessage(b))
    case OpAppend(a) => if b.message.NoMessage? then None else Some(AddArg(b, a))
  }

  /** What is being built, and what stray arguments have left behind. */
  datatype Progress = Progress(b: Building, stray: Strays)

  function Clean(b: Building): Progress {
    Progress(b, NO_STRAYS)
  }

  ghost function ProgressOf(s: OutboundPacketStream): Progress
    requires s.Valid()
    reads s, s.data
  {
    Progress(s.building, s.Stray())
  }

  /** An argument given outside a message, which is accepted if there is space. */
  function DoStray(p: Progress, a: Arg, capacity: nat): Option<Progress> {
    if |CursorBytes(p.b)| + p.stray.bytes + ArgumentLength(a) + RoundUp4(p.stray.tags + 3) <= capacity
    then Some(p.(stray := Strays(p.stray.bytes + ArgumentLength(a), p.stray.tags + 1)))
    else None
  }

  /** Does a call need space?  Ending an element does not. */
  predicate NeedsSpace(op: Op) {
    !op.OpEndBundle? && !op.OpEndMessage?
  }

  /** What is left of the strays: BeginBundle writes over the bytes but keeps the tags. */
  function StrayAfter(stray: Strays, op: Op): Strays {
    match op
    case OpBeginBundle(_) => Strays(0, stray.tags)
    case OpEndBundle => stray
    case _ => NO_STRAYS
  }

  /** Any call.  It succeeds if it is allowed and the packet and the strays have space. */
  function Do(p: Progress, op: Op, capacity: nat): Option<Progress> {
    if op.OpAppend? && p.b.message.NoMessage? then DoStray(p, op.a, capacity)
    else
      match After(p.b, op)
      case None => None
      case Some(b) =>
        if NeedsSpace(op) && BuildingSize(b) + p.stray.bytes > capacity then None
        else Some(Progress(b, StrayAfter(p.stray, op)))
  }

  lemma BeginMessageCursor(b: Building, address: CString)
    requires b.message.NoMessage?
    ensures |CursorBytes(b.(message := InMessage(address, [])))|
         == |CursorBytes(b)| + BuildingSlot(b) + RoundUp4(|address| + 1)
  {
    SizePtrBound(b);
  }

  /** The space checks ask for exactly the size the packet will have. */
  lemma BeginSizes(b: Building, timeTag: U64, address: CString)
    requires b.message.NoMessage?
    ensures BuildingSize(b.(open := b.open + [OpenBundle(timeTag, [])])) == BuildingSize(b) + BuildingSlot(b) + 16
    ensures BuildingSize(b.(message := InMessage(address, [])))
         == BuildingSize(b) + BuildingSlot(b) + RoundUp4(|address| + 1) + 4
  {
    BeginBundlePartial(b, timeTag);
    SizePtrBound(b);
    BeginMessageCursor(b, address);
  }

  lemma AppendSize(b: Building, a: Arg)
    requires b.message.InMessage?
    ensures BuildingSize(AddArg(b, a))
         == |CursorBytes(b)| + |Payloads(b.message.args)| + ArgumentLength(a) + RoundUp4(|b.message.args| + 3)
  {
    PayloadsSnoc(b.message.args, a);
  }

  lemma DeliverSize(b: Building, e: Element)
    requires b.message.NoMessage?
    ensures BuildingSize(Deliver(b, e)) == BuildingSize(b) + BuildingSlot(b) + |Encode(e)|
  {
    DeliverPartial(b, e);
    SizePtrBound(b);
  }

  /** Closing an element does not change the size. */
  lemma CloseMessageSize(b: Building)
    requires b.message.InMessage?
    ensures BuildingSize(CloseMessage(b)) == BuildingSize(b)
  {
    MessageTexts(b);
    DeliverSize(b.(message := NoMessage), Message(b.message.address, b.message.args));
    SizePtrBound(b.(message := NoMessage));
  }

  lemma CloseBundleSize(b: Building)
    requires b.message.NoMessage? && b.open != []
    ensures BuildingSize(CloseBundle(b)) == BuildingSize(b)
  {
    var last := b.open[|b.open| - 1];
    var enclosing := b.(open := b.open[..|b.open| - 1]);
    DeliverSize(enclosing, Bundle(last.timeTag, last.done));
    SizePtrBound(enclosing);
    assert CursorBytes(b) == CursorBytes(enclosing) + Slot(b.packets, enclosing.open) +
               Encode(Bundle(last.timeTag, last.done));
  }

  lemma MessageFields(s: OutboundPacketStream)
    requires s.Valid() && s.messageIsInProgress
    ensures s.messageCursor == |CursorBytes(s.building)|
    ensures s.argumentCurrent == s.messageCursor + |Payloads(s.building.message.args)|
    ensures s.data.Length - s.typeTagsCurrent == |s.building.message.args|
  {
    assert |s.data[s.messageCursor..s.argumentCurrent]| == |Payloads(s.building.message.args)|;
    assert |s.data[s.typeTagsCurrent..]| == |s.building.message.args|;
    assert |s.data[..s.messageCursor]| == |CursorBytes(s.building)|;
  }

  lemma ConcreteSizes(s: OutboundPacketStream)
    requires s.Valid()
    ensures s.Size() == BuildingSize(s.building) + s.Stray().bytes && s.SlotSize() == BuildingSlot(s.building)
  {
    if s.messageIsInProgress {
      MessageFields(s);
    } else {
      assert |s.data[..s.messageCursor]| == |CursorBytes(s.building)|;
    }
  }

  /** What `Do` says is what the checks of the stream decide. */
  lemma BeginChecksAreExact(s: OutboundPacketStream, timeTag: U64, address: CString)
    requires s.Valid() && !s.messageIsInProgress
    ensures s.BundleSpace() <==> Do(ProgressOf(s), OpBeginBundle(timeTag), s.Capacity()).Some?
    ensures s.MessageSpace(address) <==> Do(ProgressOf(s), OpBeginMessage(address), s.Capacity()).Some?
  {
    ConcreteSizes(s);
    BeginSizes(s.building, timeTag, address);
    hide BuildingSize, CursorBytes, BuildingSlot, SizePtr, Payloads, ReverseTags;
  }

  lemma ArgumentCheckInside(s: OutboundPacketStream, a: Arg)
    requires s.Valid() && s.messageIsInProgress
    ensures s.ArgumentSpace(ArgumentLength(a)) <==> Do(ProgressOf(s), OpAppend(a), s.Capacity()).Some?
  {
    MessageFields(s);
    AppendSize(s.building, a);
    hide CursorBytes, BuildingSize, SizePtr, Payloads, ReverseTags;
    assert After(s.building, OpAppend(a)) == Some(AddArg(s.building, a));
  }

  lemma ArgumentCheckIsExact(s: OutboundPacketStream, a: Arg)
    requires s.Valid()
    ensures s.ArgumentSpace(ArgumentLength(a)) <==> Do(ProgressOf(s), OpAppend(a), s.Capacity()).Some?
  {
    if s.messageIsInProgress {
      ArgumentCheckInside(s, a);
    } else {
      hide CursorBytes;
      assert |s.data[..s.messageCursor]| == |CursorBytes(s.building)|;
    }
  }

  /** The packet never shrinks. */
  lemma AfterGrows(b: Building, op: Op)
    requires After(b, op).Some?
    ensures BuildingSize(After(b, op).value) >= BuildingSize(b)
  {
    match op
    case OpBeginBundle(t) => BeginSizes(b, t, []);
    case OpEndBundle => CloseBundleSize(b);
    case OpBeginMessage(a) => BeginSizes(b, 0, a);
    case OpEndMessage => CloseMessageSize(b);
    case OpAppend(a) =>
      AppendSize(b, a);
      RoundUp4IsLeast(|b.message.args| + 2, RoundUp4(|b.message.args| + 3));
      RoundUp4IsLeast(|b.message.args| + 3, 0);
  }

  // ---------------------------------------------------------------- runs

  /** A sequence of calls, until one of them throws. */
  function Run(p: Progress, ops: seq<Op>, capacity: nat): Option<Progress>
    decreases |ops|
  {
    if ops == [] then Some(p)
    else
      match Do(p, ops[0], capacity)
      case None => None
      case Some(p') => Run(p', ops[1..], capacity)
  }

  lemma {:induction false} RunConcat(p: Progress, xs: seq<Op>, ys: seq<Op>, capacity: nat)
    ensures Run(p, xs + ys, capacity)
         == (match Run(p, xs, capacity) case None => None case Some(p') => Run(p', ys, capacity))
    decreases |xs|
  {
    if xs == [] {
      assert xs + ys == ys;
    } else {
      assert (xs + ys)[1..] == xs[1..] + ys;
      match Do(p, xs[0], capacity)
      case None =>
      case Some(p') => RunConcat(p', xs[1..], ys, capacity);
    }
  }

  function EmitArgs(args: seq<Arg>): (ops: seq<Op>)
    ensures |ops| == |args|
  {
    seq(|args|, i requires 0 <= i < |args| => OpAppend(args[i]))
  }

  /** The calls that write one element, whatever its nesting. */
  function Emit(e: Element): seq<Op>
    decreases e, 1
  {
    match e
    case Message(address, args) => [OpBeginMessage(address)] + EmitArgs(args) + [OpEndMessage]
    case Bundle(t, es) => [OpBeginBundle(t)] + EmitAll(es) + [OpEndBundle]
  }

  function EmitAll(es: seq<Element>): seq<Op>
    decreases es, 0
  {
    if es == [] then [] else EmitAll(es[..|es| - 1]) + Emit(es[|es| - 1])
  }

  /** The outcome of trying to reach `b`. */
  function IfFits(b: Building, capacity: nat): Option<Progress> {
    if BuildingSize(b) <= capacity then Some(Clean(b)) else None
  }

  /** Without strays a call that is allowed succeeds exactly if its result fits. */
  lemma DoClean(b: Building, op: Op, capacity: nat)
    requires After(b, op).Some? && BuildingSize(b) <= capacity
    ensures Do(Clean(b), op, capacity) == IfFits(After(b, op).value, capacity)
  {
    hide BuildingSize, Deliver, Encode, Partial;
    match op
    case OpEndBundle => CloseBundleSize(b);
    case OpEndMessage => CloseMessageSize(b);
    case _ =>
  }

  function WithArgs(b: Building, args: seq<Arg>): Building
    requires b.message.InMessage?
  {
    b.(message := InMessage(b.message.address, b.message.args + args))
  }

  lemma WithArgsSnoc(b: Building, args: seq<Arg>, a: Arg)
    requires b.message.InMessage?
    ensures After(WithArgs(b, args), OpAppend(a)) == Some(WithArgs(b, args + [a]))
    ensures BuildingSize(WithArgs(b, args + [a])) >= BuildingSize(WithArgs(b, args))
  {
    assert b.message.args + (args + [a]) == (b.message.args + args) + [a];
    AfterGrows(WithArgs(b, args), OpAppend(a));
  }

  lemma EmitArgsSnoc(args: seq<Arg>, a: Arg)
    ensures EmitArgs(args + [a]) == EmitArgs(args) + [OpAppend(a)]
  {
  }

  lemma RunOne(p: Progress, op: Op, capacity: nat)
    ensures Run(p, [op], capacity) == Do(p, op, capacity)
  {
    assert [op][1..] == [];
  }

  lemma {:induction false} EmitArgsRun(b: Building, args: seq<Arg>, capacity: nat)
    requires b.message.InMessage? && BuildingSize(b) <= capacity
    ensures Run(Clean(b), EmitArgs(args), capacity) == IfFits(WithArgs(b, args), capacity)
    decreases |args|
  {
    if args == [] {
      assert b.message.args + args == b.message.args;
    } else {
      var init, last := args[..|args| - 1], args[|args| - 1];
      assert args == init + [last];
      hide Do, After, BuildingSize;
      EmitArgsRun(b, init, capacity);
      EmitArgsSnoc(init, last);
      RunConcat(Clean(b), EmitArgs(init), [OpAppend(last)], capacity);
      WithArgsSnoc(b, init, last);
      if BuildingSize(WithArgs(b, init)) <= capacity {
        RunOne(Clean(WithArgs(b, init)), OpAppend(last), capacity);
        DoClean(WithArgs(b, init), OpAppend(last), capacity);
      }
    }
  }

  /** The calls that write an element are bracketed by its begin and its end. */
  lemma RunBracket(p: Progress, first: Op, ops: seq<Op>, last: Op, capacity: nat)
    ensures Run(p, [first] + ops + [last], capacity)
         == (match Do(p, first, capacity)
             case None => None
             case Some(p1) =>
               match Run(p1, ops, capacity)
               case None => None
               case Some(p2) => Do(p2, last, capacity))
  {
    RunConcat(p, [first] + ops, [last], capacity);
    RunConcat(p, [first], ops, capacity);
    RunOne(p, first, capacity);
    if Run(p, [first] + ops, capacity).Some? {
      RunOne(Run(p, [first] + ops, capacity).value, last, capacity);
    }
  }

  lemma WithAllArgs(m: Building, args: seq<Arg>)
    requires m.message.InMessage? && m.message.args == []
    ensures WithArgs(m, args) == m.(message := InMessage(m.message.address, args))
  {
    assert [] + args == args;
  }

  lemma SameCursor(m: Building, n: Building)
    requires m.message.InMessage? && n.message.InMessage? && m.message.address == n.message.address
    requires m.packets == n.packets && m.open == n.open
    ensures CursorBytes(m) == CursorBytes(n)
  {
  }

  lemma PayloadsGrow(args: seq<Arg>)
    ensures RoundUp4(|args| + 2) >= 4
  {
    RoundUp4IsLeast(|args| + 2, 0);
  }

  lemma ArgumentsGrow(m: Building, n: Building)
    requires m.message.InMessage? && n.message.InMessage?
    requires n == m.(message := InMessage(m.message.address, n.message.args))
    requires m.message.args == []
    ensures BuildingSize(m) <= BuildingSize(n)
  {
    SameCursor(m, n);
    PayloadsGrow(n.message.args);
  }

  lemma BeginMessageSize(b: Building, address: CString, args: seq<Arg>)
    requires b.message.NoMessage?
    ensures
      var m := b.(message := InMessage(address, []));
      && CloseMessage(WithArgs(m, args)) == Deliver(b, Message(address, args))
      && BuildingSize(WithArgs(m, args)) == BuildingSize(Deliver(b, Message(address, args)))
      && BuildingSize(m) <= BuildingSize(WithArgs(m, args))
  {
    var m, full := b.(message := InMessage(address, [])), b.(message := InMessage(address, args));
    WithAllArgs(m, args);
    CloseMessageSize(full);
    ArgumentsGrow(m, full);
  }

  function OpenWith(b: Building, t: U64, es: seq<Element>): Building {
    b.(open := b.open + [OpenBundle(t, es)])
  }

  lemma OpenWithFacts(b: Building, t: U64, es: seq<Element>)
    requires b.message.NoMessage?
    ensures CloseBundle(OpenWith(b, t, es)) == Deliver(b, Bundle(t, es))
    ensures BuildingSize(OpenWith(b, t, es)) == BuildingSize(Deliver(b, Bundle(t, es)))
         == BuildingSize(OpenWith(b, t, [])) + |EncodeAll(es)|
  {
    var o := OpenWith(b, t, es);
    assert o.open[..|o.open| - 1] == b.open && o.open[|o.open| - 1] == OpenBundle(t, es);
    CloseBundleSize(o);
    DeliverSize(b, Bundle(t, es));
    BeginSizes(b, t, []);
  }

  lemma EmitBundleRun(b: Building, t: U64, es: seq<Element>, capacity: nat)
    requires b.message.NoMessage? && BuildingSize(b) <= capacity
    requires BuildingSize(OpenWith(b, t, [])) <= capacity ==>
               Run(Clean(OpenWith(b, t, [])), EmitAll(es), capacity) == IfFits(OpenWith(b, t, es), capacity)
    ensures Run(Clean(b), Emit(Bundle(t, es)), capacity) == IfFits(Deliver(b, Bundle(t, es)), capacity)
  {
    RunBracket(Clean(b), OpBeginBundle(t), EmitAll(es), OpEndBundle, capacity);
    assert After(b, OpBeginBundle(t)) == Some(OpenWith(b, t, []));
    OpenWithFacts(b, t, es);
    assert After(OpenWith(b, t, es), OpEndBundle) == Some(Deliver(b, Bundle(t, es)));
    hide Do, BuildingSize, Deliver, Encode, EncodeAll, After;
    DoClean(b, OpBeginBundle(t), capacity);
    if BuildingSize(OpenWith(b, t, es)) <= capacity {
      DoClean(OpenWith(b, t, es), OpEndBundle, capacity);
    }
  }

  lemma EmitBracketRun(b: Building, address: CString, args: seq<Arg>, capacity: nat)
    requires b.message.NoMessage? && BuildingSize(b) <= capacity
    requires
      var m := b.(message := InMessage(address, []));
      BuildingSize(m) <= capacity ==> Run(Clean(m), EmitArgs(args), capacity) == IfFits(WithArgs(m, args), capacity)
    ensures Run(Clean(b), Emit(Message(address, args)), capacity) ==
            IfFits(Deliver(b, Message(address, args)), capacity)
  {
    hide BuildingSize, Deliver, Encode, Do;
    var m := b.(message := InMessage(address, []));
    BeginMessageSize(b, address, args);
    RunBracket(Clean(b), OpBeginMessage(address), EmitArgs(args), OpEndMessage, capacity);
    assert After(b, OpBeginMessage(address)) == Some(m);
    assert After(WithArgs(m, args), OpEndMessage) == Some(Deliver(b, Message(address, args)));
    DoClean(b, OpBeginMessage(address), capacity);
    if BuildingSize(WithArgs(m, args)) <= capacity {
      DoClean(WithArgs(m, args), OpEndMessage, capacity);
    }
  }

  lemma EmitMessageRun(b: Building, address: CString, args: seq<Arg>, capacity: nat)
    requires b.message.NoMessage? && BuildingSize(b) <= capacity
    ensures Run(Clean(b), Emit(Message(address, args)), capacity) ==
            IfFits(Deliver(b, Message(address, args)), capacity)
  {
    var m := b.(message := InMessage(address, []));
    if BuildingSize(m) <= capacity {
      EmitArgsRun(m, args, capacity);
    }
    EmitBracketRun(b, address, args, capacity);
  }

  /** Writing one element, call by call, succeeds exactly if the whole element fits, and
      delivers it; the encoding is never refused halfway for want of space it does not need. */
  lemma {:induction false} EmitRun(b: Building, e: Element, capacity: nat)
    requires b.message.NoMessage? && BuildingSize(b) <= capacity
    ensures Run(Clean(b), Emit(e), capacity) == IfFits(Deliver(b, e), capacity)
    decreases e, 1
  {
    match e
    case Message(address, args) => EmitMessageRun(b, address, args, capacity);
    case Bundle(t, es) =>
      if BuildingSize(OpenWith(b, t, [])) <= capacity {
        EmitAllRun(b, t, es, capacity);
      }
      EmitBundleRun(b, t, es, capacity);
  }

  lemma OpenWithSnoc(b: Building, t: U64, es: seq<Element>, e: Element)
    requires b.message.NoMessage?
    ensures Deliver(OpenWith(b, t, es), e) == OpenWith(b, t, es + [e])
  {
  }

  lemma {:induction false} EmitAllRun(b: Building, t: U64, es: seq<Element>, capacity: nat)
    requires b.message.NoMessage? && BuildingSize(OpenWith(b, t, [])) <= capacity
    ensures Run(Clean(OpenWith(b, t, [])), EmitAll(es), capacity) == IfFits(OpenWith(b, t, es), capacity)
    decreases es, 0
  {
    if es == [] {
    } else {
      var init, last := es[..|es| - 1], es[|es| - 1];
      assert es == init + [last];
      EmitAllRun(b, t, init, capacity);
      RunConcat(Clean(OpenWith(b, t, [])), EmitAll(init), Emit(last), capacity);
      OpenWithSnoc(b, t, init, last);
      if BuildingSize(OpenWith(b, t, init)) <= capacity {
        EmitRun(OpenWith(b, t, init), last, capacity);
      } else {
        DeliverSize(OpenWith(b, t, init), last);
      }
    }
  }

  // ---------------------------------------------------------------- any client

  method PerformBegin(s: OutboundPacketStream, op: Op) returns (r: Status)
    requires s.Valid() && (op.OpBeginBundle? || op.OpBeginMessage?)
    modifies s, s.data
    ensures s.Valid()
    ensures r == Ok <==> Do(old(ProgressOf(s)), op, s.Capacity()).Some?
    ensures r == Ok ==> Some(ProgressOf(s)) == Do(old(ProgressOf(s)), op, s.Capacity())
    ensures r != Ok ==> ProgressOf(s) == old(ProgressOf(s))
  {
    hide BuildingSize, CursorBytes, SizePtr, Payloads, ReverseTags;
    if op.OpBeginBundle? {
      if !s.messageIsInProgress { BeginChecksAreExact(s, op.timeTag, []); }
      r := s.BeginBundle(op.timeTag);
    } else {
      if !s.messageIsInProgress { BeginChecksAreExact(s, 0, op.address); }
      r := s.BeginMessage(op.address);
    }
  }

  method PerformEnd(s: OutboundPacketStream, op: Op) returns (r: Status)
    requires s.Valid() && (op.OpEndBundle? || op.OpEndMessage?)
    modifies s, s.data
    ensures s.Valid()
    ensures r == Ok <==> Do(old(ProgressOf(s)), op, s.Capacity()).Some?
    ensures r == Ok ==> Some(ProgressOf(s)) == Do(old(ProgressOf(s)), op, s.Capacity())
    ensures r != Ok ==> ProgressOf(s) == old(ProgressOf(s))
  {
    SizePtrBound(s.building);
    hide BuildingSize, CursorBytes, SizePtr, Payloads, ReverseTags, Deliver;
    if op.OpEndBundle? {
      r := s.EndBundle();
    } else {
      r := s.EndMessage();
    }
  }

  method PerformAppend(s: OutboundPacketStream, a: Arg) returns (r: Status)
    requires s.Valid()
    modifies s, s.data
    ensures s.Valid()
    ensures r == Ok <==> Do(old(ProgressOf(s)), OpAppend(a), s.Capacity()).Some?
    ensures r == Ok ==> Some(ProgressOf(s)) == Do(old(ProgressOf(s)), OpAppend(a), s.Capacity())
    ensures r != Ok ==> ProgressOf(s) == old(ProgressOf(s))
  {
    hide BuildingSize, CursorBytes, SizePtr, Payloads, ReverseTags;
    ArgumentCheckIsExact(s, a);
    r := s.Append(a);
  }

  method Perform(s: OutboundPacketStream, op: Op) returns (r: Status)
    requires s.Valid()
    modifies s, s.data
    ensures s.Valid()
    ensures r == Ok <==> Do(old(ProgressOf(s)), op, s.Capacity()).Some?
    ensures r == Ok ==> Some(ProgressOf(s)) == Do(old(ProgressOf(s)), op, s.Capacity())
    ensures r != Ok ==> ProgressOf(s) == old(ProgressOf(s))
  {
    match op
    case OpBeginBundle(_) => r := PerformBegin(s, op);
    case OpBeginMessage(_) => r := PerformBegin(s, op);
    case OpEndBundle => r := PerformEnd(s, op);
    case OpEndMessage => r := PerformEnd(s, op);
    case OpAppend(a) => r := PerformAppend(s, a);
  }

  /** Performs the calls in order until one of them throws. */
  method Replay(s: OutboundPacketStream, ops: seq<Op>) returns (done: bool)
    requires s.Valid()
    modifies s, s.data
    ensures s.Valid()
    ensures done <==> Run(old(ProgressOf(s)), ops, s.Capacity()).Some?
    ensures done ==> Some(ProgressOf(s)) == Run(old(ProgressOf(s)), ops, s.Capacity())
  {
    for i := 0 to |ops|
      invariant s.Valid()
      invariant Run(old(ProgressOf(s)), ops, s.Capacity()) == Run(ProgressOf(s), ops[i..], s.Capacity())
    {
      var r := Perform(s, ops[i]);
      if r != Ok {
        return false;
      }
    }
    return true;
  }

  // ---------------------------------------------------------------- which calls leave a packet

  /** Has an argument with a payload been given since the last begin or end of a message or begin
      of a bundle?  When no message is open it was given outside of one. */
  predicate StrayPayload(ops: seq<Op>) {
    ops != [] &&
    match ops[|ops| - 1]
    case OpAppend(a) => Payload(a) != [] || StrayPayload(ops[..|ops| - 1])
    case OpEndBundle => StrayPayload(ops[..|ops| - 1])
    case _ => false
  }

  lemma StrayStep(p: Progress, op: Op, capacity: nat)
    requires Do(p, op, capacity).Some?
    ensures
      var q := Do(p, op, capacity).value;
      match op
      case OpAppend(a) => p.b.message.NoMessage? <==> q.b.message.NoMessage?
      case OpEndBundle => p.b.message.NoMessage?
      case _ => true
    ensures
      var q := Do(p, op, capacity).value;
      q.b.message.NoMessage? ==>
        q.stray.bytes == (match op
                          case OpAppend(a) => p.stray.bytes + |Payload(a)|
                          case OpEndBundle => p.stray.bytes
                          case _ => 0)
  {
    hide BuildingSize, CursorBytes, Deliver;
  }

  /** The calls alone say whether stray bytes are left. */
  lemma {:induction false} StrayBytesAre(b: Building, ops: seq<Op>, capacity: nat)
    requires b.message.NoMessage? && Run(Clean(b), ops, capacity).Some?
    ensures
      var p := Run(Clean(b), ops, capacity).value;
      p.b.message.NoMessage? ==> (p.stray.bytes > 0 <==> StrayPayload(ops))
    decreases |ops|
  {
    if ops == [] {
    } else {
      var init, last := ops[..|ops| - 1], ops[|ops| - 1];
      assert ops == init + [last];
      RunConcat(Clean(b), init, [last], capacity);
      hide Run;
      StrayBytesAre(b, init, capacity);
      var p := Run(Clean(b), init, capacity).value;
      RunOne(p, last, capacity);
      StrayStep(p, last, capacity);
    }
  }

  /** Encoding refinement for any client.  From a cleared stream, any calls that go through and
      end with one finished packet leave it in the buffer; the first Size() bytes are exactly its
      encoding if and only if no argument with a payload was given outside a message after the
      last element was begun or message ended. */
  method WriteCalls(s: OutboundPacketStream, ops: seq<Op>) returns (done: bool)
    requires s.Valid()
    modifies s, s.data
    ensures s.Valid()
    ensures done <==> Run(Clean(EMPTY), ops, s.Capacity()).Some?
    ensures done ==> Some(ProgressOf(s)) == Run(Clean(EMPTY), ops, s.Capacity())
    ensures done && s.IsReady() && |s.building.packets| == 1 ==>
              var e := s.building.packets[0];
              && s.Size() <= s.data.Length && Encode(e) <= s.data[..s.Size()]
              && (s.data[..s.Size()] == Encode(e) <==> !StrayPayload(ops))
  {
    s.Clear();
    assert ProgressOf(s) == Clean(EMPTY);
    hide Run;
    done := Replay(s, ops);
    if done && s.IsReady() && |s.building.packets| == 1 {
      StrayBytesAre(EMPTY, ops, s.Capacity());
      ReadyPacket(s, s.building.packets[0]);
    }
  }

  /** A stream with a finished packet takes an argument; it is not part of the packet, but makes
      Size() too large. */
  method StrayArgument(s: OutboundPacketStream, a: Arg)
    requires s.Valid() && s.IsReady() && s.ArgumentSpace(ArgumentLength(a))
    modifies s, s.data
    ensures s.Valid() && s.building == old(s.building) && s.IsReady()
    ensures s.Size() == old(s.Size()) + ArgumentLength(a)
  {
    var r := s.Append(a);
    SizePtrBound(s.building);
  }

  lemma EmitFromNothing(e: Element, capacity: nat)
    ensures Run(Clean(EMPTY), Emit(e), capacity)
         == if |Encode(e)| <= capacity then Some(Clean(Building([e], [], NoMessage))) else None
  {
    SizePtrBound(EMPTY);
    hide Run, Emit, Encode;
    EmitRun(EMPTY, e, capacity);
    DeliverSize(EMPTY, e);
    assert [] + [e] == [e];
  }

  /** Encoding refinement for the calls that write a packet.  After Clear, the calls that write
      `e` go through exactly if its encoding fits the buffer; then the stream is ready and the
      first Size() bytes of the buffer are the encoding of `e`. */
  method WritePacket(s: OutboundPacketStream, e: Element) returns (done: bool)
    requires s.Valid()
    modifies s, s.data
    ensures s.Valid()
    ensures done <==> |Encode(e)| <= s.Capacity()
    ensures done ==> s.IsReady() && s.Size() <= s.data.Length && s.data[..s.Size()] == Encode(e)
  {
    s.Clear();
    hide Run, Emit, Encode, BuildingSize, CursorBytes;
    EmitFromNothing(e, s.Capacity());
    done := Replay(s, Emit(e));
    if done {
      SizePtrBound(s.building);
      ReadyPacket(s, e);
    }
  }
}
