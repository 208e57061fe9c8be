/** The TUIO bundles that TuioServer.cpp writes and TuioClient.cpp reads: one alive message,
    any number of set messages, one fseq message.  A frame whose set messages do not fit one
    packet is split over several bundles, each with the full alive list and the same fseq. */
module TuioPackets {
  import opened Basics
  import opened OscDecoding
  import opened OscEncoding
  import opened OscRuns
  import opened OscStream

  /** What a set message carries after the session ID. */
  datatype Item = Item(session: I32, details: seq<Arg>)

  datatype Frame = Frame(alive: seq<I32>, sets: seq<Item>, fseq: I32)

  const SET: CString := [0x73, 0x65, 0x74]  // "set"
  const ALIVE: CString := [0x61, 0x6C, 0x69, 0x76, 0x65]  // "alive"
  const FSEQ: CString := [0x66, 0x73, 0x65, 0x71]  // "fseq"
  const CURSOR_2D: CString := [0x2F, 0x74, 0x75, 0x69, 0x6F, 0x2F, 0x32, 0x44, 0x63, 0x75, 0x72]  // "/tuio/2Dcur"
  const CURSOR_3D: CString := [0x2F, 0x74, 0x75, 0x69, 0x6F, 0x2F, 0x33, 0x44, 0x63, 0x75, 0x72]  // "/tuio/3Dcur"
  const OBJECT_2D: CString := [0x2F, 0x74, 0x75, 0x69, 0x6F, 0x2F, 0x32, 0x44, 0x6F, 0x62, 0x6A]  // "/tuio/2Dobj"

  predicate Address(a: CString) {
    |a| == 11 && a[0] != HASH
  }

  function Sessions(ids: seq<I32>): (args: seq<Arg>)
    ensures |args| == |ids|
  {
    seq(|ids|, i requires 0 <= i < |ids| => Int32(ids[i]))
  }

  function AliveMessage(address: CString, alive: seq<I32>): Element {
    Message(address, [Str(ALIVE)] + Sessions(alive))
  }

  function SetMessage(address: CString, item: Item): Element {
    Message(address, [Str(SET), Int32(item.session)] + item.details)
  }

  function FseqMessage(address: CString, fseq: I32): Element {
    Message(address, [Str(FSEQ), Int32(fseq)])
  }

  function SetMessages(address: CString, items: seq<Item>): (es: seq<Element>)
    ensures |es| == |items|
  {
    seq(|items|, i requires 0 <= i < |items| => SetMessage(address, items[i]))
  }

  /** A bundle before its fseq message. */
  function Unfinished(address: CString, alive: seq<I32>, sets: seq<Item>): seq<Element> {
    [AliveMessage(address, alive)] + SetMessages(address, sets)
  }

  /** The time tag of BeginBundleImmediate. */
  const IMMEDIATELY: U64 := 1

  function FrameBundle(address: CString, f: Frame): Element {
    Bundle(IMMEDIATELY, Unfinished(address, f.alive, f.sets) + [FseqMessage(address, f.fseq)])
  }

  // ---------------------------------------------------------------- sizes

  lemma {:induction false} WordPayloads(args: seq<Arg>)
    requires forall a | a in args :: |Payload(a)| == 4
    ensures |Payloads(args)| == 4 * |args|
    decreases |args|
  {
    if args == [] {
    } else {
      WordPayloads(args[..|args| - 1]);
    }
  }

  predicate Words(args: seq<Arg>) {
    forall a | a in args :: a.Int32? || a.Float?
  }

  lemma SetMessageSize(address: CString, item: Item)
    requires Address(address) && Words(item.details)
    ensures |Encode(SetMessage(address, item))| == 20 + RoundUp4(|item.details| + 4) + 4 * |item.details|
  {
    WordPayloads([Str(SET), Int32(item.session)] + item.details);
  }

  lemma FseqMessageSize(address: CString, fseq: I32)
    requires Address(address)
    ensures |Encode(FseqMessage(address, fseq))| == 28
  {
    var args := [Str(FSEQ), Int32(fseq)];
    assert args == [Str(FSEQ)] + [Int32(fseq)];
    PayloadsCons(Str(FSEQ), [Int32(fseq)]);
    WordPayloads([Int32(fseq)]);
    assert |Payload(Str(FSEQ))| == 8;
  }

  lemma AliveMessageSize(address: CString, alive: seq<I32>)
    requires Address(address)
    ensures |Encode(AliveMessage(address, alive))| == 20 + RoundUp4(|alive| + 3) + 4 * |alive|
  {
    PayloadsCons(Str(ALIVE), Sessions(alive));
    WordPayloads(Sessions(alive));
  }

  /** With their size slots, the set message of a 2D cursor (position, speed, acceleration) and
      the fseq message take 88 bytes, those of a 2D object 108; a 3D cursor needs 96. */
  lemma ThresholdsAreTight(address: CString, item: Item, fseq: I32)
    requires Address(address) && Words(item.details)
    ensures
      var both := 4 + |Encode(SetMessage(address, item))| + 4 + |Encode(FseqMessage(address, fseq))|;
      && (|item.details| == 5 ==> both == 88)
      && (|item.details| == 9 ==> both == 108)
      && (|item.details| == 7 ==> both == 96)
  {
    SetMessageSize(address, item);
    FseqMessageSize(address, fseq);
  }

  function BundleSize(es: seq<Element>): nat {
    16 + |EncodeAll(es)|
  }

  lemma UnfinishedSnoc(address: CString, alive: seq<I32>, sets: seq<Item>, item: Item)
    ensures Unfinished(address, alive, sets + [item]) == Unfinished(address, alive, sets) + [SetMessage(address, item)]
  {
  }

  lemma BundleSizeSnoc(es: seq<Element>, e: Element)
    ensures BundleSize(es + [e]) == BundleSize(es) + 4 + |Encode(e)|
  {
    EncodeAllSnoc(es, e);
  }

  lemma SetMessageGrows(address: CString, alive: seq<I32>, sets: seq<Item>, item: Item)
    ensures Unfinished(address, alive, sets + [item]) == Unfinished(address, alive, sets) + [SetMessage(address, item)]
    ensures BundleSize(Unfinished(address, alive, sets + [item]))
         == BundleSize(Unfinished(address, alive, sets)) + 4 + |Encode(SetMessage(address, item))|
  {
    UnfinishedSnoc(address, alive, sets, item);
    BundleSizeSnoc(Unfinished(address, alive, sets), SetMessage(address, item));
  }

  // ---------------------------------------------------------------- writing a bundle

  /** The stream while a bundle with the elements `es` is open. */
  function Started(es: seq<Element>): Building {
    OpenWith(EMPTY, IMMEDIATELY, es)
  }

  lemma StartedSize(es: seq<Element>)
    ensures BuildingSize(Started(es)) == BundleSize(es)
    ensures CloseBundle(Started(es)) == Building([Bundle(IMMEDIATELY, es)], [], NoMessage)
  {
    OpenWithFacts(EMPTY, IMMEDIATELY, es);
    DeliverSize(EMPTY, Bundle(IMMEDIATELY, es));
    assert [] + [Bundle(IMMEDIATELY, es)] == [Bundle(IMMEDIATELY, es)];
  }

  ghost predicate Holds(s: OutboundPacketStream, es: seq<Element>)
    reads s, s.data
  {
    s.Valid() && ProgressOf(s) == Clean(Started(es)) && BundleSize(es) <= s.Capacity()
  }

  lemma HoldsSize(s: OutboundPacketStream, es: seq<Element>)
    requires Holds(s, es)
    ensures s.Size() == BundleSize(es)
  {
    ConcreteSizes(s);
    StartedSize(es);
  }

  /** BeginMessage, the arguments, EndMessage. */
  method PutMessage(s: OutboundPacketStream, ghost es: seq<Element>, m: Element) returns (ok: bool)
    requires Holds(s, es)
    modifies s, s.data
    ensures s.Valid()
    ensures ok <==> BundleSize(es + [m]) <= s.Capacity()
    ensures ok ==> Holds(s, es + [m])
  {
    StartedSize(es);
    StartedSize(es + [m]);
    EmitRun(Started(es), m, s.Capacity());
    OpenWithSnoc(EMPTY, IMMEDIATELY, es, m);
    ok := Replay(s, Emit(m));
  }

  /** startCursorBundle, startObjectBundle */
  method StartBundle(s: OutboundPacketStream, address: CString, alive: seq<I32>) returns (ok: bool)
    requires s.Valid() && Address(address)
    modifies s, s.data
    ensures s.Valid()
    ensures ok <==> BundleSize(Unfinished(address, alive, [])) <= s.Capacity()
    ensures ok ==> Holds(s, Unfinished(address, alive, []))
  {
    s.Clear();
    StartedSize([]);
    assert After(EMPTY, OpBeginBundle(IMMEDIATELY)) == Some(Started([]));
    BundleSizeSnoc([], AliveMessage(address, alive));
    assert Unfinished(address, alive, []) == [] + [AliveMessage(address, alive)];
    var r := Perform(s, OpBeginBundle(IMMEDIATELY));
    ok := r == Ok;
    if ok {
      ok := PutMessage(s, [], AliveMessage(address, alive));
    }
  }

  method CloseAndSend(s: OutboundPacketStream, ghost es: seq<Element>) returns (packet: Bytes)
    requires Holds(s, es)
    modifies s, s.data
    ensures s.Valid()
    ensures packet == Encode(Bundle(IMMEDIATELY, es))
  {
    StartedSize(es);
    SizePtrBound(s.building);
    var r := s.EndBundle();
    SizePtrBound(s.building);
    ReadyPacket(s, Bundle(IMMEDIATELY, es));
    packet := s.data[..s.Size()];
  }

  /** sendCursorBundle, sendObjectBundle: what goes to the socket. */
  method FinishBundle(s: OutboundPacketStream, address: CString, ghost alive: seq<I32>, ghost sets: seq<Item>,
                      fseq: I32)
    returns (ok: bool, packet: Bytes)
    requires Address(address) && Holds(s, Unfinished(address, alive, sets))
    modifies s, s.data
    ensures s.Valid()
    ensures ok <==> BundleSize(Unfinished(address, alive, sets)) + 32 <= s.Capacity()
    ensures ok ==> packet == Encode(FrameBundle(address, Frame(alive, sets, fseq)))
  {
    ghost var es := Unfinished(address, alive, sets);
    ghost var all := es + [FseqMessage(address, fseq)];
    FseqMessageSize(address, fseq);
    BundleSizeSnoc(es, FseqMessage(address, fseq));
    packet := [];
    ok := PutMessage(s, es, FseqMessage(address, fseq));
    if ok {
      packet := CloseAndSend(s, all);
    }
  }

  // ---------------------------------------------------------------- decoding

  lemma {:induction false} MessagesAddressesOk(es: seq<Element>)
    requires forall e | e in es :: e.Message? && Address(e.address)
    ensures AllAddressesOk(es)
    decreases |es|
  {
    if es == [] {
    } else {
      MessagesAddressesOk(es[..|es| - 1]);
    }
  }

  lemma FrameBundleAddresses(address: CString, f: Frame)
    requires Address(address)
    ensures AddressesOk(FrameBundle(address, f))
  {
    var es := Unfinished(address, f.alive, f.sets) + [FseqMessage(address, f.fseq)];
    MessagesAddressesOk(es);
  }

  /** Whatever fits a datagram is understood at the other end. */
  lemma FrameSurvivesTransport(address: CString, f: Frame)
    requires Address(address) && |Encode(FrameBundle(address, f))| < 0x1_0000_0000
    ensures Decode(Encode(FrameBundle(address, f))) == Some(FrameBundle(address, f))
  {
    FrameBundleAddresses(address, f);
    SmallIsEncodable(FrameBundle(address, f));
    RoundTrip(FrameBundle(address, f));
  }
}
