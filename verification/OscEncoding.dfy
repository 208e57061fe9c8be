/** The OSC 1.0 binary format as a recursive encoder, written from the specification (Open Sound
    Control 1.0, sections "OSC Packets", "OSC Messages", "OSC Type Tag String", "OSC Arguments"
    and "OSC Bundles").  `RoundUp4` and the element type codes
    are those of oscpack (OscOutboundPacketStream.cpp, OscTypes.h). */
module OscEncoding {
  import opened Basics

  /** A C string without its terminator. */
  type CString = s: Bytes | 0 !in s witness []

  /** A C `char`, whichever way the platform treats its sign. */
  type Char = c: int | -0x80 <= c < 0x100

  /** Floating-point arguments are carried as their bit patterns. */
  datatype Arg =
    | True | False | Nil | Infinitum
    | Int32(i: I32)
    | Float(bits: U32)
    | Character(c: Char)
    | Rgba(color: U32)
    | Midi(message: U32)
    | Int64(l: I64)
    | Time(tag: U64)
    | Double(bits64: U64)
    | Str(s: CString)
    | Symbol(s: CString)
    | Blob(blob: Bytes)

  datatype Element =
    | Message(address: CString, args: seq<Arg>)
    | Bundle(timeTag: U64, elements: seq<Element>)

  // ---------------------------------------------------------------- padding

  /** ((x-1) & ~3) + 4, on two's complement. */
  function RoundUp4(x: int): int {
    (x - 1) - (x - 1) % 4 + 4
  }

  lemma RoundUp4IsLeast(x: int, m: int)
    ensures RoundUp4(x) % 4 == 0 && x <= RoundUp4(x) < x + 4
    ensures m % 4 == 0 && x <= m ==> RoundUp4(x) <= m
  {
  }

  lemma SumAligned(x: int, y: int)
    requires x % 4 == 0 && y % 4 == 0
    ensures (x + y) % 4 == 0
  {
  }

  function Zeros(n: nat): (b: Bytes)
    ensures |b| == n
  {
    seq(n, _ => 0)
  }

  /** An OSC-string: the characters, a null, and up to three more nulls. */
  function PadString(s: CString): (b: Bytes)
    ensures |b| == RoundUp4(|s| + 1)
  {
    s + Zeros(RoundUp4(|s| + 1) - |s|)
  }

  // ---------------------------------------------------------------- the encoder

  // character codes of the type tags (OscTypes.h) and of the two marks
  const TRUE_TAG: Byte := 0x54  // 'T'
  const FALSE_TAG: Byte := 0x46  // 'F'
  const NIL_TAG: Byte := 0x4E  // 'N'
  const INFINITUM_TAG: Byte := 0x49  // 'I'
  const INT32_TAG: Byte := 0x69  // 'i'
  const FLOAT_TAG: Byte := 0x66  // 'f'
  const CHAR_TAG: Byte := 0x63  // 'c'
  const RGBA_COLOR_TAG: Byte := 0x72  // 'r'
  const MIDI_MESSAGE_TAG: Byte := 0x6D  // 'm'
  const INT64_TAG: Byte := 0x68  // 'h'
  const TIME_TAG_TAG: Byte := 0x74  // 't'
  const DOUBLE_TAG: Byte := 0x64  // 'd'
  const STRING_TAG: Byte := 0x73  // 's'
  const SYMBOL_TAG: Byte := 0x53  // 'S'
  const BLOB_TAG: Byte := 0x62  // 'b'
  const COMMA: Byte := 0x2C  // ','
  const HASH: Byte := 0x23  // '#'

  function Tag(a: Arg): Byte {
    match a
    case True => TRUE_TAG
    case False => FALSE_TAG
    case Nil => NIL_TAG
    case Infinitum => INFINITUM_TAG
    case Int32(_) => INT32_TAG
    case Float(_) => FLOAT_TAG
    case Character(_) => CHAR_TAG
    case Rgba(_) => RGBA_COLOR_TAG
    case Midi(_) => MIDI_MESSAGE_TAG
    case Int64(_) => INT64_TAG
    case Time(_) => TIME_TAG_TAG
    case Double(_) => DOUBLE_TAG
    case Str(_) => STRING_TAG
    case Symbol(_) => SYMBOL_TAG
    case Blob(_) => BLOB_TAG
  }

  function Payload(a: Arg): Bytes
  {
    match a
    case True => []
    case False => []
    case Nil => []
    case Infinitum => []
    case Int32(i) => BE32(Unsigned32(i))
    case Float(w) => BE32(w)
    case Character(c) => BE32(Unsigned32(c))
    case Rgba(w) => BE32(w)
    case Midi(w) => BE32(w)
    case Int64(l) => BE64(Unsigned64(l))
    case Time(w) => BE64(w)
    case Double(w) => BE64(w)
    case Str(s) => PadString(s)
    case Symbol(s) => PadString(s)
    case Blob(d) => BE32(Unsigned32(|d|)) + d + Zeros(RoundUp4(|d|) - |d|)
  }

  predicate ArgFits(a: Arg) {
    a.Blob? ==> |a.blob| < 0x1_0000_0000
  }

  predicate ArgsFit(args: seq<Arg>) {
    forall a | a in args :: ArgFits(a)
  }

  function Tags(args: seq<Arg>): (t: Bytes)
    ensures |t| == |args|
  {
    seq(|args|, i requires 0 <= i < |args| => Tag(args[i]))
  }

  function Payloads(args: seq<Arg>): Bytes
  {
    if args == [] then [] else Payloads(args[..|args| - 1]) + Payload(args[|args| - 1])
  }

  lemma TagsNonZero(args: seq<Arg>)
    ensures 0 !in Tags(args)
  {
  }

  /** A comma and the tags, padded like any string. */
  function TypeTagString(args: seq<Arg>): (b: Bytes)
    ensures |b| == RoundUp4(|args| + 2)
  {
    TagsNonZero(args);
    PadString([COMMA] + Tags(args))
  }

  /** "#bundle" */
  const BUNDLE: CString := [HASH, 0x62, 0x75, 0x6E, 0x64, 0x6C, 0x65]

  function BundleHeader(timeTag: U64): (b: Bytes)
    ensures |b| == 16
  {
    BUNDLE + [0] + BE64(timeTag)
  }

  function Encode(e: Element): Bytes
    decreases e, 1
  {
    match e
    case Message(address, args) => PadString(address) + TypeTagString(args) + Payloads(args)
    case Bundle(timeTag, es) => BundleHeader(timeTag) + EncodeAll(es)
  }

  /** A bundle element: its size and its contents. */
  function Sized(b: Bytes): Bytes {
    BE32(Unsigned32(|b|)) + b
  }

  function EncodeAll(es: seq<Element>): Bytes
    decreases es, 0
  {
    if es == [] then [] else EncodeAll(es[..|es| - 1]) + Sized(Encode(es[|es| - 1]))
  }

  /** Every size that is written into the packet fits its 32-bit slot, and no message can
      be mistaken for a bundle. */
  predicate Encodable(e: Element)
    decreases e, 1
  {
    match e
    case Message(address, args) => ArgsFit(args) && (address == [] || address[0] != HASH)
    case Bundle(_, es) => EncodableAll(es)
  }

  predicate EncodableAll(es: seq<Element>)
    decreases es, 0
  {
    es == [] ||
    (EncodableAll(es[..|es| - 1]) && Encodable(es[|es| - 1]) && |Encode(es[|es| - 1])| < 0x1_0000_0000)
  }
}
