/** A decoder for OSC packets, written from the OSC 1.0 specification, and the round trip:
    it recovers every encodable packet from its encoding. */
module OscDecoding {
  import opened Basics
  import opened OscEncoding

  // ---------------------------------------------------------------- strings

  function FindZero(b: Bytes): (i: nat)
    ensures i <= |b| && 0 !in b[..i] && (i < |b| ==> b[i] == 0)
  {
    if b == [] || b[0] == 0 then 0
    else
      assert b == [b[0]] + b[1..];
      1 + FindZero(b[1..])
  }

  lemma {:induction false} FindZeroUnique(b: Bytes, i: nat)
    requires i < |b| && b[i] == 0 && 0 !in b[..i]
    ensures FindZero(b) == i
    decreases i
  {
    if i == 0 {
    } else {
      assert b[0] == b[..i][0];
      assert b[1..][..i - 1] == b[..i][1..];
      FindZeroUnique(b[1..], i - 1);
    }
  }

  function DecodeString(b: Bytes): Option<(CString, Bytes)> {
    var i := FindZero(b);
    var n := RoundUp4(i + 1);
    if n <= |b| && b[i..n] == Zeros(n - i) then Some((b[..i], b[n..])) else None
  }

  lemma StringRoundTrip(s: CString, rest: Bytes)
    ensures DecodeString(PadString(s) + rest) == Some((s, rest))
  {
    var b, n := PadString(s) + rest, RoundUp4(|s| + 1);
    assert b[|s|] == 0 && b[..|s|] == s;
    FindZeroUnique(b, |s|);
    assert b[|s|..n] == Zeros(n - |s|);
    assert b[n..] == rest;
  }

  // ---------------------------------------------------------------- arguments

  function Word32(b: Bytes): Option<(U32, Bytes)> {
    if |b| >= 4 then Some((ReadBE32(b[..4]), b[4..])) else None
  }

  function Word64(b: Bytes): Option<(U64, Bytes)> {
    if |b| >= 8 then Some((ReadBE64(b[..8]), b[8..])) else None
  }

  function DecodeBlob(b: Bytes): Option<(Bytes, Bytes)> {
    if |b| < 4 then None
    else
      var n: nat := ReadBE32(b[..4]);
      var end := 4 + RoundUp4(n);
      if end <= |b| && b[4 + n..end] == Zeros(end - 4 - n) then Some((b[4..4 + n], b[end..])) else None
  }

  /** A char argument is a sign-extended 32-bit word. */
  function DecodeChar(w: U32): Option<Char> {
    var i := Signed32(w);
    if -0x80 <= i < 0x100 then Some(i) else None
  }

  function DecodeWord32Arg(tag: Byte, w: U32): Option<Arg> {
    if tag == INT32_TAG then Some(Int32(Signed32(w)))
    else if tag == FLOAT_TAG then Some(Float(w))
    else if tag == RGBA_COLOR_TAG then Some(Rgba(w))
    else if tag == MIDI_MESSAGE_TAG then Some(Midi(w))
    else if tag == CHAR_TAG then
      match DecodeChar(w)
      case None => None
      case Some(c) => Some(Character(c))
    else None
  }

  function DecodeWord64Arg(tag: Byte, w: U64): Option<Arg> {
    if tag == INT64_TAG then Some(Int64(Signed64(w)))
    else if tag == TIME_TAG_TAG then Some(Time(w))
    else if tag == DOUBLE_TAG then Some(Double(w))
    else None
  }

  datatype Size = NoBytes | FourBytes | EightBytes | StringBytes | BlobBytes | UnknownTag

  function SizeOf(tag: Byte): Size {
    if tag == TRUE_TAG || tag == FALSE_TAG || tag == NIL_TAG || tag == INFINITUM_TAG then NoBytes
    else if tag == INT32_TAG || tag == FLOAT_TAG || tag == CHAR_TAG || tag == RGBA_COLOR_TAG
            || tag == MIDI_MESSAGE_TAG then FourBytes
    else if tag == INT64_TAG || tag == TIME_TAG_TAG || tag == DOUBLE_TAG then EightBytes
    else if tag == STRING_TAG || tag == SYMBOL_TAG then StringBytes
    else if tag == BLOB_TAG then BlobBytes
    else UnknownTag
  }

  function WithRest(a: Option<Arg>, rest: Bytes): Option<(Arg, Bytes)> {
    match a
    case None => None
    case Some(v) => Some((v, rest))
  }

  function DecodeArg(tag: Byte, b: Bytes): Option<(Arg, Bytes)> {
    match SizeOf(tag)
    case NoBytes =>
      Some((if tag == TRUE_TAG then True else if tag == FALSE_TAG then False
            else if tag == NIL_TAG then Nil else Infinitum, b))
    case FourBytes =>
      (match Word32(b)
       case None => None
       case Some((w, rest)) => WithRest(DecodeWord32Arg(tag, w), rest))
    case EightBytes =>
      (match Word64(b)
       case None => None
       case Some((w, rest)) => WithRest(DecodeWord64Arg(tag, w), rest))
    case StringBytes =>
      (match DecodeString(b)
       case None => None
       case Some((s, rest)) => Some((if tag == STRING_TAG then Str(s) else Symbol(s), rest)))
    case BlobBytes =>
      (match DecodeBlob(b)
       case None => None
       case Some((d, rest)) => Some((Blob(d), rest)))
    case UnknownTag => None
  }

  lemma WordsRoundTrip(w: U32, d: U64, rest: Bytes)
    ensures Word32(BE32(w) + rest) == Some((w, rest))
    ensures Word64(BE64(d) + rest) == Some((d, rest))
  {
    BE32RoundTrip(w);
    BE64RoundTrip(d);
    assert (BE32(w) + rest)[..4] == BE32(w) && (BE32(w) + rest)[4..] == rest;
    assert (BE64(d) + rest)[..8] == BE64(d) && (BE64(d) + rest)[8..] == rest;
  }

  lemma BlobRoundTrip(d: Bytes, rest: Bytes)
    requires |d| < 0x1_0000_0000
    ensures DecodeBlob(Payload(Blob(d)) + rest) == Some((d, rest))
  {
    hide BE32, ReadBE32;
    var b, n, end := Payload(Blob(d)) + rest, |d|, 4 + RoundUp4(|d|);
    BE32RoundTrip(n);
    assert b[..4] == BE32(n);
    assert b[4..4 + n] == d;
    assert b[4 + n..end] == Zeros(end - 4 - n);
    assert b[end..] == rest;
  }

  lemma Word32ArgRoundTrip(a: Arg, w: U32, rest: Bytes)
    requires SizeOf(Tag(a)) == FourBytes && Payload(a) == BE32(w) && DecodeWord32Arg(Tag(a), w) == Some(a)
    ensures DecodeArg(Tag(a), Payload(a) + rest) == Some((a, rest))
  {
    WordsRoundTrip(w, 0, rest);
  }

  lemma Word64ArgRoundTrip(a: Arg, w: U64, rest: Bytes)
    requires SizeOf(Tag(a)) == EightBytes && Payload(a) == BE64(w) && DecodeWord64Arg(Tag(a), w) == Some(a)
    ensures DecodeArg(Tag(a), Payload(a) + rest) == Some((a, rest))
  {
    WordsRoundTrip(0, w, rest);
  }

  lemma EmptyArgRoundTrip(a: Arg, rest: Bytes)
    requires SizeOf(Tag(a)) == NoBytes
    ensures DecodeArg(Tag(a), Payload(a) + rest) == Some((a, rest))
  {
    assert Payload(a) == [] && [] + rest == rest;
  }

  lemma TextArgRoundTrip(a: Arg, rest: Bytes)
    requires a.Str? || a.Symbol?
    ensures DecodeArg(Tag(a), Payload(a) + rest) == Some((a, rest))
  {
    StringRoundTrip(a.s, rest);
  }

  lemma ArgRoundTrip(a: Arg, rest: Bytes)
    requires ArgFits(a)
    ensures DecodeArg(Tag(a), Payload(a) + rest) == Some((a, rest))
  {
    match a
    case True => EmptyArgRoundTrip(a, rest);
    case False => EmptyArgRoundTrip(a, rest);
    case Nil => EmptyArgRoundTrip(a, rest);
    case Infinitum => EmptyArgRoundTrip(a, rest);
    case Int32(i) => SignedRoundTrip(i, 0); Word32ArgRoundTrip(a, Unsigned32(i), rest);
    case Float(w) => Word32ArgRoundTrip(a, w, rest);
    case Character(c) => SignedRoundTrip(c, 0); Word32ArgRoundTrip(a, Unsigned32(c), rest);
    case Rgba(w) => Word32ArgRoundTrip(a, w, rest);
    case Midi(w) => Word32ArgRoundTrip(a, w, rest);
    case Int64(l) => SignedRoundTrip(0, l); Word64ArgRoundTrip(a, Unsigned64(l), rest);
    case Time(w) => Word64ArgRoundTrip(a, w, rest);
    case Double(w) => Word64ArgRoundTrip(a, w, rest);
    case Str(s) => TextArgRoundTrip(a, rest);
    case Symbol(s) => TextArgRoundTrip(a, rest);
    case Blob(d) => BlobRoundTrip(d, rest);
  }

  /** The arguments announced by `tags`, which must use up `b`. */
  function DecodeArgs(tags: Bytes, b: Bytes): Option<seq<Arg>> {
    if tags == [] then (if b == [] then Some([]) else None)
    else
      match DecodeArg(tags[0], b)
      case None => None
      case Some((a, rest)) =>
        match DecodeArgs(tags[1..], rest)
        case None => None
        case Some(args) => Some([a] + args)
  }

  lemma {:induction false} PayloadsCons(a: Arg, args: seq<Arg>)
    ensures Payloads([a] + args) == Payload(a) + Payloads(args)
    decreases |args|
  {
    var all := [a] + args;
    if args == [] {
      assert all[..|all| - 1] == [];
    } else {
      var init, last := args[..|args| - 1], args[|args| - 1];
      assert all[..|all| - 1] == [a] + init;
      PayloadsCons(a, init);
      Assoc(Payload(a), Payloads(init), Payload(last));
    }
  }

  lemma {:induction false} ArgsRoundTrip(args: seq<Arg>)
    requires ArgsFit(args)
    ensures DecodeArgs(Tags(args), Payloads(args)) == Some(args)
    decreases |args|
  {
    if args == [] {
    } else {
      var a, rest := args[0], args[1..];
      assert args == [a] + rest;
      PayloadsCons(a, rest);
      ArgRoundTrip(a, Payloads(rest));
      assert Tags(args)[0] == Tag(a) && Tags(args)[1..] == Tags(rest);
      ArgsRoundTrip(rest);
    }
  }

  // ---------------------------------------------------------------- messages and bundles

  function DecodeMessage(b: Bytes): Option<Element> {
    match DecodeString(b)
    case None => None
    case Some((address, afterAddress)) =>
      match DecodeString(afterAddress)
      case None => None
      case Some((tags, arguments)) =>
        if tags == [] || tags[0] != COMMA then None
        else
          match DecodeArgs(tags[1..], arguments)
          case None => None
          case Some(args) => Some(Message(address, args))
  }

  /** The first bundle element, and what follows it. */
  function Chop(b: Bytes): (r: Option<(Bytes, Bytes)>)
    ensures r.Some? ==> |r.value.0| + |r.value.1| + 4 == |b|
  {
    if |b| < 4 then None
    else
      var n: nat := ReadBE32(b[..4]);
      if |b| < 4 + n then None else Some((b[4..4 + n], b[4 + n..]))
  }

  lemma ChopSized(body: Bytes, tail: Bytes)
    requires |body| < 0x1_0000_0000
    ensures Chop(Sized(body) + tail) == Some((body, tail))
  {
    var b, size := Sized(body) + tail, BE32(|body|);
    BE32RoundTrip(|body|);
    Assoc(size, body, tail);
    Split(size, body + tail);
    Split(body, tail);
    assert b[4..4 + |body|] == b[4..][..|body|];
    assert b[4 + |body|..] == b[4..][|body|..];
  }

  /** A packet is a bundle if its first byte is '#', and a message otherwise. */
  function Decode(b: Bytes): Option<Element>
    decreases |b|, 1
  {
    if b != [] && b[0] == HASH then
      if |b| < 16 || b[..8] != BUNDLE + [0] then None
      else
        match DecodeAll(b[16..])
        case None => None
        case Some(es) => Some(Bundle(ReadBE64(b[8..16]), es))
    else DecodeMessage(b)
  }

  function DecodeAll(b: Bytes): Option<seq<Element>>
    decreases |b|, 0
  {
    if b == [] then Some([])
    else
      match Chop(b)
      case None => None
      case Some((body, tail)) =>
        match Decode(body)
        case None => None
        case Some(e) =>
          match DecodeAll(tail)
          case None => None
          case Some(es) => Some([e] + es)
  }

  lemma TypeTagsRoundTrip(args: seq<Arg>, rest: Bytes)
    ensures DecodeString(TypeTagString(args) + rest) == Some(([COMMA] + Tags(args), rest))
  {
    TagsNonZero(args);
    StringRoundTrip([COMMA] + Tags(args), rest);
  }

  lemma MessageRoundTrip(e: Element)
    requires e.Message? && Encodable(e)
    ensures DecodeMessage(Encode(e)) == Some(e)
  {
    Assoc(PadString(e.address), TypeTagString(e.args), Payloads(e.args));
    StringRoundTrip(e.address, TypeTagString(e.args) + Payloads(e.args));
    TypeTagsRoundTrip(e.args, Payloads(e.args));
    assert ([COMMA] + Tags(e.args))[1..] == Tags(e.args);
    ArgsRoundTrip(e.args);
  }

  lemma {:induction false} EncodeAllCons(e: Element, es: seq<Element>)
    ensures EncodeAll([e] + es) == Sized(Encode(e)) + EncodeAll(es)
    decreases |es|
  {
    var all := [e] + es;
    if es == [] {
      assert all[..|all| - 1] == [];
    } else {
      var init, last := es[..|es| - 1], es[|es| - 1];
      assert all[..|all| - 1] == [e] + init;
      EncodeAllCons(e, init);
      Assoc(Sized(Encode(e)), EncodeAll(init), Sized(Encode(last)));
    }
  }

  lemma {:induction false} EncodableAllCons(e: Element, es: seq<Element>)
    ensures EncodableAll([e] + es) <==> EncodableAll(es) && Encodable(e) && |Encode(e)| < 0x1_0000_0000
    decreases |es|
  {
    var all := [e] + es;
    if es == [] {
      assert all[..|all| - 1] == [];
    } else {
      var init, last := es[..|es| - 1], es[|es| - 1];
      assert all[..|all| - 1] == [e] + init && all[|all| - 1] == last;
      EncodableAllCons(e, init);
    }
  }

  /** Decoding undoes encoding, for every packet whatever its nesting. */
  lemma {:induction false} RoundTrip(e: Element)
    requires Encodable(e)
    ensures Decode(Encode(e)) == Some(e)
    decreases e, 1
  {
    var b := Encode(e);
    match e
    case Message(address, args) =>
      assert b[0] == PadString(address)[0];
      MessageRoundTrip(e);
    case Bundle(timeTag, es) =>
      assert b[0] == HASH && b[..8] == BUNDLE + [0];
      assert b[8..16] == BE64(timeTag) && b[16..] == EncodeAll(es);
      BE64RoundTrip(timeTag);
      RoundTripAll(es);
  }

  lemma {:induction false} RoundTripAll(es: seq<Element>)
    requires EncodableAll(es)
    ensures DecodeAll(EncodeAll(es)) == Some(es)
    decreases es, 0
  {
    if es == [] {
    } else {
      var e, rest := es[0], es[1..];
      assert es == [e] + rest;
      EncodeAllCons(e, rest);
      EncodableAllCons(e, rest);
      RoundTrip(e);
      RoundTripAll(rest);
      ChopSized(Encode(e), EncodeAll(rest));
    }
  }

  /** No two encodable packets share an encoding. */
  lemma EncodeInjective(e: Element, f: Element)
    requires Encodable(e) && Encodable(f) && Encode(e) == Encode(f)
    ensures e == f
  {
    RoundTrip(e);
    RoundTrip(f);
  }

  lemma PayloadAligned(a: Arg)
    ensures |Payload(a)| % 4 == 0
  {
    match a
    case Str(s) => RoundUp4IsLeast(|s| + 1, 0);
    case Symbol(s) => RoundUp4IsLeast(|s| + 1, 0);
    case Blob(d) =>
      RoundUp4IsLeast(|d|, 0);
      SumAligned(4, RoundUp4(|d|));
    case _ =>
  }

  lemma {:induction false} PayloadsAligned(args: seq<Arg>)
    ensures |Payloads(args)| % 4 == 0
    decreases |args|
  {
    if args == [] {
    } else {
      PayloadAligned(args[|args| - 1]);
      PayloadsAligned(args[..|args| - 1]);
      SumAligned(|Payloads(args[..|args| - 1])|, |Payload(args[|args| - 1])|);
    }
  }

  /** Every packet is a whole number of 32-bit words. */
  lemma {:induction false} EncodeAligned(e: Element)
    ensures |Encode(e)| % 4 == 0
    decreases e, 1
  {
    match e
    case Message(address, args) =>
      PayloadsAligned(args);
      assert |Encode(e)| == RoundUp4(|address| + 1) + RoundUp4(|args| + 2) + |Payloads(args)|;
      RoundUp4IsLeast(|address| + 1, 0);
      RoundUp4IsLeast(|args| + 2, 0);
      SumAligned(RoundUp4(|address| + 1), RoundUp4(|args| + 2));
      SumAligned(RoundUp4(|address| + 1) + RoundUp4(|args| + 2), |Payloads(args)|);
    case Bundle(_, es) =>
      EncodeAllAligned(es);
      SumAligned(16, |EncodeAll(es)|);
  }

  lemma {:induction false} EncodeAllAligned(es: seq<Element>)
    ensures |EncodeAll(es)| % 4 == 0
    decreases es, 0
  {
    if es == [] {
    } else {
      var last := Encode(es[|es| - 1]);
      EncodeAligned(es[|es| - 1]);
      EncodeAllAligned(es[..|es| - 1]);
      assert |Sized(last)| == 4 + |last|;
      SumAligned(4, |last|);
      SumAligned(|EncodeAll(es[..|es| - 1])|, |Sized(last)|);
    }
  }
}
