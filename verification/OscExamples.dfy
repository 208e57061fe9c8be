/** The encoding of OscEncoding.dfy on the examples of the Open Sound Control 1.0 specification
    (section "OSC Message Examples"), byte by byte, and the characters behind its codes. */
module OscExamples {
  import opened Basics
  import opened OscEncoding
  import opened TuioPackets

  predicate IsAscii(text: string) {
    forall i | 0 <= i < |text| :: 0 < text[i] as int < 0x80
  }

  function Ascii(text: string): (s: CString)
    requires IsAscii(text)
  {
    var s: Bytes := seq(|text|, i requires 0 <= i < |text| => text[i] as int);
    assert forall b | b in s :: b != 0;
    s
  }

  function TagCharacter(a: Arg): char {
    match a
    case True => 'T'
    case False => 'F'
    case Nil => 'N'
    case Infinitum => 'I'
    case Int32(_) => 'i'
    case Float(_) => 'f'
    case Character(_) => 'c'
    case Rgba(_) => 'r'
    case Midi(_) => 'm'
    case Int64(_) => 'h'
    case Time(_) => 't'
    case Double(_) => 'd'
    case Str(_) => 's'
    case Symbol(_) => 'S'
    case Blob(_) => 'b'
  }

  /** The type tags are the characters of the specification. */
  lemma TagsAreCharacters(args: seq<Arg>, i: nat)
    requires i < |args|
    ensures Tags(args)[i] as int == TagCharacter(args[i]) as int
  {
  }

  /** And so are the names that both programs use. */
  lemma NamesAreCharacters()
    ensures BUNDLE == Ascii("#bundle") && [COMMA] == Ascii(",")
    ensures SET == Ascii("set") && ALIVE == Ascii("alive") && FSEQ == Ascii("fseq")
    ensures CURSOR_2D == Ascii("/tuio/2Dcur") && CURSOR_3D == Ascii("/tuio/3Dcur")
    ensures OBJECT_2D == Ascii("/tuio/2Dobj")
  {
  }

  lemma OnePayload(a: Arg)
    ensures Payloads([a]) == Payload(a)
  {
    assert [a][..0] == [] && Payloads([]) == [];
  }

  lemma PayloadsSnoc(args: seq<Arg>, a: Arg)
    ensures Payloads(args + [a]) == Payloads(args) + Payload(a)
  {
    assert (args + [a])[..|args|] == args;
  }

  /** "/oscillator/4/frequency" with the float 440.0 */
  lemma OscillatorExample()
    ensures Encode(Message(Ascii("/oscillator/4/frequency"), [Float(0x43DC_0000)]))
         == Ascii("/oscillator/4/frequency") + [0] + Ascii(",f") + [0, 0] + [0x43, 0xDC, 0, 0]
  {
    var a: Arg := Float(0x43DC_0000);
    OnePayload(a);
    assert BE32(0x43DC_0000) == [0x43, 0xDC, 0, 0];
    assert [COMMA] + Tags([a]) == Ascii(",f");
  }

  function FooArgs(): seq<Arg> {
    [Int32(1000), Int32(-1), Str(Ascii("hello")), Float(0x3F9D_F3B6), Float(0x40B5_B22D)]
  }

  lemma FooPayloads()
    ensures Payloads(FooArgs())
         == [0, 0, 3, 0xE8] + [0xFF, 0xFF, 0xFF, 0xFF] + (Ascii("hello") + [0, 0, 0])
            + [0x3F, 0x9D, 0xF3, 0xB6] + [0x40, 0xB5, 0xB2, 0x2D]
  {
    var args := FooArgs();
    assert args == [args[0]] + [args[1]] + [args[2]] + [args[3]] + [args[4]];
    assert Payload(args[0]) == [0, 0, 3, 0xE8];
    assert Payload(args[1]) == [0xFF, 0xFF, 0xFF, 0xFF];
    assert Payload(args[2]) == Ascii("hello") + [0, 0, 0];
    assert Payload(args[3]) == [0x3F, 0x9D, 0xF3, 0xB6];
    assert Payload(args[4]) == [0x40, 0xB5, 0xB2, 0x2D];
    hide Payloads, Payload, FooArgs, Ascii;
    OnePayload(args[0]);
    PayloadsSnoc([args[0]], args[1]);
    PayloadsSnoc([args[0]] + [args[1]], args[2]);
    PayloadsSnoc([args[0]] + [args[1]] + [args[2]], args[3]);
    PayloadsSnoc([args[0]] + [args[1]] + [args[2]] + [args[3]], args[4]);
  }

  /** "/foo" with 1000, -1, "hello", 1.234 and 5.678 */
  lemma FooExample()
    ensures Encode(Message(Ascii("/foo"), FooArgs()))
         == (Ascii("/foo") + [0, 0, 0, 0]) + (Ascii(",iisff") + [0, 0])
            + ([0, 0, 3, 0xE8] + [0xFF, 0xFF, 0xFF, 0xFF] + (Ascii("hello") + [0, 0, 0])
               + [0x3F, 0x9D, 0xF3, 0xB6] + [0x40, 0xB5, 0xB2, 0x2D])
  {
    FooPayloads();
    assert [COMMA] + Tags(FooArgs()) == Ascii(",iisff");
    assert TypeTagString(FooArgs()) == Ascii(",iisff") + [0, 0];
    assert PadString(Ascii("/foo")) == Ascii("/foo") + [0, 0, 0, 0];
    hide Payloads, FooArgs, Ascii, TypeTagString, PadString;
  }

  lemma PingExample()
    ensures Encode(Message(Ascii("/a"), [])) == Ascii("/a") + [0, 0] + Ascii(",") + [0, 0, 0]
  {
    assert [COMMA] + Tags([]) == Ascii(",");
  }

  lemma OneElement(timeTag: U64, e: Element)
    ensures Encode(Bundle(timeTag, [e])) == BundleHeader(timeTag) + Sized(Encode(e))
  {
    hide BundleHeader, Sized;
    assert [e][..0] == [] && EncodeAll([]) == [];
    assert EncodeAll([e]) == [] + Sized(Encode(e));
  }

  /** A bundle of one message, for immediate processing: its header, the size, the message. */
  lemma BundleExample()
    ensures
      var ping := Ascii("/a") + [0, 0] + Ascii(",") + [0, 0, 0];
      Encode(Bundle(1, [Message(Ascii("/a"), [])]))
        == Ascii("#bundle") + [0] + [0, 0, 0, 0, 0, 0, 0, 1] + [0, 0, 0, 8] + ping
  {
    var m := Message(Ascii("/a"), []);
    PingExample();
    assert Sized(Encode(m)) == [0, 0, 0, 8] + Encode(m);
    assert BundleHeader(1) == Ascii("#bundle") + [0] + [0, 0, 0, 0, 0, 0, 0, 1];
    hide Ascii, Sized, BundleHeader, Encode;
    OneElement(1, m);
  }
}
