/** libusb's parser for configuration descriptors (descriptor.c): a configuration holds
    interfaces, an interface its alternate settings, a setting its endpoints, and each of them
    the class- or vendor-specific descriptors that follow it (USB 2.0, sections 9.6.3, 9.6.5
    and 9.6.6).  A parser takes the bytes that are left and gives back what it leaves. */
module DescriptorParser {
  import opened Basics

  const DESC_HEADER_LENGTH := 2
  const CONFIG_DESC_LENGTH := 9
  const INTERFACE_DESC_LENGTH := 9
  const ENDPOINT_DESC_LENGTH := 7
  const ENDPOINT_AUDIO_DESC_LENGTH := 9
  const DT_DEVICE: Byte := 1
  const DT_CONFIG: Byte := 2
  const DT_INTERFACE: Byte := 4
  const DT_ENDPOINT: Byte := 5
  const USB_MAXENDPOINTS := 32
  const USB_MAXINTERFACES := 32

  datatype Endpoint = Endpoint(bLength: Byte, bEndpointAddress: Byte, bmAttributes: Byte, wMaxPacketSize: nat,
                               bInterval: Byte, bRefresh: Byte, bSynchAddress: Byte, extra: Bytes)

  /** `endpoints` is the array, or nothing where the pointer is null. */
  datatype AltSetting = AltSetting(bLength: Byte, bInterfaceNumber: Byte, bAlternateSetting: Byte, bNumEndpoints: Byte,
                                   bInterfaceClass: Byte, bInterfaceSubClass: Byte, bInterfaceProtocol: Byte,
                                   iInterface: Byte, extra: Bytes, endpoints: Option<seq<Endpoint>>)

  datatype Configuration = Configuration(bLength: Byte, wTotalLength: nat, bNumInterfaces: Byte,
                                         bConfigurationValue: Byte, iConfiguration: Byte, bmAttributes: Byte,
                                         maxPower: Byte, extra: Bytes, interfaces: seq<seq<AltSetting>>)

  /** A positive, zero or negative return value. */
  datatype Result<T> = Parsed(value: T, rest: Bytes) | Absent | Failed

  // ---------------------------------------------------------------- fields

  /** usbi_parse_descriptor: bytes ('b'), little-endian words ('w', 'd') and 16-byte IDs ('u',
      read as one number here); anything else is skipped. */
  function FieldSize(kind: char): nat {
    if kind == 'b' then 1 else if kind == 'w' then 2 else if kind == 'd' then 4 else if kind == 'u' then 16 else 0
  }

  function FormatSize(format: string): nat {
    if format == "" then 0 else FieldSize(format[0]) + FormatSize(format[1..])
  }

  function Little(b: Bytes): nat {
    if b == [] then 0 else b[0] as int + 0x100 * Little(b[1..])
  }

  function Fields(format: string, b: Bytes): seq<nat>
    requires FormatSize(format) <= |b|
  {
    if format == "" then []
    else
      var n := FieldSize(format[0]);
      (if n == 0 then [] else [Little(b[..n])]) + Fields(format[1..], b[n..])
  }

  function LittleBytes(v: nat, n: nat): (b: Bytes)
    ensures |b| == n
  {
    if n == 0 then [] else [v % 0x100] + LittleBytes(v / 0x100, n - 1)
  }

  /** Does `v` fit `n` bytes? */
  predicate LittleBounds(v: nat, n: nat) {
    if n == 0 then v == 0 else LittleBounds(v / 0x100, n - 1)
  }

  predicate FieldsFit(format: string, values: seq<nat>) {
    if format == "" then values == []
    else if FieldSize(format[0]) == 0 then FieldsFit(format[1..], values)
    else values != [] && LittleBounds(values[0], FieldSize(format[0])) && FieldsFit(format[1..], values[1..])
  }

  function FieldBytes(format: string, values: seq<nat>): (b: Bytes)
    requires FieldsFit(format, values)
    ensures |b| == FormatSize(format)
  {
    if format == "" then []
    else if FieldSize(format[0]) == 0 then FieldBytes(format[1..], values)
    else LittleBytes(values[0], FieldSize(format[0])) + FieldBytes(format[1..], values[1..])
  }

  lemma {:induction false} LittleRoundTrip(v: nat, n: nat)
    requires LittleBounds(v, n)
    ensures Little(LittleBytes(v, n)) == v
    decreases n
  {
    if n == 0 {
    } else {
      LittleRoundTrip(v / 0x100, n - 1);
      assert LittleBytes(v, n)[1..] == LittleBytes(v / 0x100, n - 1);
    }
  }

  /** Reading the fields of any format gives back what was written. */
  lemma {:induction false} FieldsRoundTrip(format: string, values: seq<nat>, rest: Bytes)
    requires FieldsFit(format, values)
    ensures Fields(format, FieldBytes(format, values) + rest) == values
    decreases |format|
  {
    if format != "" {
      var n, b := FieldSize(format[0]), FieldBytes(format, values) + rest;
      if n == 0 {
        FieldsRoundTrip(format[1..], values, rest);
        assert b[0..] == b;
      } else {
        var first, others := LittleBytes(values[0], n), FieldBytes(format[1..], values[1..]);
        Assoc(first, others, rest);
        Split(first, others + rest);
        LittleRoundTrip(values[0], n);
        FieldsRoundTrip(format[1..], values[1..], rest);
      }
    }
  }

  /** How long a format is depends only on how many fields of each kind it has. */
  lemma {:induction false} FormatSizeCounts(format: string)
    ensures
      var kinds := multiset(format);
      FormatSize(format) == kinds['b'] + 2 * kinds['w'] + 4 * kinds['d'] + 16 * kinds['u']
    decreases |format|
  {
    if format == "" {
    } else {
      FormatSizeCounts(format[1..]);
      assert format == [format[0]] + format[1..];
      assert multiset(format) == multiset{format[0]} + multiset(format[1..]);
    }
  }

  lemma FieldsStep(format: string, i: nat, source: Bytes, length: nat)
    requires i < |format| && length <= |source| && FormatSize(format[i..]) <= |source| - length
    ensures
      var n := FieldSize(format[i]);
      && length + n <= |source|
      && FormatSize(format[i..]) == n + FormatSize(format[i + 1..])
      && Fields(format[i..], source[length..])
           == (if n == 0 then [] else [Little(source[length..length + n])])
              + Fields(format[i + 1..], source[length + n..])
  {
    var n := FieldSize(format[i]);
    assert format[i..][1..] == format[i + 1..] && format[i..][0] == format[i];
    assert source[length..][n..] == source[length + n..] && source[length..][..n] == source[length..length + n];
  }

  lemma FieldsEnds(format: string, b: Bytes)
    ensures format[0..] == format && b[0..] == b && format[|format|..] == ""
    ensures FormatSize("") == 0 && Fields("", b) == []
    ensures FormatSize(format) <= |b| ==> [] + Fields(format, b) == Fields(format, b)
  {
  }

  lemma FieldsAssoc(a: seq<nat>, b: seq<nat>, c: seq<nat>)
    ensures (a + b) + c == a + (b + c)
  {
  }

  method ReadLittle(b: Bytes) returns (v: nat)
    ensures v == Little(b)
  {
    v := 0;
    var i: nat := |b|;
    while i > 0
      invariant i <= |b| && v == Little(b[i..])
    {
      i := i - 1;
      assert b[i..][1..] == b[i + 1..];
      v := b[i] as int + 0x100 * v;
    }
    assert b[0..] == b;
  }

  /** usbi_parse_descriptor; it reads exactly the bytes of the format. */
  method ParseDescriptor(source: Bytes, format: string) returns (fields: seq<nat>, length: nat)
    requires FormatSize(format) <= |source|
    ensures fields == Fields(format, source) && length == FormatSize(format)
  {
    hide Fields, FormatSize, Little;
    fields, length := [], 0;
    FieldsEnds(format, source);
    for i := 0 to |format|
      invariant length <= |source| && length + FormatSize(format[i..]) == FormatSize(format)
      invariant Fields(format, source) == fields + Fields(format[i..], source[length..])
    {
      FieldsStep(format, i, source, length);
      var n := FieldSize(format[i]);
      var field: seq<nat> := [];
      if n > 0 {
        var v := ReadLittle(source[length..length + n]);
        field := [v];
      }
      FieldsAssoc(fields, field, Fields(format[i + 1..], source[length + n..]));
      fields := fields + field;
      length := length + n;
    }
    FieldsEnds(format, source[length..]);
  }

  // the formats of the three descriptors
  const ENDPOINT_FORMAT := "bbbbwb"
  const AUDIO_ENDPOINT_FORMAT := "bbbbwbbb"
  const INTERFACE_FORMAT := "bbbbbbbbb"
  const CONFIG_FORMAT := "bbwbbbbb"

  function Word(b: Bytes, i: nat): nat
    requires i + 2 <= |b|
  {
    b[i] as int + 0x100 * b[i + 1] as int
  }

  lemma ByteField(format: string, tail: string, b: Bytes, i: nat)
    requires format == "b" + tail && i + 1 + FormatSize(tail) <= |b|
    ensures FormatSize(format) == 1 + FormatSize(tail)
    ensures Fields(format, b[i..]) == [b[i] as nat] + Fields(tail, b[i + 1..])
  {
    assert format[1..] == tail && format[0] == 'b';
    assert b[i..][1..] == b[i + 1..] && b[i..][..1] == [b[i]];
    assert Little([b[i]]) == b[i] + 0x100 * Little([]);
  }

  lemma WordField(format: string, tail: string, b: Bytes, i: nat)
    requires format == "w" + tail && i + 2 + FormatSize(tail) <= |b|
    ensures FormatSize(format) == 2 + FormatSize(tail)
    ensures Fields(format, b[i..]) == [Word(b, i)] + Fields(tail, b[i + 2..])
  {
    assert format[1..] == tail && format[0] == 'w';
    assert b[i..][2..] == b[i + 2..] && b[i..][..2] == [b[i], b[i + 1]];
    assert [b[i], b[i + 1]][1..] == [b[i + 1]];
    assert Little([b[i + 1]]) == b[i + 1] + 0x100 * Little([]);
  }

  lemma EndpointFields(b: Bytes)
    requires |b| >= ENDPOINT_DESC_LENGTH
    ensures FormatSize(ENDPOINT_FORMAT) == ENDPOINT_DESC_LENGTH
    ensures Fields(ENDPOINT_FORMAT, b) == [b[0], b[1], b[2], b[3], Word(b, 4), b[6]]
  {
    hide Fields, FormatSize, Word;
    FieldsEnds("", b[7..]);
    ByteField("b", "", b, 6);
    WordField("wb", "b", b, 4);
    ByteField("bwb", "wb", b, 3);
    ByteField("bbwb", "bwb", b, 2);
    ByteField("bbbwb", "bbwb", b, 1);
    ByteField("bbbbwb", "bbbwb", b, 0);
    assert b[0..] == b;
  }

  lemma {:induction false} ByteFields(format: string, b: Bytes)
    requires (forall i | 0 <= i < |format| :: format[i] == 'b') && |format| <= |b|
    ensures FormatSize(format) == |format| && |Fields(format, b)| == |format|
    ensures forall i | 0 <= i < |format| :: Fields(format, b)[i] == b[i]
    decreases |format|
  {
    if format != "" {
      assert format == "b" + format[1..] && b[0..] == b;
      ByteFields(format[1..], b[1..]);
      ByteField(format, format[1..], b, 0);
    }
  }

  /** A format of bytes from some place on. */
  lemma ByteFieldsFrom(format: string, b: Bytes, i: nat)
    requires (forall j | 0 <= j < |format| :: format[j] == 'b') && i + |format| <= |b|
    ensures FormatSize(format) == |format| && |Fields(format, b[i..])| == |format|
    ensures forall j | 0 <= j < |format| :: Fields(format, b[i..])[j] == b[i + j]
  {
    ByteFields(format, b[i..]);
  }

  lemma AudioEndpointFields(b: Bytes)
    requires |b| >= ENDPOINT_AUDIO_DESC_LENGTH
    ensures FormatSize(AUDIO_ENDPOINT_FORMAT) == ENDPOINT_AUDIO_DESC_LENGTH
    ensures
      var f := Fields(AUDIO_ENDPOINT_FORMAT, b);
      && |f| == 8 && f[4] == Word(b, 4)
      && f[0] == b[0] && f[1] == b[1] && f[2] == b[2] && f[3] == b[3] && f[5] == b[6] && f[6] == b[7] && f[7] == b[8]
  {
    hide Fields, FormatSize, Word;
    ByteFieldsFrom("bbb", b, 6);
    WordField("wbbb", "bbb", b, 4);
    ByteField("bwbbb", "wbbb", b, 3);
    ByteField("bbwbbb", "bwbbb", b, 2);
    ByteField("bbbwbbb", "bbwbbb", b, 1);
    ByteField("bbbbwbbb", "bbbwbbb", b, 0);
    assert b[0..] == b;
  }

  lemma InterfaceFields(b: Bytes)
    requires |b| >= INTERFACE_DESC_LENGTH
    ensures FormatSize(INTERFACE_FORMAT) == INTERFACE_DESC_LENGTH
    ensures |Fields(INTERFACE_FORMAT, b)| == INTERFACE_DESC_LENGTH
    ensures forall i | 0 <= i < INTERFACE_DESC_LENGTH :: Fields(INTERFACE_FORMAT, b)[i] == b[i]
  {
    hide Fields, FormatSize;
    ByteFields(INTERFACE_FORMAT, b);
  }

  lemma ConfigFields(b: Bytes)
    requires |b| >= CONFIG_DESC_LENGTH
    ensures FormatSize(CONFIG_FORMAT) == CONFIG_DESC_LENGTH
    ensures
      var f := Fields(CONFIG_FORMAT, b);
      && |f| == 8 && f[0] == b[0] && f[1] == b[1] && f[2] == Word(b, 2)
      && f[3] == b[4] && f[4] == b[5] && f[5] == b[6] && f[6] == b[7] && f[7] == b[8]
  {
    hide Fields, FormatSize, Word;
    ByteFieldsFrom("bbbbb", b, 4);
    WordField("wbbbbb", "bbbbb", b, 2);
    ByteField("bwbbbbb", "wbbbbb", b, 1);
    ByteField("bbwbbbbb", "bwbbbbb", b, 0);
    assert b[0..] == b;
  }

  // ---------------------------------------------------------------- extra descriptors

  /** "another proper descriptor" */
  predicate Proper(t: Byte) {
    t == DT_ENDPOINT || t == DT_INTERFACE || t == DT_CONFIG || t == DT_DEVICE
  }

  /** The extras that were skipped; `Cut` is one that claims to be longer than what is left. */
  datatype Skipped = Extras(extra: Bytes, rest: Bytes) | Cut(rest: Bytes) | BadLength

  function Skip(b: Bytes): Skipped {
    if |b| < DESC_HEADER_LENGTH then Extras([], b)
    else if b[0] < DESC_HEADER_LENGTH then BadLength
    else if b[0] > |b| then Cut(b)
    else if Proper(b[1]) then Extras([], b)
    else
      match Skip(b[b[0]..])
      case Extras(extra, rest) => Extras(b[..b[0]] + extra, rest)
      case other => other
  }

  /** What skipping amounts to once `skipped` is behind. */
  function After(skipped: Bytes, r: Skipped): Skipped {
    match r
    case Extras(extra, rest) => Extras(skipped + extra, rest)
    case other => other
  }

  /** Skipping one more descriptor. */
  lemma SkipStep(b: Bytes, skipped: Bytes, buffer: Bytes)
    requires b == skipped + buffer && |buffer| >= DESC_HEADER_LENGTH
    requires DESC_HEADER_LENGTH <= buffer[0] <= |buffer| && !Proper(buffer[1])
    ensures b == (skipped + buffer[..buffer[0]]) + buffer[buffer[0]..]
    ensures After(skipped, Skip(buffer)) == After(skipped + buffer[..buffer[0]], Skip(buffer[buffer[0]..]))
  {
    var header, tail := buffer[..buffer[0]], buffer[buffer[0]..];
    Assoc(skipped, header, tail);
    if Skip(tail).Extras? {
      Assoc(skipped, header, Skip(tail).extra);
    }
  }

  /** The loop that skips class- and vendor-specific descriptors. */
  method SkipExtras(b: Bytes) returns (r: Skipped)
    ensures r == Skip(b)
  {
    var begin: Bytes, buffer: Bytes := b, b;
    ghost var skipped: Bytes := [];
    assert After([], Skip(b)) == Skip(b);
    while |buffer| >= DESC_HEADER_LENGTH
      invariant b == skipped + buffer && Skip(b) == After(skipped, Skip(buffer))
      decreases |buffer|
    {
      if buffer[0] < DESC_HEADER_LENGTH {
        return BadLength;
      } else if buffer[0] > |buffer| {
        return Cut(buffer);
      }
      if Proper(buffer[1]) {
        break;
      }
      SkipStep(b, skipped, buffer);
      skipped := skipped + buffer[..buffer[0]];
      buffer := buffer[buffer[0]..];
    }
    var len := |begin| - |buffer|;
    assert begin[..len] == skipped == skipped + [];
    r := Extras(begin[..len], buffer);
  }

  /** A device, a configuration, an interface or an endpoint (USB 2.0, table 9-5). */
  predicate Standard(t: Byte) {
    t in {1, 2, 4, 5}
  }

  /** Whole non-standard descriptors, one after the other. */
  predicate ExtrasOk(x: Bytes) {
    x == [] || (|x| >= 2 && 2 <= x[0] <= |x| && !Standard(x[1]) && ExtrasOk(x[x[0]..]))
  }

  /** The start of a standard descriptor. */
  predicate StandardNext(b: Bytes) {
    |b| >= 2 && 2 <= b[0] <= |b| && Standard(b[1])
  }

  /** The end of the data, or the start of a standard descriptor. */
  predicate Boundary(b: Bytes) {
    b == [] || StandardNext(b)
  }

  lemma {:induction false} SkipRoundTrip(x: Bytes, rest: Bytes)
    requires ExtrasOk(x) && Boundary(rest)
    ensures Skip(x + rest) == Extras(x, rest)
    decreases |x|
  {
    if x == [] {
      assert x + rest == rest;
    } else {
      var n := x[0];
      assert (x + rest)[n..] == x[n..] + rest && (x + rest)[..n] == x[..n] && x == x[..n] + x[n..];
      SkipRoundTrip(x[n..], rest);
    }
  }

  /** Nothing is lost: what was skipped, whole non-standard descriptors, and what is left make up
      the input; and what is left begins with a standard descriptor, is too short for any, claims
      to be longer than it is, or claims to be shorter than a header. */
  ghost predicate Conserved(b: Bytes, r: Skipped) {
    match r
    case Extras(extra, rest) => b == extra + rest && ExtrasOk(extra) && (|rest| < 2 || StandardNext(rest))
    case Cut(rest) =>
      && 2 <= |rest| <= |b| && b[|b| - |rest|..] == rest && rest[0] as int > |rest|
      && ExtrasOk(b[..|b| - |rest|])
    case BadLength => exists n: nat | n + 2 <= |b| :: ExtrasOk(b[..n]) && b[n] < 2
  }

  lemma OneMoreExtra(b: Bytes, n: nat, k: nat)
    requires |b| >= 2 && b[0] == n && 2 <= n <= |b| && !Standard(b[1]) && k <= |b| - n
    requires ExtrasOk(b[n..][..k])
    ensures ExtrasOk(b[..n + k]) && b[..n + k] == b[..n] + b[n..][..k] && b[n + k..] == b[n..][k..]
  {
    assert b[..n + k][n..] == b[n..][..k];
  }

  lemma WithExtras(b: Bytes, n: nat, extra: Bytes, rest: Bytes)
    requires |b| >= 2 && b[0] == n && 2 <= n <= |b| && !Standard(b[1]) && b[n..] == extra + rest && ExtrasOk(extra)
    ensures ExtrasOk(b[..n] + extra) && b == b[..n] + extra + rest
  {
    hide ExtrasOk, Standard;
    assert b[n..][..|extra|] == extra;
    OneMoreExtra(b, n, |extra|);
  }

  lemma ConservedStep(b: Bytes, n: nat, r: Skipped)
    requires |b| >= 2 && b[0] == n && 2 <= n <= |b| && !Standard(b[1]) && Conserved(b[n..], r)
    ensures Conserved(b, After(b[..n], r))
  {
    hide ExtrasOk, Standard;
    match r
    case Extras(extra, rest) => WithExtras(b, n, extra, rest);
    case Cut(rest) => OneMoreExtra(b, n, |b| - n - |rest|);
    case BadLength =>
      var tail := b[n..];
      var k: nat :| k + 2 <= |tail| && ExtrasOk(tail[..k]) && tail[k] < 2;
      OneMoreExtra(b, n, k);
      assert b[n + k] == tail[k];
  }

  lemma {:induction false} SkipConserves(b: Bytes)
    ensures Conserved(b, Skip(b))
    decreases |b|
  {
    if |b| < 2 || b[0] < 2 || b[0] as int > |b| || Standard(b[1]) {
      assert b[..0] == [] && ExtrasOk(b[..0]);
    } else {
      SkipConserves(b[b[0]..]);
      ConservedStep(b, b[0], Skip(b[b[0]..]));
      hide Conserved;
    }
  }
}
