/** Writing a configuration tree in the form of USB 2.0 (sections 9.6.3, 9.6.5, 9.6.6) and
    parsing it with libusb's parser gives back the tree. */
module DescriptorRoundTrip {
  import opened Basics
  import opened DescriptorParser
  import opened DescriptorTree

  function WordBytes(w: nat): (b: Bytes)
    requires w < 0x1_0000
    ensures |b| == 2
  {
    [w % 0x100, w / 0x100]
  }

  // ---------------------------------------------------------------- trees

  /** Seven bytes, or nine with the audio extension; the extras are whole descriptors. */
  predicate EndpointOk(e: Endpoint) {
    && (e.bLength == ENDPOINT_AUDIO_DESC_LENGTH
        || (e.bLength == ENDPOINT_DESC_LENGTH && e.bRefresh == 0 && e.bSynchAddress == 0))
    && e.wMaxPacketSize < 0x1_0000 && ExtrasOk(e.extra)
  }

  function EndpointHeader(e: Endpoint): (b: Bytes)
    requires EndpointOk(e)
    ensures |b| == e.bLength
  {
    [e.bLength, DT_ENDPOINT, e.bEndpointAddress, e.bmAttributes] + WordBytes(e.wMaxPacketSize) + [e.bInterval]
      + if e.bLength == ENDPOINT_AUDIO_DESC_LENGTH then [e.bRefresh, e.bSynchAddress] else []
  }

  function EndpointBytes(e: Endpoint): Bytes
    requires EndpointOk(e)
  {
    EndpointHeader(e) + e.extra
  }

  predicate EndpointsOk(es: seq<Endpoint>) {
    forall e | e in es :: EndpointOk(e)
  }

  function EndpointsBytes(es: seq<Endpoint>): Bytes
    requires EndpointsOk(es)
  {
    if es == [] then [] else EndpointBytes(es[0]) + EndpointsBytes(es[1..])
  }

  function EndpointList(a: AltSetting): seq<Endpoint> {
    if a.endpoints == None then [] else a.endpoints.value
  }

  predicate AltOk(a: AltSetting) {
    && a.bLength == INTERFACE_DESC_LENGTH && a.bNumEndpoints <= USB_MAXENDPOINTS
    && a.bNumEndpoints == |EndpointList(a)| && (a.endpoints == None <==> a.bNumEndpoints == 0)
    && ExtrasOk(a.extra) && EndpointsOk(EndpointList(a))
  }

  function AltHeader(a: AltSetting): (b: Bytes)
    ensures |b| == INTERFACE_DESC_LENGTH
  {
    [a.bLength, DT_INTERFACE, a.bInterfaceNumber, a.bAlternateSetting, a.bNumEndpoints, a.bInterfaceClass,
     a.bInterfaceSubClass, a.bInterfaceProtocol, a.iInterface]
  }

  function AltBytes(a: AltSetting): Bytes
    requires AltOk(a)
  {
    AltHeader(a) + (a.extra + EndpointsBytes(EndpointList(a)))
  }

  predicate AltsOk(alts: seq<AltSetting>, number: Byte) {
    forall a | a in alts :: AltOk(a) && a.bInterfaceNumber == number
  }

  function AltsBytes(alts: seq<AltSetting>, number: Byte): Bytes
    requires AltsOk(alts, number)
  {
    if alts == [] then [] else AltBytes(alts[0]) + AltsBytes(alts[1..], number)
  }

  /** At least one setting, all with the same interface number. */
  predicate InterfaceOk(alts: seq<AltSetting>) {
    alts != [] && AltsOk(alts, alts[0].bInterfaceNumber)
  }

  function Number(alts: seq<AltSetting>): Byte
    requires alts != []
  {
    alts[0].bInterfaceNumber
  }

  /** Interfaces that follow each other have different numbers, or the parser would take the
      second for alternate settings of the first. */
  predicate InterfacesOk(ifs: seq<seq<AltSetting>>) {
    ifs == [] ||
    (InterfaceOk(ifs[0]) && InterfacesOk(ifs[1..]) && (|ifs| > 1 ==> ifs[1] != [] && Number(ifs[0]) != Number(ifs[1])))
  }

  function InterfacesBytes(ifs: seq<seq<AltSetting>>): Bytes
    requires InterfacesOk(ifs)
  {
    if ifs == [] then [] else AltsBytes(ifs[0], Number(ifs[0])) + InterfacesBytes(ifs[1..])
  }

  predicate ConfigurationOk(c: Configuration) {
    && c.bLength == CONFIG_DESC_LENGTH && c.wTotalLength < 0x1_0000
    && c.bNumInterfaces == |c.interfaces| <= USB_MAXINTERFACES
    && ExtrasOk(c.extra) && (c.interfaces == [] ==> c.extra == []) && InterfacesOk(c.interfaces)
  }

  function ConfigurationHeader(c: Configuration): (b: Bytes)
    requires ConfigurationOk(c)
    ensures |b| == CONFIG_DESC_LENGTH
  {
    [c.bLength, DT_CONFIG] + WordBytes(c.wTotalLength)
      + [c.bNumInterfaces, c.bConfigurationValue, c.iConfiguration, c.bmAttributes, c.maxPower]
  }

  function ConfigurationBytes(c: Configuration): Bytes
    requires ConfigurationOk(c)
  {
    ConfigurationHeader(c) + (c.extra + InterfacesBytes(c.interfaces))
  }

  // ---------------------------------------------------------------- round trips

  lemma HeaderOf(header: Bytes, body: Bytes, n: nat)
    requires n == |header|
    ensures (header + body)[n..] == body && forall i | 0 <= i < n :: (header + body)[i] == header[i]
  {
  }

  lemma EndpointRoundTrip(e: Endpoint, rest: Bytes)
    requires EndpointOk(e) && Boundary(rest)
    ensures EndpointOf(EndpointBytes(e) + rest) == Parsed(e, rest)
    ensures Boundary(EndpointBytes(e) + rest) && EndpointBytes(e) + rest != []
  {
    hide Skip, ExtrasOk;
    var b, header := EndpointBytes(e) + rest, EndpointHeader(e);
    Assoc(header, e.extra, rest);
    HeaderOf(header, e.extra + rest, |header|);
    SkipRoundTrip(e.extra, rest);
    assert header[4] == e.wMaxPacketSize % 0x100 && header[5] == e.wMaxPacketSize / 0x100;
  }

  lemma OneMoreEndpoint(n: nat, b: Bytes, e: Endpoint, rest: Bytes)
    requires n > 0 && EndpointOf(b) == Parsed(e, rest)
    ensures EndpointsOf(n, b) == Cons(e, EndpointsOf(n - 1, rest))
  {
  }

  lemma {:induction false} EndpointsRoundTrip(es: seq<Endpoint>, rest: Bytes)
    requires EndpointsOk(es) && Boundary(rest)
    ensures EndpointsOf(|es|, EndpointsBytes(es) + rest) == Several(es, rest)
    ensures Boundary(EndpointsBytes(es) + rest)
    decreases |es|
  {
    if es == [] {
      assert EndpointsBytes(es) + rest == rest && EndpointsOf(0, rest) == Several([], rest);
    } else {
      hide EndpointOf, EndpointBytes, EndpointOk, Boundary, EndpointsOf;
      var tail := EndpointsBytes(es[1..]) + rest;
      EndpointsRoundTrip(es[1..], rest);
      EndpointRoundTrip(es[0], tail);
      OneMoreEndpoint(|es|, EndpointBytes(es[0]) + tail, es[0], tail);
      Assoc(EndpointBytes(es[0]), EndpointsBytes(es[1..]), rest);
      assert es == [es[0]] + es[1..];
    }
  }

  lemma NoEndpoints()
    ensures EndpointsBytes([]) == []
  {
  }

  lemma AltRoundTrip(a: AltSetting, rest: Bytes)
    requires AltOk(a) && Boundary(rest)
    ensures
      var b := AltBytes(a) + rest;
      && |b| >= INTERFACE_DESC_LENGTH && AltOf(b) == OneAlt(a, rest)
      && Boundary(b) && AlternateFollows(b, a.bInterfaceNumber) && b[2] == a.bInterfaceNumber
  {
    hide Skip, ExtrasOk, EndpointsOf, EndpointsBytes, EndpointsOk;
    var endpoints := EndpointsBytes(EndpointList(a));
    var b, header := AltBytes(a) + rest, AltHeader(a);
    EndpointsRoundTrip(EndpointList(a), rest);
    SkipRoundTrip(a.extra, endpoints + rest);
    Assoc(header, a.extra + endpoints, rest);
    Assoc(a.extra, endpoints, rest);
    HeaderOf(header, a.extra + (endpoints + rest), |header|);
    assert EndpointList(a) == [] ==> endpoints == [] by {
      NoEndpoints();
    }
    assert endpoints == [] ==> endpoints + rest == rest;
  }

  /** What may follow an interface: the end, or a standard descriptor that is no alternate
      setting of it. */
  predicate Ends(rest: Bytes, number: Byte) {
    Boundary(rest) && !AlternateFollows(rest, number)
  }

  lemma {:induction false} AltsRoundTrip(alts: seq<AltSetting>, number: Byte, known: Option<Byte>, rest: Bytes)
    requires alts != [] && AltsOk(alts, number) && Ends(rest, number) && (known == None || known == Some(number))
    ensures AltsOf(AltsBytes(alts, number) + rest, known) == Several(alts, rest)
    ensures Boundary(AltsBytes(alts, number) + rest) && AlternateFollows(AltsBytes(alts, number) + rest, number)
    ensures (AltsBytes(alts, number) + rest)[2] == number
    decreases |alts|
  {
    hide AltOf, AltBytes, AltOk, Boundary;
    var tail := AltsBytes(alts[1..], number) + rest;
    assert alts == [alts[0]] + alts[1..] && AltOk(alts[0]);
    Assoc(AltBytes(alts[0]), AltsBytes(alts[1..], number), rest);
    if alts[1..] == [] {
      assert tail == rest;
    } else {
      AltsRoundTrip(alts[1..], number, Some(number), rest);
    }
    AltRoundTrip(alts[0], tail);
  }

  lemma InterfaceRoundTrip(alts: seq<AltSetting>, rest: Bytes)
    requires InterfaceOk(alts) && Ends(rest, Number(alts))
    ensures
      var b := AltsBytes(alts, Number(alts)) + rest;
      && InterfaceOf(b) == Parsed(alts, rest) && Boundary(b) && |b| >= INTERFACE_DESC_LENGTH && b[2] == Number(alts)
  {
    AltsRoundTrip(alts, Number(alts), None, rest);
  }

  lemma SkipNothing(b: Bytes)
    requires Boundary(b)
    ensures Skip(b) == Extras([], b)
  {
  }

  lemma OneMoreInterface(n: nat, b: Bytes, kept: Bytes, alts: seq<AltSetting>, tail: Bytes)
    requires n > 0 && Skip(b) == Extras([], b) && InterfaceOf(b) == Parsed(alts, tail)
    ensures BodyOf(n, b, kept) == ConsBody(alts, BodyOf(n - 1, tail, kept))
  {
  }

  /** Each interface is followed by the end or by an interface with another number. */
  lemma {:induction false} InterfacesStart(ifs: seq<seq<AltSetting>>)
    requires InterfacesOk(ifs)
    ensures Boundary(InterfacesBytes(ifs))
    ensures ifs != [] ==> |InterfacesBytes(ifs)| >= INTERFACE_DESC_LENGTH && InterfacesBytes(ifs)[2] == Number(ifs[0])
    ensures ifs != [] ==> Ends(InterfacesBytes(ifs[1..]), Number(ifs[0]))
    decreases |ifs|
  {
    if ifs == [] {
    } else {
      hide InterfaceOf, AltsBytes, InterfaceOk, Boundary;
      var tail := InterfacesBytes(ifs[1..]);
      InterfacesStart(ifs[1..]);
      assert Ends(tail, Number(ifs[0]));
      InterfaceRoundTrip(ifs[0], tail);
    }
  }

  lemma FirstAndRest(ifs: seq<seq<AltSetting>>)
    requires InterfacesOk(ifs) && ifs != []
    ensures InterfaceOk(ifs[0]) && InterfacesOk(ifs[1..]) && ifs == [ifs[0]] + ifs[1..]
    ensures InterfacesBytes(ifs) == AltsBytes(ifs[0], Number(ifs[0])) + InterfacesBytes(ifs[1..])
  {
  }

  lemma {:induction false} BodyRoundTrip(ifs: seq<seq<AltSetting>>, kept: Bytes)
    requires InterfacesOk(ifs)
    ensures BodyOf(|ifs|, InterfacesBytes(ifs), kept) == Body(ifs, kept, [])
    decreases |ifs|
  {
    if ifs == [] {
    } else {
      hide Skip, InterfaceOf, InterfacesBytes, InterfacesOk, AltsBytes, Boundary, BodyOf, Ends;
      var tail := InterfacesBytes(ifs[1..]);
      FirstAndRest(ifs);
      BodyRoundTrip(ifs[1..], kept);
      InterfacesStart(ifs);
      InterfaceRoundTrip(ifs[0], tail);
      SkipNothing(InterfacesBytes(ifs));
      OneMoreInterface(|ifs|, InterfacesBytes(ifs), kept, ifs[0], tail);
    }
  }

  /** The first extras are kept. */
  lemma FirstExtras(ifs: seq<seq<AltSetting>>, extra: Bytes)
    requires InterfacesOk(ifs) && ifs != [] && ExtrasOk(extra)
    ensures BodyOf(|ifs|, extra + InterfacesBytes(ifs), []) == Body(ifs, extra, [])
  {
    hide Skip, InterfaceOf, InterfacesBytes, InterfacesOk, ExtrasOk, Boundary;
    BodyRoundTrip(ifs, extra);
    InterfacesStart(ifs);
    SkipRoundTrip(extra, InterfacesBytes(ifs));
    SkipNothing(InterfacesBytes(ifs));
  }

  lemma NoInterfaces()
    ensures InterfacesOk([]) && InterfacesBytes([]) == [] && BodyOf(0, [], []) == Body([], [], [])
  {
  }

  /** Parsing undoes writing, for every well-formed configuration, and nothing is left over. */
  lemma ConfigurationRoundTrip(c: Configuration)
    requires ConfigurationOk(c)
    ensures ConfigurationOf(ConfigurationBytes(c)) == Parsed(c, [])
  {
    hide BodyOf, InterfacesBytes, InterfacesOk, ExtrasOk;
    var header, body := ConfigurationHeader(c), c.extra + InterfacesBytes(c.interfaces);
    HeaderOf(header, body, |header|);
    assert header[2] == c.wTotalLength % 0x100 && header[3] == c.wTotalLength / 0x100;
    if c.interfaces == [] {
      NoInterfaces();
      assert body == [];
    } else {
      FirstExtras(c.interfaces, c.extra);
    }
  }
}
