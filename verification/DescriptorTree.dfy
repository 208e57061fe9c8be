/** The nested parsers of descriptor.c: endpoints, interfaces with their alternate settings,
    configurations. */
module DescriptorTree {
  import opened Basics
  import opened DescriptorParser

  // ---------------------------------------------------------------- endpoints

  function MakeEndpoint(b: Bytes, extra: Bytes): Endpoint
    requires ENDPOINT_DESC_LENGTH <= |b| && b[0] <= |b|
  {
    var audio := b[0] >= ENDPOINT_AUDIO_DESC_LENGTH;
    Endpoint(b[0], b[2], b[3], Word(b, 4), b[6], if audio then b[7] else 0, if audio then b[8] else 0, extra)
  }

  function EndpointOf(b: Bytes): Result<Endpoint> {
    if |b| < DESC_HEADER_LENGTH then Failed
    else if b[1] != DT_ENDPOINT || b[0] > |b| then Absent
    else if b[0] < ENDPOINT_DESC_LENGTH then Failed
    else
      match Skip(b[b[0]..])
      case BadLength => Failed
      case Cut(rest) => Parsed(MakeEndpoint(b, []), rest)
      case Extras(extra, rest) => Parsed(MakeEndpoint(b, extra), rest)
  }

  method ParseEndpoint(b: Bytes) returns (r: Result<Endpoint>)
    ensures r == EndpointOf(b)
  {
    if |b| < DESC_HEADER_LENGTH {
      return Failed;
    }
    if b[1] != DT_ENDPOINT {
      return Absent;
    }
    if b[0] > |b| {
      return Absent;
    }
    var refresh, synch := 0, 0;
    var f, n;
    if b[0] >= ENDPOINT_AUDIO_DESC_LENGTH {
      AudioEndpointFields(b);
      f, n := ParseDescriptor(b, AUDIO_ENDPOINT_FORMAT);
      refresh, synch := f[6], f[7];
    } else if b[0] >= ENDPOINT_DESC_LENGTH {
      EndpointFields(b);
      f, n := ParseDescriptor(b, ENDPOINT_FORMAT);
    } else {
      return Failed;
    }
    var skipped := SkipExtras(b[b[0]..]);
    match skipped
    case BadLength => r := Failed;
    case Cut(rest) => r := Parsed(Endpoint(f[0], f[2], f[3], f[4], f[5], refresh, synch, []), rest);
    case Extras(extra, rest) => r := Parsed(Endpoint(f[0], f[2], f[3], f[4], f[5], refresh, synch, extra), rest);
  }

  /** What several parsers in a row produce. */
  datatype Many<T> = Several(values: seq<T>, rest: Bytes) | Broken

  function Cons<T>(value: T, others: Many<T>): Many<T> {
    match others
    case Broken => Broken
    case Several(values, rest) => Several([value] + values, rest)
  }

  /** Up to `n` endpoints. */
  function EndpointsOf(n: nat, b: Bytes): (r: Many<Endpoint>)
    ensures r.Several? ==> |r.values| <= n
  {
    if n == 0 then Several([], b)
    else
      match EndpointOf(b)
      case Failed => Broken
      case Absent => Several([], b)
      case Parsed(e, rest) => Cons(e, EndpointsOf(n - 1, rest))
  }

  function Prepend<T>(values: seq<T>, others: Many<T>): Many<T> {
    match others
    case Broken => Broken
    case Several(more, rest) => Several(values + more, rest)
  }

  lemma PrependCons<T>(values: seq<T>, value: T, others: Many<T>)
    ensures Prepend(values, Cons(value, others)) == Prepend(values + [value], others)
  {
    if others.Several? {
      assert values + ([value] + others.values) == (values + [value]) + others.values;
    }
  }

  lemma PrependNothing<T>(values: seq<T>, others: Many<T>, rest: Bytes)
    ensures Prepend([], others) == others && Prepend(values, Several([], rest)) == Several(values, rest)
  {
  }

  method ParseEndpoints(n: nat, b: Bytes) returns (r: Many<Endpoint>)
    ensures r == EndpointsOf(n, b)
  {
    var endpoints: seq<Endpoint>, buffer := [], b;
    PrependNothing(endpoints, EndpointsOf(n, b), b);
    for i := 0 to n
      invariant EndpointsOf(n, b) == Prepend(endpoints, EndpointsOf(n - i, buffer))
    {
      var e := ParseEndpoint(buffer);
      match e
      case Failed =>
        return Broken;
      case Absent =>
        PrependNothing(endpoints, Broken, buffer);
        return Several(endpoints, buffer);
      case Parsed(endpoint, rest) =>
        PrependCons(endpoints, endpoint, EndpointsOf(n - i - 1, rest));
        endpoints, buffer := endpoints + [endpoint], rest;
    }
    PrependNothing(endpoints, Broken, buffer);
    r := Several(endpoints, buffer);
  }

  // ---------------------------------------------------------------- alternate settings

  function MakeAlt(b: Bytes, count: Byte, extra: Bytes, endpoints: Option<seq<Endpoint>>): AltSetting
    requires INTERFACE_DESC_LENGTH <= |b|
  {
    AltSetting(b[0], b[2], b[3], count, b[5], b[6], b[7], b[8], extra, endpoints)
  }

  /** One turn of the loop over alternate settings: none here, an error, a setting whose
      extras are cut short (and that is the last one), or a complete setting. */
  datatype AltResult = NoAlt | BadAlt | LastAlt(alt: AltSetting, rest: Bytes) | OneAlt(alt: AltSetting, rest: Bytes)

  function AltOf(b: Bytes): AltResult
    requires INTERFACE_DESC_LENGTH <= |b|
  {
    if b[1] != DT_INTERFACE then NoAlt
    else if b[0] < INTERFACE_DESC_LENGTH then BadAlt
    else if b[0] > |b| then NoAlt
    else if b[4] > USB_MAXENDPOINTS then BadAlt
    else
      match Skip(b[b[0]..])
      case BadLength => BadAlt
      case Cut(rest) => LastAlt(MakeAlt(b, b[4], [], None), rest)
      case Extras(extra, rest) =>
        if b[4] == 0 then OneAlt(MakeAlt(b, 0, extra, None), rest)
        else
          match EndpointsOf(b[4], rest)
          case Broken => BadAlt
          case Several(es, tail) => OneAlt(MakeAlt(b, |es|, extra, Some(es)), tail)
  }

  method ParseAlt(b: Bytes) returns (r: AltResult)
    requires INTERFACE_DESC_LENGTH <= |b|
    ensures r == AltOf(b)
  {
    InterfaceFields(b);
    var f, n := ParseDescriptor(b, INTERFACE_FORMAT);
    if f[1] != DT_INTERFACE {
      return NoAlt;
    }
    if f[0] < INTERFACE_DESC_LENGTH {
      return BadAlt;
    }
    if f[0] > |b| {
      return NoAlt;
    }
    if f[4] > USB_MAXENDPOINTS {
      return BadAlt;
    }
    var alt := AltSetting(f[0], f[2], f[3], f[4], f[5], f[6], f[7], f[8], [], None);
    var skipped := SkipExtras(b[f[0]..]);
    match skipped
    case BadLength => r := BadAlt;
    case Cut(rest) => r := LastAlt(alt, rest);
    case Extras(extra, rest) =>
      alt := alt.(extra := extra);
      if alt.bNumEndpoints > 0 {
        var endpoints := ParseEndpoints(alt.bNumEndpoints, rest);
        match endpoints
        case Broken => return BadAlt;
        case Several(es, tail) => return OneAlt(alt.(bNumEndpoints := |es|, endpoints := Some(es)), tail);
      }
      r := OneAlt(alt, rest);
  }

  /** Does an alternate setting of interface `number` follow? */
  predicate AlternateFollows(b: Bytes, number: int) {
    |b| >= INTERFACE_DESC_LENGTH && b[1] == DT_INTERFACE && b[2] == number
  }

  /** `rest` is what is left of `b` after some bytes have been consumed. */
  predicate Left(b: Bytes, rest: Bytes) {
    |rest| <= |b| && b[|b| - |rest|..] == rest
  }

  lemma LeftTransitive(a: Bytes, b: Bytes, c: Bytes)
    requires Left(a, b) && Left(b, c)
    ensures Left(a, c)
  {
    assert a[|a| - |b|..][|b| - |c|..] == a[|a| - |c|..];
  }

  lemma LeftDrop(b: Bytes, n: nat)
    requires n <= |b|
    ensures Left(b, b[n..])
  {
  }

  lemma SkipLeft(b: Bytes)
    ensures Skip(b).Extras? ==> Left(b, Skip(b).rest)
    ensures Skip(b).Cut? ==> Left(b, Skip(b).rest)
  {
    SkipConserves(b);
  }

  lemma EndpointConserves(b: Bytes)
    requires EndpointOf(b).Parsed?
    ensures Left(b, EndpointOf(b).rest) && |EndpointOf(b).rest| < |b|
  {
    LeftDrop(b, b[0]);
    SkipLeft(b[b[0]..]);
    LeftTransitive(b, b[b[0]..], EndpointOf(b).rest);
  }

  lemma {:induction false} EndpointsConserve(n: nat, b: Bytes)
    requires EndpointsOf(n, b).Several?
    ensures Left(b, EndpointsOf(n, b).rest)
    decreases n
  {
    if n > 0 && EndpointOf(b).Parsed? {
      EndpointConserves(b);
      EndpointsConserve(n - 1, EndpointOf(b).rest);
      LeftTransitive(b, EndpointOf(b).rest, EndpointsOf(n, b).rest);
    }
  }

  lemma AltShrinks(b: Bytes)
    requires INTERFACE_DESC_LENGTH <= |b|
    ensures AltOf(b).OneAlt? ==> |AltOf(b).rest| + INTERFACE_DESC_LENGTH <= |b|
    ensures AltOf(b).LastAlt? ==> |AltOf(b).rest| + INTERFACE_DESC_LENGTH <= |b|
  {
    if AltOf(b).OneAlt? || AltOf(b).LastAlt? {
      SkipConserves(b[b[0]..]);
      if AltOf(b).OneAlt? && b[4] != 0 {
        EndpointsConserve(b[4], Skip(b[b[0]..]).rest);
      }
    }
  }

  // ---------------------------------------------------------------- interfaces

  /** The alternate settings of one interface; its number is that of the first one. */
  function AltsOf(b: Bytes, number: Option<Byte>): Many<AltSetting>
    decreases |b|
  {
    if |b| < INTERFACE_DESC_LENGTH then Several([], b)
    else
      AltShrinks(b);
      match AltOf(b)
      case NoAlt => Several([], b)
      case BadAlt => Broken
      case LastAlt(a, rest) => Several([a], rest)
      case OneAlt(a, rest) =>
        var n := if number.Some? then number.value else a.bInterfaceNumber;
        if AlternateFollows(rest, n) then Cons(a, AltsOf(rest, Some(n))) else Several([a], rest)
  }

  function InterfaceOf(b: Bytes): Result<seq<AltSetting>> {
    match AltsOf(b, None)
    case Broken => Failed
    case Several(alts, rest) => if alts == [] then Absent else Parsed(alts, rest)
  }

  method ParseInterface(b: Bytes) returns (r: Result<seq<AltSetting>>)
    ensures r == InterfaceOf(b)
  {
    var altsettings: seq<AltSetting>, buffer: Bytes := [], b;
    var interfaceNumber: Option<Byte> := None;
    PrependNothing(altsettings, AltsOf(b, None), b);
    while |buffer| >= INTERFACE_DESC_LENGTH
      invariant AltsOf(b, None) == Prepend(altsettings, AltsOf(buffer, interfaceNumber))
      decreases |buffer|
    {
      AltShrinks(buffer);
      var alt := ParseAlt(buffer);
      match alt
      case NoAlt =>
        PrependNothing(altsettings, Broken, buffer);
        return if altsettings == [] then Absent else Parsed(altsettings, buffer);
      case BadAlt =>
        return Failed;
      case LastAlt(a, rest) =>
        return Parsed(altsettings + [a], rest);
      case OneAlt(a, rest) =>
        if interfaceNumber == None {
          interfaceNumber := Some(a.bInterfaceNumber);
        }
        if !AlternateFollows(rest, interfaceNumber.value) {
          return Parsed(altsettings + [a], rest);
        }
        PrependCons(altsettings, a, AltsOf(rest, interfaceNumber));
        altsettings, buffer := altsettings + [a], rest;
    }
    PrependNothing(altsettings, Broken, buffer);
    r := if altsettings == [] then Absent else Parsed(altsettings, buffer);
  }

  lemma AltConserves(b: Bytes)
    requires INTERFACE_DESC_LENGTH <= |b| && (AltOf(b).OneAlt? || AltOf(b).LastAlt?)
    ensures Left(b, AltOf(b).rest)
  {
    var body := b[b[0]..];
    LeftDrop(b, b[0]);
    SkipLeft(body);
    LeftTransitive(b, body, Skip(body).rest);
    if AltOf(b).OneAlt? && b[4] != 0 {
      EndpointsConserve(b[4], Skip(body).rest);
      LeftTransitive(b, Skip(body).rest, AltOf(b).rest);
    }
  }

  lemma {:induction false} AltsConserve(b: Bytes, number: Option<Byte>)
    requires AltsOf(b, number).Several?
    ensures Left(b, AltsOf(b, number).rest)
    ensures AltsOf(b, number).values != [] ==> |AltsOf(b, number).rest| + INTERFACE_DESC_LENGTH <= |b|
    decreases |b|
  {
    if |b| >= INTERFACE_DESC_LENGTH && (AltOf(b).OneAlt? || AltOf(b).LastAlt?) {
      AltShrinks(b);
      AltConserves(b);
      var rest := AltOf(b).rest;
      if AltOf(b).OneAlt? {
        var n := if number.Some? then number.value else AltOf(b).alt.bInterfaceNumber;
        if AlternateFollows(rest, n) {
          AltsConserve(rest, Some(n));
          LeftTransitive(b, rest, AltsOf(rest, Some(n)).rest);
        }
      }
    }
  }

  // ---------------------------------------------------------------- configurations

  /** What follows the configuration descriptor: up to `n` interfaces.  Extras are kept only
      the first time there are any. */
  datatype Body = Body(interfaces: seq<seq<AltSetting>>, extra: Bytes, rest: Bytes) | BodyFailed

  function ConsBody(first: seq<AltSetting>, others: Body): Body {
    match others
    case BodyFailed => BodyFailed
    case Body(interfaces, extra, rest) => Body([first] + interfaces, extra, rest)
  }

  function BodyOf(n: nat, b: Bytes, kept: Bytes): (r: Body)
    ensures r.Body? ==> |r.interfaces| <= n
  {
    if n == 0 then Body([], kept, b)
    else
      match Skip(b)
      case BadLength => BodyFailed
      case Cut(rest) => Body([], kept, rest)
      case Extras(extra, rest) =>
        var keep := if kept == [] then extra else kept;
        match InterfaceOf(rest)
        case Failed => BodyFailed
        case Absent => Body([], keep, rest)
        case Parsed(alts, tail) => ConsBody(alts, BodyOf(n - 1, tail, keep))
  }

  function ConfigurationOf(b: Bytes): Result<Configuration> {
    if |b| < CONFIG_DESC_LENGTH || b[1] != DT_CONFIG || b[0] < CONFIG_DESC_LENGTH || b[0] > |b|
       || b[4] > USB_MAXINTERFACES
    then Failed
    else
      match BodyOf(b[4], b[b[0]..], [])
      case BodyFailed => Failed
      case Body(interfaces, extra, rest) =>
        Parsed(Configuration(b[0], Word(b, 2), |interfaces|, b[5], b[6], b[7], b[8], extra, interfaces), rest)
  }

  function PrependBody(interfaces: seq<seq<AltSetting>>, others: Body): Body {
    match others
    case BodyFailed => BodyFailed
    case Body(more, extra, rest) => Body(interfaces + more, extra, rest)
  }

  lemma PrependConsBody(interfaces: seq<seq<AltSetting>>, first: seq<AltSetting>, others: Body)
    ensures PrependBody(interfaces, ConsBody(first, others)) == PrependBody(interfaces + [first], others)
  {
    if others.Body? {
      assert interfaces + ([first] + others.interfaces) == (interfaces + [first]) + others.interfaces;
    }
  }

  lemma PrependNoBody(interfaces: seq<seq<AltSetting>>, others: Body, extra: Bytes, rest: Bytes)
    ensures PrependBody([], others) == others
    ensures PrependBody(interfaces, Body([], extra, rest)) == Body(interfaces, extra, rest)
  {
  }

  method ParseBody(n: nat, b: Bytes) returns (r: Body)
    ensures r == BodyOf(n, b, [])
  {
    hide Skip, InterfaceOf;
    var interfaces: seq<seq<AltSetting>>, buffer: Bytes, extra: Bytes := [], b, [];
    PrependNoBody(interfaces, BodyOf(n, b, []), [], b);
    for i := 0 to n
      invariant BodyOf(n, b, []) == PrependBody(interfaces, BodyOf(n - i, buffer, extra))
    {
      var skipped := SkipExtras(buffer);
      PrependNoBody(interfaces, BodyFailed, extra, if skipped.Cut? then skipped.rest else []);
      match skipped
      case BadLength =>
        return BodyFailed;
      case Cut(rest) =>
        return Body(interfaces, extra, rest);
      case Extras(more, rest) =>
        if extra == [] {
          extra := more;
        }
        var alts := ParseInterface(rest);
        match alts {
          case Failed =>
            return BodyFailed;
          case Absent =>
            PrependNoBody(interfaces, BodyFailed, extra, rest);
            return Body(interfaces, extra, rest);
          case Parsed(settings, tail) =>
            PrependConsBody(interfaces, settings, BodyOf(n - i - 1, tail, extra));
            interfaces, buffer := interfaces + [settings], tail;
        }
    }
    PrependNoBody(interfaces, BodyFailed, extra, buffer);
    r := Body(interfaces, extra, buffer);
  }

  method ParseConfiguration(b: Bytes) returns (r: Result<Configuration>)
    ensures r == ConfigurationOf(b)
  {
    if |b| < CONFIG_DESC_LENGTH {
      return Failed;
    }
    ConfigFields(b);
    var f, n := ParseDescriptor(b, CONFIG_FORMAT);
    if f[1] != DT_CONFIG {
      return Failed;
    }
    if f[0] < CONFIG_DESC_LENGTH {
      return Failed;
    }
    if f[0] > |b| {
      return Failed;
    }
    if f[3] > USB_MAXINTERFACES {
      return Failed;
    }
    var body := ParseBody(f[3], b[f[0]..]);
    match body
    case BodyFailed => r := Failed;
    case Body(interfaces, extra, rest) =>
      r := Parsed(Configuration(f[0], f[2], |interfaces|, f[4], f[5], f[6], f[7], extra, interfaces), rest);
  }

  // ---------------------------------------------------------------- on any input

  lemma {:induction false} BodyConserves(n: nat, b: Bytes, kept: Bytes)
    requires BodyOf(n, b, kept).Body?
    ensures Left(b, BodyOf(n, b, kept).rest)
    decreases n
  {
    if n == 0 {
    } else {
      SkipLeft(b);
      if Skip(b).Extras? {
        var keep, rest := if kept == [] then Skip(b).extra else kept, Skip(b).rest;
        if InterfaceOf(rest).Parsed? {
          AltsConserve(rest, None);
          var tail := InterfaceOf(rest).rest;
          BodyConserves(n - 1, tail, keep);
          LeftTransitive(b, rest, tail);
          LeftTransitive(b, tail, BodyOf(n, b, kept).rest);
        }
      }
    }
  }

  /** Consumed and remaining bytes add up, on any input: what is left over is exactly the end
      of what was given. */
  lemma ConfigurationConserves(b: Bytes)
    requires ConfigurationOf(b).Parsed?
    ensures Left(b, ConfigurationOf(b).rest) && |ConfigurationOf(b).rest| + CONFIG_DESC_LENGTH <= |b|
    ensures
      var c := ConfigurationOf(b).value;
      c.bNumInterfaces == |c.interfaces| <= USB_MAXINTERFACES
  {
    LeftDrop(b, b[0]);
    BodyConserves(b[4], b[b[0]..], []);
    LeftTransitive(b, b[b[0]..], ConfigurationOf(b).rest);
  }
}
