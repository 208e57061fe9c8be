/** What libusb's descriptor parser returns for any bytes: whether every alternate setting has as
    many endpoints as it says. */
module DescriptorTruncation {
  import opened Basics
  import opened DescriptorParser
  import opened DescriptorTree
  import opened DescriptorRoundTrip

  // ---------------------------------------------------------------- where the last setting is

  /** The bytes that the last of the alternate settings was read from, if there is one. */
  function LastSetting(b: Bytes, number: Option<Byte>): Option<Bytes>
    decreases |b|
  {
    if |b| < INTERFACE_DESC_LENGTH then None
    else
      AltShrinks(b);
      match AltOf(b)
      case NoAlt => None
      case BadAlt => None
      case LastAlt(_, _) => Some(b)
      case OneAlt(a, rest) =>
        var n := if number.Some? then number.value else a.bInterfaceNumber;
        if AlternateFollows(rest, n) && LastSetting(rest, Some(n)).Some? then LastSetting(rest, Some(n)) else Some(b)
  }

  /** The same for the interfaces of a configuration. */
  function LastOfBody(n: nat, b: Bytes): Option<Bytes> {
    if n == 0 || !Skip(b).Extras? then None
    else
      var rest := Skip(b).rest;
      if !InterfaceOf(rest).Parsed? then None
      else
        var later := LastOfBody(n - 1, InterfaceOf(rest).rest);
        if later.Some? then later else LastSetting(rest, None)
  }

  function LastOfConfiguration(b: Bytes): Option<Bytes>
    requires ConfigurationOf(b).Parsed?
  {
    LastOfBody(b[4], b[b[0]..])
  }

  // ---------------------------------------------------------------- counting endpoints

  predicate Counts(a: AltSetting) {
    |EndpointList(a)| == a.bNumEndpoints
  }

  predicate AllCount(alts: seq<AltSetting>) {
    forall a | a in alts :: Counts(a)
  }

  predicate EverySettingCounts(interfaces: seq<seq<AltSetting>>) {
    forall alts | alts in interfaces :: AllCount(alts)
  }

  function Init<T>(s: seq<T>): seq<T>
    requires s != []
  {
    s[..|s| - 1]
  }

  function Last<T>(s: seq<T>): T
    requires s != []
  {
    s[|s| - 1]
  }

  /** A setting that announces endpoints, before an extra descriptor that is longer than what is
      left. */
  predicate CutShort(d: Bytes) {
    |d| >= INTERFACE_DESC_LENGTH && d[0] <= |d| && d[4] > 0 && Skip(d[d[0]..]).Cut?
  }

  /** A setting has been read from these bytes, and has a missing endpoint array if they are cut
      short. */
  predicate ReadFrom(a: AltSetting, d: Bytes) {
    && |d| >= INTERFACE_DESC_LENGTH
    && a.bLength == d[0] && a.bInterfaceNumber == d[2] && a.bAlternateSetting == d[3] && a.bInterfaceClass == d[5]
    && (Counts(a) <==> !CutShort(d))
    && (CutShort(d) ==> a.endpoints == None && a.bNumEndpoints == d[4])
  }

  lemma CutAgain(b: Bytes)
    ensures Skip(b).Cut? ==> Skip(Skip(b).rest).Cut?
  {
    if |b| >= DESC_HEADER_LENGTH && DESC_HEADER_LENGTH <= b[0] <= |b| && !Proper(b[1]) {
      CutAgain(b[b[0]..]);
    }
  }

  /** One setting. What follows one that is cut short is cut too. */
  lemma SettingCounts(b: Bytes)
    requires INTERFACE_DESC_LENGTH <= |b| && (AltOf(b).OneAlt? || AltOf(b).LastAlt?)
    ensures ReadFrom(AltOf(b).alt, b)
    ensures AltOf(b).OneAlt? ==> Counts(AltOf(b).alt)
    ensures AltOf(b).LastAlt? ==> Skip(AltOf(b).rest).Cut?
  {
    CutAgain(b[b[0]..]);
    hide Skip, EndpointsOf;
  }

  lemma FirstCounts(first: AltSetting, others: seq<AltSetting>)
    requires others != [] && Counts(first) && AllCount(Init(others))
    ensures AllCount(Init([first] + others)) && Last([first] + others) == Last(others)
  {
    assert Init([first] + others) == [first] + Init(others);
  }

  lemma OneSetting(a: AltSetting)
    ensures AllCount(Init([a])) && Last([a]) == a
  {
    assert Init([a]) == [];
  }

  lemma CountsOrCut(a: AltSetting, d: Bytes)
    requires ReadFrom(a, d)
    ensures Counts(a) <==> !CutShort(d)
  {
  }

  /** The settings of an interface. */
  lemma {:induction false} InterfaceCounts(b: Bytes, number: Option<Byte>)
    requires AltsOf(b, number).Several?
    ensures AltsOf(b, number).values != [] <==> LastSetting(b, number).Some?
    ensures AltsOf(b, number).values != [] ==>
              var alts, d := AltsOf(b, number).values, LastSetting(b, number).value;
              && AllCount(Init(alts)) && ReadFrom(Last(alts), d) && Left(b, d)
              && (CutShort(d) ==> Skip(AltsOf(b, number).rest).Cut?)
    decreases |b|
  {
    hide Skip, AltOf, Init, Last, Counts, CutShort, ReadFrom, AllCount;
    if |b| >= INTERFACE_DESC_LENGTH && (AltOf(b).OneAlt? || AltOf(b).LastAlt?) {
      AltShrinks(b);
      AltConserves(b);
      SettingCounts(b);
      LeftDrop(b, 0);
      assert b[0..] == b;
      var a, rest := AltOf(b).alt, AltOf(b).rest;
      OneSetting(a);
      CountsOrCut(a, b);
      if AltOf(b).OneAlt? {
        var n := if number.Some? then number.value else a.bInterfaceNumber;
        if AlternateFollows(rest, n) {
          InterfaceCounts(rest, Some(n));
          var others := AltsOf(rest, Some(n)).values;
          if others != [] {
            FirstCounts(a, others);
            LeftTransitive(b, rest, LastSetting(rest, Some(n)).value);
          } else {
            assert [a] + others == [a];
          }
        }
      }
    }
  }

  /** All settings of an interface but the last, and that one too unless it is cut short. */
  lemma AllOrLast(alts: seq<AltSetting>)
    requires alts != [] && AllCount(Init(alts))
    ensures AllCount(alts) <==> Counts(Last(alts))
  {
    assert alts == Init(alts) + [Last(alts)];
  }

  // ---------------------------------------------------------------- whole configurations

  /** All settings count their endpoints, except perhaps the very last one. */
  predicate AllButLastCount(interfaces: seq<seq<AltSetting>>) {
    interfaces != [] ==>
      EverySettingCounts(Init(interfaces)) && Last(interfaces) != [] && AllCount(Init(Last(interfaces)))
  }

  lemma ConsInterface(first: seq<AltSetting>, others: seq<seq<AltSetting>>)
    requires AllCount(first) && others != [] && AllButLastCount(others)
    ensures AllButLastCount([first] + others) && Last([first] + others) == Last(others)
  {
    assert Init([first] + others) == [first] + Init(others);
  }

  lemma OneInterface(alts: seq<AltSetting>)
    requires alts != [] && AllCount(Init(alts))
    ensures AllButLastCount([alts]) && Last([alts]) == alts
  {
    assert Init([alts]) == [];
  }

  lemma NoInterfacesCount()
    ensures AllButLastCount([])
  {
  }

  /** A cut ends the list of interfaces. */
  lemma {:induction false} BodyCounts(n: nat, b: Bytes, kept: Bytes)
    requires BodyOf(n, b, kept).Body?
    ensures BodyOf(n, b, kept).interfaces != [] <==> LastOfBody(n, b).Some?
    ensures AllButLastCount(BodyOf(n, b, kept).interfaces)
    ensures BodyOf(n, b, kept).interfaces != [] ==>
              var d := LastOfBody(n, b).value;
              ReadFrom(Last(Last(BodyOf(n, b, kept).interfaces)), d) && Left(b, d)
    ensures Skip(b).Cut? ==> BodyOf(n, b, kept).interfaces == []
    decreases n
  {
    hide Skip, AltsOf, Init, Last, Counts, CutShort, ReadFrom, AllCount, AllButLastCount, LastSetting, Left,
      EverySettingCounts;
    NoInterfacesCount();
    if n > 0 && Skip(b).Extras? && InterfaceOf(Skip(b).rest).Parsed? {
      var keep, rest := if kept == [] then Skip(b).extra else kept, Skip(b).rest;
      var alts, tail := InterfaceOf(rest).value, InterfaceOf(rest).rest;
      SkipLeft(b);
      AltsConserve(rest, None);
      InterfaceCounts(rest, None);
      BodyCounts(n - 1, tail, keep);
      AllOrLast(alts);
      CountsOrCut(Last(alts), LastSetting(rest, None).value);
      var others := BodyOf(n - 1, tail, keep).interfaces;
      if others == [] {
        assert [alts] + others == [alts];
        OneInterface(alts);
        LeftTransitive(b, rest, LastSetting(rest, None).value);
      } else {
        ConsInterface(alts, others);
        LeftTransitive(b, rest, tail);
        LeftTransitive(b, tail, LastOfBody(n - 1, tail).value);
      }
    }
  }

  lemma EveryOrLast(interfaces: seq<seq<AltSetting>>)
    requires interfaces != [] && AllButLastCount(interfaces)
    ensures Last(interfaces) != []
    ensures EverySettingCounts(interfaces) <==> Counts(Last(Last(interfaces)))
  {
    AllOrLast(Last(interfaces));
    assert interfaces == Init(interfaces) + [Last(interfaces)];
  }

  lemma NoSettings()
    ensures EverySettingCounts([])
  {
  }

  /** For any bytes that are parsed: every setting has as many endpoints as it says, except that
      the last setting of the last interface, if it announces endpoints and the extra descriptor
      after it is longer than what is left, keeps the announced number without an array. */
  lemma EndpointCounts(b: Bytes)
    requires ConfigurationOf(b).Parsed?
    ensures
      var interfaces, last := ConfigurationOf(b).value.interfaces, LastOfConfiguration(b);
      && (EverySettingCounts(interfaces) <==> last == None || !CutShort(last.value))
      && AllButLastCount(interfaces)
      && (interfaces != [] <==> last.Some?)
      && (interfaces != [] ==> ReadFrom(Last(Last(interfaces)), last.value) && Left(b, last.value))
  {
    hide BodyOf, LastOfBody, Init, Last, Counts, CutShort, ReadFrom, AllCount, AllButLastCount, Left,
      EverySettingCounts;
    BodyCounts(b[4], b[b[0]..], []);
    var interfaces, last := ConfigurationOf(b).value.interfaces, LastOfConfiguration(b);
    if interfaces != [] {
      EveryOrLast(interfaces);
      CountsOrCut(Last(Last(interfaces)), last.value);
      LeftDrop(b, b[0]);
      LeftTransitive(b, b[b[0]..], last.value);
    } else {
      NoSettings();
    }
  }

  function CutInterface(): (b: Bytes)
    ensures |b| == 11
  {
    [9, DT_INTERFACE, 0, 0, 1, 0, 0, 0, 0, 5, 0x24]
  }

  /** One configuration with one interface, whose setting announces an endpoint; what follows is
      the beginning of a class-specific descriptor. */
  function CutConfiguration(): Bytes {
    [9, DT_CONFIG, 20, 0, 1, 1, 0, 0x80, 50] + CutInterface()
  }

  /** It is parsed, to a setting that has one endpoint and no endpoint array. */
  lemma MissingEndpointArray()
    ensures
      var r := ConfigurationOf(CutConfiguration());
      && r.Parsed? && |r.value.interfaces| == 1 && |r.value.interfaces[0]| == 1
      && r.value.interfaces[0][0].bNumEndpoints == 1 && r.value.interfaces[0][0].endpoints == None
  {
    var b, c := CutInterface(), CutConfiguration();
    assert c[9..] == b && b[9..] == [5, 0x24];
    assert AltOf(b) == LastAlt(MakeAlt(b, 1, [], None), [5, 0x24]);
    assert AltsOf(b, None) == Several([MakeAlt(b, 1, [], None)], [5, 0x24]);
    assert Skip(b) == Extras([], b);
    assert BodyOf(0, [5, 0x24], []) == Body([], [], [5, 0x24]);
    assert BodyOf(1, b, []) == Body([[MakeAlt(b, 1, [], None)]], [], [5, 0x24]);
  }
}
