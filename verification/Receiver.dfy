/** What a receiver of a status packet reads in it. */
module Receiver {
  import opened Bytes
  import opened JsonValue
  import opened Rendering
  import opened ParseSpec
  import opened RoundTrip
  import opened Finding
  import opened Tree
  import opened Status

  // The packet, each part under its name.

  predicate FindsText(v: Json, name: string, t: Text?) {
    if t == null then Lacks(v, name) else Finds(v, name, String(t.s))
  }

  predicate ShowsConfig(v: Json, c: Config) {
    && FindsText(v, "Name", c.name) && FindsText(v, "Hostname", c.hostname) && FindsText(v, "IP Address", c.controlIP)
    && Finds(v, "Control Port", Number(c.controlPort as real)) && FindsText(v, "Location", c.location)
    && Finds(v, "Range (m)", Number(c.range as real))
    && FindsText(v, "Lens", c.lens) && FindsText(v, "Recording Directory", c.rawStorage)
    && FindsText(v, "RTSP Address", c.rtspAddress)
  }

  predicate ShowsSensor(v: Json, s: SensorInfo) {
    match s
    case SensorInfo(name, temperature, exposureTime, gain, state) =>
      && FindsText(v, "Sensor", name) && Finds(v, "Sensor Temperature", Number(temperature))
      && Finds(v, "Exposure Time", Number(exposureTime)) && Finds(v, "Gain", Number(gain))
      && (state == 0 ==> Finds(v, "Sensor Temperature State", String(Ascii("OK"))))
      && (state == 1 ==> Finds(v, "Sensor Temperature State", String(Ascii("CRITICAL"))))
      && (state == 2 ==> Finds(v, "Sensor Temperature State", String(Ascii("ERROR"))))
      && (state !in {0, 1, 2} ==> Finds(v, "Sensor Temperature State", String(Ascii("BAD VALUE"))))
    case NoSensor =>
      && Finds(v, "Sensor", String(Ascii("Pipeline Inactive"))) && Finds(v, "Sensor Temperature", Number(0.0))
      && Finds(v, "Exposure Time", Number(0.0)) && Lacks(v, "Gain")
      && Finds(v, "Sensor Temperature State", String(Ascii("OK")))
  }

  predicate ShowsState(v: Json, r: Status.Reading) {
    && Finds(v, "RTSP", Bool(r.streaming)) && Finds(v, "Raw", Bool(r.raw))
    && Finds(v, "Memory Remaining (GB)", Number(r.memoryRemaining as real))
    && Finds(v, "Disk Size (GB)", Number(r.diskSize as real))
    && Finds(v, "CPU Temperature", Number(r.cpuTemperature as real))
    && Finds(v, "Timestamp", Number(r.timestamp as real))
  }

  ghost predicate ShowsScript(v: Json, s: Script)
    reads if s.capabilities == null then {} else {s.capabilities}
  {
    && FindsText(v, "Name", s.name) && Finds(v, "Control Port", Number(s.port as real))
    && if s.capabilities == null then Lacks(v, "Capabilities") else Finds(v, "Capabilities", s.capabilities.val)
  }

  ghost predicate ShowsScripts(v: Json, scripts: seq<Script>)
    reads Capabilities(scripts)
  {
    && v.Object? && var hardware := First(v.members, Ascii("Hardware"));
    && hardware.Found? && hardware.value.Array? && |hardware.value.items| == |scripts|
    && forall i :: 0 <= i < |scripts| ==>
      assert scripts[i] in scripts; ShowsScript(hardware.value.items[i], scripts[i])
  }

  ghost predicate Shows(v: Json, c: Config, r: Status.Reading, scripts: seq<Script>)
    reads Capabilities(scripts)
  {
    ShowsConfig(v, c) && ShowsSensor(v, r.sensor) && ShowsState(v, r) && ShowsScripts(v, scripts)
  }

  // Look-up in the groups of the packet.

  lemma FirstOfText(name: CString, t: Text?, key: CString)
    ensures First(TextMember(name, t), key) == if t != null && name == key then Found(String(t.s)) else Absent
  {
  }

  lemma FirstOfNumber(name: CString, n: real, key: CString)
    ensures First(NumberMember(name, n), key) == if name == key then Found(Number(n)) else Absent
  {
  }

  lemma FirstOfTwo(ms: seq<Member>, key: CString)
    requires |ms| == 2
    ensures First(ms, key)
      == if key == ms[0].key then Found(ms[0].value) else if key == ms[1].key then Found(ms[1].value) else Absent
  {
    assert First(ms[1..], key) == if key == ms[1].key then Found(ms[1].value) else Absent;
  }

  lemma FirstOfIdentity(c: Config, key: CString)
    ensures First(Identity(c), key)
      == if c.name != null && Ascii("Name") == key then Found(String(c.name.s))
         else if c.hostname != null && Ascii("Hostname") == key then Found(String(c.hostname.s))
         else if c.controlIP != null && Ascii("IP Address") == key then Found(String(c.controlIP.s))
         else Absent
  {
    hide Ascii, TextMember, First;
    FirstOfText(Ascii("Name"), c.name, key);
    FirstOfText(Ascii("Hostname"), c.hostname, key);
    FirstOfText(Ascii("IP Address"), c.controlIP, key);
    FirstOfThree(TextMember(Ascii("Name"), c.name), TextMember(Ascii("Hostname"), c.hostname),
                 TextMember(Ascii("IP Address"), c.controlIP), key);
  }

  lemma FirstOfPlace(c: Config, key: CString)
    ensures First(Place(c), key)
      == if Ascii("Control Port") == key then Found(Number(c.controlPort as real))
         else if c.location != null && Ascii("Location") == key then Found(String(c.location.s))
         else if Ascii("Range (m)") == key then Found(Number(c.range as real))
         else Absent
  {
    hide Ascii, TextMember, NumberMember, First;
    FirstOfNumber(Ascii("Control Port"), c.controlPort as real, key);
    FirstOfText(Ascii("Location"), c.location, key);
    FirstOfNumber(Ascii("Range (m)"), c.range as real, key);
    FirstOfThree(NumberMember(Ascii("Control Port"), c.controlPort as real), TextMember(Ascii("Location"), c.location),
                 NumberMember(Ascii("Range (m)"), c.range as real), key);
  }

  lemma FirstOfEquipment(c: Config, key: CString)
    ensures First(Equipment(c), key)
      == if c.lens != null && Ascii("Lens") == key then Found(String(c.lens.s))
         else if c.rawStorage != null && Ascii("Recording Directory") == key then Found(String(c.rawStorage.s))
         else if c.rtspAddress != null && Ascii("RTSP Address") == key then Found(String(c.rtspAddress.s))
         else Absent
  {
    hide Ascii, TextMember, First;
    FirstOfText(Ascii("Lens"), c.lens, key);
    FirstOfText(Ascii("Recording Directory"), c.rawStorage, key);
    FirstOfText(Ascii("RTSP Address"), c.rtspAddress, key);
    FirstOfThree(TextMember(Ascii("Lens"), c.lens), TextMember(Ascii("Recording Directory"), c.rawStorage),
                 TextMember(Ascii("RTSP Address"), c.rtspAddress), key);
  }

  function InactiveText(): CString { Ascii("Pipeline Inactive") }

  lemma FirstOfMeasured(s: SensorInfo, key: CString)
    ensures First(Measured(s), key)
      == if Ascii("Sensor") == key && (s.NoSensor? || s.name != null) then
           Found(String(if s.NoSensor? then InactiveText() else s.name.s))
         else if Ascii("Sensor Temperature") == key then Found(Number(if s.NoSensor? then 0.0 else s.temperature))
         else if Ascii("Exposure Time") == key && s.SensorInfo? then Found(Number(s.exposureTime))
         else Absent
  {
    hide Ascii, TextMember, NumberMember;
    if s.SensorInfo? {
      FirstOfText(Ascii("Sensor"), s.name, key);
      FirstOfNumber(Ascii("Sensor Temperature"), s.temperature, key);
      FirstOfNumber(Ascii("Exposure Time"), s.exposureTime, key);
      FirstOfThree(TextMember(Ascii("Sensor"), s.name), NumberMember(Ascii("Sensor Temperature"), s.temperature),
                   NumberMember(Ascii("Exposure Time"), s.exposureTime), key);
    } else {
      var zero := NumberMember(Ascii("Sensor Temperature"), 0.0);
      FirstOfNumber(Ascii("Sensor Temperature"), 0.0, key);
      FirstOfThree([Member(Ascii("Sensor"), String(InactiveText()))], zero, zero, key);
    }
  }

  lemma FirstOfCondition(s: SensorInfo, key: CString)
    ensures First(Condition(s), key)
      == if s.SensorInfo? && Ascii("Gain") == key then Found(Number(s.gain))
         else if s.NoSensor? && Ascii("Exposure Time") == key then Found(Number(0.0))
         else if Ascii("Sensor Temperature State") == key then
           Found(String(if s.NoSensor? then Ascii("OK") else StateText(s.temperatureState)))
         else Absent
  {
    hide Ascii, StateText;
    FirstOfTwo(Condition(s), key);
  }

  lemma FirstOfActivity(r: Status.Reading, key: CString)
    ensures First(Activity(r), key)
      == if Ascii("RTSP") == key then Found(Bool(r.streaming))
         else if Ascii("Raw") == key then Found(Bool(r.raw))
         else if Ascii("Memory Remaining (GB)") == key then Found(Number(r.memoryRemaining as real))
         else Absent
  {
    hide Ascii, NumberMember;
    var two := [Member(Ascii("RTSP"), Bool(r.streaming)), Member(Ascii("Raw"), Bool(r.raw))];
    FirstOfTwo(two, key);
    FirstOfNumber(Ascii("Memory Remaining (GB)"), r.memoryRemaining as real, key);
    FirstOfBoth(two, NumberMember(Ascii("Memory Remaining (GB)"), r.memoryRemaining as real), key);
  }

  lemma FirstOfHost(r: Status.Reading, key: CString)
    ensures First(Host(r), key)
      == if Ascii("Disk Size (GB)") == key then Found(Number(r.diskSize as real))
         else if Ascii("CPU Temperature") == key then Found(Number(r.cpuTemperature as real))
         else if Ascii("Timestamp") == key then Found(Number(r.timestamp as real))
         else Absent
  {
    hide Ascii, NumberMember;
    FirstOfNumber(Ascii("Disk Size (GB)"), r.diskSize as real, key);
    FirstOfNumber(Ascii("CPU Temperature"), r.cpuTemperature as real, key);
    FirstOfNumber(Ascii("Timestamp"), r.timestamp as real, key);
    FirstOfThree(NumberMember(Ascii("Disk Size (GB)"), r.diskSize as real),
                 NumberMember(Ascii("CPU Temperature"), r.cpuTemperature as real),
                 NumberMember(Ascii("Timestamp"), r.timestamp as real), key);
  }

  function Or(a: Lookup, b: Lookup): Lookup { if a.Found? then a else b }

  /** The look-up of a name, group by group. */
  lemma FirstOfPacket(c: Config, r: Status.Reading, hardware: Member, key: CString)
    ensures First(Scalars(c, r) + [hardware], key)
      == Or(First(Identity(c), key), Or(First(Place(c), key), Or(First(Equipment(c), key),
           Or(First(Measured(r.sensor), key), Or(First(Condition(r.sensor), key), Or(First(Activity(r), key),
             Or(First(Host(r), key), if hardware.key == key then Found(hardware.value) else Absent)))))))
  {
    hide Identity, Place, Equipment, Measured, Condition, Activity, Host;
    var ms := Identity(c) + Place(c) + Equipment(c) + Measured(r.sensor);
    assert Scalars(c, r) == ms + Condition(r.sensor) + Activity(r) + Host(r);
    FirstOfThree(Identity(c), Place(c), Equipment(c), key);
    FirstOfBoth(Identity(c) + Place(c) + Equipment(c), Measured(r.sensor), key);
    FirstOfThree(ms, Condition(r.sensor), Activity(r), key);
    FirstOfThree(ms + Condition(r.sensor) + Activity(r), Host(r), [hardware], key);
  }

  /** Tells the names of a packet apart: the length and the first two bytes. */
  function Code(key: CString): nat {
    if |key| < 2 then 0 else 100_0000 * |key| + 1000 * key[0] as int + key[1] as int
  }

  lemma ConfigCodes()
    ensures Code(Ascii("Name")) == 4078097 && Code(Ascii("Hostname")) == 8072111
    ensures Code(Ascii("IP Address")) == 10073080 && Code(Ascii("Control Port")) == 12067111
    ensures Code(Ascii("Location")) == 8076111 && Code(Ascii("Range (m)")) == 9082097
    ensures Code(Ascii("Lens")) == 4076101 && Code(Ascii("Recording Directory")) == 19082101
    ensures Code(Ascii("RTSP Address")) == 12082084
  {
  }

  lemma SensorCodes()
    ensures Code(Ascii("Sensor")) == 6083101 && Code(Ascii("Sensor Temperature")) == 18083101
    ensures Code(Ascii("Exposure Time")) == 13069120 && Code(Ascii("Gain")) == 4071097
    ensures Code(Ascii("Sensor Temperature State")) == 24083101
  {
  }

  lemma StateCodes()
    ensures Code(Ascii("RTSP")) == 4082084 && Code(Ascii("Raw")) == 3082097
    ensures Code(Ascii("Memory Remaining (GB)")) == 21077101 && Code(Ascii("Disk Size (GB)")) == 14068105
    ensures Code(Ascii("CPU Temperature")) == 15067080 && Code(Ascii("Timestamp")) == 9084105
    ensures Code(Ascii("Hardware")) == 8072097
  {
  }

  predicate ConfigCode(n: nat) {
    n in {4078097, 8072111, 10073080, 12067111, 8076111, 9082097, 4076101, 19082101, 12082084}
  }

  predicate SensorCode(n: nat) { n in {6083101, 18083101, 13069120, 4071097, 24083101} }

  predicate StateCode(n: nat) {
    n in {4082084, 3082097, 21077101, 14068105, 15067080, 9084105, 8072097}
  }

  lemma ConfigAbsent(c: Config, key: CString)
    requires SensorCode(Code(key)) || StateCode(Code(key))
    ensures First(Identity(c), key) == First(Place(c), key) == First(Equipment(c), key) == Absent
  {
    hide Ascii, Code, First, Identity, Place, Equipment;
    ConfigCodes();
    FirstOfIdentity(c, key);
    FirstOfPlace(c, key);
    FirstOfEquipment(c, key);
  }

  lemma SensorAbsent(s: SensorInfo, key: CString)
    requires ConfigCode(Code(key)) || StateCode(Code(key))
    ensures First(Measured(s), key) == First(Condition(s), key) == Absent
  {
    hide Ascii, Code, First, Measured, Condition;
    SensorCodes();
    FirstOfMeasured(s, key);
    FirstOfCondition(s, key);
  }

  lemma StateAbsent(r: Status.Reading, key: CString)
    requires ConfigCode(Code(key)) || SensorCode(Code(key))
    ensures First(Activity(r), key) == First(Host(r), key) == Absent && key != Ascii("Hardware")
  {
    hide Ascii, Code, First, Activity, Host;
    StateCodes();
    FirstOfActivity(r, key);
    FirstOfHost(r, key);
  }

  lemma ConfigFound(c: Config, r: Status.Reading, hardware: Member, key: CString)
    requires hardware.key == Ascii("Hardware") && ConfigCode(Code(key))
    ensures First(Scalars(c, r) + [hardware], key)
      == if c.name != null && Ascii("Name") == key then Found(String(c.name.s))
         else if c.hostname != null && Ascii("Hostname") == key then Found(String(c.hostname.s))
         else if c.controlIP != null && Ascii("IP Address") == key then Found(String(c.controlIP.s))
         else if Ascii("Control Port") == key then Found(Number(c.controlPort as real))
         else if c.location != null && Ascii("Location") == key then Found(String(c.location.s))
         else if Ascii("Range (m)") == key then Found(Number(c.range as real))
         else if c.lens != null && Ascii("Lens") == key then Found(String(c.lens.s))
         else if c.rawStorage != null && Ascii("Recording Directory") == key then Found(String(c.rawStorage.s))
         else if c.rtspAddress != null && Ascii("RTSP Address") == key then Found(String(c.rtspAddress.s))
         else Absent
  {
    hide Ascii, Code, First, Identity, Place, Equipment, Measured, Condition, Activity, Host, Scalars, ConfigCode;
    FirstOfPacket(c, r, hardware, key);
    SensorAbsent(r.sensor, key);
    StateAbsent(r, key);
    FirstOfIdentity(c, key);
    FirstOfPlace(c, key);
    FirstOfEquipment(c, key);
  }

  lemma SensorFound(c: Config, r: Status.Reading, hardware: Member, key: CString)
    requires hardware.key == Ascii("Hardware") && SensorCode(Code(key))
    ensures First(Scalars(c, r) + [hardware], key)
      == Or(First(Measured(r.sensor), key), First(Condition(r.sensor), key))
  {
    hide Ascii, Code, First, Identity, Place, Equipment, Measured, Condition, Activity, Host, Scalars, SensorCode;
    FirstOfPacket(c, r, hardware, key);
    ConfigAbsent(c, key);
    StateAbsent(r, key);
  }

  lemma StateFound(c: Config, r: Status.Reading, hardware: Member, key: CString)
    requires hardware.key == Ascii("Hardware") && StateCode(Code(key))
    ensures First(Scalars(c, r) + [hardware], key)
      == Or(First(Activity(r), key),
          Or(First(Host(r), key), if hardware.key == key then Found(hardware.value) else Absent))
  {
    hide Ascii, Code, First, Identity, Place, Equipment, Measured, Condition, Activity, Host, Scalars, StateCode;
    FirstOfPacket(c, r, hardware, key);
    ConfigAbsent(c, key);
    SensorAbsent(r.sensor, key);
  }

  lemma ConfigShown(c: Config, r: Status.Reading, hardware: Member)
    requires hardware.key == Ascii("Hardware")
    ensures ShowsConfig(Object(Scalars(c, r) + [hardware]), c)
  {
    hide Ascii, Code, First, Scalars;
    ConfigCodes();
    ConfigFound(c, r, hardware, Ascii("Name"));
    ConfigFound(c, r, hardware, Ascii("Hostname"));
    ConfigFound(c, r, hardware, Ascii("IP Address"));
    ConfigFound(c, r, hardware, Ascii("Control Port"));
    ConfigFound(c, r, hardware, Ascii("Location"));
    ConfigFound(c, r, hardware, Ascii("Range (m)"));
    ConfigFound(c, r, hardware, Ascii("Lens"));
    ConfigFound(c, r, hardware, Ascii("Recording Directory"));
    ConfigFound(c, r, hardware, Ascii("RTSP Address"));
  }

  lemma SensorShown(c: Config, r: Status.Reading, hardware: Member)
    requires hardware.key == Ascii("Hardware")
    ensures ShowsSensor(Object(Scalars(c, r) + [hardware]), r.sensor)
  {
    hide Ascii, Code, First, Scalars, Measured, Condition;
    SensorCodes();
    SensorFound(c, r, hardware, Ascii("Sensor"));
    FirstOfMeasured(r.sensor, Ascii("Sensor"));
    FirstOfCondition(r.sensor, Ascii("Sensor"));
    SensorFound(c, r, hardware, Ascii("Sensor Temperature"));
    FirstOfMeasured(r.sensor, Ascii("Sensor Temperature"));
    FirstOfCondition(r.sensor, Ascii("Sensor Temperature"));
    SensorFound(c, r, hardware, Ascii("Exposure Time"));
    FirstOfMeasured(r.sensor, Ascii("Exposure Time"));
    FirstOfCondition(r.sensor, Ascii("Exposure Time"));
    SensorFound(c, r, hardware, Ascii("Gain"));
    FirstOfMeasured(r.sensor, Ascii("Gain"));
    FirstOfCondition(r.sensor, Ascii("Gain"));
    SensorFound(c, r, hardware, Ascii("Sensor Temperature State"));
    FirstOfMeasured(r.sensor, Ascii("Sensor Temperature State"));
    FirstOfCondition(r.sensor, Ascii("Sensor Temperature State"));
  }

  lemma StateShown(c: Config, r: Status.Reading, hardware: Member)
    requires hardware.key == Ascii("Hardware")
    ensures ShowsState(Object(Scalars(c, r) + [hardware]), r)
    ensures First(Scalars(c, r) + [hardware], Ascii("Hardware")) == Found(hardware.value)
  {
    hide Ascii, Code, First, Scalars, Activity, Host;
    StateCodes();
    StateFound(c, r, hardware, Ascii("RTSP"));
    FirstOfActivity(r, Ascii("RTSP"));
    FirstOfHost(r, Ascii("RTSP"));
    StateFound(c, r, hardware, Ascii("Raw"));
    FirstOfActivity(r, Ascii("Raw"));
    FirstOfHost(r, Ascii("Raw"));
    StateFound(c, r, hardware, Ascii("Memory Remaining (GB)"));
    FirstOfActivity(r, Ascii("Memory Remaining (GB)"));
    FirstOfHost(r, Ascii("Memory Remaining (GB)"));
    StateFound(c, r, hardware, Ascii("Disk Size (GB)"));
    FirstOfActivity(r, Ascii("Disk Size (GB)"));
    FirstOfHost(r, Ascii("Disk Size (GB)"));
    StateFound(c, r, hardware, Ascii("CPU Temperature"));
    FirstOfActivity(r, Ascii("CPU Temperature"));
    FirstOfHost(r, Ascii("CPU Temperature"));
    StateFound(c, r, hardware, Ascii("Timestamp"));
    FirstOfActivity(r, Ascii("Timestamp"));
    FirstOfHost(r, Ascii("Timestamp"));
    StateFound(c, r, hardware, Ascii("Hardware"));
    FirstOfActivity(r, Ascii("Hardware"));
    FirstOfHost(r, Ascii("Hardware"));
  }

  /** One entry of the hardware list. */
  lemma ScriptShown(s: Script)
    ensures ShowsScript(Object(ScriptMembers(s)), s)
  {
    hide Ascii, Code, First, TextMember, NumberMember;
    ConfigCodes();
    ScriptLookedUp(s, Ascii("Name"));
    ScriptLookedUp(s, Ascii("Control Port"));
    ScriptLookedUp(s, Ascii("Capabilities"));
    assert Code(Ascii("Capabilities")) == 1206_7097 by { CapabilitiesCode(); }
  }

  lemma CapabilitiesCode()
    ensures Code(Ascii("Capabilities")) == 1206_7097
  {
  }

  lemma ScriptLookedUp(s: Script, key: CString)
    ensures First(ScriptMembers(s), key)
      == if s.name != null && Ascii("Name") == key then Found(String(s.name.s))
         else if Ascii("Control Port") == key then Found(Number(s.port as real))
         else if s.capabilities != null && Ascii("Capabilities") == key then Found(s.capabilities.val)
         else Absent
  {
    hide Ascii, TextMember, NumberMember;
    var last := if s.capabilities == null then [] else [Member(Ascii("Capabilities"), s.capabilities.val)];
    FirstOfText(Ascii("Name"), s.name, key);
    FirstOfNumber(Ascii("Control Port"), s.port as real, key);
    FirstOfThree(TextMember(Ascii("Name"), s.name), NumberMember(Ascii("Control Port"), s.port as real), last, key);
  }

  lemma ScriptsShown(c: Config, r: Status.Reading, scripts: seq<Script>)
    ensures ShowsScripts(Packet(c, r, scripts), scripts)
  {
    hide Ascii, First, Scalars, ScriptMembers, ShowsScript;
    StateShown(c, r, Member(Ascii("Hardware"), Array(ScriptItems(scripts))));
    forall i | 0 <= i < |scripts|
      ensures ShowsScript(ScriptItems(scripts)[i], scripts[i])
    {
      ScriptShown(scripts[i]);
      assert scripts[i] in scripts;
    }
  }

  /**
   * A receiver that parses the packet and looks each name up finds the configuration, the sensor, the
   * state and the hardware scripts, each value under its own name.
   */
  lemma ReceiverFinds(c: Config, r: Status.Reading, scripts: seq<Script>)
    requires Printable(Packet(c, r, scripts)) && Height(Packet(c, r, scripts)) <= 1000
    ensures var d := ParseDocument(Buffer(Render(Packet(c, r, scripts), false, 0)), false);
      d.Parsed? && Shows(d.value, c, r, scripts)
  {
    hide Render, Printable, Scalars, Height, ParseDocument, ShowsConfig, ShowsSensor, ShowsState, ShowsScripts, Ascii;
    ParseUndoesPrint(Packet(c, r, scripts), false, 0, false);
    var hardware := Member(Ascii("Hardware"), Array(ScriptItems(scripts)));
    ConfigShown(c, r, hardware);
    SensorShown(c, r, hardware);
    StateShown(c, r, hardware);
    ScriptsShown(c, r, scripts);
  }

  /** The members of a packet without a sensor, in a row: the temperature twice, and no gain. */
  predicate Placeholders(ms: seq<Member>) {
    && |ms| == 5 && ms[0] == Member(Ascii("Sensor"), String(Ascii("Pipeline Inactive")))
    && ms[1] == Member(Ascii("Sensor Temperature"), Number(0.0)) && ms[2] == ms[1]
    && ms[3] == Member(Ascii("Exposure Time"), Number(0.0))
    && ms[4] == Member(Ascii("Sensor Temperature State"), String(Ascii("OK")))
  }

  lemma InactiveMembers(c: Config, r: Status.Reading, scripts: seq<Script>) returns (k: nat)
    requires r.sensor.NoSensor?
    ensures k + 5 <= |Packet(c, r, scripts).members| && Placeholders(Packet(c, r, scripts).members[k..k + 5])
  {
    hide Ascii, Identity, Place, Equipment, Activity, Host, ScriptItems;
    var before := Identity(c) + Place(c) + Equipment(c);
    var five := Measured(r.sensor) + Condition(r.sensor);
    var after := Activity(r) + Host(r) + [Member(Ascii("Hardware"), Array(ScriptItems(scripts)))];
    assert Packet(c, r, scripts).members == before + five + after;
    k := |before|;
    assert (before + five + after)[k..k + 5] == five;
  }
}
