/** The status packet: a tree that borrows subtrees of the configuration, is printed, and is deleted again. */
module Status {
  import opened Bytes
  import opened JsonValue
  import opened Rendering
  import opened Tree
  import opened Ownership
  import opened Building
  import Printer

  const TEMPERATURE_OK: int := 0
  const TEMPERATURE_CRITICAL: int := 1
  const TEMPERATURE_ERROR: int := 2

  /** What does not change between packets. */
  datatype Config = Config(
    name: Text?, hostname: Text?, controlIP: Text?, controlPort: int, location: Text?, range: int, lens: Text?,
    rawStorage: Text?, rtspAddress: Text?)

  datatype SensorInfo =
    | NoSensor
    | SensorInfo(name: Text?, temperature: real, exposureTime: real, gain: real, temperatureState: int)

  datatype Reading = Reading(
    sensor: SensorInfo, streaming: bool, raw: bool, memoryRemaining: int, diskSize: int, cpuTemperature: int,
    timestamp: int)

  /** A hardware script; its capabilities point into the tree of the configuration. */
  datatype Script = Script(name: Text?, port: int, capabilities: Node?)

  // The packet.

  function TextMember(key: CString, t: Text?): seq<Member> {
    if t == null then [] else [Member(key, String(t.s))]
  }

  function NumberMember(key: CString, n: real): seq<Member> { [Member(key, Number(n))] }

  function Identity(c: Config): seq<Member> {
    TextMember(Ascii("Name"), c.name) + TextMember(Ascii("Hostname"), c.hostname)
    + TextMember(Ascii("IP Address"), c.controlIP)
  }

  function Place(c: Config): seq<Member> {
    NumberMember(Ascii("Control Port"), c.controlPort as real) + TextMember(Ascii("Location"), c.location)
    + NumberMember(Ascii("Range (m)"), c.range as real)
  }

  function Equipment(c: Config): seq<Member> {
    TextMember(Ascii("Lens"), c.lens) + TextMember(Ascii("Recording Directory"), c.rawStorage)
    + TextMember(Ascii("RTSP Address"), c.rtspAddress)
  }

  function StateText(state: int): CString {
    if state == TEMPERATURE_OK then Ascii("OK")
    else if state == TEMPERATURE_CRITICAL then Ascii("CRITICAL")
    else if state == TEMPERATURE_ERROR then Ascii("ERROR")
    else Ascii("BAD VALUE")
  }

  /** Without a sensor the temperature stands twice, */
  function Measured(s: SensorInfo): seq<Member> {
    match s
    case SensorInfo(name, temperature, exposureTime, _, _) =>
      TextMember(Ascii("Sensor"), name) + NumberMember(Ascii("Sensor Temperature"), temperature)
      + NumberMember(Ascii("Exposure Time"), exposureTime)
    case NoSensor =>
      [Member(Ascii("Sensor"), String(Ascii("Pipeline Inactive")))]
      + NumberMember(Ascii("Sensor Temperature"), 0.0) + NumberMember(Ascii("Sensor Temperature"), 0.0)
  }

  /** and the gain is missing. */
  function Condition(s: SensorInfo): seq<Member> {
    match s
    case SensorInfo(_, _, _, gain, state) =>
      NumberMember(Ascii("Gain"), gain) + [Member(Ascii("Sensor Temperature State"), String(StateText(state)))]
    case NoSensor =>
      NumberMember(Ascii("Exposure Time"), 0.0) + [Member(Ascii("Sensor Temperature State"), String(Ascii("OK")))]
  }

  function Activity(r: Reading): seq<Member> {
    [Member(Ascii("RTSP"), Bool(r.streaming)), Member(Ascii("Raw"), Bool(r.raw))]
    + NumberMember(Ascii("Memory Remaining (GB)"), r.memoryRemaining as real)
  }

  function Host(r: Reading): seq<Member> {
    NumberMember(Ascii("Disk Size (GB)"), r.diskSize as real)
    + NumberMember(Ascii("CPU Temperature"), r.cpuTemperature as real)
    + NumberMember(Ascii("Timestamp"), r.timestamp as real)
  }

  function Scalars(c: Config, r: Reading): seq<Member> {
    Identity(c) + Place(c) + Equipment(c) + Measured(r.sensor) + Condition(r.sensor) + Activity(r) + Host(r)
  }

  /** One entry of the hardware list, with the capabilities as the configuration has them. */
  ghost function ScriptMembers(s: Script): seq<Member>
    reads if s.capabilities == null then {} else {s.capabilities}
  {
    TextMember(Ascii("Name"), s.name) + NumberMember(Ascii("Control Port"), s.port as real)
    + (if s.capabilities == null then [] else [Member(Ascii("Capabilities"), s.capabilities.val)])
  }

  ghost function Capabilities(scripts: seq<Script>): set<Node> {
    set s | s in scripts && s.capabilities != null :: s.capabilities
  }

  /** Every node that a packet may reach without owning it. */
  ghost function Borrowed(scripts: seq<Script>): set<Node>
    reads Capabilities(scripts)
  {
    set n, o | n in Capabilities(scripts) && o in {n} + n.below :: o
  }

  ghost predicate CapabilitiesValid(scripts: seq<Script>)
    reads Capabilities(scripts), Borrowed(scripts)
  {
    forall n <- Capabilities(scripts) :: n in Borrowed(scripts) && n.below <= Borrowed(scripts) && n.Valid()
  }

  ghost function ScriptItems(scripts: seq<Script>): (items: seq<Json>)
    reads Capabilities(scripts)
    ensures |items| == |scripts|
  {
    seq(|scripts|, i requires 0 <= i < |scripts| reads Capabilities(scripts) => 
      (assert scripts[i] in scripts; Object(ScriptMembers(scripts[i]))))
  }

  ghost function Packet(c: Config, r: Reading, scripts: seq<Script>): Json
    reads Capabilities(scripts)
  {
    Object(Scalars(c, r) + [Member(Ascii("Hardware"), Array(ScriptItems(scripts)))])
  }

  // The code.

  method AddIdentity(heap: Heap, root: Node, c: Config)
    requires Open(heap, root)
    modifies heap, root.own
    ensures Open(heap, root) && root.val == Object(old(root.val).members + Identity(c))
    ensures fresh(root.below - old(root.below))
    ensures old(root.own) <= root.own && fresh(root.own - old(root.own))
    ensures heap.live == old(heap.live) + (root.own - old(root.own))
  {
    hide Node.Valid, Ascii;
    AddString(heap, root, Ascii("Name"), c.name);
    AddString(heap, root, Ascii("Hostname"), c.hostname);
    AddString(heap, root, Ascii("IP Address"), c.controlIP);
  }

  method AddPlace(heap: Heap, root: Node, c: Config)
    requires Open(heap, root)
    modifies heap, root.own
    ensures Open(heap, root) && root.val == Object(old(root.val).members + Place(c))
    ensures fresh(root.below - old(root.below))
    ensures old(root.own) <= root.own && fresh(root.own - old(root.own))
    ensures heap.live == old(heap.live) + (root.own - old(root.own))
  {
    hide Node.Valid, Ascii;
    AddNumber(heap, root, Ascii("Control Port"), c.controlPort as real);
    AddString(heap, root, Ascii("Location"), c.location);
    AddNumber(heap, root, Ascii("Range (m)"), c.range as real);
  }

  method AddEquipment(heap: Heap, root: Node, c: Config)
    requires Open(heap, root)
    modifies heap, root.own
    ensures Open(heap, root) && root.val == Object(old(root.val).members + Equipment(c))
    ensures fresh(root.below - old(root.below))
    ensures old(root.own) <= root.own && fresh(root.own - old(root.own))
    ensures heap.live == old(heap.live) + (root.own - old(root.own))
  {
    hide Node.Valid, Ascii;
    AddString(heap, root, Ascii("Lens"), c.lens);
    AddString(heap, root, Ascii("Recording Directory"), c.rawStorage);
    AddString(heap, root, Ascii("RTSP Address"), c.rtspAddress);
  }

  method AddMeasured(heap: Heap, root: Node, s: SensorInfo)
    requires Open(heap, root)
    modifies heap, root.own
    ensures Open(heap, root) && root.val == Object(old(root.val).members + Measured(s))
    ensures fresh(root.below - old(root.below))
    ensures old(root.own) <= root.own && fresh(root.own - old(root.own))
    ensures heap.live == old(heap.live) + (root.own - old(root.own))
  {
    hide Node.Valid, Ascii, Measured;
    if s.SensorInfo? {
      AddReadings(heap, root, s);
    } else {
      AddPlaceholders(heap, root);
    }
  }

  method AddReadings(heap: Heap, root: Node, s: SensorInfo)
    requires Open(heap, root) && s.SensorInfo?
    modifies heap, root.own
    ensures Open(heap, root) && root.val == Object(old(root.val).members + Measured(s))
    ensures fresh(root.below - old(root.below))
    ensures old(root.own) <= root.own && fresh(root.own - old(root.own))
    ensures heap.live == old(heap.live) + (root.own - old(root.own))
  {
    hide Node.Valid, Ascii;
    AddString(heap, root, Ascii("Sensor"), s.name);
    AddNumber(heap, root, Ascii("Sensor Temperature"), s.temperature);
    AddNumber(heap, root, Ascii("Exposure Time"), s.exposureTime);
  }

  method AddPlaceholders(heap: Heap, root: Node)
    requires Open(heap, root)
    modifies heap, root.own
    ensures Open(heap, root) && root.val == Object(old(root.val).members + Measured(NoSensor))
    ensures fresh(root.below - old(root.below))
    ensures old(root.own) <= root.own && fresh(root.own - old(root.own))
    ensures heap.live == old(heap.live) + (root.own - old(root.own))
  {
    hide Node.Valid, Ascii;
    AddText(heap, root, Ascii("Sensor"), Ascii("Pipeline Inactive"));
    AddNumber(heap, root, Ascii("Sensor Temperature"), 0.0);
    AddNumber(heap, root, Ascii("Sensor Temperature"), 0.0);
  }

  method AddCondition(heap: Heap, root: Node, s: SensorInfo)
    requires Open(heap, root)
    modifies heap, root.own
    ensures Open(heap, root) && root.val == Object(old(root.val).members + Condition(s))
    ensures fresh(root.below - old(root.below))
    ensures old(root.own) <= root.own && fresh(root.own - old(root.own))
    ensures heap.live == old(heap.live) + (root.own - old(root.own))
  {
    hide Node.Valid, Ascii, StateText;
    if s.SensorInfo? {
      AddNumber(heap, root, Ascii("Gain"), s.gain);
      var state := TemperatureText(s.temperatureState);
      AddText(heap, root, Ascii("Sensor Temperature State"), state);
    } else {
      AddNumber(heap, root, Ascii("Exposure Time"), 0.0);
      AddText(heap, root, Ascii("Sensor Temperature State"), Ascii("OK"));
    }
  }

  method TemperatureText(state: int) returns (text: CString)
    ensures text == StateText(state)
  {
    if state == TEMPERATURE_OK {
      text := Ascii("OK");
    } else if state == TEMPERATURE_CRITICAL {
      text := Ascii("CRITICAL");
    } else if state == TEMPERATURE_ERROR {
      text := Ascii("ERROR");
    } else {
      text := Ascii("BAD VALUE");
    }
  }

  method AddActivity(heap: Heap, root: Node, r: Reading)
    requires Open(heap, root)
    modifies heap, root.own
    ensures Open(heap, root) && root.val == Object(old(root.val).members + Activity(r))
    ensures fresh(root.below - old(root.below))
    ensures old(root.own) <= root.own && fresh(root.own - old(root.own))
    ensures heap.live == old(heap.live) + (root.own - old(root.own))
  {
    hide Node.Valid, Ascii;
    AddBool(heap, root, Ascii("RTSP"), r.streaming);
    AddBool(heap, root, Ascii("Raw"), r.raw);
    AddNumber(heap, root, Ascii("Memory Remaining (GB)"), r.memoryRemaining as real);
  }

  method AddHost(heap: Heap, root: Node, r: Reading)
    requires Open(heap, root)
    modifies heap, root.own
    ensures Open(heap, root) && root.val == Object(old(root.val).members + Host(r))
    ensures fresh(root.below - old(root.below))
    ensures old(root.own) <= root.own && fresh(root.own - old(root.own))
    ensures heap.live == old(heap.live) + (root.own - old(root.own))
  {
    hide Node.Valid, Ascii;
    AddNumber(heap, root, Ascii("Disk Size (GB)"), r.diskSize as real);
    AddNumber(heap, root, Ascii("CPU Temperature"), r.cpuTemperature as real);
    AddNumber(heap, root, Ascii("Timestamp"), r.timestamp as real);
  }

  method AddSensor(heap: Heap, root: Node, s: SensorInfo)
    requires Open(heap, root)
    modifies heap, root.own
    ensures Open(heap, root) && root.val == Object(old(root.val).members + (Measured(s) + Condition(s)))
    ensures fresh(root.below - old(root.below))
    ensures old(root.own) <= root.own && fresh(root.own - old(root.own))
    ensures heap.live == old(heap.live) + (root.own - old(root.own))
  {
    hide Node.Valid, Measured, Condition;
    AddMeasured(heap, root, s);
    AddCondition(heap, root, s);
  }

  method AddState(heap: Heap, root: Node, r: Reading)
    requires Open(heap, root)
    modifies heap, root.own
    ensures Open(heap, root) && root.val == Object(old(root.val).members + (Activity(r) + Host(r)))
    ensures fresh(root.below - old(root.below))
    ensures old(root.own) <= root.own && fresh(root.own - old(root.own))
    ensures heap.live == old(heap.live) + (root.own - old(root.own))
  {
    hide Node.Valid, Activity, Host;
    AddActivity(heap, root, r);
    AddHost(heap, root, r);
  }

  method AddScalars(heap: Heap, root: Node, c: Config, r: Reading)
    requires Open(heap, root)
    modifies heap, root.own
    ensures Open(heap, root) && root.val == Object(old(root.val).members + Scalars(c, r))
    ensures fresh(root.below - old(root.below))
    ensures old(root.own) <= root.own && fresh(root.own - old(root.own))
    ensures heap.live == old(heap.live) + (root.own - old(root.own))
  {
    hide Node.Valid, Ascii, Identity, Place, Equipment, Measured, Condition, Activity, Host;
    AddConfig(heap, root, c);
    AddSensor(heap, root, r.sensor);
    AddState(heap, root, r);
  }

  method AddConfig(heap: Heap, root: Node, c: Config)
    requires Open(heap, root)
    modifies heap, root.own
    ensures Open(heap, root) && root.val == Object(old(root.val).members + (Identity(c) + Place(c) + Equipment(c)))
    ensures fresh(root.below - old(root.below))
    ensures old(root.own) <= root.own && fresh(root.own - old(root.own))
    ensures heap.live == old(heap.live) + (root.own - old(root.own))
  {
    hide Node.Valid, Ascii, Identity, Place, Equipment;
    AddIdentity(heap, root, c);
    AddPlace(heap, root, c);
    AddEquipment(heap, root, c);
  }

  /** One turn of the loop over the hardware scripts: the entry joins the list before it is filled. */
  method AddScript(heap: Heap, list: Node, s: Script)
    requires list.Valid() && list.kind == ArrayKind && !list.isReference && list.own <= heap.live && list in list.own
      && list.val.Array?
    requires s.capabilities != null ==>
      s.capabilities.Valid() && s.capabilities !in list.own && forall o <- s.capabilities.below :: o !in list.own
    modifies heap, list.own
    ensures list.Valid() && list.own <= heap.live
    ensures list.next == old(list.next) && list.prev == old(list.prev) && list.key == old(list.key)
    ensures list.kind == ArrayKind && !list.isReference && list in list.own
    ensures list.val == Array(old(list.val).items + [old(Object(ScriptMembers(s)))])
    ensures fresh(list.below - old(list.below) - (if s.capabilities == null then {} else old(s.capabilities.below)))
    ensures old(list.own) <= list.own && fresh(list.own - old(list.own))
    ensures heap.live == old(heap.live) + (list.own - old(list.own))
  {
    hide Node.Valid, Ascii, Created, Waiting;
    var hardware := CreateObject(heap);
    NewObject(heap, hardware);
    KidsOwned(list);
    ghost var rest := list.kids;
    Begin(list, hardware);
    FillScript(heap, list, rest, hardware, s);
    End(list, rest, hardware);
  }

  /** Fills the entry while the list waits for it. */
  method FillScript(heap: Heap, ghost list: Node, ghost rest: seq<Node>, hardware: Node, s: Script)
    requires Open(heap, hardware) && hardware.val == Object([]) && hardware.below == {}
    requires Waiting(list, rest, hardware) && list !in hardware.own && forall o <- list.below :: o !in hardware.own
    requires s.capabilities != null ==>
      && s.capabilities.Valid() && s.capabilities !in hardware.own
      && forall o <- s.capabilities.below :: o !in hardware.own
    modifies heap, hardware.own
    ensures Open(heap, hardware) && hardware.val == Object(old(ScriptMembers(s)))
    ensures Waiting(list, rest, hardware)
    ensures fresh(hardware.below - (if s.capabilities == null then {} else old(s.capabilities.below)))
    ensures old(hardware.own) <= hardware.own && fresh(hardware.own - old(hardware.own))
    ensures heap.live == old(heap.live) + (hardware.own - old(hardware.own))
  {
    hide Node.Valid, Node.NestedIn, Node.OwnsWith, Node.MeansWith, ScriptMembers, Distinct;
    NestedRest(list, rest, hardware);
    FillEntry(heap, hardware, s);
    forall k | k in rest
      ensures k.Valid()
    {
      assert old(k.Valid()) && forall o <- old(k.below) :: o !in old(hardware.own);
    }
  }

  lemma NestedRest(parent: Node, rest: seq<Node>, item: Node)
    requires Waiting(parent, rest, item)
    ensures forall k <- rest :: k.below <= parent.below
  {
  }

  method FillEntry(heap: Heap, hardware: Node, s: Script)
    requires Open(heap, hardware) && hardware.val == Object([]) && hardware.below == {}
    requires s.capabilities != null ==>
      && s.capabilities.Valid() && s.capabilities !in hardware.own
      && forall o <- s.capabilities.below :: o !in hardware.own
    modifies heap, hardware.own
    ensures Open(heap, hardware) && hardware.val == Object(old(ScriptMembers(s))) && hardware.prev == old(hardware.prev)
    ensures fresh(hardware.below - (if s.capabilities == null then {} else old(s.capabilities.below)))
    ensures old(hardware.own) <= hardware.own && fresh(hardware.own - old(hardware.own))
    ensures heap.live == old(heap.live) + (hardware.own - old(hardware.own))
  {
    hide Node.Valid, Ascii;
    AddString(heap, hardware, Ascii("Name"), s.name);
    AddNumber(heap, hardware, Ascii("Control Port"), s.port as real);
    AddReference(heap, hardware, Ascii("Capabilities"), s.capabilities);
  }

  /** The list of hardware while it grows: apart from the root that waits for it and from everything borrowed. */
  ghost predicate Growing(heap: Heap, root: Node, rest: seq<Node>, list: Node)
    reads heap, root, list, rest, root.kids, root.below, list.below
  {
    && list.Valid() && list.kind == ArrayKind && !list.isReference && list.own <= heap.live && list in list.own
      && list.val.Array?
    && Waiting(root, rest, list) && root in root.own && list.own !! root.own
    && (forall o <- list.below :: o !in root.own) && (forall o <- root.below :: o !in list.own)
  }

  /** The loop over the hardware scripts. */
  method FillList(heap: Heap, ghost root: Node, ghost rest: seq<Node>, list: Node, scripts: seq<Script>,
      ghost items: seq<Json>)
    requires Growing(heap, root, rest, list) && list.val == Array([])
    requires Lent(scripts, items, list.own + root.own)
    modifies heap, list.own
    ensures Growing(heap, root, rest, list) && list.key == old(list.key) && root.own == old(root.own)
    ensures list.val == Array(items)
    ensures old(list.own) <= list.own && fresh(list.own - old(list.own))
    ensures heap.live == old(heap.live) + (list.own - old(list.own))
  {
    hide Node.Valid, Growing, Lent;
    assert |items| == |scripts| by { LentItems(scripts, items, list.own + root.own); }
    for i := 0 to |scripts|
      invariant Growing(heap, root, rest, list) && list.key == old(list.key) && root.own == old(root.own)
      invariant list.val == Array(items[..i])
      invariant Lent(scripts, items, list.own + root.own)
      invariant old(list.own) <= list.own && fresh(list.own - old(list.own))
      invariant heap.live == old(heap.live) + (list.own - old(list.own))
    {
      FillNext(heap, root, rest, list, scripts, items, i);
    }
  }

  /** The capabilities are well-formed trees outside `own`, and the list of hardware is to be `items`. */
  ghost predicate Lent(scripts: seq<Script>, items: seq<Json>, own: set<object>)
    reads Capabilities(scripts), Borrowed(scripts)
  {
    && CapabilitiesValid(scripts) && ScriptItems(scripts) == items
    && forall o <- Borrowed(scripts) :: o !in own
  }

  lemma LentItems(scripts: seq<Script>, items: seq<Json>, own: set<object>)
    requires Lent(scripts, items, own)
    ensures |items| == |scripts|
    ensures forall o <- Borrowed(scripts) :: o !in own
    ensures Capabilities(scripts) <= Borrowed(scripts) && forall o <- Borrowed(scripts) :: allocated(o)
    ensures forall i :: 0 <= i < |scripts| ==> items[i] == Object(ScriptMembers(scripts[i]))
    ensures forall s <- scripts ::
      s.capabilities != null ==>
        s.capabilities.Valid() && s.capabilities in Borrowed(scripts) && s.capabilities.below <= Borrowed(scripts)
  {
    hide Node.Valid;
    forall s | s in scripts && s.capabilities != null
      ensures s.capabilities in Capabilities(scripts)
    {
    }
  }

  /** Borrowed trees do not notice changes elsewhere. */
  lemma StillLent(scripts: seq<Script>, items: seq<Json>, own: set<object>, more: set<object>)
    requires Lent(scripts, items, own) && (forall o <- Borrowed(scripts) :: o !in more)
    ensures Lent(scripts, items, own + more)
  {
    hide CapabilitiesValid, ScriptItems;
  }

  method FillNext(heap: Heap, ghost root: Node, ghost rest: seq<Node>, list: Node, scripts: seq<Script>,
      ghost items: seq<Json>, i: nat)
    requires Growing(heap, root, rest, list) && i < |scripts|
    requires Lent(scripts, items, list.own + root.own)
    modifies heap, list.own
    ensures Growing(heap, root, rest, list) && list.key == old(list.key) && root.own == old(root.own)
    ensures |items| == |scripts| && old(list.val).Array? && list.val == Array(old(list.val).items + [items[i]])
    ensures Lent(scripts, items, list.own + root.own)
    ensures old(list.own) <= list.own && fresh(list.own - old(list.own))
    ensures heap.live == old(heap.live) + (list.own - old(list.own))
  {
    hide Node.Valid, Growing, Lent, Borrowed, Capabilities, ScriptMembers;
    ghost var own, borrowed := list.own + root.own, Borrowed(scripts);
    LentItems(scripts, items, own);
    assert scripts[i] in scripts;
    assert forall o <- borrowed :: o !in list.own && allocated(o);
    assert forall o <- Capabilities(scripts) :: o !in list.own && allocated(o);
    FillGrowing(heap, root, rest, list, scripts[i]);
    assert Lent(scripts, items, own) && Borrowed(scripts) == borrowed;
    assert forall o <- borrowed :: o !in list.own - old(list.own);
    StillLent(scripts, items, own, list.own - old(list.own));
    assert own + (list.own - old(list.own)) == list.own + root.own;
  }

  /** One turn of the loop, with the root waiting. */
  method FillGrowing(heap: Heap, ghost root: Node, ghost rest: seq<Node>, list: Node, s: Script)
    requires Growing(heap, root, rest, list)
    requires s.capabilities != null ==>
      && s.capabilities.Valid() && s.capabilities !in list.own + root.own
      && forall o <- s.capabilities.below :: o !in list.own + root.own
    modifies heap, list.own
    ensures Growing(heap, root, rest, list) && list.key == old(list.key) && root.own == old(root.own)
    ensures old(list.val).Array? && list.val == Array(old(list.val).items + [old(Object(ScriptMembers(s)))])
    ensures old(list.own) <= list.own && fresh(list.own - old(list.own))
    ensures heap.live == old(heap.live) + (list.own - old(list.own))
  {
    hide Node.Valid, Waiting, ScriptMembers;
    assert root !in list.own && forall o <- root.below :: o !in list.own;
    AddScriptBeside(heap, root, rest, list, s);
  }

  method AddScriptBeside(heap: Heap, ghost root: Node, ghost rest: seq<Node>, list: Node, s: Script)
    requires list.Valid() && list.kind == ArrayKind && !list.isReference && list.own <= heap.live && list in list.own
      && list.val.Array?
    requires s.capabilities != null ==>
      s.capabilities.Valid() && s.capabilities !in list.own && forall o <- s.capabilities.below :: o !in list.own
    requires Waiting(root, rest, list) && root !in list.own && forall o <- root.below :: o !in list.own
    modifies heap, list.own
    ensures Waiting(root, rest, list)
    ensures list.Valid() && list.own <= heap.live && list.key == old(list.key)
    ensures list.kind == ArrayKind && !list.isReference && list in list.own
    ensures list.val == Array(old(list.val).items + [old(Object(ScriptMembers(s)))])
    ensures fresh(list.below - old(list.below) - (if s.capabilities == null then {} else old(s.capabilities.below)))
    ensures old(list.own) <= list.own && fresh(list.own - old(list.own))
    ensures heap.live == old(heap.live) + (list.own - old(list.own))
  {
    hide Node.Valid, Node.NestedIn, Node.OwnsWith, Node.MeansWith, Distinct, ScriptMembers;
    NestedRest(root, rest, list);
    AddScript(heap, list, s);
    forall k | k in rest
      ensures k.Valid()
    {
      assert old(k.Valid()) && forall o <- old(k.below) :: o !in old(list.own);
    }
  }

  /** `cJSON_AddItemToObject` of the empty list, which is to grow while it hangs in the root. */
  method BeginHardware(heap: Heap, root: Node, ghost rest: seq<Node>) returns (list: Node)
    requires Open(heap, root) && root.kids == rest
    modifies heap, root`child, root`kids, root.kids`next, root.kids`prev
    ensures fresh(list) && fresh(list.own) && Growing(heap, root, rest, list)
    ensures list.val == Array([]) && NamedHardware(list)
    ensures heap.live == old(heap.live) + list.own
  {
    hide Node.Valid, Ascii, Created, Waiting;
    list := CreateArray(heap);
    NewArray(list);
    Rename(heap, list, Ascii("Hardware"));
    Begin(root, list);
  }

  method AddHardware(heap: Heap, root: Node, scripts: seq<Script>, ghost items: seq<Json>)
    requires Open(heap, root) && Lent(scripts, items, root.own)
    modifies heap, root.own
    ensures Open(heap, root)
    ensures root.val == WithMember(old(root.val), Ascii("Hardware"), Array(items))
    ensures old(root.own) <= root.own && fresh(root.own - old(root.own))
    ensures heap.live == old(heap.live) + (root.own - old(root.own))
  {
    hide Node.Valid, Ascii, Waiting, Lent, WithMember, Borrowed, Capabilities;
    KidsOwned(root);
    LentItems(scripts, items, root.own);
    ghost var rest, own := root.kids, root.own;
    var list := BeginHardware(heap, root, rest);
    assert Lent(scripts, items, own);
    StillLent(scripts, items, own, list.own);
    assert own + list.own == list.own + root.own;
    FillList(heap, root, rest, list, scripts, items);
    FinishHardware(root, rest, list);
  }

  ghost predicate NamedHardware(list: Node)
    reads list
  {
    list.key != null && list.key.s == Ascii("Hardware")
  }

  ghost method FinishHardware(root: Node, rest: seq<Node>, list: Node)
    requires Waiting(root, rest, list) && list.Valid() && list.own !! root.own
      && forall o <- list.below :: o !in root.own
    requires root in root.own && list.key != null && root.kind == ObjectKind
      && forall i :: 0 <= i < |rest| ==> rest[i] in root.own
    modifies root`below, root`own, root`val
    ensures root.Valid() && root.val.Object? && root.val == WithMember(old(root.val), list.key.s, list.val)
    ensures root.own == old(root.own) + list.own
  {
    hide Node.Valid, Waiting, WithMember;
    End(root, rest, list);
    MemberKind(root);
  }

  lemma NewArray(list: Node)
    requires Created(list, Array([]))
    ensures list.Valid() && list.val == Array([]) && list.kids == [] && list.below == {} && list.next == null
    ensures list.KeyBlock() == {} && !list.isReference && list in list.own
  {
  }

  class StatusBroadcast {
    const config: Config
    const scripts: seq<Script>
    var reading: Reading

    constructor (config: Config, scripts: seq<Script>, reading: Reading)
      ensures this.config == config && this.scripts == scripts && this.reading == reading
    {
      this.config, this.scripts, this.reading := config, scripts, reading;
    }
  }

  /** The tree of `formatStatusBroadcastJSON`. */
  method BuildPacket(heap: Heap, c: Config, r: Reading, scripts: seq<Script>, ghost items: seq<Json>)
    returns (root: Node)
    requires Lent(scripts, items, {})
    modifies heap
    ensures fresh(root) && fresh(root.own) && Open(heap, root) && heap.live == old(heap.live) + root.own
    ensures root.val == Object(Scalars(c, r) + [Member(Ascii("Hardware"), Array(items))])
  {
    hide Node.Valid, Created, Lent, Ascii, Scalars, Borrowed, Capabilities;
    LentItems(scripts, items, {});
    root := CreateObject(heap);
    NewObject(heap, root);
    AddScalars(heap, root, c, r);
    assert Lent(scripts, items, {});
    StillLent(scripts, items, {}, root.own);
    assert {} + root.own == root.own;
    AddHardware(heap, root, scripts, items);
  }

  /**
   * `formatStatusBroadcastJSON`: the compact text of the packet. Afterwards exactly the blocks of
   * before are allocated, and nothing borrowed has changed.
   */
  method FormatStatusBroadcastJSON(heap: Heap, sb: StatusBroadcast) returns (text: array?<byte>)
    requires CapabilitiesValid(sb.scripts) && Printable(Packet(sb.config, sb.reading, sb.scripts))
    modifies heap, sb
    ensures heap.live == old(heap.live)
    ensures var t := Render(old(Packet(sb.config, sb.reading, sb.scripts)), false, 0);
      (text != null <==> |t| + 2 <= INT_MAX) && (text != null ==> fresh(text) && text[..] == t + [NUL])
    ensures sb.reading == old(sb.reading).(sensor := NoSensor)
    ensures CapabilitiesValid(sb.scripts) && ScriptItems(sb.scripts) == old(ScriptItems(sb.scripts))
  {
    hide Node.Valid, Node.Shaped, Render, Printable, Scalars, Ascii, Lent, Borrowed, Capabilities, CapabilitiesValid;
    hide ScriptItems;
    ghost var items := ScriptItems(sb.scripts);
    LentIff(sb.scripts, items);
    LentItems(sb.scripts, items, {});
    var root := BuildPacket(heap, sb.config, sb.reading, sb.scripts, items);
    text := Printer.Print(root, false);
    DeletePacket(heap, root);
    sb.reading := sb.reading.(sensor := NoSensor);
    assert Lent(sb.scripts, items, {});
    LentIff(sb.scripts, items);
  }

  /** Deletes the tree of a packet, whatever it borrows. */
  method DeletePacket(heap: Heap, root: Node)
    requires Open(heap, root)
    modifies heap
    ensures heap.live == old(heap.live) - root.own
  {
    hide Node.Valid, Node.Shaped;
    ValidIsShaped(root);
    OwnSingle(root);
    Delete(heap, root, [root]);
  }

  /**
   * The same round for every reading, fractional ones included: printing only reads the tree, so what
   * becomes of blocks and of borrowed trees does not depend on it.
   */
  method BuildAndDelete(heap: Heap, sb: StatusBroadcast)
    requires CapabilitiesValid(sb.scripts)
    modifies heap, sb
    ensures heap.live == old(heap.live)
    ensures sb.reading == old(sb.reading).(sensor := NoSensor)
    ensures CapabilitiesValid(sb.scripts) && ScriptItems(sb.scripts) == old(ScriptItems(sb.scripts))
  {
    hide Node.Valid, Node.Shaped, Scalars, Ascii, Lent, Borrowed, Capabilities, CapabilitiesValid, ScriptItems;
    ghost var items := ScriptItems(sb.scripts);
    LentIff(sb.scripts, items);
    LentItems(sb.scripts, items, {});
    var root := BuildPacket(heap, sb.config, sb.reading, sb.scripts, items);
    DeletePacket(heap, root);
    sb.reading := sb.reading.(sensor := NoSensor);
    assert Lent(sb.scripts, items, {});
    LentIff(sb.scripts, items);
  }

  lemma LentIff(scripts: seq<Script>, items: seq<Json>)
    ensures Lent(scripts, items, {}) <==> CapabilitiesValid(scripts) && ScriptItems(scripts) == items
  {
  }

  /**
   * `status_broadcaster`, once for each reading: every packet carries the capabilities as they were at
   * the beginning.
   */
  method Broadcasts(heap: Heap, sb: StatusBroadcast, readings: seq<Reading>) returns (packets: seq<seq<byte>>)
    requires CapabilitiesValid(sb.scripts)
    requires forall r <- readings ::
      Printable(Packet(sb.config, r, sb.scripts)) && |Render(Packet(sb.config, r, sb.scripts), false, 0)| + 2 <= INT_MAX
    modifies heap, sb
    ensures heap.live == old(heap.live)
    ensures |packets| == |readings|
    ensures forall i :: 0 <= i < |packets| ==>
      packets[i] == Render(old(Packet(sb.config, readings[i], sb.scripts)), false, 0)
    ensures CapabilitiesValid(sb.scripts) && ScriptItems(sb.scripts) == old(ScriptItems(sb.scripts))
  {
    hide Render, Printable, Scalars, Ascii, Lent, Borrowed, Capabilities, CapabilitiesValid, ScriptItems;
    ghost var items := ScriptItems(sb.scripts);
    LentIff(sb.scripts, items);
    packets := [];
    for i := 0 to |readings|
      invariant heap.live == old(heap.live) && |packets| == i
      invariant CapabilitiesValid(sb.scripts) && ScriptItems(sb.scripts) == items
      invariant forall k :: 0 <= k < i ==>
        packets[k] == Render(old(Packet(sb.config, readings[k], sb.scripts)), false, 0)
    {
      assert readings[i] in readings;
      LentIff(sb.scripts, items);
      LentItems(sb.scripts, items, {});
      sb.reading := readings[i];
      assert Lent(sb.scripts, items, {});
      LentIff(sb.scripts, items);
      assert Packet(sb.config, sb.reading, sb.scripts) == old(Packet(sb.config, readings[i], sb.scripts));
      var text := FormatStatusBroadcastJSON(heap, sb);
      packets := packets + [text[..text.Length - 1]];
    }
  }
}
