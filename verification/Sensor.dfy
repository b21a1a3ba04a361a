/** sensor.json: saving the sensor's setup through the JSON engine and loading it again. */
module Sensor {
  import opened Bytes
  import opened JsonValue
  import opened Rendering
  import opened ParseSpec
  import opened Tree
  import opened Ownership
  import opened Building
  import opened SetupFile
  import ListBuilder
  import Parser
  import Printer

  function FieldOf(t: Text?): Field { if t == null then Missing else Given(t.s) }

  class SetupInfo {
    var name: Text?
    var serialNumber: Text?
    var capsType: Text?
    var colorFilter: Text?
    var isColor: bool
    var width: int
    var height: int
    var gainAuto: int
    var gain: real
    var exposureAuto: int
    var exposureTime: real
    var fullCaps: Text?

    /** A struct of zeros. */
    constructor ()
      ensures Contents() == EMPTY
    {
      name, serialNumber, capsType, colorFilter, fullCaps := null, null, null, null, null;
      isColor, width, height := false, 0, 0;
      gainAuto, gain, exposureAuto, exposureTime := 0, 0.0, 0, 0.0;
    }

    function Contents(): Setup
      reads this
    {
      Setup(FieldOf(name), FieldOf(serialNumber), FieldOf(capsType), FieldOf(colorFilter), isColor, width, height,
            gainAuto, gain, exposureAuto, exposureTime, FieldOf(fullCaps))
    }

    /** One turn of the loop of `loadSensorSetupInfo`. */
    method LoadNode(heap: Heap, ob: Node, nvmm: int) returns (useNvmm: int)
      requires ob.Valid() && ob.key != null && Loadable(Member(ob.key.s, ob.val)) && ListBuilder.TrueIsOne(ob)
      modifies heap, this
      ensures Loading(Contents(), useNvmm) == LoadMember(Loading(old(Contents()), nvmm), Member(ob.key.s, ob.val))
      ensures old(heap.live) <= heap.live
    {
      hide Node.Valid, TextKey, NumberKey, LoadText, LoadNumber;
      var key := ob.key.s;
      TextOrNumber(key);
      useNvmm := nvmm;
      if TextKey(key) {
        StringNode(ob);
        LoadTextNode(heap, key, ob.valuestring);
      } else if NumberKey(key) {
        NumberNode(ob);
        LoadNumberNode(key, ob.valueint);
      } else if key == Ascii("NVMM") {
        NvmmNode(ob);
        useNvmm := ob.valueint;
      }
    }

    /** The members that are strings. */
    method LoadTextNode(heap: Heap, key: CString, value: Text)
      requires TextKey(key)
      modifies heap, this
      ensures Contents() == LoadText(old(Contents()), key, value.s)
      ensures old(heap.live) <= heap.live
    {
      hide Ascii, AutoOf, TextKey, IsBayer;
      if key == Ascii("Model") {
        name := heap.NewText(value.s);
      } else if key == Ascii("Serial Number") {
        serialNumber := heap.NewText(value.s);
      } else if key == Ascii("Caps Type") {
        LoadCapsType(heap, value);
      } else if key == Ascii("Color Filter") {
        colorFilter := heap.NewText(value.s);
      } else {
        LoadAuto(key, value);
      }
    }

    method LoadCapsType(heap: Heap, value: Text)
      modifies heap, this`capsType, this`isColor
      ensures Contents() == old(Contents()).(capsType := Given(value.s), isColor := IsBayer(value.s))
      ensures old(heap.live) <= heap.live
    {
      hide Ascii;
      capsType := heap.NewText(value.s);
      if capsType.s != Ascii("video/x-bayer") {
        isColor := false;
      } else {
        isColor := true;
      }
    }

    method LoadAuto(key: CString, value: Text)
      modifies this`exposureAuto, this`gainAuto
      ensures Contents() == if key == Ascii("Auto Exposure") then old(Contents()).(exposureAuto := AutoOf(value.s))
                            else old(Contents()).(gainAuto := AutoOf(value.s))
    {
      hide Ascii, AutoOf;
      if key == Ascii("Auto Exposure") {
        exposureAuto := ReadAuto(value.s);
      } else {
        gainAuto := ReadAuto(value.s);
      }
    }

    /** The members that are numbers. */
    method LoadNumberNode(key: CString, value: int)
      requires NumberKey(key)
      modifies this
      ensures Contents() == LoadNumber(old(Contents()), key, value)
    {
      hide Ascii, NumberKey;
      if key == Ascii("Width") {
        width := value;
      } else if key == Ascii("Height") {
        height := value;
      } else if key == Ascii("Exposure Time") {
        exposureTime := value as real;
      } else {
        gain := value as real;
      }
    }

    /** The checks and the caps string at the end of `loadSensorSetupInfo`. */
    method Complete(heap: Heap, useNvmm: int) returns (ok: bool)
      modifies heap, this
      ensures ok <==> Finish(Loading(old(Contents()), useNvmm)).Success?
      ensures ok ==> Finish(Loading(old(Contents()), useNvmm)) == Success(Contents())
    {
      hide Ascii, IntText;
      if name == null || serialNumber == null || capsType == null || colorFilter == null || width == 0 || height == 0 {
        return false;
      }
      var nvmm := if useNvmm != 0 then Ascii("(memory:NVMM)") else [];
      var caps := capsType.s + nvmm + Ascii(",format=") + colorFilter.s + Ascii(",width=") + IntText(width)
        + Ascii(",height=") + IntText(height) + Ascii(",framerate=") + IntText(FRAMERATE) + Ascii("/1");
      if |caps| == 0 || |caps| >= CAPS_SIZE {
        return false;
      }
      fullCaps := heap.NewText(caps);
      return true;
    }
  }

  method ReadAuto(text: CString) returns (auto: int)
    ensures auto == AutoOf(text)
  {
    if text == Ascii("AUTO_OFF") {
      auto := AUTO_OFF;
    } else if text == Ascii("AUTO_ONCE") {
      auto := AUTO_ONCE;
    } else if text == Ascii("AUTO_CONTINUOUS") {
      auto := AUTO_CONTINUOUS;
    } else {
      auto := AUTO_OFF;
    }
  }

  lemma TextOrNumber(key: CString)
    ensures TextKey(key) ==> !NumberKey(key) && key != Ascii("NVMM")
    ensures NumberKey(key) ==> key != Ascii("NVMM")
  {
    if TextKey(key) {
      TextIsNoNumber(key);
    }
  }

  lemma StringNode(ob: Node)
    requires ob.Valid() && ob.val.String?
    ensures ob.valuestring != null && ob.valuestring.s == ob.val.s
  {
  }

  lemma NumberNode(ob: Node)
    requires ob.Valid() && ob.val.Number?
    ensures ob.valueint == IntOf(ob.val.value)
  {
  }

  lemma NvmmNode(ob: Node)
    requires ob.Valid() && (ob.val.Bool? || ob.val.Number?) && ListBuilder.TrueIsOne(ob)
    ensures ob.valueint == if ob.val.Number? then IntOf(ob.val.value) else if ob.val.b then 1 else 0
  {
  }

  lemma MemberNode(item: Node, i: nat)
    requires item.Valid() && item.val.Object? && i < |item.kids|
    ensures item.kids[i].Valid() && item.kids[i].key != null
    ensures |item.val.members| == |item.kids| && item.val.members[i] == Member(item.kids[i].key.s, item.kids[i].val)
    ensures item.kids[i].next == if i + 1 < |item.kids| then item.kids[i + 1] else null
  {
    assert item.kids[i] in item.kids;
    if i + 1 < |item.kids| {
      assert item.kids[i].next == item.kids[i + 1];
    }
  }

  lemma FirstMember(item: Node)
    requires item.Valid() && item.val.Object?
    ensures item.child == (if item.kids == [] then null else item.kids[0]) && |item.val.members| == |item.kids|
    ensures item in item.own
  {
  }

  /** `loadSensorSetupInfo` on a file that holds the text and parses to an object of the expected kinds. */
  method LoadSensorSetupInfo(heap: Heap, file: CString, uninitialised: int) returns (info: SetupInfo?)
    requires Readable(file)
    modifies heap
    ensures if info == null then FromFile(file, uninitialised) == Failure
            else FromFile(file, uninitialised) == Success(info.Contents())
    ensures info != null <==> Sufficient(MembersOf(file), uninitialised)
    ensures info != null ==> Loaded(info.Contents(), MembersOf(file), uninitialised)
  {
    hide Node.Valid, ParseDocument, Loadable, LoadMember, Finish, Sufficient, Loaded;
    LoadReads(MembersOf(file), uninitialised);
    var json, end := Parser.Parse(heap, file);
    FirstMember(json);
    ghost var members := json.val.members;
    info := new SetupInfo();
    var useNvmm := uninitialised;
    var ob := json.child;
    ghost var i := 0;
    while ob != null
      invariant json.Valid() && 0 <= i <= |members| && json.val == Object(members) && |json.kids| == |members|
      invariant ob == if i < |members| then json.kids[i] else null
      invariant LoadMembers(Loading(info.Contents(), useNvmm), members[i..])
        == LoadMembers(Loading(EMPTY, uninitialised), members)
      invariant json in heap.live && fresh(info) && ListBuilder.TruesAreOne(json)
      decreases |members| - i
    {
      MemberNode(json, i);
      assert members[i] in members;
      useNvmm := info.LoadNode(heap, ob, useNvmm);
      assert members[i..][0] == members[i] && members[i..][1..] == members[i + 1..];
      ob := ob.next;
      i := i + 1;
    }
    heap.Free(json);
    var ok := info.Complete(heap, useNvmm);
    if !ok {
      info := null;
    }
  }

  /** The steps of `sensorSetupInfoCJSON`: the names, */
  method AddNames(heap: Heap, root: Node, info: SetupInfo)
    requires Open(heap, root) && info !in root.own
    modifies heap, root.own
    ensures Open(heap, root) && root.val == Object(old(root.val).members + Names(info.Contents()))
    ensures old(root.own) <= root.own && fresh(root.own - old(root.own))
    ensures heap.live == old(heap.live) + (root.own - old(root.own))
  {
    hide Node.Valid, Ascii;
    AddString(heap, root, Ascii("Model"), info.name);
    AddString(heap, root, Ascii("Serial Number"), info.serialNumber);
  }

  /** the dimensions, */
  method AddSizes(heap: Heap, root: Node, info: SetupInfo)
    requires Open(heap, root) && info !in root.own
    modifies heap, root.own
    ensures Open(heap, root) && root.val == Object(old(root.val).members + Sizes(info.Contents()))
    ensures old(root.own) <= root.own && fresh(root.own - old(root.own))
    ensures heap.live == old(heap.live) + (root.own - old(root.own))
  {
    hide Node.Valid, Ascii;
    AddNumber(heap, root, Ascii("Width"), info.width as real);
    AddNumber(heap, root, Ascii("Height"), info.height as real);
  }

  /** the formats, */
  method AddFormats(heap: Heap, root: Node, info: SetupInfo)
    requires Open(heap, root) && info !in root.own
    modifies heap, root.own
    ensures Open(heap, root) && root.val == Object(old(root.val).members + Formats(info.Contents()))
    ensures old(root.own) <= root.own && fresh(root.own - old(root.own))
    ensures heap.live == old(heap.live) + (root.own - old(root.own))
  {
    hide Node.Valid, Ascii;
    AddString(heap, root, Ascii("Caps Type"), info.capsType);
    AddString(heap, root, Ascii("Color Filter"), info.colorFilter);
  }

  /** exposure and gain as ints, */
  method AddExposureAndGain(heap: Heap, root: Node, info: SetupInfo)
    requires Open(heap, root) && info !in root.own
    modifies heap, root.own
    ensures Open(heap, root) && root.val == Object(old(root.val).members + Controls(info.Contents())[..2])
    ensures old(root.own) <= root.own && fresh(root.own - old(root.own))
    ensures heap.live == old(heap.live) + (root.own - old(root.own))
  {
    hide Node.Valid, Ascii, AutoText;
    AddNumber(heap, root, Ascii("Exposure Time"), Truncate(info.exposureTime) as real);
    AddNumber(heap, root, Ascii("Gain"), Truncate(info.gain) as real);
  }

  method AutoSetting(auto: int) returns (setting: CString)
    ensures setting == AutoText(auto)
  {
    if auto == AUTO_OFF {
      setting := Ascii("AUTO_OFF");
    } else if auto == AUTO_ONCE {
      setting := Ascii("AUTO_ONCE");
    } else if auto == AUTO_CONTINUOUS {
      setting := Ascii("AUTO_CONTINUOUS");
    } else {
      setting := Ascii("ERROR");
    }
  }

  /** the two automatic settings in a loop, */
  method AddAutos(heap: Heap, root: Node, info: SetupInfo)
    requires Open(heap, root) && info !in root.own
    modifies heap, root.own
    ensures Open(heap, root) && root.val == Object(old(root.val).members + Controls(info.Contents())[2..4])
    ensures old(root.own) <= root.own && fresh(root.own - old(root.own))
    ensures heap.live == old(heap.live) + (root.own - old(root.own))
  {
    hide Node.Valid, Ascii, AutoText, Controls;
    FiveControls(info.Contents());
    var settings := [Ascii("Auto Exposure"), Ascii("Auto Gain")];
    var autos := [info.exposureAuto, info.gainAuto];
    var i := 0;
    while i < 2
      invariant 0 <= i <= 2 && Open(heap, root) && info !in root.own
      invariant root.val == Object(old(root.val).members + Controls(info.Contents())[2..2 + i])
      invariant old(root.own) <= root.own && fresh(root.own - old(root.own))
      invariant heap.live == old(heap.live) + (root.own - old(root.own))
    {
      var setting := AutoSetting(autos[i]);
      AddText(heap, root, settings[i], setting);
      assert Controls(info.Contents())[2 + i] == Member(settings[i], String(setting));
      assert Controls(info.Contents())[2..3 + i]
        == Controls(info.Contents())[2..2 + i] + [Controls(info.Contents())[2 + i]];
      i := i + 1;
    }
  }

  /** and all controls with the constant at the end. */
  method AddControls(heap: Heap, root: Node, info: SetupInfo)
    requires Open(heap, root) && info !in root.own
    modifies heap, root.own
    ensures Open(heap, root) && root.val == Object(old(root.val).members + Controls(info.Contents()))
    ensures old(root.own) <= root.own && fresh(root.own - old(root.own))
    ensures heap.live == old(heap.live) + (root.own - old(root.own))
  {
    hide Node.Valid, Ascii, AutoText, Controls;
    ghost var c := Controls(info.Contents());
    assert |c| == 5 && c[4] == Member(Ascii("NVMM"), Bool(false)) by { FiveControls(info.Contents()); }
    AddExposureAndGain(heap, root, info);
    AddAutos(heap, root, info);
    AddBool(heap, root, Ascii("NVMM"), false);
    assert c[..2] + c[2..4] + [c[4]] == c;
  }

  lemma FiveControls(c: Setup)
    ensures |Controls(c)| == 5 && Controls(c)[4] == Member(Ascii("NVMM"), Bool(false))
    ensures Controls(c)[2] == Member(Ascii("Auto Exposure"), String(AutoText(c.exposureAuto)))
    ensures Controls(c)[3] == Member(Ascii("Auto Gain"), String(AutoText(c.gainAuto)))
  {
  }

  /** `sensorSetupInfoCJSON`. */
  method BuildSetup(heap: Heap, info: SetupInfo) returns (root: Node)
    modifies heap
    ensures fresh(root) && root.Valid() && root.next == null && root.own <= heap.live
    ensures root.val == Object(SetupMembers(info.Contents()))
    ensures fresh(root.own) && heap.live == old(heap.live) + root.own
  {
    hide Node.Valid, Created, Names, Sizes, Formats, Controls;
    root := CreateObject(heap);
    NewObject(heap, root);
    AddNames(heap, root, info);
    AddSizes(heap, root, info);
    AddFormats(heap, root, info);
    AddControls(heap, root, info);
    ghost var c := info.Contents();
    assert [] + Names(c) + Sizes(c) + Formats(c) + Controls(c) == SetupMembers(c);
  }

  /** `sensorSetupInfoJSON`: the formatted text; every block of the tree is freed again. */
  method SensorSetupInfoJSON(heap: Heap, info: SetupInfo) returns (text: array?<byte>)
    requires InRange(info.Contents())
    modifies heap
    ensures heap.live == old(heap.live)
    ensures text != null <==> |SavedText(info.Contents())| + 2 <= INT_MAX
    ensures text != null ==> fresh(text) && text[..] == SavedText(info.Contents()) + [NUL]
  {
    hide Node.Valid, Node.Shaped, SetupMembers, Render, Printable;
    var root := BuildSetup(heap, info);
    SetupPrintable(info.Contents());
    text := Printer.Print(root, true);
    ValidIsShaped(root);
    OwnSingle(root);
    Delete(heap, root, [root]);
  }

  /** Saving by one program and loading by another: `sensor_setup` writes the file that the recorder reads. */
  method SaveAndLoad(heap: Heap, info: SetupInfo, uninitialised: int) returns (again: SetupInfo?)
    requires InRange(info.Contents()) && |SavedText(info.Contents())| < FILE_BUFFER_SIZE
    modifies heap
    ensures (again != null && Restored(info.Contents(), again.Contents())) <==> Survives(info.Contents())
    ensures again != null ==>
      var c, d := info.Contents(), again.Contents();
      && c.capsType.Given? && c.colorFilter.Given? && d.fullCaps.Given?
      && ReadsBack(d.fullCaps.s, c.capsType.s, false, c.colorFilter.s, c.width, c.height)
  {
    hide SavedText, Readable, Restored, Survives, InRange, FromFile, CapsText, Sufficient, Loaded, ReadsBack;
    ghost var c := info.Contents();
    SetupSurvives(c, uninitialised);
    var text := SensorSetupInfoJSON(heap, info);
    var file := BeforeNul(text[..]);
    TextBeforeNul(SavedText(c));
    again := LoadSensorSetupInfo(heap, file, uninitialised);
    if Complete(c) {
      CapsReadBack(c, 0);
    }
  }

  lemma {:induction false} TextBeforeNul(t: CString)
    ensures BeforeNul(t + [NUL]) == t
  {
    if t != [] {
      assert (t + [NUL])[1..] == t[1..] + [NUL];
      TextBeforeNul(t[1..]);
    }
  }
}
