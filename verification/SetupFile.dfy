/** sensor.json: the document that keeps the sensor's setup, what is loaded from it, and the caps string. */
module SetupFile {
  import opened Bytes
  import opened JsonValue
  import opened Rendering
  import opened ParseSpec
  import opened RoundTrip
  import opened NumberText
  import opened Pieces
  import opened Finding

  const FILE_BUFFER_SIZE: nat := 1024
  const CAPS_SIZE: nat := 1024
  const FRAMERATE: nat := 30

  const AUTO_OFF: int := 0
  const AUTO_ONCE: int := 1
  const AUTO_CONTINUOUS: int := 2

  /** A `gchar *` of the struct. */
  datatype Field = Missing | Given(s: CString)

  /** The contents of a `SensorSetupInfo`. */
  datatype Setup = Setup(
    name: Field, serialNumber: Field, capsType: Field, colorFilter: Field, isColor: bool, width: int, height: int,
    gainAuto: int, gain: real, exposureAuto: int, exposureTime: real, fullCaps: Field)

  // The document.

  function AutoText(auto: int): CString {
    if auto == AUTO_OFF then Ascii("AUTO_OFF")
    else if auto == AUTO_ONCE then Ascii("AUTO_ONCE")
    else if auto == AUTO_CONTINUOUS then Ascii("AUTO_CONTINUOUS")
    else Ascii("ERROR")
  }

  function StringMember(key: CString, f: Field): seq<Member> {
    if f.Missing? then [] else [Member(key, String(f.s))]
  }

  function Names(c: Setup): seq<Member> {
    StringMember(Ascii("Model"), c.name) + StringMember(Ascii("Serial Number"), c.serialNumber)
  }

  function Sizes(c: Setup): seq<Member> {
    [Member(Ascii("Width"), Number(c.width as real)), Member(Ascii("Height"), Number(c.height as real))]
  }

  function Formats(c: Setup): seq<Member> {
    StringMember(Ascii("Caps Type"), c.capsType) + StringMember(Ascii("Color Filter"), c.colorFilter)
  }

  function Controls(c: Setup): seq<Member> {
    [Member(Ascii("Exposure Time"), Number(Truncate(c.exposureTime) as real)),
     Member(Ascii("Gain"), Number(Truncate(c.gain) as real)),
     Member(Ascii("Auto Exposure"), String(AutoText(c.exposureAuto))),
     Member(Ascii("Auto Gain"), String(AutoText(c.gainAuto))),
     Member(Ascii("NVMM"), Bool(false))]
  }

  function SetupMembers(c: Setup): seq<Member> { Names(c) + Sizes(c) + Formats(c) + Controls(c) }

  /** The numbers fit an int, as the struct fields and the casts demand. */
  predicate InRange(c: Setup) {
    && INT_MIN <= c.width <= INT_MAX && INT_MIN <= c.height <= INT_MAX
    && INT_MIN <= Truncate(c.exposureTime) <= INT_MAX && INT_MIN <= Truncate(c.gain) <= INT_MAX
  }

  // Loading: what one member of the document does to the struct.

  datatype Loading = Loading(setup: Setup, nvmm: int)

  function AutoOf(s: CString): int {
    if s == Ascii("AUTO_OFF") then AUTO_OFF
    else if s == Ascii("AUTO_ONCE") then AUTO_ONCE
    else if s == Ascii("AUTO_CONTINUOUS") then AUTO_CONTINUOUS
    else AUTO_OFF
  }

  predicate IsBayer(capsType: CString) { capsType == Ascii("video/x-bayer") }

  predicate TextKey(key: CString) {
    || key == Ascii("Model") || key == Ascii("Serial Number") || key == Ascii("Caps Type")
    || key == Ascii("Color Filter")
    || key == Ascii("Auto Exposure") || key == Ascii("Auto Gain")
  }

  predicate NumberKey(key: CString) {
    key == Ascii("Width") || key == Ascii("Height") || key == Ascii("Exposure Time") || key == Ascii("Gain")
  }

  /** The loader relies on the kinds of the values it knows. */
  predicate Loadable(m: Member) {
    && (TextKey(m.key) ==> m.value.String?)
    && (NumberKey(m.key) ==> m.value.Number?)
    && (m.key == Ascii("NVMM") ==> m.value.Bool? || m.value.Number?)
  }

  function LoadText(c: Setup, key: CString, s: CString): Setup {
    if key == Ascii("Model") then c.(name := Given(s))
    else if key == Ascii("Serial Number") then c.(serialNumber := Given(s))
    else if key == Ascii("Caps Type") then c.(capsType := Given(s), isColor := IsBayer(s))
    else if key == Ascii("Color Filter") then c.(colorFilter := Given(s))
    else if key == Ascii("Auto Exposure") then c.(exposureAuto := AutoOf(s))
    else c.(gainAuto := AutoOf(s))
  }

  function LoadNumber(c: Setup, key: CString, n: int): Setup {
    if key == Ascii("Width") then c.(width := n)
    else if key == Ascii("Height") then c.(height := n)
    else if key == Ascii("Exposure Time") then c.(exposureTime := n as real)
    else c.(gain := n as real)
  }

  function LoadMember(l: Loading, m: Member): Loading
    requires Loadable(m)
  {
    if TextKey(m.key) then l.(setup := LoadText(l.setup, m.key, m.value.s))
    else if NumberKey(m.key) then l.(setup := LoadNumber(l.setup, m.key, IntOf(m.value.value)))
    else if m.key == Ascii("NVMM") then
      l.(nvmm := if m.value.Number? then IntOf(m.value.value) else if m.value.b then 1 else 0)
    else l
  }

  function LoadMembers(l: Loading, members: seq<Member>): Loading
    requires forall m <- members :: Loadable(m)
    decreases |members|
  {
    if members == [] then l else LoadMembers(LoadMember(l, members[0]), members[1..])
  }

  const EMPTY: Setup := Setup(Missing, Missing, Missing, Missing, false, 0, 0, 0, 0.0, 0, 0.0, Missing)

  predicate Complete(c: Setup) {
    c.name.Given? && c.serialNumber.Given? && c.capsType.Given? && c.colorFilter.Given? && c.width != 0 && c.height != 0
  }

  function CapsText(c: Setup, nvmm: int): CString
    requires Complete(c)
  {
    c.capsType.s + (if nvmm != 0 then Ascii("(memory:NVMM)") else [])
    + Ascii(",format=") + c.colorFilter.s
    + Ascii(",width=") + IntText(c.width) + Ascii(",height=") + IntText(c.height)
    + Ascii(",framerate=") + IntText(FRAMERATE) + Ascii("/1")
  }

  datatype Result = Success(setup: Setup) | Failure

  /** What `loadSensorSetupInfo` makes of the members; `nvmm` is the initial value of its uninitialised local. */
  function Load(members: seq<Member>, nvmm: int): Result
    requires forall m <- members :: Loadable(m)
  {
    Finish(LoadMembers(Loading(EMPTY, nvmm), members))
  }

  function Finish(l: Loading): Result {
    if !Complete(l.setup) then Failure
    else
      var caps := CapsText(l.setup, l.nvmm);
      if |caps| >= CAPS_SIZE then Failure else Success(l.setup.(fullCaps := Given(caps)))
  }

  // Saving and loading.

  predicate IsAuto(auto: int) { auto in {AUTO_OFF, AUTO_ONCE, AUTO_CONTINUOUS} }

  /** What is kept of a setup. */
  function Kept(c: Setup): Setup
    requires Complete(c)
  {
    c.(isColor := IsBayer(c.capsType.s),
       exposureTime := Truncate(c.exposureTime) as real, gain := Truncate(c.gain) as real,
       exposureAuto := if IsAuto(c.exposureAuto) then c.exposureAuto else AUTO_OFF,
       gainAuto := if IsAuto(c.gainAuto) then c.gainAuto else AUTO_OFF,
       fullCaps := Given(CapsText(c, 0)))
  }

  lemma {:induction false} LoadConcat(l: Loading, a: seq<Member>, b: seq<Member>)
    requires forall m <- a + b :: Loadable(m)
    ensures (forall m <- a :: Loadable(m)) && (forall m <- b :: Loadable(m))
    ensures LoadMembers(l, a + b) == LoadMembers(LoadMembers(l, a), b)
    decreases |a|
  {
    assert forall m <- a :: m in a + b;
    assert forall m <- b :: m in a + b;
    hide LoadMember, Loadable;
    if a == [] {
      assert a + b == b;
    } else {
      assert (a + b)[1..] == a[1..] + b;
      LoadConcat(LoadMember(l, a[0]), a[1..], b);
    }
  }

  lemma AutoKept(auto: int)
    ensures AutoOf(AutoText(auto)) == if IsAuto(auto) then auto else AUTO_OFF
  {
  }

  lemma TextIsNoNumber(key: CString)
    ensures TextKey(key) ==> !NumberKey(key) && key != Ascii("NVMM")
  {
  }

  lemma LoadsText(l: Loading, key: CString, f: Field)
    requires TextKey(key)
    ensures forall m <- StringMember(key, f) :: Loadable(m)
    ensures LoadMembers(l, StringMember(key, f)) == if f.Missing? then l else l.(setup := LoadText(l.setup, key, f.s))
  {
    hide TextKey, NumberKey, LoadText;
    TextIsNoNumber(key);
  }

  lemma LoadsOne(l: Loading, m: Member)
    requires Loadable(m)
    ensures LoadMembers(l, [m]) == LoadMember(l, m)
  {
  }

  /** Two groups of members, one after the other. */
  lemma LoadsBoth(l: Loading, a: seq<Member>, b: seq<Member>)
    requires (forall m <- a :: Loadable(m)) && (forall m <- b :: Loadable(m))
    ensures forall m <- a + b :: Loadable(m)
    ensures LoadMembers(l, a + b) == LoadMembers(LoadMembers(l, a), b)
  {
    hide LoadMember, Loadable;
    LoadConcat(l, a, b);
  }

  lemma LoadsNames(l: Loading, c: Setup)
    requires l.setup.name.Missing? && l.setup.serialNumber.Missing?
    ensures forall m <- Names(c) :: Loadable(m)
    ensures LoadMembers(l, Names(c)) == l.(setup := l.setup.(name := c.name, serialNumber := c.serialNumber))
  {
    hide StringMember, Loadable, LoadMembers, LoadMember;
    LoadsText(l, Ascii("Model"), c.name);
    var l1 := LoadMembers(l, StringMember(Ascii("Model"), c.name));
    LoadsText(l1, Ascii("Serial Number"), c.serialNumber);
    LoadsBoth(l, StringMember(Ascii("Model"), c.name), StringMember(Ascii("Serial Number"), c.serialNumber));
  }

  lemma LoadsFormats(l: Loading, c: Setup)
    requires l.setup.capsType.Missing? && l.setup.colorFilter.Missing? && !l.setup.isColor
    ensures forall m <- Formats(c) :: Loadable(m)
    ensures LoadMembers(l, Formats(c))
         == l.(setup := l.setup.(capsType := c.capsType, colorFilter := c.colorFilter,
             isColor := c.capsType.Given? && IsBayer(c.capsType.s)))
  {
    hide StringMember, Loadable, LoadMembers, LoadMember;
    LoadsText(l, Ascii("Caps Type"), c.capsType);
    var l1 := LoadMembers(l, StringMember(Ascii("Caps Type"), c.capsType));
    LoadsText(l1, Ascii("Color Filter"), c.colorFilter);
    LoadsBoth(l, StringMember(Ascii("Caps Type"), c.capsType), StringMember(Ascii("Color Filter"), c.colorFilter));
  }

  /** A number that was an int. */
  lemma LoadsNumber(l: Loading, key: CString, n: int)
    requires NumberKey(key) && INT_MIN <= n <= INT_MAX
    ensures Loadable(Member(key, Number(n as real)))
    ensures LoadMember(l, Member(key, Number(n as real))) == l.(setup := LoadNumber(l.setup, key, n))
  {
    IntOfInt(n);
  }

  lemma LoadsSizes(l: Loading, c: Setup)
    requires InRange(c)
    ensures forall m <- Sizes(c) :: Loadable(m)
    ensures LoadMembers(l, Sizes(c)) == l.(setup := l.setup.(width := c.width, height := c.height))
  {
    LoadsNumber(l, Ascii("Width"), c.width);
    var l1 := l.(setup := LoadNumber(l.setup, Ascii("Width"), c.width));
    LoadsNumber(l1, Ascii("Height"), c.height);
    LoadsOne(l, Sizes(c)[0]);
    LoadsOne(l1, Sizes(c)[1]);
    hide LoadMember, LoadMembers, Loadable;
    LoadsBoth(l, [Sizes(c)[0]], [Sizes(c)[1]]);
    assert Sizes(c) == [Sizes(c)[0]] + [Sizes(c)[1]];
  }

  lemma LoadsAuto(l: Loading, c: Setup)
    ensures Loadable(Member(Ascii("Auto Exposure"), String(AutoText(c.exposureAuto))))
    ensures Loadable(Member(Ascii("Auto Gain"), String(AutoText(c.gainAuto))))
    ensures LoadMember(l, Member(Ascii("Auto Exposure"), String(AutoText(c.exposureAuto))))
         == l.(setup := l.setup.(exposureAuto := if IsAuto(c.exposureAuto) then c.exposureAuto else AUTO_OFF))
    ensures LoadMember(l, Member(Ascii("Auto Gain"), String(AutoText(c.gainAuto))))
         == l.(setup := l.setup.(gainAuto := if IsAuto(c.gainAuto) then c.gainAuto else AUTO_OFF))
  {
    hide AutoOf, AutoText;
    AutoKept(c.exposureAuto);
    AutoKept(c.gainAuto);
  }

  lemma LoadsNvmm(l: Loading)
    ensures Loadable(Member(Ascii("NVMM"), Bool(false)))
    ensures LoadMember(l, Member(Ascii("NVMM"), Bool(false))) == l.(nvmm := 0)
  {
  }

  lemma LoadsControls(l: Loading, c: Setup)
    requires InRange(c)
    ensures forall m <- Controls(c) :: Loadable(m)
    ensures LoadMembers(l, Controls(c)) == Loading(
      l.setup.(exposureTime := Truncate(c.exposureTime) as real, gain := Truncate(c.gain) as real,
               exposureAuto := if IsAuto(c.exposureAuto) then c.exposureAuto else AUTO_OFF,
               gainAuto := if IsAuto(c.gainAuto) then c.gainAuto else AUTO_OFF), 0)
  {
    hide Loadable, LoadMember, LoadMembers, AutoText, Truncate, IsAuto, TextKey, NumberKey;
    var ms := Controls(c);
    LoadsExposureAndGain(l, c);
    var l2 := LoadMember(LoadMember(l, ms[0]), ms[1]);
    LoadsAuto(l2, c);
    var l3 := LoadMember(l2, ms[2]);
    LoadsAuto(l3, c);
    LoadsNvmm(LoadMember(l3, ms[3]));
    LoadsFive(l, ms);
  }

  lemma LoadsExposureAndGain(l: Loading, c: Setup)
    requires InRange(c)
    ensures Loadable(Controls(c)[0]) && Loadable(Controls(c)[1])
    ensures LoadMember(LoadMember(l, Controls(c)[0]), Controls(c)[1])
         == l.(setup := l.setup.(exposureTime := Truncate(c.exposureTime) as real, gain := Truncate(c.gain) as real))
  {
    hide Loadable, LoadMember, AutoText, Truncate, TextKey;
    LoadsNumber(l, Ascii("Exposure Time"), Truncate(c.exposureTime));
    LoadsNumber(LoadMember(l, Controls(c)[0]), Ascii("Gain"), Truncate(c.gain));
  }

  lemma LoadsFive(l: Loading, ms: seq<Member>)
    requires |ms| == 5 && forall m <- ms :: Loadable(m)
    ensures LoadMembers(l, ms)
      == LoadMember(LoadMember(LoadMember(LoadMember(LoadMember(l, ms[0]), ms[1]), ms[2]), ms[3]), ms[4])
  {
    hide Loadable, LoadMember;
    assert ms == ms[..2] + ms[2..] && ms[..2] == [ms[0]] + [ms[1]] && ms[2..] == [ms[2]] + ([ms[3]] + [ms[4]]);
    LoadsBoth(l, ms[..2], ms[2..]);
    var k := LoadMembers(l, ms[..2]);
    LoadsBoth(l, [ms[0]], [ms[1]]);
    LoadsBoth(k, [ms[2]], [ms[3]] + [ms[4]]);
    LoadsBoth(LoadMember(k, ms[2]), [ms[3]], [ms[4]]);
  }

  /** Everything but the caps string, which is never saved. */
  lemma LoadsSetup(c: Setup, nvmm: int)
    requires InRange(c)
    ensures forall m <- SetupMembers(c) :: Loadable(m)
    ensures LoadMembers(Loading(EMPTY, nvmm), SetupMembers(c)) == Loading(
      c.(isColor := c.capsType.Given? && IsBayer(c.capsType.s),
         exposureTime := Truncate(c.exposureTime) as real, gain := Truncate(c.gain) as real,
         exposureAuto := if IsAuto(c.exposureAuto) then c.exposureAuto else AUTO_OFF,
         gainAuto := if IsAuto(c.gainAuto) then c.gainAuto else AUTO_OFF,
         fullCaps := Missing), 0)
  {
    hide Loadable, LoadMember, LoadMembers, Truncate, IsAuto, Names, Sizes, Formats, Controls, IsBayer;
    var l := Loading(EMPTY, nvmm);
    LoadsNames(l, c);
    var l1 := LoadMembers(l, Names(c));
    LoadsSizes(l1, c);
    var l2 := LoadMembers(l1, Sizes(c));
    LoadsFormats(l2, c);
    LoadsControls(LoadMembers(l2, Formats(c)), c);
    LoadsBoth(l, Names(c), Sizes(c));
    LoadsBoth(l, Names(c) + Sizes(c), Formats(c));
    LoadsBoth(l, Names(c) + Sizes(c) + Formats(c), Controls(c));
  }

  lemma SetupPrintable(c: Setup)
    requires InRange(c)
    ensures Printable(Object(SetupMembers(c))) && Height(Object(SetupMembers(c))) <= 1
  {
    hide Names, Sizes, Formats, Controls, Height, InRange;
    FlatTexts(c);
    FlatNumbers(c);
    FlatHeight(SetupMembers(c));
    assert Height(Object(SetupMembers(c))) <= 1 by { HeightOfObject(SetupMembers(c)); }
  }

  lemma HeightOfObject(members: seq<Member>)
    ensures Height(Object(members)) == 1 + MembersHeight(members)
  {
  }

  predicate Flat(m: Member) { Printable(m.value) && Height(m.value) == 0 }

  lemma FlatTexts(c: Setup)
    ensures forall m <- Names(c) + Formats(c) :: Flat(m)
  {
    hide Ascii;
  }

  lemma FlatNumbers(c: Setup)
    requires InRange(c)
    ensures forall m <- Sizes(c) + Controls(c) :: Flat(m)
  {
    hide Ascii, AutoText, Truncate;
    IntOfInt(c.width);
    IntOfInt(c.height);
    IntOfInt(Truncate(c.exposureTime));
    IntOfInt(Truncate(c.gain));
  }

  lemma {:induction false} FlatHeight(members: seq<Member>)
    requires forall m <- members :: Flat(m)
    ensures MembersHeight(members) == 0
  {
    hide Height;
    if members != [] {
      assert Flat(members[0]);
      FlatHeight(members[1..]);
    }
  }

  /** The text of sensor.json. */
  function SavedText(c: Setup): CString { Render(Object(SetupMembers(c)), true, 0) }

  /**
   * The loader can read the file: it leaves room for a NUL in the buffer, and its text is an object of
   * the expected kinds.
   */
  predicate Readable(file: CString) {
    && |file| < FILE_BUFFER_SIZE
    && var r := ParseDocument(Buffer(file), false);
    r.Parsed? && r.value.Object? && forall m <- r.value.members :: Loadable(m)
  }

  function MembersOf(file: CString): seq<Member>
    requires Readable(file)
  {
    ParseDocument(Buffer(file), false).value.members
  }

  function FromFile(file: CString, nvmm: int): Result
    requires Readable(file)
  {
    Load(MembersOf(file), nvmm)
  }

  /** Everything has come back, only exposure and gain having lost their fractions. */
  predicate Restored(c: Setup, d: Setup) {
    && d.name == c.name && d.serialNumber == c.serialNumber && d.capsType == c.capsType
    && d.colorFilter == c.colorFilter
    && d.isColor == c.isColor && d.width == c.width && d.height == c.height
    && d.gainAuto == c.gainAuto && d.exposureAuto == c.exposureAuto
    && d.gain == Truncate(c.gain) as real && d.exposureTime == Truncate(c.exposureTime) as real
  }

  /** What the caller can check before saving. */
  predicate Survives(c: Setup) {
    && |SavedText(c)| < FILE_BUFFER_SIZE
    && Complete(c) && |CapsText(c, 0)| < CAPS_SIZE
    && c.isColor == IsBayer(c.capsType.s) && IsAuto(c.gainAuto) && IsAuto(c.exposureAuto)
  }

  /**
   * A setup that is saved is restored by the loader if and only if its text fits the file buffer, it is
   * complete, its caps string fits, its colour flag agrees with its caps type and both auto modes
   * are known ones.
   */
  lemma SetupSurvives(c: Setup, nvmm: int)
    requires InRange(c)
    ensures Readable(SavedText(c)) <==> |SavedText(c)| < 1024
    ensures Readable(SavedText(c)) ==>
      FromFile(SavedText(c), nvmm) == if Complete(c) && |CapsText(c, 0)| < CAPS_SIZE then Success(Kept(c)) else Failure
    ensures Survives(c) <==>
      Readable(SavedText(c)) && var r := FromFile(SavedText(c), nvmm); r.Success? && Restored(c, r.setup)
  {
    hide SetupMembers, Loadable, Load, ParseDocument, Render, Truncate, IsAuto, IsBayer, Restored, Kept, CapsText;
    SetupPrintable(c);
    ParseUndoesPrint(Object(SetupMembers(c)), true, 0, false);
    LoadsSaved(c, nvmm);
    if Complete(c) {
      KeptIsRestoredIff(c);
    }
  }

  lemma LoadsSaved(c: Setup, nvmm: int)
    requires InRange(c)
    ensures forall m <- SetupMembers(c) :: Loadable(m)
    ensures Load(SetupMembers(c), nvmm)
         == if Complete(c) && |CapsText(c, 0)| < CAPS_SIZE then Success(Kept(c)) else Failure
  {
    hide SetupMembers, Loadable, LoadMembers, Truncate, IsAuto, IsBayer;
    LoadsSetup(c, nvmm);
  }

  lemma KeptIsRestoredIff(c: Setup)
    requires Complete(c)
    ensures Restored(c, Kept(c)) <==> c.isColor == IsBayer(c.capsType.s) && IsAuto(c.gainAuto) && IsAuto(c.exposureAuto)
  {
    hide IsBayer, CapsText;
  }

  /** What has been loaded is the same after a second save and load, if that file fits the buffer as well. */
  lemma SecondSaveChangesNothing(c: Setup, nvmm: int)
    requires InRange(c) && Readable(SavedText(c)) && FromFile(SavedText(c), nvmm).Success?
    ensures var d := FromFile(SavedText(c), nvmm).setup;
      && InRange(d)
      && (|SavedText(d)| < FILE_BUFFER_SIZE ==>
            Readable(SavedText(d)) && FromFile(SavedText(d), nvmm) == Success(d))
  {
    hide SavedText, FromFile, Readable, Render, CapsText;
    TruncateInt(Truncate(c.exposureTime));
    TruncateInt(Truncate(c.gain));
    SetupSurvives(c, nvmm);
    CapsOfKept(c);
    SetupSurvives(Kept(c), nvmm);
  }

  lemma CapsOfKept(c: Setup)
    requires Complete(c)
    ensures Complete(Kept(c)) && CapsText(Kept(c), 0) == CapsText(c, 0) && Kept(Kept(c)) == Kept(c)
  {
    hide Ascii, IntText;
    TruncateInt(Truncate(c.exposureTime));
    TruncateInt(Truncate(c.gain));
  }

  /** The second file is the first one again, so that it fits, if and only if both auto modes are known ones. */
  lemma SecondTextIsSameIff(c: Setup)
    requires InRange(c) && Complete(c)
    ensures SavedText(Kept(c)) == SavedText(c) <==> IsAuto(c.gainAuto) && IsAuto(c.exposureAuto)
  {
    hide Render, Printable, Height, CapsText;
    TruncateInt(Truncate(c.exposureTime));
    TruncateInt(Truncate(c.gain));
    SetupPrintable(c);
    SetupPrintable(Kept(c));
    SameMembersIff(c);
    if SavedText(Kept(c)) == SavedText(c) {
      RenderIsInjective(Object(SetupMembers(Kept(c))), Object(SetupMembers(c)), true, 0);
    }
  }

  lemma SameMembersIff(c: Setup)
    requires Complete(c)
    ensures SetupMembers(Kept(c)) == SetupMembers(c) <==> IsAuto(c.gainAuto) && IsAuto(c.exposureAuto)
  {
    hide CapsText, Ascii, Truncate;
    TruncateInt(Truncate(c.exposureTime));
    TruncateInt(Truncate(c.gain));
    var d := Kept(c);
    assert Names(d) == Names(c) && Sizes(d) == Sizes(c) && Formats(d) == Formats(c);
    var m, n := SetupMembers(c), SetupMembers(d);
    assert m[|m| - 5..] == Controls(c) && n[|n| - 5..] == Controls(d) && |m| == |n|;
    UnknownAutoText(c.gainAuto);
    UnknownAutoText(c.exposureAuto);
    assert Controls(c)[2].value == String(AutoText(c.exposureAuto))
      && Controls(c)[3].value == String(AutoText(c.gainAuto));
    assert Controls(d)[2].value == String(AutoText(d.exposureAuto))
      && Controls(d)[3].value == String(AutoText(d.gainAuto));
  }

  lemma UnknownAutoText(auto: int)
    ensures !IsAuto(auto) ==> AutoText(auto) != AutoText(AUTO_OFF)
  {
  }

  lemma TruncateInt(n: int)
    ensures Truncate(n as real) == n
  {
    assert (-(n as real)).Floor == -n;
  }

  // What the caps string says.

  /** A number that `strtod` reads behind its name, up to the end of the piece. */
  predicate Numbered(t: CString, name: CString, n: int) {
    |name| <= |t| && t[..|name|] == name && Strtod(t[|name|..]) == Decimal(n as real, |t| - |name|)
  }

  /** A caps string cut at its commas: the type, the format, the two sizes and the frame rate. */
  predicate ReadsBack(caps: CString, capsType: CString, memory: bool, filter: CString, width: int, height: int) {
    var p := Split(caps, 44);
    && |p| >= 3 && p[|p| - 1] == Ascii("framerate=30/1")
    && Numbered(p[|p| - 2], Ascii("height="), height) && Numbered(p[|p| - 3], Ascii("width="), width)
    && p[..|p| - 3]
      == Split(capsType + (if memory then Ascii("(memory:NVMM)") else []), 44) + Split(Ascii("format=") + filter, 44)
  }

  lemma CapsReadBack(c: Setup, nvmm: int)
    requires Complete(c)
    ensures ReadsBack(CapsText(c, nvmm), c.capsType.s, nvmm != 0, c.colorFilter.s, c.width, c.height)
    ensures |CapsText(c, nvmm)| == 38 + |c.capsType.s| + |c.colorFilter.s| + |IntText(c.width)| + |IntText(c.height)|
                                   + (if nvmm != 0 then 13 else 0)
  {
    hide Split, IntText, Strtod, Ascii;
    var t := c.capsType.s + (if nvmm != 0 then Ascii("(memory:NVMM)") else []);
    var f, w, h := Ascii("format=") + c.colorFilter.s, Ascii("width=") + IntText(c.width),
      Ascii("height=") + IntText(c.height);
    var r := Ascii("framerate=30/1");
    CommaFirst();
    NoComma(c.width, c.height);
    CapsInParts(c, nvmm, t, f, w, h, r);
    FiveParts(t, f, w, h, r);
    NumberedText(Ascii("width="), c.width);
    NumberedText(Ascii("height="), c.height);
  }

  lemma NumberedText(name: CString, n: int)
    ensures Numbered(name + IntText(n), name, n)
  {
    hide IntText, Strtod;
    StrtodOfIntText(n);
    assert (name + IntText(n))[|name|..] == IntText(n);
  }

  lemma CommaFirst()
    ensures Ascii(",format=") == [44] + Ascii("format=") && Ascii(",width=") == [44] + Ascii("width=")
    ensures Ascii(",height=") == [44] + Ascii("height=")
    ensures Ascii(",framerate=") + IntText(FRAMERATE) + Ascii("/1") == [44] + Ascii("framerate=30/1")
  {
    assert IntText(30) == [51, 48] by { assert Digits(3) == [51]; }
  }

  lemma CapsInParts(c: Setup, nvmm: int, t: CString, f: CString, w: CString, h: CString, r: CString)
    requires Complete(c)
    requires t == c.capsType.s + (if nvmm != 0 then Ascii("(memory:NVMM)") else [])
    requires [44] + f == Ascii(",format=") + c.colorFilter.s && [44] + w == Ascii(",width=") + IntText(c.width)
    requires [44] + h == Ascii(",height=") + IntText(c.height)
    requires [44] + r == Ascii(",framerate=") + IntText(FRAMERATE) + Ascii("/1")
    ensures CapsText(c, nvmm) == t + [44] + (f + [44] + (w + [44] + (h + [44] + r)))
  {
    hide Ascii, IntText;
    assert CapsText(c, nvmm) == t + ([44] + f) + ([44] + w) + ([44] + h) + ([44] + r);
    Chain(t, f, w, h, r);
  }

  lemma Chain(t: CString, f: CString, w: CString, h: CString, r: CString)
    ensures t + ([44] + f) + ([44] + w) + ([44] + h) + ([44] + r) == t + [44] + (f + [44] + (w + [44] + (h + [44] + r)))
  {
    assert t + ([44] + f) == t + [44] + f;
    assert t + [44] + f + ([44] + w) == t + [44] + (f + [44] + w);
    assert t + [44] + (f + [44] + w) + ([44] + h) == t + [44] + (f + [44] + (w + [44] + h));
  }

  lemma FiveParts(t: CString, f: CString, w: CString, h: CString, r: CString)
    requires 44 !in w && 44 !in h && 44 !in r
    ensures var p := Split(t + [44] + (f + [44] + (w + [44] + (h + [44] + r))), 44);
      |p| >= 3 && p[..|p| - 3] == Split(t, 44) + Split(f, 44) && p[|p| - 3..] == [w, h, r]
  {
    hide Split;
    SplitBoth(t, 44, f + [44] + (w + [44] + (h + [44] + r)));
    SplitBoth(f, 44, w + [44] + (h + [44] + r));
    SplitFirst(w, 44, h + [44] + r);
    SplitFirst(h, 44, r);
    SplitFirst(r, 44, []);
  }

  /** Without commas in the type and the filter the caps string has five pieces. */
  lemma FivePieces(caps: CString, capsType: CString, memory: bool, filter: CString, width: int, height: int)
    requires ReadsBack(caps, capsType, memory, filter, width, height) && 44 !in capsType && 44 !in filter
    ensures var p := Split(caps, 44);
      && |p| == 5 && p[0] == capsType + (if memory then Ascii("(memory:NVMM)") else [])
      && p[1] == Ascii("format=") + filter && Numbered(p[2], Ascii("width="), width)
      && Numbered(p[3], Ascii("height="), height) && p[4] == Ascii("framerate=30/1")
  {
    hide Numbered, Split;
    NoComma(0, 0);
    SplitFirst(capsType + (if memory then Ascii("(memory:NVMM)") else []), 44, []);
    SplitFirst(Ascii("format=") + filter, 44, []);
    var p := Split(caps, 44);
    assert p[0] == p[..|p| - 3][0] && p[1] == p[..|p| - 3][1];
  }

  lemma NoComma(width: int, height: int)
    ensures 44 !in Ascii("(memory:NVMM)") && 44 !in Ascii("format=") && 44 !in Ascii("framerate=30/1")
    ensures 44 !in Ascii("width=") + IntText(width) && 44 !in Ascii("height=") + IntText(height)
  {
    hide Ascii, IntText;
    AsciiBytes("(memory:NVMM)");
    AsciiBytes("format=");
    AsciiBytes("framerate=30/1");
    AsciiBytes("width=");
    AsciiBytes("height=");
    NoCommaInInt(width);
    NoCommaInInt(height);
  }

  lemma NoCommaInInt(n: int)
    ensures 44 !in IntText(n)
  {
  }

  // What a reader finds in the saved document.

  predicate FindsText(v: Json, name: string, f: Field) {
    if f.Missing? then Lacks(v, name) else Finds(v, name, String(f.s))
  }

  /** The int next to the number, on the side of zero. */
  predicate FindsWhole(v: Json, name: string, d: real) {
    v.Object? && match First(v.members, Ascii(name))
      case Found(Number(n)) =>
        n == n.Floor as real && if d >= 0.0 then 0.0 <= n <= d < n + 1.0 else n - 1.0 < d <= n <= 0.0
      case _ => false
  }

  predicate FindsAuto(v: Json, name: string, auto: int) {
    && (auto == 0 ==> Finds(v, name, String(Ascii("AUTO_OFF"))))
    && (auto == 1 ==> Finds(v, name, String(Ascii("AUTO_ONCE"))))
    && (auto == 2 ==> Finds(v, name, String(Ascii("AUTO_CONTINUOUS"))))
    && (auto !in {0, 1, 2} ==> Finds(v, name, String(Ascii("ERROR"))))
  }

  /** The setup is found in the document, each part under its name. */
  predicate Shows(v: Json, c: Setup) {
    && FindsText(v, "Model", c.name) && FindsText(v, "Serial Number", c.serialNumber)
    && Finds(v, "Width", Number(c.width as real)) && Finds(v, "Height", Number(c.height as real))
    && FindsText(v, "Caps Type", c.capsType) && FindsText(v, "Color Filter", c.colorFilter)
    && FindsWhole(v, "Exposure Time", c.exposureTime) && FindsWhole(v, "Gain", c.gain)
    && FindsAuto(v, "Auto Exposure", c.exposureAuto) && FindsAuto(v, "Auto Gain", c.gainAuto)
    && Finds(v, "NVMM", Bool(false))
  }

  lemma FirstOfText(name: CString, f: Field, key: CString)
    ensures First(StringMember(name, f), key) == if f.Given? && name == key then Found(String(f.s)) else Absent
  {
  }

  lemma FirstOfFour(a: seq<Member>, b: seq<Member>, c: seq<Member>, d: seq<Member>, key: CString)
    ensures First(a + b + c + d, key)
      == if First(a, key).Found? then First(a, key)
         else if First(b, key).Found? then First(b, key)
         else if First(c, key).Found? then First(c, key)
         else First(d, key)
  {
    FirstOfThree(a, b, c, key);
    FirstOfBoth(a + b + c, d, key);
  }

  lemma FirstOfNames(c: Setup, key: CString)
    ensures First(Names(c), key)
      == if c.name.Given? && key == Ascii("Model") then Found(String(c.name.s))
         else if c.serialNumber.Given? && key == Ascii("Serial Number") then Found(String(c.serialNumber.s))
         else Absent
  {
    hide Ascii;
    FirstOfText(Ascii("Model"), c.name, key);
    FirstOfText(Ascii("Serial Number"), c.serialNumber, key);
    FirstOfBoth(StringMember(Ascii("Model"), c.name), StringMember(Ascii("Serial Number"), c.serialNumber), key);
  }

  lemma FirstOfFormats(c: Setup, key: CString)
    ensures First(Formats(c), key)
      == if c.capsType.Given? && key == Ascii("Caps Type") then Found(String(c.capsType.s))
         else if c.colorFilter.Given? && key == Ascii("Color Filter") then Found(String(c.colorFilter.s))
         else Absent
  {
    hide Ascii;
    FirstOfText(Ascii("Caps Type"), c.capsType, key);
    FirstOfText(Ascii("Color Filter"), c.colorFilter, key);
    FirstOfBoth(StringMember(Ascii("Caps Type"), c.capsType), StringMember(Ascii("Color Filter"), c.colorFilter), key);
  }

  lemma FirstOfSizes(c: Setup, key: CString)
    ensures First(Sizes(c), key)
      == if key == Ascii("Width") then Found(Number(c.width as real))
         else if key == Ascii("Height") then Found(Number(c.height as real))
         else Absent
  {
    hide Ascii;
    var ms := Sizes(c);
    assert First(ms[1..], key) == if key == ms[1].key then Found(ms[1].value) else Absent;
  }

  lemma FirstOfControls(c: Setup, key: CString)
    ensures First(Controls(c), key)
      == if key == Ascii("Exposure Time") then Found(Number(Truncate(c.exposureTime) as real))
         else if key == Ascii("Gain") then Found(Number(Truncate(c.gain) as real))
         else if key == Ascii("Auto Exposure") then Found(String(AutoText(c.exposureAuto)))
         else if key == Ascii("Auto Gain") then Found(String(AutoText(c.gainAuto)))
         else if key == Ascii("NVMM") then Found(Bool(false))
         else Absent
  {
    hide Ascii, AutoText, Truncate;
    var ms := Controls(c);
    FirstOfFive(ms, key);
  }

  lemma FirstOfFive(ms: seq<Member>, key: CString)
    requires |ms| == 5
    ensures First(ms, key)
      == if key == ms[0].key then Found(ms[0].value)
         else if key == ms[1].key then Found(ms[1].value)
         else if key == ms[2].key then Found(ms[2].value)
         else if key == ms[3].key then Found(ms[3].value)
         else if key == ms[4].key then Found(ms[4].value)
         else Absent
  {
    assert First(ms[4..], key) == if key == ms[4].key then Found(ms[4].value) else Absent;
    assert ms[3..][1..] == ms[4..] && ms[2..][1..] == ms[3..];
    assert First(ms[2..], key) == if key == ms[2].key then Found(ms[2].value) else First(ms[3..], key);
    assert ms[1..][1..] == ms[2..];
  }

  /** The first member of each name. */
  lemma FirstOfSetup(c: Setup, key: CString)
    ensures First(SetupMembers(c), key)
      == if First(Names(c), key).Found? then First(Names(c), key)
         else if First(Sizes(c), key).Found? then First(Sizes(c), key)
         else if First(Formats(c), key).Found? then First(Formats(c), key)
         else First(Controls(c), key)
  {
    hide Names, Sizes, Formats, Controls;
    FirstOfFour(Names(c), Sizes(c), Formats(c), Controls(c), key);
  }

  lemma FirstUnder(c: Setup, key: CString)
    ensures First(SetupMembers(c), key)
      == if c.name.Given? && key == Ascii("Model") then Found(String(c.name.s))
         else if c.serialNumber.Given? && key == Ascii("Serial Number") then Found(String(c.serialNumber.s))
         else if key == Ascii("Width") then Found(Number(c.width as real))
         else if key == Ascii("Height") then Found(Number(c.height as real))
         else if c.capsType.Given? && key == Ascii("Caps Type") then Found(String(c.capsType.s))
         else if c.colorFilter.Given? && key == Ascii("Color Filter") then Found(String(c.colorFilter.s))
         else First(Controls(c), key)
  {
    hide Ascii, Names, Sizes, Formats, Controls, SetupMembers, First;
    FirstOfSetup(c, key);
    FirstOfNames(c, key);
    FirstOfSizes(c, key);
    FirstOfFormats(c, key);
  }

  lemma ShowsTexts(c: Setup)
    ensures var v := Object(SetupMembers(c));
      && FindsText(v, "Model", c.name) && FindsText(v, "Serial Number", c.serialNumber)
      && FindsText(v, "Caps Type", c.capsType) && FindsText(v, "Color Filter", c.colorFilter)
      && Finds(v, "Width", Number(c.width as real)) && Finds(v, "Height", Number(c.height as real))
  {
    hide Ascii, AutoText, SetupMembers, Controls, First;
    FirstUnder(c, Ascii("Model"));
    FirstOfControls(c, Ascii("Model"));
    FirstUnder(c, Ascii("Serial Number"));
    FirstOfControls(c, Ascii("Serial Number"));
    FirstUnder(c, Ascii("Caps Type"));
    FirstOfControls(c, Ascii("Caps Type"));
    FirstUnder(c, Ascii("Color Filter"));
    FirstOfControls(c, Ascii("Color Filter"));
    FirstUnder(c, Ascii("Width"));
    FirstUnder(c, Ascii("Height"));
  }

  lemma ShowsControls(c: Setup)
    ensures var v := Object(SetupMembers(c));
      && FindsWhole(v, "Exposure Time", c.exposureTime) && FindsWhole(v, "Gain", c.gain)
      && FindsAuto(v, "Auto Exposure", c.exposureAuto) && FindsAuto(v, "Auto Gain", c.gainAuto)
      && Finds(v, "NVMM", Bool(false))
  {
    hide Ascii, SetupMembers, Controls, First, Truncate;
    FirstUnder(c, Ascii("Exposure Time"));
    FirstOfControls(c, Ascii("Exposure Time"));
    FirstUnder(c, Ascii("Gain"));
    FirstOfControls(c, Ascii("Gain"));
    FirstUnder(c, Ascii("Auto Exposure"));
    FirstOfControls(c, Ascii("Auto Exposure"));
    FirstUnder(c, Ascii("Auto Gain"));
    FirstOfControls(c, Ascii("Auto Gain"));
    FirstUnder(c, Ascii("NVMM"));
    FirstOfControls(c, Ascii("NVMM"));
    TruncatesTowardsZero(c.exposureTime);
    TruncatesTowardsZero(c.gain);
    var v := Object(SetupMembers(c));
    assert Finds(v, "Exposure Time", Number(Truncate(c.exposureTime) as real));
    assert Finds(v, "Gain", Number(Truncate(c.gain) as real));
  }

  /** The text of sensor.json parses to an object in which each part of the setup is found under its name. */
  lemma SavedTextShows(c: Setup)
    requires InRange(c)
    ensures var r := ParseDocument(Buffer(SavedText(c)), false); r.Parsed? && Shows(r.value, c)
  {
    hide SetupMembers, ParseDocument, Render, FindsText, FindsWhole, FindsAuto, Finds, Ascii, InRange;
    SetupPrintable(c);
    ParseUndoesPrint(Object(SetupMembers(c)), true, 0, false);
    ShowsTexts(c);
    ShowsControls(c);
  }

  // What is loaded, from any document: each field from the last member of its name.

  function LastText(ms: seq<Member>, name: string): Field {
    match Last(ms, Ascii(name))
    case Found(String(s)) => Given(s)
    case _ => Missing
  }

  function LastInt(ms: seq<Member>, name: string): int {
    match Last(ms, Ascii(name))
    case Found(Number(d)) => IntOf(d)
    case _ => 0
  }

  function LastAuto(ms: seq<Member>, name: string): int {
    match Last(ms, Ascii(name))
    case Found(String(s)) => if s == Ascii("AUTO_ONCE") then 1 else if s == Ascii("AUTO_CONTINUOUS") then 2 else 0
    case _ => 0
  }

  function LastFlag(ms: seq<Member>, name: string, otherwise: int): int {
    match Last(ms, Ascii(name))
    case Found(Number(d)) => IntOf(d)
    case Found(Bool(b)) => if b then 1 else 0
    case _ => otherwise
  }

  predicate Reflects(c: Setup, ms: seq<Member>) {
    ReflectsNames(c, ms) && ReflectsFormats(c, ms) && ReflectsNumbers(c, ms) && ReflectsAutos(c, ms)
  }

  predicate ReflectsNames(c: Setup, ms: seq<Member>) {
    c.name == LastText(ms, "Model") && c.serialNumber == LastText(ms, "Serial Number")
  }

  predicate ReflectsFormats(c: Setup, ms: seq<Member>) {
    && c.capsType == LastText(ms, "Caps Type") && c.colorFilter == LastText(ms, "Color Filter")
    && (c.isColor <==> c.capsType == Given(Ascii("video/x-bayer")))
  }

  predicate ReflectsNumbers(c: Setup, ms: seq<Member>) {
    && c.width == LastInt(ms, "Width") && c.height == LastInt(ms, "Height")
    && c.exposureTime == LastInt(ms, "Exposure Time") as real && c.gain == LastInt(ms, "Gain") as real
  }

  predicate ReflectsAutos(c: Setup, ms: seq<Member>) {
    c.exposureAuto == LastAuto(ms, "Auto Exposure") && c.gainAuto == LastAuto(ms, "Auto Gain")
  }

  lemma {:induction false} LoadsLast(ms: seq<Member>, nvmm: int)
    requires forall m <- ms :: Loadable(m)
    ensures var l := LoadMembers(Loading(EMPTY, nvmm), ms);
      Reflects(l.setup, ms) && l.nvmm == LastFlag(ms, "NVMM", nvmm)
    ensures LoadMembers(Loading(EMPTY, nvmm), ms).setup.fullCaps.Missing?
    decreases |ms|
  {
    hide Loadable, LoadMember, LastText, LastInt, LastAuto, LastFlag;
    if ms == [] {
      LastOfNone(nvmm);
    } else {
      var front, m := ms[..|ms| - 1], ms[|ms| - 1];
      assert ms == front + [m];
      LoadConcat(Loading(EMPTY, nvmm), front, [m]);
      LoadsLast(front, nvmm);
      var l := LoadMembers(Loading(EMPTY, nvmm), front);
      LoadsOne(l, m);
      LoadsOneMore(l, front, m, nvmm);
    }
  }

  lemma LastOfNone(nvmm: int)
    ensures Reflects(EMPTY, []) && LastFlag([], "NVMM", nvmm) == nvmm
  {
  }

  lemma LastOfMore(front: seq<Member>, m: Member, key: CString)
    ensures Last(front + [m], key) == if m.key == key then Found(m.value) else Last(front, key)
  {
    assert (front + [m])[..|front|] == front;
  }

  lemma LoadsOneMore(l: Loading, front: seq<Member>, m: Member, nvmm: int)
    requires Loadable(m) && Reflects(l.setup, front) && l.nvmm == LastFlag(front, "NVMM", nvmm)
    ensures var k, ms := LoadMember(l, m), front + [m];
      && Reflects(k.setup, ms) && k.nvmm == LastFlag(ms, "NVMM", nvmm) && k.setup.fullCaps == l.setup.fullCaps
  {
    hide ReflectsNames, ReflectsFormats, ReflectsNumbers, ReflectsAutos;
    MoreNames(l, front, m);
    MoreFormats(l, front, m);
    MoreNumbers(l, front, m);
    MoreAutos(l, front, m);
    MoreFlags(l, front, m, nvmm);
  }

  lemma MoreNames(l: Loading, front: seq<Member>, m: Member)
    requires Loadable(m) && ReflectsNames(l.setup, front)
    ensures ReflectsNames(LoadMember(l, m).setup, front + [m])
  {
    hide Ascii, Last;
    LastOfMore(front, m, Ascii("Model"));
    LastOfMore(front, m, Ascii("Serial Number"));
  }

  lemma MoreFormats(l: Loading, front: seq<Member>, m: Member)
    requires Loadable(m) && ReflectsFormats(l.setup, front)
    ensures ReflectsFormats(LoadMember(l, m).setup, front + [m])
  {
    hide Ascii, Last;
    LastOfMore(front, m, Ascii("Caps Type"));
    LastOfMore(front, m, Ascii("Color Filter"));
  }

  lemma MoreNumbers(l: Loading, front: seq<Member>, m: Member)
    requires Loadable(m) && ReflectsNumbers(l.setup, front)
    ensures ReflectsNumbers(LoadMember(l, m).setup, front + [m])
  {
    hide Ascii, Last, TextKey, LoadMember;
    NumbersOnly(l, m);
    LastOfMore(front, m, Ascii("Width"));
    LastOfMore(front, m, Ascii("Height"));
    LastOfMore(front, m, Ascii("Exposure Time"));
    LastOfMore(front, m, Ascii("Gain"));
  }

  lemma NumbersOnly(l: Loading, m: Member)
    requires Loadable(m)
    ensures var c, d := l.setup, LoadMember(l, m).setup;
      if NumberKey(m.key) then m.value.Number? && d == LoadNumber(c, m.key, IntOf(m.value.value))
      else d.width == c.width && d.height == c.height && d.exposureTime == c.exposureTime && d.gain == c.gain
  {
    hide TextKey, NumberKey;
    TextIsNoNumber(m.key);
  }

  lemma AutosOnly(l: Loading, m: Member)
    requires Loadable(m)
    ensures var c, d, auto := l.setup, LoadMember(l, m).setup, match m.value case String(s) => AutoOf(s) case _ => 0;
      && (m.key == Ascii("Auto Exposure") || m.key == Ascii("Auto Gain") ==> m.value.String?)
      && d.exposureAuto == (if m.key == Ascii("Auto Exposure") then auto else c.exposureAuto)
      && d.gainAuto == (if m.key == Ascii("Auto Gain") then auto else c.gainAuto)
  {
    hide Ascii, AutoOf, NumberKey;
  }

  lemma AutoIsNumber(s: CString)
    ensures AutoOf(s) == if s == Ascii("AUTO_ONCE") then 1 else if s == Ascii("AUTO_CONTINUOUS") then 2 else 0
  {
    hide Ascii;
  }

  lemma MoreAutos(l: Loading, front: seq<Member>, m: Member)
    requires Loadable(m) && ReflectsAutos(l.setup, front)
    ensures ReflectsAutos(LoadMember(l, m).setup, front + [m])
  {
    hide Ascii, Last, LoadMember, Loadable, AutoOf;
    AutosOnly(l, m);
    if m.value.String? {
      AutoIsNumber(m.value.s);
    }
    LastOfMore(front, m, Ascii("Auto Exposure"));
    LastOfMore(front, m, Ascii("Auto Gain"));
  }

  lemma MoreFlags(l: Loading, front: seq<Member>, m: Member, nvmm: int)
    requires Loadable(m) && l.nvmm == LastFlag(front, "NVMM", nvmm)
    ensures var k := LoadMember(l, m);
      k.nvmm == LastFlag(front + [m], "NVMM", nvmm) && k.setup.fullCaps == l.setup.fullCaps
  {
    hide Ascii, Last;
    LastOfMore(front, m, Ascii("NVMM"));
  }

  /** What a loaded setup is: the fields of the document, and a caps string made of them. */
  predicate Loaded(c: Setup, ms: seq<Member>, uninitialised: int) {
    && Reflects(c, ms) && c.fullCaps.Given? && c.capsType.Given? && c.colorFilter.Given? && |c.fullCaps.s| < 1024
    && ReadsBack(c.fullCaps.s, c.capsType.s, LastFlag(ms, "NVMM", uninitialised) != 0, c.colorFilter.s, c.width,
                 c.height)
  }

  /** What a document needs to be loaded: four strings, two sizes, and a caps string that fits its buffer. */
  predicate Sufficient(ms: seq<Member>, uninitialised: int) {
    var capsType, filter := LastText(ms, "Caps Type"), LastText(ms, "Color Filter");
    var width, height := LastInt(ms, "Width"), LastInt(ms, "Height");
    && LastText(ms, "Model").Given? && LastText(ms, "Serial Number").Given? && capsType.Given? && filter.Given?
    && width != 0 && height != 0
    && 38 + |capsType.s| + |filter.s| + |IntText(width)| + |IntText(height)|
       + (if LastFlag(ms, "NVMM", uninitialised) != 0 then 13 else 0) < 1024
  }

  lemma LoadReads(ms: seq<Member>, uninitialised: int)
    requires forall m <- ms :: Loadable(m)
    ensures Load(ms, uninitialised).Success? <==> Sufficient(ms, uninitialised)
    ensures Load(ms, uninitialised).Success? ==> Loaded(Load(ms, uninitialised).setup, ms, uninitialised)
  {
    hide Loadable, LoadMembers, LastText, LastInt, LastAuto, LastFlag, CapsText, IntText, ReadsBack, Ascii;
    LoadsLast(ms, uninitialised);
    var l := LoadMembers(Loading(EMPTY, uninitialised), ms);
    if Complete(l.setup) {
      CapsReadBack(l.setup, l.nvmm);
    }
  }
}
