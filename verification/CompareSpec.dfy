/** `cJSON_Compare` as a function on values, and what it decides. */
module CompareSpec {
  import opened Bytes
  import opened JsonValue

  /** DBL_EPSILON. */
  const DBL_EPSILON: real := 1.0 / 4503599627370496.0

  function Abs(d: real): real { if d < 0.0 then -d else d }

  /** `compare_double`. */
  predicate CompareDouble(a: real, b: real) {
    Abs(a - b) <= (if Abs(a) > Abs(b) then Abs(a) else Abs(b)) * DBL_EPSILON
  }

  /** Between ints the tolerance leaves no slack. */
  lemma CompareInts(a: real, b: real)
    requires IsInt(a) && IsInt(b)
    ensures CompareDouble(a, b) <==> a == b
  {
    var m, n := IntOf(a), IntOf(b);
    var larger := if Abs(a) > Abs(b) then Abs(a) else Abs(b);
    assert larger <= 2147483648.0;
    assert larger * DBL_EPSILON <= 2147483648.0 * DBL_EPSILON < 1.0;
    assert a - b == (m - n) as real;
    if m != n {
      assert Abs(a - b) >= 1.0;
    }
  }

  /** Numbers of one sign are taken for equal within the 2^52nd part of the larger one, others not at all. */
  lemma ToleranceIsRelative(a: real, b: real)
    requires 0.0 <= b <= a
    ensures CompareDouble(a, b) <==> (a - b) * 4503599627370496.0 <= a
    ensures CompareDouble(b, a) == CompareDouble(-a, -b) == CompareDouble(-b, -a) == CompareDouble(a, b)
    ensures CompareDouble(a, -b) == CompareDouble(-a, b) == (a == 0.0)
  {
    assert a * DBL_EPSILON * 4503599627370496.0 == a;
    assert a > 0.0 ==> a * DBL_EPSILON < a;
  }

  /** `get_object_item`, case sensitive: the position of the first member with the name, or -1. */
  function Find(members: seq<Member>, key: CString): (i: int)
    ensures -1 <= i < |members|
    ensures i >= 0 ==> members[i].key == key
  {
    if members == [] then -1
    else if members[0].key == key then 0
    else
      var i := Find(members[1..], key);
      if i < 0 then -1 else i + 1
  }

  lemma {:induction false} FindFinds(members: seq<Member>, i: nat)
    requires i < |members|
    ensures 0 <= Find(members, members[i].key) <= i
  {
    if members[0].key != members[i].key {
      FindFinds(members[1..], i - 1);
    }
  }

  lemma {:induction false} HeightOfItem(items: seq<Json>, i: nat)
    requires i < |items|
    ensures Height(items[i]) <= ItemsHeight(items)
  {
    if i > 0 {
      HeightOfItem(items[1..], i - 1);
    }
  }

  lemma {:induction false} HeightOfMember(members: seq<Member>, i: nat)
    requires i < |members|
    ensures Height(members[i].value) <= MembersHeight(members)
  {
    if i > 0 {
      HeightOfMember(members[1..], i - 1);
    }
  }

  /** The comparison, loop by loop: objects are looked up in both directions. */
  ghost predicate Compare(a: Json, b: Json)
    decreases Height(a) + Height(b), 1
  {
    match (a, b)
    case (Null, Null) => true
    case (Bool(x), Bool(y)) => x == y
    case (Number(x), Number(y)) => CompareDouble(x, y)
    case (String(s), String(t)) => s == t
    case (Array(xs), Array(ys)) =>
      |xs| == |ys| && forall i :: 0 <= i < |xs| ==>
        (HeightOfItem(xs, i); HeightOfItem(ys, i);
         Compare(xs[i], ys[i]))
    case (Object(ms), Object(ns)) =>
      && (forall i :: 0 <= i < |ms| ==> MatchedIn(ms, i, ns))
      && (forall i :: 0 <= i < |ns| ==> MatchedIn(ns, i, ms))
    case _ => false
  }

  /** The member has a partner of the same name, and their values compare equal. */
  ghost predicate MatchedIn(ms: seq<Member>, i: nat, ns: seq<Member>)
    requires i < |ms|
    decreases MembersHeight(ms) + MembersHeight(ns) + 2, 0
  {
    var j := Find(ns, ms[i].key);
    j >= 0 &&
      (HeightOfMember(ms, i); HeightOfMember(ns, j);
       Compare(ms[i].value, ns[j].value))
  }

  // What is compared: arrays as sequences, objects as maps from names to values.

  datatype Meaning =
    | NullMeaning
    | BoolMeaning(b: bool)
    | NumberMeaning(value: real)
    | StringMeaning(s: CString)
    | ListMeaning(items: seq<Meaning>)
    | MapMeaning(members: map<CString, Meaning>)

  function MeaningOf(v: Json): Meaning {
    match v
    case Null => NullMeaning
    case Bool(b) => BoolMeaning(b)
    case Number(d) => NumberMeaning(d)
    case String(s) => StringMeaning(s)
    case Array(items) => ListMeaning(seq(|items|, i requires 0 <= i < |items| => MeaningOf(items[i])))
    case Object(members) => MapMeaning(MapOf(members))
  }

  /** The first of several members with one name counts. */
  function MapOf(members: seq<Member>): map<CString, Meaning> {
    if members == [] then map[] else MapOf(members[1..])[members[0].key := MeaningOf(members[0].value)]
  }

  /** Members of one object that share a name mean the same. */
  ghost predicate Consistent(v: Json) {
    match v
    case Array(items) => forall x <- items :: Consistent(x)
    case Object(members) =>
      && (forall m <- members :: Consistent(m.value))
      && (forall i, j :: 0 <= i < |members| && 0 <= j < |members| && members[i].key == members[j].key ==>
            MeaningOf(members[i].value) == MeaningOf(members[j].value))
    case _ => true
  }

  lemma {:induction false} MapOfFind(members: seq<Member>, key: CString)
    ensures key in MapOf(members) <==> Find(members, key) >= 0
    ensures Find(members, key) >= 0 ==> MapOf(members)[key] == MeaningOf(members[Find(members, key)].value)
  {
    if members != [] {
      MapOfFind(members[1..], key);
    }
  }

  /**
   * The comparison of printable trees decides equality of meaning, and nothing less: it also fails
   * when an object on either side repeats a name with different values.
   */
  lemma {:induction false} CompareExact(a: Json, b: Json)
    requires Printable(a) && Printable(b)
    ensures Compare(a, b) <==> Consistent(a) && Consistent(b) && MeaningOf(a) == MeaningOf(b)
    decreases Height(a) + Height(b), 1
  {
    match (a, b)
    case (Number(x), Number(y)) => CompareInts(x, y);
    case (Array(xs), Array(ys)) => CompareArrays(xs, ys);
    case (Object(ms), Object(ns)) => CompareObjects(ms, ns);
    case _ =>
  }

  lemma {:induction false} CompareArrays(xs: seq<Json>, ys: seq<Json>)
    requires Printable(Array(xs)) && Printable(Array(ys))
    ensures Compare(Array(xs), Array(ys))
       <==> Consistent(Array(xs)) && Consistent(Array(ys)) && MeaningOf(Array(xs)) == MeaningOf(Array(ys))
    decreases ItemsHeight(xs) + ItemsHeight(ys) + 2, 0
  {
    if |xs| == |ys| {
      forall i | 0 <= i < |xs|
        ensures Compare(xs[i], ys[i]) <==>
          Consistent(xs[i]) && Consistent(ys[i]) && MeaningOf(xs[i]) == MeaningOf(ys[i])
      {
        HeightOfItem(xs, i);
        HeightOfItem(ys, i);
        assert xs[i] in xs && ys[i] in ys;
        CompareExact(xs[i], ys[i]);
      }
      var l, r := MeaningOf(Array(xs)).items, MeaningOf(Array(ys)).items;
      assert l == r <==> forall i :: 0 <= i < |xs| ==> MeaningOf(xs[i]) == MeaningOf(ys[i]) by {
        assert forall i :: 0 <= i < |xs| ==> l[i] == MeaningOf(xs[i]) && r[i] == MeaningOf(ys[i]);
      }
    } else {
      assert |MeaningOf(Array(xs)).items| == |xs| && |MeaningOf(Array(ys)).items| == |ys|;
    }
  }

  lemma {:induction false} CompareObjects(ms: seq<Member>, ns: seq<Member>)
    requires Printable(Object(ms)) && Printable(Object(ns))
    ensures Compare(Object(ms), Object(ns))
       <==> Consistent(Object(ms)) && Consistent(Object(ns)) && MapOf(ms) == MapOf(ns)
    decreases MembersHeight(ms) + MembersHeight(ns) + 2, 0
  {
    forall i, j | 0 <= i < |ms| && 0 <= j < |ns|
      ensures Compare(ms[i].value, ns[j].value) <==> Agree(ms[i].value, ns[j].value)
      ensures Compare(ns[j].value, ms[i].value) <==> Agree(ms[i].value, ns[j].value)
    {
      HeightOfMember(ms, i);
      HeightOfMember(ns, j);
      assert ms[i] in ms && ns[j] in ns;
      CompareExact(ms[i].value, ns[j].value);
      CompareExact(ns[j].value, ms[i].value);
    }
    if Compare(Object(ms), Object(ns)) {
      MatchesAgree(ms, ns);
      MatchesAgree(ns, ms);
    }
    if Consistent(Object(ms)) && Consistent(Object(ns)) && MapOf(ms) == MapOf(ns) {
      EqualMapsMatch(ms, ns);
      EqualMapsMatch(ns, ms);
    }
  }

  ghost predicate Agree(v: Json, w: Json) { Consistent(v) && Consistent(w) && MeaningOf(v) == MeaningOf(w) }

  /** If every member has a partner, the members are consistent and their map lies within the other. */
  lemma MatchesAgree(ms: seq<Member>, ns: seq<Member>)
    requires forall i, j :: 0 <= i < |ms| && 0 <= j < |ns| ==>
      (Compare(ms[i].value, ns[j].value) <==> Agree(ms[i].value, ns[j].value))
    requires forall i :: 0 <= i < |ms| ==> MatchedIn(ms, i, ns)
    ensures Consistent(Object(ms))
    ensures forall key :: key in MapOf(ms) ==> key in MapOf(ns) && MapOf(ms)[key] == MapOf(ns)[key]
  {
    forall i | 0 <= i < |ms|
      ensures Find(ns, ms[i].key) >= 0 && Agree(ms[i].value, ns[Find(ns, ms[i].key)].value)
    {
      assert MatchedIn(ms, i, ns);
    }
    forall key | key in MapOf(ms)
      ensures key in MapOf(ns) && MapOf(ms)[key] == MapOf(ns)[key]
    {
      MapOfFind(ms, key);
      MapOfFind(ns, key);
    }
  }

  lemma ConsistentMembers(ms: seq<Member>)
    requires Consistent(Object(ms))
    ensures forall i :: 0 <= i < |ms| ==> Consistent(ms[i].value)
    ensures forall i, j :: 0 <= i < |ms| && 0 <= j < |ms| && ms[i].key == ms[j].key ==>
      MeaningOf(ms[i].value) == MeaningOf(ms[j].value)
  {
    hide MeaningOf;
    assert forall i :: 0 <= i < |ms| ==> ms[i] in ms;
  }

  /** Consistent members of equal maps find their partners. */
  lemma EqualMapsMatch(ms: seq<Member>, ns: seq<Member>)
    requires Consistent(Object(ms)) && Consistent(Object(ns)) && MapOf(ms) == MapOf(ns)
    requires forall i, j :: 0 <= i < |ms| && 0 <= j < |ns| ==>
      (Compare(ms[i].value, ns[j].value) <==> Agree(ms[i].value, ns[j].value))
    ensures forall i :: 0 <= i < |ms| ==> MatchedIn(ms, i, ns)
  {
    hide Compare, MapOf, Find, MeaningOf;
    ConsistentMembers(ms);
    ConsistentMembers(ns);
    forall i | 0 <= i < |ms|
      ensures MatchedIn(ms, i, ns)
    {
      FindFinds(ms, i);
      MapOfFind(ms, ms[i].key);
      MapOfFind(ns, ms[i].key);
      assert Agree(ms[i].value, ns[Find(ns, ms[i].key)].value);
    }
  }

  /** Names of one object are pairwise different, all the way down. */
  ghost predicate UniqueKeys(v: Json) {
    match v
    case Array(items) => forall x <- items :: UniqueKeys(x)
    case Object(members) =>
      && (forall m <- members :: UniqueKeys(m.value))
      && (forall i, j :: 0 <= i < j < |members| ==> members[i].key != members[j].key)
    case _ => true
  }

  lemma {:induction false} UniqueIsConsistent(v: Json)
    requires UniqueKeys(v)
    ensures Consistent(v)
  {
    match v
    case Array(items) =>
      forall x | x in items ensures Consistent(x) { UniqueIsConsistent(x); }
    case Object(members) =>
      forall m | m in members ensures Consistent(m.value) { UniqueIsConsistent(m.value); }
    case _ =>
  }

  /** With unique names the comparison is value equality: sequences for arrays, maps for objects. */
  lemma CompareIsValueEquality(a: Json, b: Json)
    requires Printable(a) && Printable(b) && UniqueKeys(a) && UniqueKeys(b)
    ensures Compare(a, b) <==> MeaningOf(a) == MeaningOf(b)
  {
    UniqueIsConsistent(a);
    UniqueIsConsistent(b);
    CompareExact(a, b);
  }

  /** A tree compares equal to itself or to a copy exactly when its repeated names agree. */
  lemma CompareReflexiveIff(a: Json)
    requires Printable(a)
    ensures Compare(a, a) <==> Consistent(a)
  {
    CompareExact(a, a);
  }

  lemma CompareSymmetric(a: Json, b: Json)
    requires Printable(a) && Printable(b)
    ensures Compare(a, b) <==> Compare(b, a)
  {
    CompareExact(a, b);
    CompareExact(b, a);
  }

  lemma CompareTransitive(a: Json, b: Json, c: Json)
    requires Printable(a) && Printable(b) && Printable(c) && Compare(a, b) && Compare(b, c)
    ensures Compare(a, c)
  {
    CompareExact(a, b);
    CompareExact(b, c);
    CompareExact(a, c);
  }
}
