/** What a reader finds in an object under a name: names may repeat, and some readers take the first, some the last. */
module Finding {
  import opened Bytes
  import opened JsonValue

  datatype Lookup = Found(value: Json) | Absent

  function First(members: seq<Member>, key: CString): Lookup {
    if members == [] then Absent
    else if members[0].key == key then Found(members[0].value)
    else First(members[1..], key)
  }

  function Last(members: seq<Member>, key: CString): Lookup {
    if members == [] then Absent
    else if members[|members| - 1].key == key then Found(members[|members| - 1].value)
    else Last(members[..|members| - 1], key)
  }

  /** The member at `i` is the first of that name, and has the value. */
  predicate IsFirst(members: seq<Member>, i: nat, key: CString, value: Json) {
    i < |members| && members[i] == Member(key, value) && forall j :: 0 <= j < i ==> members[j].key != key
  }

  predicate IsLast(members: seq<Member>, i: nat, key: CString, value: Json) {
    i < |members| && members[i] == Member(key, value) && forall j :: i < j < |members| ==> members[j].key != key
  }

  lemma {:induction false} FirstIsFirst(members: seq<Member>, key: CString)
    ensures First(members, key).Found? ==> exists i: nat :: IsFirst(members, i, key, First(members, key).value)
    ensures First(members, key).Absent? ==> forall m <- members :: m.key != key
  {
    if members != [] {
      FirstIsFirst(members[1..], key);
      assert members == [members[0]] + members[1..];
      if members[0].key == key {
        assert IsFirst(members, 0, key, members[0].value);
      } else if First(members, key).Found? {
        var v := First(members, key).value;
        var i: nat :| IsFirst(members[1..], i, key, v);
        assert IsFirst(members, i + 1, key, v);
      }
    }
  }

  lemma {:induction false} LastIsLast(members: seq<Member>, key: CString)
    ensures Last(members, key).Found? ==> exists i: nat :: IsLast(members, i, key, Last(members, key).value)
    ensures Last(members, key).Absent? ==> forall m <- members :: m.key != key
  {
    if members != [] {
      var n := |members| - 1;
      LastIsLast(members[..n], key);
      assert members == members[..n] + [members[n]];
      if members[n].key == key {
        assert IsLast(members, n, key, members[n].value);
      } else if Last(members, key).Found? {
        var v := Last(members, key).value;
        var i: nat :| IsLast(members[..n], i, key, v);
        assert IsLast(members, i, key, v);
      }
    }
  }

  lemma {:induction false} FirstOfBoth(a: seq<Member>, b: seq<Member>, key: CString)
    ensures First(a + b, key) == if First(a, key).Found? then First(a, key) else First(b, key)
  {
    if a == [] {
      assert a + b == b;
    } else {
      assert (a + b)[1..] == a[1..] + b;
      FirstOfBoth(a[1..], b, key);
    }
  }

  lemma FirstOfThree(a: seq<Member>, b: seq<Member>, c: seq<Member>, key: CString)
    ensures First(a + b + c, key)
      == if First(a, key).Found? then First(a, key)
         else if First(b, key).Found? then First(b, key)
         else First(c, key)
  {
    FirstOfBoth(a, b, key);
    FirstOfBoth(a + b, c, key);
  }

  // Names.

  /** A reader that takes the first member under the name gets the value. */
  predicate Finds(v: Json, name: string, value: Json)
  {
    v.Object? && First(v.members, Ascii(name)) == Found(value)
  }

  predicate Lacks(v: Json, name: string)
  {
    v.Object? && First(v.members, Ascii(name)) == Absent
  }
}
