/** JSON values: what a cJSON tree denotes. */
module JsonValue {
  import opened Bytes

  /** The members of an object keep the order of the child list, and keys may repeat. */
  datatype Json =
    | Null
    | Bool(b: bool)
    | Number(value: real)
    | String(s: CString)
    | Array(items: seq<Json>)
    | Object(members: seq<Member>)

  datatype Member = Member(key: CString, value: Json)

  /** The C conversion from double to int. */
  function Truncate(d: real): int { if d >= 0.0 then d.Floor else -((-d).Floor) }

  /** `valueint` of a number: truncation towards zero, saturating at the limits of int. */
  function IntOf(d: real): (n: int)
    ensures INT_MIN <= n <= INT_MAX
  {
    if d >= INT_MAX as real then INT_MAX
    else if d <= INT_MIN as real then INT_MIN
    else Truncate(d)
  }

  /** The integer next to `d` on the side of zero. */
  lemma TruncatesTowardsZero(d: real)
    ensures var n := Truncate(d) as real;
      if d >= 0.0 then 0.0 <= n <= d < n + 1.0 else n - 1.0 < d <= n <= 0.0
  {
    assert d < 0.0 ==> (-d).Floor >= 0;
  }

  /** The int of a number is the nearest one on the side of zero that has 32 bits. */
  lemma IntOfIsTruncated(d: real)
    ensures d >= 2147483647.0 ==> IntOf(d) == 2147483647
    ensures d <= -2147483648.0 ==> IntOf(d) == -2147483648
    ensures 0.0 <= d < 2147483647.0 ==> IntOf(d) as real <= d < IntOf(d) as real + 1.0
    ensures -2147483648.0 < d < 0.0 ==> IntOf(d) as real - 1.0 < d <= IntOf(d) as real
  {
    TruncatesTowardsZero(d);
  }

  /** The number is an int, so that it prints through `%d`. */
  predicate IsInt(d: real) { d == IntOf(d) as real }

  lemma IntOfInt(n: int)
    requires INT_MIN <= n <= INT_MAX
    ensures IntOf(n as real) == n && IsInt(n as real)
  {
    assert (-(n as real)).Floor == -n;
  }

  /** Every number of the value is an int. */
  predicate Printable(v: Json) {
    match v
    case Number(d) => IsInt(d)
    case Array(items) => forall x <- items :: Printable(x)
    case Object(members) => forall m <- members :: Printable(m.value)
    case _ => true
  }

  /** How many arrays and objects are nested inside each other. */
  function Height(v: Json): nat {
    match v
    case Array(items) => 1 + ItemsHeight(items)
    case Object(members) => 1 + MembersHeight(members)
    case _ => 0
  }

  function ItemsHeight(items: seq<Json>): nat {
    if items == [] then 0 else Max(Height(items[0]), ItemsHeight(items[1..]))
  }

  function MembersHeight(members: seq<Member>): nat {
    if members == [] then 0 else Max(Height(members[0].value), MembersHeight(members[1..]))
  }

  function Max(a: nat, b: nat): nat { if a < b then b else a }
}
