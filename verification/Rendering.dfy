/** The text of a JSON value, as a pure function: the specification of the printer. */
module Rendering {
  import opened Bytes
  import opened JsonValue

  // Numbers: what sprintf writes for "%d".

  function Digits(n: nat): (t: CString)
    ensures |t| >= 1
    ensures forall i :: 0 <= i < |t| ==> IsDigit(t[i])
  {
    if n < 10 then [ZERO + n] else Digits(n / 10) + [ZERO + n % 10]
  }

  function IntText(n: int): CString {
    if n < 0 then [MINUS] + Digits(-n) else Digits(n)
  }

  lemma {:induction false} DigitsLength(n: nat, k: nat)
    requires k >= 1 && n < Pow10(k)
    ensures |Digits(n)| <= k
  {
    if n >= 10 {
      assert n / 10 < Pow10(k - 1);
      DigitsLength(n / 10, k - 1);
    }
  }

  function Pow10(k: nat): nat { if k == 0 then 1 else 10 * Pow10(k - 1) }

  /** A 32-bit int fits the 26-byte buffer that `print_number` formats it into. */
  lemma IntTextLength(n: int)
    requires INT_MIN <= n <= INT_MAX
    ensures 1 <= |IntText(n)| <= 11
  {
    assert Pow10(10) == 100_0000_0000 by {
      assert Pow10(5) == 10_0000;
    }
    DigitsLength(if n < 0 then -n else n, 10);
  }

  // Strings: the escapes of section 7 of RFC 8259.

  function HexDigit(d: nat): cbyte
    requires d < 16
  {
    if d < 10 then ZERO + d else 97 + d - 10
  }

  function EscapeByte(c: cbyte): CString {
    if c == QUOTE then [BACKSLASH, QUOTE]
    else if c == BACKSLASH then [BACKSLASH, BACKSLASH]
    else if c == BACKSPACE then [BACKSLASH, 98]
    else if c == FORMFEED then [BACKSLASH, 102]
    else if c == NEWLINE then [BACKSLASH, 110]
    else if c == RETURN then [BACKSLASH, 114]
    else if c == TAB then [BACKSLASH, 116]
    else if c < 32 then [BACKSLASH, 117, ZERO, ZERO, HexDigit(c / 16), HexDigit(c % 16)]
    else [c]
  }

  function Escape(s: CString): CString {
    if s == [] then [] else EscapeByte(s[0]) + Escape(s[1..])
  }

  function StringText(s: CString): CString { [QUOTE] + Escape(s) + [QUOTE] }

  lemma {:induction false} EscapeConcat(s: CString, t: CString)
    ensures Escape(s + t) == Escape(s) + Escape(t)
  {
    if s == [] {
      assert s + t == t;
    } else {
      assert (s + t)[1..] == s[1..] + t;
      EscapeConcat(s[1..], t);
    }
  }

  // Values. `format` chooses between formatted and compact text, `depth` is the nesting depth.

  function Tabs(n: nat): CString { seq(n, _ => TAB) }

  function Render(v: Json, format: bool, depth: nat): CString
    decreases v
  {
    match v
    case Null => NULL_TEXT
    case Bool(b) => if b then TRUE_TEXT else FALSE_TEXT
    case Number(d) => IntText(IntOf(d))
    case String(s) => StringText(s)
    case Array(items) => [OPEN_BRACKET] + ItemsText(items, format, depth + 1) + [CLOSE_BRACKET]
    case Object(members) =>
      OpenObject(format) + MembersText(members, format, depth + 1) + CloseObject(format, depth)
  }

  function OpenObject(format: bool): CString {
    if format then [OPEN_BRACE, NEWLINE] else [OPEN_BRACE]
  }

  function CloseObject(format: bool, depth: nat): CString {
    (if format then Tabs(depth) else []) + [CLOSE_BRACE]
  }

  /** The text of the remaining items of an array. */
  function ItemsText(items: seq<Json>, format: bool, depth: nat): CString
    decreases items
  {
    if items == [] then [] else
      Render(items[0], format, depth) + ItemSeparator(format, |items| > 1) + ItemsText(items[1..], format, depth)
  }

  function ItemSeparator(format: bool, more: bool): CString {
    if !more then [] else if format then [COMMA, SPACE] else [COMMA]
  }

  /** The text of the remaining members of an object, each on its own line when formatted. */
  function MembersText(members: seq<Member>, format: bool, depth: nat): CString
    decreases members
  {
    if members == [] then [] else
      MemberHead(members[0].key, format, depth)
      + Render(members[0].value, format, depth)
      + MemberTail(format, |members| > 1)
      + MembersText(members[1..], format, depth)
  }

  lemma EmptyMembers(members: seq<Member>, format: bool, depth: nat)
    ensures members == [] ==> MembersText(members, format, depth) == []
  {
  }

  function MemberHead(key: CString, format: bool, depth: nat): CString {
    (if format then Tabs(depth) else []) + StringText(key) + KeySeparator(format)
  }

  function KeySeparator(format: bool): CString {
    if format then [COLON, TAB] else [COLON]
  }

  function MemberTail(format: bool, more: bool): CString {
    (if more then [COMMA] else []) + (if format then [NEWLINE] else [])
  }
}
