/** What `cJSON_Minify` takes away: every text is a row of parts, and some of the parts stay. */
module MinifyParts {
  import opened Bytes
  import opened Minify

  /** The last three run to the end of the text, their ends being missing. */
  datatype Part =
    | Blank(b: cbyte)
    | LineComment(body: CString)
    | BlockComment(body: CString)
    | LoneSlash
    | Literal(inner: CString)
    | Other(b: cbyte)
    | OpenLine(body: CString)
    | OpenBlock(body: CString)
    | OpenLiteral(inner: CString)

  function PartText(x: Part): CString {
    match x
    case Blank(b) => [b]
    case LineComment(body) => [47, 47] + body + [10]
    case BlockComment(body) => [47, 42] + body + [42, 47]
    case LoneSlash => [47]
    case Literal(inner) => [34] + inner + [34]
    case Other(b) => [b]
    case OpenLine(body) => [47, 47] + body
    case OpenBlock(body) => [47, 42] + body
    case OpenLiteral(inner) => [34] + inner
  }

  /** Every quote has a backslash before it. */
  predicate NoEnd(inner: CString) { forall i :: 0 <= i < |inner| && inner[i] == 34 ==> i > 0 && inner[i - 1] == 92 }

  predicate NoBlockEnd(body: CString) { forall i :: 0 < i < |body| ==> !(body[i - 1] == 42 && body[i] == 47) }

  predicate Fine(x: Part) {
    match x
    case Blank(b) => b in {9, 10, 13, 32}
    case LineComment(body) => 10 !in body
    case BlockComment(body) => NoBlockEnd(body)
    case LoneSlash => true
    case Literal(inner) => NoEnd(inner) && (inner != [] ==> inner[|inner| - 1] != 92)
    case Other(b) => b !in {9, 10, 13, 32, 34, 47}
    case OpenLine(body) => 10 !in body
    case OpenBlock(body) => NoBlockEnd(body)
    case OpenLiteral(inner) => NoEnd(inner)
  }

  predicate Open(x: Part) { x.OpenLine? || x.OpenBlock? || x.OpenLiteral? }

  /** No comment starts with a lone slash, and only the last part may be open. */
  predicate FineRow(parts: seq<Part>) {
    parts != [] ==>
      && Fine(parts[0]) && FineRow(parts[1..]) && (Open(parts[0]) ==> |parts| == 1)
      && (parts[0].LoneSlash? && |parts| > 1 ==> PartText(parts[1])[0] !in {42, 47})
  }

  function RowText(parts: seq<Part>): CString {
    if parts == [] then [] else PartText(parts[0]) + RowText(parts[1..])
  }

  /** Strings and all bytes that are neither white space nor slashes stay. */
  function Kept(parts: seq<Part>): CString {
    if parts == [] then []
    else if parts[0].Literal? || parts[0].Other? || parts[0].OpenLiteral? then PartText(parts[0]) + Kept(parts[1..])
    else Kept(parts[1..])
  }

  lemma {:induction false} LineEnds(body: CString, t: CString)
    requires 10 !in body
    ensures AfterLine(body + [10] + t) == t && AfterLine(body) == []
  {
    if body == [] {
      assert ([] + [10] + t)[1..] == t;
    } else {
      assert (body + [10] + t)[1..] == body[1..] + [10] + t;
      LineEnds(body[1..], t);
    }
  }

  lemma {:induction false} BlockEnds(body: CString, t: CString)
    requires NoBlockEnd(body)
    ensures AfterBlock(body + [42, 47] + t) == t && AfterBlock(body) == []
  {
    if body == [] {
      assert ([] + [42, 47] + t)[2..] == t;
    } else {
      var s := body + [42, 47] + t;
      assert s[1..] == body[1..] + [42, 47] + t;
      assert forall i :: 0 < i < |body| - 1 ==> body[1..][i] == body[i + 1] && body[1..][i - 1] == body[i];
      BlockEnds(body[1..], t);
      assert |body| > 1 ==> s[1] == body[1];
    }
  }

  /** A string is copied up to its end, or to the end of the text. */
  lemma {:induction false} LiteralEnds(inner: CString, t: CString)
    requires NoEnd(inner)
    ensures In(inner) == inner
    ensures (inner != [] ==> inner[|inner| - 1] != 92) ==> In(inner + [34] + t) == inner + [34] + Out(t)
    decreases |inner|
  {
    hide Out, In, NoEnd;
    if inner == [] {
      NothingInside(t);
    } else {
      var k := if inner[0] == 92 && |inner| > 1 && inner[1] == 34 then 2 else 1;
      Shorter(inner, k);
      LiteralEnds(inner[k..], t);
      StringSteps(inner, k, t);
      Rejoined(inner, k, Out(t));
      assert inner[k..] != [] ==> inner[k..][|inner| - k - 1] == inner[|inner| - 1];
    }
  }

  lemma {:induction false} NothingInside(t: CString)
    ensures In([]) == [] && In([] + [34] + t) == [] + [34] + Out(t)
  {
    hide Out, In;
    InEnd();
    InHead([34] + t);
    assert [] + [34] + t == [34] + t && ([34] + t)[1..] == t;
  }

  lemma {:induction false} Rejoined(inner: CString, k: nat, r: CString)
    requires k <= |inner|
    ensures inner[..k] + (inner[k..] + [34] + r) == inner + [34] + r
  {
    assert inner == inner[..k] + inner[k..];
  }

  lemma {:induction false} Shorter(inner: CString, k: nat)
    requires NoEnd(inner) && inner != []
    requires k == if inner[0] == 92 && |inner| > 1 && inner[1] == 34 then 2 else 1
    ensures NoEnd(inner[k..])
  {
    assert forall i :: 0 <= i < |inner| - k ==> inner[k..][i] == inner[k + i];
  }

  lemma {:induction false} StringSteps(inner: CString, k: nat, t: CString)
    requires NoEnd(inner) && inner != []
    requires k == if inner[0] == 92 && |inner| > 1 && inner[1] == 34 then 2 else 1
    ensures In(inner) == inner[..k] + In(inner[k..]) && inner == inner[..k] + inner[k..]
    ensures |inner| > 1 || inner[0] != 92 ==> In(inner + [34] + t) == inner[..k] + In(inner[k..] + [34] + t)
  {
    hide In;
    var s := inner + [34] + t;
    InHead(inner);
    InHead(s);
    assert s[k..] == inner[k..] + [34] + t && s[0] == inner[0] && (|inner| > 1 ==> s[1] == inner[1]);
  }

  lemma {:induction false} PartOfText(x: Part, t: CString)
    requires Fine(x) && (x.LoneSlash? && t != [] ==> t[0] !in {42, 47}) && (Open(x) ==> t == [])
    ensures Out(PartText(x) + t) == Kept([x]) + Out(t)
  {
    hide In, Out, Fine, PartText;
    KeptOne(x);
    InEnd();
    match x
    case Literal(inner) => LiteralPart(x, t);
    case OpenLiteral(inner) => LiteralPart(x, t);
    case LineComment(body) => LinePart(x, t);
    case OpenLine(body) => LinePart(x, t);
    case BlockComment(body) => BlockPart(x, t);
    case OpenBlock(body) => BlockPart(x, t);
    case _ => OneByte(x, t);
  }

  lemma {:induction false} KeptOne(x: Part)
    ensures Kept([x]) == if x.Literal? || x.Other? || x.OpenLiteral? then PartText(x) else []
  {
    hide PartText;
    assert [x][1..] == [];
  }

  lemma {:induction false} OneByte(x: Part, t: CString)
    requires Fine(x) && (x.Blank? || x.LoneSlash? || x.Other?) && (x.LoneSlash? && t != [] ==> t[0] !in {42, 47})
    ensures Out(PartText(x) + t) == (if x.Other? then PartText(x) else []) + Out(t)
  {
    hide Out;
    var s := PartText(x) + t;
    OutHead(s);
    assert s[1..] == t && (t != [] ==> s[1] == t[0]);
  }

  lemma {:induction false} CommentBegins(a: CString, body: CString, b: CString, t: CString)
    requires |a| == 2
    ensures var s := a + body + b + t; s[0] == a[0] && s[1] == a[1] && s[2..] == body + b + t
    ensures var s := a + body + []; s[0] == a[0] && s[1] == a[1] && s[2..] == body
  {
  }

  lemma {:induction false} FineComment(x: Part)
    requires Fine(x)
    ensures x.LineComment? || x.OpenLine? ==> 10 !in x.body
    ensures x.BlockComment? || x.OpenBlock? ==> NoBlockEnd(x.body)
  {
  }

  lemma {:induction false} LinePart(x: Part, t: CString)
    requires Fine(x) && (x.LineComment? || (x.OpenLine? && t == []))
    ensures Out(PartText(x) + t) == Out(t)
  {
    hide Out, AfterLine, Fine;
    FineComment(x);
    var s := PartText(x) + t;
    OutHead(s);
    LineEnds(x.body, t);
    CommentBegins([47, 47], x.body, [10], t);
  }

  lemma {:induction false} BlockPart(x: Part, t: CString)
    requires Fine(x) && (x.BlockComment? || (x.OpenBlock? && t == []))
    ensures Out(PartText(x) + t) == Out(t)
  {
    hide Out, AfterBlock, NoBlockEnd, Fine;
    FineComment(x);
    var s := PartText(x) + t;
    OutHead(s);
    BlockEnds(x.body, t);
    CommentBegins([47, 42], x.body, [42, 47], t);
  }

  lemma {:induction false} LiteralPart(x: Part, t: CString)
    requires Fine(x) && (x.Literal? || (x.OpenLiteral? && t == []))
    ensures Out(PartText(x) + t) == PartText(x) + Out(t)
  {
    hide Out, In, NoEnd;
    var s := PartText(x) + t;
    OutHead(s);
    InEnd();
    LiteralEnds(x.inner, t);
    LiteralBegins(x.inner, t, Out(t));
  }

  lemma {:induction false} LiteralBegins(inner: CString, t: CString, r: CString)
    ensures var s := [34] + inner + [34] + t; s[0] == 34 && s[1..] == inner + [34] + t
    ensures var s := [34] + inner + []; s[0] == 34 && s[1..] == inner && s == [34] + inner
    ensures [34] + (inner + [34] + r) == [34] + inner + [34] + r && [34] + inner + [] == [34] + inner
  {
  }

  /** Minifying takes away the white space, the comments and the lone slashes, and nothing else. */
  lemma {:induction false} OutIsKept(parts: seq<Part>)
    requires FineRow(parts)
    ensures Out(RowText(parts)) == Kept(parts)
    decreases |parts|
  {
    hide Out, Fine, PartText;
    InEnd();
    if parts != [] {
      var rest := RowText(parts[1..]);
      RowBegins(parts[1..]);
      PartOfText(parts[0], rest);
      OutIsKept(parts[1..]);
      KeptFirst(parts);
    }
  }

  lemma {:induction false} RowBegins(parts: seq<Part>)
    ensures parts == [] ==> RowText(parts) == []
    ensures parts != [] ==> PartText(parts[0]) != [] && RowText(parts)[0] == PartText(parts[0])[0]
  {
  }

  lemma {:induction false} KeptFirst(parts: seq<Part>)
    requires parts != []
    ensures Kept(parts) == Kept([parts[0]]) + Kept(parts[1..])
  {
    hide PartText;
    assert [parts[0]][1..] == [];
  }

  // Every text is such a row.

  lemma {:induction false} SplitLine(t: CString) returns (body: CString, rest: CString, closed: bool)
    ensures 10 !in body && |rest| <= |t| && t == if closed then body + [10] + rest else body
    ensures !closed ==> rest == []
  {
    body, rest, closed := [], [], false;
    if t != [] {
      if t[0] == 10 {
        rest, closed := t[1..], true;
      } else {
        body, rest, closed := SplitLine(t[1..]);
        body := [t[0]] + body;
      }
    }
  }

  lemma {:induction false} SplitBlock(t: CString) returns (body: CString, rest: CString, closed: bool)
    ensures NoBlockEnd(body) && |rest| <= |t| && t == if closed then body + [42, 47] + rest else body
    ensures !closed ==> rest == []
  {
    body, rest, closed := [], [], false;
    if t != [] {
      if t[0] == 42 && |t| > 1 && t[1] == 47 {
        rest, closed := t[2..], true;
      } else {
        var more;
        more, rest, closed := SplitBlock(t[1..]);
        body := [t[0]] + more;
        assert t == if closed then body + [42, 47] + rest else body;
        assert forall i :: 0 < i < |body| ==> body[i] == more[i - 1];
        assert |body| > 1 ==> t[1] == body[1];
      }
    }
  }

  lemma {:induction false} SplitLiteral(t: CString) returns (inner: CString, rest: CString, closed: bool)
    ensures NoEnd(inner) && |rest| <= |t| && t == if closed then inner + [34] + rest else inner
    ensures (closed && inner != [] ==> inner[|inner| - 1] != 92) && (!closed ==> rest == [])
    decreases |t|
  {
    inner, rest, closed := [], [], false;
    if t != [] {
      if t[0] == 34 {
        rest, closed := t[1..], true;
      } else {
        var k := if t[0] == 92 && |t| > 1 && t[1] == 34 then 2 else 1;
        var more;
        more, rest, closed := SplitLiteral(t[k..]);
        inner := t[..k] + more;
        assert t == t[..k] + t[k..];
        assert forall i :: k <= i < |inner| ==> inner[i] == more[i - k];
        assert more == [] && closed ==> t[k] == 34;
      }
    }
  }

  /** Every text is a row of parts. */
  lemma {:induction false} RowOf(t: CString) returns (parts: seq<Part>)
    ensures FineRow(parts) && RowText(parts) == t
    decreases |t|
  {
    hide NoEnd, NoBlockEnd;
    parts := [];
    if t != [] {
      var x, rest := FirstPart(t);
      var more := RowOf(rest);
      parts := [x] + more;
      assert parts[1..] == more;
      RowBegins(more);
    }
  }

  lemma MinifiedText(t: CString) returns (parts: seq<Part>)
    ensures FineRow(parts) && RowText(parts) == t && Out(t) == Kept(parts)
  {
    parts := RowOf(t);
    OutIsKept(parts);
  }

  lemma {:induction false} FirstPart(t: CString) returns (x: Part, rest: CString)
    requires t != []
    ensures Fine(x) && t == PartText(x) + rest && |rest| < |t| && (Open(x) ==> rest == [])
    ensures x.LoneSlash? && rest != [] ==> rest[0] !in {42, 47}
  {
    hide NoEnd, NoBlockEnd;
    var closed;
    x, rest := Other(t[0]), t[1..];
    if t[0] in {9, 10, 13, 32} {
      x := Blank(t[0]);
    } else if t[0] == 34 {
      var inner;
      inner, rest, closed := SplitLiteral(t[1..]);
      x := if closed then Literal(inner) else OpenLiteral(inner);
    } else if t[0] == 47 && |t| > 1 && t[1] == 47 {
      var body;
      body, rest, closed := SplitLine(t[2..]);
      x := if closed then LineComment(body) else OpenLine(body);
    } else if t[0] == 47 && |t| > 1 && t[1] == 42 {
      var body;
      body, rest, closed := SplitBlock(t[2..]);
      x := if closed then BlockComment(body) else OpenBlock(body);
    } else if t[0] == 47 {
      x := LoneSlash;
    }
  }
}
