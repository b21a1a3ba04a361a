/** `cJSON_Minify`: removing white space and comments in place. */
module Minify {
  import opened Bytes
  import opened JsonValue
  import opened Rendering
  import opened ParseSpec
  import opened RoundTrip

  const STAR: cbyte := 42

  predicate White(c: byte) { c == SPACE || c == TAB || c == RETURN || c == NEWLINE }

  // The specification. `Out` and `In` are what is left of a text that starts outside or inside a string.

  function AfterLine(t: CString): (rest: CString)
    ensures |rest| <= |t|
  {
    if t == [] then [] else if t[0] == NEWLINE then t[1..] else AfterLine(t[1..])
  }

  function AfterBlock(t: CString): (rest: CString)
    ensures |rest| <= |t|
  {
    if t == [] then [] else if t[0] == STAR && |t| > 1 && t[1] == SLASH then t[2..] else AfterBlock(t[1..])
  }

  function Out(t: CString): CString
    decreases |t|
  {
    if t == [] then []
    else if White(t[0]) then Out(t[1..])
    else if t[0] == SLASH then
      if |t| > 1 && t[1] == SLASH then Out(AfterLine(t[2..]))
      else if |t| > 1 && t[1] == STAR then Out(AfterBlock(t[2..]))
      else Out(t[1..])
    else if t[0] == QUOTE then [QUOTE] + In(t[1..])
    else [t[0]] + Out(t[1..])
  }

  function In(t: CString): CString
    decreases |t|
  {
    if t == [] then []
    else if t[0] == QUOTE then [QUOTE] + Out(t[1..])
    else if t[0] == BACKSLASH && |t| > 1 && t[1] == QUOTE then [BACKSLASH, QUOTE] + In(t[2..])
    else [t[0]] + In(t[1..])
  }

  /** Nothing is gained by minifying twice. */
  lemma {:induction false} OutIsIdempotent(t: CString)
    ensures Out(Out(t)) == Out(t)
    decreases |t|
  {
    if t != [] {
      if White(t[0]) {
        OutIsIdempotent(t[1..]);
      } else if t[0] == SLASH {
        OutIsIdempotent(if |t| > 1 && t[1] == SLASH then AfterLine(t[2..])
                        else if |t| > 1 && t[1] == STAR then AfterBlock(t[2..])
                        else t[1..]);
      } else if t[0] == QUOTE {
        InIsIdempotent(t[1..]);
      } else {
        OutIsIdempotent(t[1..]);
      }
    }
  }

  lemma {:induction false} InIsIdempotent(t: CString)
    ensures In(In(t)) == In(t)
    decreases |t|
  {
    if t != [] {
      if t[0] == QUOTE {
        OutIsIdempotent(t[1..]);
      } else if t[0] == BACKSLASH && |t| > 1 && t[1] == QUOTE {
        InIsIdempotent(t[2..]);
        assert ([BACKSLASH, QUOTE] + In(t[2..]))[2..] == In(t[2..]);
      } else {
        InIsIdempotent(t[1..]);
        assert ([t[0]] + In(t[1..]))[1..] == In(t[1..]);
      }
    }
  }

  // Minifying formatted text.

  /**
   * What the minifier makes of a value: every string ends where it should; it takes itself to be
   * inside the last string; it goes wrong earlier.
   */
  datatype Quotes = Closed | OpenAtEnd | Lost

  predicate EndsInBackslash(s: CString) { s != [] && s[|s| - 1] == BACKSLASH }

  function QuotesOf(v: Json): Quotes {
    match v
    case String(s) => if EndsInBackslash(s) then OpenAtEnd else Closed
    case Array(items) => QuotesOfItems(items)
    case Object(members) =>
      if forall m <- members :: !EndsInBackslash(m.key) && QuotesOf(m.value) == Closed then Closed else Lost
    case _ => Closed
  }

  /** Only the last item may end in a string with a backslash at its end. */
  function QuotesOfItems(items: seq<Json>): Quotes {
    if items == [] then Closed
    else match QuotesOf(items[0])
      case Closed => QuotesOfItems(items[1..])
      case OpenAtEnd => if |items| == 1 then OpenAtEnd else Lost
      case Lost => Lost
  }

  /** The rest of the text after `q`. */
  function Rest(q: Quotes, t: CString): CString { if q.OpenAtEnd? then In(t) else Out(t) }

  /** The text `f` minifies to `c` and what is left after `q`, or to nothing that starts with `c`, whatever follows. */
  ghost predicate Minifies(q: Quotes, f: CString, c: CString) {
    forall t, u :: MinifiesBefore(q, f, c, t, u)
  }

  ghost predicate MinifiesBefore(q: Quotes, f: CString, c: CString, t: CString, u: CString) {
    if q.Lost? then Out(f + t) != c + u else Out(f + t) == c + Rest(q, t)
  }

  predicate Plain(p: CString) {
    forall i :: 0 <= i < |p| ==> !White(p[i]) && p[i] != SLASH && p[i] != QUOTE
  }

  lemma {:induction false} OutPlain(p: CString, t: CString)
    requires Plain(p)
    ensures Out(p + t) == p + Out(t)
  {
    if p == [] {
      assert p + t == t;
    } else {
      assert (p + t)[1..] == p[1..] + t;
      OutPlain(p[1..], t);
      assert p == [p[0]] + p[1..];
    }
  }

  lemma {:induction false} OutWhite(w: CString, t: CString)
    requires forall i :: 0 <= i < |w| ==> White(w[i])
    ensures Out(w + t) == Out(t)
  {
    if w == [] {
      assert w + t == t;
    } else {
      assert (w + t)[1..] == w[1..] + t;
      OutWhite(w[1..], t);
    }
  }

  /** Copying one escaped byte; only a backslash before a closing quote is mistaken. */
  lemma InEscapeByte(c: cbyte, t: CString)
    requires c == BACKSLASH ==> t != [] && t[0] != QUOTE
    ensures In(EscapeByte(c) + t) == EscapeByte(c) + In(t)
  {
    hide In;
    if c == QUOTE {
      InEscapedQuote(t);
    } else if c == BACKSLASH {
      InTwoBackslashes(t);
    } else if c < 32 {
      InControl(c, t);
    } else {
      InCopies([c], t);
    }
  }

  lemma InControl(c: cbyte, t: CString)
    requires c < 32
    ensures In(EscapeByte(c) + t) == EscapeByte(c) + In(t)
  {
    hide In;
    var e := EscapeByte(c);
    var rest := e[1..];
    assert e == [BACKSLASH] + rest && |rest| >= 1;
    assert forall i :: 0 <= i < |rest| ==> rest[i] != QUOTE && rest[i] != BACKSLASH;
    hide EscapeByte;
    InCopies(rest, t);
    InBackslash(rest + t);
    assert e + t == [BACKSLASH] + (rest + t);
    assert e + In(t) == [BACKSLASH] + (rest + In(t));
  }

  lemma InBackslash(t: CString)
    requires t != [] && t[0] != QUOTE
    ensures In([BACKSLASH] + t) == [BACKSLASH] + In(t)
  {
    assert ([BACKSLASH] + t)[1..] == t;
  }

  lemma InEscapedQuote(t: CString)
    ensures In([BACKSLASH, QUOTE] + t) == [BACKSLASH, QUOTE] + In(t)
  {
    assert ([BACKSLASH, QUOTE] + t)[2..] == t;
  }

  lemma InTwoBackslashes(t: CString)
    requires t != [] && t[0] != QUOTE
    ensures In([BACKSLASH, BACKSLASH] + t) == [BACKSLASH, BACKSLASH] + In(t)
  {
    hide In;
    InBackslash(t);
    InBackslash([BACKSLASH] + t);
    assert [BACKSLASH] + ([BACKSLASH] + t) == [BACKSLASH, BACKSLASH] + t;
  }

  lemma {:induction false} InCopies(p: CString, t: CString)
    requires forall i :: 0 <= i < |p| ==> p[i] != QUOTE && p[i] != BACKSLASH
    ensures In(p + t) == p + In(t)
  {
    if p == [] {
      assert p + t == t;
    } else {
      assert (p + t)[1..] == p[1..] + t;
      InCopies(p[1..], t);
      assert p == [p[0]] + p[1..];
    }
  }

  lemma InQuote(t: CString)
    ensures In([QUOTE] + t) == [QUOTE] + Out(t)
    ensures In([BACKSLASH, BACKSLASH, QUOTE] + t) == [BACKSLASH, BACKSLASH, QUOTE] + In(t)
  {
    assert ([QUOTE] + t)[1..] == t;
    var x := [BACKSLASH, BACKSLASH, QUOTE] + t;
    assert x[1..] == [BACKSLASH, QUOTE] + t && x[1..][2..] == t;
  }

  lemma {:induction false} InEscape(s: CString, t: CString)
    ensures In(Escape(s) + ([QUOTE] + t)) == Escape(s) + ([QUOTE] + (if EndsInBackslash(s) then In(t) else Out(t)))
  {
    hide In, Out, EscapeByte, Escape, EndsInBackslash;
    if s == [] || s == [BACKSLASH] {
      InShortEscape(s, t);
    } else {
      var rest, e := s[1..], EscapeByte(s[0]);
      var g, after := Escape(rest) + ([QUOTE] + t), [QUOTE] + (if EndsInBackslash(rest) then In(t) else Out(t));
      InEscape(rest, t);
      EscapeStarts(rest);
      EscapeHead(s);
      InEscapeByte(s[0], g);
      assert Escape(s) + ([QUOTE] + t) == e + g;
      assert Escape(s) + after == e + (Escape(rest) + after);
    }
  }

  /** The first byte and the rest of a string that is not just a backslash. */
  lemma EscapeHead(s: CString)
    requires s != [] && s != [BACKSLASH]
    ensures Escape(s) == EscapeByte(s[0]) + Escape(s[1..]) && EndsInBackslash(s) == EndsInBackslash(s[1..])
    ensures s[0] == BACKSLASH ==> s[1..] != []
  {
  }

  lemma InShortEscape(s: CString, t: CString)
    requires s == [] || s == [BACKSLASH]
    ensures In(Escape(s) + ([QUOTE] + t)) == Escape(s) + ([QUOTE] + (if EndsInBackslash(s) then In(t) else Out(t)))
  {
    hide In, Out, EscapeByte;
    InQuote(t);
    if s == [] {
      assert Escape(s) + ([QUOTE] + t) == [QUOTE] + t;
    } else {
      assert Escape(s) == [BACKSLASH, BACKSLASH] by { EscapeBackslash(); }
      assert Escape(s) + ([QUOTE] + t) == [BACKSLASH, BACKSLASH, QUOTE] + t;
    }
  }

  lemma EscapeBackslash()
    ensures Escape([BACKSLASH]) == [BACKSLASH, BACKSLASH]
  {
  }

  lemma EscapeStarts(s: CString)
    ensures s != [] ==> Escape(s) != [] && Escape(s)[0] != QUOTE
  {
  }

  /** A string is copied as it stands; a backslash at its end hides the closing quote. */
  lemma MinifiesString(s: CString)
    ensures Minifies(if EndsInBackslash(s) then OpenAtEnd else Closed, StringText(s), StringText(s))
  {
    hide In, Out, Escape, EndsInBackslash;
    var q := if EndsInBackslash(s) then OpenAtEnd else Closed;
    forall t: CString, u: CString
      ensures MinifiesBefore(q, StringText(s), StringText(s), t, u)
    {
      InEscape(s, t);
      OutQuote(Escape(s) + ([QUOTE] + t));
      assert StringText(s) + t == [QUOTE] + (Escape(s) + ([QUOTE] + t));
    }
  }

  lemma OutQuote(t: CString)
    ensures Out([QUOTE] + t) == [QUOTE] + In(t)
  {
    assert ([QUOTE] + t)[1..] == t;
  }

  lemma MinifiesPlain(p: CString)
    requires Plain(p)
    ensures Minifies(Closed, p, p)
  {
    forall t: CString, u: CString ensures MinifiesBefore(Closed, p, p, t, u) { OutPlain(p, t); }
  }

  lemma MinifiesWhite(w: CString)
    requires forall i :: 0 <= i < |w| ==> White(w[i])
    ensures Minifies(Closed, w, [])
  {
    forall t: CString, u: CString ensures MinifiesBefore(Closed, w, [], t, u) { OutWhite(w, t); }
  }

  /** Two texts one after the other, the first one closed. */
  lemma Sequence(q: Quotes, f: CString, c: CString, f': CString, c': CString)
    requires Minifies(Closed, f, c) && Minifies(q, f', c')
    ensures Minifies(q, f + f', c + c')
  {
    hide Out, In;
    forall t: CString, u: CString
      ensures MinifiesBefore(q, f + f', c + c', t, u)
    {
      assert MinifiesBefore(Closed, f, c, f' + t, u) && MinifiesBefore(q, f', c', t, u);
      assert f + f' + t == f + (f' + t);
      if q.Lost? {
        Cancel(c, Out(f' + t), c' + u);
        assert c + c' + u == c + (c' + u);
      } else {
        assert c + c' + Rest(q, t) == c + (c' + Rest(q, t));
      }
    }
  }

  lemma Cancel(c: CString, a: CString, b: CString)
    ensures c + a == c + b ==> a == b
  {
    assert (c + a)[|c|..] == a && (c + b)[|c|..] == b;
  }

  /** Once lost, always lost. */
  lemma LostStays(f: CString, c: CString, f': CString, c': CString)
    requires Minifies(Lost, f, c)
    ensures Minifies(Lost, f + f', c + c')
  {
    hide Out, In;
    forall t: CString, u: CString
      ensures MinifiesBefore(Lost, f + f', c + c', t, u)
    {
      assert f + f' + t == f + (f' + t) && c + c' + u == c + (c' + u);
      assert MinifiesBefore(Lost, f, c, f' + t, c' + u);
    }
  }

  /**
   * Taken to be inside a string, text is copied: white space that the compact text does not have makes
   * the difference.
   */
  lemma OpenIsLost(f: CString, c: CString, f': CString, c': CString, j: nat)
    requires Minifies(OpenAtEnd, f, c)
    requires j < |f'| && j < |c'| && c'[j] != f'[j]
    requires forall i :: 0 <= i <= j ==> f'[i] != QUOTE && f'[i] != BACKSLASH
    ensures Minifies(Lost, f + f', c + c')
  {
    hide Out, In;
    forall t: CString, u: CString
      ensures MinifiesBefore(Lost, f + f', c + c', t, u)
    {
      var p, r := f'[..j + 1], f'[j + 1..] + t;
      assert f + f' + t == f + (p + r);
      assert MinifiesBefore(OpenAtEnd, f, c, p + r, u);
      InCopies(p, r);
      assert (c + (p + In(r)))[|c| + j] == f'[j];
      assert (c + c' + u)[|c| + j] == c'[j];
    }
  }

  lemma OpenStays(f: CString, c: CString, p: CString)
    requires Minifies(OpenAtEnd, f, c)
    requires forall i :: 0 <= i < |p| ==> p[i] != QUOTE && p[i] != BACKSLASH
    ensures Minifies(OpenAtEnd, f + p, c + p)
  {
    hide Out, In;
    forall t: CString, u: CString
      ensures MinifiesBefore(OpenAtEnd, f + p, c + p, t, u)
    {
      assert f + p + t == f + (p + t);
      assert MinifiesBefore(OpenAtEnd, f, c, p + t, u);
      InCopies(p, t);
      assert c + (p + In(t)) == c + p + In(t);
    }
  }

  lemma DigitsArePlain(n: int)
    ensures Plain(IntText(n))
  {
  }

  /** No text of a value starts with white space. */
  lemma RenderStarts(v: Json, format: bool, d: nat)
    ensures |Render(v, format, d)| > 0 && !White(Render(v, format, d)[0])
  {
    if v.Number? {
      DigitsArePlain(IntOf(v.value));
      assert |IntText(IntOf(v.value))| >= 1;
    }
  }

  /** The formatted text of every value minifies as its `QuotesOf` says. */
  lemma {:induction false} MinifiesValue(v: Json, d: nat)
    ensures Minifies(QuotesOf(v), Render(v, true, d), Render(v, false, d))
    decreases v, 0
  {
    hide Minifies, ItemsText, MembersText, MembersAndClose;
    match v
    case String(s) => MinifiesString(s);
    case Array(items) =>
      MinifiesItems(items, d + 1);
      MinifiesPlain([OPEN_BRACKET]);
      var f, c := ItemsText(items, true, d + 1), ItemsText(items, false, d + 1);
      Sequence(QuotesOf(v), [OPEN_BRACKET], [OPEN_BRACKET], f + [CLOSE_BRACKET], c + [CLOSE_BRACKET]);
      assert [OPEN_BRACKET] + f + [CLOSE_BRACKET] == [OPEN_BRACKET] + (f + [CLOSE_BRACKET]);
      assert [OPEN_BRACKET] + c + [CLOSE_BRACKET] == [OPEN_BRACKET] + (c + [CLOSE_BRACKET]);
    case Object(members) =>
      MinifiesMembers(members, d);
      PlainThenWhite([OPEN_BRACE], [NEWLINE]);
      assert OpenObject(true) == [OPEN_BRACE] + [NEWLINE] && OpenObject(false) == [OPEN_BRACE];
      Sequence(QuotesOf(v), OpenObject(true), OpenObject(false), MembersAndClose(members, true, d),
          MembersAndClose(members, false, d));
      ObjectParts(members, true, d);
      ObjectParts(members, false, d);
    case Number(n) => DigitsArePlain(IntOf(n)); MinifiesPlain(Render(v, true, d));
    case _ => MinifiesPlain(Render(v, true, d));
  }

  lemma ObjectParts(members: seq<Member>, format: bool, d: nat)
    ensures Render(Object(members), format, d) == OpenObject(format) + MembersAndClose(members, format, d)
  {
  }

  lemma PlainThenWhite(p: CString, w: CString)
    requires Plain(p) && forall i :: 0 <= i < |w| ==> White(w[i])
    ensures Minifies(Closed, p + w, p)
  {
    hide Minifies;
    MinifiesPlain(p);
    MinifiesWhite(w);
    Sequence(Closed, p, p, w, []);
    assert p + [] == p;
  }

  /** The text of the remaining items and the closing bracket. */
  function ItemsAndClose(items: seq<Json>, format: bool, d: nat): CString {
    ItemsText(items, format, d) + [CLOSE_BRACKET]
  }

  lemma ItemParts(items: seq<Json>, format: bool, d: nat)
    requires items != []
    ensures ItemsAndClose(items, format, d)
         == Render(items[0], format, d) + (ItemSeparator(format, |items| > 1) + ItemsAndClose(items[1..], format, d))
  {
    hide Render;
  }

  lemma ItemsStart(items: seq<Json>, d: nat)
    ensures ItemsAndClose(items, false, d) != []
    ensures !White(ItemsAndClose(items, false, d)[0])
  {
    hide Render;
    if items != [] {
      RenderStarts(items[0], false, d);
    }
  }

  lemma {:induction false} MinifiesItems(items: seq<Json>, d: nat)
    ensures Minifies(QuotesOfItems(items), ItemsAndClose(items, true, d), ItemsAndClose(items, false, d))
    decreases items, 1
  {
    hide Minifies, Render, ItemsAndClose;
    if items == [] {
      NoItems(d);
      MinifiesPlain([CLOSE_BRACKET]);
    } else {
      var more, rest := |items| > 1, items[1..];
      var f', c' := ItemsAndClose(rest, true, d), ItemsAndClose(rest, false, d);
      var sf, sc := ItemSeparator(true, more), ItemSeparator(false, more);
      ItemParts(items, true, d);
      ItemParts(items, false, d);
      MinifiesValue(items[0], d);
      MinifiesItems(rest, d);
      if more {
        PlainThenWhite([COMMA], [SPACE]);
        assert sf == [COMMA] + [SPACE] && sc == [COMMA];
        Sequence(QuotesOfItems(rest), sf, sc, f', c');
        ItemsStart(rest, d);
        Then(QuotesOf(items[0]), Render(items[0], true, d), Render(items[0], false, d), QuotesOfItems(rest), sf + f',
            sc + c', 1);
      } else {
        NoItems(d);
        assert rest == [] && sf + f' == [CLOSE_BRACKET] && sc + c' == [CLOSE_BRACKET];
        ThenBracket(QuotesOf(items[0]), Render(items[0], true, d), Render(items[0], false, d));
      }
    }
  }

  lemma NoItems(d: nat)
    ensures ItemsAndClose([], true, d) == [CLOSE_BRACKET] == ItemsAndClose([], false, d)
  {
  }

  /** The text of the remaining members and the closing brace. */
  function MembersAndClose(members: seq<Member>, format: bool, d: nat): CString {
    MembersText(members, format, d + 1) + CloseObject(format, d)
  }

  predicate ClosedMembers(members: seq<Member>) {
    forall m <- members :: !EndsInBackslash(m.key) && QuotesOf(m.value) == Closed
  }

  lemma {:induction false} MinifiesMembers(members: seq<Member>, d: nat)
    ensures Minifies(if ClosedMembers(members) then Closed else Lost, MembersAndClose(members, true, d),
        MembersAndClose(members, false, d))
    decreases members, 1
  {
    hide Minifies, Render, MembersAndClose, QuotesOf, EndsInBackslash, StringText;
    if members == [] {
      NoMembers(d);
      MinifiesWhite(Tabs(d));
      MinifiesPlain([CLOSE_BRACE]);
      Sequence(Closed, Tabs(d), [], [CLOSE_BRACE], [CLOSE_BRACE]);
    } else {
      var m, rest := members[0], members[1..];
      var q := if ClosedMembers(rest) then Closed else Lost;
      MinifiesValue(m.value, d + 1);
      MinifiesMembers(rest, d);
      var tf, tc := MinifiesTail(rest, q, d);
      Then(QuotesOf(m.value), Render(m.value, true, d + 1), Render(m.value, false, d + 1), q, tf, tc,
          if rest == [] then 0 else 1);
      var q' := if QuotesOf(m.value).Closed? then q else Lost;
      MinifiesKey(m.key, m.value, q', tf, tc, d + 1);
      MemberParts(members, true, d);
      MemberParts(members, false, d);
    }
  }

  lemma NoMembers(d: nat)
    ensures MembersAndClose([], true, d) == Tabs(d) + [CLOSE_BRACE]
      && MembersAndClose([], false, d) == [] + [CLOSE_BRACE]
  {
  }

  /** What follows a member's value. */
  lemma MinifiesTail(rest: seq<Member>, q: Quotes, d: nat) returns (tf: CString, tc: CString)
    requires Minifies(q, MembersAndClose(rest, true, d), MembersAndClose(rest, false, d))
    ensures tf == MemberTail(true, rest != []) + MembersAndClose(rest, true, d)
    ensures tc == MemberTail(false, rest != []) + MembersAndClose(rest, false, d)
    ensures Minifies(q, tf, tc)
    ensures var j := if rest == [] then 0 else 1;
      j < |tf| && j < |tc| && tf[j] == NEWLINE != tc[j] && (j == 1 ==> tf[0] == COMMA)
  {
    hide Minifies, MembersAndClose;
    var more := rest != [];
    var f, c := MemberTail(true, more), MemberTail(false, more);
    assert f == c + [NEWLINE] && c == if more then [COMMA] else [];
    PlainThenWhite(c, [NEWLINE]);
    tf, tc := f + MembersAndClose(rest, true, d), c + MembersAndClose(rest, false, d);
    Sequence(q, f, c, MembersAndClose(rest, true, d), MembersAndClose(rest, false, d));
    CompactStarts(rest, d);
  }

  /** A key, the colon and what follows. */
  lemma MinifiesKey(key: CString, v: Json, q: Quotes, tf: CString, tc: CString, d: nat)
    requires Minifies(q, Render(v, true, d) + tf, Render(v, false, d) + tc)
    ensures Minifies(if EndsInBackslash(key) then Lost else q,
                     MemberHead(key, true, d) + (Render(v, true, d) + tf),
                     MemberHead(key, false, d) + (Render(v, false, d) + tc))
  {
    hide Minifies, Render, StringText, EndsInBackslash;
    var f, c, k := Render(v, true, d) + tf, Render(v, false, d) + tc, StringText(key);
    PlainThenWhite([COLON], [TAB]);
    assert KeySeparator(true) == [COLON] + [TAB] && KeySeparator(false) == [COLON];
    Sequence(q, KeySeparator(true), KeySeparator(false), f, c);
    MinifiesString(key);
    RenderStarts(v, false, d);
    Then(if EndsInBackslash(key) then OpenAtEnd else Closed, k, k, q, KeySeparator(true) + f, KeySeparator(false) + c,
        1);
    MinifiesWhite(Tabs(d));
    Sequence(if EndsInBackslash(key) then Lost else q, Tabs(d), [], k + (KeySeparator(true) + f),
        k + (KeySeparator(false) + c));
    assert MemberHead(key, true, d) + f == Tabs(d) + (k + (KeySeparator(true) + f));
    assert MemberHead(key, false, d) + c == [] + (k + (KeySeparator(false) + c));
  }

  lemma CompactStarts(members: seq<Member>, d: nat)
    ensures MembersAndClose(members, false, d) != []
    ensures MembersAndClose(members, false, d)[0] == if members == [] then CLOSE_BRACE else QUOTE
  {
    hide Render;
  }

  lemma MemberParts(members: seq<Member>, format: bool, d: nat)
    requires members != []
    ensures var m := members[0];
      MembersAndClose(members, format, d)
      == MemberHead(m.key, format, d + 1)
       + (Render(m.value, format, d + 1)
          + (MemberTail(format, members[1..] != []) + MembersAndClose(members[1..], format, d)))
  {
    hide Render, MemberHead, MemberTail, CloseObject;
  }

  /** A text after one that may leave the minifier inside a string, if the two texts differ by white space early on. */
  lemma Then(q: Quotes, f: CString, c: CString, q': Quotes, f': CString, c': CString, j: nat)
    requires Minifies(q, f, c) && Minifies(q', f', c')
    requires j < |f'| && j < |c'| && c'[j] != f'[j]
    requires forall i :: 0 <= i <= j ==> f'[i] != QUOTE && f'[i] != BACKSLASH
    ensures Minifies(if q.Closed? then q' else Lost, f + f', c + c')
  {
    hide Minifies;
    match q
    case Closed => Sequence(q', f, c, f', c');
    case OpenAtEnd => OpenIsLost(f, c, f', c', j);
    case Lost => LostStays(f, c, f', c');
  }

  lemma ThenBracket(q: Quotes, f: CString, c: CString)
    requires Minifies(q, f, c)
    ensures Minifies(q, f + [CLOSE_BRACKET], c + [CLOSE_BRACKET])
  {
    hide Minifies;
    match q
    case Closed =>
      MinifiesPlain([CLOSE_BRACKET]);
      Sequence(Closed, f, c, [CLOSE_BRACKET], [CLOSE_BRACKET]);
    case OpenAtEnd => OpenStays(f, c, [CLOSE_BRACKET]);
    case Lost => LostStays(f, c, [CLOSE_BRACKET], [CLOSE_BRACKET]);
  }

  /**
   * Minifying formatted text gives the compact text, unless a string or key that ends in a
   * backslash stands anywhere but at the very end, with nothing but arrays around it.
   */
  lemma MinifyCommutesIff(v: Json)
    ensures Out(Render(v, true, 0)) == Render(v, false, 0) <==> QuotesOf(v) != Lost
  {
    MinifiesValue(v, 0);
    var f, c := Render(v, true, 0), Render(v, false, 0);
    var e: CString := [];
    assert f + e == f && c + e == c;
    assert MinifiesBefore(QuotesOf(v), f, c, e, e);
  }

  /** Strings and keys without backslashes. */
  predicate NoBackslash(v: Json) {
    match v
    case String(s) => BACKSLASH !in s
    case Array(items) => forall x <- items :: NoBackslash(x)
    case Object(members) => forall m <- members :: BACKSLASH !in m.key && NoBackslash(m.value)
    case _ => true
  }

  lemma {:induction false} NoBackslashCloses(v: Json)
    requires NoBackslash(v)
    ensures QuotesOf(v) == Closed
    decreases v, 0
  {
    match v
    case Array(items) => NoBackslashItems(items);
    case Object(members) =>
      forall m | m in members ensures QuotesOf(m.value) == Closed { NoBackslashCloses(m.value); }
    case _ =>
  }

  lemma {:induction false} NoBackslashItems(items: seq<Json>)
    requires forall x <- items :: NoBackslash(x)
    ensures QuotesOfItems(items) == Closed
    decreases items, 1
  {
    if items != [] {
      NoBackslashCloses(items[0]);
      NoBackslashItems(items[1..]);
    }
  }

  /** Without backslashes, minified formatted text is the compact text. */
  lemma MinifyCommutes(v: Json)
    requires NoBackslash(v)
    ensures Out(Render(v, true, 0)) == Render(v, false, 0)
  {
    NoBackslashCloses(v);
    MinifyCommutesIff(v);
  }

  /** The counterexample: an array of a backslash and a number keeps its space. */
  lemma BackslashKeepsSpace()
    ensures var v := Array([String([BACKSLASH]), Number(1.0)]);
      Out(Render(v, true, 0)) != Render(v, false, 0)
  {
    var v := Array([String([BACKSLASH]), Number(1.0)]);
    assert QuotesOf(v.items[0]) == OpenAtEnd;
    MinifyCommutesIff(v);
  }

  /**
   * Worse: minifying the compact text of one value can give the compact text of another one, a space
   * of a string being lost.
   */
  lemma MinifyChangesValue()
    ensures var v := Array([String([BACKSLASH]), String([97, SPACE, 98])]);
      var w := Array([String([BACKSLASH]), String([97, 98])]);
      Out(Render(v, false, 0)) == Render(w, false, 0)
  {
    var s: CString, e: CString := [BACKSLASH], [];
    TwoStrings(s, [97, SPACE, 98]);
    TwoStrings(s, [97, 98]);
    LettersText();
    TakenForTheEnd();
    hide In, Out, Escape, Render, StringText;
    var tail: CString := [COMMA, QUOTE, 97, SPACE, 98, QUOTE, CLOSE_BRACKET];
    MinifiesString(s);
    OutPlain([OPEN_BRACKET], StringText(s) + tail);
    assert MinifiesBefore(OpenAtEnd, StringText(s), StringText(s), tail, e);
    assert [COMMA] + StringText([97, SPACE, 98]) + [CLOSE_BRACKET] == tail;
    assert [COMMA] + StringText([97, 98]) + [CLOSE_BRACKET] == In(tail);
  }

  lemma LettersText()
    ensures StringText([97, SPACE, 98]) == [QUOTE, 97, SPACE, 98, QUOTE]
      && StringText([97, 98]) == [QUOTE, 97, 98, QUOTE]
  {
    assert Escape([98]) == [98] && Escape([SPACE, 98]) == [SPACE, 98] && Escape([97, 98]) == [97, 98];
  }

  /** Inside and outside of strings are exchanged, and so the space goes. */
  lemma TakenForTheEnd()
    ensures In([COMMA, QUOTE, 97, SPACE, 98, QUOTE, CLOSE_BRACKET]) == [COMMA, QUOTE, 97, 98, QUOTE, CLOSE_BRACKET]
  {
    hide In, Out;
    var closing: CString := [QUOTE, CLOSE_BRACKET];
    var rest: CString := [97, SPACE, 98] + closing;
    InCopies([COMMA], [QUOTE] + rest);
    InQuote(rest);
    OutPlain([97], [SPACE] + ([98] + closing));
    OutWhite([SPACE], [98] + closing);
    OutPlain([98], closing);
    OutQuote([CLOSE_BRACKET]);
    InCopies([CLOSE_BRACKET], []);
    InEnd();
    assert rest == [97] + ([SPACE] + ([98] + closing)) && closing == [QUOTE] + [CLOSE_BRACKET];
    assert [CLOSE_BRACKET] + ([] + []) == [CLOSE_BRACKET];
    assert [COMMA, QUOTE, 97, SPACE, 98, QUOTE, CLOSE_BRACKET] == [COMMA] + ([QUOTE] + rest);
  }

  lemma TwoStrings(s: CString, t: CString)
    ensures Render(Array([String(s), String(t)]), false, 0)
         == [OPEN_BRACKET] + (StringText(s) + ([COMMA] + StringText(t) + [CLOSE_BRACKET]))
  {
    var items := [String(s), String(t)];
    hide StringText;
    assert items[1..] == [String(t)] && items[1..][1..] == [];
    assert Render(items[0], false, 1) == StringText(s) && Render(items[1], false, 1) == StringText(t);
    assert ItemsText(items[1..], false, 1) == StringText(t) + [] + [];
    assert ItemsText(items, false, 1) == StringText(s) + [COMMA] + StringText(t);
    assert Render(Array(items), false, 0)
      == [OPEN_BRACKET] + (StringText(s) + [COMMA] + StringText(t)) + [CLOSE_BRACKET];
  }

  /** Where it commutes, minified text still means the same value. */
  lemma MinifiedTextParses(v: Json)
    requires Printable(v) && Height(v) <= NESTING_LIMIT && QuotesOf(v) != Lost
    ensures var t := Out(Render(v, true, 0)); ParseDocument(Buffer(t), true) == Parsed(v, |t|)
  {
    MinifyCommutesIff(v);
    ParseUndoesPrint(v, false, 0, true);
  }

  // The code, in place.

  /** A pointer into the buffer that is read and one that is written, never ahead of it. */
  class Cursor {
    const json: array<byte>
    var input: nat
    var output: nat
    ghost const text: CString
    ghost const behind: seq<byte>

    constructor (json: array<byte>)
      requires exists i :: 0 <= i < json.Length && json[i] == NUL
      ensures this.json == json && input == 0 && output == 0 && text == BeforeNul(json[..])
      ensures Valid() && behind == json[|text|..]
    {
      this.json := json;
      input, output := 0, 0;
      text := BeforeNul(json[..]);
      behind := json[|BeforeNul(json[..])|..];
    }

    /** What is ahead of the input is still the original text. */
    ghost predicate Valid()
      reads this, json
    {
      && output <= input <= |text| < json.Length && json[|text|] == NUL
      && (forall i :: input <= i < |text| ==> json[i] == text[i])
      && json[|text|..] == behind
    }

    ghost function Written(): seq<byte>
      requires Valid()
      reads this, json
    {
      json[..output]
    }

    ghost function Ahead(): CString
      requires Valid()
      reads this, json
    {
      text[input..]
    }

    /** `skip_oneline_comment`. */
    method SkipLine()
      requires Valid() && |Ahead()| >= 2
      modifies this`input
      ensures Valid() && input > old(input) && Ahead() == AfterLine(old(Ahead())[2..])
    {
      input := input + 2;
      while json[input] != NUL
        invariant Valid()
        invariant AfterLine(Ahead()) == AfterLine(old(Ahead())[2..])
        decreases |text| - input
      {
        assert Ahead()[1..] == text[input + 1..];
        if json[input] == NEWLINE {
          input := input + 1;
          return;
        }
        input := input + 1;
      }
    }

    /** `skip_multiline_comment`. */
    method SkipBlock()
      requires Valid() && |Ahead()| >= 2
      modifies this`input
      ensures Valid() && input > old(input) && Ahead() == AfterBlock(old(Ahead())[2..])
    {
      input := input + 2;
      while json[input] != NUL
        invariant Valid()
        invariant AfterBlock(Ahead()) == AfterBlock(old(Ahead())[2..])
        decreases |text| - input
      {
        assert Ahead()[1..] == text[input + 1..];
        if json[input] == STAR && json[input + 1] == SLASH {
          assert Ahead()[2..] == text[input + 2..];
          input := input + 2;
          return;
        }
        input := input + 1;
      }
    }

    /** Copies one byte. */
    method Copy()
      requires Valid() && input < |text|
      modifies this`input, this`output, json
      ensures Valid() && input == old(input) + 1 && Written() == old(Written()) + [text[old(input)]]
      ensures Ahead() == old(Ahead())[1..]
    {
      json[output] := json[input];
      input, output := input + 1, output + 1;
    }

    /** `minify_string`. */
    method MinifyString()
      requires Valid() && Ahead() != [] && Ahead()[0] == QUOTE
      modifies this`input, this`output, json
      ensures Valid() && input > old(input)
      ensures Written() + Out(Ahead()) == old(Written()) + Out(old(Ahead()))
    {
      hide In, Out;
      OutHead(Ahead());
      Copy();
      while json[input] != NUL
        invariant Valid() && input > old(input)
        invariant Written() + In(Ahead()) == old(Written()) + Out(old(Ahead()))
        decreases |text| - input
      {
        var done := StringByte();
        if done {
          return;
        }
      }
      InEnd();
    }

    /** One round of the loop of `minify_string`: the closing quote, an escaped quote, or any other byte. */
    method StringByte() returns (done: bool)
      requires Valid() && Ahead() != []
      modifies this`input, this`output, json
      ensures Valid() && input > old(input)
      ensures Written() + (if done then Out(Ahead()) else In(Ahead())) == old(Written()) + In(old(Ahead()))
    {
      hide In, Out;
      ghost var written, ahead := Written(), Ahead();
      InHead(ahead);
      if json[input] == QUOTE {
        Copy();
        Joined(written, [QUOTE], Out(ahead[1..]));
        return true;
      } else if json[input] == BACKSLASH && json[input + 1] == QUOTE {
        CopyEscapedQuote();
        Joined(written, [BACKSLASH, QUOTE], In(ahead[2..]));
      } else {
        Copy();
        Joined(written, [ahead[0]], In(ahead[1..]));
      }
      return false;
    }

    /** The backslash, and then the quote that it escapes. */
    method CopyEscapedQuote()
      requires Valid() && |Ahead()| >= 2 && Ahead()[0] == BACKSLASH && Ahead()[1] == QUOTE
      modifies this`input, this`output, json
      ensures Valid() && input == old(input) + 2
      ensures Written() == old(Written()) + [BACKSLASH, QUOTE] && Ahead() == old(Ahead())[2..]
    {
      ghost var ahead := Ahead();
      Copy();
      Copy();
      assert ahead[1..][1..] == ahead[2..] && ahead[1..][0] == QUOTE;
    }

    /** The new terminator. */
    method Finish()
      requires Valid() && Written() == Out(text)
      modifies json
      ensures BeforeNul(json[..]) == Out(text) && forall i :: |text| < i < json.Length ==> json[i] == behind[i - |text|]
    {
      hide In, Out, BeforeNul;
      assert forall i :: |text| <= i < json.Length ==> json[i] == behind[i - |text|];
      json[output] := NUL;
      BeforeNulIs(json[..], Out(text));
    }

    /** One round of the loop of `cJSON_Minify`. */
    method Round()
      requires Valid() && Ahead() != []
      modifies this`input, this`output, json
      ensures Valid() && input > old(input)
      ensures Written() + Out(Ahead()) == old(Written()) + Out(old(Ahead()))
    {
      hide In, Out, AfterLine, AfterBlock;
      ghost var written, ahead := Written(), Ahead();
      OutHead(ahead);
      var b := json[input];
      if White(b) {
        Skip();
      } else if b == SLASH {
        if json[input + 1] == SLASH {
          SkipLine();
        } else if json[input + 1] == STAR {
          SkipBlock();
        } else {
          Skip();
        }
      } else if b == QUOTE {
        MinifyString();
      } else {
        Copy();
        Joined(written, [ahead[0]], Out(ahead[1..]));
      }
    }

    /** Drops one byte. */
    method Skip()
      requires Valid() && input < |text|
      modifies this`input
      ensures Valid() && input == old(input) + 1 && Ahead() == old(Ahead())[1..]
    {
      input := input + 1;
    }
  }

  lemma Joined(a: seq<byte>, b: seq<byte>, c: seq<byte>)
    ensures a + b + c == a + (b + c)
  {
  }

  lemma InEnd()
    ensures In([]) == [] == Out([])
  {
  }

  lemma InHead(t: CString)
    requires t != []
    ensures In(t) ==
      if t[0] == QUOTE then [QUOTE] + Out(t[1..])
      else if t[0] == BACKSLASH && |t| > 1 && t[1] == QUOTE then [BACKSLASH, QUOTE] + In(t[2..])
      else [t[0]] + In(t[1..])
  {
  }

  lemma OutHead(t: CString)
    requires t != []
    ensures White(t[0]) ==> Out(t) == Out(t[1..])
    ensures t[0] == SLASH ==> Out(t) == Out(
      if |t| > 1 && t[1] == SLASH then AfterLine(t[2..])
      else if |t| > 1 && t[1] == STAR then AfterBlock(t[2..])
      else t[1..])
    ensures t[0] == QUOTE ==> Out(t) == [QUOTE] + In(t[1..])
    ensures !White(t[0]) && t[0] != SLASH && t[0] != QUOTE ==> Out(t) == [t[0]] + Out(t[1..])
  {
  }

  /**
   * `cJSON_Minify`: the buffer then holds what is left of the text, and nothing behind the old
   * terminator has changed.
   */
  method Minify(json: array?<byte>)
    requires json != null ==> exists i :: 0 <= i < json.Length && json[i] == NUL
    modifies json
    ensures json != null ==> BeforeNul(json[..]) == Out(BeforeNul(old(json[..])))
    ensures json != null ==> forall i :: |BeforeNul(old(json[..]))| < i < json.Length ==> json[i] == old(json[i])
  {
    if json == null {
      return;
    }
    hide In, Out, AfterLine, AfterBlock, BeforeNul;
    var c := new Cursor(json);
    assert c.Written() == [];
    assert c.Ahead() == c.text;
    while json[c.input] != NUL
      invariant c.Valid() && c.Written() + Out(c.Ahead()) == Out(c.text)
      decreases |c.text| - c.input
    {
      c.Round();
    }
    InEnd();
    c.Finish();
  }

  lemma BeforeNulIs(s: seq<byte>, t: CString)
    requires |t| < |s| && s[..|t|] == t && s[|t|] == NUL
    ensures BeforeNul(s) == t
  {
    if t != [] {
      assert s[1..][..|t| - 1] == t[1..];
      BeforeNulIs(s[1..], t[1..]);
      assert s[0] == t[0] != NUL;
    }
  }
}
