/** What `cJSON_Minify` does to compact text, which has nothing to remove: when it keeps the text, and the value. */
module MinifyLoss {
  import opened Bytes
  import opened JsonValue
  import opened Rendering
  import opened Utf
  import opened StringCodec
  import opened ParseSpec
  import Reading
  import opened RoundTrip
  import opened Minify

  // The condition: one scan over the names and strings of a value, in the order of its text.

  function Strings(v: Json): seq<CString> {
    match v
    case String(s) => [s]
    case Array(items) => ItemStrings(items)
    case Object(members) => MemberStrings(members)
    case _ => []
  }

  function ItemStrings(items: seq<Json>): seq<CString> {
    if items == [] then [] else Strings(items[0]) + ItemStrings(items[1..])
  }

  function MemberStrings(members: seq<Member>): seq<CString> {
    if members == [] then [] else [members[0].key] + Strings(members[0].value) + MemberStrings(members[1..])
  }

  /** Before its first quote, the string has neither a space nor a slash. */
  predicate Safe(s: CString) {
    s == [] || s[0] == QUOTE || (s[0] != SPACE && s[0] != SLASH && Safe(s[1..]))
  }

  /** Does the minifier take itself to be inside a string after `s`, if it did (`inside`) or did not before? */
  function Mistaken(s: CString, inside: bool): bool {
    (inside && QUOTE !in s) || EndsInBackslash(s)
  }

  /**
   * A minifier that takes itself to be inside a string takes the contents of the next string to be outside,
   * up to its first quote: no space or slash may stand there.
   */
  predicate Lossless(ss: seq<CString>, inside: bool) {
    ss == [] || ((inside ==> Safe(ss[0])) && Lossless(ss[1..], Mistaken(ss[0], inside)))
  }

  function After(ss: seq<CString>, inside: bool): bool {
    if ss == [] then inside else After(ss[1..], Mistaken(ss[0], inside))
  }

  // The text.

  function Minified(inside: bool, t: CString): CString { if inside then In(t) else Out(t) }

  /** Nothing is removed. */
  predicate Keeps(inside: bool, t: CString)
    decreases |t|
  {
    t == [] ||
    if t[0] == QUOTE then Keeps(!inside, t[1..])
    else if !inside then !White(t[0]) && t[0] != SLASH && Keeps(false, t[1..])
    else if t[0] == BACKSLASH && |t| > 1 && t[1] == QUOTE then Keeps(true, t[2..])
    else Keeps(true, t[1..])
  }

  function Mark(c: byte): nat { if c == SPACE || c == SLASH then 1 else 0 }

  /** The spaces and slashes of a text. */
  function Blanks(t: seq<byte>): nat { if t == [] then 0 else Mark(t[0]) + Blanks(t[1..]) }

  function AllBlanks(ss: seq<CString>): nat { if ss == [] then 0 else Blanks(ss[0]) + AllBlanks(ss[1..]) }

  /** No raw control bytes: the only white space is the space. */
  predicate Visible(t: seq<byte>) { forall i :: 0 <= i < |t| ==> t[i] >= 32 }

  lemma {:induction false} BlanksConcat(a: seq<byte>, b: seq<byte>)
    ensures Blanks(a + b) == Blanks(a) + Blanks(b)
  {
    if a == [] {
      assert a + b == b;
    } else {
      assert (a + b)[1..] == a[1..] + b;
      BlanksConcat(a[1..], b);
    }
  }

  lemma {:induction false} AllBlanksConcat(a: seq<CString>, b: seq<CString>)
    ensures AllBlanks(a + b) == AllBlanks(a) + AllBlanks(b)
  {
    if a == [] {
      assert a + b == b;
    } else {
      assert (a + b)[1..] == a[1..] + b;
      AllBlanksConcat(a[1..], b);
    }
  }

  lemma {:induction false} LosslessConcat(a: seq<CString>, b: seq<CString>, inside: bool)
    ensures Lossless(a + b, inside) <==> Lossless(a, inside) && Lossless(b, After(a, inside))
    ensures After(a + b, inside) == After(b, After(a, inside))
  {
    hide Mistaken, Safe;
    if a == [] {
      assert a + b == b;
    } else {
      assert (a + b)[1..] == a[1..] + b;
      LosslessConcat(a[1..], b, Mistaken(a[0], inside));
    }
  }

  // What is removed is a space or a slash at least.

  lemma {:induction false} AfterLineOfVisible(t: CString)
    requires Visible(t)
    ensures AfterLine(t) == []
  {
    if t != [] {
      AfterLineOfVisible(t[1..]);
    }
  }

  lemma {:induction false} AfterBlockBlanks(t: CString)
    ensures Blanks(AfterBlock(t)) <= Blanks(t)
    ensures Visible(t) ==> Visible(AfterBlock(t))
  {
    if t != [] {
      if t[0] == STAR && |t| > 1 && t[1] == SLASH {
        assert t[1..][1..] == t[2..];
      } else {
        AfterBlockBlanks(t[1..]);
      }
    }
  }

  /** One turn of the minifier: what it writes, where it takes itself to be, and what it has left. */
  datatype Turn = Turn(out: CString, inside: bool, rest: CString)

  function TurnOf(inside: bool, t: CString): (u: Turn)
    requires t != []
    ensures |u.rest| < |t|
  {
    if t[0] == QUOTE then Turn([QUOTE], !inside, t[1..])
    else if !inside && White(t[0]) then Turn([], false, t[1..])
    else if !inside && t[0] == SLASH then
      Turn([], false, if |t| > 1 && t[1] == SLASH then AfterLine(t[2..])
                      else if |t| > 1 && t[1] == STAR then AfterBlock(t[2..])
                      else t[1..])
    else if inside && t[0] == BACKSLASH && |t| > 1 && t[1] == QUOTE then Turn([BACKSLASH, QUOTE], true, t[2..])
    else Turn([t[0]], inside, t[1..])
  }

  lemma TurnMinifies(inside: bool, t: CString)
    requires t != []
    ensures var u := TurnOf(inside, t); Minified(inside, t) == u.out + Minified(u.inside, u.rest)
  {
    hide In, Out, AfterLine, AfterBlock;
    if inside { InHead(t); } else { OutHead(t); }
  }

  lemma TurnKeeps(inside: bool, t: CString)
    requires t != []
    ensures var u := TurnOf(inside, t); Keeps(inside, t) <==> u.out + u.rest == t && Keeps(u.inside, u.rest)
  {
    var u := TurnOf(inside, t);
    assert [t[0]] + t[1..] == t;
    assert u.out == [] ==> |u.out + u.rest| < |t|;
  }

  lemma WhiteIsSpace(t: CString)
    requires t != [] && Visible(t)
    ensures White(t[0]) <==> t[0] == SPACE
  {
  }

  lemma TurnBlanks(inside: bool, t: CString)
    requires t != [] && Visible(t)
    ensures var u := TurnOf(inside, t);
      && Visible(u.out) && Visible(u.rest) && Blanks(u.out) + Blanks(u.rest) <= Blanks(t)
      && (u.out + u.rest != t ==> Blanks(u.out) + Blanks(u.rest) < Blanks(t))
  {
    hide White, AfterLine, AfterBlock;
    var u := TurnOf(inside, t);
    assert [t[0]] + t[1..] == t;
    if |t| > 1 {
      assert t[1..][1..] == t[2..];
      AfterLineOfVisible(t[2..]);
      AfterBlockBlanks(t[2..]);
    }
    WhiteIsSpace(t);
    if |u.out| == 2 {
      assert u.out + u.rest == t;
      BlanksConcat(u.out, u.rest);
    } else if |u.out| == 1 {
      OneMore(t[0], t[1..]);
      OneMore(t[0], []);
      assert [t[0]] + [] == u.out;
    }
  }

  lemma {:induction false} MinifiedLoses(inside: bool, t: CString)
    requires Visible(t)
    ensures Visible(Minified(inside, t))
    ensures Keeps(inside, t) ==> Minified(inside, t) == t
    ensures Blanks(Minified(inside, t)) <= Blanks(t)
    ensures !Keeps(inside, t) ==> Blanks(Minified(inside, t)) < Blanks(t)
    decreases |t|
  {
    hide Minified, Keeps, TurnOf, Blanks;
    if t == [] {
      NothingToMinify(inside);
    } else {
      var u := TurnOf(inside, t);
      TurnMinifies(inside, t);
      TurnKeeps(inside, t);
      TurnBlanks(inside, t);
      MinifiedLoses(u.inside, u.rest);
      BlanksConcat(u.out, Minified(u.inside, u.rest));
    }
  }

  lemma NothingToMinify(inside: bool)
    ensures Minified(inside, []) == [] && Keeps(inside, [])
  {
  }

  lemma OneMore(c: byte, t: seq<byte>)
    ensures Blanks([c] + t) == Mark(c) + Blanks(t)
  {
    assert ([c] + t)[1..] == t;
  }

  // Texts made of whole bytes and whole escapes.

  /** The escapes that the printer writes; a `\u` escape stands for a control byte. */
  predicate Aligned(t: seq<byte>)
    decreases |t|
  {
    t == [] ||
    if t[0] != BACKSLASH then Aligned(t[1..])
    else if |t| > 1 && t[1] == 117 then
      |t| >= 6 && t[2] == ZERO && t[3] == ZERO && ZERO <= t[4] <= ZERO + 1 && IsHex(t[5]) && Aligned(t[6..])
    else |t| > 1 && ShortEscape(t[1]) && Aligned(t[2..])
  }

  predicate ShortEscape(c: byte) {
    c == QUOTE || c == BACKSLASH || c == 98 || c == 102 || c == 110 || c == 114 || c == 116
  }

  lemma {:induction false} AlignedAfterQuote(t: seq<byte>, q: nat)
    requires Aligned(t) && q < |t| && t[q] == QUOTE
    ensures Aligned(t[q + 1..])
    decreases |t|
  {
    var n := if t[0] != BACKSLASH then 1 else if t[1] == 117 then 6 else 2;
    if q < n {
      assert q == n - 1;
    } else {
      AlignedAfterQuote(t[n..], q - n);
      assert t[n..][q - n + 1..] == t[q + 1..];
    }
  }

  lemma {:induction false} AfterBlockAligned(t: CString)
    requires Aligned(t)
    ensures Aligned(AfterBlock(t))
    decreases |t|
  {
    if t != [] {
      if t[0] == STAR && |t| > 1 && t[1] == SLASH {
        assert t[1..][1..] == t[2..];
      } else {
        var n := if t[0] != BACKSLASH then 1 else if t[1] == 117 then 6 else 2;
        AfterBlockAligned(t[n..]);
        AfterBlockSkips(t, n);
      }
    }
  }

  lemma {:induction false} AfterBlockSkips(t: CString, n: nat)
    requires 1 <= n <= |t| && (forall i :: 1 <= i < n ==> t[i] != STAR)
    requires !(t[0] == STAR && |t| > 1 && t[1] == SLASH)
    ensures AfterBlock(t) == AfterBlock(t[n..])
    decreases n
  {
    if n > 1 {
      AfterBlockSkips(t[1..], n - 1);
      assert t[1..][n - 1..] == t[n..];
    }
  }

  lemma {:induction false} MinifiedAligned(inside: bool, t: CString)
    requires Aligned(t) && Visible(t)
    ensures Aligned(Minified(inside, t))
    decreases |t|
  {
    hide Minified, TurnOf;
    if t == [] {
      NothingToMinify(inside);
    } else if t[0] != BACKSLASH {
      TurnMinifies(inside, t);
      TurnBlanks(inside, t);
      TurnOfPlain(inside, t);
      var u := TurnOf(inside, t);
      MinifiedAligned(u.inside, u.rest);
      AlignedPlain(u.out, Minified(u.inside, u.rest));
    } else if t[1] == QUOTE {
      MinifiedAligned(true, t[2..]);
      EscapedQuoteMinifies(inside, t);
      AlignedShort(t[1], Minified(true, t[2..]));
    } else if inside && t[1] == BACKSLASH && |t| > 2 && t[2] == QUOTE {
      assert t[2..][1..] == t[3..];
      MinifiedAligned(true, t[3..]);
      HiddenQuoteMinifies(t);
      AlignedPlain([QUOTE], Minified(true, t[3..]));
      AlignedShort(BACKSLASH, [QUOTE] + Minified(true, t[3..]));
    } else {
      var n := if t[1] == 117 then 6 else 2;
      MinifiedAligned(inside, t[n..]);
      EscapeMinifies(inside, t, n);
      if n == 2 {
        AlignedShort(t[1], Minified(inside, t[2..]));
        assert t[..2] == [BACKSLASH, t[1]];
      } else {
        AlignedLong(t, Minified(inside, t[6..]));
      }
    }
  }

  lemma AlignedPlain(p: CString, t: CString)
    requires |p| <= 1 && (p != [] ==> p[0] != BACKSLASH) && Aligned(t)
    ensures Aligned(p + t)
  {
    if p == [] {
      assert p + t == t;
    } else {
      assert (p + t)[1..] == t;
    }
  }

  lemma AlignedShort(c: cbyte, t: CString)
    requires ShortEscape(c) && Aligned(t)
    ensures Aligned([BACKSLASH, c] + t)
  {
    assert ([BACKSLASH, c] + t)[2..] == t;
  }

  lemma AlignedLong(e: CString, t: CString)
    requires Aligned(e) && |e| >= 6 && e[0] == BACKSLASH && e[1] == 117 && Aligned(t)
    ensures Aligned(e[..6] + t)
  {
    assert (e[..6] + t)[6..] == t;
  }

  /** In either state, an escaped quote is copied and leaves the minifier inside. */
  lemma EscapedQuoteMinifies(inside: bool, t: CString)
    requires |t| >= 2 && t[0] == BACKSLASH && t[1] == QUOTE
    ensures Minified(inside, t) == [BACKSLASH, QUOTE] + Minified(true, t[2..])
  {
    hide In, Out;
    if inside {
      InHead(t);
    } else {
      OutHead(t);
      OutHead(t[1..]);
      assert t[1..][1..] == t[2..];
      assert [BACKSLASH] + ([QUOTE] + In(t[2..])) == [BACKSLASH, QUOTE] + In(t[2..]);
    }
  }

  /** A backslash before a closing quote is taken for an escape. */
  lemma HiddenQuoteMinifies(t: CString)
    requires |t| >= 3 && t[0] == BACKSLASH && t[1] == BACKSLASH && t[2] == QUOTE
    ensures Minified(true, t) == [BACKSLASH, BACKSLASH] + ([QUOTE] + Minified(true, t[3..]))
  {
    InQuote(t[3..]);
    hide In;
    assert t == [BACKSLASH, BACKSLASH, QUOTE] + t[3..];
    assert [BACKSLASH, BACKSLASH] + ([QUOTE] + In(t[3..])) == [BACKSLASH, BACKSLASH, QUOTE] + In(t[3..]);
  }

  /** Any other escape is copied in either state. */
  lemma EscapeMinifies(inside: bool, t: CString, n: nat)
    requires Aligned(t) && t != [] && t[0] == BACKSLASH && t[1] != QUOTE && n == if t[1] == 117 then 6 else 2
    requires inside && t[1] == BACKSLASH && |t| > 2 ==> t[2] != QUOTE
    ensures Minified(inside, t) == t[..n] + Minified(inside, t[n..])
  {
    hide In, Out;
    var e, rest := t[..n], t[n..];
    assert t == e + rest;
    if !inside {
      EscapeIsPlain(t, n);
      OutPlain(e, rest);
    } else if t[1] == BACKSLASH {
      InBackslashes(rest);
      assert e == [BACKSLASH, BACKSLASH];
    } else {
      EscapeIsPlain(t, n);
      InLetters(e[1..], rest);
      assert e == [BACKSLASH] + e[1..];
    }
  }

  lemma EscapeIsPlain(t: CString, n: nat)
    requires Aligned(t) && t != [] && t[0] == BACKSLASH && t[1] != QUOTE && n == if t[1] == 117 then 6 else 2
    ensures Plain(t[..n]) && forall i :: 1 <= i < n ==> t[i] != QUOTE && (t[1] != BACKSLASH ==> t[i] != BACKSLASH)
  {
  }

  lemma InBackslashes(t: CString)
    requires t != [] ==> t[0] != QUOTE
    ensures In([BACKSLASH, BACKSLASH] + t) == [BACKSLASH, BACKSLASH] + In(t)
  {
    hide In;
    if t == [] {
      InHead([BACKSLASH, BACKSLASH]);
      InHead([BACKSLASH]);
      InEnd();
      assert [BACKSLASH, BACKSLASH] + t == [BACKSLASH, BACKSLASH] && [BACKSLASH, BACKSLASH][1..] == [BACKSLASH];
    } else {
      InTwoBackslashes(t);
    }
  }

  lemma InLetters(p: CString, t: CString)
    requires p != [] && forall i :: 0 <= i < |p| ==> p[i] != QUOTE && p[i] != BACKSLASH
    ensures In([BACKSLASH] + p + t) == [BACKSLASH] + p + In(t)
  {
    hide In;
    InBackslash(p + t);
    InCopies(p, t);
    assert [BACKSLASH] + p + t == [BACKSLASH] + (p + t);
    assert [BACKSLASH] + p + In(t) == [BACKSLASH] + (p + In(t));
  }

  lemma TurnOfPlain(inside: bool, t: CString)
    requires t != [] && t[0] != BACKSLASH && Aligned(t) && Visible(t)
    ensures var u := TurnOf(inside, t); Aligned(u.rest) && |u.out| <= 1 && (u.out != [] ==> u.out[0] != BACKSLASH)
  {
    if |t| > 1 && t[0] == SLASH {
      if t[1] == SLASH {
        AfterLineOfVisible(t[2..]);
      } else if t[1] == STAR {
        assert t[1..][1..] == t[2..];
        AfterBlockAligned(t[2..]);
      }
    }
  }

  // The compact text of a value, string by string.

  /**
   * Reading the text `f`, in either state, is reading the strings `ss`; it has their spaces and
   * slashes only, and whole escapes.
   */
  ghost predicate Writes(f: CString, ss: seq<CString>) {
    && Visible(f) && Blanks(f) == AllBlanks(ss)
    && (forall inside: bool, t: CString :: WritesBefore(f, ss, inside, t))
    && (forall t: seq<byte> :: AlignedBefore(f, t))
  }

  ghost predicate WritesBefore(f: CString, ss: seq<CString>, inside: bool, t: CString) {
    Keeps(inside, f + t) <==> Lossless(ss, inside) && Keeps(After(ss, inside), t)
  }

  ghost predicate AlignedBefore(f: CString, t: seq<byte>) { Aligned(t) ==> Aligned(f + t) }

  lemma WritesBoth(f: CString, ss: seq<CString>, g: CString, tt: seq<CString>)
    requires Writes(f, ss) && Writes(g, tt)
    ensures Writes(f + g, ss + tt)
  {
    hide Keeps, Lossless, After, Aligned, Blanks, AllBlanks;
    BlanksConcat(f, g);
    AllBlanksConcat(ss, tt);
    forall inside: bool, t: CString
      ensures WritesBefore(f + g, ss + tt, inside, t)
    {
      LosslessConcat(ss, tt, inside);
      assert f + g + t == f + (g + t);
      assert WritesBefore(f, ss, inside, g + t) && WritesBefore(g, tt, After(ss, inside), t);
    }
    forall t: seq<byte>
      ensures AlignedBefore(f + g, t)
    {
      assert f + g + t == f + (g + t);
      assert AlignedBefore(g, t) && AlignedBefore(f, g + t);
    }
  }

  /** Everything between strings: numbers, literals and punctuation. */
  predicate Punctuation(p: CString) {
    forall i :: 0 <= i < |p| ==> p[i] > SPACE && p[i] != SLASH && p[i] != QUOTE && p[i] != BACKSLASH
  }

  lemma {:induction false} KeepsPunctuation(p: CString, inside: bool, t: CString)
    requires Punctuation(p)
    ensures Keeps(inside, p + t) <==> Keeps(inside, t)
  {
    if p == [] {
      assert p + t == t;
    } else {
      assert (p + t)[1..] == p[1..] + t;
      KeepsPunctuation(p[1..], inside, t);
    }
  }

  lemma {:induction false} AlignedPunctuation(p: CString, t: seq<byte>)
    requires Punctuation(p) && Aligned(t)
    ensures Aligned(p + t)
  {
    if p == [] {
      assert p + t == t;
    } else {
      assert (p + t)[1..] == p[1..] + t;
      AlignedPunctuation(p[1..], t);
    }
  }

  lemma {:induction false} PunctuationBlanks(p: CString)
    requires Punctuation(p)
    ensures Blanks(p) == 0
  {
    if p != [] {
      PunctuationBlanks(p[1..]);
    }
  }

  lemma WritesPunctuation(p: CString)
    requires Punctuation(p)
    ensures Writes(p, [])
  {
    PunctuationBlanks(p);
    forall inside: bool, t: CString ensures WritesBefore(p, [], inside, t) { KeepsPunctuation(p, inside, t); }
    forall t: seq<byte> ensures AlignedBefore(p, t) {
      if Aligned(t) { AlignedPunctuation(p, t); }
    }
  }

  // Strings.

  lemma KeepsOutside(c: cbyte, t: CString)
    requires c >= SPACE && c != QUOTE
    ensures Keeps(false, [c] + t) <==> c != SPACE && c != SLASH && Keeps(false, t)
  {
    assert ([c] + t)[1..] == t;
  }

  /** Bytes of an escape, other than a quote: nothing is removed outside, unless it is a plain space or slash. */
  lemma KeepsBytes(c: cbyte, t: CString)
    requires c != QUOTE
    ensures Keeps(false, EscapeByte(c) + t) <==> c != SPACE && c != SLASH && Keeps(false, t)
  {
    hide Keeps;
    var e := EscapeByte(c);
    if c == BACKSLASH {
      KeepsOutside(BACKSLASH, t);
      KeepsOutside(BACKSLASH, [BACKSLASH] + t);
      assert e + t == [BACKSLASH] + ([BACKSLASH] + t);
    } else if c < 32 {
      ControlEscape(c);
      KeepsOutside(BACKSLASH, e[1..] + t);
      KeepsPunctuation(e[1..], false, t);
      assert e + t == [BACKSLASH] + (e[1..] + t);
    } else {
      KeepsOutside(c, t);
    }
  }

  lemma ControlEscape(c: cbyte)
    requires c < 32
    ensures var e := EscapeByte(c); |e| > 1 && e == [BACKSLASH] + e[1..] && Punctuation(e[1..])
  {
  }

  lemma KeepsBackslash(t: CString)
    requires t != [] && t[0] != QUOTE
    ensures Keeps(true, [BACKSLASH] + t) <==> Keeps(true, t)
  {
    assert ([BACKSLASH] + t)[1..] == t;
  }

  /** Inside a string an escape is kept whole, if its last backslash does not meet the closing quote. */
  lemma KeepsInside(c: cbyte, t: CString)
    requires c == BACKSLASH ==> t != [] && t[0] != QUOTE
    ensures Keeps(true, EscapeByte(c) + t) <==> Keeps(true, t)
  {
    hide Keeps;
    var e := EscapeByte(c);
    if c == QUOTE {
      KeepsEscapedQuote(t);
    } else if c == BACKSLASH {
      KeepsBackslash(t);
      KeepsBackslash([BACKSLASH] + t);
      assert e + t == [BACKSLASH] + ([BACKSLASH] + t);
    } else if c < 32 {
      assert e == [BACKSLASH] + e[1..] && e + t == [BACKSLASH] + (e[1..] + t) && Punctuation(e[1..]);
      KeepsBackslash(e[1..] + t);
      KeepsPunctuation(e[1..], true, t);
    } else {
      KeepsPlain(c, t);
    }
  }

  lemma KeepsEscapedQuote(t: CString)
    ensures Keeps(true, [BACKSLASH, QUOTE] + t) <==> Keeps(true, t)
  {
    assert ([BACKSLASH, QUOTE] + t)[2..] == t;
  }

  lemma KeepsPlain(c: cbyte, t: CString)
    requires c != QUOTE && c != BACKSLASH
    ensures Keeps(true, [c] + t) <==> Keeps(true, t)
  {
    assert ([c] + t)[1..] == t;
  }

  lemma {:induction false} InsideString(s: CString, t: CString)
    ensures Keeps(true, Escape(s) + ([QUOTE] + t)) <==> Keeps(EndsInBackslash(s), t)
  {
    hide EscapeByte, Keeps;
    ClosingQuoteKeeps(t);
    if s == [] {
      assert Escape(s) + ([QUOTE] + t) == [QUOTE] + t;
    } else if s == [BACKSLASH] {
      EscapeBackslash();
      assert Escape(s) + ([QUOTE] + t) == [BACKSLASH, BACKSLASH, QUOTE] + t;
    } else {
      var g := Escape(s[1..]) + ([QUOTE] + t);
      InsideString(s[1..], t);
      EscapeStarts(s[1..]);
      assert s[0] == BACKSLASH ==> s[1..] != [] && g[0] == Escape(s[1..])[0];
      KeepsInside(s[0], g);
      assert Escape(s) + ([QUOTE] + t) == EscapeByte(s[0]) + g;
    }
  }

  lemma ClosingQuoteKeeps(t: CString)
    ensures Keeps(true, [QUOTE] + t) <==> Keeps(false, t)
    ensures Keeps(false, [QUOTE] + t) <==> Keeps(true, t)
    ensures Keeps(true, [BACKSLASH, BACKSLASH, QUOTE] + t) <==> Keeps(true, t)
    ensures Keeps(false, [BACKSLASH, QUOTE] + t) <==> Keeps(true, t)
  {
    assert ([QUOTE] + t)[1..] == t;
    var x, y := [BACKSLASH, BACKSLASH, QUOTE] + t, [BACKSLASH, QUOTE] + t;
    assert x[1..] == y && y[2..] == t && y[1..] == [QUOTE] + t;
  }

  lemma {:induction false} OutsideString(s: CString, t: CString)
    ensures Keeps(false, Escape(s) + ([QUOTE] + t)) <==> Safe(s) && Keeps(Mistaken(s, true), t)
  {
    hide EscapeByte, Keeps;
    ClosingQuoteKeeps(t);
    if s == [] {
      assert Escape(s) + ([QUOTE] + t) == [QUOTE] + t;
    } else {
      var rest, g := s[1..], Escape(s[1..]) + ([QUOTE] + t);
      assert Escape(s) + ([QUOTE] + t) == EscapeByte(s[0]) + g;
      assert s == [s[0]] + rest;
      if s[0] == QUOTE {
        QuoteEscape();
        ClosingQuoteKeeps(g);
        InsideString(rest, t);
      } else {
        KeepsBytes(s[0], g);
        OutsideString(rest, t);
      }
    }
  }

  lemma QuoteEscape()
    ensures EscapeByte(QUOTE) == [BACKSLASH, QUOTE]
  {
  }

  lemma {:induction false} EscapeVisible(s: CString)
    ensures Visible(Escape(s)) && Blanks(Escape(s)) == Blanks(s)
  {
    hide EscapeByte;
    if s != [] {
      EscapeVisible(s[1..]);
      EscapeByteVisible(s[0]);
      BlanksConcat(EscapeByte(s[0]), Escape(s[1..]));
    }
  }

  lemma {:induction false} EscapeAligned(s: CString, t: seq<byte>)
    requires Aligned(t)
    ensures Aligned(Escape(s) + t)
  {
    hide Aligned, EscapeByte;
    if s == [] {
      assert Escape(s) + t == t;
    } else {
      EscapeAligned(s[1..], t);
      EscapeByteAligned(s[0], Escape(s[1..]) + t);
      assert Escape(s) + t == EscapeByte(s[0]) + (Escape(s[1..]) + t);
    }
  }

  lemma EscapeByteVisible(c: cbyte)
    ensures Visible(EscapeByte(c)) && Blanks(EscapeByte(c)) == Mark(c)
  {
    var e := EscapeByte(c);
    if |e| > 1 {
      if c == QUOTE || c == BACKSLASH {
        OneMore(BACKSLASH, [c]);
        OneMore(c, []);
        assert e == [BACKSLASH] + [c] && [c] + [] == [c];
      } else {
        PunctuationBlanks(e[1..]);
      }
    }
  }

  lemma EscapeByteAligned(c: cbyte, t: seq<byte>)
    requires Aligned(t)
    ensures Aligned(EscapeByte(c) + t)
  {
    var e := EscapeByte(c);
    assert (e + t)[|e|..] == t;
  }

  lemma WritesString(s: CString)
    ensures Writes(StringText(s), [s])
  {
    hide Keeps, Aligned, Escape, Safe, Lossless, After;
    EscapeVisible(s);
    StringBlanks(s);
    forall inside: bool, t: CString
      ensures WritesBefore(StringText(s), [s], inside, t)
    {
      var g := Escape(s) + ([QUOTE] + t);
      assert StringText(s) + t == [QUOTE] + g;
      ClosingQuoteKeeps(g);
      InsideString(s, t);
      OutsideString(s, t);
      OneString(s, inside);
    }
    forall t: seq<byte>
      ensures AlignedBefore(StringText(s), t)
    {
      if Aligned(t) {
        QuoteAligned(t);
        EscapeAligned(s, [QUOTE] + t);
        QuoteAligned(Escape(s) + ([QUOTE] + t));
        assert StringText(s) + t == [QUOTE] + (Escape(s) + ([QUOTE] + t));
      }
    }
  }

  lemma OneString(s: CString, inside: bool)
    ensures Lossless([s], inside) <==> (inside ==> Safe(s))
    ensures After([s], inside) == Mistaken(s, inside)
  {
  }

  lemma QuoteAligned(t: seq<byte>)
    requires Aligned(t)
    ensures Aligned([QUOTE] + t)
  {
    assert ([QUOTE] + t)[1..] == t;
  }

  lemma StringBlanks(s: CString)
    ensures Blanks(StringText(s)) == Blanks(s) == AllBlanks([s])
  {
    hide Escape;
    EscapeVisible(s);
    BlanksConcat([QUOTE] + Escape(s), [QUOTE]);
    BlanksConcat([QUOTE], Escape(s));
  }

  // Values.

  lemma NumberPunctuation(n: int)
    ensures Punctuation(IntText(n))
  {
  }

  lemma {:induction false} WritesValue(v: Json, d: nat)
    ensures Writes(Render(v, false, d), Strings(v))
    decreases v, 0
  {
    hide Writes, ItemsText, MembersText;
    match v
    case String(s) => WritesString(s);
    case Array(items) =>
      WritesItems(items, d + 1);
      WritesPunctuation([OPEN_BRACKET]);
      WritesPunctuation([CLOSE_BRACKET]);
      WritesBoth([OPEN_BRACKET], [], ItemsText(items, false, d + 1), ItemStrings(items));
      WritesBoth([OPEN_BRACKET] + ItemsText(items, false, d + 1), [] + ItemStrings(items), [CLOSE_BRACKET], []);
      assert [] + ItemStrings(items) + [] == Strings(v);
    case Object(members) =>
      WritesMembers(members, d + 1);
      WritesPunctuation([OPEN_BRACE]);
      WritesPunctuation([CLOSE_BRACE]);
      WritesBoth([OPEN_BRACE], [], MembersText(members, false, d + 1), MemberStrings(members));
      WritesBoth([OPEN_BRACE] + MembersText(members, false, d + 1), [] + MemberStrings(members), [CLOSE_BRACE], []);
      assert [] + MemberStrings(members) + [] == Strings(v);
      assert OpenObject(false) == [OPEN_BRACE] && CloseObject(false, d) == [CLOSE_BRACE];
    case Number(n) => NumberPunctuation(IntOf(n)); WritesPunctuation(Render(v, false, d));
    case _ => WritesPunctuation(Render(v, false, d));
  }

  lemma {:induction false} WritesItems(items: seq<Json>, d: nat)
    ensures Writes(ItemsText(items, false, d), ItemStrings(items))
    decreases items, 1
  {
    hide Writes, Render, Strings;
    if items == [] {
      WritesPunctuation([]);
    } else {
      var text, comma := Render(items[0], false, d), ItemSeparator(false, |items| > 1);
      WritesValue(items[0], d);
      WritesPunctuation(comma);
      WritesItems(items[1..], d);
      WritesBoth(text, Strings(items[0]), comma, []);
      WritesBoth(text + comma, Strings(items[0]) + [], ItemsText(items[1..], false, d), ItemStrings(items[1..]));
      assert Strings(items[0]) + [] + ItemStrings(items[1..]) == ItemStrings(items);
    }
  }

  lemma {:induction false} WritesMembers(members: seq<Member>, d: nat)
    ensures Writes(MembersText(members, false, d), MemberStrings(members))
    decreases members, 1
  {
    hide Writes, Render, Strings, StringText;
    if members == [] {
      WritesPunctuation([]);
    } else {
      var m, rest := members[0], members[1..];
      var key, colon, text := StringText(m.key), [COLON], Render(m.value, false, d);
      var comma, more := MemberTail(false, |members| > 1), MembersText(rest, false, d);
      WritesString(m.key);
      WritesPunctuation(colon);
      WritesValue(m.value, d);
      WritesPunctuation(comma);
      WritesMembers(rest, d);
      WritesBoth(key, [m.key], colon, []);
      WritesBoth(key + colon, [m.key] + [], text, Strings(m.value));
      WritesBoth(key + colon + text, [m.key] + [] + Strings(m.value), comma, []);
      WritesBoth(key + colon + text + comma, [m.key] + [] + Strings(m.value) + [], more, MemberStrings(rest));
      assert [m.key] + [] + Strings(m.value) + [] + MemberStrings(rest) == MemberStrings(members);
      assert MemberHead(m.key, false, d) == key + colon;
    }
  }

  /** Minifying compact text changes nothing if and only if the scan finds no space or slash in danger. */
  lemma CompactIsKeptIff(v: Json)
    ensures Out(Render(v, false, 0)) == Render(v, false, 0) <==> Lossless(Strings(v), false)
  {
    hide Out, Keeps, Lossless, Render;
    var t: CString, e: CString := Render(v, false, 0), [];
    WritesValue(v, 0);
    assert WritesBefore(t, Strings(v), false, e);
    assert t + e == t;
    NothingToMinify(After(Strings(v), false));
    MinifiedLoses(false, t);
  }

  /** In particular, text whose formatted form minifies to it is kept. The converse fails. */
  lemma CommutingIsLossless(v: Json)
    requires QuotesOf(v) != Lost
    ensures Lossless(Strings(v), false)
  {
    MinifyCommutesIff(v);
    OutIsIdempotent(Render(v, true, 0));
    CompactIsKeptIff(v);
  }

  // A parser finds no more spaces and slashes in a value than its text has, if the escapes are the printer's.

  /** The spaces and slashes of `s[i..j]`. */
  function Between(s: seq<byte>, i: nat, j: nat): nat
    requires j <= |s|
    decreases j - i
  {
    if i >= j then 0 else Mark(s[i]) + Between(s, i + 1, j)
  }

  lemma {:induction false} BetweenSplit(s: seq<byte>, i: nat, k: nat, j: nat)
    requires i <= k <= j <= |s|
    ensures Between(s, i, j) == Between(s, i, k) + Between(s, k, j)
    decreases k - i
  {
    if i < k {
      BetweenSplit(s, i + 1, k, j);
    }
  }

  /** A smaller range has no more. */
  lemma BetweenGrows(s: seq<byte>, i: nat, a: nat, b: nat, j: nat)
    requires i <= a <= b <= j <= |s|
    ensures Between(s, a, b) <= Between(s, i, j)
  {
    BetweenSplit(s, i, a, j);
    BetweenSplit(s, a, b, j);
  }

  lemma {:induction false} BetweenIsBlanks(s: seq<byte>, i: nat)
    requires i <= |s|
    ensures Between(s, i, |s|) == Blanks(s[i..])
    decreases |s| - i
  {
    if i < |s| {
      BetweenIsBlanks(s, i + 1);
      assert s[i..][1..] == s[i + 1..];
    }
  }

  predicate Letter(b: int) { 0 < b < 256 && b != SPACE && b != SLASH }

  /** An aligned escape stands for something that is neither a space nor a slash. */
  lemma AlignedEscape(s: seq<byte>, p: nat, e: nat)
    requires p < e < |s| && Aligned(s[p..]) && s[p] == BACKSLASH
    ensures p + 1 < |s| && (s[p + 1] != 117 ==> Letter(SimpleEscape(s[p + 1])) && Aligned(s[p + 2..]))
    ensures s[p + 1] == 117 && LiteralAt(s, p, e).length != 0 ==>
      var u := LiteralAt(s, p, e); u.length == 6 && u.codepoint < SPACE && p + 6 <= e && Aligned(s[p + 6..])
  {
    var t := s[p..];
    assert t[2..] == s[p + 2..];
    if t[1] == 117 && LiteralAt(s, p, e).length != 0 {
      assert t[6..] == s[p + 6..];
      assert forall i :: p + 2 <= i < p + 6 ==> s[i] == t[i - p] && IsHex(s[i]);
      FourHexDigits(s, p + 2);
    }
  }

  lemma {:induction false} DecodedBlanks(s: seq<byte>, p: nat, e: nat)
    requires e < |s| && p <= |s| && Aligned(s[p..]) && Decode(s, p, e).Decoded?
    ensures Blanks(Decode(s, p, e).bytes) <= Between(s, p, e)
    decreases e - p
  {
    hide Aligned, LiteralAt, IsHex;
    if p < e {
      if s[p] != BACKSLASH {
        AlignedRest(s, p);
        DecodedBlanks(s, p + 1, e);
        OneMore(s[p], Decode(s, p + 1, e).bytes);
      } else {
        AlignedEscape(s, p, e);
        if s[p + 1] == 117 {
          var u := LiteralAt(s, p, e);
          DecodedBlanks(s, p + 6, e);
          OneMore(u.codepoint, Decode(s, p + 6, e).bytes);
          BetweenGrows(s, p, p + 6, e, e);
        } else {
          DecodedBlanks(s, p + 2, e);
          OneMore(SimpleEscape(s[p + 1]), Decode(s, p + 2, e).bytes);
          if p + 2 <= e {
            BetweenGrows(s, p, p + 2, e, e);
          }
        }
      }
    }
  }

  lemma AlignedRest(s: seq<byte>, p: nat)
    requires p < |s| && Aligned(s[p..]) && s[p] != BACKSLASH
    ensures Aligned(s[p + 1..])
  {
    assert s[p..][1..] == s[p + 1..];
  }

  lemma {:induction false} BeforeNulBlanks(s: seq<byte>)
    ensures Blanks(BeforeNul(s)) <= Blanks(s)
  {
    if s != [] && s[0] != NUL {
      BeforeNulBlanks(s[1..]);
      OneMore(s[0], BeforeNul(s[1..]));
    }
  }

  lemma StringBlanksAt(s: seq<byte>, i: nat)
    requires i < |s| && Aligned(s) && StringAt(s, i).Text?
    ensures Blanks(StringAt(s, i).text) <= Between(s, i, StringAt(s, i).next)
  {
    hide Aligned, Decode, Blanks, Between, BeforeNul;
    var e := ClosingQuote(s, i + 1);
    AlignedAfterQuote(s, i);
    DecodedBlanks(s, i + 1, e);
    BeforeNulBlanks(Decode(s, i + 1, e).bytes);
    BetweenGrows(s, i, i + 1, e, e + 1);
  }

  function Weight(v: Json): nat { AllBlanks(Strings(v)) }

  lemma {:induction false} ItemStringsSnoc(items: seq<Json>, v: Json)
    ensures AllBlanks(ItemStrings(items + [v])) == AllBlanks(ItemStrings(items)) + Weight(v)
  {
    if items == [] {
      assert [v][1..] == [] && Strings(v) + [] == Strings(v);
      assert items + [v] == [v];
    } else {
      assert (items + [v])[1..] == items[1..] + [v];
      ItemStringsSnoc(items[1..], v);
      AllBlanksConcat(Strings(items[0]), ItemStrings(items[1..] + [v]));
      AllBlanksConcat(Strings(items[0]), ItemStrings(items[1..]));
    }
  }

  lemma {:induction false} MemberStringsSnoc(members: seq<Member>, m: Member)
    ensures AllBlanks(MemberStrings(members + [m]))
      == AllBlanks(MemberStrings(members)) + Blanks(m.key) + Weight(m.value)
  {
    if members == [] {
      assert members + [m] == [m] && [m][1..] == [];
      AllBlanksConcat([m.key] + Strings(m.value), []);
      AllBlanksConcat([m.key], Strings(m.value));
      OneKey(m.key);
    } else {
      var key, strings := [members[0].key], Strings(members[0].value);
      assert (members + [m])[1..] == members[1..] + [m];
      MemberStringsSnoc(members[1..], m);
      AllBlanksConcat(key + strings, MemberStrings(members[1..] + [m]));
      AllBlanksConcat(key + strings, MemberStrings(members[1..]));
    }
  }

  lemma OneKey(key: CString)
    ensures AllBlanks([key]) == Blanks(key)
  {
  }

  lemma {:induction false} ValueWeight(s: seq<byte>, i: nat, depth: int)
    requires Terminated(s) && i < |s| && depth <= NESTING_LIMIT && Aligned(s) && ParseValue(s, i, depth).Parsed?
    ensures Weight(ParseValue(s, i, depth).value) <= Between(s, i, ParseValue(s, i, depth).next)
    decreases |s| - i, 1
  {
    hide At, StringAt, ParseItems, ParseMembers, ParseNumber, Aligned, Blanks, Between, Terminated;
    var r, j := ParseValue(s, i, depth), if i + 1 < |s| then Skip(s, i + 1) else i;
    if s[i] == QUOTE {
      Reading.NoLiteral(s, i);
      StringBlanksAt(s, i);
      OneKey(r.value.s);
    } else if s[i] == OPEN_BRACKET {
      Reading.NoLiteral(s, i);
      if s[j] != CLOSE_BRACKET {
        ItemsWeight(s, j, depth + 1, []);
        BetweenGrows(s, i, j, r.next, r.next);
      }
    } else if s[i] == OPEN_BRACE {
      Reading.NoLiteral(s, i);
      if s[j] != CLOSE_BRACE {
        MembersWeight(s, j, depth + 1, []);
        BetweenGrows(s, i, j, r.next, r.next);
      }
    }
  }

  lemma {:induction false} ItemsWeight(s: seq<byte>, j: nat, depth: int, done: seq<Json>)
    requires Terminated(s) && j < |s| && depth <= NESTING_LIMIT && depth + ItemsHeight(done) <= NESTING_LIMIT
    requires Aligned(s) && ParseItems(s, j, depth, done).Parsed?
    ensures var r := ParseItems(s, j, depth, done);
      Weight(r.value) <= AllBlanks(ItemStrings(done)) + Between(s, j, r.next)
    decreases |s| - j, 2
  {
    hide Skip, ParseValue, ItemsHeight, Height, Aligned, ItemStrings, AllBlanks, Between, Terminated;
    var r, first := ParseItems(s, j, depth, done), ParseValue(s, Skip(s, j), depth);
    var k := Skip(s, first.next);
    ValueWeight(s, Skip(s, j), depth);
    ItemsHeightSnoc(done, first.value);
    ItemStringsSnoc(done, first.value);
    if s[k] == COMMA {
      ItemsWeight(s, k + 1, depth, done + [first.value]);
      BetweenSplit(s, j, k + 1, r.next);
      BetweenGrows(s, j, Skip(s, j), first.next, k + 1);
    } else {
      BetweenGrows(s, j, Skip(s, j), first.next, r.next);
    }
  }

  lemma {:induction false} MembersWeight(s: seq<byte>, j: nat, depth: int, done: seq<Member>)
    requires Terminated(s) && j < |s| && depth <= NESTING_LIMIT && depth + MembersHeight(done) <= NESTING_LIMIT
    requires Aligned(s) && ParseMembers(s, j, depth, done).Parsed?
    ensures var r := ParseMembers(s, j, depth, done);
      Weight(r.value) <= AllBlanks(MemberStrings(done)) + Between(s, j, r.next)
    decreases |s| - j, 3
  {
    hide Skip, ParseValue, KeyAt, MembersHeight, Height, Aligned, MemberStrings, AllBlanks, Between, EntryAt;
    hide Terminated;
    var r, entry := ParseMembers(s, j, depth, done), EntryAt(s, j, depth);
    EntryWeight(s, j, depth);
    var k, m := Skip(s, entry.next), Member(KeyAt(s, j).text, entry.value);
    MembersHeightSnoc(done, m);
    MemberStringsSnoc(done, m);
    if s[k] == COMMA {
      MembersWeight(s, k + 1, depth, done + [m]);
      BetweenSplit(s, j, k + 1, r.next);
      BetweenGrows(s, j, j, entry.next, k + 1);
    } else {
      BetweenGrows(s, j, j, entry.next, r.next);
    }
  }

  lemma {:induction false} EntryWeight(s: seq<byte>, j: nat, depth: int)
    requires Terminated(s) && j < |s| && depth <= NESTING_LIMIT && Aligned(s) && EntryAt(s, j, depth).Parsed?
    ensures KeyAt(s, j).Text?
    ensures var r := EntryAt(s, j, depth); Blanks(KeyAt(s, j).text) + Weight(r.value) <= Between(s, j, r.next)
    decreases |s| - j, 2
  {
    hide Skip, ParseValue, StringAt, Aligned, Blanks, Between, Terminated, Height;
    var key, r := StringAt(s, Skip(s, j)), EntryAt(s, j, depth);
    StringBlanksAt(s, Skip(s, j));
    var v := Skip(s, KeyAt(s, j).next);
    ValueWeight(s, v, depth);
    BetweenSplit(s, j, key.next, r.next);
    BetweenGrows(s, j, Skip(s, j), key.next, key.next);
    BetweenGrows(s, key.next, v, r.next, r.next);
  }

  /** No text with the printer's escapes and fewer spaces and slashes than the value can parse to it. */
  lemma TooFewBlanks(t: CString, requireNul: bool)
    requires Aligned(t + [NUL]) && ParseDocument(t + [NUL], requireNul).Parsed?
    ensures Weight(ParseDocument(t + [NUL], requireNul).value) <= Blanks(t)
  {
    hide Aligned, Blanks, ParseValue, Weight, Skip, Between;
    var s := t + [NUL];
    assert Terminated(s);
    var r := ParseValue(s, Start(s), 0);
    ValueWeight(s, Start(s), 0);
    BetweenGrows(s, 0, Start(s), r.next, |s|);
    BetweenIsBlanks(s, 0);
    assert s[0..] == s;
    BlanksConcat(t, [NUL]);
    NulIsNoBlank();
  }

  lemma NulIsNoBlank()
    ensures Blanks([NUL]) == 0
  {
  }

  /**
   * Minified compact text still parses to the value it was printed from, if and only if the scan
   * finds no space or slash in danger. Otherwise it does not parse at all or parses to another value.
   */
  lemma MinifiedCompactParsesIff(v: Json, requireNul: bool)
    requires Printable(v) && Height(v) <= NESTING_LIMIT
    ensures var t := Out(Render(v, false, 0)); var r := ParseDocument(t + [NUL], requireNul);
      && (Lossless(Strings(v), false) ==> r == Parsed(v, |t|))
      && (!Lossless(Strings(v), false) ==> r.Parsed? ==> r.value != v)
  {
    hide Render, ParseDocument, Out, Lossless, Aligned, Blanks, AllBlanks, Strings, Visible, Keeps;
    var text := Render(v, false, 0);
    var t := Out(text);
    CompactIsKeptIff(v);
    if Lossless(Strings(v), false) {
      ParseUndoesPrint(v, false, 0, requireNul);
    } else {
      MinifiedCompactIsShort(v);
      if ParseDocument(t + [NUL], requireNul).Parsed? {
        TooFewBlanks(t, requireNul);
      }
    }
  }

  lemma MinifiedCompactIsShort(v: Json)
    requires !Lossless(Strings(v), false)
    ensures var t := Out(Render(v, false, 0)); Blanks(t) < Weight(v) && Aligned(t + [NUL])
  {
    hide Render, Lossless, Aligned, Blanks, AllBlanks, Strings, Keeps, Out, WritesBefore;
    var text: CString, e: CString, nul: seq<byte> := Render(v, false, 0), [], [];
    WritesValue(v, 0);
    CompactIsKeptIff(v);
    MinifiedLoses(false, text);
    assert AlignedBefore(text, nul) && text + nul == text;
    EndIsAligned();
    MinifiedAligned(false, text);
    AlignedNul(Out(text));
  }

  lemma EndIsAligned()
    ensures Aligned([]) && Aligned([NUL])
  {
  }

  lemma {:induction false} AlignedNul(t: seq<byte>)
    requires Aligned(t)
    ensures Aligned(t + [NUL])
    decreases |t|
  {
    if t == [] {
      EndIsAligned();
      assert t + [NUL] == [NUL];
    } else {
      var n := if t[0] != BACKSLASH then 1 else if t[1] == 117 then 6 else 2;
      AlignedNul(t[n..]);
      assert (t + [NUL])[n..] == t[n..] + [NUL];
    }
  }
}
