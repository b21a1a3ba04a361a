/** String literals: the two passes of `parse_string` as functions, and what they make of an escaped string. */
module StringCodec {
  import opened Bytes
  import opened Utf

  /** First pass: the position of the closing quote at or after `p`, or -1. A backslash hides the next byte. */
  function ClosingQuote(s: seq<byte>, p: nat): (e: int)
    ensures e == -1 || (p <= e < |s| && s[e] == QUOTE)
    decreases |s| - p
  {
    if p >= |s| then -1
    else if s[p] == QUOTE then p
    else if s[p] == BACKSLASH then ClosingQuote(s, p + 2)
    else ClosingQuote(s, p + 1)
  }

  /** The bytes that a decoded literal puts into the output buffer, or the position of the bad escape. */
  datatype Decoded = Decoded(bytes: seq<byte>) | BadEscape(position: nat)

  function Prepend(done: seq<byte>, rest: Decoded): Decoded {
    match rest
    case Decoded(bytes) => Decoded(done + bytes)
    case BadEscape(position) => rest
  }

  /** What a two-byte escape stands for. */
  function SimpleEscape(c: byte): (b: int)
    ensures b == -1 || 0 < b < 256
  {
    if c == 98 then BACKSPACE
    else if c == 102 then FORMFEED
    else if c == 110 then NEWLINE
    else if c == 114 then RETURN
    else if c == 116 then TAB
    else if c == QUOTE || c == BACKSLASH || c == SLASH then c
    else -1
  }

  /** Second pass: decodes from `p` until the closing quote at `e`. */
  function Decode(s: seq<byte>, p: nat, e: nat): Decoded
    requires e < |s|
    decreases e - p
  {
    if p >= e then Decoded([])
    else if s[p] != BACKSLASH then Prepend([s[p]], Decode(s, p + 1, e))
    else if s[p + 1] == 117 then
      var literal := LiteralAt(s, p, e);
      if literal.length == 0 then BadEscape(p)
      else Prepend(Utf8(literal.codepoint), Decode(s, p + literal.length, e))
    else
      var b := SimpleEscape(s[p + 1]);
      if b < 0 then BadEscape(p) else Prepend([b], Decode(s, p + 2, e))
  }

  /** The outcome of `parse_string`: the C string and the position after it, or the position of the error. */
  datatype StringResult = Text(text: CString, next: nat) | BadText(position: nat)

  function StringAt(s: seq<byte>, i: nat): (r: StringResult)
    requires i < |s|
    ensures r.Text? ==> i + 1 < r.next <= |s| && s[r.next - 1] == QUOTE
    ensures r.BadText? ==> i < r.position <= |s|
  {
    if s[i] != QUOTE then BadText(i + 1)
    else
      var e := ClosingQuote(s, i + 1);
      if e < 0 then BadText(i + 1)
      else
        BadEscapeInside(s, i + 1, e);
        match Decode(s, i + 1, e)
        case Decoded(bytes) => Text(BeforeNul(bytes), e + 1)
        case BadEscape(position) => BadText(position)
  }

  lemma {:induction false} BadEscapeInside(s: seq<byte>, p: nat, e: nat)
    requires e < |s|
    ensures Decode(s, p, e).BadEscape? ==> p <= Decode(s, p, e).position < e
    decreases e - p
  {
    if p < e {
      if s[p] != BACKSLASH {
        BadEscapeInside(s, p + 1, e);
      } else {
        BadEscapeInside(s, p + 2, e);
        if s[p + 1] == 117 && LiteralAt(s, p, e).length != 0 {
          BadEscapeInside(s, p + LiteralAt(s, p, e).length, e);
        }
      }
    }
  }

  lemma PrependConcat(a: seq<byte>, b: seq<byte>, rest: Decoded)
    ensures Prepend(a + b, rest) == Prepend(a, Prepend(b, rest))
  {
    if rest.Decoded? {
      assert a + b + rest.bytes == a + (b + rest.bytes);
    }
  }

  // The output buffer is large enough, although the two passes may disagree on where escapes start.

  /** The positions between `p` and `e` at which the first pass sees a backslash that hides a byte. */
  ghost function Hiding(s: seq<byte>, p: nat, e: nat): set<int>
    requires e <= |s|
    decreases e - p
  {
    if p >= e then {}
    else if s[p] == BACKSLASH then {p} + Hiding(s, p + 2, e)
    else Hiding(s, p + 1, e)
  }

  /** How many members of `k` lie between `a` and `b`. */
  ghost function Count(k: set<int>, a: int, b: int): nat
    decreases b - a
  {
    if a >= b then 0 else (if a in k then 1 else 0) + Count(k, a + 1, b)
  }

  /** No two members are adjacent, each is a backslash, and the byte it hides lies before `e` too. */
  ghost predicate Sparse(s: seq<byte>, k: set<int>, e: nat) {
    forall x :: x in k ==> 0 <= x && x + 2 <= e <= |s| && s[x] == BACKSLASH && x + 1 !in k
  }

  /** The key fact: hiding positions are at least two apart. */
  lemma {:induction false} HidingIsSparse(s: seq<byte>, p: nat)
    requires ClosingQuote(s, p) >= 0
    ensures Sparse(s, Hiding(s, p, ClosingQuote(s, p)), ClosingQuote(s, p))
    ensures forall x :: x in Hiding(s, p, ClosingQuote(s, p)) ==> p <= x
    decreases |s| - p
  {
    if s[p] == BACKSLASH {
      HidingIsSparse(s, p + 2);
    } else if s[p] != QUOTE {
      HidingIsSparse(s, p + 1);
    }
  }

  /** So a window holds at most half as many hiding positions, rounded up, as bytes. */
  lemma {:induction false} CountWindow(s: seq<byte>, k: set<int>, e: nat, a: int, b: int)
    requires Sparse(s, k, e) && a <= b
    ensures 2 * Count(k, a, b) <= b - a + 1
    ensures a !in k ==> 2 * Count(k, a, b) <= b - a
    decreases b - a
  {
    if a < b {
      CountWindow(s, k, e, a + 1, b);
    }
  }

  lemma {:induction false} CountSplit(k: set<int>, a: int, b: int, c: int)
    requires a <= b <= c
    ensures Count(k, a, c) == Count(k, a, b) + Count(k, b, c)
    decreases b - a
  {
    if a < b {
      CountSplit(k, a + 1, b, c);
    }
  }

  lemma {:induction false} CountAtMost(k: set<int>, a: int, b: int)
    requires a <= b
    ensures Count(k, a, b) <= b - a
    decreases b - a
  {
    if a < b {
      CountAtMost(k, a + 1, b);
    }
  }

  lemma {:induction false} CountFrame(k: set<int>, l: set<int>, a: int, b: int)
    requires forall x :: a <= x < b ==> (x in k <==> x in l)
    ensures Count(k, a, b) == Count(l, a, b)
    decreases b - a
  {
    if a < b {
      CountFrame(k, l, a + 1, b);
    }
  }

  /** How far the output may be after the second pass has consumed the input up to `p`. */
  ghost function Room(k: set<int>, start: nat, p: nat): int { p - start - Count(k, start, p) }

  /**
   * One step of the second pass: `c` input bytes give `w` output bytes. The output stays within
   * Room, which in turn stays within what the first pass allocated.
   */
  lemma StepFits(s: seq<byte>, k: set<int>, e: nat, start: nat, p: nat, c: nat, w: nat)
    requires Sparse(s, k, e) && start <= p && p + c <= e <= |s|
    requires (c == 1 && w == 1 && s[p] != BACKSLASH) || (c == 2 && w == 1) || (c == 6 && w <= 3) || (c == 12 && w == 4)
    ensures Room(k, start, p) + w <= Room(k, start, p + c) <= Room(k, start, e)
  {
    CountSplit(k, start, p, p + c);
    CountSplit(k, start, p + c, e);
    CountWindow(s, k, e, p, p + c);
    CountAtMost(k, p + c, e);
  }

  /** The last escape may start at the last byte before the quote, when the passes disagree. */
  lemma LastStepFits(s: seq<byte>, k: set<int>, e: nat, start: nat, p: nat)
    requires Sparse(s, k, e) && start <= p && p + 1 == e
    ensures Room(k, start, p) + 1 == Room(k, start, e)
  {
    CountSplit(k, start, p, e);
    assert p !in k;
    assert Count(k, p + 1, e) == 0;
  }

  /**
   * The two passes agree on size, for every input: what the second pass writes fits the length that
   * the first pass computed (the bytes from the opening quote to the closing one, less one for each
   * hidden byte), with a byte to spare before the terminator.
   */
  lemma {:induction false} DecodeFits(s: seq<byte>, start: nat, p: nat)
    requires ClosingQuote(s, start) >= 0 && start <= p <= ClosingQuote(s, start)
    ensures var e := ClosingQuote(s, start); var k := Hiding(s, start, e);
            Decode(s, p, e).Decoded? ==> Room(k, start, p) + |Decode(s, p, e).bytes| <= Room(k, start, e)
    decreases ClosingQuote(s, start) - p
  {
    hide ClosingQuote, Hiding, Room, Sparse, LiteralAt, Utf8, Utf8Length, SimpleEscape;
    var e := ClosingQuote(s, start);
    var k := Hiding(s, start, e);
    HidingIsSparse(s, start);
    if p < e {
      if s[p] != BACKSLASH {
        StepFits(s, k, e, start, p, 1, 1);
        DecodeFits(s, start, p + 1);
      } else if s[p + 1] == 117 {
        var literal := LiteralAt(s, p, e);
        if literal.length != 0 {
          StepFits(s, k, e, start, p, literal.length, Utf8Length(literal.codepoint));
          DecodeFits(s, start, p + literal.length);
        }
      } else if p + 2 <= e {
        StepFits(s, k, e, start, p, 2, 1);
        DecodeFits(s, start, p + 2);
      } else {
        LastStepFits(s, k, e, start, p);
      }
    }
  }
}
