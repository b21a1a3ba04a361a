/** Bytes and C strings, as the JSON engine sees them. */
module Bytes {

  /** An `unsigned char`. */
  type byte = b: int | 0 <= b < 256

  /** A byte that can stand inside a C string. */
  type cbyte = b: byte | b != 0 witness 1

  /** What a `char *` denotes: the bytes before the terminating NUL. */
  type CString = seq<cbyte>

  const INT_MAX: int := 0x7FFF_FFFF
  const INT_MIN: int := -0x8000_0000

  const NUL: byte := 0
  const BACKSPACE: cbyte := 8
  const TAB: cbyte := 9
  const NEWLINE: cbyte := 10
  const FORMFEED: cbyte := 12
  const RETURN: cbyte := 13
  const SPACE: cbyte := 32
  const QUOTE: cbyte := 34
  const PLUS: cbyte := 43
  const COMMA: cbyte := 44
  const MINUS: cbyte := 45
  const POINT: cbyte := 46
  const SLASH: cbyte := 47
  const ZERO: cbyte := 48
  const COLON: cbyte := 58
  const BACKSLASH: cbyte := 92
  const OPEN_BRACKET: cbyte := 91
  const CLOSE_BRACKET: cbyte := 93
  const OPEN_BRACE: cbyte := 123
  const CLOSE_BRACE: cbyte := 125

  /** The literals of section 3 of RFC 8259: `null`, `false` and `true`. */
  const NULL_TEXT: CString := [110, 117, 108, 108]
  const FALSE_TEXT: CString := [102, 97, 108, 115, 101]
  const TRUE_TEXT: CString := [116, 114, 117, 101]

  predicate IsDigit(b: byte) { ZERO <= b <= 57 }

  /** A character of a literal in the source; all of them are ASCII, and another one would be a question mark. */
  function AsciiByte(c: char): cbyte { if 0 < c as int < 128 then c as int else 63 }

  /** The bytes of a literal in the source. */
  function Ascii(s: string): (t: CString)
    ensures |t| == |s| && (s != [] ==> t[0] == AsciiByte(s[0]))
  {
    seq(|s|, i requires 0 <= i < |s| => AsciiByte(s[i]))
  }

  /** The C string that starts at the head of `s`: everything before the first NUL. */
  function BeforeNul(s: seq<byte>): (t: CString)
    ensures |t| <= |s|
    ensures forall i :: 0 <= i < |t| ==> t[i] == s[i]
    ensures |t| < |s| ==> s[|t|] == NUL
  {
    if s == [] || s[0] == NUL then [] else [s[0]] + BeforeNul(s[1..])
  }

  /** `t` occurs in `s` at position `i`. */
  predicate At(s: seq<byte>, i: int, t: seq<byte>) {
    0 <= i <= i + |t| <= |s| && forall k {:trigger t[k]} :: 0 <= k < |t| ==> s[i + k] == t[k]
  }

  /** An occurrence of a concatenation is two adjacent occurrences. */
  lemma AtSplit(s: seq<byte>, i: int, a: seq<byte>, b: seq<byte>)
    ensures At(s, i, a + b) <==> At(s, i, a) && At(s, i + |a|, b)
  {
    var t := a + b;
    assert forall k :: 0 <= k < |a| ==> t[k] == a[k];
    assert forall k :: 0 <= k < |b| ==> t[|a| + k] == b[k];
  }

  lemma AtByte(s: seq<byte>, i: int, t: seq<byte>, k: nat)
    requires At(s, i, t) && k < |t|
    ensures i + k < |s| && s[i + k] == t[k]
  {
  }

  lemma AtSlice(s: seq<byte>, i: int, t: seq<byte>)
    requires At(s, i, t)
    ensures 0 <= i <= i + |t| <= |s| && s[i..i + |t|] == t
  {
  }

  lemma AtSplit3(s: seq<byte>, i: int, a: seq<byte>, b: seq<byte>, c: seq<byte>)
    ensures At(s, i, a + b + c) <==> At(s, i, a) && At(s, i + |a|, b) && At(s, i + |a| + |b|, c)
  {
    AtSplit(s, i, a + b, c);
    AtSplit(s, i, a, b);
  }

  lemma AtSplit4(s: seq<byte>, i: int, a: seq<byte>, b: seq<byte>, c: seq<byte>, d: seq<byte>)
    ensures At(s, i, a + b + c + d)
       <==> At(s, i, a) && At(s, i + |a|, b) && At(s, i + |a| + |b|, c) && At(s, i + |a| + |b| + |c|, d)
  {
    AtSplit(s, i, a + b + c, d);
    AtSplit3(s, i, a, b, c);
  }


  lemma AsciiBytes(s: string)
    requires forall i :: 0 <= i < |s| ==> 0 < s[i] as int < 128
    ensures |Ascii(s)| == |s| && forall i :: 0 <= i < |s| ==> Ascii(s)[i] == s[i] as int
  {
  }
}
