/** `\u` escapes: UTF-16 (section 2 of RFC 2781) in, UTF-8 (section 3 of RFC 3629) out. */
module Utf {
  import opened Bytes

  predicate IsHex(b: byte) { IsDigit(b) || 65 <= b <= 70 || 97 <= b <= 102 }

  function HexValue(b: byte): (d: nat)
    requires IsHex(b)
    ensures d < 16
  {
    if IsDigit(b) then b - ZERO else if b <= 70 then 10 + b - 65 else 10 + b - 97
  }

  /** The number written by the `k` hexadecimal digits at `i`. */
  function HexPrefix(s: seq<byte>, i: nat, k: nat): (h: nat)
    requires i + k <= |s|
    requires forall j :: i <= j < i + k ==> IsHex(s[j])
  {
    if k == 0 then 0 else 0x10 * HexPrefix(s, i, k - 1) + HexValue(s[i + k - 1])
  }

  lemma FourHexDigits(s: seq<byte>, i: nat)
    requires i + 4 <= |s|
    requires forall j :: i <= j < i + 4 ==> IsHex(s[j])
    ensures HexPrefix(s, i, 4)
      == 0x1000 * HexValue(s[i]) + 0x100 * HexValue(s[i + 1]) + 0x10 * HexValue(s[i + 2]) + HexValue(s[i + 3])
    ensures HexPrefix(s, i, 4) < 0x10000
  {
    assert HexPrefix(s, i, 1) == HexValue(s[i]);
    assert HexPrefix(s, i, 2) == 0x10 * HexPrefix(s, i, 1) + HexValue(s[i + 1]);
    assert HexPrefix(s, i, 3) == 0x10 * HexPrefix(s, i, 2) + HexValue(s[i + 2]);
  }

  /** The number written by four hexadecimal digits at `i`; 0 when one of them is not a digit. */
  function Hex4(s: seq<byte>, i: nat): (h: nat)
    requires i + 4 <= |s|
    ensures h < 0x10000
  {
    if forall j :: i <= j < i + 4 ==> IsHex(s[j]) then
      FourHexDigits(s, i);
      HexPrefix(s, i, 4)
    else 0
  }

  /** `parse_hex4`: shifts and masks of the source are written as multiplications and remainders. */
  method ParseHex4(s: seq<byte>, start: nat) returns (h: nat)
    requires start + 4 <= |s|
    ensures h == Hex4(s, start)
  {
    h := 0;
    var i := 0;
    while i < 4
      invariant 0 <= i <= 4
      invariant forall j :: start <= j < start + i ==> IsHex(s[j])
      invariant h == if i < 4 then 0x10 * HexPrefix(s, start, i) else HexPrefix(s, start, 4)
    {
      var c := s[start + i];
      if ZERO <= c <= 57 {
        h := h + (c - ZERO);
      } else if 65 <= c <= 70 {
        h := h + (10 + c - 65);
      } else if 97 <= c <= 102 {
        h := h + (10 + c - 97);
      } else {
        return 0;
      }
      if i < 3 {
        h := 16 * h;
      }
      i := i + 1;
    }
  }

  predicate IsHigh(code: nat) { 0xD800 <= code <= 0xDBFF }
  predicate IsLow(code: nat) { 0xDC00 <= code <= 0xDFFF }

  /** A Unicode scalar value: a code point that is not a surrogate. */
  predicate IsScalar(cp: nat) { cp <= 0x10FFFF && !IsHigh(cp) && !IsLow(cp) }

  /** The code point of a surrogate pair, section 2.2 of RFC 2781. */
  function PairCodepoint(high: nat, low: nat): (cp: nat)
    requires IsHigh(high) && IsLow(low)
    ensures 0x10000 <= cp <= 0x10FFFF
  {
    0x10000 + 0x400 * (high - 0xD800) + (low - 0xDC00)
  }

  function Utf8Length(cp: nat): nat {
    if cp < 0x80 then 1 else if cp < 0x800 then 2 else if cp < 0x10000 then 3 else 4
  }

  /** The bytes of a code point, the table in section 3 of RFC 3629. */
  function Utf8(cp: nat): (u: seq<byte>)
    requires cp <= 0x10FFFF
    ensures |u| == Utf8Length(cp)
  {
    if cp < 0x80 then [cp]
    else if cp < 0x800 then [0xC0 + cp / 0x40, Tail(cp)]
    else if cp < 0x10000 then [0xE0 + cp / 0x40 / 0x40, Tail(cp / 0x40), Tail(cp)]
    else [0xF0 + cp / 0x40 / 0x40 / 0x40, Tail(cp / 0x40 / 0x40), Tail(cp / 0x40), Tail(cp)]
  }

  /** A continuation byte: the marker bits and the low six bits of `x`. */
  function Tail(x: nat): byte { 0x80 + x % 0x40 }

  /** Reads one code point back from its bytes: the marker bits of the first byte give the length. */
  function Utf8Decode(u: seq<byte>): nat
    requires u != []
  {
    if u[0] < 0x80 then u[0]
    else if u[0] < 0xE0 then
      if |u| < 2 then 0 else Push(u[0] % 0x20, u[1])
    else if u[0] < 0xF0 then
      if |u| < 3 then 0 else Push(Push(u[0] % 0x10, u[1]), u[2])
    else
      if |u| < 4 then 0 else Push(Push(Push(u[0] % 0x08, u[1]), u[2]), u[3])
  }

  /** Appends the six low bits of a continuation byte. */
  function Push(x: nat, b: byte): nat { x * 0x40 + b % 0x40 }

  lemma PushTail(x: nat)
    ensures Push(x / 0x40, Tail(x)) == x
  {
    assert (0x80 + x % 0x40) % 0x40 == x % 0x40;
  }

  lemma Utf8RoundTrip(cp: nat)
    requires cp <= 0x10FFFF
    ensures Utf8Decode(Utf8(cp)) == cp
  {
    hide Push, Tail;
    var a, b, c := cp / 0x40, cp / 0x40 / 0x40, cp / 0x40 / 0x40 / 0x40;
    PushTail(cp);
    PushTail(a);
    PushTail(b);
    if 0x80 <= cp < 0x800 {
      MarkedByte(a, 0, 0);
    } else if 0x800 <= cp < 0x10000 {
      MarkedByte(0, b, 0);
    } else if 0x10000 <= cp {
      MarkedByte(0, 0, c);
    }
  }

  /** The low bits of a first byte, for each of its marks. */
  lemma MarkedByte(a: nat, b: nat, c: nat)
    requires a < 0x20 && b < 0x10 && c < 0x08
    ensures (0xC0 + a) % 0x20 == a && (0xE0 + b) % 0x10 == b && (0xF0 + c) % 0x08 == c
  {
  }

  predicate IsTail(b: byte) { 0x80 <= b <= 0xBF }

  /** The bytes are those of the grammar in section 4 of RFC 3629, and carry the bits of the code point. */
  lemma Utf8IsWellFormed(cp: nat)
    requires cp <= 0x10FFFF
    ensures var u := Utf8(cp);
      if cp < 0x80 then u == [cp]
      else if cp < 0x800 then
        |u| == 2 && 0xC2 <= u[0] <= 0xDF && IsTail(u[1]) && cp == 64 * (u[0] as int - 0xC0) + (u[1] as int - 0x80)
      else if cp < 0x10000 then
        |u| == 3 && 0xE0 <= u[0] <= 0xEF && IsTail(u[1]) && IsTail(u[2])
        && cp == 4096 * (u[0] as int - 0xE0) + 64 * (u[1] as int - 0x80) + (u[2] as int - 0x80)
      else
        |u| == 4 && 0xF0 <= u[0] <= 0xF4 && IsTail(u[1]) && IsTail(u[2]) && IsTail(u[3])
        && cp == 0x40000 * (u[0] as int - 0xF0) + 4096 * (u[1] as int - 0x80) + 64 * (u[2] as int - 0x80)
                 + (u[3] as int - 0x80)
  {
    TailBits(cp);
    TailBits(cp / 0x40);
    TailBits(cp / 0x40 / 0x40);
    hide Tail;
  }

  lemma TailBits(x: nat)
    ensures IsTail(Tail(x)) && x == 64 * (x / 0x40) + (Tail(x) - 0x80)
  {
  }

  /** What a `\u` literal decodes to: how many input bytes it takes (0 for a bad one), and a code point. */
  datatype Literal = Literal(length: nat, codepoint: nat)

  const BAD_LITERAL := Literal(0, 0)

  /** The literal whose backslash is at `p`, in a string that ends at `e`. */
  function LiteralAt(s: seq<byte>, p: nat, e: nat): (r: Literal)
    requires e <= |s|
    ensures r.length != 0 ==> (r.length == 6 || r.length == 12) && p + r.length <= e && IsScalar(r.codepoint)
    ensures r.length == 12 ==> Utf8Length(r.codepoint) == 4
    ensures r.length == 6 ==> Utf8Length(r.codepoint) <= 3
  {
    if e < p + 6 then BAD_LITERAL
    else
      var first := Hex4(s, p + 2);
      if IsLow(first) then BAD_LITERAL
      else if !IsHigh(first) then Literal(6, first)
      else if e < p + 12 || s[p + 6] != BACKSLASH || s[p + 7] != 117 then BAD_LITERAL
      else
        var second := Hex4(s, p + 8);
        if IsLow(second) then Literal(12, PairCodepoint(first, second)) else BAD_LITERAL
  }

  /** `utf16_literal_to_utf8`, writing at `output[at..]`. A rejected literal writes nothing. */
  method Utf16LiteralToUtf8(s: seq<byte>, p: nat, e: nat, output: array<byte>, at: nat)
    returns (length: nat, written: nat)
    requires e <= |s|
    requires LiteralAt(s, p, e).length != 0 ==> at + Utf8Length(LiteralAt(s, p, e).codepoint) <= output.Length
    modifies output
    ensures length == LiteralAt(s, p, e).length
    ensures length == 0 ==> written == 0 && output[..] == old(output[..])
    ensures length != 0 ==>
      && written == Utf8Length(LiteralAt(s, p, e).codepoint)
      && at + written <= output.Length
      && output[..at + written] == old(output[..at]) + Utf8(LiteralAt(s, p, e).codepoint)
  {
    var codepoint;
    length, codepoint := ReadLiteral(s, p, e);
    if length == 0 {
      return 0, 0;
    }
    written := EncodeUtf8(codepoint, output, at);
  }

  /** The reading half of `utf16_literal_to_utf8`: one or two hexadecimal code units. */
  method ReadLiteral(s: seq<byte>, p: nat, e: nat) returns (length: nat, codepoint: nat)
    requires e <= |s|
    ensures Literal(length, codepoint) == LiteralAt(s, p, e)
  {
    if e < p + 6 {
      return 0, 0;
    }
    var first := ParseHex4(s, p + 2);
    if 0xDC00 <= first <= 0xDFFF {
      return 0, 0;
    }
    if 0xD800 <= first <= 0xDBFF {
      if e < p + 12 {
        return 0, 0;
      }
      if s[p + 6] != BACKSLASH || s[p + 7] != 117 {
        return 0, 0;
      }
      var second := ParseHex4(s, p + 8);
      if second < 0xDC00 || second > 0xDFFF {
        return 0, 0;
      }
      return 12, 0x10000 + ((first % 0x400) * 0x400 + second % 0x400);
    }
    return 6, first;
  }

  /** The encoding half of `utf16_literal_to_utf8`: continuation bytes from the last to the second, then the first. */
  method EncodeUtf8(cp: nat, output: array<byte>, at: nat) returns (written: nat)
    requires cp <= 0x10FFFF && at + Utf8Length(cp) <= output.Length
    modifies output
    ensures written == Utf8Length(cp)
    ensures output[..at + written] == old(output[..at]) + Utf8(cp)
  {
    hide Utf8, Shifted, Tail;
    var mark;
    if cp < 0x80 {
      written, mark := 1, 0;
    } else if cp < 0x800 {
      written, mark := 2, 0xC0;
    } else if cp < 0x10000 {
      written, mark := 3, 0xE0;
    } else {
      written, mark := 4, 0xF0;
    }
    Utf8Bytes(cp);
    var position, rest := written - 1, cp;
    while position > 0
      invariant 0 <= position < written
      invariant rest == Shifted(cp, written - 1 - position)
      invariant forall j :: position < j < written ==> output[at + j] == Utf8(cp)[j]
      invariant output[..at] == old(output[..at])
    {
      output[at + position] := Tail(rest);
      ShiftOnce(cp, written - 1 - position);
      rest := rest / 0x40;
      position := position - 1;
    }
    output[at] := if written > 1 then mark + rest else rest % 0x80;
    assert forall j :: 0 <= j < written ==> output[at + j] == Utf8(cp)[j];
    assert output[at..at + written] == Utf8(cp);
  }

  /** The code point after `k` shifts by six bits. */
  function Shifted(cp: nat, k: nat): nat { if k == 0 then cp else Shifted(cp, k - 1) / 0x40 }

  lemma ShiftOnce(cp: nat, k: nat)
    ensures Shifted(cp, 0) == cp && Shifted(cp, k + 1) == Shifted(cp, k) / 0x40
  {
  }

  /**
   * Each byte but the first is the tail of the code point shifted, and the first one is what is left,
   * with its mark.
   */
  lemma Utf8Bytes(cp: nat)
    requires cp <= 0x10FFFF
    ensures Shifted(cp, 0) == cp
    ensures var n := Utf8Length(cp);
      && (forall j :: 0 < j < n ==> Utf8(cp)[j] == Tail(Shifted(cp, n - 1 - j)))
      && Utf8(cp)[0] == (if n == 1 then cp % 0x80
                         else (if n == 2 then 0xC0 else if n == 3 then 0xE0 else 0xF0) + Shifted(cp, n - 1))
  {
    ShiftedBytes(cp);
  }

  lemma ShiftedBytes(cp: nat)
    ensures Shifted(cp, 0) == cp
    ensures Shifted(cp, 1) == cp / 0x40
    ensures Shifted(cp, 2) == cp / 0x40 / 0x40
    ensures Shifted(cp, 3) == cp / 0x40 / 0x40 / 0x40
  {
    assert Shifted(cp, 2) == Shifted(cp, 1) / 0x40;
    assert Shifted(cp, 3) == Shifted(cp, 2) / 0x40;
  }

  // The escape of a scalar value, in the words of section 2.1 of RFC 2781.

  /** Four hexadecimal digits at `i`, in either case, write `code`. */
  predicate WritesCode(s: seq<byte>, i: nat, code: nat) {
    && i + 4 <= |s|
    && (forall k :: i <= k < i + 4 ==> IsHex(s[k]))
    && HexValue(s[i]) == code / 0x10 / 0x10 / 0x10
    && HexValue(s[i + 1]) == code / 0x10 / 0x10 % 0x10
    && HexValue(s[i + 2]) == code / 0x10 % 0x10
    && HexValue(s[i + 3]) == code % 0x10
  }

  function HighOf(cp: nat): nat
    requires 0x10000 <= cp
  {
    0xD800 + (cp - 0x10000) / 0x400
  }

  function LowOf(cp: nat): nat
    requires 0x10000 <= cp
  {
    0xDC00 + (cp - 0x10000) % 0x400
  }

  /** The text at `p` is the escape of the scalar value `cp`: one code unit, or a surrogate pair. */
  predicate WritesScalar(s: seq<byte>, p: nat, cp: nat) {
    if cp < 0x10000 then WritesCode(s, p + 2, cp)
    else
      && WritesCode(s, p + 2, HighOf(cp))
      && p + 12 <= |s| && s[p + 6] == BACKSLASH && s[p + 7] == 117
      && WritesCode(s, p + 8, LowOf(cp))
  }

  lemma Hex4Reads(s: seq<byte>, i: nat, code: nat)
    requires code < 0x10000 && WritesCode(s, i, code)
    ensures Hex4(s, i) == code
  {
    FourHexDigits(s, i);
    FourDigits(code);
  }

  lemma FourDigits(code: nat)
    ensures code == 0x1000 * (code / 0x10 / 0x10 / 0x10) + 0x100 * (code / 0x10 / 0x10 % 0x10)
                    + 0x10 * (code / 0x10 % 0x10) + code % 0x10
  {
  }

  lemma FourDigitsUnique(a: nat, b: nat, c: nat, d: nat)
    requires a < 0x10 && b < 0x10 && c < 0x10 && d < 0x10
    ensures var code := 0x1000 * a + 0x100 * b + 0x10 * c + d;
            code / 0x10 == 0x100 * a + 0x10 * b + c && code / 0x10 / 0x10 == 0x10 * a + b
            && code / 0x10 / 0x10 / 0x10 == a && code % 0x10 == d && code / 0x10 % 0x10 == c
            && code / 0x10 / 0x10 % 0x10 == b
  {
  }

  /** Every escape of a scalar value is read as exactly that scalar value, and its bytes decode to it. */
  lemma LiteralReadsScalar(s: seq<byte>, p: nat, e: nat, cp: nat)
    requires e <= |s| && IsScalar(cp) && WritesScalar(s, p, cp)
    requires p + (if cp < 0x10000 then 6 else 12) <= e
    ensures LiteralAt(s, p, e) == Literal(if cp < 0x10000 then 6 else 12, cp)
    ensures Utf8Decode(Utf8(LiteralAt(s, p, e).codepoint)) == cp
  {
    Utf8RoundTrip(cp);
    if cp < 0x10000 {
      Hex4Reads(s, p + 2, cp);
    } else {
      Hex4Reads(s, p + 2, HighOf(cp));
      Hex4Reads(s, p + 8, LowOf(cp));
      assert (cp - 0x10000) / 0x400 < 0x400;
    }
  }

  lemma WritesHex4(s: seq<byte>, i: nat)
    requires i + 4 <= |s|
    requires forall k :: i <= k < i + 4 ==> IsHex(s[k])
    ensures WritesCode(s, i, Hex4(s, i))
  {
    FourHexDigits(s, i);
    FourDigitsUnique(HexValue(s[i]), HexValue(s[i + 1]), HexValue(s[i + 2]), HexValue(s[i + 3]));
  }

  /**
   * Conversely, an accepted literal over hexadecimal digits is the escape of the scalar value it is
   * read as. With LiteralReadsScalar: exactly the escapes of scalar values are accepted.
   */
  lemma AcceptedLiteralWritesScalar(s: seq<byte>, p: nat, e: nat)
    requires e <= |s| && LiteralAt(s, p, e).length != 0
    requires forall k :: p + 2 <= k < p + 6 ==> IsHex(s[k])
    ensures WritesScalar(s, p, LiteralAt(s, p, e).codepoint)
  {
    var first := Hex4(s, p + 2);
    WritesHex4(s, p + 2);
    if LiteralAt(s, p, e).length == 12 {
      var cp := LiteralAt(s, p, e).codepoint;
      assert IsLow(Hex4(s, p + 8));
      WritesHex4(s, p + 8);
      assert HighOf(cp) == first;
      assert LowOf(cp) == Hex4(s, p + 8);
    }
  }
}
