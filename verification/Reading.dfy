/** The parser reads every text of the grammar as its value, and nothing else. */
module Reading {
  import opened Bytes
  import opened JsonValue
  import opened Grammar
  import opened NumberText
  import opened Utf
  import opened StringCodec
  import opened ParseSpec

  // Numbers.

  lemma {:induction false} DigitRunTo(t: seq<byte>, i: nat, e: nat)
    requires i <= e <= |t| && (forall j :: i <= j < e ==> IsDigit(t[j])) && (e < |t| ==> !IsDigit(t[e]))
    ensures DigitRun(t, i) == e
    decreases e - i
  {
    if i < e {
      DigitRunTo(t, i + 1, e);
    }
  }

  lemma {:induction false} ValueSplit(t: seq<byte>, i: nat, k: nat, e: nat, acc: nat)
    requires i <= k <= e <= |t|
    ensures Value(t, i, e, acc) == Value(t, k, e, Value(t, i, k, acc))
    decreases k - i
  {
    if i < k {
      ValueSplit(t, i + 1, k, e, if IsDigit(t[i]) then 10 * acc + (t[i] - ZERO) else acc);
    }
  }

  /** Digits read after the digits `p`. */
  lemma {:induction false} ValueIsWorth(t: seq<byte>, i: nat, e: nat, p: seq<byte>)
    requires i <= e <= |t| && Digits(t[i..e])
    ensures Value(t, i, e, Worth(p)) == Worth(p + t[i..e])
    decreases e - i
  {
    if i == e {
      assert p + t[i..e] == p;
    } else {
      var q := p + [t[i]];
      assert t[i..e][0] == t[i] && q[..|q| - 1] == p;
      assert t[i + 1..e] == t[i..e][1..] && q + t[i + 1..e] == p + t[i..e];
      ValueIsWorth(t, i + 1, e, q);
    }
  }

  lemma {:induction false} ScaleUp(e: nat)
    ensures Scale(e) == Tens(e) as real
  {
    if e > 0 {
      ScaleUp(e - 1);
    }
  }

  lemma {:induction false} ScaleNegative(e: nat)
    ensures Scale(0 - e) == 1.0 / Tens(e) as real
  {
    ScaleShift(0, e);
  }

  lemma ScaleDown(e: int)
    ensures Scale(e - 1) == Scale(e) / 10.0
  {
  }

  lemma {:induction false} ScaleShift(e: int, f: nat)
    ensures Scale(e - f) == Scale(e) / Tens(f) as real
  {
    if f > 0 {
      ScaleShift(e, f - 1);
      ScaleDown(e - (f - 1));
    }
  }

  lemma FourParts(a: seq<byte>, b: seq<byte>, c: seq<byte>, d: seq<byte>)
    ensures var t := a + b + c + d;
      t[..|a|] == a && t[|a|..|a| + |b|] == b && t[|a| + |b|..|a| + |b| + |c|] == c && t[|a| + |b| + |c|..] == d
  {
  }

  function Sign(n: Numeral): seq<byte> { if n.minus then [45] else [] }

  function Dot(n: Numeral): seq<byte> { if n.point then [46] + n.fraction else [] }

  /** Where the parts of a numeral are. */
  lemma NumeralParts(n: Numeral, t: seq<byte>, point: nat, frac: nat, end: nat)
    requires Numeric(n) && t == NumeralText(n) && point == |Sign(n)| + |n.whole|
    requires frac == (if n.point then point + 1 else point) && end == frac + |n.fraction|
    ensures t != [] && end <= |t| && t[|Sign(n)|..point] == n.whole && t[frac..end] == n.fraction
    ensures t[end..] == ScalingText(n.scaling) && (t[0] == 45 <==> n.minus) && (n.point ==> t[point] == 46)
  {
    hide ScalingText;
    var dot := Dot(n);
    FourParts(Sign(n), n.whole, dot, ScalingText(n.scaling));
    assert t == Sign(n) + n.whole + dot + ScalingText(n.scaling);
    assert t[point..end] == dot;
    if n.point {
      assert t[point] == t[point..end][0] && t[frac..end] == t[point..end][1..];
    }
    if n.minus {
      assert t[..1][0] == 45;
    } else {
      assert t[0] == t[0..point][0] == n.whole[0];
    }
  }

  /** `strtod` reads a numeral to its end, and as its value. */
  lemma NumeralIsRead(n: Numeral)
    requires Numeric(n)
    ensures Strtod(NumeralText(n)) == Decimal(NumeralValue(n), |NumeralText(n)|)
  {
    hide NumeralText, ScalingText, Worth, Power, Value, Scale, Exponent, DigitRun;
    var t, start := NumeralText(n), |Sign(n)|;
    var point := start + |n.whole|;
    var frac := if n.point then point + 1 else point;
    var end := frac + |n.fraction|;
    NumeralParts(n, t, point, frac, end);
    RunsAreRead(n, t, start, point, frac, end);
    MagnitudeIsRead(n, t, start, point, frac, end);
    ScalingIsRead(t, end, n.scaling);
    ScaleShift(Exponent(t, end).0, |n.fraction|);
    Reorder(Worth(n.whole + n.fraction) as real, Power(n.scaling), Tens(|n.fraction|) as real);
  }

  lemma Reorder(w: real, p: real, t: real)
    requires t > 0.0
    ensures w * (p / t) == w / t * p
  {
  }

  lemma RunsAreRead(n: Numeral, t: seq<byte>, start: nat, point: nat, frac: nat, end: nat)
    requires Numeric(n) && start == |Sign(n)| && start <= point <= frac <= end <= |t|
    requires frac == (if n.point then point + 1 else point) && t != [] && (t[0] == 45 <==> n.minus)
    requires t[start..point] == n.whole && t[frac..end] == n.fraction && (n.point ==> t[point] == 46)
    requires t[end..] == ScalingText(n.scaling)
    ensures IsSign(t, 0) <==> n.minus
    ensures DigitRun(t, start) == point && (n.point <==> point < |t| && t[point] == POINT)
    ensures n.point ==> DigitRun(t, frac) == end
  {
    assert forall j :: start <= j < point ==> t[j] == n.whole[j - start];
    assert forall j :: frac <= j < end ==> t[j] == n.fraction[j - frac];
    assert end < |t| ==> t[end] == t[end..][0] == ScalingText(n.scaling)[0];
    DigitRunTo(t, start, point);
    if n.point {
      DigitRunTo(t, frac, end);
    }
  }

  lemma MagnitudeIsRead(n: Numeral, t: seq<byte>, start: nat, point: nat, frac: nat, end: nat)
    requires Numeric(n) && start <= point <= frac <= end <= |t| && frac <= point + 1
    requires t[start..point] == n.whole && t[frac..end] == n.fraction && (point < frac ==> t[point] == 46)
    ensures Value(t, start, end, 0) == Worth(n.whole + n.fraction)
  {
    ValueSplit(t, start, point, end, 0);
    ValueSplit(t, point, frac, end, Value(t, start, point, 0));
    ValueIsWorth(t, start, point, []);
    assert [] + n.whole == n.whole;
    ValueIsWorth(t, frac, end, n.whole);
  }

  lemma ScalingIsRead(t: seq<byte>, i: nat, x: Scaling)
    requires i <= |t| && t[i..] == ScalingText(x)
    requires x.Scaled? ==> x.letter in {101, 69} && x.sign in {[], [43], [45]} && Digits(x.digits) && x.digits != []
    ensures Exponent(t, i).1 == |t| && Scale(Exponent(t, i).0) == Power(x)
  {
    hide Worth, Value, Scale, DigitRun;
    ScaleUp(0);
    if x.Scaled? {
      var d := i + 1 + |x.sign|;
      ScalingParts(t, i, x);
      assert forall j :: d <= j < |t| ==> t[j] == t[d..][j - d];
      DigitRunTo(t, d, |t|);
      assert t[d..|t|] == x.digits;
      hide ScalingText, Power;
      PowerOf(t, d, |t|, t[i + 1] == 45, x);
    }
  }

  /** The digits of an exponent give its power of ten. */
  lemma PowerOf(t: seq<byte>, d: nat, after: nat, minus: bool, x: Scaling)
    requires d < after <= |t| && x.Scaled? && t[d..after] == x.digits && Digits(x.digits) && (minus <==> x.sign == [45])
    ensures var power: int := Value(t, d, after, 0); Scale(if minus then -power else power) == Power(x)
  {
    hide Worth, Value, Scale;
    ValueIsWorth(t, d, after, []);
    NoWorth();
    assert [] + x.digits == x.digits;
    ScaleUp(Worth(x.digits));
    ScaleNegative(Worth(x.digits));
  }

  lemma NoWorth()
    ensures Worth([]) == 0
  {
  }

  lemma ScalingParts(t: seq<byte>, i: nat, x: Scaling)
    requires i <= |t| && t[i..] == ScalingText(x) && x.Scaled?
    requires x.sign in {[], [43], [45]} && Digits(x.digits) && x.digits != []
    ensures var d := i + 1 + |x.sign|;
      && d < |t| && t[i] == x.letter && t[d..] == x.digits && (IsSign(t, i + 1) <==> x.sign != [])
      && (t[i + 1] == 45 <==> x.sign == [45])
  {
    FourParts([x.letter], x.sign, x.digits, []);
    var u := t[i..];
    assert u == [x.letter] + x.sign + x.digits + [];
    assert u[0] == t[i] && u[1] == t[i + 1] && t[i + 1 + |x.sign|..] == u[1 + |x.sign|..1 + |x.sign| + |x.digits|];
    if x.sign != [] {
      assert u[1] == u[1..2][0] == x.sign[0];
    } else {
      assert u[1] == u[1..1 + |x.digits|][0] == x.digits[0];
    }
  }

  // Strings.

  /** The second pass decodes a unit. */
  lemma UnitIsRead(s: seq<byte>, p: nat, e: nat, u: Unit)
    requires Spells(u) && At(s, p, UnitText(u)) && p + |UnitText(u)| <= e < |s|
    requires u.Dangling? ==> p + 1 == e && s[e] == 34
    ensures Decode(s, p, e) == Prepend(UnitBytes(u), Decode(s, p + |UnitText(u)|, e))
  {
    match u
    case Plain(b) => AtByte(s, p, UnitText(u), 0);
    case Short(letter) =>
      AtByte(s, p, UnitText(u), 0);
      AtByte(s, p, UnitText(u), 1);
    case Code(t) => CodeIsRead(s, p, e, t);
    case Pair(t, v) => PairIsRead(s, p, e, t, v);
    case NoDigits(t) => NoDigitsAreRead(s, p, e, t);
    case Dangling => AtByte(s, p, UnitText(u), 0);
  }

  lemma CodeIsRead(s: seq<byte>, p: nat, e: nat, t: seq<byte>)
    requires Spells(Code(t)) && At(s, p, [92, 117] + t) && p + 6 <= e < |s|
    ensures Decode(s, p, e) == Prepend(UnitBytes(Code(t)), Decode(s, p + 6, e))
  {
    hide Utf8, Prepend, At, CodeOf, FourHex, Hex4;
    AtSplit(s, p, [92, 117], t);
    EscapeStart(s, p);
    HexIsRead(s, p + 2, t);
  }

  lemma PairIsRead(s: seq<byte>, p: nat, e: nat, t: seq<byte>, v: seq<byte>)
    requires Spells(Pair(t, v)) && At(s, p, [92, 117] + t + [92, 117] + v) && p + 12 <= e < |s|
    ensures Decode(s, p, e) == Prepend(UnitBytes(Pair(t, v)), Decode(s, p + 12, e))
  {
    hide Utf8, Prepend, At, CodeOf, Hex4;
    AtSplit4(s, p, [92, 117], t, [92, 117], v);
    EscapeStart(s, p);
    EscapeStart(s, p + 6);
    HexIsRead(s, p + 2, t);
    HexIsRead(s, p + 8, v);
  }

  lemma NoDigitsAreRead(s: seq<byte>, p: nat, e: nat, t: seq<byte>)
    requires Spells(NoDigits(t)) && At(s, p, [92, 117] + t) && p + 6 <= e < |s|
    ensures Decode(s, p, e) == Prepend([0], Decode(s, p + 6, e))
  {
    hide Prepend, At;
    AtSplit(s, p, [92, 117], t);
    EscapeStart(s, p);
    FourBytes(s, p + 2, t);
  }

  lemma FourBytes(s: seq<byte>, p: nat, t: seq<byte>)
    requires |t| == 4 && At(s, p, t)
    ensures p + 4 <= |s| && forall k :: p <= k < p + 4 ==> s[k] == t[k - p]
    ensures !FourHex(t) ==> Hex4(s, p) == 0
  {
    AtByte(s, p, t, 0);
    AtByte(s, p, t, 1);
    AtByte(s, p, t, 2);
    AtByte(s, p, t, 3);
  }

  lemma EscapeStart(s: seq<byte>, p: nat)
    requires At(s, p, [92, 117])
    ensures p + 1 < |s| && s[p] == 92 && s[p + 1] == 117
  {
    AtByte(s, p, [92, 117], 0);
    AtByte(s, p, [92, 117], 1);
  }

  /** Four digits give their number. */
  lemma HexIsRead(s: seq<byte>, p: nat, t: seq<byte>)
    requires FourHex(t) && At(s, p, t)
    ensures p + 4 <= |s| && Hex4(s, p) == CodeOf(t)
  {
    hide At, HexPrefix, HexValue, HexWorth, IsHexDigit, IsHex;
    FourBytes(s, p, t);
    SameDigit(t[0]);
    SameDigit(t[1]);
    SameDigit(t[2]);
    SameDigit(t[3]);
    FourHexDigits(s, p);
  }

  lemma SameDigit(b: byte)
    requires IsHexDigit(b)
    ensures IsHex(b) && HexValue(b) == HexWorth(b)
  {
  }

  lemma {:induction false} SpellingIsRead(s: seq<byte>, p: nat, e: nat, us: seq<Unit>)
    requires Units(us) && At(s, p, SpellingText(us)) && e == p + |SpellingText(us)| < |s| && s[e] == 34
    ensures Decode(s, p, e) == Decoded(SpellingBytes(us))
    decreases |us|
  {
    hide At, UnitText, UnitBytes, Spells;
    if us != [] {
      var n := p + |UnitText(us[0])|;
      AtSplit(s, p, UnitText(us[0]), SpellingText(us[1..]));
      DanglingIsLast(us);
      SpellingIsRead(s, n, e, us[1..]);
      UnitIsRead(s, p, e, us[0]);
    }
  }

  lemma DanglingIsLast(us: seq<Unit>)
    requires us != [] && Units(us)
    ensures us[0].Dangling? ==> SpellingText(us) == UnitText(us[0]) && |UnitText(us[0])| == 1
  {
    if us[0].Dangling? {
      assert us[1..] == [];
    }
  }

  /** The first pass finds the quote behind a text that closes. */
  lemma {:induction false} EndIsFound(s: seq<byte>, p: nat, t: seq<byte>)
    requires Closes(t) && At(s, p, t) && p + |t| < |s| && s[p + |t|] == 34
    ensures ClosingQuote(s, p) == p + |t|
    decreases |t|
  {
    hide At;
    if t != [] {
      var k := if t[0] == 92 then 2 else 1;
      assert t == t[..k] + t[k..];
      AtSplit(s, p, t[..k], t[k..]);
      AtByte(s, p, t, 0);
      EndIsFound(s, p + k, t[k..]);
    }
  }

  /** Every string of the strict grammar closes. */
  lemma {:induction false} StrictIsSpelling(us: seq<Unit>)
    requires forall u <- us :: StrictUnit(u)
    ensures Spelling(us)
    decreases |us|
  {
    hide StrictUnit, Closes, UnitText;
    if us != [] {
      assert forall u <- us[1..] :: u in us;
      StrictIsSpelling(us[1..]);
      ClosesBehind(us[0], SpellingText(us[1..]));
      StrictUnits(us);
    } else {
      NothingCloses();
    }
  }

  lemma NothingCloses()
    ensures Closes([])
  {
  }

  lemma StrictUnits(us: seq<Unit>)
    requires forall u <- us :: StrictUnit(u)
    ensures Units(us)
  {
    forall i | 0 <= i < |us|
      ensures Spells(us[i]) && !us[i].Dangling?
    {
      assert us[i] in us;
    }
  }

  lemma ClosesBehind(u: Unit, t: seq<byte>)
    requires StrictUnit(u) && Closes(t)
    ensures Closes(UnitText(u) + t)
  {
    hide Closes, CodeOf, Utf8;
    match u
    case Plain(b) => ByteCloses(b, t);
    case Short(letter) => LetterCloses(letter, t);
    case Code(d) => EscapeCloses(d, t);
    case Pair(d, e) =>
      EscapeCloses(e, t);
      EscapeCloses(d, [92, 117] + e + t);
      assert [92, 117] + d + ([92, 117] + e + t) == UnitText(u) + t;
  }

  lemma ByteCloses(b: byte, t: seq<byte>)
    requires b != 34 && b != 92 && Closes(t)
    ensures Closes([b] + t)
  {
    assert ([b] + t)[1..] == t;
  }

  lemma LetterCloses(letter: byte, t: seq<byte>)
    requires Closes(t)
    ensures Closes([92, letter] + t)
  {
    assert ([92, letter] + t)[2..] == t;
  }

  lemma EscapeCloses(d: seq<byte>, t: seq<byte>)
    requires FourHex(d) && Closes(t)
    ensures Closes([92, 117] + d + t)
  {
    hide Closes;
    ByteCloses(d[3], t);
    ByteCloses(d[2], [d[3]] + t);
    ByteCloses(d[1], [d[2]] + ([d[3]] + t));
    ByteCloses(d[0], [d[1]] + ([d[2]] + ([d[3]] + t)));
    var four := [d[0]] + ([d[1]] + ([d[2]] + ([d[3]] + t)));
    LetterCloses(117, four);
    assert d + t == four && [92, 117] + d + t == [92, 117] + four;
  }

  /** Every string literal that spells something is read as that, and to its end. */
  lemma LiteralIsRead(s: seq<byte>, i: nat, us: seq<Unit>)
    requires Spelling(us) && At(s, i, Quoted(us))
    ensures i < |s| && StringAt(s, i) == StringCodec.Text(StringOf(us), i + |Quoted(us)|)
  {
    hide At, SpellingText, SpellingBytes, ClosingQuote, Decode, Units, BeforeNul, Closes;
    var t := SpellingText(us);
    AtSplit3(s, i, [34], t, [34]);
    AtByte(s, i, [34], 0);
    AtByte(s, i + 1 + |t|, [34], 0);
    EndIsFound(s, i + 1, t);
    SpellingIsRead(s, i + 1, i + 1 + |t|, us);
  }

  // Gaps.

  lemma AtHead(s: seq<byte>, i: nat, t: seq<byte>)
    requires At(s, i, t) && t != []
    ensures i < |s| && s[i] == t[0]
  {
    AtByte(s, i, t, 0);
  }

  /** Skipping ends at a visible byte, or at the last one. */
  predicate Stops(s: seq<byte>, q: nat) { q < |s| && (s[q] > 32 || q == |s| - 1) }

  lemma {:induction false} GapIsSkipped(s: seq<byte>, i: nat, g: seq<byte>)
    requires Gap(g) && At(s, i, g) && Stops(s, i + |g|)
    ensures Skip(s, i) == i + |g|
    decreases |g|
  {
    if g != [] {
      AtSplit(s, i, [g[0]], g[1..]);
      assert [g[0]] + g[1..] == g;
      AtHead(s, i, g);
      GapIsSkipped(s, i + 1, g[1..]);
    }
  }

  lemma SkipTwice(s: seq<byte>, n: nat)
    requires n < |s|
    ensures Skip(s, Skip(s, n)) == Skip(s, n)
  {
  }

  // Values.

  /** The position after the text is inside the buffer, and no number can run on into it. */
  predicate Delimited(s: seq<byte>, n: nat) { n < |s| && !NumberByte(s[n]) }

  /** The text of a value starts with a visible byte that tells which kind of value follows. */
  lemma TextHead(c: Syntax)
    requires Legible(c)
    ensures var t := TextOf(c);
      && t != [] && t[0] > 32 && t[0] != 93
      && (c.NumberWord? ==> t[0] == 45 || 48 <= t[0] <= 57)
      && (c.StringWord? ==> t[0] == 34) && (c.ArrayWord? ==> t[0] == 91) && (c.ObjectWord? ==> t[0] == 123)
  {
    if c.NumberWord? {
      NumeralHead(c.numeral);
    }
  }

  lemma NumeralHead(n: Numeral)
    requires Numeric(n)
    ensures var t := NumeralText(n); t != [] && (t[0] == 45 || 48 <= t[0] <= 57)
  {
    hide ScalingText;
    FourParts(Sign(n), n.whole, Dot(n), ScalingText(n.scaling));
    var t := NumeralText(n);
    assert t == Sign(n) + n.whole + Dot(n) + ScalingText(n.scaling);
    if n.minus {
      assert t[0] == t[..1][0];
    } else {
      assert t[0] == t[0..|n.whole|][0] == n.whole[0];
    }
  }

  /** No literal is matched at a byte that starts something else. */
  lemma NoLiteral(s: seq<byte>, i: nat)
    requires i < |s| && s[i] !in {NULL_TEXT[0], FALSE_TEXT[0], TRUE_TEXT[0]}
    ensures !At(s, i, NULL_TEXT) && !At(s, i, FALSE_TEXT) && !At(s, i, TRUE_TEXT)
  {
    if At(s, i, NULL_TEXT) { AtHead(s, i, NULL_TEXT); }
    if At(s, i, FALSE_TEXT) { AtHead(s, i, FALSE_TEXT); }
    if At(s, i, TRUE_TEXT) { AtHead(s, i, TRUE_TEXT); }
  }

  lemma LiteralsDiffer(s: seq<byte>, i: nat)
    ensures At(s, i, FALSE_TEXT) ==> !At(s, i, NULL_TEXT)
    ensures At(s, i, TRUE_TEXT) ==> !At(s, i, NULL_TEXT) && !At(s, i, FALSE_TEXT)
  {
    if At(s, i, NULL_TEXT) { AtHead(s, i, NULL_TEXT); }
    if At(s, i, FALSE_TEXT) { AtHead(s, i, FALSE_TEXT); }
    if At(s, i, TRUE_TEXT) { AtHead(s, i, TRUE_TEXT); }
  }

  lemma {:induction false} NumeralBytes(n: Numeral)
    requires Numeric(n)
    ensures forall k :: 0 <= k < |NumeralText(n)| ==> NumberByte(NumeralText(n)[k])
  {
    var x := ScalingText(n.scaling);
    assert forall k :: 0 <= k < |x| ==> NumberByte(x[k]);
    assert forall k :: 0 <= k < |Dot(n)| ==> NumberByte(Dot(n)[k]);
    hide ScalingText;
    assert NumeralText(n) == Sign(n) + n.whole + Dot(n) + x;
  }

  lemma NumberIsRead(s: seq<byte>, i: nat, n: Numeral)
    requires Terminated(s) && Numeric(n) && |NumeralText(n)| <= 63
    requires At(s, i, NumeralText(n)) && Delimited(s, i + |NumeralText(n)|)
    ensures i < |s| && ParseNumber(s, i) == Parsed(Number(NumeralValue(n)), i + |NumeralText(n)|)
  {
    hide NumeralText, NumeralValue, Numeric, At, Span, Strtod, NumberByte;
    var t := NumeralText(n);
    NumeralHead(n);
    NumeralBytes(n);
    AtSlice(s, i, t);
    forall k | i <= k < i + |t| ensures NumberByte(s[k]) {
      AtByte(s, i, t, k - i);
    }
    SpanIs(s, i, 0, |t|);
    NumeralIsRead(n);
  }

  /**
   * The text of a value, followed by a delimiter, parses to that value and is consumed entirely, if it
   * fits under the limit.
   */
  lemma {:induction false} ValueIsRead(s: seq<byte>, i: nat, c: Syntax, nesting: int)
    requires Terminated(s) && Legible(c) && nesting + Height(ValueOf(c)) <= NESTING_LIMIT
    requires At(s, i, TextOf(c)) && Delimited(s, i + |TextOf(c)|)
    ensures i < |s| && ParseValue(s, i, nesting) == Parsed(ValueOf(c), i + |TextOf(c)|)
    decreases c, 1
  {
    hide ParseArray, ParseObject, ParseNumber, StringAt, ItemsText, EntriesText, NumeralText, Quoted, Terminated;
    hide ItemsHeight, MembersHeight, Numeric, NumeralValue, StringOf, Spelling;
    TextHead(c);
    AtHead(s, i, TextOf(c));
    LiteralsDiffer(s, i);
    match c
    case NullWord =>
    case FalseWord =>
    case TrueWord =>
    case NumberWord(n) => NoLiteral(s, i); NumberIsRead(s, i, n);
    case StringWord(us) => NoLiteral(s, i); LiteralIsRead(s, i, us);
    case ArrayWord(inner, items) => NoLiteral(s, i); ArrayIsRead(s, i, inner, items, nesting);
    case ObjectWord(inner, entries) => NoLiteral(s, i); ObjectIsRead(s, i, inner, entries, nesting);
  }

  predicate LegibleItems(items: seq<Item>) { forall x <- items :: Gap(x.before) && Gap(x.after) && Legible(x.value) }

  lemma {:induction false} ArrayIsRead(s: seq<byte>, i: nat, inner: seq<byte>, items: seq<Item>, nesting: int)
    requires Terminated(s) && Legible(ArrayWord(inner, items))
      && nesting + 1 + ItemsHeight(ItemValues(items)) <= NESTING_LIMIT
    requires At(s, i, TextOf(ArrayWord(inner, items)))
    ensures i < |s| && s[i] == OPEN_BRACKET
    ensures ParseArray(s, i, nesting) == Parsed(Array(ItemValues(items)), i + |TextOf(ArrayWord(inner, items))|)
    decreases items, 2
  {
    hide At, ParseItems, Skip, ItemsText, Legible, Gap;
    LegibleArray(inner, items);
    assert TextOf(ArrayWord(inner, items)) == [91] + inner + ItemsText(items) + [93];
    hide TextOf;
    AtSplit4(s, i, [91], inner, ItemsText(items), [93]);
    AtHead(s, i, [91]);
    var first := i + 1 + |inner|;
    AtSplit(s, first, ItemsText(items), [93]);
    AtHead(s, first + |ItemsText(items)|, [93]);
    if items == [] {
      NoItems();
      GapIsSkipped(s, i + 1, inner);
    } else {
      ItemsHead(s, first, items);
      SkipTwice(s, i + 1);
      ItemsAreRead(s, Skip(s, i + 1), first, [], items, nesting + 1);
      assert [] + ItemValues(items) == ItemValues(items);
    }
  }

  lemma NoItems()
    ensures ItemsText([]) == [] && ItemValues([]) == [] && EntriesText([]) == [] && EntryValues([]) == []
  {
  }

  lemma LegibleArray(inner: seq<byte>, items: seq<Item>)
    requires Legible(ArrayWord(inner, items))
    ensures Gap(inner) && (items != [] ==> inner == []) && LegibleItems(items)
  {
  }

  /** The first item starts after its gap, with something other than the closing bracket. */
  lemma ItemsHead(s: seq<byte>, i: nat, items: seq<Item>)
    requires items != [] && LegibleItems(items) && At(s, i, ItemsText(items) + [93])
    ensures i < |s| && var v := i + |items[0].before|; v < |s| && Skip(s, i) == v && s[v] > 32 && s[v] != 93
  {
    hide At, Skip, TextOf, Legible;
    ItemsSplit(s, i, items);
    TextHead(items[0].value);
    AtHead(s, i + |items[0].before|, TextOf(items[0].value));
    GapIsSkipped(s, i, items[0].before);
  }

  lemma ItemsSplit(s: seq<byte>, i: nat, items: seq<Item>)
    requires items != [] && At(s, i, ItemsText(items) + [93])
    ensures var x, comma := items[0], if |items| > 1 then [44] else [];
      var v := i + |x.before|; var n := v + |TextOf(x.value)|; var k := n + |x.after|;
      && At(s, i, x.before) && At(s, v, TextOf(x.value)) && At(s, n, x.after) && At(s, k, comma)
      && At(s, k + |comma|, ItemsText(items[1..]) + [93])
      && i + |ItemsText(items)| == k + |comma| + |ItemsText(items[1..])|
  {
    hide At, TextOf;
    var x, comma := items[0], if |items| > 1 then [44] else [];
    var rest := ItemsText(items[1..]);
    AtSplit(s, i, ItemsText(items), [93]);
    AtSplit3(s, i, ItemText(x), comma, rest);
    AtSplit3(s, i, x.before, TextOf(x.value), x.after);
    AtSplit(s, i + |ItemText(x)| + |comma|, rest, [93]);
  }

  /** After a value comes its gap, and then a delimiter. */
  lemma AfterValue(s: seq<byte>, n: nat, g: seq<byte>)
    requires Gap(g) && At(s, n, g) && n + |g| < |s| && s[n + |g|] in {44, 93, 125}
    ensures Delimited(s, n) && Skip(s, n) == n + |g|
  {
    GapIsSkipped(s, n, g);
    if g != [] {
      AtHead(s, n, g);
    }
  }

  lemma {:induction false} ItemsAreRead(s: seq<byte>, j: nat, i: nat, done: seq<Json>, items: seq<Item>, nesting: int)
    requires Terminated(s) && items != [] && LegibleItems(items)
    requires nesting + ItemsHeight(ItemValues(items)) <= NESTING_LIMIT && nesting + ItemsHeight(done) <= NESTING_LIMIT
    requires j < |s| && i < |s| && Skip(s, j) == Skip(s, i) && At(s, i, ItemsText(items) + [93])
    ensures ParseItems(s, j, nesting, done) == Parsed(Array(done + ItemValues(items)), i + |ItemsText(items)| + 1)
    decreases items, 1
  {
    hide At, TextOf, ParseValue, ParseItems, ItemsText, Legible, Height, Skip, Delimited;
    var x, values := items[0], ItemValues(items);
    var n := i + |x.before| + |TextOf(x.value)|;
    var k := n + |x.after|;
    ItemsSplit(s, i, items);
    ItemsHead(s, i, items);
    ItemsTail(s, k, items);
    AfterValue(s, n, x.after);
    ValueIsRead(s, i + |x.before|, x.value, nesting);
    ItemsStep(s, j, nesting, done, values[0], n);
    if |items| > 1 {
      ItemsAreRead(s, k + 1, k + 1, done + [values[0]], items[1..], nesting);
    } else {
      NoItems();
      assert items[1..] == [];
    }
    FirstMoves(done, values);
  }

  /** After an item comes the comma or the closing bracket. */
  lemma ItemsTail(s: seq<byte>, k: nat, items: seq<Item>)
    requires items != [] && At(s, k, if |items| > 1 then [44] else [])
    requires At(s, k + (if |items| > 1 then 1 else 0), ItemsText(items[1..]) + [93])
    ensures k < |s| && s[k] == if |items| > 1 then 44 else 93
    ensures |items| > 1 ==> k + 1 < |s|
  {
    hide At;
    if |items| > 1 {
      AtHead(s, k, [44]);
      AtHead(s, k + 1, ItemsText(items[1..]) + [93]);
    } else {
      NoItems();
      AtHead(s, k, ItemsText(items[1..]) + [93]);
    }
  }

  lemma FirstMoves<T>(done: seq<T>, rest: seq<T>)
    requires rest != []
    ensures done + [rest[0]] + rest[1..] == done + rest && (|rest| == 1 ==> rest == [rest[0]])
  {
  }

  predicate LegibleEntries(entries: seq<Entry>) {
    forall x <- entries :: Spelling(x.key) && LegibleGaps(x) && Legible(x.value)
  }

  lemma LegibleObject(inner: seq<byte>, entries: seq<Entry>)
    requires Legible(ObjectWord(inner, entries))
    ensures Gap(inner) && (entries != [] ==> inner == []) && LegibleEntries(entries)
  {
  }

  lemma {:induction false} ObjectIsRead(s: seq<byte>, i: nat, inner: seq<byte>, entries: seq<Entry>, nesting: int)
    requires Terminated(s) && Legible(ObjectWord(inner, entries))
    requires nesting + 1 + MembersHeight(EntryValues(entries)) <= NESTING_LIMIT
    requires At(s, i, TextOf(ObjectWord(inner, entries)))
    ensures i < |s| && s[i] == OPEN_BRACE
    ensures ParseObject(s, i, nesting)
      == Parsed(Object(EntryValues(entries)), i + |TextOf(ObjectWord(inner, entries))|)
    decreases entries, 2
  {
    hide At, ParseMembers, Skip, EntriesText, EntryHead, Legible, LegibleGaps, Gap, Quoted, KeyAt, StringOf, Spelling;
    LegibleObject(inner, entries);
    assert TextOf(ObjectWord(inner, entries)) == [123] + inner + EntriesText(entries) + [125];
    hide TextOf;
    AtSplit4(s, i, [123], inner, EntriesText(entries), [125]);
    AtHead(s, i, [123]);
    var first := i + 1 + |inner|;
    AtSplit(s, first, EntriesText(entries), [125]);
    AtHead(s, first + |EntriesText(entries)|, [125]);
    if entries == [] {
      NoItems();
      GapIsSkipped(s, i + 1, inner);
    } else {
      EntriesHead(s, first, entries);
      SkipTwice(s, i + 1);
      EntriesAreRead(s, Skip(s, i + 1), first, [], entries, nesting + 1);
      assert [] + EntryValues(entries) == EntryValues(entries);
    }
  }

  lemma EntriesHead(s: seq<byte>, i: nat, entries: seq<Entry>)
    requires Terminated(s) && entries != [] && LegibleEntries(entries) && At(s, i, EntriesText(entries) + [125])
    ensures i < |s| && s[Skip(s, i)] == 34
  {
    hide At, Skip, TextOf, EntryHead, Legible, KeyAt, StringOf;
    EntriesSplit(s, i, entries);
    HeadIsRead(s, i, i, entries[0]);
  }

  lemma EntriesSplit(s: seq<byte>, i: nat, entries: seq<Entry>)
    requires entries != [] && LegibleEntries(entries) && At(s, i, EntriesText(entries) + [125])
    ensures var x, comma := entries[0], if |entries| > 1 then [44] else [];
      var v := i + |EntryHead(x)|; var n := v + |TextOf(x.value)|; var k := n + |x.after|;
      && At(s, i, EntryHead(x)) && At(s, v, TextOf(x.value)) && At(s, n, x.after) && At(s, k, comma)
      && At(s, k + |comma|, EntriesText(entries[1..]) + [125]) && v < |s| && s[v] > 32
      && i + |EntriesText(entries)| == k + |comma| + |EntriesText(entries[1..])|
  {
    hide At, TextOf, EntryText, EntryHead, Legible, LegibleEntries;
    FirstLegible(entries);
    var x, comma := entries[0], if |entries| > 1 then [44] else [];
    var rest := EntriesText(entries[1..]);
    AtSplit(s, i, EntriesText(entries), [125]);
    AtSplit3(s, i, EntryText(x), comma, rest);
    AtSplit(s, i + |EntryText(x)| + |comma|, rest, [125]);
    EntrySplit(s, i, x);
  }

  lemma FirstLegible(entries: seq<Entry>)
    requires entries != [] && LegibleEntries(entries)
    ensures Legible(entries[0].value)
  {
  }

  lemma EntrySplit(s: seq<byte>, i: nat, x: Entry)
    requires Legible(x.value) && At(s, i, EntryText(x))
    ensures var v := i + |EntryHead(x)|; var n := v + |TextOf(x.value)|;
      && At(s, i, EntryHead(x)) && At(s, v, TextOf(x.value)) && At(s, n, x.after)
      && i + |EntryText(x)| == n + |x.after| && v < |s| && s[v] > 32
  {
    hide At, TextOf, EntryHead;
    AtSplit3(s, i, EntryHead(x), TextOf(x.value), x.after);
    TextHead(x.value);
    AtHead(s, i + |EntryHead(x)|, TextOf(x.value));
  }

  /** The name of an entry and its colon, up to the value. */
  lemma HeadIsRead(s: seq<byte>, j: nat, i: nat, x: Entry)
    requires Terminated(s) && Spelling(x.key) && LegibleGaps(x)
    requires j < |s| && i < |s| && Skip(s, j) == Skip(s, i) && At(s, i, EntryHead(x))
    requires Stops(s, i + |EntryHead(x)|)
    ensures s[Skip(s, i)] == 34
    ensures KeyAt(s, j).Text? && KeyAt(s, j).text == StringOf(x.key)
    ensures Skip(s, KeyAt(s, j).next) == i + |EntryHead(x)|
  {
    hide At, StringAt, Skip, SpellingText, Spelling, StringOf, Gap;
    var q, key := i + |x.before|, Quoted(x.key);
    var g := q + |key|;
    var colon := g + |x.beforeColon|;
    assert EntryHead(x) == x.before + key + x.beforeColon + [58] + x.afterColon;
    AtSplit(s, i, x.before + key + x.beforeColon + [58], x.afterColon);
    AtSplit4(s, i, x.before, key, x.beforeColon, [58]);
    AtHead(s, q, key);
    AtHead(s, colon, [58]);
    GapIsSkipped(s, i, x.before);
    LiteralIsRead(s, q, x.key);
    GapIsSkipped(s, g, x.beforeColon);
    GapIsSkipped(s, colon + 1, x.afterColon);
  }

  lemma {:induction false} EntriesAreRead(s: seq<byte>, j: nat, i: nat, done: seq<Member>, entries: seq<Entry>,
      nesting: int)
    requires Terminated(s) && entries != [] && LegibleEntries(entries)
    requires nesting + MembersHeight(EntryValues(entries)) <= NESTING_LIMIT
    requires nesting + MembersHeight(done) <= NESTING_LIMIT
    requires j < |s| && i < |s| && Skip(s, j) == Skip(s, i) && At(s, i, EntriesText(entries) + [125])
    ensures ParseMembers(s, j, nesting, done)
      == Parsed(Object(done + EntryValues(entries)), i + |EntriesText(entries)| + 1)
    decreases entries, 1
  {
    hide At, TextOf, ParseValue, ParseMembers, EntriesText, EntryHead, Legible, Height, Skip, Delimited, KeyAt;
    hide StringOf;
    hide Spelling, LegibleGaps;
    var x, members := entries[0], EntryValues(entries);
    var n := i + |EntryHead(x)| + |TextOf(x.value)|;
    var k := n + |x.after|;
    EntriesSplit(s, i, entries);
    HeadIsRead(s, j, i, x);
    EntriesTail(s, k, entries);
    GapsOf(x);
    AfterValue(s, n, x.after);
    ValueIsRead(s, i + |EntryHead(x)|, x.value, nesting);
    MembersStep(s, j, nesting, done, members[0], n);
    if |entries| > 1 {
      EntriesAreRead(s, k + 1, k + 1, done + [members[0]], entries[1..], nesting);
    } else {
      NoItems();
      assert entries[1..] == [];
    }
    FirstMoves(done, members);
  }

  lemma GapsOf(x: Entry)
    requires LegibleGaps(x)
    ensures Gap(x.after)
  {
  }

  /** After an entry comes the comma or the closing brace. */
  lemma EntriesTail(s: seq<byte>, k: nat, entries: seq<Entry>)
    requires entries != [] && At(s, k, if |entries| > 1 then [44] else [])
    requires At(s, k + (if |entries| > 1 then 1 else 0), EntriesText(entries[1..]) + [125])
    ensures k < |s| && s[k] == if |entries| > 1 then 44 else 125
    ensures |entries| > 1 ==> k + 1 < |s|
  {
    hide At;
    if |entries| > 1 {
      AtHead(s, k, [44]);
      AtHead(s, k + 1, EntriesText(entries[1..]) + [125]);
    } else {
      NoItems();
      AtHead(s, k, EntriesText(entries[1..]) + [125]);
    }
  }

  // Documents.

  /** What the parser takes for a whole document: a byte order mark or none, and one value between gaps. */
  datatype Document = Document(mark: bool, before: seq<byte>, value: Syntax, after: seq<byte>)

  function Mark(d: Document): seq<byte> { if d.mark then [239, 187, 191] else [] }

  /** The bytes of the document, with the NUL behind it. */
  function DocumentText(d: Document): seq<byte> { Mark(d) + d.before + TextOf(d.value) + d.after + [0] }

  predicate LegibleDocument(d: Document) { Gap(d.before) && Gap(d.after) && Legible(d.value) }

  /**
   * Every document of the grammar nested at most 1000 deep is read as its value, up to the end of the
   * value or to the NUL.
   */
  lemma DocumentIsRead(d: Document, requireNul: bool)
    requires LegibleDocument(d) && Height(ValueOf(d.value)) <= 1000
    ensures var n := |Mark(d) + d.before + TextOf(d.value)|;
      ParseDocument(DocumentText(d), requireNul) == Parsed(ValueOf(d.value), if requireNul then n + |d.after| else n)
  {
    hide At, TextOf, ParseValue, Legible, Height, Skip, Gap, Delimited, DocumentText, Start, ValueOf;
    var s := DocumentText(d);
    var text := TextOf(d.value);
    var i := |Mark(d)| + |d.before|;
    var n := i + |text|;
    TextHead(d.value);
    DocumentParts(d, s);
    AtHead(s, i, text);
    GapIsSkipped(s, |Mark(d)|, d.before);
    StartsThere(d, s);
    EndGap(s, n, d.after);
    ValueIsRead(s, i, d.value, 0);
  }

  lemma DocumentParts(d: Document, s: seq<byte>)
    requires s == DocumentText(d)
    ensures Terminated(s) && At(s, 0, Mark(d)) && At(s, |Mark(d)|, d.before)
    ensures var i := |Mark(d)| + |d.before|; var n := i + |TextOf(d.value)|;
      At(s, i, TextOf(d.value)) && At(s, n, d.after) && |s| == n + |d.after| + 1 && s[n + |d.after|] == 0
  {
    hide TextOf, At;
    AtItself(s);
    AtSplit(s, 0, Mark(d) + d.before + TextOf(d.value) + d.after, [0]);
    AtSplit4(s, 0, Mark(d), d.before, TextOf(d.value), d.after);
  }

  lemma AtItself(s: seq<byte>)
    ensures At(s, 0, s)
  {
  }

  lemma StartsThere(d: Document, s: seq<byte>)
    requires s == DocumentText(d) && Terminated(s) && Legible(d.value) && Gap(d.before)
    ensures Start(s) == Skip(s, |Mark(d)|)
  {
    hide TextOf, Skip;
    TextHead(d.value);
    FirstIsVisible(d, s);
  }

  lemma FirstIsVisible(d: Document, s: seq<byte>)
    requires s == DocumentText(d) && Legible(d.value) && Gap(d.before)
    ensures |s| > |Mark(d)| + 1 && (d.mark ==> s[0] == 239 && s[1] == 187 && s[2] == 191) && (!d.mark ==> s[0] != 239)
  {
    hide TextOf;
    FirstByte(d.value);
    FourParts(Mark(d), d.before, TextOf(d.value), d.after + [0]);
    assert s == Mark(d) + d.before + TextOf(d.value) + (d.after + [0]);
    if d.mark {
      assert s[0] == s[..3][0] && s[1] == s[..3][1] && s[2] == s[..3][2];
    } else if d.before == [] {
      assert s[0] == s[0..|TextOf(d.value)|][0];
    } else {
      assert s[0] == s[0..|d.before|][0];
    }
  }

  lemma FirstByte(c: Syntax)
    requires Legible(c)
    ensures TextOf(c) != [] && TextOf(c)[0] < 128
  {
    if c.NumberWord? {
      NumeralHead(c.numeral);
    }
  }

  /** The gap at the end of a document runs into the NUL. */
  lemma EndGap(s: seq<byte>, n: nat, g: seq<byte>)
    requires Gap(g) && At(s, n, g) && |s| == n + |g| + 1 && s[n + |g|] == 0
    ensures Delimited(s, n) && Skip(s, n) == |s| - 1
  {
    GapIsSkipped(s, n, g);
    if g != [] {
      AtHead(s, n, g);
    }
  }

  /** Every text of the strict grammar with such numerals is among those that are read. */
  lemma {:induction false} StrictIsLegible(c: Syntax)
    requires Strict(c) && Fits(c)
    ensures Legible(c)
  {
    hide Spelling, StrictUnit;
    match c
    case StringWord(us) => StrictIsSpelling(us);
    case ArrayWord(_, items) =>
      forall x | x in items
        ensures Legible(x.value)
      {
        StrictIsLegible(x.value);
      }
    case ObjectWord(_, entries) =>
      forall x | x in entries
        ensures Spelling(x.key) && Legible(x.value)
      {
        StrictIsSpelling(x.key);
        StrictIsLegible(x.value);
      }
    case _ =>
  }

  /** Every JSON text, nested at most 1000 deep and with such numerals, is read as its value. */
  lemma JsonIsRead(d: Document, requireNul: bool)
    requires StrictGap(d.before) && StrictGap(d.after) && Strict(d.value) && Fits(d.value)
    ensures Legible(d.value)
    ensures Height(ValueOf(d.value)) <= 1000 ==>
      ParseDocument(DocumentText(d), requireNul)
      == Parsed(ValueOf(d.value), |DocumentText(d)| - 1 - if requireNul then 0 else |d.after|)
  {
    hide Strict, Legible, Height, TextOf, ParseDocument, ValueOf, Fits;
    StrictIsLegible(d.value);
    if Height(ValueOf(d.value)) <= 1000 {
      DocumentIsRead(d, requireNul);
    }
  }

  /** A longer numeral is cut after 63 bytes: the rest is an error, or is left behind unread. */
  lemma LongNumeralIsCut(t: seq<byte>)
    requires Digits(t) && |t| > 63
    ensures ParseDocument(t + [0], true) == Failed(63)
    ensures ParseDocument(t + [0], false) == Parsed(Number(Worth(t[..63]) as real), 63)
  {
    hide Strtod, Worth, Span, StringAt;
    var s, u := t + [0], t[..63];
    var n := Numeral(false, u, false, [], Unscaled);
    assert s[0..63] == u && s[0] == t[0] && s[63] == t[63];
    assert forall k :: 0 <= k < 63 ==> s[k] == t[k];
    assert u + [] == u && NumeralText(n) == u && Tens(0) == 1;
    NumeralIsRead(n);
    SpanIs(s, 0, 0, 63);
    NoLiteral(s, 0);
    assert ParseNumber(s, 0) == Parsed(Number(Worth(u) as real), 63);
  }
}
