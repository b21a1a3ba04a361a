/** Reading a number: the scan of `parse_number` and what `strtod` makes of it. */
module NumberText {
  import opened Bytes

  /** The characters that `parse_number` copies for `strtod`. */
  predicate NumberByte(b: byte) {
    IsDigit(b) || b == PLUS || b == MINUS || b == 101 || b == 69 || b == POINT
  }

  /** Capacity of the temporary buffer, without its terminator. */
  const NUMBER_BUFFER: nat := 63

  /** How many bytes from position `i` are copied, `k` of them being copied already. */
  function Span(s: seq<byte>, i: nat, k: nat): (n: nat)
    requires i + k <= |s| && k <= NUMBER_BUFFER
    ensures k <= n <= NUMBER_BUFFER && i + n <= |s|
    ensures forall j :: i + k <= j < i + n ==> NumberByte(s[j])
    decreases NUMBER_BUFFER - k
  {
    if k < NUMBER_BUFFER && i + k < |s| && NumberByte(s[i + k]) then Span(s, i, k + 1) else k
  }

  // strtod on text over the characters above: optional sign, digits with an optional point,
  // optional exponent. The value is the exact decimal value.

  function DigitRun(t: seq<byte>, i: nat): (e: nat)
    requires i <= |t|
    ensures i <= e <= |t|
    ensures forall j :: i <= j < e ==> IsDigit(t[j])
    ensures e < |t| ==> !IsDigit(t[e])
    decreases |t| - i
  {
    if i < |t| && IsDigit(t[i]) then DigitRun(t, i + 1) else i
  }

  /** The number written by the digits among `t[i..e]`, after `acc`. */
  function Value(t: seq<byte>, i: nat, e: nat, acc: nat): nat
    requires i <= e <= |t|
    decreases e - i
  {
    if i == e then acc
    else Value(t, i + 1, e, if IsDigit(t[i]) then 10 * acc + (t[i] - ZERO) else acc)
  }

  function Scale(e: int): real
    decreases if e < 0 then -e else e
  {
    if e == 0 then 1.0 else if e > 0 then 10.0 * Scale(e - 1) else Scale(e + 1) / 10.0
  }

  datatype Decimal = NoNumber | Decimal(value: real, length: nat)

  predicate IsSign(t: seq<byte>, i: nat) { i < |t| && (t[i] == PLUS || t[i] == MINUS) }

  /** The exponent part at `i`, if a complete one stands there: its value and its end. */
  function Exponent(t: seq<byte>, i: nat): (r: (int, nat))
    requires i <= |t|
    ensures i <= r.1 <= |t|
  {
    if i < |t| && (t[i] == 101 || t[i] == 69) then
      var digits := if IsSign(t, i + 1) then i + 2 else i + 1;
      var end := DigitRun(t, digits);
      if end == digits then (0, i)
      else
        var power: int := Value(t, digits, end, 0);
        (if t[i + 1] == MINUS then -power else power, end)
    else (0, i)
  }

  function Strtod(t: seq<byte>): (d: Decimal)
    ensures d.Decimal? ==> 1 <= d.length <= |t|
  {
    var start := if IsSign(t, 0) then 1 else 0;
    var point := DigitRun(t, start);
    var frac := if point < |t| && t[point] == POINT then point + 1 else point;
    var end := if frac > point then DigitRun(t, frac) else point;
    if point == start && end == frac then NoNumber
    else
      var (exponent, after) := Exponent(t, end);
      var magnitude := Value(t, start, end, 0) as real * Scale(exponent - (end - frac));
      Decimal(if t[0] == MINUS then -magnitude else magnitude, after)
  }

  lemma {:induction false} SpanIs(s: seq<byte>, i: nat, k: nat, n: nat)
    requires k <= n <= NUMBER_BUFFER && i + n <= |s|
    requires forall j :: i <= j < i + n ==> NumberByte(s[j])
    requires n == NUMBER_BUFFER || i + n == |s| || !NumberByte(s[i + n])
    ensures Span(s, i, k) == n
    decreases n - k
  {
    if k < n {
      SpanIs(s, i, k + 1, n);
    }
  }
}
