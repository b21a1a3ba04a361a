/**
 * JSON text as sections 2 to 7 of RFC 8259 have it, byte by byte: pieces of concrete syntax, the text
 * each of them stands for, and the value it has.
 */
module Grammar {
  import opened Bytes
  import opened JsonValue
  import opened Utf

  // White space. The grammar has four bytes; the parser takes every byte up to 32.

  predicate Gap(g: seq<byte>) { forall i :: 0 <= i < |g| ==> g[i] <= 32 }

  predicate StrictGap(g: seq<byte>) { forall i :: 0 <= i < |g| ==> g[i] in {9, 10, 13, 32} }

  // Numbers.

  predicate Digits(t: seq<byte>) { forall i :: 0 <= i < |t| ==> 48 <= t[i] <= 57 }

  /** The number that a run of digits writes. */
  function Worth(t: seq<byte>): nat {
    if t == [] then 0
    else 10 * Worth(t[..|t| - 1]) + (if 48 <= t[|t| - 1] <= 57 then t[|t| - 1] - 48 else 0)
  }

  function Tens(k: nat): (r: nat)
    ensures r > 0
  {
    if k == 0 then 1 else 10 * Tens(k - 1)
  }

  /** `e` or `E`, a sign or none, and digits. */
  datatype Scaling = Unscaled | Scaled(letter: byte, sign: seq<byte>, digits: seq<byte>)

  datatype Numeral = Numeral(minus: bool, whole: seq<byte>, point: bool, fraction: seq<byte>, scaling: Scaling)

  function ScalingText(x: Scaling): seq<byte> {
    if x.Unscaled? then [] else [x.letter] + x.sign + x.digits
  }

  function NumeralText(n: Numeral): seq<byte> {
    (if n.minus then [45] else []) + n.whole + (if n.point then [46] + n.fraction else []) + ScalingText(n.scaling)
  }

  /** The power of ten that the exponent stands for. */
  function Power(x: Scaling): real {
    if x.Unscaled? then 1.0
    else if x.sign == [45] then 1.0 / Tens(Worth(x.digits)) as real
    else Tens(Worth(x.digits)) as real
  }

  function NumeralValue(n: Numeral): real {
    var magnitude := Worth(n.whole + n.fraction) as real / Tens(|n.fraction|) as real * Power(n.scaling);
    if n.minus then -magnitude else magnitude
  }

  /** What the number reader takes: the grammar, and also leading zeros and a point with digits on one side only. */
  predicate Numeric(n: Numeral) {
    && Digits(n.whole) && Digits(n.fraction) && (!n.point ==> n.fraction == []) && n.whole + n.fraction != []
    && (n.whole == [] ==> n.minus)
    && (n.scaling.Scaled? ==>
          && n.scaling.letter in {101, 69} && n.scaling.sign in {[], [43], [45]}
          && Digits(n.scaling.digits) && n.scaling.digits != [])
  }

  predicate StrictNumeral(n: Numeral) {
    && Numeric(n) && n.whole != [] && (|n.whole| > 1 ==> n.whole[0] != 48) && (n.point ==> n.fraction != [])
  }

  // Strings.

  predicate IsHexDigit(b: byte) { 48 <= b <= 57 || 65 <= b <= 70 || 97 <= b <= 102 }

  function HexWorth(b: byte): nat
    requires IsHexDigit(b)
  {
    if b <= 57 then b - 48 else if b <= 70 then b - 55 else b - 87
  }

  predicate FourHex(t: seq<byte>) { |t| == 4 && forall i :: 0 <= i < 4 ==> IsHexDigit(t[i]) }

  function CodeOf(t: seq<byte>): nat
    requires FourHex(t)
  {
    4096 * HexWorth(t[0]) + 256 * HexWorth(t[1]) + 16 * HexWorth(t[2]) + HexWorth(t[3])
  }

  /**
   * A byte that stands for itself, one of the eight two-byte escapes, four hexadecimal digits, or a
   * surrogate pair of them. The parser also takes any other four bytes, for a NUL, and a backslash at
   * the end, which makes the closing quote part of the string.
   */
  datatype Unit =
    | Plain(b: byte)
    | Short(letter: byte)
    | Code(digits: seq<byte>)
    | Pair(high: seq<byte>, low: seq<byte>)
    | NoDigits(four: seq<byte>)
    | Dangling

  /** The byte behind the letter of a two-byte escape. */
  function Meant(letter: byte): byte {
    match letter
    case 34 => 34
    case 92 => 92
    case 47 => 47
    case 98 => 8
    case 102 => 12
    case 110 => 10
    case 114 => 13
    case 116 => 9
    case _ => 0
  }

  predicate Spells(u: Unit) {
    match u
    case Plain(b) => b != 92
    case Short(letter) => letter in {34, 92, 47, 98, 102, 110, 114, 116}
    case Code(t) => FourHex(t) && !(0xD800 <= CodeOf(t) <= 0xDFFF)
    case Pair(t, u) => FourHex(t) && FourHex(u) && 0xD800 <= CodeOf(t) <= 0xDBFF && 0xDC00 <= CodeOf(u) <= 0xDFFF
    case NoDigits(t) => |t| == 4 && !FourHex(t)
    case Dangling => true
  }

  /** The grammar has quotes and control bytes escaped, and digits in every escape. */
  predicate StrictUnit(u: Unit) { Spells(u) && (u.Plain? ==> u.b >= 32 && u.b != 34) && !u.NoDigits? && !u.Dangling? }

  function UnitText(u: Unit): seq<byte> {
    match u
    case Plain(b) => [b]
    case Short(letter) => [92, letter]
    case Code(t) => [92, 117] + t
    case Pair(t, u) => [92, 117] + t + [92, 117] + u
    case NoDigits(t) => [92, 117] + t
    case Dangling => [92]
  }

  function UnitBytes(u: Unit): seq<byte>
    requires Spells(u)
  {
    match u
    case Plain(b) => [b]
    case Short(letter) => [Meant(letter)]
    case Code(t) => Utf8(CodeOf(t))
    case Pair(t, u) => Utf8(0x10000 + 0x400 * (CodeOf(t) - 0xD800) + (CodeOf(u) - 0xDC00))
    case NoDigits(_) => [0]
    case Dangling => [34]
  }

  predicate Units(us: seq<Unit>) {
    forall i :: 0 <= i < |us| ==> Spells(us[i]) && (us[i].Dangling? ==> i == |us| - 1)
  }

  function SpellingText(us: seq<Unit>): seq<byte> {
    if us == [] then [] else UnitText(us[0]) + SpellingText(us[1..])
  }

  function SpellingBytes(us: seq<Unit>): seq<byte>
    requires Units(us)
  {
    if us == [] then [] else UnitBytes(us[0]) + SpellingBytes(us[1..])
  }

  /** Read in pairs from each backslash on, the text has no quote but behind a backslash, and ends with a pair. */
  predicate Closes(t: seq<byte>) {
    t == [] || if t[0] == 92 then |t| > 1 && Closes(t[2..]) else t[0] != 34 && Closes(t[1..])
  }

  /** What may stand between two quotes. Strict units close anyway. */
  predicate Spelling(us: seq<Unit>) { Units(us) && Closes(SpellingText(us)) }

  // Values.

  datatype Syntax =
    | NullWord
    | FalseWord
    | TrueWord
    | NumberWord(numeral: Numeral)
    | StringWord(units: seq<Unit>)
    | ArrayWord(inner: seq<byte>, items: seq<Item>)
    | ObjectWord(inner: seq<byte>, entries: seq<Entry>)

  datatype Item = Item(before: seq<byte>, value: Syntax, after: seq<byte>)

  datatype Entry = Entry(before: seq<byte>, key: seq<Unit>, beforeColon: seq<byte>, afterColon: seq<byte>,
      value: Syntax, after: seq<byte>)

  function Quoted(us: seq<Unit>): seq<byte> { [34] + SpellingText(us) + [34] }

  function TextOf(c: Syntax): seq<byte> {
    match c
    case NullWord => [110, 117, 108, 108]
    case FalseWord => [102, 97, 108, 115, 101]
    case TrueWord => [116, 114, 117, 101]
    case NumberWord(n) => NumeralText(n)
    case StringWord(us) => Quoted(us)
    case ArrayWord(inner, items) => [91] + inner + ItemsText(items) + [93]
    case ObjectWord(inner, entries) => [123] + inner + EntriesText(entries) + [125]
  }

  function ItemText(x: Item): seq<byte> { x.before + TextOf(x.value) + x.after }

  function ItemsText(items: seq<Item>): seq<byte> {
    if items == [] then [] else ItemText(items[0]) + (if |items| > 1 then [44] else []) + ItemsText(items[1..])
  }

  function EntryHead(x: Entry): seq<byte> { x.before + Quoted(x.key) + x.beforeColon + [58] + x.afterColon }

  function EntryText(x: Entry): seq<byte> { EntryHead(x) + TextOf(x.value) + x.after }

  function EntriesText(entries: seq<Entry>): seq<byte> {
    if entries == [] then []
    else EntryText(entries[0]) + (if |entries| > 1 then [44] else []) + EntriesText(entries[1..])
  }

  /** The grammar to the letter: no leading zero, control bytes escaped, and the four bytes of white space. */
  predicate Strict(c: Syntax) {
    match c
    case NumberWord(n) => StrictNumeral(n)
    case StringWord(us) => forall u <- us :: StrictUnit(u)
    case ArrayWord(inner, items) =>
      && StrictGap(inner) && (items != [] ==> inner == [])
      && forall x <- items :: StrictGap(x.before) && StrictGap(x.after) && Strict(x.value)
    case ObjectWord(inner, entries) =>
      && StrictGap(inner) && (entries != [] ==> inner == [])
      && forall x <- entries :: (forall u <- x.key :: StrictUnit(u)) && StrictGaps(x) && Strict(x.value)
    case _ => true
  }

  predicate StrictGaps(x: Entry) {
    StrictGap(x.before) && StrictGap(x.beforeColon) && StrictGap(x.afterColon) && StrictGap(x.after)
  }

  /** No numeral has more than 63 bytes. */
  predicate Fits(c: Syntax) {
    match c
    case NumberWord(n) => |NumeralText(n)| <= 63
    case ArrayWord(_, items) => forall x <- items :: Fits(x.value)
    case ObjectWord(_, entries) => forall x <- entries :: Fits(x.value)
    case _ => true
  }

  /** The numbers, strings and gaps are fit for the parser; a numeral has at most 63 bytes. */
  predicate Legible(c: Syntax) {
    match c
    case NumberWord(n) => Numeric(n) && |NumeralText(n)| <= 63
    case StringWord(us) => Spelling(us)
    case ArrayWord(inner, items) =>
      && Gap(inner) && (items != [] ==> inner == [])
      && forall x <- items :: Gap(x.before) && Gap(x.after) && Legible(x.value)
    case ObjectWord(inner, entries) =>
      && Gap(inner) && (entries != [] ==> inner == [])
      && forall x <- entries :: Spelling(x.key) && LegibleGaps(x) && Legible(x.value)
    case _ => true
  }

  predicate LegibleGaps(x: Entry) { Gap(x.before) && Gap(x.beforeColon) && Gap(x.afterColon) && Gap(x.after) }

  /** The C string that a spelling gives: it ends at the first NUL. */
  function StringOf(us: seq<Unit>): CString
    requires Spelling(us)
  {
    BeforeNul(SpellingBytes(us))
  }

  function ValueOf(c: Syntax): Json
    requires Legible(c)
  {
    match c
    case NullWord => Null
    case FalseWord => Bool(false)
    case TrueWord => Bool(true)
    case NumberWord(n) => Number(NumeralValue(n))
    case StringWord(us) => String(StringOf(us))
    case ArrayWord(_, items) => Array(ItemValues(items))
    case ObjectWord(_, entries) => Object(EntryValues(entries))
  }

  function ItemValues(items: seq<Item>): (values: seq<Json>)
    requires forall x <- items :: Legible(x.value)
    ensures |values| == |items|
  {
    if items == [] then [] else [ValueOf(items[0].value)] + ItemValues(items[1..])
  }

  function EntryValues(entries: seq<Entry>): (members: seq<Member>)
    requires forall x <- entries :: Spelling(x.key) && Legible(x.value)
    ensures |members| == |entries|
  {
    if entries == [] then []
    else [Member(StringOf(entries[0].key), ValueOf(entries[0].value))] + EntryValues(entries[1..])
  }
}
