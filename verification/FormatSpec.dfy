/** What tn_snprintf renders, without any limit on the length: the meaning of the
    conversions of demo_pc/http_test_1/tn_sprintf.c. */
module FormatSpec {

  import opened Machine

  /** An argument: a 32-bit word, which `int`, `unsigned` and `long` arguments all are, or the
      readable memory that a `char *` points to. */
  datatype Arg = Num(w: Word32) | Str(s: seq<char>)

  datatype Width = Literal(n: nat) | FromArg

  datatype Precision = None | Digits(n: int) | FromArg

  datatype Item =
    | Plain(c: char)
    | Conversion(left: bool, zero: bool, width: Width, precision: Precision, conv: char)

  // ----- the format string

  /** Memory that holds a NUL-terminated string. */
  predicate Terminated(fmt: seq<char>) {
    |fmt| > 0 && fmt[|fmt| - 1] == '\0'
  }

  predicate IsDigit(c: char) { '0' <= c <= '9' }

  /** The index of the first character from `i` on that is not a decimal digit. */
  function DigitsEnd(fmt: seq<char>, i: nat): (j: nat)
    requires Terminated(fmt) && i < |fmt|
    ensures i <= j < |fmt| && !IsDigit(fmt[j])
    ensures forall k | i <= k < j :: IsDigit(fmt[k])
    decreases |fmt| - i
  {
    if IsDigit(fmt[i]) then DigitsEnd(fmt, i + 1) else i
  }

  /** The number that a string of decimal digits denotes. */
  function Decimal(s: seq<char>): nat
    requires forall k | 0 <= k < |s| :: IsDigit(s[k])
  {
    if s == [] then 0
    else
      assert IsDigit(s[|s| - 1]);
      Decimal(s[..|s| - 1]) * 10 + (s[|s| - 1] as int - '0' as int)
  }

  lemma DecimalNone(fmt: seq<char>, i: nat)
    requires i <= |fmt|
    ensures Decimal(fmt[i..i]) == 0
  {
  }

  /** Conversion to `short`. */
  function Short(x: int): int {
    var low := x % 0x1_0000;
    if low < 0x8000 then low else low - 0x1_0000
  }

  function ScanWidth(fmt: seq<char>, i: nat): (r: (Width, nat))
    requires Terminated(fmt) && i < |fmt|
    ensures i <= r.1 < |fmt|
  {
    if fmt[i] == '*' then (Width.FromArg, i + 1)
    else (Literal(Decimal(fmt[i..DigitsEnd(fmt, i)])), DigitsEnd(fmt, i))
  }

  function ScanPrecision(fmt: seq<char>, i: nat): (r: (Precision, nat))
    requires Terminated(fmt) && i < |fmt|
    ensures i <= r.1 < |fmt|
  {
    if fmt[i] != '.' then (None, i)
    else if fmt[i + 1] == '*' then (Precision.FromArg, i + 2)
    else (Digits(Short(Decimal(fmt[i + 1..DigitsEnd(fmt, i + 1)]))), DigitsEnd(fmt, i + 1))
  }

  function Skip(fmt: seq<char>, i: nat, c: char): (j: nat)
    requires Terminated(fmt) && i < |fmt| && c != '\0'
    ensures i <= j < |fmt|
  {
    if fmt[i] == c then i + 1 else i
  }

  /** The item at `i` and the index after it: [-][0][width][.precision][l]conv. */
  function NextItem(fmt: seq<char>, i: nat): (r: (Item, nat))
    requires Terminated(fmt) && i < |fmt| && fmt[i] != '\0'
    ensures i < r.1 < |fmt|
  {
    if fmt[i] != '%' then (Plain(fmt[i]), i + 1)
    else
      var flag := Skip(fmt, i + 1, '-');
      var pad := Skip(fmt, flag, '0');
      var width := ScanWidth(fmt, pad);
      var precision := ScanPrecision(fmt, width.1);
      var end := Skip(fmt, precision.1, 'l');
      (Conversion(fmt[i + 1] == '-', fmt[flag] == '0', width.0, precision.0, fmt[end]),
       if fmt[end] == '\0' then end else end + 1)
  }

  // ----- the arguments

  predicate IsNumeric(conv: char) {
    conv in {'d', 'x', 'X', 'u', 'o', 'b'}
  }

  predicate IsValid(conv: char) {
    IsNumeric(conv) || conv == 'c' || conv == 's'
  }

  /** One argument for each `*` and one for each valid conversion. */
  function ArgsTaken(item: Item): nat {
    match item
    case Plain(_) => 0
    case Conversion(_, _, width, precision, conv) =>
      (if width.FromArg? then 1 else 0) + (if precision.FromArg? then 1 else 0) + (if IsValid(conv) then 1 else 0)
  }

  predicate IsNum(args: seq<Arg>, a: nat) {
    a < |args| && args[a].Num?
  }

  /** The index of the argument that gives the precision, and of the converted argument. */
  function PrecisionArg(item: Item, a: nat): nat
    requires item.Conversion?
  {
    if item.width.FromArg? then a + 1 else a
  }

  function ValueArg(item: Item, a: nat): nat
    requires item.Conversion?
  {
    PrecisionArg(item, a) + if item.precision.FromArg? then 1 else 0
  }

  /** A `char *` argument must be readable up to its NUL, or up to and including the byte at
      the precision: the code looks at that byte before it tests the precision.  No less will
      do (`Printf.EditedLength`). */
  predicate Readable(s: seq<char>, precision: int) {
    '\0' in s || 0 <= precision < |s|
  }

  /** The caller passes what the item asks for. */
  predicate ItemFits(item: Item, args: seq<Arg>, a: nat) {
    item.Conversion? ==>
      && (item.width.FromArg? ==> IsNum(args, a))
      && (item.precision.FromArg? ==> IsNum(args, PrecisionArg(item, a)))
      && (IsNumeric(item.conv) || item.conv == 'c' ==> IsNum(args, ValueArg(item, a)))
      && (item.conv == 's' ==>
            && ValueArg(item, a) < |args| && args[ValueArg(item, a)].Str?
            && Readable(args[ValueArg(item, a)].s, PrecisionValue(item, args, a)))
  }

  function WidthValue(item: Item, args: seq<Arg>, a: nat): int
    requires item.Conversion? && (item.width.FromArg? ==> IsNum(args, a))
  {
    match item.width
    case Literal(n) => n
    case FromArg => Short(args[a].w)
  }

  /** Negative when there is none, or when the argument is negative. */
  function PrecisionValue(item: Item, args: seq<Arg>, a: nat): int
    requires item.Conversion? && (item.precision.FromArg? ==> IsNum(args, PrecisionArg(item, a)))
  {
    match item.precision
    case None => -1
    case Digits(n) => n
    case FromArg => Short(args[PrecisionArg(item, a)].w)
  }

  // ----- the rendering of one item

  function Repeat(c: char, n: int): (s: string)
    ensures |s| == if n > 0 then n else 0
  {
    if n <= 0 then "" else Repeat(c, n - 1) + [c]
  }

  /** A field: sign, leading zeros and body, filled up to the width.  Zero padding goes
      between the sign and the digits; a left-justified field is padded with spaces. */
  function Field(left: bool, zero: bool, width: int, minus: bool, zeros: nat, body: string): string {
    var sign := if minus then "-" else "";
    var pad := width - |sign| - zeros - |body|;
    if left then sign + Repeat('0', zeros) + body + Repeat(' ', pad)
    else if zero then sign + Repeat('0', pad) + Repeat('0', zeros) + body
    else Repeat(' ', pad) + sign + Repeat('0', zeros) + body
  }

  function DigitChar(d: nat, capital: bool): char
    requires d < 16
  {
    if d < 10 then '0' + d as char
    else (if capital then 'A' else 'a') + (d - 10) as char
  }

  predicate IsBase(base: nat) {
    base == 2 || base == 8 || base == 10 || base == 16
  }

  lemma DivBase(x: nat, base: nat)
    requires IsBase(base)
    ensures 0 <= x % base < base && x == x / base * base + x % base
    ensures x < base ==> x / base == 0 && x % base == x
    ensures x >= base ==> 1 <= x / base <= x / 2 < x
  {
    if base == 2 {
    } else if base == 8 {
    } else if base == 10 {
    } else {
    }
  }

  /** The digits of x in the given base, most significant first. */
  function Numeral(x: nat, base: nat, capital: bool): string
    requires IsBase(base)
  {
    DivBase(x, base);
    if x < base then [DigitChar(x, capital)]
    else Numeral(x / base, base, capital) + [DigitChar(x % base, capital)]
  }

  function BaseOf(conv: char): nat {
    match conv
    case 'x' => 16
    case 'X' => 16
    case 'o' => 8
    case 'b' => 2
    case _ => 10
  }

  /** Only %d looks at the sign. */
  predicate IsNegative(conv: char, w: Word32) {
    conv == 'd' && w >= 0x8000_0000
  }

  function Magnitude(conv: char, w: Word32): Word32 {
    if IsNegative(conv, w) then 0x1_0000_0000 - w else w
  }

  function NumeralOf(conv: char, w: Word32): string {
    Numeral(Magnitude(conv, w), BaseOf(conv), conv == 'X')
  }

  /** The characters before the first NUL. */
  function CString(s: seq<char>): seq<char> {
    if s == [] || s[0] == '\0' then [] else [s[0]] + CString(s[1..])
  }

  /** The text of a %s argument: its string, cut at the precision. */
  function Text(s: seq<char>, precision: int): string {
    var t := CString(s);
    if 0 <= precision < |t| then t[..precision] else t
  }

  /** An invalid conversion prints its own character; a format that ends inside a conversion
      prints nothing for it. */
  function RenderItem(item: Item, args: seq<Arg>, a: nat): string
    requires ItemFits(item, args, a)
  {
    match item
    case Plain(c) => [c]
    case Conversion(left, zero, _, _, conv) =>
      if conv == '\0' then ""
      else if !IsValid(conv) then [conv]
      else
        var width := WidthValue(item, args, a);
        var precision := PrecisionValue(item, args, a);
        var arg := args[ValueArg(item, a)];
        if conv == 'c' then Field(left, false, width, false, 0, [(arg.w % 0x100) as char])
        else if conv == 's' then Field(left, false, width, false, 0, Text(arg.s, precision))
        else
          var digits := NumeralOf(conv, arg.w);
          var zeros := if precision > |digits| then precision - |digits| else 0;
          Field(left, zero, width, IsNegative(conv, arg.w), zeros, digits)
  }

  // ----- the whole format

  /** The arguments from `a` on are what the format from `i` on asks for. */
  predicate Fits(fmt: seq<char>, i: nat, args: seq<Arg>, a: nat)
    requires Terminated(fmt) && i < |fmt|
    decreases |fmt| - i
  {
    fmt[i] != '\0' ==>
      var next := NextItem(fmt, i);
      ItemFits(next.0, args, a) && Fits(fmt, next.1, args, a + ArgsTaken(next.0))
  }

  function Render(fmt: seq<char>, i: nat, args: seq<Arg>, a: nat): string
    requires Terminated(fmt) && i < |fmt| && Fits(fmt, i, args, a)
    decreases |fmt| - i
  {
    if fmt[i] == '\0' then ""
    else
      var next := NextItem(fmt, i);
      RenderItem(next.0, args, a) + Render(fmt, next.1, args, a + ArgsTaken(next.0))
  }

  function TotalArgs(fmt: seq<char>, i: nat): nat
    requires Terminated(fmt) && i < |fmt|
    decreases |fmt| - i
  {
    if fmt[i] == '\0' then 0
    else var next := NextItem(fmt, i); ArgsTaken(next.0) + TotalArgs(fmt, next.1)
  }
}
