/** What a call of tn_snprintf prints, conversion by conversion, in terms of the characters of the
    format and the words of the arguments. */
module FormatMeaning {
  import opened Machine
  import opened FormatSpec
  import opened Formatter
  import opened FormatScan
  import opened FormatTheorems
  import opened Printf

  // ----- the arguments

  /** How many arguments the stars of a conversion take. */
  function Stars(item: Item): nat
    requires item.Conversion?
  {
    (if item.width.FromArg? then 1 else 0) + (if item.precision.FromArg? then 1 else 0)
  }

  /** The `n` arguments from `a` on are words. */
  predicate AreWords(args: seq<Arg>, a: nat, n: nat) {
    a + n <= |args| && forall k | a <= k < a + n :: args[k].Num?
  }

  /** `x` is the word `w` narrowed to 16 bits with sign. */
  predicate Narrowed(x: int, w: Word32) {
    -0x8000 <= x < 0x8000 && (w - x) % 0x1_0000 == 0
  }

  /** The width and the precision of a conversion; a precision of -1 when it has none. */
  predicate Given(item: Item, args: seq<Arg>, a: nat, width: int, precision: int)
    requires item.Conversion? && AreWords(args, a, Stars(item))
  {
    && (match item.width
        case Literal(n) => width == n
        case FromArg => Narrowed(width, args[a].w))
    && (match item.precision
        case None => precision == -1
        case Digits(n) => precision == n
        case FromArg => Narrowed(precision, args[a + Stars(item) - 1].w))
  }

  lemma NarrowedIsShort(x: int, w: Word32)
    requires Narrowed(x, w)
    ensures Short(w) == x
  {
    assert w == x + 0x1_0000 * ((w - x) / 0x1_0000);
    ShortShift(x, (w - x) / 0x1_0000);
  }

  lemma GivenIs(item: Item, args: seq<Arg>, a: nat, width: int, precision: int)
    requires item.Conversion? && AreWords(args, a, Stars(item)) && Given(item, args, a, width, precision)
    ensures WidthValue(item, args, a) == width && PrecisionValue(item, args, a) == precision
    ensures ValueArg(item, a) == a + Stars(item)
  {
    hide Narrowed, Short;
    if item.width.FromArg? {
      NarrowedIsShort(width, args[a].w);
    }
    if item.precision.FromArg? {
      NarrowedIsShort(precision, args[a + Stars(item) - 1].w);
    }
  }

  // ----- fields

  /** `r` is as long as sign and body, or the width if that is more, and the rest of it is spaces
      behind them, or before them, or zeros in between. */
  predicate Laid(r: string, left: bool, zero: bool, width: int, sign: string, body: string) {
    var n := |sign| + |body|;
    && |r| == (if width > n then width else n)
    && (left ==> r[..n] == sign + body && AllAre(' ', r[n..]))
    && (!left && !zero ==> r[|r| - n..] == sign + body && AllAre(' ', r[..|r| - n]))
    && (!left && zero ==>
          r[..|sign|] == sign && r[|r| - |body|..] == body && AllAre('0', r[|sign|..|r| - |body|]))
  }

  lemma FieldIsLaid(left: bool, zero: bool, width: int, minus: bool, zeros: nat, body: string)
    ensures Laid(Field(left, zero, width, minus, zeros, body), left, zero, width,
                 if minus then "-" else "", Repeat('0', zeros) + body)
  {
    hide Repeat, Laid;
    var sign, front := if minus then "-" else "", Repeat('0', zeros);
    var pad := width - |sign| - zeros - |body|;
    RepeatAll(' ', pad);
    RepeatAll('0', pad);
    LaidParts(left, zero, width, sign, front + body, Repeat(if !left && zero then '0' else ' ', pad));
    Regroup3(sign, front, body, Repeat(' ', pad));
    Regroup3(sign, Repeat('0', pad), front, body);
    Regroup3(Repeat(' ', pad), sign, front, body);
  }

  lemma Regroup3(a: string, b: string, c: string, d: string)
    ensures a + b + c + d == a + (b + c) + d && a + b + c + d == a + b + (c + d)
  {
  }

  lemma LaidParts(left: bool, zero: bool, width: int, sign: string, all: string, pads: string)
    requires |pads| == if width > |sign| + |all| then width - |sign| - |all| else 0
    requires AllAre(if !left && zero then '0' else ' ', pads)
    ensures Laid(if left then sign + all + pads else if zero then sign + pads + all else pads + sign + all,
                 left, zero, width, sign, all)
  {
    if left {
      Parts(sign + all, pads, "", "");
    } else if zero {
      Parts(sign, pads, all, "");
    } else {
      Parts(pads, sign, all, "");
    }
  }

  // ----- numbers

  function BaseFor(conv: char): nat
    requires conv in {'d', 'u', 'x', 'X', 'o', 'b'}
  {
    if conv in {'d', 'u'} then 10 else if conv in {'x', 'X'} then 16 else if conv == 'o' then 8 else 2
  }

  predicate AreDigits(s: string, base: nat, capital: bool) {
    forall k | 0 <= k < |s| ::
      && DigitValue(s[k]) < base
      && ('0' <= s[k] <= '9' || if capital then 'A' <= s[k] <= 'F' else 'a' <= s[k] <= 'f')
  }

  /** The shortest digits for `x`, with zeros in front up to the precision. */
  predicate DigitsOf(s: string, x: int, base: nat, capital: bool, precision: int) {
    && s != "" && |s| >= precision && AreDigits(s, base, capital) && ReadDigits(s, base, 0) == x
    && (|s| > 1 && |s| > precision ==> s[0] != '0')
  }

  lemma {:induction false} NumeralLetters(x: nat, base: nat, capital: bool)
    requires IsBase(base)
    ensures AreDigits(Numeral(x, base, capital), base, capital)
    decreases x
  {
    DivBase(x, base);
    if x >= base {
      NumeralLetters(x / base, base, capital);
    }
  }

  lemma ZerosAndNumeral(x: nat, base: nat, capital: bool, precision: int)
    requires IsBase(base)
    ensures var s := Numeral(x, base, capital);
      var zeros := if precision > |s| then precision - |s| else 0;
      DigitsOf(Repeat('0', zeros) + s, x, base, capital, precision)
  {
    hide Numeral, Repeat, ReadDigits, DigitValue;
    var s := Numeral(x, base, capital);
    var zeros := if precision > |s| then precision - |s| else 0;
    NumeralHead(x, base, capital);
    NumeralLetters(x, base, capital);
    ReadBody(zeros, x, base, capital, 0);
    assert s + Repeat(' ', 0) == s;
    assert zeros == 0 ==> Repeat('0', zeros) + s == s;
    ZerosAreDigits(zeros, s, base, capital);
  }

  lemma ZerosAreDigits(zeros: nat, s: string, base: nat, capital: bool)
    requires IsBase(base) && AreDigits(s, base, capital)
    ensures AreDigits(Repeat('0', zeros) + s, base, capital)
  {
    RepeatAll('0', zeros);
    hide Repeat;
  }

  /** A number: %d takes the word with its sign, the others without; what is printed is laid out
      as flags and width say, and its digits are those of the value in the base of the
      conversion, at least as many as the precision, no superfluous zero among them. */
  lemma NumberMeaning(item: Item, args: seq<Arg>, a: nat, width: int, precision: int) returns (digits: string)
    requires item.Conversion? && item.conv in {'d', 'u', 'x', 'X', 'o', 'b'}
    requires AreWords(args, a, Stars(item) + 1) && Given(item, args, a, width, precision)
    ensures ItemFits(item, args, a)
    ensures var w := args[a + Stars(item)].w;
      var negative := item.conv == 'd' && w >= 0x8000_0000;
      && Laid(RenderItem(item, args, a), item.left, item.zero, width, if negative then "-" else "", digits)
      && DigitsOf(digits, if negative then 0x1_0000_0000 - w else w, BaseFor(item.conv), item.conv == 'X', precision)
  {
    hide Numeral, Field, Repeat, Laid, DigitsOf, Short, Given;
    GivenIs(item, args, a, width, precision);
    var w := args[a + Stars(item)].w;
    var body := NumeralOf(item.conv, w);
    var zeros := if precision > |body| then precision - |body| else 0;
    digits := Repeat('0', zeros) + body;
    FieldIsLaid(item.left, item.zero, width, IsNegative(item.conv, w), zeros, body);
    ZerosAndNumeral(Magnitude(item.conv, w), BaseOf(item.conv), item.conv == 'X', precision);
  }

  /** So a number reads back: with its sign for %d, as it is for the others. */
  lemma NumberReadsBack(item: Item, args: seq<Arg>, a: nat)
    requires item.Conversion? && item.conv in {'d', 'u', 'x', 'X', 'o', 'b'}
    requires AreWords(args, a, Stars(item) + 1)
    ensures ItemFits(item, args, a)
    ensures var w, r := args[a + Stars(item)].w, RenderItem(item, args, a);
      && (item.conv == 'd' ==> ReadNumber(r, 10) == if w < 0x8000_0000 then w else w - 0x1_0000_0000)
      && (item.conv == 'u' ==> ReadNumber(r, 10) == w)
      && (item.conv in {'x', 'X'} ==> ReadNumber(r, 16) == w)
      && (item.conv == 'o' ==> ReadNumber(r, 8) == w)
      && (item.conv == 'b' ==> ReadNumber(r, 2) == w)
  {
    hide ReadNumber, RenderItem;
    ItemReadsBack(item, args, a);
  }

  // ----- characters and strings

  /** A character: the low byte of its argument. */
  lemma CharacterMeaning(item: Item, args: seq<Arg>, a: nat, width: int, precision: int)
    requires item.Conversion? && item.conv == 'c'
    requires AreWords(args, a, Stars(item) + 1) && Given(item, args, a, width, precision)
    ensures ItemFits(item, args, a)
    ensures Laid(RenderItem(item, args, a), item.left, false, width, "", [(args[a + Stars(item)].w % 0x100) as char])
  {
    hide Field, Laid, Short, Given;
    GivenIs(item, args, a, width, precision);
    var body := [(args[a + Stars(item)].w % 0x100) as char];
    FieldIsLaid(item.left, false, width, false, 0, body);
    assert Repeat('0', 0) + body == body;
  }

  /** A string: its characters before the first NUL, and no more of them than the precision. */
  lemma StringMeaning(item: Item, args: seq<Arg>, a: nat, width: int, precision: int) returns (text: string)
    requires item.Conversion? && item.conv == 's'
    requires AreWords(args, a, Stars(item)) && Given(item, args, a, width, precision)
    requires a + Stars(item) < |args| && args[a + Stars(item)].Str?
    requires var s := args[a + Stars(item)].s; '\0' in s || 0 <= precision < |s|
    ensures ItemFits(item, args, a)
    ensures Laid(RenderItem(item, args, a), item.left, false, width, "", text)
    ensures var s := args[a + Stars(item)].s;
      && text <= s && '\0' !in text && (precision >= 0 ==> |text| <= precision)
      && (|text| == precision || (|text| < |s| && s[|text|] == '\0'))
  {
    hide Field, Laid, Short, Text, Given;
    GivenIs(item, args, a, width, precision);
    var s := args[a + Stars(item)].s;
    TextMeaning(s, precision);
    text := Text(s, precision);
    FieldIsLaid(item.left, false, width, false, 0, text);
    assert Repeat('0', 0) + text == text;
  }

  lemma TextMeaning(s: seq<char>, precision: int)
    requires '\0' in s || 0 <= precision < |s|
    ensures var text := Text(s, precision);
      && text <= s && '\0' !in text && (precision >= 0 ==> |text| <= precision)
      && (|text| == precision || (|text| < |s| && s[|text|] == '\0'))
  {
    CStringPrefix(s);
  }

  /** Any other character after the directive is printed, without an argument; nothing is at the
      end of the format. */
  lemma OtherMeaning(item: Item, args: seq<Arg>, a: nat)
    requires item.Conversion? ==>
      AreWords(args, a, Stars(item)) && item.conv !in {'d', 'u', 'x', 'X', 'o', 'b', 'c', 's'}
    ensures ItemFits(item, args, a)
    ensures RenderItem(item, args, a) ==
      match item
      case Plain(c) => [c]
      case Conversion(_, _, _, _, conv) => if conv == '\0' then "" else [conv]
  {
  }

  // ----- how many arguments a format takes

  /** Those of the stars, and one for each valid conversion. */
  function Taken(items: seq<Written>): nat {
    if items == [] then 0
    else
      var item := items[0].item;
      (if item.Conversion? then
         Stars(item) + if item.conv in {'d', 'u', 'x', 'X', 'o', 'b', 'c', 's'} then 1 else 0
       else 0) + Taken(items[1..])
  }

  lemma {:induction false} TotalFrom(fmt: seq<char>, i: nat, items: seq<Written>)
    requires Terminated(fmt) && At(fmt, i, FormatText(items)) && i < |fmt|
    requires forall k | 0 <= k < |items| :: Writable(items[k].item)
    ensures TotalArgs(fmt, i) == Taken(items)
    decreases |items|
  {
    hide NextItem, ItemText, Writable;
    if items == [] {
      assert fmt[i] == fmt[i..][0];
    } else {
      var rest := FormatText(items[1..]);
      FormatTextEnds(items[1..]);
      ItemScansBack(fmt, i, items[0], rest);
      TotalFrom(fmt, i + |ItemText(items[0])|, items[1..]);
    }
  }

  lemma TotalMeaning(items: seq<Written>)
    requires forall k | 0 <= k < |items| :: Writable(items[k].item)
    ensures Terminated(FormatText(items)) && TotalArgs(FormatText(items), 0) == Taken(items)
  {
    FormatTextEnds(items);
    assert FormatText(items)[0..] == FormatText(items);
    TotalFrom(FormatText(items), 0, items);
  }

  // ----- a list of numbers

  /** "%d.%d" and so on, with the NUL. */
  function DottedFormat(n: nat): string
    requires n > 0
  {
    if n == 1 then "%d\0" else "%d." + DottedFormat(n - 1)
  }

  /** The fields with points in between. */
  function Dotted(fields: seq<string>): string
    requires |fields| > 0
  {
    if |fields| == 1 then fields[0] else fields[0] + "." + Dotted(fields[1..])
  }

  const PlainD := Conversion(false, false, Literal(0), None, 'd')

  function DottedItems(n: nat): seq<Written>
    requires n > 0
  {
    if n == 1 then [Written(PlainD, false)]
    else [Written(PlainD, false), Written(Plain('.'), false)] + DottedItems(n - 1)
  }

  lemma {:induction false} DottedText(n: nat)
    requires n > 0
    ensures FormatText(DottedItems(n)) == DottedFormat(n)
    ensures forall k | 0 <= k < |DottedItems(n)| :: Writable(DottedItems(n)[k].item)
  {
    var d, dot := Written(PlainD, false), Written(Plain('.'), false);
    assert ItemText(d) == "%d" && ItemText(dot) == ".";
    if n == 1 {
      assert DottedItems(n)[1..] == [];
    } else {
      DottedText(n - 1);
      var rest := DottedItems(n - 1);
      assert DottedItems(n)[1..] == [dot] + rest && ([dot] + rest)[1..] == rest;
    }
  }

  /** The shortest decimal for the word as a signed number. */
  predicate DecimalOf(s: string, w: Word32) {
    if w < 0x8000_0000 then DigitsOf(s, w, 10, false, -1)
    else s != "" && s[0] == '-' && DigitsOf(s[1..], 0x1_0000_0000 - w, 10, false, -1)
  }

  lemma PlainDMeaning(args: seq<Arg>, a: nat)
    requires AreWords(args, a, 1)
    ensures ItemFits(PlainD, args, a) && DecimalOf(RenderItem(PlainD, args, a), args[a].w)
    ensures args[a].w < 1000 ==> |RenderItem(PlainD, args, a)| <= 3
  {
    var digits := NumberMeaning(PlainD, args, a, 0, -1);
    var w := args[a].w;
    var r := RenderItem(PlainD, args, a);
    var sign := if w >= 0x8000_0000 then "-" else "";
    assert r == sign + digits by { hide RenderItem, DigitsOf; assert r[|r| - |r|..] == r; }
    hide RenderItem;
    assert r[|sign|..] == digits;
    if w < 1000 {
      ThreeDigits(digits, w);
    }
  }

  /** Four digits without a leading zero are a thousand or more. */
  lemma ThreeDigits(s: string, x: nat)
    requires DigitsOf(s, x, 10, false, -1) && x < 1000
    ensures |s| <= 3
  {
    if |s| > 3 {
      var d0, d1, d2, d3 := DigitValue(s[0]), DigitValue(s[1]), DigitValue(s[2]), DigitValue(s[3]);
      assert s[1..][1..] == s[2..] && s[2..][1..] == s[3..] && s[3..][1..] == s[4..];
      assert ReadDigits(s, 10, 0) == ReadDigits(s[1..], 10, d0);
      assert ReadDigits(s[2..], 10, d0 * 10 + d1) == ReadDigits(s[3..], 10, d0 * 100 + d1 * 10 + d2);
      ReadGrows(s[4..], 10, d0 * 1000 + d1 * 100 + d2 * 10 + d3);
    }
  }

  lemma {:induction false} ReadGrows(s: string, base: nat, n: nat)
    requires IsBase(base)
    ensures ReadDigits(s, base, n) >= n
    decreases |s|
  {
    if s != "" && DigitValue(s[0]) < base {
      ReadGrows(s[1..], base, n * base + DigitValue(s[0]));
    }
  }

  lemma RenderCons(w: Written, rest: seq<Written>, args: seq<Arg>, a: nat, b: nat)
    requires ItemFits(w.item, args, a) && b == a + Taken([w]) && FitEach(rest, args, b)
    ensures FitEach([w] + rest, args, a) && Taken([w] + rest) == Taken([w]) + Taken(rest)
    ensures RenderEach([w] + rest, args, a) == RenderItem(w.item, args, a) + RenderEach(rest, args, b)
  {
    hide RenderItem, ItemFits;
    assert ([w] + rest)[1..] == rest && [w][1..] == [];
    assert Taken([w]) == ArgsTaken(w.item);
  }

  lemma RenderNone(args: seq<Arg>, a: nat)
    ensures FitEach([], args, a) && RenderEach([], args, a) == "" && Taken([]) == 0
  {
  }

  lemma TakenByOne()
    ensures Taken([Written(PlainD, false)]) == 1 && Taken([Written(Plain('.'), false)]) == 0
  {
  }

  lemma {:induction false} DottedRenders(args: seq<Arg>, a: nat, n: nat) returns (fields: seq<string>)
    requires n > 0 && AreWords(args, a, n)
    ensures FitEach(DottedItems(n), args, a) && Taken(DottedItems(n)) == n
    ensures |fields| == n && RenderEach(DottedItems(n), args, a) == Dotted(fields)
    ensures forall k | 0 <= k < n :: DecimalOf(fields[k], args[a + k].w) && (args[a + k].w < 1000 ==> |fields[k]| <= 3)
    decreases n
  {
    hide DecimalOf, RenderEach, FitEach, Taken;
    PlainDMeaning(args, a);
    TakenByOne();
    var field := RenderItem(PlainD, args, a);
    var d, dot := Written(PlainD, false), Written(Plain('.'), false);
    if n == 1 {
      fields := [field];
      RenderNone(args, a + 1);
      RenderCons(d, [], args, a, a + 1);
      assert [d] + [] == [d] && field + "" == field;
    } else {
      var rest := DottedItems(n - 1);
      var others := DottedRenders(args, a + 1, n - 1);
      RenderCons(dot, rest, args, a + 1, a + 1);
      RenderCons(d, [dot] + rest, args, a, a + 1);
      fields := [field] + others;
      hide RenderItem;
      assert fields[1..] == others && [d] + ([dot] + rest) == [d, dot] + rest;
      assert forall k | 1 <= k < n :: fields[k] == others[k - 1] && args[a + k] == args[a + 1 + (k - 1)];
    }
  }

  /** Any number of numbers with points in between: every one of the arguments is taken, once
      and in order, and printed as a signed decimal. */
  method PrintDotted(str: array<char>, maxLen: int, args: seq<Arg>)
    returns (n: int, used: nat, ghost fields: seq<string>)
    requires maxLen <= str.Length || maxLen <= 1
    requires args != [] && AreWords(args, 0, |args|)
    modifies str
    ensures used == |args| == |fields|
    ensures forall k | 0 <= k < |args| :: DecimalOf(fields[k], args[k].w) && (args[k].w < 1000 ==> |fields[k]| <= 3)
    ensures str[..] == Image(old(str[..]), Dotted(fields), maxLen) && n == Result(Dotted(fields), maxLen)
  {
    hide Image, Result, DecimalOf, RenderEach, FitEach;
    var items := DottedItems(|args|);
    DottedText(|args|);
    fields := DottedRenders(args, 0, |args|);
    RenderMeaning(items, args);
    TotalMeaning(items);
    n, used := VStrPrintf(str, maxLen, DottedFormat(|args|), args);
  }

  lemma {:induction false} DottedLength(fields: seq<string>)
    requires |fields| > 0 && forall k | 0 <= k < |fields| :: 0 < |fields[k]| <= 3
    ensures 0 < |Dotted(fields)| < 4 * |fields|
    decreases |fields|
  {
    if |fields| > 1 {
      DottedLength(fields[1..]);
    }
  }

  /** ip4_num_to_str, tn_net/tn_net_utils.c:391-398: the four bytes of an address, the most
      significant first.  The 18 bytes that it allows itself are enough. */
  method Ip4NumToStr(str: array<char>, addr: Word32) returns (n: int, used: nat, ghost fields: seq<string>)
    requires str.Length >= 18
    modifies str
    ensures used == |fields| == 4
    ensures DecimalOf(fields[0], addr / 0x100_0000) && DecimalOf(fields[1], addr / 0x1_0000 % 0x100)
         && DecimalOf(fields[2], addr / 0x100 % 0x100) && DecimalOf(fields[3], addr % 0x100)
    ensures var text := Dotted(fields);
      && n == |text| <= 15
      && str[..n] == text && str[n] == '\0' && forall k | n < k < str.Length :: str[k] == old(str[k])
  {
    var args := [Num(addr / 0x100_0000 % 0x100), Num(addr / 0x1_0000 % 0x100), Num(addr / 0x100 % 0x100),
                 Num(addr % 0x100)];
    n, used, fields := PrintDotted(str, 18, args);
    assert forall k | 0 <= k < 4 :: args[k].w < 1000;
    DottedLength(fields);
  }

  // ----- examples

  /** How some conversions are written. */
  lemma Spelling()
    ensures ItemText(Written(Conversion(true, true, Literal(12), Digits(3), 'x'), true)) == "%-012.3lx"
    ensures ItemText(Written(Conversion(false, true, Literal(9), None, 'u'), false)) == "%09u"
    ensures ItemText(Written(Conversion(true, false, Width.FromArg, Precision.FromArg, 'd'), false)) == "%-*.*d"
    ensures ItemText(Written(Conversion(false, false, Literal(0), Digits(0), 's'), false)) == "%.0s"
  {
    SmallNumerals();
    hide Numeral;
  }

  lemma SmallNumerals()
    ensures Numeral(12, 10, false) == "12" && Numeral(9, 10, false) == "9"
    ensures Numeral(3, 10, false) == "3" && Numeral(0, 10, false) == "0"
  {
  }

  /** The characters for the digits. */
  lemma DigitNames(d: nat)
    requires d < 16
    ensures DigitValue("0123456789abcdef"[d]) == d == DigitValue("0123456789ABCDEF"[d])
  {
  }
}
