/** The scanner is a left inverse of writing formats down: every sequence of plain characters
    and conversions, written as a format string, is scanned back item by item, and rendered as
    the items one after the other. */
module FormatScan {
  import opened FormatSpec

  /** A digit string for `n` without superfluous zeros; nothing at all for a width of zero. */
  function WidthText(w: Width): string {
    match w
    case Literal(n) => if n == 0 then "" else Numeral(n, 10, false)
    case FromArg => "*"
  }

  function PrecisionText(p: Precision): string {
    match p
    case None => ""
    case Digits(n) => "." + Numeral(if n < 0 then 0 else n, 10, false)
    case FromArg => ".*"
  }

  function Flag(on: bool, c: char): string { if on then [c] else "" }

  /** An item to write, its conversion character with an `l` before it or not. */
  datatype Written = Written(item: Item, long: bool)

  function ConvText(w: Written): string
    requires w.item.Conversion?
  {
    Flag(w.long, 'l') + [w.item.conv]
  }

  function ItemText(w: Written): string {
    match w.item
    case Plain(c) => [c]
    case Conversion(left, zero, width, precision, conv) =>
      "%" + (Flag(left, '-') + (Flag(zero, '0') + (WidthText(width) + (PrecisionText(precision) + ConvText(w)))))
  }

  /** The items that can be written: a precision is a `short`, a conversion character is none
      of the characters that flags, width, precision and `l` are made of. */
  predicate Writable(item: Item) {
    match item
    case Plain(c) => c != '\0' && c != '%'
    case Conversion(_, _, _, precision, conv) =>
      && !IsDigit(conv) && conv !in {'-', '*', '.', 'l', '\0'}
      && (precision.Digits? ==> 0 <= precision.n < 0x8000)
  }

  function FormatText(items: seq<Written>): string {
    if items == [] then "\0" else ItemText(items[0]) + FormatText(items[1..])
  }

  /** `fmt` continues with `s` at `i`. */
  predicate At(fmt: seq<char>, i: nat, s: seq<char>) {
    i <= |fmt| && fmt[i..] == s
  }

  lemma AtNext(fmt: seq<char>, i: nat, a: seq<char>, b: seq<char>)
    requires At(fmt, i, a + b)
    ensures At(fmt, i + |a|, b) && fmt[i..i + |a|] == a
    ensures a != [] ==> fmt[i] == a[0]
    ensures a == [] && b != [] ==> fmt[i] == b[0]
  {
    assert fmt[i..][|a|..] == fmt[i + |a|..];
    assert fmt[i..][..|a|] == fmt[i..i + |a|];
    if a != [] {
      assert fmt[i] == fmt[i..][0];
    } else if b != [] {
      assert a + b == b;
      assert fmt[i] == fmt[i..][0];
    }
  }

  lemma AtInside(fmt: seq<char>, i: nat, s: seq<char>)
    requires At(fmt, i, s) && s != []
    ensures i < |fmt|
  {
  }

  // ----- decimal numbers

  lemma {:induction false} NumeralIsDigits(n: nat)
    ensures var s := Numeral(n, 10, false);
      && |s| > 0 && (forall k | 0 <= k < |s| :: IsDigit(s[k])) && Decimal(s) == n
      && (n > 0 ==> s[0] != '0')
    decreases n
  {
    DivBase(n, 10);
    var low := DigitChar(n % 10, false);
    if n >= 10 {
      NumeralIsDigits(n / 10);
      var high := Numeral(n / 10, 10, false);
      assert (high + [low])[..|high|] == high;
    } else {
      assert [low][..0] == [];
    }
  }

  /** A run of digits ends where the digits that were written end. */
  lemma {:induction false} DigitsEndAt(fmt: seq<char>, i: nat, j: nat)
    requires Terminated(fmt) && i <= j < |fmt| && !IsDigit(fmt[j])
    requires forall k | i <= k < j :: IsDigit(fmt[k])
    ensures DigitsEnd(fmt, i) == j
    decreases j - i
  {
    if i < j {
      DigitsEndAt(fmt, i + 1, j);
    }
  }

  lemma DecimalAt(fmt: seq<char>, i: nat, n: nat, rest: seq<char>)
    requires Terminated(fmt) && At(fmt, i, Numeral(n, 10, false) + rest) && rest != [] && !IsDigit(rest[0])
    ensures var j := i + |Numeral(n, 10, false)|;
      && i < j < |fmt| && DigitsEnd(fmt, i) == j && Decimal(fmt[i..j]) == n && At(fmt, j, rest)
      && IsDigit(fmt[i]) && (n > 0 ==> fmt[i] != '0')
  {
    hide Numeral, DigitsEnd, Decimal, At;
    var s := Numeral(n, 10, false);
    NumeralIsDigits(n);
    AtNext(fmt, i, s, rest);
    AtNext(fmt, i + |s|, [], rest);
    DigitRun(fmt, i, s);
    DigitsEndAt(fmt, i, i + |s|);
  }

  lemma DigitRun(fmt: seq<char>, i: nat, s: seq<char>)
    requires i + |s| <= |fmt| && fmt[i..i + |s|] == s && forall k | 0 <= k < |s| :: IsDigit(s[k])
    ensures forall k | i <= k < i + |s| :: IsDigit(fmt[k])
  {
    forall k | i <= k < i + |s|
      ensures IsDigit(fmt[k])
    {
      assert fmt[k] == fmt[i..i + |s|][k - i];
    }
  }

  // ----- the parts of a conversion

  lemma FlagAt(fmt: seq<char>, i: nat, on: bool, c: char, rest: seq<char>)
    requires Terminated(fmt) && At(fmt, i, Flag(on, c) + rest) && c != '\0'
    requires rest != [] && rest[0] != c
    ensures i < |fmt| && (fmt[i] == c) == on
    ensures Skip(fmt, i, c) == i + |Flag(on, c)| && At(fmt, i + |Flag(on, c)|, rest)
  {
    AtNext(fmt, i, Flag(on, c), rest);
  }

  lemma WidthAt(fmt: seq<char>, i: nat, w: Width, rest: seq<char>)
    requires Terminated(fmt) && At(fmt, i, WidthText(w) + rest)
    requires rest != [] && !IsDigit(rest[0]) && rest[0] != '*'
    ensures i < |fmt| && ScanWidth(fmt, i) == (w, i + |WidthText(w)|) && At(fmt, i + |WidthText(w)|, rest)
    ensures fmt[i] == (WidthText(w) + rest)[0]
  {
    hide Numeral, Decimal, DigitsEnd, At;
    AtNext(fmt, i, WidthText(w), rest);
    if w.Literal? {
      if w.n == 0 {
        AtInside(fmt, i, WidthText(w) + rest);
        DigitsEndAt(fmt, i, i);
        DecimalNone(fmt, i);
      } else {
        DecimalAt(fmt, i, w.n, rest);
      }
    }
  }

  lemma PrecisionAt(fmt: seq<char>, i: nat, p: Precision, rest: seq<char>)
    requires Terminated(fmt) && At(fmt, i, PrecisionText(p) + rest)
    requires rest != [] && !IsDigit(rest[0]) && rest[0] != '*' && rest[0] != '.'
    requires p.Digits? ==> 0 <= p.n < 0x8000
    ensures i < |fmt| && ScanPrecision(fmt, i) == (p, i + |PrecisionText(p)|) && At(fmt, i + |PrecisionText(p)|, rest)
  {
    hide Numeral, Decimal, DigitsEnd, At;
    AtNext(fmt, i, PrecisionText(p), rest);
    AtInside(fmt, i, PrecisionText(p) + rest);
    if p.Digits? {
      var s := Numeral(p.n, 10, false);
      assert PrecisionText(p) + rest == "." + (s + rest);
      AtNext(fmt, i, ".", s + rest);
      DecimalAt(fmt, i + 1, p.n, rest);
    } else if p.FromArg? {
      assert PrecisionText(p) + rest == "." + ("*" + rest);
      AtNext(fmt, i, ".", "*" + rest);
      AtNext(fmt, i + 1, "*", rest);
    }
  }

  lemma WidthStart(w: Width, rest: seq<char>)
    requires rest != [] && !IsDigit(rest[0])
    ensures var s := WidthText(w) + rest; s != [] && s[0] != '0' && (s[0] == '-' ==> rest[0] == '-')
  {
    if w.Literal? && w.n > 0 {
      NumeralIsDigits(w.n);
    }
  }

  lemma PrecisionStart(w: Written)
    requires w.item.Conversion? && Writable(w.item)
    ensures var s := PrecisionText(w.item.precision) + ConvText(w); !IsDigit(s[0]) && s[0] != '*' && s[0] != '-'
  {
  }

  /** What is written is what is scanned. */
  lemma ItemScansBack(fmt: seq<char>, i: nat, w: Written, rest: seq<char>)
    requires Terminated(fmt) && Writable(w.item) && At(fmt, i, ItemText(w) + rest) && rest != []
    ensures i < |fmt| && fmt[i] != '\0'
    ensures NextItem(fmt, i) == (w.item, i + |ItemText(w)|) && At(fmt, i + |ItemText(w)|, rest)
  {
    AtNext(fmt, i, ItemText(w), rest);
    if w.item.Conversion? {
      ConversionScansBack(fmt, i, w, rest);
    }
  }

  lemma ConversionScansBack(fmt: seq<char>, i: nat, w: Written, rest: seq<char>)
    requires Terminated(fmt) && w.item.Conversion? && Writable(w.item) && At(fmt, i, ItemText(w) + rest) && rest != []
    ensures i < |fmt| && fmt[i] == '%' && NextItem(fmt, i) == (w.item, i + |ItemText(w)|)
  {
    hide WidthText, PrecisionText, ConvText, Flag, ScanWidth, ScanPrecision, Skip, At, TailText, ItemText, TailStarts;
    var item := w.item;
    var zero, left, tail := Flag(item.zero, '0'), Flag(item.left, '-'), TailText(w, rest);
    TextSplit(w, rest);
    PartsStart(w, rest);
    AtNext(fmt, i, "%", left + (zero + tail));
    FlagsScanBack(fmt, i + 1, item.left, item.zero, tail);
    TailScansBack(fmt, i + 1 + |left| + |zero|, w, rest);
  }

  /** Width, precision and conversion character, and what follows. */
  function TailText(w: Written, rest: seq<char>): (s: seq<char>)
    requires w.item.Conversion?
    ensures s != []
  {
    WidthText(w.item.width) + (PrecisionText(w.item.precision) + (ConvText(w) + rest))
  }

  /** No part starts with a character that the part before it could take for its own. */
  predicate TailStarts(w: Written, rest: seq<char>)
    requires w.item.Conversion?
  {
    var s := PrecisionText(w.item.precision) + (ConvText(w) + rest);
    !IsDigit(s[0]) && s[0] != '*'
  }

  lemma FlagsScanBack(fmt: seq<char>, i: nat, left: bool, zero: bool, tail: seq<char>)
    requires Terminated(fmt) && At(fmt, i, Flag(left, '-') + (Flag(zero, '0') + tail))
    requires tail != [] && tail[0] != '0' && (Flag(zero, '0') + tail)[0] != '-'
    ensures i < |fmt| && (fmt[i] == '-') == left
    ensures var i1 := Skip(fmt, i, '-');
      && i1 == i + |Flag(left, '-')| && (fmt[i1] == '0') == zero
      && Skip(fmt, i1, '0') == i1 + |Flag(zero, '0')| && At(fmt, i1 + |Flag(zero, '0')|, tail)
  {
    hide Flag, Skip, At;
    FlagAt(fmt, i, left, '-', Flag(zero, '0') + tail);
    FlagAt(fmt, i + |Flag(left, '-')|, zero, '0', tail);
  }

  lemma TailScansBack(fmt: seq<char>, i: nat, w: Written, rest: seq<char>)
    requires Terminated(fmt) && w.item.Conversion? && Writable(w.item)
    requires At(fmt, i, TailText(w, rest)) && TailStarts(w, rest)
    ensures i < |fmt|
    ensures var width := ScanWidth(fmt, i);
      var p := ScanPrecision(fmt, width.1);
      var end := Skip(fmt, p.1, 'l');
      && width.0 == w.item.width && p.0 == w.item.precision && fmt[end] == w.item.conv
      && end + 1 == i + |WidthText(w.item.width)| + |PrecisionText(w.item.precision)| + |ConvText(w)|
  {
    hide WidthText, PrecisionText, ScanWidth, ScanPrecision, Skip, At, Flag;
    var width, precision, s4 := w.item.width, w.item.precision, ConvText(w) + rest;
    ConvStart(w, rest);
    WidthAt(fmt, i, width, PrecisionText(precision) + s4);
    PrecisionAt(fmt, i + |WidthText(width)|, precision, s4);
    var j := i + |WidthText(width)| + |PrecisionText(precision)|;
    assert s4 == Flag(w.long, 'l') + ([w.item.conv] + rest);
    FlagAt(fmt, j, w.long, 'l', [w.item.conv] + rest);
    AtNext(fmt, j + |Flag(w.long, 'l')|, [w.item.conv], rest);
  }

  lemma ConvStart(w: Written, rest: seq<char>)
    requires w.item.Conversion? && Writable(w.item)
    ensures var c := (ConvText(w) + rest)[0]; !IsDigit(c) && c != '*' && c != '.'
  {
  }

  lemma TextSplit(w: Written, rest: seq<char>)
    requires w.item.Conversion?
    ensures ItemText(w) + rest == "%" + (Flag(w.item.left, '-') + (Flag(w.item.zero, '0') + TailText(w, rest)))
    ensures |ItemText(w)| == 1 + |Flag(w.item.left, '-')| + |Flag(w.item.zero, '0')|
                           + |WidthText(w.item.width)| + |PrecisionText(w.item.precision)| + |ConvText(w)|
  {
    hide Flag, WidthText, PrecisionText, ConvText;
    var item := w.item;
    Regroup(Flag(item.left, '-'), Flag(item.zero, '0'), WidthText(item.width), PrecisionText(item.precision),
            ConvText(w), rest);
  }

  lemma Regroup(a: string, b: string, c: string, d: string, e: string, rest: string)
    ensures "%" + (a + (b + (c + (d + e)))) + rest == "%" + (a + (b + (c + (d + (e + rest)))))
  {
    assert d + e + rest == d + (e + rest);
    assert c + (d + e) + rest == c + (d + e + rest);
    assert b + (c + (d + e)) + rest == b + (c + (d + e) + rest);
    assert a + (b + (c + (d + e))) + rest == a + (b + (c + (d + e)) + rest);
  }

  lemma PartsStart(w: Written, rest: seq<char>)
    requires w.item.Conversion? && Writable(w.item)
    ensures TailStarts(w, rest)
    ensures TailText(w, rest)[0] != '0' && (Flag(w.item.zero, '0') + TailText(w, rest))[0] != '-'
  {
    PrecisionStart(w);
    hide PrecisionText, WidthText, Flag, ConvText;
    var s := PrecisionText(w.item.precision) + (ConvText(w) + rest);
    assert s == PrecisionText(w.item.precision) + ConvText(w) + rest;
    WidthStart(w.item.width, s);
    FlagStart(w.item.zero, WidthText(w.item.width) + s);
  }

  lemma FlagStart(zero: bool, rest: seq<char>)
    requires rest != [] && rest[0] != '-'
    ensures (Flag(zero, '0') + rest)[0] != '-'
  {
  }

  // ----- whole formats

  /** The renderings of the items, one after the other, each with its own arguments. */
  function RenderEach(items: seq<Written>, args: seq<Arg>, a: nat): string
    requires FitEach(items, args, a)
  {
    if items == [] then ""
    else RenderItem(items[0].item, args, a) + RenderEach(items[1..], args, a + ArgsTaken(items[0].item))
  }

  predicate FitEach(items: seq<Written>, args: seq<Arg>, a: nat) {
    items == [] || (ItemFits(items[0].item, args, a) && FitEach(items[1..], args, a + ArgsTaken(items[0].item)))
  }

  lemma {:induction false} FormatScansBack(fmt: seq<char>, i: nat, items: seq<Written>, args: seq<Arg>, a: nat)
    requires Terminated(fmt) && At(fmt, i, FormatText(items)) && i < |fmt|
    requires (forall k | 0 <= k < |items| :: Writable(items[k].item)) && FitEach(items, args, a)
    ensures Fits(fmt, i, args, a) && Render(fmt, i, args, a) == RenderEach(items, args, a)
    decreases |items|
  {
    hide NextItem, RenderItem, ItemFits, ItemText, Writable, ArgsTaken, Render, Fits;
    if items == [] {
      assert fmt[i] == fmt[i..][0];
      RenderEnd(fmt, i, args, a);
    } else {
      var rest := FormatText(items[1..]);
      FormatTextEnds(items[1..]);
      ItemScansBack(fmt, i, items[0], rest);
      var next := i + |ItemText(items[0])|;
      FormatScansBack(fmt, next, items[1..], args, a + ArgsTaken(items[0].item));
      RenderStep(fmt, i, items[0].item, next, args, a);
    }
  }

  lemma RenderEnd(fmt: seq<char>, i: nat, args: seq<Arg>, a: nat)
    requires Terminated(fmt) && i < |fmt| && fmt[i] == '\0'
    ensures Fits(fmt, i, args, a) && Render(fmt, i, args, a) == ""
  {
  }

  lemma RenderStep(fmt: seq<char>, i: nat, item: Item, next: nat, args: seq<Arg>, a: nat)
    requires Terminated(fmt) && i < |fmt| && fmt[i] != '\0' && NextItem(fmt, i) == (item, next)
    requires ItemFits(item, args, a) && Fits(fmt, next, args, a + ArgsTaken(item))
    ensures Fits(fmt, i, args, a)
    ensures Render(fmt, i, args, a) == RenderItem(item, args, a) + Render(fmt, next, args, a + ArgsTaken(item))
  {
    hide NextItem, RenderItem, ItemFits, ArgsTaken;
  }

  lemma {:induction false} FormatTextEnds(items: seq<Written>)
    ensures Terminated(FormatText(items))
    decreases |items|
  {
    if items != [] {
      FormatTextEnds(items[1..]);
    }
  }

  /** Rendering a format is rendering what it was written from. */
  lemma RenderMeaning(items: seq<Written>, args: seq<Arg>)
    requires (forall k | 0 <= k < |items| :: Writable(items[k].item)) && FitEach(items, args, 0)
    ensures var fmt := FormatText(items);
      Terminated(fmt) && Fits(fmt, 0, args, 0) && Render(fmt, 0, args, 0) == RenderEach(items, args, 0)
  {
    var fmt := FormatText(items);
    FormatTextEnds(items);
    assert fmt[0..] == fmt;
    FormatScansBack(fmt, 0, items, args, 0);
  }
}
