/** vStrXPrintf and vStrPrintf: the format scanner on top of the output routines,
    demo_pc/http_test_1/tn_sprintf.c:56-303. */
module Printf {
  import opened Machine
  import opened FormatSpec
  import opened Formatter

  // ----- widths and precisions

  lemma DecimalNext(fmt: seq<char>, i0: nat, i: nat)
    requires i0 <= i < |fmt| && forall k | i0 <= k <= i :: IsDigit(fmt[k])
    ensures Decimal(fmt[i0..i + 1]) == Decimal(fmt[i0..i]) * 10 + (fmt[i] as int - '0' as int)
  {
    var s, s' := fmt[i0..i], fmt[i0..i + 1];
    assert |s'| == |s| + 1 && s'[|s|] == fmt[i];
    assert s'[..|s|] == s;
  }

  /** The loop of lines 130-134. */
  method ScanDecimal(fmt: seq<char>, i0: nat) returns (i: nat, n: nat)
    requires Terminated(fmt) && i0 < |fmt|
    ensures i == DigitsEnd(fmt, i0) && n == Decimal(fmt[i0..i])
  {
    hide Decimal;
    i, n := i0, 0;
    DecimalNone(fmt, i0);
    while '0' <= fmt[i] <= '9'
      invariant i0 <= i < |fmt| && DigitsEnd(fmt, i) == DigitsEnd(fmt, i0)
      invariant n == Decimal(fmt[i0..i])
      decreases |fmt| - i
    {
      DecimalNext(fmt, i0, i);
      n := n * 10 + (fmt[i] as int - '0' as int);
      i := i + 1;
    }
  }

  /** The loop of lines 150-154: the running value is a `short`, narrowed at every step. */
  method ScanShort(fmt: seq<char>, i0: nat) returns (i: nat, n: int)
    requires Terminated(fmt) && i0 < |fmt|
    ensures i == DigitsEnd(fmt, i0) && n == Short(Decimal(fmt[i0..i]))
  {
    hide Decimal;
    i, n := i0, 0;
    DecimalNone(fmt, i0);
    while '0' <= fmt[i] <= '9'
      invariant i0 <= i < |fmt| && DigitsEnd(fmt, i) == DigitsEnd(fmt, i0)
      invariant n == Short(Decimal(fmt[i0..i]))
      decreases |fmt| - i
    {
      DecimalNext(fmt, i0, i);
      ShortStep(Decimal(fmt[i0..i]), fmt[i] as int - '0' as int);
      n := Short(n * 10 + (fmt[i] as int - '0' as int));
      i := i + 1;
    }
  }

  lemma ShortStep(x: int, d: int)
    ensures Short(Short(x) * 10 + d) == Short(x * 10 + d)
  {
    var k := (x - Short(x)) / 0x1_0000;
    assert x == Short(x) + 0x1_0000 * k;
    ShortShift(Short(x) * 10 + d, k * 10);
  }

  lemma ShortShift(x: int, k: int)
    ensures Short(x + 0x1_0000 * k) == Short(x)
  {
    assert x + 0x1_0000 * k == 0x1_0000 * (x / 0x1_0000 + k) + x % 0x1_0000;
  }

  // ----- %s

  lemma {:induction false} CStringPrefix(s: seq<char>)
    ensures var n := |CString(s)|;
      && n <= |s| && CString(s) == s[..n] && '\0' !in CString(s)
      && (n < |s| ==> s[n] == '\0')
  {
    if s != [] && s[0] != '\0' {
      CStringPrefix(s[1..]);
    }
  }

  /** The index at which the loop of lines 224-234 looks last. */
  function LastLook(s: seq<char>, precision: int): nat {
    if 0 <= precision < |CString(s)| then precision else |CString(s)|
  }

  /** Exactly which arguments the loop reads without leaving their memory.  The comment at
      lines 229-230 asks for less: a string of `precision` characters.  That is enough if and
      only if there is a NUL among them or one more readable byte behind them. */
  lemma ReadableExact(s: seq<char>, precision: int)
    ensures LastLook(s, precision) < |s| <==> Readable(s, precision)
    ensures 0 <= precision <= |s| ==>
      (LastLook(s, precision) < |s| <==> '\0' in s || precision < |s|)
  {
    CStringPrefix(s);
  }

  /** As many characters as the precision, without a NUL, are not enough. */
  lemma CommentPromisesTooMuch()
    ensures LastLook("abc", 3) == |"abc"| && !Readable("abc", 3)
  {
    assert "abc"[1..] == "bc" && "bc"[1..] == "c" && "c"[1..] == "";
    assert CString("c") == "c" && CString("bc") == "bc";
    assert CString("abc") == "abc";
  }

  /** The loop of lines 224-234, up to a look beyond the memory of the string if it comes to
      that: it does exactly when the argument is not `Readable`. */
  method EditedLength(s: seq<char>, precision: int) returns (inside: bool, len: nat)
    ensures len == LastLook(s, precision)
    ensures inside <==> Readable(s, precision)
    ensures inside ==> len < |s| && s[..len] == Text(s, precision)
  {
    CStringPrefix(s);
    ReadableExact(s, precision);
    len := 0;
    inside := |s| > 0;
    while inside && s[len] != '\0'
      invariant inside == (len < |s|) && len <= LastLook(s, precision)
      decreases |s| - len
    {
      if precision >= 0 && len >= precision {
        break;
      }
      len := len + 1;
      inside := len < |s|;
    }
  }

  // ----- one conversion

  /** What the scanner has established about the conversion at `i`, besides its arguments. */
  ghost predicate Scanned(p: Params, item: Item, args: seq<Arg>, a0: nat, precision: int)
    reads p
    requires item.Conversion? && ItemFits(item, args, a0)
  {
    && p.rightJustify == !item.left && p.zeroPad == item.zero && !p.minusSign && !p.capitalHex
    && p.minFieldWidth == WidthValue(item, args, a0) && p.leadingZeros == 0
    && precision == PrecisionValue(item, args, a0)
  }

  /** Lines 137-156: the precision, if there is one. */
  method ScanPrecisionField(fmt: seq<char>, i0: nat, args: seq<Arg>, a0: nat) returns (i: nat, precision: int, a: nat)
    requires Terminated(fmt) && i0 < |fmt|
    requires ScanPrecision(fmt, i0).0.FromArg? ==> IsNum(args, a0)
    ensures var (given, next) := ScanPrecision(fmt, i0);
      && i == next && a == (if given.FromArg? then a0 + 1 else a0)
      && precision == match given { case None => -1 case Digits(n) => n case FromArg => Short(args[a0].w) }
  {
    precision, i, a := -1, i0, a0;
    if fmt[i] == '.' {
      i := i + 1;
      if fmt[i] == '*' {
        precision := Short(args[a].w);
        a := a + 1;
        i := i + 1;
      } else {
        i, precision := ScanShort(fmt, i);
      }
    }
  }

  /** Lines 100-119: the flags, each at most once and in this order. */
  method ScanFlags(p: Params, fmt: seq<char>, i0: nat) returns (i: nat)
    requires Terminated(fmt) && i0 < |fmt|
    modifies p`minFieldWidth, p`leadingZeros, p`minusSign, p`rightJustify, p`zeroPad, p`capitalHex
    ensures i == Skip(fmt, Skip(fmt, i0, '-'), '0')
    ensures p.minFieldWidth == p.leadingZeros == 0 && !p.minusSign && !p.capitalHex
    ensures p.rightJustify == (fmt[i0] != '-') && p.zeroPad == (fmt[Skip(fmt, i0, '-')] == '0')
  {
    i := i0;
    p.minFieldWidth, p.leadingZeros := 0, 0;
    p.minusSign, p.rightJustify, p.zeroPad, p.capitalHex := false, true, false, false;
    if fmt[i] == '-' {
      p.rightJustify := false;
      i := i + 1;
    }
    if fmt[i] == '0' {
      p.zeroPad := true;
      i := i + 1;
    }
  }

  /** Lines 96-164: flags, width, precision and `l`, from the character after the '%'. */
  method ScanDirective(p: Params, fmt: seq<char>, i0: nat, args: seq<Arg>, a0: nat)
    returns (i: nat, precision: int, a: nat)
    requires Terminated(fmt) && 0 < i0 < |fmt| && fmt[i0 - 1] == '%'
    requires ItemFits(NextItem(fmt, i0 - 1).0, args, a0)
    modifies p`minFieldWidth, p`leadingZeros, p`minusSign, p`rightJustify, p`zeroPad, p`capitalHex
    ensures var (item, next) := NextItem(fmt, i0 - 1);
      && i < |fmt| && fmt[i] == item.conv && next == (if fmt[i] == '\0' then i else i + 1)
      && Scanned(p, item, args, a0, precision)
      && a == ValueArg(item, a0)
  {
    hide Short, Decimal, DigitsEnd, ScanPrecision, Readable;
    i := ScanFlags(p, fmt, i0);
    a := a0;
    if fmt[i] == '*' {
      p.minFieldWidth := Short(args[a].w);
      a := a + 1;
      i := i + 1;
    } else {
      i, p.minFieldWidth := ScanDecimal(fmt, i);
    }
    i, precision, a := ScanPrecisionField(fmt, i, args, a);
    if fmt[i] == 'l' {
      i := i + 1;
    }
  }

  /** Lines 168-202: the base, -1 for %c, -2 for %s, 0 for an invalid conversion. */
  method Classify(p: Params, conv: char) returns (base: int)
    modifies p`capitalHex, p`zeroPad
    ensures IsNumeric(conv) ==> base == BaseOf(conv) && IsBase(base)
    ensures base == -1 <==> conv == 'c'
    ensures base == -2 <==> conv == 's'
    ensures base == 0 <==> !IsValid(conv)
    ensures p.zeroPad == (old(p.zeroPad) && conv != 'c' && conv != 's')
    ensures p.capitalHex == (old(p.capitalHex) || conv == 'X')
  {
    base := 0;
    if conv == 'd' {
      base := 10;
    } else if conv == 'x' {
      base := 16;
    } else if conv == 'X' {
      base := 16;
      p.capitalHex := true;
    } else if conv == 'u' {
      base := 10;
    } else if conv == 'o' {
      base := 8;
    } else if conv == 'b' {
      base := 2;
    } else if conv == 'c' {
      base := -1;
      p.zeroPad := false;
    } else if conv == 's' {
      base := -2;
      p.zeroPad := false;
    }
  }

  /** Lines 237-289: conversions d, u, x, X, o and b. */
  method ConvertNumber(p: Params, conv: char, base: nat, precision: int, w: Word32)
    requires p.Valid() && IsNumeric(conv) && base == BaseOf(conv) && IsBase(base)
    requires !p.minusSign && p.leadingZeros == 0 && p.capitalHex == (conv == 'X')
    modifies p, p.sink, p.sink.buf
    ensures p.Valid()
    ensures var digits := NumeralOf(conv, w);
      var zeros := if precision > |digits| then precision - |digits| else 0;
      p.out == old(p.out) + Field(!old(p.rightJustify), old(p.zeroPad), old(p.minFieldWidth),
                                  IsNegative(conv, w), zeros, digits)
  {
    hide Numeral, Field, Params.Valid, NumeralOf, BaseOf;
    var buffer, len := PrintMagnitude(p, conv, base, w);
    p.editedStringLen := len;
    if precision >= 0 && precision > p.editedStringLen {
      p.leadingZeros := precision - p.editedStringLen;
    }
    var s := buffer[BUFFER_SIZE - len..];
    assert s[..len] == s;
    p.OutputField(s);
  }

  /** Lines 246-282: the sign option and the digits. */
  method PrintMagnitude(p: Params, conv: char, base: nat, w: Word32) returns (buffer: array<char>, len: nat)
    requires IsNumeric(conv) && base == BaseOf(conv) && IsBase(base)
    requires !p.minusSign && p.capitalHex == (conv == 'X')
    modifies p`minusSign
    ensures fresh(buffer) && buffer.Length == BUFFER_SIZE
    ensures 1 <= len <= 32 && buffer[BUFFER_SIZE - len..] == NumeralOf(conv, w)
    ensures p.minusSign == IsNegative(conv, w)
  {
    hide Numeral;
    var x := w;
    if conv == 'd' && x >= 0x8000_0000 {
      p.minusSign := true;
      x := (0x1_0000_0000 - x) % 0x1_0000_0000;
    }
    buffer, len := PrintNumber(x, base, p.capitalHex);
  }

  /** Lines 166-291, the argument of the conversion being args[a]. */
  method Convert(p: Params, conv: char, precision: int, args: seq<Arg>, a: nat, ghost item: Item, ghost a0: nat)
    returns (a': nat)
    requires p.Valid() && item.Conversion? && item.conv == conv && ItemFits(item, args, a0)
    requires Scanned(p, item, args, a0, precision) && a == ValueArg(item, a0)
    modifies p, p.sink, p.sink.buf
    ensures p.Valid() && p.out == old(p.out) + RenderItem(item, args, a0)
    ensures a' == a0 + ArgsTaken(item)
  {
    hide Field, Numeral, Text, Params.Valid;
    var base := Classify(p, conv);
    a' := a;
    if base == 0 {
      if conv != '\0' {
        p.OutputChar(conv);
      }
    } else {
      a' := a + 1;
      if base == -1 {
        p.editedStringLen := 1;
        var s := [(args[a].w % 0x100) as char];
        assert s[..1] == s;
        p.OutputField(s);
      } else if base == -2 {
        var inside, len := EditedLength(args[a].s, precision);
        assert inside;
        p.editedStringLen := len;
        p.OutputField(args[a].s);
      } else {
        ConvertNumber(p, conv, base, precision, args[a].w);
      }
    }
  }

  // ----- the format

  /** Lines 94-300: one item of the format. */
  method PrintItem(p: Params, fmt: seq<char>, i0: nat, args: seq<Arg>, a0: nat) returns (i: nat, a: nat)
    requires p.Valid() && Terminated(fmt) && i0 < |fmt| && fmt[i0] != '\0'
    requires ItemFits(NextItem(fmt, i0).0, args, a0)
    modifies p, p.sink, p.sink.buf
    ensures var (item, next) := NextItem(fmt, i0);
      && p.Valid() && p.out == old(p.out) + RenderItem(item, args, a0)
      && i == next && a == a0 + ArgsTaken(item)
    ensures var item := NextItem(fmt, i0).0;
      a - a0 == if item.Plain? then 0 else
        (if item.width.FromArg? then 1 else 0) + (if item.precision.FromArg? then 1 else 0)
        + if item.conv in {'d', 'x', 'X', 'u', 'o', 'b', 'c', 's'} then 1 else 0
  {
    if fmt[i0] == '%' {
      var precision;
      i, precision, a := ScanDirective(p, fmt, i0 + 1, args, a0);
      a := Convert(p, fmt[i], precision, args, a, NextItem(fmt, i0).0, a0);
      if fmt[i] != '\0' {
        i := i + 1;
      }
    } else {
      p.OutputChar(fmt[i0]);
      i, a := i0 + 1, a0;
    }
  }

  /** vStrXPrintf with StrPrintfFunc as its output routine. */
  method VStrXPrintf(sink: StrParams, ghost maxLen: int, fmt: seq<char>, args: seq<Arg>) returns (n: int, used: nat)
    requires sink.pos == 0 && sink.maxLen == maxLen - 1
    requires Room(maxLen) < sink.buf.Length || Room(maxLen) == 0
    requires Terminated(fmt) && Fits(fmt, 0, args, 0)
    modifies sink, sink.buf
    ensures sink.buf[..] == Image(old(sink.buf[..]), Render(fmt, 0, args, 0), maxLen)
    ensures n == Result(Render(fmt, 0, args, 0), maxLen)
    ensures used == TotalArgs(fmt, 0)
  {
    hide Params.Valid, NextItem, RenderItem, ItemFits, Image, Result;
    var p := new Params(sink, maxLen);
    var i: nat, a: nat := 0, 0;
    while fmt[i] != '\0'
      invariant i < |fmt| && Fits(fmt, i, args, a)
      invariant p.Valid() && p.sink == sink && fresh(p) && p.maxLen == maxLen && p.before == old(sink.buf[..])
      invariant p.out + Render(fmt, i, args, a) == Render(fmt, 0, args, 0)
      invariant a + TotalArgs(fmt, i) == TotalArgs(fmt, 0)
      decreases |fmt| - i
    {
      assert p.out + Render(fmt, i, args, a) == p.out + RenderItem(NextItem(fmt, i).0, args, a)
        + Render(fmt, NextItem(fmt, i).1, args, a + ArgsTaken(NextItem(fmt, i).0));
      i, a := PrintItem(p, fmt, i, args, a);
    }
    assert p.out + "" == p.out;
    p.WhatTheSinkHolds();
    n, used := p.numOutputChars, a;
  }

  /** vStrPrintf, which tn_snprintf calls with its variable arguments: the buffer receives the
      longest prefix of the unlimited rendering that fits, and the result tells whether that
      is all of it. */
  method VStrPrintf(buf: array<char>, maxLen: int, fmt: seq<char>, args: seq<Arg>) returns (n: int, used: nat)
    requires maxLen <= buf.Length || maxLen <= 1
    requires Terminated(fmt) && Fits(fmt, 0, args, 0)
    modifies buf
    ensures buf[..] == Image(old(buf[..]), Render(fmt, 0, args, 0), maxLen)
    ensures n == Result(Render(fmt, 0, args, 0), maxLen)
    ensures used == TotalArgs(fmt, 0)
  {
    var strParm := new StrParams(buf, maxLen - 1);
    n, used := VStrXPrintf(strParm, maxLen, fmt, args);
  }
}
