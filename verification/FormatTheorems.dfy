/** What the renderings mean: numbers read back, fields have their width, the buffer is
    never overrun. */
module FormatTheorems {
  import opened Machine
  import opened FormatSpec
  import opened Formatter

  // ----- reading numbers back

  function DigitValue(c: char): nat {
    if '0' <= c <= '9' then c as int - '0' as int
    else if 'a' <= c <= 'f' then c as int - 'a' as int + 10
    else if 'A' <= c <= 'F' then c as int - 'A' as int + 10
    else 16
  }

  /** The number that the longest run of digits from the start of `s` on denotes, following
      digits that denote `n`. */
  function ReadDigits(s: string, base: nat, n: nat): nat {
    if s == "" || DigitValue(s[0]) >= base then n
    else ReadDigits(s[1..], base, n * base + DigitValue(s[0]))
  }

  function ReadSigned(s: string, base: nat): int {
    if s != "" && s[0] == '-' then -(ReadDigits(s[1..], base, 0) as int) else ReadDigits(s, base, 0)
  }

  /** Read a number as scanf does: spaces, an optional minus sign, digits. */
  function ReadNumber(s: string, base: nat): int {
    if s != "" && s[0] == ' ' then ReadNumber(s[1..], base) else ReadSigned(s, base)
  }

  /** The value of a word as the conversion takes it: %d is signed, the others are not. */
  function ValueOf(conv: char, w: Word32): int {
    if IsNegative(conv, w) then w - 0x1_0000_0000 else w
  }

  lemma DigitCharValue(d: nat, capital: bool)
    requires d < 16
    ensures DigitValue(DigitChar(d, capital)) == d
  {
  }

  lemma {:induction false} ReadNumeral(x: nat, base: nat, capital: bool, rest: string)
    requires IsBase(base)
    ensures ReadDigits(Numeral(x, base, capital) + rest, base, 0) == ReadDigits(rest, base, x)
    decreases x
  {
    DivBase(x, base);
    var low := [DigitChar(x % base, capital)];
    DigitCharValue(x % base, capital);
    assert (low + rest)[1..] == rest;
    if x >= base {
      ReadNumeral(x / base, base, capital, low + rest);
      assert Numeral(x, base, capital) + rest == Numeral(x / base, base, capital) + (low + rest);
    }
  }

  lemma {:induction false} ReadZeros(n: int, base: nat, rest: string)
    requires IsBase(base)
    ensures ReadDigits(Repeat('0', n) + rest, base, 0) == ReadDigits(rest, base, 0)
    decreases n
  {
    if n > 0 {
      assert Repeat('0', n) + rest == Repeat('0', n - 1) + (['0'] + rest);
      ReadZeros(n - 1, base, ['0'] + rest);
      assert (['0'] + rest)[1..] == rest;
    } else {
      assert "" + rest == rest;
    }
  }

  lemma {:induction false} ReadSpaces(n: int, base: nat, rest: string)
    ensures ReadNumber(Repeat(' ', n) + rest, base) == ReadNumber(rest, base)
    decreases n
  {
    if n > 0 {
      assert Repeat(' ', n) + rest == Repeat(' ', n - 1) + ([' '] + rest);
      ReadSpaces(n - 1, base, [' '] + rest);
      assert ([' '] + rest)[1..] == rest;
    } else {
      assert "" + rest == rest;
    }
  }

  lemma ReadPadding(n: int, base: nat, x: nat)
    requires IsBase(base)
    ensures ReadDigits(Repeat(' ', n), base, x) == x
  {
    if n > 0 {
      assert Repeat(' ', n)[0] == ' ' by { RepeatAll(' ', n); }
    }
  }

  lemma {:induction false} RepeatAll(c: char, n: int)
    ensures forall k | 0 <= k < |Repeat(c, n)| :: Repeat(c, n)[k] == c
    decreases n
  {
    if n > 0 {
      RepeatAll(c, n - 1);
    }
  }

  /** Leading zeros, a numeral and trailing spaces read as the numeral. */
  lemma ReadBody(zeros: int, x: nat, base: nat, capital: bool, pad: int)
    requires IsBase(base)
    ensures ReadDigits(Repeat('0', zeros) + (Numeral(x, base, capital) + Repeat(' ', pad)), base, 0) == x
  {
    ReadZeros(zeros, base, Numeral(x, base, capital) + Repeat(' ', pad));
    ReadNumeral(x, base, capital, Repeat(' ', pad));
    ReadPadding(pad, base, x);
  }

  lemma {:induction false} NumeralHead(x: nat, base: nat, capital: bool)
    requires IsBase(base)
    ensures var s := Numeral(x, base, capital);
      |s| > 0 && DigitValue(s[0]) < base && (s[0] == '0' ==> x == 0 && s == "0")
    decreases x
  {
    DivBase(x, base);
    DigitCharValue(x % base, capital);
    if x >= base {
      NumeralHead(x / base, base, capital);
    }
  }

  /** The numeral of %d, %u, %x, %X, %o and %b has no superfluous leading zero, at most one
      character per bit, and denotes the value; the most negative `long` included. */
  lemma NumeralRoundTrip(conv: char, w: Word32)
    ensures var s := NumeralOf(conv, w);
      && 1 <= |s| <= 32
      && (s[0] == '0' ==> s == "0")
      && ReadDigits(s, BaseOf(conv), 0) == (if IsNegative(conv, w) then -ValueOf(conv, w) else ValueOf(conv, w))
  {
    var base, x := BaseOf(conv), Magnitude(conv, w);
    NumeralHead(x, base, conv == 'X');
    Pow2Is32();
    NumeralLength(x, base, conv == 'X', 32);
    ReadNumeral(x, base, conv == 'X', "");
    assert NumeralOf(conv, w) + "" == NumeralOf(conv, w);
  }

  lemma ReadSignedField(minus: bool, digits: string, base: nat)
    requires IsBase(base) && digits != "" && DigitValue(digits[0]) < base
    ensures var s := (if minus then "-" else "") + digits;
      ReadNumber(s, base) == if minus then -(ReadDigits(digits, base, 0) as int) else ReadDigits(digits, base, 0)
  {
    if minus {
      assert ("-" + digits)[1..] == digits;
    } else {
      assert "" + digits == digits;
    }
  }

  /** Whatever the flags, the width and the precision, a formatted number reads back as the
      value that was passed. */
  lemma FieldReadsBack(left: bool, zero: bool, width: int, zeros: nat, conv: char, w: Word32)
    ensures ReadNumber(Field(left, zero, width, IsNegative(conv, w), zeros, NumeralOf(conv, w)), BaseOf(conv))
         == ValueOf(conv, w)
  {
    hide Numeral, ReadDigits, ReadNumber, Repeat;
    var minus, body, base, x := IsNegative(conv, w), NumeralOf(conv, w), BaseOf(conv), Magnitude(conv, w);
    var sign := if minus then "-" else "";
    var pad := width - |sign| - zeros - |body|;
    var trail := if left then pad else 0;
    var lead := if !left && zero then pad else 0;
    var number := Repeat('0', lead) + (Repeat('0', zeros) + (body + Repeat(' ', trail)));
    ReadBody(zeros, x, base, conv == 'X', trail);
    ReadZeros(lead, base, Repeat('0', zeros) + (body + Repeat(' ', trail)));
    StartsWithDigit(lead, zeros, body, Repeat(' ', trail), x, base, conv == 'X');
    ReadSignedField(minus, number, base);
    assert Repeat('0', 0) == "" && Repeat(' ', 0) == "";
    var field := Field(left, zero, width, minus, zeros, body);
    if !left && !zero {
      ReadSpaces(pad, base, sign + number);
      assert field == Repeat(' ', pad) + (sign + number);
    } else if left {
      assert field == sign + number;
    } else {
      assert field == sign + number;
    }
  }

  /** Printing a number and reading it back is the identity, for every numeric conversion. */
  lemma ItemReadsBack(item: Item, args: seq<Arg>, a: nat)
    requires item.Conversion? && IsNumeric(item.conv) && ItemFits(item, args, a)
    ensures ReadNumber(RenderItem(item, args, a), BaseOf(item.conv))
         == ValueOf(item.conv, args[ValueArg(item, a)].w)
  {
    hide Field, NumeralOf, ReadNumber;
    var w, precision := args[ValueArg(item, a)].w, PrecisionValue(item, args, a);
    var digits := NumeralOf(item.conv, w);
    var zeros := if precision > |digits| then precision - |digits| else 0;
    FieldReadsBack(item.left, item.zero, WidthValue(item, args, a), zeros, item.conv, w);
  }

  lemma StartsWithDigit(lead: int, zeros: int, body: string, tail: string, x: nat, base: nat, capital: bool)
    requires IsBase(base) && body == Numeral(x, base, capital)
    ensures var s := Repeat('0', lead) + (Repeat('0', zeros) + (body + tail));
      s != "" && DigitValue(s[0]) < base
  {
    NumeralHead(x, base, capital);
    RepeatAll('0', lead);
    RepeatAll('0', zeros);
  }

  // ----- fields

  /** A field has exactly the larger of its width and its contents; a left-justified one starts
      with its contents and goes on with spaces only; a right-justified one ends with zeros and
      body, and everything before them is padding of one kind and at most one sign. */
  lemma FieldLayout(left: bool, zero: bool, width: int, minus: bool, zeros: nat, body: string)
    ensures var f := Field(left, zero, width, minus, zeros, body);
      var sign := if minus then "-" else "";
      var content := |sign| + zeros + |body|;
      var pad := if width > content then width - content else 0;
      && |f| == content + pad
      && (left ==> f[..content] == sign + Repeat('0', zeros) + body && AllAre(' ', f[content..]))
      && (!left ==> f[|sign| + pad..] == Repeat('0', zeros) + body)
      && (!left && zero ==> f[..|sign|] == sign && AllAre('0', f[|sign|..|sign| + pad]))
      && (!left && !zero ==> AllAre(' ', f[..pad]) && f[pad..pad + |sign|] == sign)
  {
    if left {
      LeftLayout(zero, width, minus, zeros, body);
    } else if zero {
      ZeroLayout(width, minus, zeros, body);
    } else {
      SpaceLayout(width, minus, zeros, body);
    }
    hide Field, Repeat, AllAre;
  }

  lemma LeftLayout(zero: bool, width: int, minus: bool, zeros: nat, body: string)
    ensures var f := Field(true, zero, width, minus, zeros, body);
      var sign := if minus then "-" else "";
      var content := |sign| + zeros + |body|;
      && |f| == content + (if width > content then width - content else 0)
      && f[..content] == sign + Repeat('0', zeros) + body && AllAre(' ', f[content..])
  {
    var sign := if minus then "-" else "";
    var pad := width - |sign| - zeros - |body|;
    RepeatAll(' ', pad);
    hide Repeat;
    Parts(sign + Repeat('0', zeros) + body, Repeat(' ', pad), "", "");
  }

  lemma ZeroLayout(width: int, minus: bool, zeros: nat, body: string)
    ensures var f := Field(false, true, width, minus, zeros, body);
      var sign := if minus then "-" else "";
      var content := |sign| + zeros + |body|;
      var pad := if width > content then width - content else 0;
      && |f| == content + pad && f[|sign| + pad..] == Repeat('0', zeros) + body
      && f[..|sign|] == sign && AllAre('0', f[|sign|..|sign| + pad])
  {
    var sign := if minus then "-" else "";
    var pad := width - |sign| - zeros - |body|;
    RepeatAll('0', pad);
    hide Repeat;
    Parts(sign, Repeat('0', pad), Repeat('0', zeros), body);
  }

  lemma SpaceLayout(width: int, minus: bool, zeros: nat, body: string)
    ensures var f := Field(false, false, width, minus, zeros, body);
      var sign := if minus then "-" else "";
      var content := |sign| + zeros + |body|;
      var pad := if width > content then width - content else 0;
      && |f| == content + pad && f[|sign| + pad..] == Repeat('0', zeros) + body
      && AllAre(' ', f[..pad]) && f[pad..pad + |sign|] == sign
  {
    var sign := if minus then "-" else "";
    var pad := width - |sign| - zeros - |body|;
    RepeatAll(' ', pad);
    hide Repeat;
    Parts(Repeat(' ', pad), sign, Repeat('0', zeros), body);
  }

  lemma Parts(a: string, b: string, c: string, d: string)
    ensures var s := a + b + c + d;
      s[..|a|] == a && s[|a|..|a| + |b|] == b && s[|a| + |b|..] == c + d
    ensures a + b + "" + "" == a + b
  {
  }

  predicate AllAre(c: char, s: string) {
    forall k | 0 <= k < |s| :: s[k] == c
  }

  // ----- the buffer

  /** The buffer after tn_snprintf: the longest prefix of the text that leaves room for a NUL,
      then the NUL, and no byte from index `maxLen` on has been touched; if nothing was
      output, or nothing fits, the buffer is untouched and not even terminated. */
  lemma ImageMeaning(before: seq<char>, text: string, maxLen: int)
    requires maxLen <= |before| || maxLen <= 1
    ensures var after, t := Image(before, text, maxLen), Cut(text, maxLen);
      && t <= text && (t == text || |t| == maxLen - 1 || (t == "" && maxLen <= 1))
      && (t != "" ==> after[..|t|] == t && after[|t|] == '\0' && |t| < maxLen)
      && (t == "" ==> after == before)
      && (forall k | 0 <= k < |before| && k >= maxLen :: after[k] == before[k])
      && (Result(text, maxLen) == -1 <==> t != text)
      && (t == text ==> Result(text, maxLen) == |t|)
  {
  }

  // ----- the arguments

  /** A format that fits its arguments never takes more of them than there are. */
  lemma {:induction false} TakesOnlyWhatIsThere(fmt: seq<char>, i: nat, args: seq<Arg>, a: nat)
    requires Terminated(fmt) && i < |fmt| && a <= |args| && Fits(fmt, i, args, a)
    ensures a + TotalArgs(fmt, i) <= |args|
    decreases |fmt| - i
  {
    if fmt[i] != '\0' {
      var (item, next) := NextItem(fmt, i);
      ItemTakesWhatIsThere(item, args, a);
      TakesOnlyWhatIsThere(fmt, next, args, a + ArgsTaken(item));
    }
  }

  lemma ItemTakesWhatIsThere(item: Item, args: seq<Arg>, a: nat)
    requires ItemFits(item, args, a) && a <= |args|
    ensures a + ArgsTaken(item) <= |args|
  {
  }
}
