/** The bounded formatter of demo_pc/http_test_1/tn_sprintf.c. */
module Formatter {
  import opened Machine
  import opened FormatSpec

  /** STRPRINTFPARAMS: where the next character goes and how many more may be stored. */
  class StrParams {
    const buf: array<char>
    var pos: nat
    var maxLen: int

    constructor (buf: array<char>, maxLen: int)
      ensures this.buf == buf && pos == 0 && this.maxLen == maxLen
    {
      this.buf, pos, this.maxLen := buf, 0, maxLen;
    }

    /** StrPrintfFunc: store the character and a NUL after it, or refuse. */
    method Put(c: char) returns (n: int)
      requires maxLen > 0 ==> pos + 1 < buf.Length
      modifies this, buf
      ensures old(maxLen) > 0 ==>
        n == 1 && pos == old(pos) + 1 && maxLen == old(maxLen) - 1 &&
        buf[..] == old(buf[..])[old(pos) := c][old(pos) + 1 := '\0']
      ensures old(maxLen) <= 0 ==> n == -1 && pos == old(pos) && maxLen == old(maxLen) && buf[..] == old(buf[..])
    {
      if maxLen > 0 {
        buf[pos] := c;
        pos := pos + 1;
        buf[pos] := '\0';
        maxLen := maxLen - 1;
        return 1;
      }
      return -1;
    }
  }

  /** How many characters a buffer of `maxLen` bytes has room for, besides the NUL. */
  function Room(maxLen: int): nat {
    if maxLen > 1 then maxLen - 1 else 0
  }

  /** The longest prefix that fits. */
  function Cut(text: string, maxLen: int): string {
    if |text| <= Room(maxLen) then text else text[..Room(maxLen)]
  }

  /** The buffer after rendering `text`: the longest prefix that fits and a NUL, on top of what
      was there; nothing at all is stored when no character fits. */
  function Image(before: seq<char>, text: string, maxLen: int): (after: seq<char>)
    requires Room(maxLen) < |before| || Room(maxLen) == 0
    ensures |after| == |before|
  {
    var t := Cut(text, maxLen);
    if t == [] then before else t + ['\0'] + before[|t| + 1..]
  }

  /** The result: the number of characters, or -1 if one of them did not fit. */
  function Result(text: string, maxLen: int): int {
    if |text| <= Room(maxLen) then |text| else -1
  }

  /** One more character: it is stored with a NUL behind it, or everything stays as it is. */
  lemma ImageNext(before: seq<char>, text: string, c: char, maxLen: int)
    requires Room(maxLen) < |before| || Room(maxLen) == 0
    ensures if |text| < Room(maxLen) then
        && Cut(text, maxLen) == text && Cut(text + [c], maxLen) == text + [c]
        && Image(before, text + [c], maxLen) == Image(before, text, maxLen)[|text| := c][|text| + 1 := '\0']
      else
        |Cut(text, maxLen)| == Room(maxLen) && Cut(text + [c], maxLen) == Cut(text, maxLen)
        && Image(before, text + [c], maxLen) == Image(before, text, maxLen)
  {
  }

  /** PARAMETERS.  `out` is everything output so far, as if there were no limit. */
  class Params {
    const sink: StrParams
    var numOutputChars: int
    var minusSign: bool
    var rightJustify: bool
    var zeroPad: bool
    var capitalHex: bool
    var minFieldWidth: int
    var editedStringLen: int
    var leadingZeros: int

    ghost const before: seq<char>
    ghost const maxLen: int
    ghost var out: string

    /** The sink holds the cut of the unlimited output, and the count or the failure is sticky. */
    ghost predicate Valid()
      reads this`numOutputChars, this`out, sink, sink.buf
    {
      && (Room(maxLen) < |before| || Room(maxLen) == 0)
      && sink.buf[..] == Image(before, out, maxLen)
      && sink.pos == |Cut(out, maxLen)|
      && sink.maxLen == maxLen - 1 - sink.pos
      && numOutputChars == Result(out, maxLen)
    }

    lemma WhatTheSinkHolds()
      requires Valid()
      ensures sink.buf[..] == Image(before, out, maxLen) && numOutputChars == Result(out, maxLen)
    {
    }

    constructor (sink: StrParams, ghost maxLen: int)
      requires sink.pos == 0 && sink.maxLen == maxLen - 1
      requires Room(maxLen) < sink.buf.Length || Room(maxLen) == 0
      ensures Valid() && this.sink == sink && this.maxLen == maxLen
      ensures out == [] && before == sink.buf[..]
    {
      this.sink := sink;
      numOutputChars := 0;
      minusSign, rightJustify, zeroPad, capitalHex := false, false, false, false;
      minFieldWidth, editedStringLen, leadingZeros := 0, 0, 0;
      this.before, this.maxLen, out := sink.buf[..], maxLen, [];
    }

    method OutputChar(c: char)
      requires Valid()
      modifies this`numOutputChars, this`out, sink, sink.buf
      ensures Valid() && out == old(out) + [c]
    {
      ImageNext(before, out, c, maxLen);
      hide Image, Cut;
      if numOutputChars >= 0 {
        var n := sink.Put(c);
        if n >= 0 {
          numOutputChars := numOutputChars + 1;
        } else {
          numOutputChars := n;
        }
      }
      out := out + [c];
    }

    /** Output `c` n times. */
    method OutputRepeated(c: char, n: int) returns (left: int)
      requires Valid()
      modifies this`numOutputChars, this`out, sink, sink.buf
      ensures Valid() && out == old(out) + Repeat(c, n)
      ensures left == if n > 0 then -1 else n - 1
    {
      left := n - 1;
      while left >= 0
        invariant if n > 0 then -1 <= left < n else left == n - 1
        invariant Valid() && out == old(out) + Repeat(c, n - 1 - left)
      {
        OutputChar(c);
        left := left - 1;
      }
      assert Repeat(c, n) == Repeat(c, n - 1 - left);
    }

    /** OutputField: the field is in the first `editedStringLen` characters of `s`. */
    method OutputField(s: seq<char>)
      requires Valid() && 0 <= editedStringLen <= |s| && 0 <= leadingZeros
      modifies this`numOutputChars, this`out, this`leadingZeros, this`editedStringLen, sink, sink.buf
      ensures Valid()
      ensures out == old(out) + Field(!rightJustify, zeroPad, minFieldWidth, minusSign, old(leadingZeros),
                                      s[..old(editedStringLen)])
    {
      hide Valid, Repeat, Field, Front;
      ghost var body := s[..editedStringLen];
      var padLen := OutputFront();
      ghost var front, zeros := out[|old(out)|..], Repeat('0', leadingZeros);
      FieldPieces(rightJustify, zeroPad, minFieldWidth, minusSign, leadingZeros, body, padLen);
      leadingZeros := OutputRepeated('0', leadingZeros);
      OutputString(s);
      AppendAll(old(out), front, zeros, body, Repeat(' ', padLen));
      padLen := OutputRepeated(' ', padLen);
    }

    /** Lines 324-353: what comes before the leading zeros. */
    method OutputFront() returns (padLen: int)
      requires Valid()
      modifies this`numOutputChars, this`out, sink, sink.buf
      ensures var pad := minFieldWidth - leadingZeros - editedStringLen - if minusSign then 1 else 0;
        && Valid() && out == old(out) + Front(rightJustify, zeroPad, minusSign, pad)
        && padLen == if !rightJustify then pad else if pad > 0 then -1 else pad - 1
    {
      hide Valid, Repeat;
      padLen := minFieldWidth - leadingZeros - editedStringLen;
      if minusSign {
        if zeroPad {
          OutputChar('-');
        }
        padLen := padLen - 1;
      }
      if rightJustify {
        padLen := OutputRepeated(if zeroPad then '0' else ' ', padLen);
      }
      if minusSign && !zeroPad {
        OutputChar('-');
      }
    }

    /** Output the first editedStringLen characters of `s`. */
    method OutputString(s: seq<char>)
      requires Valid() && 0 <= editedStringLen <= |s|
      modifies this`numOutputChars, this`out, this`editedStringLen, sink, sink.buf
      ensures Valid() && out == old(out) + s[..old(editedStringLen)]
    {
      hide Valid;
      ghost var n := editedStringLen;
      var i := 0;
      editedStringLen := editedStringLen - 1;
      while editedStringLen >= 0
        invariant 0 <= i <= n && editedStringLen == n - 1 - i
        invariant Valid() && out == old(out) + s[..i]
      {
        OutputChar(s[i]);
        i := i + 1;
        editedStringLen := editedStringLen - 1;
      }
    }
  }

  /** Sign and leading padding: the sign comes first when padding with zeros. */
  function Front(right: bool, zero: bool, minus: bool, pad: int): string {
    var sign := if minus then "-" else "";
    if !right then sign else if zero then sign + Repeat('0', pad) else Repeat(' ', pad) + sign
  }

  /** The pieces that OutputField outputs, in order, make up the field; after leading
      padding nothing is left for trailing padding. */
  lemma FieldPieces(right: bool, zero: bool, width: int, minus: bool, zeros: nat, body: string, padLen: int)
    requires var pad := width - zeros - |body| - if minus then 1 else 0;
      padLen == if !right then pad else if pad > 0 then -1 else pad - 1
    ensures var pad := width - zeros - |body| - if minus then 1 else 0;
      Field(!right, zero, width, minus, zeros, body)
      == Front(right, zero, minus, pad) + Repeat('0', zeros) + body + Repeat(' ', padLen)
  {
    RepeatNone(' ', padLen);
    hide Repeat;
    var pad := width - zeros - |body| - if minus then 1 else 0;
    if right {
      var field := Front(right, zero, minus, pad) + Repeat('0', zeros) + body;
      assert Field(!right, zero, width, minus, zeros, body) == field;
      assert field + "" == field;
    }
  }

  lemma AppendAll(a: string, b: string, c: string, d: string, e: string)
    ensures a + b + c + d + e == a + (b + c + d + e)
  {
  }

  lemma RepeatNone(c: char, n: int)
    ensures n <= 0 ==> Repeat(c, n) == ""
  {
  }

  // ----- numbers

  const BUFFER_SIZE := 36 // 8 * sizeof(unsigned long) + 4

  /** The do-while loop that fills the buffer from its end; at most 32 cells are used. */
  method PrintNumber(x0: Word32, base: nat, capital: bool) returns (buffer: array<char>, len: nat)
    requires IsBase(base)
    ensures fresh(buffer) && buffer.Length == BUFFER_SIZE
    ensures 1 <= len <= 32 && buffer[BUFFER_SIZE - len..] == Numeral(x0, base, capital)
  {
    hide Numeral, Pow2, DigitChar;
    buffer := new char[BUFFER_SIZE];
    var x: nat := x0;
    len := 0;
    Pow2Is32();
    NumeralLength(x0, base, capital, 32);
    while true
      invariant len + |Numeral(x, base, capital)| <= 32
      invariant Numeral(x, base, capital) + buffer[..][BUFFER_SIZE - len..] == Numeral(x0, base, capital)
      decreases x
    {
      var c := NextDigit(x, base, capital);
      ghost var was := buffer[..];
      buffer[BUFFER_SIZE - 1 - len] := c;
      assert buffer[..] == was[BUFFER_SIZE - 1 - len := c];
      UpdateTail(was, BUFFER_SIZE - 1 - len, c);
      len := len + 1;
      NumeralSplit(x, base, capital);
      x := x / base;
      if x == 0 {
        break;
      }
    }
    assert buffer[..][BUFFER_SIZE - len..] == buffer[BUFFER_SIZE - len..];
  }

  lemma UpdateTail(s: seq<char>, k: nat, c: char)
    requires k < |s|
    ensures s[k := c][k..] == [c] + s[k + 1..]
  {
  }

  /** Lines 268-280: the character of a digit. */
  method NextDigit(x: nat, base: nat, capital: bool) returns (c: char)
    requires IsBase(base)
    ensures c == DigitChar(x % base, capital)
  {
    DivBase(x, base);
    var n := x % base + '0' as int;
    if n > '9' as int {
      if capital {
        n := n + ('A' as int - '9' as int - 1);
      } else {
        n := n + ('a' as int - '9' as int - 1);
      }
    }
    c := n as char;
  }

  lemma NumeralSplit(x: nat, base: nat, capital: bool)
    requires IsBase(base)
    ensures 0 <= x / base && (x / base < x || x == 0)
    ensures Numeral(x, base, capital)
         == (if x / base == 0 then [] else Numeral(x / base, base, capital)) + [DigitChar(x % base, capital)]
  {
    DivBase(x, base);
  }

  function Pow2(n: nat): nat { if n == 0 then 1 else 2 * Pow2(n - 1) }

  lemma Pow2Plus4(n: nat)
    ensures Pow2(n + 4) == 0x10 * Pow2(n)
  {
    assert Pow2(n + 2) == 4 * Pow2(n);
  }

  lemma Pow2Is32()
    ensures Pow2(32) == 0x1_0000_0000
  {
    Pow2Plus4(0);
    Pow2Plus4(4);
    Pow2Plus4(8);
    Pow2Plus4(12);
    Pow2Plus4(16);
    Pow2Plus4(20);
    Pow2Plus4(24);
    Pow2Plus4(28);
  }

  /** One digit per bit suffices in any base. */
  lemma {:induction false} NumeralLength(x: nat, base: nat, capital: bool, bits: nat)
    requires IsBase(base) && 1 <= bits && x < Pow2(bits)
    ensures 1 <= |Numeral(x, base, capital)| <= bits
    decreases bits
  {
    DivBase(x, base);
    if x >= base {
      assert x / 2 < Pow2(bits - 1);
      NumeralLength(x / base, base, capital, bits - 1);
    }
  }
}
