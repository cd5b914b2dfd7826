/** The Internet checksum over mbuf chains, tn_net/in4_cksum.c:85-234. */
module InCksum {
  import opened Machine
  import opened OnesComplement
  import opened MbufChain

  /** The 32-bit accumulator `sum`, as a bit pattern read without sign, together with the
      largest value the pattern has held: the code declares it a signed `int`, so it has
      overflowed exactly when the peak exceeds INT_MAX. */
  datatype Accumulator = Accumulator(sum: nat, peak: nat) {
    ghost predicate Valid() {
      sum <= peak && sum < 0x1_0000_0000
    }

    /** Add a word, wrapping around. */
    function Add(w: Word): Accumulator {
      Set((sum + w) % 0x1_0000_0000)
    }

    /** Shift by one byte. */
    function Shift8(): Accumulator {
      Set(sum * 0x100 % 0x1_0000_0000)
    }

    /** REDUCE: add the two halves of the pattern, then ADDCARRY. */
    function Reduce(): Accumulator
      requires Valid()
    {
      var halves := sum / 0x1_0000 + sum % 0x1_0000;
      Set(if halves > 0xFFFF then halves - 0xFFFF else halves)
    }

    function Set(s: nat): Accumulator {
      Accumulator(s, if s > peak then s else peak)
    }
  }

  /** REDUCE is the fold of the standard: it yields the end-around-carry representative. */
  lemma ReduceIsCanon(acc: Accumulator)
    requires acc.Valid()
    ensures acc.Reduce().sum == Canon(acc.sum)
    ensures Canon(acc.Reduce().sum) == Canon(acc.sum)
  {
    var hi, lo := acc.sum / 0x1_0000, acc.sum % 0x1_0000;
    assert acc.sum == 0xFFFF * hi + (hi + lo);
    CanonSmall(acc.Reduce().sum);
    hide Canon;
    if hi + lo > 0xFFFF {
      CanonPlus(hi + 1, hi + lo - 0xFFFF);
    } else if hi + lo > 0 {
      CanonPlus(hi, hi + lo);
    }
  }

  const INT_MAX := 0x7FFF_FFFF

  /** A bound on the pattern after `n` payload bytes: 256 folded words (a folded sum
      shifted by 8), and one word for every two bytes. */
  function Bound(n: nat): nat {
    0xFFFF * (0x100 + n / 2)
  }

  /** `acc` is `acc0` after the words between `start` and `w` have been added to it. */
  ghost predicate Added(order: ByteOrder, data: seq<Byte>, start: nat, w: nat, acc0: Accumulator, acc: Accumulator) {
    && start <= w <= |data| && Phase(w - start) == 0
    && acc.Valid()
    && acc.sum == acc0.sum + Weigh(order, 0, data[start..w])
    && 2 * acc.sum <= 2 * acc0.sum + 0xFFFF * (w - start)
    && acc.peak == if acc.sum > acc0.peak then acc.sum else acc0.peak
  }

  lemma AddedNone(order: ByteOrder, data: seq<Byte>, start: nat, acc0: Accumulator)
    requires start <= |data| && acc0.Valid()
    ensures Added(order, data, start, start, acc0, acc0)
  {
    assert data[start..start] == [];
  }

  /** One `sum += *w++`, which never wraps while the pattern stays below 2^32. */
  lemma AddedNext(order: ByteOrder, data: seq<Byte>, start: nat, w: nat, acc0: Accumulator, acc: Accumulator)
    requires Added(order, data, start, w, acc0, acc) && w + 2 <= |data|
    requires 2 * acc0.sum + 0xFFFF * (w + 2 - start) < 0x2_0000_0000
    ensures Added(order, data, start, w + 2, acc0, acc.Add(WordOf(order, data[w], data[w + 1])))
  {
    hide Weigh;
    WeighNext(order, data, start, w);
    AddExact(acc, WordOf(order, data[w], data[w + 1]));
  }

  lemma WeighNext(order: ByteOrder, data: seq<Byte>, start: nat, w: nat)
    requires start <= w && w + 2 <= |data| && Phase(w - start) == 0
    ensures Weigh(order, 0, data[start..w + 2]) == Weigh(order, 0, data[start..w]) + WordOf(order, data[w], data[w + 1])
  {
    hide Weigh;
    var s, word := data[start..w], [data[w], data[w + 1]];
    assert data[start..w + 2] == s + word;
    WeighAppend(order, 0, s, word);
    WeighWord(order, data[w], data[w + 1]);
  }

  lemma AddExact(acc: Accumulator, w: Word)
    requires acc.Valid() && acc.sum + w < 0x1_0000_0000
    ensures acc.Add(w) == acc.Set(acc.sum + w)
  {
  }

  /** Add the word at index `w`. */
  method AddWord(order: ByteOrder, data: seq<Byte>, ghost start: nat, w: nat,
                 ghost acc0: Accumulator, acc1: Accumulator)
    returns (acc: Accumulator)
    requires w + 2 <= |data| && Added(order, data, start, w, acc0, acc1)
    requires 2 * acc0.sum + 0xFFFF * (w + 2 - start) < 0x2_0000_0000
    ensures Added(order, data, start, w + 2, acc0, acc)
  {
    AddedNext(order, data, start, w, acc0, acc1);
    acc := acc1.Add(WordOf(order, data[w], data[w + 1]));
  }

  /** Add four words. */
  method AddFour(order: ByteOrder, data: seq<Byte>, ghost start: nat, w: nat,
                 ghost acc0: Accumulator, acc1: Accumulator)
    returns (acc: Accumulator)
    requires w + 8 <= |data| && Added(order, data, start, w, acc0, acc1)
    requires 2 * acc0.sum + 0xFFFF * (w + 8 - start) < 0x2_0000_0000
    ensures Added(order, data, start, w + 8, acc0, acc)
  {
    acc := AddWord(order, data, start, w, acc0, acc1);
    acc := AddWord(order, data, start, w + 2, acc0, acc);
    acc := AddWord(order, data, start, w + 4, acc0, acc);
    acc := AddWord(order, data, start, w + 6, acc0, acc);
  }

  /** How many of `length` bytes the unrolled loops take. */
  function Unrolled(length: nat): (n: nat)
    ensures n <= length
  {
    length / 8 * 8
  }

  lemma UnrolledIs(length: nat, j: nat)
    requires 8 * j <= length < 8 * j + 8
    ensures Unrolled(length) == 8 * j
  {
  }

  /** The loops that are unrolled 16 and 4 words at a time. */
  method AddUnrolled(order: ByteOrder, data: seq<Byte>, start: nat, length: nat, acc0: Accumulator)
    returns (w: nat, mlen: nat, acc: Accumulator)
    requires start + length <= |data|
    requires acc0.Valid() && 2 * acc0.sum + 0xFFFF * length < 0x2_0000_0000
    ensures mlen < 8 && w + mlen == start + length && w == start + Unrolled(length)
    ensures Added(order, data, start, w, acc0, acc)
  {
    hide Weigh, Unrolled;
    var left := length - 32;
    ghost var j := 0;
    w, acc := start, acc0;
    AddedNone(order, data, start, acc0);
    while left >= 0
      invariant left >= -32 && w + left + 32 == start + length && w == start + 8 * j
      invariant Added(order, data, start, w, acc0, acc)
    {
      acc := AddFour(order, data, start, w, acc0, acc);
      acc := AddFour(order, data, start, w + 8, acc0, acc);
      acc := AddFour(order, data, start, w + 16, acc0, acc);
      acc := AddFour(order, data, start, w + 24, acc0, acc);
      w := w + 32;
      left := left - 32;
      j := j + 4;
    }
    left := left + 32;
    left := left - 8;
    while left >= 0
      invariant left >= -8 && w + left + 8 == start + length && w == start + 8 * j
      invariant Added(order, data, start, w, acc0, acc)
    {
      acc := AddFour(order, data, start, w, acc0, acc);
      w := w + 8;
      left := left - 8;
      j := j + 1;
    }
    mlen := left + 8;
    UnrolledIs(length, j);
  }

  /** REDUCE followed by `sum <<= 8`. */
  lemma ReduceShift(acc: Accumulator)
    requires acc.Valid()
    ensures var acc' := acc.Reduce().Shift8();
      && acc'.Valid() && acc'.sum == 0x100 * Canon(acc.sum)
      && acc.peak <= acc'.peak <= (if acc.peak > 0xFFFF * 0x100 then acc.peak else 0xFFFF * 0x100)
    ensures Canon(acc.Reduce().Shift8().sum) == Canon(0x100 * acc.sum)
  {
    ReduceIsCanon(acc);
    CanonShift(acc.Reduce().sum, acc.sum);
  }

  /** The odd-address detour is invisible.  Let `sum` stand for the stream up to a word
      boundary.  Shifting it by 8, adding the bytes `s` in words that start one byte late,
      and shifting by 8 again stands for the same stream with every byte of `s` weighed at
      its true position. */
  lemma DetourInvisible(order: ByteOrder, sum: nat, t: nat, s: seq<Byte>)
    requires Canon(sum) == Canon(t)
    ensures Canon(0x100 * (0x100 * sum + Weigh(order, 0, s))) == Canon(t + Weigh(order, 1, s))
  {
    var x, y := Weigh(order, 0, s), Weigh(order, 1, s);
    CanonShiftTwice(sum);
    CanonAdd(0x1_0000 * sum, t, 0x100 * x);
    WeighShift(order, 0, s);
    CanonAdd(0x100 * x, y, t);
  }

  /** The accumulator has kept within the bound for `n` payload bytes. */
  ghost predicate Within(acc: Accumulator, n: nat) {
    acc.Valid() && acc.peak <= Bound(n)
  }

  /** The byte that waits in s_util.c[0] for its partner when `mlen == -1`; it is the first
      byte of a word, whichever buffer position it was read from. */
  function Pending(order: ByteOrder, mlen: int, c: Byte): nat {
    if mlen == -1 then Weight(order, 0) * c else 0
  }

  /** A fold between two runs of additions changes the sum only up to end-around carry. */
  lemma FoldBetween(order: ByteOrder, data: seq<Byte>, start: nat, w0: nat, w: nat,
                    acc0: Accumulator, acc1: Accumulator, acc: Accumulator)
    requires Added(order, data, start, w0, acc0, acc1) && Added(order, data, w0, w, acc1.Reduce(), acc)
    ensures Canon(acc.sum) == Canon(acc0.sum + Weigh(order, 0, data[start..w]))
  {
    ReduceIsCanon(acc1);
    CanonAdd(acc1.Reduce().sum, acc1.sum, Weigh(order, 0, data[w0..w]));
    assert data[start..w] == data[start..w0] + data[w0..w];
    WeighAppend(order, 0, data[start..w0], data[w0..w]);
  }

  /** Add the word that the byte held in s_util.c[0] and `b` make. */
  method AddHeld(order: ByteOrder, c: Byte, b: Byte, acc0: Accumulator, ghost n: nat) returns (acc: Accumulator)
    requires Within(acc0, n) && n <= 0xFFFF
    ensures Within(acc, n + 2) && acc.sum == acc0.sum + WordOf(order, c, b)
    ensures acc.peak == if acc.sum > acc0.peak then acc.sum else acc0.peak
  {
    AddExact(acc0, WordOf(order, c, b));
    acc := acc0.Add(WordOf(order, c, b));
  }

  /** REDUCE, then the remaining words one at a time (lines 200-204). */
  method AddTail(order: ByteOrder, data: seq<Byte>, ghost start: nat, w0: nat, mlen0: nat,
                 ghost acc0: Accumulator, acc1: Accumulator)
    returns (w: nat, mlen: int, acc: Accumulator)
    requires mlen0 < 8 && w0 + mlen0 <= |data| && Added(order, data, start, w0, acc0, acc1)
    ensures w0 <= w && Phase(w - start) == 0 && -2 <= mlen <= -1 && w + mlen + 2 == w0 + mlen0
    ensures acc.Valid() && Canon(acc.sum) == Canon(acc0.sum + Weigh(order, 0, data[start..w]))
    ensures acc1.peak <= acc.peak <= (if acc1.peak > 0xFFFF * 4 then acc1.peak else 0xFFFF * 4)
    ensures acc.sum <= 0xFFFF * 4
  {
    hide Canon, Weigh;
    ReduceIsCanon(acc1);
    w, mlen, acc := AddLast(order, data, w0, mlen0, acc1.Reduce());
    FoldBetween(order, data, start, w0, w, acc0, acc1, acc);
  }

  /** Lines 201-204: the last words, three at most. */
  method AddLast(order: ByteOrder, data: seq<Byte>, w0: nat, mlen0: nat, acc0: Accumulator)
    returns (w: nat, mlen: int, acc: Accumulator)
    requires mlen0 < 8 && w0 + mlen0 <= |data| && acc0.Valid() && acc0.sum <= 0xFFFF
    ensures -2 <= mlen <= -1 && w + mlen + 2 == w0 + mlen0
    ensures Added(order, data, w0, w, acc0, acc) && acc.sum <= 0xFFFF * 4
  {
    hide Weigh;
    w, mlen, acc := w0, mlen0 - 2, acc0;
    AddedNone(order, data, w0, acc0);
    while mlen >= 0
      invariant -2 <= mlen && w0 <= w && w + mlen + 2 == w0 + mlen0
      invariant Added(order, data, w0, w, acc0, acc)
    {
      acc := AddWord(order, data, w0, w, acc0, acc);
      w := w + 2;
      mlen := mlen - 2;
    }
  }

  /** The unrolled loops add `length` bytes without folding, as many as they take; if they take
      them all, and no detour is under way, nothing is folded at all. */
  ghost predicate Carried(order: ByteOrder, data: seq<Byte>, start: nat, length: nat,
                          acc0: Accumulator, acc: Accumulator, direct: bool)
    requires start + length <= |data|
  {
    && acc.peak >= acc0.peak
    && acc.peak >= acc0.sum + Weigh(order, 0, data[start..start + Unrolled(length)])
    && (direct && Unrolled(length) == length ==> acc.sum == acc0.sum + Weigh(order, 0, data[start..start + length]))
  }

  /** A single byte at an odd address only shifts the sum, twice, and is left waiting. */
  ghost predicate ShiftedOnly(data: seq<Byte>, start: nat, acc0: Accumulator, acc: Accumulator, c: Byte)
    requires start < |data|
  {
    acc.peak >= acc0.peak && acc.sum == 0x100 * Canon(0x100 * acc0.sum) && c == data[start]
  }

  /** Lines 180-204: the words of one buffer from `start` on, folded unless the unrolled
      loops end the buffer and no detour is under way. */
  method AddWords(order: ByteOrder, data: seq<Byte>, start: nat, length: nat, swapped: bool,
                  acc0: Accumulator, ghost n: nat)
    returns (w: nat, mlen: int, acc: Accumulator)
    requires start + length <= |data| && length <= 0xFFFF
    requires Within(acc0, n) && Phase(n) == 0 && n + length <= 0x1_0000
    ensures start <= w && Phase(w - start) == 0
    ensures if length == w - start && !swapped then mlen == 0 || mlen == -2
            else if length == w - start then mlen == -2
            else mlen == -1 && w + 1 == start + length
    ensures Within(acc, n + (w - start)) && (mlen == -1 ==> acc.sum <= 0xFFFF * 4)
    ensures Carried(order, data, start, length, acc0, acc, !swapped)
    ensures Canon(acc.sum) == Canon(acc0.sum + Weigh(order, 0, data[start..w]))
  {
    hide Canon, Weigh, Unrolled;
    w, mlen, acc := AddUnrolled(order, data, start, length, acc0);
    if mlen == 0 && !swapped {
      return;
    }
    w, mlen, acc := AddTail(order, data, start, w, mlen, acc0, acc);
  }

  /** Lines 168-220 for a run of bytes that starts a word of the stream: `start` is the index
      of the first byte, `addr` the address of data[0].  The sum, with the byte that is left
      waiting, stands for the sum before and every byte of the run in its true position. */
  method AddRun(order: ByteOrder, data: seq<Byte>, addr: nat, start: nat, length: nat,
                c0: Byte, acc0: Accumulator, ghost n: nat)
    returns (mlen: int, c: Byte, acc: Accumulator)
    requires start + length <= |data| && Phase(n) == 0 && n + length <= 0xFFFF
    requires Within(acc0, n)
    ensures -2 <= mlen <= 0 && (mlen == -1 <==> Phase(length) == 1)
    ensures Within(acc, n + length) && (mlen == -1 ==> acc.sum <= 0xFFFF * 0x100)
    ensures acc.peak >= acc0.peak
    ensures (addr + start) % 2 == 0 ==> Carried(order, data, start, length, acc0, acc, true)
    ensures (addr + start) % 2 == 1 && length == 1 ==> ShiftedOnly(data, start, acc0, acc, c)
    ensures Canon(acc.sum + Pending(order, mlen, c)) == Canon(acc0.sum + Weigh(order, 0, data[start..start + length]))
  {
    hide Canon, Weigh, Unrolled;
    c := c0;
    if (addr + start) % 2 == 1 && length > 0 {
      mlen, c, acc := AddRunSwapped(order, data, start, length, acc0, n);
    } else {
      var w;
      w, mlen, acc := AddWords(order, data, start, length, false, acc0, n);
      if mlen == -1 {
        c := data[w];
        WeighOne(order, data, start, w);
        CanonAdd(acc.sum, acc0.sum + Weigh(order, 0, data[start..w]), Pending(order, mlen, c));
      }
    }
  }

  lemma WeighOne(order: ByteOrder, data: seq<Byte>, start: nat, w: nat)
    requires start <= w < |data| && Phase(w - start) == 0
    ensures Weigh(order, 0, data[start..w + 1]) == Weigh(order, 0, data[start..w]) + Weight(order, 0) * data[w]
  {
    assert data[start..w + 1] == data[start..w] + [data[w]];
    WeighAppend(order, 0, data[start..w], [data[w]]);
  }

  /** The same run when its first byte lies at an odd address (`byte_swapped`). */
  method AddRunSwapped(order: ByteOrder, data: seq<Byte>, start: nat, length: nat, acc0: Accumulator, ghost n: nat)
    returns (mlen: int, c: Byte, acc: Accumulator)
    requires 0 < length && start + length <= |data| && Phase(n) == 0 && n + length <= 0xFFFF
    requires Within(acc0, n)
    ensures (mlen == -1 && Phase(length) == 1) || (mlen == 0 && Phase(length) == 0)
    ensures Within(acc, n + length)
    ensures acc.peak >= acc0.peak && (mlen == -1 ==> acc.sum <= 0xFFFF * 0x100)
    ensures length == 1 ==> ShiftedOnly(data, start, acc0, acc, c)
    ensures Canon(acc.sum + Pending(order, mlen, c)) == Canon(acc0.sum + Weigh(order, 0, data[start..start + length]))
  {
    hide Canon, Weigh;
    var acc1 := SwapIn(acc0, n);
    c := data[start];
    var w;
    w, mlen, acc := AddWords(order, data, start + 1, length - 1, true, acc1, n);
    ghost var s := data[start + 1..w];
    SwapBack(order, acc0.sum, acc1.sum, acc.sum, s);
    if length == 1 {
      assert s == [] && Weigh(order, 0, s) == 0 by { WeighNone(order); }
    }
    WeighSwapped(order, data, start, w);
    var last := if mlen == -1 then data[w] else 0;
    CanonAdd(0x100 * acc.sum, acc0.sum + Weigh(order, 1, s), WordOf(order, c, last));
    mlen, acc := SwapOut(order, mlen, c, last, acc, n + (w - start - 1));
  }

  /** Fold the sum and shift it by one byte. */
  method SwapIn(acc0: Accumulator, ghost n: nat) returns (acc: Accumulator)
    requires Within(acc0, n)
    ensures Within(acc, n)
    ensures acc.sum == 0x100 * Canon(acc0.sum) && Canon(acc.sum) == Canon(0x100 * acc0.sum) && acc.peak >= acc0.peak
  {
    ReduceShift(acc0);
    acc := acc0.Reduce().Shift8();
  }

  /** Lines 205-218: shift back, then add the held byte with the last one, or leave it waiting. */
  method SwapOut(order: ByteOrder, mlen0: int, c: Byte, last: Byte, acc0: Accumulator, ghost n: nat)
    returns (mlen: int, acc: Accumulator)
    requires Phase(n) == 0 && n <= 0xFFFF && Within(acc0, n) && (mlen0 != -1 ==> last == 0)
    ensures acc.peak >= acc0.peak
    ensures if mlen0 == -1 then mlen == 0 && Within(acc, n + 2)
            else mlen == -1 && Within(acc, n + 1) && acc.sum == 0x100 * Canon(acc0.sum)
    ensures Canon(acc.sum + Pending(order, mlen, c)) == Canon(0x100 * acc0.sum + WordOf(order, c, last))
  {
    hide Canon;
    acc := SwapIn(acc0, n);
    CanonAdd(acc.sum, 0x100 * acc0.sum, WordOf(order, c, last));
    if mlen0 == -1 {
      acc := AddHeld(order, c, last, acc, n);
      mlen := 0;
    } else {
      mlen := -1;
    }
  }

  lemma SwapBack(order: ByteOrder, sum0: nat, sum1: nat, sum2: nat, s: seq<Byte>)
    requires Canon(sum1) == Canon(0x100 * sum0)
    requires Canon(sum2) == Canon(sum1 + Weigh(order, 0, s))
    ensures Canon(0x100 * sum2) == Canon(sum0 + Weigh(order, 1, s))
  {
    CanonAdd(sum1, 0x100 * sum0, Weigh(order, 0, s));
    CanonShift(sum2, 0x100 * sum0 + Weigh(order, 0, s));
    DetourInvisible(order, sum0, sum0, s);
  }

  lemma WeighSwapped(order: ByteOrder, data: seq<Byte>, start: nat, w: nat)
    requires start < w <= |data| && Phase(w - (start + 1)) == 0
    ensures Weigh(order, 0, data[start..w]) == Weight(order, 0) * data[start] + Weigh(order, 1, data[start + 1..w])
    ensures w < |data| ==>
      Weigh(order, 0, data[start..w + 1]) == WordOf(order, data[start], data[w]) + Weigh(order, 1, data[start + 1..w])
  {
    assert data[start..w][1..] == data[start + 1..w];
    if w < |data| {
      assert data[start..w + 1] == data[start..w] + [data[w]];
      WeighAppend(order, 0, data[start..w], [data[w]]);
    }
  }

  /** Lines 144-220: one buffer, entered with `n` payload bytes already read, the last of an
      odd number of them, or the first byte of the word it belongs to, waiting in s_util.c[0]. */
  method AddBuffer(order: ByteOrder, data: seq<Byte>, addr: nat, off: nat, len0: nat, mlen0: int,
                   c0: Byte, acc0: Accumulator, ghost n: nat)
    returns (len: nat, mlen: int, c: Byte, acc: Accumulator)
    requires off < |data| && 0 < len0 && n + len0 <= 0xFFFF
    requires -2 <= mlen0 <= 0 && (mlen0 == -1 <==> Phase(n) == 1)
    requires Within(acc0, n)
    ensures len == len0 - Min(len0, |data| - off)
    ensures -2 <= mlen <= 0 && (mlen == -1 <==> Phase(n + (len0 - len)) == 1)
    ensures Within(acc, n + (len0 - len)) && (mlen == -1 ==> acc.sum <= 0xFFFF * 0x100)
    ensures acc.peak >= acc0.peak
    ensures mlen0 == -1 && (addr + off) % 2 == 1 ==>
      Carried(order, data, off + 1, Min(len0, |data| - off) - 1,
              acc0.(sum := acc0.sum + WordOf(order, c0, data[off])), acc, true)
    ensures mlen0 != -1 && (addr + off) % 2 == 0 ==> Carried(order, data, off, Min(len0, |data| - off), acc0, acc, true)
    ensures mlen0 != -1 && (addr + off) % 2 == 1 && |data| == off + 1 ==> ShiftedOnly(data, off, acc0, acc, c)
    ensures Canon(acc.sum + Pending(order, mlen, c))
         == Canon(acc0.sum + Pending(order, mlen0, c0) + Weigh(order, Phase(n), data[off..off + (len0 - len)]))
  {
    hide Canon, Weigh, Unrolled;
    if mlen0 == -1 {
      len, mlen, c, acc := AddAfterHeld(order, data, addr, off, len0, c0, acc0, n);
    } else {
      len, mlen, c, acc := AddClipped(order, data, addr, off, len0, c0, acc0, n);
    }
  }

  /** Lines 145-159: the first byte of the buffer completes a word begun in the last one. */
  method AddAfterHeld(order: ByteOrder, data: seq<Byte>, addr: nat, off: nat, len0: nat,
                      c0: Byte, acc0: Accumulator, ghost n: nat)
    returns (len: nat, mlen: int, c: Byte, acc: Accumulator)
    requires off < |data| && 0 < len0 && n + len0 <= 0xFFFF && Phase(n) == 1
    requires Within(acc0, n)
    ensures len == len0 - Min(len0, |data| - off)
    ensures -2 <= mlen <= 0 && (mlen == -1 <==> Phase(n + (len0 - len)) == 1)
    ensures Within(acc, n + (len0 - len)) && (mlen == -1 ==> acc.sum <= 0xFFFF * 0x100)
    ensures acc.peak >= acc0.peak
    ensures (addr + off) % 2 == 1 ==>
      Carried(order, data, off + 1, Min(len0, |data| - off) - 1,
              acc0.(sum := acc0.sum + WordOf(order, c0, data[off])), acc, true)
    ensures Canon(acc.sum + Pending(order, mlen, c))
         == Canon(acc0.sum + Pending(order, -1, c0) + Weigh(order, 1, data[off..off + (len0 - len)]))
  {
    hide Canon, Weigh, Unrolled;
    ghost var end := off + Min(len0, |data| - off);
    WeighFirst(order, data, off, end);
    acc := AddHeld(order, c0, data[off], acc0, n - 1);
    ghost var sum := acc.sum;
    assert sum + Weigh(order, 0, data[off + 1..end])
        == acc0.sum + Pending(order, -1, c0) + Weigh(order, 1, data[off..end]);
    hide Pending, WordOf, Weight;
    len, mlen, c, acc := AddClipped(order, data, addr, off + 1, len0 - 1, c0, acc, n + 1);
    assert off + (len0 - len) == end;
  }

  /** Lines 164-220: no more than `len0` of the bytes from `w` on. */
  method AddClipped(order: ByteOrder, data: seq<Byte>, addr: nat, w: nat, len0: nat,
                    c0: Byte, acc0: Accumulator, ghost n: nat)
    returns (len: nat, mlen: int, c: Byte, acc: Accumulator)
    requires w <= |data| && n + len0 <= 0xFFFF && Phase(n) == 0
    requires Within(acc0, n)
    ensures len == len0 - Min(len0, |data| - w)
    ensures -2 <= mlen <= 0 && (mlen == -1 <==> Phase(len0 - len) == 1)
    ensures Within(acc, n + (len0 - len)) && (mlen == -1 ==> acc.sum <= 0xFFFF * 0x100)
    ensures acc.peak >= acc0.peak
    ensures (addr + w) % 2 == 0 ==> Carried(order, data, w, Min(len0, |data| - w), acc0, acc, true)
    ensures (addr + w) % 2 == 1 && |data| == w + 1 && len0 > 0 ==> ShiftedOnly(data, w, acc0, acc, c)
    ensures Canon(acc.sum + Pending(order, mlen, c)) == Canon(acc0.sum + Weigh(order, 0, data[w..w + (len0 - len)]))
  {
    hide Canon, Weigh, Unrolled;
    mlen := |data| - w;
    if len0 < mlen {
      mlen := len0;
    }
    len := len0 - mlen;
    mlen, c, acc := AddRun(order, data, addr, w, mlen, c0, acc0, n);
  }

  lemma WeighFirst(order: ByteOrder, data: seq<Byte>, off: nat, end: nat)
    requires off < end <= |data|
    ensures Weigh(order, 1, data[off..end]) == Weight(order, 1) * data[off] + Weigh(order, 0, data[off + 1..end])
  {
    assert data[off..end][1..] == data[off + 1..end];
  }

  // ----- the pseudo header

  /** htons, tn_net/tn_net_types.h:55-82, followed by the conversion to a 16-bit field. */
  function Htons(order: ByteOrder, v: nat): Word {
    match order
    case LittleEndian => v % 0x100 * 0x100 + v / 0x100 % 0x100
    case BigEndian => v % 0x1_0000
  }

  /** struct ipovly (tn_net/tn_ip.h:197-206) as filled in by lines 120-124: nine zero bytes,
      the protocol, the length in network order, the two addresses of the IP header. */
  function PseudoHeader(order: ByteOrder, header: seq<Byte>, nxt: Byte, len: nat): (s: seq<Byte>)
    requires |header| >= 20
    ensures |s| == 20
  {
    var length := Stored(order, Htons(order, len));
    [0, 0, 0, 0, 0, 0, 0, 0, 0, nxt, length.0, length.1] + header[12..20]
  }

  /** What the pseudo header adds up to: protocol, length and the two addresses, bytes 12 to
      19 of the IP header. */
  lemma PseudoHeaderSum(order: ByteOrder, header: seq<Byte>, nxt: Byte, len: nat)
    requires |header| >= 20 && len <= 0xFFFF
    ensures Weigh(order, 0, PseudoHeader(order, header, nxt, len))
         == WordOf(order, 0, nxt) + WordOf(order, len / 0x100, len % 0x100)
            + WordOf(order, header[12], header[13]) + WordOf(order, header[14], header[15])
            + WordOf(order, header[16], header[17]) + WordOf(order, header[18], header[19])
  {
    hide Weigh, WordOf, Stored, Htons;
    StoredLength(order, len);
    var h, zeros: seq<Byte> := header, seq(8, _ => 0);
    var words := [h[12], h[13], h[14], h[15], h[16], h[17], h[18], h[19]];
    var front: seq<Byte> := [0, nxt, len / 0x100, len % 0x100];
    assert h[12..20] == words;
    assert PseudoHeader(order, h, nxt, len) == zeros + (front + words);
    WeighZeros(order, 0, 8);
    WeighAppend(order, 0, zeros, front + words);
    WeighAppend(order, 0, front, words);
    WeighTwoWords(order, front);
    WeighAppend(order, 0, words[..4], words[4..]);
    WeighTwoWords(order, words[..4]);
    WeighTwoWords(order, words[4..]);
    assert words == words[..4] + words[4..];
  }

  lemma WeighTwoWords(order: ByteOrder, s: seq<Byte>)
    requires |s| == 4
    ensures Weigh(order, 0, s) == WordOf(order, s[0], s[1]) + WordOf(order, s[2], s[3])
  {
    hide Weigh, WordOf;
    assert s == [s[0], s[1]] + [s[2], s[3]];
    WeighAppend(order, 0, [s[0], s[1]], [s[2], s[3]]);
    WeighWord(order, s[0], s[1]);
    WeighWord(order, s[2], s[3]);
  }

  /** What the caller must provide: a positive offset and a large enough first buffer when a
      pseudo header is wanted (the two panics), and a length an IP packet can have. */
  ghost predicate Accepts(m: Chain, nxt: Byte, off: nat, len: nat) {
    && len <= 0xFFFF
    && (nxt != 0 ==> off >= 20 && m.Mbuf? && |m.data| >= 20)
  }

  /** The bytes the checksum covers. */
  function Covered(order: ByteOrder, m: Chain, nxt: Byte, off: nat, len: nat): seq<Byte>
    requires Accepts(m, nxt, off, len)
  {
    (if nxt != 0 then PseudoHeader(order, m.data, nxt, len) else []) + Take(len, Drop(off, Flatten(m)))
  }

  /** Lines 127-128: the ten words of the pseudo header. */
  method AddPseudoHeader(order: ByteOrder, u: seq<Byte>) returns (acc: Accumulator)
    requires |u| == 20
    ensures Within(acc, 0) && acc.sum == Weigh(order, 0, u)
  {
    var acc0 := Accumulator(0, 0);
    AddedNone(order, u, 0, acc0);
    acc := AddFour(order, u, 0, 0, acc0, acc0);
    acc := AddFour(order, u, 0, 8, acc0, acc);
    acc := AddWord(order, u, 0, 16, acc0, acc);
    acc := AddWord(order, u, 0, 18, acc0, acc);
    assert u[0..20] == u;
  }

  // ----- in4_cksum

  /** The payload still to be read from offset `off` of the buffer `m`. */
  function Rest(m: Chain, off: nat, len: nat): seq<Byte> {
    Take(len, Drop(off, Flatten(m)))
  }

  /** Lines 132-138: skip the leading `off0` bytes. */
  method SkipOffset(m0: Chain, off0: nat) returns (m: Chain, off: nat)
    ensures Drop(off, Flatten(m)) == Drop(off0, Flatten(m0))
    ensures off > 0 && m.Mbuf? ==> off < |m.data|
    ensures m0.Mbuf? && 0 < off0 == |m0.data| ==> m == m0.next && off == 0
  {
    m, off := m0, off0;
    while m.Mbuf? && off > 0
      invariant Drop(off, Flatten(m)) == Drop(off0, Flatten(m0))
      invariant m0.Mbuf? && 0 < off0 == |m0.data| ==> (m == m0 && off == off0) || (m == m0.next && off == 0)
      decreases m
    {
      if |m.data| > off {
        break;
      }
      DropNext(m, off);
      off := off - |m.data|;
      m := m.next;
    }
  }

  // ----- where the signed sum overflows

  function Full(n: nat): seq<Byte> {
    seq(n, _ => 0xFF)
  }

  /** Three buffers of 65026 bytes, all 0xFF: one byte and 32761 bytes at odd addresses, and
      32264 at an even one. */
  ghost predicate Heavy(m: Chain) {
    && m.Mbuf? && m.data == Full(1) && m.addr % 2 == 1
    && m.next.Mbuf? && m.next.data == Full(32761) && m.next.addr % 2 == 1
    && m.next.next.Mbuf? && m.next.next.data == Full(32264) && m.next.next.addr % 2 == 0
  }

  /** Such buffers come first, and the sum before them is a positive multiple of 65535. */
  ghost predicate Bursts(m: Chain, off: nat, len: nat, acc: Accumulator) {
    Heavy(m) && off == 0 && len >= 65026 && Canon(acc.sum) == 0xFFFF
  }

  /** On the way through them: the sum is shifted and left so by the first, both detours of the
      other two are avoided, and nothing is folded any more. */
  ghost predicate Surging(m0: Chain, m: Chain, off: nat, n: nat, mlen: int, c: Byte, acc: Accumulator) {
    || acc.peak > INT_MAX
    || (Heavy(m0) && off == 0 &&
         if n == 0 then m == m0 && mlen == 0 && Canon(acc.sum) == 0xFFFF
         else if n == 1 then m == m0.next && mlen == -1 && c == 0xFF && acc.sum == 0xFFFF * 0x100
         else n == 32762 && m == m0.next.next && mlen != -1 && acc.sum == 0xFFFF * (0x101 + 16380))
  }

  lemma {:induction false} WeighFull(order: ByteOrder, n: nat)
    ensures Weigh(order, 0, Full(2 * n)) == n * 0xFFFF
  {
    if n > 0 {
      WeighFull(order, n - 1);
      assert Full(2 * n) == Full(2 * (n - 1)) + [0xFF, 0xFF];
      WeighAppend(order, 0, Full(2 * (n - 1)), [0xFF, 0xFF]);
      WeighWord(order, 0xFF, 0xFF);
    }
  }

  /** One more buffer on the way. */
  lemma SurgeNext(order: ByteOrder, m0: Chain, m: Chain, off: nat, len: nat, n: nat, mlen0: int, c0: Byte,
                  acc0: Accumulator, mlen: int, c: Byte, acc: Accumulator)
    requires m.Mbuf? && off < |m.data|
    requires acc.peak >= acc0.peak && (mlen == -1 <==> Phase(n + Min(len, |m.data| - off)) == 1) && 0 < len
    requires mlen0 == -1 && (m.addr + off) % 2 == 1 ==>
      Carried(order, m.data, off + 1, Min(len, |m.data| - off) - 1,
              acc0.(sum := acc0.sum + WordOf(order, c0, m.data[off])), acc, true)
    requires mlen0 != -1 && (m.addr + off) % 2 == 0 ==>
      Carried(order, m.data, off, Min(len, |m.data| - off), acc0, acc, true)
    requires mlen0 != -1 && (m.addr + off) % 2 == 1 && |m.data| == off + 1 ==> ShiftedOnly(m.data, off, acc0, acc, c)
    ensures n + len >= 65026 && Surging(m0, m, off, n, mlen0, c0, acc0) ==>
      Surging(m0, m.next, 0, n + Min(len, |m.data| - off), mlen, c, acc)
  {
    if acc0.peak <= INT_MAX && n + len >= 65026 && Surging(m0, m, off, n, mlen0, c0, acc0) {
      hide Weigh, Canon, Unrolled;
      if n == 0 {
        CanonResidue(0xFFFF);
        CanonShift(acc0.sum, 0xFFFF);
        CanonResidue(0x100 * 0xFFFF);
      } else if n == 1 {
        WeighFull(order, 16380);
        UnrolledIs(32760, 4095);
        assert m.data[1..32761] == Full(32760);
      } else {
        WeighFull(order, 16132);
        UnrolledIs(32264, 4033);
        assert m.data[0..32264] == Full(32264);
      }
    }
  }

  /** Lines 140-221: the payload, buffer by buffer. */
  method AddPayload(order: ByteOrder, m0: Chain, off0: nat, len0: nat, acc0: Accumulator)
    returns (mlen: int, c: Byte, acc: Accumulator)
    requires off0 > 0 && m0.Mbuf? ==> off0 < |m0.data|
    requires len0 <= 0xFFFF && Within(acc0, 0)
    ensures var payload := Rest(m0, off0, len0);
      && |payload| <= len0
      && (mlen == -1 <==> Phase(|payload|) == 1)
      && Within(acc, |payload|) && (mlen == -1 ==> acc.sum <= 0xFFFF * 0x100)
      && Canon(acc.sum + Pending(order, mlen, c)) == Canon(acc0.sum + Weigh(order, 0, payload))
    ensures Bursts(m0, off0, len0, acc0) ==> acc.peak > INT_MAX
  {
    hide Loaded, Rest, Weigh, Canon, Within, Bursts, Pending, Phase;
    var m, off: nat, len: nat := m0, off0, len0;
    mlen, c, acc := 0, 0, acc0;
    ghost var done: seq<Byte> := [];
    LoadedNone(order, m0, off0, len0, acc0);
    while m.Mbuf? && len != 0
      invariant Loaded(order, m0, off0, len0, acc0, m, off, len, mlen, c, acc, done)
      decreases m
    {
      len, mlen, c, acc, done := LoadNext(order, m0, off0, len0, acc0, m, off, len, mlen, c, acc, done);
      off := 0;
      m := m.next;
    }
    LoadedAll(order, m0, off0, len0, acc0, m, off, len, mlen, c, acc, done);
  }

  /** The payload bytes `done` have been added, all but the one that waits. */
  ghost predicate Loaded(order: ByteOrder, m0: Chain, off0: nat, len0: nat, acc0: Accumulator,
                         m: Chain, off: nat, len: nat, mlen: int, c: Byte, acc: Accumulator, done: seq<Byte>)
  {
    && (off > 0 && m.Mbuf? ==> off < |m.data|)
    && done + Rest(m, off, len) == Rest(m0, off0, len0) && |done| + len == len0 <= 0xFFFF
    && -2 <= mlen <= 0 && (mlen == -1 <==> Phase(|done|) == 1)
    && Within(acc, |done|) && (mlen == -1 ==> acc.sum <= 0xFFFF * 0x100)
    && Canon(acc.sum + Pending(order, mlen, c)) == Canon(acc0.sum + Weigh(order, 0, done))
    && (Bursts(m0, off0, len0, acc0) ==> Surging(m0, m, off, |done|, mlen, c, acc))
  }

  lemma LoadedNone(order: ByteOrder, m0: Chain, off0: nat, len0: nat, acc0: Accumulator)
    requires off0 > 0 && m0.Mbuf? ==> off0 < |m0.data|
    requires len0 <= 0xFFFF && Within(acc0, 0)
    ensures Loaded(order, m0, off0, len0, acc0, m0, off0, len0, 0, 0, acc0, [])
  {
    WeighNone(order);
    hide Weigh, Canon, Rest, Within;
    assert [] + Rest(m0, off0, len0) == Rest(m0, off0, len0);
  }

  lemma LoadedAll(order: ByteOrder, m0: Chain, off0: nat, len0: nat, acc0: Accumulator,
                  m: Chain, off: nat, len: nat, mlen: int, c: Byte, acc: Accumulator, done: seq<Byte>)
    requires Loaded(order, m0, off0, len0, acc0, m, off, len, mlen, c, acc, done) && (m.Nil? || len == 0)
    ensures done == Rest(m0, off0, len0) && |done| <= len0 && (mlen == -1 <==> Phase(|done|) == 1)
    ensures Within(acc, |done|) && (mlen == -1 ==> acc.sum <= 0xFFFF * 0x100)
    ensures Canon(acc.sum + Pending(order, mlen, c)) == Canon(acc0.sum + Weigh(order, 0, done))
    ensures Bursts(m0, off0, len0, acc0) ==> acc.peak > INT_MAX
  {
    hide Canon, Weigh, Pending, Surging, Bursts, Within, Phase, Rest, Heavy, Full;
    RestEnds(m, off, len);
    assert done + [] == done;
    BurstEnds(m0, off0, len0, acc0, m, off, |done|, mlen, c, acc);
  }

  /** The chain does not end before the third of the heavy buffers has been added. */
  lemma BurstEnds(m0: Chain, off0: nat, len0: nat, acc0: Accumulator,
                  m: Chain, off: nat, n: nat, mlen: int, c: Byte, acc: Accumulator)
    requires Bursts(m0, off0, len0, acc0) && Surging(m0, m, off, n, mlen, c, acc) ==> m.Nil? || n == len0
    ensures Bursts(m0, off0, len0, acc0) && Surging(m0, m, off, n, mlen, c, acc) ==> acc.peak > INT_MAX
  {
    hide Full, Canon;
  }

  method LoadNext(order: ByteOrder, ghost m0: Chain, ghost off0: nat, ghost len0: nat, ghost acc0: Accumulator,
                  m: Chain, off: nat, len1: nat, mlen1: int, c1: Byte, acc1: Accumulator, ghost done1: seq<Byte>)
    returns (len: nat, mlen: int, c: Byte, acc: Accumulator, ghost done: seq<Byte>)
    requires Loaded(order, m0, off0, len0, acc0, m, off, len1, mlen1, c1, acc1, done1) && m.Mbuf? && len1 != 0
    ensures Loaded(order, m0, off0, len0, acc0, m.next, 0, len, mlen, c, acc, done)
  {
    hide Canon, Weigh, Surging, Pending, Rest, Within, Phase, Heavy;
    ghost var chunk;
    len, mlen, c, acc, chunk := AddNext(order, m, off, len1, mlen1, c1, acc1, |done1|, m0);
    done := done1 + chunk;
    WeighedNext(order, acc0.sum, done1, chunk, acc1.sum + Pending(order, mlen1, c1), acc.sum + Pending(order, mlen, c));
    assert done1 + (chunk + Rest(m.next, 0, len)) == done1 + chunk + Rest(m.next, 0, len);
  }

  /** Lines 142-220: one mbuf of the chain, which may be empty. */
  method AddNext(order: ByteOrder, m: Chain, off: nat, len0: nat, mlen0: int, c0: Byte, acc0: Accumulator,
                 ghost n: nat, ghost m0: Chain)
    returns (len: nat, mlen: int, c: Byte, acc: Accumulator, ghost chunk: seq<Byte>)
    requires m.Mbuf? && (off > 0 ==> off < |m.data|) && 0 < len0 && n + len0 <= 0xFFFF
    requires -2 <= mlen0 <= 0 && (mlen0 == -1 <==> Phase(n) == 1)
    requires Within(acc0, n) && (mlen0 == -1 ==> acc0.sum <= 0xFFFF * 0x100)
    ensures len == len0 - |chunk| && chunk + Rest(m.next, 0, len) == Rest(m, off, len0)
    ensures -2 <= mlen <= 0 && (mlen == -1 <==> Phase(n + |chunk|) == 1)
    ensures Within(acc, n + |chunk|) && (mlen == -1 ==> acc.sum <= 0xFFFF * 0x100)
    ensures Canon(acc.sum + Pending(order, mlen, c))
         == Canon(acc0.sum + Pending(order, mlen0, c0) + Weigh(order, Phase(n), chunk))
    ensures n + len0 >= 65026 && Surging(m0, m, off, n, mlen0, c0, acc0) ==>
      Surging(m0, m.next, 0, n + |chunk|, mlen, c, acc)
  {
    hide Canon, Weigh, Surging, Pending, Rest, Within, Phase, Heavy;
    if |m.data| == 0 {
      len, mlen, c, acc, chunk := len0, mlen0, c0, acc0, [];
      SkipEmpty(order, m, off, len, mlen, c, acc, n, m0);
    } else {
      len, mlen, c, acc, chunk := AddFilled(order, m, off, len0, mlen0, c0, acc0, n, m0);
    }
  }

  lemma SkipEmpty(order: ByteOrder, m: Chain, off: nat, len: nat, mlen: int, c: Byte, acc: Accumulator,
                  n: nat, m0: Chain)
    requires m.Mbuf? && m.data == [] && off == 0
    ensures [] + Rest(m.next, 0, len) == Rest(m, off, len) && Weigh(order, Phase(n), []) == 0
    ensures Surging(m0, m, off, n, mlen, c, acc) ==> Surging(m0, m.next, 0, n, mlen, c, acc)
  {
    assert Flatten(m) == Flatten(m.next);
    assert |Full(1)| == 1 && |Full(32761)| == 32761 && |Full(32264)| == 32264;
  }

  method AddFilled(order: ByteOrder, m: Chain, off: nat, len0: nat, mlen0: int, c0: Byte, acc0: Accumulator,
                   ghost n: nat, ghost m0: Chain)
    returns (len: nat, mlen: int, c: Byte, acc: Accumulator, ghost chunk: seq<Byte>)
    requires m.Mbuf? && off < |m.data| && 0 < len0 && n + len0 <= 0xFFFF
    requires -2 <= mlen0 <= 0 && (mlen0 == -1 <==> Phase(n) == 1) && Within(acc0, n)
    ensures len == len0 - |chunk| && chunk + Rest(m.next, 0, len) == Rest(m, off, len0)
    ensures -2 <= mlen <= 0 && (mlen == -1 <==> Phase(n + |chunk|) == 1)
    ensures Within(acc, n + |chunk|) && (mlen == -1 ==> acc.sum <= 0xFFFF * 0x100)
    ensures Canon(acc.sum + Pending(order, mlen, c))
         == Canon(acc0.sum + Pending(order, mlen0, c0) + Weigh(order, Phase(n), chunk))
    ensures n + len0 >= 65026 && Surging(m0, m, off, n, mlen0, c0, acc0) ==>
      Surging(m0, m.next, 0, n + |chunk|, mlen, c, acc)
  {
    hide Canon, Weigh, Carried, ShiftedOnly, Surging, Pending, Rest, Within, Phase, Heavy;
    len, mlen, c, acc := AddBuffer(order, m.data, m.addr, off, len0, mlen0, c0, acc0, n);
    chunk := m.data[off..off + (len0 - len)];
    RestNext(m, off, len0, len);
    SurgeNext(order, m0, m, off, len0, n, mlen0, c0, acc0, mlen, c, acc);
  }

  /** What is read next weighs as it does at its place in the payload. */
  lemma WeighedNext(order: ByteOrder, sum0: nat, done: seq<Byte>, chunk: seq<Byte>, sum1: nat, sum: nat)
    requires Canon(sum1) == Canon(sum0 + Weigh(order, 0, done))
    requires Canon(sum) == Canon(sum1 + Weigh(order, Phase(|done|), chunk))
    ensures Canon(sum) == Canon(sum0 + Weigh(order, 0, done + chunk))
  {
    hide Canon, Weigh;
    WeighAppend(order, 0, done, chunk);
    CanonAdd(sum1, sum0 + Weigh(order, 0, done), Weigh(order, Phase(|done|), chunk));
  }

  lemma RestEnds(m: Chain, off: nat, len: nat)
    requires m.Nil? || len == 0
    ensures Rest(m, off, len) == []
  {
  }

  lemma RestNext(m: Chain, off: nat, len0: nat, len: nat)
    requires m.Mbuf? && off < |m.data| && len == len0 - Min(len0, |m.data| - off)
    ensures m.data[off..off + (len0 - len)] + Rest(m.next, 0, len) == Rest(m, off, len0)
  {
    TakeSplit(m, off, len0);
  }

  /** A pseudo header that adds up to a positive multiple of 65535, in front of such buffers. */
  ghost predicate Overflows(order: ByteOrder, m: Chain, nxt: Byte, off: nat, len: nat) {
    && nxt != 0 && m.Mbuf? && |m.data| == off >= 20 && Heavy(m.next) && 65026 <= len <= 0xFFFF
    && Canon(Weigh(order, 0, PseudoHeader(order, m.data, nxt, len))) == 0xFFFF
  }

  /** The checksum, word by word. */
  lemma CheckedWords(order: ByteOrder, m: Chain, nxt: Byte, off: nat, len: nat)
    requires Accepts(m, nxt, off, len)
    ensures var r, payload := Checksum(order, Covered(order, m, nxt, off, len)), Weigh(order, 0, Rest(m, off, len));
      if nxt == 0 then r == 0xFFFF - Canon(payload)
      else r == 0xFFFF - Canon(WordOf(order, 0, nxt) + WordOf(order, len / 0x100, len % 0x100)
                               + WordOf(order, m.data[12], m.data[13]) + WordOf(order, m.data[14], m.data[15])
                               + WordOf(order, m.data[16], m.data[17]) + WordOf(order, m.data[18], m.data[19])
                               + payload)
  {
    hide Canon, Weigh, WordOf, PseudoHeader, Flatten, Take, Drop, OnesSum, Words;
    OnesSumIsWeigh(order, Covered(order, m, nxt, off, len));
    if nxt != 0 {
      PseudoHeaderSum(order, m.data, nxt, len);
      WeighAppend(order, 0, PseudoHeader(order, m.data, nxt, len), Rest(m, off, len));
    } else {
      assert Covered(order, m, nxt, off, len) == Rest(m, off, len);
    }
  }

  /** The value returned is the checksum of section 1 of RFC 1071 over the pseudo header, if
      any, and the payload bytes from `off` on, as many of `len` as the chain holds. */
  method In4Cksum(order: ByteOrder, m0: Chain, nxt: Byte, off0: nat, len: nat) returns (r: Word, peak: nat)
    requires Accepts(m0, nxt, off0, len)
    ensures r == Checksum(order, Covered(order, m0, nxt, off0, len))
    ensures nxt == 0 ==> r == 0xFFFF - Canon(Weigh(order, 0, Rest(m0, off0, len)))
    ensures nxt != 0 ==> var h := m0.data;
      r == 0xFFFF - Canon(WordOf(order, 0, nxt) + WordOf(order, len / 0x100, len % 0x100)
                          + WordOf(order, h[12], h[13]) + WordOf(order, h[14], h[15])
                          + WordOf(order, h[16], h[17]) + WordOf(order, h[18], h[19])
                          + Weigh(order, 0, Rest(m0, off0, len)))
    ensures peak <= Bound(if len < 2 then 2 else len)
    ensures len <= 65025 ==> peak <= INT_MAX
    ensures Overflows(order, m0, nxt, off0, len) ==> peak > INT_MAX
  {
    hide Canon, Weigh, PseudoHeader, Flatten, Take, Drop, OnesSum, Words;
    var acc := Accumulator(0, 0);
    ghost var header := [];
    WeighNone(order);
    if nxt != 0 {
      var u := PseudoHeader(order, m0.data, nxt, len);
      acc := AddPseudoHeader(order, u);
      header := u;
    }
    var m, off := SkipOffset(m0, off0);
    ghost var payload := Rest(m, off, len);
    var mlen, c;
    ghost var t: nat := Weigh(order, 0, header) + Weigh(order, 0, payload);
    mlen, c, acc := AddPayload(order, m, off, len, acc);
    if mlen == -1 {
      acc := AddHeld(order, c, 0, acc, |payload| - 1);
    }
    assert Canon(acc.sum) == Canon(t);
    assert Checksum(order, header + payload) == 0xFFFF - Canon(t) by {
      WeighAppend(order, 0, header, payload);
      OnesSumIsWeigh(order, header + payload);
    }
    r, peak := Complement(acc);
    CheckedWords(order, m0, nxt, off0, len);
  }

  /** The folded and complemented sum is returned. */
  method Complement(acc0: Accumulator) returns (r: Word, peak: nat)
    requires acc0.Valid()
    ensures r == 0xFFFF - Canon(acc0.sum)
    ensures peak == acc0.peak
  {
    ReduceIsCanon(acc0);
    var acc := acc0.Reduce();
    r, peak := 0xFFFF - acc.sum, acc.peak;
  }

  // ----- a packet that overflows

  lemma {:induction false} WeighZeros(order: ByteOrder, phase: int, n: nat)
    requires 0 <= phase <= 1
    ensures Weigh(order, phase, seq(n, _ => 0)) == 0
    decreases n
  {
    if n > 0 {
      var s: seq<Byte> := seq(n, _ => 0);
      WeighZeros(order, 1 - phase, n - 1);
      assert s[1..] == seq(n - 1, _ => 0);
    }
  }

  /** The first word of a source address with which the pseudo header of protocol 1 adds up to
      a multiple of 65535. */
  function FillUp(len: nat): Word
    requires len <= 0xFFFF
  {
    if len == 0xFFFF then 0xFFFE else 0xFFFE - len
  }

  /** An IP header with that source address. */
  function HeaderFor(len: nat): seq<Byte>
    requires len <= 0xFFFF
  {
    [0, 0, 0, 0, 0, 0, 0, 0, 0, 0, 0, 0, FillUp(len) / 0x100, FillUp(len) % 0x100, 0, 0, 0, 0, 0, 0]
  }

  lemma StoredLength(order: ByteOrder, len: nat)
    requires len <= 0xFFFF
    ensures Stored(order, Htons(order, len)) == (len / 0x100, len % 0x100)
  {
    var hi, lo := len / 0x100, len % 0x100;
    assert hi % 0x100 == hi;
    if order == LittleEndian {
      Halves(lo, hi);
    }
  }

  lemma Halves(hi: Byte, lo: Byte)
    ensures (hi * 0x100 + lo) / 0x100 == hi && (hi * 0x100 + lo) % 0x100 == lo
  {
  }

  lemma PseudoHeaderFor(order: ByteOrder, len: nat)
    requires len <= 0xFFFF
    ensures PseudoHeader(order, HeaderFor(len), 1, len)
         == seq(8, _ => 0) + ([0, 1] + ([len / 0x100, len % 0x100]
              + ([FillUp(len) / 0x100, FillUp(len) % 0x100] + seq(6, _ => 0))))
  {
    StoredLength(order, len);
    hide Stored, Htons, FillUp;
    assert HeaderFor(len)[12..20] == [FillUp(len) / 0x100, FillUp(len) % 0x100] + seq(6, _ => 0);
  }

  lemma FullHeader(order: ByteOrder, len: nat)
    requires 65026 <= len <= 0xFFFF
    ensures Canon(Weigh(order, 0, PseudoHeader(order, HeaderFor(len), 1, len))) == 0xFFFF
  {
    hide PseudoHeader, Weigh, Canon;
    PseudoHeaderFor(order, len);
    var f := FillUp(len);
    var front, back: seq<Byte> := seq(8, _ => 0), seq(6, _ => 0);
    var proto, length, addr: seq<Byte> := [0, 1], [len / 0x100, len % 0x100], [f / 0x100, f % 0x100];
    var rest1 := addr + back;
    var rest2 := length + rest1;
    var rest3 := proto + rest2;
    WeighZeros(order, 0, 8);
    WeighZeros(order, 0, 6);
    WeighAppend(order, 0, front, rest3);
    WeighAppend(order, 0, proto, rest2);
    WeighAppend(order, 0, length, rest1);
    WeighAppend(order, 0, addr, back);
    WeighWord(order, 0, 1);
    WeighWord(order, len / 0x100, len % 0x100);
    WeighWord(order, f / 0x100, f % 0x100);
    WordsFillUp(order, len);
    CanonResidue(0xFFFF);
    CanonResidue(2 * 0xFFFF);
  }

  lemma WordsFillUp(order: ByteOrder, len: nat)
    requires 65026 <= len <= 0xFFFF
    ensures var f := FillUp(len);
      WordOf(order, 0, 1) + WordOf(order, len / 0x100, len % 0x100) + WordOf(order, f / 0x100, f % 0x100)
        in {0xFFFF, 2 * 0xFFFF}
  {
  }

  /** A buffer in front of `n` bytes. */
  method Longer(data: seq<Byte>, addr: nat, next: Chain, n: nat) returns (m: Chain)
    requires |Flatten(next)| == n || (next.Nil? && n == 0)
    ensures m == Mbuf(data, addr, next) && |Flatten(m)| == |data| + n
  {
    m := Mbuf(data, addr, next);
  }

  /** For every payload length from 65026 bytes on there is a packet whose signed sum overflows;
      no buffer of it is longer than the field m_len can say. */
  method SumOverflows(order: ByteOrder, len: nat) returns (m: Chain, r: Word, peak: nat)
    requires 65026 <= len <= 0xFFFF
    ensures peak > INT_MAX && |Flatten(m)| == 20 + len
  {
    FullHeader(order, len);
    hide Canon, Weigh, PseudoHeader, Flatten;
    m := Longer(Full(len - 65026), 0, Nil, 0);
    m := Longer(Full(32264), 0, m, len - 65026);
    m := Longer(Full(32761), 1, m, len - 32762);
    m := Longer(Full(1), 1, m, len - 1);
    m := Longer(HeaderFor(len), 0, m, len);
    r, peak := In4Cksum(order, m, 1, 20, len);
  }
}
