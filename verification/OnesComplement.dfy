/** The 16-bit one's complement sum of section 1 of RFC 1071, and the integer
    arithmetic by which tn_net/in4_cksum.c computes it.

    The standard adds 16-bit words with end-around carry.  The code adds them in a
    32-bit integer and folds that integer only now and then, so everything the code
    keeps true is a statement about integers up to one relation: same residue modulo
    65535, and zero exactly when the other is zero.  `Canon` picks the representative
    that the end-around-carry sum yields. */
module OnesComplement {

  import opened Machine

  datatype ByteOrder = LittleEndian | BigEndian

  /** The 16-bit word the CPU reads from two consecutive bytes of memory. */
  function WordOf(order: ByteOrder, b0: Byte, b1: Byte): Word {
    match order
    case LittleEndian => b0 + 0x100 * b1
    case BigEndian => 0x100 * b0 + b1
  }

  /** The two bytes, in memory order, that a 16-bit word occupies. */
  function Stored(order: ByteOrder, w: Word): (Byte, Byte) {
    match order
    case LittleEndian => (w % 0x100, w / 0x100)
    case BigEndian => (w / 0x100, w % 0x100)
  }

  // ----- the specification: section 1 of RFC 1071

  /** Adjacent bytes paired to form 16-bit words; an odd last byte is padded with zero. */
  function Words(order: ByteOrder, s: seq<Byte>): seq<Word> {
    if s == [] then []
    else if |s| == 1 then [WordOf(order, s[0], 0)]
    else [WordOf(order, s[0], s[1])] + Words(order, s[2..])
  }

  /** Addition of 16-bit words with end-around carry. */
  function OnesAdd(a: Word, b: Word): Word {
    if a + b > 0xFFFF then a + b - 0xFFFF else a + b
  }

  function OnesSum(ws: seq<Word>): Word {
    if ws == [] then 0 else OnesAdd(ws[0], OnesSum(ws[1..]))
  }

  /** The checksum: the one's complement of the one's complement sum. */
  function Checksum(order: ByteOrder, s: seq<Byte>): Word {
    0xFFFF - OnesSum(Words(order, s))
  }

  // ----- integers up to end-around carry

  /** The 16-bit value that an integer sum of words folds to. */
  function Canon(x: nat): Word {
    if x == 0 then 0 else (x - 1) % 0xFFFF + 1
  }

  lemma CanonAdd(a: nat, b: nat, c: nat)
    requires Canon(a) == Canon(b)
    ensures Canon(a + c) == Canon(b + c)
  {
    hide Canon;
    CanonIff(a, b);
    CanonIff(a + c, b + c);
  }

  /** What equal representatives mean: same residue, and zero only together. */
  lemma CanonIff(a: nat, b: nat)
    ensures Canon(a) == Canon(b) <==> a % 0xFFFF == b % 0xFFFF && (a == 0 <==> b == 0)
  {
    CanonResidue(a);
    CanonResidue(b);
  }

  lemma CanonResidue(a: nat)
    ensures Canon(a) % 0xFFFF == a % 0xFFFF
    ensures Canon(a) == 0 <==> a == 0
    ensures a > 0 ==> Canon(a) == if a % 0xFFFF == 0 then 0xFFFF else a % 0xFFFF
  {
    if a > 0 {
      var q, r := (a - 1) / 0xFFFF, (a - 1) % 0xFFFF;
      assert a == 0xFFFF * q + r + 1;
    }
  }

  lemma CanonPlus(k: nat, y: nat)
    requires y > 0
    ensures Canon(0xFFFF * k + y) == Canon(y)
  {
    ResidueShift(y - 1, k);
  }

  lemma CanonSmall(w: Word)
    ensures Canon(w) == w
  {
  }

  /** Multiplying by 256 respects the relation: this is what `sum <<= 8` relies on. */
  lemma CanonShift(a: nat, b: nat)
    requires Canon(a) == Canon(b)
    ensures Canon(0x100 * a) == Canon(0x100 * b)
  {
    hide Canon;
    CanonIff(a, b);
    CanonIff(0x100 * a, 0x100 * b);
    var k := a / 0xFFFF - b / 0xFFFF;
    assert a == b + 0xFFFF * k;
    ResidueShift(0x100 * b, 0x100 * k);
  }

  lemma ResidueShift(x: int, k: int)
    ensures (x + 0xFFFF * k) % 0xFFFF == x % 0xFFFF
  {
    var q, r := x / 0xFFFF, x % 0xFFFF;
    assert x + 0xFFFF * k == 0xFFFF * (q + k) + r;
  }

  /** 256 * 256 == 1 modulo 65535: shifting twice changes nothing. */
  lemma CanonShiftTwice(a: nat)
    ensures Canon(0x1_0000 * a) == Canon(a)
  {
    hide Canon;
    CanonIff(0x1_0000 * a, a);
    ResidueShift(a, a);
  }

  lemma OnesAddCanon(a: Word, x: nat)
    ensures OnesAdd(a, Canon(x)) == Canon(a + x)
  {
    CanonResidue(x);
    CanonResidue(a + x);
  }

  // ----- the integer sum of a byte stream

  /** The weight of a byte in its word: `phase` 0 for the first byte of a word, 1 for the second. */
  function Weight(order: ByteOrder, phase: int): int
    requires 0 <= phase <= 1
  {
    if (order == LittleEndian) == (phase == 0) then 1 else 0x100
  }

  /** The integer sum of the bytes of `s`, each with the weight of its position in the
      word stream, when the first of them has the given phase. */
  function Weigh(order: ByteOrder, phase: int, s: seq<Byte>): nat
    requires 0 <= phase <= 1
    decreases |s|
  {
    if s == [] then 0
    else Weight(order, phase) * s[0] + Weigh(order, 1 - phase, s[1..])
  }

  lemma WeighNone(order: ByteOrder)
    ensures Weigh(order, 0, []) == 0
  {
  }

  function Phase(n: int): int { n % 2 }

  lemma {:induction false} WeighAppend(order: ByteOrder, phase: int, s: seq<Byte>, t: seq<Byte>)
    requires 0 <= phase <= 1
    ensures Weigh(order, phase, s + t) == Weigh(order, phase, s) + Weigh(order, Phase(phase + |s|), t)
    decreases |s|
  {
    if s == [] {
      assert s + t == t;
    } else {
      assert (s + t)[1..] == s[1..] + t;
      WeighAppend(order, 1 - phase, s[1..], t);
    }
  }

  lemma WeighWord(order: ByteOrder, b0: Byte, b1: Byte)
    ensures Weigh(order, 0, [b0, b1]) == WordOf(order, b0, b1)
  {
    assert [b0, b1][1..] == [b1];
    assert Weigh(order, 1, [b1]) == Weight(order, 1) * b1;
  }

  /** Reading a stream of bytes one position off, then shifting by 8, weighs every byte as
      if it had been read in place. */
  lemma {:induction false} WeighShift(order: ByteOrder, phase: int, s: seq<Byte>)
    requires 0 <= phase <= 1
    ensures Canon(0x100 * Weigh(order, phase, s)) == Canon(Weigh(order, 1 - phase, s))
    decreases |s|
  {
    if s != [] {
      WeighShift(order, 1 - phase, s[1..]);
      var x, y := Weigh(order, 1 - phase, s[1..]), Weigh(order, phase, s[1..]);
      var u, v := Weight(order, phase) * s[0], Weight(order, 1 - phase) * s[0];
      WeightShift(order, phase, s[0]);
      CanonAdd(0x100 * x, y, 0x100 * u);
      CanonAdd(0x100 * u, v, y);
    }
  }

  lemma WeightShift(order: ByteOrder, phase: int, b: Byte)
    requires 0 <= phase <= 1
    ensures Canon(0x100 * (Weight(order, phase) * b)) == Canon(Weight(order, 1 - phase) * b)
  {
    CanonShiftTwice(b);
  }

  /** The end-around-carry sum of the standard is the folded integer sum. */
  lemma {:induction false} OnesSumIsWeigh(order: ByteOrder, s: seq<Byte>)
    ensures OnesSum(Words(order, s)) == Canon(Weigh(order, 0, s))
    decreases |s|
  {
    hide Canon;
    if s == [] {
      CanonResidue(0);
    } else if |s| == 1 {
      CanonResidue(WordOf(order, s[0], 0));
      assert s == [s[0]] && Words(order, s)[1..] == [];
      assert s[1..] == [];
    } else {
      OnesSumIsWeigh(order, s[2..]);
      assert s == [s[0], s[1]] + s[2..];
      WeighAppend(order, 0, [s[0], s[1]], s[2..]);
      WeighWord(order, s[0], s[1]);
      OnesAddCanon(WordOf(order, s[0], s[1]), Weigh(order, 0, s[2..]));
      assert Words(order, s)[1..] == Words(order, s[2..]);
    }
  }
}
