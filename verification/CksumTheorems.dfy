/** What the checksum is for: the properties that relate several runs of in4_cksum. */
module CksumTheorems {
  import opened Machine
  import opened OnesComplement
  import opened MbufChain
  import opened InCksum

  // ----- the sum and the bytes

  /** The numerical example of section 3 of RFC 1071, in either byte order. */
  lemma Rfc1071Example()
    ensures var s := [0x00, 0x01, 0xF2, 0x03, 0xF4, 0xF5, 0xF6, 0xF7];
      && OnesSum(Words(BigEndian, s)) == 0xDDF2 && OnesSum(Words(LittleEndian, s)) == 0xF2DD
      && Stored(BigEndian, 0xDDF2) == (0xDD, 0xF2) == Stored(LittleEndian, 0xF2DD)
      && Checksum(BigEndian, s) == 0x220D
  {
    hide OnesSum, Words;
    var s: seq<Byte> := [0x00, 0x01, 0xF2, 0x03, 0xF4, 0xF5, 0xF6, 0xF7];
    SumOfFour(BigEndian, s);
    SumOfFour(LittleEndian, s);
  }

  lemma SumOfFour(order: ByteOrder, s: seq<Byte>)
    requires |s| == 8
    ensures OnesSum(Words(order, s)) == Canon(WordOf(order, s[0], s[1]) + WordOf(order, s[2], s[3])
                                              + WordOf(order, s[4], s[5]) + WordOf(order, s[6], s[7]))
  {
    hide Weigh, WordOf, Canon, OnesSum, Words;
    OnesSumIsWeigh(order, s);
    WeighTwoWords(order, s[..4]);
    WeighTwoWords(order, s[4..]);
    WeighAppend(order, 0, s[..4], s[4..]);
    assert s == s[..4] + s[4..];
  }

  /** How many bytes a chain holds, and which is where, buffer by buffer. */
  function Length(m: Chain): nat {
    if m.Nil? then 0 else |m.data| + Length(m.next)
  }

  function ByteAt(m: Chain, i: nat): Byte
    requires i < Length(m)
  {
    if i < |m.data| then m.data[i] else ByteAt(m.next, i - |m.data|)
  }

  lemma {:induction false} FlattenMeaning(m: Chain, i: nat)
    ensures |Flatten(m)| == Length(m)
    ensures i < Length(m) ==> Flatten(m)[i] == ByteAt(m, i)
  {
    if m.Mbuf? {
      FlattenMeaning(m.next, if i < |m.data| then 0 else i - |m.data|);
    }
  }

  /** The payload: as many of `len` bytes as there are from `off` on. */
  lemma RestMeaning(m: Chain, off: nat, len: nat)
    ensures |Rest(m, off, len)| == if Length(m) <= off then 0 else Min(len, Length(m) - off)
    ensures forall i | 0 <= i < |Rest(m, off, len)| :: off + i < Length(m) && Rest(m, off, len)[i] == ByteAt(m, off + i)
  {
    FlattenMeaning(m, 0);
    forall i | 0 <= i < |Rest(m, off, len)|
      ensures off + i < Length(m) && Rest(m, off, len)[i] == ByteAt(m, off + i)
    {
      FlattenMeaning(m, off + i);
    }
  }

  // ----- the partition into buffers does not matter

  lemma CoveredByFlatten(order: ByteOrder, m1: Chain, m2: Chain, nxt: Byte, off: nat, len: nat)
    requires Flatten(m1) == Flatten(m2)
    requires Accepts(m1, nxt, off, len) && Accepts(m2, nxt, off, len)
    ensures Covered(order, m1, nxt, off, len) == Covered(order, m2, nxt, off, len)
  {
    if nxt != 0 {
      assert m1.data[12..20] == Flatten(m1)[12..20];
      assert m2.data[12..20] == Flatten(m2)[12..20];
    }
  }

  /** Two chains with the same bytes get the same checksum, whatever their buffer
      boundaries, empty buffers and data addresses. */
  method ChecksumTwoChains(order: ByteOrder, m1: Chain, m2: Chain, nxt: Byte, off: nat, len: nat)
    returns (r1: Word, r2: Word)
    requires Flatten(m1) == Flatten(m2)
    requires Accepts(m1, nxt, off, len) && Accepts(m2, nxt, off, len)
    ensures r1 == r2
  {
    var peak;
    r1, peak := In4Cksum(order, m1, nxt, off, len);
    r2, peak := In4Cksum(order, m2, nxt, off, len);
    CoveredByFlatten(order, m1, m2, nxt, off, len);
  }

  // ----- byte order independence, section 2(B) of RFC 1071

  function Swap(w: Word): Word { w % 0x100 * 0x100 + w / 0x100 }

  lemma {:induction false} WeighMirror(phase: int, s: seq<Byte>)
    requires 0 <= phase <= 1
    ensures Weigh(LittleEndian, phase, s) == Weigh(BigEndian, 1 - phase, s)
    decreases |s|
  {
    if s != [] {
      WeighMirror(1 - phase, s[1..]);
    }
  }

  lemma CanonSwap(x: nat)
    ensures Canon(0x100 * x) == Swap(Canon(x))
  {
    var w := Canon(x);
    CanonSmall(w);
    CanonShift(x, w);
    CanonSmall(Swap(w));
    assert 0x100 * w == 0xFFFF * (w / 0x100) + Swap(w);
    assert Swap(w) == 0 ==> w == 0;
    hide Canon, Swap;
    if w > 0 {
      CanonPlus(w / 0x100, Swap(w));
    }
  }

  /** The network-order length has the same bytes in memory on either CPU. */
  lemma HtonsOrder(v: nat)
    ensures Stored(LittleEndian, Htons(LittleEndian, v)) == Stored(BigEndian, Htons(BigEndian, v))
  {
    var h, l := v / 0x100 % 0x100, v % 0x100;
    assert v % 0x1_0000 == h * 0x100 + l;
  }

  lemma CoveredOrder(m: Chain, nxt: Byte, off: nat, len: nat)
    requires Accepts(m, nxt, off, len)
    ensures Covered(LittleEndian, m, nxt, off, len) == Covered(BigEndian, m, nxt, off, len)
  {
    hide Stored, Htons, Flatten, Take, Drop;
    HtonsOrder(len);
  }

  lemma ChecksumSwap(s: seq<Byte>)
    ensures Checksum(LittleEndian, s) == Swap(Checksum(BigEndian, s))
  {
    hide Canon, Weigh, OnesSum, Words;
    OnesSumIsWeigh(LittleEndian, s);
    OnesSumIsWeigh(BigEndian, s);
    WeighMirror(0, s);
    WeighShift(BigEndian, 0, s);
    CanonSwap(Weigh(BigEndian, 0, s));
    SwapComplement(OnesSum(Words(BigEndian, s)));
  }

  lemma SwapComplement(w: Word)
    ensures Swap(0xFFFF - w) == 0xFFFF - Swap(w)
  {
    var h, l := w / 0x100, w % 0x100;
    assert 0xFFFF - w == (0xFF - h) * 0x100 + (0xFF - l);
  }

  lemma StoredSwap(w: Word)
    ensures Stored(LittleEndian, Swap(w)) == Stored(BigEndian, w)
  {
    var h, l := w / 0x100, w % 0x100;
    assert Swap(w) == l * 0x100 + h;
  }

  /** The two bytes that the checksum occupies in memory are the same on a little-endian
      and on a big-endian CPU. */
  lemma ByteOrderIndependent(m: Chain, nxt: Byte, off: nat, len: nat)
    requires Accepts(m, nxt, off, len)
    ensures Stored(LittleEndian, Checksum(LittleEndian, Covered(LittleEndian, m, nxt, off, len)))
         == Stored(BigEndian, Checksum(BigEndian, Covered(BigEndian, m, nxt, off, len)))
  {
    hide Covered, Checksum, Stored, Swap;
    CoveredOrder(m, nxt, off, len);
    var s := Covered(BigEndian, m, nxt, off, len);
    ChecksumSwap(s);
    StoredSwap(Checksum(BigEndian, s));
  }

  // ----- the receiver

  /** A packet verifies exactly when its words add up to a positive multiple of 65535. */
  lemma VerifiesIff(order: ByteOrder, s: seq<Byte>)
    ensures Checksum(order, s) == 0 <==> Weigh(order, 0, s) > 0 && Weigh(order, 0, s) % 0xFFFF == 0
  {
    OnesSumIsWeigh(order, s);
    CanonResidue(Weigh(order, 0, s));
  }

  /** The stream with the two bytes at position `p` replaced. */
  function WithWord(s: seq<Byte>, p: nat, bytes: (Byte, Byte)): seq<Byte>
    requires p + 2 <= |s|
  {
    s[..p] + [bytes.0, bytes.1] + s[p + 2..]
  }

  lemma WeighWithWord(order: ByteOrder, s: seq<Byte>, p: nat, bytes: (Byte, Byte))
    requires p + 2 <= |s| && p % 2 == 0
    ensures Weigh(order, 0, WithWord(s, p, bytes))
         == Weigh(order, 0, s[..p]) + WordOf(order, bytes.0, bytes.1) + Weigh(order, 0, s[p + 2..])
  {
    hide Weigh;
    var word := [bytes.0, bytes.1];
    WeighAppend(order, 0, s[..p] + word, s[p + 2..]);
    WeighAppend(order, 0, s[..p], word);
    WeighWord(order, bytes.0, bytes.1);
  }

  /** Storing the complement of the sum makes the packet verify; storing all ones instead of
      zero, as UDP does, makes no difference. */
  lemma StoredWordVerifies(order: ByteOrder, s: seq<Byte>, p: nat, w: Word)
    requires p + 2 <= |s| && p % 2 == 0 && s[p] == s[p + 1] == 0
    requires var r := Checksum(order, s); w == r || (r == 0 && w == 0xFFFF)
    ensures Checksum(order, WithWord(s, p, Stored(order, w))) == 0
  {
    hide Canon, Weigh, OnesSum, Words;
    assert WithWord(s, p, (0, 0)) == s;
    WeighWithWord(order, s, p, (0, 0));
    WeighWithWord(order, s, p, Stored(order, w));
    OnesSumIsWeigh(order, s);
    var x := Weigh(order, 0, s);
    CanonResidue(x);
    var s' := WithWord(s, p, Stored(order, w));
    assert Weigh(order, 0, s') == x + w;
    VerifiesIff(order, s');
  }

  /** Changing one word of a packet that verifies is detected, unless all-zeros is exchanged
      for all-ones in a packet that is not otherwise zero. */
  lemma CorruptionDetected(order: ByteOrder, s: seq<Byte>, p: nat, bytes: (Byte, Byte))
    requires p + 2 <= |s| && p % 2 == 0 && Checksum(order, s) == 0
    ensures var s' := WithWord(s, p, bytes);
      var was, now := WordOf(order, s[p], s[p + 1]), WordOf(order, bytes.0, bytes.1);
      Checksum(order, s') == 0 <==>
        was == now || (was == 0 && now == 0xFFFF) || (was == 0xFFFF && now == 0 && Weigh(order, 0, s') > 0)
  {
    hide Canon, Weigh, OnesSum, Words;
    assert WithWord(s, p, (s[p], s[p + 1])) == s;
    WeighWithWord(order, s, p, (s[p], s[p + 1]));
    WeighWithWord(order, s, p, bytes);
    VerifiesIff(order, s);
    VerifiesIff(order, WithWord(s, p, bytes));
    OneWordResidue(Weigh(order, 0, s[..p]) + Weigh(order, 0, s[p + 2..]),
                   WordOf(order, s[p], s[p + 1]), WordOf(order, bytes.0, bytes.1));
  }

  lemma OneWordResidue(rest: nat, was: Word, now: Word)
    requires (rest + was) % 0xFFFF == 0 && rest + was > 0
    ensures (rest + now) % 0xFFFF == 0 && rest + now > 0 <==>
      was == now || (was == 0 && now == 0xFFFF) || (was == 0xFFFF && now == 0 && rest + now > 0)
  {
    var k := (rest + was) / 0xFFFF;
    assert rest == 0xFFFF * k - was;
    ResidueShift(now - was, k);
  }

  // ----- the pseudo header

  /** Zero and all ones add the same. */
  predicate Exchanged(was: Word, now: Word) {
    (was == 0 && now == 0xFFFF) || (was == 0xFFFF && now == 0)
  }

  /** Two sums that are not zero and differ in one word. */
  lemma OneWordOff(rest: nat, was: Word, now: Word)
    requires rest > 0 && Canon(rest + was) == 0xFFFF
    ensures Canon(rest + now) == 0xFFFF <==> was == now || Exchanged(was, now)
  {
    hide Canon;
    CanonResidue(rest + was);
    CanonResidue(rest + now);
    OneWordResidue(rest, was, now);
  }

  lemma WordsDiffer(order: ByteOrder, a0: Byte, a1: Byte, b0: Byte, b1: Byte)
    ensures WordOf(order, a0, a1) == WordOf(order, b0, b1) <==> a0 == b0 && a1 == b1
    ensures Exchanged(WordOf(order, a0, a1), WordOf(order, b0, b1)) <==>
      (a0 == a1 == 0 && b0 == b1 == 0xFF) || (a0 == a1 == 0xFF && b0 == b1 == 0)
    ensures WordOf(order, 0, a1) == 0 <==> a1 == 0
  {
  }

  /** Two packets have the same addresses, but for the bytes `k` and `k + 1` of their headers. */
  ghost predicate SameAddressesBut(h1: seq<Byte>, h2: seq<Byte>, k: nat)
    requires |h1| >= 20 && |h2| >= 20
  {
    forall i | 12 <= i < 20 && i != k && i != k + 1 :: h1[i] == h2[i]
  }

  /** A packet that verifies does not verify with another address: of the words in the source
      and destination address only an all-zero and an all-one word can be exchanged. */
  method WrongAddress(order: ByteOrder, m1: Chain, m2: Chain, nxt: Byte, off1: nat, off2: nat, len: nat, k: nat)
    returns (r1: Word, r2: Word)
    requires nxt != 0 && Accepts(m1, nxt, off1, len) && Accepts(m2, nxt, off2, len)
    requires Rest(m1, off1, len) == Rest(m2, off2, len)
    requires k in {12, 14, 16, 18} && SameAddressesBut(m1.data, m2.data, k)
    ensures r1 == 0 ==>
      (r2 == 0 <==> (m1.data[k] == m2.data[k] && m1.data[k + 1] == m2.data[k + 1])
                    || (m1.data[k] == m1.data[k + 1] == 0 && m2.data[k] == m2.data[k + 1] == 0xFF)
                    || (m1.data[k] == m1.data[k + 1] == 0xFF && m2.data[k] == m2.data[k + 1] == 0))
  {
    hide Canon, Weigh, Checksum, Covered, Rest, WordOf, Exchanged;
    var peak;
    r1, peak := In4Cksum(order, m1, nxt, off1, len);
    r2, peak := In4Cksum(order, m2, nxt, off2, len);
    WordsDiffer(order, m1.data[k], m1.data[k + 1], m2.data[k], m2.data[k + 1]);
    WordsDiffer(order, 0, nxt, 0, nxt);
    if r1 == 0 {
      AddressResidue(order, m1.data, m2.data, k, WordOf(order, 0, nxt) + WordOf(order, len / 0x100, len % 0x100),
                     Weigh(order, 0, Rest(m1, off1, len)));
    }
  }

  lemma AddressResidue(order: ByteOrder, h1: seq<Byte>, h2: seq<Byte>, k: nat, front: nat, payload: nat)
    requires |h1| >= 20 && |h2| >= 20 && k in {12, 14, 16, 18} && SameAddressesBut(h1, h2, k) && front > 0
    requires Canon(front + WordOf(order, h1[12], h1[13]) + WordOf(order, h1[14], h1[15])
                   + WordOf(order, h1[16], h1[17]) + WordOf(order, h1[18], h1[19]) + payload) == 0xFFFF
    ensures var was, now := WordOf(order, h1[k], h1[k + 1]), WordOf(order, h2[k], h2[k + 1]);
      Canon(front + WordOf(order, h2[12], h2[13]) + WordOf(order, h2[14], h2[15])
            + WordOf(order, h2[16], h2[17]) + WordOf(order, h2[18], h2[19]) + payload) == 0xFFFF <==>
      was == now || Exchanged(was, now)
  {
    hide Canon, WordOf, Exchanged;
    var was, now := WordOf(order, h1[k], h1[k + 1]), WordOf(order, h2[k], h2[k + 1]);
    OneWordOff(front + WordOf(order, h1[12], h1[13]) + WordOf(order, h1[14], h1[15])
               + WordOf(order, h1[16], h1[17]) + WordOf(order, h1[18], h1[19]) + payload - was, was, now);
  }

  /** Nor does it verify for another protocol. */
  method WrongProtocol(order: ByteOrder, m: Chain, nxt1: Byte, nxt2: Byte, off: nat, len: nat)
    returns (r1: Word, r2: Word)
    requires nxt1 != 0 && nxt2 != 0 && Accepts(m, nxt1, off, len)
    ensures r1 == 0 && r2 == 0 ==> nxt1 == nxt2
  {
    hide Canon, Weigh, Checksum, Covered, Rest, WordOf, Exchanged;
    var peak;
    r1, peak := In4Cksum(order, m, nxt1, off, len);
    r2, peak := In4Cksum(order, m, nxt2, off, len);
    ghost var rest := WordOf(order, len / 0x100, len % 0x100)
      + WordOf(order, m.data[12], m.data[13]) + WordOf(order, m.data[14], m.data[15])
      + WordOf(order, m.data[16], m.data[17]) + WordOf(order, m.data[18], m.data[19])
      + Weigh(order, 0, Rest(m, off, len));
    WordsDiffer(order, 0, nxt1, 0, nxt2);
    WordsDiffer(order, 0, nxt2, 0, nxt1);
    ProtocolResidue(rest, WordOf(order, 0, nxt1), WordOf(order, 0, nxt2));
  }

  lemma ProtocolResidue(rest: nat, was: Word, now: Word)
    requires was > 0 && now > 0 && !Exchanged(was, now)
    ensures Canon(was + rest) == 0xFFFF == Canon(now + rest) ==> was == now
  {
    if rest > 0 && Canon(was + rest) == 0xFFFF {
      OneWordOff(rest, was, now);
    }
  }

  /** Nor with another length, when the chain has no bytes for the longer of the two; the
      lengths 0 and 65535 alone can be exchanged. */
  method WrongLength(order: ByteOrder, m: Chain, nxt: Byte, off: nat, len1: nat, len2: nat)
    returns (r1: Word, r2: Word)
    requires nxt != 0 && Accepts(m, nxt, off, len1) && Accepts(m, nxt, off, len2)
    requires Rest(m, off, len1) == Rest(m, off, len2)
    ensures r1 == 0 ==>
      (r2 == 0 <==> len1 == len2 || (len1 == 0 && len2 == 0xFFFF) || (len1 == 0xFFFF && len2 == 0))
  {
    hide Canon, Weigh, Checksum, Covered, Rest, WordOf, Exchanged;
    var peak;
    r1, peak := In4Cksum(order, m, nxt, off, len1);
    r2, peak := In4Cksum(order, m, nxt, off, len2);
    ghost var rest := WordOf(order, 0, nxt)
      + WordOf(order, m.data[12], m.data[13]) + WordOf(order, m.data[14], m.data[15])
      + WordOf(order, m.data[16], m.data[17]) + WordOf(order, m.data[18], m.data[19])
      + Weigh(order, 0, Rest(m, off, len1));
    WordsDiffer(order, 0, nxt, 0, nxt);
    WordsDiffer(order, len1 / 0x100, len1 % 0x100, len2 / 0x100, len2 % 0x100);
    ghost var was, now := WordOf(order, len1 / 0x100, len1 % 0x100), WordOf(order, len2 / 0x100, len2 % 0x100);
    if r1 == 0 {
      OneWordOff(rest, was, now);
    }
  }

  // ----- sender and receiver

  /** Storing `w` in the chain at an even payload position replaces one word of what the
      checksum covers, also when the two bytes lie in different buffers. */
  lemma CoveredStore(order: ByteOrder, m: Chain, nxt: Byte, off: nat, len: nat, p: nat, bytes: (Byte, Byte))
    requires Accepts(m, nxt, off, len) && p + 2 <= |Rest(m, off, len)|
    ensures var m' := Store2(m, off + p, bytes);
      var skip := if nxt != 0 then 20 else 0;
      && Accepts(m', nxt, off, len)
      && skip + p + 2 <= |Covered(order, m, nxt, off, len)|
      && Covered(order, m', nxt, off, len) == WithWord(Covered(order, m, nxt, off, len), skip + p, bytes)
  {
    hide Flatten, PseudoHeader, Store2, WithWord;
    RestStore(m, off, len, p, bytes);
    if nxt != 0 {
      HeaderStore(order, m, nxt, len, off + p, bytes);
      WithWordAppend(PseudoHeader(order, m.data, nxt, len), Rest(m, off, len), p, bytes);
    } else {
      WithWordAppend([], Rest(m, off, len), p, bytes);
    }
  }

  lemma WithWordAppend(header: seq<Byte>, s: seq<Byte>, p: nat, bytes: (Byte, Byte))
    requires p + 2 <= |s|
    ensures WithWord(header + s, |header| + p, bytes) == header + WithWord(s, p, bytes)
  {
  }

  lemma RestStore(m: Chain, off: nat, len: nat, p: nat, bytes: (Byte, Byte))
    requires p + 2 <= |Rest(m, off, len)|
    ensures Rest(Store2(m, off + p, bytes), off, len) == WithWord(Rest(m, off, len), p, bytes)
  {
    hide Flatten, Store2;
    Store2Flatten(m, off + p, bytes);
    var f := Flatten(m);
    var f' := WithWord(f, off + p, bytes);
    assert f'[off..] == WithWord(f[off..], p, bytes);
  }

  lemma HeaderStore(order: ByteOrder, m: Chain, nxt: Byte, len: nat, pos: nat, bytes: (Byte, Byte))
    requires m.Mbuf? && |m.data| >= 20 && pos >= 20 && pos + 2 <= |Flatten(m)|
    ensures var m' := Store2(m, pos, bytes);
      && m'.Mbuf? && |m'.data| == |m.data|
      && PseudoHeader(order, m'.data, nxt, len) == PseudoHeader(order, m.data, nxt, len)
  {
    hide Store2, Stored, Htons;
    Store2Flatten(m, pos, bytes);
    var m' := Store2(m, pos, bytes);
    assert m'.data[12..20] == Flatten(m')[12..20] == Flatten(m)[12..20] == m.data[12..20];
  }

  function Store2(m: Chain, pos: nat, bytes: (Byte, Byte)): Chain
    requires pos + 2 <= |Flatten(m)|
  {
    StoreFlatten(m, pos, bytes.0);
    Store(Store(m, pos, bytes.0), pos + 1, bytes.1)
  }

  lemma Store2Flatten(m: Chain, pos: nat, bytes: (Byte, Byte))
    requires pos + 2 <= |Flatten(m)|
    ensures Flatten(Store2(m, pos, bytes)) == WithWord(Flatten(m), pos, bytes)
    ensures m.Mbuf? && Store2(m, pos, bytes).Mbuf? && |Store2(m, pos, bytes).data| == |m.data|
  {
    StoreFlatten(m, pos, bytes.0);
    StoreFlatten(Store(m, pos, bytes.0), pos + 1, bytes.1);
  }

  /** The field is in the covered bytes, behind the pseudo header. */
  lemma FieldCovered(order: ByteOrder, m: Chain, nxt: Byte, off: nat, len: nat, p: nat)
    requires Accepts(m, nxt, off, len) && p + 2 <= |Rest(m, off, len)|
    ensures off + p + 2 <= |Flatten(m)|
    ensures var skip := if nxt != 0 then 20 else 0;
      var s := Covered(order, m, nxt, off, len);
      && skip + p + 2 <= |s|
      && s[skip + p] == Rest(m, off, len)[p] && s[skip + p + 1] == Rest(m, off, len)[p + 1]
  {
    hide PseudoHeader;
  }

  lemma SentVerifies(order: ByteOrder, m: Chain, nxt: Byte, off: nat, len: nat, p: nat, w: Word)
    requires Accepts(m, nxt, off, len) && p % 2 == 0 && p + 2 <= |Rest(m, off, len)|
    requires Rest(m, off, len)[p] == Rest(m, off, len)[p + 1] == 0
    requires var r := Checksum(order, Covered(order, m, nxt, off, len)); w == r || (r == 0 && w == 0xFFFF)
    ensures off + p + 2 <= |Flatten(m)|
    ensures var sent := Store2(m, off + p, Stored(order, w));
      Accepts(sent, nxt, off, len) && Checksum(order, Covered(order, sent, nxt, off, len)) == 0
  {
    hide Stored, Store2, PseudoHeader, Checksum, WithWord, Flatten, Take, Drop, Covered;
    FieldCovered(order, m, nxt, off, len, p);
    CoveredStore(order, m, nxt, off, len, p, Stored(order, w));
    StoredWordVerifies(order, Covered(order, m, nxt, off, len), (if nxt != 0 then 20 else 0) + p, w);
  }

  /** The sender computes the checksum over a zeroed field and stores it in native byte
      order, all ones for zero if `udp`; the receiver, given the same arguments, gets zero. */
  method SendAndVerify(order: ByteOrder, m: Chain, nxt: Byte, off: nat, len: nat, p: nat, udp: bool)
    returns (sent: Chain, r: Word)
    requires Accepts(m, nxt, off, len) && p % 2 == 0 && p + 2 <= |Rest(m, off, len)|
    requires Rest(m, off, len)[p] == Rest(m, off, len)[p + 1] == 0
    ensures var sum := Checksum(order, Covered(order, m, nxt, off, len));
      sent == Store2(m, off + p, Stored(order, if udp && sum == 0 then 0xFFFF else sum))
    ensures Accepts(sent, nxt, off, len)
    ensures r == 0
  {
    hide Stored, Store2, Checksum, Covered, Rest, Flatten;
    var w, peak := In4Cksum(order, m, nxt, off, len);
    if udp && w == 0 {
      w := 0xFFFF;
    }
    SentVerifies(order, m, nxt, off, len, p, w);
    sent := Store2(m, off + p, Stored(order, w));
    r, peak := In4Cksum(order, sent, nxt, off, len);
  }
}
