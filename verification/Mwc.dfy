/** The multiply-with-carry generator of demo_pc/tcp_test_1/rnd.cpp. */
module Mwc {

  import opened Machine

  /** The multiplier and its halves. */
  const A: Word32 := 1791398085
  const AH: Word32 := 27334
  const AL: Word32 := 37061

  /** Unsigned 32-bit arithmetic. */
  function Add32(v: Word32, w: Word32): Word32 { (v + w) % 0x1_0000_0000 }

  function Mul32(v: Word32, w: Word32): Word32 { v * w % 0x1_0000_0000 }

  datatype State = State(x: Word32, c: Word32)

  // ----- what a draw does

  /** The high word of x * a as the code assembles it from 16-bit halves, without the low
      halves of the two cross products. */
  function Partial(x: Word32): nat {
    var xh, xl := x / 0x1_0000, x % 0x1_0000;
    xh * AH + xh * AL / 0x1_0000 + xl * AH / 0x1_0000
  }

  function Product(s: State): nat { s.x * A + s.c }

  /** The carry of a true multiply-with-carry step. */
  function HighWord(s: State): nat { Product(s) / 0x1_0000_0000 }

  /** A draw: the low word of a * x + c, and the partial high word, except that zero becomes one. */
  function Step(s: State): State {
    PartialBound(s.x);
    State(Product(s) % 0x1_0000_0000, if Partial(s.x) == 0 then 1 else Partial(s.x))
  }

  lemma StepInNumbers(s: State)
    ensures Step(s).x == (1791398085 * s.x + s.c) % 0x1_0000_0000
    ensures var xh, xl := s.x / 0x1_0000, s.x % 0x1_0000;
      var partial := 27334 * xh + 37061 * xh / 0x1_0000 + 27334 * xl / 0x1_0000;
      Step(s).c == if partial == 0 then 1 else partial
  {
  }

  function Steps(s: State, n: nat): State {
    if n == 0 then s else Step(Steps(s, n - 1))
  }

  /** A word that is drawn is given by the two before it: by the last one, and by the carry that
      the code makes of the one before. */
  predicate Follows(x0: Word32, x1: Word32, x2: Word32) {
    var xh, xl := x0 / 0x1_0000, x0 % 0x1_0000;
    var partial := 27334 * xh + 37061 * xh / 0x1_0000 + 27334 * xl / 0x1_0000;
    x2 == (1791398085 * x1 + if partial == 0 then 1 else partial) % 0x1_0000_0000
  }

  lemma StepsFollow(s: State, n: nat)
    ensures Follows(Steps(s, n).x, Steps(s, n + 1).x, Steps(s, n + 2).x)
  {
    hide Step;
    StepInNumbers(Steps(s, n));
    StepInNumbers(Steps(s, n + 1));
  }

  function Seeded(xi: Word32, ci: Word32): State {
    State(if xi != 0 then xi else 30903, ci)
  }

  /** RNDMWC */
  class RndMwc {
    var a: Word32
    var x: Word32
    var c: Word32
    var ah: Word32
    var al: Word32

    ghost predicate Valid()
      reads this
    {
      a == A && ah == AH && al == AL
    }

    ghost function Current(): State
      reads this
    {
      State(x, c)
    }

    /** mwc_init */
    method Init(xi: Word32, ci: Word32)
      modifies this
      ensures Valid() && Current() == Seeded(xi, ci)
      ensures a == 1791398085 && c == ci && x == if xi != 0 then xi else 30903
    {
      a := A;
      x := 30903;
      c := 0;
      if xi != 0 {
        x := xi;
      }
      c := ci;
      ah := a / 0x1_0000;
      al := a % 0x1_0000;
    }

    /** mwc_rand: every operation is on unsigned 32-bit words. */
    method Rand() returns (r: Word32)
      requires Valid()
      modifies this
      ensures Valid() && Current() == Step(old(Current())) && r == x
      ensures x == (1791398085 * old(x) + old(c)) % 0x1_0000_0000
      ensures var xh, xl := old(x) / 0x1_0000, old(x) % 0x1_0000;
        var partial := 27334 * xh + 37061 * xh / 0x1_0000 + 27334 * xl / 0x1_0000;
        c == if partial == 0 then 1 else partial
    {
      hide Partial, Product, Mul32, Add32;
      var xh, xl := x / 0x1_0000, x % 0x1_0000;
      NextWord(Current());
      NextCarry(x);
      StepInNumbers(Current());
      x := Add32(Mul32(x, a), c);
      c := Add32(Add32(Mul32(xh, ah), Mul32(xh, al) / 0x1_0000), Mul32(xl, ah) / 0x1_0000);
      if Mul32(xl, al) >= Add32(0xFFFF_FFFF - c, 1) {
        c := Add32(c, 1);
      }
      r := x;
    }

    /** Any number of draws from any seed. */
    method Draw(xi: Word32, ci: Word32, n: nat) returns (rs: seq<Word32>)
      modifies this
      ensures Valid() && Current() == Steps(Seeded(xi, ci), n)
      ensures |rs| == n && forall k | 0 <= k < n :: rs[k] == Steps(Seeded(xi, ci), k + 1).x
      ensures var x0 := if xi != 0 then xi else 30903;
        && (n > 0 ==> rs[0] == (1791398085 * x0 + ci) % 0x1_0000_0000)
        && (n > 1 ==> Follows(x0, rs[0], rs[1]))
        && (forall k | 2 <= k < n :: Follows(rs[k - 2], rs[k - 1], rs[k]))
    {
      hide Step, Follows;
      Init(xi, ci);
      rs := [];
      for i := 0 to n
        invariant Valid() && Current() == Steps(Seeded(xi, ci), i)
        invariant |rs| == i && forall k | 0 <= k < i :: rs[k] == Steps(Seeded(xi, ci), k + 1).x
      {
        var r := Rand();
        rs := rs + [r];
      }
      ghost var s := Seeded(xi, ci);
      StepInNumbers(s);
      StepsFollow(s, 0);
      assert Steps(s, 0) == s && Steps(s, 1) == Step(s);
      forall k | 2 <= k < n
        ensures Follows(rs[k - 2], rs[k - 1], rs[k])
      {
        StepsFollow(s, k - 1);
      }
    }
  }

  // ----- the carry

  /** No 32-bit overflow in the carry computation: every product of halves fits a word, and so
      do the sums; the result is below a. */
  lemma HalfProducts(x: Word32)
    ensures var xh, xl := x / 0x1_0000, x % 0x1_0000;
      && Mul32(xh, AH) == xh * AH && Mul32(xh, AL) == xh * AL
      && Mul32(xl, AH) == xl * AH && Mul32(xl, AL) == xl * AL
      && xh * AH + xh * AL / 0x1_0000 < 0x1_0000_0000
      && Partial(x) == xh * AH + xh * AL / 0x1_0000 + xl * AH / 0x1_0000 < A
  {
    var xh, xl := x / 0x1_0000, x % 0x1_0000;
    assert xh * AL / 0x1_0000 <= AL && xl * AH / 0x1_0000 <= AH - 1;
    assert xh * AL / 0x1_0000 <= AL - 1;
  }

  lemma PartialBound(x: Word32)
    ensures Partial(x) < A
  {
    HalfProducts(x);
  }

  lemma NextWord(s: State)
    ensures Add32(Mul32(s.x, A), s.c) == Product(s) % 0x1_0000_0000
  {
    var p := s.x * A;
    assert p == p / 0x1_0000_0000 * 0x1_0000_0000 + p % 0x1_0000_0000;
    ModShift(p % 0x1_0000_0000 + s.c, p / 0x1_0000_0000);
  }

  /** The comparison that decides on the correction is `xl * al >= -c` in 32-bit arithmetic;
      it holds only when the partial carry is zero, where -c wraps to zero. */
  lemma CorrectionOnlyAtZero(x: Word32)
    ensures Partial(x) < 0x1_0000_0000
    ensures Mul32(x % 0x1_0000, AL) >= Add32(0xFFFF_FFFF - Partial(x), 1) <==> Partial(x) == 0
  {
    PartialBound(x);
    hide Partial;
    assert x % 0x1_0000 * AL <= 0xFFFF * AL < 0x1_0000_0000 - A;
    HalfProducts(x);
  }

  /** The code's carry computation in 32-bit arithmetic. */
  lemma NextCarry(x: Word32)
    ensures var xh, xl := x / 0x1_0000, x % 0x1_0000;
      var c := Add32(Add32(Mul32(xh, AH), Mul32(xh, AL) / 0x1_0000), Mul32(xl, AH) / 0x1_0000);
      c == Partial(x) && (if Mul32(xl, AL) >= Add32(0xFFFF_FFFF - c, 1) then Add32(c, 1) == 1 && c == 0 else c != 0)
  {
    HalfProducts(x);
    CorrectionOnlyAtZero(x);
    var xh, xl := x / 0x1_0000, x % 0x1_0000;
    var m1, m2, m3 := Mul32(xh, AH), Mul32(xh, AL) / 0x1_0000, Mul32(xl, AH) / 0x1_0000;
    assert m1 + m2 < 0x1_0000_0000 && m1 + m2 + m3 == Partial(x);
    hide Partial, Mul32, Add32;
    AddExact(m1, m2);
    AddExact(m1 + m2, m3);
    if Partial(x) < 0xFFFF_FFFF {
      AddExact(Partial(x), 1);
    }
  }

  lemma AddExact(v: Word32, w: Word32)
    requires v + w < 0x1_0000_0000
    ensures Add32(v, w) == v + w
  {
  }

  /** What the partial carry leaves out. */
  function LowPart(s: State): nat {
    var xh, xl := s.x / 0x1_0000, s.x % 0x1_0000;
    (xh * AL % 0x1_0000 + xl * AH % 0x1_0000) * 0x1_0000 + xl * AL + s.c
  }

  lemma ProductSplit(s: State)
    ensures Product(s) == Partial(s.x) * 0x1_0000_0000 + LowPart(s)
    ensures HighWord(s) == Partial(s.x) + LowPart(s) / 0x1_0000_0000
  {
    var xh, xl := s.x / 0x1_0000, s.x % 0x1_0000;
    assert s.x == xh * 0x1_0000 + xl;
    var m, n := xh * AL, xl * AH;
    assert m == m / 0x1_0000 * 0x1_0000 + m % 0x1_0000;
    assert n == n / 0x1_0000 * 0x1_0000 + n % 0x1_0000;
  }

  /** The stored carry is not the high word, but close to it, from any state; closer once the
      carry is no larger than a. */
  lemma CarryError(s: State)
    ensures -1 <= HighWord(s) - Step(s).c <= 3
    ensures s.c <= A ==> HighWord(s) - Step(s).c <= 2
  {
    ProductSplit(s);
    PartialBound(s.x);
    LowPartBound(s);
    hide Partial, LowPart, Product;
    assert 0 <= LowPart(s) / 0x1_0000_0000 <= 3;
    assert s.c <= A ==> LowPart(s) / 0x1_0000_0000 <= 2;
  }

  lemma LowPartBound(s: State)
    ensures LowPart(s) < 4 * 0x1_0000_0000
    ensures s.c <= A ==> LowPart(s) < 3 * 0x1_0000_0000
  {
    assert s.x % 0x1_0000 * AL <= 0xFFFF * AL;
  }

  /** Seeds for which the error of the first draw is 3. */
  lemma LargestCarryError()
    ensures HighWord(State(1302652970, 0xFFFF_FFFF)) - Step(State(1302652970, 0xFFFF_FFFF)).c == 3
  {
    var s := State(1302652970, 0xFFFF_FFFF);
    assert s.x / 0x1_0000 == 19876 && s.x % 0x1_0000 == 59434;
    assert Partial(s.x) == 543326611;
    assert HighWord(s) == 543326614;
  }

  /** When the stored carry is exact: nothing carries out of the low part, or, when the partial
      carry is zero, exactly one unit does. */
  lemma CarryExactIff(s: State)
    ensures HighWord(s) == Step(s).c
      <==> if Partial(s.x) == 0 then 0x1_0000_0000 <= LowPart(s) < 2 * 0x1_0000_0000 else LowPart(s) < 0x1_0000_0000
  {
    ProductSplit(s);
    hide Partial, LowPart, Product;
  }

  /** A draw whose carry is wrong. */
  lemma CarryNotExact()
    ensures HighWord(State(0xFFFF_FFFF, 1)) == Step(State(0xFFFF_FFFF, 1)).c + 1
  {
    var s := State(0xFFFF_FFFF, 1);
    assert s.x / 0x1_0000 == 0xFFFF && s.x % 0x1_0000 == 0xFFFF;
    assert Partial(s.x) == 1791398083;
    assert HighWord(s) == 1791398084;
  }

  // ----- whole runs

  /** After the first draw the carry stays between 1 and a - 1, so that the absorbing state
      (0, 0) is never entered, from any seed; and every later stored carry is within -1 and 2 of the exact one. */
  lemma {:induction false} CarryInRange(s: State, n: nat)
    requires n > 0
    ensures 1 <= Steps(s, n).c < A
    ensures Steps(s, n) != State(0, 0)
    ensures -1 <= HighWord(Steps(s, n)) - Steps(s, n + 1).c <= 2
    ensures Steps(s, n + 1).x == (Steps(s, n).x * A + Steps(s, n).c) % 0x1_0000_0000
  {
    PartialBound(Steps(s, n - 1).x);
    assert Steps(s, n) == Step(Steps(s, n - 1));
    CarryError(Steps(s, n));
  }

  // ----- the period

  /** The step of a true multiply-with-carry generator, as the comment at rnd.cpp:9-10 has it. */
  function TrueStep(s: State): State
    requires s.c < A
  {
    TrueCarry(s);
    State(Product(s) % 0x1_0000_0000, HighWord(s))
  }

  lemma TrueCarry(s: State)
    requires s.c < A
    ensures HighWord(s) < A
  {
    assert Product(s) < A * 0x1_0000_0000;
  }

  /** It maps the states with a carry below a one-to-one into themselves. */
  lemma TrueStepPermutes(s: State, t: State)
    requires s.c < A && t.c < A
    ensures TrueStep(s).c < A && (TrueStep(s) == TrueStep(t) ==> s == t)
  {
    TrueCarry(s);
    if TrueStep(s) == TrueStep(t) {
      assert Product(s) == Product(t);
      assert Product(s) / A == s.x && Product(t) / A == t.x;
    }
  }

  /** Two states that seeds give and that have the same successor. */
  const FIRST := State(2, 712171127)
  const SECOND := State(4, 1424342253)

  lemma StepsMerge()
    ensures FIRST == Seeded(2, 712171127) && SECOND == Seeded(4, 1424342253) && FIRST != SECOND
    ensures 1 <= FIRST.c < A && 1 <= SECOND.c < A && Step(FIRST) == Step(SECOND)
  {
    assert Step(FIRST) == State(1, 1);
    assert Step(SECOND) == State(1, 1);
  }

  lemma {:induction false} StepsFirst(s: State, n: nat)
    ensures Steps(Step(s), n) == Steps(s, n + 1)
  {
    if n > 0 {
      hide Step;
      StepsFirst(s, n - 1);
    }
  }

  lemma {:induction false} StepsAdd(s: State, m: nat, n: nat)
    ensures Steps(Steps(s, m), n) == Steps(s, m + n)
  {
    if n > 0 {
      hide Step;
      StepsAdd(s, m, n - 1);
    }
  }

  /** k times p */
  function Multiple(p: nat, k: nat): nat {
    if k == 0 then 0 else Multiple(p, k - 1) + p
  }

  lemma {:induction false} MultipleIs(p: nat, k: nat)
    ensures Multiple(p, k) == k * p
  {
    if k > 0 {
      MultipleIs(p, k - 1);
      assert (k - 1) * p + p == k * p;
    }
  }

  lemma Commutes(p: nat, q: nat)
    requires p > 0 && q > 0
    ensures Multiple(p, q) == Multiple(q, p) > 0
  {
    MultipleIs(p, q);
    MultipleIs(q, p);
  }

  lemma {:induction false} StepsTimes(s: State, p: nat, k: nat)
    requires Steps(s, p) == s
    ensures Steps(s, Multiple(p, k)) == s
  {
    if k > 0 {
      hide Steps;
      StepsTimes(s, p, k - 1);
      StepsAdd(s, Multiple(p, k - 1), p);
    }
  }

  /** Some number of draws brings the state back. */
  ghost predicate Recurs(s: State) {
    exists p: nat :: p > 0 && Steps(s, p) == s
  }

  /** One of the two is never seen again once it has been left. */
  lemma SeedNeverRecurs()
    ensures !Recurs(FIRST) || !Recurs(SECOND)
  {
    StepsMerge();
    hide Step, Steps;
    if Recurs(FIRST) && Recurs(SECOND) {
      var m := ReturnTogether(FIRST, SECOND);
      StepsFirst(FIRST, m - 1);
      StepsFirst(SECOND, m - 1);
    }
  }

  lemma ReturnTogether(s: State, t: State) returns (m: nat)
    requires Recurs(s) && Recurs(t)
    ensures m > 0 && Steps(s, m) == s && Steps(t, m) == t
  {
    var p: nat :| p > 0 && Steps(s, p) == s;
    var q: nat :| q > 0 && Steps(t, q) == t;
    hide Steps, Multiple;
    StepsTimes(s, p, q);
    StepsTimes(t, q, p);
    Commutes(p, q);
    m := Multiple(p, q);
  }

  /** So no number of draws is a period of the generator for all seeds. */
  lemma NoCommonPeriod(p: nat)
    requires p > 0
    ensures exists xi: Word32, ci: Word32 ::
      xi != 0 && 1 <= ci < A && Steps(Seeded(xi, ci), p) != Seeded(xi, ci)
  {
    StepsMerge();
    hide Step, Steps;
    StepsFirst(FIRST, p - 1);
    StepsFirst(SECOND, p - 1);
    assert Steps(Seeded(2, 712171127), p) == Steps(Seeded(4, 1424342253), p);
  }
}
