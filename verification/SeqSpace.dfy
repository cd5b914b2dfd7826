/** TCP sequence space, and the parts of a byte stream that a receiver holds. */
module SeqSpace {

  import opened Machine

  // ----- sequence numbers

  /** The sequence number of a stream position. */
  function SeqOf(isn: Word32, pos: nat): Word32 {
    (isn + pos) % 0x1_0000_0000
  }

  /** (int)(a - b): the signed difference of two sequence numbers, tn_net/tn_tcp.h:395-398. */
  function Diff(a: Word32, b: Word32): int {
    var d := (a - b) % 0x1_0000_0000;
    if d < 0x8000_0000 then d else d - 0x1_0000_0000
  }

  function Plus(a: Word32, n: nat): Word32 {
    (a + n) % 0x1_0000_0000
  }

  lemma PlusOf(isn: Word32, pos: nat, n: nat)
    ensures Plus(SeqOf(isn, pos), n) == SeqOf(isn, pos + n)
  {
    ModShift(SeqOf(isn, pos) + n, (isn + pos) / 0x1_0000_0000);
  }

  /** Wrap-around does not show between positions less than 2^31 apart. */
  lemma DiffOf(isn: Word32, p: nat, q: nat)
    requires -0x8000_0000 <= p - q < 0x8000_0000
    ensures Diff(SeqOf(isn, p), SeqOf(isn, q)) == p - q
  {
    var k := (isn + q) / 0x1_0000_0000 - (isn + p) / 0x1_0000_0000;
    assert SeqOf(isn, p) - SeqOf(isn, q) == p - q + k * 0x1_0000_0000;
    ModShift(p - q, k);
    if p < q {
      ModShift(p - q, 1);
    }
  }

  /** Sequence numbers are equal only for equal positions, so far apart. */
  lemma SeqEqual(isn: Word32, p: nat, q: nat)
    requires -0x8000_0000 <= p - q < 0x8000_0000
    ensures SeqOf(isn, p) == SeqOf(isn, q) <==> p == q
  {
    DiffOf(isn, p, q);
  }

  // ----- parts of the stream

  /** `len` bytes of the stream from position `at` on. */
  datatype Piece = Piece(at: nat, len: nat) {
    function End(): nat { at + len }
  }

  function Interval(a: int, b: int): (s: set<int>)
    ensures forall p :: p in s <==> a <= p < b
    decreases b - a
  {
    if a >= b then {} else Interval(a, b - 1) + {b - 1}
  }

  ghost function Cover(ps: seq<Piece>): set<int> {
    set k: int, p: int | 0 <= k < |ps| && p in Interval(ps[k].at, ps[k].End()) :: p
  }

  lemma CoverAppend(a: seq<Piece>, b: seq<Piece>)
    ensures Cover(a + b) == Cover(a) + Cover(b)
  {
    forall p: int
      ensures p in Cover(a + b) <==> p in Cover(a) || p in Cover(b)
    {
      if p in Cover(b) {
        var k :| 0 <= k < |b| && p in Interval(b[k].at, b[k].End());
        assert (a + b)[|a| + k] == b[k];
      } else if p in Cover(a) {
        var k :| 0 <= k < |a| && p in Interval(a[k].at, a[k].End());
        assert (a + b)[k] == a[k];
      }
    }
  }

  lemma CoverOne(p: Piece)
    ensures Cover([p]) == Interval(p.at, p.End())
  {
    assert [p][0] == p;
  }

  /** In stream order, without overlap. */
  ghost predicate Ordered(ps: seq<Piece>) {
    forall i, j | 0 <= i < j < |ps| :: ps[i].End() <= ps[j].at
  }

  ghost predicate Between(ps: seq<Piece>, low: int, high: int) {
    forall i | 0 <= i < |ps| :: low <= ps[i].at && ps[i].End() <= high
  }

  lemma CoverBetween(ps: seq<Piece>, low: int, high: int)
    requires Between(ps, low, high)
    ensures forall p | p in Cover(ps) :: low <= p < high
  {
  }

  /** The first position below `n` that is not in `s`; `n` when there is none. */
  ghost function LeastMissing(s: set<int>, n: nat): (q: nat)
    ensures IsLeastMissing(s, n, q)
  {
    SomeLeastMissing(s, n, 0);
    var q: nat :| IsLeastMissing(s, n, q);
    q
  }

  ghost predicate IsLeastMissing(s: set<int>, n: nat, q: nat) {
    q <= n && (q < n ==> q !in s) && forall k | 0 <= k < q :: k in s
  }

  lemma SomeLeastMissing(s: set<int>, n: nat, p: nat)
    requires p <= n && forall k | 0 <= k < p :: k in s
    ensures exists q: nat :: IsLeastMissing(s, n, q)
    decreases n - p
  {
    if p == n || p !in s {
      assert IsLeastMissing(s, n, p);
    } else {
      SomeLeastMissing(s, n, p + 1);
    }
  }

  lemma LeastMissingIs(s: set<int>, n: nat, q: nat)
    requires IsLeastMissing(s, n, q)
    ensures LeastMissing(s, n) == q
  {
  }
}
