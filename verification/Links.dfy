/** Intrusive links, tn_net/queue.h: the two pointers that heads and elements of a queue
    hold, and the operations on the sequence that a queue represents. */
module Links {
  import opened Sequences

  /** A pair of pointers: first and last of a head, next and prev of an element.  A pointer to
      a pointer (`struct type **`) designates the `next` slot of the pair it points into; heads
      and entries have the same layout, with that slot first. */
  class Link {
    var next: Link?
    var prev: Link?

    constructor ()
      ensures next == null && prev == null
    {
      next, prev := null, null;
    }
  }

  ghost predicate Distinct(s: seq<Link>) {
    forall i, j | 0 <= i < j < |s| :: s[i] != s[j]
  }

  /** The elements of a ring: everything but the head, which comes first. */
  ghost function Elements(ring: seq<Link>): seq<Link>
    requires |ring| > 0
  {
    ring[1..]
  }

  /** Where an element is. */
  ghost function Position(s: seq<Link>, x: Link): (i: nat)
    requires x in s
    ensures i < |s| && s[i] == x
  {
    if s[0] == x then 0 else 1 + Position(s[1..], x)
  }

  /** An element is behind the head, and no other pair of the ring is the head, the element,
      or one of its neighbours. */
  lemma Locate(ring: seq<Link>, x: Link)
    requires |ring| > 0 && Distinct(ring) && x in Elements(ring)
    ensures x in ring && 1 <= Position(ring, x)
    ensures var i := Position(ring, x);
      && Apart(ring, 0) && Apart(ring, i - 1) && Apart(ring, i) && (i + 1 < |ring| ==> Apart(ring, i + 1))
  {
    assert x != ring[0];
  }

  ghost predicate Apart(s: seq<Link>, i: nat)
    requires i < |s|
  {
    forall k | 0 <= k < |s| && k != i :: s[k] != s[i]
  }

  lemma DistinctInsert(s: seq<Link>, i: nat, e: Link)
    requires Distinct(s) && i <= |s| && e !in s
    ensures var t := Insert(s, i, e);
      && Distinct(t) && (forall x | x in t :: x in s || x == e)
      && |t| == |s| + 1 && (i > 0 ==> t[0] == s[0])
      && t[|s|] == if i == |s| then e else s[|s| - 1]
  {
  }

  lemma DistinctDelete(s: seq<Link>, i: nat)
    requires Distinct(s) && i < |s|
    ensures var t := Delete(s, i);
      && Distinct(t) && s[i] !in t && (forall x | x in t :: x in s)
      && |t| == |s| - 1 && (0 < i ==> t[0] == s[0])
      && (0 < i ==> t[|t| - 1] == if i == |s| - 1 then s[i - 1] else s[|s| - 1])
  {
  }

  lemma DistinctReplace(s: seq<Link>, i: nat, e: Link)
    requires Distinct(s) && i < |s| && e !in s
    ensures Distinct(s[i := e]) && forall x | x in s[i := e] :: x in s || x == e
  {
  }

  // ----- chains

  /** The next slot of every pair but the last, and but the one at `skip`, holds the pair after it. */
  ghost predicate Chained(s: seq<Link>, skip: int := -1)
    reads s
  {
    forall i {:trigger s[i].next} | 0 <= i < |s| - 1 && i != skip :: s[i].next == s[i + 1]
  }

  /** The prev slot of every pair but the first, and but the one at `skip`, designates the
      pair before it. */
  ghost predicate BackChained(s: seq<Link>, skip: int := -1)
    reads s
  {
    forall i {:trigger s[i].prev} | 1 <= i < |s| && i != skip :: s[i].prev == s[i - 1]
  }

  /** A chain in which one next slot has been redirected to a new pair. */
  lemma ChainedInsert(s: seq<Link>, i: nat, e: Link)
    requires 0 < i <= |s| && Chained(s, i - 1)
    requires s[i - 1].next == e && (i < |s| ==> e.next == s[i])
    ensures Chained(Insert(s, i, e))
  {
    var t := Insert(s, i, e);
    forall k | 0 <= k < |t| - 1
      ensures t[k].next == t[k + 1]
    {
      if k > i {
        assert t[k] == s[k - 1] && t[k + 1] == s[k];
      }
    }
  }

  lemma BackChainedInsert(s: seq<Link>, i: nat, e: Link)
    requires 0 < i <= |s| && BackChained(s, i)
    requires e.prev == s[i - 1] && (i < |s| ==> s[i].prev == e)
    ensures BackChained(Insert(s, i, e))
  {
    var t := Insert(s, i, e);
    forall k | 1 <= k < |t|
      ensures t[k].prev == t[k - 1]
    {
      if k > i {
        assert t[k] == s[k - 1];
      }
    }
  }

  /** A chain in which one next slot has been redirected past a pair. */
  lemma ChainedDelete(s: seq<Link>, i: nat)
    requires 0 < i < |s| && Chained(s, i - 1)
    requires i + 1 < |s| ==> s[i - 1].next == s[i + 1]
    ensures Chained(Delete(s, i))
  {
    var t := Delete(s, i);
    forall k | 0 <= k < |t| - 1
      ensures t[k].next == t[k + 1]
    {
      if k >= i {
        assert t[k] == s[k + 1] && t[k + 1] == s[k + 2];
      }
    }
  }

  lemma BackChainedDelete(s: seq<Link>, i: nat)
    requires 0 < i < |s| && BackChained(s, i + 1)
    requires i + 1 < |s| ==> s[i + 1].prev == s[i - 1]
    ensures BackChained(Delete(s, i))
  {
    var t := Delete(s, i);
    forall k | 1 <= k < |t|
      ensures t[k].prev == t[k - 1]
    {
      if k >= i {
        assert t[k] == s[k + 1];
      }
    }
  }

  /** A chain in which one pair has been exchanged for a new one. */
  lemma ChainedReplace(s: seq<Link>, i: nat, e: Link)
    requires 0 < i < |s| && Chained(s, i - 1)
    requires s[i - 1].next == e && (i + 1 < |s| ==> e.next == s[i + 1])
    ensures Chained(s[i := e])
  {
    var t := s[i := e];
    forall k | 0 <= k < |t| - 1
      ensures t[k].next == t[k + 1]
    {
      if k != i && k != i - 1 {
        assert t[k] == s[k] && t[k + 1] == s[k + 1];
      }
    }
  }

  lemma BackChainedReplace(s: seq<Link>, i: nat, e: Link)
    requires 0 < i < |s| && BackChained(s, i + 1)
    requires e.prev == s[i - 1] && (i + 1 < |s| ==> s[i + 1].prev == e)
    ensures BackChained(s[i := e])
  {
    var t := s[i := e];
    forall k | 1 <= k < |t|
      ensures t[k].prev == t[k - 1]
    {
      if k != i && k != i + 1 {
        assert t[k] == s[k] && t[k - 1] == s[k - 1];
      }
    }
  }

  function Reverse<T>(s: seq<T>): seq<T> {
    if s == [] then [] else Reverse(s[1..]) + [s[0]]
  }

  lemma {:induction false} ReverseAt<T>(s: seq<T>)
    ensures |Reverse(s)| == |s|
    ensures forall k | 0 <= k < |s| :: Reverse(s)[k] == s[|s| - 1 - k]
  {
    if s != [] {
      ReverseAt(s[1..]);
    }
  }

  // ----- runs of operations

  datatype Op =
    | InsertHead(e: Link)
    | InsertTail(e: Link)
    | InsertAfter(at: Link, e: Link)
    | InsertBefore(at: Link, e: Link)
    | Remove(at: Link)
    | Replace(at: Link, e: Link)

  /** Elements to insert are in no position yet; elements to refer to are. */
  ghost predicate Enabled(ring: seq<Link>, op: Op) {
    && |ring| > 0
    && (op.InsertAfter? || op.InsertBefore? || op.Remove? || op.Replace? ==> op.at in Elements(ring))
    && (!op.Remove? ==> op.e !in ring)
  }

  /** What the operation does to the sequence that the queue represents. */
  ghost function Apply(ring: seq<Link>, op: Op): seq<Link>
    requires Enabled(ring, op)
  {
    match op
    case InsertHead(e) => Insert(ring, 1, e)
    case InsertTail(e) => ring + [e]
    case InsertAfter(at, e) => Insert(ring, Position(ring, at) + 1, e)
    case InsertBefore(at, e) => Insert(ring, Position(ring, at), e)
    case Remove(at) => Delete(ring, Position(ring, at))
    case Replace(at, e) => ring[Position(ring, at) := e]
  }

  /** What the sequence is after an operation, place by place: wherever the element is that an
      operation refers to. */
  lemma ApplyMeaning(ring: seq<Link>, op: Op)
    requires Enabled(ring, op) && Distinct(ring)
    ensures op.InsertHead? ==> Apply(ring, op) == [ring[0], op.e] + ring[1..]
    ensures op.InsertTail? ==> Apply(ring, op) == ring + [op.e]
    ensures forall i | 0 < i < |ring| && op.InsertAfter? && ring[i] == op.at ::
      Apply(ring, op) == ring[..i] + [op.at, op.e] + ring[i + 1..]
    ensures forall i | 0 < i < |ring| && op.InsertBefore? && ring[i] == op.at ::
      Apply(ring, op) == ring[..i] + [op.e, op.at] + ring[i + 1..]
    ensures forall i | 0 < i < |ring| && op.Remove? && ring[i] == op.at ::
      Apply(ring, op) == ring[..i] + ring[i + 1..]
    ensures forall i | 0 < i < |ring| && op.Replace? && ring[i] == op.at ::
      Apply(ring, op) == ring[..i] + [op.e] + ring[i + 1..]
  {
    if op.InsertAfter? || op.InsertBefore? || op.Remove? || op.Replace? {
      Locate(ring, op.at);
      var i := Position(ring, op.at);
      assert op.InsertAfter? ==> Insert(ring, i + 1, op.e) == ring[..i] + [op.at, op.e] + ring[i + 1..];
      assert op.InsertBefore? ==> Insert(ring, i, op.e) == ring[..i] + [op.e, op.at] + ring[i + 1..];
    }
  }

  ghost predicate AllEnabled(ring: seq<Link>, ops: seq<Op>)
    decreases |ops|
  {
    ops == [] || (Enabled(ring, ops[0]) && AllEnabled(Apply(ring, ops[0]), ops[1..]))
  }

  ghost function ApplyAll(ring: seq<Link>, ops: seq<Op>): seq<Link>
    requires AllEnabled(ring, ops)
    decreases |ops|
  {
    if ops == [] then ring else ApplyAll(Apply(ring, ops[0]), ops[1..])
  }

  /** A run does its operations one after the other. */
  lemma {:induction false} ApplyAllLast(ring: seq<Link>, ops: seq<Op>, op: Op)
    requires AllEnabled(ring, ops) && Enabled(ApplyAll(ring, ops), op)
    ensures AllEnabled(ring, ops + [op]) && ApplyAll(ring, ops + [op]) == Apply(ApplyAll(ring, ops), op)
    decreases |ops|
  {
    hide Enabled, Apply;
    if ops == [] {
      assert [op][1..] == [] && [] + [op] == [op];
    } else {
      ApplyAllLast(Apply(ring, ops[0]), ops[1..], op);
      assert (ops + [op])[1..] == ops[1..] + [op];
    }
  }

  /** The links that an operation is given. */
  ghost predicate Within(op: Op, world: set<Link>) {
    && (op.InsertAfter? || op.InsertBefore? || op.Remove? || op.Replace? ==> op.at in world)
    && (!op.Remove? ==> op.e in world)
  }

  /** No operation brings in a link from outside. */
  lemma ApplyWithin(ring: seq<Link>, op: Op, world: set<Link>)
    requires Enabled(ring, op) && Within(op, world) && forall x | x in ring :: x in world
    ensures forall x | x in Apply(ring, op) :: x in world
  {
  }
}
