/** Lists, simple queues and singly-linked lists, tn_net/queue.h:94-297: their elements are
    chained forward; the prev slots are used by the elements, or by the head, or by none. */
module SingleQueues {
  import opened Links
  import opened Sequences

  // ----- LIST

  class List {
    const head: Link
    ghost var ring: seq<Link>

    /** Every next slot holds the following element, the last one NULL, and le_prev of every
        element designates the slot that points to it; the head has no such slot. */
    ghost predicate Valid()
      reads this, ring
    {
      && |ring| > 0 && ring[0] == head && Distinct(ring)
      && Chained(ring) && BackChained(ring)
      && ring[|ring| - 1].next == null
    }

    /** LIST_INIT */
    constructor ()
      ensures Valid() && ring == [head] && fresh(head)
    {
      head := new Link();
      ring := [head];
    }

    /** LIST_INSERT_HEAD */
    method InsertHead(elm: Link)
      requires Valid() && elm !in ring
      modifies this`ring, head, head.next, elm
      ensures Valid() && ring == Apply(old(ring), Op.InsertHead(elm))
    {
      ghost var s := ring;
      assert |s| > 1 ==> s[0].next == s[1];
      elm.next := head.next;
      if elm.next != null {
        head.next.prev := elm;
      }
      head.next := elm;
      elm.prev := head;
      ring := Insert(s, 1, elm);
      DistinctInsert(s, 1, elm);
      assert Chained(ring) by { ChainedInsert(s, 1, elm); }
      assert BackChained(ring) by { BackChainedInsert(s, 1, elm); }
    }

    /** LIST_INSERT_AFTER */
    method InsertAfter(listelm: Link, elm: Link)
      requires Valid() && elm !in ring && listelm in Elements(ring)
      modifies this`ring, listelm, listelm.next, elm
      ensures Valid() && ring == Apply(old(ring), Op.InsertAfter(listelm, elm))
    {
      Locate(ring, listelm);
      ghost var s, j := ring, Position(ring, listelm) + 1;
      assert Apply(s, Op.InsertAfter(listelm, elm)) == Insert(s, j, elm);
      hide Position, Elements, Insert, Delete, Apply, Distinct;
      assert j < |s| ==> s[j - 1].next == s[j];
      assert (listelm.next == null) == (j == |s|);
      elm.next := listelm.next;
      if elm.next != null {
        listelm.next.prev := elm;
      }
      listelm.next := elm;
      elm.prev := listelm;
      ring := Insert(s, j, elm);
      DistinctInsert(s, j, elm);
      assert Chained(ring) by { ChainedInsert(s, j, elm); }
      assert BackChained(ring) by { BackChainedInsert(s, j, elm); }
    }

    /** LIST_INSERT_BEFORE: it writes through le_prev, without knowing the head. */
    method InsertBefore(listelm: Link, elm: Link)
      requires Valid() && elm !in ring && listelm in Elements(ring)
      modifies this`ring, listelm, listelm.prev, elm
      ensures Valid() && ring == Apply(old(ring), Op.InsertBefore(listelm, elm))
    {
      Locate(ring, listelm);
      ghost var s, i := ring, Position(ring, listelm);
      assert Apply(s, Op.InsertBefore(listelm, elm)) == Insert(s, i, elm);
      hide Position, Elements, Insert, Delete, Apply, Distinct;
      assert s[i].prev == s[i - 1] && (i + 1 < |s| ==> s[i].next == s[i + 1]);
      assert (listelm.next == null) == (i + 1 == |s|);
      elm.prev := listelm.prev;
      elm.next := listelm;
      listelm.prev.next := elm;
      listelm.prev := elm;
      ring := Insert(s, i, elm);
      DistinctInsert(s, i, elm);
      assert Chained(ring) by { ChainedInsert(s, i, elm); }
      assert BackChained(ring) by { BackChainedInsert(s, i, elm); }
    }

    /** LIST_REMOVE: likewise. */
    method Remove(elm: Link)
      requires Valid() && elm in Elements(ring)
      modifies this`ring, elm.next, elm.prev
      ensures Valid() && ring == Apply(old(ring), Op.Remove(elm))
    {
      Locate(ring, elm);
      ghost var s, i := ring, Position(ring, elm);
      assert Apply(s, Op.Remove(elm)) == Delete(s, i);
      hide Position, Elements, Insert, Delete, Apply, Distinct;
      assert s[i].prev == s[i - 1] && (i + 1 < |s| ==> s[i].next == s[i + 1]);
      assert (elm.next == null) == (i + 1 == |s|);
      if elm.next != null {
        elm.next.prev := elm.prev;
      }
      elm.prev.next := elm.next;
      ring := Delete(s, i);
      DistinctDelete(s, i);
      assert Chained(ring) by { ChainedDelete(s, i); }
      assert BackChained(ring) by { BackChainedDelete(s, i); }
    }

    /** LIST_REPLACE: likewise. */
    method Replace(elm: Link, elm2: Link)
      requires Valid() && elm2 !in ring && elm in Elements(ring)
      modifies this`ring, elm.next, elm.prev, elm2
      ensures Valid() && ring == Apply(old(ring), Op.Replace(elm, elm2))
    {
      Locate(ring, elm);
      ghost var s, i := ring, Position(ring, elm);
      assert Apply(s, Op.Replace(elm, elm2)) == s[i := elm2];
      hide Position, Elements, Insert, Delete, Apply, Distinct;
      assert s[i].prev == s[i - 1] && (i + 1 < |s| ==> s[i].next == s[i + 1]);
      assert (elm.next == null) == (i + 1 == |s|);
      elm2.next := elm.next;
      if elm2.next != null {
        elm2.next.prev := elm2;
      }
      elm2.prev := elm.prev;
      elm2.prev.next := elm2;
      ring := s[i := elm2];
      DistinctReplace(s, i, elm2);
      assert Chained(ring) by { ChainedReplace(s, i, elm2); }
      assert BackChained(ring) by { BackChainedReplace(s, i, elm2); }
    }

    /** Where a change to the neighbours of an element can reach. */
    lemma NeighboursInside(elm: Link)
      requires Valid() && elm in Elements(ring)
      ensures elm in ring && elm.prev in ring && (elm.next != null ==> elm.next in ring)
    {
      Locate(ring, elm);
      var i := Position(ring, elm);
      assert ring[i].prev == ring[i - 1] && (i + 1 < |ring| ==> ring[i].next == ring[i + 1]);
    }

    lemma FirstInside()
      requires Valid()
      ensures head in ring && (head.next != null ==> head.next in ring)
    {
      assert |ring| > 1 ==> ring[0].next == ring[1];
    }

    /** LIST_FOREACH */
    method Foreach() returns (visited: seq<Link>)
      requires Valid()
      ensures visited == Elements(ring)
      ensures |visited| == |ring| - 1 && forall k | 0 <= k < |visited| :: visited[k] == ring[k + 1]
    {
      assert |ring| > 1 ==> ring[0].next == ring[1];
      var v := head.next;
      visited := [];
      ghost var i := 1;
      while v != null
        invariant 1 <= i <= |ring| && v == (if i < |ring| then ring[i] else null)
        invariant visited == ring[1..i]
        decreases |ring| - i
      {
        assert i < |ring| - 1 ==> ring[i].next == ring[i + 1];
        visited := visited + [v];
        v := v.next;
        i := i + 1;
      }
    }

    method Do(op: Op, ghost world: set<Link>)
      requires Valid() && Enabled(ring, op) && !op.InsertTail?
      requires (forall x | x in ring :: x in world) && Within(op, world)
      modifies this`ring, world
      ensures Valid() && ring == Apply(old(ring), op)
      ensures forall x | x in ring :: x in world
    {
      FirstInside();
      if !op.InsertHead? {
        NeighboursInside(op.at);
      }
      ApplyWithin(ring, op, world);
      hide Apply, Elements, Distinct, Chained, BackChained;
      match op
      case InsertHead(e) => InsertHead(e);
      case InsertAfter(at, e) => InsertAfter(at, e);
      case InsertBefore(at, e) => InsertBefore(at, e);
      case Remove(at) => Remove(at);
      case Replace(at, e) => Replace(at, e);
    }

    /** Any run of these operations keeps the structure in agreement with the sequence. */
    method Run(ops: seq<Op>, ghost world: set<Link>)
      requires Valid() && AllEnabled(ring, ops) && forall op | op in ops :: !op.InsertTail?
      requires (forall x | x in ring :: x in world) && forall op | op in ops :: Within(op, world)
      modifies this`ring, world
      ensures Valid() && ring == ApplyAll(old(ring), ops)
      ensures forall x | x in ring :: x in world
    {
      assert ops[0..] == ops;
      for k := 0 to |ops|
        invariant Valid() && AllEnabled(ring, ops[k..])
        invariant forall x | x in ring :: x in world
        invariant ApplyAll(ring, ops[k..]) == ApplyAll(old(ring), ops)
      {
        assert ops[k..][0] == ops[k] && ops[k..][1..] == ops[k + 1..];
        Do(ops[k], world);
      }
    }
  }

  ghost predicate Disjoint(a: seq<Link>, b: seq<Link>) {
    forall x | x in a :: x !in b
  }

  /** Moving an element from one list to the front of another, as between the chains of a hash
      table: nothing is lost, and no other list is touched. */
  method ListMove(a: List, b: List, c: List, elm: Link)
    requires a.Valid() && b.Valid() && c.Valid() && a != b && a != c && b != c
    requires Disjoint(a.ring, b.ring) && Disjoint(a.ring, c.ring) && Disjoint(b.ring, c.ring)
    requires elm in Elements(a.ring)
    modifies a`ring, b`ring, elm, elm.next, elm.prev, b.head, b.head.next
    ensures a.Valid() && b.Valid() && c.Valid()
    ensures a.ring == Apply(old(a.ring), Op.Remove(elm)) && b.ring == Apply(old(b.ring), Op.InsertHead(elm))
    ensures c.ring == old(c.ring)
  {
    a.NeighboursInside(elm);
    b.FirstInside();
    a.Remove(elm);
    RemoveMember(old(a.ring), elm);
    b.InsertHead(elm);
  }

  lemma RemoveMember(ring: seq<Link>, elm: Link)
    requires Distinct(ring) && |ring| > 0 && elm in Elements(ring)
    ensures var ring' := Apply(ring, Op.Remove(elm));
      elm !in ring' && forall x | x in ring' :: x in ring
  {
  }

  // ----- SIMPLEQ

  class SimpleQ {
    const head: Link
    ghost var ring: seq<Link>

    /** The elements are chained forward only; sqh_last designates the final NULL slot. */
    ghost predicate Valid()
      reads this, ring
    {
      && |ring| > 0 && ring[0] == head && Distinct(ring)
      && Chained(ring)
      && ring[|ring| - 1].next == null
      && head.prev == ring[|ring| - 1]
    }

    /** SIMPLEQ_INIT */
    constructor ()
      ensures Valid() && ring == [head] && fresh(head)
    {
      head := new Link();
      ring := [head];
      new;
      head.prev := head;
    }

    /** SIMPLEQ_INSERT_HEAD */
    method InsertHead(elm: Link)
      requires Valid() && elm !in ring
      modifies this`ring, head, elm
      ensures Valid() && ring == Apply(old(ring), Op.InsertHead(elm))
    {
      ghost var s := ring;
      assert |s| > 1 ==> s[0].next == s[1];
      elm.next := head.next;
      if elm.next == null {
        head.prev := elm;
      }
      head.next := elm;
      ring := Insert(s, 1, elm);
      DistinctInsert(s, 1, elm);
      assert Chained(ring) by { ChainedInsert(s, 1, elm); }
    }

    /** SIMPLEQ_INSERT_TAIL */
    method InsertTail(elm: Link)
      requires Valid() && elm !in ring
      modifies this`ring, head, head.prev, elm
      ensures Valid() && ring == Apply(old(ring), Op.InsertTail(elm))
    {
      ghost var s := ring;
      elm.next := null;
      head.prev.next := elm;
      head.prev := elm;
      ring := s + [elm];
      assert Insert(s, |s|, elm) == s + [elm];
      DistinctInsert(s, |s|, elm);
      assert Chained(ring) by { ChainedInsert(s, |s|, elm); }
    }

    /** SIMPLEQ_INSERT_AFTER */
    method InsertAfter(listelm: Link, elm: Link)
      requires Valid() && elm !in ring && listelm in Elements(ring)
      modifies this`ring, head, listelm, elm
      ensures Valid() && ring == Apply(old(ring), Op.InsertAfter(listelm, elm))
    {
      Locate(ring, listelm);
      ghost var s, j := ring, Position(ring, listelm) + 1;
      assert Apply(s, Op.InsertAfter(listelm, elm)) == Insert(s, j, elm);
      hide Position, Elements, Insert, Delete, Apply, Distinct;
      assert j < |s| ==> s[j - 1].next == s[j];
      assert (listelm.next == null) == (j == |s|);
      elm.next := listelm.next;
      if elm.next == null {
        head.prev := elm;
      }
      listelm.next := elm;
      ring := Insert(s, j, elm);
      DistinctInsert(s, j, elm);
      assert Chained(ring) by { ChainedInsert(s, j, elm); }
    }

    /** SIMPLEQ_REMOVE_HEAD, with the element that SIMPLEQ_FIRST gives before it. */
    method RemoveHead() returns (first: Link)
      requires Valid() && |ring| > 1
      modifies this`ring, head
      ensures Valid() && ring == Delete(old(ring), 1) && first == old(ring)[1]
    {
      ghost var s := ring;
      assert s[0].next == s[1] && (|s| > 2 ==> s[1].next == s[2]);
      first := head.next;
      head.next := head.next.next;
      if head.next == null {
        head.prev := head;
      }
      ring := Delete(s, 1);
      DistinctDelete(s, 1);
      assert Chained(ring) by { ChainedDelete(s, 1); }
    }

    lemma LastInside()
      requires Valid()
      ensures head.prev == head || head.prev in Elements(ring)
    {
      assert |ring| > 1 ==> Elements(ring)[|ring| - 2] == head.prev;
    }

    /** SIMPLEQ_FOREACH */
    method Foreach() returns (visited: seq<Link>)
      requires Valid()
      ensures visited == Elements(ring)
      ensures |visited| == |ring| - 1 && forall k | 0 <= k < |visited| :: visited[k] == ring[k + 1]
    {
      assert |ring| > 1 ==> ring[0].next == ring[1];
      var v := head.next;
      visited := [];
      ghost var i := 1;
      while v != null
        invariant 1 <= i <= |ring| && v == (if i < |ring| then ring[i] else null)
        invariant visited == ring[1..i]
        decreases |ring| - i
      {
        assert i < |ring| - 1 ==> ring[i].next == ring[i + 1];
        visited := visited + [v];
        v := v.next;
        i := i + 1;
      }
    }

    method Do(op: Op, ghost world: set<Link>)
      requires Valid() && Enabled(ring, op) && IsSimple(ring, op)
      requires (forall x | x in ring :: x in world) && Within(op, world)
      modifies this`ring, world
      ensures Valid() && ring == Apply(old(ring), op)
      ensures forall x | x in ring :: x in world
    {
      LastInside();
      if op.Remove? {
        FirstPosition(ring);
      }
      assert head in ring && head.prev in ring;
      ApplyWithin(ring, op, world);
      hide Elements, Distinct, Chained;
      match op
      case InsertHead(e) => InsertHead(e);
      case InsertTail(e) => InsertTail(e);
      case InsertAfter(at, e) => InsertAfter(at, e);
      case Remove(_) => var _ := RemoveHead();
    }

    /** Any run of these operations keeps the structure in agreement with the sequence. */
    method Run(ops: seq<Op>, ghost world: set<Link>)
      requires Valid() && AllEnabled(ring, ops) && AllSimple(ring, ops)
      requires (forall x | x in ring :: x in world) && forall op | op in ops :: Within(op, world)
      modifies this`ring, world
      ensures Valid() && ring == ApplyAll(old(ring), ops)
      ensures forall x | x in ring :: x in world
    {
      assert ops[0..] == ops;
      for k := 0 to |ops|
        invariant Valid() && AllEnabled(ring, ops[k..]) && AllSimple(ring, ops[k..])
        invariant forall x | x in ring :: x in world
        invariant ApplyAll(ring, ops[k..]) == ApplyAll(old(ring), ops)
      {
        assert ops[k..][0] == ops[k] && ops[k..][1..] == ops[k + 1..];
        Do(ops[k], world);
      }
    }
  }

  /** An operation that simple queues have: the only element that can be taken out is the first. */
  ghost predicate IsSimple(ring: seq<Link>, op: Op) {
    op.InsertHead? || op.InsertTail? || op.InsertAfter? || (op.Remove? && |ring| > 1 && op.at == ring[1])
  }

  ghost predicate AllSimple(ring: seq<Link>, ops: seq<Op>)
    requires AllEnabled(ring, ops)
    decreases |ops|
  {
    ops == [] || (IsSimple(ring, ops[0]) && AllSimple(Apply(ring, ops[0]), ops[1..]))
  }

  lemma FirstPosition(ring: seq<Link>)
    requires |ring| > 1 && Distinct(ring)
    ensures Position(ring, ring[1]) == 1
  {
    assert ring[0] != ring[1] && ring[1..][0] == ring[1];
  }

  datatype FifoOp = Put(e: Link) | Get

  /** The elements put by a run. */
  ghost function Inputs(ops: seq<FifoOp>): seq<Link> {
    if ops == [] then [] else Inputs(ops[..|ops| - 1]) + (if ops[|ops| - 1].Put? then [ops[|ops| - 1].e] else [])
  }

  ghost function Gets(ops: seq<FifoOp>): nat {
    if ops == [] then 0 else Gets(ops[..|ops| - 1]) + if ops[|ops| - 1].Get? then 1 else 0
  }

  /** Every Get finds an element: never more have been got than put. */
  ghost predicate NeverStarves(ops: seq<FifoOp>) {
    forall k | 0 <= k <= |ops| :: Gets(ops[..k]) <= |Inputs(ops[..k])|
  }

  /** An element is put only while it is not in the queue; once it has been got it may be put again. */
  ghost predicate PutsAbsent(ops: seq<FifoOp>)
    requires NeverStarves(ops)
  {
    forall k | 0 <= k < |ops| && ops[k].Put? :: ops[k].e !in Inputs(ops[..k])[Gets(ops[..k])..]
  }

  /** A run of insert-tail and remove-head on an empty queue, however often it is emptied and
      refilled and its elements used again, is first in, first out: what came out, followed by
      what is still inside, is what went in. */
  method Fifo(q: SimpleQ, ops: seq<FifoOp>) returns (out: seq<Link>)
    requires q.Valid() && q.ring == [q.head]
    requires NeverStarves(ops) && PutsAbsent(ops) && q.head !in Inputs(ops)
    modifies q, q.head, Inputs(ops)
    ensures q.Valid()
    ensures out + Elements(q.ring) == Inputs(ops) && |out| == Gets(ops)
  {
    out := [];
    for k := 0 to |ops|
      invariant q.Valid()
      invariant out + Elements(q.ring) == Inputs(ops[..k]) && |out| == Gets(ops[..k])
    {
      out := Perform(q, ops, k, out);
    }
    assert ops[..|ops|] == ops;
  }

  method Perform(q: SimpleQ, ops: seq<FifoOp>, k: nat, out0: seq<Link>) returns (out: seq<Link>)
    requires q.Valid() && k < |ops|
    requires NeverStarves(ops) && PutsAbsent(ops) && q.head !in Inputs(ops)
    requires out0 + Elements(q.ring) == Inputs(ops[..k]) && |out0| == Gets(ops[..k])
    modifies q`ring, q.head, Inputs(ops)
    ensures q.Valid()
    ensures out + Elements(q.ring) == Inputs(ops[..k + 1]) && |out| == Gets(ops[..k + 1])
  {
    out := out0;
    InputsNext(ops, k);
    if ops[k].Put? {
      BeforePut(ops, k, out, q.ring);
      hide Inputs, Gets, NeverStarves, PutsAbsent, Distinct;
      q.LastInside();
      q.InsertTail(ops[k].e);
    } else {
      BeforeGet(ops, k, out, q.ring);
      hide Inputs, Gets, NeverStarves, PutsAbsent, Distinct;
      var first := q.RemoveHead();
      out := out + [first];
    }
  }

  lemma InputsNext(ops: seq<FifoOp>, k: nat)
    requires k < |ops|
    ensures Inputs(ops[..k + 1]) == Inputs(ops[..k]) + (if ops[k].Put? then [ops[k].e] else [])
    ensures Gets(ops[..k + 1]) == Gets(ops[..k]) + (if ops[k].Get? then 1 else 0)
  {
    assert ops[..k + 1][..k] == ops[..k];
  }

  /** What has been put is what the Put operations put, in their order. */
  lemma {:induction false} InputsMeaning(ops: seq<FifoOp>, k: nat)
    requires k <= |ops|
    ensures |Inputs(ops[..k])| + Gets(ops[..k]) == k
    ensures forall j | 0 <= j < k && ops[j].Put? ::
      0 <= j - Gets(ops[..j]) < |Inputs(ops[..k])| && Inputs(ops[..k])[j - Gets(ops[..j])] == ops[j].e
  {
    if k > 0 {
      InputsMeaning(ops, k - 1);
      InputsNext(ops, k - 1);
      hide Inputs, Gets;
    }
  }

  lemma {:induction false} InputsPrefix(ops: seq<FifoOp>, k: nat)
    requires k <= |ops|
    ensures Inputs(ops[..k]) <= Inputs(ops)
    decreases |ops| - k
  {
    if k < |ops| {
      InputsNext(ops, k);
      InputsPrefix(ops, k + 1);
    } else {
      assert ops[..k] == ops;
    }
  }

  /** Before a Put: the element is not in the queue. */
  lemma BeforePut(ops: seq<FifoOp>, k: nat, out: seq<Link>, ring: seq<Link>)
    requires k < |ops| && ops[k].Put? && NeverStarves(ops) && PutsAbsent(ops) && |ring| > 0 && ring[0] !in Inputs(ops)
    requires out + Elements(ring) == Inputs(ops[..k]) && |out| == Gets(ops[..k])
    ensures ops[k].e !in ring && ops[k].e in Inputs(ops)
    ensures forall x | x in Elements(ring) :: x in Inputs(ops)
    ensures out + Elements(ring + [ops[k].e]) == Inputs(ops[..k + 1])
  {
    InputsNext(ops, k);
    InputsPrefix(ops, k + 1);
    assert ops[k].e !in Inputs(ops[..k])[Gets(ops[..k])..];
    hide Inputs, Gets, NeverStarves, PutsAbsent;
    PutAtEnd(out, ring, Inputs(ops[..k]), ops[k].e, Inputs(ops));
  }

  lemma PutAtEnd(out: seq<Link>, ring: seq<Link>, inside: seq<Link>, e: Link, all: seq<Link>)
    requires |ring| > 0 && ring[0] !in all
    requires out + Elements(ring) == inside && inside + [e] <= all && e !in inside[|out|..]
    ensures e !in ring && e in all
    ensures forall x | x in Elements(ring) :: x in all
    ensures out + Elements(ring + [e]) == inside + [e]
  {
    assert all[|inside|] == (inside + [e])[|inside|] == e;
    assert inside[|out|..] == Elements(ring);
    assert forall k | 0 < k < |ring| :: ring[k] == Elements(ring)[k - 1];
    forall i | 0 <= i < |Elements(ring)|
      ensures Elements(ring)[i] == all[|out| + i]
    {
      assert inside[|out| + i] == (inside + [e])[|out| + i] == all[|out| + i];
    }
  }

  /** Before a Get: there is an element. */
  lemma BeforeGet(ops: seq<FifoOp>, k: nat, out: seq<Link>, ring: seq<Link>)
    requires k < |ops| && ops[k].Get? && NeverStarves(ops) && |ring| > 0
    requires out + Elements(ring) == Inputs(ops[..k]) && |out| == Gets(ops[..k])
    ensures |ring| > 1 && out + [ring[1]] + Elements(Delete(ring, 1)) == Inputs(ops[..k + 1])
  {
    InputsNext(ops, k);
    hide Inputs, Gets;
    assert Gets(ops[..k + 1]) <= |Inputs(ops[..k + 1])|;
    assert |Inputs(ops[..k])| == |out| + |ring| - 1;
    assert Elements(ring) == [ring[1]] + Elements(Delete(ring, 1));
  }

  // ----- SLIST

  class SList {
    const head: Link
    ghost var ring: seq<Link>

    ghost predicate Valid()
      reads this, ring
    {
      && |ring| > 0 && ring[0] == head && Distinct(ring)
      && Chained(ring)
      && ring[|ring| - 1].next == null
    }

    /** SLIST_INIT */
    constructor ()
      ensures Valid() && ring == [head] && fresh(head)
    {
      head := new Link();
      ring := [head];
    }

    /** SLIST_REMOVE: the search loop ends because the element is in the list, and only the next
        slot of the predecessor is written. */
    method Remove(elm: Link)
      requires Valid() && elm in Elements(ring)
      modifies this`ring, ring
      ensures Valid() && ring == Apply(old(ring), Op.Remove(elm))
      ensures forall k | 0 <= k < |old(ring)| :: old(ring)[k].prev == old(ring[k].prev)
      ensures forall k | 0 <= k < |old(ring)| && k + 1 != Position(old(ring), elm) ::
        old(ring)[k].next == old(ring[k].next)
    {
      Locate(ring, elm);
      ghost var s, i := ring, Position(ring, elm);
      assert Apply(s, Op.Remove(elm)) == Delete(s, i);
      hide Position, Elements, Insert, Delete, Apply, Distinct;
      assert i + 1 < |s| ==> s[i].next == s[i + 1];
      assert (elm.next == null) == (i + 1 == |s|);
      if head.next == elm {
        head.next := head.next.next;
      } else {
        var curelm := Predecessor(elm, i);
        curelm.next := curelm.next.next;
      }
      ring := Delete(s, i);
      DistinctDelete(s, i);
      assert Chained(ring) by { ChainedDelete(s, i); }
    }

    method Predecessor(elm: Link, ghost p: nat) returns (curelm: Link)
      requires Valid() && 2 <= p < |ring| && ring[p] == elm
      ensures curelm == ring[p - 1]
    {
      assert ring[0].next == ring[1];
      curelm := head.next;
      ghost var i := 1;
      while curelm.next != elm
        invariant 1 <= i < p && curelm == ring[i]
        decreases p - i
      {
        assert ring[i].next == ring[i + 1];
        curelm := curelm.next;
        i := i + 1;
      }
      assert ring[i].next == ring[i + 1];
    }
  }
}
