/** Tail queues, tn_net/queue.h:302-404. */
module TailQueue {
  import opened Links
  import opened Sequences

  class TailQ {
    const head: Link
    /** The head followed by the elements, in order. */
    ghost var ring: seq<Link>

    /** Every next slot holds the following element, the last one NULL; every element's
        tqe_prev designates the slot that points to it; tqh_last designates the NULL slot. */
    ghost predicate Valid()
      reads this, ring
    {
      && |ring| > 0 && ring[0] == head && Distinct(ring)
      && Chained(ring) && BackChained(ring)
      && ring[|ring| - 1].next == null
      && head.prev == ring[|ring| - 1]
    }

    /** TAILQ_INIT */
    constructor ()
      ensures Valid() && ring == [head] && fresh(head)
    {
      head := new Link();
      ring := [head];
      new;
      head.prev := head;
    }

    // ----- access

    /** TAILQ_FIRST */
    function First(): (r: Link?)
      requires Valid()
      reads this, ring
      ensures r == if |ring| == 1 then null else ring[1]
    {
      head.next
    }

    /** TAILQ_LAST: tqh_last is taken for a head, and the slot that the second pointer of this
        supposed head designates is read. */
    function Last(): (r: Link?)
      requires Valid()
      reads this, ring
      ensures r == if |ring| == 1 then null else ring[|ring| - 1]
    {
      assert |ring| > 1 ==> ring[|ring| - 1].prev == ring[|ring| - 2];
      head.prev.prev.next
    }

    /** TAILQ_NEXT */
    function Next(elm: Link, ghost i: nat): (r: Link?)
      requires Valid() && 1 <= i < |ring| && ring[i] == elm
      reads this, ring
      ensures r == if i == |ring| - 1 then null else ring[i + 1]
    {
      assert i < |ring| - 1 ==> ring[i].next == ring[i + 1];
      elm.next
    }

    /** TAILQ_PREV: the same cast, from an element. */
    function Prev(elm: Link, ghost i: nat): (r: Link?)
      requires Valid() && 1 <= i < |ring| && ring[i] == elm
      reads this, ring
      ensures r == if i == 1 then null else ring[i - 1]
    {
      assert ring[i].prev == ring[i - 1] && (i > 1 ==> ring[i - 1].prev == ring[i - 2]);
      elm.prev.prev.next
    }

    // ----- traversal

    /** TAILQ_FOREACH */
    method Foreach() returns (visited: seq<Link>)
      requires Valid()
      ensures visited == Elements(ring)
      ensures |visited| == |ring| - 1 && forall k | 0 <= k < |visited| :: visited[k] == ring[k + 1]
    {
      var v := First();
      visited := [];
      ghost var i := 1;
      while v != null
        invariant 1 <= i <= |ring| && v == (if i < |ring| then ring[i] else null)
        invariant visited == ring[1..i]
        decreases |ring| - i
      {
        visited := visited + [v];
        v := Next(v, i);
        i := i + 1;
      }
    }

    /** TAILQ_FOREACH_REVERSE */
    method ForeachReverse() returns (visited: seq<Link>)
      requires Valid()
      ensures visited == Reverse(Elements(ring))
      ensures |visited| == |ring| - 1 && forall k | 0 <= k < |visited| :: visited[k] == ring[|ring| - 1 - k]
    {
      ReverseAt(Elements(ring));
      var v := Last();
      visited := [];
      ghost var i := |ring| - 1;
      while v != null
        invariant 0 <= i < |ring| && v == (if i > 0 then ring[i] else null)
        invariant visited == Reverse(ring[i + 1..])
        decreases i
      {
        assert ring[i..][0] == v && ring[i..][1..] == ring[i + 1..];
        visited := visited + [v];
        v := Prev(v, i);
        i := i - 1;
      }
    }

    // ----- operations

    /** TAILQ_INSERT_HEAD */
    method InsertHead(elm: Link)
      requires Valid() && elm !in ring
      modifies this`ring, head, head.next, elm
      ensures Valid() && ring == Apply(old(ring), Op.InsertHead(elm))
    {
      ghost var s := ring;
      assert |s| > 1 ==> s[0].next == s[1];
      elm.next := head.next;
      if elm.next != null {
        head.next.prev := elm;
      } else {
        head.prev := elm;
      }
      head.next := elm;
      elm.prev := head;
      ring := Insert(s, 1, elm);
      DistinctInsert(s, 1, elm);
      assert Chained(ring) by { ChainedInsert(s, 1, elm); }
      assert BackChained(ring) by { BackChainedInsert(s, 1, elm); }
    }

    /** TAILQ_INSERT_TAIL */
    method InsertTail(elm: Link)
      requires Valid() && elm !in ring
      modifies this`ring, head, head.prev, elm
      ensures Valid() && ring == Apply(old(ring), Op.InsertTail(elm))
    {
      ghost var s := ring;
      elm.next := null;
      elm.prev := head.prev;
      head.prev.next := elm;
      head.prev := elm;
      ring := s + [elm];
      assert Insert(s, |s|, elm) == s + [elm];
      DistinctInsert(s, |s|, elm);
      assert Chained(ring) by { ChainedInsert(s, |s|, elm); }
      assert BackChained(ring) by { BackChainedInsert(s, |s|, elm); }
    }

    /** TAILQ_INSERT_AFTER */
    method InsertAfter(listelm: Link, elm: Link)
      requires Valid() && elm !in ring && listelm in Elements(ring)
      modifies this`ring, head, listelm, listelm.next, elm
      ensures Valid() && ring == Apply(old(ring), Op.InsertAfter(listelm, elm))
    {
      Locate(ring, listelm);
      ghost var s, j := ring, Position(ring, listelm) + 1;
      assert Apply(s, Op.InsertAfter(listelm, elm)) == Insert(s, j, elm);
      hide Position, Elements, Insert, Delete, Apply, Distinct;
      assert j < |s| ==> s[j - 1].next == s[j];
      assert (listelm.next == null) == (j == |s|);
      elm.next := listelm.next;
      if elm.next != null {
        elm.next.prev := elm;
      } else {
        head.prev := elm;
      }
      listelm.next := elm;
      elm.prev := listelm;
      ring := Insert(s, j, elm);
      DistinctInsert(s, j, elm);
      assert Chained(ring) by { ChainedInsert(s, j, elm); }
      assert BackChained(ring) by { BackChainedInsert(s, j, elm); }
    }

    /** TAILQ_INSERT_BEFORE: it needs no head. */
    method InsertBefore(listelm: Link, elm: Link)
      requires Valid() && elm !in ring && listelm in Elements(ring)
      modifies this`ring, listelm, listelm.prev, elm
      ensures Valid() && ring == Apply(old(ring), Op.InsertBefore(listelm, elm))
    {
      Locate(ring, listelm);
      ghost var s, i := ring, Position(ring, listelm);
      assert Apply(s, Op.InsertBefore(listelm, elm)) == Insert(s, i, elm);
      hide Position, Elements, Insert, Delete, Apply, Distinct;
      assert s[i].prev == s[i - 1] && (i + 1 < |s| ==> s[i].next == s[i + 1]);
      assert (listelm.next == null) == (i + 1 == |s|);
      elm.prev := listelm.prev;
      elm.next := listelm;
      listelm.prev.next := elm;
      listelm.prev := elm;
      ring := Insert(s, i, elm);
      DistinctInsert(s, i, elm);
      assert Chained(ring) by { ChainedInsert(s, i, elm); }
      assert BackChained(ring) by { BackChainedInsert(s, i, elm); }
    }

    /** TAILQ_REMOVE */
    method Remove(elm: Link)
      requires Valid() && elm in Elements(ring)
      modifies this`ring, head, elm.next, elm.prev
      ensures Valid() && ring == Apply(old(ring), Op.Remove(elm))
    {
      Locate(ring, elm);
      ghost var s, i := ring, Position(ring, elm);
      assert Apply(s, Op.Remove(elm)) == Delete(s, i);
      hide Position, Elements, Insert, Delete, Apply, Distinct;
      assert s[i].prev == s[i - 1] && (i + 1 < |s| ==> s[i].next == s[i + 1]);
      assert (elm.next == null) == (i + 1 == |s|);
      if elm.next != null {
        elm.next.prev := elm.prev;
      } else {
        head.prev := elm.prev;
      }
      elm.prev.next := elm.next;
      ring := Delete(s, i);
      DistinctDelete(s, i);
      assert Chained(ring) by { ChainedDelete(s, i); }
      assert BackChained(ring) by { BackChainedDelete(s, i); }
    }

    /** TAILQ_REPLACE */
    method Replace(elm: Link, elm2: Link)
      requires Valid() && elm2 !in ring && elm in Elements(ring)
      modifies this`ring, head, elm.next, elm.prev, elm2
      ensures Valid() && ring == Apply(old(ring), Op.Replace(elm, elm2))
    {
      Locate(ring, elm);
      ghost var s, i := ring, Position(ring, elm);
      assert Apply(s, Op.Replace(elm, elm2)) == s[i := elm2];
      hide Position, Elements, Insert, Delete, Apply, Distinct;
      assert s[i].prev == s[i - 1] && (i + 1 < |s| ==> s[i].next == s[i + 1]);
      assert (elm.next == null) == (i + 1 == |s|);
      elm2.next := elm.next;
      if elm2.next != null {
        elm2.next.prev := elm2;
      } else {
        head.prev := elm2;
      }
      elm2.prev := elm.prev;
      elm2.prev.next := elm2;
      ring := s[i := elm2];
      DistinctReplace(s, i, elm2);
      assert Chained(ring) by { ChainedReplace(s, i, elm2); }
      assert BackChained(ring) by { BackChainedReplace(s, i, elm2); }
    }

    lemma HeadReach()
      requires Valid()
      ensures head in ring && head.prev in ring && (head.next != null ==> head.next in ring)
    {
      assert |ring| > 1 ==> ring[0].next == ring[1];
    }

    lemma Reach(x: Link)
      requires Valid() && x in Elements(ring)
      ensures x in ring && x.prev in ring && (x.next != null ==> x.next in ring)
    {
      Locate(ring, x);
      var i := Position(ring, x);
      assert ring[i].prev == ring[i - 1] && (i + 1 < |ring| ==> ring[i].next == ring[i + 1]);
    }

    method Do(op: Op, ghost world: set<Link>)
      requires Valid() && Enabled(ring, op)
      requires (forall x | x in ring :: x in world) && Within(op, world)
      modifies this`ring, world
      ensures Valid() && ring == Apply(old(ring), op)
      ensures forall x | x in ring :: x in world
    {
      HeadReach();
      if op.InsertAfter? || op.InsertBefore? || op.Remove? || op.Replace? {
        Reach(op.at);
      }
      ApplyWithin(ring, op, world);
      hide Apply, Elements, Distinct, Chained, BackChained;
      match op
      case InsertHead(e) => InsertHead(e);
      case InsertTail(e) => InsertTail(e);
      case InsertAfter(at, e) => InsertAfter(at, e);
      case InsertBefore(at, e) => InsertBefore(at, e);
      case Remove(at) => Remove(at);
      case Replace(at, e) => Replace(at, e);
    }

    /** Any run of operations keeps the structure in agreement with the sequence. */
    method Run(ops: seq<Op>, ghost world: set<Link>)
      requires Valid() && AllEnabled(ring, ops)
      requires (forall x | x in ring :: x in world) && forall op | op in ops :: Within(op, world)
      modifies this`ring, world
      ensures Valid() && ring == ApplyAll(old(ring), ops)
      ensures forall x | x in ring :: x in world
    {
      assert ops[0..] == ops;
      for k := 0 to |ops|
        invariant Valid() && AllEnabled(ring, ops[k..])
        invariant forall x | x in ring :: x in world
        invariant ApplyAll(ring, ops[k..]) == ApplyAll(old(ring), ops)
      {
        assert ops[k..][0] == ops[k] && ops[k..][1..] == ops[k + 1..];
        Do(ops[k], world);
      }
    }
  }
}
