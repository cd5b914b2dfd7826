/** Circular queues, tn_net/queue.h:409-506. */
module CircleQueue {
  import opened Links
  import opened Sequences

  class CircleQ {
    /** The head is the sentinel: CIRCLEQ_END is its own address. */
    const head: Link
    /** The head followed by the elements, in order. */
    ghost var ring: seq<Link>

    /** A doubly linked ring through the head: next and prev are inverse to each other. */
    ghost predicate Valid()
      reads this, ring
    {
      && |ring| > 0 && ring[0] == head && Distinct(ring)
      && Chained(ring) && BackChained(ring)
      && ring[|ring| - 1].next == head
      && head.prev == ring[|ring| - 1]
    }

    /** CIRCLEQ_INIT */
    constructor ()
      ensures Valid() && ring == [head] && fresh(head)
    {
      head := new Link();
      ring := [head];
      new;
      head.next := head;
      head.prev := head;
    }

    // ----- traversal

    /** CIRCLEQ_FOREACH */
    method Foreach() returns (visited: seq<Link>)
      requires Valid()
      ensures visited == Elements(ring)
      ensures |visited| == |ring| - 1 && forall k | 0 <= k < |visited| :: visited[k] == ring[k + 1]
    {
      assert |ring| > 1 ==> ring[0].next == ring[1];
      var v := head.next;
      visited := [];
      ghost var i := 1;
      while v != head
        invariant 1 <= i <= |ring| && v == (if i < |ring| then ring[i] else head)
        invariant visited == ring[1..i]
        decreases |ring| - i
      {
        assert i + 1 < |ring| ==> ring[i].next == ring[i + 1];
        visited := visited + [v];
        v := v.next;
        i := i + 1;
      }
    }

    /** CIRCLEQ_FOREACH_REVERSE */
    method ForeachReverse() returns (visited: seq<Link>)
      requires Valid()
      ensures visited == Reverse(Elements(ring))
      ensures |visited| == |ring| - 1 && forall k | 0 <= k < |visited| :: visited[k] == ring[|ring| - 1 - k]
    {
      ReverseAt(Elements(ring));
      var v := head.prev;
      visited := [];
      ghost var i := |ring| - 1;
      while v != head
        invariant 0 <= i < |ring| && v == ring[i]
        invariant visited == Reverse(ring[i + 1..])
        decreases i
      {
        assert ring[i..][0] == v && ring[i..][1..] == ring[i + 1..];
        assert ring[i].prev == ring[i - 1];
        visited := visited + [v];
        v := v.prev;
        i := i - 1;
      }
    }

    // ----- operations

    /** CIRCLEQ_INSERT_AFTER */
    method InsertAfter(listelm: Link, elm: Link)
      requires Valid() && elm !in ring && listelm in Elements(ring)
      modifies this`ring, head, listelm, listelm.next, elm
      ensures Valid() && ring == Apply(old(ring), Op.InsertAfter(listelm, elm))
    {
      Locate(ring, listelm);
      ghost var s, j := ring, Position(ring, listelm) + 1;
      assert Apply(s, Op.InsertAfter(listelm, elm)) == Insert(s, j, elm);
      hide Position, Elements, Insert, Delete, Apply, Distinct;
      assert j < |s| ==> s[j - 1].next == s[j];
      assert (listelm.next == head) == (j == |s|);
      elm.next := listelm.next;
      elm.prev := listelm;
      if listelm.next == head {
        head.prev := elm;
      } else {
        listelm.next.prev := elm;
      }
      listelm.next := elm;
      ring := Insert(s, j, elm);
      DistinctInsert(s, j, elm);
      assert Chained(ring) by { ChainedInsert(s, j, elm); }
      assert BackChained(ring) by { BackChainedInsert(s, j, elm); }
    }

    /** CIRCLEQ_INSERT_BEFORE */
    method InsertBefore(listelm: Link, elm: Link)
      requires Valid() && elm !in ring && listelm in Elements(ring)
      modifies this`ring, head, listelm, listelm.prev, elm
      ensures Valid() && ring == Apply(old(ring), Op.InsertBefore(listelm, elm))
    {
      Locate(ring, listelm);
      ghost var s, i := ring, Position(ring, listelm);
      assert Apply(s, Op.InsertBefore(listelm, elm)) == Insert(s, i, elm);
      hide Position, Elements, Insert, Delete, Apply, Distinct;
      assert s[i].prev == s[i - 1] && (i + 1 < |s| ==> s[i].next == s[i + 1]);
      assert (listelm.next == head) == (i + 1 == |s|);
      elm.next := listelm;
      elm.prev := listelm.prev;
      if listelm.prev == head {
        head.next := elm;
      } else {
        listelm.prev.next := elm;
      }
      listelm.prev := elm;
      ring := Insert(s, i, elm);
      DistinctInsert(s, i, elm);
      assert Chained(ring) by { ChainedInsert(s, i, elm); }
      assert BackChained(ring) by { BackChainedInsert(s, i, elm); }
    }

    /** CIRCLEQ_INSERT_HEAD */
    method InsertHead(elm: Link)
      requires Valid() && elm !in ring
      modifies this`ring, head, head.next, elm
      ensures Valid() && ring == Apply(old(ring), Op.InsertHead(elm))
    {
      ghost var s := ring;
      assert |s| > 1 ==> s[0].next == s[1];
      elm.next := head.next;
      elm.prev := head;
      if head.prev == head {
        head.prev := elm;
      } else {
        head.next.prev := elm;
      }
      head.next := elm;
      ring := Insert(s, 1, elm);
      DistinctInsert(s, 1, elm);
      assert Chained(ring) by { ChainedInsert(s, 1, elm); }
      assert BackChained(ring) by { BackChainedInsert(s, 1, elm); }
    }

    /** CIRCLEQ_INSERT_TAIL */
    method InsertTail(elm: Link)
      requires Valid() && elm !in ring
      modifies this`ring, head, head.prev, elm
      ensures Valid() && ring == Apply(old(ring), Op.InsertTail(elm))
    {
      ghost var s := ring;
      assert |s| > 1 ==> s[0].next == s[1];
      elm.next := head;
      elm.prev := head.prev;
      if head.next == head {
        head.next := elm;
      } else {
        head.prev.next := elm;
      }
      head.prev := elm;
      ring := s + [elm];
      assert Insert(s, |s|, elm) == s + [elm];
      DistinctInsert(s, |s|, elm);
      assert Chained(ring) by { ChainedInsert(s, |s|, elm); }
      assert BackChained(ring) by { BackChainedInsert(s, |s|, elm); }
    }

    /** CIRCLEQ_REMOVE */
    method Remove(elm: Link)
      requires Valid() && elm in Elements(ring)
      modifies this`ring, head, elm.next, elm.prev
      ensures Valid() && ring == Apply(old(ring), Op.Remove(elm))
    {
      Locate(ring, elm);
      ghost var s, i := ring, Position(ring, elm);
      assert Apply(s, Op.Remove(elm)) == Delete(s, i);
      hide Position, Elements, Insert, Delete, Apply, Distinct;
      assert s[i].prev == s[i - 1] && (i + 1 < |s| ==> s[i].next == s[i + 1]);
      assert (elm.next == head) == (i + 1 == |s|);
      if elm.next == head {
        head.prev := elm.prev;
      } else {
        elm.next.prev := elm.prev;
      }
      if elm.prev == head {
        head.next := elm.next;
      } else {
        elm.prev.next := elm.next;
      }
      ring := Delete(s, i);
      DistinctDelete(s, i);
      assert Chained(ring) by { ChainedDelete(s, i); }
      assert BackChained(ring) by { BackChainedDelete(s, i); }
    }

    lemma HeadReach()
      requires Valid()
      ensures head in ring && head.prev in ring && head.next in ring
    {
      assert |ring| > 1 ==> ring[0].next == ring[1];
    }

    lemma Reach(x: Link)
      requires Valid() && x in Elements(ring)
      ensures x in ring && x.prev in ring && x.next in ring
    {
      Locate(ring, x);
      var i := Position(ring, x);
      assert ring[i].prev == ring[i - 1] && (i + 1 < |ring| ==> ring[i].next == ring[i + 1]);
    }

    method Do(op: Op, ghost world: set<Link>)
      requires Valid() && Enabled(ring, op) && !op.Replace?
      requires (forall x | x in ring :: x in world) && Within(op, world)
      modifies this`ring, world
      ensures Valid() && ring == Apply(old(ring), op)
      ensures forall x | x in ring :: x in world
    {
      HeadReach();
      if op.InsertAfter? || op.InsertBefore? || op.Remove? {
        Reach(op.at);
      }
      ApplyWithin(ring, op, world);
      hide Apply, Elements, Distinct, Chained, BackChained;
      match op
      case InsertHead(e) => InsertHead(e);
      case InsertTail(e) => InsertTail(e);
      case InsertAfter(at, e) => InsertAfter(at, e);
      case InsertBefore(at, e) => InsertBefore(at, e);
      case Remove(at) => Remove(at);
    }

    /** Any run of operations keeps the ring in agreement with the sequence. */
    method Run(ops: seq<Op>, ghost world: set<Link>)
      requires Valid() && AllEnabled(ring, ops) && forall op | op in ops :: !op.Replace?
      requires (forall x | x in ring :: x in world) && forall op | op in ops :: Within(op, world)
      modifies this`ring, world
      ensures Valid() && ring == ApplyAll(old(ring), ops)
      ensures forall x | x in ring :: x in world
    {
      assert ops[0..] == ops;
      for k := 0 to |ops|
        invariant Valid() && AllEnabled(ring, ops[k..])
        invariant forall x | x in ring :: x in world
        invariant ApplyAll(ring, ops[k..]) == ApplyAll(old(ring), ops)
      {
        assert ops[k..][0] == ops[k] && ops[k..][1..] == ops[k + 1..];
        Do(ops[k], world);
      }
    }
  }
}
