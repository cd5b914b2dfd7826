/** Arrival of TCP data: trimming to the window, reassembly of segments that arrive out of
    order, and delivery to the socket, tn_net/tn_tcp_input.c:118-271, 619-723 and 1074-1112. */
module TcpReass {
  import opened Machine
  import opened SeqSpace
  import opened Sequences

  /** A queued segment: header fields th_seq, th_reseqlen and TH_FIN, and its mbuf data. */
  datatype Seg = Seg(thSeq: Word32, reseqlen: nat, data: seq<Byte>, fin: bool)

  const TCPS_ESTABLISHED := 4
  const TCPS_CLOSE_WAIT := 5
  const TCPS_FIN_WAIT_1 := 6
  const TCPS_CLOSING := 7
  const TCPS_FIN_WAIT_2 := 9

  /** `seg` holds the bytes of `piece`, or a FIN alone. */
  ghost predicate Matches(seg: Seg, piece: Piece, isn: Word32, stream: seq<Byte>) {
    && seg.thSeq == SeqOf(isn, piece.at) && seg.reseqlen == |seg.data| == piece.len
    && (piece.len > 0 || seg.fin)
    && piece.End() <= |stream| && seg.data == stream[piece.at..piece.End()]
  }

  ghost predicate AllMatch(segs: seq<Seg>, pieces: seq<Piece>, isn: Word32, stream: seq<Byte>) {
    |segs| == |pieces| && forall k | 0 <= k < |segs| :: Matches(segs[k], pieces[k], isn, stream)
  }

  /** A reassembly queue whose left edge is `low`. */
  ghost predicate Queue(segs: seq<Seg>, pieces: seq<Piece>, low: nat, isn: Word32, stream: seq<Byte>) {
    AllMatch(segs, pieces, isn, stream) && Ordered(pieces) && Between(pieces, low, low + 0x7FFF_FFFF)
  }

  /** Nothing that could be delivered is left in the queue. */
  ghost predicate NothingNext(pieces: seq<Piece>, low: nat) {
    pieces != [] ==> pieces[0].at > low
  }

  // ----- the FIN flags of the queue

  /** A queued segment that ends at position `e` has the FIN flag. */
  ghost predicate FinAt(segs: seq<Seg>, pieces: seq<Piece>, e: nat) {
    exists k :: 0 <= k < |segs| && k < |pieces| && segs[k].fin && pieces[k].End() == e
  }

  /** A FIN alone is queued at position `e`. */
  ghost predicate EmptyAt(pieces: seq<Piece>, e: nat) {
    Piece(e, 0) in pieces
  }

  /** A single queued segment has all of [at, end) and goes on behind `at`. */
  ghost predicate HeldByOne(pieces: seq<Piece>, at: nat, end: nat) {
    exists k :: 0 <= k < |pieces| && pieces[k].at <= at < pieces[k].End() && end <= pieces[k].End()
  }

  /** The flag at `e`, outside [at, end), once a segment [at, end) has been put in the queue.  At
      its end the segment brings its own flag, and the flag of a segment that it replaces is
      forgotten, unless it is itself dropped as a duplicate. */
  ghost predicate FlagAfter(segs: seq<Seg>, pieces: seq<Piece>, at: nat, end: nat, fin: bool, e: nat) {
    if e == end && !HeldByOne(pieces, at, end) then fin || EmptyAt(pieces, e) else FinAt(segs, pieces, e)
  }

  /** No flag appears but that of the segment that ends at `end`. */
  ghost predicate FinsFrom(segs0: seq<Seg>, pieces0: seq<Piece>, segs: seq<Seg>, pieces: seq<Piece>,
                           end: nat, fin: bool)
  {
    forall e: nat | FinAt(segs, pieces, e) :: FinAt(segs0, pieces0, e) || (fin && e == end)
  }

  /** The flags from `low` on once the segment [at, end) has been merged. */
  ghost predicate FinsAfter(segs0: seq<Seg>, pieces0: seq<Piece>, segs: seq<Seg>, pieces: seq<Piece>,
                            at: nat, end: nat, fin: bool, low: nat)
  {
    forall e: nat | e >= low && !(at <= e < end) ::
      FinAt(segs, pieces, e) <==> FlagAfter(segs0, pieces0, at, end, fin, e)
  }

  /** No segment without data appears but, if `alone`, the one at `end`. */
  ghost predicate EmptiesFrom(pieces0: seq<Piece>, pieces: seq<Piece>, end: nat, alone: bool) {
    forall e: nat | EmptyAt(pieces, e) :: EmptyAt(pieces0, e) || (alone && e == end)
  }

  /** Whether a FIN alone is queued at `n` once the segment [at, end) has been merged. */
  ghost predicate EmptiesAfter(pieces0: seq<Piece>, pieces: seq<Piece>, at: nat, end: nat, n: nat) {
    EmptyAt(pieces, n) <==> EmptyAt(pieces0, n) || at == end == n
  }

  /** No flag and no segment without data appears, and no flag from `low` on disappears. */
  ghost predicate SameFlags(segs0: seq<Seg>, pieces0: seq<Piece>, segs: seq<Seg>, pieces: seq<Piece>, low: nat) {
    && (forall e: nat | FinAt(segs, pieces, e) :: FinAt(segs0, pieces0, e))
    && (forall e: nat | e >= low :: FinAt(segs, pieces, e) <==> FinAt(segs0, pieces0, e))
    && (forall e: nat | EmptyAt(pieces, e) :: EmptyAt(pieces0, e))
  }

  /** What a segment does to the flags shows after a delivery too. */
  lemma FlagsDelivered(segs0: seq<Seg>, pieces0: seq<Piece>, segs1: seq<Seg>, pieces1: seq<Piece>,
                       segs: seq<Seg>, pieces: seq<Piece>, at: nat, end: nat, fin: bool, alone: bool, low: nat)
    requires FinsFrom(segs0, pieces0, segs1, pieces1, end, fin) && EmptiesFrom(pieces0, pieces1, end, alone)
    requires FinsAfter(segs0, pieces0, segs1, pieces1, at, end, fin, 0)
    requires SameFlags(segs1, pieces1, segs, pieces, low)
    ensures FinsFrom(segs0, pieces0, segs, pieces, end, fin) && EmptiesFrom(pieces0, pieces, end, alone)
    ensures FinsAfter(segs0, pieces0, segs, pieces, at, end, fin, low)
  {
    hide FinAt, EmptyAt, FlagAfter;
  }

  lemma NothingChanged(segs: seq<Seg>, pieces: seq<Piece>, low: nat)
    ensures SameFlags(segs, pieces, segs, pieces, low)
  {
  }

  lemma Flushed(segs: seq<Seg>, pieces: seq<Piece>, end: nat, fin: bool, alone: bool)
    ensures FinsFrom(segs, pieces, [], [], end, fin) && EmptiesFrom(pieces, [], end, alone)
  {
  }

  lemma FlagFrom(segs0: seq<Seg>, pieces0: seq<Piece>, segs: seq<Seg>, pieces: seq<Piece>,
                 at: nat, end: nat, fin: bool, e: nat)
    requires FinsAfter(segs0, pieces0, segs, pieces, at, end, fin, 0) && e >= end
    ensures FinAt(segs, pieces, e) <==> FlagAfter(segs0, pieces0, at, end, fin, e)
  {
  }

  /** A delivery up to `low` has left these segments, and the last segment delivered, if any,
      has the flag `fin`. */
  ghost predicate Shows(segs0: seq<Seg>, pieces0: seq<Piece>, segs: seq<Seg>, pieces: seq<Piece>, low: nat, fin: bool) {
    && SameFlags(segs0, pieces0, segs, pieces, low + 1)
    && (forall e: nat | e > low :: EmptyAt(pieces, e) <==> EmptyAt(pieces0, e))
    && (FinAt(segs0, pieces0, low) <==> fin || FinAt(segs, pieces, low))
  }

  lemma ShowsAll(segs: seq<Seg>, pieces: seq<Piece>, low: nat)
    ensures Shows(segs, pieces, segs, pieces, low, false)
  {
  }

  lemma ShowsNext(segs0: seq<Seg>, pieces0: seq<Piece>, segs1: seq<Seg>, pieces1: seq<Piece>,
                  segs: seq<Seg>, pieces: seq<Piece>, low1: nat, low: nat, fin1: bool, fin: bool)
    requires Shows(segs0, pieces0, segs1, pieces1, low1, fin1) && Shows(segs1, pieces1, segs, pieces, low, fin)
    requires low1 <= low && (low == low1 ==> fin)
    ensures Shows(segs0, pieces0, segs, pieces, low, fin)
  {
    hide FinAt, EmptyAt;
  }

  lemma ShowsInEnd(segs0: seq<Seg>, pieces0: seq<Piece>, segs: seq<Seg>, pieces: seq<Piece>,
                   low: nat, fin: bool, n: nat)
    requires Shows(segs0, pieces0, segs, pieces, low, fin) && !FinAt(segs, pieces, low) && low <= n
    requires EmptyAt(pieces0, n) ==> FinAt(segs0, pieces0, n)
    requires EmptyAt(pieces, n) ==> FinAt(segs, pieces, n)
    ensures SameFlags(segs0, pieces0, segs, pieces, low + 1)
    ensures fin <==> FinAt(segs0, pieces0, low)
    ensures !fin ==> (EmptyAt(pieces, n) <==> EmptyAt(pieces0, n))
  {
    hide FinAt, EmptyAt;
  }

  lemma FinAtTail(segs: seq<Seg>, pieces: seq<Piece>)
    requires |segs| == |pieces| > 0
    ensures forall e: nat ::
      FinAt(segs, pieces, e) <==> (segs[0].fin && pieces[0].End() == e) || FinAt(segs[1..], pieces[1..], e)
  {
    assert Delete(segs, 0) == segs[1..] && Delete(pieces, 0) == pieces[1..];
    FinRemoved(segs, pieces, 0);
  }

  class TcpCb {
    var segq: seq<Seg>
    var rcvNxt: Word32
    var rcvBuf: seq<Byte>
    var state: nat
    var cantRcvMore: bool

    /** What the peer sends, and where in it we are. */
    ghost const isn: Word32
    ghost const stream: seq<Byte>
    ghost var rcvPos: nat
    ghost var pieces: seq<Piece>

    /** The queue is in stream order without overlap, all of it ahead of what has been
        delivered and within 2^31; everything held or delivered is what the peer sent. */
    ghost predicate Valid()
      reads this
    {
      Delivered() && Queue(segq, pieces, rcvPos, isn, stream)
    }

    /** The socket has the first bytes of the stream: all those before the left edge, unless the
        user cannot receive any more. */
    ghost predicate Delivered()
      reads this`rcvPos, this`rcvNxt, this`rcvBuf, this`cantRcvMore
    {
      && rcvPos <= |stream| && rcvNxt == SeqOf(isn, rcvPos)
      && |rcvBuf| <= rcvPos && rcvBuf == stream[..|rcvBuf|] && (!cantRcvMore ==> |rcvBuf| == rcvPos)
    }

    /** The stream positions received: delivered or queued. */
    ghost function Received(): set<int>
      reads this
    {
      Interval(0, rcvPos) + Cover(pieces)
    }

    ghost predicate Drained()
      reads this
    {
      NothingNext(pieces, rcvPos)
    }

    constructor (isn: Word32, ghost stream: seq<Byte>, state: nat)
      ensures Valid() && Received() == {} && rcvPos == 0 && this.isn == isn && this.stream == stream
      ensures this.state == state && !cantRcvMore && Drained() && segq == []
    {
      this.isn, this.stream, this.state := isn, stream, state;
      segq, rcvBuf, cantRcvMore := [], [], false;
      rcvNxt := isn;
      rcvPos, pieces := 0, [];
    }

    /** Lines 231-270: deliver the segments that follow on from what has been delivered.  The
        test for SYN_RECEIVED with data (line 241) comes after the test for an earlier state
        (line 236) and never succeeds. */
    method Present() returns (fin: bool)
      requires Valid()
      modifies this`segq, this`rcvNxt, this`rcvBuf, this`rcvPos, this`pieces
      ensures Valid() && Received() == old(Received())
      ensures if state < TCPS_ESTABLISHED then rcvPos == old(rcvPos) && pieces == old(pieces) && !fin
              else Drained() && rcvPos >= old(rcvPos)
      ensures state >= TCPS_ESTABLISHED ==> (fin <==> FinAt(old(segq), old(pieces), rcvPos))
      ensures SameFlags(old(segq), old(pieces), segq, pieces, rcvPos + 1)
      ensures !fin ==> (EmptyAt(pieces, |stream|) <==> EmptyAt(old(pieces), |stream|))
      ensures old(Drained()) ==> rcvPos == old(rcvPos) && !fin
    {
      fin := false;
      NothingChanged(segq, pieces, rcvPos + 1);
      hide SeqOf, Cover, Interval, FinAt, EmptyAt, Queue, Received, Valid, SameFlags;
      if state >= TCPS_ESTABLISHED {
        fin := DeliverReady();
      }
    }

    /** Lines 238-270, in a connection that is established. */
    method DeliverReady() returns (fin: bool)
      requires Valid()
      modifies this`segq, this`rcvNxt, this`rcvBuf, this`rcvPos, this`pieces
      ensures Valid() && Received() == old(Received()) && Drained() && rcvPos >= old(rcvPos)
      ensures fin <==> FinAt(old(segq), old(pieces), rcvPos)
      ensures SameFlags(old(segq), old(pieces), segq, pieces, rcvPos + 1)
      ensures !fin ==> (EmptyAt(pieces, |stream|) <==> EmptyAt(old(pieces), |stream|))
      ensures old(Drained()) ==> rcvPos == old(rcvPos) && !fin
    {
      hide SeqOf, Cover, Interval, FinAt, EmptyAt, Queue, Received, Delivered, NothingNext, Shows, SameFlags;
      fin := false;
      ghost var s0, p0 := segq, pieces;
      EmptyHasFin(s0, p0, |stream|, rcvPos, isn, stream);
      ShowsAll(s0, p0, rcvPos);
      var ready := IsNext();
      while ready
        invariant Valid() && Received() == old(Received()) && rcvPos >= old(rcvPos)
        invariant if ready then segq != [] && pieces != [] && pieces[0].at == rcvPos else Drained()
        invariant Shows(s0, p0, segq, pieces, rcvPos, fin)
        invariant old(Drained()) ==> !ready && rcvPos == old(rcvPos) && !fin
        decreases |segq|, ready
      {
        ghost var s1, p1, fin1, pos1 := segq, pieces, fin, rcvPos;
        fin := PresentFirst();
        ShowsNext(s0, p0, s1, p1, segq, pieces, pos1, rcvPos, fin1, fin);
        ready := IsNext();
      }
      NothingEndsHere();
      EmptyHasFin(segq, pieces, |stream|, rcvPos, isn, stream);
      ShowsInEnd(s0, p0, segq, pieces, rcvPos, fin, |stream|);
    }

    /** A drained queue has nothing that ends at the left edge. */
    lemma NothingEndsHere()
      requires Valid() && Drained()
      ensures !FinAt(segq, pieces, rcvPos) && rcvPos <= |stream| && Queue(segq, pieces, rcvPos, isn, stream)
    {
      assert forall k | 0 < k < |pieces| :: pieces[0].End() <= pieces[k].at;
    }

    /** Whether the first queued segment is the next one to deliver (lines 239 and 265). */
    method IsNext() returns (ready: bool)
      requires Valid()
      ensures if ready then segq != [] && pieces != [] && pieces[0].at == rcvPos && !Drained() else Drained()
    {
      ready := segq != [] && segq[0].thSeq == rcvNxt;
      if segq != [] {
        SeqEqual(isn, pieces[0].at, rcvPos);
      }
    }

    /** The body of the loop of lines 246-265. */
    method PresentFirst() returns (fin: bool)
      requires Valid() && segq != [] && pieces != [] && pieces[0].at == rcvPos
      modifies this`segq, this`rcvNxt, this`rcvBuf, this`rcvPos, this`pieces
      ensures Valid() && Received() == old(Received())
      ensures |segq| == |old(segq)| - 1 && rcvPos >= old(rcvPos) && (rcvPos == old(rcvPos) ==> fin)
      ensures Shows(old(segq), old(pieces), segq, pieces, rcvPos, fin)
    {
      hide Cover, Interval, SeqOf, Queue, Shows, Delivered, NothingNext;
      var q := segq[0];
      QueueFirst(segq, pieces, rcvPos, isn, stream);
      ShowsFirst(segq, pieces, rcvPos, isn, stream);
      CoverFirst(pieces, rcvPos);
      Advance(q.data);
      fin := q.fin;
      segq := segq[1..];
      pieces := pieces[1..];
    }

    /** The next bytes advance rcv_nxt and go to the socket, unless it cannot receive any more
        (lines 247-262, and 1081-1099 of the common case). */
    method Advance(data: seq<Byte>)
      requires Delivered() && Holds(data, rcvPos, stream)
      modifies this`rcvNxt, this`rcvBuf, this`rcvPos
      ensures Delivered() && rcvPos == old(rcvPos) + |data|
    {
      PlusOf(isn, rcvPos, |data|);
      hide SeqOf, Plus;
      rcvNxt := Plus(rcvNxt, |data|);
      if !cantRcvMore {
        DeliverNext(stream, rcvPos, |data|);
        rcvBuf := rcvBuf + data;
      }
      rcvPos := rcvPos + |data|;
    }

    /** tcp_reass with a segment, lines 136-270; it has data or a FIN.  In a connection with
        nothing left to deliver, it returns TH_FIN exactly when the segment is the next one
        and the flag at the new left edge is set. */
    method Reass(thSeq0: Word32, data0: seq<Byte>, thFin: bool, memory: bool, ghost at0: nat) returns (fin: bool)
      requires Valid() && thSeq0 == SeqOf(isn, at0) && Holds(data0, at0, stream)
      requires rcvPos <= at0 && at0 + |data0| <= rcvPos + 0x7FFF_FFFF
      requires data0 != [] || thFin
      modifies this`segq, this`rcvNxt, this`rcvBuf, this`rcvPos, this`pieces
      ensures Valid()
      ensures memory ==> Received() == old(Received()) + Interval(at0, at0 + |data0|)
      ensures !memory ==> segq == [] && rcvPos == old(rcvPos) && rcvBuf == old(rcvBuf) && !fin
      ensures rcvPos >= old(rcvPos) && (state < TCPS_ESTABLISHED ==> rcvPos == old(rcvPos) && !fin)
      ensures state >= TCPS_ESTABLISHED && (!memory || old(Drained())) ==> Drained()
      ensures state >= TCPS_ESTABLISHED && memory && old(Drained()) ==>
        (fin <==> at0 == old(rcvPos) && FlagAfter(old(segq), old(pieces), at0, at0 + |data0|, thFin, rcvPos))
      ensures FinsFrom(old(segq), old(pieces), segq, pieces, at0 + |data0|, thFin)
      ensures memory ==> FinsAfter(old(segq), old(pieces), segq, pieces, at0, at0 + |data0|, thFin, rcvPos + 1)
      ensures EmptiesFrom(old(pieces), pieces, at0 + |data0|, data0 == [])
      ensures memory && !fin ==> EmptiesAfter(old(pieces), pieces, at0, at0 + |data0|, |stream|)
    {
      fin := false;
      ghost var s0, p0, end := segq, pieces, at0 + |data0|;
      Flushed(s0, p0, end, thFin, data0 == []);
      hide SeqOf, Cover, Interval, Queue, Holds, FinAt, EmptyAt, HeldByOne, Valid, Received;
      hide FinsAfter, FinsFrom, EmptiesFrom, SameFlags, FlagAfter;
      if !memory {
        FreeQueue();
      } else {
        fin := PutAndPresent(thSeq0, data0, thFin, at0);
      }
    }

    /** Lines 147-270: there is memory for the queue entry. */
    method PutAndPresent(thSeq0: Word32, data0: seq<Byte>, thFin: bool, ghost at0: nat) returns (fin: bool)
      requires Valid() && thSeq0 == SeqOf(isn, at0) && Holds(data0, at0, stream)
      requires rcvPos <= at0 && at0 + |data0| <= rcvPos + 0x7FFF_FFFF
      requires data0 != [] || thFin
      modifies this`segq, this`rcvNxt, this`rcvBuf, this`rcvPos, this`pieces
      ensures Valid() && Received() == old(Received()) + Interval(at0, at0 + |data0|)
      ensures rcvPos >= old(rcvPos) && (state < TCPS_ESTABLISHED ==> rcvPos == old(rcvPos) && !fin)
      ensures state >= TCPS_ESTABLISHED && old(Drained()) ==>
        && Drained()
        && (fin <==> at0 == old(rcvPos) && FlagAfter(old(segq), old(pieces), at0, at0 + |data0|, thFin, rcvPos))
      ensures FinsFrom(old(segq), old(pieces), segq, pieces, at0 + |data0|, thFin)
      ensures FinsAfter(old(segq), old(pieces), segq, pieces, at0, at0 + |data0|, thFin, rcvPos + 1)
      ensures EmptiesFrom(old(pieces), pieces, at0 + |data0|, data0 == [])
      ensures !fin ==>
        (EmptyAt(pieces, |stream|) <==> EmptyAt(old(pieces), |stream|) || (data0 == [] && at0 == |stream|))
    {
      hide SeqOf, Cover, Interval, Queue, Holds, FinAt, EmptyAt, HeldByOne, Valid, Received;
      hide FinsAfter, FinsFrom, EmptiesFrom, SameFlags, FlagAfter;
      fin := false;
      ghost var s0, p0, end := segq, pieces, at0 + |data0|;
      var dup := Put(thSeq0, data0, thFin, at0);
      ghost var s1, p1 := segq, pieces;
      NothingChanged(s1, p1, rcvPos + 1);
      if !dup {
        fin := Present();
      }
      FlagsDelivered(s0, p0, s1, p1, segq, pieces, at0, end, thFin, data0 == [], rcvPos + 1);
      if Drained() && at0 <= rcvPos {
        DeliveredPast(at0, end);
        FlagFrom(s0, p0, s1, p1, at0, end, thFin, rcvPos);
      }
    }

    /** tcp_freeq: all that is queued is lost, and nothing that has been delivered. */
    method FreeQueue()
      requires Valid()
      modifies this`segq, this`pieces
      ensures Valid() && Drained() && segq == [] && pieces == []
    {
      segq, pieces := [], [];
    }

    /** Lines 147-229: the segment goes into the queue, unless a single queued one has it all. */
    method Put(thSeq0: Word32, data0: seq<Byte>, thFin: bool, ghost at0: nat) returns (dup: bool)
      requires Valid() && thSeq0 == SeqOf(isn, at0) && Holds(data0, at0, stream)
      requires rcvPos <= at0 && at0 + |data0| <= rcvPos + 0x7FFF_FFFF
      requires data0 != [] || thFin
      modifies this`segq, this`pieces
      ensures Valid() && Received() == old(Received()) + Interval(at0, at0 + |data0|)
      ensures dup <==> HeldByOne(old(pieces), at0, at0 + |data0|)
      ensures dup ==> segq == old(segq) && pieces == old(pieces) && at0 < |stream|
      ensures old(Drained()) && (dup || at0 > rcvPos) ==> Drained() && at0 > rcvPos
      ensures FinsFrom(old(segq), old(pieces), segq, pieces, at0 + |data0|, thFin)
      ensures FinsAfter(old(segq), old(pieces), segq, pieces, at0, at0 + |data0|, thFin, 0)
      ensures EmptiesFrom(old(pieces), pieces, at0 + |data0|, data0 == [])
      ensures EmptyAt(pieces, |stream|) <==> EmptyAt(old(pieces), |stream|) || (data0 == [] && at0 == |stream|)
    {
      hide SeqOf, Cover, Interval, Queue, FinAt, EmptyAt, FlagAfter;
      ghost var s0, p0, end := segq, pieces, at0 + |data0|;
      if Drained() {
        NextIsNotHeld(at0, end);
      }
      dup, segq, pieces := Enqueue(segq, thSeq0, data0, thFin, pieces, at0, rcvPos, isn, stream);
      assert Received() == old(Received()) + Interval(at0, end) by {
        var i, j := Interval(0, rcvPos), Interval(at0, end);
        assert i + (Cover(p0) + j) == i + Cover(p0) + j;
      }
      if dup {
        HeldInside(s0, p0, at0, end, rcvPos, isn, stream);
      }
    }

    /** A segment at the left edge is not held by a queued one, and one ahead of it leaves the
        queue with nothing to deliver. */
    lemma NextIsNotHeld(at: nat, end: nat)
      requires Valid() && Drained()
      ensures forall x | x in pieces :: x.at > rcvPos
      ensures at == rcvPos ==> !HeldByOne(pieces, at, end)
    {
      assert forall k | 0 < k < |pieces| :: pieces[0].End() <= pieces[k].at;
    }

    lemma DeliveredPast(at: nat, end: nat)
      requires Valid() && Drained() && at <= rcvPos && Interval(at, end) <= Received()
      ensures rcvPos >= end
    {
      NextIsNotHeld(at, end);
      CoverBetween(pieces, rcvPos + 1, rcvPos + 0x7FFF_FFFF);
    }
  }

  lemma HeldInside(segq: seq<Seg>, pieces: seq<Piece>, at: nat, end: nat, low: nat, isn: Word32, stream: seq<Byte>)
    requires Queue(segq, pieces, low, isn, stream) && HeldByOne(pieces, at, end)
    ensures at < |stream|
  {
  }

  /** A segment without data is in the queue only for its FIN. */
  lemma EmptyHasFin(segq: seq<Seg>, pieces: seq<Piece>, e: nat, low: nat, isn: Word32, stream: seq<Byte>)
    requires Queue(segq, pieces, low, isn, stream)
    ensures EmptyAt(pieces, e) ==> FinAt(segq, pieces, e)
  {
    if EmptyAt(pieces, e) {
      var k :| 0 <= k < |pieces| && pieces[k] == Piece(e, 0);
      assert segq[k].fin;
    }
  }

  lemma QueueFirst(segq: seq<Seg>, pieces: seq<Piece>, low: nat, isn: Word32, stream: seq<Byte>)
    requires Queue(segq, pieces, low, isn, stream) && segq != [] && pieces != [] && pieces[0].at == low
    ensures Queue(segq[1..], pieces[1..], pieces[0].End(), isn, stream)
    ensures Holds(segq[0].data, low, stream) && |segq[0].data| == pieces[0].len && (pieces[0].len > 0 || segq[0].fin)
  {
    assert forall k | 0 < k < |pieces| :: pieces[0].End() <= pieces[k].at;
  }

  lemma ShowsFirst(segq: seq<Seg>, pieces: seq<Piece>, low: nat, isn: Word32, stream: seq<Byte>)
    requires Queue(segq, pieces, low, isn, stream) && segq != [] && pieces != [] && pieces[0].at == low
    ensures Shows(segq, pieces, segq[1..], pieces[1..], pieces[0].End(), segq[0].fin)
  {
    FinAtTail(segq, pieces);
    assert pieces == [pieces[0]] + pieces[1..];
    hide FinAt, Queue;
  }

  /** Delivering the first segment moves its bytes from the queue to the delivered part. */
  lemma CoverFirst(pieces: seq<Piece>, low: nat)
    requires pieces != [] && pieces[0].at == low
    ensures Interval(0, low) + Cover(pieces) == Interval(0, pieces[0].End()) + Cover(pieces[1..])
  {
    assert Cover([]) == {};
    hide Cover;
    CoverSplit(pieces, 0);
    assert pieces[..0] == [];
    var a, b, c := Interval(0, low), Interval(pieces[0].at, pieces[0].End()), Cover(pieces[1..]);
    assert Cover(pieces) == b + c;
    assert a + b == Interval(0, pieces[0].End());
    assert a + (b + c) == a + b + c;
  }

  lemma DeliverNext(stream: seq<Byte>, pos: nat, n: nat)
    requires pos + n <= |stream|
    ensures stream[..pos] + stream[pos..pos + n] == stream[..pos + n]
  {
  }

  lemma CoverMember(ps: seq<Piece>, q: nat)
    requires q < |ps|
    ensures Interval(ps[q].at, ps[q].End()) <= Cover(ps)
  {
    CoverSplit(ps, q);
  }

  lemma JoinIntervals(had: set<int>, a: int, b: int, c: int)
    requires a <= b <= c && Interval(a, b) <= had
    ensures had + Interval(b, c) == had + Interval(a, c)
  {
  }

  lemma QueueInserted(segq: seq<Seg>, pieces: seq<Piece>, q: nat, seg: Seg, piece: Piece,
                      low: nat, isn: Word32, stream: seq<Byte>)
    requires Queue(segq, pieces, low, isn, stream) && Matches(seg, piece, isn, stream) && q <= |segq|
    requires low <= piece.at && piece.End() <= low + 0x7FFF_FFFF
    requires forall k | 0 <= k < q :: pieces[k].End() <= piece.at
    requires forall k | q <= k < |pieces| :: pieces[k].at >= piece.End()
    ensures var segq', pieces' := Insert(segq, q, seg), Insert(pieces, q, piece);
      && Queue(segq', pieces', low, isn, stream)
      && forall e: nat :: FinAt(segq', pieces', e) <==> FinAt(segq, pieces, e) || (seg.fin && piece.End() == e)
  {
    hide Matches, FinAt;
    OrderedInserted(pieces, q, piece);
    FinInserted(segq, pieces, q, seg, piece);
    hide Ordered;
    var segq', pieces' := Insert(segq, q, seg), Insert(pieces, q, piece);
    forall k | 0 <= k < |segq'|
      ensures (segq'[k], pieces'[k]) == if k < q then (segq[k], pieces[k])
                                        else if k == q then (seg, piece) else (segq[k - 1], pieces[k - 1])
    {
    }
  }

  lemma FinInserted(segs: seq<Seg>, pieces: seq<Piece>, q: nat, seg: Seg, piece: Piece)
    requires |segs| == |pieces| && q <= |segs|
    ensures forall e: nat :: FinAt(Insert(segs, q, seg), Insert(pieces, q, piece), e)
                        <==> FinAt(segs, pieces, e) || (seg.fin && piece.End() == e)
  {
    var segs', pieces' := Insert(segs, q, seg), Insert(pieces, q, piece);
    forall k | 0 <= k < |segs|
      ensures var k' := if k < q then k else k + 1; segs'[k'] == segs[k] && pieces'[k'] == pieces[k]
    {
    }
    forall e: nat
      ensures FinAt(segs', pieces', e) <==> FinAt(segs, pieces, e) || (seg.fin && piece.End() == e)
    {
      if FinAt(segs', pieces', e) {
        var k' :| 0 <= k' < |segs'| && segs'[k'].fin && pieces'[k'].End() == e;
        var k := if k' < q then k' else k' - 1;
        assert k' != q ==> segs[k].fin && pieces[k].End() == e;
      } else {
        assert segs'[q] == seg && pieces'[q] == piece;
      }
    }
  }

  lemma FinRemoved(segs: seq<Seg>, pieces: seq<Piece>, q: nat)
    requires |segs| == |pieces| && q < |segs|
    ensures forall e: nat :: FinAt(segs, pieces, e)
                        <==> FinAt(Delete(segs, q), Delete(pieces, q), e) || (segs[q].fin && pieces[q].End() == e)
  {
    var segs', pieces' := Delete(segs, q), Delete(pieces, q);
    DeleteInsert(segs, q);
    DeleteInsert(pieces, q);
    FinInserted(segs', pieces', q, segs[q], pieces[q]);
  }

  lemma MembersInserted(pieces: seq<Piece>, q: nat, piece: Piece)
    requires q <= |pieces|
    ensures forall x :: x in Insert(pieces, q, piece) <==> x in pieces || x == piece
  {
    assert pieces == pieces[..q] + pieces[q..];
  }

  lemma OrderedInserted(pieces: seq<Piece>, q: nat, piece: Piece)
    requires Ordered(pieces) && q <= |pieces|
    requires forall k | 0 <= k < q :: pieces[k].End() <= piece.at
    requires forall k | q <= k < |pieces| :: pieces[k].at >= piece.End()
    ensures Ordered(Insert(pieces, q, piece))
  {
  }

  lemma CoverInserted(pieces: seq<Piece>, q: nat, piece: Piece)
    requires q <= |pieces|
    ensures Cover(Insert(pieces, q, piece)) == Cover(pieces) + Interval(piece.at, piece.End())
  {
    hide Cover;
    var a, b := pieces[..q], pieces[q..];
    assert pieces == a + b;
    CoverAppend(a, b);
    CoverAppend(a + [piece], b);
    CoverAppend(a, [piece]);
    CoverOne(piece);
  }

  /** Lines 151-229: put the segment, trimmed, in its place; or find that a single queued
      segment has all of it. */
  method Enqueue(segq0: seq<Seg>, thSeq0: Word32, data0: seq<Byte>, thFin: bool,
                 ghost pieces0: seq<Piece>, ghost at0: nat, ghost low: nat, ghost isn: Word32, ghost stream: seq<Byte>)
    returns (dup: bool, segq: seq<Seg>, ghost pieces: seq<Piece>)
    requires Queue(segq0, pieces0, low, isn, stream) && thSeq0 == SeqOf(isn, at0) && Holds(data0, at0, stream)
    requires low <= at0 && at0 + |data0| <= low + 0x7FFF_FFFF
    requires data0 != [] || thFin
    ensures Queue(segq, pieces, low, isn, stream)
    ensures dup <==> HeldByOne(pieces0, at0, at0 + |data0|)
    ensures dup ==> segq == segq0 && pieces == pieces0
    ensures Cover(pieces) == Cover(pieces0) + Interval(at0, at0 + |data0|)
    ensures forall x | x in pieces :: x.at >= at0 || x in pieces0
    ensures forall e: nat | FinAt(segq, pieces, e) :: FinAt(segq0, pieces0, e) || (thFin && e == at0 + |data0|)
    ensures forall e: nat | !(at0 <= e < at0 + |data0|) ::
      FinAt(segq, pieces, e) <==> FlagAfter(segq0, pieces0, at0, at0 + |data0|, thFin, e)
    ensures forall e: nat | EmptyAt(pieces, e) :: EmptyAt(pieces0, e) || (data0 == [] && e == at0)
    ensures !dup ==> forall e: nat | e >= at0 + |data0| ::
      EmptyAt(pieces, e) <==> EmptyAt(pieces0, e) || (data0 == [] && e == at0)
  {
    hide Cover, SeqOf, Queue, FinAt, EmptyAt, Interval, HeldByOne;
    segq, pieces := segq0, pieces0;
    var q := FindNext(segq, thSeq0, pieces, at0, low, isn, stream);
    var thSeq, data;
    ghost var at;
    dup, thSeq, data, at := TrimFront(segq, q, thSeq0, data0, pieces, at0, low, isn, stream);
    QueueLength(segq, pieces, low, isn, stream);
    if q > 0 {
      CoverMember(pieces, q - 1);
    }
    if !dup {
      FollowingAfter(segq, pieces, q, at0, at, low, isn, stream);
      JoinIntervals(Cover(pieces0), at0, at, at0 + |data0|);
      segq, pieces := Place(segq, q, thSeq, data, thFin, pieces, at, low, isn, stream);
    }
  }

  /** Lines 194-229: the segment, of which the queue has nothing before its place, goes there. */
  method Place(segq0: seq<Seg>, q: nat, thSeq: Word32, data: seq<Byte>, thFin: bool,
               ghost pieces0: seq<Piece>, ghost at: nat, ghost low: nat, ghost isn: Word32, ghost stream: seq<Byte>)
    returns (segq: seq<Seg>, ghost pieces: seq<Piece>)
    requires Queue(segq0, pieces0, low, isn, stream) && thSeq == SeqOf(isn, at) && Holds(data, at, stream)
    requires low <= at && at + |data| <= low + 0x7FFF_FFFF && (data != [] || thFin)
    requires q <= |segq0| == |pieces0| && forall k | 0 <= k < q :: pieces0[k].End() <= at
    requires forall k | q <= k < |segq0| :: pieces0[k].at >= at
    ensures Queue(segq, pieces, low, isn, stream)
    ensures Cover(pieces) == Cover(pieces0) + Interval(at, at + |data|)
    ensures forall x | x in pieces :: x.at >= at || x in pieces0
    ensures forall e: nat | FinAt(segq, pieces, e) :: FinAt(segq0, pieces0, e) || (thFin && e == at + |data|)
    ensures forall e: nat | e < at || e > at + |data| :: FinAt(segq, pieces, e) <==> FinAt(segq0, pieces0, e)
    ensures FinAt(segq, pieces, at + |data|) <==> thFin || EmptyAt(pieces0, at + |data|)
    ensures forall e: nat | EmptyAt(pieces, e) :: EmptyAt(pieces0, e) || (data == [] && e == at)
    ensures forall e: nat | e >= at + |data| :: EmptyAt(pieces, e) <==> EmptyAt(pieces0, e) || (data == [] && e == at)
  {
    hide Cover, SeqOf, Queue, FinAt, Insert, Interval;
    segq, pieces := TrimFollowing(segq0, q, thSeq, |data|, pieces0, at, low, isn, stream);
    QueueLength(segq, pieces, low, isn, stream);
    var seg := Seg(thSeq, |data|, data, thFin);
    ghost var piece := Piece(at, |data|);
    assert forall k | 0 <= k < q :: pieces[k] == pieces[..q][k] == pieces0[..q][k] == pieces0[k];
    FlagAtEnd(segq, pieces, q, at, at + |data|, thFin, low, isn, stream);
    QueueInserted(segq, pieces, q, seg, piece, low, isn, stream);
    MembersInserted(pieces, q, piece);
    CoverInserted(pieces, q, piece);
    segq := Insert(segq, q, seg);
    pieces := Insert(pieces, q, piece);
  }

  /** Before the segment [at, end) is inserted, only a FIN alone can be flagged at its end. */
  lemma FlagAtEnd(segq: seq<Seg>, pieces: seq<Piece>, q: nat, at: nat, end: nat, thFin: bool,
                  low: nat, isn: Word32, stream: seq<Byte>)
    requires Queue(segq, pieces, low, isn, stream) && q <= |segq| && at <= end
    requires forall k | 0 <= k < q :: pieces[k].End() <= at
    requires forall k | q <= k < |segq| :: pieces[k].at >= end
    requires at < end || thFin
    ensures thFin || FinAt(segq, pieces, end) <==> thFin || EmptyAt(pieces, end)
  {
    if FinAt(segq, pieces, end) && !thFin {
      var k :| 0 <= k < |segq| && segq[k].fin && pieces[k].End() == end;
      assert pieces[k] == Piece(end, 0);
    } else if EmptyAt(pieces, end) {
      var k :| 0 <= k < |pieces| && pieces[k] == Piece(end, 0);
      assert segq[k].fin;
    }
  }

  lemma FollowingAfter(segq: seq<Seg>, pieces: seq<Piece>, q: nat, at0: nat, at: nat,
                       low: nat, isn: Word32, stream: seq<Byte>)
    requires Queue(segq, pieces, low, isn, stream) && q <= |segq|
    requires q < |segq| ==> pieces[q].at > at0
    requires at == at0 || (q > 0 && at == pieces[q - 1].End())
    ensures forall k | q <= k < |segq| :: pieces[k].at >= at
  {
    forall k | q <= k < |segq|
      ensures pieces[k].at >= at
    {
      assert k > q ==> pieces[q].End() <= pieces[k].at;
    }
  }

  lemma QueueLength(segq: seq<Seg>, pieces: seq<Piece>, low: nat, isn: Word32, stream: seq<Byte>)
    requires Queue(segq, pieces, low, isn, stream)
    ensures |segq| == |pieces|
  {
  }

  // ----- placing a segment

  /** Lines 151-154: the first queued segment that begins after `seq`. */
  method FindNext(segq: seq<Seg>, thSeq: Word32, ghost pieces: seq<Piece>, ghost at: nat, ghost low: nat,
                  ghost isn: Word32, ghost stream: seq<Byte>)
    returns (q: nat)
    requires Queue(segq, pieces, low, isn, stream)
    requires thSeq == SeqOf(isn, at) && low <= at <= low + 0x7FFF_FFFF
    ensures q <= |segq|
    ensures forall k | 0 <= k < q :: pieces[k].at <= at
    ensures q < |segq| ==> pieces[q].at > at
  {
    q := 0;
    while q < |segq|
      invariant q <= |segq| && forall k | 0 <= k < q :: pieces[k].at <= at
    {
      DiffOf(isn, pieces[q].at, at);
      if Diff(segq[q].thSeq, thSeq) > 0 {
        break;
      }
      q := q + 1;
    }
  }

  /** The bytes `data` of the stream start at position `at`. */
  ghost predicate Holds(data: seq<Byte>, at: nat, stream: seq<Byte>) {
    at + |data| <= |stream| && data == stream[at..at + |data|]
  }

  /** Lines 161-186: what the preceding segment already provides is dropped from the front. */
  method TrimFront(segq: seq<Seg>, q: nat, thSeq0: Word32, data0: seq<Byte>, ghost pieces: seq<Piece>, ghost at0: nat,
                   ghost low: nat, ghost isn: Word32, ghost stream: seq<Byte>)
    returns (dup: bool, thSeq: Word32, data: seq<Byte>, ghost at: nat)
    requires Queue(segq, pieces, low, isn, stream)
    requires thSeq0 == SeqOf(isn, at0) && low <= at0 && at0 + |data0| <= low + 0x7FFF_FFFF
    requires Holds(data0, at0, stream) && q <= |segq| && forall k | 0 <= k < q :: pieces[k].at <= at0
    requires q < |segq| ==> pieces[q].at > at0
    ensures dup <==> HeldByOne(pieces, at0, at0 + |data0|)
    ensures dup ==> q > 0 && Interval(at0, at0 + |data0|) <= Interval(pieces[q - 1].at, pieces[q - 1].End())
    ensures !dup ==> (data == [] <==> data0 == [])
    ensures !dup ==>
      && at0 <= at && thSeq == SeqOf(isn, at) && Holds(data, at, stream) && at + |data| == at0 + |data0|
      && (forall k | 0 <= k < q :: pieces[k].End() <= at)
      && (at > at0 ==> q > 0 && at == pieces[q - 1].End()
                       && Interval(at0, at) <= Interval(pieces[q - 1].at, pieces[q - 1].End()))
  {
    dup, thSeq, data, at := false, thSeq0, data0, at0;
    HeldByPreceding(segq, pieces, q, at0, at0 + |data0|, low, isn, stream);
    if q > 0 {
      PrecedingEnd(segq, pieces, q, at0, low, isn, stream);
      hide Queue, HeldByOne, Plus, Diff, SeqOf;
      var i := Diff(Plus(segq[q - 1].thSeq, segq[q - 1].reseqlen), thSeq);
      if i > 0 {
        if i >= |data| {
          dup := true;
        } else {
          data := data[i..];
          PlusOf(isn, at0, i);
          thSeq := Plus(thSeq, i);
          at := at0 + i;
        }
      }
    }
  }

  /** How far the preceding segment reaches beyond the beginning of the new one. */
  lemma PrecedingEnd(segq: seq<Seg>, pieces: seq<Piece>, q: nat, at: nat, low: nat, isn: Word32, stream: seq<Byte>)
    requires Queue(segq, pieces, low, isn, stream) && 0 < q <= |segq|
    requires pieces[q - 1].at <= at && low <= at <= low + 0x7FFF_FFFF
    ensures Diff(Plus(segq[q - 1].thSeq, segq[q - 1].reseqlen), SeqOf(isn, at)) == pieces[q - 1].End() - at
    ensures forall k | 0 <= k < q :: pieces[k].End() <= pieces[q - 1].End()
  {
    hide Diff, Plus, SeqOf;
    PlusOf(isn, pieces[q - 1].at, pieces[q - 1].len);
    DiffOf(isn, pieces[q - 1].End(), at);
    assert forall k | 0 <= k < q - 1 :: pieces[k].End() <= pieces[q - 1].at;
  }

  /** Only the segment before the place of insertion can have all of a new segment. */
  lemma HeldByPreceding(segq: seq<Seg>, pieces: seq<Piece>, q: nat, at: nat, end: nat,
                        low: nat, isn: Word32, stream: seq<Byte>)
    requires Queue(segq, pieces, low, isn, stream) && q <= |segq|
    requires forall k | 0 <= k < q :: pieces[k].at <= at
    requires q < |segq| ==> pieces[q].at > at
    ensures HeldByOne(pieces, at, end) <==> q > 0 && at < pieces[q - 1].End() && end <= pieces[q - 1].End()
  {
    if HeldByOne(pieces, at, end) {
      var k :| 0 <= k < |pieces| && pieces[k].at <= at < pieces[k].End() && end <= pieces[k].End();
    }
  }

  /** Lines 194-216: the following segments are trimmed, or removed when the new one covers them. */
  method TrimFollowing(segq0: seq<Seg>, q: nat, thSeq: Word32, tlen: nat, ghost pieces0: seq<Piece>, ghost at: nat,
                       ghost low: nat, ghost isn: Word32, ghost stream: seq<Byte>)
    returns (segq: seq<Seg>, ghost pieces: seq<Piece>)
    requires Queue(segq0, pieces0, low, isn, stream)
    requires thSeq == SeqOf(isn, at) && low <= at && at + tlen <= low + 0x7FFF_FFFF
    requires q <= |segq0| && forall k | q <= k < |segq0| :: pieces0[k].at >= at
    ensures Queue(segq, pieces, low, isn, stream)
    ensures q <= |segq| && pieces[..q] == pieces0[..q]
    ensures forall k | q <= k < |segq| :: pieces[k].at >= at + tlen
    ensures Cover(pieces) + Interval(at, at + tlen) == Cover(pieces0) + Interval(at, at + tlen)
    ensures forall e: nat | FinAt(segq, pieces, e) :: FinAt(segq0, pieces0, e)
    ensures forall e: nat | e < at || e > at + tlen :: FinAt(segq, pieces, e) <==> FinAt(segq0, pieces0, e)
    ensures forall e: nat | EmptyAt(pieces, e) :: EmptyAt(pieces0, e)
    ensures forall e: nat | e >= at + tlen :: EmptyAt(pieces, e) <==> EmptyAt(pieces0, e)
  {
    hide Cover, Interval, SeqOf, Diff, Plus, FinAt;
    segq, pieces := segq0, pieces0;
    while q < |segq|
      invariant Queue(segq, pieces, low, isn, stream)
      invariant q <= |segq| && pieces[..q] == pieces0[..q]
      invariant forall k | q <= k < |segq| :: pieces[k].at >= at
      invariant Cover(pieces) + Interval(at, at + tlen) == Cover(pieces0) + Interval(at, at + tlen)
      invariant forall e: nat | FinAt(segq, pieces, e) :: FinAt(segq0, pieces0, e)
      invariant forall e: nat | e < at || e > at + tlen :: FinAt(segq, pieces, e) <==> FinAt(segq0, pieces0, e)
      invariant forall e: nat | EmptyAt(pieces, e) :: EmptyAt(pieces0, e)
      invariant forall e: nat | e >= at + tlen :: EmptyAt(pieces, e) <==> EmptyAt(pieces0, e)
      decreases |segq|
    {
      var qhdr := segq[q];
      PlusOf(isn, at, tlen);
      DiffOf(isn, at + tlen, pieces[q].at);
      var i := Diff(Plus(thSeq, tlen), qhdr.thSeq);
      if i <= 0 {
        assert forall k | q < k < |segq| :: pieces[q].End() <= pieces[k].at;
        break;
      }
      if i < qhdr.reseqlen {
        CoverTrim(pieces, q, i, at, tlen);
        QueueTrim(segq, pieces, q, i, low, isn, stream);
        segq := segq[q := Trimmed(qhdr, i)];
        pieces := pieces[q := Piece(pieces[q].at + i, pieces[q].len - i)];
        break;
      }
      CoverRemove(pieces, q, at, tlen);
      QueueRemove(segq, pieces, q, low, isn, stream);
      segq := Delete(segq, q);
      pieces := Delete(pieces, q);
    }
  }

  /** Lines 203-205: a queued segment without its first `i` bytes. */
  function Trimmed(seg: Seg, i: nat): Seg
    requires i <= seg.reseqlen == |seg.data|
  {
    Seg(Plus(seg.thSeq, i), seg.reseqlen - i, seg.data[i..], seg.fin)
  }

  lemma QueueRemove(segq: seq<Seg>, pieces: seq<Piece>, q: nat, low: nat, isn: Word32, stream: seq<Byte>)
    requires Queue(segq, pieces, low, isn, stream) && q < |segq|
    ensures Queue(Delete(segq, q), Delete(pieces, q), low, isn, stream)
    ensures forall e: nat :: FinAt(segq, pieces, e)
                        <==> FinAt(Delete(segq, q), Delete(pieces, q), e) || (segq[q].fin && pieces[q].End() == e)
    ensures forall x :: x in pieces <==> x in Delete(pieces, q) || x == pieces[q]
  {
    FinRemoved(segq, pieces, q);
    OrderedRemoved(pieces, q);
    MembersInserted(Delete(pieces, q), q, pieces[q]);
    DeleteInsert(segq, q);
    DeleteInsert(pieces, q);
    hide Matches, FinAt, Ordered, Delete, Insert;
  }

  lemma OrderedRemoved(pieces: seq<Piece>, q: nat)
    requires Ordered(pieces) && q < |pieces|
    ensures Ordered(Delete(pieces, q))
  {
  }

  lemma QueueTrim(segq: seq<Seg>, pieces: seq<Piece>, q: nat, i: nat, low: nat, isn: Word32, stream: seq<Byte>)
    requires Queue(segq, pieces, low, isn, stream) && q < |segq| && i < segq[q].reseqlen
    ensures var segq' := segq[q := Trimmed(segq[q], i)];
      var pieces' := pieces[q := Piece(pieces[q].at + i, pieces[q].len - i)];
      && Queue(segq', pieces', low, isn, stream)
      && (forall k | q <= k < |segq| :: pieces'[k].at >= pieces[q].at + i)
      && (forall e: nat :: FinAt(segq', pieces', e) <==> FinAt(segq, pieces, e))
      && (forall e: nat :: EmptyAt(pieces', e) <==> EmptyAt(pieces, e))
  {
    PlusOf(isn, pieces[q].at, i);
    hide SeqOf, Plus;
    var seg, piece := Trimmed(segq[q], i), Piece(pieces[q].at + i, pieces[q].len - i);
    assert Matches(seg, piece, isn, stream) by {
      assert stream[pieces[q].at..pieces[q].End()][i..] == stream[piece.at..piece.End()];
    }
    assert forall k | q < k < |segq| :: pieces[q].End() <= pieces[k].at;
    FinTrimmed(segq, pieces, q, seg, piece);
  }

  lemma FinTrimmed(segs: seq<Seg>, pieces: seq<Piece>, q: nat, seg: Seg, piece: Piece)
    requires |segs| == |pieces| && q < |segs|
    requires seg.fin == segs[q].fin && piece.End() == pieces[q].End() && piece.len > 0 && pieces[q].len > 0
    ensures forall e: nat :: FinAt(segs[q := seg], pieces[q := piece], e) <==> FinAt(segs, pieces, e)
    ensures forall e: nat :: EmptyAt(pieces[q := piece], e) <==> EmptyAt(pieces, e)
  {
    var segs', pieces' := segs[q := seg], pieces[q := piece];
    assert forall k | 0 <= k < |segs| :: segs'[k].fin == segs[k].fin && pieces'[k].End() == pieces[k].End();
    assert forall k | 0 <= k < |segs| :: k != q ==> pieces'[k] == pieces[k];
    forall e: nat
      ensures EmptyAt(pieces', e) <==> EmptyAt(pieces, e)
    {
      if EmptyAt(pieces', e) {
        var k :| 0 <= k < |pieces'| && pieces'[k] == Piece(e, 0);
        assert pieces[k] == Piece(e, 0);
      }
    }
  }

  lemma CoverSplit(ps: seq<Piece>, q: nat)
    requires q < |ps|
    ensures Cover(ps) == Cover(ps[..q]) + Interval(ps[q].at, ps[q].End()) + Cover(ps[q + 1..])
  {
    hide Cover;
    var a, b, c := ps[..q], [ps[q]], ps[q + 1..];
    assert ps == a + (b + c);
    CoverAppend(a, b + c);
    CoverAppend(b, c);
    CoverOne(ps[q]);
  }

  lemma CoverTrim(ps: seq<Piece>, q: nat, i: nat, at: nat, tlen: nat)
    requires q < |ps| && i < ps[q].len && at <= ps[q].at && ps[q].at + i == at + tlen
    ensures var ps' := ps[q := Piece(ps[q].at + i, ps[q].len - i)];
      Cover(ps') + Interval(at, at + tlen) == Cover(ps) + Interval(at, at + tlen)
  {
    var ps' := ps[q := Piece(ps[q].at + i, ps[q].len - i)];
    CoverSplit(ps, q);
    CoverSplit(ps', q);
    assert ps'[..q] == ps[..q] && ps'[q + 1..] == ps[q + 1..];
  }

  lemma CoverRemove(ps: seq<Piece>, q: nat, at: nat, tlen: nat)
    requires q < |ps| && at <= ps[q].at && ps[q].End() <= at + tlen
    ensures Cover(Delete(ps, q)) + Interval(at, at + tlen) == Cover(ps) + Interval(at, at + tlen)
  {
    CoverSplit(ps, q);
    CoverAppend(ps[..q], ps[q + 1..]);
  }
}
