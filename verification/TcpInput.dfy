/** The data path of tcp_input for a segment without SYN or RST, tn_net/tn_tcp_input.c:619-656,
    681-723 and 1072-1120. */
module TcpInput {
  import opened Machine
  import opened SeqSpace
  import opened TcpReass

  /** The signed differences that the code computes fit an int: the segment is not older, nor
      further ahead, than 2^31. */
  ghost predicate InRange(rcvPos: nat, at: nat, len: nat, wnd: nat) {
    && wnd < 0x8000_0000
    && rcvPos - at < 0x8000_0000 && at + len <= rcvPos + 0x7FFF_FFFF
    && rcvPos + wnd - (at + len) <= 0x8000_0000
  }

  /** Lines 619-656: drop from the front what has been received; a FIN to the left of the
      window is a duplicate. */
  method TrimReceived(rcvNxt: Word32, thSeq0: Word32, data0: seq<Byte>, tiFin0: bool,
                      ghost isn: Word32, ghost stream: seq<Byte>, ghost rcvPos: nat, ghost at0: nat)
    returns (thSeq: Word32, data: seq<Byte>, tiFin: bool, ghost at: nat)
    requires rcvNxt == SeqOf(isn, rcvPos) && thSeq0 == SeqOf(isn, at0) && Holds(data0, at0, stream)
    requires -0x8000_0000 <= rcvPos - at0 < 0x8000_0000
    ensures thSeq == SeqOf(isn, at) && Holds(data, at, stream)
    ensures at == (if at0 >= rcvPos then at0 else Min(rcvPos, at0 + |data0|)) && at + |data| == at0 + |data0|
    ensures tiFin == (tiFin0 && at0 + |data0| >= rcvPos)
  {
    hide SeqOf, Plus, Diff;
    thSeq, data, tiFin, at := thSeq0, data0, tiFin0, at0;
    DiffOf(isn, rcvPos, at0);
    var todrop := Diff(rcvNxt, thSeq);
    if todrop > 0 {
      if todrop > |data| || (todrop == |data| && !tiFin) {
        tiFin := false;
        todrop := |data|;
      }
      PlusOf(isn, at0, todrop);
      thSeq := Plus(thSeq, todrop);
      data := data[todrop..];
      at := at0 + todrop;
    }
  }

  /** Lines 681-723: drop what lies beyond the window, and the FIN with it. */
  method TrimBeyond(rcvNxt: Word32, thSeq: Word32, data0: seq<Byte>, tiFin0: bool, wnd: Word32,
                    ghost isn: Word32, ghost stream: seq<Byte>, ghost rcvPos: nat, ghost at: nat)
    returns (drop: bool, data: seq<Byte>, tiFin: bool)
    requires rcvNxt == SeqOf(isn, rcvPos) && thSeq == SeqOf(isn, at) && Holds(data0, at, stream)
    requires -0x8000_0000 <= (at + |data0|) - (rcvPos + wnd) < 0x8000_0000
    requires -0x8000_0000 <= at - rcvPos < 0x8000_0000
    ensures drop ==> at >= rcvPos + wnd && at + |data0| > rcvPos + wnd
    ensures !drop ==> Holds(data, at, stream) && at + |data| == Min(at + |data0|, rcvPos + wnd)
    ensures !drop ==> tiFin == (tiFin0 && at + |data0| <= rcvPos + wnd)
  {
    hide SeqOf, Plus, Diff;
    drop, data, tiFin := false, data0, tiFin0;
    PlusOf(isn, at, |data0|);
    PlusOf(isn, rcvPos, wnd);
    DiffOf(isn, at + |data0|, rcvPos + wnd);
    SeqEqual(isn, at, rcvPos);
    var todrop := Diff(Plus(thSeq, |data0|), Plus(rcvNxt, wnd));
    if todrop > 0 {
      if todrop >= |data| {
        if !(wnd == 0 && thSeq == rcvNxt) {
          drop := true;
          return;
        }
      }
      data := data[..|data| - todrop];
      tiFin := false;
    }
  }

  // ----- what a segment brings

  /** Where the part of a segment that ends at `end` stops that the window lets in. */
  function Right(rcvPos: nat, end: nat, wnd: nat): nat {
    if end < rcvPos + wnd then end else rcvPos + wnd
  }

  /** Where the part of it starts that is new. */
  function Left(rcvPos: nat, at: nat): nat {
    if at < rcvPos then rcvPos else at
  }

  /** A segment [at, end) brings data inside the window, or its FIN arrives alone there. */
  ghost predicate HasData(rcvPos: nat, at: nat, end: nat, wnd: nat) {
    at < Right(rcvPos, end, wnd) && rcvPos < Right(rcvPos, end, wnd)
  }

  ghost predicate FinAlone(rcvPos: nat, at: nat, end: nat, fin: bool, wnd: nat) {
    fin && rcvPos <= end <= rcvPos + wnd && (at == end || rcvPos == end)
  }

  ghost predicate Counts(rcvPos: nat, at: nat, end: nat, fin: bool, wnd: nat) {
    HasData(rcvPos, at, end, wnd) || FinAlone(rcvPos, at, end, fin, wnd)
  }

  /** A segment that counts starts or continues at the left edge, or lies ahead of it. */
  lemma CountsAtEdge(rcvPos: nat, at: nat, end: nat, fin: bool, wnd: nat)
    requires at <= end && Counts(rcvPos, at, end, fin, wnd)
    ensures rcvPos <= Left(rcvPos, at) <= Right(rcvPos, end, wnd) <= end
    ensures Left(rcvPos, at) <= rcvPos <==> at <= rcvPos
    ensures Left(rcvPos, at) == Right(rcvPos, end, wnd) <==> !HasData(rcvPos, at, end, wnd)
    ensures !HasData(rcvPos, at, end, wnd) ==> FinAlone(rcvPos, at, end, fin, wnd) && Right(rcvPos, end, wnd) == end
  {
  }

  /** The segment has a FIN that the right edge of the window cuts off. */
  ghost predicate FinCutOff(rcvPos: nat, end: nat, fin: bool, wnd: nat) {
    fin && end > rcvPos + wnd
  }

  /** The sender sets FIN only on segments that end the stream. */
  ghost predicate HonestFin(end: nat, fin: bool, n: nat) {
    fin ==> end == n
  }

  /** Segments that have nothing but a FIN are queued at the end of the stream only. */
  ghost predicate EmptiesAtEnd(pieces: seq<Piece>, n: nat) {
    forall e: nat | EmptyAt(pieces, e) :: e == n
  }

  // ----- what it does to a connection

  /** TCPS_HAVERCVDFIN, tn_net/tn_tcp.h:444-445: the peer has ended its stream. */
  predicate HaveRcvdFin(state: nat) {
    state == TCPS_CLOSE_WAIT || (state >= TCPS_CLOSING && state != TCPS_FIN_WAIT_2)
  }

  /** A segment that counts is kept: there is memory for a queue entry; or none is needed because
      the state is ESTABLISHED, nothing is queued, and the segment is the next one. */
  ghost predicate KeptAt(memory: bool, established: bool, nothingQueued: bool, at: nat, pos: nat) {
    memory || (established && nothingQueued && at <= pos)
  }

  /** A connection at one moment: its queue, how much of the `n` bytes has been delivered, and
      the positions it has. */
  datatype Conn = Conn(segs: seq<Seg>, pieces: seq<Piece>, pos: nat, n: nat, got: set<int>,
                       buf: seq<Byte>, state: nat)
  {

    ghost predicate Drained() {
      NothingNext(pieces, pos)
    }

    /** The text of a segment is looked at (the test of line 1072). */
    ghost predicate Takes(at: nat, end: nat, fin: bool, wnd: nat) {
      Counts(pos, at, end, fin, wnd) && !HaveRcvdFin(state)
    }

    ghost predicate Kept(at: nat, memory: bool) {
      KeptAt(memory, state == TCPS_ESTABLISHED, segs == [], at, pos)
    }

    /** The left edge after a segment has been taken in: the first position that is missing then. */
    ghost function NextEdge(at: nat, end: nat, wnd: nat): nat {
      LeastMissing(got + Interval(at, Right(pos, end, wnd)), n)
    }

    /** The code takes the segment for one that ends the stream. */
    ghost predicate FinReported(at: nat, end: nat, fin: bool, wnd: nat) {
      && Takes(at, end, fin, wnd) && at <= pos
      && FlagAfter(segs, pieces, pos, Right(pos, end, wnd), fin, NextEdge(at, end, wnd))
    }

    /** The end of the stream is reported although it has not been reached: the left edge stops
        at the right edge of the segment's own window, which cuts its FIN off, or at the end of a
        queued segment that has kept the flag of a FIN cut off before. */
    ghost predicate TooEarly(at: nat, end: nat, fin: bool, wnd: nat) {
      var edge := NextEdge(at, end, wnd);
      && at <= pos < Right(pos, end, wnd) && edge < n
      && if edge == Right(pos, end, wnd) then FinCutOff(pos, end, fin, wnd) else FinAt(segs, pieces, edge)
    }
  }

  ghost function Now(tp: TcpCb): Conn
    reads tp
  {
    Conn(tp.segq, tp.pieces, tp.rcvPos, |tp.stream|, tp.Received(), tp.rcvBuf, tp.state)
  }

  /** The part [left, right) of a segment has been taken in. */
  ghost predicate Merged(c0: Conn, c: Conn, left: nat, right: nat, fin: bool, reported: bool) {
    && c.got == c0.got + Interval(left, right)
    && (c0.state >= TCPS_ESTABLISHED && c0.Drained() ==>
          (reported <==> left <= c0.pos && FlagAfter(c0.segs, c0.pieces, c0.pos, right, fin, c.pos)))
    && FinsFrom(c0.segs, c0.pieces, c.segs, c.pieces, right, fin)
    && FinsAfter(c0.segs, c0.pieces, c.segs, c.pieces, left, right, fin, c.pos + 1)
    && EmptiesFrom(c0.pieces, c.pieces, right, right - left == 0)
    && (!reported ==> EmptiesAfter(c0.pieces, c.pieces, left, right, c.n))
  }

  /** The queue has been freed. */
  ghost predicate Lost(c0: Conn, c: Conn, reported: bool) {
    c.segs == [] && c.pieces == [] && c.pos == c0.pos && c.buf == c0.buf && c.got == Interval(0, c0.pos) && !reported
  }

  /** The same connection later. */
  ghost predicate Later(c0: Conn, c: Conn) {
    && c.n == c0.n && c.state == c0.state && c.pos >= c0.pos
    && (c0.state >= TCPS_ESTABLISHED && c0.Drained() ==> c.Drained())
  }

  /** What becomes of a connection when a segment arrives. */
  ghost predicate Outcome(c0: Conn, c: Conn, at: nat, end: nat, fin: bool, wnd: nat, memory: bool, reported: bool) {
    && Later(c0, c)
    && if !c0.Takes(at, end, fin, wnd) then c == c0 && !reported
       else if c0.Kept(at, memory) then Merged(c0, c, Left(c0.pos, at), Right(c0.pos, end, wnd), fin, reported)
       else Lost(c0, c, reported)
  }

  /** Lines 1076-1102: the next segment of an established connection with an empty queue. */
  method Append(tp: TcpCb, data: seq<Byte>, thFin: bool) returns (fin: bool)
    requires tp.Valid() && tp.segq == [] && Holds(data, tp.rcvPos, tp.stream) && (data != [] || thFin)
    modifies tp`rcvNxt, tp`rcvBuf, tp`rcvPos
    ensures tp.Valid() && tp.rcvPos == old(tp.rcvPos) + |data| && fin == thFin
    ensures Later(old(Now(tp)), Now(tp))
    ensures Merged(old(Now(tp)), Now(tp), old(tp.rcvPos), old(tp.rcvPos) + |data|, thFin, fin)
  {
    NothingQueued(tp);
    InOrder(|tp.stream|, tp.rcvPos, tp.rcvPos + |data|, thFin);
    hide SeqOf, Interval, Cover, FinsFrom, FinsAfter, EmptiesFrom, EmptiesAfter, FlagAfter, TcpCb.Delivered;
    fin := thFin;
    tp.Advance(data);
    NothingQueued(tp);
    assert Interval(0, tp.rcvPos) == Interval(0, old(tp.rcvPos)) + Interval(old(tp.rcvPos), tp.rcvPos);
  }

  /** Lines 1074-1112, for a segment with data or a FIN: deliver at once, or reassemble. */
  method Merge(tp: TcpCb, thSeq: Word32, data: seq<Byte>, thFin: bool, memory: bool, ghost at: nat)
    returns (fin: bool)
    requires tp.Valid() && thSeq == SeqOf(tp.isn, at) && Holds(data, at, tp.stream)
    requires tp.rcvPos <= at && at + |data| <= tp.rcvPos + 0x7FFF_FFFF
    requires data != [] || thFin
    modifies tp`segq, tp`rcvNxt, tp`rcvBuf, tp`rcvPos, tp`pieces
    ensures tp.Valid() && Later(old(Now(tp)), Now(tp))
    ensures if old(Now(tp)).Kept(at, memory) then Merged(old(Now(tp)), Now(tp), at, at + |data|, thFin, fin)
            else Lost(old(Now(tp)), Now(tp), fin)
  {
    SeqEqual(tp.isn, at, tp.rcvPos);
    hide SeqOf, Interval, Cover, Queue, Merged, Lost;
    if thSeq == tp.rcvNxt && tp.segq == [] && tp.state == TCPS_ESTABLISHED {
      fin := Append(tp, data, thFin);
    } else {
      fin := Queued(tp, thSeq, data, thFin, memory, at);
    }
  }

  /** Lines 1103-1112: the segment goes through the reassembly queue. */
  method Queued(tp: TcpCb, thSeq: Word32, data: seq<Byte>, thFin: bool, memory: bool, ghost at: nat)
    returns (fin: bool)
    requires tp.Valid() && thSeq == SeqOf(tp.isn, at) && Holds(data, at, tp.stream)
    requires tp.rcvPos <= at && at + |data| <= tp.rcvPos + 0x7FFF_FFFF
    requires data != [] || thFin
    modifies tp`segq, tp`rcvNxt, tp`rcvBuf, tp`rcvPos, tp`pieces
    ensures tp.Valid() && Later(old(Now(tp)), Now(tp))
    ensures if memory then Merged(old(Now(tp)), Now(tp), at, at + |data|, thFin, fin)
            else Lost(old(Now(tp)), Now(tp), fin)
  {
    hide SeqOf, Interval, Cover, Queue, FinsFrom, FinsAfter, EmptiesFrom, EmptiesAfter, FlagAfter;
    fin := tp.Reass(thSeq, data, thFin, memory, at);
    NothingQueued(tp);
  }

  /** A segment that is delivered at once leaves no flag behind. */
  lemma InOrder(n: nat, at: nat, end: nat, fin: bool)
    requires at <= end && (at < end || fin)
    ensures FlagAfter([], [], at, end, fin, end) == fin
    ensures FinsFrom([], [], [], [], end, fin) && FinsAfter([], [], [], [], at, end, fin, end + 1)
    ensures EmptiesFrom([], [], end, end - at == 0) && (!fin ==> EmptiesAfter([], [], at, end, n))
  {
  }

  lemma NothingQueued(tp: TcpCb)
    requires tp.Valid()
    ensures tp.segq == [] ==> tp.pieces == [] && tp.Received() == Interval(0, tp.rcvPos)
  {
    assert Cover([]) == {};
  }

  /** Lines 619-723 and the test of line 1074: what is left of a segment, if it counts. */
  method Trim(rcvNxt: Word32, thSeq0: Word32, data0: seq<Byte>, thFin: bool, wnd: Word32,
              ghost isn: Word32, ghost stream: seq<Byte>, ghost rcvPos: nat, ghost at0: nat)
    returns (counts: bool, thSeq: Word32, data: seq<Byte>, ghost at: nat)
    requires rcvNxt == SeqOf(isn, rcvPos) && thSeq0 == SeqOf(isn, at0) && Holds(data0, at0, stream)
    requires InRange(rcvPos, at0, |data0|, wnd)
    ensures counts <==> Counts(rcvPos, at0, at0 + |data0|, thFin, wnd)
    ensures counts ==>
      && at == Left(rcvPos, at0) && at + |data| == Right(rcvPos, at0 + |data0|, wnd)
      && thSeq == SeqOf(isn, at) && Holds(data, at, stream) && (data != [] || thFin)
  {
    hide SeqOf;
    var tiFin, drop;
    thSeq, data, tiFin, at := TrimReceived(rcvNxt, thSeq0, data0, thFin, isn, stream, rcvPos, at0);
    drop, data, tiFin := TrimBeyond(rcvNxt, thSeq, data, tiFin, wnd, isn, stream, rcvPos, at);
    counts := !drop && (data != [] || tiFin);
  }

  /** Lines 619-1120: trim the segment and, unless a FIN has been received before, merge what
      counts of it. */
  method Accept(tp: TcpCb, thSeq0: Word32, data0: seq<Byte>, thFin: bool, wnd: Word32, memory: bool, ghost at0: nat)
    returns (fin: bool)
    requires tp.Valid() && thSeq0 == SeqOf(tp.isn, at0) && Holds(data0, at0, tp.stream)
    requires InRange(tp.rcvPos, at0, |data0|, wnd)
    modifies tp`segq, tp`rcvNxt, tp`rcvBuf, tp`rcvPos, tp`pieces
    ensures tp.Valid() && Outcome(old(Now(tp)), Now(tp), at0, at0 + |data0|, thFin, wnd, memory, fin)
  {
    fin := false;
    hide Merged, Lost, SeqOf, Interval, Cover, Queue, Counts, Right, Left;
    var counts, thSeq, data;
    ghost var at;
    counts, thSeq, data, at := Trim(tp.rcvNxt, thSeq0, data0, thFin, wnd, tp.isn, tp.stream, tp.rcvPos, at0);
    if counts && !HaveRcvdFin(tp.state) {
      CountsAtEdge(tp.rcvPos, at0, at0 + |data0|, thFin, wnd);
      fin := Merge(tp, thSeq, data, thFin, memory, at);
    }
  }

  // ----- what it reports

  lemma TooEarlyIff(tp: TcpCb, at: nat, end: nat, fin: bool, wnd: nat)
    requires tp.Valid() && tp.Drained() && at <= end <= |tp.stream| && !HaveRcvdFin(tp.state)
    requires HonestFin(end, fin, |tp.stream|) && EmptiesAtEnd(tp.pieces, |tp.stream|)
    ensures Now(tp).FinReported(at, end, fin, wnd) && Now(tp).NextEdge(at, end, wnd) < |tp.stream|
       <==> Now(tp).TooEarly(at, end, fin, wnd)
  {
    tp.NextIsNotHeld(tp.rcvPos, Right(tp.rcvPos, end, wnd));
    EdgeAdvances(tp, at, end, wnd);
    hide Interval, Cover, FinAt, HeldByOne, LeastMissing, Queue;
  }

  lemma EdgeAdvances(tp: TcpCb, at: nat, end: nat, wnd: nat)
    requires tp.Valid()
    ensures Now(tp).NextEdge(at, end, wnd) >= tp.rcvPos
  {
    assert forall k | 0 <= k < tp.rcvPos :: k in tp.Received() + Interval(at, Right(tp.rcvPos, end, wnd));
  }

  /** What is known of a connection before a segment arrives. */
  ghost predicate Foreseen(c0: Conn, at: nat, end: nat, fin: bool, wnd: nat) {
    && c0.state >= TCPS_ESTABLISHED && c0.Drained() && c0.pos == LeastMissing(c0.got, c0.n)
    && c0.got + Interval(at, Right(c0.pos, end, wnd))
         == (if Counts(c0.pos, at, end, fin, wnd) then c0.got + Interval(Left(c0.pos, at), Right(c0.pos, end, wnd))
             else c0.got)
    && (HonestFin(end, fin, c0.n) && EmptiesAtEnd(c0.pieces, c0.n) && !HaveRcvdFin(c0.state) ==>
          (c0.FinReported(at, end, fin, wnd) && c0.NextEdge(at, end, wnd) < c0.n <==> c0.TooEarly(at, end, fin, wnd)))
  }

  lemma Foresee(tp: TcpCb, at: nat, end: nat, fin: bool, wnd: nat)
    requires tp.Valid() && tp.state >= TCPS_ESTABLISHED && tp.Drained() && at <= end <= |tp.stream|
    ensures Foreseen(Now(tp), at, end, fin, wnd)
  {
    DeliveredIsLeastMissing(tp);
    if HonestFin(end, fin, |tp.stream|) && EmptiesAtEnd(tp.pieces, |tp.stream|) && !HaveRcvdFin(tp.state) {
      TooEarlyIff(tp, at, end, fin, wnd);
    }
    hide Cover, EmptiesAtEnd, FinAt, FlagAfter, LeastMissing, Queue;
    var right := Right(tp.rcvPos, end, wnd);
    var added := if Counts(tp.rcvPos, at, end, fin, wnd) then Interval(Left(tp.rcvPos, at), right) else {};
    assert Interval(0, tp.rcvPos) + Interval(at, right) == Interval(0, tp.rcvPos) + added;
    AddToReceived(tp.rcvPos, tp.pieces, Interval(at, right), added);
  }

  lemma AddToReceived(rcvPos: nat, pieces: seq<Piece>, a: set<int>, b: set<int>)
    requires Interval(0, rcvPos) + a == Interval(0, rcvPos) + b
    ensures Interval(0, rcvPos) + Cover(pieces) + a == Interval(0, rcvPos) + Cover(pieces) + b
  {
    var i, c := Interval(0, rcvPos), Cover(pieces);
    assert i + c + a == (i + a) + c;
    assert i + c + b == (i + b) + c;
  }

  /** A FIN that arrives in order, alone or behind the last data, is seen. */
  lemma EndSeen(tp: TcpCb, at: nat, end: nat, fin: bool, wnd: nat, memory: bool)
    requires tp.Valid() && tp.Drained()
    ensures EndsInOrder(Now(tp), at, end, fin, wnd, memory) ==>
      Now(tp).NextEdge(at, end, wnd) == end && Now(tp).FinReported(at, end, fin, wnd) && Now(tp).Kept(at, memory)
  {
    if EndsInOrder(Now(tp), at, end, fin, wnd, memory) {
      tp.NextIsNotHeld(tp.rcvPos, end);
      hide HeldByOne, FinAt, EmptyAt;
      LeastMissingIs(tp.Received() + Interval(at, end), |tp.stream|, end);
    }
  }

  /** The state is ESTABLISHED, FIN_WAIT_1 or FIN_WAIT_2, and what is missing of the stream has
      arrived inside the window, with the FIN. */
  ghost predicate EndsInOrder(c0: Conn, at: nat, end: nat, fin: bool, wnd: nat, memory: bool) {
    c0.state in {4, 6, 9} && fin && memory && at <= c0.pos && end == c0.n <= c0.pos + wnd && c0.pos <= c0.n
  }

  /** What is received of a segment that is kept. */
  lemma Takings(c0: Conn, c: Conn, at: nat, end: nat, fin: bool, wnd: nat, memory: bool, reported: bool)
    requires at <= end && Foreseen(c0, at, end, fin, wnd) && Outcome(c0, c, at, end, fin, wnd, memory, reported)
    requires memory || (c0.segs == [] && c0.state == 4 && at <= c0.pos)
    requires c0.state in {4, 6, 9}
    ensures forall p :: p in c.got <==> p in c0.got || (at <= p < end && p < c0.pos + wnd)
  {
    hide EmptiesAtEnd, HonestFin, LeastMissing, FlagAfter, FinsFrom, FinsAfter, EmptiesFrom, EmptiesAfter;
    hide Conn.TooEarly, Conn.FinReported, NothingNext;
    assert c.got == c0.got + Interval(at, Right(c0.pos, end, wnd));
  }

  /** What is left of the queue when a segment is not kept. */
  lemma Losings(c0: Conn, c: Conn, at: nat, end: nat, fin: bool, wnd: nat, memory: bool, reported: bool)
    requires at <= end && Outcome(c0, c, at, end, fin, wnd, memory, reported)
    requires !memory && !(c0.segs == [] && c0.state == 4 && at <= c0.pos) && c0.state in {4, 6, 9}
    ensures !reported && c.pos == c0.pos
    ensures if (at < end && at < c0.pos + wnd && c0.pos < end && wnd > 0)
               || (fin && c0.pos <= end <= c0.pos + wnd && (at == end || end == c0.pos))
            then c.segs == [] else c == c0
  {
  }

  lemma Fulfilled(c0: Conn, c: Conn, at: nat, end: nat, fin: bool, wnd: nat, memory: bool, reported: bool)
    requires at <= end && Foreseen(c0, at, end, fin, wnd) && Outcome(c0, c, at, end, fin, wnd, memory, reported)
    requires c.pos == LeastMissing(c.got, c.n)
    ensures if HaveRcvdFin(c0.state) then c == c0 && !reported
      else if c0.Kept(at, memory) then
        c.pos == c0.NextEdge(at, end, wnd) && (reported <==> c0.FinReported(at, end, fin, wnd))
      else !reported && c.pos == c0.pos
    ensures c0.Kept(at, memory) && !HaveRcvdFin(c0.state) ==>
      HonestFin(end, fin, c0.n) && EmptiesAtEnd(c0.pieces, c0.n) ==>
      (reported && c.pos < c0.n <==> c0.TooEarly(at, end, fin, wnd))
  {
    hide Conn.TooEarly, EmptiesAtEnd;
    if Counts(c0.pos, at, end, fin, wnd) {
      CountsAtEdge(c0.pos, at, end, fin, wnd);
    }
    hide Interval, LeastMissing, FlagAfter, FinsFrom, FinsAfter, EmptiesFrom, EmptiesAfter, Counts, Left, Right;
  }

  /** CLOSE_WAIT, CLOSING, LAST_ACK and TIME_WAIT are the states after a FIN. */
  lemma StatesAre(state: nat)
    ensures state in {4, 6, 9} ==> !HaveRcvdFin(state)
    ensures state in {5, 7, 8, 10} ==> HaveRcvdFin(state)
  {
  }

  /** A segment arrives at a connection that has delivered all it can.  `fin` is what the code
      then takes for a FIN received in order.  The comment at lines 678-679 promises that a FIN
      beyond the window is dropped with the data there; but the code clears it in a variable
      that it does not look at again (lines 723, 1082 and 247).  So the end of the stream is
      reported too early, exactly when `TooEarly` says so. */
  method Arrive(tp: TcpCb, thSeq0: Word32, data0: seq<Byte>, thFin: bool, wnd: Word32, memory: bool, ghost at0: nat)
    returns (fin: bool)
    requires tp.Valid() && tp.state >= TCPS_ESTABLISHED && tp.Drained()
    requires thSeq0 == SeqOf(tp.isn, at0) && Holds(data0, at0, tp.stream)
    requires InRange(tp.rcvPos, at0, |data0|, wnd)
    modifies tp`segq, tp`rcvNxt, tp`rcvBuf, tp`rcvPos, tp`pieces
    ensures tp.Valid() && tp.Drained()
    ensures Outcome(old(Now(tp)), Now(tp), at0, at0 + |data0|, thFin, wnd, memory, fin)
    ensures if HaveRcvdFin(tp.state) then Now(tp) == old(Now(tp)) && !fin
      else if old(Now(tp)).Kept(at0, memory) then
        && tp.rcvPos == old(Now(tp)).NextEdge(at0, at0 + |data0|, wnd)
        && (fin <==> old(Now(tp)).FinReported(at0, at0 + |data0|, thFin, wnd))
      else !fin && tp.rcvPos == old(tp.rcvPos)
    ensures old(Now(tp)).Kept(at0, memory) && !HaveRcvdFin(tp.state) ==>
      HonestFin(at0 + |data0|, thFin, |tp.stream|) && EmptiesAtEnd(old(tp.pieces), |tp.stream|) ==>
      (fin && tp.rcvPos < |tp.stream| <==> old(Now(tp)).TooEarly(at0, at0 + |data0|, thFin, wnd))
    ensures var end, pos := at0 + |data0|, old(tp.rcvPos);
      tp.state in {4, 6, 9} && thFin && memory && at0 <= pos && end == |tp.stream| <= pos + wnd ==>
      fin && tp.rcvPos == |tp.stream|
    ensures tp.state in {4, 6, 9} && (memory || (old(tp.segq) == [] && tp.state == 4 && at0 <= old(tp.rcvPos))) ==>
      forall p :: p in tp.Received() <==>
        p in old(tp.Received()) || (at0 <= p < at0 + |data0| && p < old(tp.rcvPos) + wnd)
    ensures var end, pos := at0 + |data0|, old(tp.rcvPos);
      tp.state in {4, 6, 9} && !memory && !(old(tp.segq) == [] && tp.state == 4 && at0 <= pos) ==>
      && !fin && tp.rcvPos == pos
      && if (at0 < end && at0 < pos + wnd && pos < end && wnd > 0)
            || (thFin && pos <= end <= pos + wnd && (at0 == end || end == pos))
         then tp.segq == [] else Now(tp) == old(Now(tp))
    ensures tp.state in {5, 7, 8, 10} ==> Now(tp) == old(Now(tp)) && !fin
  {
    ghost var c0, end := Now(tp), at0 + |data0|;
    hide Foreseen, Outcome, Conn.Kept, Conn.NextEdge, Conn.FinReported, Conn.TooEarly, HaveRcvdFin;
    hide SeqOf, Interval, Cover, Queue, FinAt, EmptyAt, LeastMissing, EmptiesAtEnd, HonestFin;
    Foresee(tp, at0, end, thFin, wnd);
    EndSeen(tp, at0, end, thFin, wnd, memory);
    fin := Accept(tp, thSeq0, data0, thFin, wnd, memory, at0);
    StillDrained(c0, Now(tp), at0, end, thFin, wnd, memory, fin);
    DeliveredIsLeastMissing(tp);
    Fulfilled(c0, Now(tp), at0, end, thFin, wnd, memory, fin);
    if tp.state in {4, 6, 9} {
      if memory || (c0.segs == [] && tp.state == 4 && at0 <= c0.pos) {
        Takings(c0, Now(tp), at0, end, thFin, wnd, memory, fin);
      } else {
        Losings(c0, Now(tp), at0, end, thFin, wnd, memory, fin);
      }
    }
    StatesAre(tp.state);
  }

  lemma StillDrained(c0: Conn, c: Conn, at: nat, end: nat, fin: bool, wnd: nat, memory: bool, reported: bool)
    requires c0.state >= TCPS_ESTABLISHED && c0.Drained() && Outcome(c0, c, at, end, fin, wnd, memory, reported)
    ensures c.Drained()
  {
  }

  /** When nothing deliverable is queued, exactly the positions before the first missing one
      have been delivered. */
  lemma DeliveredIsLeastMissing(tp: TcpCb)
    requires tp.Valid() && tp.Drained()
    ensures tp.rcvPos == LeastMissing(tp.Received(), |tp.stream|)
  {
    if tp.pieces != [] {
      forall k | 0 <= k < |tp.pieces|
        ensures tp.rcvPos + 1 <= tp.pieces[k].at
      {
        assert k > 0 ==> tp.pieces[0].End() <= tp.pieces[k].at;
      }
      CoverBetween(tp.pieces, tp.rcvPos + 1, tp.rcvPos + 0x7FFF_FFFF);
    }
    LeastMissingIs(tp.Received(), |tp.stream|, tp.rcvPos);
  }
}
