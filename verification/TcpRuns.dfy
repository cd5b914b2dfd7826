/** Whole runs of the data path of a TCP connection, tn_net/tn_tcp_input.c:118-271 and 619-1112. */
module TcpRuns {
  import opened Machine
  import opened SeqSpace
  import opened TcpReass
  import opened TcpInput

  /** A segment as the network may deliver it: any stretch of the stream, any number of times,
      in any order, with the receive window of the moment, and with or without memory for a
      queue entry. */
  datatype Arrival = Arrival(at: nat, len: nat, fin: bool, wnd: nat, memory: bool) {
    function End(): nat { at + len }
  }

  /** The positions that a receiver has, and whether a FIN without data waits in its queue. */
  datatype Holding = Holding(got: set<int>, finWaits: bool)

  ghost function Edge(n: nat, h: Holding): nat {
    LeastMissing(h.got, n)
  }

  ghost predicate KeptBy(est: bool, h: Holding, edge: nat, a: Arrival) {
    KeptAt(a.memory, est, h == Holding(Interval(0, edge), false), a.at, edge)
  }

  /** What a receiver has after one more arrival: the part of the segment inside the window is
      added, or, when it is not kept, everything is lost that has not been delivered. */
  ghost function After(n: nat, est: bool, h: Holding, a: Arrival): Holding {
    var edge := Edge(n, h);
    if !Counts(edge, a.at, a.End(), a.fin, a.wnd) then h
    else if KeptBy(est, h, edge, a) then
      Holding(h.got + Interval(Left(edge, a.at), Right(edge, a.End(), a.wnd)),
              h.finWaits || !HasData(edge, a.at, a.End(), a.wnd))
    else Holding(Interval(0, edge), false)
  }

  ghost function HeldAfter(n: nat, est: bool, arrivals: seq<Arrival>): Holding {
    if arrivals == [] then Holding({}, false)
    else After(n, est, HeldAfter(n, est, arrivals[..|arrivals| - 1]), arrivals[|arrivals| - 1])
  }

  /** Where the first of the missing positions is before arrival `k`. */
  ghost function EdgeAt(n: nat, est: bool, arrivals: seq<Arrival>, k: nat): nat
    requires k <= |arrivals|
  {
    Edge(n, HeldAfter(n, est, arrivals[..k]))
  }

  /** Every segment is part of the stream, and not 2^31 away from the left window edge when it arrives. */
  ghost predicate Timely(n: nat, est: bool, arrivals: seq<Arrival>) {
    forall k | 0 <= k < |arrivals| ::
      var a := arrivals[k];
      a.End() <= n && HonestFin(a.End(), a.fin, n) && InRange(EdgeAt(n, est, arrivals, k), a.at, a.len, a.wnd)
  }

  /** One of the first `k` segments had its FIN cut off by a window that ended at `e`. */
  ghost predicate CutAt(n: nat, est: bool, arrivals: seq<Arrival>, k: nat, e: nat)
    requires k <= |arrivals|
  {
    exists j :: 0 <= j < k && Cuts(EdgeAt(n, est, arrivals, j), arrivals[j], e)
  }

  ghost predicate Cuts(edge: nat, a: Arrival, e: nat) {
    FinCutOff(edge, a.End(), a.fin, a.wnd) && e == edge + a.wnd
  }

  /** The flags in the queue are those of the end of the stream and of FINs that were cut off. */
  ghost predicate FinsExplained(segs: seq<Seg>, pieces: seq<Piece>, n: nat, est: bool, arrivals: seq<Arrival>, k: nat)
    requires k <= |arrivals|
  {
    forall e: nat | FinAt(segs, pieces, e) :: e == n || CutAt(n, est, arrivals, k, e)
  }

  /** A FIN without data is queued just when `h` says so, at the end of the stream. */
  ghost predicate FinWaits(pieces: seq<Piece>, n: nat, h: Holding) {
    (EmptyAt(pieces, n) <==> h.finWaits) && EmptiesAtEnd(pieces, n)
  }

  /** The connection has what the first `k` arrivals give. */
  ghost predicate Has(c: Conn, arrivals: seq<Arrival>, k: nat)
    requires k <= |arrivals|
  {
    var est := c.state == TCPS_ESTABLISHED;
    var h := HeldAfter(c.n, est, arrivals[..k]);
    c.got == h.got && FinWaits(c.pieces, c.n, h) && FinsExplained(c.segs, c.pieces, c.n, est, arrivals, k)
  }

  /** The connection has that, or has reported the end of the stream. */
  ghost predicate Reached(c: Conn, arrivals: seq<Arrival>, k: nat, fin: bool)
    requires k <= |arrivals|
  {
    var est := c.state == TCPS_ESTABLISHED;
    && c.got == HeldAfter(c.n, est, arrivals[..k]).got
    && if fin then c.pos == c.n || CutAt(c.n, est, arrivals, k, c.pos) else Has(c, arrivals, k)
  }

  /** Arrival `j` brings, with the FIN, what is missing of the stream. */
  ghost predicate EndsAt(n: nat, est: bool, arrivals: seq<Arrival>, j: nat)
    requires j < |arrivals|
  {
    var a, edge := arrivals[j], EdgeAt(n, est, arrivals, j);
    a.fin && a.memory && a.at <= edge && n <= edge + a.wnd
  }

  ghost predicate EndCame(n: nat, est: bool, arrivals: seq<Arrival>, k: nat)
    requires k <= |arrivals|
  {
    exists j :: 0 <= j < k && EndsAt(n, est, arrivals, j)
  }

  lemma EndCameNext(n: nat, est: bool, arrivals: seq<Arrival>, k: nat)
    requires k < |arrivals|
    ensures EndCame(n, est, arrivals, k + 1) <==> EndCame(n, est, arrivals, k) || EndsAt(n, est, arrivals, k)
  {
    hide EndsAt;
  }

  /** The sender sets FIN on every segment with the last byte of the stream. */
  ghost predicate FinsSet(arrivals: seq<Arrival>, n: nat) {
    forall k | 0 <= k < |arrivals| :: SetsFin(arrivals[k].len, arrivals[k].End(), arrivals[k].fin, n)
  }

  ghost predicate SetsFin(len: nat, end: nat, fin: bool, n: nat) {
    len > 0 && end == n ==> fin
  }

  /** One of the first `k` arrivals is a FIN alone inside its window, and there is memory for it
      and for those after it. */
  ghost predicate LoneFin(n: nat, est: bool, arrivals: seq<Arrival>, k: nat)
    requires k <= |arrivals|
  {
    exists j :: 0 <= j < k && LoneFinAt(n, est, arrivals, j) && forall i | j <= i < k :: arrivals[i].memory
  }

  ghost predicate LoneFinAt(n: nat, est: bool, arrivals: seq<Arrival>, j: nat)
    requires j < |arrivals|
  {
    var a, edge := arrivals[j], EdgeAt(n, est, arrivals, j);
    a.fin && a.at == n && a.len == 0 && n <= edge + a.wnd
  }

  ghost predicate FinSent(arrivals: seq<Arrival>) {
    exists k :: 0 <= k < |arrivals| && arrivals[k].fin
  }

  ghost predicate NoFlags(c: Conn) {
    forall e: nat :: !FinAt(c.segs, c.pieces, e) && !EmptyAt(c.pieces, e)
  }

  /** The last byte, when it has been received, waits in the queue, with the flag. */
  ghost predicate EndFlagged(c: Conn) {
    0 < c.n && c.n - 1 in c.got ==> c.pos < c.n && FinAt(c.segs, c.pieces, c.n)
  }

  /** Any run.  Whatever the network does to the segments, and whenever memory runs out, what
      reaches the socket is a prefix of the stream, and the longest one that the segments kept
      so far allow: it ends at the first position that none of them holds.  A FIN is reported
      where the stream ends, or where some window has cut one off, and only if one was sent.  It is
      reported when it arrives in order; when it came alone, was not lost, and the rest has come;
      and when all of a stream has come whose last byte always has it. */
  method Run(stream: seq<Byte>, isn: Word32, state: nat, arrivals: seq<Arrival>)
    returns (delivered: seq<Byte>, k: nat, fin: bool)
    requires state >= TCPS_ESTABLISHED && !HaveRcvdFin(state)
    requires Timely(|stream|, state == TCPS_ESTABLISHED, arrivals)
    ensures k <= |arrivals| && (fin || k == |arrivals|)
    ensures var edge := EdgeAt(|stream|, state == TCPS_ESTABLISHED, arrivals, k);
      edge <= |stream| && delivered == stream[..edge]
    ensures fin ==> delivered == stream || CutAt(|stream|, state == TCPS_ESTABLISHED, arrivals, k, |delivered|)
    ensures EndCame(|stream|, state == TCPS_ESTABLISHED, arrivals, k) ==> fin
    ensures FinsSet(arrivals, |stream|) && stream != [] && delivered == stream ==> fin
    ensures LoneFin(|stream|, state == TCPS_ESTABLISHED, arrivals, k) && delivered == stream ==> fin
    ensures fin ==> FinSent(arrivals)
  {
    var tp := new TcpCb(isn, stream, state);
    fin, k := false, 0;
    NothingYet(tp, arrivals);
    hide SeqOf, Interval, Cover, Queue, LeastMissing, After, HeldAfter, CutAt, Has, EndFlagged;
    hide EndsAt, EndCame, FinsSet, FinSent, NoFlags;
    while k < |arrivals| && !fin
      invariant k <= |arrivals| && fresh(tp) && tp.Valid() && tp.Drained()
      invariant tp.isn == isn && tp.stream == stream && tp.state == state && !tp.cantRcvMore
      invariant Reached(Now(tp), arrivals, k, fin)
      invariant FinsSet(arrivals, |stream|) && !fin ==> EndFlagged(Now(tp))
      invariant EndCame(|stream|, state == TCPS_ESTABLISHED, arrivals, k) ==> fin
      invariant !FinSent(arrivals) ==> !fin && NoFlags(Now(tp))
    {
      EndCameNext(|stream|, state == TCPS_ESTABLISHED, arrivals, k);
      fin := Receive(tp, stream, isn, arrivals, k);
      k := k + 1;
    }
    DeliveredIsLeastMissing(tp);
    ReachedGot(Now(tp), arrivals, k, fin);
    FlaggedBeforeEnd(tp);
    LoneFinFirst(tp, arrivals, k, fin);
    delivered := tp.rcvBuf;
  }

  lemma ReachedGot(c: Conn, arrivals: seq<Arrival>, k: nat, fin: bool)
    requires k <= |arrivals| && Reached(c, arrivals, k, fin)
    ensures var est := c.state == TCPS_ESTABLISHED;
      && c.got == HeldAfter(c.n, est, arrivals[..k]).got
      && (fin ==> c.pos == c.n || CutAt(c.n, est, arrivals, k, c.pos))
  {
  }

  lemma NothingYet(tp: TcpCb, arrivals: seq<Arrival>)
    requires tp.Valid() && tp.segq == [] && tp.rcvPos == 0
    ensures Reached(Now(tp), arrivals, 0, false) && EndFlagged(Now(tp))
    ensures NoFlags(Now(tp))
    ensures !EndCame(|tp.stream|, tp.state == TCPS_ESTABLISHED, arrivals, 0)
  {
    assert arrivals[..0] == [];
    assert tp.Received() == {};
  }

  lemma HeldNext(n: nat, est: bool, arrivals: seq<Arrival>, k: nat)
    requires k < |arrivals|
    ensures HeldAfter(n, est, arrivals[..k + 1]) == After(n, est, HeldAfter(n, est, arrivals[..k]), arrivals[k])
  {
    assert arrivals[..k + 1][..k] == arrivals[..k];
  }

  /** One arrival of a run. */
  method Receive(tp: TcpCb, stream: seq<Byte>, isn: Word32, arrivals: seq<Arrival>, k: nat) returns (fin: bool)
    requires tp.stream == stream && tp.isn == isn && tp.Valid() && tp.Drained()
    requires tp.state >= TCPS_ESTABLISHED && !HaveRcvdFin(tp.state)
    requires k < |arrivals| && Timely(|stream|, tp.state == TCPS_ESTABLISHED, arrivals) && Has(Now(tp), arrivals, k)
    modifies tp`segq, tp`rcvNxt, tp`rcvBuf, tp`rcvPos, tp`pieces
    ensures tp.Valid() && tp.Drained()
    ensures Reached(Now(tp), arrivals, k + 1, fin)
    ensures FinsSet(arrivals, |stream|) && EndFlagged(old(Now(tp))) && !fin ==> EndFlagged(Now(tp))
    ensures EndsAt(|stream|, tp.state == TCPS_ESTABLISHED, arrivals, k) ==> fin
    ensures !FinSent(arrivals) && NoFlags(old(Now(tp))) ==> !fin && NoFlags(Now(tp))
  {
    hide SeqOf, Interval, Cover, Queue, LeastMissing, HeldAfter, Has, Reached, Outcome;
    hide Conn.Kept, KeptBy, Holds, InRange, EndFlagged, NoFlags;
    hide Timely, FinWaits, FinsExplained, Edge;
    var a := arrivals[k];
    ghost var c0 := Now(tp);
    BeforeArrival(tp, arrivals, k);
    EndsInTime(|stream|, tp.state == TCPS_ESTABLISHED, arrivals, k);
    LastHeld(tp, Left(tp.rcvPos, a.at));
    DeliveredIsLeastMissing(tp);
    fin := Arrive(tp, SeqOf(isn, a.at), stream[a.at..a.End()], a.fin, a.wnd, a.memory, a.at);
    Settle(c0, Now(tp), arrivals, k, fin);
    DeliveredIsLeastMissing(tp);
    if !FinSent(arrivals) && NoFlags(c0) {
      NoFlagAppears(c0, Now(tp), a.at, a.End(), a.wnd, a.memory, fin);
    }
    if FinsSet(arrivals, |stream|) && EndFlagged(c0) {
      FlagStays(c0, Now(tp), a.at, a.End(), a.fin, a.wnd, a.memory, fin);
    }
  }

  /** A FIN alone that waits is never forgotten while there is memory, and waits behind a gap. */
  lemma LoneFinFirst(tp: TcpCb, arrivals: seq<Arrival>, k: nat, fin: bool)
    requires tp.Valid() && tp.Drained() && k <= |arrivals| && Reached(Now(tp), arrivals, k, fin)
    ensures LoneFin(|tp.stream|, tp.state == TCPS_ESTABLISHED, arrivals, k) && tp.rcvPos == |tp.stream| ==> fin
  {
    var n, est := |tp.stream|, tp.state == TCPS_ESTABLISHED;
    if LoneFin(n, est, arrivals, k) && !fin {
      var j :| 0 <= j < k && LoneFinAt(n, est, arrivals, j) && forall i | j <= i < k :: arrivals[i].memory;
      LoneFinWaits(n, est, arrivals, j, k);
      assert EmptyAt(tp.pieces, n);
      tp.NextIsNotHeld(tp.rcvPos, n);
    }
  }

  lemma {:induction false} LoneFinWaits(n: nat, est: bool, arrivals: seq<Arrival>, j: nat, k: nat)
    requires j < k <= |arrivals| && LoneFinAt(n, est, arrivals, j) && forall i | j <= i < k :: arrivals[i].memory
    ensures HeldAfter(n, est, arrivals[..k]).finWaits
    decreases k
  {
    hide HeldAfter, LeastMissing, Interval;
    HeldNext(n, est, arrivals, k - 1);
    if j < k - 1 {
      LoneFinWaits(n, est, arrivals, j, k - 1);
    }
  }

  lemma FlaggedBeforeEnd(tp: TcpCb)
    requires tp.Valid()
    ensures EndFlagged(Now(tp)) && tp.stream != [] ==> tp.rcvPos < |tp.stream|
  {
  }

  /** A queued segment with all of the rest of the stream has its last byte. */
  lemma LastHeld(tp: TcpCb, at: nat)
    requires tp.Valid()
    ensures HeldByOne(tp.pieces, at, |tp.stream|) && at < |tp.stream| ==> |tp.stream| - 1 in tp.Received()
  {
    var n := |tp.stream|;
    if HeldByOne(tp.pieces, at, n) && at < n {
      var k :| 0 <= k < |tp.pieces| && tp.pieces[k].at <= at < tp.pieces[k].End() && n <= tp.pieces[k].End();
      CoverMember(tp.pieces, k);
      assert Matches(tp.segq[k], tp.pieces[k], tp.isn, tp.stream);
      assert n - 1 in Interval(tp.pieces[k].at, tp.pieces[k].End());
    }
  }

  /** The flag of the last byte is not lost, whatever is queued, trimmed or flushed, as long as
      every segment with that byte has it. */
  lemma FlagStays(c0: Conn, c: Conn, at: nat, end: nat, fin: bool, wnd: nat, memory: bool, reported: bool)
    requires Outcome(c0, c, at, end, fin, wnd, memory, reported) && EndFlagged(c0) && at <= end <= c0.n
    requires SetsFin(end - at, end, fin, c0.n) && c0.state >= TCPS_ESTABLISHED && c0.Drained()
    requires c0.pos == LeastMissing(c0.got, c0.n) && c.pos == LeastMissing(c.got, c.n)
    requires HeldByOne(c0.pieces, Left(c0.pos, at), c0.n) && Left(c0.pos, at) < c0.n ==> c0.n - 1 in c0.got
    ensures !reported ==> EndFlagged(c)
  {
    var n, left, right := c0.n, Left(c0.pos, at), Right(c0.pos, end, wnd);
    if c0.Takes(at, end, fin, wnd) && !reported && 0 < n && n - 1 in c.got {
      if c0.Kept(at, memory) {
        CountsAtEdge(c0.pos, at, end, fin, wnd);
        assert FlagAfter(c0.segs, c0.pieces, left, right, fin, n);
        assert left > c0.pos ==> c0.pos !in c.got;
        assert c.pos < n;
        assert FinAt(c.segs, c.pieces, n);
      }
    }
  }

  lemma NoFlagAppears(c0: Conn, c: Conn, at: nat, end: nat, wnd: nat, memory: bool, reported: bool)
    requires Outcome(c0, c, at, end, false, wnd, memory, reported) && NoFlags(c0)
    requires at <= end && c0.state >= TCPS_ESTABLISHED && c0.Drained()
    ensures !reported && NoFlags(c)
  {
    hide HeldByOne;
    if c0.Takes(at, end, false, wnd) {
      CountsAtEdge(c0.pos, at, end, false, wnd);
    }
  }

  lemma EndsInTime(n: nat, est: bool, arrivals: seq<Arrival>, k: nat)
    requires k < |arrivals| && Timely(n, est, arrivals)
    ensures var a, edge := arrivals[k], EdgeAt(n, est, arrivals, k);
      EndsAt(n, est, arrivals, k) ==> a.fin && a.memory && a.at <= edge && a.End() == n <= edge + a.wnd
  {
  }

  lemma BeforeArrival(tp: TcpCb, arrivals: seq<Arrival>, k: nat)
    requires tp.Valid() && tp.Drained() && tp.state >= TCPS_ESTABLISHED
    requires k < |arrivals| && Timely(|tp.stream|, tp.state == TCPS_ESTABLISHED, arrivals) && Has(Now(tp), arrivals, k)
    ensures var est := tp.state == TCPS_ESTABLISHED;
      var a, h := arrivals[k], HeldAfter(|tp.stream|, est, arrivals[..k]);
      && a.End() <= |tp.stream| && a.wnd < 0x1_0000_0000 && InRange(tp.rcvPos, a.at, a.len, a.wnd)
      && Holds(tp.stream[a.at..a.End()], a.at, tp.stream)
      && tp.rcvPos == Edge(|tp.stream|, h) && Now(tp).Kept(a.at, a.memory) == KeptBy(est, h, tp.rcvPos, a)
  {
    var est := tp.state == TCPS_ESTABLISHED;
    DeliveredIsLeastMissing(tp);
    QueueEmptyIff(tp, HeldAfter(|tp.stream|, est, arrivals[..k]));
    hide SeqOf, Interval, Cover, Queue, LeastMissing, HeldAfter;
  }

  /** What the three ways of dealing with a segment mean for a run. */
  lemma Settle(c0: Conn, c: Conn, arrivals: seq<Arrival>, k: nat, fin: bool)
    requires k < |arrivals| && Timely(c0.n, c0.state == TCPS_ESTABLISHED, arrivals) && Has(c0, arrivals, k)
    requires !HaveRcvdFin(c0.state)
    requires var est := c0.state == TCPS_ESTABLISHED; var h := HeldAfter(c0.n, est, arrivals[..k]);
      && c0.pos == Edge(c0.n, h) && c0.state >= TCPS_ESTABLISHED && c0.Drained()
      && c0.Kept(arrivals[k].at, arrivals[k].memory) == KeptBy(est, h, c0.pos, arrivals[k])
    requires var a := arrivals[k]; Outcome(c0, c, a.at, a.End(), a.fin, a.wnd, a.memory, fin)
    ensures Reached(c, arrivals, k + 1, fin)
  {
    var est := c0.state == TCPS_ESTABLISHED;
    var a, n, h := arrivals[k], c0.n, HeldAfter(c0.n, est, arrivals[..k]);
    var left, right := Left(c0.pos, a.at), Right(c0.pos, a.End(), a.wnd);
    HeldNext(n, est, arrivals, k);
    CutStays(n, est, arrivals, k, c0.segs, c0.pieces);
    NoneQueued(n, est, arrivals, k + 1, Interval(0, c0.pos));
    if a.fin {
      EndExplained(n, est, arrivals, k);
    }
    hide HeldAfter, LeastMissing, FinAt, EmptyAt, CutAt, FinsExplained, Interval, Conn.Kept;
    hide FinsFrom, FinsAfter, EmptiesFrom, EmptiesAfter, FlagAfter;
    if Counts(c0.pos, a.at, a.End(), a.fin, a.wnd) && c0.Kept(a.at, a.memory) {
      CountsAtEdge(c0.pos, a.at, a.End(), a.fin, a.wnd);
      FinsAccepted(n, est, arrivals, k + 1, c0.segs, c0.pieces, c.segs, c.pieces, c0.pos, right, a.fin, c.pos);
      WaitsAccepted(c0.pieces, c.pieces, n, left, right, h, fin);
    }
  }

  lemma CutStays(n: nat, est: bool, arrivals: seq<Arrival>, k: nat, segs: seq<Seg>, pieces: seq<Piece>)
    requires k < |arrivals| && FinsExplained(segs, pieces, n, est, arrivals, k)
    ensures FinsExplained(segs, pieces, n, est, arrivals, k + 1)
  {
  }

  /** Where the accepted part of a segment with a FIN ends. */
  lemma EndExplained(n: nat, est: bool, arrivals: seq<Arrival>, k: nat)
    requires k < |arrivals| && Timely(n, est, arrivals) && arrivals[k].fin
    ensures var a, edge := arrivals[k], EdgeAt(n, est, arrivals, k);
      var right := Right(edge, a.End(), a.wnd); right == n || CutAt(n, est, arrivals, k + 1, right)
  {
    var a, edge := arrivals[k], EdgeAt(n, est, arrivals, k);
    assert a.End() > edge + a.wnd ==> Cuts(EdgeAt(n, est, arrivals, k), arrivals[k], edge + a.wnd);
  }

  lemma FinsAccepted(n: nat, est: bool, arrivals: seq<Arrival>, k: nat, segs0: seq<Seg>, pieces0: seq<Piece>,
                     segs: seq<Seg>, pieces: seq<Piece>, left: nat, right: nat, fin: bool, e: nat)
    requires k <= |arrivals| && FinsExplained(segs0, pieces0, n, est, arrivals, k) && EmptiesAtEnd(pieces0, n)
    requires FinsFrom(segs0, pieces0, segs, pieces, right, fin)
    requires fin ==> right == n || CutAt(n, est, arrivals, k, right)
    ensures FinsExplained(segs, pieces, n, est, arrivals, k)
    ensures FlagAfter(segs0, pieces0, left, right, fin, e) ==> e == n || CutAt(n, est, arrivals, k, e)
  {
    hide FinAt, EmptyAt, CutAt, HeldByOne;
  }

  lemma WaitsAccepted(pieces0: seq<Piece>, pieces: seq<Piece>, n: nat, left: nat, right: nat, h: Holding, fin: bool)
    requires FinWaits(pieces0, n, h) && EmptiesFrom(pieces0, pieces, right, right - left == 0)
    requires left <= right && (left == right ==> right == n)
    requires !fin ==> EmptiesAfter(pieces0, pieces, left, right, n)
    ensures !fin ==> FinWaits(pieces, n, Holding(h.got, h.finWaits || left == right))
  {
    hide EmptyAt;
  }

  lemma NoneQueued(n: nat, est: bool, arrivals: seq<Arrival>, k: nat, got: set<int>)
    requires k <= |arrivals|
    ensures FinWaits([], n, Holding(got, false)) && FinsExplained([], [], n, est, arrivals, k)
  {
  }

  lemma QueueEmptyIff(tp: TcpCb, h: Holding)
    requires tp.Valid() && tp.Drained() && tp.Received() == h.got && FinWaits(tp.pieces, |tp.stream|, h)
    ensures tp.segq == [] <==> h == Holding(Interval(0, tp.rcvPos), false)
  {
    QueueLength(tp.segq, tp.pieces, tp.rcvPos, tp.isn, tp.stream);
    if tp.segq != [] {
      var first := tp.pieces[0];
      CoverMember(tp.pieces, 0);
      assert first.len > 0 ==> first.at in Interval(first.at, first.End());
      assert first.len == 0 ==> EmptyAt(tp.pieces, first.at);
    } else {
      assert Cover(tp.pieces) == {};
    }
  }

  // ----- what a run delivers

  /** What has been delivered never shrinks, and running out of memory does not move the left edge. */
  lemma AfterEdge(n: nat, est: bool, h: Holding, a: Arrival)
    ensures Edge(n, After(n, est, h, a)) >= Edge(n, h)
    ensures Counts(Edge(n, h), a.at, a.End(), a.fin, a.wnd) && !KeptBy(est, h, Edge(n, h), a) ==>
      Edge(n, After(n, est, h, a)) == Edge(n, h)
  {
    var edge := Edge(n, h);
    LeastMissingIs(Interval(0, edge), n, edge);
    assert forall k | 0 <= k < edge :: k in After(n, est, h, a).got;
  }

  lemma {:induction false} EdgeGrows(n: nat, est: bool, arrivals: seq<Arrival>, j: nat, k: nat)
    requires j <= k <= |arrivals|
    ensures EdgeAt(n, est, arrivals, j) <= EdgeAt(n, est, arrivals, k)
    decreases k - j
  {
    hide HeldAfter, After, LeastMissing;
    if j < k {
      EdgeGrows(n, est, arrivals, j, k - 1);
      HeldNext(n, est, arrivals, k - 1);
      AfterEdge(n, est, HeldAfter(n, est, arrivals[..k - 1]), arrivals[k - 1]);
    }
  }

  /** Arrival `k` brings position `p` inside its own window. */
  ghost predicate Brings(n: nat, est: bool, arrivals: seq<Arrival>, k: nat, p: int)
    requires k < |arrivals|
  {
    arrivals[k].at <= p < Right(EdgeAt(n, est, arrivals, k), arrivals[k].End(), arrivals[k].wnd)
  }

  /** What a segment that is kept adds are its positions up to the right edge of the window. */
  lemma AfterKept(n: nat, est: bool, h: Holding, a: Arrival, p: int)
    requires a.memory
    ensures p in After(n, est, h, a).got <==> p in h.got || a.at <= p < Right(Edge(n, h), a.End(), a.wnd)
  {
  }

  ghost predicate Brought(n: nat, est: bool, arrivals: seq<Arrival>, m: nat, p: int)
    requires m <= |arrivals|
  {
    exists k :: 0 <= k < m && Brings(n, est, arrivals, k, p)
  }

  lemma BroughtNext(n: nat, est: bool, arrivals: seq<Arrival>, m: nat, p: int)
    requires m < |arrivals|
    ensures Brought(n, est, arrivals, m + 1, p) <==> Brought(n, est, arrivals, m, p) || Brings(n, est, arrivals, m, p)
  {
    hide Brings;
  }

  /** While there is memory, the positions received are those that some segment has brought
      inside its window. */
  lemma {:induction false} GotIsBrought(n: nat, est: bool, arrivals: seq<Arrival>, m: nat, p: int)
    requires m <= |arrivals| && forall k | 0 <= k < m :: arrivals[k].memory
    ensures p in HeldAfter(n, est, arrivals[..m]).got <==> Brought(n, est, arrivals, m, p)
    decreases m
  {
    if m > 0 {
      hide HeldAfter, After, LeastMissing, Right, Brought;
      GotIsBrought(n, est, arrivals, m - 1, p);
      HeldNext(n, est, arrivals, m - 1);
      AfterKept(n, est, HeldAfter(n, est, arrivals[..m - 1]), arrivals[m - 1], p);
      BroughtNext(n, est, arrivals, m - 1, p);
    }
  }

  ghost predicate Held(arrivals: seq<Arrival>, p: int) {
    exists k :: 0 <= k < |arrivals| && arrivals[k].at <= p < arrivals[k].End()
  }

  /** Every segment is kept, and lies inside the window of its own arrival. */
  ghost predicate InWindows(n: nat, est: bool, arrivals: seq<Arrival>) {
    forall k | 0 <= k < |arrivals| ::
      arrivals[k].memory && arrivals[k].End() <= EdgeAt(n, est, arrivals, k) + arrivals[k].wnd
  }

  /** Then the positions received are simply those that some segment holds. */
  lemma GotIsUnion(n: nat, est: bool, arrivals: seq<Arrival>, p: int)
    requires InWindows(n, est, arrivals)
    ensures p in HeldAfter(n, est, arrivals).got <==> Held(arrivals, p)
  {
    assert arrivals[..|arrivals|] == arrivals;
    GotIsBrought(n, est, arrivals, |arrivals|, p);
    hide HeldAfter, LeastMissing;
    assert forall k | 0 <= k < |arrivals| ::
      Brings(n, est, arrivals, k, p) <==> arrivals[k].at <= p < arrivals[k].End();
  }

  /** Two runs in which the same bytes arrive, in whatever order, however often and however cut
      into segments, and with whatever windows they lie in, deliver the same bytes. */
  lemma OrderIndependent(n: nat, estX: bool, xs: seq<Arrival>, estY: bool, ys: seq<Arrival>)
    requires InWindows(n, estX, xs) && InWindows(n, estY, ys)
    requires forall p :: Held(xs, p) <==> Held(ys, p)
    ensures HeldAfter(n, estX, xs).got == HeldAfter(n, estY, ys).got
    ensures EdgeAt(n, estX, xs, |xs|) == EdgeAt(n, estY, ys, |ys|)
  {
    forall p: int
      ensures p in HeldAfter(n, estX, xs).got <==> p in HeldAfter(n, estY, ys).got
    {
      GotIsUnion(n, estX, xs, p);
      GotIsUnion(n, estY, ys, p);
    }
    assert xs[..|xs|] == xs && ys[..|ys|] == ys;
  }

  // ----- a window with room for everything

  /** The segments that a sender can send of a stream of `n` bytes, all of them kept, and all with
      windows that have room for the whole stream. */
  ghost predicate Roomy(n: nat, arrivals: seq<Arrival>) {
    forall k | 0 <= k < |arrivals| ::
      var a := arrivals[k];
      && a.at + a.len <= n && a.memory && n <= a.wnd && n + a.wnd < 0x8000_0000
      && (a.fin ==> a.at + a.len == n) && (a.len > 0 && a.at + a.len == n ==> a.fin)
  }

  /** Then the socket gets exactly the bytes before the first one that no segment holds, and the
      end of the stream is reported if and only if they are all of them and a FIN has come. */
  method Transfer(stream: seq<Byte>, isn: Word32, state: nat, arrivals: seq<Arrival>)
    returns (delivered: seq<Byte>, fin: bool)
    requires state in {4, 6, 9} && Roomy(|stream|, arrivals)
    ensures delivered <= stream
    ensures forall p | 0 <= p < |delivered| :: Held(arrivals, p)
    ensures |delivered| < |stream| ==> !Held(arrivals, |delivered|)
    ensures fin <==> delivered == stream && FinSent(arrivals)
  {
    RoomyIsTimely(|stream|, state == TCPS_ESTABLISHED, arrivals);
    hide Roomy, Timely, EdgeAt, CutAt, EndCame, FinsSet, FinSent, HeldAfter, Held;
    var k;
    delivered, k, fin := Run(stream, isn, state, arrivals);
    Transferred(|stream|, state == TCPS_ESTABLISHED, arrivals, k, |delivered|, fin);
  }

  lemma RoomyIsTimely(n: nat, est: bool, arrivals: seq<Arrival>)
    requires Roomy(n, arrivals)
    ensures Timely(n, est, arrivals) && FinsSet(arrivals, n) && InWindows(n, est, arrivals)
    ensures forall k, e | 0 <= k <= |arrivals| :: !CutAt(n, est, arrivals, k, e)
  {
    hide HeldAfter, LeastMissing;
    forall k | 0 <= k < |arrivals|
      ensures var a, edge := arrivals[k], EdgeAt(n, est, arrivals, k); edge <= n && InRange(edge, a.at, a.len, a.wnd)
    {
    }
  }

  lemma Transferred(n: nat, est: bool, arrivals: seq<Arrival>, k: nat, edge: nat, fin: bool)
    requires Roomy(n, arrivals) && InWindows(n, est, arrivals) && k <= |arrivals| && (fin || k == |arrivals|)
    requires edge == EdgeAt(n, est, arrivals, k) && (fin ==> edge == n && FinSent(arrivals))
    requires n > 0 && edge == n ==> fin
    requires EndCame(n, est, arrivals, k) ==> fin
    ensures forall p | 0 <= p < edge :: Held(arrivals, p)
    ensures edge < n ==> !Held(arrivals, edge)
    ensures fin <==> edge == n && FinSent(arrivals)
  {
    hide HeldAfter, LeastMissing, Roomy;
    forall p | 0 <= p < edge
      ensures Held(arrivals, p)
    {
      GotIsBrought(n, est, arrivals, k, p);
      var j :| 0 <= j < k && Brings(n, est, arrivals, j, p);
    }
    assert arrivals[..|arrivals|] == arrivals;
    if edge < n {
      GotIsUnion(n, est, arrivals, edge);
    } else if n == 0 && k == |arrivals| && FinSent(arrivals) {
      var j :| 0 <= j < k && arrivals[j].fin;
      assert EndsAt(n, est, arrivals, j) by { RoomyHere(n, arrivals, j); }
    }
  }

  lemma RoomyHere(n: nat, arrivals: seq<Arrival>, j: nat)
    requires Roomy(n, arrivals) && j < |arrivals|
    ensures arrivals[j].memory && arrivals[j].End() <= n <= arrivals[j].wnd
  {
  }

  /** A position that has been received stays so while there is memory. */
  lemma {:induction false} GotStays(n: nat, est: bool, arrivals: seq<Arrival>, k: nat, m: nat, p: int)
    requires k <= m <= |arrivals| && p in HeldAfter(n, est, arrivals[..k]).got
    requires forall j | k <= j < m :: arrivals[j].memory
    ensures p in HeldAfter(n, est, arrivals[..m]).got
    decreases m - k
  {
    hide HeldAfter, After, LeastMissing, Right;
    if k < m {
      GotStays(n, est, arrivals, k, m - 1, p);
      HeldNext(n, est, arrivals, m - 1);
      AfterKept(n, est, HeldAfter(n, est, arrivals[..m - 1]), arrivals[m - 1], p);
    }
  }

  /** Arrival `k` brings position `p` inside its window, and there is memory from then on. */
  ghost predicate BringsForGood(n: nat, est: bool, arrivals: seq<Arrival>, k: nat, p: int)
    requires k < |arrivals|
  {
    Brings(n, est, arrivals, k, p) && forall j | k <= j < |arrivals| :: arrivals[j].memory
  }

  ghost predicate ArrivesForGood(n: nat, est: bool, arrivals: seq<Arrival>, p: int) {
    exists k :: 0 <= k < |arrivals| && BringsForGood(n, est, arrivals, k, p)
  }

  /** When every byte has arrived inside a window, at a time from which there was memory, the
      whole stream has been delivered, whatever was lost before. */
  lemma AllArrivedAllDelivered(n: nat, est: bool, arrivals: seq<Arrival>)
    requires forall p | 0 <= p < n :: ArrivesForGood(n, est, arrivals, p)
    ensures EdgeAt(n, est, arrivals, |arrivals|) == n
  {
    forall p | 0 <= p < n
      ensures p in HeldAfter(n, est, arrivals[..|arrivals|]).got
    {
      assert ArrivesForGood(n, est, arrivals, p);
      var k :| 0 <= k < |arrivals| && BringsForGood(n, est, arrivals, k, p);
      HeldNext(n, est, arrivals, k);
      AfterKept(n, est, HeldAfter(n, est, arrivals[..k]), arrivals[k], p);
      GotStays(n, est, arrivals, k + 1, |arrivals|, p);
    }
    LeastMissingIs(HeldAfter(n, est, arrivals[..|arrivals|]).got, n, n);
  }

  // ----- the end of the stream reported too early

  /** The bytes [at, end) of the stream arrive with a window of five. */
  method Deliver(tp: TcpCb, stream: seq<Byte>, isn: Word32, at: nat, end: nat, fin0: bool) returns (fin: bool)
    requires tp.Valid() && tp.state == TCPS_ESTABLISHED && tp.Drained() && tp.rcvPos == 0
    requires tp.stream == stream && tp.isn == isn && at <= end <= |stream| == 10
    requires HonestFin(end, fin0, 10) && EmptiesAtEnd(tp.pieces, 10)
    modifies tp`segq, tp`rcvNxt, tp`rcvBuf, tp`rcvPos, tp`pieces
    ensures tp.Valid() && tp.Drained() && Outcome(old(Now(tp)), Now(tp), at, end, fin0, 5, true, fin)
    ensures tp.rcvPos == old(Now(tp)).NextEdge(at, end, 5)
    ensures fin && tp.rcvPos < 10 <==> old(Now(tp)).TooEarly(at, end, fin0, 5)
  {
    assert Holds(stream[at..end], at, stream);
    hide SeqOf, Interval, Cover, Queue, FinAt, LeastMissing, Holds, HonestFin, EmptiesAtEnd;
    hide Conn.FinReported, Conn.TooEarly, Conn.NextEdge, Outcome, Counts;
    fin := Arrive(tp, SeqOf(isn, at), stream[at..end], fin0, 5, true, at);
  }

  /** A segment of ten bytes with a FIN meets a window of five: the end is reported at five. */
  method FinCutOffReported(isn: Word32) returns (fin: bool, delivered: seq<Byte>)
    ensures fin && |delivered| == 5
  {
    var stream: seq<Byte> := seq(10, _ => 0);
    var tp := new TcpCb(isn, stream, TCPS_ESTABLISHED);
    CutAtFive(Now(tp));
    hide SeqOf, Interval, Cover, Queue, FinAt, LeastMissing, Conn.TooEarly, Conn.NextEdge, Outcome, Counts;
    fin := Deliver(tp, stream, isn, 0, 10, true);
    delivered := tp.rcvBuf;
  }

  lemma CutAtFive(c0: Conn)
    requires c0.segs == [] && c0.pieces == [] && c0.pos == 0 && c0.n == 10 && c0.got == {}
    ensures c0.TooEarly(0, 10, true, 5) && c0.NextEdge(0, 10, 5) == 5
  {
    assert c0.got + Interval(0, 5) == Interval(0, 5);
    LeastMissingIs(Interval(0, 5), 10, 5);
  }

  /** The last eight bytes with the FIN meet the same window first, and are queued with the flag;
      when the first two bytes arrive, without a FIN, the end is reported at five. */
  method QueuedFinCutOffReported(isn: Word32) returns (fin1: bool, fin2: bool, delivered: seq<Byte>)
    ensures !fin1 && fin2 && |delivered| == 5
  {
    var stream: seq<Byte> := seq(10, _ => 0);
    var tp := new TcpCb(isn, stream, TCPS_ESTABLISHED);
    ghost var c0 := Now(tp);
    hide SeqOf, Interval, Cover, Queue, FinAt, LeastMissing, Conn.TooEarly, Conn.NextEdge, Outcome, Counts;
    fin1 := Deliver(tp, stream, isn, 2, 10, true);
    FlagQueued(c0, Now(tp), fin1);
    fin2 := Deliver(tp, stream, isn, 0, 2, false);
    delivered := tp.rcvBuf;
  }

  lemma FlagQueued(c0: Conn, c: Conn, fin: bool)
    requires c0.segs == [] && c0.pieces == [] && c0.pos == 0 && c0.n == 10 && c0.got == {}
    requires c0.state == TCPS_ESTABLISHED
    requires c.pos == c0.NextEdge(2, 10, 5) && Outcome(c0, c, 2, 10, true, 5, true, fin)
    ensures !fin && c.pos == 0 && c.NextEdge(0, 2, 5) == 5 && c.TooEarly(0, 2, false, 5) && EmptiesAtEnd(c.pieces, 10)
  {
    assert c0.got + Interval(2, 5) == Interval(2, 5);
    assert Interval(2, 5) + Interval(0, 2) == Interval(0, 5);
    LeastMissingIs(Interval(2, 5), 10, 0);
    LeastMissingIs(Interval(0, 5), 10, 5);
    hide Interval, LeastMissing;
    assert FlagAfter(c0.segs, c0.pieces, 2, 5, true, 5);
  }
}
