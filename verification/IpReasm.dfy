/** Reassembly of IP fragments, tn_net/tn_ip_input.c:395-636 and 701-725, with the limits of
    tn_net/tn_net_cfg.h:33-34: one datagram at a time, and at most two fragments of it. */
module IpReasm {
  import opened Machine
  import opened Sequences

  const IP4_MAX_REASM_FRAGMENTS := 2

  datatype Option<T> = None | Some(value: T)

  /** What tells the fragments of one datagram from those of another: id, addresses, protocol. */
  type Key = nat

  /** A fragment as it arrives: its header, offset and MF flag, and its part of the payload. */
  datatype Fragment = Fragment(key: Key, header: seq<Byte>, offset: nat, more: bool, payload: seq<Byte>)

  /** struct frag_entry, with what its mbuf holds. */
  datatype Frag = Frag(offset: nat, last: nat, more: bool, mb: seq<Byte>)

  /** Each fragment begins where the one before it ends. */
  predicate NoHole(list: seq<Frag>) {
    forall i | 0 < i < |list| :: list[i].offset == list[i - 1].last
  }

  function Contents(list: seq<Frag>): seq<Byte> {
    if list == [] then [] else Contents(list[..|list| - 1]) + list[|list| - 1].mb
  }

  /** The place of a fragment: behind all that do not begin after it. */
  function Place(list: seq<Frag>, offset: nat): (q: nat)
    ensures q <= |list| && (q < |list| ==> list[q].offset > offset)
    ensures forall i | 0 <= i < q :: list[i].offset <= offset
  {
    if list == [] || list[0].offset > offset then 0 else 1 + Place(list[1..], offset)
  }

  /** Lines 500-550: what is left of a fragment between its neighbours; `last` is not adjusted. */
  function Trim(list: seq<Frag>, f: Fragment): Option<Frag> {
    var q, last := Place(list, f.offset), f.offset + |f.payload|;
    var mb := if f.offset != 0 then f.payload else f.header + f.payload;
    var over := if q > 0 && list[q - 1].last > f.offset then list[q - 1].last - f.offset else 0;
    if (f.offset != 0 && mb == []) || (over > 0 && |mb| <= over) then None
    else
      var rest := mb[over..];
      var under := if q < |list| && last > list[q].offset then last - list[q].offset else 0;
      if under > 0 && under >= |rest| then None
      else Some(Frag(f.offset + over, last, f.more, rest[..|rest| - under]))
  }

  /** Lines 552-562: a fragment that begins before all the others is not linked. */
  function Linked(list: seq<Frag>, q: nat, frag: Frag): seq<Frag>
    requires q <= |list|
  {
    if list == [] then [frag] else if q > 0 then Insert(list, q, frag) else list
  }

  /** A fragment for which there is memory: the list afterwards, and the datagram if it is complete. */
  function Add(list: seq<Frag>, f: Fragment): (seq<Frag>, Option<seq<Byte>>) {
    match Trim(list, f)
    case None => (list, None)
    case Some(frag) =>
      var list' := Linked(list, Place(list, f.offset), frag);
      if NoHole(list') && !list'[|list'| - 1].more then ([], Some(Contents(list'))) else (list', None)
  }

  /** struct reasm_entry */
  datatype Entry = Entry(key: Key, nfrag: nat, list: seq<Frag>)

  /** One fragment arrives: the entry afterwards, and the datagram if one is returned. */
  function Step(e: Entry, f: Fragment, memory: bool): (Entry, Option<seq<Byte>>) {
    var unknown := e.list == [] || e.key != f.key;
    var list, nfrag := if unknown then [] else e.list, if unknown then 1 else e.nfrag + 1;
    if nfrag > IP4_MAX_REASM_FRAGMENTS then (Entry(f.key, nfrag, []), None)
    else if !memory then (Entry(f.key, nfrag, list), None)
    else (Entry(f.key, nfrag, Add(list, f).0), Add(list, f).1)
  }

  class ReasmEntry {
    var key: Key
    var nfrag: nat
    var fragList: seq<Frag>

    ghost function Now(): Entry
      reads this
    {
      Entry(key, nfrag, fragList)
    }

    constructor ()
      ensures Now() == Entry(0, 0, [])
    {
      key, nfrag, fragList := 0, 0, [];
    }

    /** ip4_reasm.  The lengths and offset that are written into the header of the result
        (lines 624-630) are left out. */
    method Reasm(f: Fragment, memory: bool) returns (r: Option<seq<Byte>>)
      modifies this
      ensures (Now(), r) == Step(old(Now()), f, memory)
    {
      hide Add;
      r := None;
      if fragList == [] || key != f.key {
        key, nfrag, fragList := f.key, 0, [];
      }
      nfrag := nfrag + 1;
      if nfrag > IP4_MAX_REASM_FRAGMENTS {
        fragList := [];
      } else if memory {
        r := AddToList(f);
      }
    }

    /** Lines 484-636: there is memory for the entry of the fragment. */
    method AddToList(f: Fragment) returns (r: Option<seq<Byte>>)
      modifies this`fragList
      ensures (fragList, r) == Add(old(fragList), f)
    {
      hide Trim, Contents, NoHole;
      r := None;
      var q := FindNext(f.offset);
      var frag := Cut(f, q);
      if frag.Some? {
        if fragList == [] {
          fragList := [frag.value];
        } else if q > 0 {
          fragList := Insert(fragList, q, frag.value);
        }
        var complete := IsComplete();
        if complete {
          var bytes := Join();
          r := Some(bytes);
          fragList := [];
        }
      }
    }

    /** Lines 489-498: the place of a fragment that begins at `offset`. */
    method FindNext(offset: nat) returns (q: nat)
      ensures q == Place(fragList, offset)
    {
      q := 0;
      while q < |fragList| && fragList[q].offset <= offset
        invariant q <= |fragList| && Place(fragList, offset) == q + Place(fragList[q..], offset)
      {
        assert fragList[q..][1..] == fragList[q + 1..];
        q := q + 1;
      }
    }

    /** Lines 500-550: the IP header, and what the neighbours have, is cut off. */
    method Cut(f: Fragment, q: nat) returns (frag: Option<Frag>)
      requires q == Place(fragList, f.offset)
      ensures frag == Trim(fragList, f)
    {
      var last := f.offset + |f.payload|;
      var mb := f.header + f.payload;
      if f.offset != 0 {
        mb := f.payload;
        if mb == [] {
          return None;
        }
      }
      var len := 0;
      if q > 0 && fragList[q - 1].last - f.offset > 0 {
        len := fragList[q - 1].last - f.offset;
        if |mb| <= len {
          return None;
        }
      }
      mb := mb[len..];
      frag := CutEnd(f, q, f.offset + len, last, mb);
    }

    /** Lines 535-550: what the following fragment has is cut off. */
    method CutEnd(f: Fragment, q: nat, offset: nat, last: nat, mb: seq<Byte>) returns (frag: Option<Frag>)
      requires q <= |fragList|
      ensures frag == (
        var under := if q < |fragList| && last > fragList[q].offset then last - fragList[q].offset else 0;
        if under > 0 && under >= |mb| then None else Some(Frag(offset, last, f.more, mb[..|mb| - under])))
    {
      if q < |fragList| && last - fragList[q].offset > 0 {
        var len := last - fragList[q].offset;
        if len >= |mb| {
          return None;
        }
        return Some(Frag(offset, last, f.more, mb[..|mb| - len]));
      }
      assert mb[..|mb|] == mb;
      frag := Some(Frag(offset, last, f.more, mb));
    }

    /** Lines 564-586: no holes, and the last fragment has no MF flag. */
    method IsComplete() returns (complete: bool)
      requires fragList != []
      ensures complete == (NoHole(fragList) && !fragList[|fragList| - 1].more)
    {
      var i := 1;
      while i < |fragList|
        invariant 1 <= i <= |fragList| && NoHole(fragList[..i])
      {
        if fragList[i].offset != fragList[i - 1].last {
          return false;
        }
        i := i + 1;
      }
      assert fragList[..i] == fragList;
      complete := !fragList[|fragList| - 1].more;
    }

    /** Lines 588-622: the mbufs of all fragments, one after the other. */
    method Join() returns (bytes: seq<Byte>)
      ensures bytes == Contents(fragList)
    {
      bytes := [];
      var i := 0;
      while i < |fragList|
        invariant i <= |fragList| && bytes == Contents(fragList[..i])
      {
        assert fragList[..i + 1][..i] == fragList[..i];
        bytes := bytes + fragList[i].mb;
        i := i + 1;
      }
      assert fragList[..i] == fragList;
    }
  }

  // ----- fragments of one datagram

  /** The fragment [a, b) of a datagram, and whether there is memory when it arrives. */
  datatype Arrival = Arrival(a: nat, b: nat, header: seq<Byte>, memory: bool)

  /** Fragments are not empty and not the whole datagram: only such are passed on (lines 315-346). */
  ghost predicate IsFragment(x: Arrival, payload: seq<Byte>) {
    x.a < x.b <= |payload| && (x.a > 0 || x.b < |payload|)
  }

  function FragmentOf(x: Arrival, key: Key, payload: seq<Byte>): Fragment
    requires x.a <= x.b <= |payload|
  {
    Fragment(key, x.header, x.a, x.b < |payload|, payload[x.a..x.b])
  }

  /** How far the reassembly has come: nothing is queued; one fragment is; or two have been
      counted, so that the next one frees the entry. */
  datatype Phase = Empty | One(x: Arrival) | Two

  function Next(p: Phase, x: Arrival, n: nat): Phase {
    match p
    case Empty => if x.memory && x.b < n then One(x) else Empty
    case One(first) => if Completes(first, x, n) then Empty else Two
    case Two => Empty
  }

  /** The second fragment goes on where the first one ends, or before, to the end. */
  predicate Completes(first: Arrival, x: Arrival, n: nat) {
    x.memory && x.b == n && first.a <= x.a <= first.b
  }

  /** What the code returns: a last fragment that comes first, alone; the first two, if the
      second completes the first, from the beginning of the first on. */
  function Returned(p: Phase, x: Arrival, payload: seq<Byte>): Option<seq<Byte>> {
    match p
    case Empty => if x.memory && x.b == |payload| then Some(From(payload, x.a)) else None
    case One(first) =>
      if !Completes(first, x, |payload|) then None
      else Some((if first.a == 0 then first.header else []) + From(payload, first.a))
    case Two => None
  }

  function From(payload: seq<Byte>, a: nat): seq<Byte> {
    if a <= |payload| then payload[a..] else []
  }

  /** The entry is in the phase. */
  ghost predicate InPhase(e: Entry, p: Phase, key: Key, payload: seq<Byte>) {
    match p
    case Empty => e.list == [] || e.key != key
    case One(x) =>
      && IsFragment(x, payload) && x.b < |payload| && e.key == key && e.nfrag == 1
      && e.list == [Frag(x.a, x.b, true, (if x.a == 0 then x.header else []) + payload[x.a..x.b])]
    case Two => e.list != [] && e.key == key && e.nfrag == 2
  }

  /** One arrival of a fragment of the datagram. */
  lemma Arrives(e: Entry, p: Phase, x: Arrival, key: Key, payload: seq<Byte>)
    requires InPhase(e, p, key, payload) && IsFragment(x, payload)
    ensures var (e', r) := Step(e, FragmentOf(x, key, payload), x.memory);
      InPhase(e', Next(p, x, |payload|), key, payload) && r == Returned(p, x, payload)
  {
    match p
    case Empty => FirstArrives(e, x, key, payload);
    case One(first) =>
      if x.memory {
        SecondArrives(e, first, x, key, payload);
      }
    case Two =>
  }

  lemma ContentsOne(f: Frag)
    ensures Contents([f]) == f.mb
  {
    assert [f][..0] == [] && Contents([]) == [];
  }

  lemma ContentsTwo(f: Frag, g: Frag)
    ensures Contents([f, g]) == f.mb + g.mb
  {
    assert [f, g][..1] == [f];
    ContentsOne(f);
  }

  lemma FirstArrives(e: Entry, x: Arrival, key: Key, payload: seq<Byte>)
    requires InPhase(e, Empty, key, payload) && IsFragment(x, payload)
    ensures var (e', r) := Step(e, FragmentOf(x, key, payload), x.memory);
      InPhase(e', Next(Empty, x, |payload|), key, payload) && r == Returned(Empty, x, payload)
  {
    var f := FragmentOf(x, key, payload);
    var mb := (if x.a == 0 then x.header else []) + payload[x.a..x.b];
    assert Trim([], f) == Some(Frag(x.a, x.b, f.more, mb)) by {
      assert mb[0..] == mb && mb[..|mb|] == mb;
      assert [] + payload[x.a..x.b] == payload[x.a..x.b];
    }
    ContentsOne(Frag(x.a, x.b, f.more, mb));
    assert x.b == |payload| ==> mb == payload[x.a..];
    hide Trim;
  }

  /** What Trim leaves of a fragment that does not begin before the only one queued. */
  lemma TrimBehind(first: Frag, f: Fragment)
    requires first.offset <= f.offset && f.offset > 0
    ensures var over := if first.last > f.offset then first.last - f.offset else 0;
      Trim([first], f) == if |f.payload| <= over then None
        else Some(Frag(f.offset + over, f.offset + |f.payload|, f.more, f.payload[over..]))
  {
    assert Place([first], f.offset) == 1;
    var mb, over := f.payload, if first.last > f.offset then first.last - f.offset else 0;
    if over < |mb| {
      assert mb[over..][..|mb| - over] == mb[over..];
    }
  }

  lemma SecondArrives(e: Entry, first: Arrival, x: Arrival, key: Key, payload: seq<Byte>)
    requires InPhase(e, One(first), key, payload) && IsFragment(x, payload) && x.memory
    ensures var (e', r) := Step(e, FragmentOf(x, key, payload), x.memory);
      InPhase(e', Next(One(first), x, |payload|), key, payload) && r == Returned(One(first), x, payload)
  {
    if Completes(first, x, |payload|) {
      SecondCompletes(e, first, x, key, payload);
    } else {
      SecondFails(e, first, x, key, payload);
    }
  }

  lemma SecondCompletes(e: Entry, first: Arrival, x: Arrival, key: Key, payload: seq<Byte>)
    requires InPhase(e, One(first), key, payload) && IsFragment(x, payload) && Completes(first, x, |payload|)
    ensures var (e', r) := Step(e, FragmentOf(x, key, payload), x.memory);
      e'.list == [] && r == Returned(One(first), x, payload)
  {
    var f, frag := FragmentOf(x, key, payload), e.list[0];
    TwoAdded(frag, f);
    var header := if first.a == 0 then first.header else [];
    Glue(header, payload, first.a, first.b, x.a);
    hide Add;
  }

  /** The mbufs of a fragment and of what another one has beyond it. */
  function Glued(first: Frag, f: Fragment): seq<Byte>
    requires f.offset <= first.last <= f.offset + |f.payload|
  {
    first.mb + f.payload[first.last - f.offset..]
  }

  /** A last fragment that goes on where the only one queued ends, or before, completes it. */
  lemma TwoAdded(first: Frag, f: Fragment)
    requires 0 < f.offset && first.offset <= f.offset <= first.last < f.offset + |f.payload| && !f.more
    ensures Add([first], f) == ([], Some(Glued(first, f)))
  {
    hide Trim, Contents;
    TrimBehind(first, f);
    assert Place([first], f.offset) == 1;
    var t := Trim([first], f).value;
    assert Insert([first], 1, t) == [first, t];
    ContentsTwo(first, t);
  }

  lemma Glue(header: seq<Byte>, payload: seq<Byte>, a: nat, b: nat, a2: nat)
    requires a <= a2 <= b <= |payload|
    ensures header + payload[a..b] + payload[a2..|payload|][b - a2..] == header + payload[a..]
  {
    assert payload[a2..|payload|][b - a2..] == payload[b..];
    assert payload[a..b] + payload[b..] == payload[a..];
    assert header + payload[a..b] + payload[b..] == header + (payload[a..b] + payload[b..]);
  }

  lemma SecondFails(e: Entry, first: Arrival, x: Arrival, key: Key, payload: seq<Byte>)
    requires InPhase(e, One(first), key, payload) && IsFragment(x, payload)
    requires x.memory && !Completes(first, x, |payload|)
    ensures var (e', r) := Step(e, FragmentOf(x, key, payload), x.memory);
      InPhase(e', Two, key, payload) && r == None
  {
    var f, frag := FragmentOf(x, key, payload), e.list[0];
    if x.a < first.a {
      assert Place(e.list, x.a) == 0;
      hide Trim;
    } else {
      assert Place(e.list, x.a) == 1;
      TrimKeeps(frag, f);
      hide Trim, Contents;
      var t := Trim(e.list, f);
      if t.Some? {
        assert Insert(e.list, 1, t.value) == [frag, t.value];
        assert NoHole([frag, t.value]) ==> [frag, t.value][1].offset == [frag, t.value][0].last;
      }
    }
  }

  lemma TrimKeeps(first: Frag, f: Fragment)
    requires first.offset <= f.offset
    ensures var t := Trim([first], f);
      t.Some? ==> t.value.more == f.more && t.value.offset == if first.last > f.offset then first.last else f.offset
  {
    assert Place([first], f.offset) == 1;
  }

  // ----- what becomes of a datagram

  ghost predicate AllFragments(xs: seq<Arrival>, payload: seq<Byte>) {
    forall k | 0 <= k < |xs| :: IsFragment(xs[k], payload)
  }

  ghost function PhaseAt(xs: seq<Arrival>, n: nat): Phase {
    if xs == [] then Empty else Next(PhaseAt(xs[..|xs| - 1], n), xs[|xs| - 1], n)
  }

  lemma PhaseNext(xs: seq<Arrival>, k: nat, n: nat)
    requires k < |xs|
    ensures PhaseAt(xs[..k + 1], n) == Next(PhaseAt(xs[..k], n), xs[k], n)
  {
    assert xs[..k + 1][..k] == xs[..k];
  }

  lemma OneIsLast(xs: seq<Arrival>, n: nat)
    ensures PhaseAt(xs, n).One? ==> xs != [] && PhaseAt(xs, n).x == xs[|xs| - 1] && PhaseAt(xs[..|xs| - 1], n).Empty?
  {
  }

  /** Any run of fragments of one datagram: what is returned at every arrival. */
  method Run(key: Key, payload: seq<Byte>, xs: seq<Arrival>) returns (rs: seq<Option<seq<Byte>>>)
    requires AllFragments(xs, payload)
    ensures |rs| == |xs|
    ensures forall k | 0 <= k < |xs| :: rs[k] == Returned(PhaseAt(xs[..k], |payload|), xs[k], payload)
  {
    hide Step, InPhase, Next, PhaseAt, Returned, FragmentOf, IsFragment, AllFragments;
    var re := new ReasmEntry();
    rs := [];
    FreeEntry(xs, key, payload);
    for k := 0 to |xs|
      invariant fresh(re) && |rs| == k
      invariant InPhase(re.Now(), PhaseAt(xs[..k], |payload|), key, payload)
      invariant forall j | 0 <= j < k :: rs[j] == Returned(PhaseAt(xs[..j], |payload|), xs[j], payload)
    {
      OneArrives(re.Now(), xs, k, key, payload);
      var r := re.Reasm(FragmentOf(xs[k], key, payload), xs[k].memory);
      rs := rs + [r];
    }
  }

  lemma FreeEntry(xs: seq<Arrival>, key: Key, payload: seq<Byte>)
    ensures InPhase(Entry(0, 0, []), PhaseAt(xs[..0], |payload|), key, payload)
  {
  }

  /** One arrival of a run. */
  lemma OneArrives(e: Entry, xs: seq<Arrival>, k: nat, key: Key, payload: seq<Byte>)
    requires k < |xs| && AllFragments(xs, payload) && InPhase(e, PhaseAt(xs[..k], |payload|), key, payload)
    ensures xs[k].a <= xs[k].b <= |payload|
    ensures var (e', r) := Step(e, FragmentOf(xs[k], key, payload), xs[k].memory);
      && InPhase(e', PhaseAt(xs[..k + 1], |payload|), key, payload)
      && r == Returned(PhaseAt(xs[..k], |payload|), xs[k], payload)
  {
    hide Step, InPhase, Next, PhaseAt, Returned, FragmentOf;
    Arrives(e, PhaseAt(xs[..k], |payload|), xs[k], key, payload);
    PhaseNext(xs, k, |payload|);
  }

  /** What comes back is the whole datagram if and only if the fragment before it was queued, into
      a free entry, and was the first of the datagram; otherwise a part is passed on as a datagram. */
  lemma WholeIff(p: Phase, x: Arrival, payload: seq<Byte>)
    requires IsFragment(x, payload) && (p.One? ==> IsFragment(p.x, payload))
    requires Returned(p, x, payload).Some?
    ensures var r := Returned(p, x, payload).value;
      if p.One? && p.x.a == 0 then r == p.x.header + payload else |r| < |payload|
  {
  }

  predicate Brings(x: Arrival, i: nat) {
    x.a <= i < x.b
  }

  /** Two fragments that cover a datagram, arriving at a free entry in either order, give it back
      if and only if the one with its beginning comes first; otherwise the last one is passed on
      alone, at once, as if it were a datagram. */
  lemma TwoFragments(x: Arrival, y: Arrival, payload: seq<Byte>)
    requires IsFragment(x, payload) && IsFragment(y, payload) && x.memory && y.memory
    requires forall i: nat | i < |payload| :: Brings(x, i) || Brings(y, i)
    ensures var p := Next(Empty, x, |payload|);
      if x.a == 0 then
        Returned(Empty, x, payload) == None && p == One(x) && Returned(p, y, payload) == Some(x.header + payload)
      else
        Returned(Empty, x, payload) == Some(payload[x.a..]) && Returned(p, y, payload) == None
  {
    var n := |payload|;
    assert Brings(x, 0) || Brings(y, 0);
    assert Brings(x, n - 1) || Brings(y, n - 1);
    if x.a == 0 {
      assert Brings(x, x.b) || Brings(y, x.b);
    }
  }

  /** The whole datagram comes back at arrival `k`. */
  ghost predicate WholeAt(xs: seq<Arrival>, k: nat, payload: seq<Byte>)
    requires k < |xs| && AllFragments(xs, payload)
  {
    var p := PhaseAt(xs[..k], |payload|);
    p.One? && p.x.a == 0 && Completes(p.x, xs[k], |payload|)
  }

  /** Only two fragments that come one right after the other can make up a datagram. */
  lemma WholeFromTwo(xs: seq<Arrival>, k: nat, payload: seq<Byte>)
    requires k < |xs| && AllFragments(xs, payload) && WholeAt(xs, k, payload)
    ensures k > 0 && xs[k - 1].a == 0 && xs[k].a <= xs[k - 1].b && xs[k].b == |payload|
  {
    OneIsLast(xs[..k], |payload|);
  }

  /** A datagram of which no two fragments have everything, such as one sent in three, is never
      given back, in whatever order and however often its fragments come. */
  lemma ThreeNeverWhole(xs: seq<Arrival>, k: nat, payload: seq<Byte>)
    requires k < |xs| && AllFragments(xs, payload)
    requires forall i, j | 0 <= i < |xs| && 0 <= j < |xs| && xs[i].a == 0 && xs[j].b == |payload| :: xs[j].a > xs[i].b
    ensures !WholeAt(xs, k, payload)
  {
    if WholeAt(xs, k, payload) {
      WholeFromTwo(xs, k, payload);
    }
  }

  /** The last of two fragments comes first: it is taken for a datagram. */
  method LastFirst(key: Key, header: seq<Byte>) returns (rs: seq<Option<seq<Byte>>>)
    ensures rs == [Some(seq(8, _ => 1)), None]
  {
    var payload: seq<Byte> := seq(16, i => if i < 8 then 0 else 1);
    var xs := [Arrival(8, 16, header, true), Arrival(0, 8, header, true)];
    rs := Run(key, payload, xs);
    assert xs[..1] == [xs[0]] && [xs[0]][..0] == [] && xs[..0] == [];
    assert payload[8..] == seq(8, _ => 1);
  }

  /** The middle, the first and the last of three fragments: nothing comes back. */
  method MiddleFirst(key: Key, header: seq<Byte>) returns (rs: seq<Option<seq<Byte>>>)
    ensures rs == [None, None, None]
  {
    var payload: seq<Byte> := seq(24, _ => 0);
    var xs := [Arrival(8, 16, header, true), Arrival(0, 8, header, true), Arrival(16, 24, header, true)];
    rs := Run(key, payload, xs);
    assert xs[..1] == [xs[0]] && [xs[0]][..0] == [] && xs[..0] == [];
    assert xs[..2] == [xs[0], xs[1]] && [xs[0], xs[1]][..1] == [xs[0]];
  }

  /** Whatever the first three fragments are, if the second does not complete the first, the third
      frees the entry, and the two that follow give the datagram back. */
  method Recovers(key: Key, payload: seq<Byte>, xs: seq<Arrival>) returns (rs: seq<Option<seq<Byte>>>)
    requires |xs| == 5 && AllFragments(xs, payload)
    requires xs[0].memory && xs[0].b < |payload|
    requires xs[1].memory && xs[1].b == |payload| ==> xs[1].a < xs[0].a || xs[1].a > xs[0].b
    requires xs[3].memory && xs[3].a == 0
    requires xs[4].memory && xs[4].a <= xs[3].b && xs[4].b == |payload|
    ensures rs == [None, None, None, None, Some(xs[3].header + payload)]
  {
    rs := Run(key, payload, xs);
    forall k | 0 <= k < 4
      ensures PhaseAt(xs[..k + 1], |payload|) == Next(PhaseAt(xs[..k], |payload|), xs[k], |payload|)
    {
      PhaseNext(xs, k, |payload|);
    }
    hide PhaseAt;
    assert PhaseAt(xs[..0], |payload|) == Empty by { PhaseNone(xs, |payload|); }
    assert PhaseAt(xs[..0 + 1], |payload|) == One(xs[0]);
    assert PhaseAt(xs[..1 + 1], |payload|) == Two;
    assert PhaseAt(xs[..2 + 1], |payload|) == Empty;
    assert IsFragment(xs[3], payload);
    assert PhaseAt(xs[..3 + 1], |payload|) == One(xs[3]);
  }

  lemma PhaseNone(xs: seq<Arrival>, n: nat)
    ensures PhaseAt(xs[..0], n) == Empty
  {
  }

  /** A fragment of another datagram meets the entry as if it were free. */
  lemma OtherDatagram(e: Entry, f: Fragment, memory: bool)
    requires e.key != f.key
    ensures Step(e, f, memory) == Step(Entry(f.key, 0, []), f, memory)
  {
  }
}
