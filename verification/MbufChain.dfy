/** A chain of mbufs as in4_cksum reads it: the data bytes of each buffer, the address at
    which they start in memory, and the next buffer (tn_net/tn_mbuf.h:83-99). */
module MbufChain {
  import opened Machine
  import opened OnesComplement

  datatype Chain = Nil | Mbuf(data: seq<Byte>, addr: nat, next: Chain)

  function Flatten(m: Chain): seq<Byte> {
    match m
    case Nil => []
    case Mbuf(data, _, next) => data + Flatten(next)
  }

  function Drop(n: nat, s: seq<Byte>): seq<Byte> {
    if n <= |s| then s[n..] else []
  }

  function Take(n: nat, s: seq<Byte>): seq<Byte> {
    if n <= |s| then s[..n] else s
  }

  /** Storing one byte at a position of the flattened chain; no buffer changes size or place. */
  function Store(m: Chain, pos: nat, b: Byte): Chain
    requires pos < |Flatten(m)|
  {
    if pos < |m.data| then m.(data := m.data[pos := b])
    else m.(next := Store(m.next, pos - |m.data|, b))
  }

  lemma {:induction false} StoreFlatten(m: Chain, pos: nat, b: Byte)
    requires pos < |Flatten(m)|
    ensures Flatten(Store(m, pos, b)) == Flatten(m)[pos := b]
  {
    if pos >= |m.data| {
      StoreFlatten(m.next, pos - |m.data|, b);
    }
  }

  /** Dropping past a whole buffer, as both loops of in4_cksum move to the next one. */
  lemma DropNext(m: Chain, n: nat)
    requires m.Mbuf? && |m.data| <= n
    ensures Drop(n, Flatten(m)) == Drop(n - |m.data|, Flatten(m.next))
  {
  }

  /** What is left to read splits into the part inside this buffer and the rest of the chain. */
  lemma TakeSplit(m: Chain, off: nat, len: nat)
    requires m.Mbuf? && off <= |m.data|
    ensures var n := if len < |m.data| - off then len else |m.data| - off;
      Take(len, Drop(off, Flatten(m))) == m.data[off..off + n] + Take(len - n, Drop(0, Flatten(m.next)))
  {
  }
}
