/** CIDR prefixes over one address family of width `w` (32 for IPv4, 128 for IPv6).
    A prefix is its network address and its length; the block it denotes is the
    inclusive address range from the network address to the broadcast address. */
module Prefixes {
  import opened Bits

  /** A parsed CIDR prefix `net/len`. */
  datatype Prefix = Prefix(net: nat, len: nat)

  /** A well-formed prefix of width `w`: its length fits the family, its address
      is an address of the family and its host bits are zero. */
  predicate Valid(w: nat, p: Prefix) {
    p.len <= w && p.net < Pow2(w) && Aligned(p.net, Pow2(w - p.len))
  }

  predicate AllValid(w: nat, ps: seq<Prefix>) {
    forall i :: 0 <= i < |ps| ==> Valid(w, ps[i])
  }

  /** The last address of the block: the network address with every host bit set. */
  function Broadcast(w: nat, p: Prefix): (r: nat)
    requires p.len <= w
    ensures r >= p.net
  {
    p.net + Pow2(w - p.len) - 1
  }

  /** Address `a` lies in the block of `p`. */
  predicate InBlock(w: nat, p: Prefix, a: nat)
    requires p.len <= w
  {
    p.net <= a <= Broadcast(w, p)
  }

  /** Some prefix of `ps` holds address `a`: the address space that `ps` covers. */
  predicate CoveredBy(w: nat, ps: seq<Prefix>, a: nat) {
    exists i :: 0 <= i < |ps| && ps[i].len <= w && InBlock(w, ps[i], a)
  }

  /** The network of length `len` that holds address `addr`, host bits masked
      away rather than rejected (as `ip_network('addr/len', strict=False)`). */
  function Network(w: nat, addr: nat, len: nat): (r: Prefix)
    requires len <= w && addr < Pow2(w)
    ensures Valid(w, r) && r.len == len && InBlock(w, r, addr)
  {
    Prefix(Mask(addr, Pow2(w - len)), len)
  }

  /** The network holding an address at a given length is unique. */
  lemma NetworkUnique(w: nat, addr: nat, q: Prefix)
    requires Valid(w, q) && addr < Pow2(w) && InBlock(w, q, addr)
    ensures q == Network(w, addr, q.len)
  {
    var s := Pow2(w - q.len);
    var m := Mask(addr, s);
    if q.net < m {
      GridGap(q.net, m, s);
    } else if m < q.net {
      GridGap(m, q.net, s);
    }
  }

  /** Lexicographic order on `(network address, prefix length)`, the sort key. */
  predicate LexLe(p: Prefix, q: Prefix) {
    p.net < q.net || (p.net == q.net && p.len <= q.len)
  }

  /** `outer`'s block holds every address of `inner`'s block. */
  predicate Contains(w: nat, outer: Prefix, inner: Prefix)
    requires outer.len <= w && inner.len <= w
  {
    outer.net <= inner.net && Broadcast(w, inner) <= Broadcast(w, outer)
  }

  /** Blocks are nested or disjoint: a valid prefix whose network address lies in
      another valid prefix's block, at or after its start and no shorter, is contained in it. */
  lemma NestedOrDisjoint(w: nat, p: Prefix, q: Prefix)
    requires Valid(w, p) && Valid(w, q)
    requires InBlock(w, p, q.net)
    requires q.net == p.net ==> p.len <= q.len
    ensures Contains(w, p, q)
  {
    if p.net < q.net {
      NestedBlocks(p.net, w - p.len, q.net, w - q.len);
    } else {
      Pow2Monotone(w - q.len, w - p.len);
    }
  }

  /** The source's truncation step: when `t` is non-zero (truthy) and the prefix
      is longer than `t`, the prefix is replaced by the network of length `t`
      holding its network address; otherwise it is left unchanged. */
  function Truncate(w: nat, t: nat, p: Prefix): (r: Prefix)
    requires Valid(w, p)
    ensures Valid(w, r) && r.len <= p.len
    ensures t != 0 && p.len > t ==> r.len == t
    ensures !(t != 0 && p.len > t) ==> r == p
  {
    if t != 0 && p.len > t then Network(w, p.net, t) else p
  }

  /** The truncated block contains the original prefix. */
  lemma TruncateContains(w: nat, t: nat, p: Prefix)
    requires Valid(w, p)
    ensures Contains(w, Truncate(w, t, p), p)
  {
    var r := Truncate(w, t, p);
    NestedOrDisjoint(w, r, p);
  }

  /** Truncation keeps the sort order: it maps a list sorted by
      `(network address, prefix length)` to a list sorted the same way. */
  lemma TruncateMonotone(w: nat, t: nat, p: Prefix, q: Prefix)
    requires Valid(w, p) && Valid(w, q) && LexLe(p, q)
    ensures LexLe(Truncate(w, t, p), Truncate(w, t, q))
  {
    var tp, tq := Truncate(w, t, p), Truncate(w, t, q);
    var cut := t != 0;
    if cut && p.len > t && q.len > t {
      MaskMonotone(p.net, q.net, Pow2(w - t));
    } else if cut && p.len > t {
      // q is kept: its network address is aligned at length t as well
      AlignedPow2(q.net, w - t, w - q.len);
      if p.net == q.net {
        assert false;
      }
    } else if cut && q.len > t {
      // p is kept and aligned at length t, so it is at most q's masked address
      AlignedPow2(p.net, w - t, w - p.len);
      MaskGreatest(p.net, q.net, Pow2(w - t));
    }
  }

  /** A valid block ends inside the address space. */
  lemma BroadcastBound(w: nat, p: Prefix)
    requires Valid(w, p)
    ensures Broadcast(w, p) < Pow2(w)
  {
    var h := w - p.len;
    var s, n := Pow2(h), Pow2(p.len);
    Pow2Add(p.len, h);
    assert Pow2(w) == n * s;
    AlignedMultiple(n, s);
    GridGap(p.net, Pow2(w), s);
  }
}
