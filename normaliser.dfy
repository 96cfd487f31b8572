/** The first stage of `aggregate_prefixes`: parse each prefix with its host bits
    masked away, drop every prefix longer than `max_length`, and sort the rest by
    `(network address, prefix length)`. It is one expression in the source and a
    pure function here. */
module Normaliser {
  import opened Bits
  import opened Prefixes

  /** An input entry as given by the caller: an address and a length, whose
      address may still have host bits set. */
  datatype RawPrefix = RawPrefix(addr: nat, len: nat)

  /** The entry parses as an address/length pair of width `w`. */
  predicate Parsed(w: nat, x: RawPrefix) {
    x.len <= w && x.addr < Pow2(w)
  }

  predicate SortedLex(ps: seq<Prefix>) {
    forall i, j :: 0 <= i < j < |ps| ==> LexLe(ps[i], ps[j])
  }

  /** The parsed entries of `raw`, in input order, that are no longer than `maxLength`. */
  function Kept(w: nat, raw: seq<RawPrefix>, maxLength: int): (r: seq<Prefix>)
    requires forall i :: 0 <= i < |raw| ==> Parsed(w, raw[i])
    ensures AllValid(w, r)
    ensures forall i :: 0 <= i < |r| ==> r[i].len <= maxLength
    ensures |r| <= |raw|
  {
    if raw == [] then []
    else
      assert Parsed(w, raw[0]);
      var rest := Kept(w, raw[1..], maxLength);
      if raw[0].len <= maxLength then [Network(w, raw[0].addr, raw[0].len)] + rest else rest
  }

  /** Every entry no longer than `maxLength` is kept, as its network; nothing else is. */
  lemma {:induction false} KeptMembers(w: nat, raw: seq<RawPrefix>, maxLength: int, p: Prefix)
    requires forall i :: 0 <= i < |raw| ==> Parsed(w, raw[i])
    ensures p in Kept(w, raw, maxLength) <==>
      exists i :: 0 <= i < |raw| && raw[i].len <= maxLength && p == Network(w, raw[i].addr, raw[i].len)
  {
    if raw != [] {
      KeptMembers(w, raw[1..], maxLength, p);
      if p in Kept(w, raw[1..], maxLength) {
        var i :| 0 <= i < |raw[1..]| && raw[1..][i].len <= maxLength
          && p == Network(w, raw[1..][i].addr, raw[1..][i].len);
        assert raw[i + 1] == raw[1..][i];
      }
      if exists i :: 0 <= i < |raw| && raw[i].len <= maxLength && p == Network(w, raw[i].addr, raw[i].len) {
        var i :| 0 <= i < |raw| && raw[i].len <= maxLength && p == Network(w, raw[i].addr, raw[i].len);
        if i > 0 {
          assert raw[1..][i - 1] == raw[i];
        }
      }
    }
  }

  /** Inserts `p` into a sorted list after every element ordered before it. */
  function Insert(p: Prefix, ps: seq<Prefix>): (r: seq<Prefix>)
    requires SortedLex(ps)
    ensures SortedLex(r)
    ensures multiset(r) == multiset(ps) + multiset{p}
  {
    if ps == [] then [p]
    else if LexLe(p, ps[0]) then
      SortedCons(p, ps);
      [p] + ps
    else
      TailSorted(ps);
      var rest := Insert(p, ps[1..]);
      LowerBound(ps[0], p, ps, rest);
      SortedCons(ps[0], rest);
      assert ps == [ps[0]] + ps[1..];
      [ps[0]] + rest
  }

  /** Everything in `rest` is `p` or an element of the sorted `ps`, so `x`,
      ordered before both, is ordered before all of `rest`. */
  lemma LowerBound(x: Prefix, p: Prefix, ps: seq<Prefix>, rest: seq<Prefix>)
    requires SortedLex(ps) && ps != [] && x == ps[0] && LexLe(x, p)
    requires multiset(rest) == multiset(ps[1..]) + multiset{p}
    ensures forall i :: 0 <= i < |rest| ==> LexLe(x, rest[i])
  {
    forall i | 0 <= i < |rest| ensures LexLe(x, rest[i]) {
      assert rest[i] in multiset(rest);
      if rest[i] != p {
        var j :| 0 <= j < |ps[1..]| && ps[1..][j] == rest[i];
        assert ps[j + 1] == rest[i];
      }
    }
  }

  lemma SortedCons(x: Prefix, s: seq<Prefix>)
    requires SortedLex(s) && forall i :: 0 <= i < |s| ==> LexLe(x, s[i])
    ensures SortedLex([x] + s)
  {
    var r := [x] + s;
    forall i, j | 0 <= i < j < |r| ensures LexLe(r[i], r[j]) {
      assert r[j] == s[j - 1];
      if i > 0 {
        assert r[i] == s[i - 1];
      }
    }
  }

  /** `sorted(..., key=lambda p: (p.network_address, p.prefixlen))`. */
  function Sort(ps: seq<Prefix>): (r: seq<Prefix>)
    ensures SortedLex(r)
    ensures multiset(r) == multiset(ps)
  {
    if ps == [] then []
    else
      assert ps == [ps[0]] + ps[1..];
      Insert(ps[0], Sort(ps[1..]))
  }

  /** Lines 62-69: the filtered, host-masked entries in ascending
      `(network address, prefix length)` order. */
  function Normalise(w: nat, raw: seq<RawPrefix>, maxLength: int): (r: seq<Prefix>)
    requires forall i :: 0 <= i < |raw| ==> Parsed(w, raw[i])
    ensures SortedLex(r) && AllValid(w, r)
    ensures multiset(r) == multiset(Kept(w, raw, maxLength))
  {
    var r := Sort(Kept(w, raw, maxLength));
    PermutationValid(w, Kept(w, raw, maxLength), r);
    r
  }

  lemma PermutationValid(w: nat, ps: seq<Prefix>, r: seq<Prefix>)
    requires AllValid(w, ps) && multiset(r) == multiset(ps)
    ensures AllValid(w, r)
  {
    forall i | 0 <= i < |r| ensures Valid(w, r[i]) {
      assert r[i] in multiset(ps);
    }
  }

  /** The first element of a sorted list is ordered before every element of it. */
  lemma SortedHeadLeast(a: seq<Prefix>, p: Prefix)
    requires SortedLex(a) && p in multiset(a)
    ensures LexLe(a[0], p)
  {
    var j :| 0 <= j < |a| && a[j] == p;
    if j > 0 {
      assert LexLe(a[0], a[j]);
    }
  }

  lemma TailMultiset(a: seq<Prefix>)
    requires a != []
    ensures multiset(a[1..]) == multiset(a) - multiset{a[0]}
  {
    assert a == [a[0]] + a[1..];
  }

  lemma TailSorted(a: seq<Prefix>)
    requires a != [] && SortedLex(a)
    ensures SortedLex(a[1..])
  {
    assert forall k :: 0 <= k < |a| - 1 ==> a[1..][k] == a[k + 1];
  }

  /** The sort key is a total order on prefixes, so a sorted permutation is unique:
      Python's stable sort and this insertion sort give the same list. */
  lemma {:induction false} SortedPermutationUnique(a: seq<Prefix>, b: seq<Prefix>)
    requires SortedLex(a) && SortedLex(b) && multiset(a) == multiset(b)
    ensures a == b
  {
    if a == [] {
      assert |multiset(b)| == 0;
    } else {
      assert a[0] in multiset(a);
      assert |b| == |multiset(b)| > 0;
      assert b[0] in multiset(b);
      SortedHeadLeast(a, b[0]);
      SortedHeadLeast(b, a[0]);
      assert a[0] == b[0];
      TailMultiset(a);
      TailMultiset(b);
      TailSorted(a);
      TailSorted(b);
      SortedPermutationUnique(a[1..], b[1..]);
      assert a == [a[0]] + a[1..] && b == [b[0]] + b[1..];
    }
  }
}
