/** The third stage of `aggregate_prefixes` and the function itself: each
    contiguous run is covered greedily by the largest aligned block that starts
    at its first uncovered member and ends inside the run, and the blocks are
    emitted in order. */
module Aggregator {
  import opened Bits
  import opened Prefixes
  import opened Normaliser
  import opened Scanner

  /** The source's default `max_length`, whatever the address family. */
  const DefaultMaxLength: int := 128

  /** The block of length `len` built from `net` (the source's `tentative`) still
      starts at `net` and ends at or before `lastBroadcast`: it is an acceptable aggregate. */
  predicate Fits(w: nat, net: nat, len: nat, lastBroadcast: nat)
    requires len <= w && net < Pow2(w)
  {
    var tentative := Network(w, net, len);
    tentative.net == net && Broadcast(w, tentative) <= lastBroadcast
  }

  /** Shortening a prefix only weakens alignment and only moves its broadcast
      address up, so if a length fits, every longer length does too. */
  lemma FitsLonger(w: nat, net: nat, len: nat, len': nat, lastBroadcast: nat)
    requires len <= len' <= w && net < Pow2(w)
    requires Fits(w, net, len, lastBroadcast)
    ensures Fits(w, net, len', lastBroadcast)
  {
    AlignedPow2(net, w - len', w - len);
    Pow2Monotone(w - len', w - len);
  }

  /** The aggregate built from the prefix `first`: the block at `first`'s network
      address with the shortest length that still fits. */
  predicate IsAggregate(w: nat, first: Prefix, lastBroadcast: nat, aggregate: Prefix)
    requires Valid(w, first)
  {
    && Valid(w, aggregate)
    && aggregate.net == first.net
    && aggregate.len <= first.len
    && Broadcast(w, aggregate) <= lastBroadcast
    && forall len :: 0 <= len < aggregate.len ==> !Fits(w, first.net, len, lastBroadcast)
  }

  /** Lines 161-180: shorten the prefix one bit at a time, stopping at the first
      length whose block no longer starts at `first`'s network address or ends
      past the run's last broadcast address. */
  method Expand(w: nat, first: Prefix, lastBroadcast: nat) returns (aggregate: Prefix)
    requires Valid(w, first) && Broadcast(w, first) <= lastBroadcast
    ensures IsAggregate(w, first, lastBroadcast, aggregate)
  {
    aggregate := first;
    var tentativeLen := first.len;
    while tentativeLen > 0
      invariant tentativeLen == aggregate.len
      invariant Valid(w, aggregate) && aggregate.net == first.net && aggregate.len <= first.len
      invariant Broadcast(w, aggregate) <= lastBroadcast
    {
      tentativeLen := tentativeLen - 1;
      var tentative := Network(w, first.net, tentativeLen);
      if tentative.net != first.net || Broadcast(w, tentative) > lastBroadcast {
        forall len | 0 <= len < aggregate.len ensures !Fits(w, first.net, len, lastBroadcast) {
          if len < tentativeLen && Fits(w, first.net, len, lastBroadcast) {
            FitsLonger(w, first.net, len, tentativeLen, lastBroadcast);
          }
        }
        break;
      }
      aggregate := tentative;
    }
  }

  /** A run of a single prefix aggregates to that prefix unchanged. */
  lemma AggregateOfSingle(w: nat, first: Prefix, aggregate: Prefix)
    requires Valid(w, first) && IsAggregate(w, first, Broadcast(w, first), aggregate)
    ensures aggregate == first
  {
    if aggregate.len < first.len {
      Pow2Monotone(w - first.len + 1, w - aggregate.len);
      assert false;
    }
  }

  /** Lines 188-208: the members from `contigousId` up to (not including) `covered`
      start inside the aggregate; the member at `covered`, if any, starts after it. */
  method CoverScan(w: nat, run: seq<Prefix>, contigousId: nat, aggregate: Prefix) returns (covered: nat)
    requires contigousId < |run| && aggregate.len <= w
    ensures contigousId < covered <= |run|
    ensures forall k :: contigousId < k < covered ==> run[k].net <= Broadcast(w, aggregate)
    ensures covered < |run| ==> Broadcast(w, aggregate) < run[covered].net
  {
    covered := contigousId + 1;
    while covered < |run|
      invariant contigousId < covered <= |run|
      invariant forall k :: contigousId < k < covered ==> run[k].net <= Broadcast(w, aggregate)
    {
      if Broadcast(w, aggregate) < run[covered].net {
        break;
      }
      covered := covered + 1;
    }
  }

  /** The aggregate ends exactly where the last member it covers ends, so the
      next anchor starts one address after it. */
  lemma AggregateEndsAtCovered(w: nat, run: seq<Prefix>, c: nat, aggregate: Prefix, covered: nat)
    requires run != [] && Contiguous(w, run)
    requires c < covered <= |run|
    requires IsAggregate(w, run[c], Broadcast(w, run[|run| - 1]), aggregate)
    requires forall k :: c < k < covered ==> run[k].net <= Broadcast(w, aggregate)
    requires covered < |run| ==> Broadcast(w, aggregate) < run[covered].net
    ensures Broadcast(w, aggregate) == Broadcast(w, run[covered - 1])
  {
    var m := run[covered - 1];
    if covered - 1 > c {
      ContiguousIncreasing(w, run, c, covered - 1);
    }
    NestedOrDisjoint(w, aggregate, m);
    if covered < |run| {
      assert run[covered].net == Broadcast(w, m) + 1;
    }
  }

  /** No block of `bs` can be shortened: at every shorter length, the block built
      from its network address either starts elsewhere or ends past `lastBroadcast`. */
  predicate Greedy(w: nat, bs: seq<Prefix>, lastBroadcast: nat) {
    && AllValid(w, bs)
    && forall i, len :: 0 <= i < |bs| && 0 <= len < bs[i].len ==> !Fits(w, bs[i].net, len, lastBroadcast)
  }

  /** Lines 137-210 for one run: the aggregates of a contiguous run tile exactly
      the run's range, from its first network address to its last broadcast address,
      none of them can be shortened within the run, and a run of one prefix is
      emitted unchanged. */
  method AggregateRun(w: nat, run: seq<Prefix>) returns (aggregates: seq<Prefix>)
    requires run != [] && Contiguous(w, run)
    ensures Tiles(w, aggregates, run[0].net, Broadcast(w, run[|run| - 1]))
    ensures Greedy(w, aggregates, Broadcast(w, run[|run| - 1]))
    ensures |run| == 1 ==> aggregates == run
  {
    var lastBroadcast := Broadcast(w, run[|run| - 1]);
    aggregates := [];
    var contigousId := 0;
    while contigousId < |run|
      invariant contigousId <= |run|
      invariant contigousId == 0 <==> aggregates == []
      invariant contigousId > 0 ==> Tiles(w, aggregates, run[0].net, Broadcast(w, run[contigousId - 1]))
      invariant Greedy(w, aggregates, lastBroadcast)
      invariant |run| == 1 ==> aggregates == run[..contigousId]
      decreases |run| - contigousId
    {
      var first := run[contigousId];
      if contigousId < |run| - 1 {
        ContiguousIncreasing(w, run, contigousId, |run| - 1);
      }
      var aggregate := Expand(w, first, lastBroadcast);
      if |run| == 1 {
        AggregateOfSingle(w, first, aggregate);
      }
      var covered := CoverScan(w, run, contigousId, aggregate);
      AggregateEndsAtCovered(w, run, contigousId, aggregate, covered);
      if contigousId == 0 {
        assert Tiles(w, [aggregate], run[0].net, Broadcast(w, aggregate));
      } else {
        TilesAppend(w, aggregates, run[0].net, Broadcast(w, run[contigousId - 1]), aggregate);
      }
      GreedyAppend(w, aggregates, aggregate, lastBroadcast);
      aggregates := aggregates + [aggregate];
      contigousId := covered;
    }
  }

  lemma GreedyAppend(w: nat, bs: seq<Prefix>, b: Prefix, lastBroadcast: nat)
    requires Greedy(w, bs, lastBroadcast) && Valid(w, b)
    requires forall len :: 0 <= len < b.len ==> !Fits(w, b.net, len, lastBroadcast)
    ensures Greedy(w, bs + [b], lastBroadcast)
  {
    var r := bs + [b];
    forall i, len | 0 <= i < |r| && 0 <= len < r[i].len ensures !Fits(w, r[i].net, len, lastBroadcast) {
      if i < |bs| {
        assert r[i] == bs[i];
      }
    }
  }

  /** Strictly increasing by network address and pairwise non-overlapping:
      every block ends before any later block starts. */
  predicate Ascending(w: nat, bs: seq<Prefix>) {
    AllValid(w, bs) && forall i, j :: 0 <= i < j < |bs| ==> Broadcast(w, bs[i]) < bs[j].net
  }

  /** A tiling is ascending. */
  lemma TilesAscending(w: nat, bs: seq<Prefix>, lo: nat, hi: nat)
    requires Tiles(w, bs, lo, hi)
    ensures Ascending(w, bs)
  {
    forall i, j | 0 <= i < j < |bs| ensures Broadcast(w, bs[i]) < bs[j].net {
      ContiguousIncreasing(w, bs, i, j);
    }
  }

  /** Appending the tiling of a range that starts after every block of an
      ascending list keeps it ascending, and it then ends at the range's end. */
  lemma AscendingAppend(w: nat, xs: seq<Prefix>, ys: seq<Prefix>, lo: nat, hi: nat)
    requires Ascending(w, xs) && Tiles(w, ys, lo, hi)
    requires forall i :: 0 <= i < |xs| ==> Broadcast(w, xs[i]) < lo
    ensures Ascending(w, xs + ys)
    ensures forall i :: 0 <= i < |xs + ys| ==> Broadcast(w, (xs + ys)[i]) <= hi
  {
    TilesAscending(w, ys, lo, hi);
    var zs := xs + ys;
    forall i | 0 <= i < |ys| ensures Within(w, ys[i], lo, hi) {
      TilesWithin(w, ys, lo, hi, i);
    }
    forall i, j | 0 <= i < j < |zs| ensures Broadcast(w, zs[i]) < zs[j].net {
      if j < |xs| {
        assert zs[i] == xs[i] && zs[j] == xs[j];
      } else if i < |xs| {
        assert zs[i] == xs[i] && zs[j] == ys[j - |xs|];
      } else {
        assert zs[i] == ys[i - |xs|] && zs[j] == ys[j - |xs|];
      }
    }
  }

  lemma CoveredByConcat(w: nat, xs: seq<Prefix>, ys: seq<Prefix>, a: nat)
    ensures CoveredBy(w, xs + ys, a) <==> CoveredBy(w, xs, a) || CoveredBy(w, ys, a)
  {
    var zs := xs + ys;
    if CoveredBy(w, zs, a) {
      var i :| 0 <= i < |zs| && zs[i].len <= w && InBlock(w, zs[i], a);
      if i < |xs| {
        assert xs[i] == zs[i];
      } else {
        assert ys[i - |xs|] == zs[i];
      }
    }
    if CoveredBy(w, xs, a) {
      var i :| 0 <= i < |xs| && xs[i].len <= w && InBlock(w, xs[i], a);
      assert zs[i] == xs[i];
    }
    if CoveredBy(w, ys, a) {
      var i :| 0 <= i < |ys| && ys[i].len <= w && InBlock(w, ys[i], a);
      assert zs[|xs| + i] == ys[i];
    }
  }

  /** The prefixes one run scan passes over, subsumed or appended, cover exactly
      the run's range. */
  lemma ScannedCover(w: nat, ts: seq<Prefix>, id: nat, nextId: nat, run: seq<Prefix>, a: nat)
    requires AllValid(w, ts) && id < nextId <= |ts|
    requires run != [] && Contiguous(w, run)
    requires forall i :: 0 <= i < |run| ==> run[i] in ts[id..nextId]
    requires forall k :: id <= k < nextId ==> Within(w, ts[k], run[0].net, Broadcast(w, run[|run| - 1]))
    ensures CoveredBy(w, ts[id..nextId], a) <==> run[0].net <= a <= Broadcast(w, run[|run| - 1])
  {
    var lo, hi := run[0].net, Broadcast(w, run[|run| - 1]);
    var slice := ts[id..nextId];
    if CoveredBy(w, slice, a) {
      var k :| 0 <= k < |slice| && slice[k].len <= w && InBlock(w, slice[k], a);
      assert slice[k] == ts[id + k];
    }
    if lo <= a <= hi {
      TilesCover(w, run, lo, hi, a);
      var i :| 0 <= i < |run| && run[i].len <= w && InBlock(w, run[i], a);
      assert run[i] in slice;
      var k :| 0 <= k < |slice| && slice[k] == run[i];
    }
  }

  /** One pass of the outer loop keeps the output covering exactly what the
      scanned prefixes cover. */
  lemma CoverStep(w: nat, ts: seq<Prefix>, id: nat, nextId: nat, run: seq<Prefix>,
                  aggregates: seq<Prefix>, runAggregates: seq<Prefix>)
    requires AllValid(w, ts) && id < nextId <= |ts|
    requires run != [] && Contiguous(w, run)
    requires forall i :: 0 <= i < |run| ==> run[i] in ts[id..nextId]
    requires forall k :: id <= k < nextId ==> Within(w, ts[k], run[0].net, Broadcast(w, run[|run| - 1]))
    requires Tiles(w, runAggregates, run[0].net, Broadcast(w, run[|run| - 1]))
    requires forall a :: CoveredBy(w, aggregates, a) <==> CoveredBy(w, ts[..id], a)
    ensures forall a :: CoveredBy(w, aggregates + runAggregates, a) <==> CoveredBy(w, ts[..nextId], a)
  {
    var lo, hi := run[0].net, Broadcast(w, run[|run| - 1]);
    assert ts[..nextId] == ts[..id] + ts[id..nextId];
    forall a ensures CoveredBy(w, aggregates + runAggregates, a) <==> CoveredBy(w, ts[..nextId], a) {
      CoveredByConcat(w, aggregates, runAggregates, a);
      CoveredByConcat(w, ts[..id], ts[id..nextId], a);
      TilesCover(w, runAggregates, lo, hi, a);
      ScannedCover(w, ts, id, nextId, run, a);
    }
  }

  /** The block of length `len` built from `b`'s network address still starts
      there, and every address in it is covered by `cover`: `b` could be replaced by
      that shorter block without changing the address space. */
  ghost predicate Extendable(w: nat, cover: seq<Prefix>, b: Prefix, len: nat)
    requires Valid(w, b) && len <= w
  {
    var n := Network(w, b.net, len);
    n.net == b.net && forall a :: InBlock(w, n, a) ==> CoveredBy(w, cover, a)
  }

  /** No block of `bs` can be shortened without leaving its network address or
      taking in an address `cover` does not cover. */
  ghost predicate Merged(w: nat, bs: seq<Prefix>, cover: seq<Prefix>) {
    && AllValid(w, bs)
    && forall i, len :: 0 <= i < |bs| && 0 <= len < bs[i].len ==> !Extendable(w, cover, bs[i], len)
  }

  /** The address right after a run is covered by no prefix of the truncated list:
      earlier prefixes end below the run (their aggregates do), the scanned ones lie
      inside it, and the one where the scan stopped starts past a gap. */
  lemma GapUncovered(w: nat, ts: seq<Prefix>, id: nat, nextId: nat, run: seq<Prefix>, aggregates: seq<Prefix>)
    requires SortedLex(ts) && RunOf(w, ts, id, nextId, run)
    requires AllValid(w, aggregates)
    requires forall i :: 0 <= i < |aggregates| ==> Broadcast(w, aggregates[i]) < ts[id].net
    requires forall a :: CoveredBy(w, aggregates, a) <==> CoveredBy(w, ts[..id], a)
    ensures !CoveredBy(w, ts, Broadcast(w, run[|run| - 1]) + 1)
  {
    var hi := Broadcast(w, run[|run| - 1]);
    assert Within(w, ts[id], run[0].net, hi);
    forall k | 0 <= k < |ts| ensures !InBlock(w, ts[k], hi + 1) {
      if k < id {
        EarlierEndsBelow(w, ts, id, aggregates, ts[id].net, k);
      } else if k < nextId {
        assert Within(w, ts[k], run[0].net, hi);
      } else if k > nextId {
        assert LexLe(ts[nextId], ts[k]);
      }
    }
  }

  /** A prefix scanned before `id` ends below every bound the aggregates so far
      end below, because they cover the same addresses. */
  lemma EarlierEndsBelow(w: nat, ts: seq<Prefix>, id: nat, aggregates: seq<Prefix>, bound: nat, k: nat)
    requires AllValid(w, ts) && k < id <= |ts| && AllValid(w, aggregates)
    requires forall i :: 0 <= i < |aggregates| ==> Broadcast(w, aggregates[i]) < bound
    requires forall a :: CoveredBy(w, aggregates, a) <==> CoveredBy(w, ts[..id], a)
    ensures Broadcast(w, ts[k]) < bound
  {
    var b := Broadcast(w, ts[k]);
    assert ts[..id][k] == ts[k];
    assert InBlock(w, ts[..id][k], b);
    assert CoveredBy(w, ts[..id], b);
    assert CoveredBy(w, aggregates, b);
    var i :| 0 <= i < |aggregates| && aggregates[i].len <= w && InBlock(w, aggregates[i], b);
  }

  /** The aggregates of a run that cannot be shortened within the run, followed by
      an uncovered address, cannot be shortened within `ts` either; appending them
      keeps the output merged. */
  lemma MergedAppend(w: nat, ts: seq<Prefix>, aggregates: seq<Prefix>, runAggregates: seq<Prefix>, lo: nat, hi: nat)
    requires Merged(w, aggregates, ts)
    requires Tiles(w, runAggregates, lo, hi) && Greedy(w, runAggregates, hi)
    requires !CoveredBy(w, ts, hi + 1)
    ensures Merged(w, aggregates + runAggregates, ts)
  {
    var r := aggregates + runAggregates;
    forall i, len | 0 <= i < |r| && 0 <= len < r[i].len ensures !Extendable(w, ts, r[i], len) {
      if i < |aggregates| {
        assert r[i] == aggregates[i];
      } else {
        var j := i - |aggregates|;
        var b := runAggregates[j];
        assert r[i] == b;
        TilesWithin(w, runAggregates, lo, hi, j);
        assert !Fits(w, b.net, len, hi);
        var n := Network(w, b.net, len);
        if n.net == b.net {
          assert InBlock(w, n, hi + 1);
        }
      }
    }
  }

  /** The state of the outer loop after the runs that start before `id`: the output
      is ascending, ends below `ts[id]`, covers exactly what `ts[..id]` covers, and
      none of its blocks can be shortened within `ts`. */
  ghost predicate OutputInv(w: nat, ts: seq<Prefix>, id: nat, aggregates: seq<Prefix>) {
    && AllValid(w, ts) && SortedLex(ts) && id <= |ts|
    && Ascending(w, aggregates)
    && (id < |ts| ==> forall i :: 0 <= i < |aggregates| ==> Broadcast(w, aggregates[i]) < ts[id].net)
    && (forall a :: CoveredBy(w, aggregates, a) <==> CoveredBy(w, ts[..id], a))
    && Merged(w, aggregates, ts)
  }

  /** One pass of the outer loop: appending the aggregates of the run scanned
      from `id` keeps the loop's state. */
  lemma RunStep(w: nat, ts: seq<Prefix>, id: nat, nextId: nat, run: seq<Prefix>,
                aggregates: seq<Prefix>, runAggregates: seq<Prefix>)
    requires OutputInv(w, ts, id, aggregates) && RunOf(w, ts, id, nextId, run)
    requires Tiles(w, runAggregates, run[0].net, Broadcast(w, run[|run| - 1]))
    requires Greedy(w, runAggregates, Broadcast(w, run[|run| - 1]))
    ensures OutputInv(w, ts, nextId, aggregates + runAggregates)
  {
    var lo, hi := run[0].net, Broadcast(w, run[|run| - 1]);
    GapUncovered(w, ts, id, nextId, run, aggregates);
    MergedAppend(w, ts, aggregates, runAggregates, lo, hi);
    CoverStep(w, ts, id, nextId, run, aggregates, runAggregates);
    AscendingAppend(w, aggregates, runAggregates, lo, hi);
  }

  /** Lines 37-215: `aggregate_prefixes(prefixes, max_length, truncate)` with its
      output collected in order. The result is ascending and non-overlapping, every
      block is aligned, and it covers exactly the addresses that the filtered,
      sorted and truncated input covers. */
  method AggregatePrefixes(w: nat, prefixes: seq<RawPrefix>, maxLength: int := DefaultMaxLength, truncate: nat := 0)
    returns (aggregates: seq<Prefix>)
    requires w == 32 || w == 128
    requires forall i :: 0 <= i < |prefixes| ==> Parsed(w, prefixes[i])
    ensures Ascending(w, aggregates)
    ensures forall a :: CoveredBy(w, aggregates, a) <==>
      CoveredBy(w, TruncateAll(w, truncate, Normalise(w, prefixes, maxLength)), a)
    ensures Merged(w, aggregates, TruncateAll(w, truncate, Normalise(w, prefixes, maxLength)))
  {
    var ps := Normalise(w, prefixes, maxLength);
    ghost var ts := TruncateAll(w, truncate, ps);
    TruncateAllSorted(w, truncate, ps);
    aggregates := [];
    var id := 0;
    while id < |ps|
      invariant OutputInv(w, ts, id, aggregates)
      decreases |ps| - id
    {
      var run, nextId := ScanRun(w, truncate, ps, id);
      var runAggregates := AggregateRun(w, run);
      RunStep(w, ts, id, nextId, run, aggregates, runAggregates);
      aggregates := aggregates + runAggregates;
      id := nextId;
    }
    assert ts[..id] == ts;
  }
}
