/** The second stage of `aggregate_prefixes`: starting from one sorted prefix,
    collect the run of prefixes that continues it without a gap. Prefixes are
    truncated as they are read, exactly where the source truncates them. */
module Scanner {
  import opened Bits
  import opened Prefixes
  import opened Normaliser

  /** Every prefix of `ps` after the truncation step (the source applies it to
      each prefix as the scan reaches it). */
  ghost function TruncateAll(w: nat, t: nat, ps: seq<Prefix>): seq<Prefix>
    requires AllValid(w, ps)
  {
    seq(|ps|, i requires 0 <= i < |ps| => Truncate(w, t, ps[i]))
  }

  /** Truncating a sorted list of valid prefixes gives a sorted list of valid prefixes. */
  lemma TruncateAllSorted(w: nat, t: nat, ps: seq<Prefix>)
    requires AllValid(w, ps) && SortedLex(ps)
    ensures AllValid(w, TruncateAll(w, t, ps)) && SortedLex(TruncateAll(w, t, ps))
  {
    var ts := TruncateAll(w, t, ps);
    forall i, j | 0 <= i < j < |ts| ensures LexLe(ts[i], ts[j]) {
      TruncateMonotone(w, t, ps[i], ps[j]);
    }
  }

  /** Each member starts one address past the broadcast address of the member before it. */
  predicate Contiguous(w: nat, bs: seq<Prefix>) {
    AllValid(w, bs) && forall i :: 0 <= i < |bs| - 1 ==> bs[i + 1].net == Broadcast(w, bs[i]) + 1
  }

  /** `bs` covers the range `[lo, hi]` without gaps or overlaps: a contiguous,
      non-empty list that starts at `lo` and ends at `hi`. */
  predicate Tiles(w: nat, bs: seq<Prefix>, lo: nat, hi: nat) {
    Contiguous(w, bs) && bs != [] && bs[0].net == lo && Broadcast(w, bs[|bs| - 1]) == hi
  }

  /** Prefix `p` lies inside the address range `[lo, hi]`. */
  predicate Within(w: nat, p: Prefix, lo: nat, hi: nat)
    requires p.len <= w
  {
    lo <= p.net && Broadcast(w, p) <= hi
  }

  /** Members of a contiguous list are strictly ordered and disjoint. */
  lemma {:induction false} ContiguousIncreasing(w: nat, bs: seq<Prefix>, i: nat, j: nat)
    requires Contiguous(w, bs) && i < j < |bs|
    ensures Broadcast(w, bs[i]) < bs[j].net
  {
    if i + 1 < j {
      ContiguousIncreasing(w, bs, i, j - 1);
      assert bs[j].net == Broadcast(w, bs[j - 1]) + 1;
    }
  }

  /** Every member of a tiling lies inside the range it tiles. */
  lemma TilesWithin(w: nat, bs: seq<Prefix>, lo: nat, hi: nat, i: nat)
    requires Tiles(w, bs, lo, hi) && i < |bs|
    ensures Within(w, bs[i], lo, hi)
  {
    if 0 < i {
      ContiguousIncreasing(w, bs, 0, i);
    }
    if i < |bs| - 1 {
      ContiguousIncreasing(w, bs, i, |bs| - 1);
    }
  }

  /** A tiling covers exactly the addresses of its range. */
  lemma TilesCover(w: nat, bs: seq<Prefix>, lo: nat, hi: nat, a: nat)
    requires Tiles(w, bs, lo, hi)
    ensures CoveredBy(w, bs, a) <==> lo <= a <= hi
  {
    if CoveredBy(w, bs, a) {
      var i :| 0 <= i < |bs| && bs[i].len <= w && InBlock(w, bs[i], a);
      TilesWithin(w, bs, lo, hi, i);
    }
    if lo <= a <= hi {
      TilesReach(w, bs, lo, hi, a);
    }
  }

  /** Every address of the range lies in some block of the tiling. */
  lemma {:induction false} TilesReach(w: nat, bs: seq<Prefix>, lo: nat, hi: nat, a: nat)
    requires Tiles(w, bs, lo, hi) && lo <= a <= hi
    ensures CoveredBy(w, bs, a)
  {
    var n := |bs| - 1;
    if n == 0 {
      assert InBlock(w, bs[0], a);
    } else if a <= Broadcast(w, bs[n - 1]) {
      var init := bs[..n];
      assert Tiles(w, init, lo, Broadcast(w, bs[n - 1]));
      TilesReach(w, init, lo, Broadcast(w, bs[n - 1]), a);
      var i :| 0 <= i < |init| && init[i].len <= w && InBlock(w, init[i], a);
      assert bs[i] == init[i];
    } else {
      assert InBlock(w, bs[n], a);
    }
  }

  /** The tiling grows by a block that starts right after its end. */
  lemma TilesAppend(w: nat, bs: seq<Prefix>, lo: nat, hi: nat, b: Prefix)
    requires Tiles(w, bs, lo, hi) && Valid(w, b) && b.net == hi + 1
    ensures Tiles(w, bs + [b], lo, Broadcast(w, b))
  {
    var r := bs + [b];
    assert forall i :: 0 <= i < |bs| ==> r[i] == bs[i];
  }

  /** When the scan stops at a candidate that is neither subsumed nor adjacent,
      the candidate starts after a real gap. This holds because the list is sorted
      by `(network address, prefix length)` and blocks are nested or disjoint: a
      later candidate that overlaps the last member is contained in it. */
  lemma BreakIsGap(w: nat, last: Prefix, next: Prefix)
    requires Valid(w, last) && Valid(w, next) && LexLe(last, next)
    requires Broadcast(w, last) < Broadcast(w, next)
    requires Broadcast(w, last) + 1 != next.net
    ensures Broadcast(w, last) + 1 < next.net
  {
    if next.net <= Broadcast(w, last) {
      NestedOrDisjoint(w, last, next);
      assert false;
    }
  }

  /** The state of the scan after looking at indices `id` to `nextId - 1` of the
      truncated list `ts`: the run so far tiles `[ts[id].net, hi]`, each member was
      drawn (at `idx`) from a scanned index, and every scanned prefix lies inside
      the run's range. */
  ghost predicate ScanInv(w: nat, ts: seq<Prefix>, id: nat, nextId: nat, run: seq<Prefix>, idx: seq<nat>, hi: nat) {
    && AllValid(w, ts) && SortedLex(ts) && id < nextId <= |ts|
    && run != [] && run[0] == ts[id] && |idx| == |run|
    && Tiles(w, run, ts[id].net, hi)
    && (forall i :: 0 <= i < |run| ==> id <= idx[i] < nextId && run[i] == ts[idx[i]])
    && (forall k :: id <= k < nextId ==> Within(w, ts[k], ts[id].net, hi))
  }

  lemma ScanStart(w: nat, ts: seq<Prefix>, id: nat)
    requires AllValid(w, ts) && SortedLex(ts) && id < |ts|
    ensures ScanInv(w, ts, id, id + 1, [ts[id]], [id], Broadcast(w, ts[id]))
  {
  }

  /** Lines 123-125: a candidate ending at or before the run's end is skipped. */
  lemma ScanSkip(w: nat, ts: seq<Prefix>, id: nat, nextId: nat, run: seq<Prefix>, idx: seq<nat>, hi: nat)
    requires ScanInv(w, ts, id, nextId, run, idx, hi) && nextId < |ts|
    requires Broadcast(w, ts[nextId]) <= hi
    ensures ScanInv(w, ts, id, nextId + 1, run, idx, hi)
  {
    assert LexLe(ts[id], ts[nextId]);
  }

  /** Lines 129-130: a candidate starting one address past the run's end is appended. */
  lemma ScanAppend(w: nat, ts: seq<Prefix>, id: nat, nextId: nat, run: seq<Prefix>, idx: seq<nat>, hi: nat)
    requires ScanInv(w, ts, id, nextId, run, idx, hi) && nextId < |ts|
    requires ts[nextId].net == hi + 1
    ensures ScanInv(w, ts, id, nextId + 1, run + [ts[nextId]], idx + [nextId], Broadcast(w, ts[nextId]))
  {
    var next, hi' := ts[nextId], Broadcast(w, ts[nextId]);
    TilesAppend(w, run, ts[id].net, hi, next);
    var run', idx' := run + [next], idx + [nextId];
    forall i | 0 <= i < |run'| ensures id <= idx'[i] < nextId + 1 && run'[i] == ts[idx'[i]] {
      if i < |run| {
        assert idx'[i] == idx[i] && run'[i] == run[i];
      }
    }
    forall k | id <= k < nextId + 1 ensures Within(w, ts[k], ts[id].net, hi') {
      if k == nextId {
        assert LexLe(ts[id], ts[nextId]);
      }
    }
  }

  /** Lines 127-128: a candidate that is neither subsumed nor adjacent ends the
      run, and it starts after a gap. */
  lemma ScanBreak(w: nat, ts: seq<Prefix>, id: nat, nextId: nat, run: seq<Prefix>, idx: seq<nat>, hi: nat)
    requires ScanInv(w, ts, id, nextId, run, idx, hi) && nextId < |ts|
    requires hi < Broadcast(w, ts[nextId]) && hi + 1 != ts[nextId].net
    ensures hi + 1 < ts[nextId].net
  {
    var last := |run| - 1;
    assert run[last] == ts[idx[last]] && idx[last] < nextId;
    assert LexLe(ts[idx[last]], ts[nextId]);
    BreakIsGap(w, run[last], ts[nextId]);
  }

  /** What one scan produces from `ts`, starting at `id` and stopping at `nextId`:
      a run that tiles the range from the network address of `ts[id]` to the broadcast
      address of its last member, whose members come from the scanned slice, which
      holds every scanned prefix, and after which the next prefix (if any) starts
      past a gap. */
  ghost predicate RunOf(w: nat, ts: seq<Prefix>, id: nat, nextId: nat, run: seq<Prefix>) {
    && AllValid(w, ts) && id < nextId <= |ts|
    && run != [] && Valid(w, run[|run| - 1]) && run[0] == ts[id]
    && Tiles(w, run, run[0].net, Broadcast(w, run[|run| - 1]))
    && (forall i :: 0 <= i < |run| ==> run[i] in ts[id..nextId])
    && (forall k :: id <= k < nextId ==> Within(w, ts[k], run[0].net, Broadcast(w, run[|run| - 1])))
    && (nextId < |ts| ==> Broadcast(w, run[|run| - 1]) + 1 < ts[nextId].net)
  }

  /** The scan's final state, with the gap where it stopped, is a run. */
  lemma ScanFinish(w: nat, ts: seq<Prefix>, id: nat, nextId: nat, run: seq<Prefix>, idx: seq<nat>, hi: nat)
    requires ScanInv(w, ts, id, nextId, run, idx, hi)
    requires nextId < |ts| ==> hi + 1 < ts[nextId].net
    ensures RunOf(w, ts, id, nextId, run)
  {
    forall i | 0 <= i < |run| ensures run[i] in ts[id..nextId] {
      assert ts[id..nextId][idx[i] - id] == run[i];
    }
  }

  /** Lines 95-134: the run that starts at `ps[id]`, and the index where the next run starts.
      A candidate whose broadcast address is not past the last member's is skipped, one that
      starts right after the last member is appended, and any other ends the run. */
  method ScanRun(w: nat, t: nat, ps: seq<Prefix>, id: nat) returns (run: seq<Prefix>, nextId: nat)
    requires AllValid(w, ps) && SortedLex(ps) && id < |ps|
    ensures RunOf(w, TruncateAll(w, t, ps), id, nextId, run)
  {
    ghost var ts := TruncateAll(w, t, ps);
    TruncateAllSorted(w, t, ps);
    var prefix := Truncate(w, t, ps[id]);
    run := [prefix];
    ghost var idx := [id];
    ghost var hi := Broadcast(w, prefix);
    nextId := id + 1;
    ScanStart(w, ts, id);
    while nextId < |ps|
      invariant ScanInv(w, ts, id, nextId, run, idx, hi)
    {
      var last := run[|run| - 1];
      var next := Truncate(w, t, ps[nextId]);
      if Broadcast(w, last) >= Broadcast(w, next) {
        ScanSkip(w, ts, id, nextId, run, idx, hi);
        nextId := nextId + 1;
      } else {
        // `last.broadcast + 1` names an address: the last member is not the top block
        BroadcastBound(w, next);
        assert Broadcast(w, last) + 1 < Pow2(w);
        if Broadcast(w, last) + 1 != next.net {
          ScanBreak(w, ts, id, nextId, run, idx, hi);
          break;
        }
        ScanAppend(w, ts, id, nextId, run, idx, hi);
        run := run + [next];
        idx := idx + [nextId];
        hi := Broadcast(w, next);
        nextId := nextId + 1;
      }
    }
    ScanFinish(w, ts, id, nextId, run, idx, hi);
  }
}
