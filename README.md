# aggregate-prefixes in Dafny

A verified model of `aggregate_prefixes()`, the CIDR summarisation routine of
the `aggregate-prefixes` package. Given a list of IPv4 or IPv6 prefixes, it
returns the aggregates that cover the same address space: adjacent and
redundant prefixes are merged into bit-aligned blocks.

The routine has three stages, and the model follows them:

- **Normalise** (`normaliser.dfy`, pure functions). Each prefix is parsed
  with its host bits masked off (`Network`). Prefixes longer than
  `max_length` are dropped (`Kept`). The rest are sorted by
  `(network address, prefix length)` (`Sort`).
- **Scan for runs** (`scanner.dfy`, method `ScanRun`). This is the inner
  `while next_id < total_prefixes` loop. It starts a run at `prefixes[_id]`.
  Each later prefix, truncated first, is either skipped (inside the last
  member), appended (it starts one address after the last member's
  broadcast address), or it ends the run.
- **Aggregate a run** (`aggregator.dfy`, methods `Expand`, `CoverScan` and
  `AggregateRun`). From the first uncovered member, the prefix is shortened
  one bit at a time. It stops at the first length whose block no longer
  starts at that member or ends past the run. Then every member starting
  inside the block is skipped, and the block is emitted.
- `AggregatePrefixes` is the whole routine. Its outer loop is the
  `while _id < total_prefixes` loop. The aggregates are collected into a
  sequence in the order the generator yields them.

Addresses are natural numbers below `2^w`, with `w` 32 or 128. A prefix is
`Prefix(net, len)`. Its broadcast address is `net + 2^(w-len) - 1`. A prefix
is `Valid` when `len <= w`, `net < 2^w` and `net` is a multiple of `2^(w-len)`.
`bits.dfy` holds the arithmetic: `Pow2`, masking (`Mask`), and the fact that
two aligned blocks are either nested or disjoint (`NestedBlocks`).

What is proved about the whole routine (`AggregatePrefixes`):

- every emitted prefix is valid, so its host bits are zero;
- the output is strictly increasing by network address, and no two prefixes
  overlap: each one ends before the next starts;
- an address is covered by the output exactly when it is covered by the
  filtered, sorted and truncated input;
- the blocks are merged as far as they go: no output block can be replaced by
  a shorter prefix at the same network address without taking in an address
  that the input does not cover (`Merged`).

Two facts the source relies on without saying so are proved along the way:

- Truncation keeps the sort order (`TruncateMonotone`). So when the scanner
  stops at a prefix that is neither subsumed nor adjacent, there is a real
  gap before it (`BreakIsGap`). Separate runs therefore never touch or
  overlap.
- An aggregate ends exactly where the last member it covers ends
  (`AggregateEndsAtCovered`). So the aggregates of a run tile the run's
  range with no gap and no overlap (`AggregateRun`).

The model follows the code on these points:

- `truncate` is an integer where 0 means "off". The code tests it for
  truthiness (`if truncate and ...`), so truncating to length 0 cannot be
  requested. `truncate=True` acts as length 1.
- `max_length` defaults to 128 whatever the family (`DefaultMaxLength`), and
  `truncate` defaults to 0 (off). These are the method's default parameter
  values. `max_length` is not range-checked.
- Nothing rejects a mixed IPv4/IPv6 batch explicitly.

## Model

| member | source | states |
|---|---|---|
| Bits.Mask | aggregate_prefixes/aggregate_prefixes.py:167-169 | masking an address to a block size gives an aligned address at or below it, less than one block away |
| Prefixes.Network | aggregate_prefixes/aggregate_prefixes.py:65 | `ip_network(p, False)` gives a valid prefix of the requested length whose block holds the given address |
| Prefixes.NetworkUnique | aggregate_prefixes/aggregate_prefixes.py:65 | the network of a given length holding an address is the only valid prefix of that length holding it |
| Prefixes.Truncate | aggregate_prefixes/aggregate_prefixes.py:86-87 | the truncated prefix is valid and no longer than the original; its length is `truncate` when truncation applies (truncate non-zero and prefix longer); otherwise the prefix is unchanged |
| Prefixes.TruncateContains | aggregate_prefixes/aggregate_prefixes.py:86-87 | the truncated block contains the original prefix |
| Prefixes.TruncateMonotone | aggregate_prefixes/aggregate_prefixes.py:111-114 | truncation preserves the `(network address, prefix length)` order of two prefixes |
| Prefixes.NestedOrDisjoint | aggregate_prefixes/aggregate_prefixes.py:123-128 | a prefix whose network address lies in another's block, and is no shorter when both start at the same address, lies wholly inside it |
| Prefixes.BroadcastBound | aggregate_prefixes/aggregate_prefixes.py:127 | a valid block ends inside the address space, so `broadcast_address + 1` is evaluated only below the top address |
| Normaliser.Kept | aggregate_prefixes/aggregate_prefixes.py:63-67 | every kept prefix is valid (host bits masked) and no longer than `max_length` |
| Normaliser.KeptMembers | aggregate_prefixes/aggregate_prefixes.py:63-67 | a prefix is kept exactly when it is the masked network of some input entry no longer than `max_length` |
| Normaliser.Insert | aggregate_prefixes/aggregate_prefixes.py:62-68 | inserting into a sorted list gives a sorted list with the same elements plus the new one |
| Normaliser.Sort | aggregate_prefixes/aggregate_prefixes.py:62-68 | the result is sorted by `(network address, prefix length)` and is a permutation of the input |
| Normaliser.SortedPermutationUnique | aggregate_prefixes/aggregate_prefixes.py:68 | two sorted permutations of the same list are equal, so the sort result does not depend on sort stability |
| Normaliser.Normalise | aggregate_prefixes/aggregate_prefixes.py:62-69 | the normalised list is sorted, its prefixes are valid, and it is a permutation of the kept prefixes |
| Scanner.TruncateAllSorted | aggregate_prefixes/aggregate_prefixes.py:111-114 | truncating every prefix of a sorted valid list gives a sorted valid list |
| Scanner.ContiguousIncreasing | aggregate_prefixes/aggregate_prefixes.py:127-129 | in a run built by appending adjacent prefixes, every member ends before any later member starts |
| Scanner.TilesWithin | aggregate_prefixes/aggregate_prefixes.py:127-131 | every member of a contiguous run lies between the run's first network address and its last broadcast address |
| Scanner.TilesCover | aggregate_prefixes/aggregate_prefixes.py:127-131 | a contiguous run covers exactly the addresses from its first network address to its last broadcast address |
| Scanner.TilesReach | aggregate_prefixes/aggregate_prefixes.py:127-131 | every address between a contiguous run's first network address and its last broadcast address lies in one of its members |
| Scanner.TilesAppend | aggregate_prefixes/aggregate_prefixes.py:129 | appending a prefix that starts one past the run's end extends the run to that prefix's broadcast address |
| Scanner.BreakIsGap | aggregate_prefixes/aggregate_prefixes.py:123-128 | in sorted order, a candidate that is neither subsumed nor adjacent starts more than one address past the last member |
| Scanner.ScanRun | aggregate_prefixes/aggregate_prefixes.py:95-134 | `next_id > _id`. The run starts with the truncated `prefixes[_id]`, is contiguous, and consists of truncated prefixes from the scanned indices. Every scanned prefix lies inside the run's range. The prefix where the scan stops starts after a gap |
| Aggregator.FitsLonger | aggregate_prefixes/aggregate_prefixes.py:176-179 | if a tentative length passes the stop test, every longer length also passes it |
| Aggregator.Expand | aggregate_prefixes/aggregate_prefixes.py:161-180 | the aggregate keeps the anchor's network address, is valid, is no longer than the anchor and ends within the run; no shorter length passes the stop test |
| Aggregator.AggregateOfSingle | aggregate_prefixes/aggregate_prefixes.py:162-180 | when the run ends at the anchor's own broadcast address, the aggregate is the anchor unchanged |
| Aggregator.CoverScan | aggregate_prefixes/aggregate_prefixes.py:188-208 | `covered_id > contigous_id`; every skipped member starts at or below the aggregate's broadcast address; the next anchor starts above it |
| Aggregator.AggregateEndsAtCovered | aggregate_prefixes/aggregate_prefixes.py:188-208 | the aggregate's broadcast address equals that of the last member it covers |
| Aggregator.AggregateRun | aggregate_prefixes/aggregate_prefixes.py:137-210 | the aggregates of a run are contiguous, start at the run's first network address and end at its last broadcast address. None of them can be shortened while still starting at its network address and ending within the run. A run of one prefix emits that prefix unchanged |
| Aggregator.GreedyAppend | aggregate_prefixes/aggregate_prefixes.py:161-180 | appending a block that cannot be shortened within the run keeps every emitted block unshortenable |
| Aggregator.TilesAscending | aggregate_prefixes/aggregate_prefixes.py:177-180 | the aggregates of one run are strictly increasing and pairwise disjoint |
| Aggregator.AscendingAppend | aggregate_prefixes/aggregate_prefixes.py:134 | the aggregates of a later run, which starts after every earlier aggregate ends, keep the output ascending and disjoint |
| Aggregator.ScannedCover | aggregate_prefixes/aggregate_prefixes.py:122-131 | the prefixes one scan passes over, whether subsumed or appended, cover exactly the run's range |
| Aggregator.EarlierEndsBelow | aggregate_prefixes/aggregate_prefixes.py:75-134 | a prefix scanned in an earlier run ends below every bound that the aggregates emitted so far end below |
| Aggregator.GapUncovered | aggregate_prefixes/aggregate_prefixes.py:122-131 | the address right after a run's last broadcast address is covered by no prefix of the truncated input |
| Aggregator.MergedAppend | aggregate_prefixes/aggregate_prefixes.py:134 | a run's aggregates that cannot be shortened within the run, followed by an uncovered address, cannot be shortened within the whole input, so the output stays merged |
| Aggregator.RunStep | aggregate_prefixes/aggregate_prefixes.py:75-134 | one pass of the outer loop keeps the output ascending, ending below the next run, covering exactly the scanned prefixes, and merged |
| Aggregator.CoverStep | aggregate_prefixes/aggregate_prefixes.py:75-134 | after each pass of the outer loop, the output covers exactly what the prefixes scanned so far cover |
| Aggregator.AggregatePrefixes | aggregate_prefixes/aggregate_prefixes.py:37-215 | the output is valid, strictly ascending and pairwise disjoint, and covers exactly the addresses of the filtered, sorted, truncated input. No output block can be replaced by a shorter prefix at its network address without taking in an uncovered address |

## Left out

- Text parsing and formatting by the `ipaddress` library are not modelled. Input entries are already-parsed `(address, length)` pairs (`RawPrefix`). Output entries are `Prefix` values, not `"addr/len"` strings. A syntactically invalid entry (a parse error) is outside the model.
- Mixed IPv4/IPv6 batches are excluded by taking one width `w` (32 or 128) for the whole call. In the source such a batch fails only as a side effect of comparing across families inside `sorted`.
- A negative `truncate` is not modelled (`truncate` is a `nat`). The source passes it to `ip_network`, which raises an error.
- Generator laziness is not modelled. The aggregates are collected into a sequence in the order `yield` produces them.
- The inner loops are separate methods (`ScanRun`, `Expand`, `CoverScan`, `AggregateRun`). Each run's aggregates are appended to the output together, in the order they are yielded.
- Debug output to standard error is not modelled. It has no effect on the result.
- `bgp.py` is not part of this model. It reads a routing dump, writes a file and inserts into a database.
- Aggregator.AggregatePrefixes: idempotence and minimal cardinality are not stated. The contract says no output block can be shortened within the input's address space (`Merged`), but not that no smaller set of blocks covers the same addresses.
