# Markov prefetcher

A model of gem5's Markov cache prefetcher (`MarkovPrefetcher` in
`mem/cache/prefetch/markov.cc`). On every cache miss the prefetcher

1. ignores the miss when its address equals the previous miss address;
2. records the missing block as the most recent successor of the previous
   miss, in the previous miss's entry of a fixed table (a hit in the entry's
   successor list is moved to the front, otherwise the last successor is
   evicted and the block is pushed at the front);
3. remembers the raw miss address as the new previous miss;
4. walks the `degree` successors of the current miss's entry and issues each
   non-empty one on the same page as the missing block with priority
   `degree - 1 - d` (`d` its slot), counting the other non-empty ones as
   page crossings in `pfSpanPage`.

The table has `num_entries` entries, each a list of exactly `degree` block
addresses where 0 marks an empty slot. An address's entry is its block
number modulo `num_entries`.

Modules:

- `Addressing`: addresses, block addresses and table indices, and a
  bit-level `BitAnd` that ties the source's masks to division and remainder.
- `SuccessorList`: one entry's successor list and its update rule
  `MoveToFront`.
- `Candidates`: the walk over a list's slots (`Issued`, `SpanCount`).
- `MarkovSpec`: the prefetcher as a state machine over values (`Initial`,
  `Learn`, `OnMiss`, `Run`) and the properties of one call and of a run.
- `Markov`: the class `MarkovPrefetcher`, whose table is an array of
  successor lists updated in place; its constructor and `CalculatePrefetch`
  are proved to produce exactly the states and candidates of `MarkovSpec`.

Two misses at different addresses can share a table entry. With degree 2,
four entries and 64-byte blocks, 0x100 and 0x200 have block numbers 4 and 8,
and both map to entry 0. So for the misses 0x100, 0x200, 0x100, the second
call already sees the successor it has just learned. With 4 KiB pages the
calls return `[]`, `[(0x200, 1)]` and `[(0x100, 1), (0x200, 0)]`, and entry 0
ends as `[0x100, 0x200]` (`MarkovSpec.ThreeMissScenario`,
`Markov.ThreeMissClient`).

## Model

| member | source | states |
|---|---|---|
| Markov.MarkovPrefetcher.constructor | mem/cache/prefetch/markov.cc:39-51 | The table has `num_entries` entries, each a list of `degree` empty slots; there is no previous miss and the counter is 0 (the state is `MarkovSpec.Initial`). |
| Markov.MarkovPrefetcher.CalculatePrefetch | mem/cache/prefetch/markov.cc:53-124 | The new table, previous miss and counter are those of `MarkovSpec.OnMiss`; the candidates of `OnMiss` are appended after the caller's existing `addresses`; the table stays well formed. |
| Markov.MarkovPrefetcher.IssueCandidates | mem/cache/prefetch/markov.cc:101-116 | The slot walk appends exactly `Issued(lst, ..., degree)` after the existing candidates and adds `SpanCount(lst, ..., degree)` to `pfSpanPage`. |
| Markov.FindSuccessor | mem/cache/prefetch/markov.cc:70-78 | The flag is set if and only if the block is in the list, and the iterator then points at its first occurrence. |
| SuccessorList.Zeros | mem/cache/prefetch/markov.cc:47 | A resized list has `degree` slots, all empty. |
| SuccessorList.IndexOf | mem/cache/prefetch/markov.cc:72-78 | The first position holding the address: it holds it and no earlier slot does. |
| SuccessorList.MoveToFront | mem/cache/prefetch/markov.cc:80-91 | The updated list keeps its length and has the confirmed block at its front. |
| SuccessorList.MoveToFrontHitPermutes | mem/cache/prefetch/markov.cc:80-86 | On a hit the list is only reordered: the same multiset of addresses. |
| SuccessorList.MoveToFrontMissEvictsLast | mem/cache/prefetch/markov.cc:87-91 | On a miss the last slot leaves the list and the new block enters it. |
| SuccessorList.MoveToFrontPlacesSlot | mem/cache/prefetch/markov.cc:80-91 | Every slot that survives the update (it is neither the spliced hit nor, on a miss, the evicted last slot) lands at its `NewPosition` behind the front: one slot back, or in place when it lies behind the spliced hit. |
| SuccessorList.MoveToFrontKeepsOrder | mem/cache/prefetch/markov.cc:80-91 | Two surviving slots keep their relative order; with the block at the front this fixes the whole updated list. |
| SuccessorList.EmptyBlockExample | mem/cache/prefetch/markov.cc:74-86 | A block-0 miss hits the first empty slot: `[a, 0, 0]` becomes `[0, a, 0]`. |
| SuccessorList.MoveToFrontPreservesDistinct | mem/cache/prefetch/markov.cc:70-91 | The update keeps the non-empty addresses of a list pairwise distinct. |
| SuccessorList.MoveToFrontIdempotent | mem/cache/prefetch/markov.cc:70-91 | Confirming the same block twice in a row leaves the list as after the first time. |
| SuccessorList.PromotionExample | mem/cache/prefetch/markov.cc:83-86 | `[a, b, c]` confirming `b` becomes `[b, a, c]`. |
| SuccessorList.EvictionExample | mem/cache/prefetch/markov.cc:89-90 | `[a, b]` confirming a new `c` becomes `[c, a]`. |
| Candidates.IssuedSound | mem/cache/prefetch/markov.cc:101-116 | At most one candidate per slot; each is a non-empty address on the block's page whose priority names the slot holding it; priorities lie in range and strictly decrease along the output. |
| Candidates.IssuedComplete | mem/cache/prefetch/markov.cc:101-116 | Every non-empty slot `d` on the block's page is issued with priority `len - 1 - d`. |
| Candidates.IssuedOrSpanned | mem/cache/prefetch/markov.cc:105-110 | Each non-empty slot is either issued or counted as a page crossing: issued plus counted equals non-empty. |
| Candidates.IssuedAllOnPage | mem/cache/prefetch/markov.cc:101-116 | A list whose slots are all non-empty and on the page is issued in slot order, one candidate per slot, with no crossing counted. |
| Candidates.PriorityExample | mem/cache/prefetch/markov.cc:110 | Three slots on the page give priorities 2, 1, 0 in slot order. |
| Candidates.EmptyListIssuesNothing | mem/cache/prefetch/markov.cc:105 | Empty slots issue nothing and count nothing. |
| MarkovSpec.Initial | mem/cache/prefetch/markov.cc:44-50 | The initial state is well formed, with every slot empty, no previous miss and a zero counter. |
| MarkovSpec.Learn | mem/cache/prefetch/markov.cc:66-92 | Learning keeps the table well formed and changes no entry other than the previous miss's, and none when there is no previous miss. |
| MarkovSpec.OnMiss | mem/cache/prefetch/markov.cc:57-116 | A miss equal to the previous miss changes nothing and issues nothing; any other miss becomes the previous miss; the table stays well formed. |
| MarkovSpec.Run | mem/cache/prefetch/markov.cc:53-124 | A run of misses keeps the table well formed, yields one candidate list per miss and never decreases the counter. |
| MarkovSpec.OnMissSpanGrows | mem/cache/prefetch/markov.cc:106-108 | One call never decreases `pfSpanPage`. |
| MarkovSpec.OnMissRepeatIsNoOp | mem/cache/prefetch/markov.cc:57-58 | Reporting the same address twice in a row: the second call changes nothing and issues nothing. |
| MarkovSpec.OnMissLearnsOneEntry | mem/cache/prefetch/markov.cc:66-91 | Only the previous miss's entry changes, only when the call passes the guard and there is a previous miss; that entry becomes the old list moved to front, with the missing block first and `degree` slots. |
| MarkovSpec.OnMissIssuedSound | mem/cache/prefetch/markov.cc:95-116 | At most `degree` candidates; each is a non-empty address on the block's page, read from the current miss's entry after learning, at slot `degree - 1 - priority`; priorities lie in `[0, degree - 1]` and strictly decrease. |
| MarkovSpec.OnMissSeesOwnLearning | mem/cache/prefetch/markov.cc:66-110 | The candidates are read from the current miss's entry as the call leaves it: when the previous miss maps to the same entry, that is the old list with the block just moved to its front; otherwise it is the old list unchanged. |
| MarkovSpec.OnMissIssuedComplete | mem/cache/prefetch/markov.cc:101-116 | Every non-empty slot `d` of the current miss's entry on the block's page is issued with priority `degree - 1 - d`. |
| MarkovSpec.OnMissCountsCrossings | mem/cache/prefetch/markov.cc:105-110 | The counter grows by exactly the non-empty slots of the current miss's entry that are not issued. |
| MarkovSpec.SameBlockSelfSuccessor | mem/cache/prefetch/markov.cc:57-110 | Two consecutive misses at different bytes of one block make that block its own most recent successor; it is issued at once with the top priority when it lies on its own page. |
| MarkovSpec.ScenarioFirstMiss | mem/cache/prefetch/markov.cc:66 | The first miss of a fresh prefetcher learns nothing and issues nothing. |
| MarkovSpec.ScenarioSecondMiss | mem/cache/prefetch/markov.cc:87-110 | The second miss is pushed into the shared entry 0 and issued at once with priority 1. |
| MarkovSpec.ScenarioThirdMiss | mem/cache/prefetch/markov.cc:87-110 | The third miss is pushed in front of the second and both are issued, with priorities 1 and 0. |
| MarkovSpec.ThreeMissScenario | mem/cache/prefetch/markov.cc:53-124 | Misses 0x100, 0x200, 0x100 on degree 2, four entries, 64-byte blocks and 4 KiB pages issue `[]`, `[(0x200, 1)]`, `[(0x100, 1), (0x200, 0)]`. |
| Addressing.BlockAddr | mem/cache/prefetch/markov.cc:60 | The block address is at most the address and less than one block below it. |
| Addressing.TableIndex | mem/cache/prefetch/markov.cc:67-68 | The index is a valid entry of the table. |
| Addressing.IndexIsMask | mem/cache/prefetch/markov.cc:67-68 | Masking the block number with `num_entries - 1` equals the block number modulo `num_entries` for a power-of-two table. |
| Addressing.BlockAddrIsMask | mem/cache/prefetch/markov.cc:60 | Masking a `w`-bit address with `~(blkSize - 1)` equals clearing its offset within the block. |
| Addressing.BlockAddrIsMask64 | mem/cache/prefetch/markov.cc:60 | The same for 64-bit addresses. |
| Addressing.BlockAddrAligned | mem/cache/prefetch/markov.cc:60 | A block address is a multiple of the block size and its own block address. |
| Addressing.IndexIgnoresBlockOffset | mem/cache/prefetch/markov.cc:96-97 | Indexing with the raw address or its block address gives the same entry. |
| Addressing.SameBlockSameIndex | mem/cache/prefetch/markov.cc:67-68 | Two addresses in one block share an entry. |

## Left out

- Debug output (`DPRINTF`): it has no effect on the state.
- The `QueuedPrefetcher` base class, packets, the prefetch queue and `MarkovPrefetcherParams::create`: the model takes the miss address and the caller's candidate list directly, and the base's `blkSize` and `lBlkSize` become configuration.
- `samePage`: it belongs to the base class, so the model takes it as a parameter of the prefetcher.
- The `currentAddress` tag and the commented-out tag check: the tag is written once and never read.
- The statistics framework: `pfSpanPage` is a plain natural-number counter.
- Addresses are unbounded naturals; the 64-bit width only matters for the block mask, which `Addressing.BlockAddrIsMask64` relates to the model.
- The constructor requires `degree > 0`, because `pop_back` on an empty list is undefined, and a power-of-two `num_entries`, because the index mask is only a modulo then.
- The candidate walk is its own method, `IssueCandidates`, called at the end of `CalculatePrefetch`.
- The table's linked lists are modelled as sequences that are reassigned. Iterator aliasing inside one list is not modelled.
