# A verified model of a set-associative cache hierarchy simulator

`cache.c` simulates the memory hierarchy of a processor:

- a split first level: an instruction cache (I$) and a data cache (D$);
- a unified second-level cache (L2);
- a main memory with a fixed latency.

Each level is configured by a number of sets, an associativity and a hit
time. A level with zero sets is absent, and its accesses go straight to the
level below. A 32-bit address is split into block offset, set index and
tag. The widths of these fields are the ceiling of log2 of the block size
and of the set count.

Each set is an LRU queue:

- a hit moves the block to the most recently used end;
- a miss brings a new block in at that end, first dropping the least
  recently used block if the set is full.

Misses cascade from an L1 cache to the L2 and from the L2 to memory. Each
level counts its references, its misses and the penalty cycles it waited
for. With the `inclusive` option, an L2 eviction also removes the evicted
block from the I$ and the D$ (back-invalidation).

The model is functional:

- The configuration is a `Config`. The three caches with their nine
  counters are a `State`.
- A set is a `seq<Block>` with the LRU block at index 0 and the MRU block
  at the end.
- `L1Access` models `icache_access` and `dcache_access`, which differ only
  in the cache they use. `L2Access` models `l2cache_access`. Each is a pure
  function from a state and an address to an `Outcome`: the latency and the
  next state.

Addresses are natural numbers below 2^32. Masks, shifts and `uint32_t`
wrap-around are written out in the module `Bits`.

Modules, in dependency order:

| module | file | contents |
|---|---|---|
| `Bits` | bits.dfy | powers of two, integer log2 and the field width, shifts and masks, 32-bit wrap |
| `Address` | address.dfy | decoding an address into fields; the block address rebuilt by the inclusion step |
| `LruSet` | lru_set.dfy | one set: find, pop-front, push-rear, pop-at, promote, insert, invalidate |
| `LruOrder` | lru_order.dfy | runs of accesses to one set: the LRU eviction and promotion checks |
| `Hierarchy` | hierarchy.dfy | configuration, state, `Init`, `L2Access`, `L1Access`, the invariant |
| `Properties` | properties.dfy | the effect of a hit, a miss and a bypass at each level; inclusion |
| `Preservation` | preservation.dfy | every access keeps the invariant; counters after any trace |
| `Checks` | checks.dfy | per-access LRU, inclusion on and off, a bypassed cache never counts |
| `Scenarios` | scenarios.dfy | concrete runs: the worked example, a miss in both levels, a D$ hit |

## Model

| member | source | states |
|---|---|---|
| `Bits.Width` | cache.c:183-193 | The field width for n values is the ceiling of log2 n: n <= 2^w, and 2^(w-1) < n when w > 0. |
| `Bits.WidthIsLeast` | cache.c:188-193 | No narrower width holds the configured count: every k with n <= 2^k is at least `Width(n)`. |
| `Bits.WidthOfPow2` | cache.c:183-184 | For an exact power of two the log2 correction adds nothing: `Width(2^k) == k`. |
| `Bits.LowIsMod` | cache.c:185 | Masking with `(1 << n) - 1` keeps the remainder modulo 2^n. |
| `Bits.ShrIsDiv` | cache.c:281 | A right shift by n is the quotient by 2^n. |
| `Bits.Shl32IsMul` | cache.c:381 | A `uint32_t` left shift by k is the product by 2^k modulo 2^32. |
| `Address.Decode` | cache.c:279-281 | The decoded offset is below 2^offset_size and the index below 2^index_size. |
| `Address.DecodeDivMod` | cache.c:318-320 | Offset, index and tag are addr mod 2^o, (addr div 2^o) mod 2^i and addr div 2^(o+i). |
| `Address.DecodeRecompose` | cache.c:359-361 | The three fields put back together give the address again. |
| `Address.DecodeTagBound` | cache.c:361 | The tag of a 32-bit address fits in the 32 - o - i bits above offset and index. |
| `Address.DecodeUnique` | cache.c:237-239 | Decoding inverts composition: an address written from in-range tag, index and offset decodes to exactly those fields. |
| `Address.BlockAddressExact` | cache.c:381 | For a tag and index taken from a 32-bit address, the rebuilt address `((tag << i) + index) << o` does not wrap: it is (tag * 2^i + index) * 2^o. |
| `Address.BlockAddressRoundTrip` | cache.c:378-383 | The rebuilt block address decodes back to the same tag and index at offset 0. |
| `Address.DecodeSameBlock` | cache.c:254-256 | Two addresses that agree above the offset bits have the same index and tag. |
| `Address.BaseInSameBlock` | cache.c:381-383 | An address and the base of its L2 block decode to the same index and tag under an L1 geometry with the same block size. |
| `LruSet.Find` | cache.c:285-292 | The scan returns the first position whose tag matches, and none exactly when the tag is absent. |
| `LruSet.PopFront` | cache.c:112-124 | Pop-front drops the LRU block, and an empty set stays empty. |
| `LruSet.PushRear` | cache.c:127-141 | Push-rear appends the block as the MRU block and keeps the others in place. |
| `LruSet.PopAt` | cache.c:200-233 | Pop-at returns the block at position i; the others keep their order and close the gap. |
| `LruSet.PopAtReinsert` | cache.c:204-226 | Putting the popped block back at its position restores the set. |
| `LruSet.Promote` | cache.c:286-288 | A hit keeps the set's size, puts the hit block last and shifts the later blocks forward one place. |
| `LruSet.PromotePermutes` | cache.c:326-327 | Promotion is a permutation of the set. |
| `LruSet.PromoteKeepsTags` | cache.c:367-368 | Promotion keeps the resident tags, and distinctness holds after exactly when it held before. |
| `LruSet.PromoteKeepsWellFormed` | cache.c:367-368 | Promotion keeps a set within its associativity, with distinct, valid and clean blocks. |
| `LruSet.Insert` | cache.c:299-303 | The new block becomes the MRU block. Exactly the LRU block goes when the set was full; otherwise nothing goes. |
| `LruSet.InsertIsSuffix` | cache.c:341-343 | An insertion keeps a suffix of the set, missing one block when the set was full, and appends the new block. |
| `LruSet.InsertKeepsWellFormed` | cache.c:376-388 | Inserting an absent tag keeps the set within its associativity and keeps its tags distinct. |
| `LruSet.InsertTags` | cache.c:301-303 | After an insertion the resident tags are the old ones plus the new one, less the front tag exactly when the set was full. |
| `LruSet.Invalidate` | cache.c:253-268 | Invalidating a resident tag unlinks the first block with that tag, front to rear: at that position i the result is `s[..i] + s[i + 1..]`, so the other blocks keep their order. With distinct tags no copy of the tag remains. No other tag appears or disappears; a set without the tag is unchanged. |
| `LruSet.InvalidateKeepsWellFormed` | cache.c:243-250 | Invalidation keeps a set well formed. |
| `LruOrder.Touch` | cache.c:285-303 | After one access the tag is resident and is the MRU block; a hit keeps the set's size. |
| `LruOrder.FillInOrder` | cache.c:336-343 | Up to the associativity, distinct blocks fill an empty set in arrival order. |
| `LruOrder.KeepsRecent` | cache.c:322-343 | Whatever a well-formed set held before, a run of n distinct accesses keeps it well formed, and its last min(n, assoc) blocks are fresh blocks for the latest min(n, assoc) accesses, in arrival order. |
| `LruOrder.EvictsLeastRecent` | cache.c:322-343 | Whatever a well-formed set held before, after assoc + 1 distinct blocks it holds exactly the last assoc blocks in order: the first is gone and all the others are resident. |
| `LruOrder.PromotionProtects` | cache.c:322-343 | Whatever a well-formed set held before, after assoc distinct blocks, touching the first block again makes block assoc + 1 evict the second block instead; the first stays resident, and the set's exact order is stated. |
| `Hierarchy.SetCount` | cache.c:188-196 | The sets a level's index can address cover the configured count and are fewer than twice it. |
| `Hierarchy.FieldsOf` | cache.c:318-320 | Every decoded index names one of the level's sets. |
| `Hierarchy.Init` | cache.c:146-197 | Initialisation satisfies the hierarchy invariant: every counter is zero and every set empty. |
| `Hierarchy.Empty` | cache.c:170-175 | A freshly initialised level has one empty set per index and zero counters. |
| `Hierarchy.EmptyOk` | cache.c:163-182 | An initialised level is a valid level state. |
| `Hierarchy.InvalidateLevel` | cache.c:236-251 | Invalidation in a present L1 cache applies `LruSet.Invalidate` to the address's set: the first block with the tag is unlinked and the rest keep their order. With distinct tags the tag is gone; no other tag changes, no other set changes, and nothing is added. |
| `Hierarchy.BackInvalidate` | cache.c:379-384 | The inclusion step leaves the L2 alone and only removes blocks from the I$ and the D$. |
| `Hierarchy.L2Access` | cache.c:351-392 | An L2 access costs at most memory latency plus L2 hit time. It keeps every set count, never lowers an L2 counter, and only removes blocks from the L1 caches. Each path is stated exactly by `Properties.L2Bypass`, `Properties.L2Hit` and `Properties.L2Miss`. |
| `Hierarchy.L1Access` | cache.c:272-306 | An I$ or D$ access keeps every set count and never lowers any counter. Each path is stated exactly by `Properties.L1Bypass`, `Properties.L1Hit` and `Properties.L1Miss`. |
| `Hierarchy.L1Fill` | cache.c:294-305 | Finishing an L1 miss keeps the state shaped, leaves the L2 and the other L1 cache exactly as the L2 access left them, and no counter of either L1 cache goes down. |
| `Properties.SetCountCoversConfigured` | cache.c:188-193 | A power-of-two configured count is used exactly. |
| `Properties.IndexOverrunAsWritten` | cache.c:159-161 | As written, 3 sets with 1-byte blocks let address 3 select set 3, past the 3 sets allocated. |
| `Properties.L2AccessIgnoresL1Counters` | cache.c:294-297 | The L2 access gives the same latency, L2 and L1 sets whatever the L1 counters, and passes those counters through. So counting the L1 reference and miss before or after the L2 call is the same. |
| `Properties.L2Bypass` | cache.c:354-356 | An absent L2 costs the memory latency and changes nothing. |
| `Properties.L2Hit` | cache.c:365-370 | An L2 hit costs the L2 hit time and counts only a reference. The first block the scan finds with the tag moves to the MRU end (`Promote` at that position); no other set or cache changes. |
| `Properties.L2Miss` | cache.c:374-391 | An L2 miss costs memory latency plus hit time and counts a reference, a miss and exactly memspeed penalty cycles. The new block is MRU, the LRU block goes exactly when the set was full, and the L1 caches change only for a full set with inclusion on. |
| `Properties.InclusionOffLeavesL1` | cache.c:378-387 | With inclusion off, an L2 access never touches the I$ or the D$. |
| `Properties.InclusionEnforced` | cache.c:378-385 | With inclusion on, an L2 miss on a full set evicts the front tag from the L2. In a present L1 cache it unlinks the first block of the evicted block's address, at the position the scan finds, so the set's other blocks keep their order. A set without that block is unchanged, the block is no longer resident, and every other set is as it was. |
| `Properties.EvictedAddressIsBase` | cache.c:381 | The address the inclusion step rebuilds is the exact base address of the evicted block, and it decodes back to its tag and index. |
| `Properties.L1Bypass` | cache.c:274-276 | An access to an absent L1 cache is the L2 access and leaves that L1 cache untouched. |
| `Properties.L1Hit` | cache.c:285-290 | An L1 hit costs the hit time and counts only a reference. The first block the scan finds with the tag moves to the MRU end (`Promote` at that position); no other set, cache or the L2 changes. |
| `Properties.L1Miss` | cache.c:333-345 | An L1 miss costs the L2 latency plus the hit time and counts a reference and a miss. The penalty is exactly the L2 latency, and the block is inserted at the MRU end of its set as the L2 access left it. |
| `Properties.RepeatedL1AccessHits` | cache.c:285-305 | Right after any access to an address, its block is resident in that L1 cache. A second access hits: hit latency, one more reference, no new miss or penalty, and the L2 is untouched. |
| `Properties.RepeatedL2AccessHits` | cache.c:365-391 | Right after any L2 access to an address, its block is resident in the L2. A second access hits: hit latency, one more reference, no new miss or penalty, and both L1 caches are untouched. |
| `Preservation.TagFits` | cache.c:361 | Every decoded tag is below the level's tag limit. |
| `Preservation.L2HitKeepsOk` | cache.c:365-370 | An L2 hit keeps the L2 valid. |
| `Preservation.L2MissKeepsOk` | cache.c:374-388 | An L2 miss keeps the L2 valid. |
| `Preservation.L2AccessKeepsL1Ok` | cache.c:378-384 | An L2 access, back-invalidation included, keeps each L1 cache valid. |
| `Preservation.L2AccessKeepsPenalties` | cache.c:390 | The L2 penalties stay its misses times the memory latency. |
| `Preservation.L2PreservesInvariant` | cache.c:351-392 | Every L2 access keeps the hierarchy invariant. |
| `Preservation.L1HitKeepsInvariant` | cache.c:324-329 | An L1 hit keeps the hierarchy invariant. |
| `Preservation.L1MissKeepsInvariant` | cache.c:333-345 | An L1 miss keeps the hierarchy invariant. |
| `Preservation.L1PreservesInvariant` | cache.c:272-306 | Every access keeps the hierarchy invariant. |
| `Preservation.L2MissEvictsLeastRecent` | cache.c:376-388 | After an L2 miss the set stays within its associativity with distinct tags. It holds exactly the new tag and the old tags, less the LRU tag when the set was full. |
| `Preservation.L1MissEvictsLeastRecent` | cache.c:299-303 | The same for an L1 miss, relative to the set as the L2 access left it. |
| `Preservation.RunKeepsInvariant` | cache.c:311-346 | The invariant holds after any trace of accesses. |
| `Preservation.CountersAfterAnyTrace` | cache.c:146-157 | After any trace from the initial state, at every level misses <= refs and an absent level has counted nothing. L2 penalties = L2 misses * memspeed, and every L2 set is within its associativity with distinct tags. |
| `Checks.L2AccessTouches` | cache.c:363-388 | An L2 access acts on its set as one LRU `Touch` and on no other set. |
| `Checks.L1AccessTouches` | cache.c:322-343 | Without inclusion, an L1 access acts on its set as one LRU `Touch` and on no other set. |
| `Checks.InclusionRemovesVictim` | cache.c:378-384 | With inclusion on, when an L2 miss evicts the block of an address, an L1 access to that address right after misses. |
| `Checks.SameBlockAsBase` | cache.c:381-383 | An address and its rebuilt L2 block address fall into the same L1 set with the same tag. |
| `Checks.NoInclusionKeepsResident` | cache.c:379 | Without inclusion, an L1 block stays resident across any L2 access. |
| `Checks.AccessKeepsAbsentL1` | cache.c:313-315 | No access changes an absent L1 cache. |
| `Checks.BypassNeverCounts` | cache.c:274-276 | A zero-set L1 cache never counts a reference, miss or penalty and never holds a block, whatever the trace. |
| `Scenarios.ExampleGeometry` | cache.c:183-196 | 64-byte blocks give 6 offset bits, and 4 sets give 2 index bits and exactly 4 sets. |
| `Scenarios.DataMissBoth` | cache.c:333-345 | A D$ access that misses in both levels costs memspeed + L2 hit + D$ hit. Both levels count a reference and a miss and insert the block at the MRU end. |
| `Scenarios.DataHitAlone` | cache.c:324-329 | A D$ hit on a set holding only that block costs the hit time and changes only the reference count. |
| `Scenarios.FillStep` | cache.c:311-346 | In the worked example, reading block k misses in both levels at 111 cycles and fills set k. |
| `Scenarios.LastStep` | cache.c:324-329 | In the worked example, re-reading address 0x0 hits in the D$ at 1 cycle. |
| `Scenarios.EndToEndExample` | cache.c:311-392 | The worked example has 64-byte blocks, a 4-set 2-way D$ and a 4-set 4-way L2, and reads addresses 0x0, 0x40, 0x80, 0xC0 and 0x0. With 6 offset bits and 2 index bits, the four blocks fall into D$ sets 0, 1, 2 and 3, so the run is 4 misses and then a hit. It goes from the initial state to a state with 5 D$ references, 4 D$ misses and 440 D$ penalty cycles; 4 L2 references, 4 L2 misses and 400 L2 penalty cycles; and tag 0 in every D$ set. |

## Left out

- Memory management is not modelled: `malloc`, `free`, `create_cache_block`
  and the `prev_blk`/`next_blk` pointer surgery. Each set is a sequence, and
  the lemmas state the sequence-level effect of each list operation.
- The floating-point `log2` is replaced by the integer `FloorLog2`, the
  exact truncated logarithm that the cast `(uint32_t)log2(n)` stands for.
  The block size must be at least 1, because log2(0) is not a number.
- `Hierarchy.ValidConfig` asks each present level for an associativity of
  at least 1. It also asks that offset plus index bits be at most 31. With
  32 bits, the C shift `addr >> (index + offset)` is undefined. With
  associativity 0, a set that holds a block is never full, so it grows
  without bound. With inclusion on, the L2 path then also dereferences the
  null front pointer of an empty set.
- `Hierarchy.L1Access`, `Hierarchy.L2Access`: counters and latencies are
  unbounded naturals. They do not model the wrap-around of the C
  `uint64_t` counters or the `uint32_t` latencies. A latency wraps only
  beyond 2^32 cycles for one access; a reference or miss counter only
  after 2^64 accesses; a penalty counter, which adds up to 2^32 - 1
  cycles per miss, only after 2^64 penalty cycles, that is after at
  least about 2^32 misses.
- `Hierarchy.L1Fill`: counts the reference and the miss after the L2 call,
  while the C code counts them before it. The L2 path never reads or
  writes the L1 counters, so the resulting state is the same.
  `Properties.L2AccessIgnoresL1Counters` proves this.
- `Hierarchy.InvalidateLevel`: with inclusion on and an absent L1 cache,
  the C code computes an index with an undefined width and scans a
  zero-length array. The model treats this case as a no-op.
- `LruSet.PopAt`: requires `i < |s|`. The C guard `index > set->size`
  also lets `index == size` through, but no caller passes it; every caller
  passes a position found by the scan.
- The `dirty` field is carried but never set or read. The `valid` field
  is always 1. Neither affects behaviour.
- There is no hit counter. Hits are references minus misses.
- The student-identity globals and the unused `offset` locals are not
  modelled.
- `Properties.InclusionEnforced`: requires the hierarchy invariant, while
  the C code runs without it. The invalidation loop removes only the first
  matching block, so "the block is gone" holds only with distinct tags. The
  invariant holds from `Init` on (`Preservation.RunKeepsInvariant`).

## Findings

| source | as written | input that shows it | evidently intended | confidence | as-written member | corrected member |
|---|---|---|---|---|---|---|
| cache.c:159-161 | `init_cache` allocates exactly `icacheSets` (likewise D$ and L2) sets. The index mask is `ceil(log2 n)` bits wide, so for a set count that is not a power of two, an index can reach 2^bits - 1 >= n. | I$ with 3 sets, 1-way, block size 1, address 3: the index is 3, one past the allocated array. | Every index the mask can produce names an allocated set. The model allocates 2^bits sets; `Hierarchy.FieldsOf` proves that every index is below that count. | not executed (proved about the model) | `Properties.IndexOverrunAsWritten` | `Hierarchy.SetCount` |
