# corekv skip list and block arena, modelled in Dafny

This project models two parts of the corekv key-value store:

- **The memtable's skip list** (`SkipList` in `src/db/skiplist.h`), in module `SkipList` (skiplist.dfy).
  - Nodes live in a pool `seq<Node>`. Index 0 is the head sentinel and -1 is the null link.
  - A node's height is the number of forward links it has.
  - The invariant `Valid` says the head has 20 levels and `cur_height_` is in [1, 20] and bounds every node's height. Keys are unique.
  - `Valid` also says every link at level `l` points at the level-`l` node with the next larger key, or is null when there is none.
  - From that invariant the model proves what the operations promise:
    - each search returns the node the comment above it describes;
    - `Insert` adds exactly one key, keeps the list valid, and leaves it unchanged for a key already present;
    - walking any level from the head lists that level's keys, each once, in increasing order.
- **The bump allocator `SimpleVectorAlloc`** (`src/memory/area.cpp`), in module `Arena` (arena.dfy).
  - Addresses are naturals. The address `malloc` returns for a new block is a parameter.
  - The model proves these properties:
    - the usage counter equals the blocks' size plus one pointer per block;
    - fast-path results are 8-aligned;
    - under the assumption that `malloc` returns fresh, 8-aligned blocks, the regions handed out lie in owned blocks and never overlap.

The comment at area.cpp:25-29 describes the waste of a block's leftover bytes, then says the project prevents it. The code does not prevent it: a small request that does not fit abandons the rest of the current block. The model follows the code (`Arena.SmallFallbackAbandonsLeftover`).

## Model

| member | source | states |
|---|---|---|
| SkipList.Equal | src/db/skiplist.h:79-81 | two keys are equal exactly when the comparator reports 0 |
| SkipList.Create | src/db/skiplist.h:212-220 | a fresh list has height 1 and no keys, satisfies the invariant, and has every head link null (see Findings) |
| SkipList.CreateAsWritten | src/db/skiplist.h:212-220 | the constructor as written gives a value only to head link 0, so links 1..19 are never written |
| SkipList.CreateAsWrittenLeavesHeadLinksUnset | src/db/skiplist.h:216-219 | the list the constructor builds as written breaks the invariant, because head link 1 was never written |
| SkipList.Next | src/db/skiplist.h:191-193 | in a valid list, reading a link gives that level's successor: null or a node on that level |
| SkipList.SetNext | src/db/skiplist.h:194-197 | writing a link changes that one link and no key, height or other link |
| SkipList.NewNode | src/db/skiplist.h:224-232 | a new node holding the key with room for `height` links; existing nodes are untouched |
| SkipList.KeyIsAfterNodeAsWritten | src/db/skiplist.h:89-91 | as written, the test holds when the key is below the node's key, which is the reverse of its name |
| SkipList.KeyIsAfterNode | src/db/skiplist.h:89-91 | corrected: holds exactly when the node exists and its key is below the searched key |
| SkipList.KeyIsAfterNodeAsWrittenIsReversed | src/db/skiplist.h:89-91 | for a node whose key differs from the searched key, the as-written and corrected tests always disagree; one concrete node shows it |
| SkipList.FindGreaterOrEqual | src/db/skiplist.h:93-115 | returns the node with the smallest key at or above `key` (null if none); on each level below the current height, `prev` records the last node with a key below `key` (or the head) |
| SkipList.FindGreaterOrEqualAsWritten | src/db/skiplist.h:89-115 | with the as-written test, the search returns null or a node whose key is at most `key`, reached by the level-0 link of the head or of a node above `key` |
| SkipList.AsWrittenSearchStopsEarly | src/db/skiplist.h:89-115 | on the list {1}, searching for 3 returns node 1 as written, while the corrected search returns null |
| SkipList.Contains | src/db/skiplist.h:75-78 | true exactly when the key is in the list |
| SkipList.FindLessThan | src/db/skiplist.h:117-135 | returns the node with the largest key below `key`, or the head when there is none |
| SkipList.FindLast | src/db/skiplist.h:137-147 | returns the node with the largest key; it is the head exactly when the list is empty |
| SkipList.RandomHeight | src/db/skiplist.h:234-242 | the height is 1 plus the number of leading draws divisible by 4, capped at 20; a draw that stops the loop is consumed, and none is drawn once the cap is reached |
| SkipList.DrawsGiveOneHeight | src/db/skiplist.h:234-242 | the random stream fixes the height and the number of draws taken |
| SkipList.LinkNewNode | src/db/skiplist.h:67-73 | the new node is appended; at each level below its height it takes its predecessor's old link and becomes that predecessor's link, and no other link changes |
| SkipList.SuccOfNewNode | src/db/skiplist.h:69 | each link of the new node, copied from its predecessor, is the new node's correct successor |
| SkipList.SuccOfPrev | src/db/skiplist.h:72 | after splicing, each predecessor's link to the new node is its correct successor |
| SkipList.SuccUnchanged | src/db/skiplist.h:68-73 | every link the splice does not touch still points at the correct successor |
| SkipList.SpliceKeepsValid | src/db/skiplist.h:68-73 | splicing a new key after its predecessors keeps the invariant |
| SkipList.SpliceAddsKey | src/db/skiplist.h:68-73 | splicing adds exactly the new key to the list, and to exactly the levels below its height |
| SkipList.SpliceAddsLevelKey | src/db/skiplist.h:68-73 | one level gains the new key exactly when the node's height reaches that level |
| SkipList.Insert | src/db/skiplist.h:45-74 | a key already present leaves the list unchanged; otherwise the key is added with a drawn height, the height is raised to it if larger, the head links the new levels to the node, and every old link is kept or redirected through the new node |
| SkipList.Walk | src/db/skiplist.h:140-146 | following one level's links from a node gives, in strictly increasing order, exactly the keys on that level beyond that node |
| SkipList.LevelKeys | src/db/skiplist.h:137-147 | walking a level from the head gives exactly that level's keys, strictly increasing |
| SkipList.BaseLevelHoldsKeys | src/db/skiplist.h:236 | every node is on level 0, so level 0 holds all the keys |
| SkipList.LevelsNested | src/db/skiplist.h:68 | a key on a level is also on every level below it |
| SkipList.InsertAll | src/db/skiplist.h:45-74 | inserting a sequence of keys one by one keeps the list valid and adds exactly those keys |
| SkipList.FourKeyScenario | src/db/skiplist.h:45-78 | after inserting 5, 1, 9, 3: 3 is found, 7 is not, a second insert of 5 is rejected, and level 0 reads 1, 3, 5, 9 |
| Arena.New | src/memory/area.cpp:6-9 | the constructor owns no blocks, has a null pointer and zero bytes remaining and usage, and satisfies the invariant |
| Arena.NewHasNoGrants | src/memory/area.cpp:6-9 | a fresh allocator has handed out nothing, which trivially keeps the no-overlap invariant |
| Arena.Slop | src/memory/area.cpp:40-45 | the padding is less than 8 and brings the pointer to a multiple of 8 |
| Arena.FootprintAppend | src/memory/area.cpp:65-66 | adding a block adds its size plus one pointer to the charged bytes |
| Arena.AllocateNewBlock | src/memory/area.cpp:62-68 | records the block, charges its size plus one pointer, returns the block's address and leaves the bump pointer alone |
| Arena.AllocateFallback | src/memory/area.cpp:20-36 | a request above 1024 bytes gets its own block and leaves the current block as is; a smaller one gets a new 4096-byte block, is carved from its start, and leaves 4096 minus the request free |
| Arena.Allocate | src/memory/area.cpp:38-60 | when the padded request fits, the result is 8-aligned, within 8 bytes of the pointer, and adds no block; otherwise the result is the fallback's; blocks and usage only grow |
| Arena.Deallocate | src/memory/area.cpp:16-19 | the allocator is left exactly as it was |
| Arena.FastPathShape | src/memory/area.cpp:50-55 | the fast path keeps the invariant and carves the result from the free range, ahead of what stays free |
| Arena.FastPathKeepsGrants | src/memory/area.cpp:50-55 | a fast-path result lies in an owned block and overlaps no earlier result and not the free range |
| Arena.DedicatedKeepsGrants | src/memory/area.cpp:21-24 | a dedicated-block result overlaps no earlier result and not the free range |
| Arena.StandardFallbackKeepsGrants | src/memory/area.cpp:30-35 | a result carved from a new standard block overlaps no earlier result and not the new free range |
| Arena.AllocateKeepsGrantsDisjoint | src/memory/area.cpp:38-60 | every region handed out lies in an owned block and overlaps no region handed out before, if each new block is fresh and aligned |
| Arena.DeallocateNeverReclaims | src/memory/area.cpp:16-19 | a region passed to Deallocate is never overlapped by the next allocation |
| Arena.SmallFallbackAbandonsLeftover | src/memory/area.cpp:25-35 | when a small request does not fit, the new free range ends with the new block, and the bytes left in the old block join the regions the no-overlap invariant keeps clear of the free range and of every later grant (so with `AllocateKeepsGrantsDisjoint` no later call hands them out) |

## Left out

- Atomics and memory orderings: `Next`/`SetNext` and their `NoBarrier_` variants, and the relaxed loads and stores of `cur_height_` and `memory_usage_`, are plain reads and writes. Concurrent readers are not modelled.
- Logging: the `LOG(WARN, ...)` on a duplicate key and the `std::cout` in the allocator's constructor are output only.
- The random generator: `RandomUtil`'s internals are not part of this model. Its draws are an input stream `rnd`, and the list counts how many draws it has taken.
- SkipList.FindGreaterOrEqual, SkipList.FindLessThan, SkipList.FindLast, SkipList.Contains, SkipList.Insert, SkipList.InsertAll, SkipList.Walk, SkipList.LevelKeys, SkipList.FourKeyScenario: these use the corrected `KeyIsAfterNode` and assume the ascending order that only it maintains (see Findings).
  - As written, `Insert` would keep every level in decreasing key order.
  - `FindGreaterOrEqual` would return the first node whose key is at most the target; `FindGreaterOrEqualAsWritten` and `AsWrittenSearchStopsEarly` show this on a one-node list.
  - `FindLessThan` would return the head whenever the largest key is at least the target.
  - `FindLast` would return the smallest key.
  - The 5, 1, 9, 3 scenario would read 9, 5, 3, 1 at level 0.
  - `Contains` would still be right, because it only tests equality.
  - These as-written consequences other than the search's are reasoned from the code and not proved.
- Keys and comparator: the key type and comparator are template parameters. The model fixes them to `int` with the usual three-way comparison.
- Node memory: `NewNode` places nodes in the arena. The model uses a pool index in place of the address, and does not model the byte count it requests (`sizeof(Node)` plus one pointer per extra level).
- Null `prev`: `Contains` passes a null `prev` to `FindGreaterOrEqual`. The model always fills `prev`, and `Contains` throws it away.
- Arena.Allocate: the request is `uint32_t`, and `bytes + slop` could wrap. The model instead requires `bytes + 8 <= 2^32`, so it does not model the wrap.
- Arena outside area.cpp: freeing blocks in the destructor, a `malloc` that fails, and `src/memory/area.h` (the declarations and the `MemoryUsage` accessor) are not part of this model.
- `malloc`: the block address is a parameter. The no-overlap lemmas assume it is non-null, 8-aligned and clear of every owned block, which is what a successful `malloc` guarantees.
- Target width: a 64-bit target is fixed. The alignment (`max(sizeof(void*), 8)` at area.cpp:40) and the per-block charge (`sizeof(char*)` at area.cpp:65) are both 8 bytes. On other targets they would differ.

## Findings

| source | as written | input that shows it | evidently intended | confidence | as-written member | corrected member |
|---|---|---|---|---|---|---|
| src/db/skiplist.h:89-91 | `KeyIsAfterNode` tests `Compare(key, n->key) < 0`, which holds when the key is below the node's key | a node with key 1 and a search for key 3: as written 3 is not "after" 1, so the search stops in front of 1 | `Compare(n->key, key) < 0`: the node's key is below the searched key. This matches the comment at line 101, the test in `FindLessThan` at line 122, and LevelDB | not executed | SkipList.KeyIsAfterNodeAsWritten, SkipList.KeyIsAfterNodeAsWrittenIsReversed, SkipList.FindGreaterOrEqualAsWritten, SkipList.AsWrittenSearchStopsEarly | SkipList.KeyIsAfterNode |
| src/db/skiplist.h:214-219 | the constructor nulls only the head links below `cur_height_`, which is level 0 alone | the first insert that draws height 2 or more copies head link 1, which was never written, into its new node | every one of the head's 20 links starts null | not executed | SkipList.CreateAsWritten, SkipList.CreateAsWrittenLeavesHeadLinksUnset | SkipList.Create |
