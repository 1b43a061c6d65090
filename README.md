# 8-puzzle search drivers and their containers

This project models the core of a solver for the 3 by 3 sliding-tile puzzle (the 8-puzzle).
A state (`Map`) is nine tiles stored row by row, with tile 0 standing for the blank, plus the index of the blank.
A search returns the moves of the blank as a string over `U`, `R`, `D`, `L`.
It returns the empty string when the search space runs dry, and `"OOM"` when memory runs out.

Five drivers are modelled:

- `breadthFirstSearch`: a FIFO frontier.
- `breadthFirstSearch_with_VisitedList`: the same, with a hash set of states already queued.
- `progressiveDeepeningSearch_No_VisitedList`: iterative deepening with a LIFO frontier.
- `progressiveDeepeningSearch_with_NonStrict_VisitedList`: the same, with a visited list that keeps a state's shallowest depth.
- `aStar_ExpandedList`: A* with a binary heap ordered by `f`, an expanded list, and a `queueLookup` hash set of queued states. This is the build that defines `USE_HASH_MAP`.

The project also models the hand-written containers the drivers use:

- the growable `Vector`;
- the ring-buffer `Deque`;
- the linear `ArrayMap`;
- the Robin Hood open-addressing `HashMap`;
- the indexed `PriorityQueue`;
- the `StackSlabAllocator`, which owns every search node.

## How the source maps to the model

- **Containers.** Each container is a Dafny `class` with the source's fields. A method updates those fields in place and is proved against an abstract view of the contents:
  - `Elements()` for `Vector` and `ArrayMap`;
  - `Contents()` for `Deque` and `HashMap`;
  - the heap sequence `data` for `PriorityQueue`;
  - `Handed()` for the allocator.
- **Hash set.** The slot array of `HashMap` is an `array` of `Node(dist, value)` slots.
  - The Robin Hood table invariant lives in `robinhood.dfy`: every key sits at its recorded distance from its ideal bucket, and no key is passed over by one closer to home.
  - That invariant is preserved by the probing insert and the backward-shift erase.
- **Search nodes.** The arena's `ListNode`s are a sequence `nodes`, and a `next` pointer is a node index.
  - A ghost `rank` makes the parent links well founded.
  - `Paths.Tree` states that every node is its parent's state after one legal move of the blank.
  - Running out of memory (`std::bad_alloc` from the allocator) is the allocator's block `budget` being spent.
  - Every driver keeps one arena slot in use per node (`|allocator.Handed()| == |nodes|`); each step states how many slots it adds (`SlabAllocators.SlotsAdded`).
- **Loop bounds.** The search loops carry a `fuel` bound; spending it ends a driver with `Stopped`.
- **Headline property.** Every driver proves the same property: a path it returns replays, move by move from the initial state, to the goal state.
  - Iterative deepening also proves that the path is no longer than the final depth limit.
  - A* also keeps its full invariant at the top of every loop pass (`AStarStates.Searching`). That invariant covers:
    - a scored tree over the goal's tiles;
    - a heap whose trackers are in place;
    - a `queueLookup` that names each queued node by its state;
    - an expanded list disjoint from the queued states.

## Model

| member | source | states |
|---|---|---|
| Common.FirstIndex | Assignment1_159302/ArrayMap.h:84-95 | the index of the first element related to `v`, or the length when none is: every element before it is unrelated |
| Common.FirstIndexAfterAppend | Assignment1_159302/ArrayMap.h:74-95 | after appending a self-equal value, a `find` for it succeeds, and an earlier match is still the one found |
| Common.FirstIndexIsFirst | Assignment1_159302/ArrayMap.h:84-95 | any position with a match and no match before it (or the end, when nothing matches) is the first index |
| Vectors.Vector.constructor | Assignment1_159302/Vector.h:54 | a new vector is empty and owns no storage |
| Vectors.Vector.IncreaseCapacity | Assignment1_159302/Vector.h:26-52 | the elements move unchanged into fresh storage of 8 slots, or of `size + size / 2` slots, leaving room for one more |
| Vectors.Vector.PushBack | Assignment1_159302/Vector.h:108-120 | the element sequence gains `value` at the end; the storage is replaced only when it was full |
| Vectors.Vector.PopBack | Assignment1_159302/Vector.h:102-106 | the last element is dropped and the storage is kept |
| Vectors.Vector.Get | Assignment1_159302/Vector.h:92-100 | reads the element at `pos` |
| Vectors.Vector.Put | Assignment1_159302/Vector.h:92-95 | a write through `operator[]` changes exactly the element at `pos` |
| Vectors.Vector.Size | Assignment1_159302/Vector.h:130-133 | the number of elements |
| Vectors.Vector.Empty | Assignment1_159302/Vector.h:160-163 | true exactly when there are no elements |
| Vectors.Vector.Clear | Assignment1_159302/Vector.h:165-172 | no elements remain; the storage is kept |
| Deques.Wrap | Assignment1_159302/Deque.h:113-131 | a ring position plus an offset, wrapped once into the capacity |
| Deques.Ring | Assignment1_159302/Deque.h:113-123 | the `n` stored elements read from `start` around the ring |
| Deques.RingExtend | Assignment1_159302/Deque.h:125-131 | writing the slot past the last element extends the contents at the back |
| Deques.RingPrepend | Assignment1_159302/Deque.h:133-139 | writing the slot before the first element extends the contents at the front |
| Deques.Deque.Count | Assignment1_159302/Deque.h:113-123 | the computed size is below the capacity and is 0 exactly when the two positions meet |
| Deques.Deque.constructor | Assignment1_159302/Deque.h:39-45 | a new deque holds nothing in 8 slots |
| Deques.Deque.Resize | Assignment1_159302/Deque.h:16-32 | a full ring grows to `cap + cap / 2` slots and its contents are copied in order to slot 0 onward |
| Deques.Deque.PushBack | Assignment1_159302/Deque.h:125-131 | the contents gain `value` at the back, growing first when the ring becomes full |
| Deques.Deque.PushFront | Assignment1_159302/Deque.h:133-139 | the contents gain `value` at the front |
| Deques.Deque.PopFront | Assignment1_159302/Deque.h:150-154 | the oldest element leaves (FIFO end) |
| Deques.Deque.PopBack | Assignment1_159302/Deque.h:156-160 | the newest element leaves (LIFO end) |
| Deques.Deque.Front | Assignment1_159302/Deque.h:98-101 | the oldest element |
| Deques.Deque.Back | Assignment1_159302/Deque.h:103-106 | the newest element |
| Deques.Deque.Empty | Assignment1_159302/Deque.h:108-111 | true exactly when the positions meet, which is exactly when the contents are empty |
| Deques.Deque.Size | Assignment1_159302/Deque.h:113-123 | the number of stored elements |
| ArrayMaps.ArrayMap.constructor | Assignment1_159302/ArrayMap.h:8-21 | a new set is empty and uses the given equality |
| ArrayMaps.ArrayMap.Insert | Assignment1_159302/ArrayMap.h:74-82 | appends without a duplicate check, after which `find` of a self-equal value succeeds |
| ArrayMaps.ArrayMap.Find | Assignment1_159302/ArrayMap.h:84-95 | the first position holding an equal element, or the size exactly when no element is equal |
| ArrayMaps.ArrayMap.Clear | Assignment1_159302/ArrayMap.h:110-113 | no elements remain |
| ArrayMaps.ArrayMap.Size | Assignment1_159302/ArrayMap.h:64-67 | the number of elements |
| ArrayMaps.ArrayMap.Empty | Assignment1_159302/ArrayMap.h:59-62 | true exactly when there are no elements |
| SlabAllocators.StackSlabAllocator.constructor | Assignment1_159302/StackSlabAllocator.h:43-48 | a new arena owns no block and hands out nothing |
| SlabAllocators.StackSlabAllocator.IncreaseSize | Assignment1_159302/StackSlabAllocator.h:25-32 | succeeds exactly when a block is left in the budget; the new block becomes the head with the bump pointer at its start; the slots in use do not change |
| SlabAllocators.StackSlabAllocator.DecreasedSize | Assignment1_159302/StackSlabAllocator.h:34-41 | the head block is freed and the next block becomes the head, with `mCurrent` left one slot past its end |
| SlabAllocators.StackSlabAllocator.GetNext | Assignment1_159302/StackSlabAllocator.h:60-66 | fails exactly when the head is used up and the budget is spent; otherwise hands out one new slot, not in use before, appended to the slots in use |
| SlabAllocators.StackSlabAllocator.ReplaceLast | Assignment1_159302/StackSlabAllocator.h:68-72 | gives back the newest slot when the head block has one in use; when the head has none, it frees the head block and changes no slot |
| SlabAllocators.StackSlabAllocator.Destroy | Assignment1_159302/StackSlabAllocator.h:50-58 | every block ever obtained ends up freed exactly once |
| SlabAllocators.StackSlabAllocator.HandedBounds | Assignment1_159302/StackSlabAllocator.h:60-66 | every slot in use lies in a listed block, and below `mCurrent` in the head block |
| SlabAllocators.HandedBump | Assignment1_159302/StackSlabAllocator.h:60-66 | bumping the pointer hands out exactly the slot it pointed at, which was not in use |
| SlabAllocators.AllFreed | Assignment1_159302/StackSlabAllocator.h:50-58 | the freed blocks plus the listed blocks are each block obtained, exactly once |
| SlabAllocators.ReleaseThenReuse | Assignment1_159302/StackSlabAllocator.h:60-72 | releasing the slot just handed out and asking again returns the same slot |
| SlabAllocators.ReleaseAcrossBoundary | Assignment1_159302/StackSlabAllocator.h:34-41 | after a spill into a second block and two releases, the first block's last slot is still counted in use and the next request obtains a third block |
| HashMaps.ProbeStop | Assignment1_159302/HashMap.h:335-351 | a probe that meets a slot closer to home than the probe distance proves that no equal key is present |
| HashMaps.PresentLive | Assignment1_159302/HashMap.h:335-351 | a key equal to `value` sits in a live slot exactly when one of the live keys is equal to it |
| HashMaps.HashMap.constructor | Assignment1_159302/HashMap.h:145-149 | a new set has no slots and no keys |
| HashMaps.HashMap.Place | Assignment1_159302/HashMap.h:313-332 | the Robin Hood probe keeps the table valid and adds exactly one copy of `value` to the live keys |
| HashMaps.HashMap.Rehash | Assignment1_159302/HashMap.h:152-192 | the same keys move into a fresh table of the new capacity (8 for a set with no slots), with `mSize` recounted to the number of keys |
| HashMaps.HashMap.Reset | Assignment1_159302/HashMap.h:154-172 | a fresh slot array of `newCap` empty slots with threshold `newCap / 2` and count 0 |
| HashMaps.HashMap.Reinsert | Assignment1_159302/HashMap.h:174-181 | the live keys of the old slots become the live keys of the new table, each counted once |
| HashMaps.HashMap.Insert | Assignment1_159302/HashMap.h:307-333 | the live keys gain one copy of `value`, with no duplicate check; when `mSize` had reached the threshold, the capacity first doubles (8 for the first insert) |
| HashMaps.HashMap.Grow | Assignment1_159302/HashMap.h:309-310 | a set at its threshold is rehashed to twice its capacity, keeping its keys and leaving room below the threshold |
| HashMaps.HashMap.Find | Assignment1_159302/HashMap.h:335-351 | the slot of a live key equal to `value`, or `capacity` exactly when no live key is equal |
| HashMaps.HashMap.Get | Assignment1_159302/HashMap.h:134-139 | dereferencing a live position gives one of the live keys |
| HashMaps.HashMap.SetAt | Assignment1_159302/HashMap.h:134-139 | writing an equal key through a found position swaps that key for the new one and keeps the table valid |
| HashMaps.HashMap.Erase | Assignment1_159302/HashMap.h:366-388 | removes exactly the key at `pos` from the live keys; `mSize` drops by one; the table stays valid |
| HashMaps.HashMap.ShiftBack | Assignment1_159302/HashMap.h:377-386 | the backward shift closes the hole and keeps the table valid, minus the erased key |
| HashMaps.HashMap.EraseValue | Assignment1_159302/HashMap.h:390-393 | removes exactly one live key equal to `value` |
| HashMaps.HashMap.Clear | Assignment1_159302/HashMap.h:353-364 | all slots become empty and the capacity is kept, but `mSize` keeps its old value |
| HashMaps.HashMap.Size | Assignment1_159302/HashMap.h:297-300 | the recorded count, at least the number of live keys and at most half the capacity |
| HashMaps.ClearKeepsCount | Assignment1_159302/HashMap.h:353-364 | after one insert and a clear, nothing is found and `size()` still answers 1 |
| HashMaps.InsertTwice | Assignment1_159302/HashMap.h:307-333 | inserting the same key twice counts it twice |
| RobinHood.CarrySwap | Assignment1_159302/HashMap.h:323-327 | swapping the carried key with a resident closer to home keeps the insertion invariant |
| RobinHood.CarryLand | Assignment1_159302/HashMap.h:317-322 | an empty slot taking the carried key completes a valid insertion |
| RobinHood.HoleShift | Assignment1_159302/HashMap.h:377-386 | moving the key after the hole back one slot keeps the deletion invariant |
| RobinHood.HoleClose | Assignment1_159302/HashMap.h:377-387 | an empty or at-home key after the hole ends the shift with a valid table |
| RobinHood.AllEmpty | Assignment1_159302/HashMap.h:154-172 | an array of empty slots is a valid table with no keys |
| PriorityQueues.Greater | Assignment1_159302/algorithm.cpp:192-199 | the comparer holds exactly when the first node's `f` is strictly greater |
| PriorityQueues.RootIsMin | Assignment1_159302/PriorityQueue.h:4-10 | in a heap, no element compares smaller than the root |
| PriorityQueues.UpStep | Assignment1_159302/PriorityQueue.h:27-39 | a swap with a greater parent moves the disorder up to the parent |
| PriorityQueues.UpDone | Assignment1_159302/PriorityQueue.h:27-39 | when `moveUp` stops, the heap holds |
| PriorityQueues.DownStep | Assignment1_159302/PriorityQueue.h:41-72 | a swap with the smaller child moves the disorder down to that child |
| PriorityQueues.DownDone | Assignment1_159302/PriorityQueue.h:41-72 | when no child is smaller, the heap holds |
| PriorityQueues.RemovedHeap | Assignment1_159302/PriorityQueue.h:163-184 | moving the last element into a removed slot leaves disorder only at that slot, in the direction `erase` repairs |
| PriorityQueues.RemovedPerm | Assignment1_159302/PriorityQueue.h:163-184 | removing a slot removes exactly its element |
| PriorityQueues.TrackedSwap | Assignment1_159302/algorithm.cpp:71-88 | swapping two slots keeps every `positionInQueue` pointing at its node's slot |
| PriorityQueues.PriorityQueue.constructor | Assignment1_159302/PriorityQueue.h:74-77 | a new queue is empty |
| PriorityQueues.PriorityQueue.Swap | Assignment1_159302/algorithm.cpp:78-87 | the two slots exchange nodes and each tracker follows its node |
| PriorityQueues.PriorityQueue.MoveUp | Assignment1_159302/PriorityQueue.h:27-39 | from disorder at one slot, restores the heap with trackers in place and the same elements |
| PriorityQueues.PriorityQueue.MoveDown | Assignment1_159302/PriorityQueue.h:41-72 | from disorder at one slot, restores the heap with trackers in place and the same elements |
| PriorityQueues.PriorityQueue.Top | Assignment1_159302/PriorityQueue.h:91-94 | the front node, whose `f` no queued node undercuts |
| PriorityQueues.PriorityQueue.Empty | Assignment1_159302/PriorityQueue.h:96-99 | true exactly when nothing is queued |
| PriorityQueues.PriorityQueue.Size | Assignment1_159302/PriorityQueue.h:101-104 | the number of queued nodes |
| PriorityQueues.PriorityQueue.Push | Assignment1_159302/PriorityQueue.h:106-111 | the queue gains exactly `node` and stays ordered by `f` with trackers in place |
| PriorityQueues.PriorityQueue.Pop | Assignment1_159302/PriorityQueue.h:121-129 | exactly the front node leaves and the queue stays ordered |
| PriorityQueues.PriorityQueue.PriorityIncreased | Assignment1_159302/PriorityQueue.h:157-161 | after one node's `f` is lowered, the order is restored with the same elements |
| PriorityQueues.PriorityQueue.Erase | Assignment1_159302/PriorityQueue.h:163-184 | exactly the element at `index` leaves and the queue stays ordered |
| PriorityQueues.PriorityQueue.Find | Assignment1_159302/PriorityQueue.h:186-198 | the first slot whose node is related to `node`, or the size exactly when none is |
| Puzzle.Zero | Assignment1_159302/algorithm.cpp:357-359 | the value-initialised root state: nine zero tiles and blank index 0 |
| Puzzle.TileOf | Assignment1_159302/algorithm.cpp:344-355 | a digit character reads as a tile 0 to 9, and as 0 exactly for `'0'` |
| Puzzle.Parse | Assignment1_159302/algorithm.cpp:344-355 | character `i` sets tile `i`, cells past the string keep the start state's tiles, and the blank index is the last `'0'` (or the start's index when there is none) |
| Puzzle.ParsedProper | Assignment1_159302/algorithm.cpp:357-370 | reading a permutation of the digits 0 to 8 gives a well-formed state whose tiles are those digits, each once |
| Puzzle.HasBlank | Assignment1_159302/algorithm.cpp:344-355 | an accepted state string contains a blank |
| Puzzle.PermutationsAgree | Assignment1_159302/algorithm.cpp:344-370 | two accepted state strings use the same characters |
| Puzzle.Equals | Assignment1_159302/algorithm.cpp:30-41 | two states compare equal exactly when every tile and the blank index agree |
| Puzzle.Hash | Assignment1_159302/algorithm.cpp:106-118 | the wrapping fold of the loop equals the unbounded fold reduced modulo 2^64 |
| Puzzle.Hash10Injective | Assignment1_159302/algorithm.cpp:106-118 | with multiplier 10, two states of decimal digits hash alike only when they are equal |
| Puzzle.NeighboursAdjacent | Assignment1_159302/algorithm.cpp:385-404 | the moves generated for the blank are exactly the grid cells that share a side with it, and there are at least two |
| Puzzle.SideNeighbours | Assignment1_159302/algorithm.cpp:389-404 | each of the four guards lets through exactly the cells whose neighbour in that direction is on the grid |
| Puzzle.MoveProper | Assignment1_159302/algorithm.cpp:294-302 | a move keeps the state well formed, keeps its tiles, and changes only the two cells involved |
| Puzzle.MoveBack | Assignment1_159302/algorithm.cpp:294-302 | moving the blank back restores the state |
| Paths.GrowTree | Assignment1_159302/algorithm.cpp:294-302 | adding the successor a helper builds keeps the nodes a tree of legal moves from the root |
| Paths.RelinkTree | Assignment1_159302/algorithm.cpp:925-931 | re-linking a queued leaf to a new parent one move away keeps the tree a tree |
| Paths.Successor | Assignment1_159302/algorithm.cpp:294-302 | the new node is the parent's state with the blank moved to `newPos`, linked to the parent |
| Paths.Children | Assignment1_159302/algorithm.cpp:385-404 | a node has two to four successors, in the order up, right, down, left |
| Paths.Letter | Assignment1_159302/algorithm.cpp:217-236 | a move is written as one of `R`, `D`, `L`, `U` |
| Paths.PackPath | Assignment1_159302/algorithm.cpp:204-239 | the move string of the path from the root to `last`, first move first |
| Paths.Length | Assignment1_159302/algorithm.cpp:208-212 | the number of links from `last` back to the root |
| Paths.LetterTarget | Assignment1_159302/algorithm.cpp:217-236 | the letter written for a move leads back to the cell the blank moved to |
| Paths.ReplayMoves | Assignment1_159302/algorithm.cpp:204-239 | replaying a node's move string from the root state gives that node's state |
| Heuristics.FindGoalCell | Assignment1_159302/algorithm.cpp:843-847 | the scan stops at the first goal cell holding the moved tile |
| Heuristics.MoveHeuristic | Assignment1_159302/algorithm.cpp:840-890 | a move changes the whole-board heuristic only through the moved tile |
| Heuristics.HeuristicStep | Assignment1_159302/algorithm.cpp:840-890 | one move changes the Manhattan heuristic by exactly one and the misplaced-tiles heuristic by at most one |
| Heuristics.ManhattanUpdate | Assignment1_159302/algorithm.cpp:840-871 | the incremental `g` is the parent's plus the change of the whole-board Manhattan distance, and `f - g` grows by one, both modulo 2^32 |
| Heuristics.MisplacedUpdate | Assignment1_159302/algorithm.cpp:876-890 | the incremental `g` is the parent's plus the change of the whole-board misplaced-tile count, and `f - g` grows by one, both modulo 2^32 |
| Heuristics.ScoresTrackDepth | Assignment1_159302/algorithm.cpp:840-890 | in a scored tree, `g` is the heuristic minus the root's and `f` is depth plus `g`, both modulo 2^32 |
| Heuristics.DepthCoversDrop | Assignment1_159302/algorithm.cpp:840-871 | the value behind `f`, depth plus the heuristic minus the root's, is never negative |
| Searches.StateHashes | Assignment1_159302/algorithm.cpp:106-130 | both hashers agree on states the `EqualityTester` calls equal |
| Searches.GoalTest | Assignment1_159302/algorithm.cpp:376-381 | a node is the goal exactly when its state equals the goal, and then its packed path replays from the root state to the goal |
| VisitedLists.EntryHashes | Assignment1_159302/algorithm.cpp:106-130 | entries with equal states hash alike |
| VisitedLists.RecordKeeps | Assignment1_159302/algorithm.cpp:273-290 | keeping a successor leaves one entry per state, keeps every recorded state at its depth or less, and records the successor's state at its depth |
| VisitedLists.OfferAllKeeps | Assignment1_159302/algorithm.cpp:263-291 | across an expansion, one entry per state holds, nothing recorded gets deeper, and every offered state is recorded at its depth or less |
| Breadth.ExpandDepthFirst | Assignment1_159302/algorithm.cpp:293-302 | unless the arena fails, the successor is appended to the nodes and its index to the back of the frontier; the nodes stay a tree |
| Breadth.ExpandFirst | Assignment1_159302/algorithm.cpp:385-404 | unless memory runs out, exactly the node's children are appended, in order, and queued |
| Breadth.ExpandFront | Assignment1_159302/algorithm.cpp:383-410 | the front leaves the frontier, its children are queued behind the rest, and `maxQLength` becomes the larger of itself and the new length |
| Breadth.Drain | Assignment1_159302/algorithm.cpp:375-411 | a path found replays to the goal; running dry means at least one expansion was made |
| Breadth.BreadthFirstSearch | Assignment1_159302/algorithm.cpp:319-430 | a returned path replays from the initial state to the goal |
| Breadth.Admit | Assignment1_159302/algorithm.cpp:241-260 | the nodes after offering kids keep the old nodes as a prefix and gain at most one node per kid |
| Breadth.AdmitStep | Assignment1_159302/algorithm.cpp:250-259 | a kid is appended exactly when no node holds its state yet |
| Breadth.AdmitDistinct | Assignment1_159302/algorithm.cpp:241-260 | with a visited list, no two nodes hold the same state, and every offered state is held afterwards |
| Breadth.ExpandDepthFirstVisited | Assignment1_159302/algorithm.cpp:241-260 | a successor with a new state is appended, queued and recorded; one with a seen state gives its slot back, so the slots in use grow by exactly the nodes added; the visited list holds exactly the nodes' states |
| Breadth.Offer | Assignment1_159302/algorithm.cpp:245-254 | the successor is built in a new arena slot and is judged seen exactly when its state is in the visited list; a seen successor's slot is given back, so one slot is added exactly when the successor is kept |
| Breadth.ExpandFirstVisited | Assignment1_159302/algorithm.cpp:506-525 | unless memory runs out, the nodes become what offering the node's children admits |
| Breadth.ExpandFrontVisited | Assignment1_159302/algorithm.cpp:504-531 | the front leaves; successors with new states are queued and recorded; `maxQLength` is raised to the new length if larger |
| Breadth.DrainVisited | Assignment1_159302/algorithm.cpp:496-532 | a path found replays to the goal; the nodes keep distinct states throughout |
| Breadth.DrainStep | Assignment1_159302/algorithm.cpp:496-532 | one pass either ends the search (no solution only on an empty frontier) or keeps the invariant and spends fuel |
| Breadth.Seed | Assignment1_159302/algorithm.cpp:490-494 | the root is queued and its state is the only one recorded |
| Breadth.RootOnly | Assignment1_159302/algorithm.cpp:477-494 | the search starts from the one-node tree over the initial state |
| Breadth.NewContainers | Assignment1_159302/algorithm.cpp:439-465 | an empty frontier, an empty visited list hashed by `Hasher<Map_t, 10>`, and an arena handing out nothing |
| Breadth.BreadthFirstSearchVisited | Assignment1_159302/algorithm.cpp:439-552 | a returned path replays from the initial state to the goal |
| Deepening.DepthIsMoves | Assignment1_159302/algorithm.cpp:304-309 | a node's `depth` field is the length of its move string |
| Deepening.DeepChildren | Assignment1_159302/algorithm.cpp:636-653 | the successors, in guard order, each one deeper than the node and linked to it |
| Deepening.ExpandDepthLimited | Assignment1_159302/algorithm.cpp:304-309 | unless the arena fails, the successor one deeper than its parent is pushed |
| Deepening.ExpandLimited | Assignment1_159302/algorithm.cpp:636-653 | the successors pushed are a prefix of the deeper children, and all of them unless memory runs out |
| Deepening.PushBounded | Assignment1_159302/algorithm.cpp:632-653 | pushing the children of a node above the limit keeps every queued node within the limit |
| Deepening.PopAndExpand | Assignment1_159302/algorithm.cpp:630-664 | the newest path is popped; it is expanded exactly when its depth is not the limit |
| Deepening.TestNewest | Assignment1_159302/algorithm.cpp:624-629 | the newest path is the goal exactly when its state is, and then its moves replay to the goal within the limit |
| Deepening.Round | Assignment1_159302/algorithm.cpp:622-665 | a path found replays to the goal within the limit; every popped path counts as an expansion; `solutionMightExist` holds exactly when some popped path was at the limit |
| Deepening.Deepen | Assignment1_159302/algorithm.cpp:619-669 | a path found is within the final limit; a round with no path at the limit ends with no solution |
| Deepening.DeepeningSearch | Assignment1_159302/algorithm.cpp:561-690 | a returned path replays from the initial state to the goal and is no longer than the final depth limit |
| DeepeningVisited.Judge | Assignment1_159302/algorithm.cpp:272-285 | a successor is kept exactly when its state is unrecorded or recorded deeper |
| DeepeningVisited.RecordKept | Assignment1_159302/algorithm.cpp:276-288 | the found entry is pointed at the successor, or the successor is inserted |
| DeepeningVisited.ExpandDepthLimitedVisited | Assignment1_159302/algorithm.cpp:262-291 | the nodes and the visited list become what offering the deeper successor gives |
| DeepeningVisited.ExpandLimitedVisited | Assignment1_159302/algorithm.cpp:779-796 | unless memory runs out, the nodes and the visited list become what offering the deeper children in order gives |
| DeepeningVisited.PopAndExpandVisited | Assignment1_159302/algorithm.cpp:773-807 | the newest path is popped and, exactly when below the limit, its successors are offered |
| DeepeningVisited.RoundVisited | Assignment1_159302/algorithm.cpp:765-808 | as `Deepening.Round`, with a sound visited list |
| DeepeningVisited.SeedVisited | Assignment1_159302/algorithm.cpp:756-758 | the root path is pushed and its entry inserted into the still empty visited list, which then records the root alone |
| DeepeningVisited.Restart | Assignment1_159302/algorithm.cpp:809-813 | the next round starts with the root alone on the stack and in the visited list |
| DeepeningVisited.RecordOnly | Assignment1_159302/algorithm.cpp:812-813 | `clear` then `insert` leaves the list recording exactly the root |
| DeepeningVisited.RoundOrRestart | Assignment1_159302/algorithm.cpp:762-814 | either the round's outcome, or a restart one depth deeper that keeps the invariant and spends fuel |
| DeepeningVisited.DeepenVisited | Assignment1_159302/algorithm.cpp:762-814 | a path found replays to the goal within the final limit |
| DeepeningVisited.DeepeningSearchVisited | Assignment1_159302/algorithm.cpp:702-835 | a returned path replays from the initial state to the goal and is no longer than the final depth limit |
| AStarStates.KeyHashes | Assignment1_159302/algorithm.cpp:159-178 | `queueLookup` entries with equal states hash alike |
| AStarStates.Improve | Assignment1_159302/algorithm.cpp:925-931 | only the queued node changes; its `f` becomes the smaller of the two |
| AStarStates.ChildScored | Assignment1_159302/algorithm.cpp:897-908 | a successor is scored from its parent as `calculateHeuristic` does |
| AStarStates.StartFits | Assignment1_159302/algorithm.cpp:1011-1037 | the parsed initial state is well formed and made of the goal's tiles |
| AStarStates.RootSearch | Assignment1_159302/algorithm.cpp:1024-1046 | the loop invariant holds for the root alone, queued with its key |
| AStarStates.LookedKey | Assignment1_159302/algorithm.cpp:1053-1054 | the top node's key is in `queueLookup` and is the only key with its state |
| AStarStates.PopKeeps | Assignment1_159302/algorithm.cpp:1053-1063 | taking the top off the queue and out of `queueLookup` leaves a node that is neither queued nor expanded |
| AStarStates.ImproveKeeps | Assignment1_159302/algorithm.cpp:921-936 | re-linking a queued node to the better path keeps A*'s invariant |
| AStarStates.EnqueueKeeps | Assignment1_159302/algorithm.cpp:938-942 | queueing a successor with a new state keeps A*'s invariant |
| AStarStates.CloseKeeps | Assignment1_159302/algorithm.cpp:1115 | entering the expanded node's state in the expanded list restores the loop invariant |
| AStarStates.HandledKeeps | Assignment1_159302/algorithm.cpp:897-967 | whatever happens to a successor keeps the invariant and counts it exactly once: as a re-expansion, a deletion or a new node |
| AStar.Score | Assignment1_159302/algorithm.cpp:840-890 | the successor gets the incremental `g` and `f` of `calculateHeuristic` |
| AStar.Reroute | Assignment1_159302/algorithm.cpp:925-931 | the queued node takes the better path when it is cheaper, and the queue stays ordered with the same elements |
| AStar.Enqueue | Assignment1_159302/algorithm.cpp:938-942 | the successor becomes a new node, is pushed, and its key joins `queueLookup` |
| AStar.Merge | Assignment1_159302/algorithm.cpp:919-942 | on a hit the queued node is improved and no node is added; on a miss the successor is queued |
| AStar.Place | Assignment1_159302/algorithm.cpp:920-942 | a hit in `queueLookup` goes to `Absorb` and a miss to `Admit`; the slots in use grow by exactly the nodes added |
| AStar.Absorb | Assignment1_159302/algorithm.cpp:921-937 | the queued node with the successor's state takes the new path when that is cheaper; the successor's slot goes back, leaving the slots in use as before it, and counts as a deletion |
| AStar.Admit | Assignment1_159302/algorithm.cpp:938-942 | a successor with a state not in `queueLookup` is queued as a new node and keeps its slot, one slot per node added |
| AStar.Obtain | Assignment1_159302/algorithm.cpp:904 | fails exactly when the arena does, changing no slot; otherwise exactly one new slot is in use, the newest in the head block |
| AStar.Visit | Assignment1_159302/algorithm.cpp:904-915 | the successor is the parent's state after the move, linked to the parent, and is looked up in the expanded list; the slots in use grow by exactly the nodes added |
| AStar.ExpandAStarExpanded | Assignment1_159302/algorithm.cpp:897-967 | fails exactly when the arena does; otherwise the successor is handled as the invariant requires; the slots in use grow by exactly the nodes added |
| AStar.Reject | Assignment1_159302/algorithm.cpp:910-915 | an already expanded state gives its slot back, leaving the slots in use as before the successor, and counts as an attempted re-expansion |
| AStar.Accept | Assignment1_159302/algorithm.cpp:916-942 | a state not yet expanded is scored and merged into the queue |
| AStar.ExpandAll | Assignment1_159302/algorithm.cpp:1067-1109 | unless memory runs out, every successor is handled and counted once |
| AStar.Unlist | Assignment1_159302/algorithm.cpp:1054 | exactly the top node's key leaves `queueLookup` |
| AStar.Close | Assignment1_159302/algorithm.cpp:1111-1115 | `maxQLength` is raised to the queue size if that is larger, and the state joins the expanded list |
| AStar.Dequeue | Assignment1_159302/algorithm.cpp:1063 | exactly the top node leaves the queue |
| AStar.ExpandTop | Assignment1_159302/algorithm.cpp:1053-1116 | a goal found replays from the root; otherwise the loop invariant is restored |
| AStar.SearchStep | Assignment1_159302/algorithm.cpp:1049-1117 | one pass ends the search (no solution only on an empty queue) or keeps the invariant and spends fuel |
| AStar.Search | Assignment1_159302/algorithm.cpp:1049-1130 | a path found replays to the goal; running dry means at least one expansion was made |
| AStar.NewContainers | Assignment1_159302/algorithm.cpp:986-994 | an empty queue, `queueLookup` and expanded list with their hashers, and an arena handing out nothing |
| AStar.Seed | Assignment1_159302/algorithm.cpp:1041-1042 | the root is pushed and its key inserted |
| AStar.AStarExpandedList | Assignment1_159302/algorithm.cpp:971-1141 | a returned path replays from the initial state to the goal, and `numOfLocalLoopsAvoided` stays 0 |

## Left out

- Timing: `clock()` and the `actualRunningTime` float are not modelled.
- Iterators, the end sentinel, and the copy and move constructors and assignments of every container are not modelled. So are `Vector::emplace_back`, `Vector::max_size`, `ArrayMap::max_size`, `HashMap::max_size`, `PriorityQueue::emplace` and the `swap` members.
- `Vector::emplace_back` tests `mEnd = mCapacityEnd` (an assignment) instead of a comparison and then constructs at `mEnd - 1`. No driver calls it, so it is not modelled.
- `HashMap::empty` is not modelled. `clear` keeps `mSize`, and the model states that: `HashMaps.HashMap.Clear` leaves `mSize` unchanged, and `HashMaps.ClearKeepsCount` exhibits it.
- The `#else` branches (builds without `USE_HASH_MAP`, and `ArrayMap` as the visited list) are not modelled. `ArrayMap` is modelled on its own.
- The block size of each arena is the parameter `blockSize`, not the `sizeof`/`alignof` expression. The backing allocator's `bad_alloc` is a `budget` of blocks.
- `StackSlabAllocator::replaceLast` at a block boundary frees the head block but does not step back into the previous block. The model keeps that behaviour as written (`SlabAllocators.ReleaseAcrossBoundary`); it wastes memory but does not corrupt nodes.
- `ultimateMaxDepth` is a by-value parameter in the source, so the caller never sees it. The deepening drivers return the final limit as `maxDepthLimit` instead.
- `Breadth.BreadthFirstSearch`: the search loops take a `fuel` argument, and spending it ends the driver with `Stopped`. The source loops until the frontier empties or memory runs out. The same holds for `Breadth.BreadthFirstSearchVisited`, `Deepening.DeepeningSearch`, `DeepeningVisited.DeepeningSearchVisited` and `AStar.AStarExpandedList`.
- Nodes are indices into a sequence rather than pointers. `positionInQueue` is the map field `pos` of `PriorityQueues.PriorityQueue`, from node index to heap slot. No aliasing between containers and nodes is modelled beyond that.
- Only the arena's block budget can run out. Growing a `Deque` (constructor and resize), `Vector::increaseCapacity` and the `HashMap` rehash always succeed in the model, although in the program their `bad_alloc` also ends a search with `"OOM"`.
- `PriorityQueues.PriorityQueue` keeps its heap in a `seq` field `data`, not in the `Vector` the program's `PriorityQueue` is built on. The `Vector` class is modelled and proved on its own; the heap does not inherit its capacity growth.
- The four guarded expansion calls are a loop over `Neighbours`, which lists the same cells in the same order.
- The `heuristicFunction` dispatcher (lines 1144-1157) is not modelled. A* takes the `manhattan` flag directly.
- The `(int)` casts of `maxQLength` and the `int` counters are not modelled: counters are unbounded `nat`s.
- `AStar.AStarExpandedList` requires both state strings to be permutations of the digits 0 to 8. The source does not check this, but without it the goal scan of the Manhattan update never ends.
- `Breadth.BreadthFirstSearch` requires state strings of at most nine characters; a longer string writes past the tile array in the source. The same holds for the other three non-A* drivers.
- `Deques.Deque.Back` requires `writePos != 0`: the source reads `mData[writePos - 1]`, which underflows once `writePos` has wrapped to 0. No driver calls `back()` in that state.
- `numOfLocalLoopsAvoided` is set to 0 and never incremented. `AStar.AStarExpandedList` returns it as 0.
- A* counts every successor that matches a queued state as a deletion from the middle of the heap, even though no heap element is erased. The model counts it the same way.
- Iterative deepening counts a popped path at the depth limit as an expansion, as the source does.
