# Verification of the game server's core algorithms

A Dafny model of the stateful core of the server, and proofs about it:

- **Timing wheel** (`TimingWheel`, `TimingWheelState`, `TimingWheelArithmetic`): three wheels of N slots with lazy
  cancellation, cascade on carry, and callbacks that add and delete timers. A ghost history of armings, firings and
  cancellations is tied to the slots by one invariant, from which the exact firing frame of every timer follows.
- **Area of interest** (`GridAOI`, `GridIndex`, `AoiReplay`): the spatial hash, interests and observers, and the
  worker's snapshot, computation and merge as steps between which the main thread adds, moves, deletes and
  fetches. The methods keep the invariant at every stage of the worker, so it holds in every interleaving.
- **Bounding-volume tree** (`BVTree`, `BVBuild`, `BVQuery`, `Quantization`, `MeshInput`): building in place, the stackless
  walk, and 16-bit quantisation, against a scan over real bounds.
- **Tile storage** (`Chains`, `TileLinks`, `LinkBudget`, `PolyRefs`, `RefWidths`, `SaltCycle`, `Words`, `TileTable`): chains threaded through
  arrays, the builder's link budget, bit-packed references, and the tile table with its salts.
- **Search containers** (`NodeQueue`, `NodePool`): the hole-based heap and the chained hash pool.
- **Fixed-point roots** (`FixedRoots`): square root to nearest and the two-round cube root.
- **Replication and framing** (`BitStreams`, `SyncArray`, `SevenBit`, `Framing`): an operation log through bytes, and
  messages through a stream. The length encoding is unsigned LEB128 (section 7.6 of DWARF Version 5).
- **Ring queue** (`Fifo`): the atomic steps of one producer and one consumer.

`Sorting`, `Sequences`, `Division`, `PowersOfTwo` and `Options` hold what several of these share.

Code that changes objects in place is modelled by classes whose methods are proved against functions of the old state;
the laws are lemmas about those functions. Where the code does less than its purpose, the exact condition is proved, with an input that fails:

- timers that are one round late: `OnTimeExactlyWhen`, `LateExample`
- batches of notifies that are delivered twice: `ExactlyOnceIff`, `RedeliveryExample`
- ids used again while somebody lists them: `AddEntity`, `ReuseExample`
- the zeroed node behind the tree: `WalkFinds`, `OriginExactlyWhen`, `TwiceReportedExample`
- a salt restored as zero: `SaltsAfterAdd`, `ZeroSaltExample`
- states that do not fit two bits: `GetKeepsDistinct`, `WideStateExample`
- positions and sizes beyond 16 bits: `OneDecodesExactlyWhen`, `InStepExactlyWhen`, `ResizeWraps`
- `clear` in a log, which fails on every log that holds it: `DeltaDecodes`
- empty messages: `DeliveredExactlyWhen`, `EmptyMessageStalls`

Clocks, threads and callbacks are parameters: elapsed milliseconds, the order of calls, and for each firing an
arbitrary list of timer operations. Hits of the worker's query are an arbitrary selection from the copied cells, which
covers what it reads from the live table. Floating-point coordinates are reals.

## Model

| member | source | states |
|---|---|---|
| TimingWheelState.FiringFrame | src/wheel_timer.cpp:43-76 | Between ticks, an arming has been fired exactly once, in exactly its due frame (start + delay, or one round of wheel 0 later when the delay is at least N and N divides start + delay), unless its task was cancelled no later than that frame; before the due frame it has not fired and its task is still there. Re-arms of repeat timers and timers added by callbacks are armings like any other |
| TimingWheelState.OnTimeExactlyWhen | src/wheel_timer.cpp:43-57 | A firing is in the promised frame if and only if the delay was below N or the promised frame is no multiple of N; otherwise it is exactly N frames late, because wheel 0 runs before the higher wheels are emptied into it |
| TimingWheelState.FiresInMilliseconds | src/wheel_timer.cpp:60-140 | In milliseconds: apart from the round of lateness a task runs in the frame that its timeout falls into, or in the first frame after its arming if that one has begun; and so for any duration of which its delay is the whole frames, at least one |
| TimingWheel.LateExample | src/wheel_timer.cpp:28-57 | A run with 1024 slots: of timers of 1023, 1024 and 1025 frames started in frame 0, the history shows the second in frame 2048 and no other, the other two in their own frames |
| TimingWheel.FiresUncancelled | src/wheel_timer.cpp:43-57 | As long as nothing is cancelled, every timer whose due frame has come has run in that frame and no other |
| TimingWheel.FramesCancelNothing | src/wheel_timer.cpp:28-57 | However many frames an update runs, callbacks that delete no timer lead to no cancellation, whatever they add |
| TimingWheel.FramesKeepReachable | src/wheel_timer.cpp:28-88 | Over any frames and callbacks, every task that has not been cancelled has an id by which it can be, and no two ids name one task |
| TimingWheel.OpLogged | src/wheel_timer.cpp:60-78 | An addition that a callback asks for and that fits is armed in that frame, with its delay |
| TimingWheel.CallbacksRun | src/wheel_timer.cpp:119-125 | A task that is not cancelled when its turn comes runs its callback to the end, with nothing in between |
| TimingWheelState.RepeatsGoOn | src/wheel_timer.cpp:125-132 | Whenever a repeat timer has fired it is armed again in that same frame, with the delay it was armed with before |
| TimingWheelState.CancelledNeverFires | src/wheel_timer.cpp:80-88 | No firing of a task follows a cancellation of it in the history |
| TimingWheelState.TimeoutOrder | src/wheel_timer.cpp:109-140 | Callbacks of one frame run in the order of their timeouts |
| TimingWheelState.ArmKeepsInv | src/wheel_timer.cpp:60-78 | Filing a task under a chosen delay keeps all books: every live task in exactly one slot, and the turn of its wheel that will visit it tied to its due frame; also while wheel 0 runs and the higher wheels' indexes are stale |
| TimingWheelState.FireKeepsInv | src/wheel_timer.cpp:119-125 | Running the first task of the visited slot keeps the books, and that task is due in this very frame |
| TimingWheelState.DropKeepsInv | src/wheel_timer.cpp:119-123 | Dropping a cancelled task keeps the books |
| TimingWheelState.CascadeKeepsInv | src/wheel_timer.cpp:97-105 | Moving a task down keeps the books: its remaining delay is not negative, it fits the wheels, and it lands in a slot that is not being iterated |
| TimingWheelState.AdvanceKeepsInv | src/wheel_timer.cpp:43-57 | Moving a wheel on by one slot keeps every record's window of turns |
| TimingWheelArithmetic.CascadeWindow | src/wheel_timer.cpp:144-162 | Where the remaining delay files a cascaded task, in terms of the turns of the target wheel |
| TimingWheelArithmetic.PlacementBounds | src/wheel_timer.cpp:144-162 | The wheel and slot count chosen for a delay bracket the delay by the wheel's slot span; they fit if and only if the delay is below N*N*N |
| TimingWheel.WheelTimer.constructor | src/wheel_timer.cpp:6-10 | A new timer has empty books, no tasks and ids, frame 0 and a zero clock |
| TimingWheel.WheelTimer.CalculateSlotIndex | src/wheel_timer.cpp:144-162 | The loop finds the wheel and slot of the placement function, and fails exactly when the delay does not fit |
| TimingWheel.WheelTimer.AddTimer | src/wheel_timer.cpp:60-78 | A fresh task under a fresh id, armed at least one frame ahead; -1 and nothing changed exactly when the delay reaches N*N*N; the slot being iterated and the wheel indexes are not touched, and all books are kept; the delay armed is the whole frames that fit into ms, at least one |
| TimingWheel.WheelTimer.DelTimer | src/wheel_timer.cpp:80-88 | The live task is marked cancelled and its id forgotten; an unknown id changes nothing |
| TimingWheel.WheelTimer.RunCallback | src/wheel_timer.cpp:125-125 | A callback performs its additions and deletions one after the other, keeps the books and leaves the iterated slot and the wheel indexes alone |
| TimingWheel.WheelTimer.FinishTask | src/wheel_timer.cpp:126-139 | After its callback a repeat task gets its next timeout and is armed again (the assertion is never reached), and a one-shot is deleted; the delay armed again is the whole frames that fit into its interval, at least one |
| TimingWheel.WheelTimer.RunTask | src/wheel_timer.cpp:125-139 | A live task's firing is logged, its callback performs its operations, and then it is re-armed or deleted |
| TimingWheel.WheelTimer.RunTimers | src/wheel_timer.cpp:109-142 | In some order of the slot's tasks by timeout, the tasks, the ids and the appended events are those of dropping each task if cancelled by then, or else firing it, performing its callback and finishing it; the slot is empty afterwards and all books are kept |
| TimingWheel.WheelTimer.MoveTask | src/wheel_timer.cpp:97-105 | One step of the cascade; the assertion is never reached and the subtraction never underflows |
| TimingWheel.WheelTimer.MoveTimers | src/wheel_timer.cpp:90-107 | Empties a higher slot into the wheels; no event is added and no task lost |
| TimingWheel.WheelTimer.Tick | src/wheel_timer.cpp:43-58 | Runs just the tasks of wheel 0's next slot, with just their effects and events, and advances each higher wheel exactly when the lower one has come round |
| TimingWheel.WheelTimer.Update | src/wheel_timer.cpp:28-40 | After any elapsed time: tasks, ids and events are those of the frames run one after the other, as many as curFrame has gone up; wheel i stands at (frame / N^i) mod N, ms_since_start is frame * interval + left_ms with left_ms below the interval, and the books hold, whatever the callbacks do |
| Sorting.Sort | src/wheel_timer.cpp:113-115 | A library sort, by its contract: a permutation in key order |
| GridAOIService.MergeReplays | src/aoi/grid_aoi.cpp:43-54 | Whether or not the live entity was drained during the cycle, what was delivered followed by the merged pending notifies replays from the empty set to the merged interests |
| GridAOIService.ExactlyOnceIff | src/aoi/grid_aoi.cpp:43-54 | After a merge, what an entity has been sent and still has pending is what was sent at the snapshot and the worker's notifications, each once, if and only if it was not fetched during the cycle or had nothing pending then; otherwise just the fetched batch comes twice |
| GridAOIService.RedeliveryExample | src/aoi/grid_aoi.cpp:34-58 | A run of the service with a fetch between snapshot and merge: since the snapshot the client has got one non-empty batch twice and nothing else, from that fetch and from the next |
| GridAOIService.ReuseExample | src/aoi/grid_aoi.cpp:102-142 | A run in which an id is deleted and added again while another entity lists it: that entity sees the new one, which has no observer |
| GridAOIService.MergeKeepsBooks | src/aoi/grid_aoi.cpp:45-54 | Merging keeps, for all live entities, duality, irreflexivity and the replay equation |
| GridAOIService.UpdateOne | src/aoi/grid_aoi.cpp:66-98 | One entity's round: its interests become the hits without itself; the notifies appended are at most one batch of exactly those that came and at most one of exactly those that went, neither empty, each id once; observers follow, and duality is kept; no subscript inserts |
| GridAOIService.Update | src/aoi/grid_aoi.cpp:60-100 | The loop over all entities, in any order, does this for each exactly once |
| GridAOIService.UpdateFromSnapshot | src/aoi/grid_aoi.cpp:60-100 | With queries answered from the snapshot, each entity's new interests are the brute-force neighbours without itself |
| GridAOIService.HitsAreCopied | src/aoi/grid_aoi.cpp:84-88 | Whatever the query returns from the snapshot's cells is among the snapshot's entities |
| GridAOIService.CalcSetAdd | src/aoi/grid_aoi.h:83-91 | The elements of b not in a, each once |
| GridAOIService.CalcSetDel | src/aoi/grid_aoi.h:94-102 | The elements of a not in b, each once |
| GridAOIService.GridAOI.AddEntity | src/aoi/grid_aoi.cpp:102-125 | Adds an entity with its radius cut to the maximum, -1 and no change if the id is taken. Duality is kept if and only if no live entity lists the id, which is always so for an id never used; then every invariant is kept, unless the worker is about to merge a deleted entity of that id |
| GridAOIService.AddKeepsBooks | src/aoi/grid_aoi.cpp:102-125 | The books of the live entities survive an addition if and only if nobody lists the new id |
| GridAOIService.GridAOI.UpdateEntity | src/aoi/grid_aoi.cpp:144-174 | Moves an entity and its cell entry at any worker stage |
| GridAOIService.GridAOI.DelEntity | src/aoi/grid_aoi.cpp:127-142 | Removes an entity and its cell entry, also when the worker is about to merge a result that names it |
| GridAOIService.GridAOI.EntitiesInCircle | src/aoi/grid_aoi.cpp:215-219 | Exactly the entities closer than the radius, each once |
| GridAOIService.GridAOI.FetchState | src/aoi/grid_aoi.cpp:176-184 | Drains every entity once and records it as fetched in this cycle; each returned state's interests are what its whole delivered history replays to |
| GridAOIService.GridAOI.DrainOne | src/aoi/aoi.h:32-34 | Hands out the pending notifies, leaves none, and records the entity as fetched in this cycle |
| GridAOIService.GridAOI.TakeSnapshot | src/aoi/grid_aoi.cpp:38-41 | Copies the tables; from here on what is delivered is tracked against what had been sent |
| GridAOIService.GridAOI.Compute | src/aoi/grid_aoi.cpp:43-43 | Works on the copies for any hits out of the copied cells, without touching the live tables |
| GridAOIService.GridAOI.Merge | src/aoi/grid_aoi.cpp:45-54 | Swaps the three containers into the entities that are still live; the invariants hold after every merge, and the exact condition for delivering once holds of the sent, delivered and pending notifications; what the worker appended still tells the change from the copied interests to the merged ones, batch by batch |
| AoiReplay.ReplayTwice | src/aoi/grid_aoi.cpp:76-82 | Replaying a batch of notifies a second time changes nothing |
| AoiReplay.ReplayAgree | src/aoi/grid_aoi.cpp:76-82 | For an element that a batch mentions, the outcome does not depend on the starting set |
| GridIndex.QueryIsBruteForce | src/aoi/grid_aoi.cpp:186-213 | The cell-range query hits exactly the entities the distance filter finds, negative coordinates included |
| GridIndex.NearMeans | src/aoi/grid_aoi.cpp:202-206 | The distance filter says that the distance is below the radius, also for a radius that is not positive |
| GridIndex.CellOf | src/aoi/grid_aoi.cpp:245-250 | Cells are gridSize wide in each direction from zero, and the middle one twice that |
| GridIndex.GetEntitiesInCircle | src/aoi/grid_aoi.cpp:186-213 | The two nested loops over cells return each hit once |
| GridIndex.AddKeepsIndex | src/aoi/grid_aoi.cpp:117-122 | An id is in a cell exactly when its entity's truncated coordinates name the cell: kept by adding |
| GridIndex.DeleteKeepsIndex | src/aoi/grid_aoi.cpp:133-140 | The same, kept by deleting |
| GridIndex.MoveKeepsIndex | src/aoi/grid_aoi.cpp:152-173 | The same, kept by moving within a cell or across cells |
| GridIndex.GridPosMonotone | src/aoi/grid_aoi.cpp:245-250 | Truncated cell coordinates never decrease with the coordinate, across zero too |
| BVTree.LongestAxis | src/Detour/Source/DetourNavMeshBuilder.cpp:97-111 | A widest axis, the first among equals |
| BVTree.CalcExtends | src/Detour/Source/DetourNavMeshBuilder.cpp:73-95 | The least box around the segment's items |
| BVTree.SortSegment | src/Detour/Source/DetourNavMeshBuilder.cpp:142-156 | The segment in order of its lower bounds on the axis, a permutation, all else unchanged |
| BVTree.Subdivide | src/Detour/Source/DetourNavMeshBuilder.cpp:113-169 | From node curNode on, 2n-1 nodes in preorder with escape offsets encode a tree whose leaves are a permutation of the segment, whose inner boxes are exact hulls, and which halves each segment along its widest axis; nothing else is written |
| BVTree.HalvesApart | src/Detour/Source/DetourNavMeshBuilder.cpp:139-160 | Under an inner node that is widest along x, y or z no box of the left half begins behind one of the right half on that axis |
| BVTree.OverlapsMeans | src/Detour/Include/DetourCommon.h:354-362 | Two boxes overlap if and only if they have a cell in common |
| BVTree.EncodeSize | src/Detour/Source/DetourNavMeshBuilder.cpp:113-169 | A layout of n leaves has 2n-1 nodes, and the escape of an inner node is the size of its subtree |
| BVQuery.BuildTree | src/Detour/Source/DetourNavMeshBuilder.cpp:235-240 | Over given boxes, the array of two nodes per polygon holds the tree's layout and one zeroed node |
| BVBuild.CreateBVTree | src/Detour/Source/DetourNavMeshBuilder.cpp:171-241 | The same over the boxes of all polygons: of their detail meshes if there are any, else of their vertices |
| BVBuild.BoxCovers | src/Detour/Source/DetourNavMeshBuilder.cpp:180-232 | Each of these boxes covers the polygon it is computed for |
| BVBuild.BuildTile | src/Detour/Source/DetourNavMeshBuilder.cpp:623-628 | In the tile built from a mesh inside its bounds, the walk of every query reports each polygon exactly as often as its computed box and the zeroed node say, among them each that a scan over real bounds reports |
| BVBuild.FoundIsClose | src/Detour/Source/DetourNavMesh.cpp:823-863 | What the walk reports is close to the query, but for polygon 0 at the corner: on each axis its real bounds reach to less than two cells below and three above the clamped query (in height three on either side, if there is no detail mesh) |
| BVBuild.BuildAndQuery | src/Detour/Source/DetourNavMesh.cpp:812-893 | From mesh to answer: everything reported is close to the query in that sense, and unless the answer is cut off every stored polygon whose real bounds meet the query is reported |
| BVQuery.WalkTree | src/Detour/Source/DetourNavMesh.cpp:842-863 | Walking over a subtree's nodes collects exactly its overlapping leaves in leaf order and goes on behind it; skipping loses nothing |
| BVQuery.WalkIsFilter | src/Detour/Source/DetourNavMesh.cpp:842-863 | Over the stored array the walk gives the plain filter of the leaves, plus polygon 0 at the end exactly when the quantised query starts at the origin, because the node count takes in the zeroed node |
| BVBuild.TwiceReportedExample | src/Detour/Source/DetourNavMesh.cpp:840-863 | A tile built from one triangle: a query at its corner gives the triangle's reference twice, where a scan reports it once |
| BVQuery.WalkFinds | src/Detour/Source/DetourNavMesh.cpp:840-863 | How often each polygon is reported: once if its box overlaps, and polygon 0 once more exactly when the query starts at the origin |
| Quantization.OriginExactlyWhen | src/Detour/Source/DetourNavMesh.cpp:823-838 | A quantised query starts at the origin if and only if on each axis the clamped query starts less than two cells above the tile's lower end |
| Quantization.QueryBox | src/Detour/Source/DetourNavMesh.cpp:823-838 | The quantised query exactly: on each axis the even cell at or below the clamped lower end and the odd cell above the clamped upper end, both within two cells |
| BVQuery.QueryPolygonsInTile | src/Detour/Source/DetourNavMesh.cpp:812-893 | With a tree, the first maxPolys references of the walk; without, the first maxPolys of the scan over real bounds, connections left out |
| BVQuery.WalkTile | src/Detour/Source/DetourNavMesh.cpp:840-865 | The loop over node and escape index computes the walk |
| BVQuery.ScanTile | src/Detour/Source/DetourNavMesh.cpp:867-892 | The loop over polygons computes the scan |
| BVQuery.ScanIncreases | src/Detour/Source/DetourNavMesh.cpp:867-892 | The scan reports polygons in storage order, each at most once |
| BVQuery.RefsDecode | src/Detour/Source/DetourNavMesh.cpp:840-865 | A reported reference decodes to the tile, its salt and the polygon |
| BVQuery.NothingMissed | src/Detour/Source/DetourNavMesh.cpp:812-893 | Before truncation, every polygon of the tile that the scan over real bounds reports is reported by the walk |
| Quantization.Conservative | src/Detour/Source/DetourNavMesh.cpp:823-838 | For points inside a tile whose extent fits 16 bits, real bounds that meet the query have a quantised box that meets the widened quantised query |
| Quantization.AxisNear | src/Detour/Source/DetourNavMesh.cpp:823-838 | And conversely a reported detail mesh lies less than two cells below or three cells above the clamped query, per axis |
| Quantization.DetailClose | src/Detour/Source/DetourNavMesh.cpp:823-838 | A detail mesh whose box meets the quantised query is less than two cells below and three above the clamped query on each axis |
| Quantization.PlainClose | src/Detour/Source/DetourNavMeshBuilder.cpp:204-231 | The same for a box from vertices, with a cell more in height for floor and ceiling |
| Quantization.RealOverlapMeans | src/Detour/Include/DetourCommon.h:371-379 | Real bounds overlap if and only if they have a point in common |
| Quantization.DetailBox | src/Detour/Source/DetourNavMeshBuilder.cpp:180-203 | The quantised exact bounds of the detail vertices |
| Quantization.DetailCovers | src/Detour/Source/DetourNavMeshBuilder.cpp:195-202 | That box takes in the cell of every vertex |
| Quantization.PlainBox | src/Detour/Source/DetourNavMeshBuilder.cpp:204-231 | The exact bounds of the used vertices, heights remapped with floor and ceiling |
| Quantization.PlainCovers | src/Detour/Source/DetourNavMeshBuilder.cpp:229-231 | That box takes in the cell of every placed vertex |
| TileLinks.MeshTile.AllocLink | src/Detour/Source/DetourNavMesh.cpp:122-129 | Takes the head of the free list; fails exactly when it is empty; free list and polygon lists stay disjoint chains covering the array |
| TileLinks.MeshTile.FreeLink | src/Detour/Source/DetourNavMesh.cpp:131-135 | Puts a link back in front |
| TileLinks.MeshTile.ConnectIntLinks | src/Detour/Source/DetourNavMesh.cpp:528-563 | With enough links, every polygon's list holds exactly its internal edges, in increasing order, each linked to the neighbour's reference; all chains stay disjoint and acyclic |
| TileLinks.EachLinkOnce | src/Detour/Source/DetourNavMesh.cpp:122-135 | Between operations every link is free or on exactly one polygon's list, once |
| TileLinks.EdgesIncrease | src/Detour/Source/DetourNavMesh.cpp:542-547 | The edges linked are all the internal ones, strictly increasing |
| TileLinks.MeshTile.UnconnectLinks | src/Detour/Source/DetourNavMesh.cpp:357-389 | Every list keeps exactly the links not into the target tile, in order; the others go to the free list |
| TileLinks.KeptMembers | src/Detour/Source/DetourNavMesh.cpp:368-387 | A link is kept if and only if it was listed and its reference does not decode to the target |
| TileLinks.KeptInOrder | src/Detour/Source/DetourNavMesh.cpp:368-387 | Kept links stay in order: of two lists one behind the other the kept ones are those of the first, then those of the second |
| LinkBudget.StorePoly | src/Detour/Source/DetourNavMeshBuilder.cpp:523-549 | The stored neighbour words, up to the first null index |
| LinkBudget.MaxLinkCount | src/Detour/Source/DetourNavMeshBuilder.cpp:366-385 | The counting loops give edges + 2 * portals + 2 * off-mesh ends |
| LinkBudget.BudgetSuffices | src/Detour/Source/DetourNavMeshBuilder.cpp:366-385 | Linking a stored mesh allocates at most as many links as the builder counted edges |
| LinkBudget.BuildAndLink | src/Detour/Source/DetourNavMeshBuilder.cpp:366-385 | So a tile built with that budget is linked completely |
| LinkBudget.LinksLeadHome | src/Detour/Source/DetourNavMesh.cpp:528-563 | Edge j of polygon i has a link if and only if the builder was given a neighbour polygon for it, and the reference decodes to that polygon, the tile and its salt |
| LinkBudget.PortalSides | src/Detour/Source/DetourNavMeshBuilder.cpp:523-549 | A portal is stored with the side on which the neighbour search finds the tile in its direction, and a border as nothing |
| LinkBudget.CountsAreSizes | src/Detour/Source/DetourNavMeshBuilder.cpp:366-385 | The counts are the numbers of all edges and of all portals among them |
| Chains.PopFree | src/Detour/Source/DetourNavMesh.cpp:122-129 | Taking the head of the free chain keeps the partition of the array into chains |
| Chains.PushList | src/Detour/Source/DetourNavMesh.cpp:976-979 | Entering a loose slot in front of a list keeps it |
| Chains.Unlink | src/Detour/Source/DetourNavMesh.cpp:1256-1272 | Cutting a slot out of the middle of a list keeps it |
| PolyRefs.NextPow2IsLeast | src/Detour/Include/DetourCommon.h:439-449 | The least power of two not below v, for v from 1 to 2^31 |
| PolyRefs.NextPow2Wraps | src/Detour/Include/DetourCommon.h:439-449 | The result is zero exactly for 0 and above 2^31 |
| PolyRefs.Ilog2IsFloor | src/Detour/Include/DetourCommon.h:451-461 | Shifting v down by the result leaves 1, for every non-zero v |
| PolyRefs.InitWidthsFit | src/Detour/Source/DetourNavMesh.cpp:253-266 | The widths init computes fill at most 32 bits with at least ten for the salt, and every tile and polygon index fits its field |
| RefWidths.InitWidthsMeans | src/Detour/Source/DetourNavMesh.cpp:253-266 | In numbers: if 2^a and 2^b are the least powers not below the tile and polygon counts, the assertion fails if and only if a + b exceeds 31, the widths are refused if and only if it exceeds 22, and else they are min(31, 32 - a - b), a and b |
| RefWidths.BitsForMeans | src/Detour/Include/DetourCommon.h:439-463 | The bits counted for n are the a with 2^a the least power of two not below n |
| PolyRefs.DecodeEncode | src/Detour/Include/DetourNavMesh.h:529-562 | Salt, tile and polygon come back from a reference when each fits its field |
| PolyRefs.FieldsInPlace | src/Detour/Include/DetourNavMesh.h:529-562 | The polygon is in the lowest bits, the tile above it, the salt on top |
| PolyRefs.JoinedRef | src/Detour/Source/DetourNavMesh.cpp:553-553 | A base reference joined with a polygon index is that polygon's reference |
| TileTable.NextSaltDiffers | src/Detour/Source/DetourNavMesh.cpp:1323-1330 | The salt after a removal differs from the old one, is not zero and stays in its field |
| SaltCycle.SaltReturnsExactlyWhen | src/Detour/Source/DetourNavMesh.cpp:1323-1330 | With k salt bits a slot has the same salt again if and only if the number of removals is a multiple of 2^k - 1 |
| TileTable.TileRefDecodes | src/Detour/Source/DetourNavMesh.cpp:1339-1344 | A tile's reference decodes to its slot and salt, and is not zero when the salt is not |
| TileTable.SaltsAfterAdd | src/Detour/Source/DetourNavMesh.cpp:944-970 | Adding a tile keeps all salts non-zero if and only if it does not restore a reference whose salt field is zero |
| TileTable.ZeroSaltExample | src/Detour/Source/DetourNavMesh.cpp:944-970 | A reference with salt 0 to a free slot is accepted and leaves that slot with salt 0 |
| TileTable.Init | src/Detour/Source/DetourNavMesh.cpp:224-269 | A table if and only if tiles and polygons need at most 22 bits together, with the widths in numbers; all its slots are free, in order, at salt 1 |
| TileTable.NavMesh.GetTileAt | src/Detour/Source/DetourNavMesh.cpp:1061-1078 | Finds the tile at a location, and none exactly when none is there |
| TileTable.NavMesh.GetTileByRef | src/Detour/Source/DetourNavMesh.cpp:1166-1178 | Resolves a reference to its slot exactly when its index is in range and its salt is current |
| TileTable.ResolvesExactlyWhen | src/Detour/Source/DetourNavMesh.cpp:1166-1178 | A reference made up of a salt, a slot and a polygon resolves to the slot if and only if that is the slot's salt |
| TileTable.BucketCount | src/Detour/Source/DetourNavMesh.cpp:230-235 | As many buckets as a quarter of the tiles, rounded up to a power of two, at least one |
| TileTable.NavMesh.AddTile | src/Detour/Source/DetourNavMesh.cpp:912-979 | Each failure exactly when its condition holds and nothing changed; on success one free slot (the old one, at the old salt, for a restored reference) holds the location, the result is its reference, and is the restored one if that named a slot; each slot is on exactly one of the free list and its location's chain, at most one per location; a new tile gets the first free slot at the salt that slot has |
| TileTable.NavMesh.RemoveTile | src/Detour/Source/DetourNavMesh.cpp:1244-1337 | The slot leaves its chain, its salt changes, it heads the free list, and the removed reference no longer resolves; salts stay non-zero |
| TileTable.EachSlotOnce | src/Detour/Source/DetourNavMesh.cpp:929-979 | Every slot is on exactly one of the free list and its location's hash chain, once, and no two tiles share a location |
| TileTable.NavMesh.RemoveAndRestore | src/Detour/Source/DetourNavMesh.cpp:944-970 | Removing a tile and adding it back under its reference gives the identical reference and the identical table contents |
| TileTable.RestoredRef | src/Detour/Source/DetourNavMesh.cpp:944-979 | A tile placed under a reference that names a slot at any salt has that very reference, whatever happened to the table in between |
| TileTable.TileNamesSlot | src/Detour/Source/DetourNavMesh.cpp:912-979 | The reference of every slot is such a reference |
| NodeQueues.RootIsLeast | src/Detour/Include/DetourNode.h:118-124 | Heap order puts a cheapest node at the root |
| NodeQueues.NodeQueue.BubbleUp | src/Detour/Source/DetourNode.cpp:172-183 | The nodes are those given; if only the hole was out of order and the node is cheap enough for what is below, the result is a heap; if nothing above is dearer, nothing moves |
| NodeQueues.NodeQueue.TrickleDown | src/Detour/Source/DetourNode.cpp:185-200 | Sinking the hole to a leaf and lifting the node from there restores the heap, with the same nodes |
| NodeQueues.NodeQueue.Pop | src/Detour/Include/DetourNode.h:118-124 | Returns a node of least total cost and removes just that one |
| NodeQueues.NodeQueue.Push | src/Detour/Include/DetourNode.h:126-130 | Adds just the node, keeping heap order |
| NodeQueues.NodeQueue.Modify | src/Detour/Include/DetourNode.h:132-142 | Whatever the change of cost, the nodes stay the same; a heap that held the node once is a heap again if and only if the node is no dearer than what is below it, as after every decrease |
| NodeQueues.ModifiedAt | src/Detour/Include/DetourNode.h:132-142 | After a change of one node's cost, either only the way up from it is out of order, or a node below it is cheaper, nothing is lifted and the order stays broken |
| NodePools.ChainedMore | src/Detour/Source/DetourNode.cpp:132-149 | Linking a new node in front keeps every chain exactly its bucket's nodes in decreasing index, whatever stale link it had |
| NodePools.NewestSkips | src/Detour/Source/DetourNode.cpp:108-119 | No node of the bucket is passed over on the way down a chain |
| NodePools.FoundStays | src/Detour/Source/DetourNode.cpp:121-131 | While keys are distinct, a node is found under its key at its place |
| NodePools.GetKeepsDistinct | src/Detour/Source/DetourNode.cpp:132-149 | A new node keeps keys distinct if and only if the state fits two bits or no node has its truncated key |
| NodePools.FewPerPolygon | src/Detour/Include/DetourNode.h:47-47 | With distinct keys a polygon has at most four nodes |
| NodePools.WideStateExample | src/Detour/Source/DetourNode.cpp:121-149 | Asking twice for state 4 makes two nodes with one key |
| NodePools.NodePool.Clear | src/Detour/Source/DetourNode.cpp:83-87 | Empties the map although the links stay |
| NodePools.NodePool.FindNode | src/Detour/Source/DetourNode.cpp:108-119 | Looks the key up in the map the pool stands for |
| NodePools.NodePool.FindNodes | src/Detour/Source/DetourNode.cpp:89-106 | The first maxNodes nodes of the polygon, newest first |
| NodePools.NodePool.GetNode | src/Detour/Source/DetourNode.cpp:121-152 | The found node with nothing changed, or one new node behind the others, or none exactly when the pool is full; in the map the pool stands for, just the stored key is set to the new node |
| FixedRoots.Sqrt | src/fpm/fix_math.h:462-498 | The integer nearest to the root: (2r-1)^2 < 4*V*2^F < (2r+1)^2 |
| FixedRoots.NearestIsUnique | src/fpm/fix_math.h:491-497 | Only one integer satisfies that |
| FixedRoots.SqrtStep | src/fpm/fix_math.h:480-489 | One digit keeps remainder and doubled root in step |
| FixedRoots.Cbrt | src/fpm/fix_math.h:410-459 | r^3 <= V*2^(2F) < (r+1)^3, and mirrored for negative numbers; one step per digit of the root, and the rest and the value taken off it at every step, and the rest scaled between the rounds, are at most the stated peak |
| FixedRoots.CubeRootIsUnique | src/fpm/fix_math.h:410-459 | Only one integer satisfies that |
| FixedRoots.DoRound | src/fpm/fix_math.h:432-444 | One round of digits keeps the remainder exact although it is scaled; at every digit the rest and the value taken off it are at most the limit |
| FixedRoots.CbrtBetween | src/fpm/fix_math.h:446-456 | After the first round what is left is small enough to be scaled by F more bits |
| FixedRoots.Fits64 | src/fpm/fix_math.h:446-456 | For 16.16 numbers the peak stays below 2^51, within 64 signed bits |
| BitStreams.OutputBitStream.ReallocBuffer | src/bit_stream.cpp:10-19 | A larger buffer with the same contents |
| BitStreams.OutputBitStream.Write | src/bit_stream.cpp:21-27 | Appends, and grows to the larger of the need and twice the capacity only when needed |
| BitStreams.LittleEndian | src/bit_stream.h:77-80 | Fields are little-endian and wrap around at their width |
| BitStreams.InputBitStream.Read | src/bit_stream.cpp:36-50 | The next n bytes, or failure without moving |
| SyncArrays.DeltaDecodes | src/sync_array.h:221-275 | A written log decodes to the replayed operations and is consumed to the byte, if and only if it holds no clear; with a clear the decoder's assertion fails |
| SyncArrays.ReplicaFollows | src/sync_array.h:206-275 | Decoding an array's delta onto what the array was at its last reset gives the array |
| SyncArrays.OneDecodes | src/sync_array.h:225-272 | Each operation but clear decodes to itself |
| SyncArrays.DecodedIsEncoding | src/sync_array.h:221-275 | And nothing else decodes: what is taken for an operation is the encoding of an applicable one other than clear, and has its effect |
| SyncArrays.SizesSuffice | src/sync_array.h:114-183 | Below 65536 elements all logged positions and sizes fit 16 bits |
| SyncArrays.OneDecodesExactlyWhen | src/sync_array.h:114-272 | A logged operation reaches a replica if and only if its position or size fits 16 bits or the contents are such that the wrapped one does the same: equal elements on the way for insert and erase, the value in both places for update, never for resize |
| SyncArrays.InStepExactlyWhen | src/sync_array.h:114-272 | A replica that decodes a log without clear holds what the array held after each operation if and only if every operation meets that condition |
| SyncArrays.ResizeWraps | src/sync_array.h:178-183 | An example: the replica of an array resized to 65536 elements stays empty |
| SyncArrays.SyncArray.PushBack | src/sync_array.h:148-153 | Array and replica both get the value |
| SyncArrays.SyncArray.PopBack | src/sync_array.h:172-176 | Array and replica both lose the last |
| SyncArrays.SyncArray.Insert | src/sync_array.h:114-121 | Array and replica both get the value at the position |
| SyncArrays.SyncArray.Erase | src/sync_array.h:132-138 | Array and replica both lose the element |
| SyncArrays.SyncArray.Resize | src/sync_array.h:178-183 | Array and replica are both cut or filled with zeroes |
| SyncArrays.SyncArray.Clear | src/sync_array.h:108-112 | Empties the array and logs an operation no decoder knows |
| SyncArrays.SyncArray.MarkDirty | src/sync_array.h:192-196 | The replica gets the element that is there now, so an assignment followed by this is in step |
| SyncArrays.SyncArray.ResetDirty | src/sync_array.h:217-219 | Starts a new log from the array as it is |
| SyncArrays.SyncArray.NetDeltaSerialize | src/sync_array.h:206-215 | Appends the length and the log; true exactly when something was logged |
| SyncArrays.SyncArray.NetDeltaDeserialize | src/sync_array.h:221-275 | The loop over the stream computes the decoding function, for any bytes |
| SevenBit.RoundTrip | src/bit_utils.cpp:3-35 | Reading what was written gives the number, and ends where the writing ended, whatever follows |
| SevenBit.FiveBytes | src/bit_utils.cpp:3-13 | A 32-bit number takes at most five bytes |
| SevenBit.NoneInVain | src/bit_utils.cpp:3-13 | A number is written in n bytes if and only if it needs n groups of seven bits |
| SevenBit.ShortestEncoding | src/bit_utils.cpp:3-13 | No other groups that stand for the number are fewer |
| SevenBit.Write7BitEncodedInt | src/bit_utils.cpp:3-13 | Writes that encoding |
| SevenBit.Read7BitEncodedInt | src/bit_utils.cpp:15-35 | Reads up to the first byte without the high bit, adding up in 32 bits |
| Framing.PiecesDoNotMatter | src/network/tcp_connection.cpp:14-70 | However the stream is cut, the messages are those of one call with the whole stream |
| Framing.DeliveredExactlyWhen | src/network/tcp_connection.cpp:14-70 | A stream of frames delivers all its messages in order if and only if none is empty or above 16 MiB |
| Framing.EmptyMessageStalls | src/network/tcp_connection.cpp:18-18 | After an empty message nothing is ever delivered again |
| Framing.AnyLengthRead | src/network/tcp_connection.cpp:18-38 | Any encoding of a length that ends within five bytes is taken, also a longer one than necessary, and no other |
| Framing.SplitBack | src/space_service.cpp:81-93 | Name and payload come apart exactly as send_raw_msg put them together |
| Framing.SplitsExactlyWhen | src/space_service.cpp:81-93 | A message with a length in front splits if and only if the name of that length fits, and then into just these parts |
| Framing.EndToEnd | src/network/tcp_connection.cpp:14-191 | Messages framed one after the other and cut into any pieces are received as sent, and each splits into its name and payload |
| Framing.Transmit | src/network/tcp_connection.cpp:14-191 | A sender, a receiver and the splitting together give back the list of names and payloads |
| Framing.RecvBuffer.Recv | src/network/tcp_connection.cpp:14-70 | One call computes the byte-by-byte parser from and to the receiver's state, for any bytes, up to a failed assertion |
| Framing.RecvBuffer.TakeLength | src/network/tcp_connection.cpp:22-39 | One byte of a length |
| Framing.RecvBuffer.TakeData | src/network/tcp_connection.cpp:41-65 | A block of a message at once is its bytes one by one |
| Framing.HandleMsg | src/space_service.cpp:81-93 | Splits any message: name and payload, or an exception, or nothing defined |
| Framing.Connection.SendMsg | src/network/tcp_connection.cpp:140-146 | Appends one frame |
| Framing.Connection.SendRawMsg | src/network/tcp_connection.cpp:179-191 | Appends one frame around name length, name and payload |
| Fifo.FifoOrder | src/util/fifo.h:31-80 | In every interleaving the popped values are a prefix of the pushed ones, no cell is read before it is written, and at most cap values are held |
| Fifo.StepIsQueueStep | src/util/fifo.h:31-80 | Each atomic step leaves the abstract queue alone, appends the pushed value with room to spare, or takes the first value for the consumer |
| Fifo.GivesUpExactlyWhen | src/util/fifo.h:35-66 | A push gives up exactly when the queue is full at its check, a pop exactly when it is empty or its value not yet released |
| Fifo.PushAlone | src/util/fifo.h:55-80 | A push that runs alone changes nothing if the queue is full, and otherwise appends its value, which can then be read |
| Fifo.PopAlone | src/util/fifo.h:31-53 | A pop that runs alone changes nothing if no value can be read, and otherwise takes the oldest one |
| Fifo.PublishEnds | src/util/fifo.h:71-77 | The loop that repeats while its exchange succeeds moves the counter once and then ends |
| Fifo.PushKeepsInv | src/util/fifo.h:55-80 | Every producer step keeps the invariant |
| Fifo.PopKeepsInv | src/util/fifo.h:31-53 | Every consumer step keeps the invariant |

## Left out

- TimingWheel.WheelTimer.DelTimer: an id whose one-shot task has fired and been deleted is only forgotten; the write to freed memory that the code does (src/wheel_timer.cpp:84-85) is not modelled.
- TimingWheel.WheelTimer.AddTimer: called between updates or from a callback; `size_t` and timer ids do not wrap around. Tasks are values in a map from addresses, with creation and deletion explicit.
- TimingWheel.WheelTimer.Update: callbacks add and delete timers but do not call update themselves; the clock's readings are a parameter.
- TimingWheel.WheelTimer.constructor: an interval or a slot count of zero, on which the code divides by zero or never leaves its loop, is excluded.
- GridAOIService.GridAOI.DelEntity: not while the worker computes, since its unlocked `_entities[eid]` (src/aoi/grid_aoi.cpp:202) can then bring a deleted entity back.
- GridAOIService.GridAOI.AddEntity: nothing is said about the invariants when an id is used again before the worker merges its former owner.
- GridAOIService.GridAOI.Compute: the data race of that unlocked read is not modelled, only that its outcome is some selection.
- GridAOIService.UpdateOne: duality is for live entities; ids of deleted ones may stay in `observers`.
- GridIndex.QueryIsBruteForce: reals instead of `float`, the distance compared squared; not-a-number and coordinates beyond `int` are excluded.
- Quantization.Conservative: reals instead of `float`; rounding is not modelled.
- BVBuild.BuildTile: detail meshes contain their polygon's vertices, as the builder assumes when it stores them.
- BVTree.SortSegment: the library sort is seen through its contract.
- TileLinks.MeshTile.ConnectIntLinks: the `side`, `bmin` and `bmax` of a link are not modelled, and a link's fields are parallel arrays.
- LinkBudget.BuildAndLink: some link must be reserved (with none the code writes before the array, src/Detour/Source/DetourNavMesh.cpp:1008) and no more than `unsigned int` indices reach.
- TileTable.NavMesh.AddTile: data format checks, patched pointers and links to neighbours are not part of this model.
- TileTable.NavMesh.RemoveTile: of an occupied slot (on a free one the code follows a null header); releasing the data is left out, and the calls of unconnectLinks are modelled apart, in `TileLinks`.
- TileTable.Init: at least one tile and one polygon; allocation failure is not modelled.
- TileTable.BucketCount: nothing is said about how evenly the hash functions of the tile table and of the node pool spread; only equal inputs share a bucket for certain.
- NodeQueues.NodeQueue.Modify: nothing is said about the order of a heap that holds the node twice or was out of order before.
- NodeQueues.NodeQueue.Pop: of a non-empty queue, and pushes only while there is room, as the code checks neither.
- NodePools.NodePool.GetNode: positions of nodes are not modelled; the bucket mask is taken as a remainder, the table size being a power of two.
- FixedRoots.Cbrt: the cast back to the base type and the negation of the least 32-bit number are on unbounded integers.
- SyncArrays.SyncArray.PushBack: elements are arithmetic values seen as their bytes; class-typed elements, copy assignment, swap and the logging of replace, which does not compile, are left out.
- Framing.RecvBuffer.Recv: a length above 16 MiB or of more than five bytes ends the model where the code asserts or overruns.
- Framing.Connection.SendMsg: the output limit and lost connections are not modelled.
- Fifo.FifoOrder: sequentially consistent steps, one producer and one consumer; weaker memory orders and more threads are left out.
- Off-mesh and external links, other geometry, the remaining fixed-point functions, sockets, threads and protocol messages.
- Getters, `QueueTimer`, string and vector helpers: thin wrappers around what is modelled or around the library.
