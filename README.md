# Knight shortest paths on an unbounded board

The Knight Pathfinder answers two questions about a chess knight on the
unbounded integer lattice. The first is how few moves it needs from `start`
to `target` (`minKnightMoves`). The second is one shortest sequence of
squares between them (`getKnightPath`). It also has a bounds check for
square boards (`isValidPosition`), where the board size `-1` means "no
bounds".

Both searches are breadth-first over an implicit graph. Its nodes are
positions and its edges are the eight knight moves. `minKnightMoves` exists
in two versions:

- knight.cpp queues each position with its move count;
- knight.h drains the queue one whole layer at a time and counts layers.

`getKnightPath` also records the parent each position was discovered from.
On reaching the target it walks the parents back to `start` and reverses
what it collected.

The model is organised as follows:

- `Position` (pos.dfy) holds `Pos` and its equality operators.
- `KnightGraph` (graph.dfy) holds the reference notions the searches are
  proved against:
  - walks and the knight distance `IsDistance`: some walk makes `n` moves and
    none makes fewer;
  - `WithinMoves(s, n)`, the positions within `n` moves, which is the set a
    breadth-first search has seen after `n` layers;
  - connectivity: a unit step takes three knight moves, so every target is
    reachable.
- `KnightSearch` (search.dfy) holds the two searches of knight.cpp as
  imperative methods over a `seq` queue, a `set` of visited positions and a
  `map` of parents.
- `LayeredSearch` (layered.dfy) holds the layer-counting search of knight.h.
- `Board` (board.dfy) holds `isValidPosition`.

Every search result is proved to be optimal: its value is exactly the knight
distance. Each search is also proved to terminate, and its fall-through
`return -1` or `return {}` is proved unreachable. A ghost bound
(3 × the Manhattan distance) on the target's distance gives the loops their
termination measures. The two `minKnightMoves` variants agree on every input,
because both results satisfy `IsDistance` and `DistanceUnique` says that
distance is unique.

## Model

| member | source | states |
|---|---|---|
| Position.Equal | Downloads/cu-prog-abstractions-sp25-assignment-10-sharonakhid-master/src/knight.h:32-34 | two positions compare equal exactly when they are the same position (both coordinates agree) |
| Position.NotEqual | Downloads/cu-prog-abstractions-sp25-assignment-10-sharonakhid-master/src/knight.h:36-38 | `!=` holds exactly when the positions differ |
| Position.Add | Downloads/cu-prog-abstractions-sp25-assignment-10-sharonakhid-master/src/knight.cpp:32 | `{current.row + dir.row, current.col + dir.col}`: the position one displacement away; what it means for the table's entries is stated by `KnightGraph.DirectionIsStep` and `KnightGraph.StepDirection` |
| KnightGraph.DirectionsAreKnightOffsets | Downloads/cu-prog-abstractions-sp25-assignment-10-sharonakhid-master/src/knight.cpp:16-19 | the eight-entry direction table (the constant `KnightGraph.Directions`, also at knight.cpp:52-55 and knight.h:55) holds every knight offset (±2,±1)/(±1,±2) and nothing else, without repeats |
| KnightGraph.StepDirection | Downloads/cu-prog-abstractions-sp25-assignment-10-sharonakhid-master/src/knight.cpp:31-32 | every knight move is `current + dir` for some entry of the table |
| KnightGraph.DirectionIsStep | Downloads/cu-prog-abstractions-sp25-assignment-10-sharonakhid-master/src/knight.cpp:31-32 | `current + dir` is always one knight move from `current` |
| KnightGraph.StepSymmetric | Downloads/cu-prog-abstractions-sp25-assignment-10-sharonakhid-master/src/knight.cpp:74 | a knight move can be undone, which is why the parent walk read backwards is a path forwards |
| KnightGraph.Reversed | Downloads/cu-prog-abstractions-sp25-assignment-10-sharonakhid-master/src/knight.cpp:78 | `std::reverse`: the result has the same length and holds the elements in the opposite order |
| KnightGraph.ReversedTwice | Downloads/cu-prog-abstractions-sp25-assignment-10-sharonakhid-master/src/knight.cpp:78 | reversing twice gives back the original sequence |
| KnightGraph.ExtendWalk | Downloads/cu-prog-abstractions-sp25-assignment-10-sharonakhid-master/src/knight.cpp:74-75 | appending a square one knight move from the end of a walk yields a walk to that square |
| KnightGraph.ReversedWalk | Downloads/cu-prog-abstractions-sp25-assignment-10-sharonakhid-master/src/knight.cpp:77-78 | a walk from `t` to `s`, reversed, is a walk from `s` to `t` |
| KnightGraph.DistanceSymmetric | Downloads/cu-prog-abstractions-sp25-assignment-10-sharonakhid-master/src/knight.cpp:49-91 | the knight distance from `s` to `t` equals the distance from `t` to `s` |
| KnightGraph.DistanceUnique | Downloads/cu-prog-abstractions-sp25-assignment-10-sharonakhid-master/src/knight.h:50-79 | a pair of positions has one knight distance only, so the two `minKnightMoves` variants return the same value |
| KnightGraph.DistanceZero | Downloads/cu-prog-abstractions-sp25-assignment-10-sharonakhid-master/src/knight.cpp:13 | the distance is 0 exactly when start and target coincide |
| KnightGraph.ExpandedAdd | Downloads/cu-prog-abstractions-sp25-assignment-10-sharonakhid-master/src/knight.cpp:31-42 | a position whose eight neighbours have all been seen counts as fully expanded |
| KnightGraph.WithinStep | Downloads/cu-prog-abstractions-sp25-assignment-10-sharonakhid-master/src/knight.cpp:32 | a neighbour of a position within `n` moves is within `n + 1` moves |
| KnightGraph.WithinStepInto | Downloads/cu-prog-abstractions-sp25-assignment-10-sharonakhid-master/src/knight.h:68 | the same step, stated from the later layer |
| KnightGraph.WithinMonotone | Downloads/cu-prog-abstractions-sp25-assignment-10-sharonakhid-master/src/knight.h:61-77 | the set of positions within `m` moves is contained in the set within `n` moves when `m <= n` |
| KnightGraph.Predecessor | Downloads/cu-prog-abstractions-sp25-assignment-10-sharonakhid-master/src/knight.cpp:31-41 | a position first reached after `n + 1` moves is a neighbour of one first reached after `n` |
| KnightGraph.NotWithinBefore | Downloads/cu-prog-abstractions-sp25-assignment-10-sharonakhid-master/src/knight.cpp:40 | a position first reached after `n + 1` moves is not within `n` |
| KnightGraph.BelowBound | Downloads/cu-prog-abstractions-sp25-assignment-10-sharonakhid-master/src/knight.cpp:27 | a layer that does not yet hold the target is below any bound the target is known to be within |
| KnightGraph.WalkEndsWithin | Downloads/cu-prog-abstractions-sp25-assignment-10-sharonakhid-master/src/knight.cpp:27-43 | the end of a walk of `k` moves is within `k` moves of its start |
| KnightGraph.WithinHasWalk | Downloads/cu-prog-abstractions-sp25-assignment-10-sharonakhid-master/src/knight.cpp:27-43 | every position within `n` moves is the end of a walk of at most `n` moves |
| KnightGraph.FirstReachedIsDistance | Downloads/cu-prog-abstractions-sp25-assignment-10-sharonakhid-master/src/knight.cpp:34-35 | a position first reached after `n` moves is at knight distance exactly `n` (breadth-first order yields shortest paths) |
| KnightGraph.DistanceIsFirstReached | Downloads/cu-prog-abstractions-sp25-assignment-10-sharonakhid-master/src/knight.cpp:34-35 | conversely, the knight distance is the layer at which a position is first reached |
| KnightGraph.ThreeMoves | Downloads/cu-prog-abstractions-sp25-assignment-10-sharonakhid-master/src/knight.cpp:45 | three knight moves from a position within `n` moves land within `n + 3` |
| KnightGraph.Connected | Downloads/cu-prog-abstractions-sp25-assignment-10-sharonakhid-master/src/knight.cpp:45 | every target is within 3 × (\|Δrow\| + \|Δcol\|) moves of the start: on the unbounded board the target is always reachable |
| KnightGraph.ClosedHoldsWithin | Downloads/cu-prog-abstractions-sp25-assignment-10-sharonakhid-master/src/knight.cpp:27-45 | a seen set holding `start` in which every position is expanded holds everything within any number of moves, so the queue cannot run dry before the target is seen |
| KnightGraph.NextLayerSeen | Downloads/cu-prog-abstractions-sp25-assignment-10-sharonakhid-master/src/knight.cpp:27-43 | if every seen position not yet expanded lies beyond `d` moves, everything within `d + 1` moves has been seen |
| KnightGraph.WithinOne | Downloads/cu-prog-abstractions-sp25-assignment-10-sharonakhid-master/src/knight.cpp:16-19 | within one move of `s` lie only `s` and its knight neighbours |
| KnightGraph.OneMoveAway | Downloads/cu-prog-abstractions-sp25-assignment-10-sharonakhid-master/src/knight.cpp:34-35 | a square one knight move away is at distance 1 |
| KnightGraph.DiagonalTwoMovesAway | Downloads/cu-prog-abstractions-sp25-assignment-10-sharonakhid-master/src/knight.cpp:27-43 | the diagonal neighbour of any square is at distance 2 |
| KnightGraph.FirstReachedUnique | Downloads/cu-prog-abstractions-sp25-assignment-10-sharonakhid-master/src/knight.cpp:38-40 | a position is first reached at one layer only |
| KnightGraph.TriedMore | Downloads/cu-prog-abstractions-sp25-assignment-10-sharonakhid-master/src/knight.cpp:31 | once the neighbour of table entry `i` has been seen, the first `i + 1` neighbours have, as the loops over `directions` go through the table in order |
| KnightGraph.LaterNeighbour | Downloads/cu-prog-abstractions-sp25-assignment-10-sharonakhid-master/src/knight.cpp:16-19 | a table entry leads to a neighbour none of the earlier entries leads to, since the table has no repeats |
| KnightGraph.AllNeighbours | Downloads/cu-prog-abstractions-sp25-assignment-10-sharonakhid-master/src/knight.cpp:31-32 | the eight entries together lead to exactly the knight neighbours of a position |
| KnightGraph.UnseenExactly | Downloads/cu-prog-abstractions-sp25-assignment-10-sharonakhid-master/src/knight.cpp:38-41 | a pass over the directions enqueues exactly the neighbours it looks at that were not seen before it started, each once |
| KnightGraph.UnseenStep | Downloads/cu-prog-abstractions-sp25-assignment-10-sharonakhid-master/src/knight.cpp:38 | a neighbour is new to the seen set as it stands mid-pass exactly when it was new before the pass, because no earlier entry led to it |
| KnightGraph.PassStep | Downloads/cu-prog-abstractions-sp25-assignment-10-sharonakhid-master/src/knight.cpp:38-41 | one step of a direction loop: the neighbour is inserted and enqueued exactly when it has not been seen, and then the seen set and the queue have grown by exactly the neighbours looked at and the unseen ones among them, in table order |
| KnightGraph.PassDone | Downloads/cu-prog-abstractions-sp25-assignment-10-sharonakhid-master/src/knight.cpp:31-42 | after the eighth step the seen set has grown by exactly the knight neighbours and the queue by exactly the unseen ones, in table order |
| KnightSearch.QueuedPush | Downloads/cu-prog-abstractions-sp25-assignment-10-sharonakhid-master/src/knight.cpp:40 | pushing onto the queue adds exactly the pushed position to the queued set |
| KnightSearch.QueuedIndex | Downloads/cu-prog-abstractions-sp25-assignment-10-sharonakhid-master/src/knight.cpp:21 | a queued position sits at some index of the queue |
| KnightSearch.QueuedHolds | Downloads/cu-prog-abstractions-sp25-assignment-10-sharonakhid-master/src/knight.cpp:21 | every queue entry's position is in the queued set |
| KnightSearch.CountPush | Downloads/cu-prog-abstractions-sp25-assignment-10-sharonakhid-master/src/knight.cpp:40 | pushing an entry at another distance leaves the number of entries at distance `d` unchanged |
| KnightSearch.LayeredPush | Downloads/cu-prog-abstractions-sp25-assignment-10-sharonakhid-master/src/knight.cpp:40 | pushing `(next, distance + 1)` keeps the queue's distances exact, non-decreasing and within one of each other |
| KnightSearch.DistinctPush | Downloads/cu-prog-abstractions-sp25-assignment-10-sharonakhid-master/src/knight.cpp:38-41 | pushing only unseen positions keeps every position enqueued at most once |
| KnightSearch.DistinctPop | Downloads/cu-prog-abstractions-sp25-assignment-10-sharonakhid-master/src/knight.cpp:28-29 | after popping, the queue still has no repeats and no longer holds the popped position |
| KnightSearch.PopFront | Downloads/cu-prog-abstractions-sp25-assignment-10-sharonakhid-master/src/knight.cpp:28-29 | taking the front entry off the queue keeps the search bookkeeping, and the entry's distance is the layer its position was first reached at |
| KnightSearch.ExpandNeighbours | Downloads/cu-prog-abstractions-sp25-assignment-10-sharonakhid-master/src/knight.cpp:31-42 | the direction loop returns as soon as a neighbour equals the target, which is then at distance `distance + 1`; otherwise `visited` has grown by exactly the eight neighbours and the queue by exactly the neighbours not seen before, in table order, each at `distance + 1`; the bookkeeping is kept |
| KnightSearch.AppendedStart | Downloads/cu-prog-abstractions-sp25-assignment-10-sharonakhid-master/src/knight.cpp:31 | the direction loop starts with nothing enqueued |
| KnightSearch.AppendedStep | Downloads/cu-prog-abstractions-sp25-assignment-10-sharonakhid-master/src/knight.cpp:38-41 | one step of the direction loop enqueues the neighbour at `distance + 1` exactly when it has not been seen |
| KnightSearch.AppendedDone | Downloads/cu-prog-abstractions-sp25-assignment-10-sharonakhid-master/src/knight.cpp:31-42 | after the loop, `visited` has grown by the eight neighbours and the queue by the unseen ones, in table order, at `distance + 1` |
| KnightSearch.NeighbourFirstReached | Downloads/cu-prog-abstractions-sp25-assignment-10-sharonakhid-master/src/knight.cpp:32-35 | a neighbour not seen yet is first reached one move after `current` |
| KnightSearch.NewNeighbour | Downloads/cu-prog-abstractions-sp25-assignment-10-sharonakhid-master/src/knight.cpp:38-41 | inserting an unseen neighbour into `visited` and the queue keeps the expansion invariant |
| KnightSearch.SeenNeighbour | Downloads/cu-prog-abstractions-sp25-assignment-10-sharonakhid-master/src/knight.cpp:38 | a neighbour already in `visited` is skipped without breaking the invariant |
| KnightSearch.ExpansionRestoresInvariant | Downloads/cu-prog-abstractions-sp25-assignment-10-sharonakhid-master/src/knight.cpp:27-43 | after a full expansion the loop invariant holds again, including "everything within the new front distance has been seen" |
| KnightSearch.ExpandedMore | Downloads/cu-prog-abstractions-sp25-assignment-10-sharonakhid-master/src/knight.cpp:31-42 | the expanded position moves from "current" to "expanded" without disturbing the partition of `visited` |
| KnightSearch.LayeredFront | Downloads/cu-prog-abstractions-sp25-assignment-10-sharonakhid-master/src/knight.cpp:28 | the queue's distances lie within one of the front entry's |
| KnightSearch.NextLayerReached | Downloads/cu-prog-abstractions-sp25-assignment-10-sharonakhid-master/src/knight.cpp:27-43 | when the front moves on to distance `d + 1`, every position within `d + 1` moves has been seen |
| KnightSearch.MinKnightMoves | Downloads/cu-prog-abstractions-sp25-assignment-10-sharonakhid-master/src/knight.cpp:12-46 | the result is non-negative and is the knight distance from start to target; it is 0 exactly when they coincide, and `-1` is never returned |
| KnightSearch.LinkNeighbour | Downloads/cu-prog-abstractions-sp25-assignment-10-sharonakhid-master/src/knight.cpp:82-85 | recording `parent[next] = current` on first discovery keeps every parent a seen position one knight move away and one layer nearer the start |
| KnightSearch.ReconstructPath | Downloads/cu-prog-abstractions-sp25-assignment-10-sharonakhid-master/src/knight.cpp:73-79 | the back-walk from target along parents reaches start, and the reversed result is a walk from start to target with one move per layer |
| KnightSearch.ExpandRecordingParents | Downloads/cu-prog-abstractions-sp25-assignment-10-sharonakhid-master/src/knight.cpp:68-87 | on reaching the target it returns a walk from start to target of shortest length; otherwise `visited` has grown by exactly the eight neighbours, the queue by exactly the unseen ones in table order, each new one has `current` as its parent, and no existing parent link changed |
| KnightSearch.RecordingStep | Downloads/cu-prog-abstractions-sp25-assignment-10-sharonakhid-master/src/knight.cpp:82-86 | one step of the direction loop of `getKnightPath` past a non-target neighbour: an unseen one is inserted, linked to `current` and enqueued, keeping the parent links and the expansion invariant |
| KnightSearch.RecordedStart | Downloads/cu-prog-abstractions-sp25-assignment-10-sharonakhid-master/src/knight.cpp:68 | the direction loop starts with nothing enqueued and no link changed |
| KnightSearch.RecordedStep | Downloads/cu-prog-abstractions-sp25-assignment-10-sharonakhid-master/src/knight.cpp:82-86 | a neighbour gets a parent only when it is first seen, and no earlier link is rewritten |
| KnightSearch.RecordedDone | Downloads/cu-prog-abstractions-sp25-assignment-10-sharonakhid-master/src/knight.cpp:68-87 | after the loop the queue has grown by the unseen neighbours in table order, the old links are unchanged and every new link points to `current` |
| KnightSearch.GetKnightPath | Downloads/cu-prog-abstractions-sp25-assignment-10-sharonakhid-master/src/knight.cpp:49-91 | the path starts at start, ends at target, each step is a knight move, its length minus one is the knight distance, and it is `[start]` when start equals target |
| LayeredSearch.ExpandEntry | Downloads/cu-prog-abstractions-sp25-assignment-10-sharonakhid-master/src/knight.h:67-74 | the direction loop returns `moves + 1` only when the target is at that distance; otherwise `visited` has grown by exactly the eight neighbours and the queue by exactly the unseen ones, in table order, all in the next layer |
| LayeredSearch.EntryStart | Downloads/cu-prog-abstractions-sp25-assignment-10-sharonakhid-master/src/knight.h:67 | the direction loop starts with nothing pushed |
| LayeredSearch.EntryStep | Downloads/cu-prog-abstractions-sp25-assignment-10-sharonakhid-master/src/knight.h:68-73 | one step of the direction loop past a non-target neighbour: an unseen one is inserted and pushed, and it belongs to the next layer |
| LayeredSearch.EntryDone | Downloads/cu-prog-abstractions-sp25-assignment-10-sharonakhid-master/src/knight.h:67-74 | after the loop, `visited` has grown by the eight neighbours and the queue by the unseen ones, in table order |
| LayeredSearch.NextLayerEntry | Downloads/cu-prog-abstractions-sp25-assignment-10-sharonakhid-master/src/knight.h:68-72 | an unseen neighbour of the current layer is first reached at `moves + 1`, and inserting it keeps the state |
| LayeredSearch.InteriorExpanded | Downloads/cu-prog-abstractions-sp25-assignment-10-sharonakhid-master/src/knight.h:61-63 | positions inside the ball have their neighbours in the ball |
| LayeredSearch.LayerDrained | Downloads/cu-prog-abstractions-sp25-assignment-10-sharonakhid-master/src/knight.h:61-76 | after draining a layer, `visited` is exactly the ball of radius `moves + 1` and the queue exactly the next layer |
| LayeredSearch.EmptyLayerCloses | Downloads/cu-prog-abstractions-sp25-assignment-10-sharonakhid-master/src/knight.h:78 | an empty layer would make the seen set closed under knight moves |
| LayeredSearch.DrainStart | Downloads/cu-prog-abstractions-sp25-assignment-10-sharonakhid-master/src/knight.h:62-63 | the layer loop starts with nothing pushed and the interior of the ball expanded |
| LayeredSearch.DrainPop | Downloads/cu-prog-abstractions-sp25-assignment-10-sharonakhid-master/src/knight.h:64-65 | the front of the queue is the next entry of the current layer |
| LayeredSearch.DrainNext | Downloads/cu-prog-abstractions-sp25-assignment-10-sharonakhid-master/src/knight.h:63-75 | expanding one layer entry advances the layer loop by one |
| LayeredSearch.DrainLayer | Downloads/cu-prog-abstractions-sp25-assignment-10-sharonakhid-master/src/knight.h:62-75 | the `size` iterations either find the target at distance `moves + 1` or leave `visited` equal to the ball of radius `moves + 1` and the queue holding exactly the next layer, without repeats |
| LayeredSearch.MinKnightMoves | Downloads/cu-prog-abstractions-sp25-assignment-10-sharonakhid-master/src/knight.h:50-79 | the result is non-negative and is the knight distance; it is 0 exactly when start equals target, and `-1` is never returned |
| Board.IsValidPosition | Downloads/cu-prog-abstractions-sp25-assignment-10-sharonakhid-master/src/knight.cpp:94-100 | the size `-1` admits every position, and a size of zero or below other than `-1` admits none |
| Board.ValidOnBoard | Downloads/cu-prog-abstractions-sp25-assignment-10-sharonakhid-master/src/knight.cpp:98-99 | for a size `n >= 0`, a position is valid exactly when it is one of the `n × n` squares with coordinates in `[0, n)` |
| Board.UnboundedAdmitsAll | Downloads/cu-prog-abstractions-sp25-assignment-10-sharonakhid-master/src/knight.cpp:95-97 | with the default size `-1` every position is valid |
| Board.Samples | Downloads/cu-prog-abstractions-sp25-assignment-10-sharonakhid-master/src/knight.cpp:94-100 | (3,3) is on an 8×8 board, (8,0) is not, and (-1,-1) is valid on the unbounded board |
| Board.RowSegmentSize | Downloads/cu-prog-abstractions-sp25-assignment-10-sharonakhid-master/src/knight.cpp:98-99 | a row of a board of size `n` has `n` squares |
| Board.ColumnSegmentSize | Downloads/cu-prog-abstractions-sp25-assignment-10-sharonakhid-master/src/knight.cpp:98-99 | a column of a board of size `n` has `n` squares |
| Board.SquaresGrow | Downloads/cu-prog-abstractions-sp25-assignment-10-sharonakhid-master/src/knight.cpp:98-99 | growing the board by one adds exactly its new last row and last column, which are disjoint from the old squares and from each other |
| Board.BoardSize | Downloads/cu-prog-abstractions-sp25-assignment-10-sharonakhid-master/src/knight.cpp:98-99 | a board of size `n` has exactly `n × n` valid positions |

## Left out

- `PosHash` (knight.h:42-46) is left out. The containers are modelled as mathematical `set` and `map`, so hashing and collisions do not arise.
- Fixed-width `int` overflow is left out. Coordinates are unbounded integers, which matches the unbounded board, so `row + dir.row` never wraps.
- The source defines `minKnightMoves` twice: once in knight.h at line 50 and once in knight.cpp at line 12. knight.cpp includes knight.h at line 1, so its translation unit holds both definitions and does not compile. Each definition is modelled separately, as `LayeredSearch.MinKnightMoves` and `KnightSearch.MinKnightMoves`.
- knight.h:82 has a stray `}` that stops the header from compiling. It has no behaviour to model.
- Container mechanics are modelled only by their effect on sequences: `std::queue` is a `seq` popped at the front and pushed at the back, `push_back` appends, and `std::reverse` is `KnightGraph.Reversed`.
- The helper methods `ExpandNeighbours`, `ExpandRecordingParents`, `ExpandEntry` and `DrainLayer` do not exist in the source. They are the source's inner loops, lifted out unchanged so that each proof stays small.
- `isValidPosition` is not used by either search, so the searches never filter by board bounds.
- The searches carry some bookkeeping that exists only in the proof and is not executed:
  - the set of expanded positions;
  - each queue entry's layer in `getKnightPath` and the layered search;
  - the level of each parent link;
  - the termination bound.
- The header comment at knight.h:87-89 speaks only of the infinite board (size `-1`) and of bounded boards. The code treats any other negative size as an empty board, and the model follows the code (`Board.IsValidPosition`).
