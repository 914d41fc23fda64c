/** The searches of `knight.cpp`: `minKnightMoves`, whose queue carries each
    position together with its move count, and `getKnightPath`, which also
    records the parent each position was discovered from and walks the
    parents back from the target. */
module KnightSearch {
  import opened Position
  import opened KnightGraph

  /** The positions held by a queue of `(position, distance)` entries. */
  ghost function Queued(q: seq<(Pos, nat)>): set<Pos>
  {
    if q == [] then {} else {q[0].0} + Queued(q[1..])
  }

  lemma {:induction false} QueuedPush(q: seq<(Pos, nat)>, e: (Pos, nat))
    ensures Queued(q + [e]) == Queued(q) + {e.0}
  {
    if q != [] {
      assert (q + [e])[1..] == q[1..] + [e];
      QueuedPush(q[1..], e);
    }
  }

  lemma {:induction false} QueuedIndex(q: seq<(Pos, nat)>, p: Pos) returns (k: nat)
    requires p in Queued(q)
    ensures k < |q| && q[k].0 == p
  {
    if q[0].0 == p {
      k := 0;
    } else {
      k := QueuedIndex(q[1..], p);
      k := k + 1;
    }
  }

  /** How many entries of the queue carry the distance `d`. */
  function Count(q: seq<(Pos, nat)>, d: nat): (n: nat)
    ensures n <= |q|
  {
    if q == [] then 0 else (if q[0].1 == d then 1 else 0) + Count(q[1..], d)
  }

  lemma {:induction false} CountPush(q: seq<(Pos, nat)>, d: nat, e: (Pos, nat))
    requires e.1 != d
    ensures Count(q + [e], d) == Count(q, d)
  {
    if q != [] {
      assert (q + [e])[1..] == q[1..] + [e];
      CountPush(q[1..], d, e);
    }
  }

  /** The distances a breadth-first queue carries: each entry's is the number
      of moves after which its position is first reached, they never
      decrease from front to back, and they lie in `lo .. lo + 1`. */
  ghost predicate Layered(s: Pos, q: seq<(Pos, nat)>, lo: nat)
  {
    (forall k :: 0 <= k < |q| ==> FirstReachedAt(s, q[k].0, q[k].1)) &&
    (forall k :: 0 <= k < |q| ==> lo <= q[k].1 <= lo + 1) &&
    (forall k, l :: 0 <= k <= l < |q| ==> q[k].1 <= q[l].1)
  }

  lemma LayeredPush(s: Pos, q: seq<(Pos, nat)>, lo: nat, e: (Pos, nat))
    requires Layered(s, q, lo)
    requires FirstReachedAt(s, e.0, e.1) && e.1 == lo + 1
    ensures Layered(s, q + [e], lo)
  {
  }

  /** No position is queued twice. */
  ghost predicate Distinct(q: seq<(Pos, nat)>)
  {
    forall k, l :: 0 <= k < l < |q| ==> q[k].0 != q[l].0
  }

  lemma {:induction false} QueuedHolds(q: seq<(Pos, nat)>, k: nat)
    requires k < |q|
    ensures q[k].0 in Queued(q)
  {
    if k > 0 {
      QueuedHolds(q[1..], k - 1);
    }
  }

  /** Pushing a position that is not queued keeps the queue free of repeats. */
  lemma DistinctPush(q: seq<(Pos, nat)>, e: (Pos, nat))
    requires Distinct(q) && e.0 !in Queued(q)
    ensures Distinct(q + [e])
  {
    forall k | 0 <= k < |q|
      ensures q[k].0 != e.0
    {
      QueuedHolds(q, k);
    }
  }

  /** Popping the front of a queue without repeats leaves a queue without
      repeats that no longer holds the front position. */
  lemma DistinctPop(q: seq<(Pos, nat)>)
    requires Distinct(q) && q != []
    ensures Distinct(q[1..]) && q[0].0 !in Queued(q[1..])
    ensures Queued(q) == {q[0].0} + Queued(q[1..])
  {
    if q[0].0 in Queued(q[1..]) {
      var k := QueuedIndex(q[1..], q[0].0);
      assert false;
    }
  }

  /** Taking the front entry off the queue starts its expansion. */
  lemma PopFront(start: Pos, target: Pos, bound: nat, queue: seq<(Pos, nat)>, visited: set<Pos>, expanded: set<Pos>)
    requires SearchInvariant(start, target, bound, queue, visited, expanded) && queue != []
    ensures ExpandInvariant(start, target, queue[0].0, queue[0].1, 0, queue[1..], visited, expanded)
  {
    DistinctPop(queue);
  }

  /** What holds each time the search loop of `minKnightMoves` tests its
      queue: the start has been seen and the target not; every seen position
      is either expanded or queued; expanded positions have had all eight
      neighbours seen; the queue is in breadth-first order; everything within
      the front entry's distance has been seen; and that distance is below a
      bound the target is known to be within. */
  ghost predicate SearchInvariant(start: Pos, target: Pos, bound: nat, queue: seq<(Pos, nat)>, visited: set<Pos>, expanded: set<Pos>)
  {
    start in visited && target !in visited && target in WithinMoves(start, bound) &&
    visited == expanded + Queued(queue) &&
    Distinct(queue) && expanded !! Queued(queue) &&
    Expanded(expanded, visited) &&
    (queue != [] ==>
      Layered(start, queue, queue[0].1) &&
      WithinMoves(start, queue[0].1) <= visited &&
      queue[0].1 < bound)
  }

  /** What holds while the entry `(current, distance)` taken off the front of
      the queue is being expanded, after its first `tried` neighbours have
      been looked at. */
  ghost predicate ExpandInvariant(start: Pos, target: Pos, current: Pos, distance: nat, tried: nat,
                                  queue: seq<(Pos, nat)>, visited: set<Pos>, expanded: set<Pos>)
  {
    start in visited && target !in visited &&
    visited == expanded + {current} + Queued(queue) &&
    Distinct(queue) && current !in expanded && current !in Queued(queue) && expanded !! Queued(queue) &&
    Expanded(expanded, visited) &&
    Layered(start, queue, distance) &&
    FirstReachedAt(start, current, distance) &&
    WithinMoves(start, distance) <= visited &&
    tried <= |Directions| && Tried(current, tried, visited)
  }

  /** The body of the `for (const auto& dir : directions)` loop of
      `minKnightMoves`: tries the eight neighbours of `current` in order,
      stops at the target, and otherwise marks and enqueues each neighbour
      not seen before, at distance `distance + 1`. */
  method ExpandNeighbours(start: Pos, target: Pos, current: Pos, distance: nat,
                          queue: seq<(Pos, nat)>, visited: set<Pos>, ghost expanded: set<Pos>)
    returns (found: bool, queue': seq<(Pos, nat)>, visited': set<Pos>)
    requires ExpandInvariant(start, target, current, distance, 0, queue, visited, expanded)
    ensures found ==> IsDistance(start, target, distance + 1)
    ensures !found ==> ExpandInvariant(start, target, current, distance, |Directions|, queue', visited', expanded)
    ensures !found ==> Count(queue', distance) == Count(queue, distance)
    ensures !found ==> visited' == visited + Neighbours({current})
    ensures !found ==> queue' == queue + AtDistance(Unseen(current, visited, |Directions|), distance + 1)
  {
    queue', visited' := queue, visited;
    // the positions enqueued so far
    ghost var added: seq<Pos> := [];
    AppendedStart(current, visited, distance, queue);
    for i := 0 to |Directions|
      invariant ExpandInvariant(start, target, current, distance, i, queue', visited', expanded)
      invariant Count(queue', distance) == Count(queue, distance)
      invariant Appended(current, visited, distance, queue, i, visited', queue', added)
    {
      var next := Add(current, Directions[i]);
      AppendedStep(current, visited, distance, queue, i, visited', queue', added);
      if Equal(next, target) {
        NeighbourFirstReached(start, target, current, distance, i, queue', visited', expanded);
        FirstReachedIsDistance(start, target, distance + 1);
        return true, queue', visited';
      }
      if next !in visited' {
        NewNeighbour(start, target, current, distance, i, queue', visited', expanded);
        visited' := visited' + {next};
        queue' := queue' + [(next, distance + 1)];
        added := added + [next];
      } else {
        SeenNeighbour(start, target, current, distance, i, queue', visited', expanded);
      }
    }
    AppendedDone(current, visited, distance, queue, visited', queue', added);
    found := false;
  }

  /** The state of the direction loop of `ExpandNeighbours` after `i` steps:
      `added` holds the neighbours enqueued so far, each at distance
      `distance + 1` behind the entries that were queued already. */
  ghost predicate Appended(current: Pos, visited: set<Pos>, distance: nat, queue: seq<(Pos, nat)>,
                           i: nat, visited': set<Pos>, queue': seq<(Pos, nat)>, added: seq<Pos>)
  {
    i <= |Directions| && Pass(current, visited, [], i, visited', added) &&
    queue' == queue + AtDistance(added, distance + 1)
  }

  lemma AppendedStart(current: Pos, visited: set<Pos>, distance: nat, queue: seq<(Pos, nat)>)
    ensures Appended(current, visited, distance, queue, 0, visited, queue, [])
  {
    assert queue + [] == queue;
  }

  /** One step of the direction loop: a neighbour not seen yet is enqueued. */
  lemma AppendedStep(current: Pos, visited: set<Pos>, distance: nat, queue: seq<(Pos, nat)>,
                     i: nat, visited': set<Pos>, queue': seq<(Pos, nat)>, added: seq<Pos>)
    requires Appended(current, visited, distance, queue, i, visited', queue', added) && i < |Directions|
    ensures var next := Add(current, Directions[i]);
      if next in visited' then Appended(current, visited, distance, queue, i + 1, visited', queue', added)
      else Appended(current, visited, distance, queue, i + 1, visited' + {next},
                    queue' + [(next, distance + 1)], added + [next])
  {
    PassStep(current, visited, [], i, visited', added);
    AtDistancePush(queue, added, distance + 1, Add(current, Directions[i]));
  }

  lemma AppendedDone(current: Pos, visited: set<Pos>, distance: nat, queue: seq<(Pos, nat)>,
                     visited': set<Pos>, queue': seq<(Pos, nat)>, added: seq<Pos>)
    requires Appended(current, visited, distance, queue, |Directions|, visited', queue', added)
    ensures visited' == visited + Neighbours({current})
    ensures queue' == queue + AtDistance(Unseen(current, visited, |Directions|), distance + 1)
  {
    PassDone(current, visited, [], visited', added);
    assert [] + Unseen(current, visited, |Directions|) == Unseen(current, visited, |Directions|);
  }

  /** The positions `ps`, each queued with the distance `d`. */
  ghost function AtDistance(ps: seq<Pos>, d: nat): seq<(Pos, nat)>
  {
    if ps == [] then [] else AtDistance(ps[..|ps| - 1], d) + [(ps[|ps| - 1], d)]
  }

  /** Queueing one more position at distance `d`. */
  lemma AtDistancePush(queue: seq<(Pos, nat)>, added: seq<Pos>, d: nat, next: Pos)
    ensures (queue + AtDistance(added, d)) + [(next, d)] == queue + AtDistance(added + [next], d)
  {
    assert (added + [next])[..|added|] == added;
  }

  /** A neighbour of `current` not seen yet is first reached one move after it. */
  lemma NeighbourFirstReached(start: Pos, target: Pos, current: Pos, distance: nat, i: nat,
                              queue: seq<(Pos, nat)>, visited: set<Pos>, expanded: set<Pos>)
    requires ExpandInvariant(start, target, current, distance, i, queue, visited, expanded)
    requires i < |Directions| && Add(current, Directions[i]) !in visited
    ensures FirstReachedAt(start, Add(current, Directions[i]), distance + 1)
  {
    WithinStep(start, distance, current, i);
    assert (distance + 1) - 1 == distance;
  }

  /** Marking and enqueueing a neighbour not seen yet keeps the expansion
      invariant and leaves the number of entries at the current distance alone. */
  lemma NewNeighbour(start: Pos, target: Pos, current: Pos, distance: nat, i: nat,
                     queue: seq<(Pos, nat)>, visited: set<Pos>, expanded: set<Pos>)
    requires ExpandInvariant(start, target, current, distance, i, queue, visited, expanded)
    requires i < |Directions| && Add(current, Directions[i]) !in visited
    requires Add(current, Directions[i]) != target
    ensures var e := (Add(current, Directions[i]), distance + 1);
      ExpandInvariant(start, target, current, distance, i + 1, queue + [e], visited + {e.0}, expanded) &&
      Count(queue + [e], distance) == Count(queue, distance)
  {
    var e := (Add(current, Directions[i]), distance + 1);
    NeighbourFirstReached(start, target, current, distance, i, queue, visited, expanded);
    DistinctPush(queue, e);
    QueuedPush(queue, e);
    LayeredPush(start, queue, distance, e);
    CountPush(queue, distance, e);
  }

  /** A neighbour already seen is skipped. */
  lemma SeenNeighbour(start: Pos, target: Pos, current: Pos, distance: nat, i: nat,
                      queue: seq<(Pos, nat)>, visited: set<Pos>, expanded: set<Pos>)
    requires ExpandInvariant(start, target, current, distance, i, queue, visited, expanded)
    requires i < |Directions| && Add(current, Directions[i]) in visited
    ensures ExpandInvariant(start, target, current, distance, i + 1, queue, visited, expanded)
  {
  }

  /** Expanding the front entry restores the loop invariant. */
  lemma ExpansionRestoresInvariant(start: Pos, target: Pos, bound: nat, current: Pos, distance: nat,
                                   queue: seq<(Pos, nat)>, visited: set<Pos>, expanded: set<Pos>)
    requires distance < bound && target in WithinMoves(start, bound)
    requires ExpandInvariant(start, target, current, distance, |Directions|, queue, visited, expanded)
    ensures SearchInvariant(start, target, bound, queue, visited, expanded + {current})
  {
    ExpandedMore(current, queue, visited, expanded);
    if queue != [] {
      LayeredFront(start, queue, distance);
      if queue[0].1 != distance {
        NextLayerReached(start, distance, queue, visited, expanded + {current});
        BelowBound(start, target, distance + 1, bound);
      }
    }
  }

  /** Once all eight neighbours of `current` have been seen, it joins the
      expanded positions. */
  lemma ExpandedMore(current: Pos, queue: seq<(Pos, nat)>, visited: set<Pos>, expanded: set<Pos>)
    requires visited == expanded + {current} + Queued(queue)
    requires current !in Queued(queue) && expanded !! Queued(queue)
    requires Expanded(expanded, visited)
    requires forall j :: 0 <= j < |Directions| ==> Add(current, Directions[j]) in visited
    ensures visited == (expanded + {current}) + Queued(queue)
    ensures (expanded + {current}) !! Queued(queue)
    ensures Expanded(expanded + {current}, visited)
  {
    ExpandedAdd(expanded, current, visited);
  }

  /** A breadth-first queue stays in order when seen from its own front. */
  lemma LayeredFront(s: Pos, q: seq<(Pos, nat)>, lo: nat)
    requires Layered(s, q, lo) && q != []
    ensures Layered(s, q, q[0].1)
  {
  }

  /** When the front of the queue has moved on to distance `d + 1`, every
      position within `d + 1` moves has been seen. */
  lemma NextLayerReached(s: Pos, d: nat, q: seq<(Pos, nat)>, visited: set<Pos>, done: set<Pos>)
    requires q != [] && q[0].1 == d + 1 && Layered(s, q, d)
    requires visited == done + Queued(q)
    requires WithinMoves(s, d) <= visited && Expanded(done, visited)
    ensures WithinMoves(s, d + 1) <= visited
  {
    forall p | p in visited && p !in done
      ensures p !in WithinMoves(s, d)
    {
      var k := QueuedIndex(q, p);
      assert q[k].1 == d + 1;
      NotWithinBefore(s, p, d);
    }
    NextLayerSeen(s, d, visited, done);
  }

  /** `minKnightMoves` of knight.cpp: the number of knight moves on a shortest
      walk from `start` to `target`. The search always finds the target, so
      its final `return -1` is unreachable. */
  method MinKnightMoves(start: Pos, target: Pos) returns (r: int)
    ensures r >= 0 && IsDistance(start, target, r)
    ensures r == 0 <==> start == target
  {
    if Equal(start, target) {
      DistanceZero(start, target);
      return 0;
    }
    var queue: seq<(Pos, nat)> := [(start, 0)];
    var visited: set<Pos> := {start};
    // the positions already taken off the queue
    ghost var expanded: set<Pos> := {};
    // the target is within this many moves, so no distance in the queue reaches it
    ghost var bound := 3 * Spread(start, target);
    Connected(start, target);
    BelowBound(start, target, 0, bound);
    while queue != []
      invariant SearchInvariant(start, target, bound, queue, visited, expanded)
      decreases if queue == [] then 0 else bound - queue[0].1,
                if queue == [] then 0 else Count(queue, queue[0].1)
    {
      var (current, distance) := queue[0];
      PopFront(start, target, bound, queue, visited, expanded);
      queue := queue[1..];
      var found;
      found, queue, visited := ExpandNeighbours(start, target, current, distance, queue, visited, expanded);
      if found {
        return distance + 1;
      }
      ExpansionRestoresInvariant(start, target, bound, current, distance, queue, visited, expanded);
      expanded := expanded + {current};
    }
    // the queue never runs dry: every seen position has been expanded, so
    // everything reachable from start, the target included, has been seen
    ClosedHoldsWithin(start, visited, bound);
    assert false;
    return -1;
  }

  /** The queue of `getKnightPath` holds bare positions; `q` is the same queue
      with the distance of each entry attached, which `level` records too. */
  ghost predicate Tracks(queue: seq<Pos>, q: seq<(Pos, nat)>, level: map<Pos, nat>)
  {
    |queue| == |q| &&
    forall k :: 0 <= k < |q| ==> queue[k] == q[k].0 && q[k].0 in level && level[q[k].0] == q[k].1
  }

  /** The parent links `getKnightPath` records: every seen position but the
      start has one, which is a seen position one knight move away and one
      level nearer the start. `level` gives the number of moves after which
      each seen position was discovered. */
  ghost predicate ParentLinks(start: Pos, visited: set<Pos>, parent: map<Pos, Pos>, level: map<Pos, nat>)
  {
    level.Keys == visited && start in visited && level[start] == 0 &&
    parent.Keys == visited - {start} &&
    (forall p :: p in parent ==>
      p in level && parent[p] in level && level[parent[p]] + 1 == level[p] && KnightStep(parent[p], p))
  }

  /** Recording `parent[next] = current` for a newly seen neighbour keeps the
      links, and the queue entries keep their levels. */
  lemma LinkNeighbour(start: Pos, current: Pos, distance: nat, next: Pos,
                      queue: seq<Pos>, q: seq<(Pos, nat)>,
                      visited: set<Pos>, parent: map<Pos, Pos>, level: map<Pos, nat>)
    requires ParentLinks(start, visited, parent, level) && Tracks(queue, q, level)
    requires current in level && level[current] == distance
    requires next !in visited && KnightStep(current, next)
    ensures ParentLinks(start, visited + {next}, parent[next := current], level[next := distance + 1])
    ensures Tracks(queue + [next], q + [(next, distance + 1)], level[next := distance + 1])
  {
  }

  /** The back-walk of `getKnightPath`: follows the parent links from
      `target` to `start`, then reverses what it collected. The result is a
      walk from `start` to `target` with one move per level. */
  method ReconstructPath(start: Pos, target: Pos, parent: map<Pos, Pos>,
                         ghost level: map<Pos, nat>, ghost visited: set<Pos>)
    returns (path: seq<Pos>)
    requires ParentLinks(start, visited, parent, level) && target in visited
    ensures WalkBetween(path, start, target)
    ensures |path| == level[target] + 1
  {
    var back: seq<Pos> := [];
    var at := target;
    while NotEqual(at, start)
      invariant at in visited
      invariant WalkBetween(back + [at], target, at)
      invariant |back| + level[at] == level[target]
      decreases level[at]
    {
      var prev := parent[at];
      StepSymmetric(prev, at);
      ExtendWalk(back + [at], target, at, prev);
      back := back + [at];
      at := prev;
    }
    back := back + [start];
    path := Reversed(back);
    ReversedWalk(back, target, start);
  }

  /** The body of the direction loop of `getKnightPath`: as in
      `ExpandNeighbours`, but each newly seen neighbour also gets `current`
      as its parent, and on reaching the target the path is rebuilt. */
  method ExpandRecordingParents(start: Pos, target: Pos, current: Pos, ghost distance: nat,
                                queue: seq<Pos>, visited: set<Pos>, parent: map<Pos, Pos>,
                                ghost q: seq<(Pos, nat)>, ghost level: map<Pos, nat>, ghost expanded: set<Pos>)
    returns (found: bool, path: seq<Pos>, queue': seq<Pos>, visited': set<Pos>, parent': map<Pos, Pos>,
             ghost q': seq<(Pos, nat)>, ghost level': map<Pos, nat>)
    requires ExpandInvariant(start, target, current, distance, 0, q, visited, expanded)
    requires current in level && level[current] == distance
    requires Tracks(queue, q, level) && ParentLinks(start, visited, parent, level)
    ensures found ==> WalkBetween(path, start, target) && IsDistance(start, target, |path| - 1)
    ensures !found ==> ExpandInvariant(start, target, current, distance, |Directions|, q', visited', expanded)
    ensures !found ==> Count(q', distance) == Count(q, distance)
    ensures !found ==> Tracks(queue', q', level') && ParentLinks(start, visited', parent', level')
    ensures !found ==> visited' == visited + Neighbours({current})
    ensures !found ==> queue' == queue + Unseen(current, visited, |Directions|)
    ensures !found ==> forall p :: p in parent ==> p in parent' && parent'[p] == parent[p]
    ensures !found ==> forall p :: p in parent' && p !in parent ==> parent'[p] == current
  {
    queue', visited', parent', q', level' := queue, visited, parent, q, level;
    path := [];
    RecordedStart(current, visited, queue, parent);
    for i := 0 to |Directions|
      invariant Recording(start, target, current, distance, expanded, q, visited, queue, parent,
                          i, q', visited', queue', parent', level')
    {
      var next := Add(current, Directions[i]);
      if Equal(next, target) {
        NeighbourFirstReached(start, target, current, distance, i, q', visited', expanded);
        DirectionIsStep(current, i);
        LinkNeighbour(start, current, distance, next, queue', q', visited', parent', level');
        parent' := parent'[next := current];
        level' := level'[next := distance + 1];
        path := ReconstructPath(start, target, parent', level', visited' + {next});
        FirstReachedIsDistance(start, target, distance + 1);
        return true, path, queue', visited', parent', q', level';
      }
      RecordingStep(start, target, current, distance, expanded, q, visited, queue, parent,
                    i, q', visited', queue', parent', level');
      if next !in visited' {
        visited' := visited' + {next};
        parent' := parent'[next := current];
        level' := level'[next := distance + 1];
        queue' := queue' + [next];
        q' := q' + [(next, distance + 1)];
      }
    }
    RecordedDone(current, visited, queue, parent, visited', queue', parent');
    found := false;
  }

  /** The state of the direction loop of `ExpandRecordingParents` after `i`
      steps: the expansion invariant, the parent links and the pass so far. */
  ghost predicate Recording(start: Pos, target: Pos, current: Pos, distance: nat, expanded: set<Pos>,
                            q: seq<(Pos, nat)>, visited: set<Pos>, queue: seq<Pos>, parent: map<Pos, Pos>,
                            i: nat, q': seq<(Pos, nat)>, visited': set<Pos>, queue': seq<Pos>,
                            parent': map<Pos, Pos>, level': map<Pos, nat>)
  {
    ExpandInvariant(start, target, current, distance, i, q', visited', expanded) &&
    Count(q', distance) == Count(q, distance) &&
    Tracks(queue', q', level') && ParentLinks(start, visited', parent', level') &&
    current in level' && level'[current] == distance &&
    Recorded(current, visited, queue, parent, i, visited', queue', parent')
  }

  /** One step of the direction loop of `ExpandRecordingParents` past a
      neighbour that is not the target. */
  lemma RecordingStep(start: Pos, target: Pos, current: Pos, distance: nat, expanded: set<Pos>,
                      q: seq<(Pos, nat)>, visited: set<Pos>, queue: seq<Pos>, parent: map<Pos, Pos>,
                      i: nat, q': seq<(Pos, nat)>, visited': set<Pos>, queue': seq<Pos>,
                      parent': map<Pos, Pos>, level': map<Pos, nat>)
    requires Recording(start, target, current, distance, expanded, q, visited, queue, parent,
                       i, q', visited', queue', parent', level')
    requires i < |Directions| && Add(current, Directions[i]) != target
    ensures var next := Add(current, Directions[i]);
      if next in visited' then
        Recording(start, target, current, distance, expanded, q, visited, queue, parent,
                  i + 1, q', visited', queue', parent', level')
      else
        Recording(start, target, current, distance, expanded, q, visited, queue, parent,
                  i + 1, q' + [(next, distance + 1)], visited' + {next}, queue' + [next],
                  parent'[next := current], level'[next := distance + 1])
  {
    var next := Add(current, Directions[i]);
    RecordedStep(current, visited, queue, parent, i, visited', queue', parent');
    if next !in visited' {
      NewNeighbour(start, target, current, distance, i, q', visited', expanded);
      NeighbourFirstReached(start, target, current, distance, i, q', visited', expanded);
      DirectionIsStep(current, i);
      LinkNeighbour(start, current, distance, next, queue', q', visited', parent', level');
    } else {
      SeenNeighbour(start, target, current, distance, i, q', visited', expanded);
    }
  }

  /** The state of the direction loop of `getKnightPath` after `i` steps,
      as in `Appended`: the queue has grown by exactly the unseen
      neighbours looked at, in table order, each of which got `current` as
      its parent; no earlier link was changed. */
  ghost predicate Recorded(current: Pos, visited: set<Pos>, queue: seq<Pos>, parent: map<Pos, Pos>,
                           i: nat, visited': set<Pos>, queue': seq<Pos>, parent': map<Pos, Pos>)
  {
    i <= |Directions| && Pass(current, visited, queue, i, visited', queue') &&
    parent.Keys <= visited &&
    (forall p :: p in parent ==> p in parent' && parent'[p] == parent[p]) &&
    (forall p :: p in parent' && p !in parent ==> parent'[p] == current)
  }

  lemma RecordedStart(current: Pos, visited: set<Pos>, queue: seq<Pos>, parent: map<Pos, Pos>)
    requires parent.Keys <= visited
    ensures Recorded(current, visited, queue, parent, 0, visited, queue, parent)
  {
    assert queue + [] == queue;
  }

  /** One step of the direction loop: a neighbour not seen yet is enqueued
      and linked to `current`. */
  lemma RecordedStep(current: Pos, visited: set<Pos>, queue: seq<Pos>, parent: map<Pos, Pos>,
                     i: nat, visited': set<Pos>, queue': seq<Pos>, parent': map<Pos, Pos>)
    requires Recorded(current, visited, queue, parent, i, visited', queue', parent') && i < |Directions|
    ensures var next := Add(current, Directions[i]);
      if next in visited' then Recorded(current, visited, queue, parent, i + 1, visited', queue', parent')
      else Recorded(current, visited, queue, parent, i + 1, visited' + {next}, queue' + [next], parent'[next := current])
  {
    PassStep(current, visited, queue, i, visited', queue');
  }

  lemma RecordedDone(current: Pos, visited: set<Pos>, queue: seq<Pos>, parent: map<Pos, Pos>,
                     visited': set<Pos>, queue': seq<Pos>, parent': map<Pos, Pos>)
    requires Recorded(current, visited, queue, parent, |Directions|, visited', queue', parent')
    ensures visited' == visited + Neighbours({current})
    ensures queue' == queue + Unseen(current, visited, |Directions|)
    ensures forall p :: p in parent ==> p in parent' && parent'[p] == parent[p]
    ensures forall p :: p in parent' && p !in parent ==> parent'[p] == current
  {
    PassDone(current, visited, queue, visited', queue');
  }

  /** `getKnightPath` of knight.cpp: a shortest walk from `start` to `target`,
      both ends included. Its final `return {}` is unreachable for the same
      reason as in `MinKnightMoves`. */
  method GetKnightPath(start: Pos, target: Pos) returns (path: seq<Pos>)
    ensures WalkBetween(path, start, target)
    ensures IsDistance(start, target, |path| - 1)
    ensures start == target ==> path == [start]
  {
    if Equal(start, target) {
      DistanceZero(start, target);
      assert WalkBetween([start], start, target);
      return [start];
    }
    var queue: seq<Pos> := [start];
    var visited: set<Pos> := {start};
    var parent: map<Pos, Pos> := map[];
    ghost var q: seq<(Pos, nat)> := [(start, 0)];
    ghost var level: map<Pos, nat> := map[start := 0];
    ghost var expanded: set<Pos> := {};
    ghost var bound := 3 * Spread(start, target);
    Connected(start, target);
    BelowBound(start, target, 0, bound);
    while queue != []
      invariant SearchInvariant(start, target, bound, q, visited, expanded)
      invariant Tracks(queue, q, level) && ParentLinks(start, visited, parent, level)
      decreases if q == [] then 0 else bound - q[0].1,
                if q == [] then 0 else Count(q, q[0].1)
    {
      var current := queue[0];
      ghost var distance := q[0].1;
      PopFront(start, target, bound, q, visited, expanded);
      queue := queue[1..];
      q := q[1..];
      var found;
      found, path, queue, visited, parent, q, level :=
        ExpandRecordingParents(start, target, current, distance, queue, visited, parent, q, level, expanded);
      if found {
        return path;
      }
      ExpansionRestoresInvariant(start, target, bound, current, distance, q, visited, expanded);
      expanded := expanded + {current};
    }
    ClosedHoldsWithin(start, visited, bound);
    assert false;
    return [];
  }
}
