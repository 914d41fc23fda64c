/** The `minKnightMoves` written out in knight.h: its queue holds bare
    positions, and the search counts moves by draining the queue one whole
    layer at a time. */
module LayeredSearch {
  import opened Position
  import opened KnightGraph

  /** The state while the layer at `moves` is being drained: everything
      within `moves` moves has been seen, and the only other seen positions
      are the ones pushed for the next layer, each first reached after
      `moves + 1` moves. The target has not been seen. */
  ghost predicate Growing(start: Pos, target: Pos, moves: nat, visited: set<Pos>, pushed: seq<Pos>)
  {
    WithinMoves(start, moves) <= visited &&
    (forall p :: p in visited ==> p in WithinMoves(start, moves) || p in pushed) &&
    (forall p :: p in pushed ==> p in visited && FirstReachedAt(start, p, moves + 1)) &&
    NoRepeats(pushed) &&
    target !in visited
  }

  /** What holds each time the outer loop tests the queue: exactly the
      positions within `moves` moves have been seen, the queue holds exactly
      the layer first reached after `moves` moves, and the target lies
      beyond `moves` but within `bound`. */
  ghost predicate LayerInvariant(start: Pos, target: Pos, bound: nat, moves: nat, q: seq<Pos>, visited: set<Pos>)
  {
    visited == WithinMoves(start, moves) &&
    (forall p :: p in q <==> FirstReachedAt(start, p, moves)) && NoRepeats(q) &&
    target !in visited && target in WithinMoves(start, bound) &&
    moves < bound
  }

  /** The innermost loop of the layered `minKnightMoves`: tries the eight
      neighbours of `current`, stops at the target, and otherwise marks and
      enqueues each neighbour not seen before: exactly the unseen neighbours,
      in table order. */
  method ExpandEntry(start: Pos, target: Pos, moves: nat, current: Pos,
                     q: seq<Pos>, visited: set<Pos>, ghost rest: seq<Pos>, ghost pushed: seq<Pos>)
    returns (found: bool, q': seq<Pos>, visited': set<Pos>, ghost pushed': seq<Pos>)
    requires Growing(start, target, moves, visited, pushed) && q == rest + pushed
    requires current in WithinMoves(start, moves)
    ensures found ==> IsDistance(start, target, moves + 1)
    ensures !found ==> Growing(start, target, moves, visited', pushed')
    ensures !found ==> q' == rest + pushed' && Tried(current, |Directions|, visited')
    ensures !found ==> visited' == visited + Neighbours({current})
    ensures !found ==> pushed' == pushed + Unseen(current, visited, |Directions|)
    ensures !found ==> q' == q + Unseen(current, visited, |Directions|)
  {
    q', visited', pushed' := q, visited, pushed;
    EntryStart(start, target, moves, current, visited, q, pushed);
    for i := 0 to |Directions|
      invariant Entry(start, target, moves, current, visited, q, pushed, i, visited', q', pushed')
    {
      var next := Add(current, Directions[i]);
      if Equal(next, target) {
        NextLayerEntry(start, target, moves, current, i, visited', pushed');
        FirstReachedIsDistance(start, target, moves + 1);
        return true, q', visited', pushed';
      }
      EntryStep(start, target, moves, current, visited, q, pushed, i, visited', q', pushed');
      if next !in visited' {
        visited' := visited' + {next};
        q' := q' + [next];
        pushed' := pushed' + [next];
      }
    }
    EntryDone(start, target, moves, current, visited, q, rest, pushed, visited', q', pushed');
    found := false;
  }

  lemma EntryStart(start: Pos, target: Pos, moves: nat, current: Pos,
                   visited: set<Pos>, q: seq<Pos>, pushed: seq<Pos>)
    requires Growing(start, target, moves, visited, pushed)
    requires current in WithinMoves(start, moves)
    ensures Entry(start, target, moves, current, visited, q, pushed, 0, visited, q, pushed)
  {
    assert q + [] == q && pushed + [] == pushed;
  }

  /** After the eighth step the state is the one `ExpandEntry` promises. */
  lemma EntryDone(start: Pos, target: Pos, moves: nat, current: Pos,
                  visited: set<Pos>, q: seq<Pos>, rest: seq<Pos>, pushed: seq<Pos>,
                  visited': set<Pos>, q': seq<Pos>, pushed': seq<Pos>)
    requires Entry(start, target, moves, current, visited, q, pushed, |Directions|, visited', q', pushed')
    requires q == rest + pushed
    ensures Growing(start, target, moves, visited', pushed')
    ensures q' == rest + pushed' && Tried(current, |Directions|, visited')
    ensures visited' == visited + Neighbours({current})
    ensures pushed' == pushed + Unseen(current, visited, |Directions|)
    ensures q' == q + Unseen(current, visited, |Directions|)
  {
    PassDone(current, visited, pushed, visited', pushed');
    PassDone(current, visited, q, visited', q');
    Regroup(rest, pushed, Unseen(current, visited, |Directions|));
  }

  lemma Regroup(a: seq<Pos>, b: seq<Pos>, c: seq<Pos>)
    ensures (a + b) + c == a + (b + c)
  {
  }

  /** The state of the direction loop of `ExpandEntry` after `i` steps. */
  ghost predicate Entry(start: Pos, target: Pos, moves: nat, current: Pos,
                        visited: set<Pos>, q: seq<Pos>, pushed: seq<Pos>,
                        i: nat, visited': set<Pos>, q': seq<Pos>, pushed': seq<Pos>)
  {
    i <= |Directions| && current in WithinMoves(start, moves) &&
    Growing(start, target, moves, visited', pushed') &&
    Pass(current, visited, pushed, i, visited', pushed') &&
    Pass(current, visited, q, i, visited', q')
  }

  /** One step of the direction loop of `ExpandEntry` past a neighbour that
      is not the target. */
  lemma EntryStep(start: Pos, target: Pos, moves: nat, current: Pos,
                  visited: set<Pos>, q: seq<Pos>, pushed: seq<Pos>,
                  i: nat, visited': set<Pos>, q': seq<Pos>, pushed': seq<Pos>)
    requires Entry(start, target, moves, current, visited, q, pushed, i, visited', q', pushed')
    requires i < |Directions| && Add(current, Directions[i]) != target
    ensures var next := Add(current, Directions[i]);
      if next in visited' then Entry(start, target, moves, current, visited, q, pushed, i + 1, visited', q', pushed')
      else Entry(start, target, moves, current, visited, q, pushed, i + 1, visited' + {next}, q' + [next], pushed' + [next])
  {
    var next := Add(current, Directions[i]);
    PassStep(current, visited, pushed, i, visited', pushed');
    PassStep(current, visited, q, i, visited', q');
    if next !in visited' {
      NextLayerEntry(start, target, moves, current, i, visited', pushed');
    }
  }

  /** A neighbour of a position within `moves` moves that has not been seen
      belongs to the next layer, and seeing it keeps the state. */
  lemma NextLayerEntry(start: Pos, target: Pos, moves: nat, current: Pos, i: nat,
                       visited: set<Pos>, pushed: seq<Pos>)
    requires Growing(start, target, moves, visited, pushed)
    requires current in WithinMoves(start, moves) && i < |Directions|
    requires Add(current, Directions[i]) !in visited
    ensures FirstReachedAt(start, Add(current, Directions[i]), moves + 1)
    ensures var next := Add(current, Directions[i]);
      next != target ==> Growing(start, target, moves, visited + {next}, pushed + [next])
  {
    var next := Add(current, Directions[i]);
    WithinStep(start, moves, current, i);
    assert (moves + 1) - 1 == moves;
  }

  /** Everything within `moves` moves but not in the layer was expanded
      earlier: its neighbours lie within `moves` moves. */
  lemma InteriorExpanded(start: Pos, moves: nat)
    ensures Expanded(Interior(start, moves), WithinMoves(start, moves))
  {
    if moves > 0 {
      var inner := WithinMoves(start, moves - 1);
      forall p, i | p in inner && 0 <= i < |Directions|
        ensures Add(p, Directions[i]) in WithinMoves(start, moves)
      {
        WithinStepInto(start, moves, p, i);
      }
      assert Interior(start, moves) == inner;
    }
  }

  /** The positions within `moves - 1` moves; none before the first layer. */
  ghost function Interior(start: Pos, moves: nat): set<Pos>
  {
    if moves == 0 then {} else WithinMoves(start, moves - 1)
  }

  /** Draining a whole layer leaves exactly the positions within `moves + 1`
      moves seen, and exactly the next layer pushed. */
  lemma LayerDrained(start: Pos, target: Pos, moves: nat, layer: seq<Pos>,
                     done: set<Pos>, visited: set<Pos>, pushed: seq<Pos>)
    requires forall p :: p in layer <==> FirstReachedAt(start, p, moves)
    requires Interior(start, moves) <= done
    requires forall k :: 0 <= k < |layer| ==> layer[k] in done
    requires Expanded(done, visited)
    requires Growing(start, target, moves, visited, pushed)
    ensures visited == WithinMoves(start, moves + 1)
    ensures forall p :: p in pushed <==> FirstReachedAt(start, p, moves + 1)
  {
    forall p | p in WithinMoves(start, moves)
      ensures p in done
    {
      if moves > 0 && p in WithinMoves(start, moves - 1) {
        assert p in Interior(start, moves);
      } else {
        assert FirstReachedAt(start, p, moves);
        var k :| 0 <= k < |layer| && layer[k] == p;
      }
    }
    NextLayerSeen(start, moves, visited, done);
    WithinMonotone(start, moves, moves + 1);
    forall p | FirstReachedAt(start, p, moves + 1)
      ensures p in pushed
    {
      NotWithinBefore(start, p, moves);
    }
  }

  /** When a layer is empty, every position within `moves` moves lies within
      `moves - 1`, so the seen set is closed under knight moves. */
  lemma EmptyLayerCloses(start: Pos, moves: nat)
    requires moves > 0
    requires forall p :: !FirstReachedAt(start, p, moves)
    ensures Expanded(WithinMoves(start, moves), WithinMoves(start, moves))
  {
    forall p, i | p in WithinMoves(start, moves) && 0 <= i < |Directions|
      ensures Add(p, Directions[i]) in WithinMoves(start, moves)
    {
      assert !FirstReachedAt(start, p, moves);
      WithinStepInto(start, moves, p, i);
    }
  }

  /** The state of the layer loop after the first `i` entries of `layer`
      have been taken off the queue and expanded; `done` holds the expanded
      positions, the interior of the ball included. */
  ghost predicate Draining(start: Pos, target: Pos, moves: nat, layer: seq<Pos>, i: nat,
                           q: seq<Pos>, visited: set<Pos>, pushed: seq<Pos>, done: set<Pos>)
  {
    i <= |layer| && q == layer[i..] + pushed &&
    Growing(start, target, moves, visited, pushed) &&
    Interior(start, moves) <= done && Expanded(done, visited) &&
    (forall k :: 0 <= k < i ==> layer[k] in done)
  }

  lemma DrainStart(start: Pos, target: Pos, moves: nat, layer: seq<Pos>, visited: set<Pos>)
    requires visited == WithinMoves(start, moves) && target !in visited
    ensures Draining(start, target, moves, layer, 0, layer, visited, [], Interior(start, moves))
  {
    InteriorExpanded(start, moves);
    assert layer[0..] + [] == layer;
  }

  /** The front of the queue is the next entry of the layer. */
  lemma DrainPop(start: Pos, target: Pos, moves: nat, layer: seq<Pos>, i: nat,
                 q: seq<Pos>, visited: set<Pos>, pushed: seq<Pos>, done: set<Pos>)
    requires Draining(start, target, moves, layer, i, q, visited, pushed, done) && i < |layer|
    requires forall p :: p in layer <==> FirstReachedAt(start, p, moves)
    ensures q != [] && q[0] == layer[i] && q[1..] == layer[i + 1..] + pushed
    ensures q[0] in WithinMoves(start, moves)
  {
    assert layer[i] in layer;
    assert q[1..] == layer[i + 1..] + pushed;
  }

  /** Expanding the next entry of the layer moves the loop on by one. */
  lemma DrainNext(start: Pos, target: Pos, moves: nat, layer: seq<Pos>, i: nat,
                  q: seq<Pos>, visited: set<Pos>, pushed: seq<Pos>, done: set<Pos>,
                  q': seq<Pos>, visited': set<Pos>, pushed': seq<Pos>)
    requires Draining(start, target, moves, layer, i, q, visited, pushed, done) && i < |layer|
    requires Growing(start, target, moves, visited', pushed')
    requires q' == layer[i + 1..] + pushed' && visited <= visited'
    requires Tried(layer[i], |Directions|, visited')
    ensures Draining(start, target, moves, layer, i + 1, q', visited', pushed', done + {layer[i]})
  {
    ExpandedAdd(done, layer[i], visited');
  }

  /** The `for (int i = 0; i < size; ++i)` loop of the layered
      `minKnightMoves`: pops the `size` entries of the current layer, expanding
      each, and leaves exactly the next layer in the queue. */
  method DrainLayer(start: Pos, target: Pos, moves: nat, q: seq<Pos>, visited: set<Pos>)
    returns (found: bool, q': seq<Pos>, visited': set<Pos>)
    requires visited == WithinMoves(start, moves) && target !in visited
    requires forall p :: p in q <==> FirstReachedAt(start, p, moves)
    ensures found ==> IsDistance(start, target, moves + 1)
    ensures !found ==> visited' == WithinMoves(start, moves + 1) && target !in visited'
    ensures !found ==> forall p :: p in q' <==> FirstReachedAt(start, p, moves + 1)
    ensures !found ==> NoRepeats(q')
  {
    ghost var pushed: seq<Pos> := [];
    ghost var done := Interior(start, moves);
    DrainStart(start, target, moves, q, visited);
    q', visited' := q, visited;
    var size := |q'|;
    for i := 0 to size
      invariant Draining(start, target, moves, q, i, q', visited', pushed, done)
    {
      DrainPop(start, target, moves, q, i, q', visited', pushed, done);
      ghost var (q0, visited0, pushed0) := (q', visited', pushed);
      var current := q'[0];
      q' := q'[1..];
      found, q', visited', pushed := ExpandEntry(start, target, moves, current, q', visited', q[i + 1..], pushed);
      if found {
        return;
      }
      DrainNext(start, target, moves, q, i, q0, visited0, pushed0, done, q', visited', pushed);
      done := done + {current};
    }
    assert q' == pushed;
    LayerDrained(start, target, moves, q, done, visited', pushed);
    found := false;
  }

  /** `minKnightMoves` of knight.h: the number of knight moves on a shortest
      walk from `start` to `target`. The queue never runs dry, so the final
      `return -1` is unreachable. */
  method MinKnightMoves(start: Pos, target: Pos) returns (r: int)
    ensures r >= 0 && IsDistance(start, target, r)
    ensures r == 0 <==> start == target
  {
    if Equal(start, target) {
      DistanceZero(start, target);
      return 0;
    }
    var q: seq<Pos> := [start];
    var visited: set<Pos> := {start};
    var moves: nat := 0;
    ghost var bound := 3 * Spread(start, target);
    Connected(start, target);
    BelowBound(start, target, 0, bound);
    while q != []
      invariant LayerInvariant(start, target, bound, moves, q, visited)
      decreases bound - moves
    {
      var found;
      found, q, visited := DrainLayer(start, target, moves, q, visited);
      if found {
        return moves + 1;
      }
      BelowBound(start, target, moves + 1, bound);
      moves := moves + 1;
    }
    assert moves > 0 by {
      assert FirstReachedAt(start, start, 0);
    }
    EmptyLayerCloses(start, moves);
    WithinMonotone(start, 0, moves);
    ClosedHoldsWithin(start, WithinMoves(start, moves), bound);
    assert false;
    return -1;
  }
}
