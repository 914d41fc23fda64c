/** The implicit graph both searches explore: its nodes are the positions of
    the unbounded lattice, its edges the eight knight moves. This module holds
    the reference notions the searches are proved against (walks, knight
    distance) and the finite sets of positions within n moves of a start,
    which is what a breadth-first search enumerates layer by layer. */
module KnightGraph {
  import opened Position

  /** The eight displacements, in the order both source files list them. */
  const Directions: seq<Pos> := [
    Pos(2, 1), Pos(2, -1), Pos(-2, 1), Pos(-2, -1),
    Pos(1, 2), Pos(1, -2), Pos(-1, 2), Pos(-1, -2)
  ]

  function Abs(x: int): (a: nat)
  {
    if x < 0 then -x else x
  }

  /** A knight moves two squares along one axis and one along the other. */
  predicate IsKnightOffset(d: Pos)
  {
    (Abs(d.row) == 2 && Abs(d.col) == 1) || (Abs(d.row) == 1 && Abs(d.col) == 2)
  }

  predicate KnightStep(a: Pos, b: Pos)
  {
    IsKnightOffset(Pos(b.row - a.row, b.col - a.col))
  }

  /** The direction table is exactly the set of knight offsets, without repeats. */
  lemma DirectionsAreKnightOffsets()
    ensures |Directions| == 8
    ensures forall i :: 0 <= i < |Directions| ==> IsKnightOffset(Directions[i])
    ensures forall d :: IsKnightOffset(d) ==> d in Directions
    ensures forall i, j :: 0 <= i < j < |Directions| ==> Directions[i] != Directions[j]
  {
  }

  /** The index of the direction that takes `a` to `b`. */
  lemma StepDirection(a: Pos, b: Pos) returns (i: nat)
    requires KnightStep(a, b)
    ensures i < |Directions| && b == Add(a, Directions[i])
  {
    var d := Pos(b.row - a.row, b.col - a.col);
    DirectionsAreKnightOffsets();
    i :| 0 <= i < |Directions| && Directions[i] == d;
  }

  lemma DirectionIsStep(p: Pos, i: nat)
    requires i < |Directions|
    ensures KnightStep(p, Add(p, Directions[i]))
  {
    DirectionsAreKnightOffsets();
  }

  lemma StepSymmetric(a: Pos, b: Pos)
    requires KnightStep(a, b)
    ensures KnightStep(b, a)
  {
  }

  // ---------------------------------------------------------------------
  // Walks and distance

  /** Consecutive positions of `w` are one knight move apart. */
  ghost predicate IsWalk(w: seq<Pos>)
  {
    forall k :: 0 <= k < |w| - 1 ==> KnightStep(w[k], w[k + 1])
  }

  /** `w` is a walk that starts at `s` and ends at `t`; it makes |w| - 1 moves. */
  ghost predicate WalkBetween(w: seq<Pos>, s: Pos, t: Pos)
  {
    |w| > 0 && w[0] == s && w[|w| - 1] == t && IsWalk(w)
  }

  /** The knight distance from `s` to `t` is `n`: some walk makes `n` moves
      and no walk makes fewer. */
  ghost predicate IsDistance(s: Pos, t: Pos, n: nat)
  {
    (exists w :: WalkBetween(w, s, t) && |w| == n + 1) &&
    (forall w :: WalkBetween(w, s, t) ==> n + 1 <= |w|)
  }

  /** `std::reverse` on the collected path: the last element comes first. */
  function Reversed(w: seq<Pos>): (r: seq<Pos>)
    ensures |r| == |w|
    ensures forall k :: 0 <= k < |w| ==> r[k] == w[|w| - 1 - k]
  {
    if w == [] then [] else Reversed(w[1..]) + [w[0]]
  }

  /** Reversing twice gives the walk back. */
  lemma ReversedTwice(w: seq<Pos>)
    ensures Reversed(Reversed(w)) == w
  {
    assert forall k :: 0 <= k < |w| ==> Reversed(Reversed(w))[k] == w[k];
  }

  lemma ExtendWalk(w: seq<Pos>, s: Pos, p: Pos, t: Pos)
    requires WalkBetween(w, s, p) && KnightStep(p, t)
    ensures WalkBetween(w + [t], s, t)
  {
    var v := w + [t];
    forall k | 0 <= k < |v| - 1
      ensures KnightStep(v[k], v[k + 1])
    {
      if k < |w| - 1 {
        assert v[k] == w[k] && v[k + 1] == w[k + 1];
      }
    }
  }

  /** Knight moves are reversible, so a walk read backwards is a walk. */
  lemma ReversedWalk(w: seq<Pos>, s: Pos, t: Pos)
    requires WalkBetween(w, s, t)
    ensures WalkBetween(Reversed(w), t, s)
  {
    var r := Reversed(w);
    forall k | 0 <= k < |r| - 1
      ensures KnightStep(r[k], r[k + 1])
    {
      StepSymmetric(w[|w| - 2 - k], w[|w| - 1 - k]);
    }
  }

  /** The distance is symmetric. */
  lemma DistanceSymmetric(s: Pos, t: Pos, n: nat)
    requires IsDistance(s, t, n)
    ensures IsDistance(t, s, n)
  {
    var w :| WalkBetween(w, s, t) && |w| == n + 1;
    ReversedWalk(w, s, t);
    forall v | WalkBetween(v, t, s)
      ensures n + 1 <= |v|
    {
      ReversedWalk(v, t, s);
    }
  }

  /** The distance, when it exists, is unique: two searches proved to return
      the distance of the same pair return the same number. */
  lemma DistanceUnique(s: Pos, t: Pos, m: nat, n: nat)
    requires IsDistance(s, t, m) && IsDistance(s, t, n)
    ensures m == n
  {
    var v :| WalkBetween(v, s, t) && |v| == m + 1;
    var w :| WalkBetween(w, s, t) && |w| == n + 1;
  }

  lemma DistanceZero(s: Pos, t: Pos)
    ensures IsDistance(s, t, 0) <==> s == t
  {
    if s == t {
      assert WalkBetween([s], s, t);
    }
  }

  // ---------------------------------------------------------------------
  // Positions within n moves

  /** Every position one knight move from some position of `b`. */
  ghost function Neighbours(b: set<Pos>): set<Pos>
  {
    set p, i | p in b && 0 <= i < |Directions| :: Add(p, Directions[i])
  }

  /** The positions a knight standing on `s` reaches in at most `n` moves. */
  ghost function WithinMoves(s: Pos, n: nat): set<Pos>
  {
    if n == 0 then {s} else WithinMoves(s, n - 1) + Neighbours(WithinMoves(s, n - 1))
  }

  /** `t` is first reached after `n` moves: it is within `n` moves and not within fewer. */
  ghost predicate FirstReachedAt(s: Pos, t: Pos, n: nat)
  {
    t in WithinMoves(s, n) && (n > 0 ==> t !in WithinMoves(s, n - 1))
  }

  /** Every direction applied to a node of `done` lands in `seen`: the nodes of
      `done` have been fully expanded. */
  ghost predicate Expanded(done: set<Pos>, seen: set<Pos>)
  {
    forall p, i {:trigger Add(p, Directions[i])} ::
      p in done && 0 <= i < |Directions| ==> Add(p, Directions[i]) in seen
  }

  /** A position whose eight neighbours have all been seen can join the expanded ones. */
  lemma ExpandedAdd(done: set<Pos>, p: Pos, seen: set<Pos>)
    requires Expanded(done, seen)
    requires forall j :: 0 <= j < |Directions| ==> Add(p, Directions[j]) in seen
    ensures Expanded(done + {p}, seen)
  {
  }

  // ---------------------------------------------------------------------
  // One pass of a direction loop

  /** No position occurs twice in the sequence. */
  ghost predicate NoRepeats(ps: seq<Pos>)
  {
    forall k, l :: 0 <= k < l < |ps| ==> ps[k] != ps[l]
  }

  /** The first `i` neighbours of `current`, in table order, have been seen. */
  ghost predicate Tried(current: Pos, i: nat, visited: set<Pos>)
  {
    forall j :: 0 <= j < i && j < |Directions| ==> Add(current, Directions[j]) in visited
  }

  lemma TriedMore(current: Pos, i: nat, visited: set<Pos>, visited': set<Pos>)
    requires Tried(current, i, visited) && visited <= visited'
    requires i < |Directions| && Add(current, Directions[i]) in visited'
    ensures Tried(current, i + 1, visited')
  {
  }

  /** The neighbours of `p` the first `i` entries of the table lead to. */
  ghost function FirstNeighbours(p: Pos, i: nat): set<Pos>
    requires i <= |Directions|
  {
    if i == 0 then {} else FirstNeighbours(p, i - 1) + {Add(p, Directions[i - 1])}
  }

  /** Table entry `k` leads to none of the neighbours of the entries before
      it, because the table has no repeats. */
  lemma {:induction false} LaterNeighbour(p: Pos, i: nat, k: nat)
    requires i <= k < |Directions|
    ensures Add(p, Directions[k]) !in FirstNeighbours(p, i)
  {
    if i > 0 {
      LaterNeighbour(p, i - 1, k);
      assert Directions[i - 1] != Directions[k];
    }
  }

  /** The first `i` entries lead to exactly the neighbours `Add(p, Directions[j])` with `j < i`. */
  lemma {:induction false} FirstNeighbourIndex(p: Pos, i: nat, x: Pos) returns (j: nat)
    requires i <= |Directions| && x in FirstNeighbours(p, i)
    ensures j < i && x == Add(p, Directions[j])
  {
    if x == Add(p, Directions[i - 1]) {
      j := i - 1;
    } else {
      j := FirstNeighbourIndex(p, i - 1, x);
    }
  }

  lemma {:induction false} IndexFirstNeighbour(p: Pos, i: nat, j: nat)
    requires j < i <= |Directions|
    ensures Add(p, Directions[j]) in FirstNeighbours(p, i)
  {
    if j < i - 1 {
      IndexFirstNeighbour(p, i - 1, j);
    }
  }

  /** All eight entries lead to exactly the neighbours of `p`. */
  lemma AllNeighbours(p: Pos)
    ensures FirstNeighbours(p, |Directions|) == Neighbours({p})
  {
    forall x | x in Neighbours({p})
      ensures x in FirstNeighbours(p, |Directions|)
    {
      var i :| 0 <= i < |Directions| && x == Add(p, Directions[i]);
      IndexFirstNeighbour(p, |Directions|, i);
    }
    forall x | x in FirstNeighbours(p, |Directions|)
      ensures x in Neighbours({p})
    {
      var j := FirstNeighbourIndex(p, |Directions|, x);
    }
  }

  /** The neighbours of `p` the first `i` table entries lead to that are not
      in `seen`, in table order: what one pass of a direction loop enqueues. */
  ghost function Unseen(p: Pos, seen: set<Pos>, i: nat): seq<Pos>
    requires i <= |Directions|
  {
    if i == 0 then []
    else
      var next := Add(p, Directions[i - 1]);
      Unseen(p, seen, i - 1) + (if next in seen then [] else [next])
  }

  /** A pass enqueues exactly the unseen ones among the neighbours it looks
      at, each once. */
  lemma {:induction false} UnseenExactly(p: Pos, seen: set<Pos>, i: nat)
    requires i <= |Directions|
    ensures forall x :: x in Unseen(p, seen, i) <==> x in FirstNeighbours(p, i) && x !in seen
    ensures NoRepeats(Unseen(p, seen, i))
  {
    if i > 0 {
      UnseenExactly(p, seen, i - 1);
      LaterNeighbour(p, i - 1, i - 1);
    }
  }

  /** The state after the first `i` steps of a direction loop over the
      neighbours of `p` that started from `seen` and the queue `before`:
      every neighbour looked at has been seen, and the queue has grown by
      exactly the unseen ones, in table order. */
  ghost predicate Pass(p: Pos, seen: set<Pos>, before: seq<Pos>, i: nat, seen': set<Pos>, after: seq<Pos>)
    requires i <= |Directions|
  {
    seen' == seen + FirstNeighbours(p, i) && after == before + Unseen(p, seen, i)
  }

  /** One step of a direction loop: the neighbour is enqueued exactly when it
      has not been seen yet. */
  lemma PassStep(p: Pos, seen: set<Pos>, before: seq<Pos>, i: nat, seen': set<Pos>, after: seq<Pos>)
    requires i < |Directions| && Pass(p, seen, before, i, seen', after)
    ensures var next := Add(p, Directions[i]);
      if next in seen' then Pass(p, seen, before, i + 1, seen', after)
      else Pass(p, seen, before, i + 1, seen' + {next}, after + [next])
  {
    UnseenStep(p, seen, seen', i);
  }

  /** After all eight steps every neighbour has been seen. */
  lemma PassDone(p: Pos, seen: set<Pos>, before: seq<Pos>, seen': set<Pos>, after: seq<Pos>)
    requires Pass(p, seen, before, |Directions|, seen', after)
    ensures seen' == seen + Neighbours({p}) && Tried(p, |Directions|, seen')
    ensures after == before + Unseen(p, seen, |Directions|)
  {
    AllNeighbours(p);
    forall j | 0 <= j < |Directions|
      ensures Add(p, Directions[j]) in seen'
    {
      IndexFirstNeighbour(p, |Directions|, j);
    }
  }

  /** Looking at table entry `i` after the entries before it, whose
      neighbours have all been added to `seen`: the new neighbour is new to
      `seen'` exactly when it is new to `seen`, and both the seen set and the
      list of unseen neighbours grow by one entry. */
  lemma UnseenStep(p: Pos, seen: set<Pos>, seen': set<Pos>, i: nat)
    requires i < |Directions| && seen' == seen + FirstNeighbours(p, i)
    ensures var next := Add(p, Directions[i]);
      (next in seen' <==> next in seen) &&
      seen' + {next} == seen + FirstNeighbours(p, i + 1) &&
      Unseen(p, seen, i + 1) == Unseen(p, seen, i) + (if next in seen then [] else [next])
  {
    LaterNeighbour(p, i, i);
  }

  lemma WithinStep(s: Pos, n: nat, p: Pos, i: nat)
    requires p in WithinMoves(s, n) && i < |Directions|
    ensures Add(p, Directions[i]) in WithinMoves(s, n + 1)
  {
    assert Add(p, Directions[i]) in Neighbours(WithinMoves(s, n));
  }

  /** The same step, seen from the later layer. */
  lemma WithinStepInto(s: Pos, n: nat, p: Pos, i: nat)
    requires n > 0 && p in WithinMoves(s, n - 1) && i < |Directions|
    ensures Add(p, Directions[i]) in WithinMoves(s, n)
  {
    assert Add(p, Directions[i]) in Neighbours(WithinMoves(s, n - 1));
  }

  lemma {:induction false} WithinMonotone(s: Pos, m: nat, n: nat)
    requires m <= n
    ensures WithinMoves(s, m) <= WithinMoves(s, n)
    decreases n - m
  {
    if m < n {
      WithinMonotone(s, m, n - 1);
    }
  }

  /** A position reached for the first time after `n + 1` moves is one move
      from a position first reached after exactly `n` moves. */
  lemma Predecessor(s: Pos, n: nat, t: Pos) returns (p: Pos, i: nat)
    requires t in WithinMoves(s, n + 1) && t !in WithinMoves(s, n)
    ensures i < |Directions| && t == Add(p, Directions[i])
    ensures FirstReachedAt(s, p, n)
  {
    p, i :| p in WithinMoves(s, n) && 0 <= i < |Directions| && t == Add(p, Directions[i]);
  }

  lemma NotWithinBefore(s: Pos, t: Pos, n: nat)
    requires FirstReachedAt(s, t, n + 1)
    ensures t !in WithinMoves(s, n)
  {
  }

  /** If `t` is within `b` moves but not within `d`, then `d < b`. */
  lemma BelowBound(s: Pos, t: Pos, d: nat, b: nat)
    requires t in WithinMoves(s, b) && t !in WithinMoves(s, d)
    ensures d < b
  {
    if b <= d {
      WithinMonotone(s, b, d);
    }
  }

  /** Every walk of `k` moves from `s` ends within `k` moves of `s`. */
  lemma {:induction false} WalkEndsWithin(w: seq<Pos>, s: Pos, t: Pos)
    requires WalkBetween(w, s, t)
    ensures t in WithinMoves(s, |w| - 1)
  {
    if |w| > 1 {
      var v := w[..|w| - 1];
      var p := v[|v| - 1];
      assert IsWalk(v) by {
        forall k | 0 <= k < |v| - 1
          ensures KnightStep(v[k], v[k + 1])
        {
          assert v[k] == w[k] && v[k + 1] == w[k + 1];
        }
      }
      WalkEndsWithin(v, s, p);
      assert KnightStep(w[|w| - 2], w[|w| - 1]);
      var i := StepDirection(p, t);
      WithinStep(s, |v| - 1, p, i);
    }
  }

  /** Conversely, every position within `n` moves is the end of a walk of at most `n` moves. */
  lemma {:induction false} WithinHasWalk(s: Pos, t: Pos, n: nat)
    requires t in WithinMoves(s, n)
    ensures exists w :: WalkBetween(w, s, t) && |w| <= n + 1
    decreases n
  {
    if n == 0 {
      assert WalkBetween([s], s, t);
    } else if t in WithinMoves(s, n - 1) {
      WithinHasWalk(s, t, n - 1);
    } else {
      var p, i :| p in WithinMoves(s, n - 1) && 0 <= i < |Directions| && t == Add(p, Directions[i]);
      WithinHasWalk(s, p, n - 1);
      var v :| WalkBetween(v, s, p) && |v| <= n;
      DirectionIsStep(p, i);
      ExtendWalk(v, s, p, t);
    }
  }

  /** A position first reached after `n` moves is at knight distance `n`:
      this is what makes a breadth-first search return shortest paths. */
  lemma FirstReachedIsDistance(s: Pos, t: Pos, n: nat)
    requires FirstReachedAt(s, t, n)
    ensures IsDistance(s, t, n)
  {
    WithinHasWalk(s, t, n);
    var w :| WalkBetween(w, s, t) && |w| <= n + 1;
    forall v | WalkBetween(v, s, t)
      ensures n + 1 <= |v|
    {
      WalkEndsWithin(v, s, t);
      if |v| < n + 1 {
        WithinMonotone(s, |v| - 1, n - 1);
      }
    }
  }

  /** And the converse: the distance is the number of moves after which a
      position is first reached. */
  lemma DistanceIsFirstReached(s: Pos, t: Pos, n: nat)
    requires IsDistance(s, t, n)
    ensures FirstReachedAt(s, t, n)
  {
    var w :| WalkBetween(w, s, t) && |w| == n + 1;
    WalkEndsWithin(w, s, t);
    if n > 0 && t in WithinMoves(s, n - 1) {
      WithinHasWalk(s, t, n - 1);
    }
  }

  // ---------------------------------------------------------------------
  // Connectivity

  lemma ThreeMoves(s: Pos, n: nat, p: Pos, i: nat, j: nat, k: nat)
    requires p in WithinMoves(s, n) && i < 8 && j < 8 && k < 8
    ensures Add(Add(Add(p, Directions[i]), Directions[j]), Directions[k]) in WithinMoves(s, n + 3)
  {
    WithinStep(s, n, p, i);
    WithinStep(s, n + 1, Add(p, Directions[i]), j);
    WithinStep(s, n + 2, Add(Add(p, Directions[i]), Directions[j]), k);
  }

  function Spread(s: Pos, t: Pos): (n: nat)
  {
    Abs(t.row - s.row) + Abs(t.col - s.col)
  }

  /** The knight graph on the unbounded lattice is connected: a unit step
      along either axis takes three knight moves, so `t` is within
      3 * (|dr| + |dc|) moves of `s`. */
  lemma {:induction false} Connected(s: Pos, t: Pos)
    ensures t in WithinMoves(s, 3 * Spread(s, t))
    decreases Spread(s, t)
  {
    if Spread(s, t) > 0 {
      var u, i, j, k;
      if t.row > s.row {
        u, i, j, k := Pos(t.row - 1, t.col), 0, 5, 2;
      } else if t.row < s.row {
        u, i, j, k := Pos(t.row + 1, t.col), 3, 6, 1;
      } else if t.col > s.col {
        u, i, j, k := Pos(t.row, t.col - 1), 4, 2, 5;
      } else {
        u, i, j, k := Pos(t.row, t.col + 1), 7, 1, 6;
      }
      assert Spread(s, u) + 1 == Spread(s, t);
      Connected(s, u);
      var m := 3 * Spread(s, u);
      ThreeMoves(s, m, u, i, j, k);
      assert Add(Add(Add(u, Directions[i]), Directions[j]), Directions[k]) == t;
    }
  }

  /** A set that holds `s` and is closed under knight moves holds every
      position within any number of moves of `s`. */
  lemma {:induction false} ClosedHoldsWithin(s: Pos, seen: set<Pos>, n: nat)
    requires s in seen && Expanded(seen, seen)
    ensures WithinMoves(s, n) <= seen
  {
    if n > 0 {
      ClosedHoldsWithin(s, seen, n - 1);
      forall t | t in WithinMoves(s, n)
        ensures t in seen
      {
        if t !in WithinMoves(s, n - 1) {
          var p, i :| p in WithinMoves(s, n - 1) && 0 <= i < |Directions| && t == Add(p, Directions[i]);
        }
      }
    }
  }

  /** The search state one layer further on: if everything within `d` moves
      has been seen, and every seen position not yet expanded lies beyond
      `d` moves, then everything within `d + 1` moves has been seen. */
  lemma NextLayerSeen(s: Pos, d: nat, seen: set<Pos>, done: set<Pos>)
    requires WithinMoves(s, d) <= seen
    requires forall p :: p in seen && p !in done ==> p !in WithinMoves(s, d)
    requires Expanded(done, seen)
    ensures WithinMoves(s, d + 1) <= seen
  {
    forall t | t in WithinMoves(s, d + 1)
      ensures t in seen
    {
      if t !in WithinMoves(s, d) {
        var p, i := Predecessor(s, d, t);
      }
    }
  }

  /** Within one move of `s` lie `s` itself and its knight neighbours only. */
  lemma WithinOne(s: Pos, t: Pos)
    requires t in WithinMoves(s, 1)
    ensures t == s || KnightStep(s, t)
  {
    if t != s {
      var p, i :| p in WithinMoves(s, 0) && 0 <= i < |Directions| && t == Add(p, Directions[i]);
      DirectionIsStep(p, i);
    }
  }

  /** A square one knight move away is at distance 1. */
  lemma OneMoveAway(s: Pos)
    ensures IsDistance(s, Pos(s.row + 1, s.col + 2), 1)
  {
    WithinStep(s, 0, s, 4);
    FirstReachedIsDistance(s, Pos(s.row + 1, s.col + 2), 1);
  }

  /** The diagonal neighbour is two knight moves away. */
  lemma DiagonalTwoMovesAway(s: Pos)
    ensures IsDistance(s, Pos(s.row + 1, s.col + 1), 2)
  {
    var t := Pos(s.row + 1, s.col + 1);
    var u := Add(s, Directions[1]);
    WithinStep(s, 0, s, 1);
    WithinStep(s, 1, u, 6);
    assert Add(u, Directions[6]) == t;
    if t in WithinMoves(s, 1) {
      WithinOne(s, t);
      assert false;
    }
    FirstReachedIsDistance(s, t, 2);
  }

  /** A position is first reached at one number of moves only. */
  lemma FirstReachedUnique(s: Pos, t: Pos, m: nat, n: nat)
    requires FirstReachedAt(s, t, m) && FirstReachedAt(s, t, n)
    ensures m == n
  {
    if m < n {
      WithinMonotone(s, m, n - 1);
    } else if n < m {
      WithinMonotone(s, n, m - 1);
    }
  }
}
