/** `isValidPosition`: whether a position lies on a square board of a given
    size, where the size -1 stands for the unbounded board the searches run
    on. */
module Board {
  import opened Position

  /** The board size that means "no bounds"; it is also the default argument. */
  const Unbounded: int := -1

  /** `isValidPosition` of knight.cpp. Any other size is taken literally, so
      a size of zero or below (other than -1) admits no position at all. */
  function IsValidPosition(pos: Pos, boardSize: int := Unbounded): (valid: bool)
    ensures boardSize == Unbounded ==> valid
    ensures boardSize != Unbounded && boardSize <= 0 ==> !valid
  {
    if boardSize == Unbounded then true
    else 0 <= pos.row < boardSize && 0 <= pos.col < boardSize
  }

  /** The squares of an `n` by `n` board, numbered from 0. */
  ghost function Squares(n: nat): set<Pos>
  {
    set r, c | 0 <= r < n && 0 <= c < n :: Pos(r, c)
  }

  /** On a bounded board, the valid positions are exactly its squares. */
  lemma ValidOnBoard(pos: Pos, n: nat)
    ensures IsValidPosition(pos, n) <==> pos in Squares(n)
  {
    if 0 <= pos.row < n && 0 <= pos.col < n {
      assert pos == Pos(pos.row, pos.col);
    }
  }

  /** With the default size every position is valid. */
  lemma UnboundedAdmitsAll(pos: Pos)
    ensures IsValidPosition(pos)
  {
  }

  /** Three concrete answers: inside an 8 by 8 board, just off its bottom
      edge, and anywhere on the unbounded board. */
  lemma Samples()
    ensures IsValidPosition(Pos(3, 3), 8)
    ensures !IsValidPosition(Pos(8, 0), 8)
    ensures IsValidPosition(Pos(-1, -1), -1)
  {
  }

  /** The first `n` squares of row `r`. */
  ghost function RowSegment(r: int, n: nat): set<Pos>
  {
    set c | 0 <= c < n :: Pos(r, c)
  }

  /** The first `n` squares of column `c`. */
  ghost function ColumnSegment(c: int, n: nat): set<Pos>
  {
    set r | 0 <= r < n :: Pos(r, c)
  }

  lemma {:induction false} RowSegmentSize(r: int, n: nat)
    ensures |RowSegment(r, n)| == n
  {
    if n > 0 {
      RowSegmentSize(r, n - 1);
      assert RowSegment(r, n) == RowSegment(r, n - 1) + {Pos(r, n - 1)};
    }
  }

  lemma {:induction false} ColumnSegmentSize(c: int, n: nat)
    ensures |ColumnSegment(c, n)| == n
  {
    if n > 0 {
      ColumnSegmentSize(c, n - 1);
      assert ColumnSegment(c, n) == ColumnSegment(c, n - 1) + {Pos(n - 1, c)};
    }
  }

  /** Growing the board by one adds its last row and last column. */
  lemma SquaresGrow(m: nat)
    ensures Squares(m + 1) == Squares(m) + RowSegment(m, m + 1) + ColumnSegment(m, m)
    ensures Squares(m) !! RowSegment(m, m + 1)
    ensures Squares(m) + RowSegment(m, m + 1) !! ColumnSegment(m, m)
  {
    var row, column := RowSegment(m, m + 1), ColumnSegment(m, m);
    forall p | p in Squares(m + 1)
      ensures p in Squares(m) + row + column
    {
      if p.row == m {
        assert p in row;
      } else if p.col == m {
        assert p in column;
      } else {
        assert p == Pos(p.row, p.col);
      }
    }
  }

  /** An `n` by `n` board has `n * n` valid positions. */
  lemma {:induction false} BoardSize(n: nat)
    ensures |Squares(n)| == n * n
  {
    if n > 0 {
      var m := n - 1;
      BoardSize(m);
      RowSegmentSize(m, n);
      ColumnSegmentSize(m, m);
      SquaresGrow(m);
      assert n * n == m * m + n + m;
    }
  }
}
