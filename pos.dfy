/** A square of the board. The board is conceptually unbounded, so both
    coordinates are mathematical integers. */
module Position {

  datatype Pos = Pos(row: int, col: int)

  /** `operator==`: two positions are equal when their rows and their columns are. */
  function Equal(a: Pos, b: Pos): (r: bool)
    ensures r <==> a == b
  {
    a.row == b.row && a.col == b.col
  }

  /** `operator!=`: the negation of `operator==`. */
  function NotEqual(a: Pos, b: Pos): (r: bool)
    ensures r <==> a != b
  {
    !Equal(a, b)
  }

  /** The position reached from `p` by the displacement `d`, written
      `{p.row + d.row, p.col + d.col}` in the searches. */
  function Add(p: Pos, d: Pos): (q: Pos)
  {
    Pos(p.row + d.row, p.col + d.col)
  }
}
