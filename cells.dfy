/** The states of a city block and block coordinates, shared by the grid,
    the coverage optimiser and the path finder. */
module Cells {

  /** The four block states; their concrete values live in a constants module
      that is not part of this model, so they are an enumeration here. */
  datatype Cell = Empty | Blocked | Signal | Tower

  /** Python's None or a value. */
  datatype Option<T> = None | Some(value: T)

  /** A block coordinate (row, column), as the source's (x, y) tuples. */
  type Coord = (int, int)

  function Abs(a: int): nat { if a < 0 then -a else a }

  /** No coordinate occurs twice in `s`. */
  predicate Distinct(s: seq<Coord>) {
    forall i, j | 0 <= i < j < |s| :: s[i] != s[j]
  }
}
