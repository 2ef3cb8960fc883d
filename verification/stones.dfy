/** Point contents and colours of the NoGo board, plus a small Option type. */
module Stones {

  /** What a point of the padded board array holds. */
  datatype Stone = Empty | Black | White | Border

  /** The two players; `Black` moves first after a reset. */
  type Color = s: Stone | s == Black || s == White witness Black

  /** The integer code each value has in the board array and in the transposition-table keys. */
  function Code(s: Stone): nat
  {
    match s
    case Empty => 0
    case Black => 1
    case White => 2
    case Border => 3
  }

  /** The other player, computed in the source as `3 - color`. */
  function Opponent(c: Color): (o: Color)
    ensures Code(o) == 3 - Code(c)
    ensures o != c
  {
    if c == Black then White else Black
  }

  datatype Option<T> = None | Some(value: T)
}
