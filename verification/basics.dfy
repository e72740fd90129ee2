/** Shared vocabulary of the model: optional values, absolute value and
    integer points in the pixel plane. */
module Basics {

  /** JavaScript's `null`/`undefined` versus a present value. */
  datatype Option<+T> = None | Some(value: T) {

    /** The present value, or `default` when there is none. */
    function GetOr(default: T): T {
      match this
      case Some(v) => v
      case None => default
    }
  }

  function Abs(x: int): (r: nat)
    ensures r == x || r == -x
  {
    if x < 0 then -x else x
  }

  /** A pixel position or offset; the program's `{ x, y }` objects. */
  datatype Point = Point(x: int, y: int) {

    function Plus(other: Point): Point {
      Point(x + other.x, y + other.y)
    }

    function Minus(other: Point): Point {
      Point(x - other.x, y - other.y)
    }
  }
}
