/**
 Rectangles as CoreGraphics stores them: an origin and a size whose components may be
 negative. The `Width()` and `Height()` accessors return the standardized (absolute)
 extent, as `CGRect.width` and `CGRect.height` do, while `origin` and `size` are the raw
 stored fields.
 */
module Geometry {

  function Abs(x: real): (r: real)
    ensures r >= 0.0
    ensures r == x || r == -x
  {
    if x < 0.0 then -x else x
  }

  function Max(a: real, b: real): (r: real)
    ensures r >= a && r >= b
    ensures r == a || r == b
  {
    if a < b then b else a
  }

  datatype Point = Point(x: real, y: real)

  datatype Size = Size(width: real, height: real)

  datatype Rect = Rect(origin: Point, size: Size) {

    /** `CGRect.width`: the width of the standardized rectangle. */
    function Width(): real {
      Abs(size.width)
    }

    /** `CGRect.height`: the height of the standardized rectangle. */
    function Height(): real {
      Abs(size.height)
    }
  }

  /** `CGRect.zero`. */
  const Zero: Rect := Rect(Point(0.0, 0.0), Size(0.0, 0.0))
}
