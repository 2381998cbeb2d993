/**
 The `FontBoundsDemo` script: the same typographic and reconciled bounds as
 `ScriptFontBounds`, with an extra failure branch when the font cannot be created.
 */
module FontBoundsDemo {
  import opened Wrappers
  import opened Geometry
  import opened LineBounds

  /**
   `getExactPixelBoundsForFont`: the zero rectangle when the font cannot be created or
   the frame yields no line array, else the typographic bounds of the lines.
   */
  function ExactPixelBoundsForFont(fontCreated: bool, lines: Option<seq<LineMetrics>>): (r: Rect)
    ensures !fontCreated || lines.None? ==> r == Zero
    ensures r.origin == Point(0.0, 0.0)
    ensures r.size.width >= 0.0
    ensures fontCreated && lines.Some? ==>
              forall i :: 0 <= i < |lines.value| ==> lines.value[i].width <= r.size.width
    ensures fontCreated && lines.Some? && r.size.width > 0.0 ==>
              exists i :: 0 <= i < |lines.value| && r.size.width == lines.value[i].width
    ensures fontCreated && lines.Some? ==> r.size.height == TotalHeight(lines.value)
  {
    if !fontCreated || lines.None? then Zero else LinesBounds(lines.value)
  }

  /** What the engine reports for the single unconstrained line of the text. */
  datatype LineLayout = LineLayout(typographic: LineMetrics, glyphPath: Rect)

  /**
   `getDetailedBoundsForFont`: the zero rectangle when the font cannot be created
   (`layout` is `None`), else the reconciled bounds of the line.
   */
  function DetailedBoundsForFont(layout: Option<LineLayout>): (r: Rect)
    ensures layout.None? ==> r == Zero
    ensures layout.Some? ==>
              && r.origin == layout.value.glyphPath.origin
              && r.size.height == layout.value.glyphPath.Height()
              && r.size.width >= layout.value.typographic.width
              && r.size.width >= layout.value.glyphPath.Width()
              && (r.size.width == layout.value.typographic.width || r.size.width == layout.value.glyphPath.Width())
  {
    match layout
    case None => Zero
    case Some(l) => Reconcile(l.typographic.width, l.glyphPath)
  }
}
