/**
 The `ScriptFontBounds` command: typographic bounds of a laid-out frame, and the precise
 bounds of a single unconstrained line reconciled from its advance width and its ink.
 */
module ScriptFontBounds {
  import opened Wrappers
  import opened Geometry
  import opened LineBounds

  /**
   `getExactPixelBounds`: the typographic bounds of the frame's lines, or the zero
   rectangle when the frame yields no line array.
   */
  function ExactPixelBounds(lines: Option<seq<LineMetrics>>): (r: Rect)
    ensures lines.None? ==> r == Zero
    ensures r.origin == Point(0.0, 0.0)
    ensures r.size.width >= 0.0
    ensures lines.Some? ==> forall i :: 0 <= i < |lines.value| ==> lines.value[i].width <= r.size.width
    ensures lines.Some? && r.size.width > 0.0 ==>
              exists i :: 0 <= i < |lines.value| && r.size.width == lines.value[i].width
    ensures lines.Some? ==> r.size.height == TotalHeight(lines.value)
  {
    if lines.None? then Zero else LinesBounds(lines.value)
  }

  /**
   `getPreciseGlyphBounds`: `line` is the typographic measurement of the one-line layout
   (only its advance width is used) and `glyphPath` its glyph-path rectangle.
   */
  function PreciseGlyphBounds(line: LineMetrics, glyphPath: Rect): (r: Rect)
    ensures r.origin == glyphPath.origin
    ensures r.size.height == glyphPath.Height()
    ensures r.size.width >= line.width && r.size.width >= glyphPath.Width()
    ensures r.size.width == line.width || r.size.width == glyphPath.Width()
  {
    Reconcile(line.width, glyphPath)
  }

  /** Worked example: advance width 100 and ink (-2, -3, 95, 30) give (-2, -3, 100, 30). */
  lemma ExampleWiderAdvance(line: LineMetrics)
    requires line.width == 100.0
    ensures PreciseGlyphBounds(line, Rect(Point(-2.0, -3.0), Size(95.0, 30.0)))
            == Rect(Point(-2.0, -3.0), Size(100.0, 30.0))
  {
  }
}
