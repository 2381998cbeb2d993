/**
 The two bounding boxes the CoreText demos compute for a string, and how they are merged.

 - Typographic bounds fold over the lines of a laid-out frame: the width is the widest
   line, the height is the sum of each line's ascent + descent + leading, and the origin
   stays at (0, 0).
 - Reconciled bounds take origin and height from the glyph-path (ink) rectangle and the
   width as the larger of the advance width and the ink width.
 */
module LineBounds {
  import opened Geometry

  /** What the layout engine reports for one line: its advance width and its ascent, descent and leading. */
  datatype LineMetrics = LineMetrics(width: real, ascent: real, descent: real, leading: real)

  /** The vertical space one line occupies. */
  function LineHeight(l: LineMetrics): real {
    l.ascent + l.descent + l.leading
  }

  /** The sum of all line heights, taken front to back. */
  function TotalHeight(lines: seq<LineMetrics>): real
    decreases |lines|
  {
    if |lines| == 0 then 0.0 else LineHeight(lines[0]) + TotalHeight(lines[1..])
  }

  lemma {:induction false} TotalHeightAppend(lines: seq<LineMetrics>, l: LineMetrics)
    ensures TotalHeight(lines + [l]) == TotalHeight(lines) + LineHeight(l)
    decreases |lines|
  {
    if |lines| > 0 {
      assert (lines + [l])[1..] == lines[1..] + [l];
      TotalHeightAppend(lines[1..], l);
    }
  }

  /** One iteration of the line loop: widen when the line is wider, always add its height. */
  function AddLine(bounds: Rect, l: LineMetrics): Rect {
    var width := if bounds.Width() < l.width then l.width else bounds.size.width;
    Rect(bounds.origin, Size(width, bounds.size.height + LineHeight(l)))
  }

  /** The typographic bounds of a frame's lines, starting from the zero rectangle. */
  function LinesBounds(lines: seq<LineMetrics>): (r: Rect)
    ensures r.origin == Point(0.0, 0.0)
    ensures r.size.width >= 0.0
    ensures forall i :: 0 <= i < |lines| ==> lines[i].width <= r.size.width
    ensures r.size.width > 0.0 ==> exists i :: 0 <= i < |lines| && r.size.width == lines[i].width
    ensures r.size.height == TotalHeight(lines)
    decreases |lines|
  {
    if |lines| == 0 then Zero
    else
      var last := |lines| - 1;
      TotalHeightAppend(lines[..last], lines[last]);
      assert lines == lines[..last] + [lines[last]];
      AddLine(LinesBounds(lines[..last]), lines[last])
  }

  /** The reconciled bounds of a string from its typographic width and its ink rectangle. */
  function Reconcile(typographicWidth: real, ink: Rect): (r: Rect)
    ensures r.origin == ink.origin
    ensures r.size.height == ink.Height()
    ensures r.size.width >= typographicWidth && r.size.width >= ink.Width()
    ensures r.size.width == typographicWidth || r.size.width == ink.Width()
  {
    Rect(ink.origin, Size(Max(typographicWidth, ink.Width()), ink.Height()))
  }

  /** Reconciling an already reconciled rectangle against the same advance width changes nothing. */
  lemma ReconcileIdempotent(typographicWidth: real, ink: Rect)
    ensures Reconcile(typographicWidth, Reconcile(typographicWidth, ink)) == Reconcile(typographicWidth, ink)
  {
    var r := Reconcile(typographicWidth, ink);
    assert r.Width() == r.size.width;
  }
}
