/**
 The extreme-glyph scan as the two CoreText copies run it: each candidate character is laid
 out alone and its glyph-path rectangle supplies the height above the baseline
 (`origin.y + height`) and the depth below it (`-origin.y`). The floor character is a space.
 */
module CoreTextScan {
  import opened Geometry
  import opened ExtremeScan

  const FloorCharacter: char := ' '

  /** Signed distance of the glyph's top edge above the baseline. */
  function AscentAboveBaseline(bounds: Rect): real {
    bounds.origin.y + bounds.Height()
  }

  /** Signed distance of the glyph's bottom edge below the baseline. */
  function DescentBelowBaseline(bounds: Rect): real {
    -bounds.origin.y
  }

  function Ascents(glyphBounds: char -> Rect): char -> real {
    c => AscentAboveBaseline(glyphBounds(c))
  }

  function Descents(glyphBounds: char -> Rect): char -> real {
    c => DescentBelowBaseline(glyphBounds(c))
  }

  /** The scan over `chars`, where `glyphBounds` is the engine's glyph-path rectangle of a one-character line. */
  function ScanGlyphs(chars: string, glyphBounds: char -> Rect): (r: ExtremePair<char>)
    ensures IsExtreme(chars, Ascents(glyphBounds), FloorCharacter, r.topMost)
    ensures IsExtreme(chars, Descents(glyphBounds), FloorCharacter, r.bottomMost)
    ensures forall i :: 0 <= i < |chars| ==> AscentAboveBaseline(glyphBounds(chars[i])) <= r.topMost.value
    ensures forall i :: 0 <= i < |chars| ==> DescentBelowBaseline(glyphBounds(chars[i])) <= r.bottomMost.value
    ensures r.topMost.value >= 0.0 && r.bottomMost.value >= 0.0
    ensures r.topMost.value > 0.0 ==>
              r.topMost.ch in chars && AscentAboveBaseline(glyphBounds(r.topMost.ch)) == r.topMost.value
    ensures r.bottomMost.value > 0.0 ==>
              r.bottomMost.ch in chars && DescentBelowBaseline(glyphBounds(r.bottomMost.ch)) == r.bottomMost.value
    ensures r.topMost.value == 0.0 <==> r.topMost == Extreme(FloorCharacter, 0.0)
    ensures r.bottomMost.value == 0.0 <==> r.bottomMost == Extreme(FloorCharacter, 0.0)
  {
    ScanPair(chars, Ascents(glyphBounds), Descents(glyphBounds), FloorCharacter)
  }
}
