/**
 `GlyphHeightAnalyzer.findExtremeGlyphs`: the CoreText scan over a caller-supplied
 character set (or the default one), preceded by an optional font registration. Whether
 registration succeeded is an input; the download and registration themselves are not
 part of this model.
 */
module GlyphHeightAnalyzer {
  import opened Wrappers
  import opened Geometry
  import opened ExtremeScan
  import CoreTextScan
  import CharacterSets

  /**
   The scan result, or `None` when a font URL was given and registering the downloaded
   font failed. `glyphBounds` is the glyph-path rectangle of a one-character line in the
   (possibly just registered) font.
   */
  function FindExtremeGlyphs(characterSet: Option<string>, hasFontURL: bool, registered: bool,
                             glyphBounds: char -> Rect): (r: Option<ExtremePair<char>>)
    ensures r.None? <==> hasFontURL && !registered
    ensures r.Some? && characterSet.None? ==>
              r.value == CoreTextScan.ScanGlyphs(CharacterSets.DefaultCharacters, glyphBounds)
    ensures r.Some? && characterSet.Some? ==>
              r.value == CoreTextScan.ScanGlyphs(characterSet.value, glyphBounds)
  {
    if hasFontURL && !registered then None
    else Some(CoreTextScan.ScanGlyphs(characterSet.GetOr(CharacterSets.DefaultCharacters), glyphBounds))
  }

  /**
   Worked example: among "A", "g" and "x", with "A" standing 10 above the baseline, "g"
   reaching 6 below it and 8 above, and "x" standing 5 above, the topmost glyph is
   `("A", 10)` and the bottommost `("g", 6)`.
   */
  lemma ExampleAgx(glyphBounds: char -> Rect)
    requires glyphBounds('A').origin.y == 0.0 && glyphBounds('A').size.height == 10.0
    requires glyphBounds('g').origin.y == -6.0 && glyphBounds('g').size.height == 14.0
    requires glyphBounds('x').origin.y == 0.0 && glyphBounds('x').size.height == 5.0
    ensures FindExtremeGlyphs(Some("Agx"), false, false, glyphBounds)
            == Some(ExtremePair(Extreme('A', 10.0), Extreme('g', 6.0)))
  {
    var top := Extreme('A', 10.0);
    var bottom := Extreme('g', 6.0);
    var asc := CoreTextScan.Ascents(glyphBounds);
    var desc := CoreTextScan.Descents(glyphBounds);
    var floor := Floor(' ');
    assert asc('A') == 10.0 && asc('g') == 8.0 && asc('x') == 5.0;
    assert desc('A') == 0.0 && desc('g') == 6.0 && desc('x') == 0.0;
    assert "Agx"[..2] == "Ag" && "Ag"[..1] == "A" && "A"[..0] == "";
    assert Fold(floor, "A", asc) == top;
    assert Fold(floor, "Ag", asc) == top;
    assert Fold(floor, "Agx", asc) == top;
    assert Fold(floor, "A", desc) == floor;
    assert Fold(floor, "Ag", desc) == bottom;
    assert Fold(floor, "Agx", desc) == bottom;
    assert CoreTextScan.ScanGlyphs("Agx", glyphBounds) == ExtremePair(top, bottom);
  }
}
