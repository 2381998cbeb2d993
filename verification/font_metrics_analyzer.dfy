/**
 The PHP `FontMetricsAnalyzer`: Imagick's font-metrics record repackaged, and the
 extreme-glyph scan over the bytes of a character set, measuring each byte by the
 absolute values of its bounding box's `y2` (height) and `y1` (depth). The floor
 character is the empty string.
 */
module FontMetricsAnalyzer {
  import opened Wrappers
  import opened Geometry
  import opened ExtremeScan
  import CharacterSets

  datatype BoundingBox = BoundingBox(x1: real, y1: real, x2: real, y2: real)

  /** The part of Imagick's `queryFontMetrics` result that the analyzer reads. */
  datatype ImagickMetrics =
    ImagickMetrics(textWidth: real, textHeight: real, ascender: real, descender: real, boundingBox: BoundingBox)

  /** The record `getGlyphBounds` returns. */
  datatype GlyphBounds =
    GlyphBounds(width: real, height: real, ascender: real, descender: real, boundingBox: BoundingBox)

  /**
   `getGlyphBounds`: the engine's record with the descender made non-negative. Imagick
   reports descenders as negative offsets, which this turns into a depth.
   */
  function GetGlyphBounds(m: ImagickMetrics): (g: GlyphBounds)
    ensures g.width == m.textWidth && g.height == m.textHeight && g.ascender == m.ascender
    ensures g.boundingBox == m.boundingBox
    ensures g.descender >= 0.0
    ensures g.descender == m.descender || g.descender == -m.descender
    ensures m.descender <= 0.0 ==> g.descender == -m.descender
  {
    GlyphBounds(m.textWidth, m.textHeight, m.ascender, Abs(m.descender), m.boundingBox)
  }

  /** Height of a piece above the baseline: `abs(y2)` of its bounding box. */
  function GlyphHeight(queryFontMetrics: string -> ImagickMetrics): string -> real {
    c => Abs(GetGlyphBounds(queryFontMetrics(c)).boundingBox.y2)
  }

  /** Depth of a piece below the baseline: `abs(y1)` of its bounding box. */
  function GlyphDepth(queryFontMetrics: string -> ImagickMetrics): string -> real {
    c => Abs(GetGlyphBounds(queryFontMetrics(c)).boundingBox.y1)
  }

  /** `findExtremeGlyphs`: the scan over the supplied character set, or the default set when none is given. */
  function FindExtremeGlyphs(characterSet: Option<string>, queryFontMetrics: string -> ImagickMetrics)
    : (r: ExtremePair<string>)
    ensures var chars := characterSet.GetOr(CharacterSets.DefaultCharacters);
            && IsExtreme(CharacterSets.Pieces(chars), GlyphHeight(queryFontMetrics), "", r.topMost)
            && IsExtreme(CharacterSets.Pieces(chars), GlyphDepth(queryFontMetrics), "", r.bottomMost)
            && (forall i :: 0 <= i < |chars| ==>
                  Abs(queryFontMetrics([chars[i]]).boundingBox.y2) <= r.topMost.value)
            && (forall i :: 0 <= i < |chars| ==>
                  Abs(queryFontMetrics([chars[i]]).boundingBox.y1) <= r.bottomMost.value)
            && (r.topMost.value > 0.0 ==>
                  exists i :: 0 <= i < |chars| && r.topMost == Extreme([chars[i]], Abs(queryFontMetrics([chars[i]]).boundingBox.y2)))
            && (r.bottomMost.value > 0.0 ==>
                  exists i :: 0 <= i < |chars| && r.bottomMost == Extreme([chars[i]], Abs(queryFontMetrics([chars[i]]).boundingBox.y1)))
    ensures r.topMost.value >= 0.0 && r.bottomMost.value >= 0.0
    ensures r.topMost.value == 0.0 <==> r.topMost == Extreme("", 0.0)
    ensures r.bottomMost.value == 0.0 <==> r.bottomMost == Extreme("", 0.0)
    ensures characterSet == Some("") ==> r == ExtremePair(Extreme("", 0.0), Extreme("", 0.0))
  {
    var chars := characterSet.GetOr(CharacterSets.DefaultCharacters);
    var pieces := CharacterSets.Pieces(chars);
    var top := ScanSide(pieces, GlyphHeight(queryFontMetrics), "");
    var bottom := ScanSide(pieces, GlyphDepth(queryFontMetrics), "");
    assert top.value > 0.0 ==> top.ch in pieces;
    assert bottom.value > 0.0 ==> bottom.ch in pieces;
    ExtremePair(top, bottom)
  }
}
