/**
 The node-canvas script: the extreme-glyph scan over the entry text (or the alphanumeric
 set when the text is empty), measuring each character by the absolute values of its
 actual bounding-box ascent and descent, and the per-character measurement pass that sizes
 the rendered page. The floor character is the empty string.
 */
module CanvasMetrics {
  import opened Geometry
  import opened ExtremeScan
  import CharacterSets

  /** The part of a canvas `TextMetrics` object the script reads. */
  datatype TextMetrics = TextMetrics(width: real, actualBoundingBoxAscent: real, actualBoundingBoxDescent: real)

  /** The characters scanned: the entry text, or the 62 letters and digits when it is empty. */
  function Candidates(entryTxt: string): (chars: string)
    ensures |chars| > 0
    ensures |entryTxt| > 0 ==> chars == entryTxt
    ensures |entryTxt| == 0 ==> chars == CharacterSets.Alphanumerics
  {
    CharacterSets.DefaultSetsShape();
    if |entryTxt| == 0 then CharacterSets.Alphanumerics else entryTxt
  }

  function Ascent(measureText: string -> TextMetrics): string -> real {
    c => Abs(measureText(c).actualBoundingBoxAscent)
  }

  function Descent(measureText: string -> TextMetrics): string -> real {
    c => Abs(measureText(c).actualBoundingBoxDescent)
  }

  /** `findExtremeGlyphs(fontPath, fontSize, entryTxt)` with the font's `measureText` as the oracle. */
  function FindExtremeGlyphs(entryTxt: string, measureText: string -> TextMetrics): (r: ExtremePair<string>)
    ensures var chars := Candidates(entryTxt);
            && IsExtreme(CharacterSets.Pieces(chars), Ascent(measureText), "", r.topMost)
            && IsExtreme(CharacterSets.Pieces(chars), Descent(measureText), "", r.bottomMost)
            && (forall i :: 0 <= i < |chars| ==>
                  Abs(measureText([chars[i]]).actualBoundingBoxAscent) <= r.topMost.value)
            && (forall i :: 0 <= i < |chars| ==>
                  Abs(measureText([chars[i]]).actualBoundingBoxDescent) <= r.bottomMost.value)
            && (r.topMost.value > 0.0 ==>
                  exists i :: 0 <= i < |chars| && r.topMost == Extreme([chars[i]], Abs(measureText([chars[i]]).actualBoundingBoxAscent)))
            && (r.bottomMost.value > 0.0 ==>
                  exists i :: 0 <= i < |chars| && r.bottomMost == Extreme([chars[i]], Abs(measureText([chars[i]]).actualBoundingBoxDescent)))
    ensures r.topMost.value >= 0.0 && r.bottomMost.value >= 0.0
    ensures r.topMost.value == 0.0 <==> r.topMost == Extreme("", 0.0)
    ensures r.bottomMost.value == 0.0 <==> r.bottomMost == Extreme("", 0.0)
  {
    var pieces := CharacterSets.Pieces(Candidates(entryTxt));
    var top := ScanSide(pieces, Ascent(measureText), "");
    var bottom := ScanSide(pieces, Descent(measureText), "");
    assert top.value > 0.0 ==> top.ch in pieces;
    assert bottom.value > 0.0 ==> bottom.ch in pieces;
    ExtremePair(top, bottom)
  }

  // ----- The measurement pass of createPDFVisualization -----

  /** `metricsScale = dpi * 0.6` with `dpi = 60`. */
  const MetricsScale: real := 60.0 * 0.6

  function ScaledAscent(m: TextMetrics): real {
    Abs(m.actualBoundingBoxAscent) * MetricsScale
  }

  function ScaledDescent(m: TextMetrics): real {
    Abs(m.actualBoundingBoxDescent) * MetricsScale
  }

  /** The sum of the scaled advance widths of the characters of `text`. */
  function ScaledWidthSum(text: string, measureText: string -> TextMetrics): real
    decreases |text|
  {
    if |text| == 0 then 0.0
    else ScaledWidthSum(text[..|text| - 1], measureText) + measureText([text[|text| - 1]]).width * MetricsScale
  }

  /** What the measurement pass produces for laying out the page. */
  datatype Measurement = Measurement(maxAscent: real, maxDescent: real, totalWidth: real, textHeight: real)

  /**
   The first pass of `createPDFVisualization`: the largest scaled ascent and descent over
   the characters of `text` (never below 0), and the total width, i.e. the scaled widths
   plus tracking between characters, widened to at least four times the font size.
   */
  method MeasureCharacters(text: string, measureText: string -> TextMetrics, fontSize: real, tracking: real)
    returns (m: Measurement)
    ensures m.maxAscent >= 0.0 && m.maxDescent >= 0.0
    ensures forall i :: 0 <= i < |text| ==> ScaledAscent(measureText([text[i]])) <= m.maxAscent
    ensures forall i :: 0 <= i < |text| ==> ScaledDescent(measureText([text[i]])) <= m.maxDescent
    ensures m.maxAscent > 0.0 ==> exists i :: 0 <= i < |text| && m.maxAscent == ScaledAscent(measureText([text[i]]))
    ensures m.maxDescent > 0.0 ==> exists i :: 0 <= i < |text| && m.maxDescent == ScaledDescent(measureText([text[i]]))
    ensures m.totalWidth == Max(ScaledWidthSum(text, measureText) + (|text| - 1) as real * tracking, fontSize * 4.0)
    ensures m.totalWidth >= fontSize * 4.0
    ensures m.textHeight == m.maxAscent + m.maxDescent
  {
    var totalWidth := 0.0;
    var maxAscent := 0.0;
    var maxDescent := 0.0;
    var i := 0;
    while i < |text|
      invariant 0 <= i <= |text|
      invariant maxAscent >= 0.0 && maxDescent >= 0.0
      invariant forall j :: 0 <= j < i ==> ScaledAscent(measureText([text[j]])) <= maxAscent
      invariant forall j :: 0 <= j < i ==> ScaledDescent(measureText([text[j]])) <= maxDescent
      invariant maxAscent > 0.0 ==> exists j :: 0 <= j < i && maxAscent == ScaledAscent(measureText([text[j]]))
      invariant maxDescent > 0.0 ==> exists j :: 0 <= j < i && maxDescent == ScaledDescent(measureText([text[j]]))
      invariant totalWidth == ScaledWidthSum(text[..i], measureText)
    {
      var metrics := measureText([text[i]]);
      maxAscent := Max(maxAscent, ScaledAscent(metrics));
      maxDescent := Max(maxDescent, ScaledDescent(metrics));
      totalWidth := totalWidth + metrics.width * MetricsScale;
      assert text[..i + 1][..i] == text[..i];
      i := i + 1;
    }
    assert text[..i] == text;
    totalWidth := totalWidth + (|text| - 1) as real * tracking;
    totalWidth := Max(totalWidth, fontSize * 4.0);
    m := Measurement(maxAscent, maxDescent, totalWidth, maxAscent + maxDescent);
  }
}
