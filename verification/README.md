# ScriptFontViewer core in Dafny

The ScriptFontViewer repository is a set of small command-line demos around three text-layout
engines: CoreText (Swift), Imagick (PHP) and node-canvas (JavaScript). Each demo measures how
far text in a given font reaches above and below the baseline, then draws annotated PDF or PNG
renders. This project models the pure logic that sits between the engine calls:

- the **extreme-glyph scan** (`findExtremeGlyphs`, in four copies): a left-to-right pass over
  candidate characters. It keeps the first candidate with the largest height above the baseline
  and the first with the largest depth below it. Both start from a floor value of 0, and each
  copy has its own floor character;
- the **typographic bounds** of a laid-out frame: the widest line, and the sum of
  `ascent + descent + leading` over the lines;
- the **reconciled bounds**, which take origin and height from the glyph-path (ink) rectangle
  and take as width the larger of the advance width and the ink width;
- the small helpers around them: the `-Regular` name check for font registration,
  appending the missing extreme characters to the sample text, the font-metrics record with
  its derived line height, Imagick's record repackaging, and the canvas measurement pass.

Engine queries made once per candidate character are function-typed parameters (oracles): the
glyph-path rectangle of a one-character line, the Imagick metrics of a string, a canvas
`TextMetrics`. Queries made once per call are passed in as their results: the metrics of a
frame's lines (`Option<seq<LineMetrics>>`, `None` when the line array cannot be obtained), the
font's metrics (`FontFace`), and a line's typographic width with its glyph-path rectangle.
Numbers are Dafny `real`s.

Modules:

- `Geometry`: CoreGraphics rectangles. `Width()` and `Height()` are standardized (absolute),
  as `CGRect.width` and `CGRect.height` are.
- `ExtremeScan`: the generic scan.
  - `Fold` is the loop state after a prefix.
  - `IsExtremeFrom` and `IsExtreme` are a reference definition that does not use the loop:
    the first candidate attaining the maximum, or the floor if nothing exceeds it.
  - The lemmas connect the two in both directions.
  - `Scan` is the single loop carrying both running maxima.
- `CharacterSets`: the default candidate strings.
- `CoreTextScan`: the scan with CoreText's measures, `origin.y + height` and `-origin.y`, and floor `' '`.
- `ScriptFontViewer`, `GlyphHeightAnalyzer`, `FontMetricsAnalyzer` (PHP), `CanvasMetrics` (JS),
  `ScriptFontBounds`, `FontBoundsDemo`: one module per source file.
- `LineBounds`: the line fold and the reconciliation, which the three CoreText files share.

Facts about the source that the model keeps:

- The default candidate string in the Swift and PHP sources has 93 characters (26 + 26 + 10 + 31).
- The typographic width is the maximum of the line widths.
- No copy of the scan skips a character whose measurement fails.

## Model

The generic `ExtremeScan` lemmas hold for all four copies of the scan. Their rows cite the
loop of the Swift `GlyphHeightAnalyzer` (findExtremeGlyphs.swift), whose strict `>` tests are
at lines 124 and 129.

| member | source | states |
|---|---|---|
| ExtremeScan.Fold | findExtremeGlyphs.swift:113-132 | the running maximum never drops below its start, bounds every scanned measure, is the start exactly when it did not grow, and otherwise is some candidate paired with its own measure |
| ExtremeScan.FoldIsExtreme | findExtremeGlyphs.swift:119-132 | the strict-`>` loop yields the reference result: the start if no candidate exceeds it, else the first candidate whose measure is the maximum |
| ExtremeScan.ExtremeUnique | findExtremeGlyphs.swift:119-132 | the reference definition admits exactly one result |
| ExtremeScan.FoldCharacterised | findExtremeGlyphs.swift:119-132 | a value is the loop's result if and only if it meets the reference definition |
| ExtremeScan.EarliestMaximumWins | findExtremeGlyphs.swift:124-131 | ties go to the earliest candidate: a first candidate above the start that no later one exceeds is the result |
| ExtremeScan.LaterTieIgnored | findExtremeGlyphs.swift:124-131 | a later candidate whose measure does not exceed an earlier one's leaves the result unchanged |
| ExtremeScan.ScanSide | ScriptFontViewer.swift:18-45 | one side from floor `(c, 0)`: non-negative and at least every candidate's measure; when positive, it is a candidate with that measure; it is the floor exactly when no candidate is positive (so an empty sequence gives the floor) |
| ExtremeScan.ScanPair | findExtremeGlyphs.swift:113-139 | both sides meet the reference definition independently |
| ExtremeScan.Scan | findExtremeGlyphs.swift:113-132 | the single loop with two accumulators returns the same pair as two independent one-sided scans |
| CharacterSets.DefaultSetsShape | findExtremeGlyphs.swift:111 | the default set has 93 characters, the canvas alphabet 62, neither contains a space, and the alphabet is within the default set |
| CoreTextScan.ScanGlyphs | findExtremeGlyphs.swift:119-132 | height is at least every candidate's `origin.y + height` and depth at least every candidate's `-origin.y`, both at least 0; a positive side names a candidate whose measure equals the returned value; a zero side is `(" ", 0)` |
| ScriptFontViewer.FindExtremeGlyphs | ScriptFontViewer.swift:14-46 | scans the fixed default set; since a space is not a candidate there, a side reports `" "` exactly when its value is 0 |
| ScriptFontViewer.RemoveAll | ScriptFontViewer.swift:128 | `replacingOccurrences(of:with: "")` never lengthens the name; its behaviour is characterised by `RemoveAllWithoutOccurrence` and `RemoveAllFirstOccurrence` |
| ScriptFontViewer.RemoveAllWithoutOccurrence | ScriptFontViewer.swift:128 | removing every occurrence of a pattern that does not occur leaves the name unchanged |
| ScriptFontViewer.RegularSuffixStripped | ScriptFontViewer.swift:127-128 | removing every `-Regular` from `base + "-Regular"` gives back `base` when `base` has no `-Regular` of its own |
| ScriptFontViewer.IsFontRegistered | ScriptFontViewer.swift:125-130 | true whenever the exact name is available; for names without `-Regular`, true exactly when the name is available |
| ScriptFontViewer.RemoveAllFirstOccurrence | ScriptFontViewer.swift:128 | removal is left to right and resumes after each match: when the pattern first occurs in `a + pat + b` right after `a`, the result is `a` followed by `b` with its occurrences removed |
| ScriptFontViewer.FirstRegularAfter | ScriptFontViewer.swift:128 | `-Regular` cannot overlap itself, so appending it to a name without one makes the appended copy the first occurrence |
| ScriptFontViewer.RegisteredWithInnerRegular | ScriptFontViewer.swift:125-130 | a name `a + "-Regular" + b` with no other `-Regular` (such as `Foo-Regular-Bold`) is registered exactly when it or `a + b` is available |
| ScriptFontViewer.RegisteredUnderBaseName | ScriptFontViewer.swift:127-129 | a font available under its base name counts as registered under `base + "-Regular"` |
| ScriptFontViewer.AppendMissing | ScriptFontViewer.swift:199-216 | the text is unchanged if and only if both extremes already occur in it; otherwise it becomes `text + Separator + S` (`Separator` is space, vertical bar, space), where S lists each missing extreme exactly once, has at most 2 characters, and has exactly 1 when top and bottom coincide |
| ScriptFontViewer.AppendedOrderIsEither | ScriptFontViewer.swift:213-216 | every string listing the missing extremes without repetition is one of the two orders the model produces, so either set iteration order is covered |
| ScriptFontViewer.AppendMissingIdempotent | ScriptFontViewer.swift:202-216 | after appending, both extremes occur in the text, the old text is a prefix, and appending again changes nothing |
| ScriptFontViewer.AutoAppendExtremeCharacters | ScriptFontViewer.swift:194-218 | the text changes if and only if a scanned extreme is missing from it; afterwards both scanned extremes occur, with the old text as a prefix; a changed text is exactly `text + Separator + S` (`Separator` is space, vertical bar, space), where S lists each missing extreme once and has at most 2 characters |
| ScriptFontViewer.AutoAppendIdempotent | ScriptFontViewer.swift:194-218 | running the automatic append twice gives the same text as running it once |
| ScriptFontViewer.StandardBounds | ScriptFontViewer.swift:272-295 | zero rect when lines cannot be obtained; otherwise origin (0,0), width the largest line width floored at 0, height the sum of `ascent+descent+leading` |
| ScriptFontViewer.GetFontMetrics | ScriptFontViewer.swift:299-317 | the five engine metrics are passed through unchanged and `lineHeight = ascent + descent + leading` |
| ScriptFontViewer.SingleLineMatchesFontLineHeight | ScriptFontViewer.swift:280-292 | a one-line frame with the font's ascent, descent and leading is exactly the font's `lineHeight` tall, so the two line-height formulas agree |
| GlyphHeightAnalyzer.FindExtremeGlyphs | findExtremeGlyphs.swift:98-140 | nil exactly when a font URL was given and registration failed; otherwise it scans the default set when none is supplied and exactly the supplied characters when one is |
| GlyphHeightAnalyzer.ExampleAgx | findExtremeGlyphs.swift:119-132 | for A(y=0,h=10), g(y=-6,h=14), x(y=0,h=5) the result is top `("A",10)` and bottom `("g",6)` |
| FontMetricsAnalyzer.GetGlyphBounds | font_metrics.php:56-69 | descender becomes a non-negative magnitude, the negation of a negative engine value; width, height, ascender and bounding box pass through |
| FontMetricsAnalyzer.FindExtremeGlyphs | font_metrics.php:75-119 | default set when none is given, none scanned for an empty set (both sides `("", 0)`); height at least every byte's `abs(y2)` and depth at least every byte's `abs(y1)`, both at least 0; first maximum wins; a zero side is `("", 0)` |
| CanvasMetrics.Candidates | index.js:208-211 | an empty entry text is replaced by the 62-character alphanumeric set; a non-empty one is scanned as given |
| CanvasMetrics.FindExtremeGlyphs | index.js:196-237 | height and depth are at least every candidate's absolute ascent and descent and at least 0; first maximum wins; a positive side names a candidate with that measure; a zero side is `("", 0)` |
| CanvasMetrics.MeasureCharacters | index.js:70-114 | `maxAscent` and `maxDescent` are at least 0 and at least every scaled per-character value, and equal one of them when positive; `totalWidth = max(sum of scaled widths + (len-1)*tracking, fontSize*4)`, so never below `fontSize*4`; text height is their sum |
| LineBounds.LinesBounds | ScriptFontBounds.swift:50-68 | origin (0,0); width at least every line width, at least 0, and equal to some line width when positive; height the sum of line heights |
| LineBounds.Reconcile | ScriptFontBounds.swift:93-98 | origin and height come from the ink rectangle; width is at least the advance width and at least the ink width, and equals one of them |
| LineBounds.ReconcileIdempotent | FontBoundsDemo.swift:105-110 | reconciling a reconciled rectangle again with the same advance width changes nothing |
| ScriptFontBounds.ExactPixelBounds | ScriptFontBounds.swift:45-68 | zero rect when lines cannot be obtained; otherwise origin (0,0), width the largest line width floored at 0, height the sum of line heights |
| ScriptFontBounds.PreciseGlyphBounds | ScriptFontBounds.swift:72-99 | origin and height copied from the glyph-path rectangle; width never narrower than the advance width or the ink width, and equal to one of them |
| ScriptFontBounds.ExampleWiderAdvance | ScriptFontBounds.swift:93-98 | advance width 100 with ink (-2, -3, 95, 30) gives (-2, -3, 100, 30) |
| FontBoundsDemo.ExactPixelBoundsForFont | FontBoundsDemo.swift:5-70 | zero rect when the font cannot be created or lines cannot be obtained; otherwise width the largest line width floored at 0 and height the sum of line heights, at origin (0,0) |
| FontBoundsDemo.DetailedBoundsForFont | FontBoundsDemo.swift:82-111 | zero rect when the font cannot be created; otherwise ink origin and height, with width `max(advance, ink)` |

## Left out

- Layout-engine calls (`CTLineGetBoundsWithOptions`, `CTLineGetTypographicBounds`, framesetters, Imagick `queryFontMetrics`, canvas `measureText`) are oracle parameters. Their internals belong to the engines.
- Font download, registration, `extractFontName` and temporary files are I/O on process-wide font state. The scan only receives whether registration succeeded.
- PDF, PNG and ImageMagick drawing, page-layout arithmetic after `textHeight` (index.js), and all of FontBoundsRenderer.swift are rendering glue.
- Command-line parsing, help text and all printing are left out.
- An engine query that throws aborts the scan that made it (Imagick `queryFontMetrics` can raise `ImagickException`, caught only by the PHP command line). The model's oracles are total, so this abort path is not modelled.
- IEEE floating point is modelled as exact `real` arithmetic: rounding, NaN and infinities are not modelled. For example, `Math.max` with NaN is out of scope.
- Grapheme clusters, code points, UTF-16 units and bytes are all modelled as Dafny `char`. This covers Swift `Character` iteration, PHP's byte-wise `str_split`, JavaScript's code-point `for…of` and its UTF-16 `text[i]`.
- Swift string `contains` and `replacingOccurrences` compare by Unicode canonical equivalence. The model compares characters exactly.
- PHP `str_split("")` returns `[""]` before PHP 8.2 and `[]` from 8.2 on. The model follows 8.2, where an empty set scans nothing.
- The top-level Swift `findExtremeGlyphs` is declared optional but always returns a value. The model returns the pair directly, so the nil branch of `autoAppendExtremeCharacters` is not modelled.
- Swift `Set` iteration order is unspecified. The `bottomFirst` parameter chooses it, and `AppendedOrderIsEither` shows that both orders are covered.
- Tracking only changes the values the oracles report, so it is not a separate input to the bounds functions.
- `getPreciseGlyphBounds` in ScriptFontViewer.swift (221-238) returns the oracle's rectangle unchanged, so it is the oracle itself.
- Determinism of reconciliation is not stated as a lemma. Every Dafny function is deterministic, so equal inputs give equal outputs by construction.
- ScriptFontViewer.RemoveAll: its own contract only bounds the result length. Its behaviour is stated by `RemoveAllWithoutOccurrence` (no match) and `RemoveAllFirstOccurrence` (one step past the first match), which together determine the result for any number of matches.
- ScriptFontViewer.IsFontRegistered: its contract covers names with no `-Regular`; names with exactly one are covered by `RegisteredWithInnerRegular` and `RegisteredUnderBaseName`. For names with two or more, no single lemma is stated; `RemoveAllFirstOccurrence` applied once per match gives the stripped name.
