/**
 The pure logic of the `ScriptFontViewer` command: the extreme-glyph scan over the default
 character set, the font-registration name check, appending missing extreme characters to
 the sample text, the typographic bounds of the laid-out frame and the font-metrics record.
 */
module ScriptFontViewer {
  import opened Wrappers
  import opened Geometry
  import opened ExtremeScan
  import opened LineBounds
  import CoreTextScan
  import CharacterSets

  /** The top-level `findExtremeGlyphs`: it always scans the default character set. */
  function FindExtremeGlyphs(glyphBounds: char -> Rect): (r: ExtremePair<char>)
    ensures r == CoreTextScan.ScanGlyphs(CharacterSets.DefaultCharacters, glyphBounds)
    ensures r.topMost.ch == ' ' <==> r.topMost.value == 0.0
    ensures r.bottomMost.ch == ' ' <==> r.bottomMost.value == 0.0
  {
    CharacterSets.DefaultSetsShape();
    CoreTextScan.ScanGlyphs(CharacterSets.DefaultCharacters, glyphBounds)
  }

  // ----- Font registration by name -----

  const RegularSuffix: string := "-Regular"

  predicate StartsWith(s: string, prefix: string) {
    |prefix| <= |s| && s[..|prefix|] == prefix
  }

  /** `pat` occurs somewhere in `s`. */
  ghost predicate Occurs(s: string, pat: string) {
    exists i :: 0 <= i <= |s| && StartsWith(s[i..], pat)
  }

  /**
   `s.replacingOccurrences(of: pat, with: "")`: occurrences are found left to right and
   do not overlap; the text after a removed occurrence is searched again.
   */
  function RemoveAll(s: string, pat: string): (r: string)
    requires |pat| > 0
    ensures |r| <= |s|
    decreases |s|
  {
    if |s| == 0 then []
    else if StartsWith(s, pat) then RemoveAll(s[|pat|..], pat)
    else [s[0]] + RemoveAll(s[1..], pat)
  }

  lemma {:induction false} RemoveAllWithoutOccurrence(s: string, pat: string)
    requires |pat| > 0
    requires !Occurs(s, pat)
    ensures RemoveAll(s, pat) == s
    decreases |s|
  {
    if |s| > 0 {
      assert s[0..] == s;
      assert !StartsWith(s, pat);
      forall i | 0 <= i <= |s[1..]|
        ensures !StartsWith(s[1..][i..], pat)
      {
        assert s[1..][i..] == s[i + 1..];
      }
      RemoveAllWithoutOccurrence(s[1..], pat);
    }
  }

  /** Stripping `-Regular` from `base + "-Regular"` gives `base` back when `base` has no `-Regular` of its own. */
  lemma {:induction false} RegularSuffixStripped(base: string)
    requires !Occurs(base, RegularSuffix)
    ensures RemoveAll(base + RegularSuffix, RegularSuffix) == base
    decreases |base|
  {
    var s := base + RegularSuffix;
    if |base| == 0 {
      assert s == RegularSuffix;
      assert StartsWith(s, RegularSuffix);
      assert s[|RegularSuffix|..] == [];
    } else {
      assert !StartsWith(s, RegularSuffix) by {
        if |base| >= |RegularSuffix| {
          assert base[0..] == base;
          assert s[..|RegularSuffix|] == base[..|RegularSuffix|];
        } else {
          assert s[|base|] == '-';
          assert RegularSuffix[|base|] != '-';
        }
      }
      forall i | 0 <= i <= |base[1..]|
        ensures !StartsWith(base[1..][i..], RegularSuffix)
      {
        assert base[1..][i..] == base[i + 1..];
      }
      RegularSuffixStripped(base[1..]);
      assert s[1..] == base[1..] + RegularSuffix;
    }
  }

  /**
   Removal resumes after the first occurrence: when `pat` first occurs in `a + pat + b` at
   position `|a|`, everything before it is kept and the rest is `b` with its occurrences removed.
   */
  lemma {:induction false} RemoveAllFirstOccurrence(a: string, pat: string, b: string)
    requires |pat| > 0
    requires forall i :: 0 <= i < |a| ==> !StartsWith((a + pat)[i..], pat)
    ensures RemoveAll(a + pat + b, pat) == a + RemoveAll(b, pat)
    decreases |a|
  {
    var s := a + pat + b;
    if |a| == 0 {
      assert s == pat + b;
      assert s[..|pat|] == pat;
      assert s[|pat|..] == b;
    } else {
      assert (a + pat)[0..] == a + pat;
      assert !StartsWith(s, pat) by {
        assert s[..|pat|] == (a + pat)[..|pat|];
      }
      forall i | 0 <= i < |a[1..]|
        ensures !StartsWith((a[1..] + pat)[i..], pat)
      {
        assert (a[1..] + pat)[i..] == (a + pat)[i + 1..];
      }
      RemoveAllFirstOccurrence(a[1..], pat, b);
      assert s[1..] == a[1..] + pat + b;
      assert [a[0]] + a[1..] == a;
    }
  }

  /** `FontMetricsHandler.isFontRegistered`: the name itself, or the name with every `-Regular` removed, is available. */
  function IsFontRegistered(available: seq<string>, fontName: string): (r: bool)
    ensures fontName in available ==> r
    ensures !Occurs(fontName, RegularSuffix) ==> (r <==> fontName in available)
  {
    assert !Occurs(fontName, RegularSuffix) ==> RemoveAll(fontName, RegularSuffix) == fontName by {
      if !Occurs(fontName, RegularSuffix) {
        RemoveAllWithoutOccurrence(fontName, RegularSuffix);
      }
    }
    fontName in available || RemoveAll(fontName, RegularSuffix) in available
  }

  /** A font available under its family name counts as registered under its `-Regular` name. */
  lemma RegisteredUnderBaseName(available: seq<string>, base: string)
    requires base in available
    requires !Occurs(base, RegularSuffix)
    ensures IsFontRegistered(available, base + RegularSuffix)
  {
    RegularSuffixStripped(base);
  }

  /**
   `-Regular` cannot overlap itself (its only `-` is its first character), so in
   `a + "-Regular"` with no `-Regular` inside `a` the first occurrence is the appended one.
   */
  lemma FirstRegularAfter(a: string)
    requires !Occurs(a, RegularSuffix)
    ensures forall i :: 0 <= i < |a| ==> !StartsWith((a + RegularSuffix)[i..], RegularSuffix)
  {
    var s := a + RegularSuffix;
    forall i | 0 <= i < |a|
      ensures !StartsWith(s[i..], RegularSuffix)
    {
      if i + |RegularSuffix| <= |a| {
        assert !StartsWith(a[i..], RegularSuffix);
        assert a[i..][..|RegularSuffix|] == s[i..][..|RegularSuffix|];
      } else {
        var k := |a| - i;
        assert s[i..][k] == s[|a|] == '-';
        assert RegularSuffix[k] != '-';
      }
    }
  }

  /**
   A name with one `-Regular` anywhere in it (say `Foo-Regular-Bold`) is registered exactly
   when the name itself or the name with that `-Regular` cut out (`Foo-Bold`) is available.
   */
  lemma RegisteredWithInnerRegular(available: seq<string>, a: string, b: string)
    requires !Occurs(a, RegularSuffix)
    requires !Occurs(b, RegularSuffix)
    ensures IsFontRegistered(available, a + RegularSuffix + b) <==>
            (a + RegularSuffix + b in available || a + b in available)
  {
    FirstRegularAfter(a);
    RemoveAllFirstOccurrence(a, RegularSuffix, b);
    RemoveAllWithoutOccurrence(b, RegularSuffix);
  }

  // ----- Appending the extreme characters to the sample text -----

  const Separator: string := " | "

  /**
   `String(charsToAdd)` for the set of extreme characters missing from `text`. A Swift
   `Set` has no defined iteration order, so when two characters are missing `bottomFirst`
   chooses which of them comes first.
   */
  function MissingExtremes(text: string, top: char, bottom: char, bottomFirst: bool): string {
    if top in text then (if bottom in text then [] else [bottom])
    else if bottom in text || bottom == top then [top]
    else if bottomFirst then [bottom, top] else [top, bottom]
  }

  /** `s` lists, without repetition and in some order, exactly the extreme characters missing from `text`. */
  ghost predicate ListsMissing(text: string, top: char, bottom: char, s: string) {
    && (forall c :: c in s <==> (c == top || c == bottom) && c !in text)
    && (forall i, j :: 0 <= i < j < |s| ==> s[i] != s[j])
  }

  /** The text after appending: unchanged, or `text + " | " + S` with `S` the missing extremes. */
  function AppendMissing(text: string, top: char, bottom: char, bottomFirst: bool): (r: string)
    ensures r == text <==> top in text && bottom in text
    ensures r != text ==>
              && |r| > |text| + |Separator|
              && r[..|text| + |Separator|] == text + Separator
              && ListsMissing(text, top, bottom, r[|text| + |Separator|..])
              && |r| <= |text| + |Separator| + 2
              && (top == bottom ==> |r| == |text| + |Separator| + 1)
  {
    var s := MissingExtremes(text, top, bottom, bottomFirst);
    if |s| == 0 then text
    else
      var r := text + Separator + s;
      assert r[..|text| + |Separator|] == text + Separator;
      assert r[|text| + |Separator|..] == s;
      r
  }

  /** Three characters drawn from two values contain a repetition. */
  lemma ThreeFromTwoRepeat(s: string, top: char, bottom: char)
    requires |s| > 2
    requires forall i :: 0 <= i < |s| ==> s[i] == top || s[i] == bottom
    ensures s[0] == s[1] || s[0] == s[2] || s[1] == s[2]
  {
    assert s[0] == top || s[0] == bottom;
    assert s[1] == top || s[1] == bottom;
    assert s[2] == top || s[2] == bottom;
  }

  /** Either order of the appended characters is one the model can produce. */
  lemma AppendedOrderIsEither(text: string, top: char, bottom: char, s: string)
    requires ListsMissing(text, top, bottom, s)
    ensures s == MissingExtremes(text, top, bottom, false) || s == MissingExtremes(text, top, bottom, true)
  {
    forall i | 0 <= i < |s|
      ensures s[i] == top || s[i] == bottom
    {
      assert s[i] in s;
    }
    if |s| > 2 {
      ThreeFromTwoRepeat(s, top, bottom);
      assert false;
    }
    if |s| > 0 {
      assert s[0] in s;
    }
    if |s| > 1 {
      assert s[1] in s;
    }
  }

  /** `autoAppendExtremeCharacters`: scan, then append the extremes the text lacks. */
  function AutoAppendExtremeCharacters(text: string, glyphBounds: char -> Rect, bottomFirst: bool): (r: string)
    ensures r == text <==>
              FindExtremeGlyphs(glyphBounds).topMost.ch in text && FindExtremeGlyphs(glyphBounds).bottomMost.ch in text
    ensures FindExtremeGlyphs(glyphBounds).topMost.ch in r && FindExtremeGlyphs(glyphBounds).bottomMost.ch in r
    ensures |text| <= |r| && r[..|text|] == text
    ensures r != text ==>
              var e := FindExtremeGlyphs(glyphBounds);
              && |text| + |Separator| <= |r| <= |text| + |Separator| + 2
              && r[..|text| + |Separator|] == text + Separator
              && ListsMissing(text, e.topMost.ch, e.bottomMost.ch, r[|text| + |Separator|..])
  {
    var e := FindExtremeGlyphs(glyphBounds);
    AppendMissingIdempotent(text, e.topMost.ch, e.bottomMost.ch, bottomFirst);
    AppendMissing(text, e.topMost.ch, e.bottomMost.ch, bottomFirst)
  }

  /** After appending, both extremes occur in the text, so appending again changes nothing. */
  lemma AppendMissingIdempotent(text: string, top: char, bottom: char, bottomFirst: bool)
    ensures var r := AppendMissing(text, top, bottom, bottomFirst);
            && top in r && bottom in r
            && AppendMissing(r, top, bottom, bottomFirst) == r
            && r[..|text|] == text
  {
    var r := AppendMissing(text, top, bottom, bottomFirst);
    if r != text {
      var s := r[|text| + |Separator|..];
      assert r == text + Separator + s;
      if top !in text {
        assert top in s;
      }
      if bottom !in text {
        assert bottom in s;
      }
    }
  }

  /** Running the automatic append twice is the same as running it once. */
  lemma AutoAppendIdempotent(text: string, glyphBounds: char -> Rect, bottomFirst: bool)
    ensures var once := AutoAppendExtremeCharacters(text, glyphBounds, bottomFirst);
            AutoAppendExtremeCharacters(once, glyphBounds, bottomFirst) == once
  {
    var e := FindExtremeGlyphs(glyphBounds);
    AppendMissingIdempotent(text, e.topMost.ch, e.bottomMost.ch, bottomFirst);
  }

  // ----- Bounds and metrics -----

  /**
   `getStandardBounds`: the typographic bounds of the frame's lines, or the zero rectangle
   when the frame yields no line array.
   */
  function StandardBounds(lines: Option<seq<LineMetrics>>): (r: Rect)
    ensures lines.None? ==> r == Zero
    ensures r.origin == Point(0.0, 0.0)
    ensures r.size.width >= 0.0
    ensures lines.Some? ==> forall i :: 0 <= i < |lines.value| ==> lines.value[i].width <= r.size.width
    ensures lines.Some? && r.size.width > 0.0 ==>
              exists i :: 0 <= i < |lines.value| && r.size.width == lines.value[i].width
    ensures lines.Some? ==> r.size.height == TotalHeight(lines.value)
  {
    match lines
    case None => Zero
    case Some(ls) => LinesBounds(ls)
  }

  /** The font-wide metrics CoreText reports for a font at a size. */
  datatype FontFace = FontFace(ascent: real, descent: real, leading: real, capHeight: real, xHeight: real)

  /** The record `getFontMetrics` returns. */
  datatype FontMetricsSnapshot =
    FontMetricsSnapshot(ascent: real, descent: real, leading: real, capHeight: real, xHeight: real, lineHeight: real)

  /** `getFontMetrics`: the five engine metrics passed through, plus the derived line height. */
  function GetFontMetrics(face: FontFace): (m: FontMetricsSnapshot)
    ensures m.ascent == face.ascent && m.descent == face.descent && m.leading == face.leading
    ensures m.capHeight == face.capHeight && m.xHeight == face.xHeight
    ensures m.lineHeight == m.ascent + m.descent + m.leading
  {
    FontMetricsSnapshot(face.ascent, face.descent, face.leading, face.capHeight, face.xHeight,
                        face.ascent + face.descent + face.leading)
  }

  /**
   The two line-height formulas agree: a frame of one line that carries the font's own
   ascent, descent and leading is exactly `lineHeight` tall.
   */
  lemma SingleLineMatchesFontLineHeight(face: FontFace, width: real)
    ensures StandardBounds(Some([LineMetrics(width, face.ascent, face.descent, face.leading)])).size.height
            == GetFontMetrics(face).lineHeight
  {
    var ls := [LineMetrics(width, face.ascent, face.descent, face.leading)];
    assert ls[1..] == [];
  }
}
