/**
 The extreme-glyph scan shared by every copy of `findExtremeGlyphs`: one left-to-right
 pass over a candidate sequence that keeps, for each of two measures (height above the
 baseline and depth below it), the first candidate whose measure is strictly larger than
 everything seen so far. Both running maxima start at the floor `(floorCh, 0)`.

 The candidate type `C` and the measures are parameters: the Swift copies scan
 characters with signed measures and the floor `" "`, the PHP and JavaScript copies scan
 one-character strings with absolute-value measures and the floor `""`.
 */
module ExtremeScan {

  /** A candidate together with its measured excursion (`(character, height)` or `(character, depth)`). */
  datatype Extreme<C> = Extreme(ch: C, value: real)

  /** The scan result: the topmost and the bottommost candidate. */
  datatype ExtremePair<C> = ExtremePair(topMost: Extreme<C>, bottomMost: Extreme<C>)

  /** The starting value of both running maxima. */
  function Floor<C>(floorCh: C): Extreme<C> {
    Extreme(floorCh, 0.0)
  }

  /** One loop iteration on one side: replace the running maximum only on a strict `>`. */
  function Step<C>(acc: Extreme<C>, c: C, v: real): Extreme<C> {
    if v > acc.value then Extreme(c, v) else acc
  }

  /**
   The running maximum after scanning `cands` from `acc`. It recurses on the last
   candidate, so `Fold(acc, cands[..i], measure)` is the state of the loop after `i`
   iterations.
   */
  function Fold<C>(acc: Extreme<C>, cands: seq<C>, measure: C -> real): (r: Extreme<C>)
    ensures r.value >= acc.value
    ensures forall i :: 0 <= i < |cands| ==> measure(cands[i]) <= r.value
    ensures r.value == acc.value ==> r == acc
    ensures r.value > acc.value ==>
              exists i :: 0 <= i < |cands| && r == Extreme(cands[i], measure(cands[i]))
    decreases |cands|
  {
    if |cands| == 0 then acc
    else
      var last := |cands| - 1;
      Step(Fold(acc, cands[..last], measure), cands[last], measure(cands[last]))
  }

  /**
   `k` is the first position of a candidate whose measure is the maximum of `cands`:
   every candidate measures less, or the same and sits no earlier.
   */
  ghost predicate FirstMax<C>(cands: seq<C>, measure: C -> real, k: int) {
    && 0 <= k < |cands|
    && forall j :: 0 <= j < |cands| ==>
         measure(cands[j]) < measure(cands[k]) || (measure(cands[j]) == measure(cands[k]) && k <= j)
  }

  /**
   Reference definition of a scan result, independent of the loop: when no candidate
   exceeds the starting value the result is the starting value; otherwise it is the
   first candidate attaining the maximum, paired with its own measure.
   */
  ghost predicate IsExtremeFrom<C>(cands: seq<C>, measure: C -> real, acc: Extreme<C>, r: Extreme<C>) {
    if forall i :: 0 <= i < |cands| ==> measure(cands[i]) <= acc.value then
      r == acc
    else
      exists k :: FirstMax(cands, measure, k) && r == Extreme(cands[k], measure(cands[k]))
  }

  /** The reference definition from the floor `(floorCh, 0)`. */
  ghost predicate IsExtreme<C>(cands: seq<C>, measure: C -> real, floorCh: C, r: Extreme<C>) {
    IsExtremeFrom(cands, measure, Floor(floorCh), r)
  }

  /** Appending a candidate that does not beat the first maximum keeps it. */
  lemma FirstMaxKept<C>(p: seq<C>, c: C, measure: C -> real, k: int)
    requires FirstMax(p, measure, k)
    requires measure(c) <= measure(p[k])
    ensures FirstMax(p + [c], measure, k)
  {
    var s := p + [c];
    assert forall j :: 0 <= j < |p| ==> s[j] == p[j];
    assert s[|p|] == c;
  }

  /** Appending a candidate that beats every earlier one makes it the first maximum. */
  lemma FirstMaxNew<C>(p: seq<C>, c: C, measure: C -> real)
    requires forall j :: 0 <= j < |p| ==> measure(p[j]) < measure(c)
    ensures FirstMax(p + [c], measure, |p|)
  {
    var s := p + [c];
    assert forall j :: 0 <= j < |p| ==> s[j] == p[j];
    assert s[|p|] == c;
  }

  /** The loop computes the reference result. */
  lemma {:induction false} FoldIsExtreme<C>(acc: Extreme<C>, cands: seq<C>, measure: C -> real)
    ensures IsExtremeFrom(cands, measure, acc, Fold(acc, cands, measure))
    decreases |cands|
  {
    if |cands| > 0 {
      var last := |cands| - 1;
      var p := cands[..last];
      var c := cands[last];
      assert cands == p + [c];
      var prev := Fold(acc, p, measure);
      FoldIsExtreme(acc, p, measure);
      if forall i :: 0 <= i < |p| ==> measure(p[i]) <= acc.value {
        if measure(c) > acc.value {
          FirstMaxNew(p, c, measure);
        } else {
          assert forall i :: 0 <= i < |cands| ==> measure(cands[i]) <= acc.value;
        }
      } else {
        var k :| FirstMax(p, measure, k) && prev == Extreme(p[k], measure(p[k]));
        if measure(c) > measure(p[k]) {
          FirstMaxNew(p, c, measure);
          assert FirstMax(cands, measure, last);
        } else {
          FirstMaxKept(p, c, measure, k);
          assert cands[k] == p[k];
        }
      }
    }
  }

  /** At most one position is the first maximum. */
  lemma FirstMaxUnique<C>(cands: seq<C>, measure: C -> real, k1: int, k2: int)
    requires FirstMax(cands, measure, k1) && FirstMax(cands, measure, k2)
    ensures k1 == k2
  {
    assert measure(cands[k2]) <= measure(cands[k1]);
    assert measure(cands[k1]) <= measure(cands[k2]);
  }

  /** The reference definition admits exactly one result. */
  lemma ExtremeUnique<C>(cands: seq<C>, measure: C -> real, acc: Extreme<C>, r1: Extreme<C>, r2: Extreme<C>)
    requires IsExtremeFrom(cands, measure, acc, r1)
    requires IsExtremeFrom(cands, measure, acc, r2)
    ensures r1 == r2
  {
    if !(forall i :: 0 <= i < |cands| ==> measure(cands[i]) <= acc.value) {
      var k1 :| FirstMax(cands, measure, k1) && r1 == Extreme(cands[k1], measure(cands[k1]));
      var k2 :| FirstMax(cands, measure, k2) && r2 == Extreme(cands[k2], measure(cands[k2]));
      FirstMaxUnique(cands, measure, k1, k2);
    }
  }

  /** A result is the loop's result if and only if it meets the reference definition. */
  lemma FoldCharacterised<C>(acc: Extreme<C>, cands: seq<C>, measure: C -> real, r: Extreme<C>)
    ensures Fold(acc, cands, measure) == r <==> IsExtremeFrom(cands, measure, acc, r)
  {
    FoldIsExtreme(acc, cands, measure);
    if IsExtremeFrom(cands, measure, acc, r) {
      ExtremeUnique(cands, measure, acc, r, Fold(acc, cands, measure));
    }
  }

  /**
   Ties go to the earliest candidate: a first candidate that is above the starting value
   and not exceeded by any later one is the result, however many later ones equal it.
   */
  lemma EarliestMaximumWins<C>(acc: Extreme<C>, c: C, rest: seq<C>, measure: C -> real)
    requires measure(c) > acc.value
    requires forall i :: 0 <= i < |rest| ==> measure(rest[i]) <= measure(c)
    ensures Fold(acc, [c] + rest, measure) == Extreme(c, measure(c))
  {
    var cands := [c] + rest;
    assert cands[0] == c;
    assert forall i :: 1 <= i < |cands| ==> cands[i] == rest[i - 1];
    assert FirstMax(cands, measure, 0);
    FoldIsExtreme(acc, cands, measure);
    var r := Fold(acc, cands, measure);
    assert !(forall i :: 0 <= i < |cands| ==> measure(cands[i]) <= acc.value);
    var k :| FirstMax(cands, measure, k) && r == Extreme(cands[k], measure(cands[k]));
    FirstMaxUnique(cands, measure, 0, k);
  }

  /** A later candidate that only equals the running maximum does not displace it. */
  lemma LaterTieIgnored<C>(acc: Extreme<C>, cands: seq<C>, c: C, measure: C -> real)
    requires exists i :: 0 <= i < |cands| && measure(c) <= measure(cands[i])
    ensures Fold(acc, cands + [c], measure) == Fold(acc, cands, measure)
  {
    assert (cands + [c])[..|cands|] == cands;
  }

  /**
   One side of the scan from the floor `(floorCh, 0)`, with the properties every copy of
   `findExtremeGlyphs` promises its caller.
   */
  function ScanSide<C>(cands: seq<C>, measure: C -> real, floorCh: C): (r: Extreme<C>)
    ensures IsExtreme(cands, measure, floorCh, r)
    ensures r.value >= 0.0
    ensures forall i :: 0 <= i < |cands| ==> measure(cands[i]) <= r.value
    ensures r.value > 0.0 ==> r.ch in cands && measure(r.ch) == r.value
    ensures r.value == 0.0 <==> r == Extreme(floorCh, 0.0)
    ensures (forall i :: 0 <= i < |cands| ==> measure(cands[i]) <= 0.0) <==> r == Extreme(floorCh, 0.0)
  {
    FoldIsExtreme(Floor(floorCh), cands, measure);
    Fold(Floor(floorCh), cands, measure)
  }

  /** Both sides of the scan. */
  function ScanPair<C>(cands: seq<C>, ascent: C -> real, descent: C -> real, floorCh: C): (r: ExtremePair<C>)
    ensures IsExtreme(cands, ascent, floorCh, r.topMost)
    ensures IsExtreme(cands, descent, floorCh, r.bottomMost)
  {
    ExtremePair(ScanSide(cands, ascent, floorCh), ScanSide(cands, descent, floorCh))
  }

  /** One more loop iteration extends the scanned prefix by one candidate. */
  lemma FoldPrefixStep<C>(acc: Extreme<C>, cands: seq<C>, i: int, measure: C -> real)
    requires 0 <= i < |cands|
    ensures Fold(acc, cands[..i + 1], measure) == Step(Fold(acc, cands[..i], measure), cands[i], measure(cands[i]))
  {
    assert cands[..i + 1][..i] == cands[..i];
  }

  /**
   The scan as the source writes it: a single loop carrying both running maxima. Its
   result is the pair of independent one-sided scans.
   */
  method Scan<C>(cands: seq<C>, ascent: C -> real, descent: C -> real, floorCh: C) returns (pair: ExtremePair<C>)
    ensures IsExtreme(cands, ascent, floorCh, pair.topMost)
    ensures IsExtreme(cands, descent, floorCh, pair.bottomMost)
    ensures pair == ScanPair(cands, ascent, descent, floorCh)
  {
    var highest := Floor(floorCh);
    var lowest := Floor(floorCh);
    var i := 0;
    while i < |cands|
      invariant 0 <= i <= |cands|
      invariant highest == Fold(Floor(floorCh), cands[..i], ascent)
      invariant lowest == Fold(Floor(floorCh), cands[..i], descent)
    {
      var c := cands[i];
      var a := ascent(c);
      var d := descent(c);
      if a > highest.value {
        highest := Extreme(c, a);
      }
      if d > lowest.value {
        lowest := Extreme(c, d);
      }
      assert highest == Step(Fold(Floor(floorCh), cands[..i], ascent), c, a);
      assert lowest == Step(Fold(Floor(floorCh), cands[..i], descent), c, d);
      FoldPrefixStep(Floor(floorCh), cands, i, ascent);
      FoldPrefixStep(Floor(floorCh), cands, i, descent);
      i := i + 1;
    }
    assert cands[..i] == cands;
    pair := ExtremePair(highest, lowest);
    assert pair == ScanPair(cands, ascent, descent, floorCh);
  }
}
