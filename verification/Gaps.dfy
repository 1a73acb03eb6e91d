/**
 * Gap detection over ascending, possibly repeated heights (crates/zipherx-core/src/sync.rs).
 */
module Gaps {
  import opened Common

  datatype Gap = Gap(start: nat, end: nat)

  predicate Ascending(s: seq<nat>) {
    forall i, j :: 0 <= i < j < |s| ==> s[i] <= s[j]
  }

  predicate Covered(gaps: seq<Gap>, h: nat) {
    exists i :: 0 <= i < |gaps| && gaps[i].start <= h <= gaps[i].end
  }

  function BlockCount(gaps: seq<Gap>): int {
    if gaps == [] then 0
    else BlockCount(gaps[..|gaps| - 1]) + gaps[|gaps| - 1].end - gaps[|gaps| - 1].start + 1
  }

  /** Gaps are non-empty, in order, and a present height lies between any two. */
  predicate Separated(gaps: seq<Gap>, present: set<nat>) {
    && (forall i :: 0 <= i < |gaps| ==> gaps[i].start <= gaps[i].end)
    && (forall i, j :: 0 <= i < j < |gaps| ==> gaps[i].end + 1 < gaps[j].start)
    && (forall i :: 0 <= i < |gaps| - 1 ==> gaps[i].end + 1 in present)
  }

  /** A gap cannot be widened: what is next to it is present, or outside `lo..hi`. */
  predicate Maximal(gaps: seq<Gap>, present: set<nat>, lo: nat, hi: nat) {
    forall i :: 0 <= i < |gaps| ==>
      && (gaps[i].start == lo || gaps[i].start - 1 in present)
      && (gaps[i].end == hi || gaps[i].end + 1 in present)
  }

  /** The gaps are exactly what is absent from `lo..hi`. */
  ghost predicate Exact(gaps: seq<Gap>, present: set<nat>, lo: nat, hi: int) {
    forall h: nat :: Covered(gaps, h) <==> lo <= h <= hi && h !in present
  }

  ghost predicate Account(gaps: seq<Gap>, present: set<nat>, lo: nat, hi: nat) {
    && lo <= hi
    && (forall h :: h in present ==> lo <= h <= hi)
    && Exact(gaps, present, lo, hi)
    && Separated(gaps, present) && Maximal(gaps, present, lo, hi)
    && BlockCount(gaps) + |present| == hi - lo + 1
  }

  lemma CoveredExtend(gaps: seq<Gap>, g: Gap, h: nat)
    ensures Covered(gaps + [g], h) <==> Covered(gaps, h) || g.start <= h <= g.end
  {
    var all := gaps + [g];
    assert all[|gaps|] == g;
    assert forall i :: 0 <= i < |gaps| ==> all[i] == gaps[i];
  }

  lemma CountExtend(gaps: seq<Gap>, g: Gap)
    ensures BlockCount(gaps + [g]) == BlockCount(gaps) + g.end - g.start + 1
  {
    assert (gaps + [g])[..|gaps|] == gaps;
  }

  /** Every gap ends before the highest present height. */
  lemma GapsEndBelow(gaps: seq<Gap>, present: set<nat>, lo: nat, hi: nat)
    requires Account(gaps, present, lo, hi) && hi in present
    ensures forall i :: 0 <= i < |gaps| ==> gaps[i].end < hi
  {
    forall i | 0 <= i < |gaps| ensures gaps[i].end < hi {
      assert Covered(gaps, gaps[i].end);
    }
  }

  lemma ExactExtend(gaps: seq<Gap>, present: set<nat>, lo: nat, hi: nat, end: nat)
    requires Exact(gaps, present, lo, hi) && lo <= hi < end && forall h :: h in present ==> h <= hi
    ensures Exact(gaps + [Gap(hi + 1, end)], present, lo, end)
  {
    hide Covered;
    var all := gaps + [Gap(hi + 1, end)];
    forall h: nat ensures Covered(all, h) <==> lo <= h <= end && h !in present {
      CoveredExtend(gaps, Gap(hi + 1, end), h);
    }
  }

  lemma ShapeExtend(gaps: seq<Gap>, present: set<nat>, lo: nat, hi: nat, end: nat)
    requires Separated(gaps, present) && Maximal(gaps, present, lo, hi)
    requires hi in present && lo <= hi < end && forall i :: 0 <= i < |gaps| ==> gaps[i].end < hi
    ensures Separated(gaps + [Gap(hi + 1, end)], present) && Maximal(gaps + [Gap(hi + 1, end)], present, lo, end)
  {
    var all := gaps + [Gap(hi + 1, end)];
    assert forall i :: 0 <= i < |gaps| ==> all[i] == gaps[i];
    assert all[|gaps|] == Gap(hi + 1, end);
    assert hi + 1 - 1 in present;
  }

  /** A gap from the highest present height up to `end`. */
  lemma AppendGap(gaps: seq<Gap>, present: set<nat>, lo: nat, hi: nat, end: nat)
    requires Account(gaps, present, lo, hi) && hi in present && hi < end
    ensures Account(gaps + [Gap(hi + 1, end)], present, lo, end)
  {
    hide Covered, BlockCount, Separated, Maximal, Exact;
    GapsEndBelow(gaps, present, lo, hi);
    ExactExtend(gaps, present, lo, hi, end);
    ShapeExtend(gaps, present, lo, hi, end);
    CountExtend(gaps, Gap(hi + 1, end));
  }

  /** The next height right after everything accounted for. */
  lemma AppendHeight(gaps: seq<Gap>, present: set<nat>, lo: nat, hi: nat)
    requires Account(gaps, present, lo, hi)
    ensures Account(gaps, present + {hi + 1}, lo, hi + 1)
  {
    forall h: nat ensures Covered(gaps, h) <==> lo <= h <= hi + 1 && h !in present + {hi + 1} {
    }
    forall i | 0 <= i < |gaps| ensures gaps[i].end + 1 in present + {hi + 1} {
    }
  }

  /** The next height, with a gap before it if it is not adjacent. */
  lemma NextHeight(gaps: seq<Gap>, seen: set<nat>, lo: nat, a: nat, b: nat)
    requires Account(gaps, seen, lo, a) && a in seen && a <= b
    ensures Account(if a + 1 < b then gaps + [Gap(a + 1, b - 1)] else gaps, seen + {b}, lo, b)
  {
    hide Account;
    if a + 1 < b {
      AppendGap(gaps, seen, lo, a, b - 1);
    }
    if a < b {
      AppendHeight(if a + 1 < b then gaps + [Gap(a + 1, b - 1)] else gaps, seen, lo, b - 1);
    } else {
      assert seen + {b} == seen;
    }
  }

  lemma SingleGap(g: Gap)
    ensures BlockCount([g]) == g.end - g.start + 1
    ensures forall h: nat :: Covered([g], h) <==> g.start <= h <= g.end
  {
    assert [g][..0] == [];
    assert forall h: nat :: Covered([g], h) ==> g.start <= h <= g.end;
    assert [g][0] == g;
  }

  lemma FirstHeight(start: nat, first: nat)
    ensures start < first ==> Account([Gap(start, first - 1)], {first}, start, first)
    ensures first <= start ==> Account([], {first}, first, first)
  {
    hide Covered, BlockCount;
    NoGaps();
    if start < first {
      SingleGap(Gap(start, first - 1));
    }
  }

  lemma NoGaps()
    ensures BlockCount([]) == 0 && forall h: nat :: !Covered([], h)
  {
  }

  /** Nothing is absent between the expected range and the heights outside it. */
  ghost predicate FullOutside(present: set<nat>, start: nat, end: nat, lo: nat, hi: nat) {
    forall h: nat :: lo <= h <= hi && !(start <= h <= end) ==> h in present
  }

  /** Measured against the expected range alone, the gaps are exact if and only if that is so. */
  lemma ExactInRange(gaps: seq<Gap>, present: set<nat>, start: nat, end: nat, lo: nat, hi: nat)
    requires Account(gaps, present, lo, hi) && lo <= start && end <= hi
    ensures Exact(gaps, present, start, end) <==> FullOutside(present, start, end, lo, hi)
  {
    if Exact(gaps, present, start, end) {
      forall h: nat | lo <= h <= hi && !(start <= h <= end) ensures h in present {
        assert Covered(gaps, h) <==> start <= h <= end && h !in present;
      }
    }
  }

  /**
   * Heights but the last must leave room for an increment. The gaps are exactly what is absent
   * between the lower of the expected start and the first height, and the higher of the expected
   * end and the last. They are what is absent from the expected range if and only if nothing is
   * absent outside it.
   */
  method DetectGaps(heights: seq<nat>, expectedStart: nat, expectedEnd: nat) returns (gaps: seq<Gap>)
    requires Ascending(heights) && forall i :: 0 <= i < |heights| - 1 ==> heights[i] < U64_MAX
    ensures heights == [] ==> gaps == if expectedStart <= expectedEnd then [Gap(expectedStart, expectedEnd)] else []
    ensures heights != [] ==>
              Account(gaps, AsSet(heights), Min(expectedStart, heights[0]), Max(expectedEnd, heights[|heights| - 1]))
    ensures heights != [] ==>
              (Exact(gaps, AsSet(heights), expectedStart, expectedEnd)
               <==> FullOutside(AsSet(heights), expectedStart, expectedEnd,
                                Min(expectedStart, heights[0]), Max(expectedEnd, heights[|heights| - 1])))
  {
    hide Account, Exact, FullOutside;
    gaps := [];
    if heights == [] {
      if expectedStart <= expectedEnd {
        gaps := [Gap(expectedStart, expectedEnd)];
      }
      return;
    }
    if expectedStart < heights[0] {
      gaps := gaps + [Gap(expectedStart, heights[0] - 1)];
      assert gaps == [Gap(expectedStart, heights[0] - 1)];
    }
    FirstHeight(expectedStart, heights[0]);
    ghost var lo := Min(expectedStart, heights[0]);
    assert heights[..1] == [heights[0]];
    assert AsSet(heights[..1]) == {heights[0]};
    for i := 1 to |heights|
      invariant Account(gaps, AsSet(heights[..i]), lo, heights[i - 1])
    {
      ghost var seen := AsSet(heights[..i]);
      assert heights[..i][i - 1] == heights[i - 1];
      assert heights[..i + 1] == heights[..i] + [heights[i]];
      assert AsSet(heights[..i + 1]) == seen + {heights[i]};
      NextHeight(gaps, seen, lo, heights[i - 1], heights[i]);
      if heights[i - 1] + 1 < heights[i] {
        gaps := gaps + [Gap(heights[i - 1] + 1, heights[i] - 1)];
      }
    }
    assert heights[..|heights|] == heights;
    var last := heights[|heights| - 1];
    if last < expectedEnd {
      AppendGap(gaps, AsSet(heights), lo, last, expectedEnd);
      gaps := gaps + [Gap(last + 1, expectedEnd)];
    }
    ExactInRange(gaps, AsSet(heights), expectedStart, expectedEnd, lo, Max(expectedEnd, last));
  }

  /** So with every height inside the expected range they are exact, and sizes add up. */
  lemma HeightsInRange(gaps: seq<Gap>, heights: seq<nat>, start: nat, end: nat)
    requires Ascending(heights) && heights != [] && start <= heights[0] && heights[|heights| - 1] <= end
    requires Account(gaps, AsSet(heights), Min(start, heights[0]), Max(end, heights[|heights| - 1]))
    ensures Exact(gaps, AsSet(heights), start, end)
    ensures BlockCount(gaps) + |AsSet(heights)| == end - start + 1
  {
  }

  /** A height below the expected range makes the absent heights up to the range count as gaps. */
  method HeightBelowRange(h: nat, start: nat, end: nat) returns (gaps: seq<Gap>)
    requires h + 1 < start <= end < U64_MAX
    ensures forall k: nat :: Covered(gaps, k) <==> h < k <= end
    ensures Covered(gaps, h + 1) && !Exact(gaps, {h}, start, end)
  {
    hide Separated, Maximal, BlockCount, Covered;
    gaps := DetectGaps([h], start, end);
    assert AsSet([h]) == {h};
    assert Covered(gaps, h + 1) <==> h <= h + 1 <= end && h + 1 !in {h};
  }
}
