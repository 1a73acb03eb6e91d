/**
 * A block that was fetched on a second try and lies behind a higher one, where a page ends between
 * the two: the failing input for readers with different page sizes, for every page size.
 */
module LateBlock {
  import opened Common
  import opened DeltaStore
  import opened FirstOccurrences
  import opened PageOrder
  import StableSort

  /** One output at each of `n` heights from `lo` on. */
  function Outputs(lo: nat, n: nat): (rs: seq<Record>)
    ensures |rs| == n && forall k :: 0 <= k < n ==> rs[k] == Sample(lo + k, 1)
  {
    seq(n, k requires 0 <= k < n => Sample(lo + k, 1))
  }

  /** `n` blocks in order, and then two that came in the wrong order, the later one on a second try. */
  function RetriedFile(lo: nat, n: nat): seq<Record> {
    Outputs(lo, n) + [Sample(lo + n + 1, 2), Sample(lo + n, 3)]
  }

  /** The commitments of such a file. */
  lemma RetriedCommitments(lo: nat, n: nat, hi: nat)
    requires lo + n < hi
    ensures var file, fill := RetriedFile(lo, n), InRange(Outputs(lo, n), lo, hi);
            var x, y := SampleOf(lo + n + 1, 2), SampleOf(lo + n, 3);
            && (forall r :: r in file ==> In(r, lo, hi))
            && |fill| == n && (forall k :: 0 <= k < n ==> fill[k] == SampleOf(lo + k, 1))
            && InRange(file[0..n + 1], lo, hi) == fill + [x] && InRange(file[n + 1..n + 2], lo, hi) == [y]
            && InRange(file, lo, hi) == fill + [x, y]
  {
    hide InRange;
    SampleHeights();
    var file, fill := RetriedFile(lo, n), Outputs(lo, n);
    var p, q := Sample(lo + n + 1, 2), Sample(lo + n, 3);
    AllInRange(fill, lo, hi);
    InRangeOne(p, lo, hi);
    InRangeOne(q, lo, hi);
    assert file[0..n + 1] == fill + [p] && file[n + 1..n + 2] == [q] && file == fill + [p] + [q];
    InRangeAppend(fill, [p], lo, hi);
    InRangeAppend(fill + [p], [q], lo, hi);
  }

  /** A page that ends between the two leaves them as they are in the file, a larger one puts them right. */
  lemma RetriedBlock(lo: nat, n: nat, hi: nat, larger: nat)
    requires lo + n < hi && n + 1 < larger
    ensures var file, fill := RetriedFile(lo, n), InRange(Outputs(lo, n), lo, hi);
            var x, y := SampleOf(lo + n + 1, 2), SampleOf(lo + n, 3);
            && PagedRead(file, lo, hi, 0, n + 1) == fill + [x, y]
            && PagedRead(file, lo, hi, 0, larger) == fill + [y, x]
            && Distinct(fill + [x, y]) && Distinct(fill + [y, x])
  {
    hide InRange, PagedRead, ReadEnd, StableSort.Sort, In;
    var file, fill := RetriedFile(lo, n), InRange(Outputs(lo, n), lo, hi);
    var x, y := SampleOf(lo + n + 1, 2), SampleOf(lo + n, 3);
    RetriedCommitments(lo, n, hi);
    AllRead(file, lo, hi, 0, n + 1);
    var next := ReadUnfolds(file, lo, hi, 0, n + 1);
    next := ReadUnfolds(file, lo, hi, n + 1, n + 1);
    next := ReadUnfolds(file, lo, hi, 0, larger);
    assert file[0..n + 2] == file;
    SortFixpoint(fill + [x]);
    SortFixpoint([y]);
    assert fill + [x] + [y] == fill + [x, y];
    HeightPreorder();
    assert Ascending(fill);
    SortFixpoint(fill);
    StableSort.SortBoth(NotHigher, fill, [x, y]);
    SwapTwo(x, y);
  }

  lemma SwapTwo(x: Commitment, y: Commitment)
    requires y.0 < x.0
    ensures StableSort.Sort(NotHigher, [x, y]) == [y, x]
  {
    assert [x, y][1..] == [y];
    var none: seq<Commitment> := [];
    assert [y][1..] == none;
    assert StableSort.Sort(NotHigher, [y]) == [y];
    assert StableSort.Insert(NotHigher, x, none) == [x];
  }

  /** The one page size does not yield the commitments by height, the other does, and they are not alike. */
  lemma RetriedNotReadable(lo: nat, n: nat, hi: nat, larger: nat)
    requires lo + n < hi && n + 1 < larger
    ensures var file := RetriedFile(lo, n);
            && !Readable(file, lo, hi, n + 1) && Readable(file, lo, hi, larger)
            && !Alike(file, lo, hi, n + 1, larger)
  {
    hide InRange, PagedRead, Dedup, Delta, Readable, Alike, RetriedFile;
    var file := RetriedFile(lo, n);
    RetriedBlock(lo, n, hi, larger);
    var fill, x, y := InRange(Outputs(lo, n), lo, hi), SampleOf(lo + n + 1, 2), SampleOf(lo + n, 3);
    DedupDistinct(fill + [x, y]);
    DedupDistinct(fill + [y, x]);
    assert (fill + [x, y])[|fill|] != (fill + [y, x])[|fill|];
    RetriedBlock(lo, n, hi, n + 2 + |file|);
    WholeRead(file, lo, hi, n + 2 + |file|);
    ReadableExactly(file, lo, hi, n + 1);
    ReadableExactly(file, lo, hi, larger);
    AlikeExactly(file, lo, hi, n + 1, larger);
  }
}
