/**
 * In which order a page loop sees the commitments of a delta file, each at its first occurrence
 * (crates/zipherx-storage/src/delta_cmu.rs, and its callers in crates/zipherx-core/src/async_sync.rs).
 *
 * Blocks that were fetched late or again lie behind higher ones in the file, and the reader sorts
 * each page by itself. Of two commitments the one first in the file comes first, unless the other
 * is lower and on the same page. From this follows, for every file, exactly when two page sizes
 * yield the same commitments, and when a page size yields them all in order of height.
 */
module PageOrder {
  import opened Common
  import opened DeltaStore
  import opened FirstOccurrences
  import StableSort

  /** Record `j` is in range, and its commitment was not before it. */
  predicate New(file: seq<Record>, lo: nat, hi: nat, j: nat) {
    j < |file| && In(file[j], lo, hi) && CommitmentOf(file[j]) !in InRange(file[..j], lo, hi)
  }

  /** No record out of range lies before record `j` on an earlier page: the loop gets to `j`. */
  ghost predicate Reached(file: seq<Record>, lo: nat, hi: nat, limit: nat, j: nat)
    requires 0 < limit && j < |file|
  {
    forall i :: 0 <= i < j && !In(file[i], lo, hi) ==> i / limit == j / limit
  }

  /** Both page sizes reach the same new records, and have the same out of height order on one page. */
  ghost predicate Alike(file: seq<Record>, lo: nat, hi: nat, a: nat, b: nat)
    requires 0 < a && 0 < b
  {
    && (forall j :: 0 <= j < |file| && New(file, lo, hi, j) ==>
          (Reached(file, lo, hi, a, j) <==> Reached(file, lo, hi, b, j)))
    && forall i, j :: 0 <= i < j < |file| && New(file, lo, hi, i) && New(file, lo, hi, j)
                      && file[j].height < file[i].height && Reached(file, lo, hi, a, j)
                      ==> (i / a == j / a <==> i / b == j / b)
  }

  /** Record `j` is new, and comes after a higher record or one out of range. */
  predicate Late(file: seq<Record>, lo: nat, hi: nat, i: nat, j: nat) {
    i < j < |file| && New(file, lo, hi, j) && (!In(file[i], lo, hi) || file[j].height < file[i].height)
  }

  /** No commitment first occurs on a later page than a higher record or one out of range. */
  ghost predicate Readable(file: seq<Record>, lo: nat, hi: nat, limit: nat)
    requires 0 < limit
  {
    forall i: nat, j: nat :: Late(file, lo, hi, i, j) ==> i / limit == j / limit
  }

  /** What the tree is to hold: the commitments in range, each once, by height. */
  function Delta(file: seq<Record>, lo: nat, hi: nat): seq<Commitment> {
    Dedup(SortByHeight(InRange(file, lo, hi)))
  }

  lemma DeltaMembers(file: seq<Record>, lo: nat, hi: nat)
    ensures forall c: Commitment :: c in Delta(file, lo, hi) <==> c in InRange(file, lo, hi)
    ensures Distinct(Delta(file, lo, hi))
  {
    hide InRange, StableSort.Sort;
    var sorted := SortByHeight(InRange(file, lo, hi));
    SortMembers(NotHigher, InRange(file, lo, hi));
    DedupMembers<Commitment>(sorted);
    forall c: Commitment ensures c in Dedup(sorted) <==> c in InRange(file, lo, hi) {
      DedupMember(sorted, c);
      assert c in Dedup(sorted) <==> c in sorted;
      assert c in sorted <==> c in StableSort.Sort(NotHigher, InRange(file, lo, hi));
    }
  }

  /**
   * The delta, in terms of the records: the (height, commitment) of those in range, each once, by
   * height, and within a height in the order of first occurrence in the file.
   */
  lemma DeltaIs(file: seq<Record>, lo: nat, hi: nat)
    ensures forall c: Commitment ::
              c in Delta(file, lo, hi)
              <==> exists r :: r in file && lo <= r.height <= hi && c.0 == r.height && c.1 == r.cmu
    ensures Distinct(Delta(file, lo, hi)) && Ascending(Delta(file, lo, hi))
    ensures var d := Delta(file, lo, hi);
            forall x: Commitment, y: Commitment :: x in d && y in d && x.0 == y.0 ==>
              (Before(d, x, y) <==> Before(InRange(file, lo, hi), x, y))
  {
    hide InRange, StableSort.Sort, Dedup, Before, Distinct;
    DeltaMembers(file, lo, hi);
    InRangeMembers(file, lo, hi);
    HeightPreorder();
    var all := InRange(file, lo, hi);
    DedupSort(NotHigher, all);
    StableSort.SortSorts(NotHigher, all);
    DedupSorted(NotHigher, SortByHeight(all));
    forall x: Commitment, y: Commitment | x in Delta(file, lo, hi) && y in Delta(file, lo, hi) && x.0 == y.0
      ensures Before(Delta(file, lo, hi), x, y) <==> Before(all, x, y)
    {
      BeforeDedup(SortByHeight(all), x, y);
      BeforeSort(NotHigher, all, x, y);
    }
    forall c: Commitment
      ensures c in Delta(file, lo, hi)
         <==> exists r :: r in file && lo <= r.height <= hi && c.0 == r.height && c.1 == r.cmu
    {
      if r :| r in file && lo <= r.height <= hi && c.0 == r.height && c.1 == r.cmu {
        assert In(r, lo, hi) && CommitmentOf(r) == c;
      }
    }
  }

  lemma HeightPreorder()
    ensures StableSort.Preorder(NotHigher)
    ensures forall s :: StableSort.Sorted(NotHigher, s) <==> Ascending(s)
  {
  }

  // ---------------------------------------------------------------- first occurrences in the file

  lemma PrefixInRange(file: seq<Record>, lo: nat, hi: nat, i: nat, j: nat)
    requires i <= j <= |file|
    ensures InRange(file[..j], lo, hi) == InRange(file[..i], lo, hi) + InRange(file[i..j], lo, hi)
    ensures forall c: Commitment :: c in InRange(file[..j], lo, hi) <==>
              c in InRange(file[..i], lo, hi) || c in InRange(file[i..j], lo, hi)
  {
    hide InRange;
    assert file[..j] == file[..i] + file[i..j];
    InRangeAppend(file[..i], file[i..j], lo, hi);
  }

  /** Every commitment of a prefix is new at some place in it. */
  lemma {:induction false} FirstPlace(file: seq<Record>, lo: nat, hi: nat, end: nat, c: Commitment) returns (j: nat)
    requires end <= |file| && c in InRange(file[..end], lo, hi)
    ensures j < end && New(file, lo, hi, j) && CommitmentOf(file[j]) == c
  {
    hide InRange;
    if end == 0 {
      InRangeUnfolds(file[..0], lo, hi);
      assert false;
    } else {
      PrefixInRange(file, lo, hi, end - 1, end);
      if c in InRange(file[..end - 1], lo, hi) {
        j := FirstPlace(file, lo, hi, end - 1, c);
      } else {
        j := end - 1;
        assert file[j..end] == [file[j]];
        InRangeOne(file[j], lo, hi);
      }
    }
  }

  /** A new commitment is in every longer prefix and in no shorter one. */
  lemma PlaceOfNew(file: seq<Record>, lo: nat, hi: nat, j: nat, end: nat)
    requires New(file, lo, hi, j) && end <= |file|
    ensures CommitmentOf(file[j]) in InRange(file[..end], lo, hi) <==> j < end
  {
    hide InRange;
    if j < end {
      PrefixInRange(file, lo, hi, j, j + 1);
      assert file[j..j + 1] == [file[j]];
      InRangeOne(file[j], lo, hi);
      PrefixInRange(file, lo, hi, j + 1, end);
    } else {
      PrefixInRange(file, lo, hi, end, j);
    }
  }

  // ---------------------------------------------------------------- the order of a read

  /** In the stretch from `offset`, the commitment of record `j` is not before it. */
  predicate Fresh(file: seq<Record>, lo: nat, hi: nat, offset: nat, j: nat) {
    offset <= j < |file| && In(file[j], lo, hi) && CommitmentOf(file[j]) !in InRange(file[offset..j], lo, hi)
  }

  /** Within one stretch of the file. */
  lemma StretchOrder(file: seq<Record>, lo: nat, hi: nat, offset: nat, next: nat, i: nat, j: nat)
    requires i < j < next <= |file| && Fresh(file, lo, hi, offset, i) && Fresh(file, lo, hi, offset, j)
    ensures var q, x, y := InRange(file[offset..next], lo, hi), CommitmentOf(file[i]), CommitmentOf(file[j]);
            x in q && y in q && x != y && Before(q, x, y)
  {
    hide InRange, Before;
    var x, y := CommitmentOf(file[i]), CommitmentOf(file[j]);
    var q := InRange(file[offset..next], lo, hi);
    InStretch(file, lo, hi, offset, i, j);
    InStretch(file, lo, hi, offset, j, next);
    assert file[offset..next] == file[offset..j] + file[j..next];
    InRangeAppend(file[offset..j], file[j..next], lo, hi);
    BeforeMembers(InRange(file[offset..j], lo, hi), x, y);
    BeforeAppend(InRange(file[offset..j], lo, hi), InRange(file[j..next], lo, hi), x, y);
  }

  lemma InStretch(file: seq<Record>, lo: nat, hi: nat, offset: nat, i: nat, next: nat)
    requires offset <= i < next <= |file| && In(file[i], lo, hi)
    ensures CommitmentOf(file[i]) in InRange(file[offset..next], lo, hi)
  {
    hide InRange;
    InRangeMembers(file[offset..next], lo, hi);
    assert file[offset..next][i - offset] == file[i];
  }

  /** After sorting that stretch by height. */
  lemma SortedStretchOrder(file: seq<Record>, lo: nat, hi: nat, offset: nat, next: nat, i: nat, j: nat)
    requires i < j < next <= |file| && Fresh(file, lo, hi, offset, i) && Fresh(file, lo, hi, offset, j)
    ensures var p := SortByHeight(InRange(file[offset..next], lo, hi));
            var x, y := CommitmentOf(file[i]), CommitmentOf(file[j]);
            x in p && y in p && (Before(p, x, y) <==> file[i].height <= file[j].height)
  {
    hide InRange, Before, StableSort.Sort, In;
    var q := InRange(file[offset..next], lo, hi);
    StretchOrder(file, lo, hi, offset, next, i, j);
    HeightPreorder();
    BeforeSort(NotHigher, q, CommitmentOf(file[i]), CommitmentOf(file[j]));
    SortMembers(NotHigher, q);
  }

  lemma FreshPlace(file: seq<Record>, lo: nat, hi: nat, offset: nat, j: nat)
    requires Fresh(file, lo, hi, offset, j)
    ensures offset <= j < |file| && In(file[j], lo, hi)
  {
  }

  /** One page of a read, and the rest of it. */
  lemma ReadUnfolds(file: seq<Record>, lo: nat, hi: nat, offset: nat, limit: nat) returns (next: nat)
    requires 0 < limit && offset < |file|
    ensures next == Min(offset + limit, |file|)
    ensures var p, end := SortByHeight(InRange(file[offset..next], lo, hi)), ReadEnd(file, lo, hi, offset, limit);
            && next <= end
            && (end != next ==>
                  && next == offset + limit && end == ReadEnd(file, lo, hi, next, limit)
                  && PagedRead(file, lo, hi, offset, limit) == p + PagedRead(file, lo, hi, next, limit))
            && (end == next ==> PagedRead(file, lo, hi, offset, limit) == p)
  {
    hide InRange, SortByHeight, RangePage, In;
    next := PageIs(file, lo, hi, offset, limit);
    var p := RangePage(file, lo, hi, offset, limit);
    if |p| == limit && ReadEnd(file, lo, hi, offset, limit) == next {
      ReadOn(file, lo, hi, next, limit);
      assert p + [] == p;
    }
  }

  /** A read gets past every place that is not the end of the file. */
  lemma ReadOn(file: seq<Record>, lo: nat, hi: nat, offset: nat, limit: nat)
    requires 0 < limit && offset <= |file| && ReadEnd(file, lo, hi, offset, limit) == offset
    ensures PagedRead(file, lo, hi, offset, limit) == []
  {
    hide InRange, SortByHeight, In;
  }

  /** What is fresh behind a page is not on it, and fresh from there on. */
  lemma LaterPages(file: seq<Record>, lo: nat, hi: nat, offset: nat, next: nat, j: nat)
    requires offset <= next <= j && Fresh(file, lo, hi, offset, j)
    ensures CommitmentOf(file[j]) !in SortByHeight(InRange(file[offset..next], lo, hi))
    ensures Fresh(file, lo, hi, next, j)
  {
    hide InRange, StableSort.Sort, In;
    SortMembers(NotHigher, InRange(file[offset..next], lo, hi));
    assert file[offset..j] == file[offset..next] + file[next..j];
    InRangeAppend(file[offset..next], file[next..j], lo, hi);
  }

  /** Two commitments that first occur on the page at `offset`. */
  lemma OrderOnPage(file: seq<Record>, lo: nat, hi: nat, offset: nat, limit: nat, i: nat, j: nat)
    requires 0 < limit && i < j < Min(offset + limit, |file|)
    requires Fresh(file, lo, hi, offset, i) && Fresh(file, lo, hi, offset, j)
    ensures Before(PagedRead(file, lo, hi, offset, limit), CommitmentOf(file[i]), CommitmentOf(file[j]))
       <==> file[i].height <= file[j].height
  {
    hide InRange, Before, SortByHeight, Fresh, In, PagedRead, ReadEnd;
    FreshPlace(file, lo, hi, offset, i);
    var next := ReadUnfolds(file, lo, hi, offset, limit);
    var p, x, y := SortByHeight(InRange(file[offset..next], lo, hi)), CommitmentOf(file[i]), CommitmentOf(file[j]);
    SortedStretchOrder(file, lo, hi, offset, next, i, j);
    if ReadEnd(file, lo, hi, offset, limit) != next {
      BeforeAppend(p, PagedRead(file, lo, hi, next, limit), x, y);
    }
  }

  /** One that first occurs on that page, and one that first occurs behind it. */
  lemma OrderAcross(file: seq<Record>, lo: nat, hi: nat, offset: nat, limit: nat, i: nat, j: nat)
    requires 0 < limit && offset <= |file| && i < offset + limit <= j < ReadEnd(file, lo, hi, offset, limit)
    requires Fresh(file, lo, hi, offset, i) && Fresh(file, lo, hi, offset, j)
    ensures Before(PagedRead(file, lo, hi, offset, limit), CommitmentOf(file[i]), CommitmentOf(file[j]))
  {
    hide InRange, Before, SortByHeight, Fresh, In, PagedRead, ReadEnd;
    FreshPlace(file, lo, hi, offset, i);
    var next := ReadUnfolds(file, lo, hi, offset, limit);
    var p, x, y := SortByHeight(InRange(file[offset..next], lo, hi)), CommitmentOf(file[i]), CommitmentOf(file[j]);
    InStretch(file, lo, hi, offset, i, next);
    LaterPages(file, lo, hi, offset, next, j);
    SortMembers(NotHigher, InRange(file[offset..next], lo, hi));
    SortIs(InRange(file[offset..next], lo, hi));
    BeforeMembers(p, x, y);
    BeforeAppend(p, PagedRead(file, lo, hi, next, limit), x, y);
  }

  /** Two that first occur behind it. */
  lemma OrderBehind(file: seq<Record>, lo: nat, hi: nat, offset: nat, limit: nat, i: nat, j: nat)
    requires 0 < limit && offset + limit <= i < j && offset <= |file| && j < ReadEnd(file, lo, hi, offset, limit)
    requires Fresh(file, lo, hi, offset, i) && Fresh(file, lo, hi, offset, j)
    ensures j < ReadEnd(file, lo, hi, offset + limit, limit)
    ensures Fresh(file, lo, hi, offset + limit, i) && Fresh(file, lo, hi, offset + limit, j)
    ensures Before(PagedRead(file, lo, hi, offset, limit), CommitmentOf(file[i]), CommitmentOf(file[j]))
       <==> Before(PagedRead(file, lo, hi, offset + limit, limit), CommitmentOf(file[i]), CommitmentOf(file[j]))
  {
    hide InRange, Before, SortByHeight, Fresh, In, PagedRead, ReadEnd;
    FreshPlace(file, lo, hi, offset, i);
    var next := ReadUnfolds(file, lo, hi, offset, limit);
    var p, x, y := SortByHeight(InRange(file[offset..next], lo, hi)), CommitmentOf(file[i]), CommitmentOf(file[j]);
    LaterPages(file, lo, hi, offset, next, i);
    LaterPages(file, lo, hi, offset, next, j);
    BeforeMembers(p, x, y);
    BeforeAppend(p, PagedRead(file, lo, hi, next, limit), x, y);
  }

  lemma SortIs(s: seq<Commitment>)
    ensures SortByHeight(s) == StableSort.Sort(NotHigher, s)
  {
  }

  /** Of two commitments, the first in the file comes first, unless the other is lower and on the same page. */
  lemma {:induction false} ReadOrder(file: seq<Record>, lo: nat, hi: nat, page: nat, limit: nat, i: nat, j: nat)
    requires 0 < limit && page * limit <= |file|
    requires i < j < ReadEnd(file, lo, hi, page * limit, limit)
    requires Fresh(file, lo, hi, page * limit, i) && Fresh(file, lo, hi, page * limit, j)
    ensures Before(PagedRead(file, lo, hi, page * limit, limit), CommitmentOf(file[i]), CommitmentOf(file[j]))
       <==> !(i / limit == j / limit && file[j].height < file[i].height)
    decreases |file| - page * limit
  {
    hide Before, Fresh, PagedRead, ReadEnd;
    var offset := page * limit;
    FreshPlace(file, lo, hi, offset, i);
    InPage(i, page, limit);
    InPage(j, page, limit);
    assert (page + 1) * limit == offset + limit;
    if j < offset + limit {
      OrderOnPage(file, lo, hi, offset, limit, i, j);
    } else if i < offset + limit {
      InPage(j, page + 1, limit);
      OrderAcross(file, lo, hi, offset, limit, i, j);
    } else {
      OrderBehind(file, lo, hi, offset, limit, i, j);
      ReadOrder(file, lo, hi, page + 1, limit, i, j);
    }
  }

  // ---------------------------------------------------------------- what a read reaches

  lemma ReachedExactly(file: seq<Record>, lo: nat, hi: nat, limit: nat, j: nat)
    requires 0 < limit && j < |file|
    ensures Reached(file, lo, hi, limit, j) <==> j < ReadEnd(file, lo, hi, 0, limit)
  {
    hide ReadEnd, In;
    var end := ReadEnd(file, lo, hi, 0, limit);
    assert 0 * limit == 0;
    ReadEndStops(file, lo, hi, 0, limit);
    if j < end {
      forall i | 0 <= i < j && !In(file[i], lo, hi) ensures i / limit == j / limit {
        LaterPage(i, j, limit);
      }
    } else {
      var i :| StopsAt(file, lo, hi, limit, i, end);
      LaterPage(i, j, limit);
    }
  }

  lemma ReadMembers(file: seq<Record>, lo: nat, hi: nat, limit: nat)
    requires 0 < limit
    ensures forall c: Commitment :: c in PagedRead(file, lo, hi, 0, limit) <==>
              c in InRange(file[..ReadEnd(file, lo, hi, 0, limit)], lo, hi)
  {
    hide InRange, PagedRead, ReadEnd;
    var end := ReadEnd(file, lo, hi, 0, limit);
    PagedReadIs(file, lo, hi, 0, limit);
    assert file[0..end] == file[..end];
    assert forall c: Commitment :: c in PagedRead(file, lo, hi, 0, limit) <==>
             c in multiset(PagedRead(file, lo, hi, 0, limit));
  }

  /** A new commitment is read exactly if its record is reached. */
  lemma NewIsRead(file: seq<Record>, lo: nat, hi: nat, limit: nat, j: nat)
    requires 0 < limit && New(file, lo, hi, j)
    ensures CommitmentOf(file[j]) in PagedRead(file, lo, hi, 0, limit) <==> Reached(file, lo, hi, limit, j)
  {
    hide InRange, PagedRead, ReadEnd, Reached, In;
    assert j < |file| by {
      NewPlace(file, lo, hi, j);
    }
    ReachedExactly(file, lo, hi, limit, j);
    ReadMembers(file, lo, hi, limit);
    PlaceOfNew(file, lo, hi, j, ReadEnd(file, lo, hi, 0, limit));
  }

  lemma NewPlace(file: seq<Record>, lo: nat, hi: nat, j: nat)
    requires New(file, lo, hi, j)
    ensures j < |file| && In(file[j], lo, hi) && Fresh(file, lo, hi, 0, j)
  {
    hide InRange;
    assert file[0..j] == file[..j];
  }

  /** Everything read was new somewhere. */
  lemma ReadWasNew(file: seq<Record>, lo: nat, hi: nat, limit: nat, c: Commitment) returns (j: nat)
    requires 0 < limit && c in PagedRead(file, lo, hi, 0, limit)
    ensures j < |file| && New(file, lo, hi, j) && CommitmentOf(file[j]) == c && Reached(file, lo, hi, limit, j)
  {
    hide InRange, PagedRead, ReadEnd, Reached, New;
    ReadMembers(file, lo, hi, limit);
    j := FirstPlace(file, lo, hi, ReadEnd(file, lo, hi, 0, limit), c);
    ReachedExactly(file, lo, hi, limit, j);
  }

  /** The order of two new commitments in a read of the whole file. */
  lemma NewOrder(file: seq<Record>, lo: nat, hi: nat, limit: nat, i: nat, j: nat)
    requires 0 < limit && i < j && New(file, lo, hi, i) && New(file, lo, hi, j)
    requires j < |file| && Reached(file, lo, hi, limit, j)
    ensures Before(PagedRead(file, lo, hi, 0, limit), CommitmentOf(file[i]), CommitmentOf(file[j]))
       <==> !(i / limit == j / limit && file[j].height < file[i].height)
    ensures CommitmentOf(file[i]) in PagedRead(file, lo, hi, 0, limit)
    ensures CommitmentOf(file[i]) != CommitmentOf(file[j])
  {
    hide InRange, PagedRead, ReadEnd, Before, In;
    NewPlace(file, lo, hi, i);
    NewPlace(file, lo, hi, j);
    ReachedExactly(file, lo, hi, limit, i);
    ReachedExactly(file, lo, hi, limit, j);
    assert 0 * limit == 0;
    ReadOrder(file, lo, hi, 0, limit, i, j);
    NewIsRead(file, lo, hi, limit, i);
    PlaceOfNew(file, lo, hi, i, j);
  }

  // ---------------------------------------------------------------- when two page sizes yield the same

  lemma AlikeReads(file: seq<Record>, lo: nat, hi: nat, a: nat, b: nat)
    requires 0 < a && 0 < b && Alike(file, lo, hi, a, b)
    ensures forall c: Commitment :: c in PagedRead(file, lo, hi, 0, a) <==> c in PagedRead(file, lo, hi, 0, b)
  {
    hide PagedRead, New, Reached;
    forall c: Commitment
      ensures c in PagedRead(file, lo, hi, 0, a) <==> c in PagedRead(file, lo, hi, 0, b)
    {
      if c in PagedRead(file, lo, hi, 0, a) {
        var j := ReadWasNew(file, lo, hi, a, c);
        NewIsRead(file, lo, hi, b, j);
      }
      if c in PagedRead(file, lo, hi, 0, b) {
        var j := ReadWasNew(file, lo, hi, b, c);
        NewIsRead(file, lo, hi, a, j);
      }
    }
  }

  lemma AlikeOrders(file: seq<Record>, lo: nat, hi: nat, a: nat, b: nat, x: Commitment, y: Commitment)
    requires 0 < a && 0 < b && Alike(file, lo, hi, a, b)
    requires x in PagedRead(file, lo, hi, 0, a) && y in PagedRead(file, lo, hi, 0, a)
    requires Before(PagedRead(file, lo, hi, 0, a), x, y)
    ensures Before(PagedRead(file, lo, hi, 0, b), x, y)
  {
    hide PagedRead, New, Reached, Before;
    var i := ReadWasNew(file, lo, hi, a, x);
    var j := ReadWasNew(file, lo, hi, a, y);
    BeforeMembers(PagedRead(file, lo, hi, 0, a), x, y);
    BeforeMembers(PagedRead(file, lo, hi, 0, b), x, y);
    if i < j {
      NewOrder(file, lo, hi, a, i, j);
      NewOrder(file, lo, hi, b, i, j);
    } else {
      NewOrder(file, lo, hi, a, j, i);
      NewOrder(file, lo, hi, b, j, i);
      NewIsRead(file, lo, hi, b, i);
    }
  }

  /**
   * For any file, exactly when two page sizes yield the same commitments in the same order: if
   * they reach the same new ones, and keep the same late ones on one page with what they are late for.
   */
  lemma AlikeExactly(file: seq<Record>, lo: nat, hi: nat, a: nat, b: nat)
    requires 0 < a && 0 < b
    ensures Dedup(PagedRead(file, lo, hi, 0, a)) == Dedup(PagedRead(file, lo, hi, 0, b)) <==> Alike(file, lo, hi, a, b)
  {
    hide PagedRead, Dedup, Before, New, Reached;
    var p, q := PagedRead(file, lo, hi, 0, a), PagedRead(file, lo, hi, 0, b);
    SameDedup(p, q);
    SameDedup(q, p);
    if Alike(file, lo, hi, a, b) {
      AlikeReads(file, lo, hi, a, b);
      forall x, y | x in p && y in p && Before(p, x, y) ensures Before(q, x, y) {
        AlikeOrders(file, lo, hi, a, b, x, y);
      }
    }
    if Dedup(p) == Dedup(q) {
      forall j | 0 <= j < |file| && New(file, lo, hi, j)
        ensures Reached(file, lo, hi, a, j) <==> Reached(file, lo, hi, b, j)
      {
        NewIsRead(file, lo, hi, a, j);
        NewIsRead(file, lo, hi, b, j);
      }
      forall i, j | 0 <= i < j < |file| && New(file, lo, hi, i) && New(file, lo, hi, j)
                    && file[j].height < file[i].height && Reached(file, lo, hi, a, j)
        ensures i / a == j / a <==> i / b == j / b
      {
        NewOrder(file, lo, hi, a, i, j);
        NewOrder(file, lo, hi, b, i, j);
        NewIsRead(file, lo, hi, a, j);
      }
    }
  }

  // ---------------------------------------------------------------- when a page size yields everything in order

  /** A page that holds the whole file. */
  lemma WholeRead(file: seq<Record>, lo: nat, hi: nat, limit: nat)
    requires |file| < limit
    ensures Dedup(PagedRead(file, lo, hi, 0, limit)) == Delta(file, lo, hi)
  {
    hide InRange, SortByHeight, PagedRead, Dedup;
    OnePage(file, lo, hi, limit);
  }

  lemma SmallQuotient(i: nat, limit: nat)
    requires i < limit
    ensures i / limit == 0
  {
  }

  /** Between the first record of a page and a later one of it, all are on that page. */
  lemma SamePage(i: nat, k: nat, j: nat, limit: nat)
    requires 0 < limit && i <= k <= j && i / limit == j / limit
    ensures k / limit == j / limit
  {
    DivGrows(i, k, limit);
    DivGrows(k, j, limit);
  }

  /** What a late record is late for: one out of range, or a higher one at its first occurrence. */
  lemma LateForNew(file: seq<Record>, lo: nat, hi: nat, i: nat, j: nat) returns (k: nat)
    requires Late(file, lo, hi, i, j) && In(file[i], lo, hi)
    ensures k <= i && New(file, lo, hi, k) && file[k].height == file[i].height
  {
    hide InRange;
    var c := CommitmentOf(file[i]);
    InRangeMembers(file[..i + 1], lo, hi);
    assert file[..i + 1][i] == file[i];
    k := FirstPlace(file, lo, hi, i + 1, c);
  }

  lemma ReadableIsAlike(file: seq<Record>, lo: nat, hi: nat, limit: nat)
    requires 0 < limit
    ensures Readable(file, lo, hi, limit) <==> Alike(file, lo, hi, limit, |file| + 1)
  {
    hide New, In;
    var all := |file| + 1;
    forall i: nat | i < |file| ensures i / all == 0 {
      SmallQuotient(i, all);
    }
    if Readable(file, lo, hi, limit) {
      assert forall i: nat, j: nat :: Late(file, lo, hi, i, j) ==> i / limit == j / limit;
      forall j | 0 <= j < |file| && New(file, lo, hi, j) ensures Reached(file, lo, hi, limit, j) {
        assert forall i :: 0 <= i < j && !In(file[i], lo, hi) ==> Late(file, lo, hi, i, j);
      }
      forall i, j | 0 <= i < j < |file| && New(file, lo, hi, i) && New(file, lo, hi, j)
                    && file[j].height < file[i].height
        ensures i / limit == j / limit
      {
        assert Late(file, lo, hi, i, j);
      }
    }
    if Alike(file, lo, hi, limit, all) {
      forall i: nat, j: nat | Late(file, lo, hi, i, j) ensures i / limit == j / limit {
        assert Reached(file, lo, hi, limit, j);
        if In(file[i], lo, hi) {
          var k := LateForNew(file, lo, hi, i, j);
          SamePage(k, i, j, limit);
        }
      }
    }
  }

  /**
   * For any file and page size, exactly when a page loop yields every commitment in range, once
   * each, by height: if none first occurs on a later page than a higher record or one out of range.
   */
  lemma ReadableExactly(file: seq<Record>, lo: nat, hi: nat, limit: nat)
    requires 0 < limit
    ensures Dedup(PagedRead(file, lo, hi, 0, limit)) == Delta(file, lo, hi) <==> Readable(file, lo, hi, limit)
  {
    hide PagedRead, Dedup, Delta, Alike, Readable;
    AlikeExactly(file, lo, hi, limit, |file| + 1);
    ReadableIsAlike(file, lo, hi, limit);
    WholeRead(file, lo, hi, |file| + 1);
  }

  /** In particular page sizes agree that are equal, that both hold the whole file, or at which it is readable. */
  lemma AlikeCases(file: seq<Record>, lo: nat, hi: nat, a: nat, b: nat)
    requires 0 < a && 0 < b
    requires a == b || (|file| <= a && |file| <= b) || (Readable(file, lo, hi, a) && Readable(file, lo, hi, b))
    ensures Alike(file, lo, hi, a, b)
  {
    hide PagedRead, Dedup, Delta, Alike, Readable;
    if a == b {
      AlikeExactly(file, lo, hi, a, b);
    } else if |file| <= a && |file| <= b {
      WithinPages(file, lo, hi, a, b);
    } else {
      ReadableExactly(file, lo, hi, a);
      ReadableExactly(file, lo, hi, b);
      AlikeExactly(file, lo, hi, a, b);
    }
  }

  lemma WithinPages(file: seq<Record>, lo: nat, hi: nat, a: nat, b: nat)
    requires 0 < a && 0 < b && |file| <= a && |file| <= b
    ensures Alike(file, lo, hi, a, b)
  {
    hide New, In;
    forall i: nat | i < |file| ensures i / a == 0 && i / b == 0 {
      SmallQuotient(i, a);
      SmallQuotient(i, b);
    }
  }

  /** Joining pages keeps a file readable. */
  lemma CoarserPages(file: seq<Record>, lo: nat, hi: nat, limit: nat, pages: nat)
    requires 0 < limit && 0 < pages && Readable(file, lo, hi, limit)
    ensures 0 < limit * pages && Readable(file, lo, hi, limit * pages)
  {
    hide Late;
    MulLess(0, limit, pages);
    forall i: nat, j: nat | Late(file, lo, hi, i, j) ensures i / (limit * pages) == j / (limit * pages) {
      DivTwice(i, limit, pages);
      DivTwice(j, limit, pages);
    }
  }

  /** No commitment first occurs behind a higher record or one out of range. */
  ghost predicate NoneLate(file: seq<Record>, lo: nat, hi: nat) {
    forall i: nat, j: nat :: !Late(file, lo, hi, i, j)
  }

  lemma NoneLateOnSinglePages(file: seq<Record>, lo: nat, hi: nat)
    ensures NoneLate(file, lo, hi) <==> Readable(file, lo, hi, 1)
    ensures NoneLate(file, lo, hi) ==> forall limit: nat :: 0 < limit ==> Readable(file, lo, hi, limit)
  {
    hide New, In;
    assert forall i: nat :: i / 1 == i;
  }

  /** For any file, exactly when the page size does not matter at all. */
  lemma PagesImmaterial(file: seq<Record>, lo: nat, hi: nat)
    ensures NoneLate(file, lo, hi) <==>
            forall limit: nat :: 0 < limit ==> Dedup(PagedRead(file, lo, hi, 0, limit)) == Delta(file, lo, hi)
    ensures NoneLate(file, lo, hi) <==>
            forall a: nat, b: nat :: 0 < a && 0 < b ==>
              Dedup(PagedRead(file, lo, hi, 0, a)) == Dedup(PagedRead(file, lo, hi, 0, b))
  {
    hide PagedRead, Dedup, Delta, NoneLate, Readable;
    NoneLateOnSinglePages(file, lo, hi);
    forall limit: nat | 0 < limit
      ensures Dedup(PagedRead(file, lo, hi, 0, limit)) == Delta(file, lo, hi) <==> Readable(file, lo, hi, limit)
    {
      ReadableExactly(file, lo, hi, limit);
    }
    var all := |file| + 1;
    WholeRead(file, lo, hi, all);
    if !NoneLate(file, lo, hi) {
      assert Dedup(PagedRead(file, lo, hi, 0, 1)) != Dedup(PagedRead(file, lo, hi, 0, all));
    }
  }

  // ---------------------------------------------------------------- reads that stop early

  lemma BeforeAscends(s: seq<Commitment>, x: Commitment, y: Commitment)
    requires Ascending(s) && Before(s, x, y) && y in s
    ensures x.0 <= y.0
    decreases |s|
  {
    if s[0] == x {
      var j :| 0 <= j < |s| && s[j] == y;
    } else {
      assert s == [s[0]] + s[1..];
      BeforeAscends(s[1..], x, y);
    }
  }

  /** The records read, and a read that comes out ascending. */
  lemma AscendingOrder(file: seq<Record>, lo: nat, hi: nat, limit: nat, x: Commitment, y: Commitment)
    requires 0 < limit && Ascending(Dedup(PagedRead(file, lo, hi, 0, limit)))
    requires x in PagedRead(file, lo, hi, 0, limit) && y in PagedRead(file, lo, hi, 0, limit)
    requires Before(PagedRead(file, lo, hi, 0, limit), x, y)
    ensures Before(SortByHeight(InRange(file[..ReadEnd(file, lo, hi, 0, limit)], lo, hi)), x, y)
  {
    hide PagedRead, New, Reached, Before, Dedup, Ascending, ReadEnd, InRange, StableSort.Sort;
    var p, end := PagedRead(file, lo, hi, 0, limit), ReadEnd(file, lo, hi, 0, limit);
    var d := InRange(file[..end], lo, hi);
    BeforeDedup(p, x, y);
    DedupMembers<Commitment>(p);
    BeforeAscends(Dedup(p), x, y);
    ReadMembers(file, lo, hi, limit);
    HeightPreorder();
    BeforeSort(NotHigher, d, x, y);
    var i := ReadWasNew(file, lo, hi, limit, x);
    var j := ReadWasNew(file, lo, hi, limit, y);
    BeforeMembers(p, x, y);
    if x.0 == y.0 {
      if j < i {
        NewOrder(file, lo, hi, limit, j, i);
      }
      ReachedExactly(file, lo, hi, limit, j);
      NewPlace(file, lo, hi, i);
      NewPlace(file, lo, hi, j);
      assert file[0..end] == file[..end];
      StretchOrder(file, lo, hi, 0, end, i, j);
    }
  }

  /**
   * Whatever a page loop reads of any file, it yields it sorted by height exactly if what it
   * yields ascends: the pages never change the order within one height.
   */
  lemma SortedIfAscending(file: seq<Record>, lo: nat, hi: nat, limit: nat)
    requires 0 < limit
    ensures var d := InRange(file[..ReadEnd(file, lo, hi, 0, limit)], lo, hi);
            var r := Dedup(PagedRead(file, lo, hi, 0, limit));
            r == SortByHeight(Dedup(d)) <==> Ascending(r)
  {
    hide PagedRead, Before, Dedup, Ascending, ReadEnd, InRange, StableSort.Sort;
    var p, d := PagedRead(file, lo, hi, 0, limit), InRange(file[..ReadEnd(file, lo, hi, 0, limit)], lo, hi);
    HeightPreorder();
    DedupSort(NotHigher, d);
    StableSort.SortSorts(NotHigher, Dedup(d));
    assert Ascending(SortByHeight(Dedup(d)));
    assert Dedup(SortByHeight(d)) == SortByHeight(Dedup(d));
    if Ascending(Dedup(p)) {
      SortMembers(NotHigher, d);
      ReadMembers(file, lo, hi, limit);
      forall x, y | x in p && y in p && Before(p, x, y) ensures Before(SortByHeight(d), x, y) {
        AscendingOrder(file, lo, hi, limit, x, y);
      }
      SameDedup(p, SortByHeight(d));
    }
  }
}
