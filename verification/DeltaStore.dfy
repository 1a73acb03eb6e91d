/**
 * The delta output file and its readers (crates/zipherx-storage/src/delta_cmu.rs).
 *
 * The paged reader cuts a page out of the RAW file, keeps the records whose height is in
 * range, and sorts what is left of that page by height. Its callers advance by the length
 * they got back and stop at a page that comes back short. `PagedRead` is what such a loop
 * sees in total, `ReadEnd` how far into the file it gets.
 */
module DeltaStore {
  import opened Common
  import StableSort

  datatype Record = Record(height: nat, index: nat, cmu: Cmu, epk: Bytes, ciphertext: Bytes, txid: Bytes)

  /** A commitment with the height it was mined at. */
  type Commitment = (nat, Cmu)

  predicate In(r: Record, lo: nat, hi: nat) {
    lo <= r.height <= hi
  }

  function Within(lo: nat, hi: nat): Record -> bool {
    (r: Record) => In(r, lo, hi)
  }

  function CommitmentOf(r: Record): Commitment {
    (r.height, r.cmu)
  }

  /** The commitments of the records in range, in file order. */
  function InRange(rs: seq<Record>, lo: nat, hi: nat): seq<Commitment> {
    StableSort.Map(CommitmentOf, StableSort.Filter(Within(lo, hi), rs))
  }

  lemma InRangeUnfolds(rs: seq<Record>, lo: nat, hi: nat)
    ensures InRange([], lo, hi) == []
    ensures rs != [] ==>
              InRange(rs, lo, hi)
              == (if In(rs[0], lo, hi) then [CommitmentOf(rs[0])] else []) + InRange(rs[1..], lo, hi)
  {
  }

  lemma InRangeOne(r: Record, lo: nat, hi: nat)
    ensures InRange([r], lo, hi) == if In(r, lo, hi) then [CommitmentOf(r)] else []
  {
    assert [r][1..] == [];
    InRangeUnfolds([r], lo, hi);
  }

  predicate NotHigher(a: Commitment, b: Commitment) {
    a.0 <= b.0
  }

  predicate Ascending(s: seq<Commitment>) {
    forall i, j :: 0 <= i < j < |s| ==> s[i].0 <= s[j].0
  }

  /** As blocks commit their outputs: by height, then by index. */
  predicate ChainOrder(a: Record, b: Record) {
    a.height < b.height || (a.height == b.height && a.index <= b.index)
  }

  predicate InOrder(rs: seq<Record>) {
    forall i, j :: 0 <= i < j < |rs| ==> ChainOrder(rs[i], rs[j])
  }

  lemma ChainPreorder()
    ensures StableSort.Preorder(ChainOrder)
    ensures forall rs :: StableSort.Sorted(ChainOrder, rs) <==> InOrder(rs)
  {
  }

  predicate FileAscending(rs: seq<Record>) {
    forall i, j :: 0 <= i < j < |rs| ==> rs[i].height <= rs[j].height
  }

  /** `sort_by_key` on the height: stable. */
  function SortByHeight(s: seq<Commitment>): seq<Commitment> {
    StableSort.Sort(NotHigher, s)
  }

  /** `load_outputs_paged` */
  function Page(file: seq<Record>, offset: nat, limit: nat): seq<Record> {
    if |file| <= offset then [] else file[offset..Min(offset + limit, |file|)]
  }

  /** `load_cmus_for_range_paged` */
  function RangePage(file: seq<Record>, lo: nat, hi: nat, offset: nat, limit: nat): (p: seq<Commitment>)
    ensures |p| <= limit && |p| <= |file|
    ensures |file| <= offset ==> p == []
    ensures offset < |file| ==> offset + |p| <= |file|
  {
    InRangeShrinks(Page(file, offset, limit), lo, hi);
    StableSort.SortKeeps(NotHigher, InRange(Page(file, offset, limit), lo, hi));
    SortByHeight(InRange(Page(file, offset, limit), lo, hi))
  }

  /** Everything a page loop sees that starts at `offset`. */
  function PagedRead(file: seq<Record>, lo: nat, hi: nat, offset: nat, limit: nat): seq<Commitment>
    requires 0 < limit
    decreases |file| - offset
  {
    var p := RangePage(file, lo, hi, offset, limit);
    if p == [] then []
    else if |p| < limit then p
    else p + PagedRead(file, lo, hi, offset + |p|, limit)
  }

  /** Where the page loop that starts at `offset` stops reading the file. */
  function ReadEnd(file: seq<Record>, lo: nat, hi: nat, offset: nat, limit: nat): (end: nat)
    requires 0 < limit && offset <= |file|
    ensures offset <= end <= |file|
    decreases |file| - offset
  {
    if offset == |file| then offset
    else if |RangePage(file, lo, hi, offset, limit)| < limit then Min(offset + limit, |file|)
    else ReadEnd(file, lo, hi, offset + limit, limit)
  }

  lemma {:induction false} InRangeShrinks(rs: seq<Record>, lo: nat, hi: nat)
    ensures |InRange(rs, lo, hi)| <= |rs|
    ensures |InRange(rs, lo, hi)| == |rs| <==> forall r :: r in rs ==> In(r, lo, hi)
    ensures InRange(rs, lo, hi) == [] <==> forall r :: r in rs ==> !In(r, lo, hi)
  {
    hide InRange, In;
    InRangeUnfolds(rs, lo, hi);
    if rs != [] {
      InRangeShrinks(rs[1..], lo, hi);
      assert forall r :: r in rs <==> r == rs[0] || r in rs[1..];
    }
  }

  lemma InRangeAppend(a: seq<Record>, b: seq<Record>, lo: nat, hi: nat)
    ensures InRange(a + b, lo, hi) == InRange(a, lo, hi) + InRange(b, lo, hi)
  {
    StableSort.FilterAppend(Within(lo, hi), a, b);
  }

  lemma InRangeMembers(rs: seq<Record>, lo: nat, hi: nat)
    ensures forall r :: r in rs && In(r, lo, hi) ==> CommitmentOf(r) in InRange(rs, lo, hi)
    ensures forall c: Commitment :: c in InRange(rs, lo, hi) ==>
              lo <= c.0 <= hi && exists r :: r in rs && In(r, lo, hi) && c == CommitmentOf(r)
  {
    var kept := StableSort.Filter(Within(lo, hi), rs);
    StableSort.FilterMembers(Within(lo, hi), rs);
    forall r | r in kept ensures CommitmentOf(r) in InRange(rs, lo, hi) {
      var i :| 0 <= i < |kept| && kept[i] == r;
      assert InRange(rs, lo, hi)[i] == CommitmentOf(r);
    }
    forall c: Commitment | c in InRange(rs, lo, hi)
      ensures lo <= c.0 <= hi && exists r :: r in rs && In(r, lo, hi) && c == CommitmentOf(r)
    {
      var i :| 0 <= i < |kept| && InRange(rs, lo, hi)[i] == c;
      assert kept[i] in kept;
    }
  }

  /** A stable sort leaves a list alone exactly when it is already in order. */
  lemma SortFixpoint(s: seq<Commitment>)
    ensures SortByHeight(s) == s <==> Ascending(s)
  {
    StableSort.SortFixpoint(NotHigher, s);
  }

  lemma StretchInRange(file: seq<Record>, lo: nat, hi: nat, i: nat, j: nat)
    requires i <= j <= |file|
    ensures |InRange(file[i..j], lo, hi)| <= j - i
    ensures |InRange(file[i..j], lo, hi)| == j - i <==> forall k :: i <= k < j ==> In(file[k], lo, hi)
  {
    hide InRange, In;
    var stretch := file[i..j];
    InRangeShrinks(stretch, lo, hi);
    assert forall k :: i <= k < j ==> file[k] == stretch[k - i] && file[k] in stretch;
  }

  /** One page: what is in range of a stretch of the file, sorted; full exactly if all of a full stretch is in range. */
  lemma PageIs(file: seq<Record>, lo: nat, hi: nat, offset: nat, limit: nat) returns (next: nat)
    requires 0 < limit && offset < |file|
    ensures next == Min(offset + limit, |file|)
    ensures var q := InRange(file[offset..next], lo, hi);
            && RangePage(file, lo, hi, offset, limit) == SortByHeight(q)
            && |SortByHeight(q)| == |q| && multiset(SortByHeight(q)) == multiset(q)
            && (|q| == limit <==> next == offset + limit && forall i :: offset <= i < next ==> In(file[i], lo, hi))
    ensures InRange(file[offset..], lo, hi) == InRange(file[offset..next], lo, hi) + InRange(file[next..], lo, hi)
  {
    hide InRange, In, StableSort.Sort;
    next := Min(offset + limit, |file|);
    StableSort.SortKeeps(NotHigher, InRange(file[offset..next], lo, hi));
    StretchInRange(file, lo, hi, offset, next);
    assert file[offset..] == file[offset..next] + file[next..];
    InRangeAppend(file[offset..next], file[next..], lo, hi);
  }

  /** The loop sees exactly what is in range up to where it stops. */
  lemma {:induction false} PagedReadIs(file: seq<Record>, lo: nat, hi: nat, offset: nat, limit: nat)
    requires 0 < limit && offset <= |file|
    ensures multiset(PagedRead(file, lo, hi, offset, limit))
         == multiset(InRange(file[offset..ReadEnd(file, lo, hi, offset, limit)], lo, hi))
    decreases |file| - offset
  {
    hide InRange, SortByHeight, RangePage;
    var end := ReadEnd(file, lo, hi, offset, limit);
    if offset < |file| {
      var next := PageIs(file, lo, hi, offset, limit);
      if |RangePage(file, lo, hi, offset, limit)| == limit {
        PagedReadIs(file, lo, hi, next, limit);
        assert file[offset..end] == file[offset..next] + file[next..end];
        InRangeAppend(file[offset..next], file[next..end], lo, hi);
      }
    } else {
      InRangeNothing(file, offset, lo, hi);
    }
  }

  lemma InRangeNothing(file: seq<Record>, at: nat, lo: nat, hi: nat)
    requires at <= |file|
    ensures InRange(file[at..at], lo, hi) == []
  {
  }

  /** It stops at the end of the file, or at the end of the first page with a record out of range. */
  lemma {:induction false} ReadEndStops(file: seq<Record>, lo: nat, hi: nat, page: nat, limit: nat)
    requires 0 < limit && page * limit <= |file|
    ensures var end := ReadEnd(file, lo, hi, page * limit, limit);
            && (end == |file| || exists i :: StopsAt(file, lo, hi, limit, i, end))
            && forall i :: page * limit <= i < |file| && !In(file[i], lo, hi) ==> end <= (i / limit + 1) * limit
    decreases |file| - page * limit
  {
    hide InRange, SortByHeight, RangePage;
    var offset := page * limit;
    if offset < |file| {
      var next := PageIs(file, lo, hi, offset, limit);
      assert (page + 1) * limit == offset + limit;
      forall i | offset <= i < |file| ensures page <= i / limit && (i < next ==> i / limit == page) {
        InPage(i, page, limit);
      }
      if |RangePage(file, lo, hi, offset, limit)| == limit {
        ReadEndStops(file, lo, hi, page + 1, limit);
      } else {
        forall i | offset <= i < |file| && !In(file[i], lo, hi) ensures next <= (i / limit + 1) * limit {
          MulLess(page, i / limit + 1, limit);
        }
        if next < |file| {
          var i :| offset <= i < next && !In(file[i], lo, hi);
          assert StopsAt(file, lo, hi, limit, i, next);
        }
      }
    }
  }

  predicate StopsAt(file: seq<Record>, lo: nat, hi: nat, limit: nat, i: nat, end: nat)
    requires 0 < limit
  {
    i < |file| && !In(file[i], lo, hi) && i < end == (i / limit + 1) * limit
  }

  lemma InPage(i: nat, page: nat, limit: nat)
    requires 0 < limit && page * limit <= i
    ensures page <= i / limit && (i < page * limit + limit ==> i / limit == page)
  {
    assert i == i / limit * limit + i % limit;
    MulLess(i / limit, page, limit);
    MulLess(page, i / limit, limit);
  }

  /**
   * Exactly when the page loop sees every record in range, for any file: if no record in range lies
   * on a later page than one out of range before it.
   */
  lemma PagedReadComplete(file: seq<Record>, lo: nat, hi: nat, limit: nat)
    requires 0 < limit
    ensures multiset(PagedRead(file, lo, hi, 0, limit)) == multiset(InRange(file, lo, hi)) <==>
            forall i, j :: 0 <= i < j < |file| && !In(file[i], lo, hi) && In(file[j], lo, hi) ==> i / limit == j / limit
  {
    hide InRange, PagedRead, ReadEnd;
    var end := ReadEnd(file, lo, hi, 0, limit);
    PagedReadIs(file, lo, hi, 0, limit);
    assert 0 * limit == 0;
    ReadEndStops(file, lo, hi, 0, limit);
    SplitInRange(file, lo, hi, end);
    InRangeShrinks(file[end..], lo, hi);
    if forall i, j :: 0 <= i < j < |file| && !In(file[i], lo, hi) && In(file[j], lo, hi) ==> i / limit == j / limit {
      forall r | r in file[end..] ensures !In(r, lo, hi) {
        var j :| end <= j < |file| && file[j] == r;
        var i :| StopsAt(file, lo, hi, limit, i, end);
        LaterPage(i, j, limit);
      }
    } else {
      var i, j :| 0 <= i < j < |file| && !In(file[i], lo, hi) && In(file[j], lo, hi) && i / limit != j / limit;
      LaterPage(i, j, limit);
      assert file[j] in file[end..] by {
        assert file[end..][j - end] == file[j];
      }
    }
  }

  lemma LaterPage(i: nat, j: nat, limit: nat)
    requires 0 < limit && i <= j
    ensures (i / limit + 1) * limit <= j <==> i / limit != j / limit
  {
    assert i == i / limit * limit + i % limit && j == j / limit * limit + j % limit;
    assert (i / limit + 1) * limit == i / limit * limit + limit;
    MulLess(i / limit, j / limit, limit);
    MulLess(j / limit, i / limit, limit);
  }

  lemma SplitInRange(file: seq<Record>, lo: nat, hi: nat, at: nat)
    requires at <= |file|
    ensures InRange(file, lo, hi) == InRange(file[..at], lo, hi) + InRange(file[at..], lo, hi)
    ensures file[0..at] == file[..at]
    ensures InRange(file[at..], lo, hi) != [] ==>
              multiset(InRange(file, lo, hi)) != multiset(InRange(file[..at], lo, hi))
  {
    assert file == file[..at] + file[at..];
    InRangeAppend(file[..at], file[at..], lo, hi);
    assert |multiset(InRange(file, lo, hi))| == |InRange(file, lo, hi)|;
    assert |multiset(InRange(file[..at], lo, hi))| == |InRange(file[..at], lo, hi)|;
  }

  function Sample(height: nat, fill: byte): Record {
    Record(height, 0, seq(HASH_LEN, _ => fill), [], [], [])
  }

  /** The commitment of a sample record. */
  function SampleOf(height: nat, fill: byte): Commitment {
    (height, seq(HASH_LEN, _ => fill))
  }

  lemma TwoInRange(r: Record, q: Record, lo: nat, hi: nat)
    ensures InRange([r], lo, hi) == if In(r, lo, hi) then [CommitmentOf(r)] else []
    ensures InRange([r, q], lo, hi) == InRange([r], lo, hi) + InRange([q], lo, hi)
    ensures In(r, lo, hi) && In(q, lo, hi) && r.height > q.height ==>
              SortByHeight(InRange([r, q], lo, hi)) == [CommitmentOf(q), CommitmentOf(r)]
    ensures In(r, lo, hi) && In(q, lo, hi) && r.height <= q.height ==>
              SortByHeight(InRange([r, q], lo, hi)) == [CommitmentOf(r), CommitmentOf(q)]
  {
    InRangeOne(r, lo, hi);
    InRangeOne(q, lo, hi);
    assert [r] + [q] == [r, q];
    InRangeAppend([r], [q], lo, hi);
    var a, b := CommitmentOf(r), CommitmentOf(q);
    var none: seq<Commitment> := [];
    assert [a] + [b] == [a, b] && [a, b][1..] == [b] && [b][1..] == none;
    assert StableSort.Sort(NotHigher, [b]) == [b];
    assert StableSort.Insert(NotHigher, a, none) == [a];
  }

  /** A record below the range, then records in range that fill its page, and one more. */
  function LosingFile(limit: nat): seq<Record>
    requires 0 < limit
  {
    [Sample(1, 1)] + seq(limit - 1, _ => Sample(5, 2)) + [Sample(6, 3)]
  }

  /** One record below the range is enough to lose every page after the first, whatever the page size. */
  lemma PagedReadLosesRecords(limit: nat)
    requires 0 < limit
    ensures SampleOf(6, 3) in InRange(LosingFile(limit), 5, 9)
    ensures SampleOf(6, 3) !in PagedRead(LosingFile(limit), 5, 9, 0, limit)
  {
    hide Sample, InRange, SortByHeight, RangePage;
    SampleHeights();
    var file := LosingFile(limit);
    InRangeMembers(file, 5, 9);
    assert file[limit] == Sample(6, 3) && file[0] == Sample(1, 1);
    assert file[limit] in file && In(file[limit], 5, 9) && CommitmentOf(file[limit]) == SampleOf(6, 3);
    var next := PageIs(file, 5, 9, 0, limit);
    var q := InRange(file[0..next], 5, 9);
    assert PagedRead(file, 5, 9, 0, limit) == SortByHeight(q);
    InRangeMembers(file[0..next], 5, 9);
    assert SampleOf(6, 3) in SortByHeight(q) <==> SampleOf(6, 3) in multiset(q);
  }

  lemma SampleHeights()
    ensures forall h, f :: Sample(h, f).height == h && (h, Sample(h, f).cmu) == SampleOf(h, f)
  {
  }

  /** Pages of one record read the file in file order, up to where they stop. */
  lemma {:induction false} SinglePages(file: seq<Record>, lo: nat, hi: nat, offset: nat)
    requires offset <= |file|
    ensures PagedRead(file, lo, hi, offset, 1) == InRange(file[offset..ReadEnd(file, lo, hi, offset, 1)], lo, hi)
    decreases |file| - offset
  {
    hide InRange, SortByHeight, RangePage;
    var end := ReadEnd(file, lo, hi, offset, 1);
    if offset < |file| {
      var next := PageIs(file, lo, hi, offset, 1);
      SortFixpoint(InRange(file[offset..next], lo, hi));
      InRangeShrinks(file[offset..next], lo, hi);
      if |RangePage(file, lo, hi, offset, 1)| == 1 {
        SinglePages(file, lo, hi, next);
        assert file[offset..end] == file[offset..next] + file[next..end];
        InRangeAppend(file[offset..next], file[next..end], lo, hi);
      }
    } else {
      InRangeNothing(file, offset, lo, hi);
    }
  }

  /** A single page large enough for the whole file reads it sorted by height. */
  lemma OnePage(file: seq<Record>, lo: nat, hi: nat, limit: nat)
    requires |file| < limit
    ensures PagedRead(file, lo, hi, 0, limit) == SortByHeight(InRange(file, lo, hi))
  {
    assert Page(file, 0, limit) == file;
  }

  /** With every record in range the whole file is read, whatever the page size. */
  lemma {:induction false} AllRead(file: seq<Record>, lo: nat, hi: nat, offset: nat, limit: nat)
    requires 0 < limit && offset <= |file| && forall r :: r in file ==> In(r, lo, hi)
    ensures ReadEnd(file, lo, hi, offset, limit) == |file|
    decreases |file| - offset
  {
    hide InRange, SortByHeight, RangePage;
    if offset < |file| {
      var next := PageIs(file, lo, hi, offset, limit);
      if |RangePage(file, lo, hi, offset, limit)| == limit {
        AllRead(file, lo, hi, next, limit);
      }
    }
  }

  /** On a sorted file with every record in range, each page is a plain stretch of the file. */
  lemma {:induction false} SortedRead(file: seq<Record>, lo: nat, hi: nat, offset: nat, limit: nat)
    requires 0 < limit && offset <= |file| && FileAscending(file) && forall r :: r in file ==> In(r, lo, hi)
    ensures PagedRead(file, lo, hi, offset, limit) == InRange(file[offset..], lo, hi)
    decreases |file| - offset
  {
    hide InRange, SortByHeight, RangePage;
    if offset < |file| {
      var next := PageIs(file, lo, hi, offset, limit);
      AscendingStretch(file, lo, hi, offset, next);
      SortFixpoint(InRange(file[offset..next], lo, hi));
      if |RangePage(file, lo, hi, offset, limit)| == limit {
        SortedRead(file, lo, hi, next, limit);
      } else {
        assert next == |file|;
        InRangeNothing(file, |file|, lo, hi);
        assert file[next..] == file[|file|..|file|];
      }
    } else {
      InRangeNothing(file, offset, lo, hi);
      assert file[offset..] == file[offset..offset];
    }
  }

  lemma AscendingStretch(file: seq<Record>, lo: nat, hi: nat, i: nat, j: nat)
    requires i <= j <= |file| && FileAscending(file) && forall r :: r in file ==> In(r, lo, hi)
    ensures Ascending(InRange(file[i..j], lo, hi))
  {
    AllInRange(file[i..j], lo, hi);
  }

  /** When every record is in range, the page size is immaterial exactly if the file is sorted by height. */
  lemma PageSizeImmaterial(file: seq<Record>, lo: nat, hi: nat)
    requires forall r :: r in file ==> In(r, lo, hi)
    ensures FileAscending(file) <==>
            forall a: nat, b: nat :: 0 < a && 0 < b ==> PagedRead(file, lo, hi, 0, a) == PagedRead(file, lo, hi, 0, b)
  {
    hide InRange, PagedRead, SortByHeight;
    assert file[0..] == file;
    if FileAscending(file) {
      forall a: nat, b: nat | 0 < a && 0 < b
        ensures PagedRead(file, lo, hi, 0, a) == PagedRead(file, lo, hi, 0, b)
      {
        SortedRead(file, lo, hi, 0, a);
        SortedRead(file, lo, hi, 0, b);
      }
    } else {
      SinglePages(file, lo, hi, 0);
      AllRead(file, lo, hi, 0, 1);
      OnePage(file, lo, hi, |file| + 1);
      SortFixpoint(InRange(file, lo, hi));
      AllInRange(file, lo, hi);
      assert file[0..|file|] == file;
      assert PagedRead(file, lo, hi, 0, 1) != PagedRead(file, lo, hi, 0, |file| + 1);
    }
  }

  lemma {:induction false} AllInRange(rs: seq<Record>, lo: nat, hi: nat)
    requires forall r :: r in rs ==> In(r, lo, hi)
    ensures |InRange(rs, lo, hi)| == |rs|
    ensures forall i :: 0 <= i < |rs| ==> InRange(rs, lo, hi)[i] == CommitmentOf(rs[i])
  {
    hide InRange;
    InRangeUnfolds(rs, lo, hi);
    if rs != [] {
      assert rs[0] in rs && forall r :: r in rs[1..] ==> r in rs;
      AllInRange(rs[1..], lo, hi);
    }
  }
}
