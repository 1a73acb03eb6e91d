/**
 * Loads resumed on a delta file that has grown (crates/zipherx-core/src/async_sync.rs): the tree
 * holds what a load of the old file appended, and as many raw records are skipped as it holds
 * leaves past the boost tree.
 */
module LoadGrowth {
  import opened Common
  import opened DeltaStore
  import opened DeltaLoad
  import opened FirstOccurrences
  import opened PageOrder
  import LateBlock
  import StableSort

  // ---------------------------------------------------------------- any read

  /** Over a tree that holds `u`, a resumed load completes the read exactly if `u` is how it starts. */
  lemma ResumeExactly(u: seq<Commitment>, raw: seq<Commitment>)
    requires Distinct(u)
    ensures u + Kept(raw, |u|) == Dedup(raw) <==> u <= raw
  {
    hide Dedup, Kept;
    var k := |u|;
    DedupDistinct(raw);
    if k <= |raw| {
      var kept, first := Kept(raw, k), Dedup(raw[..k]);
      KeptSplit(raw, k);
      DedupDistinct(raw[..k]);
      if u + kept == first + kept {
        assert |u| == |first|;
        assert u == (u + kept)[..k] == (first + kept)[..k] == first;
      }
    } else {
      SkipAll(raw, k);
    }
  }

  /** The same of the tree; it does not hold heights. */
  lemma ResumedTree(boost: seq<Bytes>, u: seq<Commitment>, raw: seq<Commitment>)
    requires Distinct(u)
    ensures var resumed, anew := boost + Cmus(u) + Cmus(Kept(raw, |u|)), boost + Cmus(Kept(raw, 0));
            && (u <= raw ==> resumed == anew)
            && (OneHeight(u + raw) && resumed == anew ==> u <= raw)
  {
    hide Dedup, Kept, OneHeight;
    ResumeExactly(u, raw);
    KeptIsDedup(raw);
    var kept := Kept(raw, |u|);
    JoinCmus(boost, u, kept);
    if OneHeight(u + raw) && boost + Cmus(u + kept) == boost + Cmus(Dedup(raw)) {
      assert (boost + Cmus(u + kept))[|boost|..] == Cmus(u + kept);
      assert (boost + Cmus(Dedup(raw)))[|boost|..] == Cmus(Dedup(raw));
      KeptMembers(raw, |u|);
      DedupMembers<Commitment>(raw);
      SameByCmu(u + kept, Dedup(raw), u + raw);
    }
  }

  lemma {:induction false} KeptMembers(s: seq<Commitment>, k: nat)
    ensures forall c: Commitment :: c in Kept(s, k) ==> c in s
  {
    if s != [] {
      KeptMembers(s[..|s| - 1], k);
    }
  }

  // ---------------------------------------------------------------- a file that has grown

  /** Record `i` is in range, and no record out of range lies between `offset` and it on an earlier page. */
  ghost predicate ReachedFrom(file: seq<Record>, lo: nat, hi: nat, limit: nat, offset: nat, i: nat)
    requires 0 < limit && i < |file|
  {
    In(file[i], lo, hi) && forall k :: offset <= k < i && !In(file[k], lo, hi) ==> k / limit == i / limit
  }

  /** From `offset` on: no new record is lower than an old one that is read from the same page. */
  ghost predicate SettledFrom(was: seq<Record>, more: seq<Record>, lo: nat, hi: nat, limit: nat, offset: nat)
    requires 0 < limit
  {
    var file := was + more;
    forall i, j :: offset <= i < |was| <= j < |file| && ReachedFrom(file, lo, hi, limit, offset, i)
                   && In(file[j], lo, hi) && i / limit == j / limit
      ==> file[i].height <= file[j].height
  }

  ghost predicate Settled(was: seq<Record>, more: seq<Record>, lo: nat, hi: nat, limit: nat)
    requires 0 < limit
  {
    SettledFrom(was, more, lo, hi, limit, 0)
  }

  /** A page that is full of records in range is followed by the rest of the read, any other ends it. */
  lemma ReadStep(file: seq<Record>, lo: nat, hi: nat, offset: nat, limit: nat) returns (next: nat)
    requires 0 < limit && offset < |file|
    ensures next == Min(offset + limit, |file|)
    ensures var p := SortByHeight(InRange(file[offset..next], lo, hi));
            if next == offset + limit && forall i :: offset <= i < next ==> In(file[i], lo, hi)
            then PagedRead(file, lo, hi, offset, limit) == p + PagedRead(file, lo, hi, next, limit)
            else PagedRead(file, lo, hi, offset, limit) == p
  {
    hide InRange, SortByHeight, RangePage, In;
    next := PageIs(file, lo, hi, offset, limit);
  }

  /** On a page that the old file fills, nothing changes. */
  lemma OldPage(was: seq<Record>, more: seq<Record>, lo: nat, hi: nat, page: nat, limit: nat)
    requires 0 < limit && page * limit + limit <= |was|
    ensures var offset, next, file := page * limit, page * limit + limit, was + more;
            if forall i :: offset <= i < next ==> In(was[i], lo, hi)
            then && (PagedRead(was, lo, hi, offset, limit) <= PagedRead(file, lo, hi, offset, limit) <==>
                     PagedRead(was, lo, hi, next, limit) <= PagedRead(file, lo, hi, next, limit))
                 && (SettledFrom(was, more, lo, hi, limit, offset) <==> SettledFrom(was, more, lo, hi, limit, next))
            else && PagedRead(was, lo, hi, offset, limit) <= PagedRead(file, lo, hi, offset, limit)
                 && SettledFrom(was, more, lo, hi, limit, offset)
  {
    hide InRange, SortByHeight, PagedRead, In, SettledFrom;
    var offset, next, file := page * limit, page * limit + limit, was + more;
    var n := ReadStep(was, lo, hi, offset, limit);
    n := ReadStep(file, lo, hi, offset, limit);
    assert was[offset..next] == file[offset..next];
    assert forall i :: offset <= i < next ==> was[i] == file[i];
    var p := SortByHeight(InRange(was[offset..next], lo, hi));
    var a, b := PagedRead(was, lo, hi, next, limit), PagedRead(file, lo, hi, next, limit);
    SamePrefix(p, a, b);
    OldPageSettled(was, more, lo, hi, page, limit);
  }

  lemma SamePrefix<T>(p: seq<T>, a: seq<T>, b: seq<T>)
    ensures p + a <= p + b <==> a <= b
  {
    assert (p + a)[|p|..] == a && (p + b)[|p|..] == b;
    if |a| <= |b| {
      assert (p + b)[..|p + a|] == p + b[..|a|];
      assert (p + b[..|a|])[|p|..] == b[..|a|];
    }
  }

  /**
   * Records on one page, the one in the old file and the other behind it, are not on a page that
   * the old file fills.
   */
  lemma NotOnPage(i: nat, size: nat, j: nat, page: nat, limit: nat)
    requires 0 < limit && page * limit <= i < size <= j && page * limit + limit <= size && i / limit == j / limit
    ensures page * limit + limit <= i && page < i / limit
  {
    assert (page + 1) * limit == page * limit + limit;
    InPage(i, page, limit);
    InPage(j, page + 1, limit);
  }

  lemma OldPageSettled(was: seq<Record>, more: seq<Record>, lo: nat, hi: nat, page: nat, limit: nat)
    requires 0 < limit && page * limit + limit <= |was|
    ensures var offset, next := page * limit, page * limit + limit;
            if forall i :: offset <= i < next ==> In(was[i], lo, hi)
            then SettledFrom(was, more, lo, hi, limit, offset) <==> SettledFrom(was, more, lo, hi, limit, next)
            else SettledFrom(was, more, lo, hi, limit, offset)
  {
    hide In, ReachedFrom;
    var offset, next, file := page * limit, page * limit + limit, was + more;
    forall i, j | offset <= i < |was| <= j < |file| && i / limit == j / limit
      ensures next <= i && (ReachedFrom(file, lo, hi, limit, offset, i) <==>
                            ReachedFrom(file, lo, hi, limit, next, i)
                            && forall k :: offset <= k < next ==> In(was[k], lo, hi))
    {
      NotOnPage(i, |was|, j, page, limit);
      ReachedOn(was, more, lo, hi, limit, page, i);
    }
  }

  lemma ReachedOn(was: seq<Record>, more: seq<Record>, lo: nat, hi: nat, limit: nat, page: nat, i: nat)
    requires 0 < limit && page * limit + limit <= |was| && page * limit + limit <= i < |was|
    ensures ReachedFrom(was + more, lo, hi, limit, page * limit, i) <==>
            ReachedFrom(was + more, lo, hi, limit, page * limit + limit, i)
            && forall k :: page * limit <= k < page * limit + limit ==> In(was[k], lo, hi)
  {
    hide In;
    var offset, next, file := page * limit, page * limit + limit, was + more;
    assert (page + 1) * limit == next;
    InPage(i, page + 1, limit);
    forall k | offset <= k < next ensures file[k] == was[k] && k / limit != i / limit {
      InPage(k, page, limit);
    }
  }

  /** On the page on which the old file ends. */
  lemma LastPage(was: seq<Record>, more: seq<Record>, lo: nat, hi: nat, page: nat, limit: nat)
    requires 0 < limit && page * limit <= |was| < page * limit + limit
    ensures PagedRead(was, lo, hi, page * limit, limit) <= PagedRead(was + more, lo, hi, page * limit, limit) <==>
            SettledFrom(was, more, lo, hi, limit, page * limit)
  {
    hide InRange, StableSort.Sort, PagedRead, In;
    var offset, file := page * limit, was + more;
    var next := Min(offset + limit, |file|);
    var a, b := InRange(file[offset..|was|], lo, hi), InRange(file[|was|..next], lo, hi);
    ReadsOf(was, more, lo, hi, offset, limit);
    HeightPreorder();
    StableSort.SortBehind(NotHigher, a, b);
    LastPageSettled(was, more, lo, hi, page, limit);
  }

  /** Both reads of that page. */
  lemma ReadsOf(was: seq<Record>, more: seq<Record>, lo: nat, hi: nat, offset: nat, limit: nat)
    requires 0 < limit && offset <= |was| < offset + limit
    ensures var file := was + more;
            var next := Min(offset + limit, |file|);
            var a, b := InRange(file[offset..|was|], lo, hi), InRange(file[|was|..next], lo, hi);
            PagedRead(was, lo, hi, offset, limit) <= PagedRead(file, lo, hi, offset, limit) <==>
            SortByHeight(a) <= SortByHeight(a + b)
  {
    hide InRange, StableSort.Sort, PagedRead, In;
    var file := was + more;
    var next := Min(offset + limit, |file|);
    var a, b := InRange(file[offset..|was|], lo, hi), InRange(file[|was|..next], lo, hi);
    assert file[offset..next] == file[offset..|was|] + file[|was|..next];
    InRangeAppend(file[offset..|was|], file[|was|..next], lo, hi);
    StableSort.SortKeeps(NotHigher, a);
    StableSort.SortKeeps(NotHigher, a + b);
    assert file[offset..|was|] == was[offset..|was|];
    if offset < |was| {
      var n := ReadStep(was, lo, hi, offset, limit);
    } else {
      InRangeNothing(was, offset, lo, hi);
      NothingRead(was, lo, hi, limit);
      EmptySort();
    }
    if offset < |file| {
      var n := ReadStep(file, lo, hi, offset, limit);
    } else {
      assert file == was;
    }
  }

  lemma NothingRead(file: seq<Record>, lo: nat, hi: nat, limit: nat)
    requires 0 < limit
    ensures PagedRead(file, lo, hi, |file|, limit) == []
  {
  }

  lemma EmptySort()
    ensures SortByHeight([]) == []
  {
  }

  lemma LastPageSettled(was: seq<Record>, more: seq<Record>, lo: nat, hi: nat, page: nat, limit: nat)
    requires 0 < limit && page * limit <= |was| < page * limit + limit
    ensures var offset, file := page * limit, was + more;
            var next := Min(offset + limit, |file|);
            var a, b := InRange(file[offset..|was|], lo, hi), InRange(file[|was|..next], lo, hi);
            SettledFrom(was, more, lo, hi, limit, offset) <==> forall x, y :: x in a && y in b ==> NotHigher(x, y)
  {
    hide InRange, In, ReachedFrom;
    var offset, file := page * limit, was + more;
    var next := Min(offset + limit, |file|);
    forall i | offset <= i < |file|
      ensures i / limit == page <==> i < next
      ensures i < next ==> (ReachedFrom(file, lo, hi, limit, offset, i) <==> In(file[i], lo, hi))
    {
      OnLastPage(file, lo, hi, page, limit, i);
    }
    BothParts(file, lo, hi, offset, |was|, next);
  }

  lemma OnLastPage(file: seq<Record>, lo: nat, hi: nat, page: nat, limit: nat, i: nat)
    requires 0 < limit && page * limit <= i < |file|
    ensures i / limit == page <==> i < page * limit + limit
    ensures i < page * limit + limit ==>
              (ReachedFrom(file, lo, hi, limit, page * limit, i) <==> In(file[i], lo, hi))
  {
    hide In;
    PageOf(i, page, limit);
    if i < page * limit + limit {
      forall k | page * limit <= k < i ensures k / limit == i / limit {
        PageOf(k, page, limit);
      }
    }
  }

  /** Heights compared by place in the file, and by commitments. */
  lemma BothParts(file: seq<Record>, lo: nat, hi: nat, i0: nat, m: nat, n: nat)
    requires i0 <= m <= n <= |file|
    ensures var a, b := InRange(file[i0..m], lo, hi), InRange(file[m..n], lo, hi);
            (forall i, j :: i0 <= i < m <= j < n && In(file[i], lo, hi) && In(file[j], lo, hi) ==>
               file[i].height <= file[j].height)
            <==> forall x, y :: x in a && y in b ==> NotHigher(x, y)
  {
    hide InRange, In;
    var a, b := InRange(file[i0..m], lo, hi), InRange(file[m..n], lo, hi);
    forall x: Commitment
      ensures x in a <==> exists i :: i0 <= i < m && In(file[i], lo, hi) && CommitmentOf(file[i]) == x
    {
      StretchMember(file, lo, hi, i0, m, x);
    }
    forall y: Commitment
      ensures y in b <==> exists j :: m <= j < n && In(file[j], lo, hi) && CommitmentOf(file[j]) == y
    {
      StretchMember(file, lo, hi, m, n, y);
    }
    if forall x, y :: x in a && y in b ==> NotHigher(x, y) {
      forall i, j | i0 <= i < m <= j < n && In(file[i], lo, hi) && In(file[j], lo, hi)
        ensures file[i].height <= file[j].height
      {
        assert CommitmentOf(file[i]) in a && CommitmentOf(file[j]) in b;
        assert NotHigher(CommitmentOf(file[i]), CommitmentOf(file[j]));
      }
    }
  }

  lemma StretchMember(file: seq<Record>, lo: nat, hi: nat, i0: nat, m: nat, x: Commitment)
    requires i0 <= m <= |file|
    ensures x in InRange(file[i0..m], lo, hi) <==>
            exists i :: i0 <= i < m && In(file[i], lo, hi) && CommitmentOf(file[i]) == x
  {
    hide InRange, In;
    InRangeMembers(file[i0..m], lo, hi);
    if x in InRange(file[i0..m], lo, hi) {
      var r :| r in file[i0..m] && In(r, lo, hi) && x == CommitmentOf(r);
      var i :| i0 <= i < m && file[i] == r;
    }
    if i :| i0 <= i < m && In(file[i], lo, hi) && CommitmentOf(file[i]) == x {
      assert file[i0..m][i - i0] == file[i];
    }
  }

  lemma PageOf(i: nat, page: nat, limit: nat)
    requires 0 < limit && page * limit <= i
    ensures i / limit == page <==> i < page * limit + limit
  {
    InPage(i, page, limit);
    if page * limit + limit <= i {
      assert (page + 1) * limit == page * limit + limit;
      InPage(i, page + 1, limit);
    }
  }

  lemma {:induction false} Grown(was: seq<Record>, more: seq<Record>, lo: nat, hi: nat, page: nat, limit: nat)
    requires 0 < limit && page * limit <= |was|
    ensures PagedRead(was, lo, hi, page * limit, limit) <= PagedRead(was + more, lo, hi, page * limit, limit) <==>
            SettledFrom(was, more, lo, hi, limit, page * limit)
    decreases |was| - page * limit
  {
    hide PagedRead, SettledFrom, In;
    assert (page + 1) * limit == page * limit + limit;
    if page * limit + limit <= |was| {
      OldPage(was, more, lo, hi, page, limit);
      Grown(was, more, lo, hi, page + 1, limit);
    } else {
      LastPage(was, more, lo, hi, page, limit);
    }
  }

  /**
   * For any file, growth and page size, exactly when a read of the grown file starts with what was
   * read of the old one: if no appended record is lower than an old one read from the same page.
   */
  lemma GrownExactly(was: seq<Record>, more: seq<Record>, lo: nat, hi: nat, limit: nat)
    requires 0 < limit
    ensures PagedRead(was, lo, hi, 0, limit) <= PagedRead(was + more, lo, hi, 0, limit) <==>
            Settled(was, more, lo, hi, limit)
  {
    hide PagedRead, SettledFrom;
    assert 0 * limit == 0;
    Grown(was, more, lo, hi, 0, limit);
  }

  // ---------------------------------------------------------------- a load and a resumed load

  /** The grown file is read from where the tree stands: what a load of the old file appended is how the read starts. */
  predicate Continues(was: seq<Record>, more: seq<Record>, lo: nat, hi: nat, limit: nat)
    requires 0 < limit
  {
    Dedup(PagedRead(was, lo, hi, 0, limit)) <= PagedRead(was + more, lo, hi, 0, limit)
  }

  /** What a load of `was` and then a resumed one of `was + more` append. */
  function InTwoLoads(was: seq<Record>, more: seq<Record>, lo: nat, hi: nat, limit: nat): seq<Commitment>
    requires 0 < limit
  {
    var first := Kept(PagedRead(was, lo, hi, 0, limit), 0);
    first + Kept(PagedRead(was + more, lo, hi, 0, limit), |first|)
  }

  /**
   * A load of `was`, and later a resumed one of `was + more`, append what a single load of `was +
   * more` appends, exactly if the growth continues the read. If the growth is settled, that is if the
   * first raw records of the old file, as many as it has distinct ones, are distinct; and if the old
   * file, as read, repeats nothing, that is if the growth is settled.
   */
  lemma ResumedLoadExactly(was: seq<Record>, more: seq<Record>, lo: nat, hi: nat, limit: nat)
    requires 0 < limit
    ensures var p := PagedRead(was, lo, hi, 0, limit);
            && |Dedup(p)| <= |p|
            && (InTwoLoads(was, more, lo, hi, limit) == Kept(PagedRead(was + more, lo, hi, 0, limit), 0)
                <==> Continues(was, more, lo, hi, limit))
            && (Settled(was, more, lo, hi, limit) ==>
                  (Continues(was, more, lo, hi, limit) <==> Distinct(p[..|Dedup(p)|])))
            && (Distinct(p) ==> (Continues(was, more, lo, hi, limit) <==> Settled(was, more, lo, hi, limit)))
  {
    hide PagedRead, Dedup, Kept, Settled;
    var p, raw := PagedRead(was, lo, hi, 0, limit), PagedRead(was + more, lo, hi, 0, limit);
    GrownExactly(was, more, lo, hi, limit);
    DedupMembers<Commitment>(p);
    KeptIsDedup(p);
    KeptIsDedup(raw);
    ResumeExactly(Dedup(p), raw);
    DedupDistinct(p);
    if p <= raw {
      PrefixDistinct(p, raw);
    }
  }

  /** The deduplicated list is how a list starts exactly if nothing repeats that early. */
  lemma PrefixDistinct(p: seq<Commitment>, raw: seq<Commitment>)
    requires p <= raw
    ensures |Dedup(p)| <= |p|
    ensures Dedup(p) <= raw <==> Distinct(p[..|Dedup(p)|])
  {
    hide Dedup;
    var k := |Dedup(p)|;
    DedupMembers<Commitment>(p);
    KeptSplit(p, k);
    DedupDistinct(p[..k]);
    assert raw[..k] == p[..k];
  }

  /** The file after the first growths. */
  function Joined(parts: seq<seq<Record>>): seq<Record> {
    if parts == [] then [] else Joined(parts[..|parts| - 1]) + parts[|parts| - 1]
  }

  /**
   * The tree after a load at each growth, each skipping as many raw records as there are leaves
   * past the boost tree.
   */
  function LoadedAll(boost: seq<Bytes>, parts: seq<seq<Record>>, lo: nat, hi: nat, limit: nat): (tree: seq<Bytes>)
    requires 0 < limit
    ensures |boost| <= |tree|
  {
    if parts == [] then boost
    else
      var tree := LoadedAll(boost, parts[..|parts| - 1], lo, hi, limit);
      tree + Cmus(Kept(PagedRead(Joined(parts), lo, hi, 0, limit), |tree| - |boost|))
  }

  /** Any number of loads of a growing file end with the tree of a single load, if every growth continues the read. */
  lemma {:induction false} LoadsOverGrowth(boost: seq<Bytes>, parts: seq<seq<Record>>, lo: nat, hi: nat, limit: nat)
    requires 0 < limit
    requires forall n :: 0 < n < |parts| ==> Continues(Joined(parts[..n]), parts[n], lo, hi, limit)
    ensures LoadedAll(boost, parts, lo, hi, limit)
         == boost + Cmus(Kept(PagedRead(Joined(parts), lo, hi, 0, limit), 0))
  {
    hide PagedRead, Kept, Continues;
    if parts == [] {
      NothingRead([], lo, hi, limit);
      SkipAll([], 0);
      assert boost + [] == boost;
    } else {
      var n := |parts| - 1;
      var t := parts[..n];
      forall k | 0 < k < n ensures Continues(Joined(t[..k]), t[k], lo, hi, limit) {
        assert t[..k] == parts[..k];
      }
      LoadsOverGrowth(boost, t, lo, hi, limit);
      if n == 0 {
        assert LoadedAll(boost, t, lo, hi, limit) == boost;
      } else {
        ResumedLoadExactly(Joined(t), parts[n], lo, hi, limit);
        JoinCmus(boost, Kept(PagedRead(Joined(t), lo, hi, 0, limit), 0),
                 Kept(PagedRead(Joined(parts), lo, hi, 0, limit), |LoadedAll(boost, t, lo, hi, limit)| - |boost|));
      }
    }
  }

  /**
   * A late block arrives between two loads, on the page of a higher one: the resumed load skips it,
   * and appends the higher one again.
   */
  lemma LateBlockLost(lo: nat, n: nat, hi: nat, limit: nat)
    requires lo + n < hi && n + 2 < limit
    ensures var was, more := LateBlock.Outputs(lo, n) + [Sample(lo + n + 1, 2)], [Sample(lo + n, 3)];
            var fill, x := InRange(LateBlock.Outputs(lo, n), lo, hi), SampleOf(lo + n + 1, 2);
            && Dedup(PagedRead(was, lo, hi, 0, limit)) == fill + [x]
            && Kept(PagedRead(was + more, lo, hi, 0, limit), n + 1) == [x]
            && !Continues(was, more, lo, hi, limit)
  {
    hide InRange, PagedRead, Dedup, Kept, LateBlock.Outputs, Sample;
    var fill := InRange(LateBlock.Outputs(lo, n), lo, hi);
    var x, y := SampleOf(lo + n + 1, 2), SampleOf(lo + n, 3);
    var was := LateBlock.Outputs(lo, n) + [Sample(lo + n + 1, 2)];
    LateBlock.RetriedCommitments(lo, n, hi);
    LateBlock.RetriedBlock(lo, n, hi, limit);
    var file := LateBlock.RetriedFile(lo, n);
    assert was + [Sample(lo + n, 3)] == file && file[0..n + 1] == was;
    OnePage(was, lo, hi, limit);
    SortFixpoint(fill + [x]);
    assert Distinct(fill + [x]) && Distinct(fill + [y, x]);
    DedupDistinct(fill + [x]);
    assert fill + [y, x] == fill + [y] + [x];
    SkipAll(fill + [y], n + 1);
    KeptExtend(fill + [y], x, n + 1);
    assert (fill + [x])[n] == x && (fill + [y, x])[n] == y && x != y;
    assert !(fill + [x] <= fill + [y, x]);
  }
}
