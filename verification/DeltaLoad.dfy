/**
 * The paged, skipping, deduplicating loaders that append delta commitments to the tree
 * (crates/zipherx-core/src/async_sync.rs: verified delta load and combined tree build).
 *
 * `Kept` says which raw records a loader appends; the methods are the loops; the lemmas
 * say exactly when the tree ends as the boost leaves followed by every delta commitment once.
 */
module DeltaLoad {
  import opened Common
  import opened CommitmentTree
  import opened DeltaStore
  import opened FirstOccurrences
  import opened PageOrder
  import StableSort

  /** Page sizes of the verified load, and of the combined tree build and the position passes. */
  const LOAD_PAGE: nat := 10_000
  const CMU_PAGE: nat := 50_000

  /** Record `i` is appended if it is past the skip count and not seen before. */
  predicate Appends(s: seq<Commitment>, skip: nat, i: nat)
    requires i < |s|
  {
    skip <= i && s[i] !in s[..i]
  }

  /**
   * The records a loader appends, in order, when it skips the first `skip` raw ones. The loaders
   * also pass over commitments that are not 32 bytes long; a record cannot hold one.
   */
  function Kept(s: seq<Commitment>, skip: nat): seq<Commitment> {
    if s == [] then []
    else
      var n := |s| - 1;
      Kept(s[..n], skip) + if Appends(s, skip, n) then [s[n]] else []
  }

  function Cmus(s: seq<Commitment>): (r: seq<Bytes>)
    ensures |r| == |s| && forall i :: 0 <= i < |s| ==> r[i] == s[i].1
  {
    seq(|s|, i requires 0 <= i < |s| => s[i].1)
  }

  /** Leaves that belong to our notes, with the tree position each one gets. */
  function OursAt(leaves: seq<Bytes>, notes: set<Bytes>, base: nat): seq<(Bytes, nat)> {
    if leaves == [] then []
    else
      var n := |leaves| - 1;
      OursAt(leaves[..n], notes, base) + if leaves[n] in notes then [(leaves[n], base + n)] else []
  }

  ghost predicate Seen(seen: set<Commitment>, s: seq<Commitment>) {
    forall c: Commitment :: c in seen <==> c in s
  }

  /** The witness map lists exactly our appended leaves, each with a witness at its own position. */
  predicate Witnessed(marks: seq<(Bytes, nat)>, witnesses: seq<Witness>, ours: seq<(Bytes, nat)>) {
    && |marks| == |ours|
    && (forall i :: 0 <= i < |marks| ==> marks[i].1 < |witnesses|)
    && (forall i :: 0 <= i < |marks| ==> (marks[i].0, witnesses[marks[i].1].position) == ours[i])
  }

  lemma KeptExtend(s: seq<Commitment>, c: Commitment, skip: nat)
    ensures skip <= |s| && c !in s ==>
              && Kept(s + [c], skip) == Kept(s, skip) + [c]
              && Cmus(Kept(s + [c], skip)) == Cmus(Kept(s, skip)) + [c.1]
    ensures !(skip <= |s| && c !in s) ==> Kept(s + [c], skip) == Kept(s, skip)
  {
    assert (s + [c])[..|s|] == s;
  }

  lemma OursExtend(leaves: seq<Bytes>, cmu: Bytes, notes: set<Bytes>, base: nat)
    ensures OursAt(leaves + [cmu], notes, base)
         == OursAt(leaves, notes, base) + if cmu in notes then [(cmu, base + |leaves|)] else []
  {
    assert (leaves + [cmu])[..|leaves|] == leaves;
  }

  /** In order of position: exactly the leaves past `from` that are ours, each with its place in the tree. */
  ghost predicate OursPast(ours: seq<(Bytes, nat)>, leaves: seq<Bytes>, from: nat, notes: set<Bytes>) {
    && (forall o :: o in ours <==> from <= o.1 < |leaves| && leaves[o.1] == o.0 && o.0 in notes)
    && forall i, j :: 0 <= i < j < |ours| ==> ours[i].1 < ours[j].1
  }

  lemma {:induction false} OursExactly(base: seq<Bytes>, added: seq<Bytes>, notes: set<Bytes>)
    ensures OursPast(OursAt(added, notes, |base|), base + added, |base|, notes)
  {
    if added != [] {
      hide OursPast;
      var n := |added| - 1;
      OursExactly(base, added[..n], notes);
      assert base + added == base + added[..n] + [added[n]];
      OursOneMore(OursAt(added[..n], notes, |base|), base + added[..n], |base|, notes, added[n]);
    } else {
      assert OursAt(added, notes, |base|) == [];
    }
  }

  lemma OursOneMore(ours: seq<(Bytes, nat)>, leaves: seq<Bytes>, from: nat, notes: set<Bytes>, leaf: Bytes)
    requires from <= |leaves| && OursPast(ours, leaves, from, notes)
    ensures OursPast(ours + if leaf in notes then [(leaf, |leaves|)] else [], leaves + [leaf], from, notes)
  {
    var last: seq<(Bytes, nat)> := if leaf in notes then [(leaf, |leaves|)] else [];
    var all := ours + last;
    assert forall i :: 0 <= i < |ours| ==> all[i] in ours;
    forall o ensures o in all <==> from <= o.1 < |leaves| + 1 && (leaves + [leaf])[o.1] == o.0 && o.0 in notes {
      assert o in all <==> o in ours || o in last;
    }
  }

  // ---------------------------------------------------------------- the loops

  /** Appends one leaf and, if it is ours, records a witness for it. */
  method AppendLeaf(tree: Tree, cmu: Bytes, notes: set<Bytes>, marks: seq<(Bytes, nat)>,
                    ghost base: seq<Bytes>, ghost added: seq<Bytes>)
    returns (marks': seq<(Bytes, nat)>)
    requires tree.InSync() && tree.leaves == base + added
    requires Witnessed(marks, tree.witnesses, OursAt(added, notes, |base|))
    modifies tree
    ensures tree.InSync() && tree.leaves == base + (added + [cmu])
    ensures Witnessed(marks', tree.witnesses, OursAt(added + [cmu], notes, |base|))
  {
    marks' := marks;
    OursExtend(added, cmu, notes, |base|);
    tree.Append(cmu);
    assert base + (added + [cmu]) == base + added + [cmu];
    if cmu in notes {
      var idx := tree.WitnessCurrent();
      marks' := marks' + [(cmu, idx)];
    }
  }

  /** One page on the witness path: every new record is appended on its own. */
  method WitnessPage(tree: Tree, page: seq<Commitment>, idx: nat, seen: set<Commitment>, skip: nat,
                     notes: set<Bytes>, marks: seq<(Bytes, nat)>, ghost base: seq<Bytes>, ghost done: seq<Commitment>)
    returns (idx': nat, seen': set<Commitment>, marks': seq<(Bytes, nat)>)
    requires idx == |done| && Seen(seen, done)
    requires tree.InSync() && tree.leaves == base + Cmus(Kept(done, skip))
    requires Witnessed(marks, tree.witnesses, OursAt(Cmus(Kept(done, skip)), notes, |base|))
    modifies tree
    ensures idx' == |done + page| && Seen(seen', done + page)
    ensures tree.InSync() && tree.leaves == base + Cmus(Kept(done + page, skip))
    ensures Witnessed(marks', tree.witnesses, OursAt(Cmus(Kept(done + page, skip)), notes, |base|))
  {
    idx', seen', marks' := idx, seen, marks;
    var i := 0;
    assert done + page[..0] == done;
    while i < |page|
      invariant 0 <= i <= |page|
      invariant idx' == |done + page[..i]| && Seen(seen', done + page[..i])
      invariant tree.InSync() && tree.leaves == base + Cmus(Kept(done + page[..i], skip))
      invariant Witnessed(marks', tree.witnesses, OursAt(Cmus(Kept(done + page[..i], skip)), notes, |base|))
    {
      ghost var before := done + page[..i];
      assert done + page[..i + 1] == before + [page[i]];
      KeptExtend(before, page[i], skip);
      var isNew := page[i] !in seen';
      seen' := seen' + {page[i]};
      if idx' < skip {
        idx' := idx' + 1;
      } else {
        idx' := idx' + 1;
        if isNew {
          marks' := AppendLeaf(tree, page[i].1, notes, marks', base, Cmus(Kept(before, skip)));
        }
      }
      i := i + 1;
    }
    assert page[..i] == page;
  }

  /** One page on the fast path: new records are buffered and appended as one batch. */
  method BatchPage(tree: Tree, page: seq<Commitment>, idx: nat, seen: set<Commitment>, skip: nat,
                   ghost base: seq<Bytes>, ghost done: seq<Commitment>)
    returns (idx': nat, seen': set<Commitment>)
    requires idx == |done| && Seen(seen, done)
    requires tree.position == |tree.leaves| && tree.leaves == base + Cmus(Kept(done, skip))
    modifies tree
    ensures idx' == |done + page| && Seen(seen', done + page)
    ensures tree.position == |tree.leaves| && tree.leaves == base + Cmus(Kept(done + page, skip))
  {
    idx', seen' := idx, seen;
    var buffer: seq<Bytes> := [];
    var i := 0;
    assert done + page[..0] == done;
    while i < |page|
      invariant 0 <= i <= |page|
      invariant idx' == |done + page[..i]| && Seen(seen', done + page[..i])
      invariant Cmus(Kept(done, skip)) + buffer == Cmus(Kept(done + page[..i], skip))
      modifies {}
    {
      ghost var before := done + page[..i];
      assert done + page[..i + 1] == before + [page[i]];
      KeptExtend(before, page[i], skip);
      var isNew := page[i] !in seen';
      seen' := seen' + {page[i]};
      if idx' < skip {
        idx' := idx' + 1;
      } else {
        idx' := idx' + 1;
        if isNew {
          assert Cmus(Kept(done, skip)) + (buffer + [page[i].1]) == Cmus(Kept(done, skip)) + buffer + [page[i].1];
          buffer := buffer + [page[i].1];
        }
      }
      i := i + 1;
    }
    assert page[..i] == page;
    assert base + Cmus(Kept(done, skip)) + buffer == base + Cmus(Kept(done + page, skip));
    if buffer != [] {
      tree.AppendBatch(buffer);
    }
  }

  /** `done` has been read and `all` is what the loop will have read in total. */
  ghost predicate ReadSoFar(file: seq<Record>, lo: nat, hi: nat, offset: nat, limit: nat, done: seq<Commitment>,
                            all: seq<Commitment>)
    requires 0 < limit
  {
    done + PagedRead(file, lo, hi, offset, limit) == all
  }

  lemma PagedStep(file: seq<Record>, lo: nat, hi: nat, offset: nat, limit: nat, done: seq<Commitment>,
                  all: seq<Commitment>)
    requires 0 < limit && ReadSoFar(file, lo, hi, offset, limit, done, all)
    ensures var p := RangePage(file, lo, hi, offset, limit);
            && (p == [] ==> done == all)
            && (p != [] && |p| < limit ==> done + p == all)
            && (|p| == limit ==> ReadSoFar(file, lo, hi, offset + |p|, limit, done + p, all))
  {
    hide InRange, SortByHeight, Page, RangePage;
    var p := RangePage(file, lo, hi, offset, limit);
    if |p| == limit {
      var rest := PagedRead(file, lo, hi, offset + |p|, limit);
      assert done + p + rest == done + (p + rest);
    }
  }

  /** Where the page loop stands: `done` has been read, and the tree holds what was kept of it. */
  ghost predicate Loaded(tree: Tree, base: seq<Bytes>, done: seq<Commitment>, idx: nat, seen: set<Commitment>,
                         skip: nat, needWitnesses: bool, notes: set<Bytes>, marks: seq<(Bytes, nat)>)
    reads tree
  {
    && idx == |done| && Seen(seen, done)
    && tree.position == |tree.leaves| && tree.leaves == base + Cmus(Kept(done, skip))
    && if needWitnesses
       then tree.InSync() && Witnessed(marks, tree.witnesses, OursAt(Cmus(Kept(done, skip)), notes, |base|))
       else marks == []
  }

  /** One page, on whichever path applies. */
  method LoadPage(tree: Tree, page: seq<Commitment>, idx: nat, seen: set<Commitment>, skip: nat, needWitnesses: bool,
                  notes: set<Bytes>, marks: seq<(Bytes, nat)>, ghost base: seq<Bytes>, ghost done: seq<Commitment>)
    returns (idx': nat, seen': set<Commitment>, marks': seq<(Bytes, nat)>)
    requires Loaded(tree, base, done, idx, seen, skip, needWitnesses, notes, marks)
    modifies tree
    ensures Loaded(tree, base, done + page, idx', seen', skip, needWitnesses, notes, marks')
  {
    if needWitnesses {
      idx', seen', marks' := WitnessPage(tree, page, idx, seen, skip, notes, marks, base, done);
    } else {
      marks' := [];
      idx', seen' := BatchPage(tree, page, idx, seen, skip, base, done);
    }
  }

  method PageLoop(tree: Tree, file: seq<Record>, lo: nat, hi: nat, limit: nat, skip: nat,
                  needWitnesses: bool, notes: set<Bytes>, ghost base: seq<Bytes>, ghost all: seq<Commitment>)
    returns (marks: seq<(Bytes, nat)>, idx: nat, seen: set<Commitment>)
    requires 0 < limit && ReadSoFar(file, lo, hi, 0, limit, [], all)
    requires Loaded(tree, base, [], 0, {}, skip, needWitnesses, notes, [])
    modifies tree
    ensures Loaded(tree, base, all, idx, seen, skip, needWitnesses, notes, marks)
  {
    hide *;
    ghost var done: seq<Commitment> := [];
    marks, idx, seen := [], 0, {};
    var offset := 0;
    while true
      invariant Loaded(tree, base, done, idx, seen, skip, needWitnesses, notes, marks)
      invariant ReadSoFar(file, lo, hi, offset, limit, done, all)
      decreases |file| - offset
    {
      var page := RangePage(file, lo, hi, offset, limit);
      PagedStep(file, lo, hi, offset, limit, done, all);
      if page == [] {
        break;
      }
      idx, seen, marks := LoadPage(tree, page, idx, seen, skip, needWitnesses, notes, marks, base, done);
      done, offset := done + page, offset + |page|;
      if |page| < limit {
        break;
      }
    }
  }

  /**
   * The page loop over both paths. The two paths leave the same leaves; the witness path
   * also returns a witness for each of our appended leaves.
   */
  method LoadPaged(tree: Tree, file: seq<Record>, lo: nat, hi: nat, limit: nat, skip: nat,
                   needWitnesses: bool, notes: set<Bytes>)
    returns (marks: seq<(Bytes, nat)>)
    requires 0 < limit && tree.position == |tree.leaves|
    modifies tree
    ensures tree.position == |tree.leaves|
    ensures tree.leaves == old(tree.leaves) + Cmus(Kept(PagedRead(file, lo, hi, 0, limit), skip))
    ensures needWitnesses ==>
              && tree.InSync()
              && exists ours :: Witnessed(marks, tree.witnesses, ours)
                                && OursPast(ours, tree.leaves, |old(tree.leaves)|, notes)
    ensures !needWitnesses ==> marks == []
  {
    if needWitnesses {
      tree.ClearWitnesses();
    }
    ghost var all := PagedRead(file, lo, hi, 0, limit);
    assert [] + all == all;
    var idx, seen;
    ghost var base := tree.leaves;
    marks, idx, seen := PageLoop(tree, file, lo, hi, limit, skip, needWitnesses, notes, base, all);
    if needWitnesses {
      OursExactly(base, Cmus(Kept(all, skip)), notes);
    }
  }

  // ---------------------------------------------------------------- what the loops achieve

  /** Skipping splits the deduplicated list at the skip count, whatever the records are. */
  lemma {:induction false} KeptSplit(s: seq<Commitment>, k: nat)
    requires k <= |s|
    ensures Dedup(s) == Dedup(s[..k]) + Kept(s, k)
  {
    if |s| == k {
      assert s[..k] == s;
      SkipAll(s, k);
    } else {
      var n := |s| - 1;
      KeptSplit(s[..n], k);
      assert s[..n][..k] == s[..k];
    }
  }

  lemma {:induction false} SkipAll(s: seq<Commitment>, k: nat)
    requires |s| <= k
    ensures Kept(s, k) == []
  {
    if s != [] {
      SkipAll(s[..|s| - 1], k);
    }
  }

  /**
   * With skip count 0 the loader deduplicates: it keeps every commitment, keeps none twice, and
   * keeps them in the order of their first occurrence (what a prefix of the records contributes
   * is a prefix of the result).
   */
  lemma KeptDeduplicates(s: seq<Commitment>)
    ensures Kept(s, 0) == Dedup(s)
    ensures forall c: Commitment :: c in Kept(s, 0) <==> c in s
    ensures Distinct(Kept(s, 0))
    ensures forall p :: 0 <= p <= |s| ==> Kept(s[..p], 0) <= Kept(s, 0)
  {
    KeptIsDedup(s);
    DedupMembers<Commitment>(s);
    assert forall c: Commitment :: c in Dedup(s) <==> c in s;
    forall p | 0 <= p <= |s| ensures Kept(s[..p], 0) <= Kept(s, 0) {
      KeptSplit(s, p);
      KeptIsDedup(s[..p]);
    }
  }

  lemma KeptIsDedup(s: seq<Commitment>)
    ensures Kept(s, 0) == Dedup(s)
  {
    KeptSplit(s, 0);
    assert s[..0] == [] && [] + Kept(s, 0) == Kept(s, 0);
  }

  /**
   * The size guard. The tree holds the boost leaves and the first `k` deduplicated delta
   * leaves, and the loader skips `k` RAW records. It ends with every delta commitment once
   * exactly if those `k` raw records are distinct.
   */
  lemma SkipExactlyWhenDistinct(boost: seq<Bytes>, raw: seq<Commitment>, k: nat)
    requires k <= |Dedup(raw)|
    ensures k <= |raw|
    ensures boost + Cmus(Dedup(raw)[..k]) + Cmus(Kept(raw, k)) == boost + Cmus(Dedup(raw)) <==> Distinct(raw[..k])
  {
    DedupMembers<Commitment>(raw);
    KeptSplit(raw, k);
    DedupDistinct(raw[..k]);
    var u, rest := Dedup(raw), Kept(raw, k);
    if Distinct(raw[..k]) {
      assert u[..k] == raw[..k];
      JoinCmus(boost, u[..k], rest);
    } else {
      assert |boost + Cmus(u[..k]) + Cmus(rest)| != |boost + Cmus(u)|;
    }
  }

  lemma JoinCmus(boost: seq<Bytes>, a: seq<Commitment>, b: seq<Commitment>)
    ensures boost + Cmus(a) + Cmus(b) == boost + Cmus(a + b)
  {
    assert Cmus(a) + Cmus(b) == Cmus(a + b);
  }

  /** A repeated record among the skipped ones: the tree holds two leaves, and the second is appended again. */
  lemma SkippedDuplicateIsAppended(a: Commitment, b: Commitment)
    requires a != b
    ensures Dedup([a, a, b]) == [a, b] && Kept([a, a, b], 2) == [b]
    ensures Cmus(Dedup([a, a, b])[..2]) + Cmus(Kept([a, a, b], 2)) == [a.1, b.1, b.1]
  {
    hide Dedup, Kept;
    DedupRepeated(a, b);
    KeptRepeated(a, b);
    assert [a, b][..2] == [a, b];
  }

  lemma DedupRepeated(a: Commitment, b: Commitment)
    requires a != b
    ensures Dedup([a, a, b]) == [a, b]
  {
    hide Dedup;
    assert [a] + [a] == [a, a] && [a, a] + [b] == [a, a, b];
    DedupSingle(a);
    DedupExtend([a], a);
    DedupExtend([a, a], b);
  }

  lemma KeptRepeated(a: Commitment, b: Commitment)
    requires a != b
    ensures Kept([a, a, b], 2) == [b]
  {
    hide Kept;
    assert [a, a] + [b] == [a, a, b];
    SkipAll([a, a], 2);
    KeptExtend([a, a], b, 2);
  }

  // ---------------------------------------------------------------- a whole load

  /**
   * The whole load of a file that is readable at this page size: the tree holds boost and the first
   * `k` commitments by height, `k` raw records are skipped as read, and the tree ends as boost plus
   * every delta commitment once, by height, exactly if those `k` are distinct.
   */
  lemma LoadRefinesDedup(boost: seq<Bytes>, file: seq<Record>, lo: nat, hi: nat, limit: nat, k: nat)
    requires 0 < limit && Readable(file, lo, hi, limit) && k <= |Delta(file, lo, hi)|
    ensures var u, raw := Delta(file, lo, hi), PagedRead(file, lo, hi, 0, limit);
            && k <= |raw|
            && (boost + Cmus(u[..k]) + Cmus(Kept(raw, k)) == boost + Cmus(u) <==> Distinct(raw[..k]))
  {
    ReadableExactly(file, lo, hi, limit);
    SkipExactlyWhenDistinct(boost, PagedRead(file, lo, hi, 0, limit), k);
  }

  /** No commitment was mined at two heights. */
  predicate OneHeight(s: seq<Commitment>) {
    forall c: Commitment, d: Commitment :: c in s && d in s && c.1 == d.1 ==> c.0 == d.0
  }

  /**
   * A load onto the boost tree alone, for any file and page size: it ends as boost plus every delta
   * commitment once, by height, if and only if the file is readable at this page size (given that
   * no commitment was mined at two heights: the tree does not hold heights).
   */
  lemma FreshLoadExactly(boost: seq<Bytes>, file: seq<Record>, lo: nat, hi: nat, limit: nat)
    requires 0 < limit
    ensures var built := boost + Cmus(Kept(PagedRead(file, lo, hi, 0, limit), 0));
            && (Readable(file, lo, hi, limit) ==> built == boost + Cmus(Delta(file, lo, hi)))
            && (OneHeight(InRange(file, lo, hi)) && built == boost + Cmus(Delta(file, lo, hi)) ==>
                  Readable(file, lo, hi, limit))
  {
    hide InRange, PagedRead, Dedup, Delta, Readable, Kept, OneHeight;
    var raw := PagedRead(file, lo, hi, 0, limit);
    KeptIsDedup(raw);
    ReadableExactly(file, lo, hi, limit);
    if OneHeight(InRange(file, lo, hi)) && boost + Cmus(Dedup(raw)) == boost + Cmus(Delta(file, lo, hi)) {
      assert (boost + Cmus(Dedup(raw)))[|boost|..] == Cmus(Dedup(raw));
      assert (boost + Cmus(Delta(file, lo, hi)))[|boost|..] == Cmus(Delta(file, lo, hi));
      NarrowRead(file, lo, lo, hi, limit);
      DedupMembers<Commitment>(raw);
      DeltaMembers(file, lo, hi);
      SameByCmu(Dedup(raw), Delta(file, lo, hi), InRange(file, lo, hi));
    }
  }

  lemma SameByCmu(a: seq<Commitment>, b: seq<Commitment>, s: seq<Commitment>)
    requires OneHeight(s) && Cmus(a) == Cmus(b)
    requires (forall c: Commitment :: c in a ==> c in s) && (forall c: Commitment :: c in b ==> c in s)
    ensures a == b
  {
    assert |Cmus(a)| == |a| && |Cmus(b)| == |b|;
    forall i | 0 <= i < |a| ensures a[i] == b[i] {
      assert a[i] in a && b[i] in b && Cmus(a)[i] == Cmus(b)[i];
    }
  }

  // ---------------------------------------------------------------- the combined tree build

  /** Some record lies past the boost range but below the scan start. */
  predicate SkippedOver(file: seq<Record>, lo: nat, scanStart: nat, tip: nat) {
    exists i :: 0 <= i < |file| && In(file[i], lo, tip) && file[i].height < scanStart
  }

  /** What a narrower read sees is among what the file holds. */
  lemma NarrowRead(file: seq<Record>, lo: nat, scanStart: nat, tip: nat, limit: nat)
    requires 0 < limit && lo <= scanStart
    ensures forall c: Commitment :: c in PagedRead(file, scanStart, tip, 0, limit) ==>
              c in InRange(file, lo, tip) && scanStart <= c.0
  {
    hide InRange, PagedRead, ReadEnd;
    var end := ReadEnd(file, scanStart, tip, 0, limit);
    PagedReadIs(file, scanStart, tip, 0, limit);
    assert file[0..end] == file[..end];
    InRangeMembers(file[..end], scanStart, tip);
    InRangeMembers(file, lo, tip);
    forall c: Commitment | c in PagedRead(file, scanStart, tip, 0, limit)
      ensures c in InRange(file, lo, tip) && scanStart <= c.0
    {
      assert c in multiset(PagedRead(file, scanStart, tip, 0, limit));
      assert c in multiset(InRange(file[..end], scanStart, tip));
      assert c in InRange(file[..end], scanStart, tip);
      var r :| r in file[..end] && In(r, scanStart, tip) && c == CommitmentOf(r);
      assert r in file && In(r, lo, tip);
    }
  }

  lemma SameInRange(rs: seq<Record>, lo: nat, scanStart: nat, tip: nat)
    requires lo <= scanStart && forall r :: r in rs ==> (In(r, lo, tip) <==> In(r, scanStart, tip))
    ensures InRange(rs, lo, tip) == InRange(rs, scanStart, tip)
  {
    StableSort.FilterSame(Within(lo, tip), Within(scanStart, tip), rs);
  }

  /** With nothing skipped over, reading from the scan start is reading from the boost end. */
  lemma {:induction false} SameRead(file: seq<Record>, lo: nat, scanStart: nat, tip: nat, offset: nat, limit: nat)
    requires 0 < limit && lo <= scanStart && !SkippedOver(file, lo, scanStart, tip)
    ensures PagedRead(file, lo, tip, offset, limit) == PagedRead(file, scanStart, tip, offset, limit)
    decreases |file| - offset
  {
    hide InRange, SortByHeight;
    var page := Page(file, offset, limit);
    forall r | r in page ensures In(r, lo, tip) <==> In(r, scanStart, tip) {
      assert r in file;
      var i :| 0 <= i < |file| && file[i] == r;
    }
    SameInRange(page, lo, scanStart, tip);
    var p := RangePage(file, lo, tip, offset, limit);
    assert p == RangePage(file, scanStart, tip, offset, limit);
    if p != [] && |p| == limit {
      SameRead(file, lo, scanStart, tip, offset + |p|, limit);
    }
  }

  /** A list of elements of `u`, one of which it lacks, has fewer distinct ones than `u`. */
  lemma FewerDistinct(p: seq<Commitment>, u: seq<Commitment>)
    requires Distinct(u) && forall c: Commitment :: c in p ==> c in u
    ensures |Dedup(p)| <= |u|
    ensures (exists c: Commitment :: c in u && c !in p) ==> |Dedup(p)| < |u|
  {
    DedupMembers<Commitment>(p);
    DistinctSize(u);
    DistinctSize(Dedup(p));
    SubsetSize(AsSet(Dedup(p)), AsSet(u));
    assert forall c: Commitment :: c in u && c !in p ==> c in AsSet(u) && c !in AsSet(Dedup(p));
  }

  lemma SubsetSize(a: set<Commitment>, b: set<Commitment>)
    requires a <= b
    ensures |a| <= |b| && (a != b ==> |a| < |b|)
  {
    assert b == a + (b - a);
  }

  lemma {:induction false} DistinctSize(s: seq<Commitment>)
    requires Distinct(s)
    ensures |AsSet(s)| == |s|
  {
    if s != [] {
      var t, x := s[..|s| - 1], s[|s| - 1];
      DistinctSize(t);
      assert s == t + [x];
      DistinctExtend(t, x);
      assert AsSet(s) == AsSet(t) + {x};
    }
  }

  /** How much a load appends that skips `k` raw records, the first ones being distinct. */
  lemma KeptLength(p: seq<Commitment>, k: nat)
    requires Distinct(p[..Min(k, |p|)])
    ensures |Kept(p, k)| == if k <= |p| then |Dedup(p)| - k else 0
  {
    if k <= |p| {
      KeptSplit(p, k);
      DedupDistinct(p[..k]);
    } else {
      SkipAll(p, k);
    }
  }

  /**
   * The combined tree build reads from the scan start but counts its skip from the boost size.
   * The tree holds boost and the first `k` commitments past the boost range (`lo`). On a file that
   * is readable at this page size, and whose skipped records, as read, are distinct, it ends with
   * all of them exactly if no record lies below the scan start or the tree held all of them before.
   */
  lemma CombinedBuildExact(boost: seq<Bytes>, file: seq<Record>, lo: nat, scanStart: nat, tip: nat, limit: nat, k: nat)
    requires 0 < limit && lo <= scanStart && Readable(file, lo, tip, limit) && k <= |Delta(file, lo, tip)|
    requires var raw := PagedRead(file, scanStart, tip, 0, limit); Distinct(raw[..Min(k, |raw|)])
    ensures var u, raw := Delta(file, lo, tip), PagedRead(file, scanStart, tip, 0, limit);
            boost + Cmus(u[..k]) + Cmus(Kept(raw, k)) == boost + Cmus(u)
            <==> !SkippedOver(file, lo, scanStart, tip) || k == |u|
  {
    hide InRange, PagedRead, Dedup, Delta, Kept, Readable, SkippedOver;
    var u, raw := Delta(file, lo, tip), PagedRead(file, scanStart, tip, 0, limit);
    DeltaMembers(file, lo, tip);
    NarrowRead(file, lo, scanStart, tip, limit);
    FewerDistinct(raw, u);
    KeptLength(raw, k);
    if k == |u| {
      assert Kept(raw, k) == [];
      assert u[..k] == u && Cmus([]) == [];
      assert boost + Cmus(u) + [] == boost + Cmus(u);
    } else if SkippedOver(file, lo, scanStart, tip) {
      SkippedIsLacking(file, lo, scanStart, tip, raw);
      assert |boost + Cmus(u[..k]) + Cmus(Kept(raw, k))| < |boost + Cmus(u)|;
    } else {
      SameRead(file, lo, scanStart, tip, 0, limit);
      LoadRefinesDedup(boost, file, lo, tip, limit, k);
    }
  }

  lemma SkippedIsLacking(file: seq<Record>, lo: nat, scanStart: nat, tip: nat, raw: seq<Commitment>)
    requires SkippedOver(file, lo, scanStart, tip) && forall c: Commitment :: c in raw ==> scanStart <= c.0
    ensures exists c: Commitment :: c in Delta(file, lo, tip) && c !in raw
  {
    hide InRange, Delta;
    var i :| 0 <= i < |file| && In(file[i], lo, tip) && file[i].height < scanStart;
    assert file[i] in file;
    InRangeMembers(file, lo, tip);
    DeltaMembers(file, lo, tip);
    var c := CommitmentOf(file[i]);
    assert c in Delta(file, lo, tip) && c !in raw;
  }

  /** Scanning resumes at height 6 over a tree that holds the leaf of height 5: its skip count eats the new leaf. */
  lemma ResumedBuildLosesLeaf()
    ensures var file := [Sample(5, 1), Sample(6, 2)];
            && Delta(file, 5, 9) == [SampleOf(5, 1), SampleOf(6, 2)]
            && PagedRead(file, 6, 9, 0, CMU_PAGE) == [SampleOf(6, 2)]
            && Kept(PagedRead(file, 6, 9, 0, CMU_PAGE), 1) == []
  {
    hide Sample, PagedRead, InRange, Dedup, Kept, StableSort.Sort;
    var a, b := Sample(5, 1), Sample(6, 2);
    var x, y := SampleOf(5, 1), SampleOf(6, 2);
    SampleHeights();
    TwoInRange(a, b, 5, 9);
    TwoInRange(a, b, 6, 9);
    InRangeOne(b, 5, 9);
    InRangeOne(b, 6, 9);
    OnePage([a, b], 6, 9, CMU_PAGE);
    SortFixpoint([y]);
    SkipAll([y], 1);
    var none: seq<Commitment> := [];
    assert [x] + [y] == [x, y] && none + [y] == [y];
    assert InRange([a, b], 5, 9) == [x, y] && InRange([a, b], 6, 9) == [y];
    OneAfterOther(x, y);
  }

  lemma OneAfterOther(x: Commitment, y: Commitment)
    requires x.0 < y.0
    ensures Dedup(SortByHeight([x, y])) == [x, y]
  {
    hide Dedup, StableSort.Sort;
    SortFixpoint([x, y]);
    DedupDistinct([x, y]);
  }
}
