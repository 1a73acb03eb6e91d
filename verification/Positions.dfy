/**
 * The position pass that runs before and after the block scan: it walks the delta records
 * again to find each note's place in the tree, without touching the tree
 * (crates/zipherx-core/src/async_sync.rs: pre-scan and post-scan nullifier recompute).
 */
module Positions {
  import opened Common
  import opened CommitmentTree
  import opened DeltaStore
  import opened DeltaLoad
  import opened FirstOccurrences
  import opened PageOrder
  import opened LateBlock

  /** Each of our commitments with `base` plus the index of its last first-occurrence. */
  function PositionMap(s: seq<Commitment>, notes: set<Bytes>, base: nat): map<Bytes, nat> {
    if s == [] then map[]
    else
      var n := |s| - 1;
      var r := PositionMap(s[..n], notes, base);
      if s[n] in s[..n] || s[n].1 !in notes then r else r[s[n].1 := base + |Dedup(s[..n])|]
  }

  lemma PositionExtend(s: seq<Commitment>, c: Commitment, notes: set<Bytes>, base: nat)
    ensures Dedup(s + [c]) == if c in s then Dedup(s) else Dedup(s) + [c]
    ensures PositionMap(s + [c], notes, base)
         == if c in s || c.1 !in notes then PositionMap(s, notes, base)
            else PositionMap(s, notes, base)[c.1 := base + |Dedup(s)|]
  {
    assert (s + [c])[..|s|] == s;
  }

  ghost predicate Counted(seen: set<Commitment>, idx: nat, positions: map<Bytes, nat>,
                          s: seq<Commitment>, notes: set<Bytes>, base: nat)
  {
    && (forall c :: c in seen <==> c in s)
    && idx == |Dedup(s)|
    && positions == PositionMap(s, notes, base)
  }

  method PositionPage(page: seq<Commitment>, notes: set<Bytes>, base: nat, seen: set<Commitment>, idx: nat,
                      positions: map<Bytes, nat>, ghost done: seq<Commitment>)
    returns (seen': set<Commitment>, idx': nat, positions': map<Bytes, nat>)
    requires Counted(seen, idx, positions, done, notes, base)
    ensures Counted(seen', idx', positions', done + page, notes, base)
  {
    hide Dedup, PositionMap;
    seen', idx', positions' := seen, idx, positions;
    assert done + page[..0] == done;
    for i := 0 to |page|
      invariant Counted(seen', idx', positions', done + page[..i], notes, base)
    {
      assert done + page[..i + 1] == done + page[..i] + [page[i]];
      PositionExtend(done + page[..i], page[i], notes, base);
      if page[i] !in seen' {
        seen' := seen' + {page[i]};
        if page[i].1 in notes {
          positions' := positions'[page[i].1 := base + idx'];
        }
        idx' := idx' + 1;
      }
    }
    assert done + page[..|page|] == done + page;
  }

  method PositionLoop(file: seq<Record>, lo: nat, hi: nat, limit: nat, notes: set<Bytes>, base: nat,
                      ghost all: seq<Commitment>)
    returns (positions: map<Bytes, nat>, seen: set<Commitment>, idx: nat)
    requires 0 < limit && ReadSoFar(file, lo, hi, 0, limit, [], all) && Counted({}, 0, map[], [], notes, base)
    ensures Counted(seen, idx, positions, all, notes, base)
  {
    hide *;
    ghost var done: seq<Commitment> := [];
    positions, seen, idx := map[], {}, 0;
    var offset := 0;
    while true
      invariant Counted(seen, idx, positions, done, notes, base)
      invariant ReadSoFar(file, lo, hi, offset, limit, done, all)
      decreases |file| - offset
    {
      var page := RangePage(file, lo, hi, offset, limit);
      PagedStep(file, lo, hi, offset, limit, done, all);
      if page == [] {
        break;
      }
      seen, idx, positions := PositionPage(page, notes, base, seen, idx, positions, done);
      done, offset := done + page, offset + |page|;
      if |page| < limit {
        break;
      }
    }
  }

  method PositionPass(file: seq<Record>, lo: nat, hi: nat, limit: nat, notes: set<Bytes>, base: nat)
    returns (positions: map<Bytes, nat>)
    requires 0 < limit
    ensures positions == PositionMap(PagedRead(file, lo, hi, 0, limit), notes, base)
  {
    ghost var all := PagedRead(file, lo, hi, 0, limit);
    assert [] + all == all;
    var seen, idx;
    positions, seen, idx := PositionLoop(file, lo, hi, limit, notes, base, all);
  }

  // ---------------------------------------------------------------- agreement with the tree

  /** `leaves` holds `cmu` at `p` and nowhere after. */
  predicate LastAt(leaves: seq<Bytes>, cmu: Bytes, p: nat) {
    p < |leaves| && leaves[p] == cmu && forall q :: p < q < |leaves| ==> leaves[q] != cmu
  }

  /**
   * The positions agree with the tree built from the same records: exactly our commitments
   * among them are mapped, and the tree holds each at its mapped position and not later.
   */
  lemma {:induction false} PositionsMatchTree(boost: seq<Bytes>, s: seq<Commitment>, notes: set<Bytes>)
    ensures forall c :: c in PositionMap(s, notes, |boost|) <==> c in notes && c in Cmus(s)
    ensures forall c :: c in PositionMap(s, notes, |boost|) ==>
              LastAt(boost + Cmus(Dedup(s)), c, PositionMap(s, notes, |boost|)[c])
    ensures forall c :: c in PositionMap(s, notes, |boost|) ==> |boost| <= PositionMap(s, notes, |boost|)[c]
  {
    if s != [] {
      var t, x := s[..|s| - 1], s[|s| - 1];
      assert s == t + [x];
      PositionsMatchTree(boost, t, notes);
      PositionExtend(t, x, notes, |boost|);
      assert Cmus(s) == Cmus(t) + [x.1];
      assert x in t ==> x.1 in Cmus(t) by {
        if x in t {
          var i :| 0 <= i < |t| && t[i] == x;
          assert Cmus(t)[i] == x.1;
        }
      }
      if x !in t {
        TreeStep(boost + Cmus(Dedup(t)), t, x, notes, |boost|);
        assert Cmus(Dedup(t) + [x]) == Cmus(Dedup(t)) + [x.1];
        assert boost + Cmus(Dedup(s)) == boost + Cmus(Dedup(t)) + [x.1];
      }
    }
  }

  /** Appending a new leaf moves the mapping of that leaf, and of no other. */
  lemma TreeStep(leaves: seq<Bytes>, t: seq<Commitment>, x: Commitment, notes: set<Bytes>, base: nat)
    requires |leaves| == base + |Dedup(t)| && x !in t
    requires forall c :: c in PositionMap(t, notes, base) ==>
              c in notes && LastAt(leaves, c, PositionMap(t, notes, base)[c])
    ensures forall c :: c in PositionMap(t + [x], notes, base) ==>
              LastAt(leaves + [x.1], c, PositionMap(t + [x], notes, base)[c])
  {
    PositionExtend(t, x, notes, base);
    var m, m' := PositionMap(t, notes, base), PositionMap(t + [x], notes, base);
    forall c | c in m' ensures LastAt(leaves + [x.1], c, m'[c]) {
      if c != x.1 {
        assert c in m && m'[c] == m[c];
      }
    }
  }

  /**
   * The passes and the loader may use different page sizes: where these yield the same commitments,
   * every mapped position is the note's place in the loaded tree, for any file.
   */
  lemma PassAgreesWithLoader(boost: seq<Bytes>, file: seq<Record>, lo: nat, hi: nat, notes: set<Bytes>,
                             passLimit: nat, loadLimit: nat)
    requires 0 < passLimit && 0 < loadLimit && Alike(file, lo, hi, passLimit, loadLimit)
    ensures var m := PositionMap(PagedRead(file, lo, hi, 0, passLimit), notes, |boost|);
            forall c :: c in m ==> LastAt(boost + Cmus(Kept(PagedRead(file, lo, hi, 0, loadLimit), 0)), c, m[c])
  {
    hide PagedRead, Dedup, PositionMap, Kept, LastAt, Alike;
    AlikeExactly(file, lo, hi, passLimit, loadLimit);
    KeptIsDedup(PagedRead(file, lo, hi, 0, loadLimit));
    PositionsMatchTree(boost, PagedRead(file, lo, hi, 0, passLimit), notes);
  }

  /**
   * A file that is readable with pages of 10_000, as the verified load reads it, is readable with
   * pages of 50_000, as the passes and the combined build read it, and they see the same.
   */
  lemma ProgramPagesAgree(file: seq<Record>, lo: nat, hi: nat)
    requires Readable(file, lo, hi, LOAD_PAGE)
    ensures Readable(file, lo, hi, CMU_PAGE) && Alike(file, lo, hi, CMU_PAGE, LOAD_PAGE)
  {
    hide Readable, Alike;
    CoarserPages(file, lo, hi, LOAD_PAGE, 5);
    AlikeCases(file, lo, hi, CMU_PAGE, LOAD_PAGE);
  }

  /**
   * A late block at the end of a page of the loader, but not of the pass: the pass maps the late
   * commitment to one place before the one that the loaded tree holds it at.
   */
  lemma RetriedBlockDisagrees(boost: seq<Bytes>, lo: nat, n: nat, hi: nat, passLimit: nat)
    requires lo + n < hi && n + 1 < passLimit
    ensures var y := SampleOf(lo + n, 3).1;
            && PositionMap(PagedRead(RetriedFile(lo, n), lo, hi, 0, passLimit), {y}, |boost|) == map[y := |boost| + n]
            && LastAt(boost + Cmus(Kept(PagedRead(RetriedFile(lo, n), lo, hi, 0, n + 1), 0)), y, |boost| + n + 1)
  {
    hide PagedRead, InRange, PositionMap, Dedup, Kept, RetriedFile, Outputs, SampleOf;
    var file, fill := RetriedFile(lo, n), InRange(Outputs(lo, n), lo, hi);
    var x, y := SampleOf(lo + n + 1, 2), SampleOf(lo + n, 3);
    RetriedCommitments(lo, n, hi);
    RetriedBlock(lo, n, hi, passLimit);
    SamplesDiffer();
    KeptIsDedup(fill + [x, y]);
    DedupDistinct(fill + [x, y]);
    DedupDistinct(fill + [y, x]);
    PositionsMatchTree(boost, fill + [y, x], {y.1});
    assert Cmus(fill + [y, x])[n] == y.1;
    assert (boost + Cmus(fill + [y, x]))[|boost| + n] == y.1;
    assert (boost + Cmus(fill + [x, y]))[|boost| + n + 1] == y.1;
    var m := PositionMap(fill + [y, x], {y.1}, |boost|);
    assert y.1 in m && forall c :: c in m ==> c == y.1;
    OnlyAt(boost, fill, x, y, m[y.1]);
  }

  lemma OnlyAt(boost: seq<Bytes>, fill: seq<Commitment>, x: Commitment, y: Commitment, p: nat)
    requires x.1 != y.1 && forall i :: 0 <= i < |fill| ==> fill[i].1 != y.1
    requires |boost| <= p && LastAt(boost + Cmus(fill + [y, x]), y.1, p)
    ensures p == |boost| + |fill|
  {
    var all := boost + Cmus(fill + [y, x]);
    forall q | |boost| <= q < |boost| + |fill| ensures all[q] != y.1 {
      assert all[q] == fill[q - |boost|].1;
    }
    assert all[|boost| + |fill|] == y.1 && all[|boost| + |fill| + 1] == x.1;
  }

  lemma SamplesDiffer()
    ensures forall h, f, h', f' :: f != f' ==> SampleOf(h, f).1 != SampleOf(h', f').1
  {
    forall h, f, h', f' | f != f' ensures SampleOf(h, f).1 != SampleOf(h', f').1 {
      assert SampleOf(h, f).1[0] == f && SampleOf(h', f').1[0] == f';
    }
  }
}
