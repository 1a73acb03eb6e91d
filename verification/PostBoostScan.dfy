/**
 * The end of the post-boost scan as a whole (crates/zipherx-core/src/async_sync.rs): positions
 * from the delta file, recomputed nullifiers, and the second look at every delta nullifier,
 * stated against the tree that the loader builds from the same file.
 */
module PostBoostScan {
  import opened Common
  import opened DeltaLoad
  import opened FirstOccurrences
  import opened PageOrder
  import opened Positions
  import DeltaStore
  import S = SpendDetection

  predicate PostBoost(n: S.Note, boostHeight: nat) {
    !n.spent && boostHeight < n.height
  }

  function PostBoostCmus(notes: seq<S.Note>, boostHeight: nat): set<Bytes> {
    set i | 0 <= i < |notes| && PostBoost(notes[i], boostHeight) :: notes[i].cmu
  }

  /** The leaves of the tree built on the boost leaves from the delta file. */
  function BuiltLeaves(boost: seq<Bytes>, file: seq<DeltaStore.Record>, lo: nat, hi: nat, limit: nat): seq<Bytes>
    requires 0 < limit
  {
    boost + Cmus(Dedup(DeltaStore.PagedRead(file, lo, hi, 0, limit)))
  }

  /** A leaf past the boost leaves came from the delta file. */
  lemma DeltaLeaf(boost: seq<Bytes>, file: seq<DeltaStore.Record>, lo: nat, hi: nat, limit: nat, p: nat)
    requires 0 < limit && |boost| <= p < |BuiltLeaves(boost, file, lo, hi, limit)|
    ensures BuiltLeaves(boost, file, lo, hi, limit)[p] in Cmus(DeltaStore.PagedRead(file, lo, hi, 0, limit))
  {
    var all := DeltaStore.PagedRead(file, lo, hi, 0, limit);
    DedupMembers<DeltaStore.Commitment>(all);
    var c := Dedup(all)[p - |boost|];
    assert c in Dedup(all);
    var i :| 0 <= i < |all| && all[i] == c;
    assert Cmus(all)[i] == c.1;
  }

  /**
   * The pass maps a commitment to where the tree holds it, if the tree holds it past the boost
   * leaves, for any file on which the two page sizes yield the same; equal ones always do.
   */
  lemma MappedWhereBuilt(boost: seq<Bytes>, file: seq<DeltaStore.Record>, lo: nat, hi: nat, passLimit: nat, limit: nat,
                         notes: set<Bytes>, cmu: Bytes, p: nat)
    requires 0 < limit && 0 < passLimit
    requires Alike(file, lo, hi, passLimit, limit)
    requires cmu in notes && |boost| <= p && LastAt(BuiltLeaves(boost, file, lo, hi, limit), cmu, p)
    ensures var m := PositionMap(DeltaStore.PagedRead(file, lo, hi, 0, passLimit), notes, |boost|);
            cmu in m && m[cmu] == p
  {
    hide Dedup, PositionMap, DeltaStore.PagedRead, Alike;
    DeltaLeaf(boost, file, lo, hi, limit, p);
    AlikeExactly(file, lo, hi, passLimit, limit);
    var pass := DeltaStore.PagedRead(file, lo, hi, 0, passLimit);
    PositionsMatchTree(boost, pass, notes);
    SameCmus(pass, DeltaStore.PagedRead(file, lo, hi, 0, limit));
  }

  /** Lists with the same first occurrences hold the same commitments. */
  lemma SameCmus(a: seq<DeltaStore.Commitment>, b: seq<DeltaStore.Commitment>)
    requires Dedup(a) == Dedup(b)
    ensures forall x :: x in Cmus(a) <==> x in Cmus(b)
  {
    CmusOfDedup(a);
    CmusOfDedup(b);
  }

  lemma CmusOfDedup(s: seq<DeltaStore.Commitment>)
    ensures forall x :: x in Cmus(s) <==> x in Cmus(Dedup(s))
  {
    var d := Dedup(s);
    DedupMembers<DeltaStore.Commitment>(s);
    forall i | 0 <= i < |s| ensures s[i].1 in Cmus(d) {
      assert s[i] in s;
      var j :| 0 <= j < |d| && d[j] == s[i];
      assert Cmus(d)[j] == s[i].1;
    }
    forall i | 0 <= i < |d| ensures d[i].1 in Cmus(s) {
      assert d[i] in d;
      var j :| 0 <= j < |s| && s[j] == d[i];
      assert Cmus(s)[j] == d[i].1;
    }
  }

  /** Every unspent post-boost note that the tree holds past `from` is caught at its own place in the tree. */
  ghost predicate AllCaught(c: S.Crypto, before: seq<S.Note>, after: seq<S.Note>, boostHeight: nat, leaves: seq<Bytes>,
                            from: nat, spends: seq<S.Spend>)
  {
    && |after| == |before|
    && forall i, p ::
         0 <= i < |before| && !before[i].spent && boostHeight < before[i].height
         && from <= p && LastAt(leaves, before[i].cmu, p) ==>
           S.Caught(c, before[i], after[i], p, spends)
  }

  /**
   * No spend is missed: an unspent post-boost note whose commitment the tree holds past the boost
   * leaves, and whose nullifier at that very position is revealed, ends as spent by it.
   */
  lemma NoSpendMissed(c: S.Crypto, notes: seq<S.Note>, boostHeight: nat, boost: seq<Bytes>,
                      file: seq<DeltaStore.Record>,
                      lo: nat, hi: nat, passLimit: nat, limit: nat, spends: seq<S.Spend>, i: nat, p: nat)
    requires i < |notes| && !notes[i].spent && boostHeight < notes[i].height && 0 < limit && 0 < passLimit
    requires Alike(file, lo, hi, passLimit, limit)
    requires |boost| <= p && LastAt(BuiltLeaves(boost, file, lo, hi, limit), notes[i].cmu, p)
    ensures var positions := PositionMap(DeltaStore.PagedRead(file, lo, hi, 0, passLimit),
                                         PostBoostCmus(notes, boostHeight), |boost|);
            S.Caught(c, notes[i], S.SweepAll(c, S.RecomputedAll(c, notes, boostHeight, positions), spends).notes[i],
                     p, spends)
  {
    hide PositionMap, DeltaStore.PagedRead, LastAt, Alike, S.NullifierAt, S.Caught;
    var cmus := PostBoostCmus(notes, boostHeight);
    var positions := PositionMap(DeltaStore.PagedRead(file, lo, hi, 0, passLimit), cmus, |boost|);
    assert PostBoost(notes[i], boostHeight) && notes[i].cmu in cmus;
    MappedWhereBuilt(boost, file, lo, hi, passLimit, limit, cmus, notes[i].cmu, p);
    S.SpendCaught(c, notes, boostHeight, positions, spends, i);
  }

  method CollectCmus(notes: seq<S.Note>, boostHeight: nat) returns (cmus: set<Bytes>)
    ensures cmus == PostBoostCmus(notes, boostHeight)
  {
    cmus := {};
    for i := 0 to |notes|
      invariant cmus == PostBoostCmus(notes[..i], boostHeight)
    {
      assert notes[..i + 1] == notes[..i] + [notes[i]];
      if !notes[i].spent && boostHeight < notes[i].height {
        cmus := cmus + {notes[i].cmu};
      }
      CmusExtend(notes, i, boostHeight);
    }
    assert notes[..|notes|] == notes;
  }

  lemma CmusExtend(notes: seq<S.Note>, i: nat, boostHeight: nat)
    requires i < |notes|
    ensures PostBoostCmus(notes[..i + 1], boostHeight)
         == PostBoostCmus(notes[..i], boostHeight) + if PostBoost(notes[i], boostHeight) then {notes[i].cmu} else {}
  {
    assert forall k :: 0 <= k < i ==> notes[..i + 1][k] == notes[..i][k];
    assert notes[..i + 1][i] == notes[i];
  }

  /**
   * Counted once: each transaction is recorded with the value of the notes it newly spends, the
   * matches are the notes newly spent, and looking again finds nothing.
   */
  ghost predicate CountedOnce(c: S.Crypto, before: seq<S.Note>, after: seq<S.Note>, spends: seq<S.Spend>,
                              marked: nat, totals: map<Bytes, (nat, nat)>)
  {
    && |after| == |before|
    && marked == S.NewlySpentCount(before, after)
    && (forall tx :: S.Total(totals, tx) == S.NewlySpent(before, after, tx))
    && S.SweepAll(c, after, spends) == S.Sweep(after, 0, map[])
  }

  lemma CountsOnce(c: S.Crypto, notes: seq<S.Note>, boostHeight: nat, positions: map<Bytes, nat>, spends: seq<S.Spend>)
    requires S.UniqueCmus(notes) && S.Injective(c) && S.OwnNullifiers(c, notes)
    ensures var w := S.SweepAll(c, S.RecomputedAll(c, notes, boostHeight, positions), spends);
            CountedOnce(c, notes, w.notes, spends, w.marked, w.totals)
  {
    hide S.Injective, S.OwnNullifiers, S.Unshared, S.RecomputedAll, S.SweepAll;
    var r := S.RecomputedAll(c, notes, boostHeight, positions);
    var w := S.SweepAll(c, r, spends);
    S.RecomputeSeparates(c, notes, boostHeight, positions, spends);
    S.CountIsExactWhenUnshared(c, r, spends);
    S.RecomputeKeepsSpent(c, notes, boostHeight, positions, w.notes);
    S.SecondSweepMarksNothing(c, r, spends, spends);
    forall tx ensures S.Total(w.totals, tx) == S.NewlySpent(notes, w.notes, tx) {
      S.TotalsAreExact(c, r, spends, tx);
    }
  }

  /** Recompute and recheck over the note table, against the tree loaded with any page size `limit`. */
  method Recheck(table: S.NoteTable, c: S.Crypto, boostHeight: nat, ghost boost: seq<Bytes>, boostCount: nat,
                 file: seq<DeltaStore.Record>, tip: nat, ghost limit: nat, spends: seq<S.Spend>)
    returns (marked: nat, totals: map<Bytes, (nat, nat)>)
    requires S.UniqueCmus(table.notes) && boostCount == |boost| && 0 < limit
    modifies table
    ensures var positions := PositionMap(DeltaStore.PagedRead(file, boostHeight + 1, tip, 0, CMU_PAGE),
                                         PostBoostCmus(old(table.notes), boostHeight), boostCount);
            S.Sweep(table.notes, marked, totals) ==
            S.SweepAll(c, S.RecomputedAll(c, old(table.notes), boostHeight, positions), spends)
    ensures limit == CMU_PAGE || Alike(file, boostHeight + 1, tip, CMU_PAGE, limit) ==>
              AllCaught(c, old(table.notes), table.notes, boostHeight,
                        BuiltLeaves(boost, file, boostHeight + 1, tip, limit), |boost|, spends)
    ensures S.Injective(c) && S.OwnNullifiers(c, old(table.notes)) ==>
              CountedOnce(c, old(table.notes), table.notes, spends, marked, totals)
  {
    hide LastAt, BuiltLeaves, PositionMap, DeltaStore.PagedRead, Readable, Alike;
    hide S.NullifierAt, S.RecomputedAll, S.Injective, S.OwnNullifiers, S.Unshared, S.Own, S.Caught, CountedOnce;
    var cmus := CollectCmus(table.notes, boostHeight);
    var positions := PositionPass(file, boostHeight + 1, tip, CMU_PAGE, cmus, boostCount);
    ghost var before := table.notes;
    table.Recompute(c, boostHeight, positions);
    marked, totals := table.Recheck(c, spends);
    if S.Injective(c) && S.OwnNullifiers(c, before) {
      CountsOnce(c, before, boostHeight, positions, spends);
    }
    if limit == CMU_PAGE || Alike(file, boostHeight + 1, tip, CMU_PAGE, limit) {
      if limit == CMU_PAGE {
        AlikeCases(file, boostHeight + 1, tip, CMU_PAGE, limit);
      }
      forall i, p | 0 <= i < |before| && PostBoost(before[i], boostHeight) && |boost| <= p
        && LastAt(BuiltLeaves(boost, file, boostHeight + 1, tip, limit), before[i].cmu, p)
        ensures S.Caught(c, before[i], table.notes[i], p, spends)
      {
        NoSpendMissed(c, before, boostHeight, boost, file, boostHeight + 1, tip, CMU_PAGE, limit, spends, i, p);
      }
    }
  }
}
