/**
 * Rebuilding the witnesses of all unspent notes by replaying leaves through the process-wide
 * tree (crates/zipherx-core/src/async_sync.rs: rebuild_witnesses_if_needed).
 *
 * If some note lies in the boost range, the boost outputs are replayed from an empty tree;
 * otherwise the serialized boost tree is loaded and only the delta is replayed.
 */
module WitnessRebuild {
  import opened Common
  import opened CommitmentTree
  import opened DeltaStore
  import opened DeltaLoad
  import opened FirstOccurrences
  import opened PageOrder
  import StableSort

  /** Shortest stored witness that counts as present, in bytes. */
  const MIN_WITNESS_LEN: nat := 100

  datatype Row = Row(cmu: Bytes, height: nat, position: Option<nat>, stored: Option<Witness>,
                     anchor: Option<Bytes>, spent: bool)

  /** The boost file: commitments of its outputs section, leaves of its tree section, manifest fields. */
  datatype Boost = Boost(outputs: seq<Bytes>, treeLeaves: seq<Bytes>, outputCount: nat, chainHeight: nat)

  /** Merkle root, serialized size of a witness, and the consistency check on it. */
  datatype Crypto = Crypto(root: seq<Bytes> -> Bytes, size: Witness -> nat, consistent: Witness -> bool)

  class WalletDb {
    var notes: seq<Row>
    var treeState: Option<seq<Bytes>>
    var treeHeight: nat

    /** `UNIQUE(cmu)` */
    ghost predicate UniqueCmus()
      reads this
    {
      forall i, j :: 0 <= i < j < |notes| ==> notes[i].cmu != notes[j].cmu
    }

    method UpdateWitness(id: nat, w: Witness, anchor: Bytes)
      requires id < |notes|
      modifies this`notes
      ensures notes == old(notes)[id := old(notes)[id].(stored := Some(w), anchor := Some(anchor))]
    {
      notes := notes[id := notes[id].(stored := Some(w))];
      notes := notes[id := notes[id].(anchor := Some(anchor))];
    }
  }

  // ---------------------------------------------------------------- the delta, sorted

  /** The records of `load_cmus_for_range(lo, u64::MAX)`, in file order. */
  function From(file: seq<Record>, lo: nat): seq<Record> {
    StableSort.Filter(Within(lo, U64_MAX), file)
  }

  /** That reader sorts them by height, then index. */
  function LoadFrom(file: seq<Record>, lo: nat): seq<Commitment> {
    StableSort.Map(CommitmentOf, StableSort.Sort(ChainOrder, From(file, lo)))
  }

  /** Of two records at one height, `e` has the lower index, or the same and comes first in the file. */
  predicate IndexBefore(file: seq<Record>, e: Record, d: Record) {
    e.index < d.index || (e.index == d.index && Before(file, e, d))
  }

  /** Some record of `x` comes before every record of `y` of that height. */
  ghost predicate LeadsByIndex(file: seq<Record>, x: Commitment, y: Commitment) {
    exists e :: e in file && CommitmentOf(e) == x && Ahead(file, e, y)
  }

  ghost predicate Ahead(file: seq<Record>, e: Record, y: Commitment) {
    forall d :: d in file && CommitmentOf(d) == y ==> IndexBefore(file, e, d)
  }

  lemma FromMembers(file: seq<Record>, lo: nat)
    requires forall r :: r in file ==> r.height <= U64_MAX
    ensures forall r :: r in StableSort.Sort(ChainOrder, From(file, lo)) <==> r in file && lo <= r.height
  {
    hide StableSort.Sort, StableSort.Filter;
    StableSort.FilterMembers(Within(lo, U64_MAX), file);
    SortMembers(ChainOrder, From(file, lo));
  }

  /** Two records in the order of that reader. */
  lemma RecordOrder(file: seq<Record>, lo: nat, e: Record, d: Record)
    requires forall r :: r in file ==> r.height <= U64_MAX
    requires e in file && d in file && lo <= e.height && lo <= d.height
    ensures Before(StableSort.Sort(ChainOrder, From(file, lo)), e, d)
       <==> e.height < d.height || (e.height == d.height && IndexBefore(file, e, d))
  {
    hide StableSort.Sort, StableSort.Filter, Before;
    ChainPreorder();
    StableSort.FilterMembers(Within(lo, U64_MAX), file);
    BeforeSort(ChainOrder, From(file, lo), e, d);
    BeforeFilter(Within(lo, U64_MAX), file, e, d);
  }

  /** Two commitments in that order. */
  lemma LoadOrder(file: seq<Record>, lo: nat, x: Commitment, y: Commitment)
    requires forall r :: r in file ==> r.height <= U64_MAX
    requires x in LoadFrom(file, lo) && y in LoadFrom(file, lo) && x != y
    ensures Before(LoadFrom(file, lo), x, y) <==> x.0 < y.0 || (x.0 == y.0 && LeadsByIndex(file, x, y))
  {
    hide StableSort.Sort, StableSort.Filter, Before, IndexBefore, From, Leads;
    var s := StableSort.Sort(ChainOrder, From(file, lo));
    BeforeMap(CommitmentOf, s, x, y);
    FromMembers(file, lo);
    SourceOf(s, x);
    SourceOf(s, y);
    forall e | e in s && CommitmentOf(e) == x
      ensures Leads(CommitmentOf, s, e, y) <==> x.0 < y.0 || (x.0 == y.0 && Ahead(file, e, y))
    {
      LeadsHere(file, lo, e, y);
    }
  }

  lemma SourceOf(s: seq<Record>, x: Commitment)
    requires x in StableSort.Map(CommitmentOf, s)
    ensures exists e :: e in s && CommitmentOf(e) == x
  {
    var i :| 0 <= i < |s| && StableSort.Map(CommitmentOf, s)[i] == x;
    assert s[i] in s;
  }

  lemma LeadsHere(file: seq<Record>, lo: nat, e: Record, y: Commitment)
    requires forall r :: r in file ==> r.height <= U64_MAX
    requires e in file && lo <= e.height && lo <= y.0 && exists d :: d in file && CommitmentOf(d) == y
    ensures Leads(CommitmentOf, StableSort.Sort(ChainOrder, From(file, lo)), e, y)
       <==> e.height < y.0 || (e.height == y.0 && Ahead(file, e, y))
  {
    hide StableSort.Sort, StableSort.Filter, Before, IndexBefore, From;
    FromMembers(file, lo);
    forall d | d in file && CommitmentOf(d) == y
      ensures Before(StableSort.Sort(ChainOrder, From(file, lo)), e, d)
         <==> e.height < y.0 || (e.height == y.0 && IndexBefore(file, e, d))
    {
      RecordOrder(file, lo, e, d);
    }
  }

  lemma LoadMembers(file: seq<Record>, lo: nat, hi: nat)
    requires hi <= U64_MAX && forall r :: r in file ==> r.height <= hi
    ensures forall c: Commitment :: c in LoadFrom(file, lo) <==> c in InRange(file, lo, hi)
  {
    hide StableSort.Sort, InRange, From;
    FromMembers(file, lo);
    InRangeMembers(file, lo, hi);
    var s := StableSort.Sort(ChainOrder, From(file, lo));
    forall c: Commitment ensures c in LoadFrom(file, lo) <==> c in InRange(file, lo, hi) {
      if c in LoadFrom(file, lo) {
        SourceOf(s, c);
      }
      if c in InRange(file, lo, hi) {
        var r :| r in file && In(r, lo, hi) && c == CommitmentOf(r);
        var i :| 0 <= i < |s| && s[i] == r;
        assert LoadFrom(file, lo)[i] == c;
      }
    }
  }

  /** In every block, commitments that are new later come later by index. */
  ghost predicate IndexAscending(file: seq<Record>, lo: nat, hi: nat) {
    forall i, j :: 0 <= i < j < |file| && New(file, lo, hi, i) && New(file, lo, hi, j)
                   && file[i].height == file[j].height
      ==> LeadsByIndex(file, CommitmentOf(file[i]), CommitmentOf(file[j]))
  }

  /**
   * This reader and the paged readers yield the same commitments in the same order, once each,
   * exactly if the file is readable at that page size and, within each block, in index order.
   */
  lemma SameRecordsAsPagedRead(file: seq<Record>, lo: nat, hi: nat, limit: nat)
    requires 0 < limit && hi <= U64_MAX && forall r :: r in file ==> r.height <= hi
    ensures Dedup(LoadFrom(file, lo)) == Dedup(PagedRead(file, lo, hi, 0, limit)) <==>
            Readable(file, lo, hi, limit) && IndexAscending(file, lo, hi)
  {
    hide *;
    var a, b := LoadFrom(file, lo), PagedRead(file, lo, hi, 0, limit);
    if Dedup(a) == Dedup(b) {
      SameMeansReadable(file, lo, hi, limit);
    }
    if Readable(file, lo, hi, limit) && IndexAscending(file, lo, hi) {
      ReadableMeansSame(file, lo, hi, limit);
    }
  }

  lemma SameMeansReadable(file: seq<Record>, lo: nat, hi: nat, limit: nat)
    requires 0 < limit && hi <= U64_MAX && forall r :: r in file ==> r.height <= hi
    requires Dedup(LoadFrom(file, lo)) == Dedup(PagedRead(file, lo, hi, 0, limit))
    ensures Readable(file, lo, hi, limit) && IndexAscending(file, lo, hi)
  {
    hide LoadFrom, PagedRead, Dedup, Before, New, Reached, In, LeadsByIndex, InRange;
    SameDedup(PagedRead(file, lo, hi, 0, limit), LoadFrom(file, lo));
    forall j | 0 <= j < |file| && New(file, lo, hi, j)
      ensures Reached(file, lo, hi, limit, j) && CommitmentOf(file[j]) in LoadFrom(file, lo)
    {
      PlaceOfNew(file, lo, hi, j, |file|);
      assert file[..|file|] == file;
      LoadMembers(file, lo, hi);
      NewIsRead(file, lo, hi, limit, j);
    }
    forall i, j | 0 <= i < j < |file| && New(file, lo, hi, i) && New(file, lo, hi, j)
      ensures file[j].height < file[i].height ==> i / limit == j / limit
      ensures file[j].height == file[i].height ==> LeadsByIndex(file, CommitmentOf(file[i]), CommitmentOf(file[j]))
    {
      NewOrder(file, lo, hi, limit, i, j);
      NewIsRead(file, lo, hi, limit, j);
      LoadOrder(file, lo, CommitmentOf(file[i]), CommitmentOf(file[j]));
    }
    forall i: nat, j: nat | Late(file, lo, hi, i, j) ensures i / limit == j / limit {
      LatePlace(file, lo, hi, i, j);
      if In(file[i], lo, hi) {
        var k := LateForNew(file, lo, hi, i, j);
        SamePage(k, i, j, limit);
      } else {
        ReachedPlace(file, lo, hi, limit, i, j);
      }
    }
  }

  lemma LatePlace(file: seq<Record>, lo: nat, hi: nat, i: nat, j: nat)
    requires Late(file, lo, hi, i, j)
    ensures i < j < |file| && New(file, lo, hi, j) && (In(file[i], lo, hi) ==> file[j].height < file[i].height)
  {
  }

  lemma ReachedPlace(file: seq<Record>, lo: nat, hi: nat, limit: nat, i: nat, j: nat)
    requires 0 < limit && i < j < |file| && Reached(file, lo, hi, limit, j) && !In(file[i], lo, hi)
    ensures i / limit == j / limit
  {
  }

  lemma ReadableMeansSame(file: seq<Record>, lo: nat, hi: nat, limit: nat)
    requires 0 < limit && hi <= U64_MAX && forall r :: r in file ==> r.height <= hi
    requires Readable(file, lo, hi, limit) && IndexAscending(file, lo, hi)
    ensures Dedup(LoadFrom(file, lo)) == Dedup(PagedRead(file, lo, hi, 0, limit))
  {
    hide LoadFrom, PagedRead, Dedup, Before, New, Reached, In, LeadsByIndex, InRange, Delta, SortByHeight;
    var a, b := LoadFrom(file, lo), PagedRead(file, lo, hi, 0, limit);
    LoadMembers(file, lo, hi);
    ReadableExactly(file, lo, hi, limit);
    DeltaMembers(file, lo, hi);
    forall c: Commitment ensures c in a <==> c in b {
      DedupMember(b, c);
    }
    forall x, y | x in b && y in b && Before(b, x, y) ensures Before(a, x, y) {
      var i := ReadWasNew(file, lo, hi, limit, x);
      var j := ReadWasNew(file, lo, hi, limit, y);
      BeforeMembers(b, x, y);
      LoadOrder(file, lo, x, y);
      if i < j {
        NewOrder(file, lo, hi, limit, i, j);
        assert file[j].height < file[i].height ==> Late(file, lo, hi, i, j);
      } else {
        NewOrder(file, lo, hi, limit, j, i);
      }
    }
    SameDedup(b, a);
  }

  // ---------------------------------------------------------------- when to rebuild

  predicate Missing(r: Row, c: Crypto) {
    r.stored.None? || c.size(r.stored.value) < MIN_WITNESS_LEN
  }

  predicate Anchored(r: Row) {
    r.anchor.Some? && |r.anchor.value| == HASH_LEN
  }

  ghost predicate NeedsRebuild(rows: seq<Row>, c: Crypto) {
    || (exists i :: 0 <= i < |rows| && !rows[i].spent && Missing(rows[i], c))
    || (exists i, j :: 0 <= i < j < |rows| && !rows[i].spent && !rows[j].spent
                       && Anchored(rows[i]) && Anchored(rows[j]) && rows[i].anchor != rows[j].anchor)
  }

  /**
   * An unspent note has no witness or one shorter than 100 bytes, or two unspent notes have
   * different 32-byte anchors.
   */
  method CheckNotes(rows: seq<Row>, c: Crypto) returns (needs: bool)
    ensures needs <==> NeedsRebuild(rows, c)
    ensures needs <==>
              || (exists r :: r in rows && !r.spent && (r.stored.None? || c.size(r.stored.value) < 100))
              || (exists q, r :: q in rows && r in rows && !q.spent && !r.spent && q.anchor.Some? && r.anchor.Some?
                                 && |q.anchor.value| == 32 == |r.anchor.value| && q.anchor != r.anchor)
  {
    var missing, differ := false, false;
    var first: Option<Bytes> := None;
    ghost var f := 0;
    for i := 0 to |rows|
      invariant missing <==> exists k :: 0 <= k < i && !rows[k].spent && Missing(rows[k], c)
      invariant first.None? <==> forall k :: 0 <= k < i && !rows[k].spent ==> !Anchored(rows[k])
      invariant first.Some? ==> f < i && !rows[f].spent && Anchored(rows[f]) && rows[f].anchor == first
      invariant first.Some? ==> (forall k :: 0 <= k < f && !rows[k].spent ==> !Anchored(rows[k]))
      invariant differ <==> exists k :: 0 <= k < i && !rows[k].spent && Anchored(rows[k]) && rows[k].anchor != first
    {
      if !rows[i].spent {
        missing := missing || Missing(rows[i], c);
        if Anchored(rows[i]) {
          if first.Some? {
            differ := differ || first != rows[i].anchor;
          } else {
            first, f := rows[i].anchor, i;
          }
        }
      }
    }
    WantsRebuild(rows, c);
    return missing || differ;
  }

  lemma WantsRebuild(rows: seq<Row>, c: Crypto)
    ensures NeedsRebuild(rows, c) <==>
              || (exists r :: r in rows && !r.spent && (r.stored.None? || c.size(r.stored.value) < 100))
              || (exists q, r :: q in rows && r in rows && !q.spent && !r.spent && q.anchor.Some? && r.anchor.Some?
                                 && |q.anchor.value| == 32 == |r.anchor.value| && q.anchor != r.anchor)
  {
    if r :| r in rows && !r.spent && (r.stored.None? || c.size(r.stored.value) < 100) {
      var i :| 0 <= i < |rows| && rows[i] == r;
      assert Missing(rows[i], c);
    }
    if q, r :| q in rows && r in rows && !q.spent && !r.spent && q.anchor.Some? && r.anchor.Some?
               && |q.anchor.value| == 32 == |r.anchor.value| && q.anchor != r.anchor {
      var i :| 0 <= i < |rows| && rows[i] == q;
      var j :| 0 <= j < |rows| && rows[j] == r;
      assert Anchored(rows[i]) && Anchored(rows[j]);
    }
  }

  /** Some unspent note may lie among the boost outputs. */
  ghost predicate HasBoostNotes(rows: seq<Row>, b: Boost) {
    exists i :: 0 <= i < |rows| && !rows[i].spent && InBoost(rows[i], b)
  }

  predicate InBoost(r: Row, b: Boost) {
    match r.position
    case Some(p) => p < b.outputCount
    case None => r.height <= b.chainHeight
  }

  method CheckBoostNotes(rows: seq<Row>, b: Boost) returns (has: bool)
    ensures has <==> HasBoostNotes(rows, b)
  {
    has := false;
    for i := 0 to |rows|
      invariant has <==> exists k :: 0 <= k < i && !rows[k].spent && InBoost(rows[k], b)
    {
      has := has || (!rows[i].spent && InBoost(rows[i], b));
    }
  }

  predicate Wanted(r: Row) {
    !r.spent && |r.cmu| == HASH_LEN
  }

  ghost predicate Indexes(ids: map<Bytes, nat>, rows: seq<Row>) {
    && (forall c :: c in ids ==> ids[c] < |rows| && rows[ids[c]].cmu == c && Wanted(rows[ids[c]]))
    && (forall i :: 0 <= i < |rows| && Wanted(rows[i]) ==> rows[i].cmu in ids)
  }

  method IndexNotes(rows: seq<Row>) returns (ids: map<Bytes, nat>)
    ensures Indexes(ids, rows)
  {
    ids := map[];
    for i := 0 to |rows|
      invariant forall c :: c in ids ==> ids[c] < i && rows[ids[c]].cmu == c && Wanted(rows[ids[c]])
      invariant forall k :: 0 <= k < i && Wanted(rows[k]) ==> rows[k].cmu in ids
    {
      if !rows[i].spent && |rows[i].cmu| == HASH_LEN {
        ids := ids[rows[i].cmu := i];
      }
    }
  }

  // ---------------------------------------------------------------- replaying leaves

  /** Where the replay starts, and the leaves it replays. */
  datatype Replay = Replay(base: seq<Bytes>, leaves: seq<Bytes>)

  function DeltaLeaves(file: seq<Record>, b: Boost): seq<Bytes> {
    Cmus(Dedup(LoadFrom(file, b.chainHeight + 1)))
  }

  function BoostReplay(file: seq<Record>, b: Boost): Replay {
    Replay([], b.outputs + DeltaLeaves(file, b))
  }

  function DeltaReplay(file: seq<Record>, b: Boost): Replay {
    Replay(b.treeLeaves, DeltaLeaves(file, b))
  }

  ghost function ReplayFor(rows: seq<Row>, file: seq<Record>, b: Boost): Replay {
    if HasBoostNotes(rows, b) then BoostReplay(file, b) else DeltaReplay(file, b)
  }

  function Final(r: Replay): seq<Bytes> {
    r.base + r.leaves
  }

  /**
   * Every witness follows the whole tree; every mark names a replayed leaf of ours with a
   * witness at such a leaf, no leaf twice; every replayed commitment of ours is marked.
   */
  ghost predicate Marked(tree: Tree, marks: seq<(Bytes, nat)>, notes: set<Bytes>, base: seq<Bytes>, added: seq<Bytes>)
    reads tree
  {
    && tree.leaves == base + added && GoodMarks(tree.leaves, tree.witnesses, marks, notes, added, |tree.leaves|)
    && (forall c :: c in added && c in notes ==> HasMark(marks, c))
  }

  /** Marked positions ascend, and are all below `bound`. */
  ghost predicate GoodMarks(leaves: seq<Bytes>, witnesses: seq<Witness>, marks: seq<(Bytes, nat)>, notes: set<Bytes>,
                            added: seq<Bytes>, bound: nat)
  {
    && (forall i :: 0 <= i < |witnesses| ==> witnesses[i].path == leaves && witnesses[i].position < |leaves|)
    && (forall i :: 0 <= i < |marks| ==>
          && marks[i].0 in notes && marks[i].0 in added && marks[i].1 < |witnesses|
          && witnesses[marks[i].1].position < bound && leaves[witnesses[marks[i].1].position] == marks[i].0)
    && (forall i, j :: 0 <= i < j < |marks| ==>
          witnesses[marks[i].1].position < witnesses[marks[j].1].position)
  }

  lemma LeafAppended(leaves: seq<Bytes>, witnesses: seq<Witness>, marks: seq<(Bytes, nat)>, notes: set<Bytes>,
                     added: seq<Bytes>, cmu: Bytes)
    requires GoodMarks(leaves, witnesses, marks, notes, added, |leaves|)
    ensures GoodMarks(leaves + [cmu], Absorb(witnesses, [cmu]), marks, notes, added + [cmu], |leaves|)
    ensures GoodMarks(leaves + [cmu], Absorb(witnesses, [cmu]), marks, notes, added + [cmu], |leaves| + 1)
  {
  }

  lemma LeafMarked(leaves: seq<Bytes>, witnesses: seq<Witness>, marks: seq<(Bytes, nat)>, notes: set<Bytes>,
                   added: seq<Bytes>, cmu: Bytes)
    requires leaves != [] && leaves[|leaves| - 1] == cmu && cmu in notes && cmu in added
    requires GoodMarks(leaves, witnesses, marks, notes, added, |leaves| - 1)
    ensures GoodMarks(leaves, witnesses + [Witness(|leaves| - 1, leaves)], marks + [(cmu, |witnesses|)], notes, added,
                      |leaves|)
  {
    var marks', witnesses' := marks + [(cmu, |witnesses|)], witnesses + [Witness(|leaves| - 1, leaves)];
    assert forall i :: 0 <= i < |marks| ==> marks'[i] == marks[i] && witnesses'[marks[i].1] == witnesses[marks[i].1];
  }

  predicate HasMark(marks: seq<(Bytes, nat)>, c: Bytes) {
    exists i :: 0 <= i < |marks| && marks[i].0 == c
  }

  /** Appends one leaf; `again` says whether a leaf that already has a witness gets another one. */
  method ReplayLeaf(tree: Tree, cmu: Bytes, notes: set<Bytes>, again: bool, marks: seq<(Bytes, nat)>,
                    ghost base: seq<Bytes>, ghost added: seq<Bytes>)
    returns (marks': seq<(Bytes, nat)>)
    requires Marked(tree, marks, notes, base, added)
    modifies tree
    ensures Marked(tree, marks', notes, base, added + [cmu])
    ensures tree.position == old(tree.position) + 1
  {
    hide GoodMarks, HasMark;
    marks' := marks;
    LeafAppended(tree.leaves, tree.witnesses, marks, notes, added, cmu);
    tree.Append(cmu);
    assert tree.leaves == base + (added + [cmu]);
    if cmu in notes && (again || !HasMark(marks, cmu)) {
      LeafMarked(tree.leaves, tree.witnesses, marks, notes, added + [cmu], cmu);
      var idx := tree.WitnessCurrent();
      marks' := marks + [(cmu, idx)];
      MarkAdded(marks, cmu, idx);
    }
  }

  lemma MarkAdded(marks: seq<(Bytes, nat)>, cmu: Bytes, idx: nat)
    ensures forall c :: HasMark(marks, c) || c == cmu ==> HasMark(marks + [(cmu, idx)], c)
  {
    var marks' := marks + [(cmu, idx)];
    assert marks'[|marks|].0 == cmu;
    forall c | HasMark(marks, c) ensures HasMark(marks', c) {
      var i :| 0 <= i < |marks| && marks[i].0 == c;
      assert marks'[i].0 == c;
    }
  }

  lemma SomeIndexed(ids: map<Bytes, nat>, rows: seq<Row>)
    requires Indexes(ids, rows)
    ensures ids != map[] <==> exists i :: 0 <= i < |rows| && Wanted(rows[i])
  {
    if ids != map[] {
      var c :| c in ids;
      assert Wanted(rows[ids[c]]);
    }
  }

  method ReplayOutputs(tree: Tree, outputs: seq<Bytes>, notes: set<Bytes>) returns (marks: seq<(Bytes, nat)>)
    requires tree.leaves == [] && tree.witnesses == []
    modifies tree
    ensures Marked(tree, marks, notes, [], outputs) && tree.position == old(tree.position) + |outputs|
  {
    hide Marked, HasMark;
    marks := [];
    NothingMarked(tree, notes, []);
    assert outputs[..0] == [];
    for i := 0 to |outputs|
      invariant Marked(tree, marks, notes, [], outputs[..i]) && tree.position == old(tree.position) + i
    {
      assert outputs[..i + 1] == outputs[..i] + [outputs[i]];
      marks := ReplayLeaf(tree, outputs[i], notes, true, marks, [], outputs[..i]);
    }
    assert outputs[..|outputs|] == outputs;
  }

  lemma NothingMarked(tree: Tree, notes: set<Bytes>, base: seq<Bytes>)
    requires tree.leaves == base && tree.witnesses == []
    ensures Marked(tree, [], notes, base, [])
  {
    assert base + [] == base;
  }

  /** The deduplicated delta, on top of whatever has been replayed. */
  method ReplayDelta(tree: Tree, delta: seq<Commitment>, notes: set<Bytes>, again: bool, marks0: seq<(Bytes, nat)>,
                     ghost base: seq<Bytes>, ghost added: seq<Bytes>)
    returns (marks: seq<(Bytes, nat)>)
    requires Marked(tree, marks0, notes, base, added)
    modifies tree
    ensures Marked(tree, marks, notes, base, added + Cmus(Dedup(delta)))
    ensures tree.position == old(tree.position) + |Dedup(delta)|
  {
    hide Marked, HasMark, Dedup;
    marks := marks0;
    var seen: set<Commitment> := {};
    NothingReplayed(added);
    assert delta[..0] == [];
    for i := 0 to |delta|
      invariant Seen(seen, delta[..i])
      invariant Marked(tree, marks, notes, base, added + Cmus(Dedup(delta[..i])))
      invariant tree.position == old(tree.position) + |Dedup(delta[..i])|
    {
      ghost var before := delta[..i];
      ghost var have := Cmus(Dedup(before));
      assert delta[..i + 1] == before + [delta[i]];
      DedupExtend(before, delta[i]);
      if delta[i] !in seen {
        seen := seen + {delta[i]};
        assert Cmus(Dedup(before) + [delta[i]]) == have + [delta[i].1];
        assert added + (have + [delta[i].1]) == added + have + [delta[i].1];
        marks := ReplayLeaf(tree, delta[i].1, notes, again, marks, base, added + have);
      }
    }
    assert delta[..|delta|] == delta;
  }

  lemma NothingReplayed(added: seq<Bytes>)
    ensures added + Cmus(Dedup([])) == added && |Dedup<Commitment>([])| == 0
  {
  }

  /**
   * `leaves` is `base` followed by the commitments of the records above a height: each once, by
   * height and index, and as a paged load of them wherever the file is readable by pages.
   */
  ghost predicate ReplayedOver(leaves: seq<Bytes>, base: seq<Bytes>, file: seq<Record>, above: nat) {
    && base <= leaves
    && (forall c: Bytes ::
          c in leaves[|base|..] <==> exists r :: r in file && above < r.height <= U64_MAX && r.cmu == c)
    && (forall hi: nat, limit: nat :: 0 < limit && ReadByPages(file, above, hi, limit) ==>
          leaves == base + Cmus(Dedup(PagedRead(file, above + 1, hi, 0, limit))))
  }

  /** All records are at most at `hi`; those above `above` are readable by pages, and within a block in index order. */
  ghost predicate ReadByPages(file: seq<Record>, above: nat, hi: nat, limit: nat)
    requires 0 < limit
  {
    && hi <= U64_MAX && (forall r :: r in file ==> r.height <= hi)
    && Readable(file, above + 1, hi, limit) && IndexAscending(file, above + 1, hi)
  }

  lemma FromIs(file: seq<Record>, lo: nat)
    ensures forall r :: r in StableSort.Sort(ChainOrder, From(file, lo)) <==> r in file && lo <= r.height <= U64_MAX
  {
    hide StableSort.Sort, StableSort.Filter;
    StableSort.FilterMembers(Within(lo, U64_MAX), file);
    SortMembers(ChainOrder, From(file, lo));
  }

  lemma LoadedCmus(file: seq<Record>, lo: nat, c: Bytes)
    ensures c in Cmus(Dedup(LoadFrom(file, lo))) <==> exists r :: r in file && lo <= r.height <= U64_MAX && r.cmu == c
  {
    hide StableSort.Sort, From, Dedup;
    var s := StableSort.Sort(ChainOrder, From(file, lo));
    var all := LoadFrom(file, lo);
    var d := Dedup(all);
    FromIs(file, lo);
    if c in Cmus(d) {
      var i :| 0 <= i < |d| && Cmus(d)[i] == c;
      DedupMember(all, d[i]);
      SourceOf(s, d[i]);
    }
    if r :| r in file && lo <= r.height <= U64_MAX && r.cmu == c {
      var i :| 0 <= i < |s| && s[i] == r;
      assert all[i] == CommitmentOf(r);
      DedupMember(all, all[i]);
      var j :| 0 <= j < |d| && d[j] == all[i];
      assert Cmus(d)[j] == c;
    }
  }

  /** The delta replayed over any base. */
  lemma DeltaReplayed(base: seq<Bytes>, file: seq<Record>, b: Boost)
    ensures ReplayedOver(base + DeltaLeaves(file, b), base, file, b.chainHeight)
  {
    hide LoadFrom, Dedup, Readable, IndexAscending, PagedRead;
    var leaves := base + DeltaLeaves(file, b);
    assert leaves[|base|..] == DeltaLeaves(file, b);
    forall c: Bytes
      ensures c in leaves[|base|..] <==> exists r :: r in file && b.chainHeight < r.height <= U64_MAX && r.cmu == c
    {
      LoadedCmus(file, b.chainHeight + 1, c);
    }
    forall hi: nat, limit: nat | 0 < limit && ReadByPages(file, b.chainHeight, hi, limit)
      ensures leaves == base + Cmus(Dedup(PagedRead(file, b.chainHeight + 1, hi, 0, limit)))
    {
      SameRecordsAsPagedRead(file, b.chainHeight + 1, hi, limit);
    }
  }

  method ReplayLeaves(tree: Tree, boost: Boost, file: seq<Record>, notes: set<Bytes>, fromBoost: bool)
    returns (marks: seq<(Bytes, nat)>)
    modifies tree
    ensures var r := if fromBoost then BoostReplay(file, boost) else DeltaReplay(file, boost);
            Marked(tree, marks, notes, r.base, r.leaves) && tree.leaves == Final(r)
    ensures ReplayedOver(tree.leaves, if fromBoost then boost.outputs else boost.treeLeaves, file, boost.chainHeight)
    ensures tree.position == (if fromBoost then |boost.outputs| else boost.outputCount) + |DeltaLeaves(file, boost)|
    ensures fromBoost || |boost.treeLeaves| == boost.outputCount ==> tree.position == |tree.leaves|
  {
    DeltaReplayed(if fromBoost then boost.outputs else boost.treeLeaves, file, boost);
    hide Marked, LoadFrom, ReplayedOver;
    var delta := LoadFrom(file, boost.chainHeight + 1);
    if fromBoost {
      tree.Init();
      marks := ReplayOutputs(tree, boost.outputs, notes);
      marks := ReplayDelta(tree, delta, notes, false, marks, [], boost.outputs);
      MarkedLeaves(tree, marks, notes, [], boost.outputs + DeltaLeaves(file, boost));
    } else {
      tree.Deserialize(boost.treeLeaves);
      tree.SetPosition(boost.outputCount);
      tree.ClearWitnesses();
      NothingMarked(tree, notes, boost.treeLeaves);
      marks := ReplayDelta(tree, delta, notes, true, [], boost.treeLeaves, []);
      assert [] + DeltaLeaves(file, boost) == DeltaLeaves(file, boost);
      MarkedLeaves(tree, marks, notes, boost.treeLeaves, DeltaLeaves(file, boost));
    }
  }

  lemma MarkedLeaves(tree: Tree, marks: seq<(Bytes, nat)>, notes: set<Bytes>, base: seq<Bytes>, added: seq<Bytes>)
    requires Marked(tree, marks, notes, base, added)
    ensures tree.leaves == base + added && (base == [] ==> tree.leaves == added)
  {
    assert [] + added == added;
  }

  // ---------------------------------------------------------------- storing the witnesses

  /** `r'` is `r` with a consistent witness at one of its own leaves, and the anchor of the whole tree. */
  ghost predicate Refreshed(r: Row, r': Row, leaves: seq<Bytes>, c: Crypto) {
    exists p :: 0 <= p < |leaves| && leaves[p] == r.cmu && c.consistent(Witness(p, leaves))
                && r' == r.(stored := Some(Witness(p, leaves)), anchor := Some(c.root(leaves)))
  }

  ghost predicate AllConsistent(leaves: seq<Bytes>, c: Crypto) {
    forall p :: 0 <= p < |leaves| ==> c.consistent(Witness(p, leaves))
  }

  /** Rows are kept or refreshed; unwanted and unfound ones are kept. */
  ghost predicate KeptOrRefreshed(rows: seq<Row>, rows': seq<Row>, r: Replay, c: Crypto) {
    && |rows'| == |rows|
    && forall i :: 0 <= i < |rows| ==>
         || rows'[i] == rows[i]
         || (Wanted(rows[i]) && rows[i].cmu in r.leaves && Refreshed(rows[i], rows'[i], Final(r), c))
  }

  /** The outcome of a rebuild: every wanted note that was found has a fresh witness and anchor. */
  ghost predicate Rebuilt(rows: seq<Row>, rows': seq<Row>, r: Replay, c: Crypto) {
    && KeptOrRefreshed(rows, rows', r, c)
    && (AllConsistent(Final(r), c) ==>
          forall i :: 0 <= i < |rows| && Wanted(rows[i]) && rows[i].cmu in r.leaves ==>
            Refreshed(rows[i], rows'[i], Final(r), c))
  }

  /** After storing the marks of commitments `done`. */
  ghost predicate Stored(rows: seq<Row>, rows': seq<Row>, done: set<Bytes>, r: Replay, c: Crypto) {
    && KeptOrRefreshed(rows, rows', r, c)
    && (AllConsistent(Final(r), c) ==>
          forall i :: 0 <= i < |rows| && rows[i].cmu in done ==> Refreshed(rows[i], rows'[i], Final(r), c))
  }

  ghost predicate SomeRefreshed(rows: seq<Row>, rows': seq<Row>, r: Replay, c: Crypto) {
    |rows'| == |rows| && exists i :: 0 <= i < |rows| && Wanted(rows[i]) && Refreshed(rows[i], rows'[i], Final(r), c)
  }

  lemma StoreOne(rows: seq<Row>, rows': seq<Row>, done: set<Bytes>, r: Replay, c: Crypto, id: nat, w: Witness)
    requires Stored(rows, rows', done, r, c) && id < |rows| && Wanted(rows[id])
    requires forall i :: 0 <= i < |rows| && rows[i].cmu == rows[id].cmu ==> i == id
    requires rows[id].cmu in r.leaves && w.path == Final(r)
    requires w.position < |w.path| && w.path[w.position] == rows[id].cmu
    ensures c.consistent(w) ==>
              Stored(rows, rows'[id := rows'[id].(stored := Some(w), anchor := Some(c.root(w.path)))],
                     done + {rows[id].cmu}, r, c)
    ensures c.consistent(w) ==>
              SomeRefreshed(rows, rows'[id := rows'[id].(stored := Some(w), anchor := Some(c.root(w.path)))], r, c)
    ensures !c.consistent(w) ==> Stored(rows, rows', done + {rows[id].cmu}, r, c)
  {
    var leaves := Final(r);
    assert w == Witness(w.position, leaves);
    if c.consistent(w) {
      var newRow := rows'[id].(stored := Some(w), anchor := Some(c.root(leaves)));
      assert newRow == rows[id].(stored := Some(w), anchor := Some(c.root(leaves)));
      assert Refreshed(rows[id], newRow, leaves, c);
    }
  }

  /** Which of the first `n` marks have a consistent witness. */
  ghost function ConsistentMarks(marks: seq<(Bytes, nat)>, witnesses: seq<Witness>, c: Crypto, n: nat): set<nat>
    requires n <= |marks| && forall k :: 0 <= k < n ==> marks[k].1 < |witnesses|
  {
    set k: nat | k < n && c.consistent(witnesses[marks[k].1])
  }

  lemma NoneConsistent(marks: seq<(Bytes, nat)>, witnesses: seq<Witness>, c: Crypto)
    ensures ConsistentMarks(marks, witnesses, c, 0) == {}
  {
  }

  lemma NextConsistent(marks: seq<(Bytes, nat)>, witnesses: seq<Witness>, c: Crypto, n: nat)
    requires n < |marks| && forall k :: 0 <= k <= n ==> marks[k].1 < |witnesses|
    ensures |ConsistentMarks(marks, witnesses, c, n + 1)|
         == |ConsistentMarks(marks, witnesses, c, n)| + if c.consistent(witnesses[marks[n].1]) then 1 else 0
  {
    var was := ConsistentMarks(marks, witnesses, c, n);
    assert ConsistentMarks(marks, witnesses, c, n + 1)
        == if c.consistent(witnesses[marks[n].1]) then was + {n} else was;
  }

  method StoreWitnesses(db: WalletDb, tree: Tree, marks: seq<(Bytes, nat)>, ids: map<Bytes, nat>, c: Crypto,
                        ghost r: Replay)
    returns (updated: nat)
    requires db.UniqueCmus() && Indexes(ids, db.notes)
    requires Marked(tree, marks, ids.Keys, r.base, r.leaves)
    modifies db`notes
    ensures Rebuilt(old(db.notes), db.notes, r, c)
    ensures updated == 0 ==> db.notes == old(db.notes)
    ensures updated > 0 ==> SomeRefreshed(old(db.notes), db.notes, r, c)
    ensures updated == |ConsistentMarks(marks, tree.witnesses, c, |marks|)|
  {
    hide Refreshed, HasMark, AllConsistent, Wanted, DeltaLeaves, SomeRefreshed, ConsistentMarks;
    ghost var rows := db.notes;
    ghost var done: set<Bytes> := {};
    updated := 0;
    NoneConsistent(marks, tree.witnesses, c);
    for k := 0 to |marks|
      invariant Stored(rows, db.notes, done, r, c)
      invariant forall i :: 0 <= i < k ==> marks[i].0 in done
      invariant updated == 0 ==> db.notes == rows
      invariant updated > 0 ==> SomeRefreshed(rows, db.notes, r, c)
      invariant updated == |ConsistentMarks(marks, tree.witnesses, c, k)|
    {
      NextConsistent(marks, tree.witnesses, c, k);
      var w := tree.witnesses[marks[k].1];
      var id := ids[marks[k].0];
      StoreOne(rows, db.notes, done, r, c, id, w);
      if c.consistent(w) {
        db.UpdateWitness(id, w, c.root(w.path));
        updated := updated + 1;
      }
      done := done + {marks[k].0};
    }
    forall i | 0 <= i < |rows| && Wanted(rows[i]) && rows[i].cmu in r.leaves ensures rows[i].cmu in done {
      FindMark(marks, rows[i].cmu);
    }
  }

  lemma FindMark(marks: seq<(Bytes, nat)>, c: Bytes)
    requires HasMark(marks, c)
    ensures exists i :: 0 <= i < |marks| && marks[i].0 == c
  {
  }

  // ---------------------------------------------------------------- the whole operation

  /** A rebuild runs to completion: it is needed, some unspent note can be looked for, and the boost file is there. */
  ghost predicate Runs(rows: seq<Row>, boost: Option<Boost>, c: Crypto) {
    NeedsRebuild(rows, c) && (exists i :: 0 <= i < |rows| && Wanted(rows[i])) && boost.Some?
  }

  /** Some unspent note is below the boost count, or has no position and is not above the boost height. */
  ghost predicate BelowBoost(rows: seq<Row>, b: Boost) {
    exists r :: r in rows && !r.spent
                && if r.position.Some? then r.position.value < b.outputCount else r.height <= b.chainHeight
  }

  /**
   * The rows after a rebuild. Over the boost outputs if some unspent note may be among them, and over
   * the boost tree otherwise, the delta was replayed; unspent notes whose commitment was replayed got
   * a witness at a leaf of their own commitment, and the root as anchor, as far as the witness is
   * consistent; all other rows, and all other fields, are kept.
   */
  ghost predicate RebuiltFrom(rows: seq<Row>, rows': seq<Row>, file: seq<Record>, b: Boost, c: Crypto) {
    |rows'| == |rows| && exists leaves :: RebuiltOver(rows, rows', leaves, file, b, c)
  }

  ghost predicate RebuiltOver(rows: seq<Row>, rows': seq<Row>, leaves: seq<Bytes>, file: seq<Record>, b: Boost,
                              c: Crypto)
    requires |rows'| == |rows|
  {
    && ReplayedOver(leaves, if BelowBoost(rows, b) then b.outputs else b.treeLeaves, file, b.chainHeight)
    && (forall i :: 0 <= i < |rows| ==>
          rows'[i] == rows[i]
          || (!rows[i].spent && |rows[i].cmu| == 32 && Refreshed(rows[i], rows'[i], leaves, c)))
    && (AllConsistent(leaves, c) ==>
          forall i :: 0 <= i < |rows| && !rows[i].spent && |rows[i].cmu| == 32
                      && ((BelowBoost(rows, b) && rows[i].cmu in b.outputs)
                          || InFile(file, b.chainHeight, rows[i].cmu))
                      ==> Refreshed(rows[i], rows'[i], leaves, c))
  }

  predicate InFile(file: seq<Record>, above: nat, cmu: Bytes) {
    exists r :: r in file && above < r.height <= U64_MAX && r.cmu == cmu
  }

  lemma RebuiltIs(rows: seq<Row>, rows': seq<Row>, file: seq<Record>, b: Boost, c: Crypto)
    requires Rebuilt(rows, rows', ReplayFor(rows, file, b), c)
    ensures RebuiltFrom(rows, rows', file, b, c)
  {
    hide Refreshed, AllConsistent, LoadFrom, ReplayedOver, BelowBoost, HasBoostNotes, InFile, DeltaLeaves;
    var r := ReplayFor(rows, file, b);
    BoostNotesAre(rows, b);
    var base := if BelowBoost(rows, b) then b.outputs else b.treeLeaves;
    DeltaReplayed(base, file, b);
    assert Final(r) == base + DeltaLeaves(file, b);
    forall cmu | InFile(file, b.chainHeight, cmu) ensures cmu in r.leaves {
      InFileReplayed(file, b, cmu);
    }
    assert RebuiltOver(rows, rows', Final(r), file, b, c);
  }

  lemma InFileReplayed(file: seq<Record>, b: Boost, cmu: Bytes)
    requires InFile(file, b.chainHeight, cmu)
    ensures cmu in DeltaLeaves(file, b)
  {
    hide LoadFrom;
    LoadedCmus(file, b.chainHeight + 1, cmu);
  }

  lemma BoostNotesAre(rows: seq<Row>, b: Boost)
    ensures HasBoostNotes(rows, b) <==> BelowBoost(rows, b)
  {
    if r :| r in rows && !r.spent
            && if r.position.Some? then r.position.value < b.outputCount else r.height <= b.chainHeight
    {
      var i :| 0 <= i < |rows| && rows[i] == r;
      assert InBoost(rows[i], b);
    }
  }

  method Rebuild(db: WalletDb, tree: Tree, boost: Option<Boost>, file: seq<Record>, c: Crypto) returns (updated: nat)
    requires db.UniqueCmus()
    modifies db`notes, tree
    ensures !Runs(old(db.notes), boost, c) ==>
              updated == 0 && db.notes == old(db.notes)
              && tree.leaves == old(tree.leaves) && tree.position == old(tree.position)
              && tree.witnesses == old(tree.witnesses)
    ensures Runs(old(db.notes), boost, c) ==>
              && Rebuilt(old(db.notes), db.notes, ReplayFor(old(db.notes), file, boost.value), c)
              && RebuiltFrom(old(db.notes), db.notes, file, boost.value, c)
              && (db.treeState.Some? ==> tree.leaves == db.treeState.value && tree.position == db.treeHeight)
              && (db.treeState.None? ==>
                    tree.leaves == Final(ReplayFor(old(db.notes), file, boost.value))
                    && (|boost.value.treeLeaves| == boost.value.outputCount ==> tree.position == |tree.leaves|))
    ensures updated == 0 ==> db.notes == old(db.notes)
    ensures updated > 0 ==>
              boost.Some? && SomeRefreshed(old(db.notes), db.notes, ReplayFor(old(db.notes), file, boost.value), c)
  {
    hide SomeRefreshed, Rebuilt, RebuiltFrom, ReplayedOver, NeedsRebuild, HasBoostNotes, DeltaLeaves, HasMark;
    hide Indexes, Marked, Wanted;
    updated := 0;
    var needs := CheckNotes(db.notes, c);
    var ids := IndexNotes(db.notes);
    SomeIndexed(ids, db.notes);
    if !needs || ids == map[] || boost.None? {
      return;
    }
    var fromBoost := CheckBoostNotes(db.notes, boost.value);
    ghost var r := ReplayFor(db.notes, file, boost.value);
    var marks := ReplayLeaves(tree, boost.value, file, ids.Keys, fromBoost);
    ghost var rows := db.notes;
    updated := StoreWitnesses(db, tree, marks, ids, c, r);
    RebuiltIs(rows, db.notes, file, boost.value, c);
    if db.treeState.Some? {
      tree.Deserialize(db.treeState.value);
      tree.SetPosition(db.treeHeight);
    }
  }

  // ---------------------------------------------------------------- what a rebuild achieves

  lemma SameSuffix(a: seq<Bytes>, b: seq<Bytes>, d: seq<Bytes>)
    ensures a + d == b + d <==> a == b
  {
    if a + d == b + d {
      assert |a| == |b|;
      assert a == (a + d)[..|a|] && b == (b + d)[..|b|];
    }
  }

  /**
   * Both branches run side by side: they leave equal trees exactly when the outputs and tree
   * sections of the boost file agree.
   */
  method ReplayBothWays(full: Tree, quick: Tree, boost: Boost, file: seq<Record>, notes: set<Bytes>)
    requires full != quick
    modifies full, quick
    ensures full.leaves == quick.leaves <==> boost.outputs == boost.treeLeaves
  {
    hide DeltaLeaves, ReplayedOver;
    var fullMarks := ReplayLeaves(full, boost, file, notes, true);
    var quickMarks := ReplayLeaves(quick, boost, file, notes, false);
    assert [] + (boost.outputs + DeltaLeaves(file, boost)) == boost.outputs + DeltaLeaves(file, boost);
    SameSuffix(boost.outputs, boost.treeLeaves, DeltaLeaves(file, boost));
  }

  ghost predicate CollisionFree(c: Crypto) {
    forall x, y :: c.root(x) == c.root(y) ==> x == y
  }

  /**
   * Two rebuilds that take different branches store equal anchors for a note that both reach,
   * exactly when the two sections of the boost file agree, if roots do not collide.
   */
  lemma BranchesAgree(file: seq<Record>, b: Boost, c: Crypto, rows: seq<Row>, full: seq<Row>,
                      rows2: seq<Row>, quick: seq<Row>, i: nat, j: nat)
    requires Rebuilt(rows, full, BoostReplay(file, b), c) && AllConsistent(Final(BoostReplay(file, b)), c)
    requires Rebuilt(rows2, quick, DeltaReplay(file, b), c) && AllConsistent(Final(DeltaReplay(file, b)), c)
    requires i < |rows| && Wanted(rows[i]) && rows[i].cmu in BoostReplay(file, b).leaves
    requires j < |rows2| && Wanted(rows2[j]) && rows2[j].cmu in DeltaReplay(file, b).leaves
    requires CollisionFree(c)
    ensures full[i].anchor == quick[j].anchor <==> b.outputs == b.treeLeaves
  {
    hide DeltaLeaves, AllConsistent;
    var d := DeltaLeaves(file, b);
    assert Final(BoostReplay(file, b)) == b.outputs + d;
    SameSuffix(b.outputs, b.treeLeaves, d);
    assert full[i].anchor == Some(c.root(Final(BoostReplay(file, b))));
    assert quick[j].anchor == Some(c.root(Final(DeltaReplay(file, b))));
  }

  /** With distinct leaves, a refreshed note's witness is at the one leaf that is its own. */
  lemma WitnessAtOwnLeaf(rows: seq<Row>, rows': seq<Row>, r: Replay, c: Crypto, i: nat, p: nat)
    requires Rebuilt(rows, rows', r, c) && AllConsistent(Final(r), c)
    requires forall x, y :: 0 <= x < y < |Final(r)| ==> Final(r)[x] != Final(r)[y]
    requires i < |rows| && Wanted(rows[i]) && |r.base| <= p < |Final(r)| && Final(r)[p] == rows[i].cmu
    ensures rows'[i].stored == Some(Witness(p, Final(r))) && rows'[i].anchor == Some(c.root(Final(r)))
  {
    assert r.leaves[p - |r.base|] == rows[i].cmu;
    var q :| 0 <= q < |Final(r)| && Final(r)[q] == rows[i].cmu
             && rows'[i] == rows[i].(stored := Some(Witness(q, Final(r))), anchor := Some(c.root(Final(r))));
  }

  /**
   * Exactly when another rebuild is needed right after one that reached some note: when an unspent
   * note it did not reach still lacks a witness, or keeps an anchor other than the new one.
   */
  lemma SecondRunExact(rows: seq<Row>, rows': seq<Row>, r: Replay, c: Crypto)
    requires Rebuilt(rows, rows', r, c) && AllConsistent(Final(r), c)
    requires |c.root(Final(r))| == HASH_LEN
    requires forall p :: 0 <= p < |Final(r)| ==> MIN_WITNESS_LEN <= c.size(Witness(p, Final(r)))
    requires exists i :: 0 <= i < |rows| && Found(rows[i], r)
    ensures NeedsRebuild(rows', c) <==> exists i :: 0 <= i < |rows| && Unfound(rows[i], r) && Stale(rows[i], r, c)
  {
    var a := Some(c.root(Final(r)));
    var f :| 0 <= f < |rows| && Found(rows[f], r);
    forall i | 0 <= i < |rows| && !rows[i].spent
      ensures !rows'[i].spent
      ensures Found(rows[i], r) ==> !Missing(rows'[i], c) && Anchored(rows'[i]) && rows'[i].anchor == a
      ensures Unfound(rows[i], r) ==> rows'[i] == rows[i]
    {
    }
    if i :| 0 <= i < |rows| && Unfound(rows[i], r) && Stale(rows[i], r, c) {
      assert rows'[i] == rows[i] && rows'[f].anchor == a && !rows'[f].spent;
    }
  }

  /** So nothing is left to do once every unspent note was reached. */
  lemma AllFoundNoRerun(rows: seq<Row>, rows': seq<Row>, r: Replay, c: Crypto)
    requires Rebuilt(rows, rows', r, c) && AllConsistent(Final(r), c)
    requires |c.root(Final(r))| == HASH_LEN
    requires forall p :: 0 <= p < |Final(r)| ==> MIN_WITNESS_LEN <= c.size(Witness(p, Final(r)))
    requires forall i :: 0 <= i < |rows| && !rows[i].spent ==> Found(rows[i], r)
    ensures !NeedsRebuild(rows', c)
  {
    hide Rebuilt, AllConsistent, Refreshed;
    if exists i :: 0 <= i < |rows| && Found(rows[i], r) {
      SecondRunExact(rows, rows', r, c);
    } else {
      KeepsSpent(rows, rows', r, c);
    }
  }

  lemma KeepsSpent(rows: seq<Row>, rows': seq<Row>, r: Replay, c: Crypto)
    requires Rebuilt(rows, rows', r, c)
    ensures |rows'| == |rows| && forall i :: 0 <= i < |rows| ==> rows'[i].spent == rows[i].spent
  {
  }

  ghost predicate Found(r: Row, p: Replay) {
    Wanted(r) && r.cmu in p.leaves
  }

  /** Unspent notes the replay does not reach. */
  ghost predicate Unfound(r: Row, p: Replay) {
    !r.spent && !Found(r, p)
  }

  predicate Stale(r: Row, p: Replay, c: Crypto) {
    Missing(r, c) || (Anchored(r) && r.anchor != Some(c.root(Final(p))))
  }
}
