/**
 * The chunked, resumable catch-up scan (crates/zipherx-core/src/async_sync.rs): each chunk of
 * delta outputs is regrouped, scanned and appended to the tree, its notes are inserted one by
 * one, and only then are the tree and its height saved.
 *
 * A run may stop after any database write. `Progress` is what holds wherever it stops, and
 * `CatchUpWithRestarts` shows that any number of interrupted runs end where one uninterrupted
 * scan of the rest of the file ends: for any file if their chunk size is the same, and with
 * chunk sizes of their own if the file is in chain order, which `ChunkSizeImmaterial` shows to
 * be exactly what that takes.
 */
module CatchUp {
  import opened Common
  import opened CommitmentTree
  import opened DeltaStore
  import opened BlockScan
  import StableSort

  /** `INSERT OR IGNORE` on a table whose commitments are unique. */
  function Insert(notes: seq<Found>, f: Found): seq<Found> {
    if exists i :: 0 <= i < |notes| && notes[i].cmu == f.cmu then notes else notes + [f]
  }

  function InsertAll(notes: seq<Found>, fs: seq<Found>): seq<Found> {
    if fs == [] then notes else Insert(InsertAll(notes, fs[..|fs| - 1]), fs[|fs| - 1])
  }

  class WalletDb {
    var treeState: Option<seq<Bytes>>
    var treeHeight: nat
    var notes: seq<Found>

    method InsertNote(f: Found)
      modifies this`notes
      ensures notes == Insert(old(notes), f)
    {
      var known := false;
      for i := 0 to |notes|
        invariant known <==> exists j :: 0 <= j < i && notes[j].cmu == f.cmu
        modifies {}
      {
        known := known || notes[i].cmu == f.cmu;
      }
      if !known {
        notes := notes + [f];
      }
    }

    method SaveTreeState(state: seq<Bytes>, height: nat)
      modifies this`treeState, this`treeHeight
      ensures treeState == Some(state) && treeHeight == height
    {
      treeState, treeHeight := Some(state), height;
    }

    /** The saved tree is the tree over the first `treeHeight` outputs, in the order they were scanned. */
    ghost predicate Consistent(order: seq<Record>)
      reads this
    {
      && treeHeight <= |order|
      && (treeState.Some? ==> treeState.value == RecordCmus(order[..treeHeight]))
      && (treeState.None? ==> treeHeight == 0)
    }
  }

  function RecordCmus(rs: seq<Record>): (r: seq<Bytes>)
    ensures |r| == |rs| && forall i :: 0 <= i < |rs| ==> r[i] == rs[i].cmu
  {
    seq(|rs|, i requires 0 <= i < |rs| => rs[i].cmu)
  }

  function PlacedCmus(s: seq<Placed>): (r: seq<Bytes>)
    ensures |r| == |s| && forall i :: 0 <= i < |s| ==> r[i] == s[i].1.cmu
  {
    seq(|s|, i requires 0 <= i < |s| => s[i].1.cmu)
  }

  // ---------------------------------------------------------------- inserting twice

  lemma {:induction false} InsertAllAppend(notes: seq<Found>, a: seq<Found>, b: seq<Found>)
    ensures InsertAll(notes, a + b) == InsertAll(InsertAll(notes, a), b)
  {
    if b == [] {
      assert a + b == a;
    } else {
      assert (a + b)[..|a + b| - 1] == a + b[..|b| - 1];
      InsertAllAppend(notes, a, b[..|b| - 1]);
    }
  }

  ghost predicate Knows(notes: seq<Found>, f: Found) {
    exists i :: 0 <= i < |notes| && notes[i].cmu == f.cmu
  }

  lemma {:induction false} InsertedIsKnown(notes: seq<Found>, fs: seq<Found>)
    ensures forall f :: Knows(notes, f) || f in fs ==> Knows(InsertAll(notes, fs), f)
  {
    if fs != [] {
      var t, last := fs[..|fs| - 1], fs[|fs| - 1];
      InsertedIsKnown(notes, t);
      var was := InsertAll(notes, t);
      forall f | Knows(notes, f) || f in fs ensures Knows(InsertAll(notes, fs), f) {
        if f == last {
          assert Knows(was, last) || (was + [last])[|was|].cmu == last.cmu;
        } else {
          assert f in fs ==> f in t;
          var i :| 0 <= i < |was| && was[i].cmu == f.cmu;
          assert Insert(was, last)[i].cmu == f.cmu;
        }
      }
    }
  }

  lemma {:induction false} KnownChangesNothing(notes: seq<Found>, fs: seq<Found>)
    requires forall f :: f in fs ==> Knows(notes, f)
    ensures InsertAll(notes, fs) == notes
  {
    if fs != [] {
      KnownChangesNothing(notes, fs[..|fs| - 1]);
      assert Knows(notes, fs[|fs| - 1]);
    }
  }

  /** Inserting findings `k..k+j` after the first `m >= k`: those already inserted change nothing. */
  lemma Reinsert(notes: seq<Found>, all: seq<Found>, m: nat, k: nat, j: nat)
    requires k <= m <= |all| && k + j <= |all|
    ensures InsertAll(InsertAll(notes, all[..m]), all[k..k + j]) == InsertAll(notes, all[..Max(m, k + j)])
  {
    hide InsertAll, Insert, Knows;
    var had := InsertAll(notes, all[..m]);
    InsertedIsKnown(notes, all[..m]);
    if k + j <= m {
      KnownChangesNothing(had, all[k..k + j]);
    } else {
      assert all[k..k + j] == all[k..m] + all[m..k + j];
      InsertAllAppend(had, all[k..m], all[m..k + j]);
      KnownChangesNothing(had, all[k..m]);
      assert all[..k + j] == all[..m] + all[m..k + j];
      InsertAllAppend(notes, all[..m], all[m..k + j]);
    }
  }

  /**
   * Inserting findings: the rows stay in front, each new row is a finding whose commitment no row
   * before it has, and what more findings add comes after it.
   */
  lemma {:induction false} InsertedExactly(notes: seq<Found>, fs: seq<Found>)
    ensures notes <= InsertAll(notes, fs)
    ensures forall i :: |notes| <= i < |InsertAll(notes, fs)| ==>
              InsertAll(notes, fs)[i] in fs && !Knows(InsertAll(notes, fs)[..i], InsertAll(notes, fs)[i])
    ensures forall k :: 0 <= k <= |fs| ==> InsertAll(notes, fs[..k]) <= InsertAll(notes, fs)
  {
    if fs == [] {
      assert forall k :: 0 <= k <= |fs| ==> fs[..k] == fs;
    } else {
      var m := |fs| - 1;
      InsertedExactly(notes, fs[..m]);
      InsertedOne(notes, InsertAll(notes, fs[..m]), fs[..m], fs[m]);
      assert fs == fs[..m] + [fs[m]];
      forall k | 0 <= k <= |fs| ensures InsertAll(notes, fs[..k]) <= InsertAll(notes, fs) {
        if k == |fs| {
          assert fs[..k] == fs;
        } else {
          assert fs[..m][..k] == fs[..k];
        }
      }
    }
  }

  lemma InsertedOne(notes: seq<Found>, was: seq<Found>, t: seq<Found>, f: Found)
    requires notes <= was
    requires forall i :: |notes| <= i < |was| ==> was[i] in t && !Knows(was[..i], was[i])
    ensures var now := Insert(was, f);
            && was <= now
            && (forall i :: |notes| <= i < |now| ==> now[i] in t + [f] && !Knows(now[..i], now[i]))
  {
    var now := Insert(was, f);
    assert !Knows(was, f) ==> now == was + [f];
    forall i | |notes| <= i < |now| ensures now[i] in t + [f] && !Knows(now[..i], now[i]) {
      if i < |was| {
        assert now[..i] == was[..i] && now[i] == was[i];
      } else {
        assert now[..i] == was && now[i] == f;
      }
    }
  }

  /**
   * What a scan of the records `order` from position `from` on leaves in the table, record by record:
   * a new row is what its own record holds, at that record's place; and a record that decrypts has
   * its commitment, as recomputed, in the table.
   */
  lemma RowsAreRecords(keys: Keys, order: seq<Record>, from: nat, notes: seq<Found>, i: nat)
    requires |notes| <= i < |InsertAll(notes, Finds(keys, Flat(order), from))|
    ensures var f := InsertAll(notes, Finds(keys, Flat(order), from))[i];
            && from <= f.position < from + |order|
            && var r := order[f.position - from];
            && f.height == r.height && f.txid == OutputOf(r).txid && f.epk == r.epk
            && 580 <= |r.ciphertext| && keys.decrypt(OutputOf(r), r.height) == Some(f.plain)
            && keys.nullifier(f.plain, f.position) == Some(f.nullifier)
            && f.cmu == match keys.cmu(f.plain) { case Some(cmu) => cmu case None => r.cmu }
  {
    hide Finds, InsertAll, TxidOf;
    var all := Finds(keys, Flat(order), from);
    var f := InsertAll(notes, all)[i];
    InsertedExactly(notes, all);
    FoundAtOwnIndex(keys, Flat(order), from, f);
    assert Flat(order)[f.position - from] == (order[f.position - from].height, OutputOf(order[f.position - from]));
  }

  lemma RecordsAreRows(keys: Keys, order: seq<Record>, from: nat, notes: seq<Found>, k: nat)
    requires k < |order| && Scannable(keys, Flat(order), from)
    requires 580 <= |order[k].ciphertext| && keys.decrypt(OutputOf(order[k]), order[k].height).Some?
    ensures var plain := keys.decrypt(OutputOf(order[k]), order[k].height).value;
            var cmu := match keys.cmu(plain) { case Some(c) => c case None => order[k].cmu };
            exists i :: 0 <= i < |InsertAll(notes, Finds(keys, Flat(order), from))|
                        && InsertAll(notes, Finds(keys, Flat(order), from))[i].cmu == cmu
  {
    hide Finds, InsertAll, TxidOf, Scannable;
    var all := Finds(keys, Flat(order), from);
    NothingMissed(keys, Flat(order), from, k);
    var f :| f in all && f.position == from + k;
    FoundAtOwnIndex(keys, Flat(order), from, f);
    InsertedIsKnown(notes, all);
    assert Knows(InsertAll(notes, all), f);
  }

  // ---------------------------------------------------------------- where a run may stand

  /** Where the first run began. */
  datatype Origin = Origin(notes: seq<Found>, height: nat)

  /** Everything there is to find from the origin on. */
  ghost function Goal(keys: Keys, order: seq<Record>, o: Origin): seq<Found>
    requires o.height <= |order|
  {
    Finds(keys, Flat(order[o.height..]), o.height)
  }

  /** How much of the goal lies before output `h`. */
  ghost function Covered(keys: Keys, order: seq<Record>, o: Origin, h: nat): nat
    requires o.height <= h <= |order|
  {
    |Finds(keys, Flat(order[o.height..h]), o.height)|
  }

  /**
   * After any interrupted run: the saved tree matches its saved height, and the table holds the
   * first `m` findings, at least all those of the saved outputs.
   */
  ghost predicate Progress(db: WalletDb, keys: Keys, order: seq<Record>, o: Origin, m: nat)
    reads db
  {
    && db.Consistent(order) && o.height <= db.treeHeight
    && Covered(keys, order, o, db.treeHeight) <= m <= |Goal(keys, order, o)|
    && db.notes == InsertAll(o.notes, Goal(keys, order, o)[..m])
  }

  /** A fresh start is progress. */
  lemma FreshStart(db: WalletDb, keys: Keys, order: seq<Record>)
    requires db.Consistent(order)
    ensures Progress(db, keys, order, Origin(db.notes, db.treeHeight), 0)
  {
    NothingToScan(keys, db.treeHeight);
    assert Flat(order[db.treeHeight..db.treeHeight]) == [];
  }

  /** A scan of `h..next` finds the goal's next piece. */
  lemma GoalPiece(keys: Keys, order: seq<Record>, o: Origin, h: nat, next: nat)
    requires o.height <= h <= next <= |order|
    ensures var k, k' := Covered(keys, order, o, h), Covered(keys, order, o, next);
            k <= k' <= |Goal(keys, order, o)| && Goal(keys, order, o)[k..k'] == Finds(keys, Flat(order[h..next]), h)
    ensures Scannable(keys, Flat(order[o.height..]), o.height) ==> Scannable(keys, Flat(order[h..next]), h)
  {
    hide Finds, Scannable, OutputOf, TxidOf;
    var a, b, c := Flat(order[o.height..h]), Flat(order[h..next]), Flat(order[next..]);
    FindsAppend(keys, a, b, o.height);
    assert a + b == Flat(order[o.height..next]);
    FindsAppend(keys, a + b, c, o.height);
    assert a + b + c == Flat(order[o.height..]);
  }

  lemma {:induction false} FindsNoMore(keys: Keys, s: seq<Placed>, pos: nat)
    ensures |Finds(keys, s, pos)| <= |s|
  {
    if s != [] {
      FindsNoMore(keys, s[..|s| - 1], pos);
    }
  }

  // ---------------------------------------------------------------- the order in which records are consumed

  /** The order in which an uninterrupted scan with this chunk size consumes the records of a file. */
  function ScanOrder(file: seq<Record>, offset: nat, chunk: nat): seq<Record>
    requires 0 < chunk
    decreases |file| - offset
  {
    if |file| <= offset then []
    else
      var page := Page(file, offset, chunk);
      StableSort.Sort(ChainOrder, page) + ScanOrder(file, offset + |page|, chunk)
  }

  lemma ScanUnfolds(file: seq<Record>, h: nat, chunk: nat)
    requires 0 < chunk
    ensures |file| <= h ==> ScanOrder(file, h, chunk) == []
    ensures h < |file| ==>
              var page := Page(file, h, chunk);
              ScanOrder(file, h, chunk) == StableSort.Sort(ChainOrder, page) + ScanOrder(file, h + |page|, chunk)
  {
  }

  lemma PageSplit(file: seq<Record>, offset: nat, chunk: nat)
    requires 0 < chunk && offset < |file|
    ensures var page := Page(file, offset, chunk);
            page != [] && offset + |page| <= |file| && file[offset..] == page + file[offset + |page|..]
  {
  }

  /** It is an order of all of them. */
  lemma {:induction false} ScanOrderKeeps(file: seq<Record>, offset: nat, chunk: nat)
    requires 0 < chunk && offset <= |file|
    ensures multiset(ScanOrder(file, offset, chunk)) == multiset(file[offset..])
    ensures |ScanOrder(file, offset, chunk)| == |file| - offset
    decreases |file| - offset
  {
    hide StableSort.Sort, ScanOrder, Page, ChainOrder;
    ScanUnfolds(file, offset, chunk);
    if offset < |file| {
      PageSplit(file, offset, chunk);
      var page := Page(file, offset, chunk);
      SameLength(page);
      ScanOrderKeeps(file, offset + |page|, chunk);
    }
  }

  lemma {:induction false} OrderedScan(file: seq<Record>, offset: nat, chunk: nat)
    requires 0 < chunk && offset <= |file| && InOrder(file[offset..])
    ensures ScanOrder(file, offset, chunk) == file[offset..]
    decreases |file| - offset
  {
    hide StableSort.Sort, ScanOrder, Page, ChainOrder, InOrder;
    ScanUnfolds(file, offset, chunk);
    if offset < |file| {
      PageSplit(file, offset, chunk);
      var page := Page(file, offset, chunk);
      OrderedParts(page, file[offset + |page|..]);
      OrderedScan(file, offset + |page|, chunk);
    }
  }

  lemma OrderedParts(page: seq<Record>, rest: seq<Record>)
    requires InOrder(page + rest)
    ensures StableSort.Sort(ChainOrder, page) == page && InOrder(rest)
  {
    hide StableSort.Sort, ChainOrder;
    OrderedSlice(page + rest, 0, |page|);
    OrderedSlice(page + rest, |page|, |page| + |rest|);
    assert (page + rest)[0..|page|] == page && (page + rest)[|page|..|page| + |rest|] == rest;
    ChainPreorder();
    StableSort.SortFixpoint(ChainOrder, page);
  }

  lemma {:induction false} SingleScan(file: seq<Record>, offset: nat)
    requires offset <= |file|
    ensures ScanOrder(file, offset, 1) == file[offset..]
    decreases |file| - offset
  {
    hide StableSort.Sort, ScanOrder, ChainOrder;
    ScanUnfolds(file, offset, 1);
    if offset < |file| {
      assert Page(file, offset, 1) == [file[offset]];
      SortOne(file[offset]);
      SingleScan(file, offset + 1);
      assert file[offset..] == [file[offset]] + file[offset + 1..];
    }
  }

  lemma SortOne(r: Record)
    ensures StableSort.Sort(ChainOrder, [r]) == [r]
  {
    assert [r][1..] == [];
    assert StableSort.Sort(ChainOrder, [r][1..]) == [];
  }

  /** From output `from` on, a scan with this chunk size consumes the rest of `order`. */
  ghost predicate Follows(file: seq<Record>, order: seq<Record>, from: nat, chunk: nat) {
    0 < chunk && from <= |file| == |order| && ScanOrder(file, from, chunk) == order[from..]
  }

  lemma FollowsOn(file: seq<Record>, order: seq<Record>, h: nat, chunk: nat)
    requires Follows(file, order, h, chunk) && h < |file|
    ensures var page := Page(file, h, chunk);
            && page != [] && page == file[h..h + |page|]
            && StableSort.Sort(ChainOrder, page) == order[h..h + |page|]
            && Follows(file, order, h + |page|, chunk)
  {
    hide StableSort.Sort, ScanOrder;
    var page := Page(file, h, chunk);
    var sorted, rest := StableSort.Sort(ChainOrder, page), ScanOrder(file, h + |page|, chunk);
    ScanUnfolds(file, h, chunk);
    SameLength(page);
    ScanOrderKeeps(file, h + |page|, chunk);
    assert sorted == order[h..][..|page|] && rest == order[h..][|page|..];
  }

  lemma SameLength(page: seq<Record>)
    ensures multiset(StableSort.Sort(ChainOrder, page)) == multiset(page)
    ensures |StableSort.Sort(ChainOrder, page)| == |page|
  {
    StableSort.SortKeeps(ChainOrder, page);
    assert |multiset(StableSort.Sort(ChainOrder, page))| == |multiset(page)|;
  }

  lemma OrderedSlice(rs: seq<Record>, i: nat, j: nat)
    requires InOrder(rs) && i <= j <= |rs|
    ensures InOrder(rs[i..j])
  {
  }

  // ---------------------------------------------------------------- one chunk

  lemma NoEmptyBlocks(rs: seq<Record>, hs: seq<nat>)
    requires HeightsOf(hs, rs)
    ensures forall b :: b in BlocksAt(rs, hs) ==> b.outputs != []
  {
    forall i | 0 <= i < |hs| ensures BlockAt(rs, hs[i]).outputs != [] {
      assert hs[i] in hs;
      HasHeight(rs, hs[i]);
      StableSort.SortKeeps(NotAfter, AtHeight(rs, hs[i]));
    }
  }

  /** The commitments of the regrouped blocks, in block order. */
  method BlockCmus(blocks: seq<Block>) returns (cmus: seq<Bytes>)
    ensures cmus == PlacedCmus(Flatten(blocks))
  {
    cmus := [];
    for i := 0 to |blocks|
      invariant cmus == PlacedCmus(Flatten(blocks[..i]))
    {
      assert blocks[..i + 1][..i] == blocks[..i];
      cmus := cmus + PlacedCmus(Place(blocks[i]));
    }
    assert blocks[..|blocks|] == blocks;
  }

  /** Regroups one page, scans it at `pos`, and returns its findings and its commitments in tree order. */
  method ScanPage(keys: Keys, page: seq<Record>, pos: nat, ghost sorted: seq<Record>)
    returns (r: Result<seq<Found>, ScanError>, cmus: seq<Bytes>)
    requires sorted == StableSort.Sort(ChainOrder, page)
    ensures r.Ok? <==> Scannable(keys, Flat(sorted), pos)
    ensures r.Ok? ==> r.value == Finds(keys, Flat(sorted), pos)
    ensures cmus == RecordCmus(sorted)
  {
    hide Finds, Scannable, BlockAt, HeightsOf, Flatten, OutputOf, StableSort.Sort;
    var blocks, hs := ReconstructCompactBlocks(page);
    NoEmptyBlocks(page, hs);
    RegroupingSorts(page, hs);
    r := ScanBlocks(keys, blocks, pos);
    cmus := BlockCmus(blocks);
    OutputCmus(sorted);
  }

  lemma OutputCmus(rs: seq<Record>)
    ensures PlacedCmus(Flat(rs)) == RecordCmus(rs)
  {
  }

  datatype Outcome = Done | Interrupted | Failed(error: ScanError)

  /** Inserts a chunk's notes one by one; `left` more database writes succeed. */
  method InsertNotes(db: WalletDb, fs: seq<Found>, left: nat) returns (done: nat, left': nat)
    modifies db`notes
    ensures done <= |fs| && left' == left - done
    ensures db.notes == InsertAll(old(db.notes), fs[..done])
    ensures done < |fs| ==> left' == 0
  {
    done, left' := 0, left;
    while done < |fs| && left' != 0
      invariant done <= |fs| && left' == left - done
      invariant db.notes == InsertAll(old(db.notes), fs[..done])
    {
      assert fs[..done + 1][..done] == fs[..done];
      db.InsertNote(fs[done]);
      done, left' := done + 1, left' - 1;
    }
  }

  /** One chunk, starting where the tree stands; nothing is saved unless all its notes are in. */
  method Chunk(db: WalletDb, tree: Tree, file: seq<Record>, keys: Keys, chunk: nat, left: nat,
               ghost order: seq<Record>, ghost o: Origin, ghost m: nat)
    returns (out: Outcome, left': nat, ghost m': nat)
    requires db.treeHeight < |file| && Follows(file, order, db.treeHeight, chunk)
    requires Progress(db, keys, order, o, m)
    requires tree.leaves == RecordCmus(order[..db.treeHeight])
    modifies db, tree
    ensures Progress(db, keys, order, o, m') && m <= m' && Follows(file, order, db.treeHeight, chunk)
    ensures out == Done ==>
              && old(db.treeHeight) < db.treeHeight && tree.leaves == RecordCmus(order[..db.treeHeight])
              && left <= left' + 2 * (db.treeHeight - old(db.treeHeight))
              && left == left' + |Finds(keys, Flat(order[old(db.treeHeight)..db.treeHeight]), old(db.treeHeight))| + 1
    ensures out != Done ==> db.treeHeight == old(db.treeHeight)
    ensures out == Interrupted ==> left < 2 * (|file| - db.treeHeight)
    ensures out.Failed? ==> !Scannable(keys, Flat(order[o.height..]), o.height)
  {
    hide Finds, Scannable, OutputOf, InsertAll, Follows, StableSort.Sort, ScanOrder, Page, Goal, Covered, Flat;
    var h := db.treeHeight;
    var page := Page(file, h, chunk);
    var next := h + |page|;
    FollowsOn(file, order, h, chunk);
    FollowsLength(file, order, next, chunk);
    left', m' := left, m;
    var scan, cmus := ScanPage(keys, page, h, order[h..next]);
    GoalPiece(keys, order, o, h, next);
    if scan.Err? {
      return Failed(scan.error), left', m';
    }
    AppendChunk(tree, order, h, next, cmus);
    var done;
    done, left' := InsertNotes(db, scan.value, left);
    FindsNoMore(keys, Flat(order[h..next]), h);
    ghost var k := Covered(keys, order, o, h);
    Inserted(o.notes, Goal(keys, order, o), m, k, scan.value, done);
    m' := Max(m, k + done);
    if done < |scan.value| || left' == 0 {
      return Interrupted, left', m';
    }
    db.SaveTreeState(tree.leaves, next);
    return Done, left' - 1, m';
  }

  /** Inserting the first `done` of the findings from `k` on, once `m` findings are in. */
  lemma Inserted(notes: seq<Found>, all: seq<Found>, m: nat, k: nat, found: seq<Found>, done: nat)
    requires k <= m <= |all| && k + |found| <= |all| && found == all[k..k + |found|] && done <= |found|
    ensures InsertAll(InsertAll(notes, all[..m]), found[..done]) == InsertAll(notes, all[..Max(m, k + done)])
  {
    hide InsertAll;
    assert found[..done] == all[k..k + done];
    Reinsert(notes, all, m, k, done);
  }

  lemma FollowsLength(file: seq<Record>, order: seq<Record>, h: nat, chunk: nat)
    requires Follows(file, order, h, chunk)
    ensures h <= |file| == |order|
  {
  }

  method AppendChunk(tree: Tree, ghost order: seq<Record>, h: nat, next: nat, cmus: seq<Bytes>)
    requires h <= next <= |order|
    requires tree.leaves == RecordCmus(order[..h]) && cmus == RecordCmus(order[h..next])
    modifies tree
    ensures tree.leaves == RecordCmus(order[..next])
  {
    tree.ClearWitnesses();
    for i := 0 to |cmus|
      invariant tree.leaves == RecordCmus(order[..h + i])
    {
      tree.Append(cmus[i]);
      assert RecordCmus(order[..h + i + 1]) == RecordCmus(order[..h + i]) + [order[h + i].cmu];
    }
  }

  /** One run, interrupted after at most `writes` database writes. */
  method Run(db: WalletDb, tree: Tree, file: seq<Record>, keys: Keys, chunk: nat, writes: nat,
             ghost order: seq<Record>, ghost o: Origin, ghost m: nat)
    returns (out: Outcome, ghost m': nat)
    requires Follows(file, order, db.treeHeight, chunk) && Progress(db, keys, order, o, m)
    modifies db, tree
    ensures Progress(db, keys, order, o, m') && m <= m' && Follows(file, order, db.treeHeight, chunk)
    ensures old(db.treeHeight) <= db.treeHeight
    ensures out == Done ==> db.treeHeight == |file|
    ensures out == Interrupted ==> writes < 2 * (|file| - old(db.treeHeight))
    ensures out.Failed? ==> !Scannable(keys, Flat(order[o.height..]), o.height)
  {
    hide Finds, Scannable, OutputOf, InsertAll, Goal, Covered, Follows;
    m' := m;
    FollowsLength(file, order, db.treeHeight, chunk);
    if |file| <= db.treeHeight {
      return Done, m';
    }
    if db.treeState.Some? {
      tree.Deserialize(db.treeState.value);
      tree.SetPosition(db.treeHeight);
    } else {
      tree.Init();
    }
    assert tree.leaves == RecordCmus(order[..db.treeHeight]);
    var left: nat := writes;
    while db.treeHeight < |file|
      invariant Progress(db, keys, order, o, m') && m <= m' && Follows(file, order, db.treeHeight, chunk)
      invariant old(db.treeHeight) <= db.treeHeight <= |file| && tree.leaves == RecordCmus(order[..db.treeHeight])
      invariant writes <= left + 2 * (db.treeHeight - old(db.treeHeight))
      decreases |file| - db.treeHeight
    {
      out, left, m' := Chunk(db, tree, file, keys, chunk, left, order, o, m');
      if out != Done {
        return;
      }
    }
    return Done, m';
  }

  /** Progress that reached the end of the file is complete. */
  lemma ProgressAtEnd(db: WalletDb, keys: Keys, order: seq<Record>, o: Origin, m: nat)
    requires Progress(db, keys, order, o, m) && db.treeHeight == |order|
    ensures db.notes == InsertAll(o.notes, Goal(keys, order, o))
  {
    assert order[o.height..|order|] == order[o.height..];
    assert Goal(keys, order, o)[..m] == Goal(keys, order, o);
  }

  /** Progress carries over to a order that has since grown. */
  lemma ProgressSurvivesGrowth(db: WalletDb, keys: Keys, order: seq<Record>, more: seq<Record>, o: Origin, m: nat)
    requires Progress(db, keys, order, o, m)
    ensures Progress(db, keys, order + more, o, m)
  {
    hide Finds, OutputOf, InsertAll;
    var h := db.treeHeight;
    assert (order + more)[..h] == order[..h];
    assert (order + more)[o.height..h] == order[o.height..h];
    var a, b := Flat(order[o.height..]), Flat(more);
    assert Flat((order + more)[o.height..]) == a + b;
    FindsAppend(keys, a, b, o.height);
    assert Goal(keys, order + more, o)[..m] == Goal(keys, order, o)[..m];
  }

  /** A run that may be cut short: how many writes it gets, and its chunk size. */
  datatype Attempt = Attempt(chunk: nat, writes: nat)

  /** All attempts use the same chunk size, or what is left of the file is in chain order. */
  ghost predicate Steady(file: seq<Record>, from: nat, attempts: seq<Attempt>)
    requires from <= |file|
  {
    (forall a, b :: a in attempts && b in attempts ==> a.chunk == b.chunk) || InOrder(file[from..])
  }

  /** The order in which one uninterrupted scan consumes what is left of the file. */
  ghost function Uninterrupted(file: seq<Record>, from: nat, attempts: seq<Attempt>): seq<Record>
    requires forall a :: a in attempts ==> 0 < a.chunk
  {
    if attempts == [] then file[Min(from, |file|)..] else ScanOrder(file, from, attempts[0].chunk)
  }

  /** Wherever earlier attempts stopped, the next one goes on in that order. */
  lemma FollowsAnyway(file: seq<Record>, from: nat, attempts: seq<Attempt>, order: seq<Record>, h: nat, a: Attempt,
                      b: Attempt)
    requires from <= h <= |file| && Steady(file, from, attempts) && a in attempts && b in attempts
    requires 0 < b.chunk && Follows(file, order, h, a.chunk)
    ensures Follows(file, order, h, b.chunk)
  {
    hide ScanOrder;
    if InOrder(file[from..]) {
      OrderedSlice(file[from..], h - from, |file| - from);
      assert file[from..][h - from..] == file[h..];
      OrderedScan(file, h, a.chunk);
      OrderedScan(file, h, b.chunk);
    }
  }

  /**
   * Any sequence of attempts, ending at the first that is not interrupted, after the outputs of
   * `before` were scanned. If one completes, the wallet holds the tree and the findings of a
   * single uninterrupted scan of all remaining outputs, whatever was interrupted before.
   */
  method CatchUpWithRestarts(db: WalletDb, tree: Tree, file: seq<Record>, keys: Keys, attempts: seq<Attempt>,
                             ghost before: seq<Record>)
    returns (out: Outcome)
    requires forall a :: a in attempts ==> 0 < a.chunk
    requires |before| == db.treeHeight <= |file| && db.Consistent(before) && Steady(file, db.treeHeight, attempts)
    modifies db, tree
    ensures var order := Uninterrupted(file, old(db.treeHeight), attempts);
            && db.Consistent(before + order)
            && (out == Done ==>
                  && db.treeHeight == |file|
                  && db.notes == InsertAll(old(db.notes), Finds(keys, Flat(order), old(db.treeHeight))))
            && (out.Failed? ==> !Scannable(keys, Flat(order), old(db.treeHeight)))
    ensures out == Interrupted ==>
              forall a :: a in attempts ==> a.writes < 2 * (|file| - old(db.treeHeight))
  {
    hide Finds, Scannable, InOrder, OutputOf, InsertAll, Covered, Follows, Steady, ScanOrder;
    ghost var from := db.treeHeight;
    ghost var o := Origin(db.notes, from);
    ghost var order := before + Uninterrupted(file, from, attempts);
    ghost var m := 0;
    StartConsistent(db, before, Uninterrupted(file, from, attempts));
    FreshStart(db, keys, order);
    assert order[from..] == Uninterrupted(file, from, attempts);
    if attempts != [] {
      StartFollows(file, before, attempts[0].chunk);
    }
    out := Interrupted;
    for i := 0 to |attempts|
      invariant Progress(db, keys, order, o, m) && from <= db.treeHeight <= |file|
      invariant out == Interrupted && (attempts != [] ==> Follows(file, order, db.treeHeight, attempts[0].chunk))
      invariant forall j :: 0 <= j < i ==> attempts[j].writes < 2 * (|file| - from)
    {
      assert attempts[0] in attempts && attempts[i] in attempts;
      FollowsAnyway(file, from, attempts, order, db.treeHeight, attempts[0], attempts[i]);
      out, m := Run(db, tree, file, keys, attempts[i].chunk, attempts[i].writes, order, o, m);
      FollowsLength(file, order, db.treeHeight, attempts[i].chunk);
      if out != Interrupted {
        if out == Done {
          ProgressAtEnd(db, keys, order, o, m);
        }
        return;
      }
      FollowsAnyway(file, from, attempts, order, db.treeHeight, attempts[i], attempts[0]);
    }
  }

  lemma StartConsistent(db: WalletDb, before: seq<Record>, more: seq<Record>)
    requires |before| == db.treeHeight && db.Consistent(before)
    ensures db.Consistent(before + more)
  {
    assert (before + more)[..|before|] == before == before[..|before|];
  }

  lemma StartFollows(file: seq<Record>, before: seq<Record>, chunk: nat)
    requires |before| <= |file| && 0 < chunk
    ensures Follows(file, before + ScanOrder(file, |before|, chunk), |before|, chunk)
  {
    ScanOrderKeeps(file, |before|, chunk);
  }

  /**
   * The scan consumes records in an order that does not depend on the chunk size exactly if the
   * file is in chain order. Resuming with another chunk size is only sound then.
   */
  lemma ChunkSizeImmaterial(file: seq<Record>)
    ensures InOrder(file) <==>
            forall a: nat, b: nat :: 0 < a && 0 < b ==> ScanOrder(file, 0, a) == ScanOrder(file, 0, b)
  {
    hide InOrder, StableSort.Sort;
    assert file[0..] == file;
    if InOrder(file) {
      forall a: nat, b: nat | 0 < a && 0 < b ensures ScanOrder(file, 0, a) == ScanOrder(file, 0, b) {
        OrderedScan(file, 0, a);
        OrderedScan(file, 0, b);
      }
    } else {
      SingleScan(file, 0);
      WholeScan(file);
      ChainPreorder();
      StableSort.SortFixpoint(ChainOrder, file);
      assert ScanOrder(file, 0, 1) != ScanOrder(file, 0, |file| + 1);
    }
  }

  lemma WholeScan(file: seq<Record>)
    ensures ScanOrder(file, 0, |file| + 1) == StableSort.Sort(ChainOrder, file)
  {
    assert Page(file, 0, |file| + 1) == file;
    assert ScanOrder(file, |file|, |file| + 1) == [];
  }

}
