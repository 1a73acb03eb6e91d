/**
 * The delta file that a full block scan leaves (crates/zipherx-core/src/async_sync.rs and
 * crates/zipherx-storage/src/delta_cmu.rs): behind what was there, the outputs of each block in the
 * order in which the blocks arrived, less those already stored. A block that arrived on a later
 * try lies behind higher ones of its batch, and one that was missing behind higher ones stored before.
 */
module FetchedFile {
  import opened Common
  import opened DeltaStore
  import opened FirstOccurrences
  import opened PageOrder
  import StableSort
  import LateBlock
  import B = BatchScan

  // ---------------------------------------------------------------- appending without duplicates

  /** A record of this height and index is in the file. */
  predicate Stored(file: seq<Record>, r: Record) {
    exists i :: 0 <= i < |file| && file[i].height == r.height && file[i].index == r.index
  }

  /** What `append_outputs` leaves in the file. */
  function Merged(file: seq<Record>, outputs: seq<Record>): seq<Record> {
    if outputs == [] then file
    else
      var n := |outputs| - 1;
      var f := Merged(file, outputs[..n]);
      if Stored(f, outputs[n]) then f else f + [outputs[n]]
  }

  class DeltaFile {
    var records: seq<Record>

    method Append(outputs: seq<Record>) returns (appended: nat)
      modifies this
      ensures records == Merged(old(records), outputs) && |records| == |old(records)| + appended
    {
      hide Stored;
      var existing: set<(nat, nat)> := {};
      KeysOfNothing();
      for i := 0 to |records|
        invariant Keys(existing, records[..i])
        modifies {}
      {
        KeysExtend(existing, records[..i], records[i]);
        assert records[..i + 1] == records[..i] + [records[i]];
        existing := existing + {(records[i].height, records[i].index)};
      }
      assert records[..|records|] == records;
      assert outputs[..0] == [];
      appended := 0;
      for i := 0 to |outputs|
        invariant records == Merged(old(records), outputs[..i]) && |records| == |old(records)| + appended
        invariant Keys(existing, records)
      {
        assert outputs[..i + 1][..i] == outputs[..i];
        var key := (outputs[i].height, outputs[i].index);
        assert key in existing <==> Stored(records, outputs[i]);
        if key !in existing {
          KeysExtend(existing, records, outputs[i]);
          existing := existing + {key};
          records := records + [outputs[i]];
          appended := appended + 1;
        }
      }
      assert outputs[..|outputs|] == outputs;
    }
  }

  /** The set holds the heights and indexes of the records. */
  ghost predicate Keys(keys: set<(nat, nat)>, file: seq<Record>) {
    forall r: Record :: (r.height, r.index) in keys <==> Stored(file, r)
  }

  lemma KeysOfNothing()
    ensures Keys({}, [])
  {
  }

  lemma StoredExtend(file: seq<Record>, q: Record, r: Record)
    ensures Stored(file + [q], r) <==> Stored(file, r) || (q.height == r.height && q.index == r.index)
  {
    StoredJoin(file, [q], r);
    assert [q][0] == q;
  }

  lemma StoredJoin(a: seq<Record>, b: seq<Record>, r: Record)
    ensures Stored(a + b, r) <==> Stored(a, r) || Stored(b, r)
  {
    assert forall i :: 0 <= i < |a| ==> (a + b)[i] == a[i];
    assert forall i :: 0 <= i < |b| ==> (a + b)[|a| + i] == b[i];
  }

  lemma KeysExtend(keys: set<(nat, nat)>, file: seq<Record>, q: Record)
    requires Keys(keys, file)
    ensures Keys(keys + {(q.height, q.index)}, file + [q])
  {
    hide Stored;
    forall r: Record
      ensures (r.height, r.index) in keys + {(q.height, q.index)} <==> Stored(file + [q], r)
    {
      StoredExtend(file, q, r);
    }
  }

  /** Appending in several calls is appending at once. */
  lemma {:induction false} MergedJoin(file: seq<Record>, a: seq<Record>, b: seq<Record>)
    ensures Merged(file, a + b) == Merged(Merged(file, a), b)
  {
    if b == [] {
      assert a + b == a;
    } else {
      assert (a + b)[..|a + b| - 1] == a + b[..|b| - 1];
      MergedJoin(file, a, b[..|b| - 1]);
    }
  }

  function NotStored(file: seq<Record>): Record -> bool {
    (r: Record) => !Stored(file, r)
  }

  predicate DistinctKeys(rs: seq<Record>) {
    forall i, j :: 0 <= i < j < |rs| ==> (rs[i].height, rs[i].index) != (rs[j].height, rs[j].index)
  }

  lemma NotTwice(rs: seq<Record>)
    requires rs != [] && DistinctKeys(rs)
    ensures DistinctKeys(rs[..|rs| - 1]) && !Stored(rs[..|rs| - 1], rs[|rs| - 1])
  {
  }

  lemma StoredFilter(p: Record -> bool, rs: seq<Record>, r: Record)
    requires !Stored(rs, r)
    ensures !Stored(StableSort.Filter(p, rs), r)
  {
    var kept := StableSort.Filter(p, rs);
    StableSort.FilterMembers(p, rs);
    forall i | 0 <= i < |kept| ensures kept[i].height != r.height || kept[i].index != r.index {
      assert kept[i] in kept;
      var j :| 0 <= j < |rs| && rs[j] == kept[i];
    }
  }

  lemma FilterOne(p: Record -> bool, r: Record)
    ensures StableSort.Filter(p, [r]) == if p(r) then [r] else []
  {
    assert [r][1..] == [] && StableSort.Filter(p, [r][1..]) == [];
  }

  /** Outputs with different heights or indexes: exactly those not stored are appended. */
  lemma {:induction false} MergedIs(file: seq<Record>, rs: seq<Record>)
    requires DistinctKeys(rs)
    ensures Merged(file, rs) == file + StableSort.Filter(NotStored(file), rs)
  {
    hide Stored, DistinctKeys, StableSort.Filter;
    if rs == [] {
      NoneFiltered(NotStored(file));
    } else {
      var t, r := rs[..|rs| - 1], rs[|rs| - 1];
      NotTwice(rs);
      MergedIs(file, t);
      assert rs == t + [r];
      StableSort.FilterAppend(NotStored(file), t, [r]);
      FilterOne(NotStored(file), r);
      StoredFilter(NotStored(file), t, r);
      StoredJoin(file, StableSort.Filter(NotStored(file), t), r);
    }
  }

  lemma NoneFiltered(p: Record -> bool)
    ensures StableSort.Filter(p, []) == []
  {
  }

  // ---------------------------------------------------------------- what a scan appends

  /** The outputs of the blocks at these heights, one block after the other. */
  function Outputs(order: seq<nat>, blocks: nat -> seq<Record>): seq<Record> {
    if order == [] then [] else Outputs(order[..|order| - 1], blocks) + blocks(order[|order| - 1])
  }

  /** Where the outputs of the `a`-th block start in the file. */
  function Start(before: seq<Record>, order: seq<nat>, blocks: nat -> seq<Record>, a: nat): nat
    requires a <= |order|
  {
    |before| + |Outputs(order[..a], blocks)|
  }

  /** Outputs carry the height of their block and an index of their own. */
  ghost predicate Honest(blocks: nat -> seq<Record>) {
    OwnHeights(blocks) && forall h :: DistinctKeys(blocks(h))
  }

  ghost predicate OwnHeights(blocks: nat -> seq<Record>) {
    forall h, r :: r in blocks(h) ==> r.height == h
  }

  /** The outputs of each block that the file lacks. */
  function Missing(before: seq<Record>, blocks: nat -> seq<Record>): nat -> seq<Record> {
    (h: nat) => StableSort.Filter(NotStored(before), blocks(h))
  }

  lemma MissingMembers(before: seq<Record>, blocks: nat -> seq<Record>, h: nat)
    ensures forall r :: r in Missing(before, blocks)(h) <==> r in blocks(h) && !Stored(before, r)
  {
    StableSort.FilterMembers(NotStored(before), blocks(h));
  }

  lemma {:induction false} OutputsMembers(order: seq<nat>, blocks: nat -> seq<Record>)
    ensures forall r :: r in Outputs(order, blocks) <==> exists h :: h in order && r in blocks(h)
  {
    if order != [] {
      var t, h := order[..|order| - 1], order[|order| - 1];
      OutputsMembers(t, blocks);
      assert order == t + [h];
    }
  }

  lemma StoredMember(file: seq<Record>, r: Record)
    requires r in file
    ensures Stored(file, r)
  {
  }

  lemma StoredAtHeight(file: seq<Record>, r: Record)
    requires forall q :: q in file ==> q.height != r.height
    ensures !Stored(file, r)
  {
  }

  lemma OutputsExtend(order: seq<nat>, h: nat, blocks: nat -> seq<Record>)
    ensures Outputs(order + [h], blocks) == Outputs(order, blocks) + blocks(h)
  {
    assert (order + [h])[..|order|] == order;
  }

  /** What one more block adds, the first time and every later time. */
  lemma NextBlock(before: seq<Record>, order: seq<nat>, blocks: nat -> seq<Record>, h: nat)
    requires Honest(blocks)
    ensures var file := before + Outputs(order, Missing(before, blocks));
            Merged(file, blocks(h)) == file + if h in order then [] else Missing(before, blocks)(h)
  {
    hide Stored, StableSort.Filter, Outputs, DistinctKeys;
    var added := Outputs(order, Missing(before, blocks));
    var file := before + added;
    MergedIs(file, blocks(h));
    OutputsMembers(order, Missing(before, blocks));
    MissingMembers(before, blocks, h);
    forall r | r in blocks(h)
      ensures Stored(file, r) <==> h in order || Stored(before, r)
    {
      StoredJoin(before, added, r);
      if h in order {
        if !Stored(before, r) {
          StoredMember(added, r);
        }
      } else {
        NotAdded(before, order, blocks, r);
      }
    }
    if h in order {
      NothingLeft(NotStored(file), blocks(h));
    } else {
      StableSort.FilterSame(NotStored(file), NotStored(before), blocks(h));
    }
  }

  lemma NotAdded(before: seq<Record>, order: seq<nat>, blocks: nat -> seq<Record>, r: Record)
    requires OwnHeights(blocks) && r.height !in order
    ensures !Stored(Outputs(order, Missing(before, blocks)), r)
  {
    hide Stored, StableSort.Filter, Outputs;
    var added := Outputs(order, Missing(before, blocks));
    OutputsMembers(order, Missing(before, blocks));
    forall q | q in added ensures q.height != r.height {
      var g :| g in order && q in Missing(before, blocks)(g);
      MissingMembers(before, blocks, g);
    }
    StoredAtHeight(added, r);
  }

  lemma {:induction false} NothingLeft(p: Record -> bool, rs: seq<Record>)
    requires forall r :: r in rs ==> !p(r)
    ensures StableSort.Filter(p, rs) == []
  {
    if rs != [] {
      assert rs == [rs[0]] + rs[1..];
      NothingLeft(p, rs[1..]);
    }
  }

  /**
   * Whatever arrived how often: the file ends as it was, followed by what it lacked of each block,
   * in the order in which the blocks first arrived.
   */
  lemma {:induction false} ScanAppends(before: seq<Record>, order: seq<nat>, blocks: nat -> seq<Record>)
    requires Honest(blocks)
    ensures Merged(before, Outputs(order, blocks)) == before + Outputs(Dedup(order), Missing(before, blocks))
  {
    hide Honest, Stored, StableSort.Filter, Missing, Dedup, Outputs;
    if order == [] {
      NoBlocks(blocks);
      NoBlocks(Missing(before, blocks));
      NoDedup<nat>({});
      assert before + [] == before;
    } else {
      var t, h := order[..|order| - 1], order[|order| - 1];
      assert order == t + [h];
      ScanAppends(before, t, blocks);
      OutputsExtend(t, h, blocks);
      MergedJoin(before, Outputs(t, blocks), blocks(h));
      NextBlock(before, Dedup(t), blocks, h);
      DedupExtend(t, h);
      DedupMember(t, h);
      OutputsExtend(Dedup(t), h, Missing(before, blocks));
    }
  }

  lemma NoBlocks(blocks: nat -> seq<Record>)
    ensures Outputs([], blocks) == []
  {
  }

  // ---------------------------------------------------------------- when the file is readable afterwards

  /** The commitment of output `k` is neither stored at its height nor before it in its block. */
  ghost predicate NewHere(before: seq<Record>, rs: seq<Record>, k: nat)
    requires k < |rs|
  {
    && (forall r :: r in before ==> CommitmentOf(r) != CommitmentOf(rs[k]))
    && (forall i :: 0 <= i < k ==> CommitmentOf(rs[i]) != CommitmentOf(rs[k]))
  }

  /** How many of the outputs there are up to the last new one. */
  ghost function NewEnd(before: seq<Record>, rs: seq<Record>): (n: nat)
    ensures n <= |rs| && (0 < n ==> NewHere(before, rs, n - 1))
    ensures forall k :: 0 <= k < |rs| && NewHere(before, rs, k) ==> k < n
  {
    if rs == [] then 0
    else
      var t := rs[..|rs| - 1];
      assert forall k :: 0 <= k < |t| ==> (NewHere(before, t, k) <==> NewHere(before, rs, k));
      if NewHere(before, rs, |rs| - 1) then |rs| else NewEnd(before, t)
  }

  /** The place in the file of the last new output of block `b`, if there is one. */
  ghost function LastNew(before: seq<Record>, order: seq<nat>, blocks: nat -> seq<Record>, b: nat): int
    requires b < |order|
  {
    Start(before, order, blocks, b) + NewEnd(before, blocks(order[b])) - 1
  }

  ghost predicate HasNew(before: seq<Record>, order: seq<nat>, blocks: nat -> seq<Record>, b: nat)
    requires b < |order|
  {
    0 < NewEnd(before, blocks(order[b]))
  }

  /** What is new of block `b`, lower than block `a` but behind it, ends on the page on which block `a` starts. */
  ghost predicate Together(before: seq<Record>, order: seq<nat>, blocks: nat -> seq<Record>, limit: nat, a: nat, b: nat)
    requires 0 < limit && a < b < |order|
  {
    order[b] < order[a] && blocks(order[a]) != [] && HasNew(before, order, blocks, b) ==>
      Start(before, order, blocks, a) / limit == LastNew(before, order, blocks, b) / limit
  }

  /**
   * Record `i` of the file before is out of range, or higher than block `b`: then what is new of
   * that ends on its page.
   */
  ghost predicate WithStored(before: seq<Record>, order: seq<nat>, blocks: nat -> seq<Record>, lo: nat, hi: nat,
                             limit: nat, i: nat, b: nat)
    requires 0 < limit && i < |before| && b < |order|
  {
    (!In(before[i], lo, hi) || order[b] < before[i].height) && HasNew(before, order, blocks, b) ==>
      i / limit == LastNew(before, order, blocks, b) / limit
  }

  /** What is new of every block ends on the page of the stored records that it is late for. */
  ghost predicate AllWithStored(before: seq<Record>, order: seq<nat>, blocks: nat -> seq<Record>, lo: nat, hi: nat,
                                limit: nat)
    requires 0 < limit
  {
    forall i, b :: 0 <= i < |before| && 0 <= b < |order| ==> WithStored(before, order, blocks, lo, hi, limit, i, b)
  }

  lemma {:induction false} OutputsSplit(order: seq<nat>, blocks: nat -> seq<Record>, a: nat)
    requires a <= |order|
    ensures Outputs(order[..a], blocks) <= Outputs(order, blocks)
  {
    var n := |order|;
    if a < n {
      OutputsSplit(order[..n - 1], blocks, a);
      assert order[..n - 1][..a] == order[..a];
    } else {
      assert order[..a] == order;
    }
  }

  /** The outputs of the `a`-th block follow those of the blocks before it. */
  lemma BlockPlace(before: seq<Record>, order: seq<nat>, blocks: nat -> seq<Record>, a: nat)
    requires a < |order|
    ensures Outputs(order[..a], blocks) + blocks(order[a]) <= Outputs(order, blocks)
    ensures Start(before, order, blocks, a + 1) == Start(before, order, blocks, a) + |blocks(order[a])|
  {
    var cut := order[..a + 1];
    assert cut[..a] == order[..a];
    OutputsSplit(order, blocks, a + 1);
  }

  lemma PartAt<T>(before: seq<T>, p: seq<T>, q: seq<T>, all: seq<T>, k: nat)
    requires p + q <= all && k < |q|
    ensures |before| + |p| + k < |before + all| && (before + all)[|before| + |p| + k] == q[k]
  {
    assert all[|p| + k] == (p + q)[|p| + k];
  }

  /** Later blocks start later. */
  lemma {:induction false} StartsAscend(before: seq<Record>, order: seq<nat>, blocks: nat -> seq<Record>, a: nat,
                                        b: nat)
    requires a <= b <= |order|
    ensures |before| <= Start(before, order, blocks, a) <= Start(before, order, blocks, b)
    ensures Start(before, order, blocks, b) <= |before + Outputs(order, blocks)|
  {
    assert order[..b][..a] == order[..a];
    OutputsSplit(order[..b], blocks, a);
    OutputsSplit(order, blocks, b);
  }

  /** Every record behind the old ones is one of some block. */
  lemma {:induction false} BlockOf(before: seq<Record>, order: seq<nat>, blocks: nat -> seq<Record>, j: nat)
    returns (b: nat)
    requires |before| <= j < |before + Outputs(order, blocks)|
    ensures b < |order| && Start(before, order, blocks, b) <= j < Start(before, order, blocks, b + 1)
  {
    var n := |order| - 1;
    var cut := order[..n];
    assert order != [];
    if j < |before + Outputs(cut, blocks)| {
      b := BlockOf(before, cut, blocks, j);
      assert cut[..b] == order[..b] && cut[..b + 1] == order[..b + 1];
    } else {
      b := n;
      assert order[..n + 1] == order;
    }
  }

  /** A record of the `b`-th block, at its place in the file. */
  lemma RecordOf(before: seq<Record>, order: seq<nat>, blocks: nat -> seq<Record>, b: nat, j: nat)
    requires OwnHeights(blocks) && b < |order|
    requires Start(before, order, blocks, b) <= j < Start(before, order, blocks, b + 1)
    ensures j < |before + Outputs(order, blocks)|
    ensures (before + Outputs(order, blocks))[j].height == order[b]
    ensures Start(before, order, blocks, b + 1) == Start(before, order, blocks, b) + |blocks(order[b])|
    ensures (before + Outputs(order, blocks))[j] == blocks(order[b])[j - Start(before, order, blocks, b)]
  {
    hide Outputs;
    BlockPlace(before, order, blocks, b);
    var k := j - Start(before, order, blocks, b);
    PartAt(before, Outputs(order[..b], blocks), blocks(order[b]), Outputs(order, blocks), k);
    assert blocks(order[b])[k] in blocks(order[b]);
  }

  /** An output is new in the file exactly if its commitment is neither stored nor before it in its block. */
  lemma NewIsHere(before: seq<Record>, order: seq<nat>, blocks: nat -> seq<Record>, lo: nat, hi: nat, b: nat, j: nat)
    requires OwnHeights(blocks) && Distinct(order) && b < |order| && lo <= order[b] <= hi
    requires Start(before, order, blocks, b) <= j < Start(before, order, blocks, b + 1)
    ensures j - Start(before, order, blocks, b) < |blocks(order[b])|
    ensures New(before + Outputs(order, blocks), lo, hi, j) <==>
            NewHere(before, blocks(order[b]), j - Start(before, order, blocks, b))
  {
    hide InRange, Outputs, Start, OwnHeights, Distinct;
    var file := before + Outputs(order, blocks);
    RecordOf(before, order, blocks, b, j);
    var s, rs := Start(before, order, blocks, b), blocks(order[b]);
    StartsAscend(before, order, blocks, b, b);
    var c := CommitmentOf(file[j]);
    if NewHere(before, rs, j - s) {
      if c in InRange(file[..j], lo, hi) {
        var i := FirstPlace(file, lo, hi, j, c);
        SameBlock(before, order, blocks, b, i, j);
      }
    } else {
      var i := HereBefore(before, order, blocks, b, j);
      InStretch(file, lo, hi, 0, i, j);
      assert file[0..j] == file[..j];
    }
  }

  /** What is not new here has a place before. */
  lemma HereBefore(before: seq<Record>, order: seq<nat>, blocks: nat -> seq<Record>, b: nat, j: nat) returns (i: nat)
    requires OwnHeights(blocks) && b < |order|
    requires Start(before, order, blocks, b) <= j < Start(before, order, blocks, b + 1)
    requires |before| <= Start(before, order, blocks, b) && j < |before + Outputs(order, blocks)|
    requires j - Start(before, order, blocks, b) < |blocks(order[b])|
    requires !NewHere(before, blocks(order[b]), j - Start(before, order, blocks, b))
    ensures var file := before + Outputs(order, blocks);
            i < j && CommitmentOf(file[i]) == CommitmentOf(file[j])
  {
    hide Outputs, Start, OwnHeights;
    var file := before + Outputs(order, blocks);
    RecordOf(before, order, blocks, b, j);
    var s, rs := Start(before, order, blocks, b), blocks(order[b]);
    if r :| r in before && CommitmentOf(r) == CommitmentOf(rs[j - s]) {
      i :| 0 <= i < |before| && before[i] == r;
      assert file[i] == r;
    } else {
      var k :| 0 <= k < j - s && CommitmentOf(rs[k]) == CommitmentOf(rs[j - s]);
      i := s + k;
      RecordOf(before, order, blocks, b, i);
    }
  }

  /** An earlier record of the same commitment is stored, or one of the same block. */
  lemma SameBlock(before: seq<Record>, order: seq<nat>, blocks: nat -> seq<Record>, b: nat, i: nat, j: nat)
    requires OwnHeights(blocks) && Distinct(order) && b < |order| && i < j
    requires Start(before, order, blocks, b) <= j < Start(before, order, blocks, b + 1)
    requires j < |before + Outputs(order, blocks)|
    requires j - Start(before, order, blocks, b) < |blocks(order[b])|
    requires NewHere(before, blocks(order[b]), j - Start(before, order, blocks, b))
    ensures var file := before + Outputs(order, blocks); CommitmentOf(file[i]) != CommitmentOf(file[j])
  {
    hide Outputs, Start, OwnHeights;
    var file := before + Outputs(order, blocks);
    RecordOf(before, order, blocks, b, j);
    if i < |before| {
      assert file[i] in before;
    } else {
      var a := BlockOf(before, order, blocks, i);
      RecordOf(before, order, blocks, a, i);
    }
  }

  lemma NewBefore(before: seq<Record>, more: seq<Record>, lo: nat, hi: nat, i: nat, j: nat)
    requires i < j < |before|
    ensures Late(before, lo, hi, i, j) <==> Late(before + more, lo, hi, i, j)
  {
    assert (before + more)[..j] == before[..j];
  }

  /** The core of it: blocks that arrive once. */
  lemma ReadableWithAdded(before: seq<Record>, order: seq<nat>, blocks: nat -> seq<Record>, lo: nat, hi: nat,
                          limit: nat)
    requires 0 < limit && OwnHeights(blocks) && Distinct(order) && forall h :: h in order ==> lo <= h <= hi
    ensures Readable(before + Outputs(order, blocks), lo, hi, limit) <==>
            && Readable(before, lo, hi, limit)
            && AllWithStored(before, order, blocks, lo, hi, limit)
            && forall a, b :: 0 <= a < b < |order| ==> Together(before, order, blocks, limit, a, b)
  {
    hide Late, New, In, OwnHeights, Start, Outputs, Distinct, WithStored, Together;
    var file := before + Outputs(order, blocks);
    if Readable(file, lo, hi, limit) {
      forall i: nat, j: nat | Late(before, lo, hi, i, j) ensures i / limit == j / limit {
        LateBounds(before, lo, hi, i, j);
        NewBefore(before, Outputs(order, blocks), lo, hi, i, j);
      }
      forall i, b | 0 <= i < |before| && 0 <= b < |order|
        ensures WithStored(before, order, blocks, lo, hi, limit, i, b)
      {
        ReadableWithStored(before, order, blocks, lo, hi, limit, i, b);
      }
      forall a, b | 0 <= a < b < |order| ensures Together(before, order, blocks, limit, a, b) {
        ReadableTogether(before, order, blocks, lo, hi, limit, a, b);
      }
    }
    if && Readable(before, lo, hi, limit) && AllWithStored(before, order, blocks, lo, hi, limit)
       && forall a, b :: 0 <= a < b < |order| ==> Together(before, order, blocks, limit, a, b)
    {
      forall i: nat, j: nat | Late(file, lo, hi, i, j) ensures i / limit == j / limit {
        LateBounds(file, lo, hi, i, j);
        if j < |before| {
          NewBefore(before, Outputs(order, blocks), lo, hi, i, j);
        } else if i < |before| {
          LateWithStored(before, order, blocks, lo, hi, limit, i, j);
        } else {
          LateTogether(before, order, blocks, lo, hi, limit, i, j);
        }
      }
    }
  }

  lemma LateBounds(file: seq<Record>, lo: nat, hi: nat, i: nat, j: nat)
    requires Late(file, lo, hi, i, j)
    ensures i < j < |file|
  {
  }

  /** The last new output of a block is new in the file. */
  lemma LastIsNew(before: seq<Record>, order: seq<nat>, blocks: nat -> seq<Record>, lo: nat, hi: nat, b: nat)
    returns (j: nat)
    requires OwnHeights(blocks) && Distinct(order) && b < |order| && lo <= order[b] <= hi
    requires HasNew(before, order, blocks, b)
    ensures j == LastNew(before, order, blocks, b) && Start(before, order, blocks, b) <= j
    ensures j < |before + Outputs(order, blocks)| && |before| <= j && New(before + Outputs(order, blocks), lo, hi, j)
    ensures (before + Outputs(order, blocks))[j].height == order[b]
  {
    hide New, OwnHeights, Outputs, Distinct, NewHere;
    BlockPlace(before, order, blocks, b);
    StartsAscend(before, order, blocks, b, b);
    j := LastNew(before, order, blocks, b);
    RecordOf(before, order, blocks, b, j);
    NewIsHere(before, order, blocks, lo, hi, b, j);
  }

  lemma ReadableWithStored(before: seq<Record>, order: seq<nat>, blocks: nat -> seq<Record>, lo: nat, hi: nat,
                           limit: nat, i: nat, b: nat)
    requires 0 < limit && OwnHeights(blocks) && Distinct(order) && forall h :: h in order ==> lo <= h <= hi
    requires i < |before| && b < |order| && Readable(before + Outputs(order, blocks), lo, hi, limit)
    ensures WithStored(before, order, blocks, lo, hi, limit, i, b)
  {
    hide New, OwnHeights, Outputs, Distinct, Start, In, HasNew, LastNew;
    assert order[b] in order;
    if (!In(before[i], lo, hi) || order[b] < before[i].height) && HasNew(before, order, blocks, b) {
      var j := LastIsNew(before, order, blocks, lo, hi, b);
      assert Late(before + Outputs(order, blocks), lo, hi, i, j);
    }
  }

  lemma ReadableTogether(before: seq<Record>, order: seq<nat>, blocks: nat -> seq<Record>, lo: nat, hi: nat, limit: nat,
                         a: nat, b: nat)
    requires 0 < limit && OwnHeights(blocks) && Distinct(order) && forall h :: h in order ==> lo <= h <= hi
    requires a < b < |order| && Readable(before + Outputs(order, blocks), lo, hi, limit)
    ensures Together(before, order, blocks, limit, a, b)
  {
    hide New, OwnHeights, Outputs, Distinct, In, HasNew, LastNew;
    var file := before + Outputs(order, blocks);
    assert order[b] in order;
    if order[b] < order[a] && blocks(order[a]) != [] && HasNew(before, order, blocks, b) {
      var i := Start(before, order, blocks, a);
      BlockPlace(before, order, blocks, a);
      StartsAscend(before, order, blocks, a + 1, b);
      RecordOf(before, order, blocks, a, i);
      var j := LastIsNew(before, order, blocks, lo, hi, b);
      assert Late(file, lo, hi, i, j);
    }
  }

  /** A late output of the scan is no later than the last new one of its block. */
  lemma LateInBlock(before: seq<Record>, order: seq<nat>, blocks: nat -> seq<Record>, lo: nat, hi: nat, i: nat, j: nat)
    returns (b: nat)
    requires OwnHeights(blocks) && Distinct(order) && forall h :: h in order ==> lo <= h <= hi
    requires |before| <= j && Late(before + Outputs(order, blocks), lo, hi, i, j)
    ensures b < |order| && Start(before, order, blocks, b) <= j < Start(before, order, blocks, b + 1)
    ensures HasNew(before, order, blocks, b) && j <= LastNew(before, order, blocks, b)
    ensures j < |before + Outputs(order, blocks)| && (before + Outputs(order, blocks))[j].height == order[b]
  {
    hide New, OwnHeights, Outputs, Start, NewHere, Distinct;
    b := BlockOf(before, order, blocks, j);
    assert order[b] in order;
    RecordOf(before, order, blocks, b, j);
    NewIsHere(before, order, blocks, lo, hi, b, j);
  }

  lemma LateWithStored(before: seq<Record>, order: seq<nat>, blocks: nat -> seq<Record>, lo: nat, hi: nat, limit: nat,
                       i: nat, j: nat)
    requires 0 < limit && OwnHeights(blocks) && Distinct(order) && forall h :: h in order ==> lo <= h <= hi
    requires AllWithStored(before, order, blocks, lo, hi, limit)
    requires i < |before| <= j && Late(before + Outputs(order, blocks), lo, hi, i, j)
    ensures i / limit == j / limit
  {
    hide New, OwnHeights, Outputs, Start, In, HasNew, LastNew, Distinct;
    var b := LateInBlock(before, order, blocks, lo, hi, i, j);
    assert WithStored(before, order, blocks, lo, hi, limit, i, b);
    DivGrows(i, j, limit);
    DivGrows(j, LastNew(before, order, blocks, b), limit);
  }

  lemma LateTogether(before: seq<Record>, order: seq<nat>, blocks: nat -> seq<Record>, lo: nat, hi: nat, limit: nat,
                     i: nat, j: nat)
    requires 0 < limit && OwnHeights(blocks) && Distinct(order) && forall h :: h in order ==> lo <= h <= hi
    requires forall a, b :: 0 <= a < b < |order| ==> Together(before, order, blocks, limit, a, b)
    requires |before| <= i && Late(before + Outputs(order, blocks), lo, hi, i, j)
    ensures i / limit == j / limit
  {
    hide New, OwnHeights, Outputs, Start, HasNew, LastNew, Distinct;
    var b := LateInBlock(before, order, blocks, lo, hi, i, j);
    var a := BlockOf(before, order, blocks, i);
    RecordOf(before, order, blocks, a, i);
    assert order[a] in order;
    if b <= a {
      StartsAscend(before, order, blocks, b + 1, a);
    }
    assert Together(before, order, blocks, limit, a, b);
    DivGrows(Start(before, order, blocks, a), i, limit);
    DivGrows(i, j, limit);
    DivGrows(j, LastNew(before, order, blocks, b), limit);
  }

  lemma MissingOwnHeights(before: seq<Record>, blocks: nat -> seq<Record>)
    requires OwnHeights(blocks)
    ensures OwnHeights(Missing(before, blocks))
  {
    hide Stored, StableSort.Filter;
    forall h, r | r in Missing(before, blocks)(h) ensures r.height == h {
      MissingMembers(before, blocks, h);
    }
  }

  lemma HonestIs(blocks: nat -> seq<Record>)
    requires Honest(blocks)
    ensures OwnHeights(blocks)
  {
  }

  /**
   * Exactly when the file that a scan leaves is readable at a page size, whatever was stored before
   * and whatever arrived how often: if it was before; if what is new of every block ends on the page
   * of the stored records that are higher or out of range; and if it ends on the page on which each
   * higher block starts that arrived before it.
   */
  lemma ReadableAfterScan(before: seq<Record>, order: seq<nat>, blocks: nat -> seq<Record>, lo: nat, hi: nat,
                          limit: nat)
    requires 0 < limit && Honest(blocks) && forall h :: h in order ==> lo <= h <= hi
    ensures var first, added := Dedup(order), Missing(before, blocks);
            Readable(Merged(before, Outputs(order, blocks)), lo, hi, limit) <==>
            && Readable(before, lo, hi, limit)
            && AllWithStored(before, first, added, lo, hi, limit)
            && forall a, b :: 0 <= a < b < |first| ==> Together(before, first, added, limit, a, b)
  {
    hide Readable, Honest, OwnHeights, AllWithStored, Together, Merged, Outputs, Missing, Dedup;
    ScanAppends(before, order, blocks);
    HonestIs(blocks);
    MissingOwnHeights(before, blocks);
    DedupMembers<nat>(order);
    ReadableWithAdded(before, Dedup(order), Missing(before, blocks), lo, hi, limit);
  }

  // ---------------------------------------------------------------- a full scan

  /** Dropping repeats keeps the blocks in turn. */
  lemma {:induction false} FirstInTurn(headers: seq<B.Header>, order: seq<nat>)
    requires B.InTurn(headers, order)
    ensures B.InTurn(headers, Dedup(order))
  {
    hide B.SameBatch;
    if order != [] {
      var t, h := order[..|order| - 1], order[|order| - 1];
      assert order == t + [h];
      FirstInTurn(headers, t);
      DedupMembers<nat>(t);
      var d := Dedup(t);
      forall i | 0 <= i < |d| && h < d[i] ensures B.SameBatch(headers, d[i], h) {
        assert d[i] in t;
        var k :| 0 <= k < |t| && t[k] == d[i];
        assert order[k] == d[i];
      }
    }
  }

  /** No batch with a late block reaches from one page into another. */
  ghost predicate BatchesOnPages(headers: seq<B.Header>, before: seq<Record>, order: seq<nat>,
                                 blocks: nat -> seq<Record>, limit: nat)
    requires 0 < limit
  {
    forall a, b :: 0 <= a < b < |order| && order[b] < order[a] && B.SameBatch(headers, order[a], order[b]) ==>
      Together(before, order, blocks, limit, a, b)
  }

  /**
   * After a full scan of `headers`, whatever was stored, whatever the peers answered and however it
   * ended: the file is readable at a page size exactly if it was before, what is new of every block
   * ends on the page of the higher records stored before, and no batch with a late block reaches from
   * one page into another. Across batches nothing is late.
   */
  lemma ReadableAfterFullScan(headers: seq<B.Header>, before: seq<Record>, order: seq<nat>, blocks: nat -> seq<Record>,
                              lo: nat, hi: nat, limit: nat)
    requires 0 < limit && Honest(blocks) && forall h :: h in order ==> lo <= h <= hi
    requires B.InTurn(headers, order)
    ensures var first, added := Dedup(order), Missing(before, blocks);
            Readable(Merged(before, Outputs(order, blocks)), lo, hi, limit) <==>
            && Readable(before, lo, hi, limit)
            && AllWithStored(before, first, added, lo, hi, limit)
            && BatchesOnPages(headers, before, first, added, limit)
  {
    hide Readable, Honest, AllWithStored, Merged, Outputs, Missing, Dedup, Start, B.SameBatch;
    var first, added := Dedup(order), Missing(before, blocks);
    ReadableAfterScan(before, order, blocks, lo, hi, limit);
    FirstInTurn(headers, order);
    assert BatchesOnPages(headers, before, first, added, limit) <==>
           forall a, b :: 0 <= a < b < |first| ==> Together(before, first, added, limit, a, b);
  }

  // ---------------------------------------------------------------- a rescan

  /** One more block than a file of blocks in order has: the one that was missing before the last. */
  function Filling(lo: nat, n: nat): nat -> seq<Record> {
    (h: nat) => if h == lo + n then [Sample(lo + n, 3)] else []
  }

  /**
   * A rescan brings a block that was missing below one already stored. The file was readable with
   * pages that end between the two, and then it no longer is; with larger pages it still is.
   */
  lemma RescanLeavesLate(lo: nat, n: nat, hi: nat, larger: nat)
    requires lo + n < hi && n + 1 < larger
    ensures var before := LateBlock.Outputs(lo, n) + [Sample(lo + n + 1, 2)];
            var file := Merged(before, Outputs([lo + n], Filling(lo, n)));
            && Honest(Filling(lo, n))
            && Readable(before, lo, hi, n + 1)
            && !Readable(file, lo, hi, n + 1) && Readable(file, lo, hi, larger)
  {
    hide Sample, Readable, Honest, Merged, Outputs, Filling, LateBlock.RetriedFile;
    FillingIsHonest(lo, n);
    FillingAppends(lo, n);
    LateBlock.RetriedNotReadable(lo, n, hi, larger);
    WithinOnePage(LateBlock.Outputs(lo, n) + [Sample(lo + n + 1, 2)], lo, hi, n + 1);
  }

  lemma FillingIsHonest(lo: nat, n: nat)
    ensures Honest(Filling(lo, n))
  {
    hide Sample;
    SampleHeights();
  }

  lemma FillingAppends(lo: nat, n: nat)
    ensures Merged(LateBlock.Outputs(lo, n) + [Sample(lo + n + 1, 2)], Outputs([lo + n], Filling(lo, n)))
         == LateBlock.RetriedFile(lo, n)
  {
    hide Sample, Stored;
    SampleHeights();
    var fill, x, y := LateBlock.Outputs(lo, n), Sample(lo + n + 1, 2), Sample(lo + n, 3);
    var h: nat := lo + n;
    OutputsExtend([], h, Filling(lo, n));
    assert [] + [h] == [h] && [] + [y] == [y];
    forall r | r in fill + [x] ensures r.height != y.height {
    }
    StoredAtHeight(fill + [x], y);
    assert [y][..0] == [];
    assert fill + [x] + [y] == fill + [x, y];
  }

  lemma WithinOnePage(file: seq<Record>, lo: nat, hi: nat, limit: nat)
    requires 0 < limit && |file| <= limit
    ensures Readable(file, lo, hi, limit)
  {
    hide New, In;
    forall i: nat | i < |file| ensures i / limit == 0 {
      SmallQuotient(i, limit);
    }
  }
}
