/**
 * From delta records to discovered notes: regrouping records into blocks
 * (crates/zipherx-core/src/async_sync.rs) and threading tree positions through the blocks
 * (crates/zipherx-core/src/scanner.rs).
 */
module BlockScan {
  import opened Common
  import opened DeltaStore
  import StableSort

  const ENC_CIPHERTEXT_LEN: nat := 580

  datatype Output = Output(txid: Bytes, cmu: Bytes, epk: Bytes, ciphertext: Bytes)

  datatype Block = Block(height: nat, outputs: seq<Output>)

  /** An output with the height of its block. */
  type Placed = (nat, Output)

  function Le32(n: nat): Bytes {
    [(n % 256) as byte, (n / 0x100 % 256) as byte, (n / 0x1_0000 % 256) as byte, (n / 0x100_0000 % 256) as byte]
  }

  /** The recorded transaction id, or a synthetic one from height and index for old records. */
  function TxidOf(r: Record): Bytes {
    if HASH_LEN <= |r.txid| && exists i :: 0 <= i < |r.txid| && r.txid[i] != 0 then r.txid[..HASH_LEN]
    else Le32(r.height) + Le32(r.index) + seq(24, _ => 0)
  }

  function OutputOf(r: Record): Output {
    Output(TxidOf(r), r.cmu, r.epk, r.ciphertext)
  }

  /** The records as one list of outputs, in file order. */
  function Flat(rs: seq<Record>): (f: seq<Placed>)
    ensures |f| == |rs| && forall i :: 0 <= i < |rs| ==> f[i] == (rs[i].height, OutputOf(rs[i]))
  {
    seq(|rs|, i requires 0 <= i < |rs| => (rs[i].height, OutputOf(rs[i])))
  }

  // ---------------------------------------------------------------- regrouping

  function AtHeight(rs: seq<Record>, h: nat): seq<(nat, Output)> {
    if rs == [] then []
    else
      var last := rs[|rs| - 1];
      AtHeight(rs[..|rs| - 1], h) + if last.height == h then [(last.index, OutputOf(last))] else []
  }

  predicate NotAfter(a: (nat, Output), b: (nat, Output)) {
    a.0 <= b.0
  }

  /** `sort_by_key` on the output index: stable. */
  function SortByIndex(s: seq<(nat, Output)>): seq<(nat, Output)> {
    StableSort.Sort(NotAfter, s)
  }

  function Outputs(s: seq<(nat, Output)>): (r: seq<Output>)
    ensures |r| == |s| && forall i :: 0 <= i < |s| ==> r[i] == s[i].1
  {
    seq(|s|, i requires 0 <= i < |s| => s[i].1)
  }

  function BlockAt(rs: seq<Record>, h: nat): Block {
    Block(h, Outputs(SortByIndex(AtHeight(rs, h))))
  }

  function BlocksAt(rs: seq<Record>, hs: seq<nat>): (r: seq<Block>)
    ensures |r| == |hs| && forall i :: 0 <= i < |hs| ==> r[i] == BlockAt(rs, hs[i])
  {
    seq(|hs|, i requires 0 <= i < |hs| => BlockAt(rs, hs[i]))
  }

  predicate Increasing(hs: seq<nat>) {
    forall i, j :: 0 <= i < j < |hs| ==> hs[i] < hs[j]
  }

  ghost predicate HeightsOf(hs: seq<nat>, rs: seq<Record>) {
    && Increasing(hs)
    && (forall h :: h in hs <==> exists i :: 0 <= i < |rs| && rs[i].height == h)
  }

  lemma LeastExists(s: set<nat>) returns (least: nat)
    requires s != {}
    ensures least in s && forall x :: x in s ==> least <= x
  {
    least :| least in s;
    if s != {least} {
      var rest := s - {least};
      assert s == rest + {least};
      var other := LeastExists(rest);
      if other < least {
        least := other;
      }
    }
  }

  /** The keys of an ordered map, ascending. */
  method AscendingKeys(keys: set<nat>) returns (hs: seq<nat>)
    ensures Increasing(hs) && forall h :: h in hs <==> h in keys
  {
    hs := [];
    var left := keys;
    while left != {}
      invariant Increasing(hs) && (forall h :: h in hs || h in left <==> h in keys)
      invariant forall h, k :: h in hs && k in left ==> h < k
    {
      ghost var least := LeastExists(left);
      assert forall i :: 0 <= i < |hs| ==> hs[i] in hs;
      var h :| h in left && forall x :: x in left ==> h <= x;
      hs, left := hs + [h], left - {h};
    }
  }

  ghost predicate Grouped(byHeight: map<nat, seq<(nat, Output)>>, rs: seq<Record>) {
    forall h: nat :: AtHeight(rs, h) == if h in byHeight then byHeight[h] else []
  }

  method GroupByHeight(rs: seq<Record>) returns (byHeight: map<nat, seq<(nat, Output)>>)
    ensures Grouped(byHeight, rs)
    ensures forall h: nat :: h in byHeight <==> AtHeight(rs, h) != []
  {
    byHeight := map[];
    for i := 0 to |rs|
      invariant Grouped(byHeight, rs[..i]) && forall h :: h in byHeight ==> byHeight[h] != []
    {
      assert rs[..i + 1][..i] == rs[..i];
      var h := rs[i].height;
      byHeight := byHeight[h := (if h in byHeight then byHeight[h] else []) + [(rs[i].index, OutputOf(rs[i]))]];
    }
    assert rs[..|rs|] == rs;
  }

  lemma {:induction false} HasHeight(rs: seq<Record>, h: nat)
    ensures AtHeight(rs, h) != [] <==> exists i :: 0 <= i < |rs| && rs[i].height == h
  {
    if rs != [] {
      var t := rs[..|rs| - 1];
      HasHeight(t, h);
      assert forall i :: 0 <= i < |t| ==> t[i] == rs[i];
    }
  }

  /** The block at `h`, made of the group collected for `h`. */
  lemma BlockOfGroup(byHeight: map<nat, seq<(nat, Output)>>, rs: seq<Record>, h: nat)
    requires Grouped(byHeight, rs) && h in byHeight
    ensures Block(h, Outputs(SortByIndex(byHeight[h]))) == BlockAt(rs, h)
  {
    hide AtHeight, SortByIndex;
    assert AtHeight(rs, h) == byHeight[h];
  }

  method ReconstructCompactBlocks(rs: seq<Record>) returns (blocks: seq<Block>, ghost hs: seq<nat>)
    ensures HeightsOf(hs, rs) && blocks == BlocksAt(rs, hs)
  {
    hide AtHeight, SortByIndex, Grouped, BlockAt, Outputs, OutputOf;
    var byHeight := GroupByHeight(rs);
    var keys := AscendingKeys(byHeight.Keys);
    hs := keys;
    blocks := [];
    for i := 0 to |keys|
      invariant |blocks| == i && forall j :: 0 <= j < i ==> blocks[j] == BlockAt(rs, keys[j])
    {
      assert keys[i] in keys;
      BlockOfGroup(byHeight, rs, keys[i]);
      blocks := blocks + [Block(keys[i], Outputs(SortByIndex(byHeight[keys[i]])))];
    }
    forall h ensures h in hs <==> exists i :: 0 <= i < |rs| && rs[i].height == h {
      HasHeight(rs, h);
    }
  }

  function Place(b: Block): (r: seq<Placed>)
    ensures |r| == |b.outputs| && forall i :: 0 <= i < |r| ==> r[i] == (b.height, b.outputs[i])
  {
    seq(|b.outputs|, i requires 0 <= i < |b.outputs| => (b.height, b.outputs[i]))
  }

  function Flatten(blocks: seq<Block>): seq<Placed> {
    if blocks == [] then [] else Flatten(blocks[..|blocks| - 1]) + Place(blocks[|blocks| - 1])
  }

  lemma {:induction false} AtHeightAppend(a: seq<Record>, b: seq<Record>, h: nat)
    ensures AtHeight(a + b, h) == AtHeight(a, h) + AtHeight(b, h)
  {
    if b == [] {
      assert a + b == a;
    } else {
      assert (a + b)[..|a + b| - 1] == a + b[..|b| - 1];
      AtHeightAppend(a, b[..|b| - 1], h);
    }
  }

  lemma {:induction false} NoneAtHeight(rs: seq<Record>, h: nat)
    requires forall i :: 0 <= i < |rs| ==> rs[i].height != h
    ensures AtHeight(rs, h) == []
  {
    if rs != [] {
      NoneAtHeight(rs[..|rs| - 1], h);
    }
  }

  lemma {:induction false} AllAtHeight(rs: seq<Record>, h: nat)
    requires forall i :: 0 <= i < |rs| ==> rs[i].height == h
    ensures |AtHeight(rs, h)| == |rs|
    ensures forall i :: 0 <= i < |rs| ==> AtHeight(rs, h)[i] == (rs[i].index, OutputOf(rs[i]))
  {
    hide OutputOf;
    if rs != [] {
      var n := |rs| - 1;
      AllAtHeight(rs[..n], h);
      assert AtHeight(rs, h) == AtHeight(rs[..n], h) + [(rs[n].index, OutputOf(rs[n]))];
    }
  }

  /** Ordered records split before their highest block. */
  lemma {:induction false} LastBlockStart(rs: seq<Record>, h: nat) returns (k: nat)
    requires InOrder(rs) && forall i :: 0 <= i < |rs| ==> rs[i].height <= h
    ensures k <= |rs|
    ensures forall i :: 0 <= i < k ==> rs[i].height < h
    ensures forall i :: k <= i < |rs| ==> rs[i].height == h
  {
    if rs == [] || rs[|rs| - 1].height < h {
      k := |rs|;
    } else {
      k := LastBlockStart(rs[..|rs| - 1], h);
    }
  }

  lemma PlaceSorted(s: seq<(nat, Output)>, rs: seq<Record>, h: nat)
    requires |s| == |rs| && forall i :: 0 <= i < |rs| ==> s[i] == (rs[i].index, OutputOf(rs[i])) && rs[i].height == h
    requires InOrder(rs)
    ensures Place(Block(h, Outputs(SortByIndex(s)))) == Flat(rs)
  {
    hide StableSort.Sort, OutputOf;
    StableSort.SortFixpoint(NotAfter, s);
  }

  /** The highest block of ordered records holds them in file order. */
  lemma LastBlock(rs: seq<Record>, k: nat, h: nat)
    requires InOrder(rs) && k <= |rs|
    requires forall i :: 0 <= i < k ==> rs[i].height < h
    requires forall i :: k <= i < |rs| ==> rs[i].height == h
    ensures Place(BlockAt(rs, h)) == Flat(rs[k..])
  {
    hide AtHeight, SortByIndex, InOrder, OutputOf, TxidOf;
    OrderedPrefix(rs, k);
    var low, high := rs[..k], rs[k..];
    assert rs == low + high;
    AtHeightAppend(low, high, h);
    NoneAtHeight(low, h);
    AllAtHeight(high, h);
    assert AtHeight(rs, h) == AtHeight(high, h);
    PlaceSorted(AtHeight(high, h), high, h);
  }

  /** The lower blocks do not see the highest one. */
  lemma LowerBlocks(rs: seq<Record>, k: nat, hs: seq<nat>)
    requires k <= |rs| && forall i, g :: k <= i < |rs| && g in hs ==> rs[i].height != g
    ensures BlocksAt(rs, hs) == BlocksAt(rs[..k], hs)
  {
    hide AtHeight, SortByIndex;
    var low, high := rs[..k], rs[k..];
    assert rs == low + high;
    forall j | 0 <= j < |hs| ensures BlockAt(rs, hs[j]) == BlockAt(low, hs[j]) {
      assert hs[j] in hs && forall i :: 0 <= i < |high| ==> high[i] == rs[k + i];
      AtHeightAppend(low, high, hs[j]);
      NoneAtHeight(high, hs[j]);
      assert AtHeight(rs, hs[j]) == AtHeight(low, hs[j]);
    }
  }

  /** Splits off the highest block of ordered records. */
  lemma SplitLastBlock(rs: seq<Record>, hs: seq<nat>) returns (k: nat)
    requires InOrder(rs) && HeightsOf(hs, rs) && hs != []
    ensures k <= |rs| && HeightsOf(hs[..|hs| - 1], rs[..k])
    ensures Flatten(BlocksAt(rs, hs)) == Flatten(BlocksAt(rs[..k], hs[..|hs| - 1])) + Flat(rs[k..])
  {
    var m := |hs| - 1;
    var h := hs[m];
    forall i | 0 <= i < |rs| ensures rs[i].height <= h {
      assert rs[i].height in hs;
    }
    k := LastBlockStart(rs, h);
    LastBlock(rs, k, h);
    HeightsWithoutLast(rs, hs, k);
    LowerBlocks(rs, k, hs[..m]);
    assert BlocksAt(rs, hs)[..m] == BlocksAt(rs, hs[..m]);
  }

  lemma OrderedPrefix(rs: seq<Record>, k: nat)
    requires InOrder(rs) && k <= |rs|
    ensures InOrder(rs[..k]) && InOrder(rs[k..])
  {
  }

  lemma EachHeightHasRecords(rs: seq<Record>, hs: seq<nat>)
    requires HeightsOf(hs, rs)
    ensures hs == [] <==> rs == []
  {
    if hs != [] {
      assert hs[0] in hs;
    }
    if rs != [] {
      assert rs[0].height in hs;
    }
  }

  /** Regrouping ordered records into blocks and flattening the blocks gives the records back. */
  lemma {:induction false} RegroupingIsIdentity(rs: seq<Record>, hs: seq<nat>)
    requires InOrder(rs) && HeightsOf(hs, rs)
    ensures Flatten(BlocksAt(rs, hs)) == Flat(rs)
    decreases |hs|
  {
    hide AtHeight, SortByIndex, InOrder, BlockAt, OutputOf, TxidOf;
    EachHeightHasRecords(rs, hs);
    if rs != [] {
      assert rs[0].height in hs;
      var k := SplitLastBlock(rs, hs);
      OrderedPrefix(rs, k);
      RegroupingIsIdentity(rs[..k], hs[..|hs| - 1]);
      assert Flat(rs) == Flat(rs[..k]) + Flat(rs[k..]);
    }
  }

  // ---------------------------------------------------------------- records in any order

  function KeyedOutput(r: Record): (nat, Output) {
    (r.index, OutputOf(r))
  }

  function At(h: nat): Record -> bool {
    (r: Record) => r.height == h
  }

  lemma {:induction false} AtHeightIs(rs: seq<Record>, h: nat)
    ensures AtHeight(rs, h) == StableSort.Map(KeyedOutput, StableSort.Filter(At(h), rs))
  {
    hide OutputOf;
    if rs != [] {
      var t, x := rs[..|rs| - 1], rs[|rs| - 1];
      AtHeightIs(t, h);
      assert rs == t + [x];
      StableSort.FilterAppend(At(h), t, [x]);
      assert [x][1..] == [] && StableSort.Filter(At(h), [x][1..]) == [];
    }
  }

  /** A block does not depend on the order of the records it is made of. */
  lemma SortedBlock(rs: seq<Record>, h: nat)
    ensures BlockAt(rs, h) == BlockAt(StableSort.Sort(ChainOrder, rs), h)
  {
    hide OutputOf, StableSort.Sort, StableSort.Filter, AtHeight;
    ChainPreorder();
    var sorted := StableSort.Sort(ChainOrder, rs);
    var group := StableSort.Filter(At(h), rs);
    AtHeightIs(rs, h);
    AtHeightIs(sorted, h);
    StableSort.SortFilter(ChainOrder, At(h), rs);
    StableSort.FilterMembers(At(h), rs);
    StableSort.MapSort(KeyedOutput, ChainOrder, NotAfter, group);
    assert AtHeight(sorted, h) == SortByIndex(AtHeight(rs, h));
    StableSort.SortSorts(NotAfter, AtHeight(rs, h));
    StableSort.SortFixpoint(NotAfter, AtHeight(sorted, h));
  }

  /** Regrouping any records into blocks and flattening the blocks sorts them by height, then index. */
  lemma RegroupingSorts(rs: seq<Record>, hs: seq<nat>)
    requires HeightsOf(hs, rs)
    ensures Flatten(BlocksAt(rs, hs)) == Flat(StableSort.Sort(ChainOrder, rs))
  {
    hide OutputOf, StableSort.Sort, BlockAt, AtHeight;
    ChainPreorder();
    var sorted := StableSort.Sort(ChainOrder, rs);
    StableSort.SortSorts(ChainOrder, rs);
    StableSort.SortKeeps(ChainOrder, rs);
    forall i | 0 <= i < |hs| ensures BlockAt(rs, hs[i]) == BlockAt(sorted, hs[i]) {
      SortedBlock(rs, hs[i]);
    }
    assert BlocksAt(rs, hs) == BlocksAt(sorted, hs);
    SameHeights(rs, sorted, hs);
    RegroupingIsIdentity(sorted, hs);
  }

  lemma SameHeights(rs: seq<Record>, sorted: seq<Record>, hs: seq<nat>)
    requires HeightsOf(hs, rs) && multiset(rs) == multiset(sorted)
    ensures HeightsOf(hs, sorted)
  {
    forall h ensures h in hs <==> exists i :: 0 <= i < |sorted| && sorted[i].height == h {
      if h in hs {
        var i :| 0 <= i < |rs| && rs[i].height == h;
        assert rs[i] in multiset(sorted);
        var j :| 0 <= j < |sorted| && sorted[j] == rs[i];
      }
      if i :| 0 <= i < |sorted| && sorted[i].height == h {
        assert sorted[i] in multiset(rs);
        var j :| 0 <= j < |rs| && rs[j] == sorted[i];
        assert rs[j].height == h;
      }
    }
  }

  lemma HeightsWithoutLast(rs: seq<Record>, hs: seq<nat>, k: nat)
    requires HeightsOf(hs, rs) && hs != [] && k <= |rs|
    requires forall i :: 0 <= i < k ==> rs[i].height < hs[|hs| - 1]
    requires forall i :: k <= i < |rs| ==> rs[i].height == hs[|hs| - 1]
    ensures HeightsOf(hs[..|hs| - 1], rs[..k])
  {
    var m := |hs| - 1;
    forall g ensures g in hs[..m] <==> exists i :: 0 <= i < k && rs[..k][i].height == g {
      if g in hs[..m] {
        assert g in hs && g < hs[m];
        var i :| 0 <= i < |rs| && rs[i].height == g;
        assert rs[..k][i].height == g;
      }
      if i :| 0 <= i < k && rs[..k][i].height == g {
        assert rs[i].height == g;
        assert g in hs;
      }
    }
  }

  // ---------------------------------------------------------------- scanning

  datatype Plain = Plain(value: nat, diversifier: Bytes, rcm: Bytes)

  /** Trial decryption, nullifier at a position, and recomputed commitment under one spending key. */
  datatype Keys = Keys(valid: bool, decrypt: (Output, nat) -> Option<Plain>,
                       nullifier: (Plain, nat) -> Option<Bytes>, cmu: Plain -> Option<Bytes>)

  datatype Found = Found(height: nat, txid: Bytes, cmu: Bytes, epk: Bytes, plain: Plain, nullifier: Bytes,
                         position: nat)

  datatype ScanError = InvalidKey | NullifierFailed

  /** The note an output holds for us, if any. */
  function Opened(keys: Keys, o: Placed): Option<Plain> {
    if |o.1.ciphertext| < ENC_CIPHERTEXT_LEN then None else keys.decrypt(o.1, o.0)
  }

  /** What scanning one output at tree position `pos` discovers. */
  function Finding(keys: Keys, o: Placed, pos: nat): seq<Found> {
    var plain := Opened(keys, o);
    if plain.None? || keys.nullifier(plain.value, pos).None? then []
    else
      var cmu := keys.cmu(plain.value);
      [Found(o.0, o.1.txid, if cmu.Some? then cmu.value else o.1.cmu, o.1.epk, plain.value,
             keys.nullifier(plain.value, pos).value, pos)]
  }

  function Finds(keys: Keys, s: seq<Placed>, pos: nat): seq<Found> {
    if s == [] then []
    else Finds(keys, s[..|s| - 1], pos) + Finding(keys, s[|s| - 1], pos + |s| - 1)
  }

  /** No output of ours lacks a nullifier, and the key is well formed. */
  predicate Scannable(keys: Keys, s: seq<Placed>, pos: nat) {
    (s != [] ==> keys.valid)
    && forall i :: 0 <= i < |s| && Opened(keys, s[i]).Some? ==> keys.nullifier(Opened(keys, s[i]).value, pos + i).Some?
  }

  lemma NothingToScan(keys: Keys, pos: nat)
    ensures Finds(keys, [], pos) == [] && Scannable(keys, [], pos)
  {
  }

  lemma ScanPrefixFails(keys: Keys, s: seq<Placed>, k: nat, pos: nat)
    requires k <= |s| && !Scannable(keys, s[..k], pos)
    ensures !Scannable(keys, s, pos)
  {
    assert s == s[..k] + s[k..];
    ScannableAppend(keys, s[..k], s[k..], pos);
  }

  lemma FindsExtend(keys: Keys, s: seq<Placed>, o: Placed, pos: nat)
    ensures Finds(keys, s + [o], pos) == Finds(keys, s, pos) + Finding(keys, o, pos + |s|)
    ensures Scannable(keys, s + [o], pos)
       <==> Scannable(keys, s, pos) && keys.valid
            && (Opened(keys, o).Some? ==> keys.nullifier(Opened(keys, o).value, pos + |s|).Some?)
  {
    assert (s + [o])[..|s|] == s;
    assert forall i :: 0 <= i < |s| ==> (s + [o])[i] == s[i];
    assert (s + [o])[|s|] == o;
  }

  method ProcessBlock(keys: Keys, b: Block, pos: nat) returns (r: Result<seq<Found>, ScanError>)
    ensures r.Ok? <==> keys.valid && Scannable(keys, Place(b), pos)
    ensures r.Ok? ==> r.value == Finds(keys, Place(b), pos)
  {
    hide Finds, Scannable;
    if !keys.valid {
      return Err(InvalidKey);
    }
    var found: seq<Found> := [];
    var position: nat := pos;
    NothingToScan(keys, pos);
    ghost var all := Place(b);
    for i := 0 to |b.outputs|
      invariant position == pos + i
      invariant found == Finds(keys, all[..i], pos)
      invariant Scannable(keys, all[..i], pos)
    {
      FindsExtend(keys, all[..i], all[i], pos);
      assert all[..i + 1] == all[..i] + [all[i]];
      var o := b.outputs[i];
      if ENC_CIPHERTEXT_LEN <= |o.ciphertext| {
        var plain := keys.decrypt(o, b.height);
        if plain.Some? {
          var nf := keys.nullifier(plain.value, position);
          if nf.None? {
            ScanPrefixFails(keys, all, i + 1, pos);
            return Err(NullifierFailed);
          }
          var cmu := keys.cmu(plain.value);
          found := found + [Found(b.height, o.txid, if cmu.Some? then cmu.value else o.cmu, o.epk,
                                  plain.value, nf.value, position)];
        }
      }
      position := position + 1;
    }
    assert all[..|b.outputs|] == all;
    return Ok(found);
  }

  /** The scan after some blocks: position, findings, and no failure so far. */
  ghost predicate Scanned(keys: Keys, blocks: seq<Block>, pos: nat, position: nat, found: seq<Found>) {
    && position == pos + |Flatten(blocks)|
    && found == Finds(keys, Flatten(blocks), pos)
    && Scannable(keys, Flatten(blocks), pos)
  }

  /** Scanning one block more; it can only fail if the whole cannot be scanned. */
  lemma ScanStep(keys: Keys, blocks: seq<Block>, b: Block, pos: nat, position: nat, found: seq<Found>)
    requires Scanned(keys, blocks, pos, position, found) && b.outputs != []
    ensures var good := keys.valid && Scannable(keys, Place(b), position);
            && (good ==> Scanned(keys, blocks + [b], pos, position + |b.outputs|,
                                  found + Finds(keys, Place(b), position)))
            && (!good ==> !Scannable(keys, Flatten(blocks + [b]), pos))
  {
    assert (blocks + [b])[..|blocks|] == blocks;
    assert Place(b)[0] in Place(b);
    FindsAppend(keys, Flatten(blocks), Place(b), pos);
  }

  method ScanBlocks(keys: Keys, blocks: seq<Block>, pos: nat) returns (r: Result<seq<Found>, ScanError>)
    requires forall b :: b in blocks ==> b.outputs != []
    ensures r.Ok? <==> Scannable(keys, Flatten(blocks), pos)
    ensures r.Ok? ==> r.value == Finds(keys, Flatten(blocks), pos)
  {
    var found: seq<Found> := [];
    var position: nat := pos;
    for i := 0 to |blocks|
      invariant Scanned(keys, blocks[..i], pos, position, found)
    {
      assert blocks[..i + 1] == blocks[..i] + [blocks[i]];
      assert blocks[i] in blocks;
      ScanStep(keys, blocks[..i], blocks[i], pos, position, found);
      var notes := ProcessBlock(keys, blocks[i], position);
      if notes.Err? {
        NotScannable(keys, blocks, i + 1, pos);
        return notes;
      }
      found := found + notes.value;
      position := position + |blocks[i].outputs|;
    }
    assert blocks[..|blocks|] == blocks;
    return Ok(found);
  }

  lemma {:induction false} FindsAppend(keys: Keys, a: seq<Placed>, b: seq<Placed>, pos: nat)
    ensures Finds(keys, a + b, pos) == Finds(keys, a, pos) + Finds(keys, b, pos + |a|)
    ensures Scannable(keys, a + b, pos) <==> Scannable(keys, a, pos) && Scannable(keys, b, pos + |a|)
  {
    if b == [] {
      assert a + b == a;
    } else {
      assert (a + b)[..|a + b| - 1] == a + b[..|b| - 1];
      FindsAppend(keys, a, b[..|b| - 1], pos);
      ScannableAppend(keys, a, b, pos);
    }
  }

  lemma ScannableAppend(keys: Keys, a: seq<Placed>, b: seq<Placed>, pos: nat)
    ensures Scannable(keys, a + b, pos) <==> Scannable(keys, a, pos) && Scannable(keys, b, pos + |a|)
  {
    assert forall i :: 0 <= i < |a| ==> (a + b)[i] == a[i];
    assert forall i :: 0 <= i < |b| ==> (a + b)[|a| + i] == b[i];
  }

  lemma {:induction false} NotScannable(keys: Keys, blocks: seq<Block>, i: nat, pos: nat)
    requires i <= |blocks| && !Scannable(keys, Flatten(blocks[..i]), pos)
    ensures !Scannable(keys, Flatten(blocks), pos)
    decreases |blocks| - i
  {
    if i == |blocks| {
      assert blocks[..i] == blocks;
    } else {
      assert blocks[..i + 1][..i] == blocks[..i];
      ScannableAppend(keys, Flatten(blocks[..i]), Place(blocks[i]), pos);
      NotScannable(keys, blocks, i + 1, pos);
    }
  }

  // ---------------------------------------------------------------- what a scan finds, output by output

  /**
   * Every discovered note is what its own output holds, at that output's position: decrypted under
   * the key from a ciphertext of full length, with the nullifier of that position and the recomputed
   * commitment, or the output's own where there is none.
   */
  lemma {:induction false} FoundAtOwnIndex(keys: Keys, s: seq<Placed>, pos: nat, f: Found)
    requires f in Finds(keys, s, pos)
    ensures pos <= f.position < pos + |s|
    ensures var (height, o) := s[f.position - pos];
            && f.height == height && f.txid == o.txid && f.epk == o.epk
            && 580 <= |o.ciphertext| && keys.decrypt(o, height) == Some(f.plain)
            && keys.nullifier(f.plain, f.position) == Some(f.nullifier)
            && f.cmu == match keys.cmu(f.plain) { case Some(cmu) => cmu case None => o.cmu }
  {
    var m := |s| - 1;
    if f in Finds(keys, s[..m], pos) {
      FoundAtOwnIndex(keys, s[..m], pos, f);
    }
  }

  /** No output that opens is missed. */
  lemma {:induction false} NothingMissed(keys: Keys, s: seq<Placed>, pos: nat, i: nat)
    requires Scannable(keys, s, pos) && i < |s|
    requires 580 <= |s[i].1.ciphertext| && keys.decrypt(s[i].1, s[i].0).Some?
    ensures exists f :: f in Finds(keys, s, pos) && f.position == pos + i
  {
    var m := |s| - 1;
    if i < m {
      ScannablePrefix(keys, s, m, pos);
      NothingMissed(keys, s[..m], pos, i);
      var f :| f in Finds(keys, s[..m], pos) && f.position == pos + i;
      assert f in Finds(keys, s, pos);
    } else {
      assert Finding(keys, s[m], pos + m)[0] in Finds(keys, s, pos);
    }
  }

  lemma ScannablePrefix(keys: Keys, s: seq<Placed>, k: nat, pos: nat)
    requires k <= |s| && Scannable(keys, s, pos)
    ensures Scannable(keys, s[..k], pos)
  {
    assert s == s[..k] + s[k..];
    ScannableAppend(keys, s[..k], s[k..], pos);
  }

  /** Each is discovered once, in tree order. */
  lemma {:induction false} FoundInOrder(keys: Keys, s: seq<Placed>, pos: nat)
    ensures forall i, j :: 0 <= i < j < |Finds(keys, s, pos)| ==>
              Finds(keys, s, pos)[i].position < Finds(keys, s, pos)[j].position
  {
    if s != [] {
      var m := |s| - 1;
      var t := Finds(keys, s[..m], pos);
      FoundInOrder(keys, s[..m], pos);
      forall i | 0 <= i < |t| ensures t[i].position < pos + m {
        FoundAtOwnIndex(keys, s[..m], pos, t[i]);
      }
    }
  }

  /** A scan fails exactly over a bad key, or a decrypted output without a nullifier at its position. */
  lemma ScannableExactly(keys: Keys, s: seq<Placed>, pos: nat)
    ensures Scannable(keys, s, pos) <==>
            && (s == [] || keys.valid)
            && forall i, plain ::
                 0 <= i < |s| && 580 <= |s[i].1.ciphertext| && keys.decrypt(s[i].1, s[i].0) == Some(plain) ==>
                   keys.nullifier(plain, pos + i).Some?
  {
    if Scannable(keys, s, pos) {
      forall i, plain | 0 <= i < |s| && 580 <= |s[i].1.ciphertext| && keys.decrypt(s[i].1, s[i].0) == Some(plain)
        ensures keys.nullifier(plain, pos + i).Some?
      {
        assert Opened(keys, s[i]) == Some(plain);
      }
    }
  }

  /** Bytes `k` to `k + 3` of `b` are `n` cut to 32 bits, least significant byte first. */
  predicate LittleEndianAt(b: Bytes, k: nat, n: nat) {
    && k + 4 <= |b| && b[k] as nat == n % 256 && b[k + 1] as nat == n / 256 % 256
    && b[k + 2] as nat == n / 65_536 % 256 && b[k + 3] as nat == n / 16_777_216 % 256
  }

  /** What a record becomes as an output: an old record without a transaction id gets one from height and index. */
  lemma OutputOfRecord(r: Record)
    ensures var o := OutputOf(r);
            && o.cmu == r.cmu && o.epk == r.epk && o.ciphertext == r.ciphertext
            && if 32 <= |r.txid| && exists i :: 0 <= i < |r.txid| && r.txid[i] != 0 then o.txid == r.txid[..32]
               else && |o.txid| == 32 && LittleEndianAt(o.txid, 0, r.height) && LittleEndianAt(o.txid, 4, r.index)
                    && forall k :: 8 <= k < 32 ==> o.txid[k] == 0
  {
  }
}
