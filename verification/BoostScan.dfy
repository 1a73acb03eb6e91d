/**
 * The boost scan (crates/zipherx-crypto/src/boost_scan.rs): every decrypted output of the boost
 * file becomes a note, looked up among the recorded spends at its own position and, failing
 * that, at a fixed list of nearby positions; totals are checked 64-bit sums.
 */
module BoostScan {
  import opened Common

  /** Position offsets tried, in order, when a note is not spent at its own position. */
  const PROBES: seq<int> := [-3, -2, -1, 1, 2, 3, 4, 5, 6, 7, 8, 9, 10, -10, 50, -50, 100, -100, 500, -500, 1000,
                             -1000, 5000, -5000]

  datatype Output = Output(height: nat, cmu: Bytes, epk: Bytes, ciphertext: Bytes, txid: Bytes)

  datatype Spend = Spend(height: nat, nullifier: Bytes, txid: Bytes)

  datatype Plain = Plain(value: nat, diversifier: Bytes, rcm: Bytes)

  /**
   * What one spending key can do: decrypt, tell whether a note can be rebuilt from the plaintext
   * (valid diversifier and randomness), and compute nullifiers and commitments.
   */
  datatype Keys = Keys(wellSized: bool, parses: bool, decrypt: Output -> Option<Plain>, rebuilds: Plain -> bool,
                       nullifier: (Plain, nat) -> Bytes, cmu: Plain -> Bytes)

  datatype Note = Note(height: nat, position: nat, plain: Plain, cmu: Bytes, nullifier: Bytes,
                       isSpent: bool, spentHeight: nat, spentTxid: Bytes, receivedTxid: Bytes)

  datatype Totals = Totals(received: nat, spent: nat, unspent: nat, found: nat, notesSpent: nat, spendsChecked: nat)

  datatype ScanError = InvalidSpendingKey | Overflow

  const NO_TXID: Bytes := seq(HASH_LEN, _ => 0)

  // ---------------------------------------------------------------- the spend index

  predicate Matches(spends: seq<Spend>, nf: Bytes) {
    exists i :: 0 <= i < |spends| && spends[i].nullifier == nf
  }

  /** `s` is the last record with nullifier `nf`. */
  ghost predicate LastMatch(spends: seq<Spend>, nf: Bytes, s: (nat, Bytes)) {
    exists i :: 0 <= i < |spends| && spends[i].nullifier == nf && s == (spends[i].height, spends[i].txid)
                && forall j :: i < j < |spends| ==> spends[j].nullifier != nf
  }

  method IndexSpends(spends: seq<Spend>) returns (index: map<Bytes, (nat, Bytes)>)
    ensures forall nf :: nf in index <==> Matches(spends, nf)
    ensures forall nf :: nf in index ==> LastMatch(spends, nf, index[nf])
  {
    index := map[];
    for i := 0 to |spends|
      invariant forall nf :: nf in index <==> Matches(spends[..i], nf)
      invariant forall nf :: nf in index ==> LastMatch(spends[..i], nf, index[nf])
    {
      ghost var before, after := spends[..i], spends[..i + 1];
      assert after == before + [spends[i]];
      ghost var was := index;
      index := index[spends[i].nullifier := (spends[i].height, spends[i].txid)];
      forall nf ensures nf in index <==> Matches(after, nf)
                ensures nf in index ==> LastMatch(after, nf, index[nf]) {
        IndexExtend(before, spends[i], nf);
        assert after[i].nullifier == spends[i].nullifier;
      }
    }
    assert spends[..|spends|] == spends;
  }

  lemma IndexExtend(spends: seq<Spend>, s: Spend, nf: Bytes)
    ensures Matches(spends + [s], nf) <==> nf == s.nullifier || Matches(spends, nf)
    ensures LastMatch(spends + [s], s.nullifier, (s.height, s.txid))
    ensures nf != s.nullifier ==> forall r :: LastMatch(spends, nf, r) ==> LastMatch(spends + [s], nf, r)
  {
    var t := spends + [s];
    assert t[|spends|] == s;
    if Matches(spends, nf) {
      var i :| 0 <= i < |spends| && spends[i].nullifier == nf;
      assert t[i] == spends[i];
    }
    if nf != s.nullifier {
      forall r | LastMatch(spends, nf, r) ensures LastMatch(t, nf, r) {
        var i :| 0 <= i < |spends| && spends[i].nullifier == nf && r == (spends[i].height, spends[i].txid)
                 && forall j :: i < j < |spends| ==> spends[j].nullifier != nf;
        assert t[i] == spends[i];
      }
    }
  }

  // ---------------------------------------------------------------- one note

  /** `pos` and the probed positions that are not negative, in the order they are tried. */
  function Candidates(pos: nat): seq<nat> {
    [pos] + Shifted(pos, PROBES)
  }

  function Shifted(pos: nat, offsets: seq<int>): seq<nat> {
    if offsets == [] then []
    else
      var n := |offsets| - 1;
      Shifted(pos, offsets[..n]) + if pos + offsets[n] < 0 then [] else [pos + offsets[n]]
  }

  /** No candidate up to here is spent. */
  ghost predicate NoneSpent(keys: Keys, spends: seq<Spend>, plain: Plain, ps: seq<nat>) {
    forall i :: 0 <= i < |ps| ==> !Matches(spends, keys.nullifier(plain, ps[i]))
  }

  /** `p` is the first candidate whose nullifier was spent. */
  ghost predicate FirstSpent(keys: Keys, spends: seq<Spend>, plain: Plain, ps: seq<nat>, p: nat) {
    exists k :: 0 <= k < |ps| && ps[k] == p && Matches(spends, keys.nullifier(plain, p))
        && NoneSpent(keys, spends, plain, ps[..k])
  }

  /** What the scan promises of a note found at output `pos`. */
  ghost predicate Recorded(keys: Keys, spends: seq<Spend>, o: Output, plain: Plain, pos: nat, n: Note) {
    && n.height == o.height && n.plain == plain && n.cmu == keys.cmu(plain) && n.receivedTxid == o.txid
    && n.nullifier == keys.nullifier(plain, n.position)
    && (n.isSpent ==>
          && FirstSpent(keys, spends, plain, Candidates(pos), n.position)
          && LastMatch(spends, n.nullifier, (n.spentHeight, n.spentTxid)))
    && (!n.isSpent ==>
          && NoneSpent(keys, spends, plain, Candidates(pos))
          && n.position == pos && n.spentHeight == 0 && n.spentTxid == NO_TXID)
  }

  lemma NoneSpentExtend(keys: Keys, spends: seq<Spend>, plain: Plain, ps: seq<nat>, p: nat)
    requires NoneSpent(keys, spends, plain, ps)
    ensures NoneSpent(keys, spends, plain, ps + [p]) <==> !Matches(spends, keys.nullifier(plain, p))
  {
    assert (ps + [p])[|ps|] == p;
    assert forall i :: 0 <= i < |ps| ==> (ps + [p])[i] == ps[i];
  }

  lemma FirstSpentHere(keys: Keys, spends: seq<Spend>, plain: Plain, before: seq<nat>, p: nat, after: seq<nat>)
    requires NoneSpent(keys, spends, plain, before) && Matches(spends, keys.nullifier(plain, p))
    ensures FirstSpent(keys, spends, plain, before + [p] + after, p)
  {
    var all := before + [p] + after;
    assert all[|before|] == p && all[..|before|] == before;
  }

  lemma {:induction false} ShiftedSplit(pos: nat, offsets: seq<int>, k: nat) returns (rest: seq<nat>)
    requires k <= |offsets|
    ensures Shifted(pos, offsets) == Shifted(pos, offsets[..k]) + rest
    decreases |offsets| - k
  {
    if k == |offsets| {
      assert offsets[..k] == offsets;
      rest := [];
    } else {
      var more := ShiftedSplit(pos, offsets, k + 1);
      assert offsets[..k + 1][..k] == offsets[..k];
      rest := (if pos + offsets[k] < 0 then [] else [pos + offsets[k]]) + more;
    }
  }

  /** Tries the offsets in turn, after `pos` itself was found unspent. */
  method Probe(keys: Keys, ghost spends: seq<Spend>, index: map<Bytes, (nat, Bytes)>, plain: Plain, pos: nat,
               offsets: seq<int>)
    returns (hit: Option<(nat, Bytes)>, at: nat)
    requires forall nf :: nf in index <==> Matches(spends, nf)
    requires forall nf :: nf in index ==> LastMatch(spends, nf, index[nf])
    requires NoneSpent(keys, spends, plain, [pos])
    ensures hit.Some? ==> FirstSpent(keys, spends, plain, [pos] + Shifted(pos, offsets), at)
                          && LastMatch(spends, keys.nullifier(plain, at), hit.value)
    ensures hit.None? ==> at == pos && NoneSpent(keys, spends, plain, [pos] + Shifted(pos, offsets))
  {
    hide Matches, LastMatch, NoneSpent, FirstSpent;
    assert [pos] == [pos] + Shifted(pos, offsets[..0]);
    for k := 0 to |offsets|
      invariant NoneSpent(keys, spends, plain, [pos] + Shifted(pos, offsets[..k]))
    {
      ghost var tried := [pos] + Shifted(pos, offsets[..k]);
      assert offsets[..k + 1][..k] == offsets[..k];
      var probe := pos + offsets[k];
      if probe < 0 {
        assert [pos] + Shifted(pos, offsets[..k + 1]) == tried;
      } else {
        assert [pos] + Shifted(pos, offsets[..k + 1]) == tried + [probe];
        NoneSpentExtend(keys, spends, plain, tried, probe);
        var nf := keys.nullifier(plain, probe);
        if nf in index {
          ghost var rest := ShiftedSplit(pos, offsets, k + 1);
          assert [pos] + Shifted(pos, offsets) == tried + [probe] + rest;
          FirstSpentHere(keys, spends, plain, tried, probe, rest);
          return Some(index[nf]), probe;
        }
      }
    }
    assert offsets[..|offsets|] == offsets;
    return None, pos;
  }

  /** Looks the note up at its own position, then at the probed ones. */
  method FindSpend(keys: Keys, ghost spends: seq<Spend>, index: map<Bytes, (nat, Bytes)>, plain: Plain, pos: nat)
    returns (hit: Option<(nat, Bytes)>, at: nat)
    requires forall nf :: nf in index <==> Matches(spends, nf)
    requires forall nf :: nf in index ==> LastMatch(spends, nf, index[nf])
    ensures hit.Some? ==> FirstSpent(keys, spends, plain, Candidates(pos), at)
                          && LastMatch(spends, keys.nullifier(plain, at), hit.value)
    ensures hit.None? ==> at == pos && NoneSpent(keys, spends, plain, Candidates(pos))
  {
    hide Matches, LastMatch, FirstSpent, Shifted;
    var nf := keys.nullifier(plain, pos);
    if nf in index {
      FirstSpentHere(keys, spends, plain, [], pos, Shifted(pos, PROBES));
      assert [] + [pos] + Shifted(pos, PROBES) == Candidates(pos);
      return Some(index[nf]), pos;
    }
    hit, at := Probe(keys, spends, index, plain, pos, PROBES);
  }

  // ---------------------------------------------------------------- the whole scan

  /** A decrypted output with its index in the file. */
  type Hit = (nat, Plain)

  /** Parallel trial decryption, which keeps file order. */
  function Decrypted(keys: Keys, outputs: seq<Output>): (hits: seq<Hit>)
    ensures forall i :: 0 <= i < |hits| ==> hits[i].0 < |outputs| && keys.decrypt(outputs[hits[i].0]) == Some(hits[i].1)
  {
    if outputs == [] then []
    else
      var n := |outputs| - 1;
      Decrypted(keys, outputs[..n])
      + match keys.decrypt(outputs[n]) case Some(plain) => [(n, plain)] case None => []
  }

  function HitSum(hits: seq<Hit>): nat {
    if hits == [] then 0 else HitSum(hits[..|hits| - 1]) + hits[|hits| - 1].1.value
  }

  /** The hits that become notes, in file order. */
  function Rebuilt(keys: Keys, hits: seq<Hit>): seq<Hit> {
    if hits == [] then []
    else
      var n := |hits| - 1;
      Rebuilt(keys, hits[..n]) + if keys.rebuilds(hits[n].1) then [hits[n]] else []
  }

  /** The values counted as received although no note could be rebuilt. */
  function SkippedSum(keys: Keys, hits: seq<Hit>): nat {
    if hits == [] then 0
    else
      var n := |hits| - 1;
      SkippedSum(keys, hits[..n]) + if keys.rebuilds(hits[n].1) then 0 else hits[n].1.value
  }

  function NoteSum(notes: seq<Note>, spent: bool): nat {
    if notes == [] then 0
    else
      var last := notes[|notes| - 1];
      NoteSum(notes[..|notes| - 1], spent) + if last.isSpent == spent then last.plain.value else 0
  }

  function CountSpent(notes: seq<Note>): nat {
    if notes == [] then 0 else CountSpent(notes[..|notes| - 1]) + if notes[|notes| - 1].isSpent then 1 else 0
  }

  ghost predicate AllRecorded(keys: Keys, spends: seq<Spend>, outputs: seq<Output>, hits: seq<Hit>, notes: seq<Note>) {
    && |notes| == |hits|
    && forall i :: 0 <= i < |hits| ==>
         hits[i].0 < |outputs| && Recorded(keys, spends, outputs[hits[i].0], hits[i].1, hits[i].0, notes[i])
  }

  /** The books after some hits: each total is the sum it stands for. */
  ghost predicate Balanced(keys: Keys, hits: seq<Hit>, notes: seq<Note>, received: nat, spent: nat, notesSpent: nat) {
    && received == HitSum(hits) == NoteSum(notes, true) + NoteSum(notes, false) + SkippedSum(keys, hits)
    && spent == NoteSum(notes, true)
    && notesSpent == CountSpent(notes)
  }

  lemma BalancedStep(keys: Keys, hits: seq<Hit>, h: Hit, notes: seq<Note>, n: Note, received: nat, spent: nat,
                     notesSpent: nat)
    requires Balanced(keys, hits, notes, received, spent, notesSpent)
    ensures !keys.rebuilds(h.1) ==>
              && Balanced(keys, hits + [h], notes, received + h.1.value, spent, notesSpent)
              && Rebuilt(keys, hits + [h]) == Rebuilt(keys, hits)
    ensures keys.rebuilds(h.1) ==> Rebuilt(keys, hits + [h]) == Rebuilt(keys, hits) + [h]
    ensures keys.rebuilds(h.1) && n.plain == h.1 ==>
              Balanced(keys, hits + [h], notes + [n], received + h.1.value,
                       spent + (if n.isSpent then h.1.value else 0),
                       notesSpent + if n.isSpent then 1 else 0)
  {
    hide HitSum, Rebuilt, SkippedSum, NoteSum, CountSpent;
    HitsStep(keys, hits, h);
    NotesStep(notes, n, true);
    NotesStep(notes, n, false);
  }

  lemma HitsStep(keys: Keys, hits: seq<Hit>, h: Hit)
    ensures HitSum(hits + [h]) == HitSum(hits) + h.1.value
    ensures Rebuilt(keys, hits + [h]) == Rebuilt(keys, hits) + if keys.rebuilds(h.1) then [h] else []
    ensures SkippedSum(keys, hits + [h]) == SkippedSum(keys, hits) + if keys.rebuilds(h.1) then 0 else h.1.value
  {
    assert (hits + [h])[..|hits|] == hits;
  }

  lemma NotesStep(notes: seq<Note>, n: Note, spent: bool)
    ensures NoteSum(notes + [n], spent) == NoteSum(notes, spent) + if n.isSpent == spent then n.plain.value else 0
    ensures CountSpent(notes + [n]) == CountSpent(notes) + if n.isSpent then 1 else 0
  {
    assert (notes + [n])[..|notes|] == notes;
  }

  lemma {:induction false} HitSumPrefix(hits: seq<Hit>, k: nat)
    requires k <= |hits|
    ensures HitSum(hits[..k]) <= HitSum(hits)
  {
    if k < |hits| {
      HitSumPrefix(hits[..|hits| - 1], k);
      assert hits[..|hits| - 1][..k] == hits[..k];
    } else {
      assert hits[..k] == hits;
    }
  }

  method BuildNote(keys: Keys, ghost spends: seq<Spend>, index: map<Bytes, (nat, Bytes)>, o: Output, hit: Hit)
    returns (n: Note)
    requires forall nf :: nf in index <==> Matches(spends, nf)
    requires forall nf :: nf in index ==> LastMatch(spends, nf, index[nf])
    ensures Recorded(keys, spends, o, hit.1, hit.0, n)
  {
    hide Candidates;
    var plain := hit.1;
    var found, at := FindSpend(keys, spends, index, plain, hit.0);
    var cmu := if keys.cmu(plain) == o.cmu then o.cmu else keys.cmu(plain);
    n := Note(o.height, at, plain, cmu, keys.nullifier(plain, at), found.Some?,
              if found.Some? then found.value.0 else 0, if found.Some? then found.value.1 else NO_TXID, o.txid);
  }

  method ScanHits(keys: Keys, outputs: seq<Output>, spends: seq<Spend>, hits: seq<Hit>)
    returns (fits: bool, received: nat, spent: nat, notesSpent: nat, notes: seq<Note>)
    requires forall i :: 0 <= i < |hits| ==> hits[i].0 < |outputs|
    ensures fits <==> HitSum(hits) <= U64_MAX
    ensures fits ==> AllRecorded(keys, spends, outputs, Rebuilt(keys, hits), notes)
                     && Balanced(keys, hits, notes, received, spent, notesSpent)
  {
    hide Recorded, Balanced, Matches, LastMatch, HitSum, NoteSum, CountSpent, Rebuilt;
    var index := IndexSpends(spends);
    received, spent, notesSpent, notes := 0, 0, 0, [];
    NothingScanned(keys);
    assert hits[..0] == [];
    for i := 0 to |hits|
      invariant Balanced(keys, hits[..i], notes, received, spent, notesSpent)
      invariant AllRecorded(keys, spends, outputs, Rebuilt(keys, hits[..i]), notes)
      invariant received <= U64_MAX
    {
      var hit := hits[i];
      ghost var before := hits[..i];
      assert hits[..i + 1] == before + [hit];
      SumStep(keys, before, hit, notes, received, spent, notesSpent);
      HitSumPrefix(hits, i + 1);
      if U64_MAX < received + hit.1.value {
        return false, received, spent, notesSpent, notes;
      }
      received := received + hit.1.value;
      if !keys.rebuilds(hit.1) {
        BalancedStep(keys, before, hit, notes, Note(0, 0, hit.1, [], [], false, 0, [], []),
                     received - hit.1.value, spent, notesSpent);
        continue;
      }
      var n := BuildNote(keys, spends, index, outputs[hit.0], hit);
      RecordedPlain(keys, spends, outputs[hit.0], hit, n);
      BalancedStep(keys, before, hit, notes, n, received - hit.1.value, spent, notesSpent);
      if n.isSpent {
        // the second checked addition cannot fail: what is spent was received
        assert spent + hit.1.value <= U64_MAX;
        spent, notesSpent := spent + hit.1.value, notesSpent + 1;
      }
      notes := notes + [n];
    }
    assert hits[..|hits|] == hits;
    HitSumIs(keys, hits, notes, received, spent, notesSpent);
    return true, received, spent, notesSpent, notes;
  }

  lemma NothingScanned(keys: Keys)
    ensures Balanced(keys, [], [], 0, 0, 0) && Rebuilt(keys, []) == []
  {
  }

  lemma HitSumIs(keys: Keys, hits: seq<Hit>, notes: seq<Note>, received: nat, spent: nat, notesSpent: nat)
    requires Balanced(keys, hits, notes, received, spent, notesSpent)
    ensures HitSum(hits) == received && spent <= received
  {
  }

  lemma SumStep(keys: Keys, hits: seq<Hit>, h: Hit, notes: seq<Note>, received: nat, spent: nat, notesSpent: nat)
    requires Balanced(keys, hits, notes, received, spent, notesSpent)
    ensures HitSum(hits + [h]) == received + h.1.value && spent <= received
  {
    assert (hits + [h])[..|hits|] == hits;
  }

  lemma RecordedPlain(keys: Keys, spends: seq<Spend>, o: Output, h: Hit, n: Note)
    requires Recorded(keys, spends, o, h.1, h.0, n)
    ensures n.plain == h.1
  {
  }

  // ---------------------------------------------------------------- output by output

  /** The value an output holds for the key. */
  function ValueOf(keys: Keys, o: Output): nat {
    match keys.decrypt(o) case Some(plain) => plain.value case None => 0
  }

  /** What all outputs together hold for the key. */
  function ReceivedFrom(keys: Keys, outputs: seq<Output>): nat {
    if outputs == [] then 0 else ValueOf(keys, outputs[0]) + ReceivedFrom(keys, outputs[1..])
  }

  lemma {:induction false} ReceivedExtend(keys: Keys, outputs: seq<Output>, o: Output)
    ensures ReceivedFrom(keys, outputs + [o]) == ReceivedFrom(keys, outputs) + ValueOf(keys, o)
  {
    if outputs == [] {
      assert outputs + [o] == [o] && [o][1..] == [];
    } else {
      assert (outputs + [o])[1..] == outputs[1..] + [o];
      ReceivedExtend(keys, outputs[1..], o);
    }
  }

  lemma NextHit(keys: Keys, outputs: seq<Output>)
    requires outputs != []
    ensures var n := |outputs| - 1;
            HitSum(Decrypted(keys, outputs)) == HitSum(Decrypted(keys, outputs[..n])) + ValueOf(keys, outputs[n])
  {
    hide HitSum;
    var n := |outputs| - 1;
    var t := Decrypted(keys, outputs[..n]);
    if keys.decrypt(outputs[n]).Some? {
      HitsStep(keys, t, (n, keys.decrypt(outputs[n]).value));
    } else {
      assert t + [] == t;
    }
  }

  lemma {:induction false} HitsAreReceived(keys: Keys, outputs: seq<Output>)
    ensures HitSum(Decrypted(keys, outputs)) == ReceivedFrom(keys, outputs)
  {
    if outputs != [] {
      var n := |outputs| - 1;
      HitsAreReceived(keys, outputs[..n]);
      assert outputs == outputs[..n] + [outputs[n]];
      ReceivedExtend(keys, outputs[..n], outputs[n]);
      NextHit(keys, outputs);
    }
  }

  /** Every decrypted output is counted, at its own file index, and nothing else; each once, in file order. */
  lemma {:induction false} DecryptedExactly(keys: Keys, outputs: seq<Output>)
    ensures forall h :: h in Decrypted(keys, outputs) <==> h.0 < |outputs| && keys.decrypt(outputs[h.0]) == Some(h.1)
    ensures forall i, j :: 0 <= i < j < |Decrypted(keys, outputs)| ==>
              Decrypted(keys, outputs)[i].0 < Decrypted(keys, outputs)[j].0
  {
    if outputs != [] {
      var n := |outputs| - 1;
      DecryptedExactly(keys, outputs[..n]);
      var t := Decrypted(keys, outputs[..n]);
      assert forall i :: 0 <= i < |t| ==> t[i] in t;
      if keys.decrypt(outputs[n]).Some? {
        assert (n, keys.decrypt(outputs[n]).value) in Decrypted(keys, outputs);
      }
    }
  }

  lemma {:induction false} RebuiltExactly(keys: Keys, hits: seq<Hit>)
    requires forall i, j :: 0 <= i < j < |hits| ==> hits[i].0 < hits[j].0
    ensures forall h :: h in Rebuilt(keys, hits) <==> h in hits && keys.rebuilds(h.1)
    ensures forall i, j :: 0 <= i < j < |Rebuilt(keys, hits)| ==> Rebuilt(keys, hits)[i].0 < Rebuilt(keys, hits)[j].0
  {
    if hits != [] {
      var n := |hits| - 1;
      RebuiltExactly(keys, hits[..n]);
      assert hits == hits[..n] + [hits[n]];
      var t := Rebuilt(keys, hits[..n]);
      forall i | 0 <= i < |t| ensures t[i].0 < hits[n].0 {
        assert t[i] in t;
        var k :| 0 <= k < n && hits[..n][k] == t[i];
      }
    }
  }

  /**
   * Note `k` is what output `at[k]` holds; `at` lists, in order, the outputs that decrypt to a note
   * that can be rebuilt.
   */
  ghost predicate NotesOf(keys: Keys, spends: seq<Spend>, outputs: seq<Output>, at: seq<nat>, notes: seq<Note>) {
    && |at| == |notes|
    && (forall i, j :: 0 <= i < j < |at| ==> at[i] < at[j])
    && (forall i :: i in at <==> 0 <= i < |outputs| && Rebuildable(keys, outputs[i]))
    && (forall k :: 0 <= k < |at| ==>
          at[k] < |outputs| && Rebuildable(keys, outputs[at[k]])
          && Recorded(keys, spends, outputs[at[k]], keys.decrypt(outputs[at[k]]).value, at[k], notes[k]))
  }

  predicate Rebuildable(keys: Keys, o: Output) {
    keys.decrypt(o).Some? && keys.rebuilds(keys.decrypt(o).value)
  }

  lemma NotesAre(keys: Keys, spends: seq<Spend>, outputs: seq<Output>, notes: seq<Note>)
    requires AllRecorded(keys, spends, outputs, Rebuilt(keys, Decrypted(keys, outputs)), notes)
    ensures exists at :: NotesOf(keys, spends, outputs, at, notes)
  {
    hide Recorded, Rebuilt, Decrypted;
    var hits := Decrypted(keys, outputs);
    var rebuilt := Rebuilt(keys, hits);
    DecryptedExactly(keys, outputs);
    RebuiltExactly(keys, hits);
    var at := seq(|rebuilt|, k requires 0 <= k < |rebuilt| => rebuilt[k].0);
    forall k | 0 <= k < |at|
      ensures at[k] < |outputs| && Rebuildable(keys, outputs[at[k]])
      ensures Some(rebuilt[k].1) == keys.decrypt(outputs[at[k]])
    {
      assert rebuilt[k] in rebuilt;
    }
    forall i | 0 <= i < |outputs| && Rebuildable(keys, outputs[i]) ensures i in at {
      var h: Hit := (i, keys.decrypt(outputs[i]).value);
      assert h in rebuilt;
      var k :| 0 <= k < |rebuilt| && rebuilt[k] == h;
      assert at[k] == i;
    }
    assert NotesOf(keys, spends, outputs, at, notes);
  }

  lemma {:induction false} ShiftedMember(pos: nat, offsets: seq<int>, p: nat)
    ensures p in Shifted(pos, offsets) <==> p - pos in offsets
  {
    if offsets != [] {
      var n := |offsets| - 1;
      ShiftedMember(pos, offsets[..n], p);
      assert offsets == offsets[..n] + [offsets[n]];
    }
  }

  lemma {:induction false} ShiftedAll(pos: nat, offsets: seq<int>)
    requires forall i :: 0 <= i < |offsets| ==> 0 <= pos + offsets[i]
    ensures |Shifted(pos, offsets)| == |offsets|
    ensures forall i :: 0 <= i < |offsets| ==> Shifted(pos, offsets)[i] == pos + offsets[i]
  {
    if offsets != [] {
      ShiftedAll(pos, offsets[..|offsets| - 1]);
    }
  }

  /** The positions tried for an output far enough from the start, in order. */
  lemma CandidatesInOrder(pos: nat)
    requires 5000 <= pos
    ensures Candidates(pos) == [
      pos, pos - 3, pos - 2, pos - 1, pos + 1, pos + 2, pos + 3, pos + 4, pos + 5, pos + 6, pos + 7, pos + 8, pos + 9,
      pos + 10, pos - 10, pos + 50, pos - 50, pos + 100, pos - 100, pos + 500, pos - 500, pos + 1000, pos - 1000,
      pos + 5000, pos - 5000]
  {
    hide Shifted;
    assert |PROBES| == 24;
    ShiftedAll(pos, PROBES);
  }

  /**
   * And for any output: its own, from 3 before to 10 after, 10 before, and 50 to 5000 either way,
   * as far as not negative.
   */
  lemma CandidatesExactly(pos: nat, p: nat)
    ensures p in Candidates(pos) <==> -3 <= p - pos <= 10 || p - pos == -10 || p - pos in {50, -50, 100, -100}
                                      || p - pos in {500, -500, 1000, -1000, 5000, -5000}
  {
    hide Shifted;
    ShiftedMember(pos, PROBES, p);
    var d := p - pos;
    assert |PROBES| == 24;
    assert d in PROBES <==> exists i :: 0 <= i < 24 && PROBES[i] == d;
    OffsetsAre(d);
  }

  lemma OffsetsAre(d: int)
    ensures d in PROBES <==> d != 0 && (-3 <= d <= 10 || d == -10 || d in {50, -50, 100, -100}
                                        || d in {500, -500, 1000, -1000, 5000, -5000})
  {
    assert PROBES == [-3, -2, -1, 1, 2, 3, 4, 5, 6, 7, 8, 9, 10]
        + [-10, 50, -50, 100, -100, 500, -500, 1000, -1000, 5000, -5000];
  }

  /**
   * The scan succeeds exactly if the key is good (or there is nothing to scan) and what the outputs
   * hold for it adds up to at most 64 bits. Then received is that sum; there is one note, as
   * recorded, for each output that decrypts to a note that can be rebuilt, in file order; and what
   * is not spent, with or without a note, is the unspent balance.
   */
  method ScanBoostOutputs(keys: Keys, outputs: seq<Output>, spends: seq<Spend>)
    returns (r: Result<(Totals, seq<Note>), ScanError>)
    ensures r.Ok? <==> keys.wellSized && (outputs == [] || (keys.parses && ReceivedFrom(keys, outputs) <= U64_MAX))
    ensures r.Err? ==> r.error == if !keys.wellSized || !keys.parses then InvalidSpendingKey else Overflow
    ensures r.Ok? ==>
              var notes, t := r.value.1, r.value.0;
              && (exists at :: NotesOf(keys, spends, outputs, at, notes))
              && t.received == ReceivedFrom(keys, outputs)
              && t.spent == NoteSum(notes, true)
              && t.spent + t.unspent == t.received
              && t.unspent == NoteSum(notes, false) + SkippedSum(keys, Decrypted(keys, outputs))
              && t.notesSpent == CountSpent(notes)
              && t.found == Min(|notes|, U32_MAX) && t.spendsChecked == Min(|spends|, U32_MAX)
  {
    hide Recorded, NoteSum, CountSpent, Matches, LastMatch, FirstSpent, NoneSpent, NotesOf;
    HitsAreReceived(keys, outputs);
    if !keys.wellSized {
      return Err(InvalidSpendingKey);
    }
    if outputs == [] {
      NothingScanned(keys);
      NotesAre(keys, spends, outputs, []);
      return Ok((Totals(0, 0, 0, 0, 0, Min(|spends|, U32_MAX)), []));
    }
    if !keys.parses {
      return Err(InvalidSpendingKey);
    }
    var hits := Decrypted(keys, outputs);
    var fits, received, spent, notesSpent, notes := ScanHits(keys, outputs, spends, hits);
    if !fits {
      return Err(Overflow);
    }
    NotesAre(keys, spends, outputs, notes);
    return Ok((Totals(received, spent, SatSub(received, spent), Min(|notes|, U32_MAX), notesSpent,
                      Min(|spends|, U32_MAX)), notes));
  }
}
