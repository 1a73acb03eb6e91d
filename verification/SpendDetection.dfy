/**
 * Spend detection after the post-boost scan: nullifiers are recomputed at the notes' true
 * tree positions, then every delta nullifier is checked against the note table again
 * (crates/zipherx-core/src/async_sync.rs, crates/zipherx-storage/src/database.rs).
 */
module SpendDetection {
  import opened Common

  /** A row of the note table. `nullifier` is stored hashed. */
  datatype Note = Note(cmu: Bytes, value: nat, height: nat, diversifier: Option<Bytes>, rcm: Option<Bytes>,
                       position: Option<nat>, nullifier: Option<Bytes>, spent: bool, spentTx: Bytes, spentHeight: nat)

  /** A nullifier revealed on chain. */
  datatype Spend = Spend(nullifier: Bytes, txid: Bytes, height: nat)

  /** The cryptography: nullifier of (diversifier, value, rcm) at a position, their commitment, and the storage hash. */
  datatype Crypto = Crypto(nf: (Bytes, nat, Bytes, nat) -> Option<Bytes>, cmu: (Bytes, nat, Bytes) -> Bytes,
                           hash: Bytes -> Bytes)

  /** The table constraint `UNIQUE(cmu)`. */
  ghost predicate UniqueCmus(notes: seq<Note>) {
    forall i, j :: 0 <= i < j < |notes| ==> notes[i].cmu != notes[j].cmu
  }

  // ---------------------------------------------------------------- recompute

  /** The nullifier a note reveals if it sits at `pos`, when its stored fields allow computing it. */
  function NullifierAt(c: Crypto, n: Note, pos: nat): Option<Bytes> {
    if n.diversifier.Some? && |n.diversifier.value| == 11 && n.rcm.Some? && |n.rcm.value| == 32
    then c.nf(n.diversifier.value, n.value, n.rcm.value, pos)
    else None
  }

  predicate Mapped(n: Note, boostHeight: nat, positions: map<Bytes, nat>) {
    !n.spent && boostHeight < n.height && n.cmu in positions
  }

  /** What the recompute pass makes of one note. */
  function Recomputed(c: Crypto, n: Note, boostHeight: nat, positions: map<Bytes, nat>): Note {
    if Mapped(n, boostHeight, positions) && NullifierAt(c, n, positions[n.cmu]).Some?
    then n.(nullifier := Some(c.hash(NullifierAt(c, n, positions[n.cmu]).value)), position := Some(positions[n.cmu]))
    else n
  }

  function RecomputedAll(c: Crypto, notes: seq<Note>, boostHeight: nat, positions: map<Bytes, nat>): (r: seq<Note>)
    ensures |r| == |notes| && forall i :: 0 <= i < |r| ==> r[i] == Recomputed(c, notes[i], boostHeight, positions)
  {
    seq(|notes|, i requires 0 <= i < |notes| => Recomputed(c, notes[i], boostHeight, positions))
  }

  function SetNullifier(n: Note, cmu: Bytes, nf: Bytes, pos: nat): Note {
    if n.cmu == cmu then n.(nullifier := Some(nf), position := Some(pos)) else n
  }

  // ---------------------------------------------------------------- recheck

  predicate Hits(n: Note, hashed: Bytes) {
    !n.spent && n.nullifier == Some(hashed)
  }

  function MarkSpent(n: Note, hashed: Bytes, s: Spend): Note {
    if Hits(n, hashed) then n.(spent := true, spentTx := s.txid, spentHeight := s.height) else n
  }

  function MarkAll(notes: seq<Note>, hashed: Bytes, s: Spend): (r: seq<Note>)
    ensures |r| == |notes| && forall i :: 0 <= i < |r| ==> r[i] == MarkSpent(notes[i], hashed, s)
  {
    seq(|notes|, i requires 0 <= i < |notes| => MarkSpent(notes[i], hashed, s))
  }

  /** `SELECT value … LIMIT 1`: the first unspent row with this nullifier. */
  function FirstHit(notes: seq<Note>, hashed: Bytes): (r: Option<nat>)
    ensures r.Some? ==> r.value < |notes| && Hits(notes[r.value], hashed)
    ensures r.None? ==> forall i :: 0 <= i < |notes| ==> !Hits(notes[i], hashed)
  {
    if notes == [] then None
    else if Hits(notes[0], hashed) then Some(0)
    else
      var r := FirstHit(notes[1..], hashed);
      if r.Some? then Some(r.value + 1) else None
  }

  /** The table, the number of matches, and the value and height recorded per spending transaction. */
  datatype Sweep = Sweep(notes: seq<Note>, marked: nat, totals: map<Bytes, (nat, nat)>)

  function Record(totals: map<Bytes, (nat, nat)>, s: Spend, value: nat): map<Bytes, (nat, nat)> {
    var entry := if s.txid in totals then totals[s.txid] else (0, s.height);
    totals[s.txid := (entry.0 + value, entry.1)]
  }

  function SweepStep(c: Crypto, w: Sweep, s: Spend): Sweep {
    var hashed := c.hash(s.nullifier);
    var hit := FirstHit(w.notes, hashed);
    if hit.None? then w
    else Sweep(MarkAll(w.notes, hashed, s), w.marked + 1, Record(w.totals, s, w.notes[hit.value].value))
  }

  function SweepAll(c: Crypto, notes: seq<Note>, spends: seq<Spend>): (w: Sweep)
    ensures |w.notes| == |notes|
  {
    if spends == [] then Sweep(notes, 0, map[])
    else SweepStep(c, SweepAll(c, notes, spends[..|spends| - 1]), spends[|spends| - 1])
  }

  class NoteTable {
    var notes: seq<Note>

    constructor (rows: seq<Note>)
      ensures notes == rows
    {
      notes := rows;
    }

    method UpdateNullifierByCmu(cmu: Bytes, nf: Bytes, pos: nat)
      modifies this
      ensures |notes| == |old(notes)|
      ensures forall i :: 0 <= i < |notes| ==> notes[i] == SetNullifier(old(notes)[i], cmu, nf, pos)
    {
      notes := seq(|notes|, i requires 0 <= i < |notes| reads this => SetNullifier(notes[i], cmu, nf, pos));
    }

    /** Marks every unspent note with this nullifier, returns the value of the first. */
    method CrossRefNullifierSpend(c: Crypto, s: Spend) returns (value: Option<nat>)
      modifies this
      ensures var hit := FirstHit(old(notes), c.hash(s.nullifier));
              && (hit.None? ==> value == None && notes == old(notes))
              && (hit.Some? ==> value == Some(old(notes)[hit.value].value) &&
                                notes == MarkAll(old(notes), c.hash(s.nullifier), s))
    {
      var hashed := c.hash(s.nullifier);
      var hit := FirstHit(notes, hashed);
      if hit.None? {
        return None;
      }
      value := Some(notes[hit.value].value);
      notes := MarkAll(notes, hashed, s);
    }

    /** Recompute the nullifier of every unspent post-boost note whose position is known. */
    method Recompute(c: Crypto, boostHeight: nat, positions: map<Bytes, nat>)
      requires UniqueCmus(notes)
      modifies this
      ensures notes == RecomputedAll(c, old(notes), boostHeight, positions)
      ensures UniqueCmus(notes)
    {
      var snapshot := notes;
      for i := 0 to |snapshot|
        invariant |notes| == |snapshot|
        invariant forall j :: 0 <= j < i ==> notes[j] == Recomputed(c, snapshot[j], boostHeight, positions)
        invariant forall j :: i <= j < |snapshot| ==> notes[j] == snapshot[j]
      {
        var n := snapshot[i];
        if !n.spent && boostHeight < n.height && n.cmu in positions {
          var nf := NullifierAt(c, n, positions[n.cmu]);
          if nf.Some? {
            UpdateNullifierByCmu(n.cmu, c.hash(nf.value), positions[n.cmu]);
          }
        }
      }
    }

    /** Check every delta nullifier against the table and add up what each transaction spent. */
    method Recheck(c: Crypto, spends: seq<Spend>) returns (marked: nat, totals: map<Bytes, (nat, nat)>)
      modifies this
      ensures Sweep(notes, marked, totals) == SweepAll(c, old(notes), spends)
    {
      marked, totals := 0, map[];
      for i := 0 to |spends|
        invariant Sweep(notes, marked, totals) == SweepAll(c, old(notes), spends[..i])
      {
        assert spends[..i + 1][..i] == spends[..i];
        var value := CrossRefNullifierSpend(c, spends[i]);
        if value.Some? {
          marked := marked + 1;
          totals := Record(totals, spends[i], value.value);
        }
      }
      assert spends[..|spends|] == spends;
    }
  }

  // ---------------------------------------------------------------- what the sweep achieves

  /** The first spend record that reveals this stored nullifier. */
  function FirstReveal(c: Crypto, nullifier: Option<Bytes>, spends: seq<Spend>): (r: Option<Spend>)
    ensures r.Some? ==> r.value in spends && nullifier == Some(c.hash(r.value.nullifier))
    ensures r.None? ==> forall s :: s in spends ==> nullifier != Some(c.hash(s.nullifier))
  {
    if spends == [] then None
    else
      var m := |spends| - 1;
      var r := FirstReveal(c, nullifier, spends[..m]);
      assert forall s :: s in spends <==> s in spends[..m] || s == spends[m];
      if r.Some? then r
      else if nullifier == Some(c.hash(spends[m].nullifier)) then Some(spends[m])
      else None
  }

  function Settled(c: Crypto, n: Note, spends: seq<Spend>): Note {
    var s := FirstReveal(c, n.nullifier, spends);
    if n.spent || s.None? then n else n.(spent := true, spentTx := s.value.txid, spentHeight := s.value.height)
  }

  /** The sweep leaves each note spent by the first record that reveals it, and no other note touched. */
  lemma {:induction false} SweepSettles(c: Crypto, notes: seq<Note>, spends: seq<Spend>)
    ensures forall i :: 0 <= i < |notes| ==> SweepAll(c, notes, spends).notes[i] == Settled(c, notes[i], spends)
  {
    if spends != [] {
      SweepSettles(c, notes, spends[..|spends| - 1]);
    }
  }

  /** The nullifier of a note with usable fields at `pos`, if there is one, is not among the spends. */
  predicate NotAmong(c: Crypto, n: Note, pos: nat, spends: seq<Spend>) {
    n.diversifier.Some? && |n.diversifier.value| == 11 && n.rcm.Some? && |n.rcm.value| == 32 ==>
      forall s :: s in spends ==> Some(s.nullifier) != c.nf(n.diversifier.value, n.value, n.rcm.value, pos)
  }

  /**
   * Completeness over both passes: afterwards no unspent post-boost note with a known position
   * has the nullifier it reveals at that position among the delta nullifiers.
   */
  lemma DetectionComplete(c: Crypto, notes: seq<Note>, boostHeight: nat, positions: map<Bytes, nat>,
                          spends: seq<Spend>, i: nat)
    requires i < |notes|
    ensures var done := SweepAll(c, RecomputedAll(c, notes, boostHeight, positions), spends).notes;
            && |done| == |notes|
            && (Mapped(done[i], boostHeight, positions) ==>
                  NotAmong(c, done[i], positions[done[i].cmu], spends))
  {
    SweepSettles(c, RecomputedAll(c, notes, boostHeight, positions), spends);
  }

  /** Record `k` is the first whose nullifier hashes as `nf` does. */
  ghost predicate FirstRevealed(c: Crypto, nf: Bytes, spends: seq<Spend>, k: nat) {
    k < |spends| && c.hash(spends[k].nullifier) == c.hash(nf)
    && forall j :: 0 <= j < k ==> c.hash(spends[j].nullifier) != c.hash(nf)
  }

  lemma {:induction false} FirstRevealIs(c: Crypto, nf: Bytes, spends: seq<Spend>) returns (k: nat)
    ensures var r := FirstReveal(c, Some(c.hash(nf)), spends);
            if r.Some? then FirstRevealed(c, nf, spends, k) && spends[k] == r.value
            else forall j :: 0 <= j < |spends| ==> c.hash(spends[j].nullifier) != c.hash(nf)
  {
    k := 0;
    if spends != [] {
      var m := |spends| - 1;
      k := FirstRevealIs(c, nf, spends[..m]);
      var r := FirstReveal(c, Some(c.hash(nf)), spends[..m]);
      assert forall j :: 0 <= j < m ==> spends[..m][j] == spends[j];
      if r.None? {
        k := m;
      }
    }
  }

  /**
   * A spend is caught: if the note has an 11-byte diversifier and 32 bytes of randomness, and its
   * nullifier at `pos` is revealed, it ends as spent by the first record that reveals it, with that
   * nullifier and position.
   */
  ghost predicate Caught(c: Crypto, n: Note, after: Note, pos: nat, spends: seq<Spend>) {
    n.diversifier.Some? && |n.diversifier.value| == 11 && n.rcm.Some? && |n.rcm.value| == 32 ==>
      match c.nf(n.diversifier.value, n.value, n.rcm.value, pos)
      case None => true
      case Some(nf) =>
        (exists s :: s in spends && s.nullifier == nf) ==>
          exists k: nat :: FirstRevealed(c, nf, spends, k)
            && after == n.(position := Some(pos), nullifier := Some(c.hash(nf)),
                           spent := true, spentTx := spends[k].txid, spentHeight := spends[k].height)
  }

  /** So is every spend of an unspent post-boost note whose commitment is mapped. */
  lemma SpendCaught(c: Crypto, notes: seq<Note>, boostHeight: nat, positions: map<Bytes, nat>, spends: seq<Spend>,
                    i: nat)
    requires i < |notes| && !notes[i].spent && boostHeight < notes[i].height && notes[i].cmu in positions
    ensures Caught(c, notes[i], SweepAll(c, RecomputedAll(c, notes, boostHeight, positions), spends).notes[i],
                   positions[notes[i].cmu], spends)
  {
    var n, pos := notes[i], positions[notes[i].cmu];
    SweepSettles(c, RecomputedAll(c, notes, boostHeight, positions), spends);
    if NullifierAt(c, n, pos).Some? {
      var k := FirstRevealIs(c, NullifierAt(c, n, pos).value, spends);
    }
  }

  /** Every other note keeps all its fields in the recompute. */
  lemma OthersKept(c: Crypto, notes: seq<Note>, boostHeight: nat, positions: map<Bytes, nat>, i: nat)
    requires i < |notes|
    requires || notes[i].spent || notes[i].height <= boostHeight || notes[i].cmu !in positions
             || notes[i].diversifier.None? || |notes[i].diversifier.value| != 11
             || notes[i].rcm.None? || |notes[i].rcm.value| != 32
             || c.nf(notes[i].diversifier.value, notes[i].value, notes[i].rcm.value, positions[notes[i].cmu]).None?
    ensures RecomputedAll(c, notes, boostHeight, positions)[i] == notes[i]
  {
  }

  /** And a note whose stored nullifier no record reveals is left alone by the sweep, as is a spent one. */
  lemma UnrevealedKept(c: Crypto, notes: seq<Note>, spends: seq<Spend>, i: nat)
    requires i < |notes|
    requires notes[i].spent || forall s :: s in spends ==> notes[i].nullifier != Some(c.hash(s.nullifier))
    ensures SweepAll(c, notes, spends).notes[i] == notes[i]
  {
    SweepSettles(c, notes, spends);
  }

  /** Record `k` reveals a note that no record before it spent. */
  ghost predicate Reveals(c: Crypto, notes: seq<Note>, spends: seq<Spend>, k: nat)
    requires k < |spends|
  {
    exists i :: 0 <= i < |notes| && Hits(SweepAll(c, notes, spends[..k]).notes[i], c.hash(spends[k].nullifier))
  }

  /** The height recorded for a transaction is that of its first record that found a note. */
  ghost predicate FirstHitOf(c: Crypto, notes: seq<Note>, spends: seq<Spend>, tx: Bytes, k: nat) {
    && k < |spends| && spends[k].txid == tx && Reveals(c, notes, spends, k)
    && forall j :: 0 <= j < k && spends[j].txid == tx ==> !Reveals(c, notes, spends, j)
  }

  lemma RevealsEarlier(c: Crypto, notes: seq<Note>, spends: seq<Spend>, m: nat)
    requires m <= |spends|
    ensures forall k :: 0 <= k < m ==> (Reveals(c, notes, spends[..m], k) <==> Reveals(c, notes, spends, k))
  {
    hide SweepAll, Hits;
    forall k | 0 <= k < m ensures Reveals(c, notes, spends[..m], k) <==> Reveals(c, notes, spends, k) {
      assert spends[..m][..k] == spends[..k];
    }
  }

  lemma LastReveals(c: Crypto, notes: seq<Note>, spends: seq<Spend>, tx: Bytes)
    requires spends != []
    ensures var m := |spends| - 1;
            var was, now := SweepAll(c, notes, spends[..m]).totals, SweepAll(c, notes, spends).totals;
            if spends[m].txid == tx && tx !in was && Reveals(c, notes, spends, m)
            then tx in now && now[tx].1 == spends[m].height
            else (tx in now <==> tx in was) && (tx in now ==> now[tx].1 == was[tx].1)
  {
  }

  lemma {:induction false} TotalsHeight(c: Crypto, notes: seq<Note>, spends: seq<Spend>, tx: Bytes) returns (k: nat)
    ensures var totals := SweepAll(c, notes, spends).totals;
            if tx in totals then FirstHitOf(c, notes, spends, tx, k) && totals[tx].1 == spends[k].height
            else forall j :: 0 <= j < |spends| && spends[j].txid == tx ==> !Reveals(c, notes, spends, j)
  {
    k := 0;
    if spends != [] {
      hide SweepAll, Reveals;
      var m := |spends| - 1;
      k := TotalsHeight(c, notes, spends[..m], tx);
      RevealsEarlier(c, notes, spends, m);
      LastReveals(c, notes, spends, tx);
      assert forall j :: 0 <= j < m ==> spends[..m][j] == spends[j];
      if tx !in SweepAll(c, notes, spends[..m]).totals {
        k := m;
      }
    } else {
      NoTotals(c, notes);
    }
  }

  lemma NoTotals(c: Crypto, notes: seq<Note>)
    ensures SweepAll(c, notes, []).totals == map[]
  {
  }

  /** A second sweep over the same records marks nothing and records nothing. */
  lemma {:induction false} SecondSweepMarksNothing(c: Crypto, notes: seq<Note>, spends: seq<Spend>, again: seq<Spend>)
    requires forall s :: s in again ==> s in spends
    ensures var done := SweepAll(c, notes, spends).notes; SweepAll(c, done, again) == Sweep(done, 0, map[])
  {
    if again != [] {
      var m := |again| - 1;
      SecondSweepMarksNothing(c, notes, spends, again[..m]);
      SweepSettles(c, notes, spends);
      assert again[m] in spends;
    }
  }

  /** Value of the notes that went from unspent to spent by transaction `tx`. */
  function NewlySpent(before: seq<Note>, after: seq<Note>, tx: Bytes): nat
    requires |before| == |after|
  {
    if before == [] then 0
    else
      var m := |before| - 1;
      var now := !before[m].spent && after[m].spent && after[m].spentTx == tx;
      NewlySpent(before[..m], after[..m], tx) + if now then before[m].value else 0
  }

  function NewlySpentCount(before: seq<Note>, after: seq<Note>): nat
    requires |before| == |after|
  {
    if before == [] then 0
    else
      var m := |before| - 1;
      NewlySpentCount(before[..m], after[..m]) + if !before[m].spent && after[m].spent then 1 else 0
  }

  /** Changing one unspent row into a spent one adds exactly its value to its transaction. */
  lemma {:induction false} OneMoreSpent(before: seq<Note>, mid: seq<Note>, after: seq<Note>, k: nat, tx: Bytes)
    requires |before| == |mid| == |after| && k < |before|
    requires !before[k].spent && !mid[k].spent && after[k].spent
    requires forall i :: 0 <= i < |mid| && i != k ==> after[i] == mid[i]
    ensures NewlySpent(before, after, tx) ==
            NewlySpent(before, mid, tx) + if after[k].spentTx == tx then before[k].value else 0
    ensures NewlySpentCount(before, after) == NewlySpentCount(before, mid) + 1
  {
    var m := |before| - 1;
    if k == m {
      assert after[..m] == mid[..m];
    } else {
      OneMoreSpent(before[..m], mid[..m], after[..m], k, tx);
    }
  }

  lemma {:induction false} NothingSpent(notes: seq<Note>, tx: Bytes)
    ensures NewlySpent(notes, notes, tx) == 0 && NewlySpentCount(notes, notes) == 0
  {
    if notes != [] {
      NothingSpent(notes[..|notes| - 1], tx);
    }
  }

  function Total(totals: map<Bytes, (nat, nat)>, tx: Bytes): nat {
    if tx in totals then totals[tx].0 else 0
  }

  /** No two unspent notes share a nullifier that the spends reveal. */
  ghost predicate Unshared(c: Crypto, notes: seq<Note>, spends: seq<Spend>) {
    forall i, j :: 0 <= i < j < |notes| && !notes[i].spent && !notes[j].spent
                   && notes[i].nullifier == notes[j].nullifier
                   ==> FirstReveal(c, notes[i].nullifier, spends).None?
  }

  ghost predicate TwoHits(notes: seq<Note>, hashed: Bytes) {
    exists i, j :: 0 <= i < j < |notes| && Hits(notes[i], hashed) && Hits(notes[j], hashed)
  }

  /** The prefix step: sharing shows up as a record that finds two notes. */
  lemma UnsharedStep(c: Crypto, notes: seq<Note>, spends: seq<Spend>, s: Spend)
    ensures Unshared(c, notes, spends + [s])
       <==> Unshared(c, notes, spends) && !TwoHits(SweepAll(c, notes, spends).notes, c.hash(s.nullifier))
  {
    var mid, hashed := SweepAll(c, notes, spends).notes, c.hash(s.nullifier);
    SweepSettles(c, notes, spends);
    forall x ensures FirstReveal(c, x, spends + [s]).None? <==> FirstReveal(c, x, spends).None? && x != Some(hashed) {
      assert (spends + [s])[..|spends|] == spends;
    }
    forall i, j | 0 <= i < j < |notes| && !notes[i].spent && !notes[j].spent && notes[i].nullifier == notes[j].nullifier
      ensures FirstReveal(c, notes[i].nullifier, spends + [s]).None?
         <==> FirstReveal(c, notes[i].nullifier, spends).None? && !(Hits(mid[i], hashed) && Hits(mid[j], hashed))
    {
    }
    if Unshared(c, notes, spends + [s]) {
      assert Unshared(c, notes, spends);
    } else if Unshared(c, notes, spends) {
      var i, j :| 0 <= i < j < |notes| && !notes[i].spent && !notes[j].spent && notes[i].nullifier == notes[j].nullifier
                  && FirstReveal(c, notes[i].nullifier, spends + [s]).Some?;
      assert Hits(mid[i], hashed) && Hits(mid[j], hashed);
    }
  }

  /** Marking rows never lowers the count of newly spent ones. */
  lemma {:induction false} CountGrows(before: seq<Note>, mid: seq<Note>, after: seq<Note>)
    requires |before| == |mid| == |after|
    requires forall i :: 0 <= i < |mid| && mid[i].spent ==> after[i] == mid[i]
    ensures NewlySpentCount(before, mid) <= NewlySpentCount(before, after)
  {
    if before != [] {
      var m := |before| - 1;
      CountGrows(before[..m], mid[..m], after[..m]);
    }
  }

  lemma TwoHitsCountTwice(before: seq<Note>, mid: seq<Note>, hashed: Bytes, s: Spend, i: nat, j: nat)
    requires |before| == |mid| && i < j < |mid| && !before[i].spent && !before[j].spent
    requires Hits(mid[i], hashed) && Hits(mid[j], hashed)
    ensures NewlySpentCount(before, MarkAll(mid, hashed, s)) >= NewlySpentCount(before, mid) + 2
  {
    var one := mid[i := MarkSpent(mid[i], hashed, s)];
    var two := one[j := MarkSpent(mid[j], hashed, s)];
    OneMoreSpent(before, mid, one, i, []);
    OneMoreSpent(before, one, two, j, []);
    CountGrows(before, two, MarkAll(mid, hashed, s));
  }

  /**
   * Counted once: if no two unspent notes share a revealed nullifier, the amount recorded for
   * each transaction is exactly the value of the notes it newly spends.
   */
  lemma {:induction false} TotalsAreExact(c: Crypto, notes: seq<Note>, spends: seq<Spend>, tx: Bytes)
    requires Unshared(c, notes, spends)
    ensures Total(SweepAll(c, notes, spends).totals, tx) == NewlySpent(notes, SweepAll(c, notes, spends).notes, tx)
  {
    if spends == [] {
      NothingSpent(notes, tx);
    } else {
      var m := |spends| - 1;
      var w, s := SweepAll(c, notes, spends[..m]), spends[m];
      assert spends[..m] + [s] == spends;
      UnsharedStep(c, notes, spends[..m], s);
      TotalsAreExact(c, notes, spends[..m], tx);
      SweepSettles(c, notes, spends[..m]);
      var hit := FirstHit(w.notes, c.hash(s.nullifier));
      if hit.Some? {
        OneMoreSpent(notes, w.notes, MarkAll(w.notes, c.hash(s.nullifier), s), hit.value, tx);
      }
    }
  }

  /** One record: the match count rises with the notes spent, unless it finds two notes. */
  lemma CountStep(c: Crypto, notes: seq<Note>, w: Sweep, s: Spend)
    requires |w.notes| == |notes| && forall i :: 0 <= i < |notes| && !w.notes[i].spent ==> !notes[i].spent
    ensures var w' := SweepStep(c, w, s);
            var gain := NewlySpentCount(notes, w'.notes) - NewlySpentCount(notes, w.notes);
            if TwoHits(w.notes, c.hash(s.nullifier)) then w'.marked - w.marked < gain else w'.marked - w.marked == gain
  {
    var hashed := c.hash(s.nullifier);
    var hit := FirstHit(w.notes, hashed);
    if TwoHits(w.notes, hashed) {
      var i, j :| 0 <= i < j < |notes| && Hits(w.notes[i], hashed) && Hits(w.notes[j], hashed);
      TwoHitsCountTwice(notes, w.notes, hashed, s, i, j);
    } else if hit.Some? {
      OneMoreSpent(notes, w.notes, MarkAll(w.notes, hashed, s), hit.value, []);
    }
  }

  /**
   * The number of matches never exceeds the number of notes newly spent, and equals it exactly
   * if no two unspent notes share a revealed nullifier.
   */
  lemma {:induction false} CountIsExactWhenUnshared(c: Crypto, notes: seq<Note>, spends: seq<Spend>)
    ensures SweepAll(c, notes, spends).marked <= NewlySpentCount(notes, SweepAll(c, notes, spends).notes)
    ensures SweepAll(c, notes, spends).marked == NewlySpentCount(notes, SweepAll(c, notes, spends).notes)
       <==> Unshared(c, notes, spends)
  {
    if spends == [] {
      NothingSpent(notes, []);
    } else {
      var m := |spends| - 1;
      assert spends[..m] + [spends[m]] == spends;
      CountIsExactWhenUnshared(c, notes, spends[..m]);
      UnsharedStep(c, notes, spends[..m], spends[m]);
      SweepSettles(c, notes, spends[..m]);
      CountStep(c, notes, SweepAll(c, notes, spends[..m]), spends[m]);
    }
  }

  /**
   * Two notes that the recompute gives one nullifier, because the nullifier function collides:
   * both are marked, but only the first one's value is recorded.
   */
  lemma SharedNullifierLosesValue(c: Crypto, a: Note, b: Note, boostHeight: nat, positions: map<Bytes, nat>, s: Spend)
    requires |a.cmu| == HASH_LEN == |b.cmu| && a.cmu != b.cmu
    requires Mapped(a, boostHeight, positions) && Mapped(b, boostHeight, positions)
    requires NullifierAt(c, a, positions[a.cmu]) == Some(s.nullifier) == NullifierAt(c, b, positions[b.cmu])
    ensures var r := RecomputedAll(c, [a, b], boostHeight, positions);
            var w := SweepAll(c, r, [s]);
            && !Unshared(c, r, [s]) && NewlySpentCount([a, b], w.notes) == 2
            && w.marked == 1 && w.totals == map[s.txid := (a.value, s.height)]
  {
    var r := RecomputedAll(c, [a, b], boostHeight, positions);
    assert r == [Recomputed(c, a, boostHeight, positions), Recomputed(c, b, boostHeight, positions)];
    assert [s][..0] == [];
    assert SweepAll(c, r, []) == Sweep(r, 0, map[]);
    assert SweepAll(c, r, [s]) == SweepStep(c, Sweep(r, 0, map[]), s);
    assert FirstHit(r, c.hash(s.nullifier)) == Some(0);
    CountIsExactWhenUnshared(c, r, [s]);
    var w := SweepAll(c, r, [s]).notes;
    assert w == [w[0], w[1]] && w[0].spent && w[1].spent;
    CountOfTwo(a, b, w[0], w[1]);
    RecomputeKeepsSpent(c, [a, b], boostHeight, positions, w);
  }

  lemma CountOfTwo(a: Note, b: Note, x: Note, y: Note)
    requires !a.spent && !b.spent && x.spent && y.spent
    ensures NewlySpentCount([a, b], [x, y]) == 2
  {
    assert [a, b][..1] == [a] && [x, y][..1] == [x];
    assert [a][..0] == [] && [x][..0] == [];
    assert NewlySpentCount([a], [x]) == 1;
  }

  /** The recompute changes neither values nor spent marks. */
  lemma {:induction false} RecomputeKeepsSpent(c: Crypto, notes: seq<Note>, boostHeight: nat,
                                               positions: map<Bytes, nat>, after: seq<Note>)
    requires |after| == |notes|
    ensures var r := RecomputedAll(c, notes, boostHeight, positions);
            && NewlySpentCount(r, after) == NewlySpentCount(notes, after)
            && forall tx :: NewlySpent(r, after, tx) == NewlySpent(notes, after, tx)
  {
    if notes != [] {
      var m := |notes| - 1;
      RecomputeKeepsSpent(c, notes[..m], boostHeight, positions, after[..m]);
      assert RecomputedAll(c, notes, boostHeight, positions)[..m] ==
             RecomputedAll(c, notes[..m], boostHeight, positions);
    }
  }

  /** No two inputs have one hash, and no two notes one nullifier. */
  ghost predicate Injective(c: Crypto) {
    && (forall a, b :: c.hash(a) == c.hash(b) ==> a == b)
    && (forall d, v, r, p, d', v', r', p' ::
          c.nf(d, v, r, p).Some? && c.nf(d, v, r, p) == c.nf(d', v', r', p') ==> (d, v, r) == (d', v', r'))
  }

  /** The stored nullifier, if there is one, is the note's own at some position, and the commitment is its own. */
  ghost predicate Own(c: Crypto, n: Note) {
    && (n.diversifier.Some? && n.rcm.Some? ==> n.cmu == c.cmu(n.diversifier.value, n.value, n.rcm.value))
    && (n.nullifier.Some? ==> exists p :: OwnAt(c, n, p))
  }

  predicate OwnAt(c: Crypto, n: Note, p: nat) {
    && n.diversifier.Some? && n.rcm.Some?
    && match c.nf(n.diversifier.value, n.value, n.rcm.value, p) {
         case Some(nf) => n.nullifier == Some(c.hash(nf))
         case None => false
       }
  }

  /** What the stored rows must satisfy, as every writer of nullifiers leaves them. */
  ghost predicate OwnNullifiers(c: Crypto, notes: seq<Note>) {
    forall n :: n in notes && !n.spent ==> Own(c, n)
  }

  lemma OwnDiffer(c: Crypto, a: Note, b: Note)
    requires Injective(c) && Own(c, a) && Own(c, b) && a.cmu != b.cmu && a.nullifier.Some?
    ensures a.nullifier != b.nullifier
  {
    if b.nullifier.Some? {
      var p :| OwnAt(c, a, p);
      var q :| OwnAt(c, b, q);
      var nf := c.nf(a.diversifier.value, a.value, a.rcm.value, p);
      assert nf == c.nf(b.diversifier.value, b.value, b.rcm.value, q) ==> a.cmu == b.cmu;
    }
  }

  lemma RecomputeKeepsOwn(c: Crypto, n: Note, boostHeight: nat, positions: map<Bytes, nat>)
    requires Own(c, n)
    ensures Own(c, Recomputed(c, n, boostHeight, positions))
  {
    var r := Recomputed(c, n, boostHeight, positions);
    if r != n {
      assert OwnAt(c, r, positions[n.cmu]);
    } else if n.nullifier.Some? {
      var p :| OwnAt(c, n, p);
    }
  }

  /**
   * So, before and after a recompute, no two unspent notes share a nullifier, if the cryptography
   * has no collisions.
   */
  lemma RecomputeSeparates(c: Crypto, notes: seq<Note>, boostHeight: nat, positions: map<Bytes, nat>,
                           spends: seq<Spend>)
    requires UniqueCmus(notes) && Injective(c) && OwnNullifiers(c, notes)
    ensures Unshared(c, RecomputedAll(c, notes, boostHeight, positions), spends)
  {
    hide Injective, Own, FirstReveal;
    var r := RecomputedAll(c, notes, boostHeight, positions);
    forall i | 0 <= i < |r| && !r[i].spent ensures Own(c, r[i]) && r[i].cmu == notes[i].cmu {
      assert notes[i] in notes;
      RecomputeKeepsOwn(c, notes[i], boostHeight, positions);
    }
    forall i, j | 0 <= i < j < |r| && !r[i].spent && !r[j].spent && r[i].nullifier == r[j].nullifier
      ensures FirstReveal(c, r[i].nullifier, spends).None?
    {
      if r[i].nullifier.Some? {
        OwnDiffer(c, r[i], r[j]);
      }
    }
  }
}
