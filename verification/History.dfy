/**
 * The per-transaction history built from the boost notes (crates/zipherx-core/src/async_sync.rs:
 * boost_scan_if_needed): received entries, except for change, and sent entries net of change
 * and of a fixed fee.
 */
module History {
  import opened Common
  import opened BoostScan

  /** The fee every sent entry is assumed to have paid. */
  const FEE: nat := 10_000

  datatype Kind = Received | Sent

  datatype Entry = Entry(txid: Bytes, height: nat, kind: Kind, amount: nat, fee: nat)

  // ---------------------------------------------------------------- per transaction

  /** Value our notes received in transaction `t`. */
  function ReceivedIn(notes: seq<Note>, t: Bytes): nat {
    if notes == [] then 0
    else
      var n := notes[|notes| - 1];
      ReceivedIn(notes[..|notes| - 1], t) + if n.receivedTxid == t then n.plain.value else 0
  }

  /** Value of our notes that transaction `t` spends. */
  function SpentIn(notes: seq<Note>, t: Bytes): nat {
    if notes == [] then 0
    else
      var n := notes[|notes| - 1];
      SpentIn(notes[..|notes| - 1], t) + if n.isSpent && n.spentTxid == t then n.plain.value else 0
  }

  function ReceivedHeight(notes: seq<Note>, t: Bytes): nat {
    if notes == [] then 0
    else
      var n := notes[|notes| - 1];
      Max(ReceivedHeight(notes[..|notes| - 1], t), if n.receivedTxid == t then n.height else 0)
  }

  function SpentHeight(notes: seq<Note>, t: Bytes): nat {
    if notes == [] then 0
    else
      var n := notes[|notes| - 1];
      Max(SpentHeight(notes[..|notes| - 1], t), if n.isSpent && n.spentTxid == t then n.spentHeight else 0)
  }

  predicate Receives(notes: seq<Note>, t: Bytes) {
    exists i :: 0 <= i < |notes| && notes[i].receivedTxid == t
  }

  predicate Spends(notes: seq<Note>, t: Bytes) {
    exists i :: 0 <= i < |notes| && notes[i].isSpent && notes[i].spentTxid == t
  }

  function ReceivedEntry(notes: seq<Note>, t: Bytes): Entry {
    Entry(t, ReceivedHeight(notes, t), Received, ReceivedIn(notes, t), 0)
  }

  function NetSent(input: nat, change: nat): nat {
    SatSub(SatSub(input, change), FEE)
  }

  function SentEntry(notes: seq<Note>, t: Bytes): Entry {
    Entry(t, SpentHeight(notes, t), Sent, NetSent(SpentIn(notes, t), ReceivedIn(notes, t)), FEE)
  }

  // ---------------------------------------------------------------- building the history

  /** The map holds, for the transactions that receive or spend our notes, their sums and greatest heights. */
  ghost predicate Grouped(byTx: map<Bytes, (nat, nat)>, notes: seq<Note>, spent: bool) {
    forall t ::
      && (t in byTx <==> if spent then Spends(notes, t) else Receives(notes, t))
      && (t in byTx ==> byTx[t] == if spent then (SpentIn(notes, t), SpentHeight(notes, t))
                                   else (ReceivedIn(notes, t), ReceivedHeight(notes, t)))
  }

  lemma GroupExtend(notes: seq<Note>, n: Note, t: Bytes)
    ensures ReceivedIn(notes + [n], t) == ReceivedIn(notes, t) + if n.receivedTxid == t then n.plain.value else 0
    ensures SpentIn(notes + [n], t) == SpentIn(notes, t) + if n.isSpent && n.spentTxid == t then n.plain.value else 0
    ensures ReceivedHeight(notes + [n], t) == Max(ReceivedHeight(notes, t), if n.receivedTxid == t then n.height else 0)
    ensures SpentHeight(notes + [n], t) ==
            Max(SpentHeight(notes, t), if n.isSpent && n.spentTxid == t then n.spentHeight else 0)
    ensures Receives(notes + [n], t) <==> Receives(notes, t) || n.receivedTxid == t
    ensures Spends(notes + [n], t) <==> Spends(notes, t) || (n.isSpent && n.spentTxid == t)
  {
    var all := notes + [n];
    assert all[..|notes|] == notes && all[|notes|] == n;
    assert forall i :: 0 <= i < |notes| ==> all[i] == notes[i];
  }

  lemma {:induction false} NothingIn(notes: seq<Note>, t: Bytes)
    ensures !Receives(notes, t) ==> ReceivedIn(notes, t) == 0 && ReceivedHeight(notes, t) == 0
    ensures !Spends(notes, t) ==> SpentIn(notes, t) == 0 && SpentHeight(notes, t) == 0
  {
    if notes != [] {
      var m := |notes| - 1;
      NothingIn(notes[..m], t);
      assert notes == notes[..m] + [notes[m]];
      GroupExtend(notes[..m], notes[m], t);
    }
  }

  /** Adds one value to a transaction's (sum, greatest height). */
  function Bump(byTx: map<Bytes, (nat, nat)>, t: Bytes, value: nat, height: nat): map<Bytes, (nat, nat)> {
    var was := if t in byTx then byTx[t] else (0, 0);
    byTx[t := (was.0 + value, Max(was.1, height))]
  }

  lemma GroupedReceived(byTx: map<Bytes, (nat, nat)>, notes: seq<Note>, n: Note)
    requires Grouped(byTx, notes, false)
    ensures Grouped(Bump(byTx, n.receivedTxid, n.plain.value, n.height), notes + [n], false)
  {
    hide ReceivedIn, SpentIn, ReceivedHeight, SpentHeight, Receives, Spends;
    var byTx' := Bump(byTx, n.receivedTxid, n.plain.value, n.height);
    forall t
      ensures t in byTx' <==> Receives(notes + [n], t)
      ensures t in byTx' ==> byTx'[t] == (ReceivedIn(notes + [n], t), ReceivedHeight(notes + [n], t))
    {
      GroupExtend(notes, n, t);
      NothingIn(notes, t);
    }
  }

  lemma GroupedSpent(byTx: map<Bytes, (nat, nat)>, notes: seq<Note>, n: Note)
    requires Grouped(byTx, notes, true)
    ensures Grouped(if n.isSpent then Bump(byTx, n.spentTxid, n.plain.value, n.spentHeight) else byTx,
                    notes + [n], true)
  {
    hide ReceivedIn, SpentIn, ReceivedHeight, SpentHeight, Receives, Spends;
    var byTx' := if n.isSpent then Bump(byTx, n.spentTxid, n.plain.value, n.spentHeight) else byTx;
    forall t
      ensures t in byTx' <==> Spends(notes + [n], t)
      ensures t in byTx' ==> byTx'[t] == (SpentIn(notes + [n], t), SpentHeight(notes + [n], t))
    {
      GroupExtend(notes, n, t);
      NothingIn(notes, t);
    }
  }

  method GroupReceived(notes: seq<Note>) returns (byTx: map<Bytes, (nat, nat)>)
    ensures Grouped(byTx, notes, false)
  {
    hide ReceivedIn, SpentIn, ReceivedHeight, SpentHeight, Receives, Spends, Max;
    byTx := map[];
    NothingGrouped();
    assert notes[..0] == [];
    for i := 0 to |notes|
      invariant Grouped(byTx, notes[..i], false)
    {
      assert notes[..i + 1] == notes[..i] + [notes[i]];
      GroupedReceived(byTx, notes[..i], notes[i]);
      byTx := Bump(byTx, notes[i].receivedTxid, notes[i].plain.value, notes[i].height);
    }
    assert notes[..|notes|] == notes;
  }

  method GroupSpent(notes: seq<Note>) returns (byTx: map<Bytes, (nat, nat)>)
    ensures Grouped(byTx, notes, true)
  {
    hide ReceivedIn, SpentIn, ReceivedHeight, SpentHeight, Receives, Spends, Max;
    byTx := map[];
    NothingGrouped();
    assert notes[..0] == [];
    for i := 0 to |notes|
      invariant Grouped(byTx, notes[..i], true)
    {
      assert notes[..i + 1] == notes[..i] + [notes[i]];
      GroupedSpent(byTx, notes[..i], notes[i]);
      if notes[i].isSpent {
        byTx := Bump(byTx, notes[i].spentTxid, notes[i].plain.value, notes[i].spentHeight);
      }
    }
    assert notes[..|notes|] == notes;
  }

  lemma NothingGrouped()
    ensures forall t :: !Receives([], t) && !Spends([], t)
  {
  }

  /** `rs` lists the transactions that only received, `ss` those that spent, each once. */
  ghost predicate Split(notes: seq<Note>, rs: seq<Bytes>, ss: seq<Bytes>) {
    && Distinct(rs) && Distinct(ss)
    && (forall t :: t in rs <==> Receives(notes, t) && !Spends(notes, t))
    && (forall t :: t in ss <==> Spends(notes, t))
  }

  /** One received entry for each of `rs`, then one sent entry for each of `ss`. */
  function Entries(notes: seq<Note>, rs: seq<Bytes>, ss: seq<Bytes>): (h: seq<Entry>)
    ensures |h| == |rs| + |ss|
  {
    seq(|rs|, i requires 0 <= i < |rs| => ReceivedEntry(notes, rs[i]))
    + seq(|ss|, i requires 0 <= i < |ss| => SentEntry(notes, ss[i]))
  }

  /** The keys are visited in no particular order, as a hash map yields them. */
  method BuildHistory(notes: seq<Note>) returns (history: seq<Entry>, ghost rs: seq<Bytes>, ghost ss: seq<Bytes>)
    ensures Split(notes, rs, ss) && history == Entries(notes, rs, ss)
  {
    hide ReceivedIn, SpentIn, ReceivedHeight, SpentHeight, Receives, Spends, NetSent, Distinct;
    var received := GroupReceived(notes);
    var inputs := GroupSpent(notes);
    history, rs, ss := [], [], [];
    NothingYet(notes);
    var left := received.Keys;
    while left != {}
      invariant left <= received.Keys && Distinct(rs)
      invariant forall t :: t in rs <==> t in received.Keys - left && t !in inputs
      invariant history == Entries(notes, rs, [])
    {
      var t :| t in left;
      left := left - {t};
      if t !in inputs {
        history := history + [Entry(t, received[t].1, Received, received[t].0, 0)];
        DistinctExtend(rs, t);
        rs := rs + [t];
      }
    }
    left := inputs.Keys;
    while left != {}
      invariant left <= inputs.Keys && Distinct(ss)
      invariant forall t :: t in ss <==> t in inputs.Keys - left
      invariant history == Entries(notes, rs, ss)
    {
      var t :| t in left;
      left := left - {t};
      var change := if t in received then received[t].0 else 0;
      NothingIn(notes, t);
      history := history + [Entry(t, inputs[t].1, Sent, NetSent(inputs[t].0, change), FEE)];
      DistinctExtend(ss, t);
      ss := ss + [t];
    }
  }

  lemma NothingYet(notes: seq<Note>)
    ensures Entries(notes, [], []) == [] && Distinct<Bytes>([])
  {
  }

  // ---------------------------------------------------------------- the fields of an entry

  /** The greatest height at which our notes were received in `t`. */
  lemma {:induction false} ReceivedHeightIs(notes: seq<Note>, t: Bytes)
    ensures forall n :: n in notes && n.receivedTxid == t ==> n.height <= ReceivedHeight(notes, t)
    ensures Receives(notes, t) ==> exists n :: n in notes && n.receivedTxid == t && n.height == ReceivedHeight(notes, t)
  {
    if notes != [] {
      var m := |notes| - 1;
      ReceivedHeightIs(notes[..m], t);
      assert notes == notes[..m] + [notes[m]];
      NothingIn(notes[..m], t);
      GroupExtend(notes[..m], notes[m], t);
    }
  }

  /** The greatest height at which our notes were spent by `t`. */
  lemma {:induction false} SpentHeightIs(notes: seq<Note>, t: Bytes)
    ensures forall n :: n in notes && n.isSpent && n.spentTxid == t ==> n.spentHeight <= SpentHeight(notes, t)
    ensures Spends(notes, t) ==>
              exists n :: n in notes && n.isSpent && n.spentTxid == t && n.spentHeight == SpentHeight(notes, t)
  {
    if notes != [] {
      var m := |notes| - 1;
      SpentHeightIs(notes[..m], t);
      assert notes == notes[..m] + [notes[m]];
      NothingIn(notes[..m], t);
      GroupExtend(notes[..m], notes[m], t);
    }
  }

  /**
   * Every entry is that of a transaction that receives or spends. A received one carries what the
   * transaction brought, and no fee; a sent one what it spent, less what came back and less the fee
   * of 10_000, which it carries apart.
   */
  lemma EntriesExactly(notes: seq<Note>, rs: seq<Bytes>, ss: seq<Bytes>, i: nat)
    requires Split(notes, rs, ss) && i < |Entries(notes, rs, ss)|
    ensures var e := Entries(notes, rs, ss)[i];
            if i < |rs|
            then && e.kind == Received && e.txid == rs[i] && Receives(notes, e.txid) && !Spends(notes, e.txid)
                 && e.amount == ReceivedIn(notes, e.txid) && e.fee == 0 && e.height == ReceivedHeight(notes, e.txid)
            else && e.kind == Sent && e.txid == ss[i - |rs|] && Spends(notes, e.txid) && e.fee == 10_000
                 && e.amount == Max(0, SpentIn(notes, e.txid) - ReceivedIn(notes, e.txid) - 10_000)
                 && e.height == SpentHeight(notes, e.txid)
  {
    hide ReceivedIn, SpentIn, ReceivedHeight, SpentHeight, Receives, Spends;
    if i < |rs| {
      assert rs[i] in rs;
    } else {
      assert ss[i - |rs|] in ss;
    }
  }

  // ---------------------------------------------------------------- history against balance

  /** What the history says is left: received minus sent and fees. */
  function Net(h: seq<Entry>): int {
    if h == [] then 0
    else
      var e := h[|h| - 1];
      Net(h[..|h| - 1]) + match e.kind case Received => e.amount case Sent => -(e.amount + e.fee)
  }

  function SumBy(ts: seq<Bytes>, f: Bytes -> int): int {
    if ts == [] then 0 else SumBy(ts[..|ts| - 1], f) + f(ts[|ts| - 1])
  }

  /** What our notes gained in a transaction minus what it spent of them. */
  function Gain(notes: seq<Note>, t: Bytes): int {
    ReceivedIn(notes, t) - SpentIn(notes, t)
  }

  /** What the entries overstate as sent by this transaction. */
  function Shortfall(notes: seq<Note>, t: Bytes): nat {
    if ReceivedIn(notes, t) + FEE <= SpentIn(notes, t) then 0 else ReceivedIn(notes, t) + FEE - SpentIn(notes, t)
  }

  /** The transaction's inputs cover its change and the fixed fee. */
  predicate Covered(notes: seq<Note>, t: Bytes) {
    ReceivedIn(notes, t) + FEE <= SpentIn(notes, t)
  }

  lemma {:induction false} SumByShift(ts: seq<Bytes>, f: Bytes -> int, g: Bytes -> int, t: Bytes, v: int)
    requires Distinct(ts) && t in ts
    requires forall x :: x in ts ==> g(x) == f(x) + if x == t then v else 0
    ensures SumBy(ts, g) == SumBy(ts, f) + v
  {
    var m := |ts| - 1;
    if ts[m] == t {
      SumBySame(ts[..m], f, g);
    } else {
      assert t in ts[..m];
      SumByShift(ts[..m], f, g, t, v);
    }
  }

  lemma {:induction false} SumBySame(ts: seq<Bytes>, f: Bytes -> int, g: Bytes -> int)
    requires forall x :: x in ts ==> g(x) == f(x)
    ensures SumBy(ts, g) == SumBy(ts, f)
  {
    if ts != [] {
      SumBySame(ts[..|ts| - 1], f, g);
    }
  }

  lemma {:induction false} SumByZero(ts: seq<Bytes>, f: Bytes -> int)
    requires forall x :: x in ts ==> f(x) == 0
    ensures SumBy(ts, f) == 0
  {
    if ts != [] {
      SumByZero(ts[..|ts| - 1], f);
    }
  }

  /** Summed over every transaction that touches our notes, the gains are the unspent value. */
  lemma {:induction false} GainsAreUnspent(notes: seq<Note>, ts: seq<Bytes>)
    requires Distinct(ts) && forall t :: Receives(notes, t) || Spends(notes, t) ==> t in ts
    ensures SumBy(ts, t => Gain(notes, t)) == NoteSum(notes, false)
  {
    hide ReceivedIn, SpentIn, Receives, Spends, Distinct, ReceivedHeight, SpentHeight;
    if notes == [] {
      NoGains(ts);
    } else {
      var rest, n := notes[..|notes| - 1], notes[|notes| - 1];
      assert notes == rest + [n];
      forall t {
        GroupExtend(rest, n, t);
      }
      assert Receives(notes, n.receivedTxid) && (n.isSpent ==> Spends(notes, n.spentTxid));
      GainsAreUnspent(rest, ts);
      var f, g := (t: Bytes) => Gain(rest, t), (t: Bytes) => Gain(notes, t);
      var mid := (t: Bytes) => Gain(rest, t) + if t == n.receivedTxid then n.plain.value else 0;
      SumByShift(ts, f, mid, n.receivedTxid, n.plain.value);
      if n.isSpent {
        var value: int := n.plain.value;
        SumByShift(ts, mid, g, n.spentTxid, -value);
      } else {
        SumBySame(ts, mid, g);
      }
    }
  }

  lemma NoGains(ts: seq<Bytes>)
    ensures SumBy(ts, t => Gain([], t)) == NoteSum([], false)
  {
    SumByZero(ts, t => Gain([], t));
  }

  /** The history's net is the gains less the shortfalls of the spending transactions. */
  lemma {:induction false} NetIsGainsLessShortfalls(notes: seq<Note>, rs: seq<Bytes>, ss: seq<Bytes>)
    requires forall t :: t in rs ==> !Spends(notes, t)
    ensures Net(Entries(notes, rs, ss)) == SumBy(rs + ss, t => Gain(notes, t)) - SumBy(ss, t => Shortfall(notes, t))
  {
    hide ReceivedIn, SpentIn, ReceivedHeight, SpentHeight, Spends;
    var h := Entries(notes, rs, ss);
    if ss != [] {
      var m := |ss| - 1;
      NetIsGainsLessShortfalls(notes, rs, ss[..m]);
      assert h[..|h| - 1] == Entries(notes, rs, ss[..m]);
      assert (rs + ss)[..|rs + ss| - 1] == rs + ss[..m];
    } else if rs != [] {
      var m := |rs| - 1;
      NetIsGainsLessShortfalls(notes, rs[..m], []);
      assert h[..|h| - 1] == Entries(notes, rs[..m], []);
      assert (rs + ss)[..|rs + ss| - 1] == rs[..m] + [];
      assert rs[m] in rs;
      NothingIn(notes, rs[m]);
    }
  }

  lemma {:induction false} ShortfallsVanish(notes: seq<Note>, ss: seq<Bytes>)
    ensures 0 <= SumBy(ss, t => Shortfall(notes, t))
    ensures SumBy(ss, t => Shortfall(notes, t)) == 0 <==> forall t :: t in ss ==> Covered(notes, t)
  {
    hide ReceivedIn, SpentIn;
    if ss != [] {
      var m := |ss| - 1;
      ShortfallsVanish(notes, ss[..m]);
      assert Shortfall(notes, ss[m]) == 0 <==> Covered(notes, ss[m]);
      assert ss == ss[..m] + [ss[m]];
      assert forall t :: t in ss <==> t in ss[..m] || t == ss[m];
    }
  }

  lemma SplitIsDistinct(notes: seq<Note>, rs: seq<Bytes>, ss: seq<Bytes>)
    requires Split(notes, rs, ss)
    ensures Distinct(rs + ss) && forall t :: Receives(notes, t) || Spends(notes, t) ==> t in rs + ss
  {
    hide Spends, Receives;
    assert forall i :: 0 <= i < |rs| ==> rs[i] in rs;
    assert forall i :: 0 <= i < |ss| ==> ss[i] in ss;
  }

  /**
   * The history never shows more than the unspent notes are worth, and it shows exactly that if
   * and only if every spending transaction's inputs cover its change plus the fixed fee.
   */
  lemma HistoryNetsToBalance(notes: seq<Note>, rs: seq<Bytes>, ss: seq<Bytes>)
    requires Split(notes, rs, ss)
    ensures Net(Entries(notes, rs, ss)) <= NoteSum(notes, false)
    ensures Net(Entries(notes, rs, ss)) == NoteSum(notes, false) <==> forall t :: Spends(notes, t) ==> Covered(notes, t)
  {
    hide ReceivedIn, SpentIn, ReceivedHeight, SpentHeight, Spends, Receives, Net, SumBy, NoteSum, Entries;
    SplitIsDistinct(notes, rs, ss);
    GainsAreUnspent(notes, rs + ss);
    NetIsGainsLessShortfalls(notes, rs, ss);
    ShortfallsVanish(notes, ss);
  }

  /** A note of `value` received in transaction `t`; `spender`, if any, is where it was spent. */
  function Example(value: nat, t: Bytes, spender: Option<Bytes>): Note {
    Note(1, 0, Plain(value, [], []), [], [], spender.Some?, if spender.Some? then 2 else 0,
         if spender.Some? then spender.value else [], t)
  }

  /** Transaction [2] spends 100_000 for 95_000 of change: the history is 5_000 short of the balance. */
  lemma SmallFeeOverstated()
    ensures var notes := [Example(100_000, [1], Some([2])), Example(95_000, [2], None)];
            && Split(notes, [[1]], [[2]])
            && Net(Entries(notes, [[1]], [[2]])) == 90_000 && NoteSum(notes, false) == 95_000
  {
    hide ReceivedIn, SpentIn, Receives, Spends, Net, SumBy, NoteSum, Entries, ReceivedHeight, SpentHeight, Gain;
    var (a, b) := (Example(100_000, [1], Some([2])), Example(95_000, [2], None));
    var notes := [a, b];
    forall t: Bytes
      ensures Receives(notes, t) <==> t == [1] || t == [2]
      ensures Spends(notes, t) <==> t == [2]
    {
      ExampleIs(a, b, t);
    }
    ExampleIs(a, b, [2]);
    NetIsGainsLessShortfalls(notes, [[1]], [[2]]);
    SplitIsDistinct(notes, [[1]], [[2]]);
    GainsAreUnspent(notes, [[1]] + [[2]]);
    assert Shortfall(notes, [2]) == 5_000;
    OneShortfall(notes, [2]);
    SumOfTwo(a, b);
  }

  lemma ExampleIs(a: Note, b: Note, t: Bytes)
    requires a == Example(100_000, [1], Some([2])) && b == Example(95_000, [2], None)
    ensures t == [2] ==> ReceivedIn([a, b], t) == 95_000 && SpentIn([a, b], t) == 100_000
    ensures Receives([a, b], t) <==> t == [1] || t == [2]
    ensures Spends([a, b], t) <==> t == [2]
  {
    hide ReceivedIn, SpentIn, Receives, Spends, ReceivedHeight, SpentHeight;
    GroupExtend([], a, t);
    GroupExtend([a], b, t);
    NothingAtAll(t);
    assert [] + [a] == [a] && [a] + [b] == [a, b];
  }

  lemma NothingAtAll(t: Bytes)
    ensures ReceivedIn([], t) == 0 && SpentIn([], t) == 0 && !Receives([], t) && !Spends([], t)
  {
  }

  lemma OneShortfall(notes: seq<Note>, t: Bytes)
    ensures SumBy([t], t => Shortfall(notes, t)) == Shortfall(notes, t)
  {
    assert [t][..0] == [];
  }

  lemma SumOfTwo(a: Note, b: Note)
    requires a.isSpent && !b.isSpent
    ensures NoteSum([a, b], false) == b.plain.value
  {
    assert [a][..0] == [];
    assert NoteSum([a], false) == 0;
    assert [a, b][..1] == [a];
  }
}
