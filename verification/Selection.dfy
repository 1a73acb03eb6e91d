/**
 * Choosing inputs for a payment. The same greedy loop is written three times, with a saturating
 * sum (crates/zipherx-core/src/send.rs), with a checked one (crates/zipherx-core/src/async_send.rs)
 * and with one that falls back to the maximum (bin/zipherx-gui/src/sync.rs).
 */
module Selection {
  import opened Common
  import StableSort

  /** A spendable note or an unspent transparent output. */
  datatype Coin = Coin(id: nat, value: nat)

  datatype SendError = InsufficientBalance(have: nat, need: nat) | Overflow

  /** Amounts are 64-bit. */
  predicate Fits(coins: seq<Coin>) {
    forall c :: c in coins ==> c.value <= U64_MAX
  }

  /** True value of some inputs. */
  function Total(coins: seq<Coin>): nat {
    if coins == [] then 0 else coins[0].value + Total(coins[1..])
  }

  predicate NotSmaller(a: Coin, b: Coin) {
    b.value <= a.value
  }

  /** `sort_by` value, largest first: stable. */
  function SortDescending(s: seq<Coin>): seq<Coin> {
    StableSort.Sort(NotSmaller, s)
  }

  predicate Descending(s: seq<Coin>) {
    forall i, j :: 0 <= i < j < |s| ==> s[j].value <= s[i].value
  }

  lemma SortIsSorted(s: seq<Coin>)
    ensures Descending(SortDescending(s)) && multiset(SortDescending(s)) == multiset(s)
  {
    StableSort.SortSorts(NotSmaller, s);
    StableSort.SortKeeps(NotSmaller, s);
  }

  lemma {:induction false} TotalAppend(a: seq<Coin>, b: seq<Coin>)
    ensures Total(a + b) == Total(a) + Total(b)
  {
    if a == [] {
      assert a + b == b;
    } else {
      assert (a + b)[1..] == a[1..] + b;
      TotalAppend(a[1..], b);
    }
  }

  lemma {:induction false} TotalOfMultiset(a: seq<Coin>, b: seq<Coin>)
    requires multiset(a) == multiset(b)
    ensures Total(a) == Total(b)
  {
    if a == [] {
      assert |b| == |multiset(b)| == 0;
    } else {
      assert a[0] in multiset(b);
      var i :| 0 <= i < |b| && b[i] == a[0];
      var rest := Without(b, i);
      assert a == [a[0]] + a[1..];
      TotalOfMultiset(a[1..], rest);
    }
  }

  /** Drops element `i`. */
  lemma Without(b: seq<Coin>, i: nat) returns (rest: seq<Coin>)
    requires i < |b|
    ensures |rest| == |b| - 1 && multiset(rest) == multiset(b) - multiset{b[i]}
    ensures Total(b) == b[i].value + Total(rest)
  {
    rest := b[..i] + b[i + 1..];
    assert b == b[..i] + [b[i]] + b[i + 1..];
    TotalAppend(b[..i], [b[i]] + b[i + 1..]);
    assert b == b[..i] + ([b[i]] + b[i + 1..]);
    TotalAppend(b[..i], b[i + 1..]);
    TotalAppend([b[i]], b[i + 1..]);
    assert [b[i]][1..] == [];
  }

  // ---------------------------------------------------------------- the greedy choice

  /** Number of leading coins taken: at least one, and no more once the target is met. */
  function Cut(s: seq<Coin>, target: nat): (k: nat)
    ensures k <= |s|
  {
    if s == [] then 0
    else if target <= s[0].value then 1
    else 1 + Cut(s[1..], target - s[0].value)
  }

  /** What every one of the loops takes, in order. */
  function Picked(coins: seq<Coin>, target: nat): seq<Coin> {
    var s := SortDescending(coins);
    s[..Cut(s, target)]
  }

  /** One coin fewer would not do. */
  lemma {:induction false} CutIsMinimal(s: seq<Coin>, target: nat)
    ensures target <= Total(s) ==> target <= Total(s[..Cut(s, target)])
    ensures Total(s) < target ==> Cut(s, target) == |s|
    ensures forall k :: 0 < k < Cut(s, target) ==> Total(s[..k]) < target
    ensures s != [] ==> 0 < Cut(s, target)
  {
    if s != [] {
      var c := Cut(s, target);
      assert s[..c][1..] == s[1..][..c - 1];
      if s[0].value < target {
        CutIsMinimal(s[1..], target - s[0].value);
        forall k | 0 < k < c ensures Total(s[..k]) < target {
          assert s[..k][1..] == s[1..][..k - 1];
        }
      }
    }
  }

  lemma {:induction false} ShiftedTotal(s: seq<Coin>, k: nat)
    requires Descending(s) && k < |s|
    ensures Total(s[1..][..k]) <= Total(s[..k])
  {
    if k > 0 {
      ShiftedTotal(s, k - 1);
      assert s[1..][..k] == s[1..][..k - 1] + [s[k]];
      assert s[..k] == s[..k - 1] + [s[k - 1]];
      TotalAppend(s[1..][..k - 1], [s[k]]);
      TotalAppend(s[..k - 1], [s[k - 1]]);
    }
  }

  lemma SubsetIsShorter(s: seq<Coin>, t: seq<Coin>)
    requires multiset(t) <= multiset(s)
    ensures |t| <= |s|
  {
    assert multiset(s) == multiset(t) + (multiset(s) - multiset(t));
    assert |multiset(s)| == |multiset(t)| + |multiset(s) - multiset(t)|;
  }

  /** Splits `t`, taken from `s`, by whether it uses the first coin of `s`. */
  lemma UseFirst(s: seq<Coin>, t: seq<Coin>) returns (uses: bool, rest: seq<Coin>)
    requires s != [] && multiset(t) <= multiset(s)
    ensures uses ==> |rest| == |t| - 1 && multiset(rest) <= multiset(s[1..]) && Total(t) == s[0].value + Total(rest)
    ensures !uses ==> rest == t && multiset(t) <= multiset(s[1..])
  {
    assert s == [s[0]] + s[1..];
    uses, rest := s[0] in t, t;
    if uses {
      var i :| 0 <= i < |t| && t[i] == s[0];
      rest := Without(t, i);
    }
  }

  /** The exchange argument: no `|t|` coins are worth more than the `|t|` largest ones. */
  lemma {:induction false} LargestFirst(s: seq<Coin>, t: seq<Coin>)
    requires Descending(s) && multiset(t) <= multiset(s)
    ensures |t| <= |s| && Total(t) <= Total(s[..|t|])
  {
    hide Descending;
    SubsetIsShorter(s, t);
    if t != [] {
      var uses, rest := UseFirst(s, t);
      TailDescending(s);
      LargestFirst(s[1..], rest);
      if uses {
        assert s[..|t|][1..] == s[1..][..|rest|];
      } else {
        ShiftedTotal(s, |t|);
      }
    }
  }

  lemma TailDescending(s: seq<Coin>)
    requires Descending(s) && s != []
    ensures Descending(s[1..])
  {
  }

  lemma {:induction false} PrefixTotal(s: seq<Coin>, j: nat, k: nat)
    requires j <= k <= |s|
    ensures Total(s[..j]) <= Total(s[..k])
  {
    assert s[..k] == s[..j] + s[j..k];
    TotalAppend(s[..j], s[j..k]);
  }

  lemma SortKeepsTotal(coins: seq<Coin>)
    ensures Total(SortDescending(coins)) == Total(coins) && (SortDescending(coins) == [] <==> coins == [])
  {
    hide SortDescending;
    SortIsSorted(coins);
    TotalOfMultiset(SortDescending(coins), coins);
    assert |multiset(coins)| == |coins| && |multiset(SortDescending(coins))| == |SortDescending(coins)|;
  }

  lemma PrefixOfSorted(coins: seq<Coin>, c: nat)
    requires c <= |SortDescending(coins)|
    ensures multiset(SortDescending(coins)[..c]) <= multiset(coins)
  {
    hide SortDescending;
    SortIsSorted(coins);
    var s := SortDescending(coins);
    assert s == s[..c] + s[c..];
  }

  /** What is picked comes from the coins; it meets the target whenever all of them together do. */
  lemma PickedIsEnough(coins: seq<Coin>, target: nat)
    ensures multiset(Picked(coins, target)) <= multiset(coins)
    ensures target <= Total(Picked(coins, target)) <==> target <= Total(coins)
    ensures Total(coins) < target ==> Total(Picked(coins, target)) == Total(coins)
    ensures coins != [] ==> Picked(coins, target) != []
  {
    hide SortDescending, Total, Cut;
    var s := SortDescending(coins);
    SortKeepsTotal(coins);
    CutIsMinimal(s, target);
    var c := Cut(s, target);
    PrefixOfSorted(coins, c);
    PrefixTotal(s, c, |s|);
    assert s[..|s|] == s;
  }

  /** For a positive target no choice of coins that meets it is smaller. */
  lemma PickedIsFewest(coins: seq<Coin>, target: nat, t: seq<Coin>)
    requires 0 < target && multiset(t) <= multiset(coins) && target <= Total(t)
    ensures |Picked(coins, target)| <= |t|
  {
    var s := SortDescending(coins);
    SortIsSorted(coins);
    CutIsMinimal(s, target);
    LargestFirst(s, t);
    assert t != [];
  }

  /** The choice is greedy: largest first, and nothing left over is worth more than anything chosen. */
  lemma PickedIsGreedy(coins: seq<Coin>, target: nat)
    ensures Descending(Picked(coins, target))
    ensures forall x, y :: x in Picked(coins, target) && y in multiset(coins) - multiset(Picked(coins, target)) ==>
              y.value <= x.value
  {
    hide SortDescending, Cut;
    SortIsSorted(coins);
    var s := SortDescending(coins);
    var c := Cut(s, target);
    assert s == s[..c] + s[c..];
    assert multiset(coins) - multiset(s[..c]) == multiset(s[c..]);
    forall x, y | x in s[..c] && y in s[c..] ensures y.value <= x.value {
      var i :| 0 <= i < c && s[i] == x;
      var j :| c <= j < |s| && s[j] == y;
    }
  }

  /** A zero target is the exception: one coin is taken where none would do. */
  lemma ZeroTargetTakesOne(coins: seq<Coin>)
    requires coins != []
    ensures |Picked(coins, 0)| == 1
  {
    PickedIsEnough(coins, 0);
  }

  // ---------------------------------------------------------------- the three loops

  /** Taking the next coin: either the target is already met, or the cut is further on. */
  ghost predicate Taking(s: seq<Coin>, target: nat, i: nat) {
    && i <= |s| && Total(s[..i]) < target + (if i == 0 then 1 else 0)
    && i + Cut(s[i..], target - Min(target, Total(s[..i]))) == Cut(s, target)
  }

  lemma TakeOne(s: seq<Coin>, target: nat, i: nat)
    requires i < |s| && Taking(s, target, i)
    ensures Total(s[..i + 1]) == Total(s[..i]) + s[i].value
    ensures target <= Total(s[..i + 1]) ==> Cut(s, target) == i + 1
    ensures Total(s[..i + 1]) < target ==> Taking(s, target, i + 1)
  {
    assert s[..i + 1] == s[..i] + [s[i]];
    TotalAppend(s[..i], [s[i]]);
    assert [s[i]][1..] == [];
    assert s[i..][1..] == s[i + 1..];
  }

  lemma StartTaking(s: seq<Coin>, target: nat)
    ensures Taking(s, target, 0) && Total(s[..0]) == 0
  {
    assert s[0..] == s;
  }

  lemma TookAll(s: seq<Coin>, target: nat)
    requires Taking(s, target, |s|)
    ensures Cut(s, target) == |s| && s[..|s|] == s && (s != [] ==> Total(s) < target)
  {
    assert s[..|s|] == s;
  }

  lemma NoCoins()
    ensures Total([]) == 0
  {
  }

  method SelectNotes(notes: seq<Coin>, target: nat) returns (r: Result<(seq<Coin>, nat), SendError>)
    requires Fits(notes) && target <= U64_MAX
    ensures r.Ok? <==> notes != [] && target <= Total(notes)
    ensures r.Ok? ==> r.value == (Picked(notes, target), Min(Total(Picked(notes, target)), U64_MAX))
    ensures r.Err? ==> r.error == InsufficientBalance(Min(Total(notes), U64_MAX), target)
  {
    hide SortDescending, Cut, Total, Taking;
    if notes == [] {
      NoCoins();
      return Err(InsufficientBalance(0, target));
    }
    var sorted := SortDescending(notes);
    PickedIsEnough(notes, target);
    SortKeepsTotal(notes);
    var selected, total := [], 0;
    StartTaking(sorted, target);
    for i := 0 to |sorted|
      invariant selected == sorted[..i] && total == Min(Total(sorted[..i]), U64_MAX)
      invariant Taking(sorted, target, i)
    {
      TakeOne(sorted, target, i);
      selected := selected + [sorted[i]];
      total := SatAdd(total, sorted[i].value);
      if target <= total {
        assert selected == Picked(notes, target);
        return Ok((selected, total));
      }
    }
    TookAll(sorted, target);
    return Err(InsufficientBalance(total, target));
  }

  method SelectChecked(utxos: seq<Coin>, target: nat) returns (r: Result<(seq<Coin>, nat), SendError>)
    requires Fits(utxos) && utxos != [] && target <= U64_MAX
    ensures r == Err(Overflow) <==> U64_MAX < Total(Picked(utxos, target))
    ensures r.Ok? <==> target <= Total(utxos) && Total(Picked(utxos, target)) <= U64_MAX
    ensures r.Ok? ==> r.value == (Picked(utxos, target), Total(Picked(utxos, target)))
    ensures r.Err? && r != Err(Overflow) ==> r.error == InsufficientBalance(Total(utxos), target)
  {
    hide SortDescending, Cut, Total, Taking;
    var sorted := SortDescending(utxos);
    PickedIsEnough(utxos, target);
    SortKeepsTotal(utxos);
    var selected, total := [], 0;
    StartTaking(sorted, target);
    for i := 0 to |sorted|
      invariant selected == sorted[..i] && total == Total(sorted[..i]) <= U64_MAX
      invariant Taking(sorted, target, i)
    {
      TakeOne(sorted, target, i);
      selected := selected + [sorted[i]];
      if U64_MAX < total + sorted[i].value {
        return Err(Overflow);
      }
      total := total + sorted[i].value;
      if target <= total {
        assert selected == Picked(utxos, target);
        return Ok((selected, total));
      }
    }
    TookAll(sorted, target);
    return Err(InsufficientBalance(total, target));
  }

  method SelectOrMax(utxos: seq<Coin>, target: nat) returns (selected: seq<Coin>, total: nat)
    requires Fits(utxos) && target <= U64_MAX
    ensures selected == Picked(utxos, target) && total == Min(Total(Picked(utxos, target)), U64_MAX)
    ensures utxos != [] ==> (target <= total <==> target <= Total(utxos))
  {
    hide SortDescending, Cut, Total, Taking;
    var sorted := SortDescending(utxos);
    PickedIsEnough(utxos, target);
    SortKeepsTotal(utxos);
    selected, total := [], 0;
    StartTaking(sorted, target);
    for i := 0 to |sorted|
      invariant selected == sorted[..i] && total == Min(Total(sorted[..i]), U64_MAX)
      invariant Taking(sorted, target, i)
    {
      TakeOne(sorted, target, i);
      selected := selected + [sorted[i]];
      total := if total + sorted[i].value <= U64_MAX then total + sorted[i].value else U64_MAX;
      if target <= total {
        return;
      }
    }
    TookAll(sorted, target);
  }

  // ---------------------------------------------------------------- conservation

  function CalculateChange(input: nat, amount: nat, fee: nat): (r: Result<nat, SendError>)
    ensures r.Ok? <==> amount + fee <= U64_MAX && amount + fee <= input
    ensures r.Ok? ==> amount + fee + r.value == input
    ensures r == Err(Overflow) <==> U64_MAX < amount + fee
    ensures r.Err? && r != Err(Overflow) ==> r.error == InsufficientBalance(input, amount + fee)
  {
    if U64_MAX < amount + fee then Err(Overflow)
    else if input < amount + fee then Err(InsufficientBalance(input, amount + fee))
    else Ok(input - (amount + fee))
  }

  /** A shielded payment: select for the saturated total, then compute the change. */
  method PlanShielded(notes: seq<Coin>, amount: nat, fee: nat) returns (r: Result<(seq<Coin>, nat), SendError>)
    requires Fits(notes) && amount <= U64_MAX && fee <= U64_MAX
    ensures r.Ok? <==> notes != [] && amount + fee <= U64_MAX && amount + fee <= Total(notes)
    ensures r.Ok? ==>
              && r.value.0 == Picked(notes, amount + fee)
              && (amount + fee + r.value.1 == Total(r.value.0) <==> Total(r.value.0) <= U64_MAX)
              && amount + fee + r.value.1 <= Total(r.value.0)
    ensures r.Err? ==>
              r.error == (if Total(notes) < Min(amount + fee, U64_MAX) || notes == []
                          then InsufficientBalance(Min(Total(notes), U64_MAX), Min(amount + fee, U64_MAX))
                          else Overflow)
  {
    var chosen := SelectNotes(notes, SatAdd(amount, fee));
    if chosen.Err? {
      return Err(chosen.error);
    }
    PickedIsEnough(notes, SatAdd(amount, fee));
    var change := CalculateChange(chosen.value.1, amount, fee);
    if change.Err? {
      return Err(change.error);
    }
    return Ok((chosen.value.0, change.value));
  }

  /** A transparent payment through the wallet core. Its checked sum refuses what would not fit. */
  method PlanTransparent(utxos: seq<Coin>, amount: nat, fee: nat) returns (r: Result<(seq<Coin>, nat), SendError>)
    requires Fits(utxos) && amount <= U64_MAX && fee <= U64_MAX
    ensures r.Ok? <==> && utxos != [] && amount + fee <= U64_MAX && amount + fee <= Total(utxos)
                       && Total(Picked(utxos, amount + fee)) <= U64_MAX
    ensures r.Ok? ==> r.value.0 == Picked(utxos, amount + fee) && amount + fee + r.value.1 == Total(r.value.0)
    ensures r.Err? ==>
              r.error == (if utxos == [] || (amount + fee <= U64_MAX && Total(utxos) < amount + fee)
                          then InsufficientBalance(Total(utxos), Min(amount + fee, U64_MAX)) else Overflow)
  {
    if utxos == [] {
      return Err(InsufficientBalance(0, SatAdd(amount, fee)));
    }
    if U64_MAX < amount + fee {
      return Err(Overflow);
    }
    PickedIsEnough(utxos, amount + fee);
    var chosen := SelectChecked(utxos, amount + fee);
    if chosen.Err? {
      return Err(chosen.error);
    }
    return Ok((chosen.value.0, SatSub(chosen.value.1, amount + fee)));
  }

  /** The desktop wallet's transparent payment, as far as choosing inputs and change. */
  method PlanDesktop(utxos: seq<Coin>, amount: nat, fee: nat) returns (r: Result<(seq<Coin>, nat), SendError>)
    requires Fits(utxos) && amount <= U64_MAX && fee <= U64_MAX
    ensures r.Ok? <==> utxos != [] && amount + fee <= U64_MAX && amount + fee <= Total(utxos)
    ensures r.Ok? ==>
              && r.value.0 == Picked(utxos, amount + fee)
              && (amount + fee + r.value.1 == Total(r.value.0) <==> Total(r.value.0) <= U64_MAX)
              && amount + fee + r.value.1 <= Total(r.value.0)
    ensures r.Err? ==>
              r.error == (if utxos == [] || amount + fee <= U64_MAX
                          then InsufficientBalance(Total(utxos), Min(amount + fee, U64_MAX)) else Overflow)
  {
    if utxos == [] {
      return Err(InsufficientBalance(0, SatAdd(amount, fee)));
    }
    if U64_MAX < amount + fee {
      return Err(Overflow);
    }
    var selected, total := SelectOrMax(utxos, amount + fee);
    PickedIsEnough(utxos, amount + fee);
    var change := SatSub(total, amount + fee);
    if total < amount + fee {
      return Err(InsufficientBalance(total, amount + fee));
    }
    return Ok((selected, change));
  }
}
