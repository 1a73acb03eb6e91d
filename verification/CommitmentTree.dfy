/**
 * The process-wide Sapling note commitment tree and its incremental witnesses
 * (crates/zipherx-crypto/src/tree.rs).
 *
 * The Merkle frontier is represented by the leaves it commits to; a witness by the
 * leaf it authenticates and the leaves its own path has absorbed. `position` is kept
 * apart from the leaves, as in the source: `Deserialize` replaces only the leaves.
 */
module CommitmentTree {
  import opened Common

  /** `path` holds every leaf the witness has absorbed; its anchor is the root over `path`. */
  datatype Witness = Witness(position: nat, path: seq<Bytes>)

  function Absorb(ws: seq<Witness>, cmus: seq<Bytes>): (r: seq<Witness>)
    ensures |r| == |ws|
    ensures forall i :: 0 <= i < |ws| ==> r[i] == ws[i].(path := ws[i].path + cmus)
  {
    seq(|ws|, i requires 0 <= i < |ws| => ws[i].(path := ws[i].path + cmus))
  }

  lemma AbsorbNothing(ws: seq<Witness>)
    ensures Absorb(ws, []) == ws
  {
    forall i | 0 <= i < |ws| ensures Absorb(ws, [])[i] == ws[i] {
      assert ws[i].path + [] == ws[i].path;
    }
  }

  class Tree {
    var leaves: seq<Bytes>
    var position: nat
    var witnesses: seq<Witness>

    /** The recorded position, the leaves and all witnesses describe the same tree. */
    ghost predicate InSync()
      reads this
    {
      && position == |leaves|
      && (forall i :: 0 <= i < |witnesses| ==> Authenticates(witnesses[i]))
    }

    ghost predicate Authenticates(w: Witness)
      reads this
    {
      w.path == leaves && w.position < |leaves|
    }

    method Init()
      modifies this
      ensures leaves == [] && position == 0 && witnesses == []
      ensures InSync()
    {
      leaves, position, witnesses := [], 0, [];
    }

    /** Replaces the leaves only: neither the position nor the witnesses follow. */
    method Deserialize(state: seq<Bytes>)
      modifies this`leaves
      ensures leaves == state
    {
      leaves := state;
    }

    method SetPosition(p: nat)
      modifies this`position
      ensures position == p
    {
      position := p;
    }

    method ClearWitnesses()
      modifies this`witnesses
      ensures witnesses == []
    {
      witnesses := [];
    }

    method Append(cmu: Bytes)
      modifies this
      ensures leaves == old(leaves) + [cmu]
      ensures position == old(position) + 1
      ensures witnesses == Absorb(old(witnesses), [cmu])
      ensures old(InSync()) ==> InSync()
    {
      leaves := leaves + [cmu];
      witnesses := Absorb(witnesses, [cmu]);
      position := position + 1;
    }

    method AppendBatch(cmus: seq<Bytes>)
      modifies this
      ensures leaves == old(leaves) + cmus
      ensures position == old(position) + |cmus|
      ensures witnesses == Absorb(old(witnesses), cmus)
      ensures old(InSync()) ==> InSync()
    {
      var i := 0;
      AbsorbNothing(witnesses);
      while i < |cmus|
        invariant 0 <= i <= |cmus|
        invariant leaves == old(leaves) + cmus[..i]
        invariant witnesses == Absorb(old(witnesses), cmus[..i])
        invariant position == old(position)
      {
        leaves := leaves + [cmus[i]];
        forall j | 0 <= j < |witnesses|
          ensures Absorb(witnesses, [cmus[i]])[j] == Absorb(old(witnesses), cmus[..i + 1])[j]
        {
          assert cmus[..i + 1] == cmus[..i] + [cmus[i]];
          assert old(witnesses)[j].path + cmus[..i] + [cmus[i]] == old(witnesses)[j].path + cmus[..i + 1];
        }
        witnesses := Absorb(witnesses, [cmus[i]]);
        i := i + 1;
      }
      assert cmus[..i] == cmus;
      position := position + |cmus|;
    }

    /** A witness for the leaf appended last. */
    method WitnessCurrent() returns (idx: nat)
      requires leaves != []
      modifies this`witnesses
      ensures idx == |old(witnesses)|
      ensures witnesses == old(witnesses) + [Witness(|leaves| - 1, leaves)]
      ensures old(InSync()) ==> InSync()
    {
      idx := |witnesses|;
      witnesses := witnesses + [Witness(|leaves| - 1, leaves)];
    }
  }
}
