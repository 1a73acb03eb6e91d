/**
 * The delta_bundle_verified flag over whole sync runs (crates/zipherx-core/src/async_sync.rs).
 *
 * The flag promises that the saved tree has a root the header store knows. The methods are the
 * phases of a run on the saved state and the in-memory tree; each is tied to a function on
 * values, and the lemmas about those functions say which phases keep the promise, which one
 * does not, and what that means for whole runs and sequences of runs.
 */
module VerifiedFlag {
  import opened Common
  import opened CommitmentTree
  import opened DeltaStore
  import opened DeltaLoad
  import opened FirstOccurrences
  import opened PageOrder
  import CatchUp

  const SCAN_CHUNK: nat := 10_000

  /** The header store: the Merkle root function and every root it has recorded. */
  datatype Headers = Headers(root: seq<Bytes> -> Bytes, recorded: set<Bytes>)

  function Reverse(b: Bytes): (r: Bytes)
    ensures |r| == |b| && forall i :: 0 <= i < |b| ==> r[i] == b[|b| - 1 - i]
  {
    seq(|b|, i requires 0 <= i < |b| => b[|b| - 1 - i])
  }

  lemma ReverseTwice(b: Bytes)
    ensures Reverse(Reverse(b)) == b
  {
  }

  /** `contains_sapling_root`: either byte order counts. */
  predicate Known(h: Headers, leaves: seq<Bytes>) {
    h.root(leaves) in h.recorded || Reverse(h.root(leaves)) in h.recorded
  }

  /** The boost file's tree section and the manifest fields that go with it. */
  datatype Boost = Boost(leaves: seq<Bytes>, count: nat, height: nat)

  predicate Honest(b: Boost, h: Headers) {
    |b.leaves| == b.count && Known(h, b.leaves)
  }

  /** What a run meets from outside: files, peers, header store answers, and failures it survives. */
  datatype World = World(
    headers: Headers,
    cleared: bool,            // a repair or a migration cleared the tree since the last run
    newBoost: bool,           // a newer boost file was announced
    boost: Boost,
    boostOnDisk: bool,        // readable when the verified load wants to rebuild
    delta: seq<Record>,       // delta file at the verified load
    tip: nat,
    lacking: bool,            // some unspent note lacks a witness or an anchor
    rewitness: bool,          // some unspent note gets a new witness during the load
    wanted: set<Bytes>,
    scanned: bool,            // the block scan got to the tree build; not if it failed before, maybe after appending
    scanStart: nat,
    deltaAfter: seq<Record>,  // delta file after the block scan
    tipRoot: Option<Bytes>,   // recorded root at the tip
    ours: set<Bytes>,
    reloadable: bool,         // boost file readable when the tree is reset
    unspendable: bool)        // balance present but nothing spendable

  predicate Coherent(w: World) {
    Honest(w.boost, w.headers) && (w.tipRoot.Some? ==> w.tipRoot.value in w.headers.recorded)
  }

  /** What the database holds: the saved tree and the flag. */
  datatype Saved = Saved(tree: Option<seq<Bytes>>, verified: bool)

  /** The saved state and the leaves of the in-memory tree. */
  datatype State = State(saved: Saved, memory: seq<Bytes>)

  function Height(s: Saved): nat {
    if s.tree.Some? then |s.tree.value| else 0
  }

  /** The promise of the flag. */
  predicate Trusted(s: Saved, h: Headers) {
    s.verified && s.tree.Some? ==> Known(h, s.tree.value)
  }

  // ---------------------------------------------------------------- the phases as functions

  function Boosted(s: Saved, b: Boost): Saved {
    if Height(s) < b.count then Saved(Some(b.leaves), false) else s
  }

  function Resumed(s: Saved, memory: seq<Bytes>): State {
    State(s, if s.tree.Some? then s.tree.value else memory)
  }

  datatype Plan = Nothing | Append(skip: nat, fromBoost: bool)

  /** Leaves of the tree beyond the boost tree. */
  function Extra(size: nat, b: Boost): nat {
    if b.count < size then size - b.count else 0
  }

  function PlanFor(memory: seq<Bytes>, w: World): Plan {
    var already := Extra(|memory|, w.boost);
    if w.delta == [] then Nothing
    else if already < |w.delta| then Append(already, false)
    else if w.boostOnDisk && (w.lacking || !Known(w.headers, memory)) then Append(0, true)
    else Nothing
  }

  /** The delta commitments a load over `file` appends after skipping `skip` raw records. */
  function Loads(file: seq<Record>, lo: nat, hi: nat, limit: nat, skip: nat): seq<Bytes>
    requires 0 < limit
  {
    Cmus(Kept(PagedRead(file, lo, hi, 0, limit), skip))
  }

  /** The verified load: the tree is saved first, then the flag follows the root. */
  function AfterLoad(st: State, w: World): State {
    if !st.saved.verified then st
    else
      match PlanFor(st.memory, w)
      case Nothing => st
      case Append(skip, fromBoost) =>
        var base := if fromBoost then w.boost.leaves else st.memory;
        var leaves := base + Loads(w.delta, w.boost.height + 1, w.tip, LOAD_PAGE, skip);
        State(Saved(Some(leaves), Known(w.headers, leaves)), leaves)
  }

  /** The in-memory tree after the combined build. */
  function BuiltTree(memory: seq<Bytes>, w: World): seq<Bytes> {
    if !w.scanned then memory
    else memory + Loads(w.deltaAfter, w.scanStart, w.tip, CMU_PAGE, Extra(|memory|, w.boost))
  }

  /** The root recorded at the tip is the root over `leaves`, in either byte order. */
  predicate AtTip(w: World, leaves: seq<Bytes>) {
    w.tipRoot.Some? && (w.headers.root(leaves) == w.tipRoot.value || w.headers.root(leaves) == Reverse(w.tipRoot.value))
  }

  function AfterBuild(st: State, w: World): State {
    var leaves := BuiltTree(st.memory, w);
    State(if w.scanned && AtTip(w, leaves) then Saved(Some(leaves), true) else st.saved, leaves)
  }

  /** The build found no mismatch with a recorded root. */
  predicate BuildValid(st: State, w: World) {
    w.scanned && w.tipRoot.Some? ==> AtTip(w, BuiltTree(st.memory, w))
  }

  /** The guard of the catch-up branch. */
  predicate CatchesUp(s: Saved, w: World) {
    Height(s) < |w.deltaAfter|
  }

  /** The commitments past the first `from` records, in the order in which the catch-up scan consumes them. */
  function Caught(w: World, from: nat): (cmus: seq<Bytes>)
    ensures from < |w.deltaAfter| ==> cmus != []
  {
    if from < |w.deltaAfter| then
      CatchUp.ScanOrderKeeps(w.deltaAfter, from, SCAN_CHUNK);
      CatchUp.RecordCmus(CatchUp.ScanOrder(w.deltaAfter, from, SCAN_CHUNK))
    else []
  }

  /** The tree the catch-up branch saves. */
  function Longer(s: Saved, w: World): seq<Bytes>
    requires CatchesUp(s, w)
  {
    (if s.tree.Some? then s.tree.value else []) + Caught(w, Height(s))
  }

  function AfterCatchUp(st: State, w: World): State {
    if CatchesUp(st.saved, w) then State(st.saved.(tree := Some(Longer(st.saved, w))), Longer(st.saved, w)) else st
  }

  predicate Resets(w: World, valid: bool) {
    !valid && w.boost.height > 0 && w.reloadable
  }

  function AfterReset(st: State, w: World, valid: bool): State {
    if Resets(w, valid) then State(st.saved.(tree := Some(w.boost.leaves)), w.boost.leaves) else st
  }

  function AfterCheck(st: State, w: World): State {
    if w.unspendable then st.(saved := st.saved.(verified := false)) else st
  }

  /** A run up to the guard of the catch-up branch. */
  function LoadedState(st: State, w: World): State {
    var cleared := if w.cleared then st.saved.(tree := None) else st.saved;
    var announced := if w.newBoost then Saved(Some([]), false) else cleared;
    AfterLoad(Resumed(Boosted(announced, w.boost), st.memory), w)
  }

  function BeforeCatchUp(st: State, w: World): State {
    AfterBuild(LoadedState(st, w), w)
  }

  /** The rest of the run. */
  function Tail(st: State, w: World, valid: bool): State {
    AfterCheck(AfterReset(AfterCatchUp(st, w), w, valid), w)
  }

  function RunOnce(st: State, w: World): State {
    Tail(BeforeCatchUp(st, w), w, BuildValid(LoadedState(st, w), w))
  }

  /** Runs one after the other. */
  function Runs(st: State, ws: seq<World>): State {
    if ws == [] then st else RunOnce(Runs(st, ws[..|ws| - 1]), ws[|ws| - 1])
  }

  // ---------------------------------------------------------------- the phases as code

  class Store {
    var treeState: Option<seq<Bytes>>
    var treeHeight: nat
    var verified: bool

    method SaveTreeState(state: seq<Bytes>, height: nat)
      modifies this`treeState, this`treeHeight
      ensures treeState == Some(state) && treeHeight == height
    {
      treeState, treeHeight := Some(state), height;
    }

    method ClearTree()
      modifies this`treeState, this`treeHeight
      ensures treeState == None && treeHeight == 0
    {
      treeState, treeHeight := None, 0;
    }

    function Snapshot(): Saved
      reads this
    {
      Saved(treeState, verified)
    }
  }

  /** Heights count leaves, in the database and in memory. */
  ghost predicate Sound(store: Store, tree: Tree)
    reads store, tree
  {
    store.treeHeight == Height(store.Snapshot()) && tree.position == |tree.leaves|
  }

  function Current(store: Store, tree: Tree): State
    reads store, tree
  {
    State(store.Snapshot(), tree.leaves)
  }

  method BoostScan(store: Store, tree: Tree, b: Boost)
    requires Sound(store, tree) && |b.leaves| == b.count
    modifies store
    ensures Sound(store, tree) && store.Snapshot() == Boosted(old(store.Snapshot()), b)
    ensures if old(store.treeHeight) < b.count then store.treeState == Some(b.leaves) && !store.verified
            else store.treeState == old(store.treeState) && store.verified == old(store.verified)
  {
    if store.treeHeight < b.count {
      store.ClearTree();
      store.verified := false;
      store.SaveTreeState(b.leaves, b.count);
    }
  }

  method LoadTree(store: Store, tree: Tree)
    requires Sound(store, tree)
    modifies tree
    ensures Sound(store, tree) && Current(store, tree) == Resumed(old(store.Snapshot()), old(tree.leaves))
  {
    if store.treeState.Some? {
      tree.Deserialize(store.treeState.value);
      tree.SetPosition(store.treeHeight);
    }
  }

  method PlanLoad(tree: Tree, w: World) returns (plan: Plan)
    requires tree.position == |tree.leaves|
    ensures plan == PlanFor(tree.leaves, w)
  {
    var total := |w.delta|;
    var already := Extra(tree.position, w.boost);
    if total == 0 {
      plan := Nothing;
    } else if 0 < already < total {
      plan := Append(already, false);
    } else if total <= already {
      if Known(w.headers, tree.leaves) {
        plan := if w.lacking && w.boostOnDisk then Append(0, true) else Nothing;
      } else {
        plan := if w.boostOnDisk then Append(0, true) else Nothing;
      }
    } else {
      plan := Append(0, false);
    }
  }

  method VerifiedLoad(store: Store, tree: Tree, w: World)
    requires Sound(store, tree) && |w.boost.leaves| == w.boost.count
    modifies store, tree
    ensures Sound(store, tree) && Current(store, tree) == AfterLoad(old(Current(store, tree)), w)
    ensures old(store.treeState.Some? ==> store.treeState.value == tree.leaves) ==>
              (Trusted(store.Snapshot(), w.headers) <==>
               old(Trusted(store.Snapshot(), w.headers)) || PlanFor(old(tree.leaves), w) != Nothing)
  {
    hide PagedRead, Kept, OursAt, Witnessed, Tree.InSync, Known, PlanFor;
    ghost var before := Current(store, tree);
    if before.saved.tree.None? || before.memory == before.saved.tree.value {
      LoadRecoversExactly(before, w);
    }
    if !store.verified {
      return;
    }
    var plan := PlanLoad(tree, w);
    if plan.Append? {
      if plan.fromBoost {
        tree.Deserialize(w.boost.leaves);
        tree.SetPosition(w.boost.count);
      }
      var marks := LoadPaged(tree, w.delta, w.boost.height + 1, w.tip, LOAD_PAGE, plan.skip, w.rewitness, w.wanted);
      store.SaveTreeState(tree.leaves, tree.position);
      if !Known(w.headers, tree.leaves) {
        store.verified := false;
      }
    }
  }

  method CombinedBuild(store: Store, tree: Tree, w: World) returns (valid: bool)
    requires Sound(store, tree)
    modifies store, tree
    ensures Sound(store, tree) && Current(store, tree) == AfterBuild(old(Current(store, tree)), w)
    ensures valid == BuildValid(old(Current(store, tree)), w)
    ensures Coherent(w) && old(Trusted(store.Snapshot(), w.headers)) ==> Trusted(store.Snapshot(), w.headers)
    ensures !valid ==> store.Snapshot() == old(store.Snapshot())
  {
    if Coherent(w) && Trusted(store.Snapshot(), w.headers) {
      BuildKeepsPromise(Current(store, tree), w);
    }
    hide PagedRead, Kept, OursAt, Witnessed, Tree.InSync, Reverse;
    valid := true;
    if w.scanned {
      tree.ClearWitnesses();
      var marks := LoadPaged(tree, w.deltaAfter, w.scanStart, w.tip, CMU_PAGE, Extra(tree.position, w.boost), true,
                            w.ours);
      var root := w.headers.root(tree.leaves);
      if w.tipRoot.Some? {
        if root == w.tipRoot.value || root == Reverse(w.tipRoot.value) {
          store.SaveTreeState(tree.leaves, tree.position);
          store.verified := true;
        } else {
          valid := false;
        }
      }
    }
  }

  method CatchUpScan(store: Store, tree: Tree, w: World)
    requires Sound(store, tree)
    modifies store, tree
    ensures Sound(store, tree) && Current(store, tree) == AfterCatchUp(old(Current(store, tree)), w)
    ensures store.verified == old(store.verified)
    ensures |w.deltaAfter| <= old(store.treeHeight) ==>
              store.treeState == old(store.treeState) && tree.leaves == old(tree.leaves)
    ensures old(store.treeHeight) < |w.deltaAfter| ==>
              && store.treeState == Some(tree.leaves)
              && tree.leaves == (if old(store.treeState).Some? then old(store.treeState).value else [])
                                + Caught(w, old(store.treeHeight))
  {
    if store.treeHeight < |w.deltaAfter| {
      if store.treeState.Some? {
        tree.Deserialize(store.treeState.value);
        tree.SetPosition(store.treeHeight);
      } else {
        tree.Init();
      }
      tree.AppendBatch(Caught(w, store.treeHeight));
      store.SaveTreeState(tree.leaves, tree.position);
    }
  }

  method ResetToBoost(store: Store, tree: Tree, w: World, valid: bool)
    requires Sound(store, tree) && |w.boost.leaves| == w.boost.count
    modifies store, tree
    ensures Sound(store, tree) && Current(store, tree) == AfterReset(old(Current(store, tree)), w, valid)
    ensures store.verified == old(store.verified)
    ensures if valid || w.boost.height == 0 || !w.reloadable
            then store.treeState == old(store.treeState) && tree.leaves == old(tree.leaves)
            else store.treeState == Some(w.boost.leaves) && tree.leaves == w.boost.leaves
  {
    if !valid && w.boost.height > 0 && w.reloadable {
      tree.Deserialize(w.boost.leaves);
      tree.SetPosition(w.boost.count);
      store.SaveTreeState(tree.leaves, w.boost.count);
    }
  }

  /** One run that returns Ok. */
  method SyncRun(store: Store, tree: Tree, w: World)
    requires Sound(store, tree) && |w.boost.leaves| == w.boost.count
    modifies store, tree
    ensures Sound(store, tree) && Current(store, tree) == RunOnce(old(Current(store, tree)), w)
    ensures Coherent(w) && old(Trusted(store.Snapshot(), w.headers) && CatchUpHarmless(Current(store, tree), w)) ==>
              Trusted(store.Snapshot(), w.headers)
  {
    RunPromise(Current(store, tree), w);
    hide Boosted, AfterLoad, AfterBuild, AfterCatchUp, AfterReset, BuildValid;
    if w.cleared {
      store.ClearTree();
    }
    if w.newBoost {
      store.SaveTreeState([], 0);
      store.verified := false;
    }
    BoostScan(store, tree, w.boost);
    LoadTree(store, tree);
    VerifiedLoad(store, tree, w);
    var valid := CombinedBuild(store, tree, w);
    CatchUpScan(store, tree, w);
    ResetToBoost(store, tree, w, valid);
    if w.unspendable {
      store.verified := false;
    }
  }

  method SyncRuns(store: Store, tree: Tree, ws: seq<World>)
    requires Sound(store, tree) && forall w :: w in ws ==> |w.boost.leaves| == w.boost.count
    modifies store, tree
    ensures Sound(store, tree) && Current(store, tree) == Runs(old(Current(store, tree)), ws)
    ensures old(!store.verified && CatchUpsHarmless(Current(store, tree), ws)) && History(ws) && ws != [] ==>
              Trusted(store.Snapshot(), ws[|ws| - 1].headers)
  {
    RunsPromise(Current(store, tree), ws);
    hide RunOnce, Trusted, CatchUpsHarmless, History, Coherent, CatchUpHarmless;
    for i := 0 to |ws|
      invariant Sound(store, tree) && Current(store, tree) == Runs(old(Current(store, tree)), ws[..i])
    {
      assert ws[..i + 1][..i] == ws[..i] && ws[i] in ws;
      SyncRun(store, tree, ws[i]);
    }
    assert ws[..|ws|] == ws;
  }

  // ---------------------------------------------------------------- which leaves the phases leave

  /**
   * What the tree is to hold past the boost leaves: the delta commitments above the boost height,
   * each once, by height.
   */
  function DeltaOf(file: seq<Record>, w: World): seq<Commitment> {
    Delta(file, w.boost.height + 1, w.tip)
  }

  /**
   * The verified load over a tree of the boost leaves and the first `k` delta commitments, on a file
   * readable at its page size: with more raw records than `k` it completes the delta, if the first
   * `k` of them are distinct and only then; otherwise, with the boost file at hand and something
   * lacking or a root that is not recorded, it builds the tree anew; otherwise it changes nothing. The
   * flag then says whether the root is recorded.
   */
  lemma LoadLeavesDelta(st: State, w: World, k: nat)
    requires st.saved.verified && |w.boost.leaves| == w.boost.count
    requires k <= |DeltaOf(w.delta, w)| && st.memory == w.boost.leaves + Cmus(DeltaOf(w.delta, w)[..k])
    requires Readable(w.delta, w.boost.height + 1, w.tip, LOAD_PAGE)
    ensures var full := w.boost.leaves + Cmus(DeltaOf(w.delta, w));
            var after := AfterLoad(st, w);
            var raw := PagedRead(w.delta, w.boost.height + 1, w.tip, 0, 10_000);
            if k < |w.delta| then
              && after == State(Saved(Some(after.memory), Known(w.headers, after.memory)), after.memory)
              && k <= |raw| && (after.memory == full <==> Distinct(raw[..k]))
            else if w.delta != [] && w.boostOnDisk && (w.lacking || !Known(w.headers, st.memory)) then
              after == State(Saved(Some(full), Known(w.headers, full)), full)
            else after == st
  {
    hide Delta, PagedRead, Kept, Known, Readable;
    var file, lo := w.delta, w.boost.height + 1;
    LoadRefinesDedup(w.boost.leaves, file, lo, w.tip, LOAD_PAGE, k);
    FreshLoadExactly(w.boost.leaves, file, lo, w.tip, LOAD_PAGE);
    assert Extra(|st.memory|, w.boost) == k;
  }

  /**
   * The combined build over such a tree: what it saves, with the flag set, if the root over the
   * built tree is the one recorded at the tip; and when the built tree is complete.
   */
  lemma BuildLeavesDelta(st: State, w: World, k: nat)
    requires w.scanned && |w.boost.leaves| == w.boost.count && w.boost.height + 1 <= w.scanStart
    requires k <= |DeltaOf(w.deltaAfter, w)| && st.memory == w.boost.leaves + Cmus(DeltaOf(w.deltaAfter, w)[..k])
    requires Readable(w.deltaAfter, w.boost.height + 1, w.tip, CMU_PAGE)
    requires var raw := PagedRead(w.deltaAfter, w.scanStart, w.tip, 0, CMU_PAGE); Distinct(raw[..Min(k, |raw|)])
    ensures var full := w.boost.leaves + Cmus(DeltaOf(w.deltaAfter, w));
            var after := AfterBuild(st, w);
            && (after.memory == full <==>
                  || k == |DeltaOf(w.deltaAfter, w)|
                  || forall r :: r in w.deltaAfter && w.boost.height < r.height <= w.tip ==> w.scanStart <= r.height)
            && var root := w.headers.root(after.memory);
            && after.saved == if w.tipRoot == Some(root) || w.tipRoot == Some(Reverse(root))
                              then Saved(Some(after.memory), true) else st.saved
  {
    hide Delta, PagedRead, Kept, Readable, Reverse;
    CombinedBuildExact(w.boost.leaves, w.deltaAfter, w.boost.height + 1, w.scanStart, w.tip, CMU_PAGE, k);
    assert Extra(|st.memory|, w.boost) == k;
    SkippedIs(w);
    var root := w.headers.root(AfterBuild(st, w).memory);
    ReverseTwice(root);
    if w.tipRoot.Some? {
      ReverseTwice(w.tipRoot.value);
    }
  }

  lemma SkippedIs(w: World)
    ensures !SkippedOver(w.deltaAfter, w.boost.height + 1, w.scanStart, w.tip) <==>
            forall r :: r in w.deltaAfter && w.boost.height < r.height <= w.tip ==> w.scanStart <= r.height
  {
    if r :| r in w.deltaAfter && w.boost.height < r.height <= w.tip && r.height < w.scanStart {
      var i :| 0 <= i < |w.deltaAfter| && w.deltaAfter[i] == r;
      assert In(w.deltaAfter[i], w.boost.height + 1, w.tip);
    }
  }

  /**
   * A whole run of a verified wallet that only loads: nothing was cleared, announced or scanned, and
   * the delta count does not exceed the tree. It ends with the complete tree saved and in memory.
   */
  lemma QuietRunLoads(st: State, w: World, k: nat)
    requires k <= |DeltaOf(w.delta, w)| && k < |w.delta| && |w.boost.leaves| == w.boost.count
    requires st.saved == Saved(Some(w.boost.leaves + Cmus(DeltaOf(w.delta, w)[..k])), true)
    requires Readable(w.delta, w.boost.height + 1, w.tip, LOAD_PAGE)
    requires k <= |PagedRead(w.delta, w.boost.height + 1, w.tip, 0, LOAD_PAGE)|
    requires Distinct(PagedRead(w.delta, w.boost.height + 1, w.tip, 0, LOAD_PAGE)[..k])
    requires !w.cleared && !w.newBoost && !w.scanned && !w.unspendable
    requires |w.deltaAfter| <= w.boost.count + |DeltaOf(w.delta, w)|
    ensures var full := w.boost.leaves + Cmus(DeltaOf(w.delta, w));
            RunOnce(st, w) == State(Saved(Some(full), Known(w.headers, full)), full)
  {
    hide Delta, PagedRead, Known, Readable, AfterLoad;
    var resumed := Resumed(Boosted(st.saved, w.boost), st.memory);
    assert resumed == State(st.saved, st.saved.tree.value);
    LoadLeavesDelta(resumed, w, k);
  }

  /**
   * What the catch-up appends: one leaf for each record past the saved height, in file order if
   * that is chain order.
   */
  lemma CaughtIs(w: World, from: nat)
    requires from <= |w.deltaAfter|
    ensures |Caught(w, from)| == |w.deltaAfter| - from
    ensures InOrder(w.deltaAfter[from..]) ==> Caught(w, from) == CatchUp.RecordCmus(w.deltaAfter[from..])
  {
    if from < |w.deltaAfter| {
      CatchUp.ScanOrderKeeps(w.deltaAfter, from, SCAN_CHUNK);
      if InOrder(w.deltaAfter[from..]) {
        CatchUp.OrderedScan(w.deltaAfter, from, SCAN_CHUNK);
      }
    }
  }

  /** A run over a cleared tree, or a newer boost file, goes on from the boost tree with the flag cleared. */
  lemma RunStartsOver(st: State, w: World)
    requires (w.cleared || w.newBoost) && 0 < w.boost.count
    ensures LoadedState(st, w) == State(Saved(Some(w.boost.leaves), false), w.boost.leaves)
  {
  }

  /**
   * A run whose build finds another root than the one recorded at the tip ends on the boost tree,
   * the flag as it was before the build.
   */
  lemma RunResets(st: State, w: World, r: Bytes)
    requires w.scanned && w.tipRoot == Some(r) && w.boost.height > 0 && w.reloadable
    requires var root := w.headers.root(BuiltTree(LoadedState(st, w).memory, w)); root != r && root != Reverse(r)
    ensures RunOnce(st, w) ==
            State(Saved(Some(w.boost.leaves), LoadedState(st, w).saved.verified && !w.unspendable), w.boost.leaves)
  {
    hide LoadedState, BuiltTree, Reverse;
  }

  // ---------------------------------------------------------------- which phases keep the promise

  /**
   * The verified load recovers: from any state, the promise fails afterwards exactly if it failed
   * before and there was nothing to load or rebuild from.
   */
  lemma LoadRecoversExactly(st: State, w: World)
    requires st.saved.tree.Some? ==> st.memory == st.saved.tree.value
    ensures !Trusted(AfterLoad(st, w).saved, w.headers) <==>
            !Trusted(st.saved, w.headers) && PlanFor(st.memory, w) == Nothing
    ensures !Trusted(st.saved, w.headers) && PlanFor(st.memory, w) == Nothing ==>
            w.delta == [] || (!w.boostOnDisk && |w.delta| <= Extra(|st.memory|, w.boost))
  {
    hide Loads, Known;
  }

  lemma BuildKeepsPromise(st: State, w: World)
    requires Coherent(w) && Trusted(st.saved, w.headers)
    ensures Trusted(AfterBuild(st, w).saved, w.headers)
  {
    hide BuiltTree, Honest;
    if w.tipRoot.Some? {
      ReverseTwice(w.tipRoot.value);
    }
  }

  /** Up to the catch-up branch every phase keeps the promise, and the saved tree covers the boost tree. */
  lemma PromiseBeforeCatchUp(st: State, w: World)
    requires Coherent(w) && Trusted(st.saved, w.headers)
    ensures Trusted(BeforeCatchUp(st, w).saved, w.headers) && w.boost.count <= Height(BeforeCatchUp(st, w).saved)
  {
    hide Loads, Known, PlanFor, AtTip;
    var cleared := if w.cleared then st.saved.(tree := None) else st.saved;
    var announced := if w.newBoost then Saved(Some([]), false) else cleared;
    var resumed := Resumed(Boosted(announced, w.boost), st.memory);
    LoadRecoversExactly(resumed, w);
    PlanSkips(resumed.memory, w);
    BuildKeepsPromise(AfterLoad(resumed, w), w);
  }

  lemma PlanSkips(memory: seq<Bytes>, w: World)
    ensures var plan := PlanFor(memory, w);
            plan.Append? && !plan.fromBoost ==> plan.skip == Extra(|memory|, w.boost)
  {
  }

  /** A header store that knows every tree but `unknown`. */
  function AllBut(unknown: seq<Bytes>): Headers {
    var a: Bytes := seq(HASH_LEN, _ => 1);
    var b: Bytes := seq(HASH_LEN, _ => 2);
    Headers((leaves: seq<Bytes>) => if leaves == unknown then b else a, {a})
  }

  lemma KnowsAllBut(unknown: seq<Bytes>, leaves: seq<Bytes>)
    ensures Known(AllBut(unknown), leaves) <==> leaves != unknown
  {
    var h := AllBut(unknown);
    var a: Bytes := seq(HASH_LEN, _ => 1);
    var b: Bytes := seq(HASH_LEN, _ => 2);
    assert a[0] != b[0] && Reverse(b)[0] == 2;
    assert h.root(leaves) == if leaves == unknown then b else a;
  }

  /**
   * The catch-up branch. Whatever roots are recorded besides the saved one, the promise survives
   * exactly if the branch is not taken.
   */
  lemma CatchUpKeepsPromise(st: State, w: World)
    requires st.saved.verified && st.saved.tree.Some?
    ensures !CatchesUp(st.saved, w) <==>
            forall h :: Trusted(st.saved, h) ==> Trusted(AfterCatchUp(st, w).saved, h)
  {
    hide Known;
    if CatchesUp(st.saved, w) {
      var h := AllBut(Longer(st.saved, w));
      KnowsAllBut(Longer(st.saved, w), Longer(st.saved, w));
      KnowsAllBut(Longer(st.saved, w), st.saved.tree.value);
      assert Trusted(st.saved, h) && !Trusted(AfterCatchUp(st, w).saved, h);
    }
  }

  /**
   * The rest of a run, from the guard of the catch-up branch on. Whatever roots are recorded
   * besides the saved one and the boost root, the promise survives exactly if the branch is not
   * taken, or a reset or a cleared flag comes after it.
   */
  lemma TailKeepsPromise(st: State, w: World, valid: bool)
    requires st.saved.verified && st.saved.tree.Some? && |w.boost.leaves| <= Height(st.saved)
    ensures !CatchesUp(st.saved, w) || Resets(w, valid) || w.unspendable <==>
            forall h :: Trusted(st.saved, h) && Known(h, w.boost.leaves) ==> Trusted(Tail(st, w, valid).saved, h)
  {
    hide Known;
    if CatchesUp(st.saved, w) && !Resets(w, valid) && !w.unspendable {
      var longer := Longer(st.saved, w);
      KnowsAllBut(longer, longer);
      KnowsAllBut(longer, st.saved.tree.value);
      KnowsAllBut(longer, w.boost.leaves);
      assert |st.saved.tree.value| < |longer|;
      var h := AllBut(longer);
      assert Trusted(st.saved, h) && Known(h, w.boost.leaves) && !Trusted(Tail(st, w, valid).saved, h);
    }
  }

  // ---------------------------------------------------------------- whole runs

  /** A run that does not take the catch-up branch keeps the promise, and so does one that resets or clears after it. */
  lemma RunKeepsPromise(st: State, w: World)
    requires Coherent(w) && Trusted(st.saved, w.headers)
    ensures !CatchesUp(BeforeCatchUp(st, w).saved, w)
            || Resets(w, BuildValid(LoadedState(st, w), w)) || w.unspendable ==>
              Trusted(RunOnce(st, w).saved, w.headers)
  {
    hide BeforeCatchUp, LoadedState, BuildValid, Known;
    PromiseBeforeCatchUp(st, w);
  }

  /** A delta file no longer than the boost tree never takes the branch. */
  lemma SmallDeltaNeverCatchesUp(st: State, w: World)
    requires Coherent(w) && Trusted(st.saved, w.headers) && |w.deltaAfter| <= w.boost.count
    ensures !CatchesUp(BeforeCatchUp(st, w).saved, w)
  {
    hide BeforeCatchUp;
    PromiseBeforeCatchUp(st, w);
  }

  /** Roots are only ever added. */
  predicate Grows(a: Headers, b: Headers) {
    a.recorded <= b.recorded
  }

  ghost predicate History(ws: seq<World>) {
    && (forall i :: 0 <= i < |ws| ==> Coherent(ws[i]))
    && (forall i :: 0 < i < |ws| ==>
          Grows(ws[i - 1].headers, ws[i].headers) && ws[i].headers.root == ws[i - 1].headers.root)
  }

  /** In every run, the catch-up branch is not taken, or its effect on the promise is undone. */
  ghost predicate CatchUpsHarmless(st: State, ws: seq<World>) {
    forall i :: 0 <= i < |ws| ==> CatchUpHarmless(Runs(st, ws[..i]), ws[i])
  }

  ghost predicate CatchUpHarmless(st: State, w: World) {
    !CatchesUp(BeforeCatchUp(st, w).saved, w) || Resets(w, BuildValid(LoadedState(st, w), w)) || w.unspendable
  }

  /** Three blocks past a boost tree of one leaf. */
  function Mined(k: nat): Record
    requires k < 3
  {
    Sample(3_000_001 + k, (k + 1) as byte)
  }

  function BoostOfOne(): Boost {
    Boost([Sample(9, 9).cmu], 1, 3_000_000)
  }

  /** A header store that knows every tree but the one the second run below saves. */
  function Honestly(): Headers {
    AllBut(BoostOfOne().leaves + [Mined(0).cmu, Mined(2).cmu])
  }

  /** The first run of a new wallet scans one block, and builds the tree that is recorded at its tip. */
  function FirstRun(): World {
    World(Honestly(), false, true, BoostOfOne(), true, [], 3_000_001, false, false, {}, true, 3_000_001, [Mined(0)],
          Some(seq(HASH_LEN, _ => 1)), {}, true, false)
  }

  /** In the second run the block scan appends two more blocks and then fails. */
  function SecondRun(): World {
    World(Honestly(), false, false, BoostOfOne(), true, [Mined(0)], 3_000_003, false, false, {}, false, 3_000_002,
          [Mined(0), Mined(1), Mined(2)], None, {}, true, false)
  }

  /** A load of one record onto any tree. */
  lemma LoadsOne(r: Record, hi: nat, limit: nat)
    requires r.height <= hi && 1 < limit
    ensures Loads([r], r.height, hi, limit, 0) == [r.cmu]
  {
    hide PagedRead, InRange, Kept, Dedup;
    InRangeOne(r, r.height, hi);
    OnePage([r], r.height, hi, limit);
    SortFixpoint([CommitmentOf(r)]);
    KeptIsDedup([CommitmentOf(r)]);
    DedupSingle(CommitmentOf(r));
  }

  lemma TreesDiffer()
    ensures var x, a, c := BoostOfOne().leaves, Mined(0).cmu, Mined(2).cmu;
            x != x + [a, c] && x + [a] != x + [a, c]
  {
  }

  lemma FirstRunVerifies()
    ensures Coherent(FirstRun())
    ensures RunOnce(State(Saved(None, false), []), FirstRun()) ==
            State(Saved(Some(BoostOfOne().leaves + [Mined(0).cmu]), true), BoostOfOne().leaves + [Mined(0).cmu])
  {
    hide Known, Sample, Loads;
    var w, x, a := FirstRun(), BoostOfOne().leaves, Mined(0);
    var built := x + [a.cmu];
    TreesDiffer();
    KnowsAllBut(x + [a.cmu, Mined(2).cmu], x);
    SampleHeights();
    LoadsOne(a, 3_000_001, CMU_PAGE);
    assert w.headers.root(built) == w.tipRoot.value;
    var st := LoadedState(State(Saved(None, false), []), w);
    assert st == State(Saved(Some(x), false), x);
    assert AfterBuild(st, w) == State(Saved(Some(built), true), built);
  }

  lemma SecondRunCatchesUp()
    ensures var built := BoostOfOne().leaves + [Mined(0).cmu];
            && Coherent(SecondRun()) && Known(Honestly(), built)
            && RunOnce(State(Saved(Some(built), true), built), SecondRun()).saved
            == Saved(Some(built + [Mined(2).cmu]), true)
  {
    hide Known, Sample, Loads;
    var w, x, a, c := SecondRun(), BoostOfOne().leaves, Mined(0), Mined(2);
    var built := x + [a.cmu];
    TreesDiffer();
    KnowsAllBut(x + [a.cmu, c.cmu], x);
    KnowsAllBut(x + [a.cmu, c.cmu], built);
    var st := State(Saved(Some(built), true), built);
    assert BeforeCatchUp(st, w) == st;
    SampleHeights();
    assert w.deltaAfter[2..] == [c];
    CatchUp.OrderedScan(w.deltaAfter, 2, SCAN_CHUNK);
    assert Longer(st.saved, w) == built + [c.cmu];
  }

  /** From a new wallet: after the second run the flag stands over a tree the header store does not know. */
  lemma RunBreaksPromise()
    ensures var st, ws := State(Saved(None, false), []), [FirstRun(), SecondRun()];
            && History(ws) && Trusted(Runs(st, ws[..1]).saved, ws[0].headers) && Runs(st, ws[..1]).saved.verified
            && !Trusted(Runs(st, ws).saved, ws[1].headers)
  {
    hide Known, Sample, Loads, RunOnce, AllBut, Coherent;
    var st, ws := State(Saved(None, false), []), [FirstRun(), SecondRun()];
    FirstRunVerifies();
    SecondRunCatchesUp();
    assert ws[..1] == [FirstRun()] && ws[..1][..0] == [];
    var x, a, c := BoostOfOne().leaves, Mined(0).cmu, Mined(2).cmu;
    assert x + [a] + [c] == x + [a, c];
    KnowsAllBut(x + [a, c], x + [a, c]);
  }

  lemma TrustGrows(s: Saved, a: Headers, b: Headers)
    requires Trusted(s, a) && Grows(a, b) && a.root == b.root
    ensures Trusted(s, b)
  {
  }

  /** All but the last run. */
  lemma Prefix(st: State, ws: seq<World>)
    requires ws != [] && History(ws) && CatchUpsHarmless(st, ws)
    ensures History(ws[..|ws| - 1]) && CatchUpsHarmless(st, ws[..|ws| - 1])
    ensures Coherent(ws[|ws| - 1]) && CatchUpHarmless(Runs(st, ws[..|ws| - 1]), ws[|ws| - 1])
  {
    hide Runs, RunOnce, CatchUpHarmless, Coherent, Grows;
    var n := |ws| - 1;
    forall i | 0 <= i < n ensures CatchUpHarmless(Runs(st, ws[..n][..i]), ws[..n][i]) {
      assert ws[..n][..i] == ws[..i];
    }
  }

  lemma LaterTrust(s: Saved, ws: seq<World>, n: nat)
    requires History(ws) && 0 < n < |ws| && Trusted(s, ws[n - 1].headers)
    ensures Trusted(s, ws[n].headers)
  {
    TrustGrows(s, ws[n - 1].headers, ws[n].headers);
  }

  /** The promise after any number of runs, starting from a wallet that was never verified. */
  lemma {:induction false} PromiseOverRuns(st: State, ws: seq<World>)
    requires !st.saved.verified && History(ws) && CatchUpsHarmless(st, ws)
    ensures ws != [] ==> Trusted(Runs(st, ws).saved, ws[|ws| - 1].headers)
  {
    hide RunOnce, CatchUpHarmless, Known, History, CatchUpsHarmless, Coherent;
    if ws != [] {
      var n := |ws| - 1;
      Prefix(st, ws);
      PromiseOverRuns(st, ws[..n]);
      if n > 0 {
        LaterTrust(Runs(st, ws[..n]).saved, ws, n);
      }
      HarmlessRun(Runs(st, ws[..n]), ws[n]);
    }
  }

  lemma HarmlessRun(st: State, w: World)
    requires Coherent(w) && Trusted(st.saved, w.headers) && CatchUpHarmless(st, w)
    ensures Trusted(RunOnce(st, w).saved, w.headers)
  {
    hide RunOnce, Known;
    RunKeepsPromise(st, w);
  }

  lemma RunPromise(st: State, w: World)
    ensures Coherent(w) && Trusted(st.saved, w.headers) && CatchUpHarmless(st, w) ==>
              Trusted(RunOnce(st, w).saved, w.headers)
  {
    hide RunOnce, Known;
    if Coherent(w) && Trusted(st.saved, w.headers) && CatchUpHarmless(st, w) {
      HarmlessRun(st, w);
    }
  }

  lemma RunsPromise(st: State, ws: seq<World>)
    ensures !st.saved.verified && CatchUpsHarmless(st, ws) && History(ws) && ws != [] ==>
              Trusted(Runs(st, ws).saved, ws[|ws| - 1].headers)
  {
    hide Runs, Known;
    if !st.saved.verified && CatchUpsHarmless(st, ws) && History(ws) {
      PromiseOverRuns(st, ws);
    }
  }
}
