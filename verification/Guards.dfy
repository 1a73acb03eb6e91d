/**
 * The concurrency guards: atomic flags claimed by compare-and-swap and released by drop guards,
 * under an outer peer-manager mutex (crates/zipherx-core/src/sync.rs, async_wallet.rs,
 * async_sync.rs, async_send.rs).
 *
 * Any number of calls run interleaved, one atomic access at a time; each may fail in its body
 * or be aborted at any point where it can be suspended.
 */
module Guards {
  import opened Common

  datatype Flag = Syncing | Repairing | Broadcasting | GapFilling | Scanning | RebuildingWitnesses

  class SyncGuards {
    /** The flags that are true. */
    var raised: set<Flag>

    constructor ()
      ensures raised == {}
    {
      raised := {};
    }

    /** Compare-and-swap from false to true. */
    method TryAcquire(f: Flag) returns (acquired: bool)
      modifies this
      ensures acquired <==> f !in old(raised)
      ensures raised == old(raised) + {f}
    {
      acquired := f !in raised;
      if acquired {
        raised := raised + {f};
      }
    }

    method Release(f: Flag)
      modifies this
      ensures raised == old(raised) - {f}
    {
      raised := raised - {f};
    }

    method Load(f: Flag) returns (value: bool)
      ensures value <==> f in raised
    {
      value := f in raised;
    }

    method CanBackgroundSync() returns (can: bool)
      ensures can <==> raised == {}
    {
      can := Syncing !in raised && Repairing !in raised && Broadcasting !in raised
             && GapFilling !in raised && Scanning !in raised && RebuildingWitnesses !in raised;
      if can {
        assert forall f :: f !in raised by {
          forall f ensures f !in raised {
            match f
            case Syncing => case Repairing => case Broadcasting => case GapFilling => case Scanning =>
            case RebuildingWitnesses =>
          }
        }
      }
    }
  }

  // ---------------------------------------------------------------- tasks

  /** `sync`, a background round, a send, a repair or full rescan, a gap fill. */
  datatype Kind = Sync | Background | Send | Repair | GapFill

  datatype Outcome = Success | BodyFailed | Invalid | Aborted | Skipped
                   | SyncInProgress | BroadcastingInProgress | GapFillInProgress | RepairInProgress | BroadcastBusy

  /**
   * Where a task stands: not started; holding the mutex with `k` flags checked; flag claimed but
   * the broadcast flag not yet read (sync only); in its body; its flag about to be cleared; its
   * mutex about to be released; finished.
   */
  datatype Pc = Idle | Check(k: nat) | Entered | Body
              | Leaving(out: Outcome) | Unlock(out: Outcome) | Done(out: Outcome)

  /** `lost` records that some repair ended in its body without clearing its flag. */
  datatype World = World(kinds: seq<Kind>, pcs: seq<Pc>, flags: set<Flag>, mutex: Option<nat>, lost: bool)

  /** Run on; fail (validation or body); be aborted; lose the blocking task being waited for. */
  datatype Action = Go | Fail | Abort | Lose

  function OwnFlag(k: Kind): Flag {
    match k
    case Sync => Syncing
    case Background => Syncing
    case Send => Broadcasting
    case Repair => Repairing
    case GapFill => GapFilling
  }

  predicate Locks(k: Kind) {
    k == Sync || k == Background || k == Send
  }

  /** The flags read before claiming, in order. */
  function Checks(k: Kind): seq<Flag> {
    match k
    case Background => [Syncing, Repairing, Broadcasting, GapFilling, Scanning, RebuildingWitnesses]
    case Send => [Syncing, GapFilling, Repairing, Broadcasting]
    case _ => []
  }

  /** What a task returns on reading `f` set; a background round just skips. */
  function Refusal(k: Kind, f: Flag): Outcome {
    if k == Background then Skipped
    else match f
      case Syncing => SyncInProgress
      case Repairing => RepairInProgress
      case Broadcasting => BroadcastBusy
      case GapFilling => GapFillInProgress
      case _ => Skipped
  }

  /** What a task returns on losing the compare-and-swap of its own flag. */
  function LostClaim(k: Kind): Outcome {
    if k == Background then SyncInProgress else Refusal(k, OwnFlag(k))
  }

  predicate Valid(w: World) {
    |w.kinds| == |w.pcs|
  }

  /** What a step does to the mutex. */
  datatype Lock = Keep | Take | Free

  /** What one step of one task does: to itself, the flags, the mutex, and the lost mark. */
  datatype Effect = Effect(pc: Pc, flags: set<Flag>, lock: Lock, loses: bool)

  /** Compare-and-swap of the task's own flag, or refusal. */
  function Claim(k: Kind, flags: set<Flag>, won: Pc, refused: Pc): Effect {
    if OwnFlag(k) in flags then Effect(refused, flags, Keep, false) else Effect(won, flags + {OwnFlag(k)}, Keep, false)
  }

  /** The next step of a task of kind `k` at `pc`; `free` says whether the mutex can be taken. */
  function Advance(k: Kind, pc: Pc, flags: set<Flag>, free: bool): Effect {
    match pc
    case Idle =>
      if !Locks(k) then Claim(k, flags, Body, Done(LostClaim(k)))
      else if free then Effect(Check(0), flags, Take, false)
      else Effect(Idle, flags, Keep, false)
    case Check(i) =>
      if i < |Checks(k)| then
        Effect(if Checks(k)[i] in flags then Unlock(Refusal(k, Checks(k)[i])) else Check(i + 1), flags, Keep, false)
      else Claim(k, flags, if k == Send then Body else Entered, Unlock(LostClaim(k)))
    case Entered => Effect(if Broadcasting in flags then Leaving(BroadcastingInProgress) else Body, flags, Keep, false)
    case Body => Effect(Leaving(Success), flags, Keep, false)
    case Leaving(out) => Effect(if Locks(k) then Unlock(out) else Done(out), flags - {OwnFlag(k)}, Keep, false)
    case Unlock(out) => Effect(Done(out), flags, Free, false)
    case Done(_) => Effect(Idle, flags, Keep, false)
  }

  /** Where a failure or an abort sends a task; drop guards run as its locals are dropped. */
  function Divert(k: Kind, pc: Pc, a: Action): Pc {
    match (a, pc)
    case (Fail, Check(i)) => if k == Send && i == |Checks(k)| then Unlock(Invalid) else pc
    case (Fail, Body) => Leaving(BodyFailed)
    case (Abort, Idle) => Done(Aborted)
    case (Abort, Check(_)) => Unlock(Aborted)
    case (Abort, Entered) => Leaving(Aborted)
    case (Abort, Body) => if k == Repair then Done(Aborted) else Leaving(Aborted)
    case (Lose, Body) => if k == Repair then Done(BodyFailed) else pc
    case _ => pc
  }

  /** A repair has no drop guard: aborted, or its blocking task lost, it leaves its flag set. */
  predicate Loses(k: Kind, pc: Pc, a: Action) {
    k == Repair && pc == Body && (a == Abort || a == Lose)
  }

  function Local(k: Kind, pc: Pc, flags: set<Flag>, free: bool, a: Action): Effect {
    if a == Go then Advance(k, pc, flags, free) else Effect(Divert(k, pc, a), flags, Keep, Loses(k, pc, a))
  }

  /** One atomic step of task `t`. A step that is not possible changes nothing. */
  function Step(w: World, t: nat, a: Action): (v: World)
    requires Valid(w) && t < |w.pcs|
    ensures Valid(v) && v.kinds == w.kinds
  {
    var e := Local(w.kinds[t], w.pcs[t], w.flags, w.mutex.None?, a);
    World(w.kinds, w.pcs[t := e.pc], e.flags,
          match e.lock { case Keep => w.mutex case Take => Some(t) case Free => None }, w.lost || e.loses)
  }

  function Initial(kinds: seq<Kind>): (w: World)
    ensures Valid(w) && w.kinds == kinds
  {
    World(kinds, seq(|kinds|, _ => Idle), {}, None, false)
  }

  /** The calls as they run: the shared guards, the mutex, and where each call stands. */
  class Calls {
    const kinds: seq<Kind>
    const guards: SyncGuards
    var pcs: seq<Pc>
    var mutex: Option<nat>
    ghost var lost: bool

    constructor (ks: seq<Kind>)
      ensures kinds == ks && fresh(guards) && Shape() == Initial(ks)
    {
      kinds, mutex, lost := ks, None, false;
      pcs := seq(|ks|, _ => Idle);
      guards := new SyncGuards();
    }

    ghost function Shape(): World
      reads this, guards
    {
      World(kinds, pcs, guards.raised, mutex, lost)
    }

    /** One atomic step of call `t`, with the guards' own operations: exactly the step of the model. */
    method Take(t: nat, a: Action)
      requires Valid(Shape()) && t < |pcs|
      modifies this, guards
      ensures Shape() == Step(old(Shape()), t, a)
    {
      var k := kinds[t];
      if a == Go {
        match pcs[t]
        case Idle =>
          if !Locks(k) {
            var won := guards.TryAcquire(OwnFlag(k));
            pcs := pcs[t := if won then Body else Done(LostClaim(k))];
          } else if mutex == None {
            mutex, pcs := Some(t), pcs[t := Check(0)];
          }
        case Check(i) =>
          if i < |Checks(k)| {
            var found := guards.Load(Checks(k)[i]);
            pcs := pcs[t := if found then Unlock(Refusal(k, Checks(k)[i])) else Check(i + 1)];
          } else {
            var won := guards.TryAcquire(OwnFlag(k));
            pcs := pcs[t := if !won then Unlock(LostClaim(k)) else if k == Send then Body else Entered];
          }
        case Entered =>
          var sending := guards.Load(Broadcasting);
          pcs := pcs[t := if sending then Leaving(BroadcastingInProgress) else Body];
        case Body => pcs := pcs[t := Leaving(Success)];
        case Leaving(out) =>
          guards.Release(OwnFlag(k));
          pcs := pcs[t := if Locks(k) then Unlock(out) else Done(out)];
        case Unlock(out) => mutex, pcs := None, pcs[t := Done(out)];
        case Done(_) => pcs := pcs[t := Idle];
      } else {
        lost := lost || Loses(k, pcs[t], a);
        pcs := pcs[t := Divert(k, pcs[t], a)];
      }
    }
  }

  /** A schedule: which task takes which step. */
  function Run(w: World, schedule: seq<(nat, Action)>): World
    requires Valid(w)
    ensures Valid(Run(w, schedule)) && Run(w, schedule).kinds == w.kinds
  {
    if schedule == [] then w
    else
      var n := |schedule| - 1;
      var v := Run(w, schedule[..n]);
      if schedule[n].0 < |v.pcs| then Step(v, schedule[n].0, schedule[n].1) else v
  }

  // ---------------------------------------------------------------- the invariant

  /** The task holds the mutex. */
  predicate Holds(k: Kind, pc: Pc) {
    Locks(k) && !pc.Idle? && !pc.Done?
  }

  /** The task owns its flag. */
  predicate Owns(pc: Pc) {
    pc.Entered? || pc.Body? || pc.Leaving?
  }

  /** The program point is one the kind can be at. */
  predicate Fits(k: Kind, pc: Pc) {
    && (!Locks(k) ==> !pc.Check? && !pc.Entered? && !pc.Unlock?)
    && (pc.Entered? ==> k != Send)
  }

  /** The outcomes that blame a sync or another broadcast. */
  predicate Busy(out: Outcome) {
    out == SyncInProgress || out == BroadcastingInProgress || out == BroadcastBusy
  }

  predicate ReportsBusy(pc: Pc) {
    match pc
    case Leaving(out) => Busy(out)
    case Unlock(out) => Busy(out)
    case Done(out) => Busy(out)
    case _ => false
  }

  predicate Shaped(w: World)
    requires Valid(w)
  {
    forall t :: 0 <= t < |w.pcs| ==> Fits(w.kinds[t], w.pcs[t])
  }

  /** The mutex has at most one holder, the one it names. */
  predicate MutexExact(w: World)
    requires Valid(w)
  {
    && (forall t :: 0 <= t < |w.pcs| ==> (Holds(w.kinds[t], w.pcs[t]) <==> w.mutex == Some(t)))
    && (w.mutex.Some? ==> w.mutex.value < |w.pcs|)
  }

  predicate HasOwner(w: World, f: Flag)
    requires Valid(w)
  {
    exists t :: 0 <= t < |w.pcs| && Owns(w.pcs[t]) && OwnFlag(w.kinds[t]) == f
  }

  /** No two tasks own the same flag. */
  predicate OneOwner(w: World)
    requires Valid(w)
  {
    forall t, u :: 0 <= t < u < |w.pcs| && Owns(w.pcs[t]) && Owns(w.pcs[u]) ==>
        OwnFlag(w.kinds[t]) != OwnFlag(w.kinds[u])
  }

  /** A flag is set exactly while a task owns it; the repair flag also once it was lost, and then nobody owns it. */
  predicate FlagsExact(w: World)
    requires Valid(w)
  {
    && (forall f :: f in w.flags <==> HasOwner(w, f) || (f == Repairing && w.lost))
    && (w.lost ==> !HasOwner(w, Repairing))
  }

  /** No sync, background round or send is ever refused because of a sync or another broadcast. */
  predicate NeverBusy(w: World)
    requires Valid(w)
  {
    forall t :: 0 <= t < |w.pcs| && Locks(w.kinds[t]) ==> !ReportsBusy(w.pcs[t])
  }

  predicate Inv(w: World) {
    Valid(w) && Shaped(w) && MutexExact(w) && OneOwner(w) && FlagsExact(w) && NeverBusy(w)
  }

  // ---------------------------------------------------------------- one step

  /** How a step can touch the mutex. */
  lemma LocalLock(k: Kind, pc: Pc, flags: set<Flag>, free: bool, a: Action)
    requires Fits(k, pc)
    ensures var e := Local(k, pc, flags, free, a);
            && Fits(k, e.pc)
            && (e.lock == Keep ==> (Holds(k, e.pc) <==> Holds(k, pc)))
            && (e.lock == Take ==> free && Holds(k, e.pc) && !Holds(k, pc))
            && (e.lock == Free ==> Holds(k, pc) && !Holds(k, e.pc))
  {
  }

  datatype FlagMove = Same | Claims | Clears | Loss

  /** How a step can touch the flags: not at all, claim its own, clear its own, or leave it behind. */
  function FlagMoveOf(k: Kind, pc: Pc, flags: set<Flag>, e: Effect): FlagMove {
    if e.loses then Loss
    else if !Owns(pc) && Owns(e.pc) then Claims
    else if Owns(pc) && !Owns(e.pc) then Clears
    else Same
  }

  lemma LocalFlags(k: Kind, pc: Pc, flags: set<Flag>, free: bool, a: Action)
    requires Fits(k, pc)
    ensures var e := Local(k, pc, flags, free, a);
            match FlagMoveOf(k, pc, flags, e)
            case Same => !e.loses && (Owns(e.pc) <==> Owns(pc)) && e.flags == flags
            case Claims => !e.loses && !Owns(pc) && Owns(e.pc) && OwnFlag(k) !in flags
                && e.flags == flags + {OwnFlag(k)}
            case Clears => !e.loses && Owns(pc) && !Owns(e.pc) && e.flags == flags - {OwnFlag(k)}
            case Loss => e.loses && OwnFlag(k) == Repairing && Owns(pc) && !Owns(e.pc) && e.flags == flags
  {
  }

  lemma LocalBusy(k: Kind, pc: Pc, flags: set<Flag>, free: bool, a: Action)
    requires Fits(k, pc) && Locks(k) && !ReportsBusy(pc)
    requires Holds(k, pc) && Syncing in flags ==> Owns(pc) && OwnFlag(k) == Syncing
    requires Holds(k, pc) && Broadcasting in flags ==> Owns(pc) && OwnFlag(k) == Broadcasting
    ensures !ReportsBusy(Local(k, pc, flags, free, a).pc)
  {
  }

  /** While a task holds the mutex, no flag of another mutex holder is set. */
  lemma HolderSeesNoRival(w: World, t: nat, f: Flag)
    requires Inv(w) && t < |w.pcs| && Holds(w.kinds[t], w.pcs[t])
    requires f in w.flags && (f == Syncing || f == Broadcasting)
    ensures Owns(w.pcs[t]) && OwnFlag(w.kinds[t]) == f
  {
    var u :| 0 <= u < |w.pcs| && Owns(w.pcs[u]) && OwnFlag(w.kinds[u]) == f;
    assert Holds(w.kinds[u], w.pcs[u]);
  }

  lemma StepMutex(w: World, t: nat, a: Action)
    requires Inv(w) && t < |w.pcs|
    ensures Shaped(Step(w, t, a)) && MutexExact(Step(w, t, a))
  {
    hide Local, Holds, Fits, Locks, Owns, OwnFlag, ReportsBusy;
    LocalLock(w.kinds[t], w.pcs[t], w.flags, w.mutex.None?, a);
  }

  /** After a step, a flag is owned by the task that moved or by whoever owned it before. */
  lemma OwnersAfter(w: World, t: nat, a: Action, f: Flag)
    requires Inv(w) && t < |w.pcs|
    ensures var v := Step(w, t, a);
            HasOwner(v, f) <==> (Owns(v.pcs[t]) && OwnFlag(w.kinds[t]) == f)
                                || (HasOwner(w, f) && !(Owns(w.pcs[t]) && OwnFlag(w.kinds[t]) == f))
  {
    hide Local, Holds, Fits, Locks, Owns, OwnFlag, FlagsExact, MutexExact, NeverBusy, Shaped;
    var v := Step(w, t, a);
    if u :| 0 <= u < |w.pcs| && Owns(w.pcs[u]) && OwnFlag(w.kinds[u]) == f {
      assert u != t ==> Owns(v.pcs[u]);
    }
    if u :| 0 <= u < |v.pcs| && Owns(v.pcs[u]) && OwnFlag(v.kinds[u]) == f {
      assert u != t ==> Owns(w.pcs[u]);
    }
  }

  lemma StepFlags(w: World, t: nat, a: Action)
    requires Inv(w) && t < |w.pcs|
    ensures OneOwner(Step(w, t, a)) && FlagsExact(Step(w, t, a))
  {
    hide Local, Holds, Fits, Locks, Owns, OwnFlag, FlagMoveOf, MutexExact, NeverBusy, HasOwner;
    LocalFlags(w.kinds[t], w.pcs[t], w.flags, w.mutex.None?, a);
    forall f: Flag {
      OwnersAfter(w, t, a, f);
    }
    OwnedIsSet(w);
    SetByMover(w, t);
  }

  lemma OwnedIsSet(w: World)
    requires Inv(w)
    ensures forall t :: 0 <= t < |w.pcs| && Owns(w.pcs[t]) ==>
              HasOwner(w, OwnFlag(w.kinds[t])) && OwnFlag(w.kinds[t]) in w.flags
  {
  }

  lemma SetByMover(w: World, t: nat)
    requires t < |w.pcs| && Valid(w)
    ensures Owns(w.pcs[t]) ==> HasOwner(w, OwnFlag(w.kinds[t]))
  {
  }

  lemma StepBusy(w: World, t: nat, a: Action)
    requires Inv(w) && t < |w.pcs|
    ensures NeverBusy(Step(w, t, a))
  {
    hide Local, Holds, Fits, Owns, OwnFlag, ReportsBusy;
    if Locks(w.kinds[t]) {
      if Holds(w.kinds[t], w.pcs[t]) {
        if Syncing in w.flags {
          HolderSeesNoRival(w, t, Syncing);
        }
        if Broadcasting in w.flags {
          HolderSeesNoRival(w, t, Broadcasting);
        }
      }
      LocalBusy(w.kinds[t], w.pcs[t], w.flags, w.mutex.None?, a);
    }
  }

  // ---------------------------------------------------------------- whole schedules

  lemma Initially(kinds: seq<Kind>)
    ensures Inv(Initial(kinds))
  {
  }

  /** Every state any schedule reaches, from any number of calls of any kinds. */
  lemma {:induction false} InvAlways(kinds: seq<Kind>, schedule: seq<(nat, Action)>)
    ensures Inv(Run(Initial(kinds), schedule))
  {
    hide Local, Shaped, MutexExact, OneOwner, FlagsExact, NeverBusy;
    if schedule == [] {
      Initially(kinds);
    } else {
      var n := |schedule| - 1;
      InvAlways(kinds, schedule[..n]);
      var w := Run(Initial(kinds), schedule[..n]);
      var (t, a) := schedule[n];
      if t < |w.pcs| {
        StepMutex(w, t, a);
        StepFlags(w, t, a);
        StepBusy(w, t, a);
      }
    }
  }

  /** A state some schedule reaches. */
  ghost predicate Reachable(w: World) {
    exists schedule: seq<(nat, Action)> :: w == Run(Initial(w.kinds), schedule)
  }

  lemma ReachableInv(w: World)
    requires Reachable(w)
    ensures Inv(w)
  {
    var schedule: seq<(nat, Action)> :| w == Run(Initial(w.kinds), schedule);
    InvAlways(w.kinds, schedule);
  }

  /** No two of sync, background sync and send are ever past their claims at once. */
  lemma BodiesExclusive(w: World, t: nat, u: nat)
    requires Reachable(w) && t < |w.pcs| && u < |w.pcs| && t != u
    requires Locks(w.kinds[t]) && Locks(w.kinds[u]) && Owns(w.pcs[t])
    ensures !Owns(w.pcs[u])
  {
    ReachableInv(w);
    assert Holds(w.kinds[t], w.pcs[t]) && w.mutex == Some(t);
  }

  /** A flag is set exactly while one task owns it, as long as no repair lost its flag. */
  lemma FlagExactlyOwned(w: World, f: Flag)
    requires Reachable(w) && (f != Repairing || !w.lost)
    ensures f in w.flags <==> exists t :: 0 <= t < |w.pcs| && Owns(w.pcs[t]) && OwnFlag(w.kinds[t]) == f
    ensures forall t, u :: 0 <= t < u < |w.pcs| && Owns(w.pcs[t]) && Owns(w.pcs[u]) ==>
              !(OwnFlag(w.kinds[t]) == f == OwnFlag(w.kinds[u]))
    ensures f == Scanning || f == RebuildingWitnesses ==> f !in w.flags
  {
    ReachableInv(w);
    assert f in w.flags <==> HasOwner(w, f);
  }

  /** Neither a sync nor a send ever ends by blaming a sync or another broadcast. */
  lemma NoBusyOutcome(w: World, t: nat, out: Outcome)
    requires Reachable(w) && t < |w.pcs| && Locks(w.kinds[t]) && w.pcs[t] == Done(out)
    ensures out != SyncInProgress && out != BroadcastingInProgress && out != BroadcastBusy
  {
    ReachableInv(w);
    assert !ReportsBusy(w.pcs[t]);
  }

  // ---------------------------------------------------------------- the mutex is given back

  /** How many of its own steps a mutex holder still has before it. */
  function Rank(k: Kind, pc: Pc): nat {
    match pc
    case Check(i) => 5 + if i < |Checks(k)| then |Checks(k)| - i else 0
    case Entered => 4
    case Body => 3
    case Leaving(_) => 2
    case Unlock(_) => 1
    case _ => 0
  }

  lemma HolderAdvances(k: Kind, pc: Pc, flags: set<Flag>, free: bool)
    requires Holds(k, pc)
    ensures var e := Advance(k, pc, flags, free);
            Rank(k, e.pc) < Rank(k, pc) && (e.lock == Free || Holds(k, e.pc))
  {
  }

  lemma RunExtend(w: World, s: seq<(nat, Action)>, t: nat, a: Action)
    requires Valid(w) && t < |w.pcs|
    ensures |Run(w, s).pcs| == |w.pcs| && Run(w, s + [(t, a)]) == Step(Run(w, s), t, a)
  {
    hide Local, Initial;
    assert (s + [(t, a)])[..|s|] == s;
  }

  /** Run alone, whoever holds the mutex gives it back within eleven steps, in any reachable state. */
  lemma {:induction false} HolderReleases(w: World, t: nat, s: seq<(nat, Action)>) returns (n: nat)
    requires Valid(w) && t < |w.pcs|
    requires var v := Run(w, s); |v.pcs| == |w.pcs| && Holds(v.kinds[t], v.pcs[t])
    ensures 0 < n <= Rank(w.kinds[t], Run(w, s).pcs[t]) <= 11
    ensures Run(w, s + seq(n, _ => (t, Go))).mutex == None
    decreases Rank(w.kinds[t], Run(w, s).pcs[t])
  {
    hide Local, Run;
    var v := Run(w, s);
    HolderAdvances(v.kinds[t], v.pcs[t], v.flags, v.mutex.None?);
    RunExtend(w, s, t, Go);
    var v' := Run(w, s + [(t, Go)]);
    OneStep(v, t);
    if v'.mutex == None {
      n := 1;
      assert s + [(t, Go)] == s + seq(1, _ => (t, Go));
    } else {
      RunExtend(w, s + [(t, Go)], t, Go);
      var m := HolderReleases(w, t, s + [(t, Go)]);
      n := m + 1;
      assert s + [(t, Go)] + seq(m, _ => (t, Go)) == s + seq(n, _ => (t, Go));
    }
  }

  lemma OneStep(w: World, t: nat)
    requires Valid(w) && t < |w.pcs|
    ensures var e := Advance(w.kinds[t], w.pcs[t], w.flags, w.mutex.None?);
            && Step(w, t, Go).pcs[t] == e.pc && Step(w, t, Go).kinds == w.kinds
            && (e.lock == Free ==> Step(w, t, Go).mutex == None)
  {
  }

  // ---------------------------------------------------------------- one call by itself

  /**
   * A call on its own, with flags that others have set: where it stands, and the flags, once it is
   * in its body or finished.
   */
  function Alone(k: Kind, pc: Pc, flags: set<Flag>, steps: nat): (Pc, set<Flag>)
    decreases steps
  {
    if steps == 0 || pc == Body || pc.Done? then (pc, flags)
    else
      var e := Advance(k, pc, flags, true);
      Alone(k, e.pc, e.flags, steps - 1)
  }

  /** The first of some flags that is set, with what a call returns that finds it. */
  function FirstSet(flags: set<Flag>, refusals: seq<(Flag, Outcome)>): Option<Outcome> {
    if refusals == [] then None
    else if refusals[0].0 in flags then Some(refusals[0].1)
    else FirstSet(flags, refusals[1..])
  }

  function Refused(flags: set<Flag>, refusals: seq<(Flag, Outcome)>, own: Flag): (Pc, set<Flag>) {
    match FirstSet(flags, refusals)
    case Some(out) => (Done(out), flags)
    case None => (Body, flags + {own})
  }

  /** Which flags keep a call out of its body, in the order in which it finds them set, and what it then returns. */
  lemma LoneCall(flags: set<Flag>)
    ensures Alone(Sync, Idle, flags, 9) ==
            Refused(flags, [(Syncing, SyncInProgress), (Broadcasting, BroadcastingInProgress)], Syncing)
    ensures Alone(Background, Idle, flags, 9) ==
            Refused(flags, [(Syncing, Skipped), (Repairing, Skipped), (Broadcasting, Skipped), (GapFilling, Skipped),
                            (Scanning, Skipped), (RebuildingWitnesses, Skipped)], Syncing)
    ensures Alone(Send, Idle, flags, 9) ==
            Refused(flags, [(Syncing, SyncInProgress), (GapFilling, GapFillInProgress), (Repairing, RepairInProgress),
                            (Broadcasting, BroadcastBusy)], Broadcasting)
    ensures Alone(Repair, Idle, flags, 9) == Refused(flags, [(Repairing, RepairInProgress)], Repairing)
    ensures Alone(GapFill, Idle, flags, 9) == Refused(flags, [(GapFilling, GapFillInProgress)], GapFilling)
  {
    LoneSync(flags);
    LoneRound(flags);
    LoneSend(flags);
    LoneRepair(flags);
    LoneFill(flags);
  }

  lemma LoneRepair(flags: set<Flag>)
    ensures Alone(Repair, Idle, flags, 9) == Refused(flags, [(Repairing, RepairInProgress)], Repairing)
  {
    FirstSetCons(flags, Repairing, RepairInProgress, []);
    assert [(Repairing, RepairInProgress)] + [] == [(Repairing, RepairInProgress)];
    if Repairing in flags {
      assert Alone(Repair, Idle, flags, 9) == Alone(Repair, Done(RepairInProgress), flags, 8);
    } else {
      assert Alone(Repair, Idle, flags, 9) == Alone(Repair, Body, flags + {Repairing}, 8);
    }
  }

  lemma LoneFill(flags: set<Flag>)
    ensures Alone(GapFill, Idle, flags, 9) == Refused(flags, [(GapFilling, GapFillInProgress)], GapFilling)
  {
    FirstSetCons(flags, GapFilling, GapFillInProgress, []);
    assert [(GapFilling, GapFillInProgress)] + [] == [(GapFilling, GapFillInProgress)];
    if GapFilling in flags {
      assert Alone(GapFill, Idle, flags, 9) == Alone(GapFill, Done(GapFillInProgress), flags, 8);
    } else {
      assert Alone(GapFill, Idle, flags, 9) == Alone(GapFill, Body, flags + {GapFilling}, 8);
    }
  }

  lemma FirstSetCons(flags: set<Flag>, f: Flag, out: Outcome, rest: seq<(Flag, Outcome)>)
    ensures FirstSet(flags, [(f, out)] + rest) == if f in flags then Some(out) else FirstSet(flags, rest)
  {
    assert ([(f, out)] + rest)[1..] == rest;
  }

  lemma LoneSync(flags: set<Flag>)
    ensures Alone(Sync, Idle, flags, 9) ==
            Refused(flags, [(Syncing, SyncInProgress), (Broadcasting, BroadcastingInProgress)], Syncing)
  {
    var end: seq<(Flag, Outcome)> := [];
    FirstSetCons(flags, Syncing, SyncInProgress, [(Broadcasting, BroadcastingInProgress)] + end);
    FirstSetCons(flags, Broadcasting, BroadcastingInProgress, end);
    assert [(Syncing, SyncInProgress)] + ([(Broadcasting, BroadcastingInProgress)] + end)
        == [(Syncing, SyncInProgress), (Broadcasting, BroadcastingInProgress)];
    assert Alone(Sync, Idle, flags, 9) == Alone(Sync, Check(0), flags, 8);
    if Syncing in flags {
      assert Alone(Sync, Check(0), flags, 8) == Alone(Sync, Unlock(SyncInProgress), flags, 7)
          == Alone(Sync, Done(SyncInProgress), flags, 6);
    } else {
      assert Alone(Sync, Check(0), flags, 8) == Alone(Sync, Entered, flags + {Syncing}, 7);
      if Broadcasting in flags {
        assert Alone(Sync, Entered, flags + {Syncing}, 7)
            == Alone(Sync, Leaving(BroadcastingInProgress), flags + {Syncing}, 6)
            == Alone(Sync, Unlock(BroadcastingInProgress), flags + {Syncing} - {Syncing}, 5);
        assert flags + {Syncing} - {Syncing} == flags;
        assert Alone(Sync, Unlock(BroadcastingInProgress), flags, 5)
            == Alone(Sync, Done(BroadcastingInProgress), flags, 4);
      } else {
        assert Alone(Sync, Entered, flags + {Syncing}, 7) == Alone(Sync, Body, flags + {Syncing}, 6);
      }
    }
  }

  lemma LoneRound(flags: set<Flag>)
    ensures Alone(Background, Idle, flags, 9) ==
            Refused(flags, [(Syncing, Skipped), (Repairing, Skipped), (Broadcasting, Skipped), (GapFilling, Skipped),
                            (Scanning, Skipped), (RebuildingWitnesses, Skipped)], Syncing)
  {
    var k := Background;
    SixSet(flags);
    assert Alone(k, Idle, flags, 9) == Alone(k, Check(0), flags, 8);
    forall i, n: nat | 0 <= i < 6 && 2 < n && Checks(k)[i] in flags
      ensures Alone(k, Check(i), flags, n) == (Done(Skipped), flags)
    {
      assert Alone(k, Check(i), flags, n) == Alone(k, Unlock(Skipped), flags, n - 1)
          == Alone(k, Done(Skipped), flags, n - 2);
    }
    if Syncing in flags {
    } else if Repairing in flags {
      assert Alone(k, Check(0), flags, 8) == Alone(k, Check(1), flags, 7);
    } else if Broadcasting in flags {
      assert Alone(k, Check(0), flags, 8) == Alone(k, Check(1), flags, 7) == Alone(k, Check(2), flags, 6);
    } else if GapFilling in flags {
      assert Alone(k, Check(0), flags, 8) == Alone(k, Check(1), flags, 7) == Alone(k, Check(2), flags, 6)
          == Alone(k, Check(3), flags, 5);
    } else {
      assert Alone(k, Check(0), flags, 8) == Alone(k, Check(1), flags, 7) == Alone(k, Check(2), flags, 6)
          == Alone(k, Check(3), flags, 5) == Alone(k, Check(4), flags, 4);
      if Scanning !in flags {
        assert Alone(k, Check(4), flags, 4) == Alone(k, Check(5), flags, 3);
        if RebuildingWitnesses !in flags {
          assert Alone(k, Check(5), flags, 3) == Alone(k, Check(6), flags, 2) == Alone(k, Entered, flags + {Syncing}, 1)
              == Alone(k, Body, flags + {Syncing}, 0);
        }
      }
    }
  }

  lemma SixSet(flags: set<Flag>)
    ensures FirstSet(flags, [(Syncing, Skipped), (Repairing, Skipped), (Broadcasting, Skipped), (GapFilling, Skipped),
                             (Scanning, Skipped), (RebuildingWitnesses, Skipped)])
         == if Syncing in flags || Repairing in flags || Broadcasting in flags || GapFilling in flags
               || Scanning in flags || RebuildingWitnesses in flags then Some(Skipped) else None
  {
    var e: seq<(Flag, Outcome)> := [(RebuildingWitnesses, Skipped)];
    FirstSetCons(flags, RebuildingWitnesses, Skipped, []);
    FirstSetCons(flags, Scanning, Skipped, e);
    FirstSetCons(flags, GapFilling, Skipped, [(Scanning, Skipped)] + e);
    FirstSetCons(flags, Broadcasting, Skipped, [(GapFilling, Skipped)] + ([(Scanning, Skipped)] + e));
    FirstSetCons(flags, Repairing, Skipped,
                 [(Broadcasting, Skipped)] + ([(GapFilling, Skipped)] + ([(Scanning, Skipped)] + e)));
    var d := [(Repairing, Skipped)]
             + ([(Broadcasting, Skipped)] + ([(GapFilling, Skipped)] + ([(Scanning, Skipped)] + e)));
    FirstSetCons(flags, Syncing, Skipped, d);
    assert [(Syncing, Skipped)] + d == [(Syncing, Skipped), (Repairing, Skipped), (Broadcasting, Skipped),
                                        (GapFilling, Skipped), (Scanning, Skipped), (RebuildingWitnesses, Skipped)];
    assert [(RebuildingWitnesses, Skipped)] + [] == e;
  }

  lemma FourSet(flags: set<Flag>)
    ensures FirstSet(flags, [(Syncing, SyncInProgress), (GapFilling, GapFillInProgress), (Repairing, RepairInProgress),
                             (Broadcasting, BroadcastBusy)])
         == if Syncing in flags then Some(SyncInProgress) else if GapFilling in flags then Some(GapFillInProgress)
            else if Repairing in flags then Some(RepairInProgress)
            else if Broadcasting in flags then Some(BroadcastBusy) else None
  {
    var e: seq<(Flag, Outcome)> := [(Broadcasting, BroadcastBusy)];
    FirstSetCons(flags, Broadcasting, BroadcastBusy, []);
    FirstSetCons(flags, Repairing, RepairInProgress, e);
    FirstSetCons(flags, GapFilling, GapFillInProgress, [(Repairing, RepairInProgress)] + e);
    var d := [(GapFilling, GapFillInProgress)] + ([(Repairing, RepairInProgress)] + e);
    FirstSetCons(flags, Syncing, SyncInProgress, d);
    assert [(Syncing, SyncInProgress)] + d == [(Syncing, SyncInProgress), (GapFilling, GapFillInProgress),
                                               (Repairing, RepairInProgress), (Broadcasting, BroadcastBusy)];
    assert [(Broadcasting, BroadcastBusy)] + [] == e;
  }

  lemma LoneSend(flags: set<Flag>)
    ensures Alone(Send, Idle, flags, 9) ==
            Refused(flags, [(Syncing, SyncInProgress), (GapFilling, GapFillInProgress), (Repairing, RepairInProgress),
                            (Broadcasting, BroadcastBusy)], Broadcasting)
  {
    var k := Send;
    FourSet(flags);
    assert Alone(k, Idle, flags, 9) == Alone(k, Check(0), flags, 8);
    forall out, n: nat | 1 < n ensures Alone(k, Unlock(out), flags, n) == (Done(out), flags) {
      assert Alone(k, Unlock(out), flags, n) == Alone(k, Done(out), flags, n - 1);
    }
    if Syncing !in flags {
      assert Alone(k, Check(0), flags, 8) == Alone(k, Check(1), flags, 7);
      if GapFilling !in flags {
        assert Alone(k, Check(1), flags, 7) == Alone(k, Check(2), flags, 6);
        if Repairing !in flags {
          assert Alone(k, Check(2), flags, 6) == Alone(k, Check(3), flags, 5);
          if Broadcasting !in flags {
            assert Alone(k, Check(3), flags, 5) == Alone(k, Check(4), flags, 4)
                == Alone(k, Body, flags + {Broadcasting}, 3);
          }
        }
      }
    }
  }

  /**
   * How a call ends from its body: with success, as failed, or as aborted, its flag cleared; but an
   * aborted repair, or one whose blocking task is lost, leaves its flag set. How else it may be
   * diverted: aborted at any point before, and a send refused after its checks; nothing else.
   */
  lemma LoneEnd(k: Kind, flags: set<Flag>)
    ensures Alone(k, Advance(k, Body, flags, true).pc, flags, 3) == (Done(Success), flags - {OwnFlag(k)})
    ensures Alone(k, Divert(k, Body, Fail), flags, 3) == (Done(BodyFailed), flags - {OwnFlag(k)})
    ensures k != Repair ==> Alone(k, Divert(k, Body, Abort), flags, 3) == (Done(Aborted), flags - {OwnFlag(k)})
    ensures k == Repair ==> Divert(k, Body, Abort) == Done(Aborted) && Divert(k, Body, Lose) == Done(BodyFailed)
    ensures Divert(k, Idle, Abort) == Done(Aborted) && forall i :: Divert(k, Check(i), Abort) == Unlock(Aborted)
    ensures Divert(k, Entered, Abort) == Leaving(Aborted) && Divert(Send, Check(4), Fail) == Unlock(Invalid)
    ensures forall i :: !(k == Send && i == 4) ==> Divert(k, Check(i), Fail) == Check(i)
    ensures forall pc: Pc :: pc.Idle? || pc.Entered? ==> Divert(k, pc, Fail) == pc
    ensures forall pc :: !(k == Repair && pc == Body) ==> Divert(k, pc, Lose) == pc
    ensures forall pc: Pc, a :: pc.Leaving? || pc.Unlock? || pc.Done? ==> Divert(k, pc, a) == pc
  {
    forall out ensures Alone(k, Leaving(out), flags, 3) == (Done(out), flags - {OwnFlag(k)}) {
      var f := flags - {OwnFlag(k)};
      if Locks(k) {
        assert Alone(k, Leaving(out), flags, 3) == Alone(k, Unlock(out), f, 2) == Alone(k, Done(out), f, 1);
      } else {
        assert Alone(k, Leaving(out), flags, 3) == Alone(k, Done(out), f, 2);
      }
    }
  }

  // ---------------------------------------------------------------- what the guards do not exclude

  /** The repair flag is lost exactly when some repair was aborted, or its blocking task lost, inside its body. */
  lemma {:induction false} LostExactly(kinds: seq<Kind>, schedule: seq<(nat, Action)>)
    ensures Run(Initial(kinds), schedule).lost <==>
            exists n :: 0 <= n < |schedule| && LosesAt(kinds, schedule, n)
  {
    hide Local;
    if schedule != [] {
      var m := |schedule| - 1;
      LostExactly(kinds, schedule[..m]);
      forall n | 0 <= n < m ensures LosesAt(kinds, schedule[..m], n) <==> LosesAt(kinds, schedule, n) {
        assert schedule[..m][..n] == schedule[..n];
      }
      var w := Run(Initial(kinds), schedule[..m]);
      if schedule[m].0 < |w.pcs| {
        LocalLoses(w.kinds[schedule[m].0], w.pcs[schedule[m].0], w.flags, w.mutex.None?, schedule[m].1);
      }
      assert Run(Initial(kinds), schedule).lost <==> w.lost || LosesAt(kinds, schedule, m);
      assert w.lost <==> exists n :: 0 <= n < m && LosesAt(kinds, schedule, n);
    }
  }

  ghost predicate LosesAt(kinds: seq<Kind>, schedule: seq<(nat, Action)>, n: nat)
    requires n < |schedule|
  {
    var w := Run(Initial(kinds), schedule[..n]);
    var (t, a) := schedule[n];
    t < |w.pcs| && w.kinds[t] == Repair && w.pcs[t] == Body && (a == Abort || a == Lose)
  }

  lemma LocalLoses(k: Kind, pc: Pc, flags: set<Flag>, free: bool, a: Action)
    ensures Local(k, pc, flags, free, a).loses <==> Loses(k, pc, a)
  {
  }

  /** Sends and background rounds read the repair flag, as the third and the second of their checks. */
  predicate ReadsRepair(k: Kind) {
    k == Send || k == Background
  }

  function RepairRead(k: Kind): nat {
    if k == Send then 2 else 1
  }

  /** Not past the read of the repair flag, and not in the body. */
  predicate Barred(k: Kind, pc: Pc) {
    pc != Body && !pc.Entered? && (pc.Check? ==> pc.k <= RepairRead(k))
  }

  lemma RefusedWhileSet(k: Kind, pc: Pc, flags: set<Flag>, free: bool, a: Action)
    requires ReadsRepair(k) && Repairing in flags && Barred(k, pc)
    ensures Barred(k, Local(k, pc, flags, free, a).pc)
  {
  }

  /**
   * Once lost, the repair flag stays set: every later repair is refused, and so is every later send
   * and background round.
   */
  lemma {:induction false} LossIsForever(w: World, schedule: seq<(nat, Action)>)
    requires Inv(w) && w.lost
    ensures var v := Run(w, schedule);
            && Inv(v) && v.lost && Repairing in v.flags
            && forall t :: 0 <= t < |w.pcs| ==>
                 && (w.kinds[t] == Repair ==> !Owns(v.pcs[t]))
                 && (ReadsRepair(w.kinds[t]) && Barred(w.kinds[t], w.pcs[t]) ==> Barred(w.kinds[t], v.pcs[t]))
  {
    hide Local, Shaped, MutexExact, OneOwner, NeverBusy, Barred, ReadsRepair;
    if schedule != [] {
      var n := |schedule| - 1;
      LossIsForever(w, schedule[..n]);
      var v := Run(w, schedule[..n]);
      var (t, a) := schedule[n];
      if t < |v.pcs| {
        StepMutex(v, t, a);
        StepFlags(v, t, a);
        StepBusy(v, t, a);
        if ReadsRepair(w.kinds[t]) && Barred(w.kinds[t], w.pcs[t]) {
          RefusedWhileSet(w.kinds[t], v.pcs[t], v.flags, v.mutex.None?, a);
        }
      }
    }
    RepairsDoNotOwn(Run(w, schedule));
  }

  lemma RepairsDoNotOwn(w: World)
    requires Inv(w)
    ensures w.lost ==> Repairing in w.flags && forall t :: 0 <= t < |w.pcs| && w.kinds[t] == Repair ==> !Owns(w.pcs[t])
  {
  }

  // ---------------------------------------------------------------- repairs beside sends

  lemma {:induction false} RunJoin(w: World, s: seq<(nat, Action)>, r: seq<(nat, Action)>)
    requires Valid(w)
    ensures Run(w, s + r) == Run(Run(w, s), r)
  {
    hide Local, Initial;
    if r == [] {
      assert s + r == s;
    } else {
      assert (s + r)[..|s + r| - 1] == s + r[..|r| - 1];
      RunJoin(w, s, r[..|r| - 1]);
    }
  }

  lemma {:induction false} InvStays(w: World, s: seq<(nat, Action)>)
    requires Inv(w)
    ensures Inv(Run(w, s)) && |Run(w, s).pcs| == |w.pcs|
  {
    hide Local, Shaped, MutexExact, OneOwner, FlagsExact, NeverBusy;
    if s != [] {
      var n := |s| - 1;
      InvStays(w, s[..n]);
      var v := Run(w, s[..n]);
      if s[n].0 < |v.pcs| {
        StepMutex(v, s[n].0, s[n].1);
        StepFlags(v, s[n].0, s[n].1);
        StepBusy(v, s[n].0, s[n].1);
      }
    }
  }

  predicate InBody(w: World, t: nat) {
    t < |w.pcs| && w.pcs[t] == Body
  }

  /** Task `t` is in its body all along the schedule. */
  ghost predicate StaysIn(w: World, s: seq<(nat, Action)>, t: nat)
    requires Valid(w)
  {
    forall n :: 0 <= n <= |s| ==> InBody(Run(w, s[..n]), t)
  }

  lemma StaysPrefix(w: World, s: seq<(nat, Action)>, t: nat)
    requires Valid(w) && StaysIn(w, s, t)
    ensures InBody(Run(w, s), t)
    ensures s != [] ==> StaysIn(w, s[..|s| - 1], t)
  {
    hide Run;
    assert s[..|s|] == s;
    if s != [] {
      var m := |s| - 1;
      forall n | 0 <= n <= m ensures InBody(Run(w, s[..m][..n]), t) {
        assert s[..m][..n] == s[..n];
      }
    }
  }

  lemma RepairSetsFlag(w: World, t: nat)
    requires Inv(w) && InBody(w, t) && w.kinds[t] == Repair
    ensures Repairing in w.flags
  {
    assert HasOwner(w, Repairing);
  }

  /** A repair in its body keeps every send out that has not yet read its flag, under any schedule. */
  lemma {:induction false} RepairKeepsOut(w: World, s: seq<(nat, Action)>, t: nat, u: nat)
    requires Inv(w) && t < |w.pcs| && u < |w.pcs| && w.kinds[t] == Repair && ReadsRepair(w.kinds[u])
    requires StaysIn(w, s, t) && Barred(w.kinds[u], w.pcs[u])
    ensures |Run(w, s).pcs| == |w.pcs| && Barred(w.kinds[u], Run(w, s).pcs[u])
  {
    hide Local, Inv, Barred, ReadsRepair, StaysIn;
    InvStays(w, s);
    InvValid(w);
    if s != [] {
      var n := |s| - 1;
      StaysPrefix(w, s, t);
      StaysPrefix(w, s[..n], t);
      RepairKeepsOut(w, s[..n], t, u);
      var v := Run(w, s[..n]);
      InvStays(w, s[..n]);
      RepairSetsFlag(v, t);
      if s[n].0 == u {
        RefusedWhileSet(w.kinds[u], v.pcs[u], v.flags, v.mutex.None?, s[n].1);
      }
    }
  }

  lemma InvValid(w: World)
    requires Inv(w)
    ensures Valid(w)
  {
  }

  /** A send past its read of the repair flag gets into its body on its own. */
  lemma SendGetsIn(w: World, t: nat, u: nat) returns (s: seq<(nat, Action)>)
    requires Inv(w) && t < |w.pcs| && u < |w.pcs| && t != u && w.kinds[u] == Send
    requires InBody(w, t) && !Barred(Send, w.pcs[u])
    ensures StaysIn(w, s, t) && InBody(Run(w, s), u)
    decreases match w.pcs[u] case Check(3) => 2 case Check(_) => 1 case _ => 0
  {
    hide StaysIn, Run;
    if w.pcs[u] == Body {
      s := [];
      Standing(w, t);
    } else {
      SendMoves(w, u);
      var v := Step(w, u, Go);
      InvSteps(w, u, Go);
      var rest := SendGetsIn(v, t, u);
      s := [(u, Go)] + rest;
      StepFirst(w, u, rest);
      StaysCons(w, u, rest, t);
    }
  }

  lemma Standing(w: World, t: nat)
    requires Valid(w) && InBody(w, t)
    ensures StaysIn(w, [], t) && Run(w, []) == w
  {
  }

  lemma InvSteps(w: World, t: nat, a: Action)
    requires Inv(w) && t < |w.pcs|
    ensures Inv(Step(w, t, a))
  {
    hide Local;
    StepMutex(w, t, a);
    StepFlags(w, t, a);
    StepBusy(w, t, a);
  }

  /** The next step of a send past that read: nothing can refuse it any more. */
  lemma SendMoves(w: World, u: nat)
    requires Inv(w) && u < |w.pcs| && w.kinds[u] == Send && w.pcs[u].Check? && 3 <= w.pcs[u].k
    ensures Step(w, u, Go).pcs == w.pcs[u := if w.pcs[u].k == 3 then Check(4) else Body]
  {
    assert Holds(w.kinds[u], w.pcs[u]);
    if Broadcasting in w.flags {
      HolderSeesNoRival(w, u, Broadcasting);
    }
  }

  lemma StepFirst(w: World, u: nat, rest: seq<(nat, Action)>)
    requires Valid(w) && u < |w.pcs|
    ensures Run(w, [(u, Go)] + rest) == Run(Step(w, u, Go), rest)
  {
    hide Local;
    RunJoin(w, [(u, Go)], rest);
    assert [(u, Go)][..0] == [];
    assert Run(w, []) == w;
  }

  lemma StaysCons(w: World, u: nat, rest: seq<(nat, Action)>, t: nat)
    requires Valid(w) && u < |w.pcs| && InBody(w, t) && StaysIn(Step(w, u, Go), rest, t)
    ensures StaysIn(w, [(u, Go)] + rest, t)
  {
    hide Local, Run;
    var s := [(u, Go)] + rest;
    forall n | 0 <= n <= |s| ensures InBody(Run(w, s[..n]), t) {
      if n == 0 {
        Standing(w, t);
        assert s[..0] == [];
      } else {
        assert s[..n] == [(u, Go)] + rest[..n - 1];
        StepFirst(w, u, rest[..n - 1]);
      }
    }
  }

  /**
   * Exactly when a send can get into its body beside a repair that is in its own: if the send is
   * past its read of the repair flag.
   */
  lemma SendOverlapExactly(w: World, t: nat, u: nat)
    requires Reachable(w) && t < |w.pcs| && u < |w.pcs|
    requires w.kinds[t] == Repair && w.kinds[u] == Send && w.pcs[t] == Body
    ensures (exists s: seq<(nat, Action)> :: StaysIn(w, s, t) && InBody(Run(w, s), u))
       <==> w.pcs[u] == Body || (w.pcs[u].Check? && 3 <= w.pcs[u].k)
  {
    hide StaysIn, Run, Inv;
    ReachableInv(w);
    InvValid(w);
    SendPoint(w, u);
    if Barred(Send, w.pcs[u]) {
      forall s: seq<(nat, Action)> | StaysIn(w, s, t) ensures !InBody(Run(w, s), u) {
        RepairKeepsOut(w, s, t, u);
      }
    } else {
      var s := SendGetsIn(w, t, u);
    }
  }

  lemma SendPoint(w: World, u: nat)
    requires Inv(w) && u < |w.pcs| && w.kinds[u] == Send
    ensures !Barred(Send, w.pcs[u]) <==> w.pcs[u] == Body || (w.pcs[u].Check? && 3 <= w.pcs[u].k)
  {
  }

  /** The step at which `t`, in its body ever since, got there. */
  ghost predicate ClaimsAt(kinds: seq<Kind>, s: seq<(nat, Action)>, t: nat, n: nat)
    requires n < |s|
  {
    && s[n].0 == t && !InBody(Run(Initial(kinds), s[..n]), t)
    && StaysIn(Run(Initial(kinds), s[..n + 1]), s[n + 1..], t)
  }

  lemma {:induction false} ClaimPoint(kinds: seq<Kind>, s: seq<(nat, Action)>, t: nat) returns (n: nat)
    requires t < |kinds| && InBody(Run(Initial(kinds), s), t)
    ensures n < |s| && ClaimsAt(kinds, s, t, n)
  {
    hide Local, ClaimsAt;
    var m := |s| - 1;
    StartsOutside(kinds, s, t);
    if InBody(Run(Initial(kinds), s[..m]), t) {
      n := ClaimPoint(kinds, s[..m], t);
      LaterClaim(kinds, s, t, n);
    } else {
      n := m;
      ClaimsLast(kinds, s, t);
    }
  }

  lemma StartsOutside(kinds: seq<Kind>, s: seq<(nat, Action)>, t: nat)
    requires InBody(Run(Initial(kinds), s), t)
    ensures s != []
  {
  }

  lemma MoverIs(kinds: seq<Kind>, s: seq<(nat, Action)>, t: nat)
    requires s != [] && InBody(Run(Initial(kinds), s), t) && !InBody(Run(Initial(kinds), s[..|s| - 1]), t)
    ensures s[|s| - 1].0 == t
  {
    hide Local, Initial;
  }

  lemma ClaimsLast(kinds: seq<Kind>, s: seq<(nat, Action)>, t: nat)
    requires s != [] && InBody(Run(Initial(kinds), s), t) && !InBody(Run(Initial(kinds), s[..|s| - 1]), t)
    ensures ClaimsAt(kinds, s, t, |s| - 1)
  {
    hide Run, Initial, StaysIn;
    MoverIs(kinds, s, t);
    assert s[..|s| - 1 + 1] == s && s[|s|..] == [];
    Standing(Run(Initial(kinds), s), t);
  }

  lemma StaysExtend(w: World, s: seq<(nat, Action)>, t: nat)
    requires Valid(w) && s != [] && StaysIn(w, s[..|s| - 1], t) && InBody(Run(w, s), t)
    ensures StaysIn(w, s, t)
  {
    hide Run;
    var m := |s| - 1;
    forall n | 0 <= n <= |s| ensures InBody(Run(w, s[..n]), t) {
      if n < |s| {
        assert s[..m][..n] == s[..n];
      } else {
        assert s[..n] == s;
      }
    }
  }

  lemma LaterClaim(kinds: seq<Kind>, s: seq<(nat, Action)>, t: nat, n: nat)
    requires s != [] && n < |s| - 1 && InBody(Run(Initial(kinds), s), t) && ClaimsAt(kinds, s[..|s| - 1], t, n)
    ensures ClaimsAt(kinds, s, t, n)
  {
    hide Run, Initial, StaysIn, InBody, Local, Step, Valid;
    CutLast(s, n);
    var (w, r) := (Run(Initial(kinds), s[..n + 1]), s[n + 1..]);
    RunJoin(Initial(kinds), s[..n + 1], r);
    var cut := r[..|s| - n - 2];
    assert StaysIn(w, cut, t);
    StaysExtend(w, r, t);
  }

  lemma CutLast(s: seq<(nat, Action)>, n: nat)
    requires n < |s| - 1
    ensures var f := s[..|s| - 1];
            f[..n] == s[..n] && f[..n + 1] == s[..n + 1] && f[n + 1..] == s[n + 1..][..|s| - n - 2]
    ensures s[..n + 1] + s[n + 1..] == s && |s[n + 1..]| == |s| - n - 1
  {
  }

  /**
   * Over all schedules: whenever a send and a repair are in their bodies together, the repair
   * claimed its flag when the send had already read it.
   */
  lemma RepairClaimedAfterRead(kinds: seq<Kind>, s: seq<(nat, Action)>, t: nat, u: nat) returns (n: nat)
    requires t < |kinds| && u < |kinds| && kinds[t] == Repair && kinds[u] == Send
    requires InBody(Run(Initial(kinds), s), t) && InBody(Run(Initial(kinds), s), u)
    ensures n < |s| && ClaimsAt(kinds, s, t, n)
    ensures var v := Run(Initial(kinds), s[..n]);
            u < |v.pcs| && (v.pcs[u] == Body || (v.pcs[u].Check? && 3 <= v.pcs[u].k))
  {
    hide Local, StaysIn, Inv, Barred;
    n := ClaimPoint(kinds, s, t);
    var v := Run(Initial(kinds), s[..n]);
    var w := Run(Initial(kinds), s[..n + 1]);
    InvAlways(kinds, s[..n]);
    InvAlways(kinds, s[..n + 1]);
    PcsCount(kinds, s[..n]);
    PcsCount(kinds, s[..n + 1]);
    RunJoin(Initial(kinds), s[..n + 1], s[n + 1..]);
    assert s[..n + 1] + s[n + 1..] == s && s[..n + 1][..n] == s[..n];
    SendPoint(v, u);
    if Barred(Send, w.pcs[u]) {
      RepairKeepsOut(w, s[n + 1..], t, u);
      BarredNotIn(Run(Initial(kinds), s), u);
    }
  }

  lemma BarredNotIn(w: World, u: nat)
    requires u < |w.pcs| && Barred(Send, w.pcs[u])
    ensures !InBody(w, u)
  {
  }

  lemma {:induction false} PcsCount(kinds: seq<Kind>, s: seq<(nat, Action)>)
    ensures |Run(Initial(kinds), s).pcs| == |kinds|
  {
    hide Local;
    if s != [] {
      PcsCount(kinds, s[..|s| - 1]);
    }
  }

  // ---------------------------------------------------------------- repairs beside syncs

  /** A sync does the same whether or not the repair flag is set. */
  lemma SyncNeverReadsRepair(pc: Pc, flags: set<Flag>, free: bool, a: Action)
    ensures var x := Local(Sync, pc, flags + {Repairing}, free, a);
            var y := Local(Sync, pc, flags - {Repairing}, free, a);
            x.pc == y.pc && x.lock == y.lock && x.flags - {Repairing} == y.flags - {Repairing}
  {
  }

  /**
   * Exactly when a repair gets into its body beside a sync in its own: if no other repair holds or
   * has lost the flag.
   */
  lemma SyncOverlapExactly(w: World, t: nat, u: nat)
    requires Reachable(w) && t < |w.pcs| && u < |w.pcs|
    requires w.kinds[t] == Repair && w.kinds[u] == Sync && w.pcs[t] == Idle && w.pcs[u] == Body
    ensures InBody(Step(w, t, Go), u)
    ensures InBody(Step(w, t, Go), t) <==>
            !w.lost && forall r :: 0 <= r < |w.pcs| && w.kinds[r] == Repair ==> !Owns(w.pcs[r])
  {
    ReachableInv(w);
    assert Repairing in w.flags <==> HasOwner(w, Repairing) || w.lost;
  }

  /** And a sync that finds the mutex free always gets into its body beside a repair. */
  lemma SyncEntersBesideRepair(w: World, t: nat, u: nat)
    requires Reachable(w) && t < |w.pcs| && u < |w.pcs|
    requires w.kinds[t] == Repair && w.kinds[u] == Sync && w.pcs[t] == Body && w.pcs[u] == Idle && w.mutex == None
    ensures var v := Step(Step(Step(w, u, Go), u, Go), u, Go); InBody(v, t) && InBody(v, u)
  {
    ReachableInv(w);
    var a := Step(w, u, Go);
    InvSteps(w, u, Go);
    assert Holds(a.kinds[u], a.pcs[u]);
    if Syncing in a.flags {
      HolderSeesNoRival(a, u, Syncing);
    }
    if Broadcasting in a.flags {
      HolderSeesNoRival(a, u, Broadcasting);
    }
  }

  /** `w` is reached, and `t` can take it to `v`. */
  lemma Reach(w: World, t: nat, v: World)
    requires Reachable(w) && Valid(w) && t < |w.pcs| && v == Step(w, t, Go)
    ensures Reachable(v)
  {
    var schedule: seq<(nat, Action)> :| w == Run(Initial(w.kinds), schedule);
    RunExtend(Initial(w.kinds), schedule, t, Go);
  }

  lemma Start(kinds: seq<Kind>)
    ensures Reachable(Initial(kinds))
  {
    assert Initial(kinds) == Run(Initial(kinds), []);
  }

  /** Nothing keeps a repair from running beside a sync: a sync never reads the repair flag. */
  lemma RepairOverlapsSync()
    ensures Reachable(World([Sync, Repair], [Body, Body], {Syncing, Repairing}, Some(0), false))
  {
    hide Reachable;
    var ks := [Sync, Repair];
    Start(ks);
    assert Initial(ks) == World(ks, [Idle, Idle], {}, None, false);
    Reach(World(ks, [Idle, Idle], {}, None, false), 0, World(ks, [Check(0), Idle], {}, Some(0), false));
    Reach(World(ks, [Check(0), Idle], {}, Some(0), false), 0, World(ks, [Entered, Idle], {Syncing}, Some(0), false));
    Reach(World(ks, [Entered, Idle], {Syncing}, Some(0), false), 0, World(ks, [Body, Idle], {Syncing}, Some(0), false));
    Reach(World(ks, [Body, Idle], {Syncing}, Some(0), false), 1,
          World(ks, [Body, Body], {Syncing, Repairing}, Some(0), false));
  }

  /** Nor beside a send, if the repair starts after the send has read the repair flag. */
  lemma RepairOverlapsSend()
    ensures Reachable(World([Send, Repair], [Body, Body], {Broadcasting, Repairing}, Some(0), false))
  {
    hide Reachable;
    var ks := [Send, Repair];
    Start(ks);
    assert Initial(ks) == World(ks, [Idle, Idle], {}, None, false);
    Reach(World(ks, [Idle, Idle], {}, None, false), 0, World(ks, [Check(0), Idle], {}, Some(0), false));
    Reach(World(ks, [Check(0), Idle], {}, Some(0), false), 0, World(ks, [Check(1), Idle], {}, Some(0), false));
    Reach(World(ks, [Check(1), Idle], {}, Some(0), false), 0, World(ks, [Check(2), Idle], {}, Some(0), false));
    Reach(World(ks, [Check(2), Idle], {}, Some(0), false), 0, World(ks, [Check(3), Idle], {}, Some(0), false));
    Reach(World(ks, [Check(3), Idle], {}, Some(0), false), 1, World(ks, [Check(3), Body], {Repairing}, Some(0), false));
    Reach(World(ks, [Check(3), Body], {Repairing}, Some(0), false), 0,
          World(ks, [Check(4), Body], {Repairing}, Some(0), false));
    Reach(World(ks, [Check(4), Body], {Repairing}, Some(0), false), 0,
          World(ks, [Body, Body], {Broadcasting, Repairing}, Some(0), false));
  }
}
