/** What sync compares and records (sync.rs). */
module SyncRules {
  import opened Outcomes
  import opened Text

  datatype Head = Head(snapshotId: string, manifestHash: string, createdAtMs: int)

  /** A target conflicts when both sides moved: the head is not the recorded one and the local manifest is not the applied one. */
  predicate ShouldConflict(head: Option<Head>, seen: Option<string>, lastApplied: Option<string>, manifestHash: string) {
    head.Some? && seen.Some? && head.value.snapshotId != seen.value
    && lastApplied.Some? && lastApplied.value != manifestHash
  }

  function SnapshotFrame(manifestHash: string, nowMs: int): string {
    "kc.sync.snapshot.v2\n" + manifestHash + "\n" + Decimal(nowMs)
  }

  function SnapshotIdForManifest(h: Hasher, manifestHash: string, nowMs: int): string {
    h(SnapshotFrame(manifestHash, nowMs))
  }

  function NewHead(h: Hasher, manifestHash: string, nowMs: int): Head {
    Head(SnapshotIdForManifest(h, manifestHash, nowMs), manifestHash, nowMs)
  }
}

/**
 * Push and pull against an S3 target (sync.rs), as processes that interleave at every store operation and may fail
 * or crash anywhere. The lock is taken by a conditional put (If-None-Match: *, section 13.1.2 of RFC 9110).
 */
module SyncS3 {
  import opened Outcomes
  import opened Text
  import opened SyncRules

  const S3_LOCK_TTL_MS := 60_000

  datatype Lock = Lock(holder: string, expiresAtMs: int)

  datatype Task = Push | Pull

  datatype Place =
    | Start            // nothing read yet
    | Prechecked       // the head was read once, without the lock
    | SawExpired       // an expired lock was read; the branch that deletes it comes next
    | SawNoLock        // no lock was read; the conditional put comes next
    | Locked           // the conditional put created the lock
    | Checked          // the head was read again under the lock and does not conflict
    | Uploaded         // push only: the snapshot is stored
    | Published        // push: the head is written; pull: the snapshot is fetched and applied
    | Releasing        // the lock is read once more
    | Deleting         // it named this holder; it is deleted next
    | Finished
    | Crashed

  /** One call of sync_push_s3_target or sync_pull_s3_target, with the clock and the recorded state it started from. */
  datatype Process = Process(
    task: Task,
    vaultId: string,
    nowMs: int,
    seen: Option<string>,
    lastApplied: Option<string>,
    manifestHash: string,
    place: Place,
    checked: Option<Head>)

  datatype System = System(lock: Option<Lock>, head: Option<Head>, snapshots: set<string>, procs: map<nat, Process>)

  datatype Action =
    | ReadHead
    | ReadLock
    | DeleteExpired
    | CreateLock
    | CreateLockUnacknowledged
    | ReadHeadLocked(merged: bool)
    | Upload
    | WriteHead
    | Fetch
    | Record
    | ReadForRelease
    | DeleteLock
    | Fail
    | Crash

  function HolderOf(p: Process): string {
    p.vaultId + ":" + Decimal(p.nowMs)
  }

  function LockOf(p: Process): Lock {
    Lock(HolderOf(p), p.nowMs + S3_LOCK_TTL_MS)
  }

  predicate Conflicts(head: Option<Head>, p: Process) {
    ShouldConflict(head, p.seen, p.lastApplied, p.manifestHash)
  }

  predicate BetweenAcquireAndRelease(p: Process) {
    p.place.Locked? || p.place.Checked? || p.place.Uploaded? || p.place.Published? || p.place.Releasing? || p.place.Deleting?
  }

  function At(s: System, id: nat, place: Place): System
    requires id in s.procs
  {
    s.(procs := s.procs[id := s.procs[id].(place := place)])
  }

  /** One atomic store operation, or one failure, of process id. */
  ghost predicate Moves(h: Hasher, s: System, id: nat, action: Action, t: System) {
    id in s.procs &&
    var p := s.procs[id];
    match action
    case ReadHead =>
      p.place.Start? && (p.task.Pull? ==> s.head.Some?)
      && t == if p.task.Push? && Conflicts(s.head, p) then At(s, id, Finished) else At(s, id, Prechecked)
    case ReadLock =>
      p.place.Prechecked?
      && t == if s.lock.None? then At(s, id, SawNoLock)
              else if s.lock.value.expiresAtMs > p.nowMs then At(s, id, Finished)
              else At(s, id, SawExpired)
    case DeleteExpired => p.place.SawExpired? && t == At(s, id, SawNoLock).(lock := None)
    case CreateLock =>
      p.place.SawNoLock?
      && t == if s.lock.None? then At(s, id, Locked).(lock := Some(LockOf(p))) else At(s, id, Finished)
    case CreateLockUnacknowledged =>
      p.place.SawNoLock? && s.lock.None? && t == At(s, id, Finished).(lock := Some(LockOf(p)))
    case ReadHeadLocked(merged) =>
      p.place.Locked?
      && (var refused := if p.task.Push? then Conflicts(s.head, p) else s.head.None? || (Conflicts(s.head, p) && !merged);
          t == if refused then At(s, id, Releasing)
               else At(s, id, Checked).(procs := s.procs[id := p.(place := Checked, checked := s.head)]))
    case Upload =>
      p.place.Checked? && p.task.Push?
      && t == At(s, id, Uploaded).(snapshots := s.snapshots + {SnapshotIdForManifest(h, p.manifestHash, p.nowMs)})
    case WriteHead =>
      p.place.Uploaded? && t == At(s, id, Published).(head := Some(NewHead(h, p.manifestHash, p.nowMs)))
    case Fetch =>
      p.place.Checked? && p.task.Pull? && p.checked.Some?
      && t == if p.checked.value.snapshotId in s.snapshots then At(s, id, Published) else At(s, id, Releasing)
    case Record => p.place.Published? && t == At(s, id, Releasing)
    case ReadForRelease =>
      p.place.Releasing?
      && t == if s.lock.Some? && s.lock.value.holder == HolderOf(p) then At(s, id, Deleting) else At(s, id, Finished)
    case DeleteLock => p.place.Deleting? && t == At(s, id, Finished).(lock := None)
    case Fail =>
      !p.place.Finished? && !p.place.Crashed?
      && t == if p.place.Locked? || p.place.Checked? || p.place.Uploaded? || p.place.Published?
              then At(s, id, Releasing) else At(s, id, Finished)
    case Crash => t == At(s, id, Crashed)
  }

  /** Any number of calls, all at their start, on a target that is empty or already consistent and unlocked or locked. */
  ghost predicate Initial(s: System) {
    (forall id :: id in s.procs ==> s.procs[id].place.Start?)
    && (s.head.Some? ==> s.head.value.snapshotId in s.snapshots)
  }

  ghost predicate Run(h: Hasher, states: seq<System>, ids: seq<nat>, actions: seq<Action>) {
    |states| == |actions| + 1 && |ids| == |actions|
    && Initial(states[0])
    && forall i :: 0 <= i < |actions| ==> Moves(h, states[i], ids[i], actions[i], states[i + 1])
  }

  ghost predicate NobodyInside(s: System) {
    forall id :: id in s.procs ==> !BetweenAcquireAndRelease(s.procs[id])
  }

  /** Up to state i, every deletion of an expired lock (sync.rs line 1413) happened while nobody was inside. */
  ghost predicate HarmlessTakeovers(states: seq<System>, actions: seq<Action>, i: nat) {
    forall k :: 0 <= k < i && k < |actions| && k < |states| && actions[k].DeleteExpired? ==> NobodyInside(states[k])
  }

  // ---- What every step keeps ----

  ghost predicate MutuallyExclusive(s: System) {
    forall a, b :: a in s.procs && b in s.procs && BetweenAcquireAndRelease(s.procs[a]) && BetweenAcquireAndRelease(s.procs[b]) ==> a == b
  }

  /** A process inside owns the lock; what it checked is still the head; heads and uploads are backed by snapshots. */
  ghost predicate Inv(h: Hasher, s: System) {
    MutuallyExclusive(s)
    && (s.head.Some? ==> s.head.value.snapshotId in s.snapshots)
    && forall id :: id in s.procs ==> ProcessInv(h, s, s.procs[id])
  }

  ghost predicate ProcessInv(h: Hasher, s: System, p: Process) {
    (BetweenAcquireAndRelease(p) ==> s.lock.Some? && s.lock.value.holder == HolderOf(p))
    && (p.place.Checked? || p.place.Uploaded? ==>
          p.checked == s.head && (p.task.Push? ==> !Conflicts(s.head, p)) && (p.task.Pull? ==> s.head.Some?))
    && (p.place.Uploaded? ==> p.task.Push? && SnapshotIdForManifest(h, p.manifestHash, p.nowMs) in s.snapshots)
  }

  lemma MovesKeepInv(h: Hasher, s: System, id: nat, action: Action, t: System)
    requires Inv(h, s) && Moves(h, s, id, action, t) && !action.DeleteExpired?
    ensures Inv(h, t)
  {
    assert ProcessInv(h, s, s.procs[id]);
    forall other | other in t.procs
      ensures ProcessInv(h, t, t.procs[other])
    {
      assert ProcessInv(h, s, s.procs[other]);
      assert other != id ==> t.procs[other] == s.procs[other];
    }
  }

  lemma StartsInv(h: Hasher, s: System)
    requires Initial(s)
    ensures Inv(h, s)
  {
  }

  /** Deleting an expired lock is harmless exactly when nobody is inside: the delete does not look at what it deletes. */
  lemma TakeoverKeepsInvExactlyWhenNobodyInside(h: Hasher, s: System, id: nat, t: System)
    requires Inv(h, s) && Moves(h, s, id, DeleteExpired, t)
    ensures Inv(h, t) <==> NobodyInside(s)
  {
    forall other | other in t.procs
      ensures ProcessInv(h, t, t.procs[other]) <==> !BetweenAcquireAndRelease(s.procs[other])
    {
      assert ProcessInv(h, s, s.procs[other]);
      assert other != id ==> t.procs[other] == s.procs[other];
    }
    if Inv(h, t) {
      forall other | other in s.procs
        ensures !BetweenAcquireAndRelease(s.procs[other])
      {
        assert ProcessInv(h, t, t.procs[other]);
      }
    }
  }

  // ---- Every run ----

  /** In every run, the invariant holds all the way exactly when every takeover on the way found nobody inside. */
  lemma {:induction false} RunsKeepInvExactly(h: Hasher, states: seq<System>, ids: seq<nat>, actions: seq<Action>, i: nat)
    requires Run(h, states, ids, actions) && i < |states|
    ensures (forall k :: 0 <= k <= i ==> Inv(h, states[k])) <==> HarmlessTakeovers(states, actions, i)
  {
    hide Inv, Moves, NobodyInside;
    if i == 0 {
      StartsInv(h, states[0]);
    } else {
      RunsKeepInvExactly(h, states, ids, actions, i - 1);
      var s, id, action, t := states[i - 1], ids[i - 1], actions[i - 1], states[i];
      assert Moves(h, s, id, action, t);
      assert HarmlessTakeovers(states, actions, i) <==>
        HarmlessTakeovers(states, actions, i - 1) && (action.DeleteExpired? ==> NobodyInside(s));
      if HarmlessTakeovers(states, actions, i - 1) {
        if action.DeleteExpired? {
          TakeoverKeepsInvExactlyWhenNobodyInside(h, s, id, t);
        } else {
          MovesKeepInv(h, s, id, action, t);
        }
      }
    }
  }

  lemma RunsKeepInv(h: Hasher, states: seq<System>, ids: seq<nat>, actions: seq<Action>, i: nat)
    requires Run(h, states, ids, actions) && i < |states| && HarmlessTakeovers(states, actions, i)
    ensures Inv(h, states[i])
  {
    hide Inv, Run, HarmlessTakeovers;
    RunsKeepInvExactly(h, states, ids, actions, i);
  }

  /** Unless a takeover found somebody inside, at most one process is between acquire and release, and the head names a stored snapshot. */
  lemma RunsAreExclusive(h: Hasher, states: seq<System>, ids: seq<nat>, actions: seq<Action>, i: nat)
    requires Run(h, states, ids, actions) && i < |states| && HarmlessTakeovers(states, actions, i)
    ensures MutuallyExclusive(states[i])
    ensures states[i].head.Some? ==> states[i].head.value.snapshotId in states[i].snapshots
  {
    hide Run;
    RunsKeepInv(h, states, ids, actions, i);
  }

  /** From its check under the lock until its write, a process keeps seeing the head it checked. */
  lemma CheckedHeadStands(h: Hasher, states: seq<System>, ids: seq<nat>, actions: seq<Action>, i: nat, id: nat)
    requires Run(h, states, ids, actions) && i < |states| && HarmlessTakeovers(states, actions, i) && id in states[i].procs
    requires states[i].procs[id].place.Checked? || states[i].procs[id].place.Uploaded?
    ensures states[i].procs[id].checked == states[i].head
  {
    hide Run;
    RunsKeepInv(h, states, ids, actions, i);
    assert ProcessInv(h, states[i], states[i].procs[id]);
  }

  /** The atomic operation an accepted push stands for: compare the head with what the caller recorded, then replace it. */
  ghost predicate CheckAndReplace(h: Hasher, before: Option<Head>, p: Process, after: Option<Head>) {
    p.task.Push? && !Conflicts(before, p) && after == Some(NewHead(h, p.manifestHash, p.nowMs))
  }

  /** Every change of the head, in any interleaving, is one atomic check-and-replace by a push, of a snapshot already stored. */
  lemma HeadChangesAreCheckAndReplace(h: Hasher, states: seq<System>, ids: seq<nat>, actions: seq<Action>, i: nat)
    requires Run(h, states, ids, actions) && i < |actions| && HarmlessTakeovers(states, actions, i)
    ensures if actions[i].WriteHead?
            then ids[i] in states[i].procs && CheckAndReplace(h, states[i].head, states[i].procs[ids[i]], states[i + 1].head)
                 && states[i + 1].head.value.snapshotId in states[i].snapshots
            else states[i + 1].head == states[i].head
  {
    RunsKeepInv(h, states, ids, actions, i);
    assert Moves(h, states[i], ids[i], actions[i], states[i + 1]);
    assert ProcessInv(h, states[i], states[i].procs[ids[i]]);
  }

  /** A pull that fetches always finds the snapshot its head names. */
  lemma FetchAlwaysFindsSnapshot(h: Hasher, states: seq<System>, ids: seq<nat>, actions: seq<Action>, i: nat)
    requires Run(h, states, ids, actions) && i < |actions| && HarmlessTakeovers(states, actions, i) && actions[i].Fetch?
    ensures ids[i] in states[i + 1].procs && states[i + 1].procs[ids[i]].place.Published?
  {
    RunsKeepInv(h, states, ids, actions, i);
    assert Moves(h, states[i], ids[i], actions[i], states[i + 1]);
    assert ProcessInv(h, states[i], states[i].procs[ids[i]]);
  }

  // ---- Two takers ----

  /** A fresh lock keeps everybody who reads it out for a minute of its maker's clock, and nobody after that. */
  lemma FreshLockHoldsForAMinute(h: Hasher, s: System, id: nat, t: System, other: nat, u: System)
    requires Moves(h, s, id, CreateLock, t) && s.lock.None? && Moves(h, t, other, ReadLock, u)
    ensures other in u.procs
    ensures u.procs[other].place == if t.procs[other].nowMs < s.procs[id].nowMs + 60000 then Finished else SawExpired
  {
    hide HolderOf;
  }

  function Taker(vaultId: string, place: Place): Process {
    Process(Push, vaultId, 100, None, None, "m", place, None)
  }

  function TwoTakers(lock: Option<Lock>, a: Place, b: Place): System {
    System(lock, None, {}, map[0 := Taker("a", a), 1 := Taker("b", b)])
  }

  /** Both processes read an expired lock; each then deletes whatever lock there is and makes its own. */
  function BothEnterStates(): seq<System> {
    var expired := Some(Lock("z", 50));
    var lockA, lockB := Some(LockOf(Taker("a", SawNoLock))), Some(LockOf(Taker("b", SawNoLock)));
    [TwoTakers(expired, Start, Start),
     TwoTakers(expired, Prechecked, Start),
     TwoTakers(expired, Prechecked, Prechecked),
     TwoTakers(expired, SawExpired, Prechecked),
     TwoTakers(expired, SawExpired, SawExpired),
     TwoTakers(None, SawNoLock, SawExpired),
     TwoTakers(lockA, Locked, SawExpired),
     TwoTakers(None, Locked, SawNoLock),
     TwoTakers(lockB, Locked, Locked)]
  }

  lemma BothSeeTheExpiredLock(h: Hasher)
    ensures var s := BothEnterStates();
      Moves(h, s[0], 0, ReadHead, s[1]) && Moves(h, s[1], 1, ReadHead, s[2])
      && Moves(h, s[2], 0, ReadLock, s[3]) && Moves(h, s[3], 1, ReadLock, s[4])
  {
    hide HolderOf;
    assert !Conflicts(None, Taker("a", Start)) && !Conflicts(None, Taker("b", Start)) by {
      assert !ShouldConflict(None, None, None, "m");
    }
  }

  lemma BothTakeTheLock(h: Hasher)
    ensures var s := BothEnterStates();
      Moves(h, s[4], 0, DeleteExpired, s[5]) && Moves(h, s[5], 0, CreateLock, s[6])
      && Moves(h, s[6], 1, DeleteExpired, s[7]) && Moves(h, s[7], 1, CreateLock, s[8])
  {
    hide HolderOf;
  }

  /** Two processes that read the same expired lock can both end up inside. */
  lemma TakersCanBothEnter(h: Hasher) returns (states: seq<System>, ids: seq<nat>, actions: seq<Action>)
    ensures Run(h, states, ids, actions) && !MutuallyExclusive(states[|actions|])
  {
    hide HolderOf, Moves;
    BothSeeTheExpiredLock(h);
    BothTakeTheLock(h);
    states := BothEnterStates();
    ids := [0, 1, 0, 1, 0, 0, 1, 1];
    actions := [ReadHead, ReadHead, ReadLock, ReadLock, DeleteExpired, CreateLock, DeleteExpired, CreateLock];
    assert BetweenAcquireAndRelease(states[8].procs[0]) && BetweenAcquireAndRelease(states[8].procs[1]);
  }
}

/** Devices that push to and pull from one target, each call taken as one step (sync.rs). */
module SyncDevices {
  import opened Outcomes
  import opened Text
  import opened Events
  import opened SyncRules

  datatype SyncError = SyncConflict | MergeNotSafe | TargetInvalid | ApplyFailed

  /** The sync_state rows of one vault. */
  datatype Recorded = Recorded(seen: Option<string>, lastApplied: Option<string>, lastSnapshot: Option<string>)

  /** The directories a pull replaces, in order, and the contents of those that are there. */
  const TOPS := ["db", "store", "index"]

  type Tops = map<string, string>

  /** An exported bundle: its manifest text and its top directories. */
  datatype Snapshot = Snapshot(manifest: string, tops: Tops)

  /** The target: its head and the bundle stored under each snapshot id. */
  datatype Target = Target(head: Option<Head>, snapshots: map<string, Snapshot>)

  /** What becomes of one directory while a snapshot is applied: replaced, or left in whatever state the failure found it. */
  datatype ApplyFault = Applies | Breaks(left: Option<string>)

  /** A pull either has no merge mode, or one whose policy judged the two change sets. */
  datatype MergeMode = NoMerge | Judged(safe: bool)

  function RecordedFor(head: Head): Recorded {
    Recorded(Some(head.snapshotId), Some(head.manifestHash), Some(head.snapshotId))
  }

  predicate PushRefused(h: Hasher, device: Recorded, target: Target, bundle: Snapshot) {
    ShouldConflict(target.head, device.seen, device.lastApplied, h(bundle.manifest))
  }

  class FileTarget {
    var state: Target

    constructor ()
      ensures state == Target(None, map[])
    {
      state := Target(None, map[]);
    }
  }

  /** The tree after the first n directories were applied: those the snapshot has are replaced, the others kept. */
  function Applied(local: Tops, snapshot: Tops, n: nat): Tops
    requires n <= |TOPS|
  {
    if n == 0 then local
    else
      var before := Applied(local, snapshot, n - 1);
      if TOPS[n - 1] in snapshot then before[TOPS[n - 1] := snapshot[TOPS[n - 1]]] else before
  }

  /** The apply loop broke at directory n: everything before is done, everything after untouched. */
  predicate BrokenAt(local: Tops, snapshot: Tops, n: nat, tree: Tops) {
    n < |TOPS| && TOPS[n] in snapshot && tree - {TOPS[n]} == Applied(local, snapshot, n) - {TOPS[n]}
  }

  function DbOf(tree: Tops): Option<string> {
    if "db" in tree then Some(tree["db"]) else None
  }

  /** A vault as sync sees it: its directories and the rows it keeps about the target. */
  class Device {
    var tree: Tops
    var rows: Recorded

    constructor (tree: Tops)
      ensures this.tree == tree && rows == Recorded(None, None, None)
    {
      this.tree := tree;
      rows := Recorded(None, None, None);
    }

    /** build exports the vault as it is. */
    method SyncPush(h: Hasher, target: FileTarget, build: Tops -> Snapshot, nowMs: int) returns (r: Result<Head, SyncError>)
      modifies this`rows, target
      ensures r == if PushRefused(h, old(rows), old(target.state), build(tree)) then Err(SyncConflict)
                   else Ok(NewHead(h, h(build(tree).manifest), nowMs))
      ensures r.Err? ==> rows == old(rows) && target.state == old(target.state)
      ensures r.Ok? ==> rows == RecordedFor(r.value)
      ensures r.Ok? ==> target.state == Target(Some(r.value), old(target.state).snapshots[r.value.snapshotId := build(tree)])
    {
      var bundle := build(tree);
      var manifestHash := h(bundle.manifest);
      if ShouldConflict(target.state.head, rows.seen, rows.lastApplied, manifestHash) {
        return Err(SyncConflict);
      }
      var snapshotId := SnapshotIdForManifest(h, manifestHash, nowMs);
      target.state := target.state.(snapshots := target.state.snapshots[snapshotId := bundle]);
      var head := Head(snapshotId, manifestHash, nowMs);
      target.state := target.state.(head := Some(head));
      rows := rows.(seen := Some(snapshotId));
      rows := rows.(lastApplied := Some(manifestHash));
      rows := rows.(lastSnapshot := Some(snapshotId));
      return Ok(head);
    }

    /** Replaces, one after the other, the directories the snapshot has; the rows go with the database they lie in. */
    method ApplySnapshot(snapshot: Tops, rowsOf: Option<string> -> Recorded, fault: nat -> ApplyFault) returns (ok: bool)
      modifies this
      ensures ok ==> tree == Applied(old(tree), snapshot, |TOPS|)
      ensures !ok ==> exists n: nat :: BrokenAt(old(tree), snapshot, n, tree)
      ensures rows == old(rows) || rows == rowsOf(DbOf(tree))
      ensures (forall k :: fault(k).Applies?) ==> ok
    {
      var i := 0;
      while i < |TOPS|
        invariant 0 <= i <= |TOPS| && tree == Applied(old(tree), snapshot, i)
        invariant rows == old(rows) || rows == rowsOf(DbOf(tree))
      {
        var top := TOPS[i];
        if top in snapshot {
          match fault(i) {
            case Applies =>
              tree := tree[top := snapshot[top]];
            case Breaks(left) =>
              tree := if left.Some? then tree[top := left.value] else tree - {top};
          }
          if top == "db" {
            rows := rowsOf(DbOf(tree));
          }
          OnlyTheFirstIsDb();
          if fault(i).Breaks? {
            assert BrokenAt(old(tree), snapshot, i, tree);
            return false;
          }
        }
        i := i + 1;
      }
      return true;
    }

    /** Takes the head's snapshot; an accepted merge does not mix the two trees. */
    method SyncPull(h: Hasher, target: FileTarget, build: Tops -> Snapshot, mode: MergeMode,
                    rowsOf: Option<string> -> Recorded, fault: nat -> ApplyFault)
        returns (r: Result<Head, SyncError>)
      modifies this
      ensures var verdict := PullVerdict(h, old(rows), target.state, build(old(tree)), mode);
        if verdict.Err? then r == verdict && rows == old(rows) && tree == old(tree)
        else r == verdict || (r == Err(ApplyFailed) && exists k :: fault(k).Breaks?)
      ensures r.Ok? ==> rows == RecordedFor(r.value)
      ensures r.Ok? ==> tree == Applied(old(tree), target.state.snapshots[r.value.snapshotId].tops, |TOPS|)
      ensures r == Err(ApplyFailed) ==>
        target.state.head.Some? && target.state.head.value.snapshotId in target.state.snapshots
        && (exists n: nat :: BrokenAt(old(tree), target.state.snapshots[target.state.head.value.snapshotId].tops, n, tree))
        && (rows == old(rows) || rows == rowsOf(DbOf(tree)))
    {
      if target.state.head.None? {
        return Err(TargetInvalid);
      }
      var head := target.state.head.value;
      if ShouldConflict(Some(head), rows.seen, rows.lastApplied, h(build(tree).manifest)) {
        match mode {
          case NoMerge => return Err(SyncConflict);
          case Judged(safe) =>
            if !safe {
              return Err(MergeNotSafe);
            }
        }
      }
      if head.snapshotId !in target.state.snapshots {
        return Err(TargetInvalid);
      }
      var ok := ApplySnapshot(target.state.snapshots[head.snapshotId].tops, rowsOf, fault);
      if !ok {
        return Err(ApplyFailed);
      }
      rows := rows.(seen := Some(head.snapshotId));
      rows := rows.(lastApplied := Some(head.manifestHash));
      rows := rows.(lastSnapshot := Some(head.snapshotId));
      return Ok(head);
    }
  }

  lemma OnlyTheFirstIsDb()
    ensures TOPS[0] == "db" && TOPS[1] != "db" && TOPS[2] != "db" && TOPS[1] != TOPS[2]
  {
    assert |TOPS[1]| == 5;
    assert TOPS[1][0] != TOPS[2][0];
  }

  /** A pull leaves exactly the snapshot's directories if and only if the snapshot has every one the vault had. */
  lemma PullReplacesTreeExactly(local: Tops, snapshot: Tops)
    requires forall top :: top in local || top in snapshot ==> top in TOPS
    ensures Applied(local, snapshot, |TOPS|) == snapshot <==> local.Keys <= snapshot.Keys
    ensures forall top :: top in local && top !in snapshot ==>
      top in Applied(local, snapshot, |TOPS|) && Applied(local, snapshot, |TOPS|)[top] == local[top]
  {
    OnlyTheFirstIsDb();
    var one, two, three := Applied(local, snapshot, 1), Applied(local, snapshot, 2), Applied(local, snapshot, 3);
    assert Applied(local, snapshot, 0) == local;
    assert one == if TOPS[0] in snapshot then local[TOPS[0] := snapshot[TOPS[0]]] else local;
    assert two == if TOPS[1] in snapshot then one[TOPS[1] := snapshot[TOPS[1]]] else one;
    assert three == if TOPS[2] in snapshot then two[TOPS[2] := snapshot[TOPS[2]]] else two;
    assert three.Keys == local.Keys + snapshot.Keys;
  }

  function PullVerdict(h: Hasher, device: Recorded, target: Target, bundle: Snapshot, mode: MergeMode): (r: Result<Head, SyncError>)
    ensures r.Ok? ==> target.head == Some(r.value) && r.value.snapshotId in target.snapshots
  {
    if target.head.None? then Err(TargetInvalid)
    else if PushRefused(h, device, target, bundle) && mode.NoMerge? then Err(SyncConflict)
    else if PushRefused(h, device, target, bundle) && !mode.safe then Err(MergeNotSafe)
    else if target.head.value.snapshotId !in target.snapshots then Err(TargetInvalid)
    else Ok(target.head.value)
  }

  // ---- Runs of any number of devices ----

  datatype World = World(target: Target, devices: map<nat, Recorded>)

  /** An accepted call. The bundle is arbitrary: edits, and the rows sync itself writes, change it between calls. */
  datatype Step = PushBy(id: nat, bundle: Snapshot, nowMs: int) | PullBy(id: nat, bundle: Snapshot, mode: MergeMode)

  ghost predicate Moves(h: Hasher, s: World, step: Step, t: World) {
    step.id in s.devices &&
    match step
    case PushBy(id, bundle, nowMs) =>
      var head := NewHead(h, h(bundle.manifest), nowMs);
      !PushRefused(h, s.devices[id], s.target, bundle)
      && t == World(Target(Some(head), s.target.snapshots[head.snapshotId := bundle]), s.devices[id := RecordedFor(head)])
    case PullBy(id, bundle, mode) =>
      var verdict := PullVerdict(h, s.devices[id], s.target, bundle, mode);
      verdict.Ok? && t == s.(devices := s.devices[id := RecordedFor(verdict.value)])
  }

  ghost predicate Run(h: Hasher, states: seq<World>, steps: seq<Step>) {
    |states| == |steps| + 1
    && states[0].target == Target(None, map[])
    && (forall id :: id in states[0].devices ==> states[0].devices[id] == Recorded(None, None, None))
    && forall i :: 0 <= i < |steps| ==> Moves(h, states[i], steps[i], states[i + 1])
  }

  /** Device id last synchronized at step k, with the head that the target had right after it. */
  ghost predicate LastSyncedAt(states: seq<World>, steps: seq<Step>, id: nat, i: nat, k: nat)
    requires i < |states| == |steps| + 1
  {
    k < i && steps[k].id == id && states[k + 1].target.head.Some? && forall m :: k < m < i ==> steps[m].id != id
  }

  ghost predicate RowsFrom(states: seq<World>, steps: seq<Step>, id: nat, i: nat, k: nat)
    requires i < |states| == |steps| + 1
  {
    LastSyncedAt(states, steps, id, i, k)
    && id in states[i].devices && states[i].devices[id] == RecordedFor(states[k + 1].target.head.value)
  }

  lemma MoveRecordsOnlyTheDevice(h: Hasher, before: World, step: Step, after: World, id: nat)
    requires Moves(h, before, step, after) && id in before.devices
    ensures id in after.devices
    ensures step.id == id ==> after.target.head.Some? && after.devices[id] == RecordedFor(after.target.head.value)
    ensures step.id != id ==> after.devices[id] == before.devices[id]
  {
  }

  /** The rows of a device are those of the head it last pushed or pulled, or empty if it never did. */
  lemma {:induction false} RowsAreOfLastSyncedHead(h: Hasher, states: seq<World>, steps: seq<Step>, id: nat, i: nat)
    requires Run(h, states, steps) && i < |states| && id in states[0].devices
    ensures id in states[i].devices
    ensures (states[i].devices[id] == Recorded(None, None, None) && forall m :: 0 <= m < i ==> steps[m].id != id)
      || exists k: nat :: RowsFrom(states, steps, id, i, k)
  {
    hide Moves, RecordedFor;
    if i > 0 {
      var before := i - 1;
      RowsAreOfLastSyncedHead(h, states, steps, id, before);
      MoveRecordsOnlyTheDevice(h, states[before], steps[before], states[i], id);
      if steps[i - 1].id == id {
        assert RowsFrom(states, steps, id, i, i - 1);
      } else if k: nat :| RowsFrom(states, steps, id, before, k) {
        assert RowsFrom(states, steps, id, i, k);
      }
    }
  }

  /** No two different snapshot names among the pushes of the run share a digest. */
  ghost predicate NoSnapshotCollision(h: Hasher, steps: seq<Step>) {
    forall i, j :: 0 <= i < |steps| && 0 <= j < |steps| && steps[i].PushBy? && steps[j].PushBy? ==>
      SameNameSameFrame(h, steps[i], steps[j])
  }

  ghost predicate SameNameSameFrame(h: Hasher, a: Step, b: Step)
    requires a.PushBy? && b.PushBy?
  {
    var x, y := SnapshotFrame(h(a.bundle.manifest), a.nowMs), SnapshotFrame(h(b.bundle.manifest), b.nowMs);
    h(x) == h(y) ==> x == y
  }

  /** The head is always the one some push of the run wrote, and its snapshot has the manifest the head names. */
  lemma {:induction false} HeadsComeFromPushes(h: Hasher, states: seq<World>, steps: seq<Step>, i: nat)
    requires Run(h, states, steps) && i < |states| && states[i].target.head.Some?
    ensures exists k :: 0 <= k < i && steps[k].PushBy? && states[i].target.head.value == NewHead(h, h(steps[k].bundle.manifest), steps[k].nowMs)
    ensures var head := states[i].target.head.value;
      head.snapshotId in states[i].target.snapshots && h(states[i].target.snapshots[head.snapshotId].manifest) == head.manifestHash
  {
    if i > 0 {
      assert Moves(h, states[i - 1], steps[i - 1], states[i]);
      if steps[i - 1].PushBy? {
        assert states[i].target.head.value == NewHead(h, h(steps[i - 1].bundle.manifest), steps[i - 1].nowMs);
      } else {
        HeadsComeFromPushes(h, states, steps, i - 1);
      }
    }
  }

  lemma SnapshotFrameDecodes(m: string, a: int, n: string, b: int)
    requires SnapshotFrame(m, a) == SnapshotFrame(n, b)
    ensures m == n && a == b
  {
    hide Decimal;
    var tag := "kc.sync.snapshot.v2\n";
    assert SnapshotFrame(m, a)[|tag|..] == m + "\n" + Decimal(a);
    assert SnapshotFrame(n, b)[|tag|..] == n + "\n" + Decimal(b);
    DecimalHasNoNewline(a);
    DecimalHasNoNewline(b);
    SplitLast(m, Decimal(a), n, Decimal(b));
    DecimalInjective(a, b);
  }

  lemma HeadsWithOneNameAreEqual(h: Hasher, states: seq<World>, steps: seq<Step>, i: nat, j: nat)
    requires Run(h, states, steps) && NoSnapshotCollision(h, steps) && i < |states| && j < |states|
    requires states[i].target.head.Some? && states[j].target.head.Some?
    requires states[i].target.head.value.snapshotId == states[j].target.head.value.snapshotId
    ensures states[i].target.head == states[j].target.head
  {
    HeadsComeFromPushes(h, states, steps, i);
    HeadsComeFromPushes(h, states, steps, j);
    var k :| 0 <= k < i && steps[k].PushBy? && states[i].target.head.value == NewHead(h, h(steps[k].bundle.manifest), steps[k].nowMs);
    var l :| 0 <= l < j && steps[l].PushBy? && states[j].target.head.value == NewHead(h, h(steps[l].bundle.manifest), steps[l].nowMs);
    assert SameNameSameFrame(h, steps[k], steps[l]);
    SnapshotFrameDecodes(h(steps[k].bundle.manifest), steps[k].nowMs, h(steps[l].bundle.manifest), steps[l].nowMs);
  }

  /**
   * A device that has synchronized before and has changed since can only replace the very head it last synchronized
   * with: its push never overwrites another device's work unseen.
   */
  lemma ChangedDeviceReplacesOnlyItsHead(h: Hasher, states: seq<World>, steps: seq<Step>, i: nat)
    requires Run(h, states, steps) && NoSnapshotCollision(h, steps) && i < |steps| && steps[i].PushBy? && steps[i].id in states[0].devices
    requires exists m :: 0 <= m < i && steps[m].id == steps[i].id
    requires steps[i].id in states[i].devices && states[i].devices[steps[i].id].lastApplied != Some(h(steps[i].bundle.manifest))
    ensures exists k: nat :: LastSyncedAt(states, steps, steps[i].id, i, k) && states[i].target.head == states[k + 1].target.head
  {
    var id := steps[i].id;
    RowsAreOfLastSyncedHead(h, states, steps, id, i);
    var k: nat :| RowsFrom(states, steps, id, i, k);
    assert Moves(h, states[i], steps[i], states[i + 1]);
    HeadsStay(h, states, steps, k + 1, i);
    HeadsWithOneNameAreEqual(h, states, steps, i, k + 1);
  }

  lemma {:induction false} HeadsStay(h: Hasher, states: seq<World>, steps: seq<Step>, i: nat, j: nat)
    requires Run(h, states, steps) && i <= j < |states| && states[i].target.head.Some?
    ensures states[j].target.head.Some?
  {
    if i < j {
      HeadsStay(h, states, steps, i, j - 1);
      assert Moves(h, states[j - 1], steps[j - 1], states[j]);
    }
  }

  // ---- Exactly who is refused ----

  /** The device changed since it last synchronized, and the head is another one than it synchronized with then. */
  ghost predicate Diverged(h: Hasher, states: seq<World>, steps: seq<Step>, id: nat, i: nat, bundle: Snapshot)
    requires i < |states| == |steps| + 1
  {
    exists k: nat :: LastSyncedAt(states, steps, id, i, k)
      && states[i].target.head != states[k + 1].target.head
      && h(bundle.manifest) != states[k + 1].target.head.value.manifestHash
  }

  /** In every run a device is refused exactly when it has diverged; one that never synchronized never is. */
  lemma RefusedExactlyWhenDiverged(h: Hasher, states: seq<World>, steps: seq<Step>, id: nat, i: nat, bundle: Snapshot)
    requires Run(h, states, steps) && NoSnapshotCollision(h, steps) && i < |states| && id in states[0].devices
    ensures id in states[i].devices
    ensures PushRefused(h, states[i].devices[id], states[i].target, bundle) <==> Diverged(h, states, steps, id, i, bundle)
    ensures (forall m :: 0 <= m < i ==> steps[m].id != id) ==> !Diverged(h, states, steps, id, i, bundle)
  {
    hide Moves;
    RowsAreOfLastSyncedHead(h, states, steps, id, i);
    if k: nat :| RowsFrom(states, steps, id, i, k) {
      HeadsStay(h, states, steps, k + 1, i);
      if states[i].target.head.value.snapshotId == states[k + 1].target.head.value.snapshotId {
        HeadsWithOneNameAreEqual(h, states, steps, i, k + 1);
      }
      forall l: nat | LastSyncedAt(states, steps, id, i, l)
        ensures l == k
      {
        assert steps[l].id == id && steps[k].id == id;
      }
    } else {
      forall l: nat
        ensures !LastSyncedAt(states, steps, id, i, l)
      {
      }
    }
  }

  /**
   * Without a merge mode a pull is refused as a conflict exactly when the device has diverged, and in every other case
   * it is given the head that is there.
   */
  lemma PullAnswersExactly(h: Hasher, states: seq<World>, steps: seq<Step>, id: nat, i: nat, bundle: Snapshot)
    requires Run(h, states, steps) && NoSnapshotCollision(h, steps) && i < |states| && id in states[0].devices
    ensures id in states[i].devices
    ensures PullVerdict(h, states[i].devices[id], states[i].target, bundle, NoMerge) ==
      if states[i].target.head.None? then Err(TargetInvalid)
      else if Diverged(h, states, steps, id, i, bundle) then Err(SyncConflict)
      else Ok(states[i].target.head.value)
    ensures PullVerdict(h, states[i].devices[id], states[i].target, bundle, Judged(true)) ==
      if states[i].target.head.None? then Err(TargetInvalid) else Ok(states[i].target.head.value)
    ensures PullVerdict(h, states[i].devices[id], states[i].target, bundle, Judged(false)) ==
      if states[i].target.head.None? then Err(TargetInvalid)
      else if Diverged(h, states, steps, id, i, bundle) then Err(MergeNotSafe)
      else Ok(states[i].target.head.value)
  {
    hide Moves, Diverged, PushRefused, Run;
    RefusedExactlyWhenDiverged(h, states, steps, id, i, bundle);
    if states[i].target.head.Some? {
      HeadsComeFromPushes(h, states, steps, i);
    }
  }
}
