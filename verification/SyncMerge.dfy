/** Merge previews on change sets, and the four auto-merge modes of a pull (sync_merge.rs, sync.rs). */
module SyncMerge {
  import opened Outcomes
  import opened Text
  import opened Hashing

  datatype ChangeSet = ChangeSet(objects: seq<string>, overlays: seq<string>)

  datatype MergeContext = MergeContext(trustChainMismatch: bool, lockConflict: bool, rbacConflict: bool)

  const NO_CONFLICT := MergeContext(false, false, false)

  datatype MergePolicy = ConservativeV1 | ConservativePlusV2 | ConservativePlusV3 | ConservativePlusV4

  datatype MergeError =
    | PreconditionFailed
    | PolicyUnsupported
    | NotSafe
    | TrustConflict
    | LockConflict
    | PolicyV3Unsafe
    | PolicyV4Unsafe

  /** Why a merge is unsafe, and the one reason that stands for safe. */
  datatype Reason = ObjectOverlap | OverlayOverlap | TrustMismatch | LockClash | RbacClash | SafeDisjoint

  datatype Report = Report(
    schemaVersion: int,
    policy: MergePolicy,
    safe: bool,
    generatedAtMs: int,
    local: ChangeSet,
    remote: ChangeSet,
    overlap: ChangeSet,
    reasons: seq<Reason>)

  // ---- Normalization ----

  ghost predicate WellFormed(c: ChangeSet) {
    (forall x :: x in c.objects ==> ValidDigest(x)) && "" !in c.overlays
  }

  ghost function Normal(c: ChangeSet): ChangeSet {
    ChangeSet(SortedKeys(Elements(c.objects)), SortedKeys(Elements(c.overlays)))
  }

  method NormalizeChangeSet(input: ChangeSet) returns (r: Result<ChangeSet, MergeError>)
    ensures r == if WellFormed(input) then Ok(Normal(input)) else Err(PreconditionFailed)
  {
    hide ValidDigest, SortedKeys;
    var objects: set<string> := {};
    for i := 0 to |input.objects|
      invariant forall x :: x in input.objects[..i] ==> ValidDigest(x)
      invariant objects == Elements(input.objects[..i])
    {
      if !ValidDigest(input.objects[i]) {
        return Err(PreconditionFailed);
      }
      assert input.objects[..i + 1] == input.objects[..i] + [input.objects[i]];
      objects := objects + {input.objects[i]};
    }
    assert input.objects[..|input.objects|] == input.objects;
    var overlays: set<string> := {};
    for i := 0 to |input.overlays|
      invariant "" !in input.overlays[..i]
      invariant overlays == Elements(input.overlays[..i])
    {
      if input.overlays[i] == "" {
        return Err(PreconditionFailed);
      }
      assert input.overlays[..i + 1] == input.overlays[..i] + [input.overlays[i]];
      overlays := overlays + {input.overlays[i]};
    }
    assert input.overlays[..|input.overlays|] == input.overlays;
    var sortedObjects := SortKeys(objects);
    var sortedOverlays := SortKeys(overlays);
    return Ok(ChangeSet(sortedObjects, sortedOverlays));
  }

  /** Normalizing twice is normalizing once, and normal change sets are never refused. */
  lemma NormalIsIdempotent(c: ChangeSet)
    requires WellFormed(c)
    ensures WellFormed(Normal(c)) && Normal(Normal(c)) == Normal(c)
  {
    hide SortedKeys, ValidDigest;
    assert forall x :: x in Normal(c).objects ==> x in Elements(Normal(c).objects);
    assert "" in Normal(c).overlays ==> "" in Elements(Normal(c).overlays);
  }

  // ---- Safety ----

  ghost predicate Disjoint(a: ChangeSet, b: ChangeSet) {
    Elements(a.objects) !! Elements(b.objects) && Elements(a.overlays) !! Elements(b.overlays)
  }

  /** What makes a merge safe: nothing changed on both sides, and none of the flags the policy reads. */
  ghost predicate Safe(policy: MergePolicy, local: ChangeSet, remote: ChangeSet, ctx: MergeContext) {
    Disjoint(local, remote)
    && (policy.ConservativeV1? || (!ctx.trustChainMismatch && !ctx.lockConflict))
    && (policy.ConservativeV1? || policy.ConservativePlusV2? || !ctx.rbacConflict)
  }

  ghost function Overlap(a: ChangeSet, b: ChangeSet): ChangeSet {
    ChangeSet(SortedKeys(Elements(a.objects) * Elements(b.objects)), SortedKeys(Elements(a.overlays) * Elements(b.overlays)))
  }

  /** The reasons a policy looks for. */
  predicate Reads(policy: MergePolicy, reason: Reason) {
    match reason
    case ObjectOverlap => true
    case OverlayOverlap => true
    case TrustMismatch => !policy.ConservativeV1?
    case LockClash => !policy.ConservativeV1?
    case RbacClash => policy.ConservativePlusV3? || policy.ConservativePlusV4?
    case SafeDisjoint => false
  }

  ghost predicate Applies(reason: Reason, local: ChangeSet, remote: ChangeSet, ctx: MergeContext) {
    match reason
    case ObjectOverlap => !(Elements(local.objects) !! Elements(remote.objects))
    case OverlayOverlap => !(Elements(local.overlays) !! Elements(remote.overlays))
    case TrustMismatch => ctx.trustChainMismatch
    case LockClash => ctx.lockConflict
    case RbacClash => ctx.rbacConflict
    case SafeDisjoint => false
  }

  /** A report that says what it should: the normal sides, what they share, and a reason exactly where it applies. */
  ghost predicate Faithful(report: Report, policy: MergePolicy, local: ChangeSet, remote: ChangeSet, ctx: MergeContext) {
    report.policy == policy
    && report.local == Normal(local) && report.remote == Normal(remote) && report.overlap == Overlap(local, remote)
    && (report.safe <==> Safe(policy, local, remote, ctx))
    && GivesReasons(report, policy, local, remote, ctx)
  }

  ghost predicate GivesReasons(report: Report, policy: MergePolicy, local: ChangeSet, remote: ChangeSet, ctx: MergeContext) {
    forall reason: Reason :: reason in report.reasons <==>
      (Reads(policy, reason) && Applies(reason, local, remote, ctx))
      || (reason.SafeDisjoint? && report.safe && (policy.ConservativePlusV3? || policy.ConservativePlusV4?))
  }

  method OverlapOf(a: ChangeSet, b: ChangeSet) returns (o: ChangeSet)
    ensures o == Overlap(a, b)
    ensures o.objects == [] <==> Elements(a.objects) !! Elements(b.objects)
    ensures o.overlays == [] <==> Elements(a.overlays) !! Elements(b.overlays)
  {
    hide SortedKeys;
    var objects := set x | x in a.objects && x in b.objects;
    var overlays := set x | x in a.overlays && x in b.overlays;
    assert objects == Elements(a.objects) * Elements(b.objects);
    assert overlays == Elements(a.overlays) * Elements(b.overlays);
    DisjointExactly(Elements(a.objects), Elements(b.objects));
    DisjointExactly(Elements(a.overlays), Elements(b.overlays));
    NoneSorted(objects);
    NoneSorted(overlays);
    var sortedObjects := SortKeys(objects);
    var sortedOverlays := SortKeys(overlays);
    return ChangeSet(sortedObjects, sortedOverlays);
  }

  lemma DisjointExactly(a: set<string>, b: set<string>)
    ensures a !! b <==> a * b == {}
  {
    if a * b == {} {
      forall x
        ensures !(x in a && x in b)
      {
        assert x !in a * b;
      }
    }
  }

  lemma NoneSorted(keys: set<string>)
    ensures SortedKeys(keys) == [] <==> keys == {}
  {
    assert |SortedKeys(keys)| == |keys|;
  }

  lemma NormalKeepsMeaning(a: ChangeSet, b: ChangeSet)
    ensures Overlap(Normal(a), Normal(b)) == Overlap(a, b)
    ensures Elements(Normal(a).objects) == Elements(a.objects) && Elements(Normal(a).overlays) == Elements(a.overlays)
    ensures Elements(Normal(b).objects) == Elements(b.objects) && Elements(Normal(b).overlays) == Elements(b.overlays)
  {
    hide SortedKeys;
  }

  /** The four reasons of the first two policies in the byte order of their codes. */
  function Sorted(reasons: seq<Reason>): (sorted: seq<Reason>)
    ensures forall x :: x in sorted <==> x in reasons && (x.LockClash? || x.OverlayOverlap? || x.ObjectOverlap? || x.TrustMismatch?)
  {
    (if LockClash in reasons then [LockClash] else [])
    + (if OverlayOverlap in reasons then [OverlayOverlap] else [])
    + (if ObjectOverlap in reasons then [ObjectOverlap] else [])
    + (if TrustMismatch in reasons then [TrustMismatch] else [])
  }

  function PushWhen(reasons: seq<Reason>, condition: bool, reason: Reason): (pushed: seq<Reason>)
    ensures forall x :: x in pushed <==> x in reasons || (condition && x == reason)
    ensures pushed == [] <==> reasons == [] && !condition
  {
    if condition then reasons + [reason] else reasons
  }

  lemma SortedTwice(reasons: seq<Reason>)
    ensures Sorted(Sorted(reasons)) == Sorted(reasons)
  {
  }

  lemma EmptyExactly(reasons: seq<Reason>)
    ensures reasons == [] <==> forall x: Reason :: x !in reasons
  {
    if reasons != [] {
      assert reasons[0] in reasons;
    }
  }

  /** A report is faithful when it names each conflict the policy reads and its verdict is the absence of them. */
  lemma FaithfulByReasons(report: Report, policy: MergePolicy, local: ChangeSet, remote: ChangeSet, ctx: MergeContext)
    requires report.policy == policy && report.local == Normal(local) && report.remote == Normal(remote) && report.overlap == Overlap(local, remote)
    requires forall x: Reason :: !x.SafeDisjoint? ==> (x in report.reasons <==> Reads(policy, x) && Applies(x, local, remote, ctx))
    requires SafeDisjoint in report.reasons <==> report.safe && (policy.ConservativePlusV3? || policy.ConservativePlusV4?)
    requires report.safe <==> forall x: Reason :: Reads(policy, x) ==> !Applies(x, local, remote, ctx)
    ensures Faithful(report, policy, local, remote, ctx)
  {
    hide SortedKeys, Normal, Overlap;
    assert Reads(policy, ObjectOverlap) && Reads(policy, OverlayOverlap);
    assert report.safe <==> Safe(policy, local, remote, ctx) by {
      assert Reads(policy, TrustMismatch) <==> !policy.ConservativeV1?;
      assert Reads(policy, LockClash) <==> !policy.ConservativeV1?;
      assert Reads(policy, RbacClash) <==> policy.ConservativePlusV3? || policy.ConservativePlusV4?;
    }
  }

  /** The first two policies: sorted reasons, safe when there are none. */
  method MergePreviewPlain(policy: MergePolicy, local: ChangeSet, remote: ChangeSet, ctx: MergeContext, nowMs: int) returns (r: Result<Report, MergeError>)
    requires policy.ConservativeV1? || policy.ConservativePlusV2?
    ensures r.Ok? <==> WellFormed(local) && WellFormed(remote)
    ensures r.Err? ==> r.error == PreconditionFailed
    ensures r.Ok? ==> Faithful(r.value, policy, local, remote, ctx) && r.value.reasons == Sorted(r.value.reasons)
  {
    hide SortedKeys, WellFormed, Normal, Overlap, PushWhen, Sorted, Faithful;
    var localNorm :- NormalizeChangeSet(local);
    var remoteNorm :- NormalizeChangeSet(remote);
    NormalKeepsMeaning(local, remote);
    var overlap := OverlapOf(localNorm, remoteNorm);
    var reasons := [];
    reasons := PushWhen(reasons, overlap.objects != [], ObjectOverlap);
    reasons := PushWhen(reasons, overlap.overlays != [], OverlayOverlap);
    reasons := PushWhen(reasons, policy.ConservativePlusV2? && ctx.trustChainMismatch, TrustMismatch);
    reasons := PushWhen(reasons, policy.ConservativePlusV2? && ctx.lockConflict, LockClash);
    SortedTwice(reasons);
    reasons := Sorted(reasons);
    EmptyExactly(reasons);
    var report := Report(if policy.ConservativeV1? then 1 else 2, policy, reasons == [], nowMs, localNorm, remoteNorm, overlap, reasons);
    FaithfulByReasons(report, policy, local, remote, ctx);
    return Ok(report);
  }

  /** The later two policies: reasons in order, and a single reason that stands for safe. */
  method MergePreviewStrict(policy: MergePolicy, local: ChangeSet, remote: ChangeSet, ctx: MergeContext, nowMs: int) returns (r: Result<Report, MergeError>)
    requires policy.ConservativePlusV3? || policy.ConservativePlusV4?
    ensures r.Ok? <==> WellFormed(local) && WellFormed(remote)
    ensures r.Err? ==> r.error == PreconditionFailed
    ensures r.Ok? ==> Faithful(r.value, policy, local, remote, ctx)
    ensures r.Ok? && r.value.safe ==> r.value.reasons == [SafeDisjoint]
  {
    hide SortedKeys, WellFormed, Normal, Overlap, PushWhen, Sorted, Faithful;
    var localNorm :- NormalizeChangeSet(local);
    var remoteNorm :- NormalizeChangeSet(remote);
    NormalKeepsMeaning(local, remote);
    var overlap := OverlapOf(localNorm, remoteNorm);
    var reasons := [];
    reasons := PushWhen(reasons, overlap.objects != [], ObjectOverlap);
    reasons := PushWhen(reasons, overlap.overlays != [], OverlayOverlap);
    reasons := PushWhen(reasons, ctx.trustChainMismatch, TrustMismatch);
    reasons := PushWhen(reasons, ctx.lockConflict, LockClash);
    reasons := PushWhen(reasons, ctx.rbacConflict, RbacClash);
    EmptyExactly(reasons);
    if reasons == [] {
      reasons := [SafeDisjoint];
    } else {
      assert reasons[0] in reasons;
    }
    var safe := |reasons| == 1 && reasons[0] == SafeDisjoint;
    var report := Report(if policy.ConservativePlusV3? then 3 else 4, policy, safe, nowMs, localNorm, remoteNorm, overlap, reasons);
    FaithfulByReasons(report, policy, local, remote, ctx);
    return Ok(report);
  }

  function PolicyOfName(name: string): Option<MergePolicy> {
    if name == "conservative_plus_v2" then Some(ConservativePlusV2)
    else if name == "conservative_plus_v3" then Some(ConservativePlusV3)
    else if name == "conservative_plus_v4" then Some(ConservativePlusV4)
    else None
  }

  method MergePreviewWithPolicyV2(local: ChangeSet, remote: ChangeSet, ctx: MergeContext, name: string, nowMs: int) returns (r: Result<Report, MergeError>)
    ensures PolicyOfName(name).None? ==> r == Err(PolicyUnsupported)
    ensures PolicyOfName(name).Some? ==> (r.Ok? <==> WellFormed(local) && WellFormed(remote))
    ensures PolicyOfName(name).Some? && r.Err? ==> r.error == PreconditionFailed
    ensures r.Ok? ==> Faithful(r.value, PolicyOfName(name).value, local, remote, ctx)
  {
    hide Faithful, WellFormed;
    match PolicyOfName(name)
    case None =>
      return Err(PolicyUnsupported);
    case Some(policy) =>
      if policy.ConservativePlusV2? {
        r := MergePreviewPlain(policy, local, remote, ctx, nowMs);
      } else {
        r := MergePreviewStrict(policy, local, remote, ctx, nowMs);
      }
  }

  // ---- Refusals ----

  /** The code of a refusal: trust first, then locks, then roles where the policy has a code for them. */
  function EnsureMergeSafe(report: Report): Result<(), MergeError> {
    if report.safe then Ok(())
    else if !report.policy.ConservativeV1? && TrustMismatch in report.reasons then Err(TrustConflict)
    else if !report.policy.ConservativeV1? && LockClash in report.reasons then Err(LockConflict)
    else if report.policy.ConservativePlusV3? && RbacClash in report.reasons then Err(PolicyV3Unsafe)
    else if report.policy.ConservativePlusV4? && RbacClash in report.reasons then Err(PolicyV4Unsafe)
    else Err(NotSafe)
  }

  /** A refusal names the most serious flag the policy reads, whatever else is wrong. */
  lemma RefusalNamesTheWorstFlag(report: Report, policy: MergePolicy, local: ChangeSet, remote: ChangeSet, ctx: MergeContext)
    requires Faithful(report, policy, local, remote, ctx)
    ensures EnsureMergeSafe(report) ==
      if Safe(policy, local, remote, ctx) then Ok(())
      else if !policy.ConservativeV1? && ctx.trustChainMismatch then Err(TrustConflict)
      else if !policy.ConservativeV1? && ctx.lockConflict then Err(LockConflict)
      else if policy.ConservativePlusV3? && ctx.rbacConflict then Err(PolicyV3Unsafe)
      else if policy.ConservativePlusV4? && ctx.rbacConflict then Err(PolicyV4Unsafe)
      else Err(NotSafe)
  {
    hide Safe, Normal, Overlap;
  }

  // ---- Laws of safety ----

  /** Safety in full: no object and no overlay on both sides, and, from the second policy on, no flag but the role flag, from the third none. */
  lemma SafeExactly(report: Report, policy: MergePolicy, local: ChangeSet, remote: ChangeSet, ctx: MergeContext)
    requires Faithful(report, policy, local, remote, ctx)
    ensures report.safe <==>
      (forall x :: !(x in local.objects && x in remote.objects)) && (forall x :: !(x in local.overlays && x in remote.overlays))
      && (policy == ConservativeV1 || (!ctx.trustChainMismatch && !ctx.lockConflict))
      && (policy == ConservativePlusV3 || policy == ConservativePlusV4 ==> !ctx.rbacConflict)
    ensures forall x :: x in report.overlap.objects <==> x in local.objects && x in remote.objects
    ensures forall x :: x in report.overlap.overlays <==> x in local.overlays && x in remote.overlays
  {
    hide SortedKeys, GivesReasons, Normal;
    assert forall x :: x in report.overlap.objects <==> x in Elements(report.overlap.objects);
    assert forall x :: x in report.overlap.overlays <==> x in Elements(report.overlap.overlays);
    assert forall x :: x in Elements(local.objects) <==> x in local.objects;
    assert forall x :: x in Elements(remote.objects) <==> x in remote.objects;
    assert forall x :: x in Elements(local.overlays) <==> x in local.overlays;
    assert forall x :: x in Elements(remote.overlays) <==> x in remote.overlays;
  }

  ghost predicate SameContent(a: ChangeSet, b: ChangeSet) {
    Elements(a.objects) == Elements(b.objects) && Elements(a.overlays) == Elements(b.overlays)
  }

  ghost predicate Within(a: ChangeSet, b: ChangeSet) {
    Elements(a.objects) <= Elements(b.objects) && Elements(a.overlays) <= Elements(b.overlays)
  }

  /** Two previews that differ in order, repetition, or which side is called local agree on safety. */
  lemma SafetyIsSymmetricAndOrderBlind(policy: MergePolicy, ctx: MergeContext,
      a: Report, local: ChangeSet, remote: ChangeSet, b: Report, local2: ChangeSet, remote2: ChangeSet)
    requires Faithful(a, policy, local, remote, ctx) && Faithful(b, policy, local2, remote2, ctx)
    requires (SameContent(local, local2) && SameContent(remote, remote2)) || (SameContent(local, remote2) && SameContent(remote, local2))
    ensures a.safe == b.safe && a.overlap == b.overlap
  {
    hide SortedKeys;
    assert Elements(local.objects) * Elements(remote.objects) == Elements(local2.objects) * Elements(remote2.objects);
    assert Elements(local.overlays) * Elements(remote.overlays) == Elements(local2.overlays) * Elements(remote2.overlays);
  }

  /** Adding changes to either side, or raising a flag, never makes an unsafe merge safe. */
  lemma MoreChangesAreNeverSafer(policy: MergePolicy, a: Report, local: ChangeSet, remote: ChangeSet, ctx: MergeContext,
      b: Report, local2: ChangeSet, remote2: ChangeSet, ctx2: MergeContext)
    requires Faithful(a, policy, local, remote, ctx) && Faithful(b, policy, local2, remote2, ctx2)
    requires Within(local, local2) && Within(remote, remote2)
    requires (ctx.trustChainMismatch ==> ctx2.trustChainMismatch) && (ctx.lockConflict ==> ctx2.lockConflict)
    requires ctx.rbacConflict ==> ctx2.rbacConflict
    ensures b.safe ==> a.safe
  {
    hide SortedKeys, Overlap, Normal, GivesReasons;
  }

  // ---- Auto-merge on pull ----

  function Without(s: seq<string>, base: seq<string>): (rest: seq<string>)
    ensures forall x :: x in rest <==> x in s && x !in base
  {
    if s == [] then []
    else if s[|s| - 1] in base then Without(s[..|s| - 1], base)
    else Without(s[..|s| - 1], base) + [s[|s| - 1]]
  }

  function DeltaChangeSet(current: ChangeSet, base: ChangeSet): ChangeSet {
    ChangeSet(Without(current.objects, base.objects), Without(current.overlays, base.overlays))
  }

  /** Every object and overlay that both sides have was already in the base. */
  ghost predicate ShareOnlyBase(local: ChangeSet, remote: ChangeSet, base: ChangeSet) {
    Elements(local.objects) * Elements(remote.objects) <= Elements(base.objects)
    && Elements(local.overlays) * Elements(remote.overlays) <= Elements(base.overlays)
  }

  /** Deletions are not changes: a side that has nothing beyond the base never blocks a merge. */
  lemma DeletionsNeverConflict(local: ChangeSet, remote: ChangeSet, base: ChangeSet)
    ensures Within(local, base) || Within(remote, base) ==> ShareOnlyBase(local, remote, base)
  {
  }

  /** The gate before a diverged pull: preview the two deltas, and for the later modes preview the preview's sides again. */
  method AutoMergeGate(mode: MergePolicy, local: ChangeSet, remote: ChangeSet, base: ChangeSet, nowMs: int) returns (r: Result<(), MergeError>)
    ensures r == if !WellFormed(DeltaChangeSet(local, base)) || !WellFormed(DeltaChangeSet(remote, base)) then Err(PreconditionFailed)
                 else if ShareOnlyBase(local, remote, base) then Ok(()) else Err(NotSafe)
    ensures Within(local, base) || Within(remote, base) ==> r != Err(NotSafe)
  {
    hide WellFormed, Normal, Overlap, GivesReasons, SortedKeys;
    var localDelta := DeltaChangeSet(local, base);
    var remoteDelta := DeltaChangeSet(remote, base);
    DeltasDisjointExactly(local, remote, base);
    DeletionsNeverConflict(local, remote, base);
    var preview :- MergePreviewPlain(ConservativeV1, localDelta, remoteDelta, NO_CONFLICT, nowMs);
    if mode.ConservativeV1? {
      RefusalNamesTheWorstFlag(preview, ConservativeV1, localDelta, remoteDelta, NO_CONFLICT);
      return EnsureMergeSafe(preview);
    }
    NormalIsIdempotent(localDelta);
    NormalIsIdempotent(remoteDelta);
    NormalKeepsMeaning(localDelta, remoteDelta);
    var name := if mode.ConservativePlusV2? then "conservative_plus_v2"
                else if mode.ConservativePlusV3? then "conservative_plus_v3" else "conservative_plus_v4";
    NameOfMode(mode, name);
    var second := MergePreviewWithPolicyV2(preview.local, preview.remote, NO_CONFLICT, name, nowMs);
    var again := second.value;
    RefusalNamesTheWorstFlag(again, mode, preview.local, preview.remote, NO_CONFLICT);
    return EnsureMergeSafe(again);
  }

  lemma NameOfMode(mode: MergePolicy, name: string)
    requires !mode.ConservativeV1?
    requires name == if mode.ConservativePlusV2? then "conservative_plus_v2"
                     else if mode.ConservativePlusV3? then "conservative_plus_v3" else "conservative_plus_v4"
    ensures PolicyOfName(name) == Some(mode)
  {
    assert "conservative_plus_v2"[19] == '2' && "conservative_plus_v3"[19] == '3' && "conservative_plus_v4"[19] == '4';
  }

  lemma DeltasDisjointExactly(local: ChangeSet, remote: ChangeSet, base: ChangeSet)
    ensures Disjoint(DeltaChangeSet(local, base), DeltaChangeSet(remote, base)) <==> ShareOnlyBase(local, remote, base)
  {
    var l, r := DeltaChangeSet(local, base), DeltaChangeSet(remote, base);
    assert forall x :: x in Elements(l.objects) <==> x in local.objects && x !in base.objects;
    assert forall x :: x in Elements(r.objects) <==> x in remote.objects && x !in base.objects;
    assert forall x :: x in Elements(l.overlays) <==> x in local.overlays && x !in base.overlays;
    assert forall x :: x in Elements(r.overlays) <==> x in remote.overlays && x !in base.overlays;
    assert forall x :: x in l.objects && x in r.objects <==> x in Elements(local.objects) * Elements(remote.objects) && x !in base.objects;
    assert forall x :: x in l.overlays && x in r.overlays <==> x in Elements(local.overlays) * Elements(remote.overlays) && x !in base.overlays;
  }
}
