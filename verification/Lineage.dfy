/** Edit leases on documents and the overlay edits they guard (lineage.rs). */
module Lineage {
  import opened Outcomes
  import opened Text
  import opened Hashing
  import opened LineagePolicy
  import Events

  const LEASE_MS := 15 * 60 * 1000
  const WRITE_ACTION := "lineage.overlay.write"

  datatype Lease = Lease(owner: string, token: string, acquiredAtMs: int, expiresAtMs: int)

  datatype Overlay = Overlay(
    docId: string,
    fromNodeId: string,
    toNodeId: string,
    relation: string,
    evidence: string,
    createdAtMs: int,
    createdBy: string)

  /** The documents, the one lease row of each, the overlays by id, and the policy tables. */
  datatype Db = Db(docs: set<string>, locks: map<string, Lease>, overlays: map<string, Overlay>, tables: Tables)

  function LockFrame(doc: string, owner: string, nowMs: int): string {
    "kc.lineage.lock.v1\n" + doc + "\n" + owner + "\n" + Decimal(nowMs)
  }

  function LockTokenFor(h: Hasher, doc: string, owner: string, nowMs: int): string {
    h(LockFrame(doc, owner, nowMs))
  }

  function OverlayFrame(o: Overlay): string {
    "kc.lineage.overlay.v1\n" + o.docId + "\n" + o.fromNodeId + "\n" + o.toNodeId + "\n" + o.relation + "\n" + o.evidence
  }

  function OverlayIdFor(h: Hasher, o: Overlay): string {
    h(OverlayFrame(o))
  }

  predicate Live(lease: Lease, nowMs: int) {
    lease.acquiredAtMs <= nowMs < lease.expiresAtMs
  }

  function Acquire(h: Hasher, db: Db, doc: string, owner: string, nowMs: int): Result<Lease, LineageError> {
    if Blank(doc) || Blank(owner) then Err(LockInvalid)
    else if doc in db.locks && db.locks[doc].expiresAtMs > nowMs then Err(LockHeld)
    else if doc !in db.docs then Err(QueryFailed)
    else Ok(Lease(owner, LockTokenFor(h, doc, owner, nowMs), nowMs, nowMs + LEASE_MS))
  }

  predicate MayRelease(db: Db, doc: string, token: string) {
    doc in db.locks && db.locks[doc].token == token
  }

  function ValidLock(db: Db, doc: string, token: string, nowMs: int): Result<Lease, LineageError> {
    if doc !in db.locks then Err(LockInvalid)
    else if db.locks[doc].expiresAtMs <= nowMs then Err(LockExpired)
    else if db.locks[doc].token != token then Err(LockInvalid)
    else Ok(db.locks[doc])
  }

  predicate HasBlankField(o: Overlay) {
    Blank(o.docId) || Blank(o.fromNodeId) || Blank(o.toNodeId) || Blank(o.relation) || Blank(o.evidence) || Blank(o.createdBy)
  }

  predicate SameEdge(a: Overlay, b: Overlay) {
    a.(createdAtMs := 0, createdBy := "") == b.(createdAtMs := 0, createdBy := "")
  }

  /** permitted: the subjects whose role allows overlay writes at this moment; select: the rows the policy query gives a subject. */
  ghost function MayWrite(permitted: set<string>, select: string -> seq<Policy>, subject: string, doc: string): Result<(), LineageError> {
    if subject !in permitted then Err(PermissionDenied) else PolicyVerdict(select(subject), subject, WRITE_ACTION, Some(doc))
  }

  ghost function AddOverlay(h: Hasher, db: Db, select: string -> seq<Policy>, permitted: set<string>, token: string, o: Overlay): Result<string, LineageError> {
    if HasBlankField(o) then Err(OverlayInvalid)
    else
      var _ :- ValidLock(db, o.docId, token, o.createdAtMs);
      var _ :- MayWrite(permitted, select, o.createdBy, o.docId);
      var id := OverlayIdFor(h, o);
      if id !in db.overlays then Ok(id)
      else if SameEdge(db.overlays[id], o) then Err(OverlayConflict)
      else Err(QueryFailed)
  }

  ghost function RemoveOverlay(db: Db, select: string -> seq<Policy>, permitted: set<string>, token: string, id: string, nowMs: int): Result<(), LineageError> {
    if id !in db.overlays then Err(OverlayNotFound)
    else
      var doc := db.overlays[id].docId;
      var lease :- ValidLock(db, doc, token, nowMs);
      MayWrite(permitted, select, lease.owner, doc)
  }

  class LineageDb {
    var docs: set<string>
    var locks: map<string, Lease>
    var overlays: map<string, Overlay>
    const policies: PolicyStore

    function State(): Db
      reads this, policies
    {
      Db(docs, locks, overlays, policies.tables)
    }

    constructor (policies: PolicyStore)
      ensures State() == Db({}, map[], map[], policies.tables)
    {
      docs, locks, overlays := {}, map[], map[];
      this.policies := policies;
    }

    method LockAcquire(h: Hasher, doc: string, owner: string, nowMs: int) returns (r: Result<Lease, LineageError>)
      modifies this`locks
      ensures r == Acquire(h, old(State()), doc, owner, nowMs)
      ensures r.Ok? <==>
        !Blank(doc) && !Blank(owner) && doc in docs && (doc in old(locks) ==> old(locks)[doc].expiresAtMs <= nowMs)
      ensures r.Ok? ==> r.value.owner == owner && r.value.acquiredAtMs == nowMs && r.value.expiresAtMs == nowMs + 900000
      ensures r == Err(LockHeld) <==> !Blank(doc) && !Blank(owner) && doc in old(locks) && old(locks)[doc].expiresAtMs > nowMs
      ensures locks == if r.Ok? then old(locks)[doc := r.value] else old(locks)
    {
      if Blank(doc) || Blank(owner) {
        return Err(LockInvalid);
      }
      if doc in locks {
        var lock := locks[doc];
        if lock.expiresAtMs > nowMs {
          return Err(LockHeld);
        }
      }
      var lease := Lease(owner, LockTokenFor(h, doc, owner, nowMs), nowMs, nowMs + LEASE_MS);
      if doc !in docs {
        return Err(QueryFailed);
      }
      locks := locks[doc := lease];
      return Ok(lease);
    }

    method LockRelease(doc: string, token: string) returns (r: Result<(), LineageError>)
      modifies this`locks
      ensures r == if doc in old(locks) && old(locks)[doc].token == token then Ok(()) else Err(LockInvalid)
      ensures locks == if r.Ok? then old(locks) - {doc} else old(locks)
    {
      if doc !in locks || locks[doc].token != token {
        return Err(LockInvalid);
      }
      locks := locks - {doc};
      return Ok(());
    }

    method RequireValidLock(doc: string, token: string, nowMs: int) returns (r: Result<Lease, LineageError>)
      ensures r == ValidLock(State(), doc, token, nowMs)
      ensures r.Ok? <==> doc in locks && locks[doc].token == token && nowMs < locks[doc].expiresAtMs
      ensures r == Err(LockExpired) <==> doc in locks && locks[doc].expiresAtMs <= nowMs
    {
      if doc !in locks {
        return Err(LockInvalid);
      }
      var lock := locks[doc];
      var held := lock.expiresAtMs > nowMs;
      if !held {
        return Err(LockExpired);
      }
      return if lock.token == token then Ok(lock) else Err(LockInvalid);
    }

    /** select answers the policy query, whatever the rows hold. */
    method OverlayAdd(h: Hasher, select: string -> seq<Policy>, permitted: set<string>, token: string, o: Overlay)
      returns (r: Result<string, LineageError>)
      modifies this`overlays, policies`audit
      ensures r == AddOverlay(h, old(State()), select, permitted, token, o)
      ensures overlays == if r.Ok? then old(overlays)[r.value := o] else old(overlays)
    {
      hide PolicyVerdict, Blank;
      if HasBlankField(o) {
        return Err(OverlayInvalid);
      }
      var lock :- RequireValidLock(o.docId, token, o.createdAtMs);
      if o.createdBy !in permitted {
        return Err(PermissionDenied);
      }
      var _ :- policies.EnsureLineagePolicyAllows(select(o.createdBy), o.createdBy, WRITE_ACTION, Some(o.docId), o.createdAtMs);
      var id := OverlayIdFor(h, o);
      if id in overlays {
        return Err(if SameEdge(overlays[id], o) then OverlayConflict else QueryFailed);
      }
      overlays := overlays[id := o];
      return Ok(id);
    }

    method OverlayRemove(select: string -> seq<Policy>, permitted: set<string>, token: string, id: string, nowMs: int)
      returns (r: Result<(), LineageError>)
      modifies this`overlays, policies`audit
      ensures r == RemoveOverlay(old(State()), select, permitted, token, id, nowMs)
      ensures overlays == if r.Ok? then old(overlays) - {id} else old(overlays)
    {
      hide PolicyVerdict;
      if id !in overlays {
        return Err(OverlayNotFound);
      }
      var doc := overlays[id].docId;
      var lock :- RequireValidLock(doc, token, nowMs);
      if lock.owner !in permitted {
        return Err(PermissionDenied);
      }
      var _ :- policies.EnsureLineagePolicyAllows(select(lock.owner), lock.owner, WRITE_ACTION, Some(doc), nowMs);
      overlays := overlays - {id};
      return Ok(());
    }
  }

  /** An add looks at who is said to have created the overlay, never at who holds the lease. */
  lemma AddIgnoresLeaseOwner(h: Hasher, db: Db, select: string -> seq<Policy>, permitted: set<string>, token: string, o: Overlay, owner: string)
    requires o.docId in db.locks
    ensures var other := db.(locks := db.locks[o.docId := db.locks[o.docId].(owner := owner)]);
      AddOverlay(h, other, select, permitted, token, o) == AddOverlay(h, db, select, permitted, token, o)
  {
    hide PolicyVerdict, HasBlankField;
  }

  /** Everything an added overlay needs, and nothing else. */
  lemma AddedExactly(h: Hasher, db: Db, select: string -> seq<Policy>, permitted: set<string>, token: string, o: Overlay)
    ensures AddOverlay(h, db, select, permitted, token, o).Ok? <==>
      !Blank(o.docId) && !Blank(o.fromNodeId) && !Blank(o.toNodeId) && !Blank(o.relation) && !Blank(o.evidence) && !Blank(o.createdBy)
      && o.docId in db.locks && db.locks[o.docId].token == token && o.createdAtMs < db.locks[o.docId].expiresAtMs
      && o.createdBy in permitted
      && PolicyVerdict(select(o.createdBy), o.createdBy, "lineage.overlay.write", Some(o.docId)).Ok?
      && OverlayIdFor(h, o) !in db.overlays
    ensures
      !HasBlankField(o) && ValidLock(db, o.docId, token, o.createdAtMs).Ok? && MayWrite(permitted, select, o.createdBy, o.docId).Ok?
      && OverlayIdFor(h, o) in db.overlays ==>
        var there := db.overlays[OverlayIdFor(h, o)];
        AddOverlay(h, db, select, permitted, token, o) ==
        Err(if there.docId == o.docId && there.fromNodeId == o.fromNodeId && there.toNodeId == o.toNodeId
               && there.relation == o.relation && there.evidence == o.evidence then OverlayConflict else QueryFailed)
  {
    hide PolicyVerdict, Blank, OverlayIdFor;
    PolicyNeverConflicts(select(o.createdBy), o.createdBy, Some(o.docId));
  }

  lemma PolicyNeverConflicts(rows: seq<Policy>, subject: string, doc: Option<string>)
    ensures PolicyVerdict(rows, subject, WRITE_ACTION, doc) != Err(OverlayConflict)
  {
    hide Blank, FirstUnreadable, DecisionOf;
    UnreadableExactly(rows);
  }

  /** Everything a removal needs, and nothing else: the subject is whoever owns the lease. */
  lemma RemovedExactly(db: Db, select: string -> seq<Policy>, permitted: set<string>, token: string, id: string, nowMs: int)
    ensures RemoveOverlay(db, select, permitted, token, id, nowMs).Ok? <==>
      id in db.overlays
      && (var doc := db.overlays[id].docId;
          doc in db.locks && db.locks[doc].token == token && nowMs < db.locks[doc].expiresAtMs
          && db.locks[doc].owner in permitted
          && PolicyVerdict(select(db.locks[doc].owner), db.locks[doc].owner, "lineage.overlay.write", Some(doc)).Ok?)
  {
    hide PolicyVerdict;
  }

  /** Where no field holds a newline an overlay id stands for one document and one edge, and a token for one lease, short of a collision. */
  lemma OverlayIdIdentifies(h: Hasher, a: Overlay, b: Overlay)
    requires OneLine(a) && OneLine(b) && OverlayIdFor(h, a) == OverlayIdFor(h, b)
    requires h(OverlayFrame(a)) == h(OverlayFrame(b)) ==> OverlayFrame(a) == OverlayFrame(b)
    ensures a.docId == b.docId && a.fromNodeId == b.fromNodeId && a.toNodeId == b.toNodeId && a.relation == b.relation && a.evidence == b.evidence
  {
    hide NoNewline;
    var tag := "kc.lineage.overlay.v1\n";
    var headA, headB := tag + a.docId, tag + b.docId;
    Events.SplitLast(headA + "\n" + a.fromNodeId + "\n" + a.toNodeId + "\n" + a.relation, a.evidence,
                     headB + "\n" + b.fromNodeId + "\n" + b.toNodeId + "\n" + b.relation, b.evidence);
    Events.SplitLast(headA + "\n" + a.fromNodeId + "\n" + a.toNodeId, a.relation, headB + "\n" + b.fromNodeId + "\n" + b.toNodeId, b.relation);
    Events.SplitLast(headA + "\n" + a.fromNodeId, a.toNodeId, headB + "\n" + b.fromNodeId, b.toNodeId);
    Events.SplitLast(headA, a.fromNodeId, headB, b.fromNodeId);
    assert headA[|tag|..] == a.docId && headB[|tag|..] == b.docId;
  }

  predicate OneLine(o: Overlay) {
    NoNewline(o.fromNodeId) && NoNewline(o.toNodeId) && NoNewline(o.relation) && NoNewline(o.evidence)
  }

  lemma TokenIdentifies(h: Hasher, docA: string, ownerA: string, nowA: int, docB: string, ownerB: string, nowB: int)
    requires NoNewline(ownerA) && NoNewline(ownerB) && LockTokenFor(h, docA, ownerA, nowA) == LockTokenFor(h, docB, ownerB, nowB)
    requires h(LockFrame(docA, ownerA, nowA)) == h(LockFrame(docB, ownerB, nowB)) ==> LockFrame(docA, ownerA, nowA) == LockFrame(docB, ownerB, nowB)
    ensures docA == docB && ownerA == ownerB && nowA == nowB
  {
    hide NoNewline, Decimal;
    var tag := "kc.lineage.lock.v1\n";
    Events.DecimalHasNoNewline(nowA);
    Events.DecimalHasNoNewline(nowB);
    Events.SplitLast(tag + docA + "\n" + ownerA, Decimal(nowA), tag + docB + "\n" + ownerB, Decimal(nowB));
    DecimalInjective(nowA, nowB);
    Events.SplitLast(tag + docA, ownerA, tag + docB, ownerB);
    assert (tag + docA)[|tag|..] == docA && (tag + docB)[|tag|..] == docB;
  }

  // ---- Runs ----

  datatype Step =
    | AcquireStep(doc: string, owner: string, nowMs: int)
    | ReleaseStep(doc: string, token: string, nowMs: int)
    | AddStep(select: string -> seq<Policy>, permitted: set<string>, token: string, overlay: Overlay)
    | RemoveStep(select: string -> seq<Policy>, permitted: set<string>, token: string, id: string, nowMs: int)
    | PolicyStep(tables: Tables, nowMs: int)
    | DocumentStep(doc: string, nowMs: int)

  function TimeOf(step: Step): int {
    if step.AddStep? then step.overlay.createdAtMs else step.nowMs
  }

  ghost function After(h: Hasher, db: Db, step: Step): Db {
    match step
    case AcquireStep(doc, owner, nowMs) =>
      var lease := Acquire(h, db, doc, owner, nowMs);
      if lease.Ok? then db.(locks := db.locks[doc := lease.value]) else db
    case ReleaseStep(doc, token, _) =>
      if MayRelease(db, doc, token) then db.(locks := db.locks - {doc}) else db
    case AddStep(select, permitted, token, o) =>
      var id := AddOverlay(h, db, select, permitted, token, o);
      if id.Ok? then db.(overlays := db.overlays[id.value := o]) else db
    case RemoveStep(select, permitted, token, id, nowMs) =>
      if RemoveOverlay(db, select, permitted, token, id, nowMs).Ok? then db.(overlays := db.overlays - {id}) else db
    case PolicyStep(tables, _) => db.(tables := tables)
    case DocumentStep(doc, _) => db.(docs := db.docs + {doc})
  }

  /** The policy query of a step answers with the rows of the tables as they are then, in some order. */
  ghost predicate QueriesTables(db: Db, step: Step) {
    match step
    case AddStep(select, _, _, _) => forall s :: Selects(db.tables, s, select(s))
    case RemoveStep(select, _, _, _, _) => forall s :: Selects(db.tables, s, select(s))
    case _ => true
  }

  /** A run from empty tables whose clock never goes back. Policies, well formed or not, and permissions change freely. */
  ghost predicate Runs(h: Hasher, states: seq<Db>, steps: seq<Step>) {
    |states| == |steps| + 1
    && states[0].locks == map[] && states[0].overlays == map[]
    && (forall i :: 0 <= i < |steps| ==> states[i + 1] == After(h, states[i], steps[i]) && QueriesTables(states[i], steps[i]))
    && (forall i, j :: 0 <= i < j < |steps| ==> TimeOf(steps[i]) <= TimeOf(steps[j]))
  }

  /** Step i hands out this lease. */
  ghost predicate Grants(h: Hasher, states: seq<Db>, steps: seq<Step>, i: nat, doc: string, lease: Lease) {
    i < |steps| && i < |states|
    && steps[i].AcquireStep? && steps[i].doc == doc
    && Acquire(h, states[i], doc, steps[i].owner, steps[i].nowMs) == Ok(lease)
  }

  /** Between steps i and j the lease that step i handed out was given back. */
  ghost predicate ReleasedBetween(states: seq<Db>, steps: seq<Step>, i: nat, j: nat, doc: string, lease: Lease) {
    exists k :: i < k < j && k < |steps| && k < |states|
      && steps[k].ReleaseStep? && steps[k].doc == doc && steps[k].token == lease.token && MayRelease(states[k], doc, lease.token)
  }

  ghost predicate ExpiredBetween(steps: seq<Step>, i: nat, j: nat, lease: Lease) {
    exists k :: i < k < j && k < |steps| && lease.expiresAtMs <= TimeOf(steps[k])
  }

  /** Only an accepted acquire or release of a document touches its lease row. */
  lemma StepOnRow(h: Hasher, db: Db, step: Step, doc: string)
    ensures var after := After(h, db, step).locks;
      if step.AcquireStep? && step.doc == doc && Acquire(h, db, doc, step.owner, step.nowMs).Ok?
      then doc in after && after[doc] == Acquire(h, db, doc, step.owner, step.nowMs).value
      else if step.ReleaseStep? && step.doc == doc && MayRelease(db, doc, step.token) then doc !in after
      else (doc in after <==> doc in db.locks) && (doc in after ==> after[doc] == db.locks[doc])
  {
    hide AddOverlay, RemoveOverlay, Acquire, MayRelease;
  }

  /** A lease stays in its row until it is given back or its time is over. */
  lemma {:induction false} LeaseFate(h: Hasher, states: seq<Db>, steps: seq<Step>, i: nat, j: nat, doc: string, lease: Lease)
    requires Runs(h, states, steps) && Grants(h, states, steps, i, doc, lease) && i < j < |states|
    ensures (doc in states[j].locks && states[j].locks[doc] == lease)
         || ReleasedBetween(states, steps, i, j, doc, lease)
         || ExpiredBetween(steps, i, j, lease)
    decreases j
  {
    hide After, LockTokenFor, Blank;
    assert states[j] == After(h, states[j - 1], steps[j - 1]);
    StepOnRow(h, states[j - 1], steps[j - 1], doc);
    if j > i + 1 {
      LeaseFate(h, states, steps, i, j - 1, doc, lease);
      if ReleasedBetween(states, steps, i, j - 1, doc, lease) {
        assert ReleasedBetween(states, steps, i, j, doc, lease);
      } else if ExpiredBetween(steps, i, j - 1, lease) {
        assert ExpiredBetween(steps, i, j, lease);
      } else {
        var step := steps[j - 1];
        if step.ReleaseStep? && step.doc == doc && MayRelease(states[j - 1], doc, step.token) {
          assert ReleasedBetween(states, steps, i, j, doc, lease);
        }
        if step.AcquireStep? && step.doc == doc && Acquire(h, states[j - 1], doc, step.owner, step.nowMs).Ok? {
          assert ExpiredBetween(steps, i, j, lease);
        }
      }
    }
  }

  /** No two leases of a document that are both not given back are ever live at the same time. */
  lemma LeasesAreExclusive(h: Hasher, states: seq<Db>, steps: seq<Step>, i: nat, j: nat, doc: string, a: Lease, b: Lease, nowMs: int)
    requires Runs(h, states, steps) && i < j
    requires Grants(h, states, steps, i, doc, a) && Grants(h, states, steps, j, doc, b)
    requires !ReleasedBetween(states, steps, i, j, doc, a)
    ensures !(Live(a, nowMs) && Live(b, nowMs))
  {
    LeaseFate(h, states, steps, i, j, doc, a);
  }

  /** Step i handed out this lease, and before step k nobody gave it back. */
  ghost predicate Holds(h: Hasher, states: seq<Db>, steps: seq<Step>, i: nat, k: nat, doc: string, lease: Lease) {
    i < k && Grants(h, states, steps, i, doc, lease) && !ReleasedBetween(states, steps, i, k, doc, lease)
  }

  /** Every lease row was handed out by an earlier step and not given back since. */
  lemma {:induction false} RowWasGranted(h: Hasher, states: seq<Db>, steps: seq<Step>, k: nat, doc: string)
    requires Runs(h, states, steps) && k < |states| && doc in states[k].locks
    ensures exists i: nat :: Holds(h, states, steps, i, k, doc, states[k].locks[doc])
  {
    hide After, Blank, Acquire;
    var lease := states[k].locks[doc];
    assert states[k] == After(h, states[k - 1], steps[k - 1]);
    StepOnRow(h, states[k - 1], steps[k - 1], doc);
    var step := steps[k - 1];
    if step.AcquireStep? && step.doc == doc && Acquire(h, states[k - 1], doc, step.owner, step.nowMs).Ok? {
      assert Holds(h, states, steps, k - 1, k, doc, lease);
    } else {
      RowWasGranted(h, states, steps, k - 1, doc);
      var i: nat :| Holds(h, states, steps, i, k - 1, doc, lease);
      assert Holds(h, states, steps, i, k, doc, lease);
    }
  }

  /** At step k the token of a lease that is held and live was presented. */
  ghost predicate EditsInside(h: Hasher, states: seq<Db>, steps: seq<Step>, k: nat, i: nat, doc: string, token: string, lease: Lease) {
    k < |steps| && Holds(h, states, steps, i, k, doc, lease)
    && Live(lease, TimeOf(steps[k])) && token == lease.token
  }

  lemma ValidLockIsALiveLease(h: Hasher, states: seq<Db>, steps: seq<Step>, k: nat, doc: string, token: string)
    requires Runs(h, states, steps) && k < |steps|
    requires ValidLock(states[k], doc, token, TimeOf(steps[k])).Ok?
    ensures exists i: nat :: EditsInside(h, states, steps, k, i, doc, token, states[k].locks[doc])
  {
    RowWasGranted(h, states, steps, k, doc);
    var lease := states[k].locks[doc];
    var i: nat :| Holds(h, states, steps, i, k, doc, lease);
    assert TimeOf(steps[i]) <= TimeOf(steps[k]);
    assert EditsInside(h, states, steps, k, i, doc, token, lease);
  }

  /** Every overlay that appears was added, alone, inside a live lease, for a creator the policies allowed. */
  lemma InsertionsAreGuarded(h: Hasher, states: seq<Db>, steps: seq<Step>, k: nat, id: string)
    requires Runs(h, states, steps) && k < |steps|
    requires id in states[k + 1].overlays && (id !in states[k].overlays || states[k].overlays[id] != states[k + 1].overlays[id])
    ensures id !in states[k].overlays && states[k + 1].overlays == states[k].overlays[id := states[k + 1].overlays[id]]
    ensures var o := states[k + 1].overlays[id];
      steps[k].AddStep? && steps[k].overlay == o && id == OverlayIdFor(h, o)
      && o.createdBy in steps[k].permitted && Allowed(states[k].tables, o.createdBy, WRITE_ACTION, Some(o.docId))
      && o.docId in states[k].locks
      && exists i: nat :: EditsInside(h, states, steps, k, i, o.docId, steps[k].token, states[k].locks[o.docId])
  {
    hide HasBlankField, Blank, Allowed, SomeBoundMatches, PolicyVerdict, Selects, AllBoundReadable;
    assert states[k + 1] == After(h, states[k], steps[k]);
    assert steps[k].AddStep?;
    var o := steps[k].overlay;
    VerdictIsDenyOverrides(states[k].tables, steps[k].select(o.createdBy), o.createdBy, WRITE_ACTION, Some(o.docId));
    ValidLockIsALiveLease(h, states, steps, k, o.docId, steps[k].token);
  }

  /** Every overlay that disappears was removed, alone, inside a live lease, whose owner the policies allowed. */
  lemma RemovalsAreGuarded(h: Hasher, states: seq<Db>, steps: seq<Step>, k: nat, id: string)
    requires Runs(h, states, steps) && k < |steps|
    requires id in states[k].overlays && id !in states[k + 1].overlays
    ensures states[k + 1].overlays == states[k].overlays - {id}
    ensures var doc := states[k].overlays[id].docId;
      steps[k].RemoveStep? && doc in states[k].locks
      && states[k].locks[doc].owner in steps[k].permitted
      && Allowed(states[k].tables, states[k].locks[doc].owner, WRITE_ACTION, Some(doc))
      && exists i: nat :: EditsInside(h, states, steps, k, i, doc, steps[k].token, states[k].locks[doc])
  {
    hide Blank, Allowed, SomeBoundMatches, AddOverlay, PolicyVerdict, Selects, AllBoundReadable;
    assert states[k + 1] == After(h, states[k], steps[k]);
    assert steps[k].RemoveStep?;
    var doc := states[k].overlays[id].docId;
    var owner := states[k].locks[doc].owner;
    VerdictIsDenyOverrides(states[k].tables, steps[k].select(owner), owner, WRITE_ACTION, Some(doc));
    ValidLockIsALiveLease(h, states, steps, k, states[k].overlays[id].docId, steps[k].token);
  }
}
