/** Whole runs of the lifecycle store: what every sequence of appends keeps (document_lifecycle.rs). */
module LifecycleRuns {
  import opened Outcomes
  import opened Text
  import opened Hashing
  import opened CanonJson
  import opened JsonReader
  import opened Events
  import opened LifecycleRecords
  import opened LifecycleResolver
  import opened LifecycleStore

  // ---- One accepted append ----

  lemma ActiveHashIsDigest(canonical: CanonicalText, byDoc: ByDoc, doc: string)
    requires ActiveHash(canonical, byDoc, doc).Ok?
    ensures doc !in byDoc && doc in canonical
    ensures ActiveHash(canonical, byDoc, doc).value == canonical[doc] && ValidDigest(canonical[doc])
  {
    hide Resolve, ValidDigest;
    ActiveMeansNoEvent(byDoc, doc);
  }

  predicate IsActiveReplacement(canonical: CanonicalText, byDoc: ByDoc, p: Payload)
    requires p.replacementDocId.Some?
  {
    var doc := p.replacementDocId.value;
    doc !in byDoc && doc != p.docId && doc in canonical && Some(canonical[doc]) == p.replacementCanonicalHash
  }

  /** An accepted payload meets the reader's contract in everything but, possibly, the length of the subject. */
  lemma AcceptedPayload(h: Hasher, canonical: CanonicalText, rows: seq<EventRecord>, request: Request,
                        isUuid: string -> bool, caller: Caller, record: EventRecord)
    requires AppendVerdict(h, canonical, rows, request, isUuid, caller).Ok?
    ensures Load(h, canonical, rows).Ok? && caller.subject.Some?
    ensures var byDoc, p := Load(h, canonical, rows).value, AppendVerdict(h, canonical, rows, request, isUuid, caller).value;
      && p.docId == request.docId && p.docId !in byDoc && p.docId in canonical && canonical[p.docId] == p.docCanonicalHash
      && p.action == request.action && p.replacementDocId == request.replacementDocId
      && p.subjectId == caller.subject.value && p.effectiveAtMs == request.effectiveAtMs
      && ReplacementFits(p)
      && (p.replacementDocId.Some? ==> IsActiveReplacement(canonical, byDoc, p))
      && (record.eventType == EventTypeFor(p.action) && record.tsMs == p.effectiveAtMs ==>
            (HonoursContract(p, record) <==> |p.subjectId| <= MAX_SUBJECT_CHARS))
  {
    hide Load, ActiveHash, ValidDigest, Blank, EventTypeFor;
    var byDoc := Load(h, canonical, rows).value;
    ActiveHashIsDigest(canonical, byDoc, request.docId);
    if request.replacementDocId.Some? {
      ActiveHashIsDigest(canonical, byDoc, request.replacementDocId.value);
    }
  }

  /**
   * After an accepted append the chain still verifies, and the table loads to the old map plus exactly the new event
   * if and only if the subject has at most 200 characters: the writer checks everything the reader does but that.
   */
  lemma AcceptedAppendReloads(h: Hasher, canonical: CanonicalText, rows: seq<EventRecord>, request: Request,
                              isUuid: string -> bool, caller: Caller, eventId: int)
    requires AppendVerdict(h, canonical, rows, request, isUuid, caller).Ok?
    ensures Load(h, canonical, rows).Ok? && caller.subject.Some?
    ensures var byDoc, payload := Load(h, canonical, rows).value, AppendVerdict(h, canonical, rows, request, isUuid, caller).value;
      var record := WrittenRecord(h, rows, eventId, payload);
      && request.docId !in byDoc
      && ChainVerifies(h, rows + [record])
      && EventFromRecord(h, record).Ok? == (|caller.subject.value| <= 200)
      && Load(h, canonical, rows + [record]) ==
           if |caller.subject.value| <= 200
           then Ok(byDoc[request.docId := [PublicEvent(h, payload, record)]])
           else Err(Corrupt)
  {
    hide AppendVerdict, ChainVerifies, LoadRecord, LoadRecords, Canonical, PublicEvent, EncodePayload, FloatFree;
    var payload := AppendVerdict(h, canonical, rows, request, isUuid, caller).value;
    var record := WrittenRecord(h, rows, eventId, payload);
    AcceptedPayload(h, canonical, rows, request, isUuid, caller, record);
    AcceptedRecordLoads(h, canonical, rows, request, isUuid, caller, record);
    PayloadReadsBack(payload);
    AppendKeepsChain(h, rows, eventId, payload.effectiveAtMs, EventTypeFor(payload.action), EncodePayload(payload));
    LoadsOneMore(h, canonical, rows, record);
  }

  lemma LoadsOneMore(h: Hasher, canonical: CanonicalText, rows: seq<EventRecord>, record: EventRecord)
    requires LoadRecords(h, canonical, rows).Ok?
    ensures LoadRecords(h, canonical, rows + [record]) == LoadRecord(h, canonical, LoadRecords(h, canonical, rows).value, record)
  {
    var all := rows + [record];
    assert all[..|all| - 1] == rows && all[|all| - 1] == record;
  }

  lemma AcceptedRecordLoads(h: Hasher, canonical: CanonicalText, rows: seq<EventRecord>, request: Request,
                            isUuid: string -> bool, caller: Caller, record: EventRecord)
    requires AppendVerdict(h, canonical, rows, request, isUuid, caller).Ok?
    requires Load(h, canonical, rows).Ok?
    requires var p := AppendVerdict(h, canonical, rows, request, isUuid, caller).value;
      record.payloadJson == Canonical(EncodePayload(p)) && record.eventType == EventTypeFor(p.action) && record.tsMs == p.effectiveAtMs
    ensures EventFromRecord(h, record).Ok? == (|caller.subject.value| <= 200)
    ensures LoadRecord(h, canonical, Load(h, canonical, rows).value, record) ==
      if |caller.subject.value| <= MAX_SUBJECT_CHARS
      then Ok(Load(h, canonical, rows).value[request.docId :=
                [PublicEvent(h, AppendVerdict(h, canonical, rows, request, isUuid, caller).value, record)]])
      else Err(Corrupt)
  {
    hide AppendVerdict, Load, HonoursContract, EventFromRecord, Canonical, PublicEvent, EncodePayload, ValidDigest, EventTypeFor;
    var p := AppendVerdict(h, canonical, rows, request, isUuid, caller).value;
    AcceptedPayload(h, canonical, rows, request, isUuid, caller, record);
    WrittenRecordReadsBack(h, p, record);
    HashIsDigest(h, canonical, rows, request, isUuid, caller);
    assert CheckUnchanged(canonical, p.docId, p.docCanonicalHash) == Ok(());
    if p.replacementDocId.Some? {
      assert p.replacementCanonicalHash.Some?;
      assert CheckUnchanged(canonical, p.replacementDocId.value, p.replacementCanonicalHash.value) == Ok(());
    }
    var event := PublicEvent(h, p, record);
    assert [] + [event] == [event];
    assert EventsOf(Load(h, canonical, rows).value, p.docId) == [];
  }

  lemma HashIsDigest(h: Hasher, canonical: CanonicalText, rows: seq<EventRecord>, request: Request,
                     isUuid: string -> bool, caller: Caller)
    requires AppendVerdict(h, canonical, rows, request, isUuid, caller).Ok?
    ensures ValidDigest(AppendVerdict(h, canonical, rows, request, isUuid, caller).value.docCanonicalHash)
  {
    hide Load, ActiveHash, ValidDigest;
    ActiveHashIsDigest(canonical, Load(h, canonical, rows).value, request.docId);
  }

  // ---- Runs ----

  datatype State = State(rows: seq<EventRecord>, lastId: int, canonical: CanonicalText)

  datatype Step =
    | AppendLifecycle(request: Request, caller: Caller)
    | AppendOther(tsMs: int, eventType: string, payload: Value)
    | RecordCanonicalText(doc: string, hash: string)

  /**
   * One transaction: an accepted lifecycle append, any other owner event, or any document's canonical text, new or
   * recorded again. Refused requests change nothing and are left out.
   */
  ghost predicate Moves(h: Hasher, isUuid: string -> bool, s: State, step: Step, t: State) {
    match step
    case AppendLifecycle(request, caller) =>
      var verdict := AppendVerdict(h, s.canonical, s.rows, request, isUuid, caller);
      verdict.Ok? && t == State(s.rows + [WrittenRecord(h, s.rows, s.lastId + 1, verdict.value)], s.lastId + 1, s.canonical)
    case AppendOther(tsMs, eventType, payload) =>
      !IsLifecycleType(eventType) && FloatFree(payload)
      && t == State(s.rows + [NewRecord(h, s.rows, s.lastId + 1, tsMs, eventType, Canonical(payload))], s.lastId + 1, s.canonical)
    case RecordCanonicalText(doc, hash) => t == s.(canonical := s.canonical[doc := hash])
  }

  ghost predicate Run(h: Hasher, isUuid: string -> bool, states: seq<State>, steps: seq<Step>) {
    |states| == |steps| + 1
    && states[0].rows == []
    && forall i :: 0 <= i < |steps| ==> Moves(h, isUuid, states[i], steps[i], states[i + 1])
  }

  /** Event ids grow along every supersession, and the table hands out larger ones. */
  ghost predicate Ranked(byDoc: ByDoc, lastId: int) {
    (forall d :: d in byDoc && |byDoc[d]| == 1 ==> byDoc[d][0].eventId <= lastId)
    && forall d :: d in byDoc && Next(byDoc, d).Some? ==> RankedBefore(byDoc, d, Next(byDoc, d).value)
  }

  ghost predicate RankedBefore(byDoc: ByDoc, d: string, next: string)
    requires d in byDoc && |byDoc[d]| == 1
  {
    next in byDoc && |byDoc[next]| == 1 ==> byDoc[d][0].eventId < byDoc[next][0].eventId
  }

  // ---- What the rows file, whatever the canonical table says ----

  ghost function FileRecord(h: Hasher, byDoc: ByDoc, record: EventRecord): Result<ByDoc, LifecycleError> {
    var read :- EventFromRecord(h, record);
    if read.None? then Ok(byDoc)
    else
      var (payload, event) := read.value;
      Ok(byDoc[payload.docId := EventsOf(byDoc, payload.docId) + [event]])
  }

  ghost function Filed(h: Hasher, rows: seq<EventRecord>): Result<ByDoc, LifecycleError> {
    if rows == [] then Ok(map[])
    else
      var byDoc :- Filed(h, rows[..|rows| - 1]);
      FileRecord(h, byDoc, rows[|rows| - 1])
  }

  /** Every document a record names still has the hash the record gives it. */
  ghost predicate HashesStand(h: Hasher, canonical: CanonicalText, record: EventRecord) {
    var read := EventFromRecord(h, record);
    read.Ok? && read.value.Some? ==>
      var payload := read.value.value.0;
      CheckUnchanged(canonical, payload.docId, payload.docCanonicalHash).Ok?
      && (payload.replacementDocId.Some? && payload.replacementCanonicalHash.Some? ==>
            CheckUnchanged(canonical, payload.replacementDocId.value, payload.replacementCanonicalHash.value).Ok?)
  }

  lemma RecordLoadsExactly(h: Hasher, canonical: CanonicalText, byDoc: ByDoc, record: EventRecord)
    ensures LoadRecord(h, canonical, byDoc, record).Ok? <==> FileRecord(h, byDoc, record).Ok? && HashesStand(h, canonical, record)
    ensures LoadRecord(h, canonical, byDoc, record).Ok? ==> LoadRecord(h, canonical, byDoc, record) == FileRecord(h, byDoc, record)
  {
    hide EventFromRecord, CheckUnchanged;
  }

  /**
   * The table loads exactly when the chain verifies, the reader takes every record, and no recorded hash has changed;
   * what it loads to depends on the rows alone.
   */
  lemma {:induction false} LoadsExactlyWhenHashesStand(h: Hasher, canonical: CanonicalText, rows: seq<EventRecord>)
    ensures LoadRecords(h, canonical, rows).Ok? <==>
      Filed(h, rows).Ok? && forall i :: 0 <= i < |rows| ==> HashesStand(h, canonical, rows[i])
    ensures LoadRecords(h, canonical, rows).Ok? ==> LoadRecords(h, canonical, rows) == Filed(h, rows)
  {
    hide LoadRecord, FileRecord, HashesStand;
    if rows != [] {
      var front, last := rows[..|rows| - 1], rows[|rows| - 1];
      LoadsExactlyWhenHashesStand(h, canonical, front);
      if Filed(h, front).Ok? {
        RecordLoadsExactly(h, canonical, Filed(h, front).value, last);
      }
      assert forall i :: 0 <= i < |front| ==> front[i] == rows[i];
      assert (forall i :: 0 <= i < |rows| ==> HashesStand(h, canonical, rows[i])) <==>
        (forall i :: 0 <= i < |front| ==> HashesStand(h, canonical, front[i])) && HashesStand(h, canonical, last);
    }
  }

  lemma LoadIsFiled(h: Hasher, canonical: CanonicalText, rows: seq<EventRecord>)
    requires Load(h, canonical, rows).Ok?
    ensures Load(h, canonical, rows) == Filed(h, rows)
  {
    hide LoadRecords, Filed;
    LoadsExactlyWhenHashesStand(h, canonical, rows);
  }

  lemma FiledOneMore(h: Hasher, rows: seq<EventRecord>, record: EventRecord)
    ensures Filed(h, rows + [record]) ==
      if Filed(h, rows).Ok? then FileRecord(h, Filed(h, rows).value, record) else Filed(h, rows)
  {
    var all := rows + [record];
    assert all[..|all| - 1] == rows && all[|all| - 1] == record;
  }

  /** The chain verifies; and if the reader takes every record, each document has one event and ids climb along the links. */
  ghost predicate Sound(h: Hasher, s: State) {
    ChainVerifies(h, s.rows)
    && (Filed(h, s.rows).Ok? ==> SingleEvents(Filed(h, s.rows).value) && Ranked(Filed(h, s.rows).value, s.lastId))
  }

  lemma {:induction false} RanksClimb(byDoc: ByDoc, lastId: int, doc: string, n: nat)
    requires SingleEvents(byDoc) && Ranked(byDoc, lastId) && doc in byDoc
    requires Follow(byDoc, doc, n).Some? && Follow(byDoc, doc, n).value in byDoc
    ensures byDoc[doc][0].eventId + n <= byDoc[Follow(byDoc, doc, n).value][0].eventId
  {
    if n > 0 {
      var before := Follow(byDoc, doc, n - 1).value;
      RanksClimb(byDoc, lastId, doc, n - 1);
      assert Next(byDoc, before) == Follow(byDoc, doc, n);
      assert RankedBefore(byDoc, before, Next(byDoc, before).value);
    }
  }

  lemma RankedIsAcyclic(byDoc: ByDoc, lastId: int)
    requires SingleEvents(byDoc) && Ranked(byDoc, lastId)
    ensures Acyclic(byDoc)
  {
    forall doc, n: nat | n > 0
      ensures Follow(byDoc, doc, n) != Some(doc)
    {
      if Follow(byDoc, doc, n) == Some(doc) {
        WalkIsUnbroken(byDoc, doc, 1, n);
        assert Follow(byDoc, doc, 1) == Next(byDoc, doc) by {
          assert Follow(byDoc, doc, 0) == Some(doc);
        }
        RanksClimb(byDoc, lastId, doc, n);
      }
    }
  }

  /** Filing one event for an active document keeps single events and ranks. */
  lemma AppendKeepsRanks(byDoc: ByDoc, lastId: int, event: Event)
    requires SingleEvents(byDoc) && Ranked(byDoc, lastId)
    requires event.docId !in byDoc && event.eventId > lastId
    requires event.action.Supersede? ==>
      event.replacementDocId.Some? && event.replacementDocId.value !in byDoc && event.replacementDocId.value != event.docId
    ensures SingleEvents(byDoc[event.docId := [event]]) && Ranked(byDoc[event.docId := [event]], event.eventId)
  {
    var after := byDoc[event.docId := [event]];
    forall d | d in after && Next(after, d).Some?
      ensures RankedBefore(after, d, Next(after, d).value)
    {
      if d != event.docId {
        assert Next(after, d) == Next(byDoc, d);
        assert RankedBefore(byDoc, d, Next(byDoc, d).value);
      }
    }
  }

  // ---- Every step and every run ----

  /** Whatever was filed stays filed, unchanged. */
  ghost predicate Grows(before: ByDoc, after: ByDoc) {
    forall d :: d in before ==> d in after && after[d] == before[d]
  }

  ghost predicate FiledGrows(h: Hasher, s: State, t: State) {
    Filed(h, t.rows).Ok? ==> Filed(h, s.rows).Ok? && Grows(Filed(h, s.rows).value, Filed(h, t.rows).value)
  }

  lemma AppendLifecycleKeepsSound(h: Hasher, isUuid: string -> bool, s: State, request: Request, caller: Caller, t: State)
    requires Sound(h, s) && Moves(h, isUuid, s, AppendLifecycle(request, caller), t)
    ensures Sound(h, t) && FiledGrows(h, s, t)
  {
    hide AppendVerdict, Load, ChainVerifies, EventFromRecord, Canonical, EncodePayload, Frame, Filed, FileRecord;
    var payload := AppendVerdict(h, s.canonical, s.rows, request, isUuid, caller).value;
    var record := WrittenRecord(h, s.rows, s.lastId + 1, payload);
    AcceptedAppendReloads(h, s.canonical, s.rows, request, isUuid, caller, s.lastId + 1);
    LoadIsFiled(h, s.canonical, s.rows);
    FiledOneMore(h, s.rows, record);
    if |caller.subject.value| <= MAX_SUBJECT_CHARS {
      LoadIsFiled(h, t.canonical, t.rows);
      AcceptedPayload(h, s.canonical, s.rows, request, isUuid, caller, record);
      AppendKeepsRanks(Load(h, s.canonical, s.rows).value, s.lastId, PublicEvent(h, payload, record));
    } else {
      RefusedRecordIsNotFiled(h, Filed(h, s.rows).value, record);
    }
  }

  lemma RefusedRecordIsNotFiled(h: Hasher, byDoc: ByDoc, record: EventRecord)
    requires EventFromRecord(h, record).Err?
    ensures FileRecord(h, byDoc, record).Err?
  {
  }

  lemma OtherStepsKeepSound(h: Hasher, isUuid: string -> bool, s: State, step: Step, t: State)
    requires Sound(h, s) && !step.AppendLifecycle? && Moves(h, isUuid, s, step, t)
    ensures Sound(h, t) && Filed(h, t.rows) == Filed(h, s.rows)
  {
    hide ChainVerifies, FloatFree, Canonical, Filed;
    if step.AppendOther? {
      AppendKeepsChain(h, s.rows, s.lastId + 1, step.tsMs, step.eventType, step.payload);
      FiledOneMore(h, s.rows, t.rows[|s.rows|]);
    }
  }

  lemma MovesKeepSound(h: Hasher, isUuid: string -> bool, s: State, step: Step, t: State)
    requires Sound(h, s) && Moves(h, isUuid, s, step, t)
    ensures Sound(h, t) && FiledGrows(h, s, t)
  {
    hide Moves, ChainVerifies, Filed;
    if step.AppendLifecycle? {
      AppendLifecycleKeepsSound(h, isUuid, s, step.request, step.caller, t);
    } else {
      OtherStepsKeepSound(h, isUuid, s, step, t);
    }
  }

  lemma {:induction false} RunsAreSound(h: Hasher, isUuid: string -> bool, states: seq<State>, steps: seq<Step>, i: nat)
    requires Run(h, isUuid, states, steps) && i < |states|
    ensures Sound(h, states[i])
  {
    if i > 0 {
      RunsAreSound(h, isUuid, states, steps, i - 1);
      MovesKeepSound(h, isUuid, states[i - 1], steps[i - 1], states[i]);
    }
  }

  /** In every state of every run that loads, supersession links form no cycle and each document carries one event at most. */
  lemma RunsStayAcyclic(h: Hasher, isUuid: string -> bool, states: seq<State>, steps: seq<Step>, i: nat)
    requires Run(h, isUuid, states, steps) && i < |states|
    ensures ChainVerifies(h, states[i].rows)
    ensures var loaded := Load(h, states[i].canonical, states[i].rows);
      loaded.Ok? ==> SingleEvents(loaded.value) && Acyclic(loaded.value)
  {
    hide Load, ChainVerifies, Acyclic, Filed;
    var s := states[i];
    RunsAreSound(h, isUuid, states, steps, i);
    if Load(h, s.canonical, s.rows).Ok? {
      LoadIsFiled(h, s.canonical, s.rows);
      RankedIsAcyclic(Load(h, s.canonical, s.rows).value, s.lastId);
    }
  }

  /** So resolution never reports a conflict or a cycle: a document resolves, or its walk is too long. */
  lemma RunsNeverConflict(h: Hasher, isUuid: string -> bool, states: seq<State>, steps: seq<Step>, i: nat, doc: string)
    requires Run(h, isUuid, states, steps) && i < |states| && ValidDigest(doc)
    ensures var loaded := Load(h, states[i].canonical, states[i].rows);
      loaded.Ok? ==>
        var resolved := Resolve(doc, loaded.value);
        && (resolved.Ok? ==> !resolved.value.initialState.Conflicted? && !resolved.value.terminalState.Conflicted?)
        && (resolved.Err? ==> resolved.error == DepthExceeded)
  {
    hide Load, Acyclic, Resolve, ValidDigest;
    RunsStayAcyclic(h, isUuid, states, steps, i);
    var loaded := Load(h, states[i].canonical, states[i].rows);
    if loaded.Ok? {
      var n := AcyclicResolvesExactlyWithinDepth(loaded.value, doc);
      ActiveMeansNoEvent(loaded.value, doc);
    }
  }

  lemma {:induction false} RunsOnlyFileMore(h: Hasher, isUuid: string -> bool, states: seq<State>, steps: seq<Step>, i: nat, j: nat)
    requires Run(h, isUuid, states, steps) && i <= j < |states|
    ensures FiledGrows(h, states[i], states[j])
    decreases j
  {
    hide Moves, Filed, ChainVerifies;
    if i < j {
      RunsOnlyFileMore(h, isUuid, states, steps, i, j - 1);
      RunsAreSound(h, isUuid, states, steps, j - 1);
      MovesKeepSound(h, isUuid, states[j - 1], steps[j - 1], states[j]);
    }
  }

  /** An event, once loaded, is what every later load of the run files for that document. */
  lemma RunsKeepEvents(h: Hasher, isUuid: string -> bool, states: seq<State>, steps: seq<Step>, i: nat, j: nat)
    requires Run(h, isUuid, states, steps) && i <= j < |states|
    requires Load(h, states[i].canonical, states[i].rows).Ok? && Load(h, states[j].canonical, states[j].rows).Ok?
    ensures Grows(Load(h, states[i].canonical, states[i].rows).value, Load(h, states[j].canonical, states[j].rows).value)
  {
    hide Load, Filed, Run;
    RunsOnlyFileMore(h, isUuid, states, steps, i, j);
    LoadIsFiled(h, states[i].canonical, states[i].rows);
    LoadIsFiled(h, states[j].canonical, states[j].rows);
  }

  lemma {:induction false} FiledDocumentsAreDigests(h: Hasher, rows: seq<EventRecord>)
    ensures Filed(h, rows).Ok? ==> forall d :: d in Filed(h, rows).value ==> ValidDigest(d)
  {
    hide EventFromRecord, ValidDigest;
    if rows != [] {
      FiledDocumentsAreDigests(h, rows[..|rows| - 1]);
      var last := rows[|rows| - 1];
      if EventFromRecord(h, last).Ok? && EventFromRecord(h, last).value.Some? {
        EventSaysWhatTheRecordSays(h, last);
      }
    }
  }

  /** Once a document's tombstone is loaded, every later state of the run that loads resolves it as tombstoned, by that event. */
  lemma TombstoneIsForever(h: Hasher, isUuid: string -> bool, states: seq<State>, steps: seq<Step>, i: nat, j: nat, doc: string)
    requires Run(h, isUuid, states, steps) && i <= j < |states|
    requires Load(h, states[i].canonical, states[i].rows).Ok? && Load(h, states[j].canonical, states[j].rows).Ok?
    requires var byDoc := Load(h, states[i].canonical, states[i].rows).value;
      doc in byDoc && |byDoc[doc]| == 1 && byDoc[doc][0].action.Tombstone?
    ensures Resolve(doc, Load(h, states[j].canonical, states[j].rows).value) ==
      Ok(Resolution(doc, InitialState.Tombstoned, TerminalState.Tombstoned, Some(doc), Load(h, states[i].canonical, states[i].rows).value[doc]))
  {
    hide Load, Filed, Run, Resolve, ValidDigest;
    RunsKeepEvents(h, isUuid, states, steps, i, j);
    LoadIsFiled(h, states[j].canonical, states[j].rows);
    FiledDocumentsAreDigests(h, states[j].rows);
    TombstoneResolvesToItself(Load(h, states[j].canonical, states[j].rows).value, doc);
  }

  /** And once its supersession is loaded, no later answer of the run calls it anything but superseded. */
  lemma SupersessionIsForever(h: Hasher, isUuid: string -> bool, states: seq<State>, steps: seq<Step>, i: nat, j: nat, doc: string)
    requires Run(h, isUuid, states, steps) && i <= j < |states|
    requires Load(h, states[i].canonical, states[i].rows).Ok? && Load(h, states[j].canonical, states[j].rows).Ok?
    requires var byDoc := Load(h, states[i].canonical, states[i].rows).value;
      doc in byDoc && |byDoc[doc]| == 1 && byDoc[doc][0].action.Supersede?
    ensures var resolved := Resolve(doc, Load(h, states[j].canonical, states[j].rows).value);
      if resolved.Ok? then resolved.value.initialState.Superseded? && !resolved.value.terminalState.Conflicted?
      else resolved.error == DepthExceeded
  {
    hide Load, Filed, Run, Resolve, ValidDigest;
    RunsKeepEvents(h, isUuid, states, steps, i, j);
    LoadIsFiled(h, states[j].canonical, states[j].rows);
    FiledDocumentsAreDigests(h, states[j].rows);
    RunsNeverConflict(h, isUuid, states, steps, j, doc);
    var byDoc := Load(h, states[j].canonical, states[j].rows).value;
    if Resolve(doc, byDoc).Ok? {
      InitialStateIsTold(byDoc, doc);
    }
  }

  /** A verified document hash stands exactly when the table still gives that very hash. */
  lemma HashesStandExactly(h: Hasher, canonical: CanonicalText, record: EventRecord)
    requires EventFromRecord(h, record).Ok? && EventFromRecord(h, record).value.Some?
    ensures var p := EventFromRecord(h, record).value.value.0;
      HashesStand(h, canonical, record) <==>
        p.docId in canonical && canonical[p.docId] == p.docCanonicalHash
        && (p.action.Supersede? ==>
              p.replacementDocId.Some? && p.replacementDocId.value in canonical
              && Some(canonical[p.replacementDocId.value]) == p.replacementCanonicalHash)
  {
    hide Parse, DecodePayload, ValidDigest, Blank;
  }
}
