/** Appends never look upstream: where that breaks resolution, and that it can happen (document_lifecycle.rs). */
module LifecycleDepth {
  import opened Outcomes
  import opened Text
  import opened Hashing
  import opened Events
  import opened LifecycleRecords
  import opened LifecycleResolver
  import opened LifecycleStore
  import opened LifecycleRuns

  lemma {:induction false} WalkBeforeEndUnchanged(byDoc: ByDoc, doc: string, n: nat, event: Event, i: nat)
    requires Follow(byDoc, doc, n) == Some(event.docId) && event.docId !in byDoc && i <= n
    ensures Follow(byDoc[event.docId := [event]], doc, i) == Follow(byDoc, doc, i)
  {
    if i > 0 {
      WalkBeforeEndUnchanged(byDoc, doc, n, event, i - 1);
      WalkIsUnbroken(byDoc, doc, i, n);
    }
  }

  /**
   * Filing an event for the active end of a walk lengthens it by one for every document upstream. Such a document
   * still resolves, to the new end, if and only if its walk carried fewer than 100 events; otherwise it stops
   * resolving, although the append was accepted.
   */
  lemma UpstreamResolvesExactlyBelowDepth(byDoc: ByDoc, doc: string, event: Event)
    requires SingleEvents(byDoc) && ValidDigest(doc)
    requires Resolve(doc, byDoc).Ok? && Resolve(doc, byDoc).value.terminalDocId == Some(event.docId) && event.docId !in byDoc
    requires event.action.Supersede? ==>
      event.replacementDocId.Some? && event.replacementDocId.value !in byDoc && event.replacementDocId.value != event.docId
    ensures var after := Resolve(doc, byDoc[event.docId := [event]]);
      if |Resolve(doc, byDoc).value.events| < MAX_CHAIN_DEPTH
      then after.Ok? && after.value.events == Resolve(doc, byDoc).value.events + [event]
           && after.value.terminalDocId == (if event.action.Supersede? then event.replacementDocId else Some(event.docId))
      else after == Err(DepthExceeded)
  {
    ResolvesExactlyWhenWalkEnds(byDoc, doc);
    var n: nat :| StopsAt(byDoc, doc, n) && DocumentsWithEvents(byDoc, doc, n) <= MAX_CHAIN_DEPTH && WalkResolution(byDoc, doc, n).Ok?;
    ResolveAtStop(byDoc, doc, n);
    var after := byDoc[event.docId := [event]];
    forall i: nat | i <= n
      ensures Follow(after, doc, i) == Follow(byDoc, doc, i)
    {
      WalkBeforeEndUnchanged(byDoc, doc, n, event, i);
    }
    EventsBeforeEndUnchanged(byDoc, after, doc, n, n);
    EndGrows(after, doc, n, event);
    ResolveAtStop(after, doc, if event.action.Supersede? then n + 1 else n);
  }

  lemma EndGrows(after: ByDoc, doc: string, n: nat, event: Event)
    requires Follow(after, doc, n) == Some(event.docId) && event.docId in after && after[event.docId] == [event]
    requires event.action.Supersede? ==> event.replacementDocId.Some? && event.replacementDocId.value !in after
    ensures event.action.Tombstone? ==> StopsAt(after, doc, n)
    ensures event.action.Supersede? ==> StopsAt(after, doc, n + 1) && Follow(after, doc, n + 1) == event.replacementDocId
    ensures event.action.Supersede? ==> EventsAlong(after, doc, n + 1) == EventsAlong(after, doc, n) + [event]
  {
    assert Follow(after, doc, n + 1) == Next(after, event.docId);
  }

  lemma {:induction false} EventsBeforeEndUnchanged(byDoc: ByDoc, after: ByDoc, doc: string, n: nat, i: nat)
    requires i <= n && Follow(byDoc, doc, n).Some?
    requires forall j: nat :: j <= n ==> Follow(after, doc, j) == Follow(byDoc, doc, j)
    requires forall d :: d in byDoc ==> d in after && after[d] == byDoc[d]
    ensures Follow(byDoc, doc, i).Some? && EventsAlong(after, doc, i) == EventsAlong(byDoc, doc, i)
  {
    WalkIsUnbroken(byDoc, doc, i, n);
    if i > 0 {
      EventsBeforeEndUnchanged(byDoc, after, doc, n, i - 1);
    }
  }

  // ---- A run that gets there ----

  const LAST_NAME := 127

  /** A family of distinct digests. */
  function DocName(i: nat): string {
    "blake3:" + seq(64, j => if j == i % 64 then (if i < 64 then 'a' else 'b') else '0')
  }

  lemma DocNamesAreDistinctDigests(i: nat, j: nat)
    requires i <= LAST_NAME && j <= LAST_NAME
    ensures ValidDigest(DocName(i))
    ensures DocName(i) == DocName(j) ==> i == j
  {
    var a, b := DocName(i), DocName(j);
    assert a[..7] == "blake3:";
    assert forall k :: 7 <= k < 71 ==> a[k] == if k - 7 == i % 64 then (if i < 64 then 'a' else 'b') else '0';
    assert a[7 + i % 64] == (if i < 64 then 'a' else 'b');
    assert b[7 + i % 64] == (if i % 64 == j % 64 then (if j < 64 then 'a' else 'b') else '0');
  }

  /** The table holds exactly the links 0 -> 1 -> ... -> n, and every name has canonical text. */
  ghost predicate HoldsLinks(h: Hasher, s: State, n: nat) {
    var loaded := Load(h, s.canonical, s.rows);
    loaded.Ok?
    && (forall d :: d in loaded.value <==> exists i :: 0 <= i < n && d == DocName(i))
    && (forall i :: 0 <= i < n ==>
          DocName(i) in loaded.value && Next(loaded.value, DocName(i)) == Some(DocName(i + 1)))
    && (forall i :: 0 <= i <= LAST_NAME ==> DocName(i) in s.canonical && ValidDigest(s.canonical[DocName(i)]))
  }

  function LinkRequest(n: nat, session: string): Request {
    Request(REQUEST_SCHEMA, Supersede, DocName(n), Some(DocName(n + 1)), session, "r", 0)
  }

  lemma LinkIsAccepted(h: Hasher, isUuid: string -> bool, session: string, s: State, n: nat, caller: Caller)
    requires n < LAST_NAME && HoldsLinks(h, s, n) && isUuid(session) && ValidBounded(session, MAX_SESSION_ID_CHARS)
    requires PolicyAllows(caller)
    ensures AppendVerdict(h, s.canonical, s.rows, LinkRequest(n, session), isUuid, caller).Ok?
  {
    hide Load, ValidDigest, DocName, Resolve;
    var byDoc := Load(h, s.canonical, s.rows).value;
    forall i | 0 <= i < n
      ensures DocName(n) != DocName(i) && DocName(n + 1) != DocName(i)
    {
      DocNamesAreDistinctDigests(n, i);
      DocNamesAreDistinctDigests(n + 1, i);
    }
    DocNamesAreDistinctDigests(n, n + 1);
    DocNamesAreDistinctDigests(n + 1, n);
    ActiveMeansNoEvent(byDoc, DocName(n));
    ActiveMeansNoEvent(byDoc, DocName(n + 1));
    assert !IsWhitespace("r"[0]);
    assert ValidRequest(LinkRequest(n, session), isUuid);
    assert ActiveHash(s.canonical, byDoc, DocName(n)).Ok?;
    assert ActiveHash(s.canonical, byDoc, DocName(n + 1)).Ok?;
  }

  /** Accepted appends build a chain of any length up to 127 from an empty log. */
  lemma {:induction false} LinksCanBeBuilt(h: Hasher, isUuid: string -> bool, session: string, n: nat)
      returns (states: seq<State>, steps: seq<Step>)
    requires n <= LAST_NAME && isUuid(session) && ValidBounded(session, MAX_SESSION_ID_CHARS)
    ensures Run(h, isUuid, states, steps) && |states| == |steps| + 1 && HoldsLinks(h, states[|steps|], n)
  {
    hide DocName, AppendVerdict, LinkRequest, HoldsLinks, WrittenRecord, Load;
    if n == 0 {
      states, steps := [State([], 0, map i | 0 <= i <= LAST_NAME :: DocName(i) := DocName(0))], [];
      NoLinksYet(h, states[0]);
    } else {
      var before, sofar := LinksCanBeBuilt(h, isUuid, session, n - 1);
      var s := before[|sofar|];
      var caller := Caller(Some("s"), true);
      var request := LinkRequest(n - 1, session);
      assert PolicyAllows(caller) by {
        assert !IsWhitespace("s"[0]);
      }
      LinkIsAccepted(h, isUuid, session, s, n - 1, caller);
      var payload := AppendVerdict(h, s.canonical, s.rows, request, isUuid, caller).value;
      var t := State(s.rows + [WrittenRecord(h, s.rows, s.lastId + 1, payload)], s.lastId + 1, s.canonical);
      LinkIsFiled(h, isUuid, session, s, n - 1, t);
      states, steps := before + [t], sofar + [AppendLifecycle(request, caller)];
      RunExtends(h, isUuid, before, sofar, AppendLifecycle(request, caller), t);
    }
  }

  lemma NoLinksYet(h: Hasher, s: State)
    requires s == State([], 0, map i | 0 <= i <= LAST_NAME :: DocName(i) := DocName(0))
    ensures HoldsLinks(h, s, 0)
  {
    hide DocName;
    DocNamesAreDistinctDigests(0, 0);
  }

  lemma RunExtends(h: Hasher, isUuid: string -> bool, states: seq<State>, steps: seq<Step>, step: Step, t: State)
    requires Run(h, isUuid, states, steps) && Moves(h, isUuid, states[|steps|], step, t)
    ensures Run(h, isUuid, states + [t], steps + [step])
  {
    hide Moves;
    var allStates, allSteps := states + [t], steps + [step];
    forall i | 0 <= i < |allSteps|
      ensures Moves(h, isUuid, allStates[i], allSteps[i], allStates[i + 1])
    {
      if i < |steps| {
        assert allSteps[i] == steps[i] && allStates[i] == states[i] && allStates[i + 1] == states[i + 1];
      }
    }
  }

  lemma LinkIsFiled(h: Hasher, isUuid: string -> bool, session: string, s: State, n: nat, t: State)
    requires n < LAST_NAME && HoldsLinks(h, s, n)
    requires Moves(h, isUuid, s, AppendLifecycle(LinkRequest(n, session), Caller(Some("s"), true)), t)
    ensures HoldsLinks(h, t, n + 1)
  {
    hide DocName, Load, ValidDigest, Moves, LinkRequest, Next;
    var event := LinkLoads(h, isUuid, session, s, n, t);
    LinksGrow(Load(h, s.canonical, s.rows).value, n, event);
  }

  lemma LinkLoads(h: Hasher, isUuid: string -> bool, session: string, s: State, n: nat, t: State) returns (event: Event)
    requires Moves(h, isUuid, s, AppendLifecycle(LinkRequest(n, session), Caller(Some("s"), true)), t)
    ensures Load(h, s.canonical, s.rows).Ok? && DocName(n) !in Load(h, s.canonical, s.rows).value
    ensures Load(h, t.canonical, t.rows) == Ok(Load(h, s.canonical, s.rows).value[DocName(n) := [event]])
    ensures event.action.Supersede? && event.replacementDocId == Some(DocName(n + 1)) && t.canonical == s.canonical
  {
    hide DocName, AppendVerdict, Load, ChainVerifies, ValidDigest, HonoursContract, ReplacementFits, IsActiveReplacement,
         WrittenRecord, EventFromRecord;
    var request, caller := LinkRequest(n, session), Caller(Some("s"), true);
    var payload := AppendVerdict(h, s.canonical, s.rows, request, isUuid, caller).value;
    var record := WrittenRecord(h, s.rows, s.lastId + 1, payload);
    AcceptedAppendReloads(h, s.canonical, s.rows, request, isUuid, caller, s.lastId + 1);
    AcceptedPayload(h, s.canonical, s.rows, request, isUuid, caller, record);
    event := PublicEvent(h, payload, record);
  }

  lemma LinksGrow(byDoc: ByDoc, n: nat, event: Event)
    requires n < LAST_NAME && DocName(n) !in byDoc && event.action.Supersede? && event.replacementDocId == Some(DocName(n + 1))
    requires forall d :: d in byDoc <==> exists i :: 0 <= i < n && d == DocName(i)
    requires forall i :: 0 <= i < n ==> DocName(i) in byDoc && Next(byDoc, DocName(i)) == Some(DocName(i + 1))
    ensures var after := byDoc[DocName(n) := [event]];
      && (forall d :: d in after <==> exists i :: 0 <= i < n + 1 && d == DocName(i))
      && forall i :: 0 <= i < n + 1 ==> DocName(i) in after && Next(after, DocName(i)) == Some(DocName(i + 1))
  {
    hide DocName;
    var after := byDoc[DocName(n) := [event]];
    forall d
      ensures d in after <==> exists i :: 0 <= i < n + 1 && d == DocName(i)
    {
      assert d in after <==> d in byDoc || d == DocName(n);
    }
    forall i | 0 <= i < n + 1
      ensures DocName(i) in after && Next(after, DocName(i)) == Some(DocName(i + 1))
    {
      if i < n {
        DocNamesAreDistinctDigests(i, n);
      }
    }
  }

  lemma {:induction false} LinksAreFollowed(h: Hasher, s: State, n: nat, i: nat)
    requires HoldsLinks(h, s, n) && i <= n
    ensures Follow(Load(h, s.canonical, s.rows).value, DocName(0), i) == Some(DocName(i))
  {
    hide DocName, Load;
    if i > 0 {
      LinksAreFollowed(h, s, n, i - 1);
    }
  }

  /** After 101 accepted appends the first document of the chain no longer resolves. */
  lemma AcceptedAppendsCanBreakResolution(h: Hasher, isUuid: string -> bool, session: string)
      returns (states: seq<State>, steps: seq<Step>)
    requires isUuid(session) && ValidBounded(session, MAX_SESSION_ID_CHARS)
    ensures Run(h, isUuid, states, steps) && |states| == |steps| + 1
    ensures var s := states[|steps|];
      Load(h, s.canonical, s.rows).Ok? && Resolve(DocName(0), Load(h, s.canonical, s.rows).value) == Err(DepthExceeded)
  {
    hide DocName, Load, Run;
    var n := MAX_CHAIN_DEPTH + 1;
    states, steps := LinksCanBeBuilt(h, isUuid, session, n);
    var s := states[|steps|];
    var byDoc := Load(h, s.canonical, s.rows).value;
    LinksAreFollowed(h, s, n, n);
    DocNamesAreDistinctDigests(0, 0);
    forall i | 0 <= i < n
      ensures DocName(n) != DocName(i)
    {
      DocNamesAreDistinctDigests(n, i);
    }
    assert DocName(n) !in byDoc;
    assert StopsAt(byDoc, DocName(0), n);
    ResolveAtStop(byDoc, DocName(0), n);
  }

  // ---- One subject that is too long ----

  /** A subject the append accepts and the reader does not. */
  function LongSubject(): string {
    seq(MAX_SUBJECT_CHARS + 1, _ => 's')
  }

  /**
   * One accepted append from an empty log by a subject of 201 characters: the chain still verifies, and the table can
   * no longer be loaded, whatever canonical texts are recorded afterwards.
   */
  lemma LongSubjectBreaksLoading(h: Hasher, isUuid: string -> bool, session: string) returns (states: seq<State>, steps: seq<Step>)
    requires isUuid(session) && ValidBounded(session, MAX_SESSION_ID_CHARS)
    ensures Run(h, isUuid, states, steps) && |steps| == 1 && steps[0].AppendLifecycle?
    ensures Load(h, states[0].canonical, states[0].rows).Ok? && ChainVerifies(h, states[1].rows)
    ensures forall canonical :: Load(h, canonical, states[1].rows).Err?
  {
    hide DocName, AppendVerdict, LinkRequest, HoldsLinks, WrittenRecord, Load, ChainVerifies, EventFromRecord, LoadRecords, Filed, FileRecord;
    var s := State([], 0, map i | 0 <= i <= LAST_NAME :: DocName(i) := DocName(0));
    var caller := Caller(Some(LongSubject()), true);
    NoLinksYet(h, s);
    assert PolicyAllows(caller) by {
      assert LongSubject()[0] == 's' && !IsWhitespace('s');
    }
    LinkIsAccepted(h, isUuid, session, s, 0, caller);
    var request := LinkRequest(0, session);
    var payload := AppendVerdict(h, s.canonical, s.rows, request, isUuid, caller).value;
    var record := WrittenRecord(h, s.rows, s.lastId + 1, payload);
    var t := State(s.rows + [record], s.lastId + 1, s.canonical);
    AcceptedAppendReloads(h, s.canonical, s.rows, request, isUuid, caller, s.lastId + 1);
    states, steps := [s, t], [AppendLifecycle(request, caller)];
    forall canonical
      ensures Load(h, canonical, t.rows).Err?
    {
      NeverLoadsAgain(h, canonical, s.rows, record);
    }
  }

  lemma NeverLoadsAgain(h: Hasher, canonical: CanonicalText, rows: seq<EventRecord>, record: EventRecord)
    requires EventFromRecord(h, record).Err?
    ensures Load(h, canonical, rows + [record]).Err?
  {
    hide EventFromRecord, LoadRecords, Filed, ChainVerifies;
    LoadsExactlyWhenHashesStand(h, canonical, rows + [record]);
    FiledOneMore(h, rows, record);
    if Filed(h, rows).Ok? {
      RefusedRecordIsNotFiled(h, Filed(h, rows).value, record);
    }
  }

  /** One accepted append, and then another canonical text for the document it is about: the table can no longer be loaded. */
  lemma RecordingAgainBreaksLoading(h: Hasher, isUuid: string -> bool, session: string) returns (states: seq<State>, steps: seq<Step>)
    requires isUuid(session) && ValidBounded(session, MAX_SESSION_ID_CHARS)
    ensures Run(h, isUuid, states, steps) && |steps| == 2 && steps[1] == RecordCanonicalText(DocName(0), DocName(1))
    ensures Load(h, states[1].canonical, states[1].rows).Ok? && Load(h, states[2].canonical, states[2].rows).Err?
  {
    hide DocName, AppendVerdict, LinkRequest, HoldsLinks, WrittenRecord, Load, ChainVerifies, EventFromRecord, LoadRecords, Filed, FileRecord;
    var s := State([], 0, map i | 0 <= i <= LAST_NAME :: DocName(i) := DocName(0));
    var caller := Caller(Some("s"), true);
    NoLinksYet(h, s);
    assert PolicyAllows(caller) by {
      assert !IsWhitespace("s"[0]);
    }
    LinkIsAccepted(h, isUuid, session, s, 0, caller);
    var request := LinkRequest(0, session);
    var payload := AppendVerdict(h, s.canonical, s.rows, request, isUuid, caller).value;
    var record := WrittenRecord(h, s.rows, s.lastId + 1, payload);
    var t := State(s.rows + [record], s.lastId + 1, s.canonical);
    AcceptedAppendReloads(h, s.canonical, s.rows, request, isUuid, caller, s.lastId + 1);
    var u := t.(canonical := t.canonical[DocName(0) := DocName(1)]);
    states, steps := [s, t, u], [AppendLifecycle(request, caller), RecordCanonicalText(DocName(0), DocName(1))];
    assert t.rows[0] == record;
    FiledHashIsRecorded(h, isUuid, session, s, caller, record);
    DocNamesAreDistinctDigests(0, 1);
    HashNoLongerStands(h, u.canonical, record, payload);
    NotLoadedUnlessHashesStand(h, u.canonical, u.rows, 0);
  }

  lemma FiledHashIsRecorded(h: Hasher, isUuid: string -> bool, session: string, s: State, caller: Caller, record: EventRecord)
    requires s == State([], 0, map i | 0 <= i <= LAST_NAME :: DocName(i) := DocName(0)) && caller == Caller(Some("s"), true)
    requires AppendVerdict(h, s.canonical, s.rows, LinkRequest(0, session), isUuid, caller).Ok?
    requires record == WrittenRecord(h, s.rows, s.lastId + 1, AppendVerdict(h, s.canonical, s.rows, LinkRequest(0, session), isUuid, caller).value)
    ensures var payload := AppendVerdict(h, s.canonical, s.rows, LinkRequest(0, session), isUuid, caller).value;
      EventFromRecord(h, record) == Ok(Some((payload, PublicEvent(h, payload, record))))
      && payload.docId == DocName(0) && payload.docCanonicalHash == DocName(0)
  {
    hide DocName, Load, EventFromRecord, EncodePayload, PublicEvent, ValidDigest, HonoursContract, Resolve, ChainVerifies;
    var request := LinkRequest(0, session);
    var payload := AppendVerdict(h, s.canonical, s.rows, request, isUuid, caller).value;
    AcceptedPayload(h, s.canonical, s.rows, request, isUuid, caller, record);
    WrittenRecordReadsBack(h, payload, record);
  }

  lemma HashNoLongerStands(h: Hasher, canonical: CanonicalText, record: EventRecord, payload: Payload)
    requires EventFromRecord(h, record).Ok? && EventFromRecord(h, record).value.Some? && EventFromRecord(h, record).value.value.0 == payload
    requires payload.docId in canonical && canonical[payload.docId] != payload.docCanonicalHash
    ensures !HashesStand(h, canonical, record)
  {
    hide EventFromRecord;
  }

  lemma NotLoadedUnlessHashesStand(h: Hasher, canonical: CanonicalText, rows: seq<EventRecord>, i: nat)
    requires i < |rows| && !HashesStand(h, canonical, rows[i])
    ensures Load(h, canonical, rows).Err?
  {
    hide HashesStand, LoadRecords, Filed, ChainVerifies;
    LoadsExactlyWhenHashesStand(h, canonical, rows);
  }
}
