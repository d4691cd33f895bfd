/** Loading and appending lifecycle events over the owner chain (document_lifecycle.rs). */
module LifecycleStore {
  import opened Outcomes
  import opened Text
  import opened Hashing
  import opened CanonJson
  import opened Events
  import opened LifecycleRecords
  import opened LifecycleResolver

  const REQUEST_SCHEMA := "knowledgecore_document_lifecycle_request.v1"

  /** The canonical_text table: document to canonical hash. */
  type CanonicalText = map<string, string>

  datatype Request = Request(
    schemaVersion: string,
    action: Action,
    docId: string,
    replacementDocId: Option<string>,
    sessionId: string,
    reason: string,
    effectiveAtMs: I64)

  function CanonicalHashForDoc(canonical: CanonicalText, doc: string): Result<Option<string>, LifecycleError> {
    if doc !in canonical then Ok(None)
    else if ValidDigest(canonical[doc]) then Ok(Some(canonical[doc]))
    else Err(Corrupt)
  }

  // ---- Loading ----

  function EventsOf(byDoc: ByDoc, doc: string): seq<Event> {
    if doc in byDoc then byDoc[doc] else []
  }

  /** The document named by an event still has the hash the event recorded. */
  function CheckUnchanged(canonical: CanonicalText, doc: string, expected: string): Result<(), LifecycleError> {
    var current :- CanonicalHashForDoc(canonical, doc);
    if current == Some(expected) then Ok(()) else Err(Corrupt)
  }

  function LoadRecord(h: Hasher, canonical: CanonicalText, byDoc: ByDoc, record: EventRecord): Result<ByDoc, LifecycleError> {
    var read :- EventFromRecord(h, record);
    if read.None? then Ok(byDoc)
    else
      var (payload, event) := read.value;
      var _ :- CheckUnchanged(canonical, payload.docId, payload.docCanonicalHash);
      var _ :- if payload.replacementDocId.Some? && payload.replacementCanonicalHash.Some?
               then CheckUnchanged(canonical, payload.replacementDocId.value, payload.replacementCanonicalHash.value)
               else Ok(());
      Ok(byDoc[payload.docId := EventsOf(byDoc, payload.docId) + [event]])
  }

  function LoadRecords(h: Hasher, canonical: CanonicalText, rows: seq<EventRecord>): Result<ByDoc, LifecycleError> {
    if rows == [] then Ok(map[])
    else
      var byDoc :- LoadRecords(h, canonical, rows[..|rows| - 1]);
      LoadRecord(h, canonical, byDoc, rows[|rows| - 1])
  }

  ghost function Load(h: Hasher, canonical: CanonicalText, rows: seq<EventRecord>): Result<ByDoc, LifecycleError> {
    if ChainVerifies(h, rows) then LoadRecords(h, canonical, rows) else Err(ChainInvalid)
  }

  lemma {:induction false} FailedLoadStays(h: Hasher, canonical: CanonicalText, rows: seq<EventRecord>, i: nat)
    requires i <= |rows| && LoadRecords(h, canonical, rows[..i]).Err?
    ensures LoadRecords(h, canonical, rows) == LoadRecords(h, canonical, rows[..i])
  {
    if i == |rows| {
      assert rows[..i] == rows;
    } else {
      var front := rows[..|rows| - 1];
      assert front[..i] == rows[..i];
      FailedLoadStays(h, canonical, front, i);
    }
  }

  // ---- Appending ----

  predicate ValidRequest(request: Request, isUuid: string -> bool) {
    request.schemaVersion == REQUEST_SCHEMA && request.effectiveAtMs >= 0 && ValidDigest(request.docId)
    && ValidBounded(request.sessionId, MAX_SESSION_ID_CHARS) && isUuid(request.sessionId)
    && ValidBounded(request.reason, MAX_REASON_CHARS)
    && match request.action
       case Supersede =>
         request.replacementDocId.Some? && request.replacementDocId.value != request.docId
         && ValidDigest(request.replacementDocId.value)
       case Tombstone => request.replacementDocId.None?
  }

  /** Who asks: the subject of the session, if it authenticates, and the policy's answer for that subject. */
  datatype Caller = Caller(subject: Option<string>, permitted: bool)

  /** The policy refuses a blank subject before it looks at any rule. */
  predicate PolicyAllows(caller: Caller) {
    caller.subject.Some? && !Blank(caller.subject.value) && caller.permitted
  }

  /** An active document and its recorded hash. */
  ghost function ActiveHash(canonical: CanonicalText, byDoc: ByDoc, doc: string): Result<string, LifecycleError> {
    var resolution :- Resolve(doc, byDoc);
    if resolution.initialState != InitialState.Active then Err(Conflict)
    else
      var hash :- CanonicalHashForDoc(canonical, doc);
      if hash.None? then Err(NotFound) else Ok(hash.value)
  }

  function NewPayload(request: Request, subject: string, docHash: string, replacementHash: Option<string>): Payload {
    Payload(EVENT_SCHEMA, request.action, request.docId, docHash, request.replacementDocId, replacementHash,
            subject, request.reason, request.effectiveAtMs)
  }

  /** The payload an append writes, or why it writes none. */
  ghost function AppendVerdict(h: Hasher, canonical: CanonicalText, rows: seq<EventRecord>, request: Request,
                               isUuid: string -> bool, caller: Caller): Result<Payload, LifecycleError> {
    if !ValidRequest(request, isUuid) then Err(RequestInvalid)
    else if caller.subject.None? then Err(Unauthenticated)
    else if !PolicyAllows(caller) then Err(PolicyDenied)
    else
      var byDoc :- Load(h, canonical, rows);
      var docHash :- ActiveHash(canonical, byDoc, request.docId);
      if request.replacementDocId.None? then Ok(NewPayload(request, caller.subject.value, docHash, None))
      else
        var replacementHash :- ActiveHash(canonical, byDoc, request.replacementDocId.value);
        Ok(NewPayload(request, caller.subject.value, docHash, Some(replacementHash)))
  }

  class Vault {
    const log: EventLog
    var canonical: CanonicalText

    ghost predicate Valid()
      reads this, log
    {
      log.Valid()
    }

    constructor ()
      ensures Valid() && fresh(log) && log.rows == [] && canonical == map[]
    {
      log := new EventLog();
      canonical := map[];
    }

    method LoadDocumentLifecycleEvents(h: Hasher) returns (r: Result<ByDoc, LifecycleError>)
      ensures r == Load(h, canonical, log.rows)
    {
      hide ChainVerifies, LoadRecord;
      var chain := log.ReadVerifiedEventChain(h);
      if chain.Err? {
        return Err(ChainInvalid);
      }
      var byDoc := map[];
      for i := 0 to |chain.value|
        invariant LoadRecords(h, canonical, log.rows[..i]) == Ok(byDoc)
      {
        assert log.rows[..i + 1][..i] == log.rows[..i];
        var loaded := LoadRecord(h, canonical, byDoc, chain.value[i]);
        if loaded.Err? {
          FailedLoadStays(h, canonical, log.rows, i + 1);
          return loaded;
        }
        byDoc := loaded.value;
      }
      assert log.rows[..|log.rows|] == log.rows;
      return Ok(byDoc);
    }

    method FindActiveHash(byDoc: ByDoc, doc: string) returns (r: Result<string, LifecycleError>)
      ensures r == ActiveHash(canonical, byDoc, doc)
    {
      var resolution := ResolveDocumentLifecycle(doc, byDoc);
      if resolution.Err? {
        return Err(resolution.error);
      }
      if resolution.value.initialState != InitialState.Active {
        return Err(Conflict);
      }
      var hash := CanonicalHashForDoc(canonical, doc);
      if hash.Err? {
        return Err(hash.error);
      }
      if hash.value.None? {
        return Err(NotFound);
      }
      return Ok(hash.value.value);
    }

    /** Supersedes or tombstones an active document: one new record on the chain, or no change at all. */
    method AppendDocumentLifecycleEvent(h: Hasher, request: Request, isUuid: string -> bool, caller: Caller)
        returns (r: Result<Event, LifecycleError>)
      requires Valid()
      modifies log
      ensures Valid()
      ensures var verdict := AppendVerdict(h, canonical, old(log.rows), request, isUuid, caller);
        match verdict
        case Err(error) => r == Err(error) && log.rows == old(log.rows)
        case Ok(payload) =>
          r.Ok? && log.rows == old(log.rows) + [WrittenRecord(h, old(log.rows), r.value.eventId, payload)]
          && r.value == PublicEvent(h, payload, log.rows[|old(log.rows)|])
    {
      hide Load, ChainVerifies, LoadRecords, Resolve, FloatFree, Canonical;
      if !ValidRequest(request, isUuid) {
        return Err(RequestInvalid);
      }
      if caller.subject.None? {
        return Err(Unauthenticated);
      }
      if !PolicyAllows(caller) {
        return Err(PolicyDenied);
      }
      var byDoc := LoadDocumentLifecycleEvents(h);
      if byDoc.Err? {
        return Err(byDoc.error);
      }
      var docHash := FindActiveHash(byDoc.value, request.docId);
      if docHash.Err? {
        return Err(docHash.error);
      }
      var replacementHash := None;
      if request.replacementDocId.Some? {
        var found := FindActiveHash(byDoc.value, request.replacementDocId.value);
        if found.Err? {
          return Err(found.error);
        }
        replacementHash := Some(found.value);
      }
      var payload := NewPayload(request, caller.subject.value, docHash.value, replacementHash);
      PayloadReadsBack(payload);
      var record := log.AppendEvent(h, request.effectiveAtMs, EventTypeFor(request.action), EncodePayload(payload));
      if record.Err? {
        return Err(WriteFailed);
      }
      return Ok(PublicEvent(h, payload, record.value));
    }
  }

  ghost function WrittenRecord(h: Hasher, rows: seq<EventRecord>, eventId: int, payload: Payload): EventRecord {
    NewRecord(h, rows, eventId, payload.effectiveAtMs, EventTypeFor(payload.action), Canonical(EncodePayload(payload)))
  }

  /** Everything an accepted append needs, and nothing else: the request, the caller, and the two documents. */
  lemma AcceptedExactly(h: Hasher, canonical: CanonicalText, rows: seq<EventRecord>, request: Request,
                        isUuid: string -> bool, caller: Caller)
    ensures AppendVerdict(h, canonical, rows, request, isUuid, caller).Ok? <==>
      request.schemaVersion == "knowledgecore_document_lifecycle_request.v1" && request.effectiveAtMs >= 0
      && !Blank(request.sessionId) && |request.sessionId| <= 200 && isUuid(request.sessionId)
      && !Blank(request.reason) && |request.reason| <= 240
      && caller.subject.Some? && !Blank(caller.subject.value) && caller.permitted
      && Load(h, canonical, rows).Ok?
      && IsActiveDocument(canonical, Load(h, canonical, rows).value, request.docId)
      && (request.action.Supersede? ==>
            request.replacementDocId.Some? && request.replacementDocId.value != request.docId
            && IsActiveDocument(canonical, Load(h, canonical, rows).value, request.replacementDocId.value))
      && (request.action.Tombstone? ==> request.replacementDocId.None?)
  {
    hide Load, ValidDigest, Blank, ActiveHash;
    if Load(h, canonical, rows).Ok? {
      var byDoc := Load(h, canonical, rows).value;
      ActiveExactly(canonical, byDoc, request.docId);
      if request.replacementDocId.Some? {
        ActiveExactly(canonical, byDoc, request.replacementDocId.value);
      }
    }
  }

  /** A document with a well-formed recorded hash and no event. */
  predicate IsActiveDocument(canonical: CanonicalText, byDoc: ByDoc, doc: string) {
    ValidDigest(doc) && doc !in byDoc && doc in canonical && ValidDigest(canonical[doc])
  }

  lemma ActiveExactly(canonical: CanonicalText, byDoc: ByDoc, doc: string)
    ensures ActiveHash(canonical, byDoc, doc).Ok? <==> IsActiveDocument(canonical, byDoc, doc)
    ensures ActiveHash(canonical, byDoc, doc).Ok? ==> ActiveHash(canonical, byDoc, doc).value == canonical[doc]
  {
    hide Resolve, ValidDigest;
    ActiveMeansNoEvent(byDoc, doc);
    if Resolve(doc, byDoc).Ok? {
      var path := AnswersAreOfChains(byDoc, doc);
      InitialStateIsTold(byDoc, doc);
    }
  }

  /** The payload is the request's, with the caller's subject and the recorded hashes. */
  lemma PayloadSaysTheRequest(h: Hasher, canonical: CanonicalText, rows: seq<EventRecord>, request: Request,
                              isUuid: string -> bool, caller: Caller)
    requires AppendVerdict(h, canonical, rows, request, isUuid, caller).Ok?
    ensures caller.subject.Some? && request.docId in canonical
    ensures request.replacementDocId.Some? ==> request.replacementDocId.value in canonical
    ensures var p := AppendVerdict(h, canonical, rows, request, isUuid, caller).value;
      p.schemaVersion == "knowledgecore_document_lifecycle_event.v1" && p.action == request.action
      && p.docId == request.docId && p.docCanonicalHash == canonical[request.docId]
      && p.replacementDocId == request.replacementDocId
      && p.replacementCanonicalHash ==
           (if request.replacementDocId.Some? then Some(canonical[request.replacementDocId.value]) else None)
      && p.subjectId == caller.subject.value && p.reason == request.reason && p.effectiveAtMs == request.effectiveAtMs
  {
    hide Load, ValidDigest, Blank, ActiveHash;
    var byDoc := Load(h, canonical, rows).value;
    ActiveExactly(canonical, byDoc, request.docId);
    if request.replacementDocId.Some? {
      ActiveExactly(canonical, byDoc, request.replacementDocId.value);
    }
  }
}
