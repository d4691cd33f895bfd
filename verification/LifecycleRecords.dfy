/** Document lifecycle records (document_lifecycle.rs): payloads, their JSON form, and the reader's checks. */
module LifecycleRecords {
  import opened Outcomes
  import opened Text
  import opened Hashing
  import opened CanonJson
  import opened JsonReader
  import opened JsonRoundTrip
  import opened Events

  const EVENT_SCHEMA := "knowledgecore_document_lifecycle_event.v1"
  const SUPERSEDED_EVENT_TYPE := "document.lifecycle.superseded.v1"
  const TOMBSTONED_EVENT_TYPE := "document.lifecycle.tombstoned.v1"
  const LIFECYCLE_EVENT_PREFIX := "document.lifecycle."
  const SUBJECT_TAG := "kc.document.lifecycle.authorization-subject.v1\n"
  const MAX_SUBJECT_CHARS := 200
  const MAX_SESSION_ID_CHARS := 200
  const MAX_REASON_CHARS := 240

  datatype Action = Supersede | Tombstone

  datatype Payload = Payload(
    schemaVersion: string,
    action: Action,
    docId: string,
    docCanonicalHash: string,
    replacementDocId: Option<string>,
    replacementCanonicalHash: Option<string>,
    subjectId: string,
    reason: string,
    effectiveAtMs: I64)

  /** The public part of an event: the subject and the reason appear only as digests. */
  datatype Event = Event(
    eventId: int,
    eventHash: string,
    eventAtMs: int,
    action: Action,
    docId: string,
    docCanonicalHash: string,
    replacementDocId: Option<string>,
    replacementCanonicalHash: Option<string>,
    authorizationSubjectDigest: string,
    reasonDigest: string)

  datatype LifecycleError =
    | ChainInvalid
    | Corrupt
    | CycleOrDepth
    | DepthExceeded
    | RequestInvalid
    | Unauthenticated
    | PolicyDenied
    | Conflict
    | NotFound
    | WriteFailed

  predicate ValidBounded(s: string, maxChars: nat) {
    !Blank(s) && |s| <= maxChars
  }

  // ---- The JSON form of a payload ----

  function OptionalText(s: Option<string>): Value {
    match s case None => Null case Some(text) => Str(text)
  }

  function ActionName(action: Action): string {
    match action case Supersede => "supersede" case Tombstone => "tombstone"
  }

  function EncodePayload(p: Payload): Value {
    Obj(map[
      "schema_version" := Str(p.schemaVersion),
      "action" := Str(ActionName(p.action)),
      "doc_id" := Str(p.docId),
      "doc_canonical_hash" := Str(p.docCanonicalHash),
      "replacement_doc_id" := OptionalText(p.replacementDocId),
      "replacement_canonical_hash" := OptionalText(p.replacementCanonicalHash),
      "subject_id" := Str(p.subjectId),
      "reason" := Str(p.reason),
      "effective_at_ms" := Int(p.effectiveAtMs)])
  }

  const FIELD_NAMES := {"schema_version", "action", "doc_id", "doc_canonical_hash", "replacement_doc_id",
                        "replacement_canonical_hash", "subject_id", "reason", "effective_at_ms"}

  function TextField(members: map<string, Value>, name: string): Option<string> {
    if name in members && members[name].Str? then Some(members[name].s) else None
  }

  /** A missing or null optional field is absent; any other non-text is a decoding error. */
  function OptionalField(members: map<string, Value>, name: string): Option<Option<string>> {
    if name !in members || members[name].Null? then Some(None)
    else if members[name].Str? then Some(Some(members[name].s))
    else None
  }

  /** A unit variant is its name, or an object holding only its name with null. */
  function ActionField(members: map<string, Value>): Option<Action> {
    if "action" !in members then None
    else
      var v := members["action"];
      if v == Str("supersede") || v == Obj(map["supersede" := Null]) then Some(Supersede)
      else if v == Str("tombstone") || v == Obj(map["tombstone" := Null]) then Some(Tombstone)
      else None
  }

  function DecodeFields(m: map<string, Value>): Option<Payload> {
    var schema, action := TextField(m, "schema_version"), ActionField(m);
    var doc, hash := TextField(m, "doc_id"), TextField(m, "doc_canonical_hash");
    var newDoc, newHash := OptionalField(m, "replacement_doc_id"), OptionalField(m, "replacement_canonical_hash");
    var subject, reason := TextField(m, "subject_id"), TextField(m, "reason");
    if schema.None? || action.None? || doc.None? || hash.None? || newDoc.None? || newHash.None? || subject.None? || reason.None?
    then None
    else if "effective_at_ms" in m && m["effective_at_ms"].Int? && m["effective_at_ms"].n < 0x8000_0000_0000_0000
    then Some(Payload(schema.value, action.value, doc.value, hash.value, newDoc.value, newHash.value,
                      subject.value, reason.value, m["effective_at_ms"].n))
    else None
  }

  /** The fields of a payload written as an array, in declaration order. */
  function ByPosition(items: seq<Value>): map<string, Value>
    requires |items| == 9
  {
    map[
      "schema_version" := items[0],
      "action" := items[1],
      "doc_id" := items[2],
      "doc_canonical_hash" := items[3],
      "replacement_doc_id" := items[4],
      "replacement_canonical_hash" := items[5],
      "subject_id" := items[6],
      "reason" := items[7],
      "effective_at_ms" := items[8]]
  }

  /** An object without unknown fields, or an array of all nine: serde's derived decoding takes both. */
  function DecodePayload(v: Value): Option<Payload> {
    match v
    case Obj(members) => if members.Keys <= FIELD_NAMES then DecodeFields(members) else None
    case Arr(items) => if |items| == 9 then DecodeFields(ByPosition(items)) else None
    case _ => None
  }

  lemma PayloadFieldsReadBack(p: Payload)
    ensures var m := EncodePayload(p).members;
      && m.Keys == FIELD_NAMES
      && TextField(m, "schema_version") == Some(p.schemaVersion)
      && ActionField(m) == Some(p.action)
      && TextField(m, "doc_id") == Some(p.docId)
      && TextField(m, "doc_canonical_hash") == Some(p.docCanonicalHash)
      && OptionalField(m, "replacement_doc_id") == Some(p.replacementDocId)
      && OptionalField(m, "replacement_canonical_hash") == Some(p.replacementCanonicalHash)
      && TextField(m, "subject_id") == Some(p.subjectId)
      && TextField(m, "reason") == Some(p.reason)
      && m["effective_at_ms"] == Int(p.effectiveAtMs)
  {
  }

  /** Serializing a payload and decoding it gives the payload back, and it never holds a float. */
  lemma PayloadReadsBack(p: Payload)
    ensures FloatFree(EncodePayload(p))
    ensures DecodePayload(EncodePayload(p)) == Some(p)
  {
    PayloadFieldsReadBack(p);
  }

  // ---- Reading a record back ----

  function EventTypeFor(action: Action): string {
    match action case Supersede => SUPERSEDED_EVENT_TYPE case Tombstone => TOMBSTONED_EVENT_TYPE
  }

  /** What a supersession or a tombstone must and must not carry. */
  predicate ReplacementFits(p: Payload) {
    match p.action
    case Supersede =>
      p.replacementDocId.Some? && p.replacementCanonicalHash.Some?
      && p.replacementDocId.value != p.docId
      && ValidDigest(p.replacementDocId.value) && ValidDigest(p.replacementCanonicalHash.value)
    case Tombstone => p.replacementDocId.None? && p.replacementCanonicalHash.None?
  }

  predicate HonoursContract(p: Payload, record: EventRecord) {
    p.schemaVersion == EVENT_SCHEMA
    && record.eventType == EventTypeFor(p.action)
    && p.effectiveAtMs == record.tsMs
    && ValidDigest(p.docId) && ValidDigest(p.docCanonicalHash)
    && ValidBounded(p.subjectId, MAX_SUBJECT_CHARS) && ValidBounded(p.reason, MAX_REASON_CHARS)
  }

  function PublicEvent(h: Hasher, p: Payload, record: EventRecord): Event {
    Event(record.eventId, record.eventHash, record.tsMs, p.action, p.docId, p.docCanonicalHash,
          p.replacementDocId, p.replacementCanonicalHash, h(SUBJECT_TAG + p.subjectId), h(p.reason))
  }

  predicate IsLifecycleType(eventType: string) {
    LIFECYCLE_EVENT_PREFIX <= eventType
  }

  function EventFromRecord(h: Hasher, record: EventRecord): Result<Option<(Payload, Event)>, LifecycleError> {
    if !IsLifecycleType(record.eventType) then Ok(None)
    else if record.eventType != SUPERSEDED_EVENT_TYPE && record.eventType != TOMBSTONED_EVENT_TYPE then Err(Corrupt)
    else
      var parsed := Parse(record.payloadJson);
      if parsed.Err? then Err(Corrupt)
      else
        var decoded := DecodePayload(parsed.value);
        if decoded.None? then Err(Corrupt)
        else
          var payload := decoded.value;
          if !HonoursContract(payload, record) || !ReplacementFits(payload) then Err(Corrupt)
          else Ok(Some((payload, PublicEvent(h, payload, record))))
  }

  lemma EventTypesAreLifecycle(action: Action)
    ensures IsLifecycleType(EventTypeFor(action))
    ensures EventTypeFor(Supersede) != EventTypeFor(Tombstone)
  {
    assert SUPERSEDED_EVENT_TYPE[..|LIFECYCLE_EVENT_PREFIX|] == LIFECYCLE_EVENT_PREFIX;
    assert TOMBSTONED_EVENT_TYPE[..|LIFECYCLE_EVENT_PREFIX|] == LIFECYCLE_EVENT_PREFIX;
    assert SUPERSEDED_EVENT_TYPE[19] == 's' && TOMBSTONED_EVENT_TYPE[19] == 't';
  }

  /** A record written from a payload is read back as that payload exactly when the payload meets the reader's contract. */
  lemma WrittenRecordReadsBack(h: Hasher, p: Payload, record: EventRecord)
    requires record.payloadJson == Canonical(EncodePayload(p)) && record.eventType == EventTypeFor(p.action)
    ensures EventFromRecord(h, record) ==
      if HonoursContract(p, record) && ReplacementFits(p) then Ok(Some((p, PublicEvent(h, p, record)))) else Err(Corrupt)
  {
    hide Parse, DecodePayload, Canonical, EncodePayload, HonoursContract, ReplacementFits, PublicEvent, IsLifecycleType, FloatFree;
    EventTypesAreLifecycle(p.action);
    PayloadReadsBack(p);
    CanonicalReadsBack(EncodePayload(p));
  }

  // ---- Records of any origin ----

  /** A decoded object holds each field under its own name, and no other field. */
  lemma DecodedFieldByField(members: map<string, Value>, p: Payload)
    requires DecodePayload(Obj(members)) == Some(p)
    ensures members.Keys <= {"schema_version", "action", "doc_id", "doc_canonical_hash", "replacement_doc_id",
                             "replacement_canonical_hash", "subject_id", "reason", "effective_at_ms"}
    ensures {"schema_version", "action", "doc_id", "doc_canonical_hash", "subject_id", "reason", "effective_at_ms"} <= members.Keys
    ensures members["schema_version"] == Str(p.schemaVersion)
    ensures members["doc_id"] == Str(p.docId) && members["doc_canonical_hash"] == Str(p.docCanonicalHash)
    ensures members["subject_id"] == Str(p.subjectId) && members["reason"] == Str(p.reason)
    ensures members["effective_at_ms"] == Int(p.effectiveAtMs)
    ensures p.replacementDocId.Some? ==>
      "replacement_doc_id" in members && members["replacement_doc_id"] == Str(p.replacementDocId.value)
    ensures p.replacementDocId.None? ==> "replacement_doc_id" !in members || members["replacement_doc_id"].Null?
    ensures p.replacementCanonicalHash.Some? ==>
      "replacement_canonical_hash" in members && members["replacement_canonical_hash"] == Str(p.replacementCanonicalHash.value)
    ensures p.replacementCanonicalHash.None? ==>
      "replacement_canonical_hash" !in members || members["replacement_canonical_hash"].Null?
    ensures members["action"] == Str("supersede") ==> p.action.Supersede?
    ensures members["action"] == Str("tombstone") ==> p.action.Tombstone?
  {
    assert "supersede"[0] == 's' && "tombstone"[0] == 't';
  }

  /** Every condition the reader puts on a decoded payload, forged or not: it is taken exactly when all of them hold. */
  lemma RecordIsTakenExactly(h: Hasher, record: EventRecord, p: Payload)
    requires Parse(record.payloadJson).Ok? && DecodePayload(Parse(record.payloadJson).value) == Some(p)
    requires IsLifecycleType(record.eventType)
    ensures EventFromRecord(h, record).Ok? <==>
      p.schemaVersion == "knowledgecore_document_lifecycle_event.v1"
      && record.eventType == (if p.action.Supersede? then "document.lifecycle.superseded.v1" else "document.lifecycle.tombstoned.v1")
      && p.effectiveAtMs == record.tsMs
      && ValidDigest(p.docId) && ValidDigest(p.docCanonicalHash)
      && !Blank(p.subjectId) && |p.subjectId| <= 200 && !Blank(p.reason) && |p.reason| <= 240
      && (p.action.Supersede? ==>
            p.replacementDocId.Some? && p.replacementCanonicalHash.Some? && p.replacementDocId.value != p.docId
            && ValidDigest(p.replacementDocId.value) && ValidDigest(p.replacementCanonicalHash.value))
      && (p.action.Tombstone? ==> p.replacementDocId.None? && p.replacementCanonicalHash.None?)
  {
    hide Parse, DecodePayload, ValidDigest, Blank;
  }

  /** The public event says what the record and its payload say; subject and reason only as digests. */
  lemma EventSaysWhatTheRecordSays(h: Hasher, record: EventRecord)
    requires EventFromRecord(h, record).Ok? && EventFromRecord(h, record).value.Some?
    ensures var (p, e) := EventFromRecord(h, record).value.value;
      e.eventId == record.eventId && e.eventHash == record.eventHash && e.eventAtMs == record.tsMs
      && e.action == p.action && e.docId == p.docId && e.docCanonicalHash == p.docCanonicalHash
      && e.replacementDocId == p.replacementDocId && e.replacementCanonicalHash == p.replacementCanonicalHash
      && e.authorizationSubjectDigest == h("kc.document.lifecycle.authorization-subject.v1\n" + p.subjectId)
      && e.reasonDigest == h(p.reason)
    ensures var (p, e) := EventFromRecord(h, record).value.value;
      ValidDigest(p.docId)
  {
    hide Parse, DecodePayload, ValidDigest, Blank;
  }
}
