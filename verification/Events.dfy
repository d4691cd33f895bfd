/** Digest strings (hashing.rs). */
module Hashing {
  import opened Outcomes
  import opened Text

  predicate IsLowerHex(c: char) {
    IsDigit(c) || 'a' <= c <= 'f'
  }

  predicate ValidDigest(s: string) {
    "blake3:" <= s && |s| == 71 && forall i :: 7 <= i < |s| ==> IsLowerHex(s[i])
  }

  /** All that is known of the digest function without a collision hypothesis: the shape of its results. */
  ghost predicate Digests(h: Hasher) {
    forall t :: ValidDigest(h(t))
  }

  predicate NoNewline(s: string) {
    forall i :: 0 <= i < |s| ==> s[i] != '\n'
  }

  lemma DigestHasNoNewline(s: string)
    requires ValidDigest(s)
    ensures NoNewline(s) && s != ""
  {
    assert s[..7] == "blake3:";
    assert forall i :: 0 <= i < 7 ==> s[i] == "blake3:"[i];
  }
}

/** The owner event chain (events.rs). */
module Events {
  import opened Outcomes
  import opened Text
  import opened Hashing
  import opened CanonJson
  import opened JsonReader
  import opened JsonRoundTrip

  datatype EventRecord = EventRecord(
    eventId: int,
    tsMs: int,
    eventType: string,
    payloadJson: string,
    prevEventHash: Option<string>,
    eventHash: string)

  datatype EventError = PayloadNotJson | PayloadHasFloat | PayloadNotCanonical | HashMismatch | LinkInvalid

  function HashOrEmpty(prev: Option<string>): string {
    match prev case None => "" case Some(hash) => hash
  }

  /** The five lines that are hashed. */
  function Frame(tsMs: int, eventType: string, payloadJson: string, prev: Option<string>): string {
    "kc.event.v1\n" + (Decimal(tsMs) + "\n" + (eventType + "\n" + payloadJson + "\n" + HashOrEmpty(prev)))
  }

  function FrameOf(record: EventRecord): string {
    Frame(record.tsMs, record.eventType, record.payloadJson, record.prevEventHash)
  }

  ghost predicate RecordVerifies(h: Hasher, record: EventRecord) {
    IsCanonicalText(record.payloadJson) && h(FrameOf(record)) == record.eventHash
  }

  method VerifyEventRecord(h: Hasher, record: EventRecord) returns (r: Result<(), EventError>)
    ensures r.Ok? <==> RecordVerifies(h, record)
  {
    var payload := Parse(record.payloadJson);
    if payload.Err? {
      return Err(PayloadNotJson);
    }
    var canonical := ToCanonicalBytes(payload.value);
    if canonical.Err? {
      return Err(PayloadHasFloat);
    }
    if canonical.value != record.payloadJson {
      return Err(PayloadNotCanonical);
    }
    if h(FrameOf(record)) != record.eventHash {
      return Err(HashMismatch);
    }
    return Ok(());
  }

  function TipHash(rows: seq<EventRecord>): Option<string> {
    if rows == [] then None else Some(rows[|rows| - 1].eventHash)
  }

  /** Every record verifies and names the hash of the one before it; the first names none. */
  ghost predicate ChainVerifies(h: Hasher, rows: seq<EventRecord>) {
    forall i :: 0 <= i < |rows| ==>
      RecordVerifies(h, rows[i]) && rows[i].prevEventHash == TipHash(rows[..i])
  }

  lemma EmptyChainVerifies(h: Hasher, rows: seq<EventRecord>)
    requires rows == []
    ensures ChainVerifies(h, rows)
  {
  }

  lemma ChainExtends(h: Hasher, rows: seq<EventRecord>, i: nat)
    requires i < |rows|
    ensures ChainVerifies(h, rows[..i + 1]) <==>
      ChainVerifies(h, rows[..i]) && RecordVerifies(h, rows[i]) && rows[i].prevEventHash == TipHash(rows[..i])
    ensures ChainVerifies(h, rows) ==> RecordVerifies(h, rows[i]) && rows[i].prevEventHash == TipHash(rows[..i])
  {
    hide RecordVerifies, TipHash;
    var longer, shorter := rows[..i + 1], rows[..i];
    assert longer[i] == rows[i] && longer[..i] == shorter;
    assert forall j :: 0 <= j < i ==> longer[j] == shorter[j] && longer[..j] == shorter[..j];
  }

  function NewRecord(h: Hasher, rows: seq<EventRecord>, eventId: int, tsMs: int, eventType: string, payloadJson: string): EventRecord {
    var prev := TipHash(rows);
    EventRecord(eventId, tsMs, eventType, payloadJson, prev, h(Frame(tsMs, eventType, payloadJson, prev)))
  }

  /** The events table; rows are kept in event_id order. */
  class EventLog {
    var rows: seq<EventRecord>
    var lastId: int

    ghost predicate Valid()
      reads this
    {
      (forall i, j :: 0 <= i < j < |rows| ==> rows[i].eventId < rows[j].eventId)
      && (forall i :: 0 <= i < |rows| ==> rows[i].eventId <= lastId)
    }

    constructor ()
      ensures Valid() && rows == []
    {
      rows, lastId := [], 0;
    }

    /** Reads the chain in order and stops at the first broken link or record. */
    method ReadVerifiedEventChain(h: Hasher) returns (r: Result<seq<EventRecord>, EventError>)
      ensures r.Ok? <==> ChainVerifies(h, rows)
      ensures r.Ok? ==> r.value == rows
    {
      hide ChainVerifies, RecordVerifies;
      var records := [];
      var expectedPrev := None;
      EmptyChainVerifies(h, rows[..0]);
      for i := 0 to |rows|
        invariant records == rows[..i] && expectedPrev == TipHash(rows[..i])
        invariant ChainVerifies(h, rows[..i])
      {
        var record := rows[i];
        ChainExtends(h, rows, i);
        if record.prevEventHash != expectedPrev {
          return Err(LinkInvalid);
        }
        var verified := VerifyEventRecord(h, record);
        if verified.Err? {
          return Err(verified.error);
        }
        expectedPrev := Some(record.eventHash);
        records := records + [record];
      }
      assert rows[..|rows|] == rows;
      return Ok(records);
    }

    /** Appends one record linked to the current tip, or nothing when the payload cannot be printed. */
    method AppendEvent(h: Hasher, tsMs: int, eventType: string, payload: Value) returns (r: Result<EventRecord, EventError>)
      requires Valid()
      modifies this
      ensures Valid()
      ensures r.Ok? <==> FloatFree(payload)
      ensures r.Ok? ==> rows == old(rows) + [r.value]
      ensures r.Ok? ==> r.value == NewRecord(h, old(rows), r.value.eventId, tsMs, eventType, Canonical(payload))
      ensures r.Err? ==> rows == old(rows)
    {
      var payloadJson := ToCanonicalBytes(payload);
      if payloadJson.Err? {
        return Err(PayloadHasFloat);
      }
      lastId := lastId + 1;
      var record := NewRecord(h, rows, lastId, tsMs, eventType, payloadJson.value);
      rows := rows + [record];
      return Ok(record);
    }
  }

  /** What AppendEvent writes always verifies, so a verified chain stays verified. */
  lemma AppendKeepsChain(h: Hasher, rows: seq<EventRecord>, eventId: int, tsMs: int, eventType: string, payload: Value)
    requires ChainVerifies(h, rows) && FloatFree(payload)
    ensures ChainVerifies(h, rows + [NewRecord(h, rows, eventId, tsMs, eventType, Canonical(payload))])
  {
    hide ChainVerifies, IsCanonicalText, Canonical, Frame;
    var record := NewRecord(h, rows, eventId, tsMs, eventType, Canonical(payload));
    var all := rows + [record];
    CanonicalTextsAreThePrinted(Canonical(payload));
    ChainExtends(h, all, |rows|);
    assert all[..|rows|] == rows && all[..|rows| + 1] == all;
  }

  // ---- Unique decoding of the frame ----

  lemma SplitFirst(a: string, b: string, c: string, d: string)
    requires NoNewline(a) && NoNewline(c) && a + "\n" + b == c + "\n" + d
    ensures a == c && b == d
  {
    var s := a + "\n" + b;
    var t := c + "\n" + d;
    assert s[|a|] == '\n' && t[|c|] == '\n';
    assert forall i :: 0 <= i < |a| ==> s[i] == a[i];
    assert forall i :: 0 <= i < |c| ==> t[i] == c[i];
    assert |a| == |c|;
    assert s[..|a|] == a && t[..|c|] == c;
    assert s[|a| + 1..] == b && t[|c| + 1..] == d;
  }

  lemma SplitLast(a: string, b: string, c: string, d: string)
    requires NoNewline(b) && NoNewline(d) && a + "\n" + b == c + "\n" + d
    ensures a == c && b == d
  {
    var s := a + "\n" + b;
    var t := c + "\n" + d;
    assert s[|a|] == '\n' && t[|c|] == '\n';
    assert forall i :: |a| < i < |s| ==> s[i] == b[i - |a| - 1];
    assert forall i :: |c| < i < |t| ==> t[i] == d[i - |c| - 1];
    assert |a| == |c|;
    assert s[..|a|] == a && t[..|c|] == c;
    assert s[|a| + 1..] == b && t[|c| + 1..] == d;
  }

  lemma DecimalHasNoNewline(n: int)
    ensures NoNewline(Decimal(n))
  {
    DigitsReadBack(if n < 0 then -n else n);
  }

  lemma CanonicalTextHasNoNewline(text: string)
    requires IsCanonicalText(text)
    ensures NoNewline(text)
  {
    CanonicalNoControl(Parse(text).value);
  }

  predicate PrevIsDigest(prev: Option<string>) {
    prev.Some? ==> ValidDigest(prev.value)
  }

  /** A frame is read back in one way only, whatever characters the event type holds. */
  lemma FrameDecodesUniquely(a: EventRecord, b: EventRecord)
    requires IsCanonicalText(a.payloadJson) && IsCanonicalText(b.payloadJson)
    requires PrevIsDigest(a.prevEventHash) && PrevIsDigest(b.prevEventHash)
    requires FrameOf(a) == FrameOf(b)
    ensures a.tsMs == b.tsMs && a.eventType == b.eventType
    ensures a.payloadJson == b.payloadJson && a.prevEventHash == b.prevEventHash
  {
    hide IsCanonicalText, Decimal, ValidDigest;
    var prevA, prevB := HashOrEmpty(a.prevEventHash), HashOrEmpty(b.prevEventHash);
    var restA := a.eventType + "\n" + a.payloadJson + "\n" + prevA;
    var restB := b.eventType + "\n" + b.payloadJson + "\n" + prevB;
    DecimalHasNoNewline(a.tsMs);
    DecimalHasNoNewline(b.tsMs);
    var tag := "kc.event.v1\n";
    assert FrameOf(a)[|tag|..] == Decimal(a.tsMs) + "\n" + restA;
    assert FrameOf(b)[|tag|..] == Decimal(b.tsMs) + "\n" + restB;
    SplitFirst(Decimal(a.tsMs), restA, Decimal(b.tsMs), restB);
    DecimalInjective(a.tsMs, b.tsMs);
    if a.prevEventHash.Some? {
      DigestHasNoNewline(prevA);
    }
    if b.prevEventHash.Some? {
      DigestHasNoNewline(prevB);
    }
    SplitLast(a.eventType + "\n" + a.payloadJson, prevA, b.eventType + "\n" + b.payloadJson, prevB);
    CanonicalTextHasNoNewline(a.payloadJson);
    CanonicalTextHasNoNewline(b.payloadJson);
    SplitLast(a.eventType, a.payloadJson, b.eventType, b.payloadJson);
  }

  /** A text cut at its newlines. */
  function Lines(s: string): (lines: seq<string>)
    ensures lines != []
  {
    if s == "" then [""]
    else
      var rest := Lines(s[1..]);
      if s[0] == '\n' then [""] + rest else [[s[0]] + rest[0]] + rest[1..]
  }

  lemma {:induction false} OneMoreLine(line: string, rest: string)
    requires NoNewline(line)
    ensures Lines(line) == [line]
    ensures Lines(line + ("\n" + rest)) == [line] + Lines(rest)
  {
    var s := line + ("\n" + rest);
    if line == "" {
      assert s == "\n" + rest && s[1..] == rest;
    } else {
      OneMoreLine(line[1..], rest);
      assert s[1..] == line[1..] + ("\n" + rest);
      assert line == [line[0]] + line[1..];
    }
  }

  /** What is hashed is five lines where the type holds no newline: tag, time, type, payload, and the hash before or nothing. */
  lemma FrameIsFiveLines(record: EventRecord)
    requires NoNewline(record.eventType) && IsCanonicalText(record.payloadJson) && PrevIsDigest(record.prevEventHash)
    ensures Lines(FrameOf(record)) ==
      ["kc.event.v1", Decimal(record.tsMs), record.eventType, record.payloadJson,
       if record.prevEventHash.Some? then record.prevEventHash.value else ""]
  {
    hide NoNewline, IsCanonicalText, Decimal, ValidDigest, Lines;
    var time, prev := Decimal(record.tsMs), HashOrEmpty(record.prevEventHash);
    var last := record.payloadJson + ("\n" + prev);
    var middle := record.eventType + ("\n" + last);
    DecimalHasNoNewline(record.tsMs);
    CanonicalTextHasNoNewline(record.payloadJson);
    assert NoNewline("kc.event.v1") && NoNewline("") by {
      TagHasNoNewline();
    }
    if record.prevEventHash.Some? {
      DigestHasNoNewline(prev);
    }
    assert FrameOf(record) == "kc.event.v1" + ("\n" + (time + ("\n" + middle))) by {
      assert "kc.event.v1\n" == "kc.event.v1" + "\n";
      assert record.eventType + "\n" + record.payloadJson + "\n" + prev == middle;
    }
    OneMoreLine("kc.event.v1", time + ("\n" + middle));
    OneMoreLine(time, middle);
    OneMoreLine(record.eventType, last);
    OneMoreLine(record.payloadJson, prev);
    OneMoreLine(prev, "");
  }

  lemma TagHasNoNewline()
    ensures NoNewline("kc.event.v1") && NoNewline("")
  {
  }

  /** No two different frames among those hashed in the two chains share a digest. */
  ghost predicate NoCollision(h: Hasher, a: seq<EventRecord>, b: seq<EventRecord>) {
    forall i, j :: 0 <= i < |a| && 0 <= j < |b| && h(FrameOf(a[i])) == h(FrameOf(b[j])) ==> FrameOf(a[i]) == FrameOf(b[j])
  }

  ghost predicate SameEvent(a: EventRecord, b: EventRecord) {
    a.tsMs == b.tsMs && a.eventType == b.eventType && a.payloadJson == b.payloadJson
    && a.prevEventHash == b.prevEventHash && a.eventHash == b.eventHash
  }

  lemma PrefixVerifies(h: Hasher, rows: seq<EventRecord>)
    requires rows != [] && ChainVerifies(h, rows)
    ensures ChainVerifies(h, rows[..|rows| - 1])
    ensures rows[|rows| - 1].prevEventHash == TipHash(rows[..|rows| - 1])
  {
    var front := rows[..|rows| - 1];
    forall i | 0 <= i < |front|
      ensures RecordVerifies(h, front[i]) && front[i].prevEventHash == TipHash(front[..i])
    {
      assert front[i] == rows[i] && front[..i] == rows[..i];
    }
  }

  /** The hash of the last record fixes the whole history: length, times, types, payloads and links. */
  lemma {:induction false} TipDeterminesChain(h: Hasher, a: seq<EventRecord>, b: seq<EventRecord>)
    requires Digests(h) && NoCollision(h, a, b)
    requires ChainVerifies(h, a) && ChainVerifies(h, b)
    requires TipHash(a) == TipHash(b)
    ensures |a| == |b|
    ensures forall i :: 0 <= i < |a| ==> SameEvent(a[i], b[i])
    decreases |a|
  {
    hide IsCanonicalText, ValidDigest, FrameOf;
    if a != [] {
      var x, y := a[|a| - 1], b[|b| - 1];
      var frontA, frontB := a[..|a| - 1], b[..|b| - 1];
      assert RecordVerifies(h, x) && RecordVerifies(h, y);
      PrefixVerifies(h, a);
      PrefixVerifies(h, b);
      TipIsDigest(h, frontA);
      TipIsDigest(h, frontB);
      FrameDecodesUniquely(x, y);
      assert NoCollision(h, frontA, frontB);
      TipDeterminesChain(h, frontA, frontB);
      assert SameEvent(x, y);
      forall i | 0 <= i < |a|
        ensures SameEvent(a[i], b[i])
      {
        if i < |a| - 1 {
          assert SameEvent(frontA[i], frontB[i]);
        }
      }
    }
  }

  lemma TipIsDigest(h: Hasher, rows: seq<EventRecord>)
    requires Digests(h) && ChainVerifies(h, rows)
    ensures PrevIsDigest(TipHash(rows))
  {
    if rows != [] {
      assert RecordVerifies(h, rows[|rows| - 1]);
    }
  }
}
