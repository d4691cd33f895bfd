/** The candidate loop and the disposition of the V2 federation query (federation.rs). */
module Federation {
  import opened Outcomes
  import opened Text
  import opened Hashing
  import opened LifecycleRecords
  import opened LifecycleResolver
  import opened LifecycleStore
  import opened LifecycleRuns

  const MAX_RESULT_LIMIT := 20
  const MAX_SCAN_CANDIDATES := 200
  const MAX_PROVENANCE_STRING_CHARS := 100
  const MAX_TOOLCHAIN_JSON_BYTES := 64 * 1024

  datatype CandidateRow = CandidateRow(
    docId: string,
    sourceKind: string,
    effectiveTsMs: int,
    ingestedEventId: int,
    canonicalObjectHash: string,
    canonicalHash: string,
    extractorName: string,
    extractorVersion: string,
    normalizationVersion: int,
    toolchainBytes: nat)

  datatype Fact = Fact(sourceItemId: string, observedAtMs: int, canonicalHash: string)

  /** A matching candidate is answered by a fact or by a lifecycle notice. */
  datatype Item = FactItem(fact: Fact) | NoticeItem(notice: Resolution)

  datatype Disposition = NoMatch | ActiveOnly | SuppressedOnly | ActiveAndSuppressed | ConflictedMatch

  datatype Answer = Answer(facts: seq<Fact>, notices: seq<Resolution>, disposition: Disposition)

  datatype QueryError = IntegrityFailed | ContentUnavailable | LifecycleFailed(cause: LifecycleError)

  /** The object store and the text search, seen from outside. */
  datatype Reader = Reader(h: Hasher, content: string -> Option<string>, hasNeedle: string -> bool)

  /** The limit of a request, clamped to 1..20. */
  function ClampLimit(limit: nat): nat {
    if limit < 1 then 1 else if limit > MAX_RESULT_LIMIT then MAX_RESULT_LIMIT else limit
  }

  predicate ValidCandidate(c: CandidateRow) {
    ValidDigest(c.docId) && ValidDigest(c.canonicalObjectHash) && ValidDigest(c.canonicalHash)
    && c.canonicalObjectHash == c.canonicalHash
    && !Blank(c.sourceKind) && |c.sourceKind| <= MAX_PROVENANCE_STRING_CHARS
    && !Blank(c.extractorName) && |c.extractorName| <= MAX_PROVENANCE_STRING_CHARS
    && |c.extractorVersion| <= MAX_PROVENANCE_STRING_CHARS
    && c.normalizationVersion >= 0 && c.ingestedEventId >= 0
    && c.toolchainBytes <= MAX_TOOLCHAIN_JSON_BYTES
  }

  /** The text of a candidate, once it is known to be the text its hash names. */
  function VerifiedText(reader: Reader, c: CandidateRow): Result<string, QueryError> {
    if !ValidCandidate(c) then Err(IntegrityFailed)
    else
      var text := (reader.content)(c.canonicalObjectHash);
      if text.None? then Err(ContentUnavailable)
      else if (reader.h)(text.value) != c.canonicalHash then Err(IntegrityFailed)
      else Ok(text.value)
  }

  /** What one candidate contributes: nothing when it does not match, otherwise one item. */
  ghost function Look(reader: Reader, byDoc: ByDoc, c: CandidateRow): Result<Option<Item>, QueryError> {
    var text :- VerifiedText(reader, c);
    if !(reader.hasNeedle)(text) then Ok(None)
    else
      var resolved := Resolve(c.docId, byDoc);
      if resolved.Err? then Err(LifecycleFailed(resolved.error))
      else if resolved.value.initialState != InitialState.Active then Ok(Some(NoticeItem(resolved.value)))
      else Ok(Some(FactItem(Fact(c.docId, c.effectiveTsMs, c.canonicalHash))))
  }

  /** The items of the first candidates, in scan order. */
  ghost function Items(reader: Reader, byDoc: ByDoc, cs: seq<CandidateRow>): seq<Item> {
    if cs == [] then []
    else
      var sofar := Items(reader, byDoc, cs[..|cs| - 1]);
      var looked := Look(reader, byDoc, cs[|cs| - 1]);
      if looked.Ok? && looked.value.Some? then sofar + [looked.value.value] else sofar
  }

  ghost predicate AllReadable(reader: Reader, byDoc: ByDoc, cs: seq<CandidateRow>) {
    forall i :: 0 <= i < |cs| ==> Look(reader, byDoc, cs[i]).Ok?
  }

  function FactsOf(items: seq<Item>): seq<Fact> {
    if items == [] then []
    else FactsOf(items[..|items| - 1]) + (if items[|items| - 1].FactItem? then [items[|items| - 1].fact] else [])
  }

  function NoticesOf(items: seq<Item>): seq<Resolution> {
    if items == [] then []
    else NoticesOf(items[..|items| - 1]) + (if items[|items| - 1].NoticeItem? then [items[|items| - 1].notice] else [])
  }

  /** The scan stops at the end, or right after the item that fills the limit. */
  ghost predicate StopsAfter(reader: Reader, byDoc: ByDoc, cs: seq<CandidateRow>, limit: nat, n: nat) {
    n <= |cs|
    && AllReadable(reader, byDoc, cs[..n])
    && |Items(reader, byDoc, cs[..n])| <= limit
    && (n == |cs| || |Items(reader, byDoc, cs[..n])| == limit)
    && (forall m: nat :: m < n ==> |Items(reader, byDoc, cs[..m])| < limit)
  }

  predicate HasConflict(notices: seq<Resolution>) {
    exists i :: 0 <= i < |notices| && (notices[i].initialState.Conflicted? || notices[i].terminalState.Conflicted?)
  }

  function DispositionOf(facts: seq<Fact>, notices: seq<Resolution>): Disposition {
    if HasConflict(notices) then ConflictedMatch
    else if facts == [] && notices == [] then NoMatch
    else if notices == [] then ActiveOnly
    else if facts == [] then SuppressedOnly
    else ActiveAndSuppressed
  }

  ghost predicate Answers(reader: Reader, byDoc: ByDoc, cs: seq<CandidateRow>, limit: nat, answer: Answer, n: nat) {
    StopsAfter(reader, byDoc, cs, limit, n)
    && answer.facts == FactsOf(Items(reader, byDoc, cs[..n]))
    && answer.notices == NoticesOf(Items(reader, byDoc, cs[..n]))
    && answer.disposition == DispositionOf(answer.facts, answer.notices)
  }

  /** Candidate n is reached before the limit, everything before it is readable, and it fails. */
  ghost predicate FailsAt(reader: Reader, byDoc: ByDoc, cs: seq<CandidateRow>, limit: nat, n: nat, error: QueryError) {
    n < |cs| && AllReadable(reader, byDoc, cs[..n]) && |Items(reader, byDoc, cs[..n])| < limit
    && Look(reader, byDoc, cs[n]) == Err(error)
  }

  lemma ItemsStep(reader: Reader, byDoc: ByDoc, cs: seq<CandidateRow>, i: nat)
    requires i < |cs|
    ensures var before, after, looked := Items(reader, byDoc, cs[..i]), Items(reader, byDoc, cs[..i + 1]), Look(reader, byDoc, cs[i]);
      && after == (if looked.Ok? && looked.value.Some? then before + [looked.value.value] else before)
      && (AllReadable(reader, byDoc, cs[..i]) && looked.Ok? ==> AllReadable(reader, byDoc, cs[..i + 1]))
      && |FactsOf(before)| + |NoticesOf(before)| == |before|
      && (looked.Ok? && looked.value.Some? ==>
            FactsOf(after) == FactsOf(before) + (if looked.value.value.FactItem? then [looked.value.value.fact] else [])
            && NoticesOf(after) == NoticesOf(before) + (if looked.value.value.NoticeItem? then [looked.value.value.notice] else []))
  {
    hide Look;
    assert cs[..i + 1][..i] == cs[..i];
    var before := Items(reader, byDoc, cs[..i]);
    FactsAndNoticesAreAll(before);
    var looked := Look(reader, byDoc, cs[i]);
    if looked.Ok? && looked.value.Some? {
      assert (before + [looked.value.value])[..|before|] == before;
    }
  }

  lemma {:induction false} FactsAndNoticesAreAll(items: seq<Item>)
    ensures |FactsOf(items)| + |NoticesOf(items)| == |items|
  {
    if items != [] {
      FactsAndNoticesAreAll(items[..|items| - 1]);
    }
  }

  /** Scans candidates until the limit fills; an unreadable or unresolvable match before that fails the whole query. */
  method RunQueryV2(reader: Reader, byDoc: ByDoc, candidates: seq<CandidateRow>, requestLimit: nat)
      returns (r: Result<Answer, QueryError>)
    requires |candidates| <= MAX_SCAN_CANDIDATES
    ensures r.Ok? ==> exists n: nat :: Answers(reader, byDoc, candidates, ClampLimit(requestLimit), r.value, n)
    ensures r.Err? ==> exists n: nat :: FailsAt(reader, byDoc, candidates, ClampLimit(requestLimit), n, r.error)
  {
    hide Resolve, ValidCandidate, Items, FactsOf, NoticesOf, AllReadable;
    var limit := ClampLimit(requestLimit);
    var facts, notices := [], [];
    var next := 0;
    NothingScanned(reader, byDoc, candidates);
    while next < |candidates| && |facts| + |notices| < limit
      invariant next <= |candidates|
      invariant AllReadable(reader, byDoc, candidates[..next])
      invariant facts == FactsOf(Items(reader, byDoc, candidates[..next]))
      invariant notices == NoticesOf(Items(reader, byDoc, candidates[..next]))
      invariant |facts| + |notices| == |Items(reader, byDoc, candidates[..next])| <= limit
      invariant forall m: nat :: m < next ==> |Items(reader, byDoc, candidates[..m])| < limit
    {
      var c := candidates[next];
      ItemsStep(reader, byDoc, candidates, next);
      var text := VerifiedText(reader, c);
      if text.Err? {
        assert FailsAt(reader, byDoc, candidates, limit, next, text.error);
        return Err(text.error);
      }
      if (reader.hasNeedle)(text.value) {
        var resolved := ResolveDocumentLifecycle(c.docId, byDoc);
        if resolved.Err? {
          assert FailsAt(reader, byDoc, candidates, limit, next, LifecycleFailed(resolved.error));
          return Err(LifecycleFailed(resolved.error));
        }
        if resolved.value.initialState != InitialState.Active {
          notices := notices + [resolved.value];
        } else {
          facts := facts + [Fact(c.docId, c.effectiveTsMs, c.canonicalHash)];
        }
      }
      next := next + 1;
    }
    assert Answers(reader, byDoc, candidates, limit, Answer(facts, notices, DispositionOf(facts, notices)), next);
    return Ok(Answer(facts, notices, DispositionOf(facts, notices)));
  }

  lemma NothingScanned(reader: Reader, byDoc: ByDoc, cs: seq<CandidateRow>)
    ensures Items(reader, byDoc, cs[..0]) == [] && FactsOf([]) == [] && NoticesOf([]) == []
    ensures AllReadable(reader, byDoc, cs[..0])
  {
  }

  // ---- What an answer says ----

  function IdOf(item: Item): string {
    match item case FactItem(fact) => fact.sourceItemId case NoticeItem(notice) => notice.sourceDocId
  }

  predicate Matches(reader: Reader, c: CandidateRow) {
    VerifiedText(reader, c).Ok? && (reader.hasNeedle)(VerifiedText(reader, c).value)
  }

  /** The documents of the matching candidates, in scan order. */
  function MatchIds(reader: Reader, cs: seq<CandidateRow>): seq<string> {
    if cs == [] then []
    else MatchIds(reader, cs[..|cs| - 1]) + (if Matches(reader, cs[|cs| - 1]) then [cs[|cs| - 1].docId] else [])
  }

  function IdsOf(items: seq<Item>): seq<string> {
    seq(|items|, i requires 0 <= i < |items| => IdOf(items[i]))
  }

  lemma LookSaysWhich(reader: Reader, byDoc: ByDoc, c: CandidateRow)
    requires Look(reader, byDoc, c).Ok?
    ensures Look(reader, byDoc, c).value.Some? <==> Matches(reader, c)
    ensures Look(reader, byDoc, c).value.Some? ==>
      var item := Look(reader, byDoc, c).value.value;
      IdOf(item) == c.docId && (item.FactItem? <==> c.docId !in byDoc)
  {
    hide ValidCandidate, Resolve;
    ActiveMeansNoEvent(byDoc, c.docId);
    SourceOfResolution(byDoc, c.docId);
  }

  lemma SourceOfResolution(byDoc: ByDoc, doc: string)
    ensures Resolve(doc, byDoc).Ok? ==> Resolve(doc, byDoc).value.sourceDocId == doc
  {
  }

  /** Every match before the cut becomes exactly one item, in scan order: a fact if no event is filed for it, a notice if one is. */
  lemma {:induction false} ItemsAreTheMatches(reader: Reader, byDoc: ByDoc, cs: seq<CandidateRow>)
    requires AllReadable(reader, byDoc, cs)
    ensures IdsOf(Items(reader, byDoc, cs)) == MatchIds(reader, cs)
    ensures forall i :: 0 <= i < |Items(reader, byDoc, cs)| ==>
      (Items(reader, byDoc, cs)[i].FactItem? <==> IdOf(Items(reader, byDoc, cs)[i]) !in byDoc)
  {
    hide Look, Matches;
    if cs != [] {
      var front, last := cs[..|cs| - 1], cs[|cs| - 1];
      assert Look(reader, byDoc, last).Ok?;
      LookSaysWhich(reader, byDoc, last);
      assert forall i :: 0 <= i < |front| ==> front[i] == cs[i];
      ItemsAreTheMatches(reader, byDoc, front);
    }
  }

  lemma {:induction false} ListsAreTheItems(items: seq<Item>)
    ensures forall f :: f in FactsOf(items) <==> FactItem(f) in items
    ensures forall n :: n in NoticesOf(items) <==> NoticeItem(n) in items
  {
    if items != [] {
      ListsAreTheItems(items[..|items| - 1]);
      assert items == items[..|items| - 1] + [items[|items| - 1]];
    }
  }

  lemma {:induction false} ListsHoldEachItemOnce(items: seq<Item>)
    ensures multiset(FactIds(FactsOf(items))) + multiset(NoticeIds(NoticesOf(items))) == multiset(IdsOf(items))
  {
    if items != [] {
      var front, last := items[..|items| - 1], items[|items| - 1];
      ListsHoldEachItemOnce(front);
      assert IdsOf(items) == IdsOf(front) + [IdOf(last)];
      if last.FactItem? {
        assert NoticesOf(items) == NoticesOf(front);
        assert FactIds(FactsOf(items)) == FactIds(FactsOf(front)) + [last.fact.sourceItemId];
      } else {
        assert FactsOf(items) == FactsOf(front);
        assert NoticeIds(NoticesOf(items)) == NoticeIds(NoticesOf(front)) + [last.notice.sourceDocId];
      }
    }
  }

  function FactIds(facts: seq<Fact>): seq<string> {
    seq(|facts|, i requires 0 <= i < |facts| => facts[i].sourceItemId)
  }

  function NoticeIds(notices: seq<Resolution>): seq<string> {
    seq(|notices|, i requires 0 <= i < |notices| => notices[i].sourceDocId)
  }

  /** An answer splits the scanned matches into facts and notices, losing none, within the clamped limit. */
  lemma AnswerPartitionsMatches(reader: Reader, byDoc: ByDoc, cs: seq<CandidateRow>, requestLimit: nat, answer: Answer, n: nat)
    requires Answers(reader, byDoc, cs, ClampLimit(requestLimit), answer, n)
    ensures n <= |cs| && |answer.facts| + |answer.notices| <= 20
    ensures requestLimit >= 1 ==> |answer.facts| + |answer.notices| <= requestLimit
    ensures requestLimit == 0 ==> |answer.facts| + |answer.notices| <= 1
    ensures |answer.facts| + |answer.notices| == |MatchIds(reader, cs[..n])|
    ensures multiset(FactIds(answer.facts)) + multiset(NoticeIds(answer.notices)) == multiset(MatchIds(reader, cs[..n]))
    ensures forall f :: f in answer.facts ==> f.sourceItemId !in byDoc
    ensures forall notice :: notice in answer.notices ==> notice.sourceDocId in byDoc
  {
    hide Look;
    var items := Items(reader, byDoc, cs[..n]);
    ItemsAreTheMatches(reader, byDoc, cs[..n]);
    ListsAreTheItems(items);
    ListsHoldEachItemOnce(items);
    FactsAndNoticesAreAll(items);
    forall f | f in answer.facts
      ensures f.sourceItemId !in byDoc
    {
      var i :| 0 <= i < |items| && items[i] == FactItem(f);
    }
    forall notice | notice in answer.notices
      ensures notice.sourceDocId in byDoc
    {
      var i :| 0 <= i < |items| && items[i] == NoticeItem(notice);
    }
  }

  lemma CutIsUnique(reader: Reader, byDoc: ByDoc, cs: seq<CandidateRow>, limit: nat, n: nat, m: nat)
    requires StopsAfter(reader, byDoc, cs, limit, n) && StopsAfter(reader, byDoc, cs, limit, m)
    ensures n == m
  {
    hide Items, AllReadable;
  }

  /** The lifecycle map, the candidates and the limit leave room for one answer only. */
  lemma AnswersAreUnique(reader: Reader, byDoc: ByDoc, cs: seq<CandidateRow>, limit: nat, a: Answer, n: nat, b: Answer, m: nat)
    requires Answers(reader, byDoc, cs, limit, a, n) && Answers(reader, byDoc, cs, limit, b, m)
    ensures a == b && n == m
  {
    hide Items, AllReadable;
    CutIsUnique(reader, byDoc, cs, limit, n, m);
  }

  /** Once any state of a run files an event for a document, no later answer states it as a fact; if scanned, it is a notice. */
  lemma SuppressionIsForever(h: Hasher, isUuid: string -> bool, states: seq<State>, steps: seq<Step>, i: nat, j: nat, doc: string,
                             reader: Reader, cs: seq<CandidateRow>, limit: nat, answer: Answer, n: nat)
    requires Run(h, isUuid, states, steps) && i <= j < |states|
    requires Load(h, states[i].canonical, states[i].rows).Ok? && doc in Load(h, states[i].canonical, states[i].rows).value
    requires Load(h, states[j].canonical, states[j].rows).Ok?
    requires Answers(reader, Load(h, states[j].canonical, states[j].rows).value, cs, ClampLimit(limit), answer, n)
    ensures doc !in FactIds(answer.facts)
    ensures doc in MatchIds(reader, cs[..n]) ==> doc in NoticeIds(answer.notices)
  {
    hide Load, Answers, MatchIds, Run;
    var byDoc := Load(h, states[j].canonical, states[j].rows).value;
    RunsKeepEvents(h, isUuid, states, steps, i, j);
    AnswerPartitionsMatches(reader, byDoc, cs, limit, answer, n);
    forall k | 0 <= k < |answer.facts|
      ensures answer.facts[k].sourceItemId != doc
    {
      assert answer.facts[k] in answer.facts;
    }
    if doc in MatchIds(reader, cs[..n]) {
      assert doc in multiset(MatchIds(reader, cs[..n]));
      assert doc in multiset(FactIds(answer.facts)) + multiset(NoticeIds(answer.notices));
    }
  }

  /** In every run the disposition is told by which of the two lists are empty; a conflict is never reported. */
  lemma RunsNeverReportConflict(h: Hasher, isUuid: string -> bool, states: seq<State>, steps: seq<Step>, j: nat,
                                reader: Reader, cs: seq<CandidateRow>, limit: nat, answer: Answer, n: nat)
    requires Run(h, isUuid, states, steps) && j < |states| && Load(h, states[j].canonical, states[j].rows).Ok?
    requires Answers(reader, Load(h, states[j].canonical, states[j].rows).value, cs, limit, answer, n)
    ensures answer.disposition ==
      if answer.facts == [] && answer.notices == [] then NoMatch
      else if answer.notices == [] then ActiveOnly
      else if answer.facts == [] then SuppressedOnly
      else ActiveAndSuppressed
  {
    hide Load, Run, Look, FactsOf;
    var byDoc := Load(h, states[j].canonical, states[j].rows).value;
    var items := Items(reader, byDoc, cs[..n]);
    ListsAreTheItems(items);
    forall k | 0 <= k < |answer.notices|
      ensures !answer.notices[k].initialState.Conflicted? && !answer.notices[k].terminalState.Conflicted?
    {
      var notice := answer.notices[k];
      assert notice in NoticesOf(items);
      NoticesAreResolutions(reader, byDoc, cs[..n], notice);
      RunsNeverConflict(h, isUuid, states, steps, j, notice.sourceDocId);
    }
  }

  lemma {:induction false} NoticesAreResolutions(reader: Reader, byDoc: ByDoc, cs: seq<CandidateRow>, notice: Resolution)
    requires NoticeItem(notice) in Items(reader, byDoc, cs)
    ensures ValidDigest(notice.sourceDocId) && Resolve(notice.sourceDocId, byDoc) == Ok(notice)
  {
    hide Resolve;
    if cs != [] {
      var front, last := cs[..|cs| - 1], cs[|cs| - 1];
      if NoticeItem(notice) in Items(reader, byDoc, front) {
        NoticesAreResolutions(reader, byDoc, front, notice);
      } else {
        assert Look(reader, byDoc, last) == Ok(Some(NoticeItem(notice)));
        SourceOfResolution(byDoc, last.docId);
      }
    }
  }

  // ---- How many, which, and what they say ----

  lemma {:induction false} MatchesGrow(reader: Reader, cs: seq<CandidateRow>, n: nat)
    requires n <= |cs|
    ensures |MatchIds(reader, cs[..n])| <= |MatchIds(reader, cs)|
  {
    if n == |cs| {
      assert cs[..n] == cs;
    } else {
      assert cs[..|cs| - 1][..n] == cs[..n];
      MatchesGrow(reader, cs[..|cs| - 1], n);
    }
  }

  /**
   * When every candidate can be read and resolved, the answer has exactly as many entries as there are matches, the
   * request allows, and twenty allows, whichever is least; a request for none counts as one.
   */
  lemma AnswerCountIsExact(reader: Reader, byDoc: ByDoc, cs: seq<CandidateRow>, requestLimit: nat, answer: Answer, n: nat)
    requires Answers(reader, byDoc, cs, ClampLimit(requestLimit), answer, n) && AllReadable(reader, byDoc, cs)
    ensures var matches, wanted := |MatchIds(reader, cs)|, if requestLimit >= 1 then requestLimit else 1;
      |answer.facts| + |answer.notices| ==
        if matches <= wanted && matches <= 20 then matches else if wanted <= 20 then wanted else 20
  {
    hide Look, MatchIds, FactsOf, NoticesOf;
    AnswerPartitionsMatches(reader, byDoc, cs, requestLimit, answer, n);
    FactsAndNoticesAreAll(Items(reader, byDoc, cs[..n]));
    MatchesGrow(reader, cs, n);
    if n == |cs| {
      assert cs[..n] == cs;
    }
  }

  /** What it takes for a candidate's text to be read, and that it is the text its hash names. */
  lemma CandidateReadsExactly(reader: Reader, c: CandidateRow)
    ensures VerifiedText(reader, c).Ok? <==>
      ValidDigest(c.docId) && ValidDigest(c.canonicalHash) && c.canonicalObjectHash == c.canonicalHash
      && !Blank(c.sourceKind) && |c.sourceKind| <= 100 && !Blank(c.extractorName) && |c.extractorName| <= 100
      && |c.extractorVersion| <= 100 && c.normalizationVersion >= 0 && c.ingestedEventId >= 0 && c.toolchainBytes <= 65536
      && (reader.content)(c.canonicalHash).Some?
      && (reader.h)((reader.content)(c.canonicalHash).value) == c.canonicalHash
    ensures VerifiedText(reader, c).Ok? ==> (reader.content)(c.canonicalHash) == Some(VerifiedText(reader, c).value)
    ensures VerifiedText(reader, c) == Err(ContentUnavailable) ==> (reader.content)(c.canonicalObjectHash).None?
  {
    hide ValidDigest, Blank;
  }

  lemma {:induction false} FactItemsAreOfCandidates(reader: Reader, byDoc: ByDoc, cs: seq<CandidateRow>, f: Fact)
    requires FactItem(f) in Items(reader, byDoc, cs)
    ensures exists c :: c in cs && Matches(reader, c) && f == Fact(c.docId, c.effectiveTsMs, c.canonicalHash)
  {
    hide VerifiedText, Resolve;
    var front, last := cs[..|cs| - 1], cs[|cs| - 1];
    if FactItem(f) in Items(reader, byDoc, front) {
      FactItemsAreOfCandidates(reader, byDoc, front, f);
    }
    assert cs == front + [last];
  }

  predicate Restates(f: Fact, c: CandidateRow) {
    f.sourceItemId == c.docId && f.observedAtMs == c.effectiveTsMs && f.canonicalHash == c.canonicalHash
  }

  /** Every fact is one scanned matching candidate's document, time and text hash. */
  lemma FactsAreOfCandidates(reader: Reader, byDoc: ByDoc, cs: seq<CandidateRow>, limit: nat, answer: Answer, n: nat, f: Fact)
    requires Answers(reader, byDoc, cs, limit, answer, n) && f in answer.facts
    ensures n <= |cs| && exists c :: c in cs[..n] && Matches(reader, c) && Restates(f, c)
  {
    hide Matches, Items;
    ListsAreTheItems(Items(reader, byDoc, cs[..n]));
    FactItemsAreOfCandidates(reader, byDoc, cs[..n], f);
    var c :| c in cs[..n] && Matches(reader, c) && f == Fact(c.docId, c.effectiveTsMs, c.canonicalHash);
    assert Restates(f, c);
  }

  /** The disposition of any answer: a conflict among the notices first, otherwise by which lists are empty. */
  lemma DispositionIsTold(reader: Reader, byDoc: ByDoc, cs: seq<CandidateRow>, limit: nat, answer: Answer, n: nat)
    requires Answers(reader, byDoc, cs, limit, answer, n)
    ensures answer.disposition.ConflictedMatch? <==>
      exists r :: r in answer.notices && (r.initialState.Conflicted? || r.terminalState.Conflicted?)
    ensures answer.disposition.NoMatch? <==> answer.facts == [] && answer.notices == []
    ensures answer.disposition.ActiveOnly? <==> answer.facts != [] && answer.notices == []
    ensures answer.disposition.SuppressedOnly? ==> answer.facts == [] && answer.notices != []
    ensures answer.disposition.ActiveAndSuppressed? ==> answer.facts != [] && answer.notices != []
  {
    hide StopsAfter, FactsOf, NoticesOf;
    if HasConflict(answer.notices) {
      var i :| 0 <= i < |answer.notices| && (answer.notices[i].initialState.Conflicted? || answer.notices[i].terminalState.Conflicted?);
      assert answer.notices[i] in answer.notices;
    }
  }
}
