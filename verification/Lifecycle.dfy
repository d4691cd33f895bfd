/** Supersession chains and their resolver (document_lifecycle.rs). */
module LifecycleResolver {
  import opened Outcomes
  import opened Hashing
  import opened LifecycleRecords

  const MAX_CHAIN_DEPTH := 100

  type ByDoc = map<string, seq<Event>>

  datatype InitialState = Active | Superseded | Tombstoned | Conflicted

  datatype TerminalState = Active | Tombstoned | Conflicted

  datatype Resolution = Resolution(
    sourceDocId: string,
    initialState: InitialState,
    terminalState: TerminalState,
    terminalDocId: Option<string>,
    events: seq<Event>)

  // ---- The walk, with no bound and no memory ----

  /** The replacement of a document whose only event supersedes it. */
  function Next(byDoc: ByDoc, doc: string): Option<string> {
    if doc in byDoc && |byDoc[doc]| == 1 && byDoc[doc][0].action.Supersede? then byDoc[doc][0].replacementDocId else None
  }

  /** The document n supersessions after doc, if the walk gets that far. */
  function Follow(byDoc: ByDoc, doc: string, n: nat): Option<string> {
    if n == 0 then Some(doc)
    else
      var before := Follow(byDoc, doc, n - 1);
      if before.None? then None else Next(byDoc, before.value)
  }

  ghost predicate StopsAt(byDoc: ByDoc, doc: string, n: nat) {
    Follow(byDoc, doc, n).Some? && Follow(byDoc, doc, n + 1).None?
  }

  ghost function EventsAlong(byDoc: ByDoc, doc: string, n: nat): (events: seq<Event>)
    requires Follow(byDoc, doc, n).Some?
    ensures |events| == n
  {
    if n == 0 then [] else EventsAlong(byDoc, doc, n - 1) + [byDoc[Follow(byDoc, doc, n - 1).value][0]]
  }

  function InitialFor(byDoc: ByDoc, doc: string): InitialState {
    if doc !in byDoc then InitialState.Active
    else if |byDoc[doc]| != 1 then InitialState.Conflicted
    else if byDoc[doc][0].action.Supersede? then InitialState.Superseded
    else InitialState.Tombstoned
  }

  /** What a walk that stops after n supersessions says about its source, however long it is. */
  ghost function WalkResolution(byDoc: ByDoc, doc: string, n: nat): Result<Resolution, LifecycleError>
    requires StopsAt(byDoc, doc, n)
  {
    var last := Follow(byDoc, doc, n).value;
    var sofar := EventsAlong(byDoc, doc, n);
    var initial := InitialFor(byDoc, doc);
    if last !in byDoc then Ok(Resolution(doc, initial, TerminalState.Active, Some(last), sofar))
    else if |byDoc[last]| != 1 then Ok(Resolution(doc, initial, TerminalState.Conflicted, None, sofar + byDoc[last]))
    else if byDoc[last][0].action.Tombstone?
    then Ok(Resolution(doc, initial, TerminalState.Tombstoned, Some(last), sofar + byDoc[last]))
    else Err(Corrupt)
  }

  /** How many documents on the walk carry events: the number the depth bound limits. */
  ghost function DocumentsWithEvents(byDoc: ByDoc, doc: string, n: nat): nat
    requires StopsAt(byDoc, doc, n)
  {
    if Follow(byDoc, doc, n).value in byDoc then n + 1 else n
  }

  ghost predicate Repeats(byDoc: ByDoc, doc: string, bound: int) {
    exists i, j :: 0 <= i < j <= bound && Follow(byDoc, doc, j).Some? && Follow(byDoc, doc, i) == Follow(byDoc, doc, j)
  }

  /** The meaning of resolution on any map: the walk's own answer when it is short enough, an error otherwise. */
  ghost function Resolve(doc: string, byDoc: ByDoc): Result<Resolution, LifecycleError> {
    if !ValidDigest(doc) then Err(RequestInvalid)
    else if exists n: nat :: StopsAt(byDoc, doc, n) then
      var n: nat :| StopsAt(byDoc, doc, n);
      if DocumentsWithEvents(byDoc, doc, n) <= MAX_CHAIN_DEPTH then WalkResolution(byDoc, doc, n) else Err(DepthExceeded)
    else if Repeats(byDoc, doc, MAX_CHAIN_DEPTH) then Err(CycleOrDepth)
    else Err(DepthExceeded)
  }

  // ---- Facts about the walk ----

  lemma {:induction false} WalkIsUnbroken(byDoc: ByDoc, doc: string, n: nat, m: nat)
    requires n <= m && Follow(byDoc, doc, m).Some?
    ensures Follow(byDoc, doc, n).Some?
  {
    if n < m {
      WalkIsUnbroken(byDoc, doc, n, m - 1);
    }
  }

  lemma {:induction false} FollowFrom(byDoc: ByDoc, doc: string, n: nat, k: nat)
    requires Follow(byDoc, doc, n).Some?
    ensures Follow(byDoc, doc, n + k) == Follow(byDoc, Follow(byDoc, doc, n).value, k)
  {
    if k > 0 {
      FollowFrom(byDoc, doc, n, k - 1);
    }
  }

  lemma StopIsUnique(byDoc: ByDoc, doc: string, n: nat, m: nat)
    requires StopsAt(byDoc, doc, n) && StopsAt(byDoc, doc, m)
    ensures n == m
  {
    if n < m {
      WalkIsUnbroken(byDoc, doc, n + 1, m);
    } else if m < n {
      WalkIsUnbroken(byDoc, doc, m + 1, n);
    }
  }

  /** A walk that returns to a document goes on forever. */
  lemma {:induction false} RepeatNeverStops(byDoc: ByDoc, doc: string, i: nat, j: nat, m: nat)
    requires i < j && Follow(byDoc, doc, j).Some? && Follow(byDoc, doc, i) == Follow(byDoc, doc, j)
    ensures Follow(byDoc, doc, m).Some?
    decreases m
  {
    if m <= j {
      WalkIsUnbroken(byDoc, doc, m, j);
    } else {
      FollowFrom(byDoc, doc, j, m - j);
      FollowFrom(byDoc, doc, i, m - j);
      RepeatNeverStops(byDoc, doc, i, j, i + (m - j));
    }
  }

  lemma ResolveAtStop(byDoc: ByDoc, doc: string, n: nat)
    requires ValidDigest(doc) && StopsAt(byDoc, doc, n)
    ensures Resolve(doc, byDoc) ==
      if DocumentsWithEvents(byDoc, doc, n) <= MAX_CHAIN_DEPTH then WalkResolution(byDoc, doc, n) else Err(DepthExceeded)
  {
    var m: nat :| StopsAt(byDoc, doc, m) && Resolve(doc, byDoc) ==
      if DocumentsWithEvents(byDoc, doc, m) <= MAX_CHAIN_DEPTH then WalkResolution(byDoc, doc, m) else Err(DepthExceeded);
    StopIsUnique(byDoc, doc, n, m);
  }

  lemma ResolveAtRepeat(byDoc: ByDoc, doc: string, i: nat, j: nat)
    requires ValidDigest(doc) && i < j <= MAX_CHAIN_DEPTH
    requires Follow(byDoc, doc, j).Some? && Follow(byDoc, doc, i) == Follow(byDoc, doc, j)
    ensures Resolve(doc, byDoc) == Err(CycleOrDepth)
  {
    forall n: nat
      ensures !StopsAt(byDoc, doc, n)
    {
      RepeatNeverStops(byDoc, doc, i, j, n + 1);
    }
  }

  lemma ResolveAtDepth(byDoc: ByDoc, doc: string)
    requires ValidDigest(doc)
    requires Follow(byDoc, doc, MAX_CHAIN_DEPTH).Some? && Follow(byDoc, doc, MAX_CHAIN_DEPTH).value in byDoc
    requires !Repeats(byDoc, doc, MAX_CHAIN_DEPTH)
    ensures Resolve(doc, byDoc) == Err(DepthExceeded)
  {
    if n: nat :| StopsAt(byDoc, doc, n) {
      if n < MAX_CHAIN_DEPTH {
        WalkIsUnbroken(byDoc, doc, n + 1, MAX_CHAIN_DEPTH);
      }
      ResolveAtStop(byDoc, doc, n);
    }
  }

  /** What the resolver's loop variables mean: the walk so far, never twice at the same document. */
  ghost predicate Walked(byDoc: ByDoc, doc: string, current: string, visited: set<string>, events: seq<Event>) {
    var n := |events|;
    n <= MAX_CHAIN_DEPTH
    && Follow(byDoc, doc, n) == Some(current)
    && events == EventsAlong(byDoc, doc, n)
    && Visited(byDoc, doc, n, visited)
  }

  /** The visited set is the first n documents of the walk, all different. */
  ghost predicate Visited(byDoc: ByDoc, doc: string, n: nat, visited: set<string>) {
    (forall d :: d in visited <==> exists i :: 0 <= i < n && Follow(byDoc, doc, i) == Some(d))
    && !Repeats(byDoc, doc, n - 1)
  }

  lemma WalkedIntoCycle(byDoc: ByDoc, doc: string, current: string, visited: set<string>, events: seq<Event>)
    requires ValidDigest(doc) && Walked(byDoc, doc, current, visited, events) && current in visited
    ensures Resolve(doc, byDoc) == Err(CycleOrDepth)
  {
    var i :| 0 <= i < |events| && Follow(byDoc, doc, i) == Some(current);
    ResolveAtRepeat(byDoc, doc, i, |events|);
  }

  lemma WalkedTooFar(byDoc: ByDoc, doc: string, current: string, visited: set<string>, events: seq<Event>)
    requires ValidDigest(doc) && Walked(byDoc, doc, current, visited, events) && current !in visited
    requires current in byDoc && |events| == MAX_CHAIN_DEPTH
    ensures Resolve(doc, byDoc) == Err(DepthExceeded)
  {
    ResolveAtDepth(byDoc, doc);
  }

  lemma WalkedToTheEnd(byDoc: ByDoc, doc: string, current: string, visited: set<string>, events: seq<Event>)
    requires ValidDigest(doc) && Walked(byDoc, doc, current, visited, events)
    requires current !in byDoc || (|events| < MAX_CHAIN_DEPTH && Next(byDoc, current).None?)
    ensures StopsAt(byDoc, doc, |events|) && Resolve(doc, byDoc) == WalkResolution(byDoc, doc, |events|)
  {
    ResolveAtStop(byDoc, doc, |events|);
  }

  lemma WalkedOn(byDoc: ByDoc, doc: string, current: string, visited: set<string>, events: seq<Event>)
    requires Walked(byDoc, doc, current, visited, events) && current !in visited && |events| < MAX_CHAIN_DEPTH
    requires Next(byDoc, current).Some?
    ensures Walked(byDoc, doc, Next(byDoc, current).value, visited + {current}, events + byDoc[current])
  {
    hide Visited;
    assert byDoc[current] == [byDoc[current][0]];
    VisitedOn(byDoc, doc, |events|, current, visited);
  }

  lemma VisitedOn(byDoc: ByDoc, doc: string, n: nat, current: string, visited: set<string>)
    requires Follow(byDoc, doc, n) == Some(current) && current !in visited
    requires Visited(byDoc, doc, n, visited)
    ensures Visited(byDoc, doc, n + 1, visited + {current})
  {
    hide Follow;
    var seen := visited + {current};
    forall d | d in seen
      ensures exists i :: 0 <= i < n + 1 && Follow(byDoc, doc, i) == Some(d)
    {
      if d in visited {
        var i :| 0 <= i < n && Follow(byDoc, doc, i) == Some(d);
      }
    }
    forall d, i | 0 <= i < n + 1 && Follow(byDoc, doc, i) == Some(d)
      ensures d in seen
    {
    }
    assert forall d :: d in seen <==> exists i :: 0 <= i < n + 1 && Follow(byDoc, doc, i) == Some(d);
  }

  /** The resolver's loop, with its visited set and its depth check, computes exactly that meaning. */
  method ResolveDocumentLifecycle(doc: string, byDoc: ByDoc) returns (r: Result<Resolution, LifecycleError>)
    ensures r == Resolve(doc, byDoc)
  {
    hide Resolve, ValidDigest, Repeats, Follow;
    if !ValidDigest(doc) {
      ResolveRejects(doc, byDoc);
      return Err(RequestInvalid);
    }
    var current, visited, events := doc, {}, [];
    var initialState := InitialState.Active;
    WalkStarts(byDoc, doc);
    while true
      invariant Walked(byDoc, doc, current, visited, events)
      invariant events == [] ==> current == doc && initialState == InitialState.Active
      invariant events != [] ==> initialState == InitialFor(byDoc, doc)
      decreases MAX_CHAIN_DEPTH - |events|
    {
      if current in visited {
        WalkedIntoCycle(byDoc, doc, current, visited, events);
        return Err(CycleOrDepth);
      }
      if current !in byDoc {
        WalkedToTheEnd(byDoc, doc, current, visited, events);
        return Ok(Resolution(doc, initialState, TerminalState.Active, Some(current), events));
      }
      if |events| >= MAX_CHAIN_DEPTH {
        WalkedTooFar(byDoc, doc, current, visited, events);
        return Err(DepthExceeded);
      }
      var currentEvents := byDoc[current];
      if |currentEvents| != 1 {
        if events == [] {
          initialState := InitialState.Conflicted;
        }
        WalkedToTheEnd(byDoc, doc, current, visited, events);
        return Ok(Resolution(doc, initialState, TerminalState.Conflicted, None, events + currentEvents));
      }
      var event := currentEvents[0];
      assert currentEvents == [event];
      if events == [] {
        initialState := if event.action.Supersede? then InitialState.Superseded else InitialState.Tombstoned;
      }
      match event.action {
        case Supersede =>
          if event.replacementDocId.None? {
            WalkedToTheEnd(byDoc, doc, current, visited, events);
            return Err(Corrupt);
          }
          WalkedOn(byDoc, doc, current, visited, events);
          visited, events := visited + {current}, events + [event];
          current := event.replacementDocId.value;
        case Tombstone =>
          WalkedToTheEnd(byDoc, doc, current, visited, events);
          return Ok(Resolution(doc, initialState, TerminalState.Tombstoned, Some(current), events + [event]));
      }
    }
  }

  lemma WalkStarts(byDoc: ByDoc, doc: string)
    ensures Walked(byDoc, doc, doc, {}, [])
  {
  }

  lemma ResolveRejects(doc: string, byDoc: ByDoc)
    requires !ValidDigest(doc)
    ensures Resolve(doc, byDoc) == Err(RequestInvalid)
  {
  }

  // ---- Acyclic maps ----

  ghost predicate Acyclic(byDoc: ByDoc) {
    forall doc, n: nat :: n > 0 ==> Follow(byDoc, doc, n) != Some(doc)
  }

  lemma {:induction false} DistinctFitsInSet(s: seq<string>, keys: set<string>)
    requires (forall i :: 0 <= i < |s| ==> s[i] in keys) && (forall i, j :: 0 <= i < j < |s| ==> s[i] != s[j])
    ensures |s| <= |keys|
  {
    if s != [] {
      var last := s[|s| - 1];
      DistinctFitsInSet(s[..|s| - 1], keys - {last});
    }
  }

  lemma AcyclicNeverRepeats(byDoc: ByDoc, doc: string, i: nat, j: nat)
    requires Acyclic(byDoc) && i < j && Follow(byDoc, doc, j).Some?
    ensures Follow(byDoc, doc, i) != Follow(byDoc, doc, j)
  {
    WalkIsUnbroken(byDoc, doc, i, j);
    FollowFrom(byDoc, doc, i, j - i);
  }

  /** Without cycles every walk stops, within as many supersessions as there are documents. */
  lemma AcyclicStops(byDoc: ByDoc, doc: string)
    requires Acyclic(byDoc)
    ensures exists n: nat :: StopsAt(byDoc, doc, n)
  {
    var size := |byDoc.Keys|;
    if Follow(byDoc, doc, size + 1).Some? {
      forall i: nat | i <= size
        ensures Follow(byDoc, doc, i).Some? && Follow(byDoc, doc, i).value in byDoc
      {
        WalkIsUnbroken(byDoc, doc, i + 1, size + 1);
        WalkIsUnbroken(byDoc, doc, i, size + 1);
      }
      forall i: nat, j: nat | i < j <= size
        ensures Follow(byDoc, doc, i) != Follow(byDoc, doc, j)
      {
        AcyclicNeverRepeats(byDoc, doc, i, j);
      }
      var path := seq(size + 1, i requires 0 <= i <= size => Follow(byDoc, doc, i).value);
      DistinctFitsInSet(path, byDoc.Keys);
    } else {
      FirstStop(byDoc, doc, size + 1);
    }
  }

  lemma {:induction false} FirstStop(byDoc: ByDoc, doc: string, n: nat)
    requires Follow(byDoc, doc, n).None?
    ensures exists m: nat :: StopsAt(byDoc, doc, m)
  {
    if Follow(byDoc, doc, n - 1).Some? {
      assert StopsAt(byDoc, doc, n - 1);
    } else {
      FirstStop(byDoc, doc, n - 1);
    }
  }

  /** One event per document, each filed under its own document and, if a supersession, naming its replacement. */
  ghost predicate SingleEvents(byDoc: ByDoc) {
    forall d :: d in byDoc ==>
      |byDoc[d]| == 1 && byDoc[d][0].docId == d && (byDoc[d][0].action.Supersede? ==> byDoc[d][0].replacementDocId.Some?)
  }

  /**
   * On acyclic single-event maps resolution is the unbounded walk exactly when at most 100 documents on it carry
   * events, and the depth error otherwise: never a conflict, never the cycle error.
   */
  lemma AcyclicResolvesExactlyWithinDepth(byDoc: ByDoc, doc: string) returns (n: nat)
    requires Acyclic(byDoc) && SingleEvents(byDoc) && ValidDigest(doc)
    ensures StopsAt(byDoc, doc, n)
    ensures WalkResolution(byDoc, doc, n).Ok? && !WalkResolution(byDoc, doc, n).value.terminalState.Conflicted?
    ensures |WalkResolution(byDoc, doc, n).value.events| == DocumentsWithEvents(byDoc, doc, n)
    ensures Resolve(doc, byDoc) == WalkResolution(byDoc, doc, n) <==> DocumentsWithEvents(byDoc, doc, n) <= MAX_CHAIN_DEPTH
    ensures DocumentsWithEvents(byDoc, doc, n) > MAX_CHAIN_DEPTH ==> Resolve(doc, byDoc) == Err(DepthExceeded)
  {
    AcyclicStops(byDoc, doc);
    n :| StopsAt(byDoc, doc, n);
    ResolveAtStop(byDoc, doc, n);
  }

  /** On every map, an answer comes out exactly when a walk ends properly within the bound. */
  lemma ResolvesExactlyWhenWalkEnds(byDoc: ByDoc, doc: string)
    requires ValidDigest(doc)
    ensures Resolve(doc, byDoc).Ok? <==>
      exists n: nat :: StopsAt(byDoc, doc, n) && DocumentsWithEvents(byDoc, doc, n) <= MAX_CHAIN_DEPTH && WalkResolution(byDoc, doc, n).Ok?
  {
    forall n: nat | StopsAt(byDoc, doc, n)
      ensures Resolve(doc, byDoc) ==
        if DocumentsWithEvents(byDoc, doc, n) <= MAX_CHAIN_DEPTH then WalkResolution(byDoc, doc, n) else Err(DepthExceeded)
    {
      ResolveAtStop(byDoc, doc, n);
    }
  }

  /** A document resolves as active exactly when it carries no event. */
  lemma ActiveMeansNoEvent(byDoc: ByDoc, doc: string)
    ensures Resolve(doc, byDoc).Ok? ==> Resolve(doc, byDoc).value.initialState == InitialFor(byDoc, doc)
    ensures ValidDigest(doc) && doc !in byDoc ==>
      Resolve(doc, byDoc) == Ok(Resolution(doc, InitialState.Active, TerminalState.Active, Some(doc), []))
  {
    if doc !in byDoc {
      assert Follow(byDoc, doc, 0) == Some(doc);
      assert StopsAt(byDoc, doc, 0);
      if ValidDigest(doc) {
        ResolveAtStop(byDoc, doc, 0);
      }
    }
  }

  // ---- Resolution told from the map alone ----

  /** A chain of documents from doc: every one but the last carries one event, which supersedes it by the next. */
  ghost predicate IsPath(byDoc: ByDoc, doc: string, path: seq<string>) {
    path != [] && path[0] == doc
    && forall i :: 0 <= i < |path| - 1 ==>
      path[i] in byDoc && |byDoc[path[i]]| == 1 && byDoc[path[i]][0].action.Supersede?
      && byDoc[path[i]][0].replacementDocId == Some(path[i + 1])
  }

  /** The chain cannot be followed further, and its end says something: no event, one tombstone, or a conflict. */
  ghost predicate EndsProperly(byDoc: ByDoc, path: seq<string>)
    requires path != []
  {
    var last := path[|path| - 1];
    last in byDoc ==> |byDoc[last]| != 1 || byDoc[last][0].action.Tombstone?
  }

  ghost function WithEvents(byDoc: ByDoc, path: seq<string>): nat
    requires path != []
  {
    if path[|path| - 1] in byDoc then |path| else |path| - 1
  }

  ghost predicate IsTold(byDoc: ByDoc, path: seq<string>, r: Resolution)
    requires path != []
  {
    var n, last := |path| - 1, path[|path| - 1];
    (r.terminalState.Active? <==> last !in byDoc)
    && (r.terminalState.Tombstoned? <==> last in byDoc && |byDoc[last]| == 1 && byDoc[last][0].action.Tombstone?)
    && (r.terminalState.Conflicted? <==> last in byDoc && |byDoc[last]| != 1)
    && r.terminalDocId == (if last in byDoc && |byDoc[last]| != 1 then None else Some(last))
    && |r.events| == n + (if last in byDoc then |byDoc[last]| else 0)
    && (forall i :: 0 <= i < n ==> path[i] in byDoc && byDoc[path[i]] == [r.events[i]])
    && r.events[n..] == (if last in byDoc then byDoc[last] else [])
  }

  lemma {:induction false} PathIsFollowed(byDoc: ByDoc, doc: string, path: seq<string>, i: nat)
    requires IsPath(byDoc, doc, path) && i < |path|
    ensures Follow(byDoc, doc, i) == Some(path[i])
    ensures |EventsAlong(byDoc, doc, i)| == i
    ensures forall k :: 0 <= k < i ==> path[k] in byDoc && byDoc[path[k]] == [EventsAlong(byDoc, doc, i)[k]]
  {
    if i > 0 {
      PathIsFollowed(byDoc, doc, path, i - 1);
      assert byDoc[path[i - 1]] == [byDoc[path[i - 1]][0]];
    }
  }

  lemma {:induction false} WalkIsAPath(byDoc: ByDoc, doc: string, n: nat) returns (path: seq<string>)
    requires Follow(byDoc, doc, n).Some?
    ensures IsPath(byDoc, doc, path) && |path| == n + 1 && Follow(byDoc, doc, n) == Some(path[n])
  {
    if n == 0 {
      path := [doc];
    } else {
      WalkIsUnbroken(byDoc, doc, n - 1, n);
      var front := WalkIsAPath(byDoc, doc, n - 1);
      path := front + [Follow(byDoc, doc, n).value];
      assert path[n - 1] == front[n - 1];
    }
  }

  /**
   * For every map and every document, a proper chain resolves to what its end says, with its events in order, if and
   * only if at most 100 of its documents carry events; beyond that the answer is the depth error.
   */
  lemma ChainResolvesExactly(byDoc: ByDoc, doc: string, path: seq<string>)
    requires ValidDigest(doc) && IsPath(byDoc, doc, path) && EndsProperly(byDoc, path)
    ensures WithEvents(byDoc, path) <= 100 ==> Resolve(doc, byDoc).Ok? && IsTold(byDoc, path, Resolve(doc, byDoc).value)
    ensures WithEvents(byDoc, path) > 100 ==> Resolve(doc, byDoc) == Err(DepthExceeded)
  {
    var n := |path| - 1;
    PathIsFollowed(byDoc, doc, path, n);
    assert StopsAt(byDoc, doc, n);
    ResolveAtStop(byDoc, doc, n);
  }

  /** Every answer is that of a proper chain of at most 100 documents with events: nothing else is ever answered. */
  lemma AnswersAreOfChains(byDoc: ByDoc, doc: string) returns (path: seq<string>)
    requires Resolve(doc, byDoc).Ok?
    ensures ValidDigest(doc) && IsPath(byDoc, doc, path) && EndsProperly(byDoc, path) && WithEvents(byDoc, path) <= 100
    ensures Resolve(doc, byDoc).value.sourceDocId == doc && IsTold(byDoc, path, Resolve(doc, byDoc).value)
  {
    ResolvesExactlyWhenWalkEnds(byDoc, doc);
    var n: nat :| StopsAt(byDoc, doc, n);
    path := WalkIsAPath(byDoc, doc, n);
    ResolveAtStop(byDoc, doc, n);
    PathIsFollowed(byDoc, doc, path, n);
    ChainResolvesExactly(byDoc, doc, path);
  }

  /** What an answer says of its source: how many events it carries, and what a single one does. */
  lemma InitialStateIsTold(byDoc: ByDoc, doc: string)
    requires Resolve(doc, byDoc).Ok?
    ensures var state := Resolve(doc, byDoc).value.initialState;
      (state.Active? <==> doc !in byDoc)
      && (state.Superseded? <==> doc in byDoc && |byDoc[doc]| == 1 && byDoc[doc][0].action.Supersede?)
      && (state.Tombstoned? <==> doc in byDoc && |byDoc[doc]| == 1 && byDoc[doc][0].action.Tombstone?)
      && (state.Conflicted? <==> doc in byDoc && |byDoc[doc]| != 1)
  {
    hide Resolve;
    ActiveMeansNoEvent(byDoc, doc);
  }

  /** A document whose only event is a tombstone resolves to itself, tombstoned. */
  lemma TombstoneResolvesToItself(byDoc: ByDoc, doc: string)
    requires ValidDigest(doc) && doc in byDoc && |byDoc[doc]| == 1 && byDoc[doc][0].action.Tombstone?
    ensures Resolve(doc, byDoc) == Ok(Resolution(doc, InitialState.Tombstoned, TerminalState.Tombstoned, Some(doc), byDoc[doc]))
  {
    hide Resolve;
    var path := [doc];
    ChainResolvesExactly(byDoc, doc, path);
    InitialStateIsTold(byDoc, doc);
    var other := AnswersAreOfChains(byDoc, doc);
    var events := Resolve(doc, byDoc).value.events;
    assert events[0..] == events;
  }
}
