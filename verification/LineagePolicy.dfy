/** Deny-overrides policies on lineage edits (lineage_policy.rs). */
module LineagePolicy {
  import opened Outcomes
  import opened Text
  import opened CanonJson
  import opened JsonReader
  import opened JsonRoundTrip

  datatype LineageError =
    | PolicyConditionInvalid
    | CanonJsonFailed
    | PolicyDenyEnforced
    | PermissionDenied
    | QueryFailed
    | LockInvalid
    | LockHeld
    | LockExpired
    | OverlayInvalid
    | OverlayConflict
    | OverlayNotFound

  // ---- Conditions ----

  datatype Condition = Condition(
    action: Option<string>,
    docIdPrefix: Option<string>,
    docIdSuffix: Option<string>,
    subjectIdPrefix: Option<string>)

  /** A field that may be missing or null and is otherwise a string that is not blank. */
  function OptionalField(members: map<string, Value>, key: string): Result<Option<string>, LineageError> {
    if key !in members || members[key].Null? then Ok(None)
    else if members[key].Str? && !Blank(members[key].s) then Ok(Some(members[key].s))
    else Err(PolicyConditionInvalid)
  }

  /** The fields of a condition object; unknown ones are refused. */
  function DecodeCondition(members: map<string, Value>): Result<Condition, LineageError> {
    var action :- OptionalField(members, "action");
    var prefix :- OptionalField(members, "doc_id_prefix");
    var suffix :- OptionalField(members, "doc_id_suffix");
    var subject :- OptionalField(members, "subject_id_prefix");
    if members.Keys <= {"action", "doc_id_prefix", "doc_id_suffix", "subject_id_prefix"}
    then Ok(Condition(action, prefix, suffix, subject))
    else Err(PolicyConditionInvalid)
  }

  /** A condition text in any JSON spelling: what it means, and its canonical text. */
  ghost function ConditionOf(text: string): Result<(Condition, string), LineageError> {
    var parsed := Parse(text);
    if parsed.Err? || !parsed.value.Obj? then Err(PolicyConditionInvalid)
    else if !FloatFree(parsed.value) then Err(CanonJsonFailed)
    else
      var condition :- DecodeCondition(parsed.value.members);
      Ok((condition, Canonical(parsed.value)))
  }

  method ParseCondition(text: string) returns (r: Result<(Condition, string), LineageError>)
    ensures r == ConditionOf(text)
  {
    var parsed := Parse(text);
    if parsed.Err? || !parsed.value.Obj? {
      return Err(PolicyConditionInvalid);
    }
    var canonical := ToCanonicalBytes(parsed.value);
    if canonical.Err? {
      return Err(CanonJsonFailed);
    }
    CanonicalReadsBack(parsed.value);
    var reread := Parse(canonical.value);
    var condition :- DecodeCondition(reread.value.members);
    return Ok((condition, canonical.value));
  }

  /** What an accepted condition was stored as is accepted again, with the same meaning. */
  lemma StoredConditionReadsBack(text: string)
    requires ConditionOf(text).Ok?
    ensures ConditionOf(ConditionOf(text).value.1) == ConditionOf(text)
  {
    hide Canonical, DecodeCondition;
    CanonicalReadsBack(Parse(text).value);
  }

  predicate EndsWith(s: string, suffix: string) {
    |suffix| <= |s| && s[|s| - |suffix|..] == suffix
  }

  /** Every part of the condition that is there is met; a part about the document needs a document. */
  predicate EvaluateCondition(condition: Condition, subject: string, action: string, doc: Option<string>) {
    (condition.action.Some? ==> condition.action.value == action)
    && (condition.docIdPrefix.Some? ==> doc.Some? && condition.docIdPrefix.value <= doc.value)
    && (condition.docIdSuffix.Some? ==> doc.Some? && EndsWith(doc.value, condition.docIdSuffix.value))
    && (condition.subjectIdPrefix.Some? ==> condition.subjectIdPrefix.value <= subject)
  }

  // ---- Storing policies ----

  datatype Policy = Policy(
    policyId: string,
    policyName: string,
    effect: string,
    priority: int,
    conditionJson: string,
    createdBy: string,
    createdAtMs: int)

  /** The policies by name, and which subject each policy id is bound to. */
  datatype Tables = Tables(policies: map<string, Policy>, bindings: set<(string, string)>)

  function TrimStart(s: string): string {
    if s != "" && IsWhitespace(s[0]) then TrimStart(s[1..]) else s
  }

  function TrimEnd(s: string): string {
    if s != "" && IsWhitespace(s[|s| - 1]) then TrimEnd(s[..|s| - 1]) else s
  }

  function Trim(s: string): string {
    TrimEnd(TrimStart(s))
  }

  function AsciiLower(s: string): string {
    if s == "" then "" else [if 'A' <= s[0] <= 'Z' then s[0] + 32 as char else s[0]] + AsciiLower(s[1..])
  }

  function NormalizeEffect(effect: string): Result<string, LineageError> {
    var normalized := AsciiLower(Trim(effect));
    if normalized == "allow" || normalized == "deny" then Ok(normalized) else Err(PolicyConditionInvalid)
  }

  function DefaultPriority(effect: string): int {
    if effect == "deny" then 100 else 200
  }

  function PolicyIdForName(h: Hasher, name: string): string {
    h("kc.lineage.policy.v3\n" + Trim(name))
  }

  /** Every stored policy has one of the two effects, its priority, a condition that re-parses, and an id of its own. */
  ghost predicate WellFormed(h: Hasher, tables: Tables) {
    (forall name :: name in tables.policies ==> WellFormedPolicy(h, name, tables.policies[name]))
    && UniqueIds(tables)
  }

  ghost predicate UniqueIds(tables: Tables) {
    forall a, b :: a in tables.policies && b in tables.policies && tables.policies[a].policyId == tables.policies[b].policyId ==> a == b
  }

  ghost predicate WellFormedPolicy(h: Hasher, name: string, policy: Policy) {
    policy.policyName == name
    && policy.policyId == PolicyIdForName(h, name)
    && (policy.effect == "allow" || policy.effect == "deny")
    && policy.priority == DefaultPriority(policy.effect)
    && ConditionOf(policy.conditionJson).Ok?
    && ConditionOf(policy.conditionJson).value.1 == policy.conditionJson
  }

  /** The table constraint: a policy id belongs to one name only. */
  predicate IdTaken(tables: Tables, name: string, id: string) {
    exists other :: other in tables.policies && other != name && tables.policies[other].policyId == id
  }

  ghost function AddPolicy(h: Hasher, tables: Tables, name: string, effect: string, conditionJson: string, createdBy: string, nowMs: int): Result<Policy, LineageError> {
    if Blank(name) || Blank(createdBy) then Err(PolicyConditionInvalid)
    else
      var effectNorm :- NormalizeEffect(effect);
      var condition :- ConditionOf(conditionJson);
      var id := PolicyIdForName(h, name);
      if IdTaken(tables, name, id) then Err(QueryFailed)
      else Ok(Policy(id, name, effectNorm, DefaultPriority(effectNorm), condition.1, createdBy, nowMs))
  }

  /** Whatever is added, in any spelling, the tables stay readable. */
  lemma AddKeepsWellFormed(h: Hasher, tables: Tables, name: string, effect: string, conditionJson: string, createdBy: string, nowMs: int)
    ensures var added := AddPolicy(h, tables, name, effect, conditionJson, createdBy, nowMs);
      WellFormed(h, tables) && added.Ok? ==> WellFormed(h, tables.(policies := tables.policies[name := added.value]))
  {
    hide ConditionOf, Trim, AsciiLower, Blank;
    var added := AddPolicy(h, tables, name, effect, conditionJson, createdBy, nowMs);
    if added.Ok? {
      StoredConditionReadsBack(conditionJson);
      assert WellFormedPolicy(h, name, added.value);
    }
  }

  // ---- The decision ----

  datatype Decision = Decision(allowed: bool, matched: Option<Policy>)

  ghost predicate Matches(policy: Policy, effect: string, subject: string, action: string, doc: Option<string>) {
    policy.effect == effect
    && ConditionOf(policy.conditionJson).Ok?
    && EvaluateCondition(ConditionOf(policy.conditionJson).value.0, subject, action, doc)
  }

  ghost function FirstMatch(rows: seq<Policy>, effect: string, subject: string, action: string, doc: Option<string>): Option<Policy> {
    if rows == [] then None
    else
      var earlier := FirstMatch(rows[..|rows| - 1], effect, subject, action, doc);
      var last := rows[|rows| - 1];
      if earlier.None? && Matches(last, effect, subject, action, doc) then Some(last) else earlier
  }

  /** Deny wins, then allow, and nothing means no. */
  ghost function DecisionOf(rows: seq<Policy>, subject: string, action: string, doc: Option<string>): Decision {
    var deny := FirstMatch(rows, "deny", subject, action, doc);
    var allow := FirstMatch(rows, "allow", subject, action, doc);
    if deny.Some? then Decision(false, deny)
    else if allow.Some? then Decision(true, allow)
    else Decision(false, None)
  }

  /** The error of the first row whose condition cannot be read. */
  ghost function FirstUnreadable(rows: seq<Policy>): Option<LineageError> {
    if rows == [] then None
    else
      var earlier, last := FirstUnreadable(rows[..|rows| - 1]), ConditionOf(rows[|rows| - 1].conditionJson);
      if earlier.None? && last.Err? then Some(last.error) else earlier
  }

  lemma {:induction false} UnreadableExactly(rows: seq<Policy>)
    ensures FirstUnreadable(rows).Some? <==> exists p :: p in rows && ConditionOf(p.conditionJson).Err?
    ensures FirstUnreadable(rows).Some? ==> FirstUnreadable(rows).value.PolicyConditionInvalid? || FirstUnreadable(rows).value.CanonJsonFailed?
  {
    hide Canonical, Parse, FloatFree;
    if rows != [] {
      var front, last := rows[..|rows| - 1], rows[|rows| - 1];
      UnreadableExactly(front);
      assert rows == front + [last];
      ConditionErrors(last.conditionJson);
    }
  }

  lemma ConditionErrors(text: string)
    ensures ConditionOf(text).Err? ==> ConditionOf(text).error.PolicyConditionInvalid? || ConditionOf(text).error.CanonJsonFailed?
  {
    hide Canonical, Parse, FloatFree;
  }

  lemma {:induction false} UnreadableStays(rows: seq<Policy>, i: nat)
    requires i <= |rows| && FirstUnreadable(rows[..i]).Some?
    ensures FirstUnreadable(rows) == FirstUnreadable(rows[..i])
  {
    hide ConditionOf;
    if i == |rows| {
      assert rows[..i] == rows;
    } else {
      assert rows[..|rows| - 1][..i] == rows[..i];
      UnreadableStays(rows[..|rows| - 1], i);
    }
  }

  /** One pass over the subject's rows, in the order the query gives them. */
  method LineagePolicyDecision(rows: seq<Policy>, subject: string, action: string, doc: Option<string>) returns (r: Result<Decision, LineageError>)
    ensures r == if Blank(subject) || Blank(action) then Err(PolicyConditionInvalid)
                 else if FirstUnreadable(rows).Some? then Err(FirstUnreadable(rows).value)
                 else Ok(DecisionOf(rows, subject, action, doc))
  {
    hide ConditionOf, Blank, EvaluateCondition;
    if Blank(subject) || Blank(action) {
      return Err(PolicyConditionInvalid);
    }
    var firstAllow, firstDeny: Option<Policy> := None, None;
    var i := 0;
    while i < |rows|
      invariant 0 <= i <= |rows|
      invariant FirstUnreadable(rows[..i]).None?
      invariant firstDeny == FirstMatch(rows[..i], "deny", subject, action, doc)
      invariant firstAllow == FirstMatch(rows[..i], "allow", subject, action, doc)
    {
      var policy := rows[i];
      assert rows[..i + 1][..i] == rows[..i];
      var parsed := ParseCondition(policy.conditionJson);
      if parsed.Err? {
        UnreadableStays(rows, i + 1);
        return Err(parsed.error);
      }
      if EvaluateCondition(parsed.value.0, subject, action, doc) {
        if policy.effect == "deny" {
          if firstDeny.None? {
            firstDeny := Some(policy);
          }
        } else if policy.effect == "allow" && firstAllow.None? {
          firstAllow := Some(policy);
        }
      }
      i := i + 1;
    }
    assert rows[..i] == rows;
    if firstDeny.Some? {
      return Ok(Decision(false, firstDeny));
    }
    return Ok(Decision(firstAllow.Some?, firstAllow));
  }

  lemma {:induction false} FirstMatchIsAMatch(rows: seq<Policy>, effect: string, subject: string, action: string, doc: Option<string>)
    ensures var found := FirstMatch(rows, effect, subject, action, doc);
      (found.Some? <==> exists p :: p in rows && Matches(p, effect, subject, action, doc))
      && (found.Some? ==> found.value in rows && Matches(found.value, effect, subject, action, doc))
  {
    hide Matches;
    if rows != [] {
      var front, last := rows[..|rows| - 1], rows[|rows| - 1];
      FirstMatchIsAMatch(front, effect, subject, action, doc);
      assert rows == front + [last];
    }
  }

  /** Row i matches and no row before it does. */
  ghost predicate FirstAt(rows: seq<Policy>, i: nat, effect: string, subject: string, action: string, doc: Option<string>) {
    i < |rows| && Matches(rows[i], effect, subject, action, doc) && forall j :: 0 <= j < i ==> !Matches(rows[j], effect, subject, action, doc)
  }

  /** The policy a decision names is the earliest row that decides it. */
  lemma {:induction false} FirstMatchIsEarliest(rows: seq<Policy>, effect: string, subject: string, action: string, doc: Option<string>, i: nat)
    requires FirstAt(rows, i, effect, subject, action, doc)
    ensures FirstMatch(rows, effect, subject, action, doc) == Some(rows[i])
  {
    hide Matches;
    var front := rows[..|rows| - 1];
    if i < |front| {
      assert FirstAt(front, i, effect, subject, action, doc);
      FirstMatchIsEarliest(front, effect, subject, action, doc, i);
    } else {
      FirstMatchIsAMatch(front, effect, subject, action, doc);
      assert forall p :: p in front ==> exists j :: 0 <= j < |front| && rows[j] == p;
    }
  }

  /** The query's order: priority, then policy id. */
  ghost predicate InQueryOrder(rows: seq<Policy>) {
    forall i, j :: 0 <= i < j < |rows| ==> RowLe(rows[i], rows[j])
  }

  predicate RowLe(a: Policy, b: Policy) {
    a.priority < b.priority || (a.priority == b.priority && LessEq(a.policyId, b.policyId))
  }

  lemma {:induction false} FirstMatchIsLeast(rows: seq<Policy>, effect: string, subject: string, action: string, doc: Option<string>, p: Policy)
    requires InQueryOrder(rows) && p in rows && Matches(p, effect, subject, action, doc)
    ensures var found := FirstMatch(rows, effect, subject, action, doc);
      found.Some? && RowLe(found.value, p)
  {
    hide Matches, RowLe;
    var front, last := rows[..|rows| - 1], rows[|rows| - 1];
    FirstMatchIsAMatch(front, effect, subject, action, doc);
    if p in front {
      FirstMatchIsLeast(front, effect, subject, action, doc, p);
    } else {
      assert p == last;
      var found := FirstMatch(front, effect, subject, action, doc);
      if found.Some? {
        var i :| 0 <= i < |front| && front[i] == found.value;
        assert RowLe(rows[i], rows[|rows| - 1]);
      } else {
        RowLeItself(p);
      }
    }
  }

  /** With rows in the query's order, the policy named is the least by priority and id of those that decide alike. */
  lemma NamedPolicyIsLeast(rows: seq<Policy>, effect: string, subject: string, action: string, doc: Option<string>, p: Policy)
    requires InQueryOrder(rows) && p in rows && Matches(p, effect, subject, action, doc)
    ensures var found := FirstMatch(rows, effect, subject, action, doc);
      found.Some? && found.value.priority <= p.priority
      && (found.value.priority == p.priority ==> found.value.policyId == p.policyId || Less(found.value.policyId, p.policyId))
  {
    hide Matches, FirstMatch, InQueryOrder, Less;
    FirstMatchIsLeast(rows, effect, subject, action, doc, p);
  }

  lemma RowLeItself(p: Policy)
    ensures RowLe(p, p)
  {
  }

  /** The rows of a subject: its bound policies, each once, in whatever order. */
  ghost predicate Selects(tables: Tables, subject: string, rows: seq<Policy>) {
    forall p :: p in rows <==> Bound(tables, subject, p)
  }

  ghost predicate Bound(tables: Tables, subject: string, policy: Policy) {
    policy.policyName in tables.policies
    && tables.policies[policy.policyName] == policy
    && (subject, policy.policyId) in tables.bindings
  }

  ghost predicate SomeBoundMatches(tables: Tables, effect: string, subject: string, action: string, doc: Option<string>) {
    exists p :: Bound(tables, subject, p) && Matches(p, effect, subject, action, doc)
  }

  ghost predicate Allowed(tables: Tables, subject: string, action: string, doc: Option<string>) {
    SomeBoundMatches(tables, "allow", subject, action, doc) && !SomeBoundMatches(tables, "deny", subject, action, doc)
  }

  /** Deny-overrides on the tables themselves, so the order of the rows decides nothing but which policy is named. */
  lemma DecisionIsDenyOverrides(tables: Tables, rows: seq<Policy>, subject: string, action: string, doc: Option<string>)
    requires Selects(tables, subject, rows)
    ensures var d := DecisionOf(rows, subject, action, doc);
      (d.allowed <==> Allowed(tables, subject, action, doc))
      && (!d.allowed && d.matched.Some? <==> SomeBoundMatches(tables, "deny", subject, action, doc))
      && (d.matched.Some? ==> Bound(tables, subject, d.matched.value) && Matches(d.matched.value, if d.allowed then "allow" else "deny", subject, action, doc))
  {
    hide Matches, Bound;
    FirstMatchIsAMatch(rows, "deny", subject, action, doc);
    FirstMatchIsAMatch(rows, "allow", subject, action, doc);
  }

  ghost predicate AllBoundReadable(tables: Tables, subject: string) {
    forall p :: Bound(tables, subject, p) ==> ConditionOf(p.conditionJson).Ok?
  }

  /** On tables that only LineagePolicyAdd wrote, a decision about named parties never fails. */
  lemma StoredRowsAlwaysParse(h: Hasher, tables: Tables, subject: string, rows: seq<Policy>)
    requires WellFormed(h, tables) && Selects(tables, subject, rows)
    ensures AllBoundReadable(tables, subject) && FirstUnreadable(rows).None?
  {
    hide ConditionOf, FirstUnreadable;
    forall p | Bound(tables, subject, p)
      ensures ConditionOf(p.conditionJson).Ok?
    {
      assert WellFormedPolicy(h, p.policyName, p);
    }
    UnreadableExactly(rows);
    assert forall p :: p in rows ==> Bound(tables, subject, p);
  }

  datatype AuditRow = AuditRow(tsMs: int, subject: string, action: string, doc: Option<string>, decision: Decision)

  /** The policy tables as the program changes them. */
  class PolicyStore {
    var tables: Tables
    var audit: seq<AuditRow>

    constructor ()
      ensures tables == Tables(map[], {}) && audit == []
    {
      tables, audit := Tables(map[], {}), [];
    }

    method LineagePolicyAdd(h: Hasher, name: string, effect: string, conditionJson: string, createdBy: string, nowMs: int) returns (r: Result<Policy, LineageError>)
      modifies this`tables
      ensures r == AddPolicy(h, old(tables), name, effect, conditionJson, createdBy, nowMs)
      ensures tables == if r.Ok? then old(tables).(policies := old(tables).policies[name := r.value]) else old(tables)
      ensures WellFormed(h, old(tables)) ==> WellFormed(h, tables)
    {
      AddKeepsWellFormed(h, tables, name, effect, conditionJson, createdBy, nowMs);
      if Blank(name) || Blank(createdBy) {
        return Err(PolicyConditionInvalid);
      }
      var effectNorm :- NormalizeEffect(effect);
      var condition :- ParseCondition(conditionJson);
      var policy := Policy(PolicyIdForName(h, name), name, effectNorm, DefaultPriority(effectNorm), condition.1, createdBy, nowMs);
      if IdTaken(tables, name, policy.policyId) {
        return Err(QueryFailed);
      }
      tables := tables.(policies := tables.policies[name := policy]);
      return Ok(policy);
    }

    method LineagePolicyBind(subject: string, name: string, boundBy: string) returns (r: Result<(), LineageError>)
      modifies this`tables
      ensures r.Ok? <==> !Blank(subject) && !Blank(name) && !Blank(boundBy) && name in old(tables).policies
      ensures r.Ok? ==> tables.policies == old(tables).policies
      ensures r.Ok? ==> tables.bindings == old(tables).bindings + {(subject, old(tables).policies[name].policyId)}
      ensures r.Err? ==> r.error == PolicyConditionInvalid && tables == old(tables)
    {
      if Blank(subject) || Blank(name) || Blank(boundBy) {
        return Err(PolicyConditionInvalid);
      }
      if name !in tables.policies {
        return Err(PolicyConditionInvalid);
      }
      var policy := tables.policies[name];
      tables := tables.(bindings := tables.bindings + {(subject, policy.policyId)});
      return Ok(());
    }

    /** Decides, records the decision, and refuses what is not allowed; a failed decision is not recorded. */
    method EnsureLineagePolicyAllows(rows: seq<Policy>, subject: string, action: string, doc: Option<string>, nowMs: int)
      returns (r: Result<(), LineageError>)
      modifies this`audit
      ensures r == PolicyVerdict(rows, subject, action, doc)
      ensures audit == if Blank(subject) || Blank(action) || FirstUnreadable(rows).Some? then old(audit)
                       else old(audit) + [AuditRow(nowMs, subject, action, doc, DecisionOf(rows, subject, action, doc))]
    {
      hide Blank, FirstUnreadable, FirstMatch;
      var decision :- LineagePolicyDecision(rows, subject, action, doc);
      audit := audit + [AuditRow(nowMs, subject, action, doc, decision)];
      if decision.allowed {
        return Ok(());
      }
      return Err(if decision.matched.Some? then PolicyDenyEnforced else PermissionDenied);
    }
  }

  /** A binding takes effect for its subject and its policy, and for nobody and nothing else. */
  lemma BindingBindsOnePolicy(before: Tables, after: Tables, subject: string, name: string, s: string, p: Policy)
    requires name in before.policies && UniqueIds(before)
    requires forall n :: n in before.policies ==> before.policies[n].policyName == n
    requires after == before.(bindings := before.bindings + {(subject, before.policies[name].policyId)})
    ensures Bound(after, s, p) <==> Bound(before, s, p) || (s == subject && p == before.policies[name])
  {
  }

  ghost function PolicyVerdict(rows: seq<Policy>, subject: string, action: string, doc: Option<string>): Result<(), LineageError> {
    var unreadable, decision := FirstUnreadable(rows), DecisionOf(rows, subject, action, doc);
    if Blank(subject) || Blank(action) then Err(PolicyConditionInvalid)
    else if unreadable.Some? then Err(unreadable.value)
    else if decision.allowed then Ok(())
    else if decision.matched.Some? then Err(PolicyDenyEnforced)
    else Err(PermissionDenied)
  }

  /** What is let through, on any tables: a named subject all of whose bound conditions can be read, and whom they allow. */
  lemma VerdictIsDenyOverrides(tables: Tables, rows: seq<Policy>, subject: string, action: string, doc: Option<string>)
    requires Selects(tables, subject, rows)
    ensures PolicyVerdict(rows, subject, action, doc).Ok? <==>
      !Blank(subject) && !Blank(action) && AllBoundReadable(tables, subject) && Allowed(tables, subject, action, doc)
    ensures PolicyVerdict(rows, subject, action, doc) == Err(PolicyDenyEnforced) <==>
      !Blank(subject) && !Blank(action) && AllBoundReadable(tables, subject) && SomeBoundMatches(tables, "deny", subject, action, doc)
  {
    hide Blank, Bound, SomeBoundMatches, DecisionOf, FirstUnreadable, ConditionOf;
    DecisionIsDenyOverrides(tables, rows, subject, action, doc);
    UnreadableExactly(rows);
    assert FirstUnreadable(rows).None? <==> AllBoundReadable(tables, subject);
  }

  // ---- The decision told from the condition texts alone ----

  predicate Present(members: map<string, Value>, key: string) {
    key in members && !members[key].Null?
  }

  /** Every part that the object has is met: the action is this one, the document begins and ends so, the subject begins so. */
  predicate Speaks(text: string, subject: string, action: string, doc: Option<string>) {
    var parsed := Parse(text);
    parsed.Ok? && parsed.value.Obj?
    && (var m := parsed.value.members;
        (Present(m, "action") ==> m["action"] == Str(action))
        && (Present(m, "doc_id_prefix") ==> doc.Some? && m["doc_id_prefix"].Str? && m["doc_id_prefix"].s <= doc.value)
        && (Present(m, "doc_id_suffix") ==>
              doc.Some? && m["doc_id_suffix"].Str? && |m["doc_id_suffix"].s| <= |doc.value|
              && doc.value[|doc.value| - |m["doc_id_suffix"].s|..] == m["doc_id_suffix"].s)
        && (Present(m, "subject_id_prefix") ==> m["subject_id_prefix"].Str? && m["subject_id_prefix"].s <= subject))
  }

  predicate IsConditionField(members: map<string, Value>, key: string) {
    Present(members, key) ==> members[key].Str? && !Blank(members[key].s)
  }

  /** A condition is readable exactly when it is a float-free JSON object of at most these four members, null or not blank. */
  lemma ReadableExactly(text: string)
    ensures ConditionOf(text).Ok? <==>
      Parse(text).Ok? && Parse(text).value.Obj? && FloatFree(Parse(text).value)
      && (var m := Parse(text).value.members;
          m.Keys <= {"action", "doc_id_prefix", "doc_id_suffix", "subject_id_prefix"}
          && IsConditionField(m, "action") && IsConditionField(m, "doc_id_prefix")
          && IsConditionField(m, "doc_id_suffix") && IsConditionField(m, "subject_id_prefix"))
  {
    hide Parse, FloatFree, Canonical, Blank;
  }

  lemma MatchesExactly(p: Policy, effect: string, subject: string, action: string, doc: Option<string>)
    requires ConditionOf(p.conditionJson).Ok?
    ensures Matches(p, effect, subject, action, doc) <==> p.effect == effect && Speaks(p.conditionJson, subject, action, doc)
  {
    hide Parse, FloatFree, Canonical, Blank;
  }

  /** With readable rows: allowed exactly when a speaking row allows and no speaking row denies. */
  lemma DecisionIsOfSpeakingRows(rows: seq<Policy>, subject: string, action: string, doc: Option<string>)
    requires FirstUnreadable(rows).None?
    ensures var d := DecisionOf(rows, subject, action, doc);
      (d.allowed <==>
        (exists p :: p in rows && p.effect == "allow" && Speaks(p.conditionJson, subject, action, doc))
        && !(exists p :: p in rows && p.effect == "deny" && Speaks(p.conditionJson, subject, action, doc)))
      && (!d.allowed && d.matched.Some? <==>
        exists p :: p in rows && p.effect == "deny" && Speaks(p.conditionJson, subject, action, doc))
  {
    hide Matches, ConditionOf, Speaks, FirstMatch, FirstUnreadable;
    UnreadableExactly(rows);
    forall p | p in rows
      ensures Matches(p, "allow", subject, action, doc) <==> p.effect == "allow" && Speaks(p.conditionJson, subject, action, doc)
      ensures Matches(p, "deny", subject, action, doc) <==> p.effect == "deny" && Speaks(p.conditionJson, subject, action, doc)
    {
      MatchesExactly(p, "allow", subject, action, doc);
      MatchesExactly(p, "deny", subject, action, doc);
    }
    FirstMatchIsAMatch(rows, "allow", subject, action, doc);
    FirstMatchIsAMatch(rows, "deny", subject, action, doc);
  }

  lemma {:induction false} FirstMatchWithout(rows: seq<Policy>, i: nat, effect: string, subject: string, action: string, doc: Option<string>)
    requires i < |rows| && !Matches(rows[i], effect, subject, action, doc)
    ensures FirstMatch(rows[..i] + rows[i + 1..], effect, subject, action, doc) == FirstMatch(rows, effect, subject, action, doc)
  {
    hide Matches;
    var rest, front := rows[..i] + rows[i + 1..], rows[..|rows| - 1];
    if i == |rows| - 1 {
      assert rest == front;
    } else {
      FirstMatchWithout(front, i, effect, subject, action, doc);
      assert rest[..|rest| - 1] == front[..i] + front[i + 1..];
      assert rest[|rest| - 1] == rows[|rows| - 1];
    }
  }

  /** A readable row some part of which is not met decides nothing: the decision is the one without it. */
  lemma SilentRowDecidesNothing(rows: seq<Policy>, i: nat, subject: string, action: string, doc: Option<string>)
    requires i < |rows| && ConditionOf(rows[i].conditionJson).Ok? && !Speaks(rows[i].conditionJson, subject, action, doc)
    ensures DecisionOf(rows[..i] + rows[i + 1..], subject, action, doc) == DecisionOf(rows, subject, action, doc)
  {
    hide Matches, ConditionOf, Speaks, FirstMatch;
    MatchesExactly(rows[i], "allow", subject, action, doc);
    MatchesExactly(rows[i], "deny", subject, action, doc);
    FirstMatchWithout(rows, i, "allow", subject, action, doc);
    FirstMatchWithout(rows, i, "deny", subject, action, doc);
  }

  // ---- What add makes of an effect and a name ----

  lemma {:induction false} TrimKeepsCore(before: string, core: string, after: string)
    requires Blank(before) && Blank(after) && core != "" && !IsWhitespace(core[0]) && !IsWhitespace(core[|core| - 1])
    ensures Trim(before + core + after) == core
  {
    TrimStartKeeps(before, core + after);
    assert before + core + after == before + (core + after);
    TrimEndKeeps(core, after);
  }

  lemma {:induction false} TrimStartKeeps(before: string, rest: string)
    requires Blank(before) && rest != "" && !IsWhitespace(rest[0])
    ensures TrimStart(before + rest) == rest
  {
    if before == "" {
      assert before + rest == rest;
    } else {
      assert (before + rest)[1..] == before[1..] + rest;
      TrimStartKeeps(before[1..], rest);
    }
  }

  lemma {:induction false} TrimEndKeeps(core: string, after: string)
    requires Blank(after) && core != "" && !IsWhitespace(core[|core| - 1])
    ensures TrimEnd(core + after) == core
  {
    if after == "" {
      assert core + after == core;
    } else {
      var s := core + after;
      assert s[..|s| - 1] == core + after[..|after| - 1];
      TrimEndKeeps(core, after[..|after| - 1]);
    }
  }

  predicate SameButCase(a: char, lower: char) {
    a == lower || ('A' <= a <= 'Z' && a as int + 32 == lower as int)
  }

  lemma {:induction false} LowerIsPointwise(s: string)
    ensures |AsciiLower(s)| == |s|
    ensures forall i :: 0 <= i < |s| ==> AsciiLower(s)[i] == if 'A' <= s[i] <= 'Z' then s[i] + 32 as char else s[i]
  {
    if s != "" {
      LowerIsPointwise(s[1..]);
    }
  }

  /** An effect in any ASCII case, with any white space around it, is stored in lower case and with its own priority. */
  lemma EffectIsStoredPlain(h: Hasher, tables: Tables, name: string, before: string, core: string, after: string, plain: string,
                            conditionJson: string, createdBy: string, nowMs: int)
    requires plain == "allow" || plain == "deny"
    requires Blank(before) && Blank(after) && |core| == |plain| && forall i :: 0 <= i < |core| ==> SameButCase(core[i], plain[i])
    ensures var added := AddPolicy(h, tables, name, before + core + after, conditionJson, createdBy, nowMs);
      (added.Ok? <==>
         !Blank(name) && !Blank(createdBy) && ConditionOf(conditionJson).Ok?
         && (forall other :: other in tables.policies && other != name ==>
               tables.policies[other].policyId != h("kc.lineage.policy.v3\n" + Trim(name))))
      && (added.Ok? ==>
            added.value.policyId == h("kc.lineage.policy.v3\n" + Trim(name))
            && added.value.effect == plain && added.value.priority == (if plain == "deny" then 100 else 200)
            && added.value.policyName == name && added.value.createdBy == createdBy && added.value.createdAtMs == nowMs
            && added.value.conditionJson == ConditionOf(conditionJson).value.1)
  {
    hide ConditionOf, Trim, AsciiLower, Blank;
    assert !IsWhitespace(core[0]) && !IsWhitespace(core[|core| - 1]) by {
      assert SameButCase(core[0], plain[0]) && SameButCase(core[|core| - 1], plain[|plain| - 1]);
    }
    TrimKeepsCore(before, core, after);
    LowerIsPointwise(core);
    assert AsciiLower(core) == plain;
  }
}
