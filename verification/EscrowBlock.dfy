/** The recovery escrow block: exporter (export.rs), verifier (verifier.rs) and their shared order (recovery_escrow.rs). */
module EscrowBlock {
  import opened Outcomes
  import opened Text
  import opened CanonJson
  import opened JsonReader
  import opened Sorting
  import opened BundleOrder

  datatype Descriptor = Descriptor(provider: string, providerRef: string, keyId: string, wrappedAtMs: I64)

  // ---- The order of providers and descriptors ----

  const ESCROW_PROVIDER_PRIORITY := ["aws", "gcp", "azure", "hsm", "local", "private_kms"]

  function PositionIn(ids: seq<string>, id: string): (k: int)
    ensures 0 <= k <= |ids| && (k < |ids| <==> id in ids) && (k < |ids| ==> ids[k] == id)
  {
    if ids == [] then 0 else if ids[0] == id then 0 else 1 + PositionIn(ids[1..], id)
  }

  function ProviderPriority(id: string): int {
    var k := PositionIn(ESCROW_PROVIDER_PRIORITY, id);
    if k < |ESCROW_PROVIDER_PRIORITY| then k else 9
  }

  predicate Supported(id: string) {
    id in ESCROW_PROVIDER_PRIORITY
  }

  predicate ProviderLe(a: string, b: string) {
    ProviderPriority(a) < ProviderPriority(b) || (ProviderPriority(a) == ProviderPriority(b) && LessEq(a, b))
  }

  /** Within one provider: by reference, then key, then time. */
  predicate WithinProviderLe(a: Descriptor, b: Descriptor) {
    Less(a.providerRef, b.providerRef)
    || (a.providerRef == b.providerRef
        && (Less(a.keyId, b.keyId) || (a.keyId == b.keyId && a.wrappedAtMs <= b.wrappedAtMs)))
  }

  predicate DescriptorLe(a: Descriptor, b: Descriptor) {
    if a.provider == b.provider then WithinProviderLe(a, b) else ProviderLe(a.provider, b.provider)
  }

  lemma ProviderOrderIsTotal()
    ensures TotalPreorder(ProviderLe)
    ensures forall a, b :: ProviderLe(a, b) && ProviderLe(b, a) ==> a == b
  {
    hide Less, LessEq, ProviderPriority;
    NameOrderIsTotal();
    forall a, b | ProviderLe(a, b) && ProviderLe(b, a)
      ensures a == b
    {
      SameBothWays(a, b);
    }
  }

  lemma SameBothWays(a: string, b: string)
    ensures LessEq(a, b) && LessEq(b, a) ==> a == b
  {
    hide Less;
    if Less(a, b) {
      LessAsymmetric(a, b);
    }
  }

  lemma WithinProviderIsTotal(a: Descriptor, b: Descriptor, c: Descriptor)
    ensures WithinProviderLe(a, b) || WithinProviderLe(b, a)
    ensures WithinProviderLe(a, b) && WithinProviderLe(b, c) ==> WithinProviderLe(a, c)
  {
    hide Less;
    LessTotal(a.providerRef, b.providerRef);
    LessTotal(a.keyId, b.keyId);
    if Less(a.providerRef, b.providerRef) && Less(b.providerRef, c.providerRef) {
      LessTransitive(a.providerRef, b.providerRef, c.providerRef);
    }
    if Less(a.keyId, b.keyId) && Less(b.keyId, c.keyId) {
      LessTransitive(a.keyId, b.keyId, c.keyId);
    }
  }

  lemma DescriptorOrderIsTotal()
    ensures TotalPreorder(DescriptorLe)
  {
    hide WithinProviderLe, ProviderLe;
    ProviderOrderIsTotal();
    forall a: Descriptor, b: Descriptor
      ensures DescriptorLe(a, b) || DescriptorLe(b, a)
    {
      WithinProviderIsTotal(a, b, a);
    }
    forall a: Descriptor, b: Descriptor, c: Descriptor | DescriptorLe(a, b) && DescriptorLe(b, c)
      ensures DescriptorLe(a, c)
    {
      WithinProviderIsTotal(a, b, c);
    }
  }

  // ---- Descriptors as JSON ----

  function Field(v: Value, key: string): Option<Value> {
    if v.Obj? && key in v.members then Some(v.members[key]) else None
  }

  predicate IsText(v: Option<Value>) {
    v.Some? && v.value.Str?
  }

  predicate IsI64(v: Option<Value>) {
    v.Some? && v.value.Int? && v.value.n < 0x8000_0000_0000_0000
  }

  /** The descriptor a JSON object holds; other fields are passed over. */
  function DescriptorOf(v: Value): Option<Descriptor> {
    var provider, ref, key, at := Field(v, "provider"), Field(v, "provider_ref"), Field(v, "key_id"), Field(v, "wrapped_at_ms");
    if IsText(provider) && IsText(ref) && IsText(key) && IsI64(at)
    then Some(Descriptor(provider.value.s, ref.value.s, key.value.s, at.value.n))
    else None
  }

  function DescriptorValue(d: Descriptor): Value {
    Obj(map["provider" := Str(d.provider), "provider_ref" := Str(d.providerRef), "key_id" := Str(d.keyId), "wrapped_at_ms" := Int(d.wrappedAtMs)])
  }

  lemma DescriptorReadsBack(d: Descriptor)
    ensures DescriptorOf(DescriptorValue(d)) == Some(d)
  {
    var v := DescriptorValue(d);
    assert Field(v, "provider") == Some(Str(d.provider));
    assert Field(v, "provider_ref") == Some(Str(d.providerRef));
    assert Field(v, "key_id") == Some(Str(d.keyId));
    assert Field(v, "wrapped_at_ms") == Some(Int(d.wrappedAtMs));
  }

  // ---- The exporter ----

  datatype ConfigRow = ConfigRow(providerId: string, enabled: bool, descriptorJson: string, updatedAtMs: I64)

  datatype ExportError = ExportFailed

  datatype Collected = Collected(providers: seq<string>, descriptors: seq<Descriptor>, updatedAtMs: Option<I64>)

  predicate HasDescriptorShape(v: Value) {
    v.Obj? && "provider" in v.members && "provider_ref" in v.members && "key_id" in v.members && "wrapped_at_ms" in v.members
  }

  /** An enabled row with a descriptor; rows that only configure a provider are passed over. */
  predicate Exports(row: ConfigRow) {
    row.enabled && Parse(row.descriptorJson).Ok? && HasDescriptorShape(Parse(row.descriptorJson).value)
  }

  function Later(a: Option<I64>, b: I64): I64 {
    if a.Some? && a.value > b then a.value else b
  }

  function CollectRow(sofar: Collected, row: ConfigRow): Result<Collected, ExportError> {
    if !row.enabled then Ok(sofar)
    else
      var parsed := Parse(row.descriptorJson);
      if parsed.Err? then Err(ExportFailed)
      else if !HasDescriptorShape(parsed.value) then Ok(sofar)
      else
        var d := DescriptorOf(parsed.value);
        if d.None? || d.value.provider != row.providerId then Err(ExportFailed)
        else Ok(Collected(sofar.providers + [row.providerId], sofar.descriptors + [d.value], Some(Later(sofar.updatedAtMs, row.updatedAtMs))))
  }

  function CollectRows(rows: seq<ConfigRow>): Result<Collected, ExportError> {
    if rows == [] then Ok(Collected([], [], None))
    else
      var sofar :- CollectRows(rows[..|rows| - 1]);
      CollectRow(sofar, rows[|rows| - 1])
  }

  function Texts(ids: seq<string>): seq<Value> {
    seq(|ids|, i requires 0 <= i < |ids| => Str(ids[i]))
  }

  function DescriptorValues(descriptors: seq<Descriptor>): seq<Value> {
    seq(|descriptors|, i requires 0 <= i < |descriptors| => DescriptorValue(descriptors[i]))
  }

  function BlockMembers(enabled: bool, provider: string, providers: seq<Value>, updated: Value, descriptor: Value, descriptors: seq<Value>): Value {
    Obj(map[
      "enabled" := Bool(enabled),
      "provider" := Str(provider),
      "providers" := Arr(providers),
      "updated_at_ms" := updated,
      "descriptor" := descriptor,
      "escrow_descriptors" := Arr(descriptors)])
  }

  /** The block for what was collected: everything sorted, providers once each, the first descriptor as the primary one. */
  function BlockOf(c: Collected): Value {
    var descriptors := StableSort(DescriptorLe, c.descriptors);
    var providers := Dedup(StableSort(ProviderLe, c.providers));
    if descriptors == [] || providers == [] || c.updatedAtMs.None? then BlockMembers(false, "none", [], Null, Null, [])
    else
      BlockMembers(true, if |providers| == 1 then providers[0] else "multi", Texts(providers), Int(c.updatedAtMs.value),
                   DescriptorValue(descriptors[0]), DescriptorValues(descriptors))
  }

  method RecoveryEscrowExportBlock(rows: seq<ConfigRow>) returns (r: Result<Value, ExportError>)
    ensures r.Err? <==> CollectRows(rows).Err?
    ensures r.Ok? ==> r.value == BlockOf(CollectRows(rows).value)
  {
    hide HasDescriptorShape, DescriptorOf, BlockMembers, StableSort, Dedup;
    var descriptors: seq<Descriptor> := [];
    var providers: seq<string> := [];
    var updatedAtMs: Option<I64> := None;
    var i := 0;
    while i < |rows|
      invariant 0 <= i <= |rows|
      invariant CollectRows(rows[..i]) == Ok(Collected(providers, descriptors, updatedAtMs))
      invariant |providers| == |descriptors| && (updatedAtMs.None? <==> descriptors == [])
    {
      var row := rows[i];
      assert rows[..i + 1][..i] == rows[..i];
      assert CollectRows(rows[..i + 1]) == CollectRow(Collected(providers, descriptors, updatedAtMs), row);
      i := i + 1;
      if !row.enabled {
        continue;
      }
      var parsed := Parse(row.descriptorJson);
      if parsed.Err? {
        FailureStays(rows, i);
        return Err(ExportFailed);
      }
      if !HasDescriptorShape(parsed.value) {
        continue;
      }
      var descriptor := DescriptorOf(parsed.value);
      if descriptor.None? || descriptor.value.provider != row.providerId {
        FailureStays(rows, i);
        return Err(ExportFailed);
      }
      providers := providers + [row.providerId];
      descriptors := descriptors + [descriptor.value];
      updatedAtMs := Some(if updatedAtMs.Some? && updatedAtMs.value > row.updatedAtMs then updatedAtMs.value else row.updatedAtMs);
    }
    assert rows[..i] == rows;
    SortedSizes(descriptors, providers);
    if descriptors == [] {
      return Ok(BlockMembers(false, "none", [], Null, Null, []));
    }
    descriptors := StableSort(DescriptorLe, descriptors);
    providers := Dedup(StableSort(ProviderLe, providers));
    var primary := if |providers| == 1 then providers[0] else "multi";
    return Ok(BlockMembers(true, primary, Texts(providers), Int(updatedAtMs.value), DescriptorValue(descriptors[0]), DescriptorValues(descriptors)));
  }

  lemma {:induction false} FailureStays(rows: seq<ConfigRow>, i: nat)
    requires i <= |rows| && CollectRows(rows[..i]).Err?
    ensures CollectRows(rows).Err?
  {
    hide CollectRow;
    if i == |rows| {
      assert rows[..i] == rows;
    } else {
      assert rows[..|rows| - 1][..i] == rows[..i];
      FailureStays(rows[..|rows| - 1], i);
    }
  }

  lemma SortedSizes(descriptors: seq<Descriptor>, providers: seq<string>)
    requires |descriptors| == |providers|
    ensures |StableSort(DescriptorLe, descriptors)| == |descriptors|
    ensures Dedup(StableSort(ProviderLe, providers)) == [] <==> providers == []
  {
    DescriptorOrderIsTotal();
    ProviderOrderIsTotal();
    SortKeepsMembers(DescriptorLe, descriptors);
    SortKeepsMembers(ProviderLe, providers);
  }

  // ---- The verifier ----

  datatype Block = Block(enabled: bool, provider: string, updated: Value, descriptor: Value, providers: Option<seq<Value>>, descriptors: Option<seq<Value>>)

  function ArrayField(v: Value, key: string): Option<seq<Value>> {
    var field := Field(v, key);
    if field.Some? && field.value.Arr? then Some(field.value.items) else None
  }

  /** A manifest without a readable block passes; the schema is what demands one. */
  function ReadBlock(manifest: Value): Option<Block> {
    var block := Field(manifest, "recovery_escrow");
    if block.None? then None
    else
      var enabled, provider := Field(block.value, "enabled"), Field(block.value, "provider");
      var updated, descriptor := Field(block.value, "updated_at_ms"), Field(block.value, "descriptor");
      if enabled.None? || !enabled.value.Bool? || !IsText(provider) || updated.None? || descriptor.None? then None
      else
        Some(Block(enabled.value.b, provider.value.s, updated.value, descriptor.value,
                   ArrayField(block.value, "providers"), ArrayField(block.value, "escrow_descriptors")))
  }

  function StringsIn(values: seq<Value>): seq<string> {
    if values == [] then []
    else StringsIn(values[..|values| - 1]) + (if values[|values| - 1].Str? then [values[|values| - 1].s] else [])
  }

  /** The provider list, or in its absence the provider of the primary descriptor. */
  function ProviderValues(b: Block): seq<Value> {
    match b.providers
    case Some(values) => values
    case None =>
      var primary := Field(b.descriptor, "provider");
      if primary.Some? then [primary.value] else []
  }

  function DescriptorEntries(b: Block): seq<Value> {
    if b.descriptors.Some? then b.descriptors.value else [b.descriptor]
  }

  ghost predicate StrictlyOrdered(ids: seq<string>) {
    SortedBy(ProviderLe, ids) && forall i, j :: 0 <= i < j < |ids| ==> ids[i] != ids[j]
  }

  predicate EntryLe(a: (Descriptor, Value), b: (Descriptor, Value)) {
    DescriptorLe(a.0, b.0)
  }

  ghost predicate EntriesSorted(entries: seq<Value>) {
    forall i, j :: 0 <= i < j < |entries| && DescriptorOf(entries[i]).Some? && DescriptorOf(entries[j]).Some? ==>
      DescriptorLe(DescriptorOf(entries[i]).value, DescriptorOf(entries[j]).value)
  }

  ghost predicate EntryListed(entry: Value, ids: seq<string>) {
    DescriptorOf(entry).Some? && DescriptorOf(entry).value.provider in ids
  }

  /** What an enabled block has to say. */
  ghost predicate EnabledConsistent(b: Block) {
    var ids, entries := StringsIn(ProviderValues(b)), DescriptorEntries(b);
    IsI64(Some(b.updated))
    && ids != [] && |ids| == |ProviderValues(b)|
    && (forall id :: id in ids ==> Supported(id))
    && StrictlyOrdered(ids)
    && entries != []
    && (forall entry :: entry in entries ==> EntryListed(entry, ids))
    && EntriesSorted(entries)
    && b.descriptor == entries[0]
    && b.provider == if |ids| == 1 then ids[0] else "multi"
  }

  ghost predicate DisabledConsistent(b: Block) {
    b.provider == "none" && b.updated.Null? && b.descriptor.Null?
    && (b.providers.Some? ==> b.providers.value == []) && (b.descriptors.Some? ==> b.descriptors.value == [])
  }

  ghost predicate Consistent(b: Block) {
    if b.enabled then EnabledConsistent(b) else DisabledConsistent(b)
  }

  lemma EntryOrderIsTotal()
    ensures TotalPreorder(EntryLe)
  {
    hide DescriptorLe;
    DescriptorOrderIsTotal();
  }

  /** A list is what sorting by priority and dropping repetitions makes of it exactly when it is strictly ordered. */
  lemma StrictExactlyWhenNormal(ids: seq<string>)
    ensures Dedup(StableSort(ProviderLe, ids)) == ids <==> StrictlyOrdered(ids)
    ensures forall id :: id in Dedup(StableSort(ProviderLe, ids)) <==> id in ids
  {
    hide ProviderLe;
    ProviderOrderIsTotal();
    SortSorts(ProviderLe, ids);
    SortKeepsMembers(ProviderLe, ids);
    SortedExactlyWhenFixed(ProviderLe, ids);
    DedupOfSorted(ProviderLe, StableSort(ProviderLe, ids));
    if StrictlyOrdered(ids) {
      DedupKeepsDistinct(ids);
    }
  }

  lemma SingletonIsOrdered(id: string)
    ensures StrictlyOrdered([id])
  {
  }

  method CheckDescriptors(entries: seq<Value>, ids: seq<string>) returns (r: Option<seq<(Descriptor, Value)>>)
    ensures r.Some? <==> forall entry :: entry in entries ==> EntryListed(entry, ids)
    ensures r.Some? ==> |r.value| == |entries|
    ensures r.Some? ==> forall k :: 0 <= k < |entries| ==> DescriptorOf(entries[k]) == Some(r.value[k].0) && r.value[k].1 == entries[k]
  {
    hide DescriptorOf;
    var normalized: seq<(Descriptor, Value)> := [];
    var i := 0;
    while i < |entries|
      invariant 0 <= i <= |entries| && |normalized| == i
      invariant forall k :: 0 <= k < i ==> EntryListed(entries[k], ids)
      invariant forall k :: 0 <= k < i ==> DescriptorOf(entries[k]) == Some(normalized[k].0) && normalized[k].1 == entries[k]
    {
      var descriptor := DescriptorOf(entries[i]);
      if descriptor.None? || descriptor.value.provider !in ids {
        assert !EntryListed(entries[i], ids);
        return None;
      }
      normalized := normalized + [(descriptor.value, entries[i])];
      i := i + 1;
    }
    return Some(normalized);
  }

  lemma EntriesSortedExactly(entries: seq<Value>, normalized: seq<(Descriptor, Value)>)
    requires |normalized| == |entries|
    requires forall k :: 0 <= k < |entries| ==> DescriptorOf(entries[k]) == Some(normalized[k].0) && normalized[k].1 == entries[k]
    ensures normalized == StableSort(EntryLe, normalized) <==> EntriesSorted(entries)
    ensures |entries| == 1 ==> EntriesSorted(entries)
  {
    hide DescriptorOf, DescriptorLe;
    EntryOrderIsTotal();
    SortedExactlyWhenFixed(EntryLe, normalized);
  }

  /** None means the metadata is accepted; otherwise the field found wrong first. */
  method VerifyRecoveryEscrowMetadata(manifest: Value) returns (mismatch: Option<string>)
    ensures mismatch.None? <==> ReadBlock(manifest).None? || Consistent(ReadBlock(manifest).value)
  {
    hide ReadBlock;
    match ReadBlock(manifest)
    case None =>
      return None;
    case Some(b) =>
      if b.enabled {
        mismatch := VerifyEnabled(b);
        return;
      }
      if b.provider != "none" {
        return Some("provider");
      }
      if b.providers.Some? && b.providers.value != [] {
        return Some("providers");
      }
      if !b.updated.Null? {
        return Some("updated_at_ms");
      }
      if !b.descriptor.Null? {
        return Some("descriptor");
      }
      if b.descriptors.Some? && b.descriptors.value != [] {
        return Some("escrow_descriptors");
      }
      return None;
  }

  method VerifyEnabled(b: Block) returns (mismatch: Option<string>)
    ensures mismatch.None? <==> EnabledConsistent(b)
  {
    hide StringsIn, DescriptorOf, StrictlyOrdered, EntriesSorted, EntryListed, StableSort, Dedup, Supported;
    SupportedIsNamed("");
    SupportedIsNamed(b.provider);
    if b.provider == "" {
      EmptyProviderIsInconsistent(b);
      return Some("provider");
    }
    if !IsI64(Some(b.updated)) {
      return Some("updated_at_ms");
    }
    var ids := StringsIn(ProviderValues(b));
    StringsAreFewer(ProviderValues(b));
    var toCheck := if b.providers.Some? then b.providers.value else [];
    if toCheck != [] && |ids| != |toCheck| {
      return Some("providers");
    }
    if ids == [] {
      return Some("providers");
    }
    if exists id :: id in ids && !Supported(id) {
      return Some("providers");
    }
    var expectedOrder := Dedup(StableSort(ProviderLe, ids));
    StrictExactlyWhenNormal(ids);
    SingletonIsOrdered(ids[0]);
    assert |ids| == 1 ==> ids == [ids[0]];
    if b.providers.Some? && ids != expectedOrder {
      return Some("providers");
    }
    var entries := DescriptorEntries(b);
    if entries == [] {
      return Some("escrow_descriptors");
    }
    var normalized := CheckDescriptors(entries, expectedOrder);
    SameMembersListAlike(entries, expectedOrder, ids);
    if normalized.None? {
      return Some("escrow_descriptors");
    }
    var expected := StableSort(EntryLe, normalized.value);
    EntriesSortedExactly(entries, normalized.value);
    if b.descriptors.Some? && normalized.value != expected {
      return Some("escrow_descriptors");
    }
    assert normalized.value == expected;
    ListedIsObject(entries[0], ids);
    if !b.descriptor.Obj? {
      return Some("descriptor");
    }
    if b.descriptor != expected[0].1 {
      return Some("descriptor");
    }
    var expectedProvider := if |expectedOrder| == 1 then expectedOrder[0] else "multi";
    if b.provider != expectedProvider {
      return Some("provider");
    }
    return None;
  }

  lemma SupportedIsNamed(id: string)
    ensures Supported(id) ==> id != ""
  {
  }

  lemma EmptyProviderIsInconsistent(b: Block)
    requires b.provider == ""
    ensures !EnabledConsistent(b)
  {
    hide StringsIn, DescriptorOf, StrictlyOrdered, EntriesSorted, EntryListed, Supported;
    var ids := StringsIn(ProviderValues(b));
    if ids != [] {
      SupportedIsNamed(ids[0]);
      assert ids[0] in ids;
    }
    assert "multi" != "";
  }

  lemma {:induction false} StringsAreFewer(values: seq<Value>)
    ensures |StringsIn(values)| <= |values|
    ensures |StringsIn(values)| == |values| <==> forall k :: 0 <= k < |values| ==> values[k].Str?
    ensures |StringsIn(values)| == |values| ==> values == Texts(StringsIn(values))
  {
    if values != [] {
      var front := values[..|values| - 1];
      StringsAreFewer(front);
      assert values == front + [values[|values| - 1]];
      assert forall k :: 0 <= k < |front| ==> values[k] == front[k];
      assert (forall k :: 0 <= k < |values| ==> values[k].Str?) <==>
        (forall k :: 0 <= k < |front| ==> front[k].Str?) && values[|values| - 1].Str?;
    }
  }

  lemma SameMembersListAlike(entries: seq<Value>, a: seq<string>, b: seq<string>)
    requires forall id :: id in a <==> id in b
    ensures (forall entry :: entry in entries ==> EntryListed(entry, a)) <==> (forall entry :: entry in entries ==> EntryListed(entry, b))
  {
    hide DescriptorOf;
    forall entry
      ensures EntryListed(entry, a) <==> EntryListed(entry, b)
    {
    }
  }

  lemma ListedIsObject(entry: Value, ids: seq<string>)
    ensures EntryListed(entry, ids) ==> entry.Obj?
  {
  }

  // ---- Both sides together ----

  /** The rows that export, in table order. */
  function ExportingRows(rows: seq<ConfigRow>): seq<ConfigRow> {
    if rows == [] then []
    else ExportingRows(rows[..|rows| - 1]) + (if Exports(rows[|rows| - 1]) then [rows[|rows| - 1]] else [])
  }

  /** The k-th provider and descriptor are those of the k-th exporting row, the descriptor as its JSON says. */
  ghost predicate CollectedFrom(c: Collected, exporting: seq<ConfigRow>) {
    |c.providers| == |exporting| && |c.descriptors| == |exporting|
    && forall k :: 0 <= k < |exporting| ==> CollectedRow(c.providers[k], c.descriptors[k], exporting[k])
  }

  ghost predicate CollectedRow(provider: string, d: Descriptor, row: ConfigRow) {
    provider == row.providerId && d.provider == row.providerId
    && Parse(row.descriptorJson).Ok? && DescriptorOf(Parse(row.descriptorJson).value) == Some(d)
  }

  lemma {:induction false} CollectedRowByRow(rows: seq<ConfigRow>)
    requires CollectRows(rows).Ok?
    ensures CollectedFrom(CollectRows(rows).value, ExportingRows(rows))
  {
    hide HasDescriptorShape, DescriptorOf, Parse;
    if rows != [] {
      CollectedRowByRow(rows[..|rows| - 1]);
    }
  }

  /** The time of the block is the latest of the exporting rows: none is later, and one of them has it. */
  lemma {:induction false} TimeIsTheLatest(rows: seq<ConfigRow>)
    requires CollectRows(rows).Ok?
    ensures var c := CollectRows(rows).value;
      (c.updatedAtMs.None? <==> ExportingRows(rows) == [])
      && (c.updatedAtMs.Some? ==>
            (forall row :: row in ExportingRows(rows) ==> row.updatedAtMs <= c.updatedAtMs.value)
            && exists row :: row in ExportingRows(rows) && row.updatedAtMs == c.updatedAtMs.value)
  {
    hide HasDescriptorShape, DescriptorOf, Parse;
    if rows != [] {
      var front, last := rows[..|rows| - 1], rows[|rows| - 1];
      TimeIsTheLatest(front);
      assert forall row :: row in ExportingRows(rows) <==> row in ExportingRows(front) || (Exports(last) && row == last);
      if Exports(last) {
        assert last in ExportingRows(rows);
        if ExportingRows(front) != [] {
          var row :| row in ExportingRows(front) && row.updatedAtMs == CollectRows(front).value.updatedAtMs.value;
          assert row in ExportingRows(rows);
        }
      }
    }
  }

  /** A row exports when it is enabled and its JSON is an object with the four members; the descriptor holds them. */
  lemma ExportsExactly(row: ConfigRow)
    ensures Exports(row) <==>
      row.enabled && Parse(row.descriptorJson).Ok? && Parse(row.descriptorJson).value.Obj?
      && {"provider", "provider_ref", "key_id", "wrapped_at_ms"} <= Parse(row.descriptorJson).value.members.Keys
  {
    hide Parse;
  }

  lemma DescriptorFieldByField(members: map<string, Value>, d: Descriptor)
    requires DescriptorOf(Obj(members)) == Some(d)
    ensures {"provider", "provider_ref", "key_id", "wrapped_at_ms"} <= members.Keys
    ensures members["provider"] == Str(d.provider) && members["provider_ref"] == Str(d.providerRef)
    ensures members["key_id"] == Str(d.keyId) && members["wrapped_at_ms"] == Int(d.wrappedAtMs)
  {
  }

  /** The six supported providers in their order; anything else comes last. */
  lemma ProviderOrderIsTold(id: string)
    ensures ProviderPriority(id) ==
      if id == "aws" then 0 else if id == "gcp" then 1 else if id == "azure" then 2
      else if id == "hsm" then 3 else if id == "local" then 4 else if id == "private_kms" then 5 else 9
    ensures Supported(id) <==> id in ["aws", "gcp", "azure", "hsm", "local", "private_kms"]
  {
    hide PositionIn;
    var ids := ESCROW_PROVIDER_PRIORITY;
    assert ids[0] == "aws" && ids[1] == "gcp" && ids[2] == "azure";
    assert ids[3] == "hsm" && ids[4] == "local" && ids[5] == "private_kms";
    assert |"aws"| == 3 && |"gcp"| == 3 && |"azure"| == 5 && |"hsm"| == 3 && |"local"| == 5 && |"private_kms"| == 11;
    assert "aws"[0] == 'a' && "gcp"[0] == 'g' && "hsm"[0] == 'h' && "azure"[0] == 'a' && "local"[0] == 'l';
  }

  /** Two descriptors are compared by priority, id, reference, key and time: the first difference decides. */
  lemma FirstDifferenceDecides(a: Descriptor, b: Descriptor)
    ensures ProviderPriority(a.provider) < ProviderPriority(b.provider) ==> DescriptorLe(a, b) && !DescriptorLe(b, a)
    ensures a.provider == b.provider && Less(a.providerRef, b.providerRef) ==> DescriptorLe(a, b) && !DescriptorLe(b, a)
    ensures a.provider == b.provider && a.providerRef == b.providerRef && Less(a.keyId, b.keyId) ==>
      DescriptorLe(a, b) && !DescriptorLe(b, a)
    ensures a.(wrappedAtMs := 0) == b.(wrappedAtMs := 0) ==> (DescriptorLe(a, b) <==> a.wrappedAtMs <= b.wrappedAtMs)
  {
    hide Less, ProviderPriority;
    LessIrreflexive(a.providerRef);
    LessIrreflexive(a.keyId);
    if Less(a.providerRef, b.providerRef) {
      LessAsymmetric(a.providerRef, b.providerRef);
    }
    if Less(a.keyId, b.keyId) {
      LessAsymmetric(a.keyId, b.keyId);
    }
  }

  /** What the exporter collects: one provider and descriptor for each exporting row, and the latest time among them. */
  lemma {:induction false} CollectedIsWhatExports(rows: seq<ConfigRow>)
    requires CollectRows(rows).Ok?
    ensures var c := CollectRows(rows).value;
      |c.providers| == |c.descriptors|
      && (forall k :: 0 <= k < |c.providers| ==> c.providers[k] == c.descriptors[k].provider)
      && (c.updatedAtMs.None? <==> c.providers == [])
      && (forall id :: id in c.providers <==> exists row :: row in rows && Exports(row) && row.providerId == id)
      && (forall row :: row in rows && Exports(row) ==> row.updatedAtMs <= Later(c.updatedAtMs, MIN_I64))
  {
    hide HasDescriptorShape, DescriptorOf;
    if rows != [] {
      var front, last := rows[..|rows| - 1], rows[|rows| - 1];
      CollectedIsWhatExports(front);
      assert rows == front + [last];
      assert forall row :: row in rows <==> row in front || row == last;
    }
  }

  lemma TextsReadBack(ids: seq<string>)
    ensures StringsIn(Texts(ids)) == ids
  {
    if ids != [] {
      var front := ids[..|ids| - 1];
      TextsReadBack(front);
      assert Texts(ids)[..|ids| - 1] == Texts(front);
    }
  }

  lemma BlockReadsBack(manifest: Value, enabled: bool, provider: string, providers: seq<Value>, updated: Value, descriptor: Value, descriptors: seq<Value>)
    requires Field(manifest, "recovery_escrow") == Some(BlockMembers(enabled, provider, providers, updated, descriptor, descriptors))
    ensures ReadBlock(manifest) == Some(Block(enabled, provider, updated, descriptor, Some(providers), Some(descriptors)))
  {
    var v := BlockMembers(enabled, provider, providers, updated, descriptor, descriptors);
    assert Field(v, "enabled") == Some(Bool(enabled));
    assert Field(v, "provider") == Some(Str(provider));
    assert Field(v, "providers") == Some(Arr(providers));
    assert Field(v, "updated_at_ms") == Some(updated);
    assert Field(v, "descriptor") == Some(descriptor);
    assert Field(v, "escrow_descriptors") == Some(Arr(descriptors));
  }

  lemma DescriptorValuesListed(descriptors: seq<Descriptor>, ids: seq<string>)
    requires forall d :: d in descriptors ==> d.provider in ids
    ensures forall entry :: entry in DescriptorValues(descriptors) ==> EntryListed(entry, ids)
    ensures SortedBy(DescriptorLe, descriptors) ==> EntriesSorted(DescriptorValues(descriptors))
  {
    hide DescriptorOf, DescriptorLe, DescriptorValue;
    var values := DescriptorValues(descriptors);
    forall k | 0 <= k < |values|
      ensures DescriptorOf(values[k]) == Some(descriptors[k])
    {
      DescriptorReadsBack(descriptors[k]);
    }
    forall entry | entry in values
      ensures EntryListed(entry, ids)
    {
      var k :| 0 <= k < |values| && values[k] == entry;
      assert descriptors[k] in descriptors;
    }
  }

  /** The exported block passes the verifier exactly when every exporting row names a supported provider. */
  lemma ExportedBlockAcceptedExactly(rows: seq<ConfigRow>, manifest: Value)
    requires CollectRows(rows).Ok? && Field(manifest, "recovery_escrow") == Some(BlockOf(CollectRows(rows).value))
    ensures ReadBlock(manifest).Some?
    ensures Consistent(ReadBlock(manifest).value) <==> forall row :: row in rows && Exports(row) ==> Supported(row.providerId)
  {
    hide Field, ReadBlock, BlockMembers, StringsIn, Texts, StableSort, Dedup, StrictlyOrdered;
    hide EntriesSorted, EntryListed, Supported, Exports, DescriptorValue, CollectRows;
    var c := CollectRows(rows).value;
    CollectedIsWhatExports(rows);
    var descriptors := StableSort(DescriptorLe, c.descriptors);
    var ids := Dedup(StableSort(ProviderLe, c.providers));
    SortedSizes(c.descriptors, c.providers);
    if c.providers == [] {
      BlockReadsBack(manifest, false, "none", [], Null, Null, []);
      assert forall row :: row in rows ==> !Exports(row) by {
        forall row | row in rows && Exports(row)
          ensures row.providerId in c.providers
        {
        }
      }
    } else {
      var provider := if |ids| == 1 then ids[0] else "multi";
      BlockReadsBack(manifest, true, provider, Texts(ids), Int(c.updatedAtMs.value), DescriptorValue(descriptors[0]), DescriptorValues(descriptors));
      TextsReadBack(ids);
      assert |Texts(ids)| == |ids| by {
        SizeOfTexts(ids);
      }
      OrderedIds(c.providers);
      SortedDescriptorsListed(c.descriptors, c.providers, ids);
      assert forall id :: id in ids <==> exists row :: row in rows && Exports(row) && row.providerId == id;
    }
  }

  lemma SizeOfTexts(ids: seq<string>)
    ensures |Texts(ids)| == |ids|
  {
  }

  lemma OrderedIds(providers: seq<string>)
    ensures var ids := Dedup(StableSort(ProviderLe, providers));
      StrictlyOrdered(ids) && forall id :: id in ids <==> id in providers
  {
    hide ProviderLe;
    ProviderOrderIsTotal();
    SortSorts(ProviderLe, providers);
    SortKeepsMembers(ProviderLe, providers);
    DedupOfSorted(ProviderLe, StableSort(ProviderLe, providers));
  }

  lemma SortedDescriptorsListed(descriptors: seq<Descriptor>, providers: seq<string>, ids: seq<string>)
    requires |providers| == |descriptors| && (forall k :: 0 <= k < |providers| ==> providers[k] == descriptors[k].provider)
    requires forall id :: id in ids <==> id in providers
    ensures var values := DescriptorValues(StableSort(DescriptorLe, descriptors));
      (forall entry :: entry in values ==> EntryListed(entry, ids)) && EntriesSorted(values)
      && |values| == |descriptors| && (values != [] ==> values[0] == DescriptorValue(StableSort(DescriptorLe, descriptors)[0]))
  {
    hide DescriptorLe, EntryListed, EntriesSorted, DescriptorValue;
    DescriptorOrderIsTotal();
    SortSorts(DescriptorLe, descriptors);
    SortKeepsMembers(DescriptorLe, descriptors);
    var sorted := StableSort(DescriptorLe, descriptors);
    forall d | d in sorted
      ensures d.provider in ids
    {
      var k :| 0 <= k < |descriptors| && descriptors[k] == d;
      assert providers[k] in providers;
    }
    DescriptorValuesListed(sorted, ids);
  }
}
