/** The content-addressed object store with encryption at rest (object_store.rs), and its migration loop. */
module ObjectStore {
  import opened Outcomes
  import opened Text
  import opened Hashing

  const MAGIC := "KCE1"
  const NONCE_LEN := 24

  datatype Context = Context(key: string, keyReference: string)

  /** The digest in text form, the first 24 bytes of the raw digest, and the cipher. Bytes are characters here. */
  datatype Crypto = Crypto(
    hash: Hasher,
    nonce: Hasher,
    seal: (string, string, string) -> Option<string>,
    open: (string, string, string) -> Option<string>)
  {
    /** Digests and nonces have their lengths, decryption undoes encryption and never lengthens. */
    ghost predicate Sound() {
      Digests(hash)
      && (forall t :: |nonce(t)| == NONCE_LEN)
      && (forall k, n, m :: seal(k, n, m).Some? ==> open(k, n, seal(k, n, m).value) == Some(m))
      && (forall k, n, m :: open(k, n, m).Some? ==> |open(k, n, m).value| <= |m|)
    }
  }

  datatype Code =
    | HashInvalidFormat
    | IngestReadFailed
    | EncryptionRequired
    | EncryptionUnsupported
    | EncryptionKeyInvalid
    | DbIntegrityFailed

  predicate IsEncryptedPayload(raw: string) {
    MAGIC <= raw
  }

  predicate HasFilePath(hash: string) {
    "blake3:" <= hash && |hash| >= 9
  }

  function MaybeEncrypt(c: Crypto, enc: Option<Context>, hash: string, bytes: string): Result<string, Code> {
    match enc
    case None => Ok(bytes)
    case Some(ctx) =>
      var nonce := c.nonce(hash + ":" + ctx.keyReference);
      match c.seal(ctx.key, nonce, bytes)
      case None => Err(EncryptionKeyInvalid)
      case Some(sealed) => Ok(MAGIC + (nonce + sealed))
  }

  function MaybeDecrypt(c: Crypto, enc: Option<Context>, hash: string, raw: string): Result<string, Code> {
    if !IsEncryptedPayload(raw) then Ok(raw)
    else if enc.None? then Err(EncryptionRequired)
    else if |raw| < |MAGIC| + NONCE_LEN then Err(EncryptionUnsupported)
    else
      var nonce := raw[|MAGIC|..|MAGIC| + NONCE_LEN];
      if nonce != c.nonce(hash + ":" + enc.value.keyReference) then Err(EncryptionKeyInvalid)
      else
        match c.open(enc.value.key, nonce, raw[|MAGIC| + NONCE_LEN..])
        case None => Err(EncryptionKeyInvalid)
        case Some(bytes) => Ok(bytes)
  }

  /** What a keyed store writes is marked, differs from the content, and reads back only through the key. */
  lemma EncryptedReadsBack(c: Crypto, ctx: Context, hash: string, bytes: string)
    requires c.Sound() && MaybeEncrypt(c, Some(ctx), hash, bytes).Ok?
    ensures var raw := MaybeEncrypt(c, Some(ctx), hash, bytes).value;
      IsEncryptedPayload(raw) && raw != bytes
      && MaybeDecrypt(c, Some(ctx), hash, raw) == Ok(bytes)
      && MaybeDecrypt(c, None, hash, raw) == Err(EncryptionRequired)
  {
    var raw := MaybeEncrypt(c, Some(ctx), hash, bytes).value;
    var nonce := c.nonce(hash + ":" + ctx.keyReference);
    var sealed := c.seal(ctx.key, nonce, bytes).value;
    assert raw[|MAGIC|..|MAGIC| + NONCE_LEN] == nonce;
    assert raw[|MAGIC| + NONCE_LEN..] == sealed;
  }

  /** What a plain store writes reads back, through any store, exactly when it does not begin with the marker. */
  lemma PlainReadsBackExactly(c: Crypto, enc: Option<Context>, hash: string, bytes: string)
    requires c.Sound()
    ensures MaybeDecrypt(c, enc, hash, bytes) == Ok(bytes) <==> !IsEncryptedPayload(bytes)
  {
  }

  datatype Row = Row(bytes: nat, relpath: string, createdEventId: int)

  /** The object files by hash, and the objects table. */
  datatype Disk = Disk(files: map<string, string>, rows: map<string, Row>)

  /** What goes wrong during a put. */
  datatype PutFault = Works | CannotMakeDirectory | CannotWrite | CannotInsert

  function Get(c: Crypto, enc: Option<Context>, files: map<string, string>, hash: string): Result<string, Code> {
    if !HasFilePath(hash) then Err(HashInvalidFormat)
    else if hash !in files then Err(IngestReadFailed)
    else MaybeDecrypt(c, enc, hash, files[hash])
  }

  /** An object already on disk is left alone; a row already in the table too. */
  function Put(c: Crypto, enc: Option<Context>, disk: Disk, bytes: string, eventId: int, fault: PutFault): (Disk, Result<string, Code>) {
    var hash := c.hash(bytes);
    var stored := MaybeEncrypt(c, enc, hash, bytes);
    if !HasFilePath(hash) then (disk, Err(HashInvalidFormat))
    else if fault == CannotMakeDirectory then (disk, Err(IngestReadFailed))
    else if hash !in disk.files && stored.Err? then (disk, Err(stored.error))
    else if hash !in disk.files && fault == CannotWrite then (disk, Err(IngestReadFailed))
    else
      var files := if hash in disk.files then disk.files else disk.files[hash := stored.value];
      if fault == CannotInsert then (disk.(files := files), Err(DbIntegrityFailed))
      else
        var row := Row(|bytes|, hash[7..9] + "/" + hash, eventId);
        (Disk(files, if hash in disk.rows then disk.rows else disk.rows[hash := row]), Ok(hash))
  }

  // ---- The migration loop ----

  datatype MigrateFault = NoFault | RewriteFails | Stops

  datatype Migration = Completed(migrated: nat, alreadyEncrypted: nat) | Failed(code: Code) | Stopped

  /** What one turn of the loop makes of an object's file. */
  function MigrateOne(c: Crypto, ctx: Context, hash: string, raw: string): Result<string, Code> {
    if !HasFilePath(hash) then Err(HashInvalidFormat)
    else if IsEncryptedPayload(raw) then
      match MaybeDecrypt(c, Some(ctx), hash, raw)
      case Ok(_) => Ok(raw)
      case Err(code) => Err(code)
    else if c.hash(raw) != hash then Err(HashInvalidFormat)
    else MaybeEncrypt(c, Some(ctx), hash, raw)
  }

  ghost function PlainAmong(files: map<string, string>, hashes: seq<string>): set<string> {
    set h | h in hashes && h in files && !IsEncryptedPayload(files[h])
  }

  ghost predicate TurnWorks(c: Crypto, ctx: Context, files: map<string, string>, hash: string) {
    hash in files && MigrateOne(c, ctx, hash, files[hash]).Ok?
  }

  /** The files once the listed objects are done: those rewritten, every other one untouched. */
  ghost predicate MigratedTo(c: Crypto, ctx: Context, before: map<string, string>, hashes: seq<string>, after: map<string, string>) {
    after.Keys == before.Keys
    && (forall h :: h in hashes ==> TurnWorks(c, ctx, before, h))
    && (forall h :: h in hashes && h in after ==> MigrateOne(c, ctx, h, before[h]) == Ok(after[h]))
    && (forall h :: h in after && h !in hashes ==> after[h] == before[h])
  }

  ghost predicate FailsWith(c: Crypto, ctx: Context, files: map<string, string>, hash: string, code: Code) {
    if HasFilePath(hash) && hash !in files then code == IngestReadFailed
    else if hash in files then code == IngestReadFailed || MigrateOne(c, ctx, hash, files[hash]) == Err(code)
    else code == HashInvalidFormat
  }

  ghost predicate MigrationEnds(c: Crypto, ctx: Context, before: Disk, after: Disk, r: Migration, n: nat) {
    var hashes := SortedKeys(before.rows.Keys);
    n <= |hashes|
    && after.rows == before.rows
    && MigratedTo(c, ctx, before.files, hashes[..n], after.files)
    && match r
       case Completed(migrated, already) =>
         n == |hashes| && migrated == |PlainAmong(before.files, hashes)| && migrated + already == |hashes|
       case Failed(code) =>
         n < |hashes| && FailsWith(c, ctx, before.files, hashes[n], code)
       case Stopped => n < |hashes|
  }

  class Objects {
    var files: map<string, string>
    var rows: map<string, Row>

    function State(): Disk
      reads this
    {
      Disk(files, rows)
    }

    constructor ()
      ensures State() == Disk(map[], map[])
    {
      files, rows := map[], map[];
    }

    method RawBytes(hash: string) returns (r: Result<string, Code>)
      ensures r == if !HasFilePath(hash) then Err(HashInvalidFormat)
                   else if hash !in files then Err(IngestReadFailed) else Ok(files[hash])
    {
      if !HasFilePath(hash) {
        return Err(HashInvalidFormat);
      }
      return if hash in files then Ok(files[hash]) else Err(IngestReadFailed);
    }

    method GetBytes(c: Crypto, enc: Option<Context>, hash: string) returns (r: Result<string, Code>)
      ensures r == Get(c, enc, files, hash)
    {
      var raw :- RawBytes(hash);
      return MaybeDecrypt(c, enc, hash, raw);
    }

    method PutBytes(c: Crypto, enc: Option<Context>, bytes: string, eventId: int, fault: PutFault) returns (r: Result<string, Code>)
      modifies this
      ensures (State(), r) == Put(c, enc, old(State()), bytes, eventId, fault)
    {
      var hash := c.hash(bytes);
      if !HasFilePath(hash) {
        return Err(HashInvalidFormat);
      }
      if fault == CannotMakeDirectory {
        return Err(IngestReadFailed);
      }
      if hash !in files {
        var stored :- MaybeEncrypt(c, enc, hash, bytes);
        if fault == CannotWrite {
          return Err(IngestReadFailed);
        }
        files := files[hash := stored];
      }
      if fault == CannotInsert {
        return Err(DbIntegrityFailed);
      }
      if hash !in rows {
        rows := rows[hash := Row(|bytes|, hash[7..9] + "/" + hash, eventId)];
      }
      return Ok(hash);
    }

    method RewritePlaintextForHash(c: Crypto, enc: Option<Context>, hash: string, plaintext: string, fault: MigrateFault) returns (r: Result<(), Code>)
      modifies this`files
      ensures r.Ok? <==> c.hash(plaintext) == hash && HasFilePath(hash) && MaybeEncrypt(c, enc, hash, plaintext).Ok? && fault.NoFault?
      ensures r.Ok? ==> files == old(files)[hash := MaybeEncrypt(c, enc, hash, plaintext).value]
      ensures r.Err? ==> files == old(files)
      ensures r.Err? ==> r.error == if c.hash(plaintext) != hash || !HasFilePath(hash) then HashInvalidFormat
                                    else if MaybeEncrypt(c, enc, hash, plaintext).Err? then MaybeEncrypt(c, enc, hash, plaintext).error
                                    else IngestReadFailed
    {
      if c.hash(plaintext) != hash || !HasFilePath(hash) {
        return Err(HashInvalidFormat);
      }
      var stored :- MaybeEncrypt(c, enc, hash, plaintext);
      if !fault.NoFault? {
        return Err(IngestReadFailed);
      }
      files := files[hash := stored];
      return Ok(());
    }

    /** fault(k) says what becomes of turn k of the loop; Stops is a crash just before it. */
    method MigrateObjects(c: Crypto, ctx: Context, fault: nat -> MigrateFault) returns (r: Migration)
      modifies this`files
      ensures exists n :: MigrationEnds(c, ctx, old(State()), State(), r, n)
    {
      hide MigratedTo, MaybeEncrypt, MaybeDecrypt, HasFilePath, IsEncryptedPayload, MigrationEnds, PlainAmong, SortedKeys, Increasing;
      ghost var before := State();
      var hashes := SortKeys(rows.Keys);
      var migrated, already := 0, 0;
      var i := 0;
      NoTurns(c, ctx, files);
      assert hashes[..0] == [];
      while i < |hashes|
        invariant i <= |hashes| && rows == before.rows && hashes == SortedKeys(before.rows.Keys)
        invariant MigratedTo(c, ctx, before.files, hashes[..i], files)
        invariant migrated == |PlainAmong(before.files, hashes[..i])| && migrated + already == i
      {
        var hash := hashes[i];
        TurnSeesOriginal(c, ctx, before.files, hashes, i, files);
        if fault(i).Stops? {
          EndsHere(c, ctx, before, State(), Stopped, i);
          return Stopped;
        }
        var raw := RawBytes(hash);
        if raw.Err? {
          EndsHere(c, ctx, before, State(), Failed(raw.error), i);
          return Failed(raw.error);
        }
        if IsEncryptedPayload(raw.value) {
          var read := GetBytes(c, Some(ctx), hash);
          if read.Err? {
            EndsHere(c, ctx, before, State(), Failed(read.error), i);
            return Failed(read.error);
          }
          already := already + 1;
          TurnExtends(c, ctx, before.files, hashes, i, files, files[hash]);
          assert files[hash := files[hash]] == files;
        } else {
          PlainIsReadAsItIs(c, hash, raw.value);
          var plaintext := GetBytes(c, None, hash);
          ghost var done := files;
          var rewritten := RewritePlaintextForHash(c, Some(ctx), hash, plaintext.value, fault(i));
          if rewritten.Err? {
            EndsHere(c, ctx, before, State(), Failed(rewritten.error), i);
            return Failed(rewritten.error);
          }
          migrated := migrated + 1;
          TurnExtends(c, ctx, before.files, hashes, i, done, files[hash]);
        }
        i := i + 1;
      }
      assert hashes[..|hashes|] == hashes;
      EndsHere(c, ctx, before, State(), Completed(migrated, already), i);
      return Completed(migrated, already);
    }
  }

  lemma NoTurns(c: Crypto, ctx: Context, files: map<string, string>)
    ensures MigratedTo(c, ctx, files, [], files) && PlainAmong(files, []) == {}
  {
  }

  /** A turn finds its object as it was before the loop. */
  lemma TurnSeesOriginal(c: Crypto, ctx: Context, before: map<string, string>, hashes: seq<string>, i: nat, files: map<string, string>)
    requires Increasing(hashes) && i < |hashes| && MigratedTo(c, ctx, before, hashes[..i], files)
    ensures hashes[i] !in hashes[..i]
    ensures hashes[i] in files <==> hashes[i] in before
    ensures hashes[i] in files ==> files[hashes[i]] == before[hashes[i]]
  {
    hide MigrateOne, TurnWorks;
    LessIrreflexive(hashes[i]);
  }

  lemma TurnExtends(c: Crypto, ctx: Context, before: map<string, string>, hashes: seq<string>, i: nat, files: map<string, string>, raw: string)
    requires i < |hashes| && hashes[i] !in hashes[..i] && MigratedTo(c, ctx, before, hashes[..i], files)
    requires hashes[i] in before && MigrateOne(c, ctx, hashes[i], before[hashes[i]]) == Ok(raw)
    ensures MigratedTo(c, ctx, before, hashes[..i + 1], files[hashes[i] := raw])
    ensures |PlainAmong(before, hashes[..i + 1])| == |PlainAmong(before, hashes[..i])| + (if IsEncryptedPayload(before[hashes[i]]) then 0 else 1)
  {
    hide MigrateOne, IsEncryptedPayload;
    var h := hashes[i];
    assert hashes[..i + 1] == hashes[..i] + [h];
    assert PlainAmong(before, hashes[..i + 1])
        == PlainAmong(before, hashes[..i]) + (if IsEncryptedPayload(before[h]) then {} else {h});
  }

  lemma PlainIsReadAsItIs(c: Crypto, hash: string, raw: string)
    ensures !IsEncryptedPayload(raw) ==> MaybeDecrypt(c, None, hash, raw) == Ok(raw)
  {
  }

  lemma EndsHere(c: Crypto, ctx: Context, before: Disk, after: Disk, r: Migration, n: nat)
    requires var hashes := SortedKeys(before.rows.Keys);
      n <= |hashes| && after.rows == before.rows
      && MigratedTo(c, ctx, before.files, hashes[..n], after.files)
      && match r
         case Completed(migrated, already) =>
           n == |hashes| && migrated == |PlainAmong(before.files, hashes)| && migrated + already == |hashes|
         case Failed(code) =>
           n < |hashes| && FailsWith(c, ctx, before.files, hashes[n], code)
         case Stopped => n < |hashes|
    ensures MigrationEnds(c, ctx, before, after, r, n)
  {
    hide SortedKeys, MigratedTo, FailsWith, PlainAmong;
  }

  /** A completed loop leaves every listed file encrypted, and running it again rewrites nothing. */
  lemma CompletedMigrationIsFinal(c: Crypto, ctx: Context, before: Disk, mid: Disk, m: Migration, n: nat, after: Disk, again: Migration, n2: nat)
    requires c.Sound()
    requires MigrationEnds(c, ctx, before, mid, m, n) && m.Completed?
    requires MigrationEnds(c, ctx, mid, after, again, n2)
    ensures forall h :: h in mid.rows ==> h in mid.files && IsEncryptedPayload(mid.files[h])
    ensures after == mid
    ensures again.Completed? ==> again == Completed(0, |mid.rows|)
  {
    hide SortedKeys, Increasing, MaybeEncrypt, MaybeDecrypt, HasFilePath, IsEncryptedPayload;
    var hashes := SortedKeys(before.rows.Keys);
    assert hashes[..n] == hashes;
    forall h | h in mid.rows
      ensures h in mid.files && IsEncryptedPayload(mid.files[h])
    {
      assert h in Elements(hashes);
      if !IsEncryptedPayload(before.files[h]) {
        EncryptedReadsBack(c, ctx, h, before.files[h]);
      }
    }
    forall h | h in mid.files
      ensures after.files[h] == mid.files[h]
    {
      if h in hashes[..n2] {
        assert h in Elements(hashes);
      }
    }
    assert forall h :: h in hashes ==> h in Elements(hashes);
    assert PlainAmong(mid.files, hashes) == {};
  }

  // ---- Runs of puts and migrations ----

  datatype Op =
    | PutOp(enc: Option<Context>, bytes: string, eventId: int, fault: PutFault)
    | MigrateOp

  /** Puts go through a plain store or through a store with the one key; a migration may stop or fail anywhere. */
  ghost predicate Step(c: Crypto, ctx: Context, before: Disk, op: Op, after: Disk) {
    match op
    case PutOp(enc, bytes, eventId, fault) =>
      (enc.None? || enc == Some(ctx)) && after == Put(c, enc, before, bytes, eventId, fault).0
    case MigrateOp => exists r, n :: MigrationEnds(c, ctx, before, after, r, n)
  }

  ghost predicate Runs(c: Crypto, ctx: Context, states: seq<Disk>, ops: seq<Op>) {
    |states| == |ops| + 1
    && states[0] == Disk(map[], map[])
    && forall i :: 0 <= i < |ops| ==> Step(c, ctx, states[i], ops[i], states[i + 1])
  }

  ghost predicate WasPut(ops: seq<Op>, bytes: string) {
    exists i :: 0 <= i < |ops| && ops[i].PutOp? && ops[i].bytes == bytes
  }

  /** No two contents that were put share a digest. */
  ghost predicate NoCollisionAmong(c: Crypto, ops: seq<Op>) {
    forall a, b :: WasPut(ops, a) && WasPut(ops, b) && c.hash(a) == c.hash(b) ==> a == b
  }

  /** The plain map the store refines: a put that reaches the disk adds its bytes, nothing else changes it. */
  function PlainStep(c: Crypto, op: Op, after: Disk, plain: map<string, string>): map<string, string> {
    if op.PutOp? && c.hash(op.bytes) in after.files then plain[c.hash(op.bytes) := op.bytes] else plain
  }

  ghost function PlainMap(c: Crypto, states: seq<Disk>, ops: seq<Op>, i: nat): map<string, string>
    requires i < |states| == |ops| + 1
  {
    if i == 0 then map[] else PlainStep(c, ops[i - 1], states[i], PlainMap(c, states, ops, i - 1))
  }

  /** A file holds its content as it is, or as the one key encrypts it. */
  ghost predicate StoredAs(c: Crypto, ctx: Context, hash: string, bytes: string, raw: string) {
    raw == bytes || MaybeEncrypt(c, Some(ctx), hash, bytes) == Ok(raw)
  }

  ghost predicate Refines(c: Crypto, ctx: Context, disk: Disk, plain: map<string, string>) {
    disk.files.Keys == plain.Keys
    && disk.rows.Keys <= disk.files.Keys
    && forall h :: h in plain ==> c.hash(plain[h]) == h && StoredAs(c, ctx, h, plain[h], disk.files[h])
  }

  /** Before step i, a plain store had written this object for the first time with content that begins with the marker. */
  ghost predicate MarkedInPlain(c: Crypto, states: seq<Disk>, ops: seq<Op>, i: nat, hash: string)
    requires i < |states| == |ops| + 1
  {
    exists j :: 0 <= j < i && ops[j].PutOp? && ops[j].enc.None? && c.hash(ops[j].bytes) == hash
      && hash !in states[j].files && hash in states[j + 1].files && IsEncryptedPayload(ops[j].bytes)
  }

  /** The state in which a file is misread. */
  predicate Misread(raw: string, bytes: string) {
    raw == bytes && IsEncryptedPayload(bytes)
  }

  /** A turn of the loop keeps what the file stands for, and whether it is misread. */
  lemma TurnKeepsMeaning(c: Crypto, ctx: Context, hash: string, bytes: string, raw: string, rewritten: string)
    requires c.Sound() && StoredAs(c, ctx, hash, bytes, raw) && MigrateOne(c, ctx, hash, raw) == Ok(rewritten)
    ensures StoredAs(c, ctx, hash, bytes, rewritten)
    ensures Misread(rewritten, bytes) <==> Misread(raw, bytes)
  {
    hide MaybeEncrypt, MaybeDecrypt, HasFilePath, IsEncryptedPayload;
    if MaybeEncrypt(c, Some(ctx), hash, bytes).Ok? {
      EncryptedReadsBack(c, ctx, hash, bytes);
    }
  }

  lemma MigrationKeepsFiles(c: Crypto, ctx: Context, before: Disk, after: Disk, r: Migration, n: nat, plain: map<string, string>, h: string)
    requires c.Sound() && Refines(c, ctx, before, plain) && MigrationEnds(c, ctx, before, after, r, n) && h in before.files
    ensures h in after.files && StoredAs(c, ctx, h, plain[h], after.files[h])
    ensures Misread(after.files[h], plain[h]) <==> Misread(before.files[h], plain[h])
  {
    hide StoredAs, Misread, MigrateOne, TurnWorks, SortedKeys, FailsWith, PlainAmong, Crypto.Sound;
    var hashes := SortedKeys(before.rows.Keys)[..n];
    if h in hashes {
      TurnKeepsMeaning(c, ctx, h, plain[h], before.files[h], after.files[h]);
    }
  }

  /** No step loses a file, replaces what it stands for, or makes a misread file readable or the other way round. */
  lemma StepKeepsFiles(c: Crypto, ctx: Context, before: Disk, op: Op, after: Disk, plain: map<string, string>)
    requires c.Sound() && Refines(c, ctx, before, plain) && Step(c, ctx, before, op, after)
    ensures before.files.Keys <= after.files.Keys
    ensures forall h :: h in before.files ==> StoredAs(c, ctx, h, plain[h], after.files[h])
    ensures forall h :: h in before.files ==> (Misread(after.files[h], plain[h]) <==> Misread(before.files[h], plain[h]))
    ensures op.MigrateOp? ==> after.files.Keys == before.files.Keys && after.rows == before.rows
  {
    hide StoredAs, Misread, Crypto.Sound, MaybeEncrypt, HasFilePath;
    if op.MigrateOp? {
      var r, n :| MigrationEnds(c, ctx, before, after, r, n);
      SameShape(c, ctx, before, after, r, n);
      forall h | h in before.files
        ensures StoredAs(c, ctx, h, plain[h], after.files[h])
        ensures Misread(after.files[h], plain[h]) <==> Misread(before.files[h], plain[h])
      {
        MigrationKeepsFiles(c, ctx, before, after, r, n, plain, h);
      }
    }
  }

  lemma SameShape(c: Crypto, ctx: Context, before: Disk, after: Disk, r: Migration, n: nat)
    requires MigrationEnds(c, ctx, before, after, r, n)
    ensures after.files.Keys == before.files.Keys && after.rows == before.rows
  {
    hide TurnWorks, MigrateOne, SortedKeys, FailsWith, PlainAmong;
  }

  /** A put adds at most its own object, stored one of the two ways, and at most its own row. */
  lemma PutAddsOnlyItsObject(c: Crypto, ctx: Context, before: Disk, op: Op, after: Disk)
    requires op.PutOp? && Step(c, ctx, before, op, after)
    ensures var h := c.hash(op.bytes);
      (after.files == before.files || (h !in before.files && after.files.Keys == before.files.Keys + {h}
        && StoredAs(c, ctx, h, op.bytes, after.files[h]) && forall k :: k in before.files ==> after.files[k] == before.files[k]))
      && (after.rows == before.rows || (h in after.files && after.rows.Keys == before.rows.Keys + {h}))
  {
    hide HasFilePath;
  }

  lemma StepRefines(c: Crypto, ctx: Context, before: Disk, op: Op, after: Disk, plain: map<string, string>)
    requires c.Sound() && Refines(c, ctx, before, plain) && Step(c, ctx, before, op, after)
    requires op.PutOp? && c.hash(op.bytes) in plain ==> plain[c.hash(op.bytes)] == op.bytes
    ensures Refines(c, ctx, after, PlainStep(c, op, after, plain))
  {
    hide Step, StoredAs, Misread, Crypto.Sound;
    StepKeepsFiles(c, ctx, before, op, after, plain);
    if op.PutOp? {
      PutAddsOnlyItsObject(c, ctx, before, op, after);
    }
  }

  lemma ContentHasItsHash(c: Crypto, ctx: Context, disk: Disk, plain: map<string, string>, h: string)
    requires Refines(c, ctx, disk, plain) && h in plain
    ensures c.hash(plain[h]) == h
  {
  }

  lemma NothingYet(c: Crypto, ctx: Context, states: seq<Disk>, ops: seq<Op>)
    requires Runs(c, ctx, states, ops)
    ensures PlainMap(c, states, ops, 0) == map[] && states[0].files == map[]
    ensures Refines(c, ctx, states[0], map[])
  {
  }

  lemma {:induction false} RunRefines(c: Crypto, ctx: Context, states: seq<Disk>, ops: seq<Op>, i: nat)
    requires c.Sound() && Runs(c, ctx, states, ops) && NoCollisionAmong(c, ops) && i < |states|
    ensures Refines(c, ctx, states[i], PlainMap(c, states, ops, i))
    ensures forall h :: h in PlainMap(c, states, ops, i) ==> WasPut(ops, PlainMap(c, states, ops, i)[h])
  {
    hide Step, Refines, Crypto.Sound;
    if i == 0 {
      NothingYet(c, ctx, states, ops);
    } else {
      RunRefines(c, ctx, states, ops, i - 1);
      var plain := PlainMap(c, states, ops, i - 1);
      assert Step(c, ctx, states[i - 1], ops[i - 1], states[i]);
      if ops[i - 1].PutOp? {
        assert WasPut(ops, ops[i - 1].bytes);
        var h := c.hash(ops[i - 1].bytes);
        if h in plain {
          ContentHasItsHash(c, ctx, states[i - 1], plain, h);
        }
      }
      StepRefines(c, ctx, states[i - 1], ops[i - 1], states[i], plain);
    }
  }

  lemma {:induction false} FilesStay(c: Crypto, ctx: Context, states: seq<Disk>, ops: seq<Op>, j: nat, i: nat)
    requires c.Sound() && Runs(c, ctx, states, ops) && NoCollisionAmong(c, ops) && j <= i < |states|
    ensures states[j].files.Keys <= states[i].files.Keys
    decreases i - j
  {
    hide Step, Refines, PlainMap, NoCollisionAmong;
    if j < i {
      FilesStay(c, ctx, states, ops, j, i - 1);
      RunRefines(c, ctx, states, ops, i - 1);
      assert Step(c, ctx, states[i - 1], ops[i - 1], states[i]);
      StepKeepsFiles(c, ctx, states[i - 1], ops[i - 1], states[i], PlainMap(c, states, ops, i - 1));
    }
  }

  /** A file a put creates is misread exactly when a plain store wrote it and its content begins with the marker. */
  lemma NewFileMisread(c: Crypto, ctx: Context, before: Disk, op: Op, after: Disk)
    requires c.Sound() && op.PutOp? && Step(c, ctx, before, op, after)
    requires c.hash(op.bytes) !in before.files && c.hash(op.bytes) in after.files
    ensures Misread(after.files[c.hash(op.bytes)], op.bytes) <==> op.enc.None? && IsEncryptedPayload(op.bytes)
  {
    hide MaybeDecrypt, HasFilePath, IsEncryptedPayload;
    var h := c.hash(op.bytes);
    if op.enc.Some? {
      EncryptedReadsBack(c, ctx, h, op.bytes);
    } else {
      assert MaybeEncrypt(c, op.enc, h, op.bytes) == Ok(op.bytes);
    }
  }

  lemma NewFileMarkedExactly(c: Crypto, ctx: Context, states: seq<Disk>, ops: seq<Op>, i: nat, h: string)
    requires c.Sound() && Runs(c, ctx, states, ops) && NoCollisionAmong(c, ops) && 0 < i < |states|
    requires h !in states[i - 1].files && h in states[i].files
    ensures h in PlainMap(c, states, ops, i)
    ensures Misread(states[i].files[h], PlainMap(c, states, ops, i)[h]) <==> MarkedInPlain(c, states, ops, i, h)
  {
    hide Step, StoredAs, Put, NoCollisionAmong, Misread, IsEncryptedPayload, Crypto.Sound;
    var before, op, after := states[i - 1], ops[i - 1], states[i];
    RunRefines(c, ctx, states, ops, i - 1);
    RunRefines(c, ctx, states, ops, i);
    assert Step(c, ctx, before, op, after);
    StepKeepsFiles(c, ctx, before, op, after, PlainMap(c, states, ops, i - 1));
    forall j | 0 <= j < i
      ensures h !in states[j].files
    {
      FilesStay(c, ctx, states, ops, j, i - 1);
    }
    NewFileMisread(c, ctx, before, op, after);
  }

  lemma {:induction false} MisreadExactlyWhenMarkedInPlain(c: Crypto, ctx: Context, states: seq<Disk>, ops: seq<Op>, i: nat, h: string)
    requires c.Sound() && Runs(c, ctx, states, ops) && NoCollisionAmong(c, ops) && i < |states|
    requires h in PlainMap(c, states, ops, i) && h in states[i].files
    ensures Misread(states[i].files[h], PlainMap(c, states, ops, i)[h]) <==> MarkedInPlain(c, states, ops, i, h)
  {
    hide Step, StoredAs, NoCollisionAmong, Misread, IsEncryptedPayload, Crypto.Sound, PlainMap;
    if i == 0 {
      NothingYet(c, ctx, states, ops);
    } else if h in states[i - 1].files {
      RunRefines(c, ctx, states, ops, i - 1);
      assert Step(c, ctx, states[i - 1], ops[i - 1], states[i]);
      StepKeepsFiles(c, ctx, states[i - 1], ops[i - 1], states[i], PlainMap(c, states, ops, i - 1));
      MisreadExactlyWhenMarkedInPlain(c, ctx, states, ops, i - 1, h);
      PutKeepsContent(c, ctx, states, ops, i, h);
    } else {
      NewFileMarkedExactly(c, ctx, states, ops, i, h);
    }
  }

  lemma PutKeepsContent(c: Crypto, ctx: Context, states: seq<Disk>, ops: seq<Op>, i: nat, h: string)
    requires c.Sound() && Runs(c, ctx, states, ops) && NoCollisionAmong(c, ops) && 0 < i < |states|
    requires h in PlainMap(c, states, ops, i - 1)
    ensures h in PlainMap(c, states, ops, i) && PlainMap(c, states, ops, i)[h] == PlainMap(c, states, ops, i - 1)[h]
  {
    hide Step, StoredAs, Put, Crypto.Sound, Refines;
    RunRefines(c, ctx, states, ops, i - 1);
    var plain := PlainMap(c, states, ops, i - 1);
    ContentHasItsHash(c, ctx, states[i - 1], plain, h);
    if ops[i - 1].PutOp? {
      assert WasPut(ops, ops[i - 1].bytes) && WasPut(ops, plain[h]);
    }
  }

  /**
   * Whatever the mix of plain puts, keyed puts and partial migrations, the keyed store gives back exactly what was
   * put, for every object but those a plain store wrote with content beginning with the marker.
   */
  lemma RunsReadBack(c: Crypto, ctx: Context, states: seq<Disk>, ops: seq<Op>, i: nat, h: string)
    requires c.Sound() && Runs(c, ctx, states, ops) && NoCollisionAmong(c, ops) && i < |states|
    ensures var plain := PlainMap(c, states, ops, i);
      h in plain ==> (Get(c, Some(ctx), states[i].files, h) == Ok(plain[h]) <==> !MarkedInPlain(c, states, ops, i, h))
    ensures h !in PlainMap(c, states, ops, i) ==> Get(c, Some(ctx), states[i].files, h).Err?
  {
    RunRefines(c, ctx, states, ops, i);
    var plain := PlainMap(c, states, ops, i);
    if h in plain {
      MisreadExactlyWhenMarkedInPlain(c, ctx, states, ops, i, h);
      assert ValidDigest(c.hash(plain[h]));
      if MaybeEncrypt(c, Some(ctx), h, plain[h]).Ok? {
        EncryptedReadsBack(c, ctx, h, plain[h]);
      }
      PlainReadsBackExactly(c, Some(ctx), h, plain[h]);
    }
  }

  /** In a run without such content a migration turn fails only when encryption itself, or the rewrite, does. */
  lemma MigrationNeverRefuses(c: Crypto, ctx: Context, states: seq<Disk>, ops: seq<Op>, i: nat, h: string)
    requires c.Sound() && Runs(c, ctx, states, ops) && NoCollisionAmong(c, ops) && i < |states|
    requires h in states[i].rows && !MarkedInPlain(c, states, ops, i, h)
    ensures h in PlainMap(c, states, ops, i) && h in states[i].files
    ensures MigrateOne(c, ctx, h, states[i].files[h]).Err? ==>
      MaybeEncrypt(c, Some(ctx), h, PlainMap(c, states, ops, i)[h]).Err?
  {
    RunRefines(c, ctx, states, ops, i);
    RunsReadBack(c, ctx, states, ops, i, h);
  }

  /** One plain put of the four bytes of the marker: accepted, listed, and unreadable through either kind of store. */
  lemma MarkedPlainPutIsUnreadable(c: Crypto, ctx: Context) returns (states: seq<Disk>, ops: seq<Op>)
    requires c.Sound()
    ensures Runs(c, ctx, states, ops) && NoCollisionAmong(c, ops) && ops == [PutOp(None, MAGIC, 1, Works)]
    ensures c.hash(MAGIC) in states[1].files && c.hash(MAGIC) in states[1].rows
    ensures Get(c, Some(ctx), states[1].files, c.hash(MAGIC)) == Err(EncryptionUnsupported)
    ensures Get(c, None, states[1].files, c.hash(MAGIC)) == Err(EncryptionRequired)
  {
    var empty := Disk(map[], map[]);
    var after := Put(c, None, empty, MAGIC, 1, Works).0;
    states, ops := [empty, after], [PutOp(None, MAGIC, 1, Works)];
    assert ValidDigest(c.hash(MAGIC));
    assert Step(c, ctx, empty, ops[0], after);
  }

  /** A hash without the prefix, or with fewer than two digits behind it, names no file; and the format error means just that. */
  lemma PathExactly(c: Crypto, enc: Option<Context>, files: map<string, string>, hash: string)
    ensures Get(c, enc, files, hash) == Err(HashInvalidFormat) <==> !("blake3:" <= hash && |hash| >= 9)
    ensures "blake3:" <= hash && |hash| >= 9 && hash !in files ==> Get(c, enc, files, hash) == Err(IngestReadFailed)
  {
  }

  /** What was sealed under one key reference is refused under another whose nonce for the object is not the same. */
  lemma OtherReferenceIsRefused(c: Crypto, ctx: Context, other: Context, hash: string, bytes: string)
    requires c.Sound() && MaybeEncrypt(c, Some(ctx), hash, bytes).Ok?
    requires c.nonce(hash + ":" + ctx.keyReference) != c.nonce(hash + ":" + other.keyReference)
    ensures MaybeDecrypt(c, Some(other), hash, MaybeEncrypt(c, Some(ctx), hash, bytes).value) == Err(EncryptionKeyInvalid)
  {
    var raw := MaybeEncrypt(c, Some(ctx), hash, bytes).value;
    assert raw[|MAGIC|..|MAGIC| + NONCE_LEN] == c.nonce(hash + ":" + ctx.keyReference);
  }

  /** The marker, the nonce of object and reference, and what the cipher makes of the content, in that order. */
  lemma EncryptedLayout(c: Crypto, ctx: Context, hash: string, bytes: string)
    requires c.Sound() && MaybeEncrypt(c, Some(ctx), hash, bytes).Ok?
    ensures var raw := MaybeEncrypt(c, Some(ctx), hash, bytes).value;
      |raw| >= 28 && raw[..4] == "KCE1" && raw[4..28] == c.nonce(hash + ":" + ctx.keyReference)
      && c.seal(ctx.key, raw[4..28], bytes) == Some(raw[28..])
  {
    hide Digests;
    var raw := MaybeEncrypt(c, Some(ctx), hash, bytes).value;
    var nonce := c.nonce(hash + ":" + ctx.keyReference);
    var sealed := c.seal(ctx.key, nonce, bytes).value;
    assert raw == "KCE1" + (nonce + sealed);
    assert raw[4..28] == nonce;
    assert raw[28..] == sealed;
  }

  /** An accepted put lists its object once and for all: size, place and the event of its first put. */
  lemma PutListsItsObject(c: Crypto, enc: Option<Context>, disk: Disk, bytes: string, eventId: int, fault: PutFault)
    ensures var (after, r) := Put(c, enc, disk, bytes, eventId, fault);
      (forall h :: h in disk.rows ==> h in after.rows && after.rows[h] == disk.rows[h])
      && (forall h :: h in disk.files ==> h in after.files && after.files[h] == disk.files[h])
      && (r.Ok? ==>
            r.value == c.hash(bytes) && r.value in after.files && r.value in after.rows && |r.value| >= 9
            && (r.value !in disk.rows ==>
                  after.rows[r.value] == Row(|bytes|, r.value[7..9] + "/" + r.value, eventId)))
      && (r.Err? ==> after.rows == disk.rows)
  {
    hide MaybeEncrypt;
  }
}
