/** The manifest an export writes (export.rs) and what the folder verifier makes of it (verifier.rs). */
module FolderBundle {
  import opened Outcomes
  import opened Text
  import opened Sorting
  import opened BundleOrder
  import ObjectStore

  datatype ObjectEntry = ObjectEntry(relativePath: string, hash: string, storageHash: string, encrypted: bool, bytes: int)

  datatype VectorEntry = VectorEntry(relativePath: string, hash: string, bytes: int)

  datatype Manifest = Manifest(
    dbPath: string,
    dbHash: string,
    dbEncrypted: bool,
    encryptionEnabled: bool,
    objects: seq<ObjectEntry>,
    vectors: seq<VectorEntry>)

  /** A file of the bundle: it may exist and still not be readable. */
  datatype File = Readable(bytes: string) | Unreadable

  type Dir = map<string, File>

  datatype ErrorCode = DbHashMismatch | DbEncryptionMismatch | ObjectMissing | ObjectHashMismatch | ObjectEncryptionMismatch | InternalError

  datatype ErrorEntry = ErrorEntry(code: ErrorCode, path: string)

  predicate IsPlaintextSqliteDb(bytes: string) {
    "SQLite format 3" + [0 as char] <= bytes
  }

  // ---- What a bundle has to satisfy ----

  /** The header is compared only when there is a whole one. */
  predicate HeaderAgrees(db: string, encrypted: bool) {
    |db| >= 16 ==> IsPlaintextSqliteDb(db) == !encrypted
  }

  predicate Has(dir: Dir, path: string) {
    path in dir && dir[path].Readable?
  }

  predicate Broken(dir: Dir, path: string) {
    path in dir && dir[path].Unreadable?
  }

  predicate DbMatches(h: Hasher, m: Manifest, dir: Dir) {
    Has(dir, m.dbPath) && h(dir[m.dbPath].bytes) == m.dbHash && HeaderAgrees(dir[m.dbPath].bytes, m.dbEncrypted)
  }

  predicate ObjectMatches(h: Hasher, m: Manifest, dir: Dir, o: ObjectEntry) {
    Has(dir, o.relativePath)
    && h(dir[o.relativePath].bytes) == o.storageHash
    && ObjectStore.IsEncryptedPayload(dir[o.relativePath].bytes) == o.encrypted == m.encryptionEnabled
  }

  predicate VectorMatches(h: Hasher, dir: Dir, v: VectorEntry) {
    Has(dir, v.relativePath) && h(dir[v.relativePath].bytes) == v.hash
  }

  ghost predicate BundleMatches(h: Hasher, m: Manifest, dir: Dir) {
    DbMatches(h, m, dir)
    && (forall o :: o in m.objects ==> ObjectMatches(h, m, dir, o))
    && (forall v :: v in m.vectors ==> VectorMatches(h, dir, v))
  }

  ghost predicate SomeBroken(m: Manifest, dir: Dir) {
    (exists o :: o in m.objects && Broken(dir, o.relativePath)) || (exists v :: v in m.vectors && Broken(dir, v.relativePath))
  }

  ghost predicate SomeMissing(m: Manifest, dir: Dir) {
    (exists o :: o in m.objects && o.relativePath !in dir) || (exists v :: v in m.vectors && v.relativePath !in dir)
  }

  // ---- The verifier ----

  /** Only these codes take part in the exit code. */
  ghost predicate Reports(errors: seq<ErrorEntry>, a: ErrorCode, b: ErrorCode) {
    exists e :: e in errors && (e.code == a || e.code == b)
  }

  lemma ReportsOneMore(errors: seq<ErrorEntry>, e: ErrorEntry, a: ErrorCode, b: ErrorCode)
    ensures Reports(errors + [e], a, b) <==> Reports(errors, a, b) || e.code == a || e.code == b
  {
    assert e in errors + [e];
    if Reports(errors, a, b) {
      var x :| x in errors && (x.code == a || x.code == b);
      assert x in errors + [e];
    }
  }

  /** The three findings the exit code distinguishes. */
  ghost predicate Finds(errors: seq<ErrorEntry>, db: bool, missing: bool, changed: bool) {
    (Reports(errors, DbHashMismatch, DbEncryptionMismatch) <==> db)
    && (Reports(errors, ObjectMissing, ObjectMissing) <==> missing)
    && (Reports(errors, ObjectHashMismatch, ObjectEncryptionMismatch) <==> changed)
    && (forall e :: e in errors ==> !e.code.InternalError?)
  }

  method Push(errors: seq<ErrorEntry>, code: ErrorCode, path: string, ghost db: bool, ghost missing: bool, ghost changed: bool) returns (r: seq<ErrorEntry>)
    requires Finds(errors, db, missing, changed) && !code.InternalError?
    ensures r == errors + [ErrorEntry(code, path)]
    ensures Finds(r, db || code.DbHashMismatch? || code.DbEncryptionMismatch?, missing || code.ObjectMissing?,
                  changed || code.ObjectHashMismatch? || code.ObjectEncryptionMismatch?)
  {
    r := errors + [ErrorEntry(code, path)];
    ReportsOneMore(errors, ErrorEntry(code, path), DbHashMismatch, DbEncryptionMismatch);
    ReportsOneMore(errors, ErrorEntry(code, path), ObjectMissing, ObjectMissing);
    ReportsOneMore(errors, ErrorEntry(code, path), ObjectHashMismatch, ObjectEncryptionMismatch);
  }

  method CheckDb(h: Hasher, m: Manifest, dir: Dir) returns (errors: seq<ErrorEntry>)
    ensures Finds(errors, !DbMatches(h, m, dir), false, false)
  {
    hide IsPlaintextSqliteDb, Finds;
    errors := [];
    NothingFound();
    if !Has(dir, m.dbPath) {
      errors := Push(errors, DbHashMismatch, m.dbPath, false, false, false);
      return;
    }
    var bytes := dir[m.dbPath].bytes;
    if h(bytes) != m.dbHash {
      errors := Push(errors, DbHashMismatch, m.dbPath, false, false, false);
    }
    if |bytes| >= 16 {
      var actualEncrypted := !IsPlaintextSqliteDb(bytes);
      if actualEncrypted != m.dbEncrypted {
        errors := Push(errors, DbEncryptionMismatch, m.dbPath, h(bytes) != m.dbHash, false, false);
      }
    }
  }

  lemma NothingFound()
    ensures Finds([], false, false, false)
  {
  }

  method CheckObject(h: Hasher, m: Manifest, dir: Dir, o: ObjectEntry, found: seq<ErrorEntry>, ghost db: bool, ghost missing: bool, ghost changed: bool)
    returns (errors: seq<ErrorEntry>)
    requires Finds(found, db, missing, changed) && !Broken(dir, o.relativePath)
    ensures Finds(errors, db, missing || o.relativePath !in dir, changed || (o.relativePath in dir && !ObjectMatches(h, m, dir, o)))
  {
    hide Finds, ObjectStore.IsEncryptedPayload;
    errors := found;
    var path := o.relativePath;
    if path !in dir {
      errors := Push(errors, ObjectMissing, path, db, missing, changed);
      return;
    }
    var bytes := dir[path].bytes;
    var actualEncrypted := ObjectStore.IsEncryptedPayload(bytes);
    ghost var differs := changed;
    if h(bytes) != o.storageHash {
      errors := Push(errors, ObjectHashMismatch, path, db, missing, differs);
      differs := true;
    }
    if actualEncrypted != o.encrypted {
      errors := Push(errors, ObjectEncryptionMismatch, path, db, missing, differs);
      differs := true;
    }
    if m.encryptionEnabled && !o.encrypted {
      errors := Push(errors, ObjectEncryptionMismatch, path, db, missing, differs);
    } else if !m.encryptionEnabled && o.encrypted {
      errors := Push(errors, ObjectEncryptionMismatch, path, db, missing, differs);
    }
  }

  method CheckVector(h: Hasher, dir: Dir, v: VectorEntry, found: seq<ErrorEntry>, ghost db: bool, ghost missing: bool, ghost changed: bool)
    returns (errors: seq<ErrorEntry>)
    requires Finds(found, db, missing, changed) && !Broken(dir, v.relativePath)
    ensures Finds(errors, db, missing || v.relativePath !in dir, changed || (v.relativePath in dir && !VectorMatches(h, dir, v)))
  {
    hide Finds;
    errors := found;
    var path := v.relativePath;
    if path !in dir {
      errors := Push(errors, ObjectMissing, path, db, missing, changed);
    } else if h(dir[path].bytes) != v.hash {
      errors := Push(errors, ObjectHashMismatch, path, db, missing, changed);
    }
  }

  method VerifyFolderBundle(h: Hasher, m: Manifest, dir: Dir) returns (code: int, errors: seq<ErrorEntry>)
    ensures code == if SomeBroken(m, dir) then 60
                    else if !DbMatches(h, m, dir) then 31
                    else if SomeMissing(m, dir) then 40
                    else if BundleMatches(h, m, dir) then 0 else 41
    ensures code == 60 <==>
      (exists o :: o in m.objects && o.relativePath in dir && dir[o.relativePath].Unreadable?)
      || (exists v :: v in m.vectors && v.relativePath in dir && dir[v.relativePath].Unreadable?)
    ensures code == 0 <==> BundleMatches(h, m, dir)
    ensures code == 0 <==> errors == []
  {
    hide Finds, DbMatches, ObjectStore.IsEncryptedPayload, ExitCode;
    errors := CheckDb(h, m, dir);
    ghost var db := !DbMatches(h, m, dir);
    ghost var missing, changed := false, false;
    var i := 0;
    while i < |m.objects|
      invariant 0 <= i <= |m.objects| && Finds(errors, db, missing, changed)
      invariant forall o :: o in m.objects[..i] ==> !Broken(dir, o.relativePath)
      invariant missing <==> exists o :: o in m.objects[..i] && o.relativePath !in dir
      invariant missing || changed <==> exists o :: o in m.objects[..i] && !ObjectMatches(h, m, dir, o)
    {
      var o := m.objects[i];
      if Broken(dir, o.relativePath) {
        return 60, [ErrorEntry(InternalError, o.relativePath)];
      }
      assert forall x :: x in m.objects[..i + 1] <==> x in m.objects[..i] || x == o by {
        assert m.objects[..i + 1] == m.objects[..i] + [o];
      }
      errors := CheckObject(h, m, dir, o, errors, db, missing, changed);
      changed := changed || (o.relativePath in dir && !ObjectMatches(h, m, dir, o));
      missing := missing || o.relativePath !in dir;
      i := i + 1;
    }
    assert m.objects[..i] == m.objects;
    ghost var objectMissing, objectsMatch := missing, !(missing || changed);
    var j := 0;
    while j < |m.vectors|
      invariant 0 <= j <= |m.vectors| && Finds(errors, db, missing, changed)
      invariant forall v :: v in m.vectors[..j] ==> !Broken(dir, v.relativePath)
      invariant missing <==> objectMissing || exists v :: v in m.vectors[..j] && v.relativePath !in dir
      invariant missing || changed <==> !objectsMatch || exists v :: v in m.vectors[..j] && !VectorMatches(h, dir, v)
    {
      var v := m.vectors[j];
      if Broken(dir, v.relativePath) {
        return 60, [ErrorEntry(InternalError, v.relativePath)];
      }
      assert forall x :: x in m.vectors[..j + 1] <==> x in m.vectors[..j] || x == v by {
        assert m.vectors[..j + 1] == m.vectors[..j] + [v];
      }
      errors := CheckVector(h, dir, v, errors, db, missing, changed);
      changed := changed || (v.relativePath in dir && !VectorMatches(h, dir, v));
      missing := missing || v.relativePath !in dir;
      j := j + 1;
    }
    assert m.vectors[..j] == m.vectors;
    code := ExitCode(errors);
    ExitCodeMeans(errors, db, missing, changed);
  }

  predicate SomeCode(errors: seq<ErrorEntry>, a: ErrorCode, b: ErrorCode) {
    exists e :: e in errors && (e.code == a || e.code == b)
  }

  function ExitCode(errors: seq<ErrorEntry>): int {
    if errors == [] then 0
    else if SomeCode(errors, DbHashMismatch, DbEncryptionMismatch) then 31
    else if SomeCode(errors, ObjectMissing, ObjectMissing) then 40
    else if SomeCode(errors, ObjectHashMismatch, ObjectEncryptionMismatch) then 41
    else 60
  }

  lemma ExitCodeMeans(errors: seq<ErrorEntry>, db: bool, missing: bool, changed: bool)
    requires Finds(errors, db, missing, changed)
    ensures ExitCode(errors) == if db then 31 else if missing then 40 else if changed then 41 else 0
    ensures errors == [] <==> !db && !missing && !changed
  {
    if errors != [] {
      assert errors[0] in errors;
    }
  }

  // ---- What the verifier catches ----

  ghost predicate Listed(m: Manifest, path: string) {
    path == m.dbPath || (exists o :: o in m.objects && o.relativePath == path) || (exists v :: v in m.vectors && v.relativePath == path)
  }

  /** Removing, blocking or changing any listed file of a matching bundle is always noticed, short of a collision. */
  lemma TamperingIsCaught(h: Hasher, m: Manifest, before: Dir, after: Dir, path: string)
    requires BundleMatches(h, m, before) && Listed(m, path)
    requires path !in after || after[path] != before[path]
    requires Has(after, path) && h(after[path].bytes) == h(before[path].bytes) ==> after[path].bytes == before[path].bytes
    ensures !BundleMatches(h, m, after)
  {
    hide HeaderAgrees, ObjectStore.IsEncryptedPayload;
  }

  /** Files the manifest does not list play no part. */
  lemma UnlistedFilesPlayNoPart(h: Hasher, m: Manifest, before: Dir, after: Dir)
    requires forall path :: Listed(m, path) ==> (path in before <==> path in after) && (path in before ==> after[path] == before[path])
    ensures BundleMatches(h, m, before) <==> BundleMatches(h, m, after)
  {
    hide HeaderAgrees, ObjectStore.IsEncryptedPayload;
    assert Listed(m, m.dbPath);
    assert forall o :: o in m.objects ==> Listed(m, o.relativePath);
    assert forall v :: v in m.vectors ==> Listed(m, v.relativePath);
  }

  /** A bundle in full: what its database, its objects and its vectors have to be. */
  lemma BundleMatchesExactly(h: Hasher, m: Manifest, dir: Dir)
    ensures BundleMatches(h, m, dir) <==>
      m.dbPath in dir && dir[m.dbPath].Readable? && h(dir[m.dbPath].bytes) == m.dbHash
      && (|dir[m.dbPath].bytes| >= 16 ==> (HasSqliteHeader(dir[m.dbPath].bytes) <==> !m.dbEncrypted))
      && (forall o :: o in m.objects ==>
            o.relativePath in dir && dir[o.relativePath].Readable? && h(dir[o.relativePath].bytes) == o.storageHash
            && (o.encrypted <==> m.encryptionEnabled) && (o.encrypted <==> "KCE1" <= dir[o.relativePath].bytes))
      && (forall v :: v in m.vectors ==>
            v.relativePath in dir && dir[v.relativePath].Readable? && h(dir[v.relativePath].bytes) == v.hash)
  {
    if Has(dir, m.dbPath) {
      HeaderInFull(dir[m.dbPath].bytes);
    }
    hide IsPlaintextSqliteDb, HasSqliteHeader;
  }

  /** The sixteen bytes a plain database begins with. */
  predicate HasSqliteHeader(db: string) {
    |db| >= 16 && db[..15] == "SQLite format 3" && db[15] == 0 as char
  }

  lemma HeaderInFull(db: string)
    ensures IsPlaintextSqliteDb(db) <==> HasSqliteHeader(db)
    ensures HasSqliteHeader(db) ==> HeaderAgrees(db, false) && !HeaderAgrees(db, true)
    ensures |db| >= 16 && !HasSqliteHeader(db) ==> HeaderAgrees(db, true) && !HeaderAgrees(db, false)
    ensures |db| < 16 ==> HeaderAgrees(db, true) && HeaderAgrees(db, false)
  {
    var header := "SQLite format 3" + [0 as char];
    if HasSqliteHeader(db) {
      assert db[..16] == db[..15] + [db[15]];
    }
    if header <= db {
      assert db[..16] == header;
      assert db[..15] == db[..16][..15];
    }
  }

  /** With the right digest, the database check answers for a plain and an encrypted header under each flag. */
  lemma HeaderDecidesDb(h: Hasher, m: Manifest, dir: Dir)
    requires Has(dir, m.dbPath) && h(dir[m.dbPath].bytes) == m.dbHash && |dir[m.dbPath].bytes| >= 16
    ensures DbMatches(h, m, dir) <==> (HasSqliteHeader(dir[m.dbPath].bytes) <==> !m.dbEncrypted)
  {
    hide IsPlaintextSqliteDb, HasSqliteHeader;
    HeaderInFull(dir[m.dbPath].bytes);
  }

  // ---- The exporter ----

  /** The second is the slice of a hash too short for its prefix, which ends the process. */
  datatype ExportError = ExportFailed | SlicePanic

  /** What an export reads: the database, the objects table with the stored files, and the vector files by path. */
  datatype Vault = Vault(
    dbPath: string,
    db: string,
    dbEncryptionEnabled: bool,
    encryptionEnabled: bool,
    rows: map<string, int>,
    objectFiles: map<string, string>,
    vectorFiles: map<string, string>)

  predicate Exportable(vault: Vault, hash: string) {
    ObjectStore.HasFilePath(hash) && hash in vault.objectFiles
  }

  function ObjectPath(hash: string): string
    requires |hash| >= 9
  {
    "store/objects/" + (hash[7..9] + "/" + hash)
  }

  ghost function ObjectEntryFor(h: Hasher, vault: Vault, hash: string): ObjectEntry
    requires hash in vault.rows && Exportable(vault, hash)
  {
    var stored := vault.objectFiles[hash];
    ObjectEntry(ObjectPath(hash), hash, h(stored), ObjectStore.IsEncryptedPayload(stored), vault.rows[hash])
  }

  ghost function VectorEntryFor(h: Hasher, vault: Vault, path: string): VectorEntry
    requires path in vault.vectorFiles
  {
    VectorEntry(path, h(vault.vectorFiles[path]), |vault.vectorFiles[path]|)
  }

  predicate ObjectEntryLe(a: ObjectEntry, b: ObjectEntry) {
    Less(a.hash, b.hash) || (a.hash == b.hash && LessEq(a.relativePath, b.relativePath))
  }

  predicate VectorEntryLe(a: VectorEntry, b: VectorEntry) {
    LessEq(a.relativePath, b.relativePath)
  }

  lemma VectorOrderIsTotal()
    ensures TotalPreorder(VectorEntryLe)
  {
    NameOrderIsTotal();
  }

  lemma ObjectOrderIsTotal()
    ensures TotalPreorder(ObjectEntryLe)
  {
    hide Less;
    forall a: ObjectEntry, b: ObjectEntry
      ensures ObjectEntryLe(a, b) || ObjectEntryLe(b, a)
    {
      LessTotal(a.hash, b.hash);
      LessTotal(a.relativePath, b.relativePath);
    }
    forall a: ObjectEntry, b: ObjectEntry, c: ObjectEntry | ObjectEntryLe(a, b) && ObjectEntryLe(b, c)
      ensures ObjectEntryLe(a, c)
    {
      if Less(a.hash, b.hash) && Less(b.hash, c.hash) {
        LessTransitive(a.hash, b.hash, c.hash);
      }
      NameOrderIsTotal();
    }
  }

  /** The walk over the vector directory gives paths below it. */
  predicate VectorsInPlace(vault: Vault) {
    forall path :: path in vault.vectorFiles ==> "index/vectors/" <= path
  }

  /** One of two file paths would have to be a directory for the other. */
  predicate Blocks(a: string, b: string) {
    a + "/" <= b || b + "/" <= a
  }

  predicate RowExports(vault: Vault, hash: string) {
    Exportable(vault, hash) && !Blocks(vault.dbPath, ObjectPath(hash))
  }

  /** What an export needs: a named database, usable rows, and no file in the way of another. */
  ghost predicate CanExport(vault: Vault, includeVectors: bool) {
    vault.dbPath != ""
    && (forall hash :: hash in vault.rows ==> RowExports(vault, hash))
    && (includeVectors ==> forall path :: path in vault.vectorFiles ==> !Blocks(vault.dbPath, path))
    && !Blocks(vault.dbPath, "manifest.json")
  }

  ghost predicate ObjectIsAtDb(vault: Vault, hash: string) {
    |hash| >= 9 && ObjectPath(hash) == vault.dbPath
  }

  /** What lies at the database's path once these objects are written: the one whose path that is, if there is one. */
  ghost function DbAfterObjects(vault: Vault, hashes: set<string>): string {
    if exists hash :: hash in hashes && ObjectIsAtDb(vault, hash) && hash in vault.objectFiles then
      var hash :| hash in hashes && ObjectIsAtDb(vault, hash) && hash in vault.objectFiles;
      vault.objectFiles[hash]
    else vault.db
  }

  ghost function DbAfterVectors(vault: Vault, before: string, paths: set<string>): string {
    if vault.dbPath in paths && vault.dbPath in vault.vectorFiles then vault.vectorFiles[vault.dbPath] else before
  }

  ghost function WrittenVectors(vault: Vault, includeVectors: bool): set<string> {
    if includeVectors then vault.vectorFiles.Keys else {}
  }

  /** What an export leaves at the database's path: the last file it writes there. */
  ghost function FinalDb(vault: Vault, includeVectors: bool, manifestText: string): string {
    if vault.dbPath == "manifest.json" then manifestText
    else DbAfterVectors(vault, DbAfterObjects(vault, vault.rows.Keys), WrittenVectors(vault, includeVectors))
  }

  /** No other file of the export lies where the database does. */
  ghost predicate DbHasItsOwnPath(vault: Vault, includeVectors: bool) {
    vault.dbPath != "manifest.json" && vault.dbPath !in WrittenVectors(vault, includeVectors)
    && forall hash :: hash in vault.rows ==> !ObjectIsAtDb(vault, hash)
  }

  predicate DbFileIs(vault: Vault, dir: Dir, bytes: string) {
    vault.dbPath in dir && dir[vault.dbPath] == Readable(bytes)
  }

  /** The manifest and files of an export: the database, every row's object, and every vector file when they are asked for. */
  ghost predicate Exported(h: Hasher, vault: Vault, includeVectors: bool, manifestText: string, m: Manifest, dir: Dir) {
    m.dbPath == vault.dbPath && m.dbHash == h(vault.db) && m.dbEncrypted == vault.dbEncryptionEnabled
    && m.encryptionEnabled == vault.encryptionEnabled
    && DbFileIs(vault, dir, FinalDb(vault, includeVectors, manifestText))
    && (forall hash :: hash in vault.rows ==> Exportable(vault, hash))
    && ObjectsExported(h, vault, vault.rows.Keys, m.objects, dir)
    && SortedBy(ObjectEntryLe, m.objects)
    && VectorsExported(h, vault, WrittenVectors(vault, includeVectors), m.vectors, dir)
    && SortedBy(VectorEntryLe, m.vectors)
  }

  ghost predicate ObjectsExported(h: Hasher, vault: Vault, hashes: set<string>, objects: seq<ObjectEntry>, dir: Dir) {
    |objects| == |hashes|
    && (forall hash :: hash in hashes ==> ObjectExported(h, vault, hash, objects, dir))
    && (forall o :: o in objects ==> o.hash in hashes && o.hash in vault.rows && Exportable(vault, o.hash) && o == ObjectEntryFor(h, vault, o.hash))
  }

  ghost predicate ObjectExported(h: Hasher, vault: Vault, hash: string, objects: seq<ObjectEntry>, dir: Dir) {
    hash in vault.rows && Exportable(vault, hash)
    && ObjectEntryFor(h, vault, hash) in objects
    && ObjectPath(hash) in dir && dir[ObjectPath(hash)] == Readable(vault.objectFiles[hash])
  }

  ghost predicate VectorsExported(h: Hasher, vault: Vault, paths: set<string>, vectors: seq<VectorEntry>, dir: Dir) {
    (forall path :: path in paths ==> VectorExported(h, vault, path, vectors, dir))
    && (forall v :: v in vectors ==> v.relativePath in paths && v.relativePath in vault.vectorFiles && v == VectorEntryFor(h, vault, v.relativePath))
  }

  ghost predicate VectorExported(h: Hasher, vault: Vault, path: string, vectors: seq<VectorEntry>, dir: Dir) {
    path in vault.vectorFiles && VectorEntryFor(h, vault, path) in vectors
    && path in dir && dir[path] == Readable(vault.vectorFiles[path])
  }

  lemma ObjectPathsDiffer(a: string, b: string)
    requires |a| >= 9 && |b| >= 9 && ObjectPath(a) == ObjectPath(b)
    ensures a == b
  {
    assert ObjectPath(a)[17..] == a && ObjectPath(b)[17..] == b;
  }

  lemma ObjectPathsAreApart(hash: string)
    requires |hash| >= 9
    ensures "store/objects/" <= ObjectPath(hash) && !("index/vectors/" <= ObjectPath(hash))
  {
    assert "store/objects/"[0] == 's' && "index/vectors/"[0] == 'i';
    assert ObjectPath(hash)[..14] == "store/objects/";
    assert ObjectPath(hash)[0] == 's';
  }

  lemma EntryIsForItsHash(h: Hasher, vault: Vault, hash: string)
    requires hash in vault.rows && Exportable(vault, hash)
    ensures ObjectEntryFor(h, vault, hash).hash == hash && |hash| >= 9
  {
  }

  lemma StillExported(h: Hasher, vault: Vault, k: string, objects: seq<ObjectEntry>, dir: Dir, hash: string, entry: ObjectEntry, file: File)
    requires ObjectExported(h, vault, k, objects, dir) && k != hash && |hash| >= 9
    ensures ObjectExported(h, vault, k, objects + [entry], dir[ObjectPath(hash) := file])
  {
    hide ObjectPath, ObjectEntryFor, Exportable;
    EntryIsForItsHash(h, vault, k);
    if ObjectPath(k) == ObjectPath(hash) {
      ObjectPathsDiffer(k, hash);
    }
  }

  lemma OneMoreObject(h: Hasher, vault: Vault, done: set<string>, objects: seq<ObjectEntry>, dir: Dir, hash: string)
    requires ObjectsExported(h, vault, done, objects, dir) && hash !in done && hash in vault.rows && Exportable(vault, hash)
    ensures ObjectsExported(h, vault, done + {hash}, objects + [ObjectEntryFor(h, vault, hash)], dir[ObjectPath(hash) := Readable(vault.objectFiles[hash])])
  {
    hide ObjectPath, ObjectEntryFor, Exportable, ObjectExported;
    EntryIsForItsHash(h, vault, hash);
    LongEnough(vault, hash);
    var entry, file := ObjectEntryFor(h, vault, hash), Readable(vault.objectFiles[hash]);
    NewlyExported(h, vault, hash, objects, dir);
    forall k | k in done
      ensures ObjectExported(h, vault, k, objects + [entry], dir[ObjectPath(hash) := file])
    {
      StillExported(h, vault, k, objects, dir, hash, entry, file);
    }
    assert forall o :: o in objects + [entry] <==> o in objects || o == entry;
  }

  lemma NewlyExported(h: Hasher, vault: Vault, hash: string, objects: seq<ObjectEntry>, dir: Dir)
    requires hash in vault.rows && Exportable(vault, hash)
    ensures ObjectExported(h, vault, hash, objects + [ObjectEntryFor(h, vault, hash)], dir[ObjectPath(hash) := Readable(vault.objectFiles[hash])])
  {
    hide ObjectPath, ObjectEntryFor;
    assert (objects + [ObjectEntryFor(h, vault, hash)])[|objects|] == ObjectEntryFor(h, vault, hash);
  }

  lemma LongEnough(vault: Vault, hash: string)
    requires Exportable(vault, hash)
    ensures |hash| >= 9 && hash in vault.objectFiles
  {
  }

  lemma NotAmongEarlier(hashes: seq<string>, i: nat)
    requires Increasing(hashes) && i < |hashes|
    ensures hashes[i] !in Elements(hashes[..i])
  {
    LessIrreflexive(hashes[i]);
  }

  lemma NoObjects(h: Hasher, vault: Vault, dir: Dir)
    ensures ObjectsExported(h, vault, Elements([]), [], dir) && VectorsExported(h, vault, {}, [], dir)
  {
  }

  lemma SortedObjects(h: Hasher, vault: Vault, objects: seq<ObjectEntry>, dir: Dir)
    requires ObjectsExported(h, vault, vault.rows.Keys, objects, dir)
    ensures ObjectsExported(h, vault, vault.rows.Keys, StableSort(ObjectEntryLe, objects), dir)
    ensures SortedBy(ObjectEntryLe, StableSort(ObjectEntryLe, objects))
  {
    hide ObjectEntryLe, ObjectPath, ObjectStore.IsEncryptedPayload;
    ObjectOrderIsTotal();
    SortSorts(ObjectEntryLe, objects);
    SortKeepsMembers(ObjectEntryLe, objects);
    forall hash | hash in vault.rows.Keys
      ensures ObjectExported(h, vault, hash, StableSort(ObjectEntryLe, objects), dir)
    {
      assert ObjectExported(h, vault, hash, objects, dir);
    }
  }

  lemma SortedVectors(h: Hasher, vault: Vault, paths: set<string>, vectors: seq<VectorEntry>, dir: Dir)
    requires VectorsExported(h, vault, paths, vectors, dir)
    ensures VectorsExported(h, vault, paths, StableSort(VectorEntryLe, vectors), dir)
    ensures SortedBy(VectorEntryLe, StableSort(VectorEntryLe, vectors))
  {
    hide VectorEntryLe;
    VectorOrderIsTotal();
    SortSorts(VectorEntryLe, vectors);
    SortKeepsMembers(VectorEntryLe, vectors);
    forall path | path in paths
      ensures VectorExported(h, vault, path, StableSort(VectorEntryLe, vectors), dir)
    {
      assert VectorExported(h, vault, path, vectors, dir);
    }
  }

  /** A file written outside the objects directory leaves the exported objects alone. */
  lemma WritingElsewhereKeepsObjects(h: Hasher, vault: Vault, path: string, file: File, hashes: set<string>, objects: seq<ObjectEntry>, dir: Dir)
    requires ObjectsExported(h, vault, hashes, objects, dir) && !("store/objects/" <= path)
    ensures ObjectsExported(h, vault, hashes, objects, dir[path := file])
  {
    hide ObjectPath, ObjectStore.IsEncryptedPayload;
    forall hash | hash in hashes
      ensures ObjectExported(h, vault, hash, objects, dir[path := file])
    {
      assert ObjectExported(h, vault, hash, objects, dir);
      LongEnough(vault, hash);
      ObjectPathsAreApart(hash);
    }
  }

  lemma OneMoreVector(h: Hasher, vault: Vault, done: set<string>, vectors: seq<VectorEntry>, dir: Dir, path: string)
    requires VectorsExported(h, vault, done, vectors, dir) && path in vault.vectorFiles
    ensures VectorsExported(h, vault, done + {path}, vectors + [VectorEntryFor(h, vault, path)], dir[path := Readable(vault.vectorFiles[path])])
  {
    var more := vectors + [VectorEntryFor(h, vault, path)];
    assert forall v :: v in more <==> v in vectors || v == VectorEntryFor(h, vault, path);
    forall k | k in done + {path}
      ensures VectorExported(h, vault, k, more, dir[path := Readable(vault.vectorFiles[path])])
    {
      assert k in done ==> VectorExported(h, vault, k, vectors, dir);
    }
  }

  method ExportVectors(h: Hasher, vault: Vault, walk: seq<string>, ghost objects: seq<ObjectEntry>, ghost before: string, dir: Dir)
    returns (r: Result<(seq<VectorEntry>, Dir), ExportError>)
    requires VectorsInPlace(vault) && (forall path :: path in walk <==> path in vault.vectorFiles)
    requires ObjectsExported(h, vault, vault.rows.Keys, objects, dir) && DbFileIs(vault, dir, before)
    ensures r.Ok? <==> forall path :: path in vault.vectorFiles ==> !Blocks(vault.dbPath, path)
    ensures r.Err? ==> r.error.ExportFailed?
    ensures r.Ok? ==> VectorsExported(h, vault, vault.vectorFiles.Keys, r.value.0, r.value.1)
    ensures r.Ok? ==> ObjectsExported(h, vault, vault.rows.Keys, objects, r.value.1)
    ensures r.Ok? ==> DbFileIs(vault, r.value.1, DbAfterVectors(vault, before, vault.vectorFiles.Keys))
  {
    hide ObjectsExported, VectorsExported, Blocks;
    var vectors, out := [], dir;
    NoObjects(h, vault, out);
    assert Elements(walk[..0]) == {};
    var i := 0;
    while i < |walk|
      invariant 0 <= i <= |walk|
      invariant forall k :: 0 <= k < i ==> !Blocks(vault.dbPath, walk[k])
      invariant VectorsExported(h, vault, Elements(walk[..i]), vectors, out)
      invariant ObjectsExported(h, vault, vault.rows.Keys, objects, out)
      invariant DbFileIs(vault, out, DbAfterVectors(vault, before, Elements(walk[..i])))
    {
      var path := walk[i];
      assert path in vault.vectorFiles;
      if Blocks(vault.dbPath, path) {
        return Err(ExportFailed);
      }
      VectorPathsAreApart(path);
      var bytes := vault.vectorFiles[path];
      OneMoreVector(h, vault, Elements(walk[..i]), vectors, out, path);
      WritingElsewhereKeepsObjects(h, vault, path, Readable(bytes), vault.rows.Keys, objects, out);
      assert Elements(walk[..i + 1]) == Elements(walk[..i]) + {path} by {
        assert walk[..i + 1] == walk[..i] + [path];
      }
      out := out[path := Readable(bytes)];
      vectors := vectors + [VectorEntry(path, h(bytes), |bytes|)];
      i := i + 1;
    }
    assert walk[..i] == walk;
    assert Elements(walk) == vault.vectorFiles.Keys;
    return Ok((vectors, out));
  }

  lemma VectorPathsAreApart(path: string)
    ensures "index/vectors/" <= path ==> !("store/objects/" <= path) && path != "manifest.json"
  {
    assert "store/objects/"[0] == 's' && "index/vectors/"[0] == 'i' && "manifest.json"[0] == 'm';
  }

  lemma WritingTheManifest(h: Hasher, vault: Vault, file: File, objects: seq<ObjectEntry>, paths: set<string>, vectors: seq<VectorEntry>, dir: Dir)
    requires VectorsInPlace(vault) && ObjectsExported(h, vault, vault.rows.Keys, objects, dir) && VectorsExported(h, vault, paths, vectors, dir)
    ensures ObjectsExported(h, vault, vault.rows.Keys, objects, dir["manifest.json" := file])
    ensures VectorsExported(h, vault, paths, vectors, dir["manifest.json" := file])
  {
    hide ObjectsExported;
    assert "store/objects/"[0] == 's' && "manifest.json"[0] == 'm';
    WritingElsewhereKeepsObjects(h, vault, "manifest.json", file, vault.rows.Keys, objects, dir);
    forall path | path in paths
      ensures VectorExported(h, vault, path, vectors, dir["manifest.json" := file])
    {
      VectorPathsAreApart(path);
      assert VectorExported(h, vault, path, vectors, dir);
    }
  }

  /** An object lands at the database's path or leaves what is there. */
  lemma DbTurn(vault: Vault, done: set<string>, hash: string, dir: Dir)
    requires |hash| >= 9 && hash in vault.objectFiles && DbFileIs(vault, dir, DbAfterObjects(vault, done))
    ensures DbFileIs(vault, dir[ObjectPath(hash) := Readable(vault.objectFiles[hash])], DbAfterObjects(vault, done + {hash}))
  {
    hide ObjectPath;
    forall k | k in done + {hash} && ObjectIsAtDb(vault, k) && ObjectIsAtDb(vault, hash)
      ensures k == hash
    {
      ObjectPathsDiffer(k, hash);
    }
    forall j, k | j in done && k in done && ObjectIsAtDb(vault, j) && ObjectIsAtDb(vault, k)
      ensures j == k
    {
      ObjectPathsDiffer(j, k);
    }
    assert hash in done + {hash};
    if !ObjectIsAtDb(vault, hash) {
      assert forall k :: k in done + {hash} && ObjectIsAtDb(vault, k) <==> k in done && ObjectIsAtDb(vault, k);
    }
  }

  lemma ObjectTurn(h: Hasher, vault: Vault, hashes: seq<string>, i: nat, objects: seq<ObjectEntry>, dir: Dir)
    requires Increasing(hashes) && i < |hashes| && hashes[i] in vault.rows && Exportable(vault, hashes[i])
    requires ObjectsExported(h, vault, Elements(hashes[..i]), objects, dir)
    requires DbFileIs(vault, dir, DbAfterObjects(vault, Elements(hashes[..i])))
    ensures var hash := hashes[i];
      |hash| >= 9 && hash in vault.objectFiles
      && DbFileIs(vault, dir[ObjectPath(hash) := Readable(vault.objectFiles[hash])], DbAfterObjects(vault, Elements(hashes[..i + 1])))
      && ObjectsExported(h, vault, Elements(hashes[..i + 1]),
           objects + [ObjectEntry(ObjectPath(hash), hash, h(vault.objectFiles[hash]),
                                  ObjectStore.IsEncryptedPayload(vault.objectFiles[hash]), vault.rows[hash])],
           dir[ObjectPath(hash) := Readable(vault.objectFiles[hash])])
  {
    hide ObjectPath, ObjectStore.IsEncryptedPayload, Exportable, Increasing, ObjectsExported, DbFileIs, DbAfterObjects;
    var hash := hashes[i];
    LongEnough(vault, hash);
    NotAmongEarlier(hashes, i);
    OneMoreObject(h, vault, Elements(hashes[..i]), objects, dir, hash);
    DbTurn(vault, Elements(hashes[..i]), hash, dir);
    assert hashes[..i + 1] == hashes[..i] + [hash];
    assert Elements(hashes[..i + 1]) == Elements(hashes[..i]) + {hash};
  }

  /** One object after the other in hash order; the first row whose hash, path or file is bad ends the export. */
  method ExportObjects(h: Hasher, vault: Vault, from: Dir) returns (r: Result<(seq<ObjectEntry>, Dir), ExportError>)
    requires DbFileIs(vault, from, vault.db)
    ensures r.Ok? <==> forall hash :: hash in vault.rows ==> RowExports(vault, hash)
    ensures r == Err(SlicePanic) ==> exists hash :: hash in vault.rows && "blake3:" <= hash && |hash| < 9
    ensures r.Ok? ==> ObjectsExported(h, vault, vault.rows.Keys, r.value.0, r.value.1)
    ensures r.Ok? ==> DbFileIs(vault, r.value.1, DbAfterObjects(vault, vault.rows.Keys))
  {
    hide ObjectPath, ObjectStore.IsEncryptedPayload, SortedKeys, Increasing, ObjectsExported, Blocks, DbAfterObjects, DbFileIs;
    var dir := from;
    var hashes := SortKeys(vault.rows.Keys);
    assert forall hash :: hash in hashes <==> hash in Elements(hashes);
    var objects := [];
    var i := 0;
    NoObjects(h, vault, dir);
    NoObjectAtDb(vault);
    assert hashes[..0] == [] && Elements(hashes[..0]) == {};
    while i < |hashes|
      invariant 0 <= i <= |hashes|
      invariant forall k :: 0 <= k < i ==> RowExports(vault, hashes[k])
      invariant ObjectsExported(h, vault, Elements(hashes[..i]), objects, dir)
      invariant DbFileIs(vault, dir, DbAfterObjects(vault, Elements(hashes[..i])))
    {
      var hash := hashes[i];
      assert hash in vault.rows;
      if !("blake3:" <= hash) {
        return Err(ExportFailed);
      }
      if |hash| < 9 {
        return Err(SlicePanic);
      }
      var path := ObjectPath(hash);
      if hash !in vault.objectFiles || Blocks(vault.dbPath, path) {
        return Err(ExportFailed);
      }
      ObjectTurn(h, vault, hashes, i, objects, dir);
      var stored := vault.objectFiles[hash];
      dir := dir[path := Readable(stored)];
      objects := objects + [ObjectEntry(path, hash, h(stored), ObjectStore.IsEncryptedPayload(stored), vault.rows[hash])];
      i := i + 1;
    }
    assert hashes[..i] == hashes;
    return Ok((objects, dir));
  }

  /** walk lists the vector files, each once, in whatever order the directory gives them. */
  method ExportBundle(h: Hasher, vault: Vault, includeVectors: bool, walk: seq<string>, manifestText: Manifest -> string)
    returns (r: Result<(Manifest, Dir), ExportError>)
    requires VectorsInPlace(vault) && (forall path :: path in walk <==> path in vault.vectorFiles)
    ensures r.Ok? <==> CanExport(vault, includeVectors)
    ensures r == Err(SlicePanic) ==> exists hash :: hash in vault.rows && "blake3:" <= hash && |hash| < 9
    ensures r.Ok? ==> Exported(h, vault, includeVectors, manifestText(r.value.0), r.value.0, r.value.1)
  {
    hide ObjectPath, RowExports, Blocks, ObjectsExported, VectorsExported, SortedBy, ObjectEntryLe, VectorEntryLe, DbAfterObjects, DbAfterVectors, FinalDb;
    if vault.dbPath == "" {
      return Err(ExportFailed);
    }
    var dir: Dir := map[vault.dbPath := Readable(vault.db)];
    var exported :- ExportObjects(h, vault, dir);
    var objects := exported.0;
    dir := exported.1;
    RowsExport(vault);
    SortedObjects(h, vault, objects, dir);
    objects := StableSort(ObjectEntryLe, objects);
    var vectors := [];
    NoObjects(h, vault, dir);
    ghost var before, paths := DbAfterObjects(vault, vault.rows.Keys), WrittenVectors(vault, includeVectors);
    NoVectorsWritten(vault, before);
    if includeVectors {
      var more :- ExportVectors(h, vault, walk, objects, before, dir);
      vectors, dir := more.0, more.1;
    }
    SortedVectors(h, vault, paths, vectors, dir);
    vectors := StableSort(VectorEntryLe, vectors);
    var manifest := Manifest(vault.dbPath, h(vault.db), vault.dbEncryptionEnabled, vault.encryptionEnabled, objects, vectors);
    if Blocks(vault.dbPath, "manifest.json") {
      return Err(ExportFailed);
    }
    var text := manifestText(manifest);
    WritingTheManifest(h, vault, Readable(text), objects, paths, vectors, dir);
    LastWriteAtDb(vault, includeVectors, text, dir);
    return Ok((manifest, dir["manifest.json" := Readable(text)]));
  }

  lemma NoObjectAtDb(vault: Vault)
    ensures DbAfterObjects(vault, {}) == vault.db
  {
  }

  lemma RowsExport(vault: Vault)
    ensures forall hash :: hash in vault.rows && RowExports(vault, hash) ==> Exportable(vault, hash)
  {
    hide Exportable, Blocks;
  }

  lemma NoVectorsWritten(vault: Vault, before: string)
    ensures DbAfterVectors(vault, before, {}) == before
  {
  }

  lemma LastWriteAtDb(vault: Vault, includeVectors: bool, text: string, dir: Dir)
    requires DbFileIs(vault, dir, DbAfterVectors(vault, DbAfterObjects(vault, vault.rows.Keys), WrittenVectors(vault, includeVectors)))
    ensures DbFileIs(vault, dir["manifest.json" := Readable(text)], FinalDb(vault, includeVectors, text))
  {
    hide DbAfterObjects, DbAfterVectors;
  }

  // ---- Both sides together ----

  /** Every stored object is encrypted exactly when the vault says so. */
  ghost predicate ObjectsAgree(vault: Vault) {
    forall hash :: hash in vault.rows && Exportable(vault, hash) ==>
      (ObjectStore.IsEncryptedPayload(vault.objectFiles[hash]) <==> vault.encryptionEnabled)
  }

  /** The vault keeps what its two flags say. */
  ghost predicate AgreesWithFlags(vault: Vault) {
    HeaderAgrees(vault.db, vault.dbEncryptionEnabled) && ObjectsAgree(vault)
  }

  /**
   * An exported bundle passes the verifier exactly when the objects agree with the vault's flag and what ended up at
   * the database's path has the database's digest and the header the other flag asks for.
   */
  lemma ExportVerifiesExactly(h: Hasher, vault: Vault, includeVectors: bool, text: string, m: Manifest, dir: Dir)
    requires Exported(h, vault, includeVectors, text, m, dir)
    ensures BundleMatches(h, m, dir) <==>
      ObjectsAgree(vault)
      && h(FinalDb(vault, includeVectors, text)) == h(vault.db)
      && HeaderAgrees(FinalDb(vault, includeVectors, text), vault.dbEncryptionEnabled)
  {
    hide ObjectPath, ObjectStore.IsEncryptedPayload, ObjectStore.HasFilePath, HeaderAgrees, SortedBy, FinalDb, WrittenVectors;
    forall o | o in m.objects
      ensures ObjectMatches(h, m, dir, o) <==> (ObjectStore.IsEncryptedPayload(vault.objectFiles[o.hash]) <==> vault.encryptionEnabled)
    {
      assert ObjectExported(h, vault, o.hash, m.objects, dir);
    }
    forall v | v in m.vectors
      ensures VectorMatches(h, dir, v)
    {
      assert VectorExported(h, vault, v.relativePath, m.vectors, dir);
    }
    forall hash | hash in vault.rows
      ensures exists o :: o in m.objects && o.hash == hash
    {
      assert ObjectExported(h, vault, hash, m.objects, dir);
      assert ObjectEntryFor(h, vault, hash).hash == hash;
    }
  }

  /** So where the database has a path of its own, exactly when the vault it came from agrees with its encryption flags. */
  lemma OrdinaryExportVerifiesExactly(h: Hasher, vault: Vault, includeVectors: bool, text: string, m: Manifest, dir: Dir)
    requires Exported(h, vault, includeVectors, text, m, dir) && DbHasItsOwnPath(vault, includeVectors)
    ensures BundleMatches(h, m, dir) <==> AgreesWithFlags(vault)
  {
    hide BundleMatches, HeaderAgrees, ObjectsAgree;
    ExportVerifiesExactly(h, vault, includeVectors, text, m, dir);
    assert DbAfterObjects(vault, vault.rows.Keys) == vault.db;
  }

  lemma RowExportsExactly(vault: Vault, hash: string)
    ensures RowExports(vault, hash) <==>
      "blake3:" <= hash && |hash| >= 9 && hash in vault.objectFiles
      && !Blocks(vault.dbPath, "store/objects/" + (hash[7..9] + "/" + hash))
  {
  }

  /** Paths block each other exactly when one is the other, a slash, and anything more. */
  lemma BlocksExactly(a: string, b: string)
    ensures Blocks(a, b) <==> (exists rest :: b == a + "/" + rest) || (exists rest :: a == b + "/" + rest)
  {
    if a + "/" <= b {
      assert b == a + "/" + b[|a| + 1..];
    }
    if b + "/" <= a {
      assert a == b + "/" + a[|b| + 1..];
    }
  }

  /** An export needs a database name, readable objects under hashes of the right shape, and no file where a directory has to be. */
  lemma CanExportExactly(vault: Vault, includeVectors: bool)
    ensures CanExport(vault, includeVectors) <==>
      vault.dbPath != "" && !Blocks(vault.dbPath, "manifest.json")
      && (forall hash :: hash in vault.rows ==>
            "blake3:" <= hash && |hash| >= 9 && hash in vault.objectFiles
            && !Blocks(vault.dbPath, "store/objects/" + (hash[7..9] + "/" + hash)))
      && (includeVectors ==> forall path :: path in vault.vectorFiles ==> !Blocks(vault.dbPath, path))
  {
    hide RowExports, Blocks;
    forall hash | hash in vault.rows
      ensures RowExports(vault, hash) <==>
        "blake3:" <= hash && |hash| >= 9 && hash in vault.objectFiles
        && !Blocks(vault.dbPath, "store/objects/" + (hash[7..9] + "/" + hash))
    {
      RowExportsExactly(vault, hash);
    }
  }

  /** The manifest lists every row's object once, and the vector files exactly when they are asked for, each as the vault has it. */
  lemma ManifestListsTheVault(h: Hasher, vault: Vault, includeVectors: bool, text: string, m: Manifest, dir: Dir)
    requires Exported(h, vault, includeVectors, text, m, dir)
    ensures m.dbPath == vault.dbPath && m.dbHash == h(vault.db)
    ensures m.dbEncrypted == vault.dbEncryptionEnabled && m.encryptionEnabled == vault.encryptionEnabled
    ensures |m.objects| == |vault.rows| && forall hash :: hash in vault.rows ==> ListsObject(m, hash)
    ensures forall o :: o in m.objects ==>
      o.hash in vault.rows && o.hash in vault.objectFiles && |o.hash| >= 9
      && o.relativePath == "store/objects/" + (o.hash[7..9] + "/" + o.hash)
      && o.storageHash == h(vault.objectFiles[o.hash]) && o.bytes == vault.rows[o.hash]
      && (o.encrypted <==> "KCE1" <= vault.objectFiles[o.hash])
    ensures forall v :: v in m.vectors ==>
      includeVectors && v.relativePath in vault.vectorFiles
      && v.hash == h(vault.vectorFiles[v.relativePath]) && v.bytes == |vault.vectorFiles[v.relativePath]|
    ensures includeVectors ==> forall path :: path in vault.vectorFiles ==> ListsVector(m, path)
  {
    hide FinalDb, DbFileIs, SortedBy, ObjectEntryLe, VectorEntryLe;
    assert |vault.rows.Keys| == |vault.rows|;
    forall hash | hash in vault.rows
      ensures ListsObject(m, hash)
    {
      assert ObjectExported(h, vault, hash, m.objects, dir);
      assert ObjectEntryFor(h, vault, hash).hash == hash;
    }
    if includeVectors {
      forall path | path in vault.vectorFiles
        ensures ListsVector(m, path)
      {
        assert VectorExported(h, vault, path, m.vectors, dir);
        assert VectorEntryFor(h, vault, path).relativePath == path;
      }
    }
  }

  ghost predicate ListsObject(m: Manifest, hash: string) {
    exists o :: o in m.objects && o.hash == hash
  }

  ghost predicate ListsVector(m: Manifest, path: string) {
    exists v :: v in m.vectors && v.relativePath == path
  }
}
