/** Moving the database to SQLCipher through a temporary and a backup file (db.rs), with faults everywhere. */
module DbMigration {
  import opened Outcomes

  /** A database file: missing, zero bytes long, a plain or an encrypted database, or a half-written one. */
  datatype File = Absent | Empty | Plain(data: string) | Cipher(data: string, key: string) | Junk

  /** What happens to one file or database operation; a failed or interrupted export may leave a half-written file. */
  datatype Fault = Works | Fails(partial: bool) | Stops(partial: bool)

  /**
   * How a migration ends. The four failures are all the same error code to the caller: before the database was moved
   * aside, after a clean rollback, after a rollback that itself failed, and after promotion when the backup stayed.
   */
  datatype Outcome = Migrated | AlreadyEncrypted | FailedEarly | RolledBack | RollbackFailed | BackupNotRemoved | Stopped

  datatype Files = Files(db: File, tmp: File, bak: File)

  datatype DerivedState =
    | MigrationFailedRecoverable
    | DisabledPlaintext
    | PendingMigration
    | MigratedLocked
    | MigratedUnlocked

  /** The rows a file gives back, with the right key. */
  function DataOf(f: File): Option<string> {
    match f
    case Plain(data) => Some(data)
    case Cipher(data, _) => Some(data)
    case Empty => Some("")
    case _ => None
  }

  predicate Holds(f: File, data: string) {
    DataOf(f) == Some(data)
  }

  predicate OpensPlain(f: File) {
    f.Plain? || f.Empty?
  }

  predicate OpensWith(f: File, key: string) {
    f.Empty? || (f.Cipher? && f.key == key)
  }

  /** Opening a database creates the file when there is none. */
  function Opened(f: File): File {
    if f.Absent? then Empty else f
  }

  predicate HasPlaintextHeader(f: File) {
    f.Absent? || f.Plain?
  }

  function DeriveDbEncryptionState(files: Files, enabled: bool, passphrase: Option<string>): DerivedState {
    if !files.tmp.Absent? || !files.bak.Absent? then MigrationFailedRecoverable
    else if !enabled then DisabledPlaintext
    else if HasPlaintextHeader(files.db) then PendingMigration
    else if passphrase.None? then MigratedLocked
    else if OpensWith(files.db, passphrase.value) then MigratedUnlocked
    else MigratedLocked
  }

  /**
   * What a migration promises, whatever fails and wherever it stops, about the files before and after it. The last
   * clause is the price of a call made while db_path lacks the data: success discards every other copy.
   */
  ghost predicate Promises(before: Files, key: string, after: Files, r: Outcome) {
    (forall data :: Holds(before.db, data) ==> Holds(after.db, data) || (after.db.Absent? && Holds(after.bak, data)))
    && (r.FailedEarly? ==> after.db == before.db || after.db == Opened(before.db))
    && (r.AlreadyEncrypted? ==> after == before.(db := Opened(before.db)) && OpensWith(after.db, key))
    && (r.RolledBack? ==> after == Files(Opened(before.db), Absent, Absent))
    && (r.BackupNotRemoved? ==> after.bak == Opened(before.db) && after.tmp.Absent?)
    && (r.Migrated? || r.BackupNotRemoved? ==>
          OpensPlain(Opened(before.db)) && after.db == Cipher(DataOf(Opened(before.db)).value, key))
    && (r.Migrated? ==> after.tmp.Absent? && after.bak.Absent?)
  }

  /** The first n operations work and the next one does not. */
  predicate TroubleAt(fault: nat -> Fault, n: nat) {
    (forall k :: 0 <= k < n ==> fault(k).Works?) && !fault(n).Works?
  }

  function Broken(fault: Fault): Outcome {
    if fault.Stops? then Stopped else FailedEarly
  }

  /** The migration gets past its preflight: the source opens without a key, and what an earlier attempt left is removed. */
  predicate Clears(before: Files, fault: nat -> Fault) {
    OpensPlain(Opened(before.db))
    && fault(0).Works? && fault(1).Works? && fault(3).Works? && fault(4).Works? && fault(5).Works?
  }

  /** A file gives back what db_path held when the call began, or nothing. */
  predicate OnlyFrom(before: Files, f: File) {
    DataOf(f).None? || DataOf(f) == DataOf(Opened(before.db))
  }

  /** Past the preflight nothing of the old leftovers remains; short of it the backup is untouched. */
  predicate Leaves(before: Files, fault: nat -> Fault, after: Files) {
    if Clears(before, fault) then OnlyFrom(before, after.db) && OnlyFrom(before, after.tmp) && OnlyFrom(before, after.bak)
    else
      after.bak == before.bak && (after.db == before.db || after.db == Opened(before.db))
      && (after.tmp == before.tmp || after.tmp.Absent?)
  }

  class DbFiles {
    var db: File
    var tmp: File
    var bak: File

    function State(): Files
      reads this
    {
      Files(db, tmp, bak)
    }

    constructor (files: Files)
      ensures State() == files
    {
      db, tmp, bak := files.db, files.tmp, files.bak;
    }

    /** Puts the backup back; each of the three operations may fail on its own. */
    method RollbackMigrationFiles(first: nat, fault: nat -> Fault) returns (r: Outcome)
      modifies this
      ensures r.RolledBack? || r.RollbackFailed? || r.Stopped?
      ensures r.RolledBack? ==> State() == Files(old(bak), Absent, Absent)
      ensures fault(first).Works? && fault(first + 1).Works? && fault(first + 2).Works? ==>
        r == if old(bak).Absent? then RollbackFailed else RolledBack
      ensures forall data :: Holds(old(bak), data) ==> Holds(db, data) || (Holds(bak, data) && (db.Absent? || db == old(db)))
      ensures db.Absent? || db == old(db) || db == old(bak)
      ensures (tmp.Absent? || tmp == old(tmp)) && (bak.Absent? || bak == old(bak))
    {
      var errors := 0;
      if fault(first).Stops? {
        return Stopped;
      }
      if fault(first).Works? {
        db := Absent;
      } else {
        errors := errors + 1;
      }
      if fault(first + 1).Stops? {
        return Stopped;
      }
      if fault(first + 1).Works? && !bak.Absent? {
        db, bak := bak, Absent;
      } else {
        errors := errors + 1;
      }
      if fault(first + 2).Stops? {
        return Stopped;
      }
      if fault(first + 2).Works? {
        tmp := Absent;
      } else {
        errors := errors + 1;
      }
      return if errors == 0 then RolledBack else RollbackFailed;
    }

    /** The operations 0 to 5: nothing comes out when the way is clear, and otherwise how the call ends. */
    method Preflight(key: string, fault: nat -> Fault) returns (r: Option<Outcome>)
      modifies this
      ensures r.None? <==> Clears(old(State()), fault)
      ensures r.None? ==> State() == Files(Opened(old(db)), Absent, Absent)
      ensures r.Some? ==> bak == old(bak) && (db == old(db) || db == Opened(old(db))) && (tmp == old(tmp) || tmp.Absent?)
      ensures r.Some? ==> r.value.FailedEarly? || r.value.AlreadyEncrypted? || r.value.Stopped?
      ensures r == Some(AlreadyEncrypted) ==> State() == old(State()).(db := Opened(old(db))) && OpensWith(db, key)
      ensures OpensPlain(Opened(old(db))) ==>
        forall n :: (n == 0 || 3 <= n <= 5) && TroubleAt(fault, n) ==> r == Some(Broken(fault(n)))
      ensures (forall k :: 0 <= k < 6 ==> fault(k).Works?) && !OpensPlain(Opened(old(db))) ==>
        r == Some(if OpensWith(Opened(old(db)), key) then AlreadyEncrypted else FailedEarly)
    {
      // open the source
      if !fault(0).Works? {
        if fault(0).partial {
          db := Opened(db);
        }
        return Some(Broken(fault(0)));
      }
      db := Opened(db);
      // does it open without a key?
      if fault(1).Stops? {
        return Some(Stopped);
      }
      if fault(1).Fails? || !OpensPlain(db) {
        if fault(2).Works? && OpensWith(db, key) {
          return Some(AlreadyEncrypted);
        }
        return Some(Broken(fault(2)));
      }
      // create the directory, then clear what an earlier attempt left
      if !fault(3).Works? {
        return Some(Broken(fault(3)));
      }
      if !fault(4).Works? {
        return Some(Broken(fault(4)));
      }
      tmp := Absent;
      if !fault(5).Works? {
        return Some(Broken(fault(5)));
      }
      bak := Absent;
      return None;
    }

    /** fault(k) says what becomes of the k-th operation; Stops is a crash just before it takes effect. */
    method MigrateDbToSqlcipher(key: string, fault: nat -> Fault) returns (r: Outcome)
      modifies this
      ensures Promises(old(State()), key, State(), r) && Leaves(old(State()), fault, State())
      ensures (forall k :: fault(k).Works?) ==>
        match old(db)
        case Cipher(_, other) => r == if other == key then AlreadyEncrypted else FailedEarly
        case Junk => r == FailedEarly
        case _ => r == Migrated
      ensures (forall k :: fault(k).Works? <==> k != 10) && fault(10).Fails? && OpensPlain(Opened(old(db))) ==> r == RolledBack
      ensures OpensPlain(Opened(old(db))) && TroubleAt(fault, 0) ==> r == Broken(fault(0)) && bak == old(bak)
      ensures OpensPlain(Opened(old(db))) && TroubleAt(fault, 3) ==> r == Broken(fault(3)) && bak == old(bak)
      ensures OpensPlain(Opened(old(db))) && TroubleAt(fault, 4) ==> r == Broken(fault(4)) && bak == old(bak)
      ensures OpensPlain(Opened(old(db))) && TroubleAt(fault, 5) ==> r == Broken(fault(5)) && bak == old(bak)
      ensures OpensPlain(Opened(old(db))) && TroubleAt(fault, 6) ==> r == Broken(fault(6)) && bak == Absent
      ensures OpensPlain(Opened(old(db))) && TroubleAt(fault, 7) ==> r == Broken(fault(7)) && bak == Absent
      ensures OpensPlain(Opened(old(db))) && TroubleAt(fault, 8) ==> r == Broken(fault(8)) && bak == Absent
      ensures (forall k :: 0 <= k < 9 ==> fault(k).Works?) && fault(9).Stops? && OpensPlain(Opened(old(db))) ==>
        r == Stopped && State() == Files(Absent, Cipher(DataOf(Opened(old(db))).value, key), Opened(old(db)))
    {
      var ended := Preflight(key, fault);
      if ended.Some? {
        return ended.value;
      }
      ghost var data := DataOf(db);
      // export into the temporary file and check it
      if !fault(6).Works? {
        if fault(6).partial {
          tmp := Junk;
        }
        return if fault(6).Stops? then Stopped else FailedEarly;
      }
      tmp := Cipher(DataOf(db).value, key);
      if !fault(7).Works? || !OpensWith(tmp, key) {
        return if fault(7).Stops? then Stopped else FailedEarly;
      }
      // move the source aside
      if !fault(8).Works? {
        return if fault(8).Stops? then Stopped else FailedEarly;
      }
      db, bak := Absent, db;
      // promote, check, and drop the backup
      if fault(9).Stops? {
        return Stopped;
      }
      if fault(9).Fails? {
        r := RollbackMigrationFiles(12, fault);
        return r;
      }
      db, tmp := tmp, Absent;
      if fault(10).Stops? {
        return Stopped;
      }
      if fault(10).Fails? || !OpensWith(db, key) {
        r := RollbackMigrationFiles(12, fault);
        return r;
      }
      if !fault(11).Works? {
        return if fault(11).Stops? then Stopped else BackupNotRemoved;
      }
      bak := Absent;
      return Migrated;
    }
  }

  // ---- Calls in sequence ----

  /** Wherever a migration of a database that held the data stopped, a missing database is reported as recoverable. */
  lemma MissingDataIsReported(before: Files, key: string, after: Files, r: Outcome, data: string, enabled: bool, passphrase: Option<string>)
    requires Promises(before, key, after, r) && Holds(before.db, data)
    ensures !Holds(after.db, data) ==>
      DeriveDbEncryptionState(after, enabled, passphrase) == MigrationFailedRecoverable && Holds(after.bak, data)
    ensures DeriveDbEncryptionState(after, enabled, passphrase) != MigrationFailedRecoverable ==> Holds(after.db, data)
  {
    assert Holds(after.db, data) || Holds(after.bak, data);
  }

  /** Which state is derived from which files: leftovers first, then the setting, the header, and the passphrase. */
  lemma DerivedStateIsTold(files: Files, enabled: bool, passphrase: Option<string>)
    ensures var state := DeriveDbEncryptionState(files, enabled, passphrase);
      (state.MigrationFailedRecoverable? <==> files.tmp != Absent || files.bak != Absent)
      && (files.tmp == Absent && files.bak == Absent ==>
            (state.DisabledPlaintext? <==> !enabled)
            && (state.PendingMigration? <==> enabled && (files.db == Absent || files.db.Plain?))
            && (state.MigratedUnlocked? <==>
                  enabled && passphrase.Some? && (files.db == Empty || (files.db.Cipher? && files.db.key == passphrase.value)))
            && (state.MigratedLocked? <==>
                  enabled && files.db != Absent && !files.db.Plain?
                  && !(passphrase.Some? && (files.db == Empty || (files.db.Cipher? && files.db.key == passphrase.value)))))
  {
  }

  ghost predicate Calls(key: string, states: seq<Files>, results: seq<Outcome>) {
    |states| == |results| + 1
    && forall i :: 0 <= i < |results| ==> Promises(states[i], key, states[i + 1], results[i])
  }

  /** Every call finds a database at db_path: one thing a caller can look at before it calls. */
  ghost predicate Guarded(states: seq<Files>, results: seq<Outcome>)
    requires |states| == |results| + 1
  {
    forall i :: 0 <= i < |results| ==> !states[i].db.Absent?
  }

  /** Guarded that way, no sequence of failing and crashing calls ever loses the data, whatever leftovers they find. */
  lemma {:induction false} GuardedCallsKeepData(key: string, states: seq<Files>, results: seq<Outcome>, data: string, i: nat)
    requires Calls(key, states, results) && Guarded(states, results) && i < |states|
    requires Holds(states[0].db, data)
    ensures Holds(states[i].db, data) || (states[i].db.Absent? && Holds(states[i].bak, data))
  {
    if i > 0 {
      GuardedCallsKeepData(key, states, results, data, i - 1);
      assert Promises(states[i - 1], key, states[i], results[i - 1]);
    }
  }

  predicate Somewhere(files: Files, data: string) {
    Holds(files.db, data) || Holds(files.tmp, data) || Holds(files.bak, data)
  }

  /**
   * From every state and under every fault pattern, data at db_path or in the backup outlives a call exactly when
   * db_path held it or the call did not get past its preflight.
   */
  lemma DataSurvivesExactly(before: Files, key: string, fault: nat -> Fault, after: Files, r: Outcome, data: string)
    requires Promises(before, key, after, r) && Leaves(before, fault, after)
    requires data != "" && (Holds(before.db, data) || Holds(before.bak, data))
    ensures Somewhere(after, data) <==> Holds(before.db, data) || !Clears(before, fault)
  {
    assert Holds(before.db, data) ==> Holds(after.db, data) || Holds(after.bak, data);
  }

  /** A call that reports success or a clean rollback leaves exactly the data db_path held, whatever the backup held. */
  lemma FinishedCallsKeepExactlyDb(before: Files, key: string, after: Files, r: Outcome, data: string)
    requires Promises(before, key, after, r) && (r.Migrated? || r.RolledBack?) && data != ""
    ensures Holds(after.db, data) || Holds(after.bak, data) <==> Holds(before.db, data)
  {
    assert Holds(before.db, data) ==> Holds(after.db, data) || Holds(after.bak, data);
  }

  /**
   * A crash between the two renames leaves the backup as the only copy of the data, and then a rerun in which nothing
   * fails always discards it.
   */
  method RerunAfterCrash(files: DbFiles, key: string, crash: nat -> Fault, calm: nat -> Fault, ghost data: string) returns (first: Outcome, second: Outcome)
    requires Holds(files.db, data) && OpensPlain(files.db) && data != ""
    requires (forall k :: 0 <= k < 9 ==> crash(k).Works?) && crash(9).Stops? && (forall k :: calm(k).Works?)
    modifies files
    ensures first == Stopped && second == Migrated && !Somewhere(files.State(), data)
  {
    first := files.MigrateDbToSqlcipher(key, crash);
    assert files.State() == Files(Absent, Cipher(data, key), old(files.db));
    second := files.MigrateDbToSqlcipher(key, calm);
  }

  /** Whenever db_path is missing, a call that nothing stops leaves no file that holds anything else. */
  lemma UnguardedRerunLosesData(before: Files, key: string, fault: nat -> Fault, after: Files, r: Outcome, data: string)
    requires Promises(before, key, after, r) && Leaves(before, fault, after)
    requires before.db.Absent? && (forall k :: fault(k).Works?) && data != ""
    ensures !Somewhere(after, data)
  {
    assert Opened(before.db) == Empty;
  }
}
