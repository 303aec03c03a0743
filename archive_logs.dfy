/**
 * The weekly archival run: dialogs started before a cutoff, and every usage
 * log, are copied into a backup database and then deleted from the main
 * one. The copies are plain INSERTs without an id, so the backup assigns
 * its own ids and keeps every other column.
 */
module ArchiveLogs {
  import opened Tables
  import opened SqliteLog

  /** The stored values of the rows, in table order: what an INSERT without id copies. */
  function Contents<T>(t: Table<T>): (ds: seq<T>)
    ensures |ds| == |t| && forall i :: 0 <= i < |t| ==> ds[i] == t[i].data
  {
    seq(|t|, i requires 0 <= i < |t| => t[i].data)
  }

  /** INSERTs of `ds` in order, each row taking the next id. */
  function InsertAll<T>(t: Table<T>, ds: seq<T>): Table<T>
    decreases |ds|
  {
    if ds == [] then t else Insert(InsertAll(t, ds[..|ds| - 1]), ds[|ds| - 1])
  }

  /** Inserting keeps the rows already there, adds one row per value, and keeps rowid order. */
  lemma {:induction false} InsertAllKeeps<T>(t: Table<T>, ds: seq<T>)
    ensures |InsertAll(t, ds)| == |t| + |ds|
    ensures InsertAll(t, ds)[..|t|] == t
    ensures IdsIncreasing(t) ==> IdsIncreasing(InsertAll(t, ds))
    decreases |ds|
  {
    if ds != [] {
      var front := ds[..|ds| - 1];
      InsertAllKeeps(t, front);
      var u := InsertAll(t, front);
      assert Insert(u, ds[|ds| - 1])[..|t|] == u[..|t|];
      if IdsIncreasing(t) {
        InsertKeepsIncreasing(u, ds[|ds| - 1]);
      }
    }
  }

  /** Inserting appends exactly `ds` to the stored values. */
  lemma {:induction false} InsertAllContents<T>(t: Table<T>, ds: seq<T>)
    ensures Contents(InsertAll(t, ds)) == Contents(t) + ds
    decreases |ds|
  {
    if ds != [] {
      var front := ds[..|ds| - 1];
      InsertAllContents(t, front);
      var u := InsertAll(t, front);
      assert Contents(Insert(u, ds[|ds| - 1])) == Contents(u) + [ds[|ds| - 1]];
      assert ds == front + [ds[|ds| - 1]];
    }
  }

  /**
   * Inserting values whose keys are pairwise distinct and held by no row
   * keeps a unique index: an INSERT copy into a fresh table never trips it.
   */
  lemma {:induction false} InsertAllKeepsUnique<T(!new), K>(t: Table<T>, ds: seq<T>, key: T -> K)
    requires IdsIncreasing(t) && UniqueKey(t, key)
    requires forall i, j :: 0 <= i < j < |ds| ==> key(ds[i]) != key(ds[j])
    requires forall r, i :: r in t && 0 <= i < |ds| ==> key(r.data) != key(ds[i])
    ensures IdsIncreasing(InsertAll(t, ds)) && UniqueKey(InsertAll(t, ds), key)
    decreases |ds|
  {
    if ds != [] {
      var front := ds[..|ds| - 1];
      var last := ds[|ds| - 1];
      InsertAllKeepsUnique(t, front, key);
      var u := InsertAll(t, front);
      InsertAllContents(t, front);
      forall i | 0 <= i < |u| ensures key(u[i].data) != key(last) {
        assert u[i].data == Contents(u)[i] == (Contents(t) + front)[i];
        if i < |t| {
          assert t[i] in t;
        } else {
          assert front[i - |t|] == ds[i - |t|];
        }
      }
      InsertKeepsUnique(u, key, last);
    }
  }

  /** The stored values of a table with a unique index have pairwise distinct keys. */
  lemma ContentsKeysDistinct<T(!new), K>(t: Table<T>, key: T -> K)
    requires IdsIncreasing(t) && UniqueKey(t, key)
    ensures forall i, j :: 0 <= i < j < |Contents(t)| ==> key(Contents(t)[i]) != key(Contents(t)[j])
  {
    forall i, j | 0 <= i < j < |t| ensures key(t[i].data) != key(t[j].data) {
      assert t[i] in t && t[j] in t && t[i].id < t[j].id;
    }
  }

  /** Dialogs started before the cutoff date. */
  function StartedBefore(cutoff: int): Row<Dialog> -> bool {
    (r: Row<Dialog>) => r.data.startDate < cutoff
  }

  /** Dialogs started on or after the cutoff date. */
  function StartedSince(cutoff: int): Row<Dialog> -> bool {
    (r: Row<Dialog>) => r.data.startDate >= cutoff
  }

  /** main(): the cutoff is eight days before today. */
  function Cutoff(today: int): int {
    today - 8
  }

  /**
   * Every dialog goes to exactly one side of the cutoff: the moved ones
   * started before it, the kept ones on or after it, and together they
   * are as many as the table held.
   */
  lemma ArchiveSplit(t: Table<Dialog>, cutoff: int)
    ensures forall r :: r in Where(t, StartedBefore(cutoff)) <==> r in t && r.data.startDate < cutoff
    ensures forall r :: r in Where(t, StartedSince(cutoff)) <==> r in t && r.data.startDate >= cutoff
    ensures |Where(t, StartedBefore(cutoff))| + |Where(t, StartedSince(cutoff))| == |t|
  {
    WherePartition(t, StartedBefore(cutoff), StartedSince(cutoff));
  }

  /** With the cutoff of main(), a dialog stays exactly when it started within the last eight days. */
  lemma KeepsLastEightDays(t: Table<Dialog>, today: int, r: Row<Dialog>)
    requires r in t
    ensures r in Where(t, StartedSince(Cutoff(today))) <==> r.data.startDate >= today - 8
  {
  }

  /** When no dialog is older than the cutoff, the kept table is the whole table. */
  lemma NothingToArchive(t: Table<Dialog>, cutoff: int)
    requires Where(t, StartedBefore(cutoff)) == []
    ensures Where(t, StartedSince(cutoff)) == t
  {
    forall i | 0 <= i < |t| ensures StartedSince(cutoff)(t[i]) {
      assert t[i] !in Where(t, StartedBefore(cutoff));
    }
    WhereAll(t, StartedSince(cutoff));
  }

  /** ArchiveManager, holding the main and the backup database. */
  class ArchiveManager {
    const mainDb: Database
    const backupDb: Database

    /** setup_databases: two distinct database files. */
    constructor (mainDb: Database, backupDb: Database)
      requires mainDb != backupDb
      ensures this.mainDb == mainDb && this.backupDb == backupDb
    {
      this.mainDb := mainDb;
      this.backupDb := backupDb;
    }

    /** Step 1 of archive_old_data: copy the dialogs started before `cutoff`, counting them, then delete them. */
    method ArchiveDialogs(cutoff: int) returns (archivedDialogs: nat)
      requires mainDb != backupDb && mainDb.DialogsValid()
      modifies mainDb`dialogs, backupDb`dialogs
      ensures mainDb.DialogsValid()
      ensures mainDb.dialogs == Where(old(mainDb.dialogs), StartedSince(cutoff))
      ensures backupDb.dialogs == InsertAll(old(backupDb.dialogs), Contents(Where(old(mainDb.dialogs), StartedBefore(cutoff))))
      ensures archivedDialogs == |Where(old(mainDb.dialogs), StartedBefore(cutoff))|
    {
      archivedDialogs := 0;
      var oldDialogs := Where(mainDb.dialogs, StartedBefore(cutoff));
      if |oldDialogs| > 0 {
        var i := 0;
        while i < |oldDialogs|
          invariant 0 <= i <= |oldDialogs| && archivedDialogs == i
          invariant backupDb.dialogs == InsertAll(old(backupDb.dialogs), Contents(oldDialogs[..i]))
          invariant mainDb.dialogs == old(mainDb.dialogs)
        {
          ghost var ds := Contents(oldDialogs[..i + 1]);
          assert ds[..i] == Contents(oldDialogs[..i]) && ds[i] == oldDialogs[i].data;
          backupDb.dialogs := Insert(backupDb.dialogs, oldDialogs[i].data);
          archivedDialogs := archivedDialogs + 1;
          i := i + 1;
        }
        assert oldDialogs[..i] == oldDialogs;
        WhereKeepsIncreasing(mainDb.dialogs, StartedSince(cutoff));
        WhereKeepsUnique(mainDb.dialogs, StartedSince(cutoff), KeyOfDialog);
        mainDb.dialogs := Where(mainDb.dialogs, StartedSince(cutoff));
      } else {
        NothingToArchive(mainDb.dialogs, cutoff);
        assert Contents(oldDialogs) == [];
      }
    }

    /** Step 2 of archive_old_data: copy every log row, counting them, then empty the log table. */
    method ArchiveAllLogs() returns (archivedLogs: nat)
      requires mainDb != backupDb
      modifies mainDb`logs, backupDb`logs
      ensures mainDb.logs == []
      ensures backupDb.logs == InsertAll(old(backupDb.logs), Contents(old(mainDb.logs)))
      ensures archivedLogs == |old(mainDb.logs)|
    {
      archivedLogs := 0;
      var allLogs := mainDb.logs;
      if |allLogs| > 0 {
        var i := 0;
        while i < |allLogs|
          invariant 0 <= i <= |allLogs| && archivedLogs == i
          invariant backupDb.logs == InsertAll(old(backupDb.logs), Contents(allLogs[..i]))
          invariant mainDb.logs == old(mainDb.logs)
        {
          ghost var ds := Contents(allLogs[..i + 1]);
          assert ds[..i] == Contents(allLogs[..i]) && ds[i] == allLogs[i].data;
          backupDb.logs := Insert(backupDb.logs, allLogs[i].data);
          archivedLogs := archivedLogs + 1;
          i := i + 1;
        }
        assert allLogs[..i] == allLogs;
        mainDb.logs := [];
      } else {
        assert Contents(allLogs) == [];
      }
    }

    /**
     * archive_old_data: the dialogs started before `cutoff`, then every log
     * row. Returns (archived logs, archived dialogs).
     */
    method ArchiveOldData(cutoff: int) returns (archivedLogs: nat, archivedDialogs: nat)
      requires mainDb != backupDb && mainDb.Valid()
      modifies mainDb`dialogs, mainDb`logs, backupDb`dialogs, backupDb`logs
      ensures mainDb.Valid()
      ensures mainDb.dialogs == Where(old(mainDb.dialogs), StartedSince(cutoff))
      ensures backupDb.dialogs == InsertAll(old(backupDb.dialogs), Contents(Where(old(mainDb.dialogs), StartedBefore(cutoff))))
      ensures archivedDialogs == |Where(old(mainDb.dialogs), StartedBefore(cutoff))|
      ensures mainDb.logs == []
      ensures backupDb.logs == InsertAll(old(backupDb.logs), Contents(old(mainDb.logs)))
      ensures archivedLogs == |old(mainDb.logs)|
    {
      archivedDialogs := ArchiveDialogs(cutoff);
      archivedLogs := ArchiveAllLogs();
    }

    /** create_backup_database: the backup file is removed and recreated with empty Log and Dialog tables. */
    method CreateBackupDatabase()
      modifies backupDb`dialogs, backupDb`logs
      ensures backupDb.dialogs == [] && backupDb.logs == []
    {
      backupDb.dialogs, backupDb.logs := [], [];
    }

    /**
     * main(): recreate the backup, then archive with the cutoff eight days
     * before `today`. The backup ends holding exactly the old dialogs and
     * every log, and its dialog index is never tripped by the copy.
     */
    method Run(today: int) returns (archivedLogs: nat, archivedDialogs: nat)
      requires mainDb != backupDb && mainDb.Valid()
      modifies mainDb`dialogs, mainDb`logs, backupDb`dialogs, backupDb`logs
      ensures mainDb.Valid() && backupDb.DialogsValid() && backupDb.LogsValid()
      ensures forall r :: r in mainDb.dialogs <==> r in old(mainDb.dialogs) && r.data.startDate >= today - 8
      ensures Contents(backupDb.dialogs) == Contents(Where(old(mainDb.dialogs), StartedBefore(today - 8)))
      ensures mainDb.logs == [] && Contents(backupDb.logs) == Contents(old(mainDb.logs))
      ensures archivedDialogs + |mainDb.dialogs| == |old(mainDb.dialogs)| && archivedLogs == |old(mainDb.logs)|
    {
      CreateBackupDatabase();
      var moved := Where(mainDb.dialogs, StartedBefore(Cutoff(today)));
      ArchiveSplit(mainDb.dialogs, Cutoff(today));
      WhereKeepsIncreasing(mainDb.dialogs, StartedBefore(Cutoff(today)));
      WhereKeepsUnique(mainDb.dialogs, StartedBefore(Cutoff(today)), KeyOfDialog);
      ContentsKeysDistinct(moved, KeyOfDialog);
      InsertAllKeepsUnique([], Contents(moved), KeyOfDialog);
      InsertAllContents([], Contents(moved));
      InsertAllKeeps([], Contents(mainDb.logs));
      InsertAllContents([], Contents(mainDb.logs));
      archivedLogs, archivedDialogs := ArchiveOldData(Cutoff(today));
    }
  }
}
