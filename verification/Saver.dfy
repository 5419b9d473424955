/** FlagSaverImpl: a copy of all flag states, and their return into the same buffers. */
module Saver {
  import Values
  import opened Engine
  import opened Registry

  /** `table` with the saved flags put back; flags registered later keep their state. */
  function PutBack(table: FlagTable, saved: FlagTable): FlagTable {
    map n | n in table :: if n in saved then saved[n] else table[n]
  }

  /** The two tables have flags of the same types. */
  ghost predicate SameTypes(saved: FlagTable, table: FlagTable) {
    saved.Keys <= table.Keys &&
    forall n | n in saved :: Values.TypeOf(saved[n].current) == Values.TypeOf(table[n].current)
  }

  /** There is a backup for every name. */
  ghost predicate Covers(backups: seq<CommandLineFlag>, names: set<string>) {
    forall n | n in names :: exists i :: 0 <= i < |backups| && backups[i].name == n
  }

  lemma CoversOneMore(backups: seq<CommandLineFlag>, names: set<string>, b: CommandLineFlag)
    requires Covers(backups, names)
    ensures Covers(backups + [b], names + {b.name})
  {
    var more := backups + [b];
    assert more[|backups|] == b;
    forall n | n in names ensures exists i :: 0 <= i < |more| && more[i].name == n {
      var i :| 0 <= i < |backups| && backups[i].name == n;
      assert more[i] == backups[i];
    }
  }

  class FlagSaverImpl {
    const mainRegistry: FlagRegistry
    var backupRegistry: seq<CommandLineFlag>
    ghost var saved: FlagTable
    ghost var Repr: set<object>

    constructor (registry: FlagRegistry)
      ensures mainRegistry == registry && backupRegistry == [] && saved == map[] && Repr == {}
      ensures Valid()
    {
      mainRegistry := registry;
      backupRegistry, saved, Repr := [], map[], {};
    }

    /** One backup holds what was saved of its flag, in objects of the saver. */
    ghost predicate Holds(b: CommandLineFlag)
      reads this, Repr
    {
      && b in Repr && b.current.buffer in Repr && b.defvalue.buffer in Repr && b.Valid()
      && b.name in saved && b.State() == saved[b.name]
    }

    ghost predicate Valid()
      reads this, Repr
    {
      && this !in Repr
      && (forall i | 0 <= i < |backupRegistry| :: Holds(backupRegistry[i]))
      && Covers(backupRegistry, saved.Keys)
    }

    /** A fresh copy of one flag, in buffers of its own. */
    static method Backup(main: CommandLineFlag) returns (backup: CommandLineFlag)
      requires main.Valid()
      ensures fresh(backup.Objects()) && backup.Valid()
      ensures backup.name == main.name && backup.State() == main.State()
    {
      var current := main.current.New();
      var defvalue := main.defvalue.New();
      backup := new CommandLineFlag(main.name, main.help, main.filename, current, defvalue);
      backup.CopyFrom(main);
    }

    /** SaveFromRegistry; called once, on a new object. */
    method SaveFromRegistry(ghost table: FlagTable)
      requires Valid() && mainRegistry.Valid() && mainRegistry.Shows(table) && this !in mainRegistry.Repr
      requires backupRegistry == [] && saved == map[] && Repr == {}
      modifies this
      ensures Valid() && saved == table && fresh(Repr)
    {
      hide FlagRegistry.Valid, FlagRegistry.Shows, Valid;
      ghost var names := mainRegistry.flags.Keys;
      assert table.Keys == names by { mainRegistry.ShownKeys(table); }
      var todo := mainRegistry.flags.Keys;
      while todo != {}
        invariant todo <= names && mainRegistry.flags.Keys == names
        invariant mainRegistry.Valid() && mainRegistry.Shows(table)
        invariant Valid() && fresh(Repr)
        invariant saved == table - todo
        decreases |todo|
      {
        var n :| n in todo;
        SaveFlag(n, table);
        todo := todo - {n};
      }
    }

    /** The body of the saving loop. */
    method SaveFlag(n: string, ghost table: FlagTable)
      requires Valid() && mainRegistry.Valid() && mainRegistry.Shows(table) && this !in mainRegistry.Repr
      requires n in mainRegistry.flags && n in table && n !in saved
      modifies this
      ensures Valid() && saved == old(saved)[n := table[n]] && fresh(Repr - old(Repr))
      ensures mainRegistry.Valid() && mainRegistry.Shows(table)
    {
      hide FlagRegistry.Valid, FlagRegistry.Shows, Valid;
      mainRegistry.FlagFacts(table, n);
      var backup := Backup(mainRegistry.flags[n]);
      AddBackup(backup);
    }

    method AddBackup(backup: CommandLineFlag)
      requires Valid() && backup.Valid() && this !in backup.Objects() && backup.name !in saved
      modifies this
      ensures Valid() && saved == old(saved)[backup.name := backup.State()]
      ensures Repr == old(Repr) + backup.Objects()
    {
      hide Covers;
      backupRegistry := backupRegistry + [backup];
      saved := saved[backup.name := backup.State()];
      Repr := Repr + backup.Objects();
      forall i | 0 <= i < |backupRegistry| - 1 ensures Holds(backupRegistry[i]) {
        assert old(Holds(backupRegistry[i]));
      }
      assert Holds(backupRegistry[|backupRegistry| - 1]);
      CoversOneMore(old(backupRegistry), old(saved).Keys, backup);
      assert saved.Keys == old(saved).Keys + {backup.name};
    }

    /** RestoreToRegistry: every saved flag gets back its values, modified bit and validator; no
        buffer is replaced and no other flag is touched. */
    method RestoreToRegistry(ghost table: FlagTable)
      requires Valid() && mainRegistry.Valid() && mainRegistry.Shows(table)
      requires Repr !! mainRegistry.Repr && this !in mainRegistry.Repr && SameTypes(saved, table)
      modifies mainRegistry.Repr
      ensures mainRegistry.Valid() && mainRegistry.Shows(PutBack(table, saved))
    {
      hide FlagRegistry.Valid, FlagRegistry.Shows, Valid, Holds;
      ghost var done: FlagTable := map[];
      assert PutBack(table, done) == table;
      for i := 0 to |backupRegistry|
        invariant mainRegistry.Valid() && Valid() && unchanged(mainRegistry)
        invariant done.Keys <= saved.Keys && forall n | n in done :: done[n] == saved[n]
        invariant forall k | 0 <= k < i :: backupRegistry[k].name in done
        invariant mainRegistry.Shows(PutBack(table, done))
      {
        RestoreFlag(backupRegistry[i], table, done);
        done := done[backupRegistry[i].name := saved[backupRegistry[i].name]];
      }
      AllRestored();
      assert done == saved;
    }

    lemma AllRestored()
      requires Valid()
      ensures Covers(backupRegistry, saved.Keys)
    {
    }

    /** The body of the restoring loop. */
    method RestoreFlag(backup: CommandLineFlag, ghost table: FlagTable, ghost done: FlagTable)
      requires Valid() && mainRegistry.Valid() && mainRegistry.Shows(PutBack(table, done))
      requires Repr !! mainRegistry.Repr && this !in mainRegistry.Repr && SameTypes(saved, table)
      requires done.Keys <= saved.Keys && forall n | n in done :: done[n] == saved[n]
      requires backup in backupRegistry
      modifies mainRegistry.Repr
      ensures Valid() && mainRegistry.Valid() && unchanged(mainRegistry)
      ensures backup.name in saved
      ensures mainRegistry.Shows(PutBack(table, done[backup.name := saved[backup.name]]))
    {
      hide FlagRegistry.Valid, FlagRegistry.Shows;
      assert Holds(backup);
      ghost var now := PutBack(table, done);
      var main := mainRegistry.FindFlagLocked(backup.name, now);
      assert backup.name in Sig(now);
      mainRegistry.FlagFacts(now, backup.name);
      assert Values.TypeOf(now[backup.name].current) == Values.TypeOf(saved[backup.name].current);
      if main != null {
        mainRegistry.CopyIntoFlag(main, backup, now);
        assert PutBack(table, done[backup.name := saved[backup.name]]) == now[backup.name := saved[backup.name]];
      }
      forall i | 0 <= i < |backupRegistry| ensures Holds(backupRegistry[i]) {
        assert old(Holds(backupRegistry[i]));
      }
    }
  }
}
