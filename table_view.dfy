/**
 * The catalog of table names shown to the user: an ordered list of names that may be
 * appended to, removed from and renamed by index, beside a reference to the table store.
 * Renaming a table also asks the store to reset its default tables and to copy, under the
 * new name, the records of a table whose name occurs inside it.
 */
module TableViews {
  import opened Common
  import opened TestObjects
  import opened TestViews

  /** A name as trim leaves it: non-empty, with no trimmable char at either end. */
  predicate IsTrimmed(s: string) {
    s != [] && !IsTrimmable(s[0]) && !IsTrimmable(s[|s| - 1])
  }

  /** Every catalog name is one that addTable or updateTable could have written. */
  ghost predicate Tidy(names: seq<string>) {
    forall s :: s in names ==> IsTrimmed(s)
  }

  /** The trimmed form of a non-blank name is a trimmed name, and trimming it again changes nothing. */
  lemma TrimmedIsTidy(s: string)
    requires !IsBlank(s)
    ensures IsTrimmed(Trim(s)) && Trim(Trim(s)) == Trim(s)
  {
    TrimIdempotent(s);
  }

  /** The catalog init builds is tidy. */
  lemma InitialTidy()
    ensures Tidy([Ankara, Istanbul, Izmir])
  {
  }

  /** What addTable appends keeps a tidy catalog tidy. */
  lemma AddTableKeepsTidy(names: seq<string>, name: string)
    requires Tidy(names) && !IsBlank(name)
    ensures Tidy(names + [Trim(name)])
  {
    var t := Trim(name);
    assert IsTrimmed(t);
    var r := names + [t];
    forall s | s in r
      ensures IsTrimmed(s)
    {
      var j :| 0 <= j < |r| && r[j] == s;
      if j < |names| {
        assert s in names;
      }
    }
  }

  /** What updateTable writes over an entry keeps a tidy catalog tidy. */
  lemma RenameKeepsTidy(names: seq<string>, index: int, name: string)
    requires Tidy(names) && 0 <= index < |names| && !IsBlank(name)
    ensures Tidy(names[index := Trim(name)])
  {
    assert IsTrimmed(Trim(name));
    var r := names[index := Trim(name)];
    forall s | s in r
      ensures IsTrimmed(s)
    {
      var j :| 0 <= j < |r| && r[j] == s;
      if j != index {
        assert s in names;
      }
    }
  }

  /** removeTable keeps a tidy catalog tidy. */
  lemma RemoveKeepsTidy(names: seq<string>, x: string)
    requires Tidy(names)
    ensures Tidy(RemoveFirst(names, x))
  {
    var r := RemoveFirst(names, x);
    RemoveFirstCounts(names, x);
    forall s | s in r
      ensures IsTrimmed(s)
    {
      assert s in multiset(r);
      assert s in multiset(names);
    }
  }

  /** Some non-null key of the map occurs inside `name` (String.contains). */
  ghost predicate SomeKeyInside(m: Tables, name: string) {
    exists k :: Some(k) in m && Contains(name, k)
  }

  /**
   * The map `after`, reached from `reset` by loading `name` again zero or more times: only
   * the key `name` may have been added or rebound, and then to the list of a key of `reset`
   * that occurs inside `name`. A reset without null lists keeps none.
   */
  ghost predicate ReloadedFrom(reset: Tables, name: string, after: Tables) {
    && reset.Keys <= after.Keys <= reset.Keys + {Some(name)}
    && (forall k :: k in reset && k != Some(name) ==> after[k] == reset[k])
    && (Some(name) in after ==>
          exists src :: Some(src) in reset && Contains(name, src) && after[Some(name)] == reset[Some(src)])
    && (NoNullLists(reset) ==> NoNullLists(after))
  }

  /** Binding `name` to the list of a key of `reset` inside it keeps the map reloaded from `reset`. */
  lemma ReloadStep(reset: Tables, name: string, before: Tables, src: string, after: Tables)
    requires ReloadedFrom(reset, name, before)
    requires Some(src) in reset && Contains(name, src)
    requires after == before[Some(name) := reset[Some(src)]]
    ensures ReloadedFrom(reset, name, after) && Some(name) in after
  {
  }

  /** A reloaded map holds the keys of `reset`, and `name` besides exactly when it was loaded. */
  lemma ReloadedKeys(reset: Tables, name: string, after: Tables)
    requires ReloadedFrom(reset, name, after)
    ensures after.Keys == reset.Keys + (if Some(name) in after then {Some(name)} else {})
  {
  }

  /** Loading a name again can only throw when a key inside it is bound to null. */
  ghost predicate NullInside(reset: Tables, name: string) {
    exists k :: Some(k) in reset && Contains(name, k) && reset[Some(k)].None?
  }

  /** A key set enumerated by an order of null keys only holds no key but null. */
  lemma OnlyNullKey(order: seq<Key>, keys: set<Key>)
    requires Enumerates(order, keys) && forall j :: 0 <= j < |order| ==> order[j].None?
    ensures keys <= {None}
  {
    forall k | k in keys
      ensures k == None
    {
      assert k in order;
    }
  }

  /** When the snapshot of a key set has no non-null key inside `name`, neither has the key set, and `name` is no key. */
  lemma NothingInside(snapshot: seq<Key>, keys: set<Key>, name: string)
    requires Enumerates(snapshot, keys) && NoneInside(snapshot, name)
    ensures forall k :: Some(k) in keys ==> !Contains(name, k)
    ensures Some(name) !in keys
  {
    forall k | Some(k) in keys
      ensures !Contains(name, k)
    {
      assert Some(k) in snapshot;
    }
    ContainsSelf(name);
  }

  class TableView {
    /** The store this catalog works with (injected in the source). */
    const store: TestView

    var tables: seq<string>
    var newTableName: Option<string>
    var editedTableName: Option<string>
    var editedTableIndex: int

    ghost predicate Valid()
      reads this, store
    {
      store.Valid()
    }

    /** init: the catalog holds the three default names; nothing is staged. */
    constructor (store: TestView)
      requires store.Valid()
      ensures Valid()
      ensures this.store == store
      ensures tables == [Ankara, Istanbul, Izmir]
      ensures newTableName.None? && editedTableName.None? && editedTableIndex == -1
    {
      this.store := store;
      tables := [Ankara, Istanbul, Izmir];
      newTableName := None;
      editedTableName := None;
      editedTableIndex := -1;
    }

    /**
     * addTable: a non-null name that is not blank after trimming is appended in trimmed
     * form (duplicates are allowed) and the field is cleared; otherwise nothing changes.
     */
    method AddTable() returns (added: bool)
      modifies this`tables, this`newTableName
      ensures added <==> old(newTableName).Some? && !IsBlank(old(newTableName).value)
      ensures added ==>
        && tables == old(tables) + [Trim(old(newTableName).value)]
        && newTableName.None?
      ensures !added ==> tables == old(tables) && newTableName == old(newTableName)
    {
      added := false;
      if newTableName.Some? {
        var trimmed := Trim(newTableName.value);
        if trimmed != [] {
          tables := tables + [trimmed];
          newTableName := None;
          added := true;
        }
      }
    }

    /**
     * removeTable: a non-null name present in the catalog loses its first occurrence; a
     * null or absent name changes nothing. The store is not touched.
     */
    method RemoveTable(table: Option<string>)
      modifies this`tables
      ensures table.None? ==> tables == old(tables)
      ensures table.Some? && table.value !in old(tables) ==> tables == old(tables)
      ensures table.Some? && table.value in old(tables) ==>
        var i := IndexOf(old(tables), table.value);
        tables == old(tables)[..i] + old(tables)[i + 1..]
      ensures table.Some? ==> multiset(tables) == multiset(old(tables)) - multiset{table.value}
    {
      if table.Some? {
        RemoveFirstCounts(tables, table.value);
        if table.value in tables {
          tables := RemoveFirst(tables, table.value);
        }
      }
    }

    /**
     * prepareEditTable: stages a new name for the entry at `index` when the index is
     * non-null and inside the catalog; otherwise the staging stays as it was.
     */
    method PrepareEditTable(tableName: Option<string>, index: Option<int>)
      modifies this`editedTableName, this`editedTableIndex
      ensures index.Some? && 0 <= index.value < |tables| ==>
        editedTableName == tableName && editedTableIndex == index.value
      ensures !(index.Some? && 0 <= index.value < |tables|) ==>
        editedTableName == old(editedTableName) && editedTableIndex == old(editedTableIndex)
    {
      if index.Some? && 0 <= index.value && index.value < |tables| {
        editedTableName := tableName;
        editedTableIndex := index.value;
      }
    }

    /**
     * updateTable: resets the store's default tables, then scans a snapshot of the map and
     * finally, when the staged index is inside the catalog and the staged name is not
     * blank, renames that entry to the trimmed name and clears the staging. A null staged
     * name throws during the scan, since the reset always binds three non-null keys.
     * `ids` stand for the UUIDs of the six default records.
     */
    method UpdateTable(ids: seq<string>) returns (outcome: Outcome)
      requires Valid() && |ids| == 6
      modifies this`tables, this`editedTableName, this`editedTableIndex
      modifies store`tableData, store`currentTableData
      ensures Valid()
      ensures store.CurrentItems() == old(store.CurrentItems())
      // the current list: an alias survives only if no put rebinds its key
      ensures store.currentTableData.Alias? ==> store.currentTableData == old(store.currentTableData)
      ensures (old(store.currentTableData).Alias? &&
               (Some(old(store.currentTableData).key) in DefaultTables(ids)
                || (old(editedTableName) == Some(old(store.currentTableData).key) && outcome == Normal))) ==>
        store.currentTableData == Detached(old(store.CurrentItems()))
      ensures (old(store.currentTableData).Alias? && Some(old(store.currentTableData).key) !in DefaultTables(ids)
               && old(editedTableName) != Some(old(store.currentTableData).key)) ==>
        store.currentTableData == old(store.currentTableData)
      // the store
      ensures var reset := old(store.tableData) + DefaultTables(ids);
        && (old(editedTableName).None? ==> outcome == NullPointer && store.tableData == reset)
        && (old(editedTableName).Some? ==>
              var name := old(editedTableName).value;
              && ReloadedFrom(reset, name, store.tableData)
              && (outcome == Normal ==> (Some(name) in store.tableData <==> SomeKeyInside(reset, name)))
              && (outcome == Normal && Some(name) in store.tableData ==> store.tableData[Some(name)].Some?)
              && (outcome == NullPointer ==> NullInside(reset, name))
              && (NoNullLists(reset) ==> outcome == Normal))
      // the catalog
      ensures var renamed := outcome == Normal && 0 <= old(editedTableIndex) < |old(tables)|
                             && old(editedTableName).Some? && !IsBlank(old(editedTableName).value);
        && (renamed ==>
              && tables == old(tables)[old(editedTableIndex) := Trim(old(editedTableName).value)]
              && editedTableName.None? && editedTableIndex == -1)
        && (!renamed ==>
              tables == old(tables) && editedTableName == old(editedTableName)
              && editedTableIndex == old(editedTableIndex))
    {
      store.LoadInitialData(ids);
      var snapshot := IterationOrder(store.tableData.Keys);
      outcome := ReloadContaining(snapshot);
      if outcome == Normal {
        RenameEntry();
      }
    }

    /**
     * The loop of updateTable over the snapshot `snapshot` of the map: every non-null key that
     * occurs inside the staged name makes the store load that name again, with the order in
     * which the map, as it is by then, iterates.
     */
    method ReloadContaining(snapshot: seq<Key>) returns (outcome: Outcome)
      requires store.Valid() && Enumerates(snapshot, store.tableData.Keys)
      modifies store`tableData, store`currentTableData
      ensures store.Valid()
      ensures store.CurrentItems() == old(store.CurrentItems())
      ensures store.currentTableData.Alias? ==> store.currentTableData == old(store.currentTableData)
      ensures (old(store.currentTableData).Alias? && editedTableName == Some(old(store.currentTableData).key)
               && outcome == Normal) ==>
        store.currentTableData == Detached(old(store.CurrentItems()))
      ensures (old(store.currentTableData).Alias? && editedTableName != Some(old(store.currentTableData).key)) ==>
        store.currentTableData == old(store.currentTableData)
      ensures editedTableName.None? ==>
        store.tableData == old(store.tableData)
        && (outcome == NullPointer <==> exists k :: Some(k) in old(store.tableData))
      ensures editedTableName.Some? ==>
        var name := editedTableName.value;
        && ReloadedFrom(old(store.tableData), name, store.tableData)
        && (outcome == Normal ==> (Some(name) in store.tableData <==> SomeKeyInside(old(store.tableData), name)))
        && (outcome == Normal && Some(name) in store.tableData ==> store.tableData[Some(name)].Some?)
        && (outcome == NullPointer ==> NullInside(old(store.tableData), name))
        && (NoNullLists(old(store.tableData)) ==> outcome == Normal)
    {
      if editedTableName.None? {
        outcome := ThrowAtFirstKey(snapshot);
      } else {
        outcome := ReloadNamed(snapshot, editedTableName.value);
      }
    }

    /**
     * updateTable's loop with no staged name: `editedTableName.contains` throws at the first
     * non-null key of the snapshot, before anything is reloaded.
     */
    method ThrowAtFirstKey(snapshot: seq<Key>) returns (outcome: Outcome)
      requires Enumerates(snapshot, store.tableData.Keys)
      ensures outcome == NullPointer <==> exists k :: Some(k) in store.tableData
    {
      var i := 0;
      while i < |snapshot| && snapshot[i].None?
        invariant 0 <= i <= |snapshot|
        invariant forall j :: 0 <= j < i ==> snapshot[j].None?
      {
        i := i + 1;
      }
      if i < |snapshot| {
        assert snapshot[i] in store.tableData;
        outcome := NullPointer;
      } else {
        OnlyNullKey(snapshot, store.tableData.Keys);
        outcome := Normal;
      }
    }

    /**
     * updateTable's loop with the staged name `name`: every non-null key of the snapshot that
     * occurs inside it makes the store load `name` again.
     */
    method ReloadNamed(snapshot: seq<Key>, name: string) returns (outcome: Outcome)
      requires store.Valid() && Enumerates(snapshot, store.tableData.Keys) && editedTableName == Some(name)
      modifies store`tableData, store`currentTableData
      ensures store.Valid()
      ensures store.CurrentItems() == old(store.CurrentItems())
      ensures store.currentTableData.Alias? ==> store.currentTableData == old(store.currentTableData)
      ensures (old(store.currentTableData).Alias? && name == old(store.currentTableData).key && outcome == Normal) ==>
        store.currentTableData == Detached(old(store.CurrentItems()))
      ensures (old(store.currentTableData).Alias? && name != old(store.currentTableData).key) ==>
        store.currentTableData == old(store.currentTableData)
      ensures ReloadedFrom(old(store.tableData), name, store.tableData)
      ensures outcome == Normal ==> (Some(name) in store.tableData <==> SomeKeyInside(old(store.tableData), name))
      ensures outcome == Normal && Some(name) in store.tableData ==> store.tableData[Some(name)].Some?
      ensures outcome == NullPointer ==> NullInside(old(store.tableData), name)
      ensures NoNullLists(old(store.tableData)) ==> outcome == Normal
    {
      ghost var reset := store.tableData;
      ghost var current := store.currentTableData;
      ghost var items := store.CurrentItems();
      ghost var reloaded := false;
      outcome := Normal;
      var i := 0;
      while i < |snapshot|
        invariant 0 <= i <= |snapshot|
        invariant Reloading(snapshot[..i], name, reset, current, items, reloaded)
        invariant outcome == Normal
      {
        outcome, reloaded := ReloadTurn(snapshot[..i], snapshot[i], name, reset, current, items, reloaded);
        if outcome == NullPointer {
          return;
        }
        assert snapshot[..i + 1] == snapshot[..i] + [snapshot[i]];
        i := i + 1;
      }
      if !reloaded {
        assert snapshot[..i] == snapshot;
        NothingInside(snapshot, reset.Keys, name);
      }
    }

    /**
     * What holds of the store after the loop has visited the keys `visited` with the staged
     * name `name`, from the map `reset`, a current list `current` with contents `items`;
     * `reloaded` says whether some visited key occurred inside the name.
     */
    ghost predicate Reloading(visited: seq<Key>, name: string, reset: Tables, current: CurrentList,
                              items: seq<TestObject>, reloaded: bool)
      reads this, store
    {
      && store.Valid()
      && store.CurrentItems() == items
      && (store.currentTableData.Alias? ==> store.currentTableData == current)
      && (reloaded && current.Alias? && current.key == name ==> store.currentTableData == Detached(items))
      && (current.Alias? && current.key != name ==> store.currentTableData == current)
      && ReloadedFrom(reset, name, store.tableData)
      && (reloaded ==> SomeKeyInside(reset, name) && Some(name) in store.tableData && store.tableData[Some(name)].Some?)
      && (!reloaded ==> NoneInside(visited, name) && store.tableData == reset)
    }

    /** One turn of ReloadNamed's loop, at the key `key` after the keys `visited`. */
    method ReloadTurn(visited: seq<Key>, key: Key, name: string, ghost reset: Tables, ghost current: CurrentList,
                      ghost items: seq<TestObject>, ghost reloaded: bool) returns (outcome: Outcome, ghost reloadedNow: bool)
      requires editedTableName == Some(name) && key in reset
      requires Reloading(visited, name, reset, current, items, reloaded)
      modifies store`tableData, store`currentTableData
      ensures outcome == Normal ==> Reloading(visited + [key], name, reset, current, items, reloadedNow)
      ensures outcome == NullPointer ==>
        && store.Valid() && store.CurrentItems() == items
        && (store.currentTableData.Alias? ==> store.currentTableData == current)
        && (current.Alias? && current.key != name ==> store.currentTableData == current)
        && ReloadedFrom(reset, name, store.tableData) && NullInside(reset, name)
      ensures NoNullLists(reset) ==> outcome == Normal
    {
      outcome := Normal;
      reloadedNow := reloaded;
      if key.Some? {
        outcome := VisitKey(key.value, reset);
        if outcome == NullPointer {
          return;
        }
        reloadedNow := reloaded || Contains(name, key.value);
      }
    }

    /**
     * One turn of updateTable's loop, at a non-null key of the snapshot: when the key occurs
     * inside the staged name, the store loads that name again.
     */
    method VisitKey(key: string, ghost reset: Tables) returns (outcome: Outcome)
      requires store.Valid() && editedTableName.Some? && Some(key) in reset
      requires ReloadedFrom(reset, editedTableName.value, store.tableData)
      modifies store`tableData, store`currentTableData
      ensures store.Valid()
      ensures store.CurrentItems() == old(store.CurrentItems())
      ensures store.currentTableData ==
        if old(store.currentTableData).Alias? && editedTableName == Some(old(store.currentTableData).key)
           && Contains(editedTableName.value, key) && outcome == Normal
        then Detached(old(store.CurrentItems())) else old(store.currentTableData)
      ensures outcome == NullPointer ==>
        NullInside(reset, editedTableName.value) && store.tableData == old(store.tableData)
      ensures outcome == Normal ==>
        && ReloadedFrom(reset, editedTableName.value, store.tableData)
        && (Some(editedTableName.value) in store.tableData <==>
              Some(editedTableName.value) in old(store.tableData) || Contains(editedTableName.value, key))
        && (Contains(editedTableName.value, key) ==> store.tableData[Some(editedTableName.value)].Some?)
        && (!Contains(editedTableName.value, key) ==> store.tableData == old(store.tableData))
      ensures NoNullLists(reset) ==> outcome == Normal
    {
      var name := editedTableName.value;
      outcome := Normal;
      if Contains(name, key) {
        var live := IterationOrder(store.tableData.Keys);
        outcome := LoadAgain(name, key, live, reset);
      }
    }

    /**
     * One call of loadDataAgain from updateTable's loop: `key`, a key of the snapshot found
     * inside `name`, is still in the map, so the store finds a source and never binds null.
     */
    method LoadAgain(name: string, key: string, live: seq<Key>, ghost reset: Tables) returns (outcome: Outcome)
      requires store.Valid() && Enumerates(live, store.tableData.Keys)
      requires Some(key) in reset && Contains(name, key)
      requires ReloadedFrom(reset, name, store.tableData)
      modifies store`tableData, store`currentTableData
      ensures store.Valid()
      ensures store.CurrentItems() == old(store.CurrentItems())
      ensures store.currentTableData ==
        if old(store.currentTableData).Alias? && name == old(store.currentTableData).key && outcome == Normal
        then Detached(old(store.CurrentItems())) else old(store.currentTableData)
      ensures outcome == NullPointer ==> NullInside(reset, name) && store.tableData == old(store.tableData)
      ensures outcome == Normal ==>
        ReloadedFrom(reset, name, store.tableData) && Some(name) in store.tableData && store.tableData[Some(name)].Some?
      ensures NoNullLists(reset) ==> outcome == Normal
    {
      assert Some(key) in live;
      var source := FirstContained(live, name);
      ghost var before := store.tableData;
      ghost var src: string;
      if source.value == name {
        src :| Some(src) in reset && Contains(name, src) && before[Some(name)] == reset[Some(src)];
      } else {
        src := source.value;
      }
      assert before[source] == reset[Some(src)];
      outcome := store.LoadDataAgain(Some(name), live);
      if outcome == Normal {
        ReloadStep(reset, name, before, src, store.tableData);
      } else {
        assert reset[Some(src)].None?;
      }
    }

    /** The last step of updateTable: the staged rename of one catalog entry. */
    method RenameEntry()
      modifies this`tables, this`editedTableName, this`editedTableIndex
      ensures var renamed := 0 <= old(editedTableIndex) < |old(tables)|
                             && old(editedTableName).Some? && !IsBlank(old(editedTableName).value);
        && (renamed ==>
              && tables == old(tables)[old(editedTableIndex) := Trim(old(editedTableName).value)]
              && editedTableName.None? && editedTableIndex == -1)
        && (!renamed ==>
              tables == old(tables) && editedTableName == old(editedTableName)
              && editedTableIndex == old(editedTableIndex))
    {
      if editedTableName.Some? {
        var trimmed := Trim(editedTableName.value);
        if 0 <= editedTableIndex < |tables| && trimmed != [] {
          tables := tables[editedTableIndex := trimmed];
          editedTableName := None;
          editedTableIndex := -1;
        }
      }
    }

    /** setTables: the catalog takes the given list. */
    method SetTables(names: seq<string>)
      modifies this`tables
      ensures tables == names
    {
      tables := names;
    }

    /** setNewTableName. */
    method SetNewTableName(name: Option<string>)
      modifies this`newTableName
      ensures newTableName == name
    {
      newTableName := name;
    }

    /** setEditedTableName. */
    method SetEditedTableName(name: Option<string>)
      modifies this`editedTableName
      ensures editedTableName == name
    {
      editedTableName := name;
    }

    /** setEditedTableIndex. */
    method SetEditedTableIndex(index: int)
      modifies this`editedTableIndex
      ensures editedTableIndex == index
    {
      editedTableIndex := index;
    }
  }
}
