/**
 * The session store of music tables: a map from table name to a list of records, the
 * selected table, the working list, a staged new record and an edit cursor.
 *
 * Two things about the source's object graph are kept explicit:
 *  - the list `currentTableData` is sometimes the very list object stored in the map and
 *    sometimes a list of its own (`CurrentList`); changing a list in place is seen through
 *    both names, while `put` binds a fresh list object and leaves the old one detached;
 *  - the map is a HashMap: null is a legal key, iteration order is unspecified, and the
 *    case-insensitive stream lookups dereference every key they meet. Methods that iterate
 *    take the iteration order as a parameter and report a NullPointerException as an Outcome.
 */
module TestViews {
  import opened Common
  import opened TestObjects

  /** A key of the table map: a table name, or null. */
  type Key = Option<string>

  /** The table map: each key is bound to a list of records, or to null. */
  type Tables = map<Key, Option<seq<TestObject>>>

  /** What the field currentTableData refers to. */
  datatype CurrentList =
    | Alias(key: string)               // the list object bound to this key in the map
    | Detached(items: seq<TestObject>) // a list object the map does not hold

  const Ankara := "Ankara"
  const Istanbul := "İstanbul"
  const Izmir := "İzmir"

  /** The three tables loadInitialData binds, each to a fresh list of two records. */
  function DefaultTables(ids: seq<string>): (m: Tables)
    requires |ids| == 6
    ensures m.Keys == {Some(Ankara), Some(Istanbul), Some(Izmir)}
    ensures forall k :: k in m ==> m[k].Some? && |m[k].value| == 2
  {
    map[
      Some(Ankara) := Some([
        Create(ids[0], Some("Samet Ege"), Some("AŞIK"), Some("Master of Puppets"), Some("Metallica"), Some(1986)),
        Create(ids[1], Some("Ahmet"), Some("YILMAZ"), Some("Soldier of Fortune"), Some("Deep Purple"), Some(1974))]),
      Some(Istanbul) := Some([
        Create(ids[2], Some("Ali"), Some("VELİ"), Some("Shape of You"), Some("Ed Sheeran"), Some(2017)),
        Create(ids[3], Some("Zeynep"), Some("ÇINAR"), Some("Blinding Lights"), Some("The Weeknd"), Some(2019))]),
      Some(Izmir) := Some([
        Create(ids[4], Some("Elif"), Some("KAYA"), Some("Hallelujah"), Some("Leonard Cohen"), Some(1984)),
        Create(ids[5], Some("Burak"), Some("ÖZTÜRK"), Some("Rolling in the Deep"), Some("Adele"), Some(2010))])
    ]
  }

  /** Every default record passes isValid. */
  lemma DefaultRecordsValid(ids: seq<string>)
    requires |ids| == 6
    ensures forall k, i :: k in DefaultTables(ids) && 0 <= i < 2 ==> DefaultTables(ids)[k].value[i].IsValid()
  {
  }

  /** No key is bound to null. */
  ghost predicate NoNullLists(m: Tables) {
    forall k :: k in m ==> m[k].Some?
  }

  /** String.equalsIgnoreCase is at least reflexive; its case folding is left abstract. */
  ghost predicate Reflexive(same: (string, string) -> bool) {
    forall s :: same(s, s)
  }

  /** `key.equalsIgnoreCase(name)` for a non-null key: false when name is null. */
  predicate Matches(same: (string, string) -> bool, key: string, name: Option<string>) {
    name.Some? && same(key, name.value)
  }

  /** None of the keys in `prefix` stops a case-insensitive scan for `name`: each is non-null and does not match. */
  predicate ScanPasses(prefix: seq<Key>, same: (string, string) -> bool, name: Option<string>) {
    forall j :: 0 <= j < |prefix| ==> prefix[j].Some? && !Matches(same, prefix[j].value, name)
  }

  /** Where a case-insensitive scan of the keys, in iteration order, stops. */
  datatype Scan =
    | Hit(key: string) // the first key that matches
    | Miss             // no key matches, and there is no null key
    | NullKeyHit       // the null key comes before any match: equalsIgnoreCase throws

  /** The keys of the map in iteration order, tested with `key.equalsIgnoreCase(name)`. */
  function ScanIgnoreCase(order: seq<Key>, name: Option<string>, same: (string, string) -> bool): (r: Scan)
    ensures r.Hit? ==> Some(r.key) in order && Matches(same, r.key, name)
    ensures r.NullKeyHit? ==> None in order
    ensures r.Miss? <==> None !in order && forall k :: Some(k) in order ==> !Matches(same, k, name)
    // the scan stops at the first key that is null or matches
    ensures forall i :: 0 <= i < |order| && ScanPasses(order[..i], same, name) && order[i].None? ==>
      r == NullKeyHit
    ensures forall i :: 0 <= i < |order| && ScanPasses(order[..i], same, name) && order[i].Some? && Matches(same, order[i].value, name) ==>
      r == Hit(order[i].value)
  {
    if order == [] then Miss
    else if order[0].None? then NullKeyHit
    else if Matches(same, order[0].value, name) then Hit(order[0].value)
    else
      var r := ScanIgnoreCase(order[1..], name, same);
      assert order == [order[0]] + order[1..];
      assert forall i :: 0 < i < |order| && ScanPasses(order[..i], same, name) ==>
        ScanPasses(order[1..][..i - 1], same, name) && order[1..][i - 1] == order[i] by {
        forall i | 0 < i < |order| && ScanPasses(order[..i], same, name)
          ensures ScanPasses(order[1..][..i - 1], same, name)
        {
          assert order[1..][..i - 1] == order[..i][1..];
        }
      }
      r
  }

  /**
   * The stream `filter(key equalsIgnoreCase name).map(getValue).findFirst().orElse(new list)`:
   * the matching key's own list object, or a fresh empty list when nothing matches. A null key
   * met before a match, or a match bound to null, makes it throw.
   */
  function MatchingList(same: (string, string) -> bool, tables: Tables, name: Option<string>, order: seq<Key>): (r: Result<CurrentList>)
    requires Enumerates(order, tables.Keys)
    ensures r.Returned? && r.value.Alias? ==>
      Some(r.value.key) in tables && tables[Some(r.value.key)].Some? && Matches(same, r.value.key, name)
    ensures r.Returned? && r.value.Detached? ==> r.value.items == []
    ensures r == Returned(Detached([])) <==>
      None !in tables && forall k :: Some(k) in tables ==> !Matches(same, k, name)
    ensures r.ThrewNullPointer? ==>
      None in tables || exists k :: Some(k) in tables && tables[Some(k)].None? && Matches(same, k, name)
    // the first key that is null or matches decides the outcome
    ensures forall i :: 0 <= i < |order| && ScanPasses(order[..i], same, name) && order[i].None? ==>
      r == ThrewNullPointer
    ensures forall i :: 0 <= i < |order| && ScanPasses(order[..i], same, name) && order[i].Some? && Matches(same, order[i].value, name) ==>
      order[i] in tables && r == if tables[order[i]].Some? then Returned(Alias(order[i].value)) else ThrewNullPointer
  {
    match ScanIgnoreCase(order, name, same)
    case NullKeyHit => ThrewNullPointer
    case Miss => Returned(Detached([]))
    case Hit(k) => if tables[Some(k)].None? then ThrewNullPointer else Returned(Alias(k))
  }

  /** What updateCurrentTableData makes of currentTableData, or that it throws. */
  function Refresh(same: (string, string) -> bool, tables: Tables, selected: Option<string>, order: seq<Key>): (r: Result<CurrentList>)
    requires Enumerates(order, tables.Keys)
    ensures r.Returned? && r.value.Alias? ==>
      Some(r.value.key) in tables && tables[Some(r.value.key)].Some? && Matches(same, r.value.key, selected)
    ensures r.Returned? && r.value.Detached? ==> r.value.items == []
    ensures r.ThrewNullPointer? ==> selected.Some?
    ensures selected.None? ==> r == Returned(Detached([]))
    ensures selected.Some? ==>
      (r == Returned(Detached([])) <==> None !in tables && forall k :: Some(k) in tables ==> !Matches(same, k, selected))
    // with a selection, the first key that is null or matches decides the outcome
    ensures forall i :: 0 <= i < |order| && selected.Some? && ScanPasses(order[..i], same, selected) && order[i].None? ==>
      r == ThrewNullPointer
    ensures forall i :: 0 <= i < |order| && ScanPasses(order[..i], same, selected) && order[i].Some? && Matches(same, order[i].value, selected) ==>
      order[i] in tables && r == if tables[order[i]].Some? then Returned(Alias(order[i].value)) else ThrewNullPointer
  {
    if selected.None? then Returned(Detached([])) else MatchingList(same, tables, selected, order)
  }

  /**
   * Refreshing with a selected name that is itself a key never falls back to an empty list:
   * the name matches its own key. Without a null key or a null list it cannot throw.
   */
  lemma RefreshFindsKey(same: (string, string) -> bool, tables: Tables, name: string, order: seq<Key>)
    requires Reflexive(same) && Enumerates(order, tables.Keys) && Some(name) in tables
    ensures var r := Refresh(same, tables, Some(name), order);
      && (r.Returned? ==> r.value.Alias? && same(r.value.key, name))
      && (None !in tables && NoNullLists(tables) ==> r.Returned?)
  {
    assert Matches(same, name, Some(name));
  }

  /** No key of `prefix` is a non-null key that occurs inside `name`. */
  predicate NoneInside(prefix: seq<Key>, name: string) {
    forall j :: 0 <= j < |prefix| ==> !(prefix[j].Some? && Contains(name, prefix[j].value))
  }

  /** The first non-null key, in iteration order, that occurs inside `name`. */
  function FirstContained(order: seq<Key>, name: string): (r: Option<string>)
    ensures r.Some? ==> Some(r.value) in order && Contains(name, r.value)
    ensures r.None? <==> forall k :: Some(k) in order ==> !Contains(name, k)
    ensures forall i :: 0 <= i < |order| && NoneInside(order[..i], name) && order[i].Some? && Contains(name, order[i].value) ==>
      r == order[i]
  {
    if order == [] then None
    else if order[0].Some? && Contains(name, order[0].value) then order[0]
    else
      var r := FirstContained(order[1..], name);
      assert order == [order[0]] + order[1..];
      assert forall i :: 0 < i < |order| && NoneInside(order[..i], name) ==>
        NoneInside(order[1..][..i - 1], name) && order[1..][i - 1] == order[i] by {
        forall i | 0 < i < |order| && NoneInside(order[..i], name)
          ensures NoneInside(order[1..][..i - 1], name)
        {
          assert order[1..][..i - 1] == order[..i][1..];
        }
      }
      r
  }

  /** The list computeIfAbsent(key, new list) yields: the bound list, or a fresh empty one. */
  function ListOrEmpty(m: Tables, key: Key): seq<TestObject> {
    if key in m && m[key].Some? then m[key].value else []
  }

  /** Binding the three keys of `d` one after the other merges `d` into `m`. */
  lemma PutThree<K, V>(m: map<K, V>, d: map<K, V>, a: K, b: K, c: K)
    requires d.Keys == {a, b, c}
    ensures m[a := d[a]][b := d[b]][c := d[c]] == m + d
  {
  }

  class TestView {
    /** String.equalsIgnoreCase, with its case folding left abstract. */
    const sameIgnoringCase: (string, string) -> bool

    var tableData: Tables
    var selectedTable: Option<string>
    var currentTableData: CurrentList
    var newTableName: Option<string>
    var isEditing: bool
    var editingIndex: int
    var editedItem: Option<TestObject>
    var newItem: Option<TestObject>

    /** currentTableData, when it is a list of the map, is one bound under a non-null key. */
    ghost predicate Valid()
      reads this
    {
      && Reflexive(sameIgnoringCase)
      && (currentTableData.Alias? ==>
            Some(currentTableData.key) in tableData && tableData[Some(currentTableData.key)].Some?)
    }

    /** The records of the list currentTableData refers to. */
    function CurrentItems(): seq<TestObject>
      reads this
      requires Valid()
    {
      match currentTableData
      case Alias(k) => tableData[Some(k)].value
      case Detached(items) => items
    }

    /** The map once the list currentTableData refers to has been given `items` in place. */
    function WrittenThrough(items: seq<TestObject>): (m: Tables)
      reads this
      requires Valid()
      ensures m.Keys == tableData.Keys
      ensures forall k :: k in m && !(currentTableData.Alias? && k == Some(currentTableData.key)) ==> m[k] == tableData[k]
      ensures currentTableData.Alias? ==> m[Some(currentTableData.key)] == Some(items)
    {
      if currentTableData.Alias? then tableData[Some(currentTableData.key) := Some(items)] else tableData
    }

    /**
     * init: the three default tables, a blank staged record, and the requested table (a
     * request parameter in the source) as the selection. `ids` stand for the UUIDs of the six
     * default records.
     */
    constructor (sameIgnoringCase: (string, string) -> bool, requestedTable: Option<string>, ids: seq<string>)
      requires Reflexive(sameIgnoringCase) && |ids| == 6
      ensures Valid()
      ensures this.sameIgnoringCase == sameIgnoringCase
      ensures tableData == DefaultTables(ids)
      ensures selectedTable == requestedTable
      ensures currentTableData ==
        if requestedTable.Some? && requestedTable.value != "" && requestedTable in tableData
        then Alias(requestedTable.value) else Detached([])
      ensures newItem == Some(Blank()) && editedItem.None? && newTableName.None?
      ensures !isEditing && editingIndex == 0
    {
      this.sameIgnoringCase := sameIgnoringCase;
      tableData := map[];
      selectedTable := None;
      currentTableData := Detached([]);
      newTableName := None;
      isEditing := false;
      editingIndex := 0;
      editedItem := None;
      newItem := Some(Blank());
      new;
      LoadInitialData(ids);
      assert tableData == DefaultTables(ids);
      SelectRequested(requestedTable);
    }

    /**
     * The end of init: the requested table becomes the selection, and currentTableData the
     * very list bound to it when it is a non-empty name with a non-null list, else a new
     * empty list.
     */
    method SelectRequested(requestedTable: Option<string>)
      requires Valid() && NoNullLists(tableData)
      modifies this`selectedTable, this`currentTableData
      ensures Valid()
      ensures selectedTable == requestedTable
      ensures currentTableData ==
        if requestedTable.Some? && requestedTable.value != "" && requestedTable in tableData
        then Alias(requestedTable.value) else Detached([])
    {
      selectedTable := requestedTable;
      if requestedTable.Some? && requestedTable.value != "" && requestedTable in tableData {
        currentTableData := Alias(requestedTable.value);
      } else {
        currentTableData := Detached([]);
      }
    }

    /**
     * HashMap.put: binds `key` to a new list object (or null). A currentTableData that was the
     * key's old list keeps that list, which the map no longer holds.
     */
    method Put(key: Key, value: Option<seq<TestObject>>)
      requires Valid()
      modifies this`tableData, this`currentTableData
      ensures Valid()
      ensures tableData == old(tableData)[key := value]
      ensures CurrentItems() == old(CurrentItems())
      ensures currentTableData ==
        if old(currentTableData).Alias? && key == Some(old(currentTableData).key)
        then Detached(old(CurrentItems())) else old(currentTableData)
    {
      if currentTableData.Alias? && key == Some(currentTableData.key) {
        currentTableData := Detached(CurrentItems());
      }
      tableData := tableData[key := value];
    }

    /** Gives the list currentTableData refers to new contents in place (add, set). */
    method WriteCurrent(items: seq<TestObject>)
      requires Valid()
      modifies this`tableData, this`currentTableData
      ensures Valid()
      ensures CurrentItems() == items
      ensures tableData == old(WrittenThrough(items))
      ensures currentTableData == if old(currentTableData).Alias? then old(currentTableData) else Detached(items)
    {
      if currentTableData.Alias? {
        tableData := tableData[Some(currentTableData.key) := Some(items)];
      } else {
        currentTableData := Detached(items);
      }
    }

    /**
     * loadInitialData: binds the three default names to fresh lists, whatever they held;
     * every other key keeps its list.
     */
    method LoadInitialData(ids: seq<string>)
      requires Valid() && |ids| == 6
      modifies this`tableData, this`currentTableData
      ensures Valid()
      ensures tableData == old(tableData) + DefaultTables(ids)
      ensures forall k :: k in old(tableData) && k !in DefaultTables(ids) ==> tableData[k] == old(tableData)[k]
      ensures CurrentItems() == old(CurrentItems())
      ensures currentTableData.Alias? ==>
        currentTableData == old(currentTableData) && Some(currentTableData.key) !in DefaultTables(ids)
      ensures currentTableData ==
        if old(currentTableData).Alias? && Some(old(currentTableData).key) in DefaultTables(ids)
        then Detached(old(CurrentItems())) else old(currentTableData)
    {
      var defaults := DefaultTables(ids);
      Put(Some(Ankara), defaults[Some(Ankara)]);
      Put(Some(Istanbul), defaults[Some(Istanbul)]);
      Put(Some(Izmir), defaults[Some(Izmir)]);
      PutThree(old(tableData), defaults, Some(Ankara), Some(Istanbul), Some(Izmir));
    }

    /**
     * loadDataAgain: binds `tableName` to a copy of the list of the first key, in iteration
     * order, that occurs inside `tableName`, or to null when no key does. Copying a null list
     * throws.
     */
    method LoadDataAgain(tableName: Option<string>, order: seq<Key>) returns (outcome: Outcome)
      requires Valid() && Enumerates(order, tableData.Keys)
      modifies this`tableData, this`currentTableData
      ensures Valid()
      ensures CurrentItems() == old(CurrentItems())
      // every put binds a new list object, so an alias of the rebound key is left detached
      ensures currentTableData ==
        if old(currentTableData).Alias? && tableName == Some(old(currentTableData).key) && outcome == Normal
        then Detached(old(CurrentItems())) else old(currentTableData)
      ensures tableName.None? ==> outcome == Normal && tableData == old(tableData)
      ensures tableName.Some? ==>
        var source := FirstContained(order, tableName.value);
        if source.None? then
          outcome == Normal && tableData == old(tableData)[tableName := None]
        else if old(tableData)[Some(source.value)].None? then
          outcome == NullPointer && tableData == old(tableData)
        else
          outcome == Normal && tableData == old(tableData)[tableName := old(tableData)[Some(source.value)]]
    {
      outcome := Normal;
      if tableName.None? {
        return;
      }
      var name := tableName.value;
      // The for loop over entrySet(): stop at the first non-null key inside the name.
      var i := 0;
      while i < |order| && !(order[i].Some? && Contains(name, order[i].value))
        invariant 0 <= i <= |order|
        invariant FirstContained(order, name) == FirstContained(order[i..], name)
      {
        assert order[i..][1..] == order[i + 1..];
        i := i + 1;
      }
      if i == |order| {
        Put(tableName, None);
      } else {
        var list := tableData[order[i]];
        if list.None? {
          return NullPointer;
        }
        Put(tableName, list);
      }
    }

    /**
     * isSelectedTableExists: whether some key equals the selected table ignoring case. The scan
     * throws if it meets the null key first.
     */
    function IsSelectedTableExists(order: seq<Key>): (r: Result<bool>)
      reads this
      requires Enumerates(order, tableData.Keys)
      ensures r.ThrewNullPointer? ==> None in tableData
      ensures r == Returned(true) ==>
        exists k :: Some(k) in tableData && Matches(sameIgnoringCase, k, selectedTable)
      ensures r == Returned(false) <==>
        None !in tableData && forall k :: Some(k) in tableData ==> !Matches(sameIgnoringCase, k, selectedTable)
      // anyMatch stops at the first key that is null or matches
      ensures forall i :: 0 <= i < |order| && ScanPasses(order[..i], sameIgnoringCase, selectedTable) && order[i].None? ==>
        r == ThrewNullPointer
      ensures forall i :: 0 <= i < |order| && ScanPasses(order[..i], sameIgnoringCase, selectedTable) && order[i].Some? && Matches(sameIgnoringCase, order[i].value, selectedTable) ==>
        r == Returned(true)
    {
      match ScanIgnoreCase(order, selectedTable, sameIgnoringCase)
      case NullKeyHit => ThrewNullPointer
      case Miss => Returned(false)
      case Hit(_) => Returned(true)
    }

    /**
     * selectTable: tests the selection as it was BEFORE the call; only if that one exists is
     * `tableName` selected and its list looked up; otherwise currentTableData becomes a fresh
     * empty list and the selection stays.
     */
    method SelectTable(tableName: Option<string>, order: seq<Key>) returns (outcome: Outcome)
      requires Valid() && Enumerates(order, tableData.Keys)
      modifies this`selectedTable, this`currentTableData
      ensures Valid()
      ensures var before := old(IsSelectedTableExists(order));
        && (before.ThrewNullPointer? ==>
              outcome == NullPointer && selectedTable == old(selectedTable) && currentTableData == old(currentTableData))
        && (before == Returned(false) ==>
              outcome == Normal && selectedTable == old(selectedTable) && currentTableData == Detached([]))
        && (before == Returned(true) ==>
              var r := MatchingList(sameIgnoringCase, tableData, tableName, order);
              && selectedTable == tableName
              && outcome == OutcomeOf(r)
              && currentTableData == if r.Returned? then r.value else old(currentTableData))
    {
      var before := IsSelectedTableExists(order);
      if before.ThrewNullPointer? {
        return NullPointer;
      }
      if before.value {
        selectedTable := tableName;
        var r := MatchingList(sameIgnoringCase, tableData, selectedTable, order);
        if r.ThrewNullPointer? {
          return NullPointer;
        }
        currentTableData := r.value;
        outcome := UpdateCurrentTableData(order);
      } else {
        currentTableData := Detached([]);
        outcome := Normal;
      }
    }

    /**
     * updateCurrentTableData: with a selection whose key exists ignoring case, currentTableData
     * becomes the first matching key's own list; otherwise a fresh empty list.
     */
    method UpdateCurrentTableData(order: seq<Key>) returns (outcome: Outcome)
      requires Valid() && Enumerates(order, tableData.Keys)
      modifies this`currentTableData
      ensures Valid()
      ensures var r := Refresh(sameIgnoringCase, tableData, selectedTable, order);
        && outcome == OutcomeOf(r)
        && currentTableData == if r.Returned? then r.value else old(currentTableData)
    {
      // isSelectedTableExists() and the stream after it scan the same keys in the same order,
      // so one scan decides both.
      if selectedTable.Some? {
        var r := MatchingList(sameIgnoringCase, tableData, selectedTable, order);
        if r.ThrewNullPointer? {
          return NullPointer;
        }
        currentTableData := r.value;
        return Normal;
      }
      currentTableData := Detached([]);
      outcome := Normal;
    }

    /**
     * saveEditItem: with a staged edit and an index inside the current list, copies the five
     * data fields of the staged record onto the element at that index (which keeps its id)
     * and closes the edit; otherwise changes nothing.
     */
    method SaveEditItem() returns (accepted: bool)
      requires Valid()
      modifies this`tableData, this`currentTableData, this`isEditing, this`editedItem, this`editingIndex
      ensures Valid()
      ensures accepted <==> old(editedItem).Some? && 0 <= old(editingIndex) < |old(CurrentItems())|
      ensures accepted ==>
        var i := old(editingIndex);
        && |CurrentItems()| == |old(CurrentItems())|
        && CurrentItems()[i].id == old(CurrentItems())[i].id
        && CurrentItems()[i].Fields() == old(editedItem).value.Fields()
        && (forall j :: 0 <= j < |CurrentItems()| && j != i ==> CurrentItems()[j] == old(CurrentItems())[j])
        && (var now := CurrentItems(); tableData == old(WrittenThrough(now)))
        && !isEditing && editedItem.None? && editingIndex == -1
      ensures currentTableData == if old(currentTableData).Alias? then old(currentTableData) else Detached(CurrentItems())
      ensures !accepted ==>
        && tableData == old(tableData) && currentTableData == old(currentTableData)
        && isEditing == old(isEditing) && editedItem == old(editedItem) && editingIndex == old(editingIndex)
    {
      if editedItem.Some? && 0 <= editingIndex < |CurrentItems()| {
        var items := CurrentItems();
        WriteCurrent(items[editingIndex := Overwrite(items[editingIndex], editedItem.value)]);
        isEditing := false;
        editedItem := None;
        editingIndex := -1;
        accepted := true;
      } else {
        accepted := false;
      }
    }

    /**
     * saveNewItem: a non-null, valid staged record is appended to the list currentTableData
     * refers to, and a blank record is staged; otherwise nothing changes.
     */
    method SaveNewItem() returns (accepted: bool)
      requires Valid()
      modifies this`tableData, this`currentTableData, this`newItem
      ensures Valid()
      ensures accepted <==> old(newItem).Some? && old(newItem).value.IsValid()
      ensures accepted ==>
        && CurrentItems() == old(CurrentItems()) + [old(newItem).value]
        && (var now := CurrentItems(); tableData == old(WrittenThrough(now)))
        && newItem == Some(Blank())
      ensures currentTableData == if old(currentTableData).Alias? then old(currentTableData) else Detached(CurrentItems())
      ensures !accepted ==>
        tableData == old(tableData) && currentTableData == old(currentTableData) && newItem == old(newItem)
    {
      if newItem.Some? && IsNewItemValid(newItem.value) {
        WriteCurrent(CurrentItems() + [newItem.value]);
        newItem := Some(Blank());
        accepted := true;
      } else {
        accepted := false;
      }
    }

    /** isNewItemValid: the completeness test, written out field by field. */
    function IsNewItemValid(item: TestObject): (valid: bool)
      ensures valid == item.IsValid()
    {
      && item.firstName.Some? && item.firstName.value != ""
      && item.lastName.Some? && item.lastName.value != ""
      && item.song.Some? && item.song.value != ""
      && item.artist.Some? && item.artist.value != ""
      && item.released.Some?
    }

    /**
     * getCurrentTableData: the list bound to the selected table by exact key; a missing or
     * null binding is first replaced by a fresh empty list (a null selection included).
     */
    method GetCurrentTableData() returns (items: seq<TestObject>)
      requires Valid()
      modifies this`tableData
      ensures Valid()
      ensures items == ListOrEmpty(old(tableData), selectedTable)
      ensures tableData == old(tableData)[selectedTable := Some(items)]
      ensures CurrentItems() == old(CurrentItems())
    {
      if selectedTable in tableData && tableData[selectedTable].Some? {
        items := tableData[selectedTable].value;
      } else {
        // computeIfAbsent binds a fresh list; currentTableData cannot be the old binding,
        // which is missing or null.
        items := [];
        tableData := tableData[selectedTable := Some(items)];
      }
    }

    /**
     * Gives the list bound to the selected table, which exists, new contents in place;
     * currentTableData sees the change only when it is that very list.
     */
    method ChangeSelectedList(items: seq<TestObject>)
      requires Valid() && selectedTable in tableData && tableData[selectedTable].Some?
      modifies this`tableData
      ensures Valid()
      ensures tableData == old(tableData)[selectedTable := Some(items)]
      ensures !(currentTableData.Alias? && selectedTable == Some(currentTableData.key)) ==>
        CurrentItems() == old(CurrentItems())
    {
      tableData := tableData[selectedTable := Some(items)];
    }

    /**
     * deleteItem: removes the first element equal to `item` from the list bound to the selected
     * table by exact key (created empty if missing). currentTableData sees the removal only
     * when it is that very list.
     */
    method DeleteItem(item: Option<TestObject>)
      requires Valid()
      modifies this`tableData
      ensures Valid()
      ensures item.None? ==>
        tableData == old(tableData)[selectedTable := Some(ListOrEmpty(old(tableData), selectedTable))]
      ensures item.Some? ==>
        tableData == old(tableData)[selectedTable := Some(RemoveFirst(ListOrEmpty(old(tableData), selectedTable), item.value))]
      ensures !(currentTableData.Alias? && selectedTable == Some(currentTableData.key)) ==>
        CurrentItems() == old(CurrentItems())
    {
      var list := GetCurrentTableData();
      if item.Some? {
        var rest := RemoveFirst(list, item.value);
        ChangeSelectedList(rest);
      }
    }

    /**
     * editItem: stages a copy of `item` under a fresh id (`freshId` stands for the UUID),
     * records the index of the first element equal to `item` in the current list (-1 when
     * there is none) and starts editing. A null item changes nothing. The source also tests
     * that currentTableData is not null, which it never is here.
     */
    method EditItem(item: Option<TestObject>, freshId: string)
      requires Valid()
      modifies this`editedItem, this`editingIndex, this`isEditing
      ensures item.None? ==>
        editedItem == old(editedItem) && editingIndex == old(editingIndex) && isEditing == old(isEditing)
      ensures item.Some? ==>
        && editedItem.Some? && editedItem.value.id == Some(freshId)
        && editedItem.value.Fields() == item.value.Fields()
        && editingIndex == IndexOf(CurrentItems(), item.value)
        && isEditing
    {
      if item.Some? {
        var it := item.value;
        editedItem := Some(Create(freshId, it.firstName, it.lastName, it.song, it.artist, it.released));
        editingIndex := IndexOf(CurrentItems(), it);
        isEditing := true;
      }
    }

    /** prepareEdit: editItem without the test on currentTableData, which is never null. */
    method PrepareEdit(item: Option<TestObject>, freshId: string)
      requires Valid()
      modifies this`editedItem, this`editingIndex, this`isEditing
      ensures item.None? ==>
        editedItem == old(editedItem) && editingIndex == old(editingIndex) && isEditing == old(isEditing)
      ensures item.Some? ==>
        && editedItem.Some? && editedItem.value.id == Some(freshId)
        && editedItem.value.Fields() == item.value.Fields()
        && editingIndex == IndexOf(CurrentItems(), item.value)
        && isEditing
    {
      EditItem(item, freshId);
    }

    /** getEditedItem: stages a blank record first when none is staged. */
    method GetEditedItem() returns (item: TestObject)
      modifies this`editedItem
      ensures item == if old(editedItem).Some? then old(editedItem).value else Blank()
      ensures editedItem == Some(item)
    {
      if editedItem.None? {
        editedItem := Some(Blank());
      }
      item := editedItem.value;
    }

    /**
     * The accepted branch of addNewTable: binds the staged name to a fresh empty list,
     * selects it and refreshes the current list, which then is the list of a key matching
     * the name, unless the refresh throws.
     */
    method OpenNewTable(order: seq<Key>) returns (outcome: Outcome)
      requires Valid() && newTableName.Some? && newTableName !in tableData
      requires Enumerates(order, tableData.Keys + {newTableName})
      modifies this`tableData, this`selectedTable, this`currentTableData
      ensures Valid()
      ensures tableData == old(tableData)[newTableName := Some([])]
      ensures selectedTable == newTableName
      ensures var r := Refresh(sameIgnoringCase, tableData, selectedTable, order);
        && outcome == OutcomeOf(r)
        && currentTableData == if r.Returned? then r.value else old(currentTableData)
      ensures outcome == Normal ==>
        currentTableData.Alias? && sameIgnoringCase(currentTableData.key, newTableName.value)
      ensures None !in old(tableData) && NoNullLists(old(tableData)) ==> outcome == Normal
    {
      Put(newTableName, Some([]));
      selectedTable := newTableName;
      RefreshFindsKey(sameIgnoringCase, tableData, selectedTable.value, order);
      outcome := UpdateCurrentTableData(order);
    }

    /**
     * addNewTable: a non-blank name that is not already an exact key is bound to a fresh empty
     * list, selected, and the current list refreshed. The name field is cleared afterwards
     * unless the refresh throws. `order` is the iteration order of the map with the new key.
     */
    method AddNewTable(order: seq<Key>) returns (outcome: Outcome, accepted: bool)
      requires Valid() && Enumerates(order, tableData.Keys + {newTableName})
      modifies this`tableData, this`selectedTable, this`currentTableData, this`newTableName
      ensures Valid()
      ensures accepted <==>
        old(newTableName).Some? && !IsBlank(old(newTableName).value) && old(newTableName) !in old(tableData)
      ensures !accepted ==>
        && outcome == Normal && tableData == old(tableData)
        && selectedTable == old(selectedTable) && currentTableData == old(currentTableData)
      ensures accepted ==>
        && tableData == old(tableData)[old(newTableName) := Some([])]
        && selectedTable == old(newTableName)
        && var r := Refresh(sameIgnoringCase, tableData, selectedTable, order);
           && outcome == OutcomeOf(r)
           && currentTableData == if r.Returned? then r.value else old(currentTableData)
      ensures accepted && outcome == Normal ==>
        currentTableData.Alias? && sameIgnoringCase(currentTableData.key, old(newTableName).value)
      ensures accepted && None !in old(tableData) && NoNullLists(old(tableData)) ==> outcome == Normal
      ensures newTableName == if outcome == Normal then Some("") else old(newTableName)
    {
      outcome := Normal;
      if newTableName.Some? && Trim(newTableName.value) != [] && newTableName !in tableData {
        outcome := OpenNewTable(order);
        accepted := true;
        if outcome == NullPointer {
          return;
        }
      } else {
        accepted := false;
      }
      newTableName := Some("");
    }

    /**
     * updateItem: with a staged record, an index inside the current list and a valid staged
     * record, the element at the index is replaced by the staged record itself (its id
     * included) and the current list refreshed; the staging is reset unless the refresh
     * throws. Otherwise nothing changes.
     */
    method UpdateItem(order: seq<Key>) returns (outcome: Outcome, accepted: bool)
      requires Valid() && Enumerates(order, tableData.Keys)
      modifies this`tableData, this`currentTableData, this`editedItem, this`editingIndex
      ensures Valid()
      ensures tableData.Keys == old(tableData).Keys
      ensures accepted <==>
        && old(editedItem).Some? && 0 <= old(editingIndex) < |old(CurrentItems())|
        && old(editedItem).value.IsValid()
      ensures !accepted ==>
        && outcome == Normal && tableData == old(tableData) && currentTableData == old(currentTableData)
        && editedItem == old(editedItem) && editingIndex == old(editingIndex)
      ensures accepted ==>
        var written := old(CurrentItems())[old(editingIndex) := old(editedItem).value];
        && |written| == |old(CurrentItems())|
        && tableData == old(WrittenThrough(written))
        && var r := Refresh(sameIgnoringCase, tableData, selectedTable, order);
           && outcome == OutcomeOf(r)
           && currentTableData ==
                if r.Returned? then r.value
                else if old(currentTableData).Alias? then old(currentTableData) else Detached(written)
      ensures accepted && outcome == Normal ==> editedItem == Some(Blank()) && editingIndex == -1
      ensures outcome == NullPointer ==> editedItem == old(editedItem) && editingIndex == old(editingIndex)
    {
      if editedItem.None? || editingIndex < 0 || editingIndex >= |CurrentItems()| {
        return Normal, false;
      }
      if !editedItem.value.IsValid() {
        return Normal, false;
      }
      WriteCurrent(CurrentItems()[editingIndex := editedItem.value]);
      accepted := true;
      outcome := UpdateCurrentTableData(order);
      if outcome == NullPointer {
        return;
      }
      editedItem := Some(Blank());
      editingIndex := -1;
    }

    /** isEditedItemValid: a staged edit that passes the completeness test, written out. */
    function IsEditedItemValid(): (valid: bool)
      reads this
      ensures valid <==> editedItem.Some? && editedItem.value.IsValid()
    {
      && editedItem.Some?
      && editedItem.value.firstName.Some? && editedItem.value.firstName.value != ""
      && editedItem.value.lastName.Some? && editedItem.value.lastName.value != ""
      && editedItem.value.song.Some? && editedItem.value.song.value != ""
      && editedItem.value.artist.Some? && editedItem.value.artist.value != ""
      && editedItem.value.released.Some?
    }

    /** setNewItem: the record the form fills in. */
    method SetNewItem(item: Option<TestObject>)
      modifies this`newItem
      ensures newItem == item
    {
      newItem := item;
    }

    /** setEditedItem. */
    method SetEditedItem(item: Option<TestObject>)
      modifies this`editedItem
      ensures editedItem == item
    {
      editedItem := item;
    }

    /** setNewTableName. */
    method SetNewTableName(name: Option<string>)
      modifies this`newTableName
      ensures newTableName == name
    {
      newTableName := name;
    }
  }
}
