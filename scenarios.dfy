/**
 * Short sessions against the store and the catalog, each fixing one behaviour of the
 * source that the single-operation contracts only imply: the edit round trip, deleting
 * twice, the selection test that looks at the previous selection, and what a rename
 * leaves in the store.
 */
module Scenarios {
  import opened Common
  import opened TestObjects
  import opened TestViews
  import opened TableViews

  /** ASCII case folding: a concrete instance of equalsIgnoreCase on plain Latin names. */
  function Lower(c: char): char {
    if 'A' <= c <= 'Z' then (c as int + 32) as char else c
  }

  predicate SameAscii(a: string, b: string) {
    |a| == |b| && forall i :: 0 <= i < |a| ==> Lower(a[i]) == Lower(b[i])
  }

  /** A record every isValid test accepts; its id is null, as for records the form creates. */
  function FormRecord(): (r: TestObject)
    ensures r.id.None? && r.IsValid()
  {
    TestObject(None, Some("Kemal"), Some("SUNAL"), Some("Yesterday"), Some("The Beatles"), Some(1965))
  }

  /**
   * Writing back the very list currentTableData refers to changes nothing in the map.
   */
  lemma WriteBackSame(v: TestView)
    requires v.Valid()
    ensures v.WrittenThrough(v.CurrentItems()) == v.tableData
  {
    if v.currentTableData.Alias? {
      var k := Some(v.currentTableData.key);
      assert v.tableData[k := Some(v.CurrentItems())] == v.tableData;
    }
  }

  /**
   * editItem on an element of the current list, then saveEditItem: the staged copy carries
   * the element's own data, so the list and the map end as they began and the edit closes.
   */
  method EditRoundTrip(v: TestView, item: TestObject, freshId: string)
    requires v.Valid() && item in v.CurrentItems()
    modifies v`tableData, v`currentTableData, v`isEditing, v`editedItem, v`editingIndex
    ensures v.Valid()
    ensures v.CurrentItems() == old(v.CurrentItems())
    ensures v.tableData == old(v.tableData)
    ensures !v.isEditing && v.editedItem.None? && v.editingIndex == -1
  {
    v.EditItem(Some(item), freshId);
    ghost var items := v.CurrentItems();
    ghost var i := v.editingIndex;
    ghost var staged := v.editedItem.value;
    var accepted := v.SaveEditItem();
    assert accepted;
    OverwriteWithOwnData(items[i], staged);
    assert items[i := items[i]] == items;
    WriteBackSame(v);
  }

  /**
   * A fresh session on Ankara deletes its first record twice: the first call removes it,
   * the second finds nothing equal and changes nothing.
   */
  method DeleteTwice(ids: seq<string>) returns (afterFirst: seq<TestObject>, afterSecond: seq<TestObject>)
    requires |ids| == 6
    ensures |afterFirst| == 1 && afterSecond == afterFirst
    ensures DefaultTables(ids)[Some(Ankara)].value[0] !in afterSecond
  {
    var v := new TestView(SameAscii, Some(Ankara), ids);
    var first := v.CurrentItems()[0];
    v.DeleteItem(Some(first));
    afterFirst := v.CurrentItems();
    v.DeleteItem(Some(first));
    afterSecond := v.CurrentItems();
  }

  /**
   * Two saves of the same form record put two equal records in the list (its id is null),
   * so a second delete of that record is not a no-op: it removes the other copy.
   */
  method DuplicateThenDeleteTwice(ids: seq<string>) returns (afterFirst: seq<TestObject>, afterSecond: seq<TestObject>)
    requires |ids| == 6
    ensures |afterFirst| == 3 && FormRecord() in afterFirst
    ensures |afterSecond| == 2 && FormRecord() !in afterSecond
  {
    var v := OpenAnkara(ids);
    ghost var loaded := v.CurrentItems();
    var x := FormRecord();
    SaveTwice(v, x);
    RemoveAfter(loaded, [x, x], x);
    DeleteFromCurrent(v, x);
    afterFirst := v.CurrentItems();
    RemoveAfter(loaded, [x], x);
    DeleteFromCurrent(v, x);
    afterSecond := v.CurrentItems();
  }

  /** The form saves the same valid record twice into the current list. */
  method SaveTwice(v: TestView, x: TestObject)
    requires v.Valid() && v.currentTableData.Alias? && x.IsValid()
    modifies v`tableData, v`currentTableData, v`newItem
    ensures v.Valid() && v.currentTableData == old(v.currentTableData)
    ensures v.CurrentItems() == old(v.CurrentItems()) + [x, x]
  {
    ghost var loaded := v.CurrentItems();
    v.SetNewItem(Some(x));
    var saved := v.SaveNewItem();
    assert v.CurrentItems() == loaded + [x];
    v.SetNewItem(Some(x));
    saved := v.SaveNewItem();
    assert v.CurrentItems() == loaded + [x] + [x];
  }

  /** deleteItem when the selected table is the list currentTableData refers to. */
  method DeleteFromCurrent(v: TestView, x: TestObject)
    requires v.Valid() && v.currentTableData.Alias? && v.selectedTable == Some(v.currentTableData.key)
    modifies v`tableData
    ensures v.Valid() && v.CurrentItems() == RemoveFirst(old(v.CurrentItems()), x)
  {
    v.DeleteItem(Some(x));
  }

  /** A fresh session with Ankara requested: its two records are current, all with an id. */
  method OpenAnkara(ids: seq<string>) returns (v: TestView)
    requires |ids| == 6
    ensures fresh(v) && v.Valid()
    ensures v.selectedTable == Some(Ankara) && v.currentTableData == Alias(Ankara)
    ensures |v.CurrentItems()| == 2 && FormRecord() !in v.CurrentItems()
  {
    AsciiFolding();
    v := new TestView(SameAscii, Some(Ankara), ids);
  }

  /** The blank record init stages is refused by saveNewItem, and the list stays as loaded. */
  method SaveBlankRefused(ids: seq<string>) returns (accepted: bool, items: seq<TestObject>)
    requires |ids| == 6
    ensures !accepted && |items| == 2
  {
    var v := new TestView(SameAscii, Some(Ankara), ids);
    accepted := v.SaveNewItem();
    items := v.CurrentItems();
  }

  /**
   * Without a requested table, selecting Ankara does not select it: selectTable tests the
   * previous selection, which is null and matches no key.
   */
  method FirstSelectIgnored(ids: seq<string>) returns (outcome: Outcome, selected: Option<string>, items: seq<TestObject>)
    requires |ids| == 6
    ensures outcome == Normal && selected.None? && items == []
  {
    var v := new TestView(SameAscii, None, ids);
    var order := IterationOrder(v.tableData.Keys);
    outcome := v.SelectTable(Some(Ankara), order);
    selected := v.selectedTable;
    items := v.CurrentItems();
  }

  /**
   * With Ankara already selected, selecting "ankara" matches the key Ankara ignoring case,
   * and the current list becomes Ankara's own list.
   */
  method SelectIgnoringCase(ids: seq<string>) returns (outcome: Outcome, current: CurrentList)
    requires |ids| == 6
    ensures outcome == Normal && current == Alias(Ankara)
  {
    AsciiFolding();
    var v := new TestView(SameAscii, Some(Ankara), ids);
    var order := IterationOrder(v.tableData.Keys);
    AnkaraFoundIgnoringCase(ids, order);
    outcome := v.SelectTable(Some("ankara"), order);
    current := v.currentTableData;
  }

  /** In the default tables, both "Ankara" and "ankara" find the key Ankara, whatever the order. */
  lemma AnkaraFoundIgnoringCase(ids: seq<string>, order: seq<Key>)
    requires |ids| == 6 && Enumerates(order, DefaultTables(ids).Keys)
    ensures ScanIgnoreCase(order, Some(Ankara), SameAscii) == Hit(Ankara)
    ensures MatchingList(SameAscii, DefaultTables(ids), Some("ankara"), order) == Returned(Alias(Ankara))
  {
    AnkaraScan(order, Ankara);
    AnkaraScan(order, "ankara");
  }

  /** Among the three default names, Ankara is the only key an ASCII-folded "Ankara" matches. */
  lemma AnkaraScan(order: seq<Key>, name: string)
    requires Enumerates(order, {Some(Ankara), Some(Istanbul), Some(Izmir)})
    requires name == Ankara || name == "ankara"
    ensures ScanIgnoreCase(order, Some(name), SameAscii) == Hit(Ankara)
  {
    AsciiFolding();
    var r := ScanIgnoreCase(order, Some(name), SameAscii);
    assert Some(Ankara) in order && Matches(SameAscii, Ankara, Some(name));
    assert None !in order;
    assert !SameAscii(Istanbul, name) && !SameAscii(Izmir, name) by {
      assert Lower(Istanbul[0]) != Lower(name[0]);
      assert Lower(Izmir[0]) != Lower(name[0]);
    }
    assert Some(r.key) in order;
  }

  /** A fresh store and catalog with a rename of the first entry staged. */
  method StagedRename(ids: seq<string>, name: Option<string>) returns (v: TestView, c: TableView)
    requires |ids| == 6
    ensures fresh(v) && fresh(c) && c.store == v && c.Valid()
    ensures v.tableData == DefaultTables(ids) && v.currentTableData == Detached([])
    ensures c.tables == [Ankara, Istanbul, Izmir]
    ensures c.editedTableName == name && c.editedTableIndex == 0
  {
    v := new TestView(SameAscii, None, ids);
    c := new TableView(v);
    c.PrepareEditTable(name, Some(0));
  }

  /**
   * Renaming the first entry of a fresh catalog to a non-blank name: the entry becomes the
   * trimmed name, and the store holds the name, untrimmed, exactly when a default name
   * occurs inside it, bound to the records of such a default table.
   */
  method RenameFirst(ids: seq<string>, name: string) returns (outcome: Outcome, tables: seq<string>, m: Tables, ghost source: Option<string>)
    requires |ids| == 6 && !IsBlank(name)
    ensures outcome == Normal
    ensures tables == [Trim(name), Istanbul, Izmir]
    ensures m.Keys == DefaultTables(ids).Keys + (if SomeKeyInside(DefaultTables(ids), name) then {Some(name)} else {})
    ensures source.Some? <==> Some(name) in m
    ensures source.Some? ==>
      Some(source.value) in DefaultTables(ids) && Contains(name, source.value)
      && m[Some(name)] == DefaultTables(ids)[Some(source.value)]
  {
    var v, c := StagedRename(ids, Some(name));
    ghost var reset := DefaultTables(ids);
    assert v.tableData + reset == reset;
    assert NoNullLists(reset);
    outcome := c.UpdateTable(ids);
    tables := c.tables;
    m := v.tableData;
    ReloadedKeys(reset, name, m);
    if Some(name) in m {
      ghost var src :| Some(src) in reset && Contains(name, src) && m[Some(name)] == reset[Some(src)];
      source := Some(src);
    } else {
      source := None;
    }
  }

  /**
   * Renaming Ankara to "Bursa": no default name occurs inside "Bursa", so the store gains
   * no key, while the catalog entry is renamed.
   */
  method RenameWithoutSource(ids: seq<string>) returns (outcome: Outcome, tables: seq<string>, keys: set<Key>)
    requires |ids| == 6
    ensures outcome == Normal
    ensures tables == ["Bursa", Istanbul, Izmir]
    ensures keys == {Some(Ankara), Some(Istanbul), Some(Izmir)}
  {
    NoDefaultInside(ids, "Bursa");
    BursaTrim();
    var m;
    ghost var source;
    outcome, tables, m, source := RenameFirst(ids, "Bursa");
    keys := m.Keys;
  }

  /**
   * Renaming Ankara to " Ankara2 " puts the trimmed "Ankara2" in the catalog.
   */
  method PaddedRenameCatalog(ids: seq<string>) returns (outcome: Outcome, tables: seq<string>)
    requires |ids| == 6
    ensures outcome == Normal
    ensures tables == ["Ankara2", Istanbul, Izmir]
  {
    PaddedTrim();
    var m;
    ghost var source;
    outcome, tables, m, source := RenameFirst(ids, " Ankara2 ");
  }

  /**
   * Renaming Ankara to " Ankara2 " binds the untrimmed name in the store to a copy of
   * Ankara's records, and leaves the catalog's "Ankara2" unknown to the store.
   */
  method PaddedRenameStore(ids: seq<string>) returns (m: Tables)
    requires |ids| == 6
    ensures Some(" Ankara2 ") in m && m[Some(" Ankara2 ")] == DefaultTables(ids)[Some(Ankara)]
    ensures Some("Ankara2") !in m
  {
    PaddedTrim();
    var outcome, tables;
    ghost var source;
    outcome, tables, m, source := RenameFirst(ids, " Ankara2 ");
    PaddedSourceIsAnkara(DefaultTables(ids), m, source);
  }

  /**
   * What the store holds after renaming to " Ankara2 ", read off the general rename
   * contract: the untrimmed name bound to Ankara's list, and no "Ankara2".
   */
  lemma PaddedSourceIsAnkara(reset: Tables, m: Tables, source: Option<string>)
    requires reset.Keys == {Some(Ankara), Some(Istanbul), Some(Izmir)}
    requires m.Keys == reset.Keys + (if SomeKeyInside(reset, " Ankara2 ") then {Some(" Ankara2 ")} else {})
    requires source.Some? <==> Some(" Ankara2 ") in m
    requires source.Some? ==>
      Some(source.value) in reset && Contains(" Ankara2 ", source.value)
      && m[Some(" Ankara2 ")] == reset[Some(source.value)]
    ensures Some(" Ankara2 ") in m && m[Some(" Ankara2 ")] == reset[Some(Ankara)]
    ensures Some("Ankara2") !in m
  {
    assert SomeKeyInside(reset, " Ankara2 ") by {
      PaddedContains();
    }
    AnkaraIsTheSource(source.value);
    TrimmedNameUnknown(reset, m);
  }

  /** Of the default names, only Ankara can be the source of " Ankara2 ". */
  lemma AnkaraIsTheSource(src: string)
    requires src == Ankara || src == Istanbul || src == Izmir
    requires Contains(" Ankara2 ", src)
    ensures src == Ankara
  {
    PaddedContains();
  }

  /** "Ankara2" is none of the default names and not " Ankara2 ". */
  lemma TrimmedNameUnknown(reset: Tables, m: Tables)
    requires reset.Keys == {Some(Ankara), Some(Istanbul), Some(Izmir)}
    requires m.Keys == reset.Keys + {Some(" Ankara2 ")}
    ensures Some("Ankara2") !in m
  {
  }

  /** Only Ankara, of the default names, occurs inside " Ankara2 ". */
  lemma PaddedContains()
    ensures Contains(" Ankara2 ", Ankara)
    ensures !Contains(" Ankara2 ", Istanbul) && !Contains(" Ankara2 ", Izmir)
  {
    var padded := " Ankara2 ";
    assert Ankara <= padded[1..];
    ContainsNeedsFirst(padded, Istanbul);
    ContainsNeedsFirst(padded, Izmir);
  }

  /** "Bursa" has no trimmable char at either end, so it trims to itself. */
  lemma BursaTrim()
    ensures Trim("Bursa") == "Bursa" && !IsBlank("Bursa")
  {
    assert !IsTrimmable("Bursa"[0]) && !IsTrimmable("Bursa"[4]);
  }

  /** " Ankara2 " trims to "Ankara2". */
  lemma PaddedTrim()
    ensures Trim(" Ankara2 ") == "Ankara2" && !IsBlank(" Ankara2 ")
  {
    var padded := " Ankara2 ";
    assert TrimStart(padded) == padded[1..];
    assert TrimEnd(padded[1..]) == "Ankara2";
  }

  /**
   * With no staged name, updateTable throws after the reset: the catalog is unchanged and
   * the store holds the default tables.
   */
  method NullRenameThrows(ids: seq<string>) returns (outcome: Outcome, tables: seq<string>)
    requires |ids| == 6
    ensures outcome == NullPointer
    ensures tables == [Ankara, Istanbul, Izmir]
  {
    var v, c := StagedRename(ids, None);
    outcome := c.UpdateTable(ids);
    tables := c.tables;
  }

  /** The ASCII folding is reflexive, and "ankara" matches Ankara and no other default name. */
  lemma AsciiFolding()
    ensures Reflexive(SameAscii)
    ensures SameAscii(Ankara, "ankara")
    ensures !SameAscii(Istanbul, "ankara") && !SameAscii(Izmir, "ankara")
  {
    assert Lower(Ankara[0]) == Lower("ankara"[0]);
  }

  /** A string whose first char does not occur in `s` does not occur in `s`. */
  lemma {:induction false} ContainsNeedsFirst(s: string, t: string)
    requires t != [] && t[0] !in s
    ensures !Contains(s, t)
  {
    if s != [] {
      assert s[0] in s;
      ContainsNeedsFirst(s[1..], t);
    }
  }

  /** None of the three default names occurs inside a name made of other first letters. */
  lemma NoDefaultInside(ids: seq<string>, name: string)
    requires |ids| == 6 && 'A' !in name && 'İ' !in name
    ensures !SomeKeyInside(DefaultTables(ids), name)
  {
    ContainsNeedsFirst(name, Ankara);
    ContainsNeedsFirst(name, Istanbul);
    ContainsNeedsFirst(name, Izmir);
  }

  /** Removing `x` from `s + t`, where `x` is not in `s` and heads `t`, drops that head. */
  lemma RemoveAfter<T>(s: seq<T>, t: seq<T>, x: T)
    requires x !in s && t != [] && t[0] == x
    ensures RemoveFirst(s + t, x) == s + t[1..]
  {
    var st := s + t;
    assert st[|s|] == x;
    assert st[..|s|] == s;
    var i := IndexOf(st, x);
    assert i == |s|;
    assert st[..i] == s && st[i + 1..] == t[1..];
  }
}
