# Music tables: a Dafny model of the PrimeFaces table store and catalog

This project models the session state behind a small PrimeFaces application that keeps
music records in named tables. There are three pieces:

- **`TestObject`** is one record: an id and five nullable data fields (first name, last
  name, song, artist, release year), with a completeness test `isValid` and Lombok
  field-wise equality. Module `TestObjects` (`test_object.dfy`) models it as a datatype.
- **`TestView`** is the table store. It holds a `HashMap` from table name to a list of
  records, the selected table, the working list `currentTableData` (the list that
  `saveNewItem`, `saveEditItem`, `editItem` and `updateItem` act on), a staged new record
  and an edit cursor. Its operations add, delete, edit, replace and reload records
  and tables. Module `TestViews` (`test_view.dfy`) models it as a class whose methods
  update its fields.
- **`TableView`** is the catalog of table names shown to the user: an ordered list with
  append, remove and a staged rename by index. The rename also resets the store's
  default tables and then, once for every key of the map that occurs inside the new name,
  binds the new name to a copy of one list: that of the first key, in the live map's
  iteration order, that occurs inside the name (which may be the new name itself). The
  name ends up holding the records of a single table. Module `TableViews` (`table_view.dfy`) models it as a class that
  holds a reference to the store.

Module `Common` (`common.dfy`) holds the parts of the Java runtime the code relies on:
- null references (`Option`);
- a `NullPointerException` escaping a call (`Outcome`, `Result`);
- `String.trim` and `String.contains`;
- `List.indexOf` and `List.remove(Object)`;
- the iteration order of a `HashMap`, of which only "each key exactly once" is known.

Module `Scenarios` (`scenarios.dfy`) holds short sessions that combine several operations:
- the edit round trip;
- deleting twice;
- the selection test that looks at the previous selection;
- what a rename leaves in the store and in the catalog.

Two features of the Java object graph are modelled explicitly:

- **The working list and the map.** `currentTableData` is sometimes the very list object
  bound in the map (`Alias(key)`) and sometimes a list of its own (`Detached(items)`).
  - An in-place `add`, `set` or `remove` on an aliased list is seen through both names.
  - `HashMap.put` binds a new list object, so a working list that was the old binding becomes
    detached and keeps its contents.
- **Exceptions.** Several paths dereference null: a null key met by `equalsIgnoreCase`, a
  null list copied by `loadDataAgain`, or a null staged name in `updateTable`. Each method
  that can throw returns `NullPointer` together with the state as it was at the throw.

## Model

| member | source | states |
|---|---|---|
| `Common.Trim` | src/main/java/org/primefaces/test/TableView.java:45-46 | `trim()` is the input with a blank prefix and a blank suffix removed (some slice `s[a..b]` with only chars at most U+0020 outside it); it is empty exactly when every char is at most U+0020, and otherwise starts and ends with a char above U+0020 |
| `Common.TrimIdempotent` | src/main/java/org/primefaces/test/TableView.java:71 | trimming an already trimmed name changes nothing |
| `Common.ContainsAt` | src/main/java/org/primefaces/test/TableView.java:63 | `contains` holds exactly when the key occurs at some position of the name (both directions) |
| `Common.ContainsSelf` | src/main/java/org/primefaces/test/TableView.java:63 | every name contains itself, so a key equal to the staged name always triggers a reload |
| `Common.IndexOf` | src/main/java/org/primefaces/test/TestView.java:202 | `indexOf` is -1 exactly when the element is absent; otherwise it is a position holding the element, with no earlier occurrence |
| `Common.RemoveFirst` | src/main/java/org/primefaces/test/TestView.java:194 | `remove(Object)` leaves a list without the element unchanged and otherwise shortens it by one |
| `Common.RemoveFirstCounts` | src/main/java/org/primefaces/test/TableView.java:53 | `remove(Object)` takes away exactly one copy of the element when there is one, and nothing else (multiset) |
| `Common.RemoveFirstAgain` | src/main/java/org/primefaces/test/TestView.java:193-197 | a second removal of the same element is a no-op when it occurred at most once |
| `Common.RemoveFirstAgainWithDuplicate` | src/main/java/org/primefaces/test/TestView.java:194 | with two equal elements, the second removal takes the other copy |
| `Common.IterationOrder` | src/main/java/org/primefaces/test/TableView.java:62 | iterating a `HashMap` visits every key exactly once, in an order the model leaves open |
| `TestObjects.Create` | src/main/java/org/primefaces/test/TestObject.java:77-84 | the five-argument constructor stores exactly the given data, sets a non-null id, and the result is valid iff the four texts are non-null and non-empty and the year is non-null |
| `TestObjects.Blank` | src/main/java/org/primefaces/test/TestObject.java:86-87 | the no-argument constructor leaves every field, the id included, null, so the record is invalid |
| `TestObjects.CopyOf` | src/main/java/org/primefaces/test/TestObject.java:89-90 | the "copy" constructor copies nothing: all fields null, invalid |
| `TestObjects.SettersChangeOneField` | src/main/java/org/primefaces/test/TestObject.java:33-75 | each setter, `setId` included, gives its own field the new value and leaves the other five as they were |
| `TestObjects.ValidityIgnoresId` | src/main/java/org/primefaces/test/TestObject.java:92-98 | `isValid` depends on the five data fields only, never on the id |
| `TestObjects.IdDistinguishes` | src/main/java/org/primefaces/test/TestObject.java:17-27 | Lombok equality covers the id: the same data under two ids are unequal, and equal under one id |
| `TestObjects.SpacesCountAsFilled` | src/main/java/org/primefaces/test/TestObject.java:92-98 | `isValid` does not trim: fields of a single space pass |
| `TestObjects.Overwrite` | src/main/java/org/primefaces/test/TestView.java:156-160 | the five data setters give the target the source's data and validity and keep the target's id |
| `TestObjects.OverwriteWithOwnData` | src/main/java/org/primefaces/test/TestView.java:156-160 | writing a record's own data back over it gives the same record |
| `TestViews.DefaultTables` | src/main/java/org/primefaces/test/TestView.java:73-89 | the defaults are exactly the keys "Ankara", "İstanbul" and "İzmir", each bound to a two-record list |
| `TestViews.DefaultRecordsValid` | src/main/java/org/primefaces/test/TestView.java:76-89 | every default record passes `isValid` |
| `TestViews.ScanIgnoreCase` | src/main/java/org/primefaces/test/TestView.java:121-124 | the case-insensitive scan stops at the first key, in iteration order, that is null (it throws) or matches (a hit on that key); it misses iff there is no null key and no matching key |
| `TestViews.MatchingList` | src/main/java/org/primefaces/test/TestView.java:141-145 | the first key, in iteration order, that is null or matches decides: a null key throws, a matching key yields its own list, or throws when it is bound to null; an empty list iff no key matches and there is no null key |
| `TestViews.Refresh` | src/main/java/org/primefaces/test/TestView.java:139-150 | a null selection makes the working list a new empty list; otherwise the first key, in iteration order, that is null or matches decides as in the stream (a throw, or that key's own list), and the list is empty iff no key matches and there is no null key |
| `TestViews.RefreshFindsKey` | src/main/java/org/primefaces/test/TestView.java:215-218 | a refresh whose selection is itself a key never falls back to an empty list, and cannot throw without a null key or a null list |
| `TestViews.FirstContained` | src/main/java/org/primefaces/test/TestView.java:100-107 | when some non-null key occurs inside the name, the result is the first such key in iteration order; none iff no key occurs inside it |
| `TestViews.TestView.WrittenThrough` | src/main/java/org/primefaces/test/TestView.java:178 | an in-place change of the working list binds its own key to the new contents when it is aliased, and leaves every other key (all keys, when detached) as it was |
| `TestViews.TestView.constructor` | src/main/java/org/primefaces/test/TestView.java:56-72 | `init` loads exactly the defaults, stages a blank record and selects the requested table; the working list is that table's own list when the name is non-empty and a key, else a new empty list |
| `TestViews.TestView.SelectRequested` | src/main/java/org/primefaces/test/TestView.java:63-71 | the requested table becomes the selection, and the working list is its own list exactly when it is a non-empty key |
| `TestViews.TestView.Put` | src/main/java/org/primefaces/test/TestView.java:216 | `put` rebinds one key; a working list that was its old binding becomes detached with the same contents |
| `TestViews.TestView.WriteCurrent` | src/main/java/org/primefaces/test/TestView.java:178 | an in-place change of the working list is seen through the map exactly when the list is aliased |
| `TestViews.TestView.LoadInitialData` | src/main/java/org/primefaces/test/TestView.java:73-89 | the three default keys are rebound to fresh lists whatever they held; every other key keeps its list, and the working list keeps its contents; an alias of a default key ends detached and any other working list is left as it was |
| `TestViews.TestView.LoadDataAgain` | src/main/java/org/primefaces/test/TestView.java:96-112 | a null name changes nothing; otherwise the name is bound to a copy of the list of the first key inside it, or to null when there is none, and copying a null list throws with the map unchanged; the working list keeps its contents, and is detached exactly when it was the list of the name and the put happened |
| `TestViews.TestView.IsSelectedTableExists` | src/main/java/org/primefaces/test/TestView.java:121-124 | `anyMatch` stops at the first key, in iteration order, that is null (it throws) or matches (true); false iff no key matches and there is no null key |
| `TestViews.TestView.SelectTable` | src/main/java/org/primefaces/test/TestView.java:125-137 | tests the previous selection: if it does not exist, the new name is not selected and the working list becomes empty; if it exists, the new name is selected and the working list becomes the list of the first key matching the new name |
| `TestViews.TestView.UpdateCurrentTableData` | src/main/java/org/primefaces/test/TestView.java:139-151 | the working list becomes what `Refresh` yields, or stays as it was when the scan throws |
| `TestViews.TestView.SaveEditItem` | src/main/java/org/primefaces/test/TestView.java:152-174 | fires iff an edit is staged and the index is inside the working list; then only that element changes: it takes the staged data, keeps its id and the length is kept, and the edit closes; otherwise nothing changes; `currentTableData` is never reassigned: an alias stays that alias, a detached list stays detached with the new contents |
| `TestViews.TestView.SaveNewItem` | src/main/java/org/primefaces/test/TestView.java:176-184 | fires iff the staged record is non-null and valid; then it is appended to the working list and a blank record is staged; otherwise nothing changes; `currentTableData` is never reassigned: an alias stays that alias, a detached list stays detached with the new contents |
| `TestViews.TestView.IsNewItemValid` | src/main/java/org/primefaces/test/TestView.java:185-191 | the field-by-field test agrees with `isValid` |
| `TestViews.TestView.GetCurrentTableData` | src/main/java/org/primefaces/test/TestView.java:225-227 | yields the list bound to the selected table by exact key; when that key is missing or bound to null, it first binds a fresh empty list and yields that; every other key keeps its list and the working list is untouched |
| `TestViews.TestView.ChangeSelectedList` | src/main/java/org/primefaces/test/TestView.java:194 | an in-place change of the selected table's list rebinds that key only; the working list sees it only when it is that list |
| `TestViews.TestView.DeleteItem` | src/main/java/org/primefaces/test/TestView.java:193-197 | the first element equal to the item is removed from the selected table's list by exact key (created empty if missing); the working list changes only when it is that list |
| `TestViews.TestView.EditItem` | src/main/java/org/primefaces/test/TestView.java:199-205 | a null item changes nothing; otherwise a copy of its data under a fresh id is staged, the cursor is the index of the first equal element (or -1), and editing starts |
| `TestViews.TestView.PrepareEdit` | src/main/java/org/primefaces/test/TestView.java:228-234 | the same staging as `editItem` |
| `TestViews.TestView.GetEditedItem` | src/main/java/org/primefaces/test/TestView.java:207-212 | yields the staged edit, staging a blank record first when there is none |
| `TestViews.TestView.OpenNewTable` | src/main/java/org/primefaces/test/TestView.java:215-218 | a new name gets an empty list and is selected; a refresh that returns makes the working list the list of a key matching the name, and one without null keys or null lists always returns |
| `TestViews.TestView.AddNewTable` | src/main/java/org/primefaces/test/TestView.java:214-224 | fires iff the name is non-null, non-blank after trim and not an exact key; a refused name changes no table; the name field is "" afterwards unless the refresh throws |
| `TestViews.TestView.UpdateItem` | src/main/java/org/primefaces/test/TestView.java:235-254 | fires iff an edit is staged, the index is inside the working list and the staged record is valid; then that element of the working list is replaced by the staged record (id included) and written through, the working list is refreshed, and the staging is reset unless the refresh throws; otherwise nothing changes |
| `TestViews.TestView.IsEditedItemValid` | src/main/java/org/primefaces/test/TestView.java:255-262 | true iff an edit is staged and it passes `isValid` |
| `TestViews.TestView.SetNewItem` | src/main/java/org/primefaces/test/TestView.java:311-313 | the staged record becomes the given one |
| `TestViews.TestView.SetEditedItem` | src/main/java/org/primefaces/test/TestView.java:263-265 | the staged edit becomes the given one |
| `TestViews.TestView.SetNewTableName` | src/main/java/org/primefaces/test/TestView.java:331-333 | the name field becomes the given one |
| `TableViews.TrimmedIsTidy` | src/main/java/org/primefaces/test/TableView.java:45-46 | the trimmed form of a non-blank name is non-empty, has no trimmable char at either end, and is its own trim |
| `TableViews.InitialTidy` | src/main/java/org/primefaces/test/TableView.java:37-42 | the initial catalog holds only trimmed names |
| `TableViews.AddTableKeepsTidy` | src/main/java/org/primefaces/test/TableView.java:44-49 | appending a trimmed non-blank name keeps a catalog of trimmed names |
| `TableViews.RenameKeepsTidy` | src/main/java/org/primefaces/test/TableView.java:69-74 | renaming an entry to a trimmed non-blank name keeps a catalog of trimmed names |
| `TableViews.RemoveKeepsTidy` | src/main/java/org/primefaces/test/TableView.java:51-56 | removing a name keeps a catalog of trimmed names |
| `TableViews.ReloadStep` | src/main/java/org/primefaces/test/TableView.java:62-64 | binding the staged name to the list of a key inside it keeps the store "reloaded from" the reset map |
| `TableViews.ReloadedKeys` | src/main/java/org/primefaces/test/TableView.java:58-68 | after the reloads the store has the reset keys, plus the staged name exactly when it was loaded |
| `TableViews.OnlyNullKey` | src/main/java/org/primefaces/test/TableView.java:62-63 | a snapshot that met only null keys comes from a map whose only key is null |
| `TableViews.TableView.constructor` | src/main/java/org/primefaces/test/TableView.java:37-42 | `init` leaves the catalog exactly ["Ankara", "İstanbul", "İzmir"], with nothing staged |
| `TableViews.TableView.AddTable` | src/main/java/org/primefaces/test/TableView.java:44-49 | fires iff the name is non-null and non-blank; then the trimmed name is appended (duplicates allowed) and the field cleared; otherwise nothing changes |
| `TableViews.TableView.RemoveTable` | src/main/java/org/primefaces/test/TableView.java:51-56 | a null or absent name changes nothing; otherwise exactly the first occurrence is removed (slices and multiset), and the store is not touched |
| `TableViews.TableView.PrepareEditTable` | src/main/java/org/primefaces/test/TableView.java:77-82 | stages name and index only when the index is non-null and inside the catalog; otherwise the staging is unchanged |
| `TableViews.TableView.UpdateTable` | src/main/java/org/primefaces/test/TableView.java:58-75 | always resets the defaults; a null staged name throws with the store at the reset; otherwise only the staged name can be added, and then bound to the list of a key inside it, never to null; it throws only if such a key is bound to null; the catalog entry becomes the trimmed name iff the index is inside and the name non-blank, and otherwise the catalog is unchanged; the working list keeps its contents, an alias survives only unchanged, an alias of a default key or of the staged name (when the call returns) ends detached, and an alias of any other key survives |
| `TableViews.TableView.ReloadContaining` | src/main/java/org/primefaces/test/TableView.java:60-68 | the loop over the snapshot: a null staged name throws iff the map has a non-null key; otherwise, when it returns, the staged name is in the store iff some key occurs inside it, and then bound to a list, never to null; the working list keeps its contents, an alias survives only unchanged, an alias of the staged name ends detached when the call returns, and an alias of any other key survives |
| `TableViews.TableView.ThrowAtFirstKey` | src/main/java/org/primefaces/test/TableView.java:62-63 | with no staged name, the loop throws iff the map has a non-null key, since `contains` is called on null there |
| `TableViews.TableView.ReloadNamed` | src/main/java/org/primefaces/test/TableView.java:62-68 | with a staged name, the loop leaves the name in the store iff some key occurs inside it, bound to a list, never to null; it throws only when such a key is bound to null; an alias of the name ends detached when the call returns, and an alias of any other key survives |
| `TableViews.TableView.ReloadTurn` | src/main/java/org/primefaces/test/TableView.java:63-67 | one turn of the loop keeps what the loop has established so far, with the visited key added; when it throws, the store is as far as the loop got and an alias of a key other than the staged name still survives |
| `TableViews.TableView.VisitKey` | src/main/java/org/primefaces/test/TableView.java:63-67 | one turn of the loop reloads the staged name exactly when the key occurs inside it; a reload that returns binds the name to a list, never to null, and otherwise the map is unchanged; the working list is detached exactly when it was the list of the staged name and the reload happened and returned |
| `TableViews.TableView.LoadAgain` | src/main/java/org/primefaces/test/TableView.java:64 | a reload from inside the loop always finds a source: when it returns, the name is bound to a list, never to null; it throws only when a key inside the name is bound to null; the working list is detached exactly when it was the list of the name and the reload returned |
| `TableViews.TableView.RenameEntry` | src/main/java/org/primefaces/test/TableView.java:69-74 | the entry at the staged index becomes the trimmed name and the staging clears iff the index is inside and the name non-blank; otherwise nothing changes |
| `TableViews.TableView.SetTables` | src/main/java/org/primefaces/test/TableView.java:89-91 | the catalog becomes the given list |
| `TableViews.TableView.SetNewTableName` | src/main/java/org/primefaces/test/TableView.java:97-99 | the name field becomes the given one |
| `TableViews.TableView.SetEditedTableName` | src/main/java/org/primefaces/test/TableView.java:105-107 | the staged name becomes the given one |
| `TableViews.TableView.SetEditedTableIndex` | src/main/java/org/primefaces/test/TableView.java:113-115 | the staged index becomes the given one |
| `Scenarios.WriteBackSame` | src/main/java/org/primefaces/test/TestView.java:156-160 | writing the working list's own contents back leaves the map as it was |
| `Scenarios.EditRoundTrip` | src/main/java/org/primefaces/test/TestView.java:199-205 | `editItem` on an element of the working list followed by `saveEditItem` leaves the list and the map unchanged and closes the edit |
| `Scenarios.DeleteTwice` | src/main/java/org/primefaces/test/TestView.java:193-197 | deleting a default record twice: the first call removes it, the second changes nothing |
| `Scenarios.DuplicateThenDeleteTwice` | src/main/java/org/primefaces/test/TestView.java:176-197 | after saving the same form record twice, a second delete removes the other copy, so it is not a no-op |
| `Scenarios.SaveTwice` | src/main/java/org/primefaces/test/TestView.java:176-184 | two saves of one valid record append two equal records |
| `Scenarios.DeleteFromCurrent` | src/main/java/org/primefaces/test/TestView.java:193-197 | when the selected table is the working list, a delete is seen in the working list |
| `Scenarios.OpenAnkara` | src/main/java/org/primefaces/test/TestView.java:56-72 | in a session that requests Ankara, the working list is Ankara's own two-record list |
| `Scenarios.SaveBlankRefused` | src/main/java/org/primefaces/test/TestView.java:176-184 | the blank record staged by `init` is refused, and the list stays as loaded |
| `Scenarios.FirstSelectIgnored` | src/main/java/org/primefaces/test/TestView.java:125-137 | with no previous selection, selecting Ankara selects nothing and the working list becomes an empty list |
| `Scenarios.SelectIgnoringCase` | src/main/java/org/primefaces/test/TestView.java:125-145 | with Ankara selected, selecting "ankara" makes the working list Ankara's own list |
| `Scenarios.AnkaraFoundIgnoringCase` | src/main/java/org/primefaces/test/TestView.java:121-145 | in the default tables, in any iteration order, the scans for "Ankara" and for "ankara" both stop at the key Ankara, and the stream yields Ankara's own list |
| `Scenarios.StagedRename` | src/main/java/org/primefaces/test/TableView.java:77-82 | a fresh store and catalog with a rename of the first entry staged |
| `Scenarios.RenameFirst` | src/main/java/org/primefaces/test/TableView.java:58-75 | renaming the first entry to a non-blank name puts the trimmed name in the catalog; the store holds the untrimmed name iff a default name occurs inside it, bound to such a table's records |
| `Scenarios.RenameWithoutSource` | src/main/java/org/primefaces/test/TableView.java:58-75 | renaming to "Bursa" renames the catalog entry while the store gains no key |
| `Scenarios.PaddedRenameCatalog` | src/main/java/org/primefaces/test/TableView.java:69-74 | renaming to " Ankara2 " puts "Ankara2" in the catalog |
| `Scenarios.PaddedRenameStore` | src/main/java/org/primefaces/test/TableView.java:62-64 | renaming to " Ankara2 " binds the untrimmed " Ankara2 " to Ankara's records, while the catalog's "Ankara2" is no key of the store |
| `Scenarios.PaddedSourceIsAnkara` | src/main/java/org/primefaces/test/TableView.java:62-64 | of the default tables, only Ankara can be the source of " Ankara2 " |
| `Scenarios.NullRenameThrows` | src/main/java/org/primefaces/test/TableView.java:63 | with no staged name, `updateTable` throws and leaves the catalog as it was |
| `Scenarios.ContainsNeedsFirst` | src/main/java/org/primefaces/test/TableView.java:63 | a key whose first char is not in the name does not occur inside it |

## Behaviour notes

Consequences of the code as written that a reader might not expect:

- `isValid` does not trim, so fields made of spaces pass (`TestObjects.SpacesCountAsFilled`).
- A second `deleteItem` of the same record is a no-op only when the record occurred at most
  once. Records staged through the form have a null id, so two saves of the same data give
  two equal records, and the second delete removes the other copy
  (`Common.RemoveFirstAgain`, `Scenarios.DuplicateThenDeleteTwice`).
- `updateTable` is not atomic. It resets the default tables and reloads the store before it
  checks the staged index, so a rename with an index outside the catalog still changes the
  store (`TableViews.TableView.UpdateTable`).
- `updateTable` calls `contains` on the staged name before its null check. A null staged name
  therefore throws once the reset has put non-null keys in the map (`Scenarios.NullRenameThrows`).
- A rename writes the trimmed name into the catalog but reloads the untrimmed name into the
  store. A padded name leaves a catalog entry that is no key of the store
  (`Scenarios.PaddedRenameStore`).
- The reload matches keys by substring, not by equality (`TestViews.FirstContained`).
  `loadDataAgain` on its own binds null when no key occurs inside the name. Only the calls
  made from `updateTable` are guaranteed a source (`TableViews.TableView.LoadAgain`).
- `loadInitialData` overwrites only its three keys; every other table survives.
- `getCurrentTableData()` does not return the field `currentTableData`. It returns the list
  bound to the selected table by exact key, creating an empty one when there is none
  (`TestViews.TestView.GetCurrentTableData`). After `selectTable("ankara")` the working list
  is Ankara's own list (`Scenarios.SelectIgnoringCase`), so records saved with `saveNewItem`
  go to Ankara, while `getCurrentTableData()` binds and returns a new empty list under the
  key "ankara". Likewise `deleteItem` works on the exact-key list, not the working list.
- `editItem` does not check that a table is selected.

## Left out

- Records are values. The source shares record objects within a list, between lists, and
  between the staging fields and a list: `loadDataAgain` copies a list but not its records,
  `setNewItem` given the same object twice adds that one object twice (see `Scenarios.SaveTwice`),
  and when the refresh inside `updateItem` throws, `editedItem` stays the very object just stored
  in the working list. A change made through a record's setters (`saveEditItem`, or editing the
  staged record) therefore shows, in the source, everywhere that record is shared; the model
  changes only the one copy it names.
- Messages to the user (`FacesContext`), the ajax update call and `System.out` logging are UI
  and console output. Each operation reports only whether it fired and whether it threw.
- The request parameter read by `init` is a constructor parameter, `requestedTable`.
- The random UUID of a new record is a caller-supplied id (`freshId`, `ids`).
- The real case folding of `equalsIgnoreCase` is a reflexive relation given at construction.
- The concrete `HashMap` iteration order is left open: methods take an order that visits
  every key once, or draw one from `Common.IterationOrder`.
- The unused fields `string`, `integer`, `decimal`, `localDateTime` and `editedItemIndex`,
  the getters, `setSelectedTable`, `setCurrentTableData`, `setTableData`, `setEditing`
  and `setEditingIndex` hold no logic and are not modelled.
- `getTables` of both classes returns a view of state that is already a field of the model.
- Jakarta lifecycle and injection: the catalog is built with the store it works with.
- `setTables` takes a list by reference in the source. The model copies the value, so later
  changes through the caller's list are not seen.
- `src/main/webapp/resources/test.js` is page styling and is not part of this model.
- `TableViews.TableView.AddTable`: the contract does not state that the catalog keeps only
  trimmed names. `TableViews.AddTableKeepsTidy`, `TableViews.RenameKeepsTidy` and
  `TableViews.RemoveKeepsTidy` state it over the catalog's value.
- `Common.RemoveFirst`: the contract states only the length; the slice form of the result
  is stated in `TableViews.TableView.RemoveTable` and `Common.RemoveFirstCounts`.
