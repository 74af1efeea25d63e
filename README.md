# Person store and its in-memory mirror

A Dafny model of the data core of a small Android contact manager
(`MainActivity.kt`). The app keeps `Person` records in one SQLite table,
`persons`, through `PersonDatabaseHelper`. The composable `PersonApp` keeps an
in-memory list of them (`persons`) for display. That list is filled once from
the table at start-up. After that it changes only through three handlers:
save, update and delete. Each handler calls the helper first. The delete
screen filters the list by last name, ignoring case. Both forms refuse to
submit when a field is blank.

The modules follow the parts of that file:

- `Records` (`records.dfy`): the `Person` data class. Its equality is structural over all seven fields.
- `Collation` (`collation.dfy`): SQLite's BINARY collation, used by `ORDER BY last_name ASC`. It is proved to be a total order and to be the usual lexicographic order.
- `Store` (`store.dfy`): the table as a value and the class `PersonDatabaseHelper`.
  - The value is the rows in rowid order plus the AUTOINCREMENT counter that SQLite keeps in `sqlite_sequence`.
  - The functions give the effect of each SQL statement. The class methods are proved against those functions.
- `Search` (`search.dfy`): `lastName.contains(query, ignoreCase = true)` and the filter over the list.
- `FormGuard` (`formguard.dfy`): `values.any { it.isBlank() }`.
- `App` (`app.dfy`): the class `PersonApp`, with the helper and the list `persons`. It also has the Kotlin list operations the handlers use and the lemmas that the handlers keep list and table in agreement.

How the model treats the table and the list:

- Table rows are kept in rowid order, with ids strictly increasing.
- `lastId` is the largest id ever assigned. An insert assigns `lastId + 1`.
- The insert fails, returning -1 and changing nothing, in two cases:
  - the write itself fails. The model gets this as the flag `commitOk`, because the cause is outside the program.
  - the largest rowid, 2^63 - 1, has already been used. SQLite then refuses the insert.
- `onUpgrade` drops the table. This also removes its `sqlite_sequence` entry, so ids start again from 1. Ids are never reused between two upgrades.
- The list mirrors the table as a multiset: the same records, the same number of times, in any order. This implies that the two hold the same set of records (`App.MirrorsSameRecords`). It also rules out duplicates in the list, because the table's ids are unique.

Three behaviours of the code worth noting:

- The delete handler removes the first list entry that is *structurally equal* to the given record (`persons.remove(person)`). It does not remove by id. `App.StaleDeleteDiverges` shows the effect: deleting a stale copy (same id, other fields) removes the row from the table but leaves the list unchanged, so the two no longer agree.
- The listing is sorted by last name. The order among rows with equal last names is not promised: SQLite leaves it undefined.
  - The model's engine happens to use a stable insertion sort.
  - No contract relies on that choice. `Store.ListingDeterminedUpToTies` proves that any two sorted listings of the same rows have the same sequence of last names.
- A save appends the new record at the end of the list. The list is not re-sorted, so after a save it need not be in last-name order.

## Model

| member | source | states |
|---|---|---|
| Records.WithFields | app/src/main/java/com/example/myapplication/MainActivity.kt:75-90 | the UPDATE sets the six text columns from the argument and keeps the row's id; when the ids agree the row becomes the argument |
| Collation.LeqIsLexicographic | app/src/main/java/com/example/myapplication/MainActivity.kt:101 | the BINARY comparison is exactly the textbook lexicographic order: a is a prefix of b, or at the first difference a has the smaller character |
| Collation.LeqReflexive | app/src/main/java/com/example/myapplication/MainActivity.kt:101 | every last name sorts with itself |
| Collation.LeqTotal | app/src/main/java/com/example/myapplication/MainActivity.kt:101 | any two last names are comparable |
| Collation.LeqTransitive | app/src/main/java/com/example/myapplication/MainActivity.kt:101 | the order is transitive |
| Collation.LeqAntisymmetric | app/src/main/java/com/example/myapplication/MainActivity.kt:101 | two names that each sort before the other are equal |
| Store.CountIdUnique | app/src/main/java/com/example/myapplication/MainActivity.kt:84-89 | with unique ids the `id = ?` clause matches 1 row if the id is present and 0 otherwise |
| Store.UpdateRows | app/src/main/java/com/example/myapplication/MainActivity.kt:75-90 | same length, every id unchanged, rows with the id become the argument, all other rows untouched |
| Store.UpdateRowsAt | app/src/main/java/com/example/myapplication/MainActivity.kt:75-90 | with unique ids an update replaces exactly the one matching row in place |
| Store.UpdateRowsAbsent | app/src/main/java/com/example/myapplication/MainActivity.kt:75-90 | updating an absent id leaves the table unchanged |
| Store.RemoveId | app/src/main/java/com/example/myapplication/MainActivity.kt:123-125 | a row remains iff it was there and has another id; deleting an absent id changes nothing; deleting a present one shrinks the table |
| Store.RemoveIdKeepsIncreasing | app/src/main/java/com/example/myapplication/MainActivity.kt:123-125 | a delete keeps the remaining rows in rowid order with unique ids |
| Store.RemoveIdAt | app/src/main/java/com/example/myapplication/MainActivity.kt:123-125 | with unique ids a delete removes exactly the one row with that id and keeps the order of the rest |
| Store.RemoveIdIdempotent | app/src/main/java/com/example/myapplication/MainActivity.kt:123-125 | deleting the same id twice is the same as deleting it once |
| Store.InsertByLastName | app/src/main/java/com/example/myapplication/MainActivity.kt:92-102 | one step of the engine's sort adds the row and loses none |
| Store.InsertKeepsSorted | app/src/main/java/com/example/myapplication/MainActivity.kt:101 | inserting into a list sorted by last name keeps it sorted |
| Store.SortByLastName | app/src/main/java/com/example/myapplication/MainActivity.kt:92-102 | the ordered query returns a permutation of the table's rows |
| Store.SortIsSorted | app/src/main/java/com/example/myapplication/MainActivity.kt:101 | the ordered query's rows are in ascending last-name order |
| Store.LastNamesPermute | app/src/main/java/com/example/myapplication/MainActivity.kt:92-121 | permuting the rows permutes their last names |
| Store.SortedNamesUnique | app/src/main/java/com/example/myapplication/MainActivity.kt:101 | there is only one ascending arrangement of a given collection of last names |
| Store.ListingDeterminedUpToTies | app/src/main/java/com/example/myapplication/MainActivity.kt:92-121 | two listings of the same rows agree position by position on the last name; only ties may come in another order |
| Store.PersonDatabaseHelper.OnCreate | app/src/main/java/com/example/myapplication/MainActivity.kt:42-56 | a new table is empty and its AUTOINCREMENT counter is 0 |
| Store.PersonDatabaseHelper.Open | app/src/main/java/com/example/myapplication/MainActivity.kt:39-40 | opening an existing database file exposes its rows and counter unchanged |
| Store.PersonDatabaseHelper.OnUpgrade | app/src/main/java/com/example/myapplication/MainActivity.kt:58-61 | drop and recreate: the table is empty and the id counter is reset |
| Store.PersonDatabaseHelper.InsertPerson | app/src/main/java/com/example/myapplication/MainActivity.kt:63-72 | returns lastId + 1 and appends the six given fields under that id, ignoring the caller's id; the new id exceeds every id ever assigned; on a failed write or an exhausted rowid space it returns -1 and changes nothing |
| Store.PersonDatabaseHelper.UpdatePerson | app/src/main/java/com/example/myapplication/MainActivity.kt:75-90 | the table becomes UpdateRows of the old table; returns the number of rows matched, which is 1 if the id is present and 0 otherwise |
| Store.PersonDatabaseHelper.DeletePerson | app/src/main/java/com/example/myapplication/MainActivity.kt:123-125 | the table becomes RemoveId of the old table; afterwards no row has that id |
| Store.PersonDatabaseHelper.GetAllPersons | app/src/main/java/com/example/myapplication/MainActivity.kt:92-121 | the list holds exactly the table's rows, each copied field by field, in ascending last-name order |
| Search.IndexOfIgnoreCase | app/src/main/java/com/example/myapplication/MainActivity.kt:661-663 | returns the first start position from `from` at which the query matches ignoring case, or -1 exactly when there is none |
| Search.ContainsAt | app/src/main/java/com/example/myapplication/MainActivity.kt:661-663 | a query that occurs at any position, not only at the start, is found |
| Search.ContainsIgnoresQueryCase | app/src/main/java/com/example/myapplication/MainActivity.kt:661-663 | upper-casing the query does not change whether it is found |
| Search.SearchByLastName | app/src/main/java/com/example/myapplication/MainActivity.kt:661-663 | each record occurs in the result as often as in the list when its last name contains the query ignoring case, and otherwise not at all |
| Search.SearchIsSubsequence | app/src/main/java/com/example/myapplication/MainActivity.kt:661-663 | the result keeps the list's order: it is a subsequence of the list |
| Search.EmptyQueryKeepsAll | app/src/main/java/com/example/myapplication/MainActivity.kt:661-663 | an empty query returns the whole list |
| FormGuard.AcceptedFieldsHaveContent | app/src/main/java/com/example/myapplication/MainActivity.kt:495-503 | a form that passes the blank-field guard has a non-whitespace character in every field, so no field is empty |
| App.IndexOfFirst | app/src/main/java/com/example/myapplication/MainActivity.kt:301 | returns the first index whose element satisfies the predicate, or -1 exactly when none does |
| App.RemoveFirst | app/src/main/java/com/example/myapplication/MainActivity.kt:308 | removes the first entry structurally equal to the record, keeping the others in order, if one is present; changes nothing if none is |
| App.MirrorsSameRecords | app/src/main/java/com/example/myapplication/MainActivity.kt:276-278 | a list that mirrors the table holds the same set of records |
| App.UpdateKeepsMirror | app/src/main/java/com/example/myapplication/MainActivity.kt:298-304 | after an update that matched a row, `indexOfFirst` finds the entry, and replacing it keeps list and table mirrored |
| App.DeleteKeepsMirror | app/src/main/java/com/example/myapplication/MainActivity.kt:306-309 | deleting a record taken from the list keeps list and table mirrored |
| App.StaleDeleteDiverges | app/src/main/java/com/example/myapplication/MainActivity.kt:306-309 | deleting a record that is not in the list, but whose id is in the table, breaks the mirror |
| App.PersonApp.constructor | app/src/main/java/com/example/myapplication/MainActivity.kt:276-278 | the list is loaded once from `getAllPersons`: it mirrors the table, in last-name order |
| App.PersonApp.OnSavePerson | app/src/main/java/com/example/myapplication/MainActivity.kt:291-296 | on success the new record, with its assigned id, is appended to both list and table, and the counter advances by one; on failure neither changes; the mirror is preserved |
| App.PersonApp.OnUpdatePerson | app/src/main/java/com/example/myapplication/MainActivity.kt:298-304 | the list changes only if the table had the id and some entry has it, at the first such index; length and other positions are unchanged; the mirror is preserved |
| App.PersonApp.OnDeletePerson | app/src/main/java/com/example/myapplication/MainActivity.kt:306-309 | the table loses the row with the id; the list loses the first structurally equal entry, whatever the table did; the mirror is preserved when the record came from the list |
| App.PersonApp.SubmitAddForm | app/src/main/java/com/example/myapplication/MainActivity.kt:493-512 | the save is attempted exactly when no field is blank, with the same outcome as the save handler, counter included; otherwise nothing changes |
| App.PersonApp.SubmitEditForm | app/src/main/java/com/example/myapplication/MainActivity.kt:588-608 | the update, with the selected id and the six new fields, is attempted exactly when no field is blank |
| App.ListingScenario | app/src/main/java/com/example/myapplication/MainActivity.kt:92-102 | records saved as Nowak then Adamski are listed Adamski first |

## Left out

- The Compose screens, the `Screen` navigation, `BackHandler`, the `AppLang` and `Strings` localisation and `stringsFor`. They are presentation only.
- Snackbars and coroutine launches. They are asynchronous UI effects. A blank form is modelled as "nothing happens".
- The SQLite engine, `ContentValues`, cursors and files. The table is an abstract value, and a failed insert write is an input flag.
- The `SQLiteOpenHelper` lifecycle: when `onCreate` and `onUpgrade` are called, and the version numbers. `onUpgrade`'s version arguments are accepted and ignored, as in the source.
- An I/O failure inside `update` or `delete`. Android reports these by throwing, not by a return value, and the handlers do not catch the exception. The model's update and delete always complete.
- Store.PersonDatabaseHelper.GetAllPersons: does not say how rows with equal last names are ordered, because SQLite does not promise it.
- Search.CharEqualsIgnoreCase: case is folded for ASCII letters only. Kotlin's `contains(..., ignoreCase = true)` folds all of Unicode.
- FormGuard.IsWhitespace: follows the JVM's `isWhitespace` and `isSpaceChar` for the current Unicode space characters. It is not tied to a particular Unicode version.
- `mutableStateListOf` change notification. The list is a plain sequence.
- The Kotlin `Long` width of a record's id is not fixed in `Person`. The ids the table assigns are bounded by 2^63 - 1.
