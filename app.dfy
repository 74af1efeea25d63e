/** `PersonApp`'s in-memory list `persons` and the three handlers that change
    it together with the table: `onSavePerson`, `onUpdatePerson` and
    `onDeletePerson`, plus the two forms that call the first two after the
    blank-field guard. */
module App {
  import opened Records
  import opened Store
  import opened FormGuard

  // ---------------------------------------------------------------------
  // Kotlin list operations used by the handlers

  /** `indexOfFirst(pred)`: the first index whose element satisfies `pred`, or -1. */
  function IndexOfFirst(s: seq<Person>, pred: Person -> bool): (r: int)
    ensures -1 <= r < |s|
    ensures r == -1 <==> forall i :: 0 <= i < |s| ==> !pred(s[i])
    ensures r != -1 ==> pred(s[r]) && forall i :: 0 <= i < r ==> !pred(s[i])
  {
    if s == [] then -1
    else if pred(s[0]) then 0
    else
      var k := IndexOfFirst(s[1..], pred);
      if k == -1 then -1 else k + 1
  }

  /** `indexOfFirst { it.id == id }`. */
  function IndexOfId(s: seq<Person>, id: int): int
  {
    IndexOfFirst(s, (q: Person) => q.id == id)
  }

  /** `remove(x)`: drops the first element structurally equal to `x`, if any. */
  function RemoveFirst(s: seq<Person>, x: Person): (r: seq<Person>)
    ensures x !in s ==> r == s
    ensures x in s ==> |r| == |s| - 1
    ensures multiset(r) == multiset(s) - multiset{x}
    ensures x in s ==> exists i :: 0 <= i < |s| && s[i] == x && x !in s[..i] && r == s[..i] + s[i + 1..]
  {
    var i := IndexOfFirst(s, (q: Person) => q == x);
    if i == -1 then s
    else
      assert s[i] == x && x !in s[..i];
      assert s == s[..i] + [s[i]] + s[i + 1..];
      s[..i] + s[i + 1..]
  }

  // ---------------------------------------------------------------------
  // The cache mirrors the table

  /** The cache holds exactly the table's records (as a multiset, so with
      unique ids also as a set), in whatever order. */
  predicate Mirrors(cache: seq<Person>, rows: seq<Person>)
  {
    multiset(cache) == multiset(rows)
  }

  lemma MirrorsSameRecords(cache: seq<Person>, rows: seq<Person>)
    requires Mirrors(cache, rows)
    ensures forall x :: x in cache <==> x in rows
  {
    forall x ensures x in cache <==> x in rows {
      assert x in cache <==> x in multiset(cache);
    }
  }

  /** A record in the cache is one of the table's rows. */
  lemma MirroredRow(cache: seq<Person>, rows: seq<Person>, i: int) returns (j: int)
    requires Mirrors(cache, rows) && 0 <= i < |cache|
    ensures 0 <= j < |rows| && rows[j] == cache[i]
  {
    assert cache[i] in multiset(rows);
    j :| 0 <= j < |rows| && rows[j] == cache[i];
  }

  /** A successful update applied to both sides, at the cache entry
      `indexOfFirst` finds, keeps them mirrored. */
  lemma UpdateKeepsMirror(cache: seq<Person>, rows: seq<Person>, updated: Person)
    requires Mirrors(cache, rows) && IdsIncreasing(rows) && HasId(rows, updated.id)
    ensures IndexOfId(cache, updated.id) != -1
    ensures Mirrors(cache[IndexOfId(cache, updated.id) := updated], UpdateRows(rows, updated))
  {
    var k :| 0 <= k < |rows| && rows[k].id == updated.id;
    assert rows[k] in multiset(cache);
    var i := IndexOfId(cache, updated.id);
    assert i != -1 by {
      var c :| 0 <= c < |cache| && cache[c] == rows[k];
      assert cache[c].id == updated.id;
    }
    var j := MirroredRow(cache, rows, i);
    assert j == k;
    UpdateRowsAt(rows, k, updated);
    calc {
      multiset(cache[i := updated]);
      multiset(cache) - multiset{cache[i]} + multiset{updated};
      multiset(rows) - multiset{rows[k]} + multiset{updated};
      multiset(rows[k := updated]);
    }
  }

  /** Deleting a record taken from the cache keeps cache and table mirrored. */
  lemma DeleteKeepsMirror(cache: seq<Person>, rows: seq<Person>, person: Person)
    requires Mirrors(cache, rows) && IdsIncreasing(rows) && person in cache
    ensures Mirrors(RemoveFirst(cache, person), RemoveId(rows, person.id))
  {
    var c :| 0 <= c < |cache| && cache[c] == person;
    var k := MirroredRow(cache, rows, c);
    RemoveIdAt(rows, k);
    MultisetWithout(rows, k);
  }

  /** Deleting a stale copy (same id, different fields) removes the row from
      the table but nothing from the cache: the two no longer agree. */
  lemma StaleDeleteDiverges(cache: seq<Person>, rows: seq<Person>, person: Person)
    requires Mirrors(cache, rows) && person !in cache && HasId(rows, person.id)
    ensures !Mirrors(RemoveFirst(cache, person), RemoveId(rows, person.id))
  {
  }

  // ---------------------------------------------------------------------
  // The composable's state

  class PersonApp {
    /** `remember { PersonDatabaseHelper(context) }`. */
    const db: PersonDatabaseHelper
    /** `remember { mutableStateListOf<Person>() }`. */
    var persons: seq<Person>

    predicate Valid()
      reads this, db
    {
      db.Valid()
    }

    /** The cache agrees with the table. */
    predicate Synced()
      reads this, db
    {
      Mirrors(persons, db.rows)
    }

    /** First composition: the list is filled once from `getAllPersons()`. */
    constructor (helper: PersonDatabaseHelper)
      requires helper.Valid()
      ensures db == helper && Valid() && Synced()
      ensures SortedByLastName(persons)
      ensures db.rows == old(helper.rows) && db.lastId == old(helper.lastId)
    {
      db := helper;
      var loaded := helper.GetAllPersons();
      persons := loaded;
    }

    /** `onSavePerson`: insert a record built from the six fields with id 0,
        and append it, with the id the table gave it, only if the insert
        succeeded. The list is not re-sorted. */
    method OnSavePerson(firstName: string, lastName: string, birthDate: string,
                        phone: string, email: string, address: string, commitOk: bool)
      requires Valid()
      modifies this, db
      ensures Valid()
      ensures var ok := commitOk && old(db.lastId) < MaxRowId;
              var saved := Person(old(db.lastId) + 1, firstName, lastName, birthDate, phone, email, address);
              && (ok ==> persons == old(persons) + [saved] && db.rows == old(db.rows) + [saved] && db.lastId == old(db.lastId) + 1)
              && (!ok ==> persons == old(persons) && db.rows == old(db.rows) && db.lastId == old(db.lastId))
      ensures old(Synced()) ==> Synced()
    {
      var tempPerson := Person(0, firstName, lastName, birthDate, phone, email, address);
      var newId := db.InsertPerson(tempPerson, commitOk);
      if newId != InsertFailed {
        persons := persons + [tempPerson.(id := newId)];
      }
    }

    /** `onUpdatePerson`: update the table and, only if a row was affected,
        replace the first list entry with the same id in place. */
    method OnUpdatePerson(updated: Person)
      requires Valid()
      modifies this, db
      ensures Valid() && db.lastId == old(db.lastId)
      ensures db.rows == UpdateRows(old(db.rows), updated)
      ensures var idx := IndexOfId(old(persons), updated.id);
              persons == if HasId(old(db.rows), updated.id) && idx != -1
                         then old(persons)[idx := updated]
                         else old(persons)
      ensures old(Synced()) ==> Synced()
    {
      ghost var cache0, rows0 := persons, db.rows;
      var rows := db.UpdatePerson(updated);
      if rows > 0 {
        var idx := IndexOfId(persons, updated.id);
        if idx != -1 {
          persons := persons[idx := updated];
        }
      }
      if Mirrors(cache0, rows0) {
        if HasId(rows0, updated.id) {
          UpdateKeepsMirror(cache0, rows0, updated);
        } else {
          UpdateRowsAbsent(rows0, updated);
        }
      }
    }

    /** `onDeletePerson`: delete the row by id, then remove the record from the
        list by structural equality, whatever the table did. */
    method OnDeletePerson(person: Person)
      requires Valid()
      modifies this, db
      ensures Valid() && db.lastId == old(db.lastId)
      ensures db.rows == RemoveId(old(db.rows), person.id)
      ensures persons == RemoveFirst(old(persons), person)
      ensures old(Synced()) && person in old(persons) ==> Synced()
    {
      ghost var cache0, rows0 := persons, db.rows;
      db.DeletePerson(person.id);
      persons := RemoveFirst(persons, person);
      if Mirrors(cache0, rows0) && person in cache0 {
        DeleteKeepsMirror(cache0, rows0, person);
      }
    }

    /** The add form's Save button: nothing happens if any field is blank. */
    method SubmitAddForm(firstName: string, lastName: string, birthDate: string,
                         phone: string, email: string, address: string, commitOk: bool)
      returns (attempted: bool)
      requires Valid()
      modifies this, db
      ensures Valid()
      ensures attempted == !AnyBlank(FormValues(firstName, lastName, birthDate, phone, email, address))
      ensures !attempted ==> persons == old(persons) && db.rows == old(db.rows) && db.lastId == old(db.lastId)
      ensures attempted ==>
                var ok := commitOk && old(db.lastId) < MaxRowId;
                var saved := Person(old(db.lastId) + 1, firstName, lastName, birthDate, phone, email, address);
                && (ok ==> persons == old(persons) + [saved] && db.rows == old(db.rows) + [saved] && db.lastId == old(db.lastId) + 1)
                && (!ok ==> persons == old(persons) && db.rows == old(db.rows) && db.lastId == old(db.lastId))
      ensures old(Synced()) ==> Synced()
    {
      attempted := !AnyBlank(FormValues(firstName, lastName, birthDate, phone, email, address));
      if attempted {
        OnSavePerson(firstName, lastName, birthDate, phone, email, address, commitOk);
      }
    }

    /** The edit form's Save button: the selected record keeps its id and
        takes the six new fields; nothing happens if any field is blank. */
    method SubmitEditForm(person: Person, firstName: string, lastName: string, birthDate: string,
                          phone: string, email: string, address: string)
      returns (attempted: bool)
      requires Valid()
      modifies this, db
      ensures Valid() && db.lastId == old(db.lastId)
      ensures attempted == !AnyBlank(FormValues(firstName, lastName, birthDate, phone, email, address))
      ensures !attempted ==> persons == old(persons) && db.rows == old(db.rows)
      ensures attempted ==>
                var updated := Person(person.id, firstName, lastName, birthDate, phone, email, address);
                var idx := IndexOfId(old(persons), person.id);
                && db.rows == UpdateRows(old(db.rows), updated)
                && persons == if HasId(old(db.rows), person.id) && idx != -1
                              then old(persons)[idx := updated]
                              else old(persons)
      ensures old(Synced()) ==> Synced()
    {
      attempted := !AnyBlank(FormValues(firstName, lastName, birthDate, phone, email, address));
      if attempted {
        var updated := person.(firstName := firstName, lastName := lastName, birthDate := birthDate,
                               phone := phone, email := email, address := address);
        OnUpdatePerson(updated);
      }
    }
  }

  /** Two records saved in the order Nowak, Adamski are listed Adamski first. */
  method ListingScenario() returns (listed: seq<Person>)
    ensures |listed| == 2
    ensures listed[0].lastName == "Adamski" && listed[1].lastName == "Nowak"
  {
    var helper := new PersonDatabaseHelper.OnCreate();
    var idN := helper.InsertPerson(Person(0, "Anna", "Nowak", "1990-01-01", "", "a@x", "Warszawa"), true);
    var idA := helper.InsertPerson(Person(0, "Jan", "Adamski", "1985-05-05", "", "j@x", "Krakow"), true);
    listed := helper.GetAllPersons();
    var n := Person(1, "Anna", "Nowak", "1990-01-01", "", "a@x", "Warszawa");
    var a := Person(2, "Jan", "Adamski", "1985-05-05", "", "j@x", "Krakow");
    assert helper.rows == [n, a];
    assert multiset(listed) == multiset{n, a};
    assert |listed| == 2;
    assert listed[0] in multiset(listed) && listed[1] in multiset(listed);
    assert !Collation.Leq("Nowak", "Adamski");
  }
}
