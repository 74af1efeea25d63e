/** The `persons` table behind `PersonDatabaseHelper`, modelled abstractly:
    its rows in rowid order and the AUTOINCREMENT counter SQLite keeps for it
    in `sqlite_sequence`. */
module Store {
  import opened Records
  import opened Collation

  /** The largest rowid SQLite can assign (2^63 - 1). */
  const MaxRowId: int := 0x7FFF_FFFF_FFFF_FFFF

  /** What `SQLiteDatabase.insert` returns when the row was not written. */
  const InsertFailed: int := -1

  // ---------------------------------------------------------------------
  // The table as a value

  /** Rows are kept in rowid order; rowids are unique. */
  predicate IdsIncreasing(rows: seq<Person>)
  {
    forall i, j :: 0 <= i < j < |rows| ==> rows[i].id < rows[j].id
  }

  predicate HasId(rows: seq<Person>, id: int)
  {
    exists i :: 0 <= i < |rows| && rows[i].id == id
  }

  /** A well-formed table: unique increasing ids, all between 1 and the
      AUTOINCREMENT high-water mark `lastId`, which is itself a valid rowid. */
  predicate TableValid(rows: seq<Person>, lastId: int)
  {
    && IdsIncreasing(rows)
    && 0 <= lastId <= MaxRowId
    && forall i :: 0 <= i < |rows| ==> 1 <= rows[i].id <= lastId
  }

  /** The number of rows an `id = ?` WHERE clause selects. */
  function CountId(rows: seq<Person>, id: int): nat
  {
    if rows == [] then 0
    else (if rows[0].id == id then 1 else 0) + CountId(rows[1..], id)
  }

  /** No row after the first carries the first row's id. */
  lemma HeadIdNotInTail(rows: seq<Person>)
    requires IdsIncreasing(rows) && rows != []
    ensures !HasId(rows[1..], rows[0].id)
  {
  }

  lemma {:induction false} CountIdUnique(rows: seq<Person>, id: int)
    requires IdsIncreasing(rows)
    ensures CountId(rows, id) == if HasId(rows, id) then 1 else 0
  {
    if rows != [] {
      var tail := rows[1..];
      assert IdsIncreasing(tail);
      CountIdUnique(tail, id);
      if rows[0].id == id {
        HeadIdNotInTail(rows);
      } else {
        if HasId(rows, id) {
          var i :| 0 <= i < |rows| && rows[i].id == id;
          assert tail[i - 1] == rows[i];
        }
        if HasId(tail, id) {
          var i :| 0 <= i < |tail| && tail[i].id == id;
          assert rows[i + 1] == tail[i];
        }
      }
    }
  }

  /** The table after `UPDATE persons SET <six columns> WHERE id = ?`. */
  function UpdateRows(rows: seq<Person>, p: Person): (r: seq<Person>)
    ensures |r| == |rows|
    ensures forall i :: 0 <= i < |rows| ==> r[i].id == rows[i].id
    ensures forall i :: 0 <= i < |rows| && rows[i].id == p.id ==> r[i] == p
    ensures forall i :: 0 <= i < |rows| && rows[i].id != p.id ==> r[i] == rows[i]
  {
    seq(|rows|, i requires 0 <= i < |rows| => if rows[i].id == p.id then WithFields(rows[i], p) else rows[i])
  }

  /** With unique ids, an update replaces exactly one row in place. */
  lemma UpdateRowsAt(rows: seq<Person>, k: int, p: Person)
    requires IdsIncreasing(rows) && 0 <= k < |rows| && rows[k].id == p.id
    ensures UpdateRows(rows, p) == rows[k := p]
  {
  }

  lemma UpdateRowsAbsent(rows: seq<Person>, p: Person)
    requires !HasId(rows, p.id)
    ensures UpdateRows(rows, p) == rows
  {
  }

  /** The table after `DELETE FROM persons WHERE id = ?`. */
  function RemoveId(rows: seq<Person>, id: int): (r: seq<Person>)
    ensures forall x :: x in r <==> x in rows && x.id != id
    ensures !HasId(rows, id) ==> r == rows
    ensures HasId(rows, id) ==> |r| < |rows|
    ensures |r| <= |rows|
  {
    if rows == [] then []
    else if rows[0].id == id then RemoveId(rows[1..], id)
    else
      assert HasId(rows[1..], id) ==> HasId(rows, id) by {
        if HasId(rows[1..], id) {
          var i :| 0 <= i < |rows[1..]| && rows[1..][i].id == id;
          assert rows[i + 1].id == id;
        }
      }
      assert HasId(rows, id) ==> HasId(rows[1..], id) by {
        if HasId(rows, id) {
          var i :| 0 <= i < |rows| && rows[i].id == id;
          assert rows[1..][i - 1].id == id;
        }
      }
      [rows[0]] + RemoveId(rows[1..], id)
  }

  lemma {:induction false} RemoveIdKeepsIncreasing(rows: seq<Person>, id: int)
    requires IdsIncreasing(rows)
    ensures IdsIncreasing(RemoveId(rows, id))
  {
    if rows != [] {
      var tail := rows[1..];
      assert IdsIncreasing(tail);
      RemoveIdKeepsIncreasing(tail, id);
      if rows[0].id != id {
        var r := RemoveId(tail, id);
        forall j | 0 <= j < |r| ensures rows[0].id < r[j].id {
          assert r[j] in tail;
        }
        assert RemoveId(rows, id) == [rows[0]] + r;
      }
    }
  }

  /** A row whose id differs from the deleted one stays at the front. */
  lemma RemoveIdKeepsHead(rows: seq<Person>, id: int)
    requires rows != [] && rows[0].id != id
    ensures RemoveId(rows, id) == [rows[0]] + RemoveId(rows[1..], id)
  {
  }

  lemma TailIncreasing(rows: seq<Person>)
    requires IdsIncreasing(rows) && rows != []
    ensures IdsIncreasing(rows[1..])
  {
  }

  lemma SliceAfterHead<T>(s: seq<T>, k: int)
    requires 0 < k < |s|
    ensures s[..k] + s[k + 1..] == [s[0]] + (s[1..][..k - 1] + s[1..][k..])
  {
  }

  /** With unique ids, a delete removes exactly the one row carrying the id. */
  lemma {:induction false} RemoveIdAt(rows: seq<Person>, k: int)
    requires IdsIncreasing(rows) && 0 <= k < |rows|
    ensures RemoveId(rows, rows[k].id) == rows[..k] + rows[k + 1..]
  {
    if k == 0 {
      HeadIdNotInTail(rows);
    } else {
      TailIncreasing(rows);
      assert rows[1..][k - 1] == rows[k];
      RemoveIdAt(rows[1..], k - 1);
      assert rows[0].id < rows[k].id;
      RemoveIdKeepsHead(rows, rows[k].id);
      SliceAfterHead(rows, k);
    }
  }

  lemma RemoveIdIdempotent(rows: seq<Person>, id: int)
    ensures RemoveId(RemoveId(rows, id), id) == RemoveId(rows, id)
  {
  }

  // ---------------------------------------------------------------------
  // `ORDER BY last_name ASC`

  predicate SortedByLastName(s: seq<Person>)
  {
    forall i, j :: 0 <= i < j < |s| ==> Leq(s[i].lastName, s[j].lastName)
  }

  /** The engine's sorter, taken to be an insertion sort; which of several
      rows with equal last names comes first is not part of any contract. */
  function InsertByLastName(p: Person, s: seq<Person>): (r: seq<Person>)
    ensures multiset(r) == multiset(s) + multiset{p}
  {
    if s == [] || Leq(p.lastName, s[0].lastName) then [p] + s
    else
      assert s == [s[0]] + s[1..];
      [s[0]] + InsertByLastName(p, s[1..])
  }

  function SortByLastName(rows: seq<Person>): (r: seq<Person>)
    ensures multiset(r) == multiset(rows)
  {
    if rows == [] then []
    else
      assert rows == [rows[0]] + rows[1..];
      InsertByLastName(rows[0], SortByLastName(rows[1..]))
  }

  lemma {:induction false} InsertKeepsSorted(p: Person, s: seq<Person>)
    requires SortedByLastName(s)
    ensures SortedByLastName(InsertByLastName(p, s))
  {
    if s == [] {
    } else if Leq(p.lastName, s[0].lastName) {
      var r := [p] + s;
      forall j | 1 <= j < |r| ensures Leq(p.lastName, r[j].lastName) {
        if j > 1 { LeqTransitive(p.lastName, s[0].lastName, s[j - 1].lastName); }
      }
    } else {
      var tail := s[1..];
      assert SortedByLastName(tail);
      InsertKeepsSorted(p, tail);
      var t := InsertByLastName(p, tail);
      LeqTotal(p.lastName, s[0].lastName);
      forall k | 0 <= k < |t| ensures Leq(s[0].lastName, t[k].lastName) {
        assert t[k] in multiset(t);
        if t[k] != p {
          assert t[k] in multiset(tail);
          var j :| 0 <= j < |tail| && tail[j] == t[k];
          assert s[j + 1] == tail[j];
        }
      }
    }
  }

  lemma {:induction false} SortIsSorted(rows: seq<Person>)
    ensures SortedByLastName(SortByLastName(rows))
  {
    if rows != [] {
      SortIsSorted(rows[1..]);
      InsertKeepsSorted(rows[0], SortByLastName(rows[1..]));
    }
  }

  lemma MultisetWithout<T>(s: seq<T>, k: int)
    requires 0 <= k < |s|
    ensures multiset(s) == multiset(s[..k] + s[k + 1..]) + multiset{s[k]}
    ensures multiset(s[..k] + s[k + 1..]) == multiset(s) - multiset{s[k]}
  {
    assert s == s[..k] + [s[k]] + s[k + 1..];
  }

  lemma MultisetTail<T>(s: seq<T>)
    requires s != []
    ensures multiset(s) == multiset(s[1..]) + multiset{s[0]}
    ensures multiset(s[1..]) == multiset(s) - multiset{s[0]}
  {
    assert s == [s[0]] + s[1..];
  }

  /** The last-name column of a listing. */
  function LastNames(s: seq<Person>): seq<string>
  {
    seq(|s|, i requires 0 <= i < |s| => s[i].lastName)
  }

  lemma LastNamesWithout(s: seq<Person>, k: int)
    requires 0 <= k < |s|
    ensures LastNames(s[..k] + s[k + 1..]) == LastNames(s)[..k] + LastNames(s)[k + 1..]
  {
  }

  lemma {:induction false} LastNamesPermute(a: seq<Person>, b: seq<Person>)
    requires multiset(a) == multiset(b)
    ensures multiset(LastNames(a)) == multiset(LastNames(b))
    decreases |a|
  {
    if a != [] {
      assert a[0] in multiset(b);
      var j :| 0 <= j < |b| && b[j] == a[0];
      var b' := b[..j] + b[j + 1..];
      MultisetTail(a);
      MultisetWithout(b, j);
      LastNamesPermute(a[1..], b');
      var na, nb := LastNames(a), LastNames(b);
      assert LastNames(a[1..]) == na[1..];
      LastNamesWithout(b, j);
      MultisetTail(na);
      MultisetWithout(nb, j);
    }
  }

  predicate SortedNames(s: seq<string>)
  {
    forall i, j :: 0 <= i < j < |s| ==> Leq(s[i], s[j])
  }

  lemma SortedHeadIsLeast(s: seq<string>, x: string)
    requires SortedNames(s) && x in multiset(s)
    ensures Leq(s[0], x)
  {
    var i :| 0 <= i < |s| && s[i] == x;
    if i == 0 { LeqReflexive(x); }
  }

  /** Under a total order, a sorted arrangement of given strings is unique. */
  lemma {:induction false} SortedNamesUnique(s: seq<string>, t: seq<string>)
    requires SortedNames(s) && SortedNames(t) && multiset(s) == multiset(t)
    ensures s == t
    decreases |s|
  {
    if s != [] {
      assert s[0] in multiset(t) && t[0] in multiset(s);
      SortedHeadIsLeast(s, t[0]);
      SortedHeadIsLeast(t, s[0]);
      LeqAntisymmetric(s[0], t[0]);
      MultisetTail(s);
      MultisetTail(t);
      assert SortedNames(s[1..]) && SortedNames(t[1..]);
      SortedNamesUnique(s[1..], t[1..]);
      assert s == [s[0]] + s[1..] && t == [t[0]] + t[1..];
    }
  }

  /** Two listings of the same rows agree position by position on the last
      name: only the order among rows with equal last names can differ. */
  lemma ListingDeterminedUpToTies(a: seq<Person>, b: seq<Person>)
    requires multiset(a) == multiset(b) && SortedByLastName(a) && SortedByLastName(b)
    ensures LastNames(a) == LastNames(b)
  {
    LastNamesPermute(a, b);
    SortedNamesUnique(LastNames(a), LastNames(b));
  }

  // ---------------------------------------------------------------------
  // The helper object

  /** `PersonDatabaseHelper`: the only writer of the `persons` table. */
  class PersonDatabaseHelper {
    /** The table's rows, in rowid order. */
    var rows: seq<Person>
    /** The table's entry in `sqlite_sequence`: the largest id ever assigned. */
    var lastId: int

    predicate Valid()
      reads this
    {
      TableValid(rows, lastId)
    }

    /** `onCreate`: the database file did not exist, the table is created empty. */
    constructor OnCreate()
      ensures Valid() && rows == [] && lastId == 0
    {
      rows, lastId := [], 0;
    }

    /** Opening a database file that already holds the table. */
    constructor Open(stored: seq<Person>, storedLastId: int)
      requires TableValid(stored, storedLastId)
      ensures Valid() && rows == stored && lastId == storedLastId
    {
      rows, lastId := stored, storedLastId;
    }

    /** `onUpgrade`: drop the table and create it again. Dropping an
        AUTOINCREMENT table also drops its `sqlite_sequence` entry, so ids
        start from 1 again. */
    method OnUpgrade(oldVersion: int, newVersion: int)
      modifies this
      ensures Valid() && rows == [] && lastId == 0
    {
      rows, lastId := [], 0;
    }

    /** `insertPerson`: writes the six text fields of `person` (its id is not
        written) and returns the new rowid, or -1 when nothing was written.
        `commitOk` is the outcome of the write itself; independently of it,
        SQLite refuses once the largest possible rowid has been used. */
    method InsertPerson(person: Person, commitOk: bool) returns (newId: int)
      requires Valid()
      modifies this
      ensures Valid()
      ensures newId == (if commitOk && old(lastId) < MaxRowId then old(lastId) + 1 else InsertFailed)
      ensures newId == InsertFailed ==> rows == old(rows) && lastId == old(lastId)
      ensures newId != InsertFailed ==>
                && rows == old(rows) + [person.(id := newId)]
                && lastId == newId
                && newId > old(lastId)
                && !HasId(old(rows), newId)
    {
      if commitOk && lastId < MaxRowId {
        newId := lastId + 1;
        rows := rows + [person.(id := newId)];
        lastId := newId;
      } else {
        newId := InsertFailed;
      }
    }

    /** `updatePerson`: overwrites the six text fields of the row whose id is
        `person.id` and returns the number of rows affected. */
    method UpdatePerson(person: Person) returns (count: int)
      requires Valid()
      modifies this
      ensures Valid() && lastId == old(lastId)
      ensures rows == UpdateRows(old(rows), person)
      ensures count == CountId(old(rows), person.id)
      ensures count == if HasId(old(rows), person.id) then 1 else 0
    {
      CountIdUnique(rows, person.id);
      count := CountId(rows, person.id);
      rows := UpdateRows(rows, person);
    }

    /** `deletePerson`: removes the row with this id, if there is one. */
    method DeletePerson(id: int)
      requires Valid()
      modifies this
      ensures Valid() && lastId == old(lastId)
      ensures rows == RemoveId(old(rows), id)
      ensures !HasId(rows, id)
    {
      RemoveIdKeepsIncreasing(rows, id);
      rows := RemoveId(rows, id);
      RemoveIdIdempotent(old(rows), id);
    }

    /** `getAllPersons`: runs `SELECT * FROM persons ORDER BY last_name ASC`
        and copies each row the cursor visits into a new list. */
    method GetAllPersons() returns (list: seq<Person>)
      ensures multiset(list) == multiset(rows)
      ensures SortedByLastName(list)
    {
      var cursor := SortByLastName(rows);
      SortIsSorted(rows);
      list := [];
      var pos := 0;
      if pos < |cursor| {
        var hasNext := true;
        while hasNext
          invariant 0 <= pos <= |cursor|
          invariant hasNext <==> pos < |cursor|
          invariant list == cursor[..pos]
          decreases |cursor| - pos
        {
          var row := cursor[pos];
          var person := Person(row.id, row.firstName, row.lastName, row.birthDate,
                               row.phone, row.email, row.address);
          list := list + [person];
          pos := pos + 1;
          hasNext := pos < |cursor|;
        }
      }
      assert list == cursor;
    }
  }
}
