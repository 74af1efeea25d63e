/** The delete screen's search box:
    `persons.filter { it.lastName.contains(query, ignoreCase = true) }`.
    Case folding is restricted to ASCII letters. */
module Search {
  import opened Records

  function UpperAscii(c: char): char
  {
    if 'a' <= c <= 'z' then (c as int - 32) as char else c
  }

  /** Kotlin's `Char.equals(other, ignoreCase = true)`. */
  predicate CharEqualsIgnoreCase(a: char, b: char)
  {
    a == b || UpperAscii(a) == UpperAscii(b)
  }

  /** `query.regionMatches(0, s, offset, query.length, ignoreCase = true)`:
      false when the region would run past the end of `s`. */
  predicate RegionMatchesIgnoreCase(s: string, offset: nat, query: string)
  {
    && offset + |query| <= |s|
    && forall k :: 0 <= k < |query| ==> CharEqualsIgnoreCase(s[offset + k], query[k])
  }

  /** `s.indexOf(query, from, ignoreCase = true)`: tries every start index from
      `from` up to and including `s.length` and returns the first that matches. */
  function IndexOfIgnoreCase(s: string, query: string, from: nat): (r: int)
    ensures r == -1 || (from <= r <= |s| - |query| && RegionMatchesIgnoreCase(s, r, query))
    ensures r == -1 <==> forall i :: from <= i <= |s| ==> !RegionMatchesIgnoreCase(s, i, query)
    ensures r != -1 ==> forall i :: from <= i < r ==> !RegionMatchesIgnoreCase(s, i, query)
    decreases |s| + 1 - from
  {
    if from > |s| then -1
    else if RegionMatchesIgnoreCase(s, from, query) then from
    else IndexOfIgnoreCase(s, query, from + 1)
  }

  /** `s.contains(query, ignoreCase = true)`. */
  predicate ContainsIgnoreCase(s: string, query: string)
  {
    IndexOfIgnoreCase(s, query, 0) >= 0
  }

  /** Containment is tested at every position, not only at the start. */
  lemma ContainsAt(s: string, query: string, offset: nat)
    requires offset + |query| <= |s| && s[offset..offset + |query|] == query
    ensures ContainsIgnoreCase(s, query)
  {
    assert RegionMatchesIgnoreCase(s, offset, query) by {
      forall k | 0 <= k < |query| ensures CharEqualsIgnoreCase(s[offset + k], query[k]) {
        assert s[offset..offset + |query|][k] == s[offset + k];
      }
    }
  }

  /** The query with every ASCII letter upper-cased. The pointwise ensures
      are what `RegionMatchesUpper` uses to compare the two queries. */
  function UpperAll(s: string): (r: string)
    ensures |r| == |s|
    ensures forall k :: 0 <= k < |s| ==> r[k] == UpperAscii(s[k])
  {
    seq(|s|, k requires 0 <= k < |s| => UpperAscii(s[k]))
  }

  lemma RegionMatchesUpper(s: string, offset: nat, query: string)
    ensures RegionMatchesIgnoreCase(s, offset, query) <==> RegionMatchesIgnoreCase(s, offset, UpperAll(query))
  {
  }

  /** The case of the query does not matter. */
  lemma ContainsIgnoresQueryCase(s: string, query: string)
    ensures ContainsIgnoreCase(s, query) <==> ContainsIgnoreCase(s, UpperAll(query))
  {
    forall i | 0 <= i <= |s| {
      RegionMatchesUpper(s, i, query);
    }
  }

  /** The search result: the records of `persons`, in their order, whose last
      name contains `query` ignoring case. */
  function SearchByLastName(persons: seq<Person>, query: string): (r: seq<Person>)
    ensures |r| <= |persons|
    ensures forall x :: multiset(r)[x] == if ContainsIgnoreCase(x.lastName, query) then multiset(persons)[x] else 0
  {
    if persons == [] then []
    else
      assert persons == [persons[0]] + persons[1..];
      var rest := SearchByLastName(persons[1..], query);
      if ContainsIgnoreCase(persons[0].lastName, query) then [persons[0]] + rest else rest
  }

  /** `a` is `b` with some elements left out, the rest kept in order. */
  predicate IsSubsequence(a: seq<Person>, b: seq<Person>)
    decreases |b|
  {
    || a == []
    || (&& b != []
        && ((a[0] == b[0] && IsSubsequence(a[1..], b[1..])) || IsSubsequence(a, b[1..])))
  }

  lemma {:induction false} SearchIsSubsequence(persons: seq<Person>, query: string)
    ensures IsSubsequence(SearchByLastName(persons, query), persons)
  {
    if persons != [] {
      SearchIsSubsequence(persons[1..], query);
      var r := SearchByLastName(persons, query);
      if ContainsIgnoreCase(persons[0].lastName, query) {
        assert r[0] == persons[0] && r[1..] == SearchByLastName(persons[1..], query);
      }
    }
  }

  /** An empty search box shows every record. */
  lemma {:induction false} EmptyQueryKeepsAll(persons: seq<Person>)
    ensures SearchByLastName(persons, "") == persons
  {
    if persons != [] {
      assert RegionMatchesIgnoreCase(persons[0].lastName, 0, "");
      EmptyQueryKeepsAll(persons[1..]);
      assert persons == [persons[0]] + persons[1..];
    }
  }
}
