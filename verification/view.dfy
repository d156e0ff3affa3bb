/** The read-only part of `renderTable`: a copy of the record list sorted by
    serial number, then narrowed to the rows that match the search text. */
module View {
  import opened Text
  import opened Records

  predicate IsDigit(c: char) {
    '0' <= c <= '9'
  }

  function DigitsValue(s: string): nat
    requires forall i :: 0 <= i < |s| ==> IsDigit(s[i])
  {
    if s == [] then 0
    else
      assert IsDigit(s[|s| - 1]);
      DigitsValue(s[..|s| - 1]) * 10 + (s[|s| - 1] as int - '0' as int)
  }

  /** What `Number(si)` gives for a serial typed as decimal digits (the empty
      string counts as 0); other text is ordered as 0 too. */
  function SerialKey(si: string): nat {
    if forall i :: 0 <= i < |si| ==> IsDigit(si[i]) then DigitsValue(si) else 0
  }

  /** Appending a digit to a decimal serial multiplies its value by ten and adds
      the digit, as `Number` reads decimal text. */
  lemma SerialKeyAppend(s: string, d: char)
    requires forall i :: 0 <= i < |s| ==> IsDigit(s[i])
    requires IsDigit(d)
    ensures SerialKey(s + [d]) == SerialKey(s) * 10 + (d as int - '0' as int)
  {
    assert (s + [d])[..|s|] == s;
  }

  /** A leading zero does not change a decimal serial's value, so "007" sorts as 7. */
  lemma {:induction false} SerialKeyLeadingZero(s: string)
    requires forall i :: 0 <= i < |s| ==> IsDigit(s[i])
    ensures SerialKey(['0'] + s) == SerialKey(s)
    decreases |s|
  {
    if s != [] {
      var p := s[..|s| - 1];
      SerialKeyLeadingZero(p);
      assert ['0'] + s == (['0'] + p) + [s[|s| - 1]];
      SerialKeyAppend(['0'] + p, s[|s| - 1]);
      assert s == p + [s[|s| - 1]];
      SerialKeyAppend(p, s[|s| - 1]);
    }
  }

  /** The sort key of a record. */
  function Serial(r: Record): int {
    SerialKey(r.si)
  }

  // The sort below is stated for any key function, so that its proofs never
  // look inside SerialKey; the table instantiates it with Serial.

  /** Ascending by key, the order of the comparator `a.si - b.si`. */
  predicate Sorted(rs: seq<Record>, key: Record -> int) {
    forall i, j :: 0 <= i < j < |rs| ==> key(rs[i]) <= key(rs[j])
  }

  /** Puts `x` in front of the first record whose key is not smaller, so that it
      stays ahead of the records with the same key. */
  function Insert(x: Record, s: seq<Record>, key: Record -> int): (r: seq<Record>)
    ensures multiset(r) == multiset(s) + multiset{x}
  {
    if s == [] || key(x) <= key(s[0]) then [x] + s
    else
      assert s == [s[0]] + s[1..];
      [s[0]] + Insert(x, s[1..], key)
  }

  /** A lower bound of `x` and of every record of `s` bounds every record of the insertion. */
  lemma {:induction false} InsertAbove(x: Record, s: seq<Record>, key: Record -> int, b: int)
    requires b <= key(x) && forall i :: 0 <= i < |s| ==> b <= key(s[i])
    ensures forall i :: 0 <= i < |Insert(x, s, key)| ==> b <= key(Insert(x, s, key)[i])
    decreases |s|
  {
    if s != [] && key(x) > key(s[0]) {
      InsertAbove(x, s[1..], key, b);
      var rest := Insert(x, s[1..], key);
      assert forall i :: 1 <= i <= |rest| ==> ([s[0]] + rest)[i] == rest[i - 1];
    }
  }

  lemma {:induction false} InsertSorted(x: Record, s: seq<Record>, key: Record -> int)
    requires Sorted(s, key)
    ensures Sorted(Insert(x, s, key), key)
    decreases |s|
  {
    if s != [] && key(x) > key(s[0]) {
      var tail := s[1..];
      var rest := Insert(x, tail, key);
      InsertSorted(x, tail, key);
      InsertAbove(x, tail, key, key(s[0]));
      var r := [s[0]] + rest;
      forall i, j | 0 <= i < j < |r| ensures key(r[i]) <= key(r[j]) {
        assert r[j] == rest[j - 1];
        if i > 0 { assert r[i] == rest[i - 1]; }
      }
    }
  }

  /** A stable sort, as `Array.prototype.sort` is: a sorted permutation of its input. */
  function SortBy(xs: seq<Record>, key: Record -> int): (r: seq<Record>)
    ensures Sorted(r, key)
    ensures multiset(r) == multiset(xs)
  {
    if xs == [] then []
    else
      assert xs == [xs[0]] + xs[1..];
      var rest := SortBy(xs[1..], key);
      InsertSorted(xs[0], rest, key);
      Insert(xs[0], rest, key)
  }

  /** The records of `s` whose key is `k`, in their order in `s`. */
  function WithKey(s: seq<Record>, key: Record -> int, k: int): seq<Record> {
    if s == [] then []
    else (if key(s[0]) == k then [s[0]] else []) + WithKey(s[1..], key, k)
  }

  lemma {:induction false} InsertStable(x: Record, s: seq<Record>, key: Record -> int, k: int)
    ensures WithKey(Insert(x, s, key), key, k)
         == (if key(x) == k then [x] else []) + WithKey(s, key, k)
    decreases |s|
  {
    if s == [] || key(x) <= key(s[0]) {
      assert ([x] + s)[1..] == s;
    } else {
      InsertStable(x, s[1..], key, k);
      assert ([s[0]] + Insert(x, s[1..], key))[1..] == Insert(x, s[1..], key);
    }
  }

  /** The sort is stable: records with equal keys keep their relative order. */
  lemma {:induction false} SortStable(xs: seq<Record>, key: Record -> int, k: int)
    ensures WithKey(SortBy(xs, key), key, k) == WithKey(xs, key, k)
  {
    if xs != [] {
      SortStable(xs[1..], key, k);
      InsertStable(xs[0], SortBy(xs[1..], key), key, k);
    }
  }

  /** The text a row is searched in: `${item.name} ${item.topic} ${item.id}`, lower-cased. */
  function SearchText(r: Record): string {
    Lower(r.name + " " + r.topic + " " + r.id)
  }

  /** The row test of `renderTable`: an empty filter keeps every row. */
  predicate Keep(r: Record, filter: string) {
    if filter == "" then true else Contains(SearchText(r), filter)
  }

  /** The row test for one filter, as a function value. */
  function Matches(filter: string): Record -> bool {
    r => Keep(r, filter)
  }

  /** The records of `s` that pass `keep`, in order. */
  function Select(s: seq<Record>, keep: Record -> bool): seq<Record> {
    if s == [] then []
    else (if keep(s[0]) then [s[0]] else []) + Select(s[1..], keep)
  }

  /** The rows `renderTable(filter)` draws, in order. */
  function Table(rs: seq<Record>, filter: string): seq<Record> {
    Select(SortBy(rs, Serial), Matches(filter))
  }

  /** The filter the search box passes: its text trimmed and lower-cased. */
  function SearchFilter(raw: string): string {
    Lower(Trim(raw))
  }

  /** Keep's test for an empty filter changes nothing: every text includes "". */
  lemma KeepIsIncludes(r: Record, filter: string)
    ensures Keep(r, filter) == Contains(SearchText(r), filter)
  {
    ContainsEmpty(SearchText(r));
  }

  /** Typing the search in another (ASCII) case selects the same rows. */
  lemma SearchIgnoresCase(raw: string)
    ensures SearchFilter(Lower(raw)) == SearchFilter(raw)
  {
    TrimLower(raw);
    LowerIdempotent(Trim(raw));
  }

  lemma {:induction false} SelectMembers(s: seq<Record>, keep: Record -> bool)
    ensures multiset(Select(s, keep)) <= multiset(s)
    ensures forall r :: multiset(Select(s, keep))[r] == if keep(r) then multiset(s)[r] else 0
    ensures forall r :: r in Select(s, keep) <==> r in s && keep(r)
  {
    if s != [] {
      SelectMembers(s[1..], keep);
      assert s == [s[0]] + s[1..];
      assert multiset(s) == multiset{s[0]} + multiset(s[1..]);
    }
  }

  lemma {:induction false} SelectAll(s: seq<Record>)
    ensures Select(s, Matches("")) == s
  {
    if s != [] {
      SelectAll(s[1..]);
    }
  }

  /** Narrowing a list with a given first record. */
  lemma SelectCons(r: Record, s: seq<Record>, keep: Record -> bool)
    ensures Select([r] + s, keep) == (if keep(r) then [r] else []) + Select(s, keep)
  {
    assert ([r] + s)[1..] == s;
  }

  /** Narrowing a sorted list commutes with inserting into it. */
  lemma {:induction false} SelectInsert(x: Record, s: seq<Record>, key: Record -> int, keep: Record -> bool)
    requires Sorted(s, key)
    ensures Select(Insert(x, s, key), keep)
         == if keep(x) then Insert(x, Select(s, keep), key) else Select(s, keep)
    decreases |s|
  {
    if s == [] || key(x) <= key(s[0]) {
      SelectInsertFront(x, s, key, keep);
    } else {
      assert Sorted(s[1..], key);
      SelectInsert(x, s[1..], key, keep);
      SelectInsertBehind(x, s, key, keep);
    }
  }

  /** The case where `x` goes first. */
  lemma {:induction false} SelectInsertFront(x: Record, s: seq<Record>, key: Record -> int, keep: Record -> bool)
    requires Sorted(s, key) && (s == [] || key(x) <= key(s[0]))
    ensures Select(Insert(x, s, key), keep)
         == if keep(x) then Insert(x, Select(s, keep), key) else Select(s, keep)
  {
    var t := Select(s, keep);
    assert Insert(x, s, key) == [x] + s;
    SelectCons(x, s, keep);
    if keep(x) {
      if t != [] {
        SelectMembers(s, keep);
        assert t[0] in s;
        var j :| 0 <= j < |s| && s[j] == t[0];
        assert key(x) <= key(t[0]);
      }
      assert Insert(x, t, key) == [x] + t;
    }
  }

  /** The case where `x` goes behind the first record, given the result for the rest. */
  lemma SelectInsertBehind(x: Record, s: seq<Record>, key: Record -> int, keep: Record -> bool)
    requires s != [] && key(x) > key(s[0])
    requires Select(Insert(x, s[1..], key), keep)
          == if keep(x) then Insert(x, Select(s[1..], keep), key) else Select(s[1..], keep)
    ensures Select(Insert(x, s, key), keep)
         == if keep(x) then Insert(x, Select(s, keep), key) else Select(s, keep)
  {
    var s0, u, ins := s[0], Select(s[1..], keep), Insert(x, s[1..], key);
    var head := if keep(s0) then [s0] else [];
    assert Insert(x, s, key) == [s0] + ins;
    SelectCons(s0, ins, keep);
    var t := Select(s, keep);
    assert t == head + u;
    if !keep(x) {
      assert Select(Insert(x, s, key), keep) == t;
    } else if keep(s0) {
      InsertBehindHead(x, s0, u, key);
      assert Select(Insert(x, s, key), keep) == Insert(x, t, key);
    } else {
      assert t == u;
      assert Select(Insert(x, s, key), keep) == Insert(x, t, key);
    }
  }

  /** Inserting behind a smaller first record. */
  lemma InsertBehindHead(x: Record, s0: Record, u: seq<Record>, key: Record -> int)
    requires key(x) > key(s0)
    ensures Insert(x, [s0] + u, key) == [s0] + Insert(x, u, key)
  {
    assert ([s0] + u)[0] == s0 && ([s0] + u)[1..] == u;
  }

  /** Sorting and then narrowing, as `renderTable` does, gives the same rows as
      narrowing and then sorting. */
  lemma {:induction false} SelectSorted(rs: seq<Record>, key: Record -> int, keep: Record -> bool)
    ensures Select(SortBy(rs, key), keep) == SortBy(Select(rs, keep), key)
  {
    if rs != [] {
      var x, sorted, picked := rs[0], SortBy(rs[1..], key), Select(rs[1..], keep);
      SelectSorted(rs[1..], key, keep);
      SelectInsert(x, sorted, key, keep);
      assert Select(SortBy(rs, key), keep)
          == if keep(x) then Insert(x, SortBy(picked, key), key) else SortBy(picked, key);
      if keep(x) {
        assert Select(rs, keep) == [x] + picked;
        assert ([x] + picked)[1..] == picked;
      } else {
        assert Select(rs, keep) == picked;
      }
    }
  }

  /** The table is ordered by serial number, holds exactly the records that match
      the filter (with their multiplicity), keeps records that share a serial
      number in list order, and is the same as sorting the matching records. */
  lemma TableSpec(rs: seq<Record>, filter: string)
    ensures Table(rs, filter) == SortBy(Select(rs, Matches(filter)), Serial)
    ensures Sorted(Table(rs, filter), Serial)
    ensures multiset(Table(rs, filter)) == multiset(Select(rs, Matches(filter)))
    ensures forall r :: r in Table(rs, filter) <==> r in rs && Keep(r, filter)
    ensures forall k :: WithKey(Table(rs, filter), Serial, k)
                     == WithKey(Select(rs, Matches(filter)), Serial, k)
  {
    var keep := Matches(filter);
    SelectSorted(rs, Serial, keep);
    SelectMembers(rs, keep);
    forall k ensures WithKey(Table(rs, filter), Serial, k) == WithKey(Select(rs, keep), Serial, k) {
      SortStable(Select(rs, keep), Serial, k);
    }
    forall r ensures r in Table(rs, filter) <==> r in rs && Keep(r, filter) {
      assert r in Table(rs, filter) <==> r in multiset(Table(rs, filter));
      assert r in Select(rs, keep) <==> r in multiset(Select(rs, keep));
    }
  }

  /** With an empty filter the table is every record, sorted. */
  lemma TableUnfiltered(rs: seq<Record>)
    ensures Table(rs, "") == SortBy(rs, Serial)
    ensures multiset(Table(rs, "")) == multiset(rs) && Sorted(Table(rs, ""), Serial)
  {
    SelectAll(SortBy(rs, Serial));
  }
}
