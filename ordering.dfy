/**
 * The ordering the services' SQL queries ask for (ORDER BY a timestamp column): sortedness
 * by an integer key and insertion into a sorted sequence. A descending order is an
 * ascending order on the negated key.
 */
module Ordering {

  predicate SortedBy<T>(s: seq<T>, key: T -> int) {
    forall i, j :: 0 <= i < j < |s| ==> key(s[i]) <= key(s[j])
  }

  /** Every key in `s` is at least `b`. */
  predicate AtLeast<T>(s: seq<T>, b: int, key: T -> int) {
    forall j :: 0 <= j < |s| ==> b <= key(s[j])
  }

  /** Inserts `x` after every leading element whose key is not larger. */
  function InsertBy<T>(s: seq<T>, x: T, key: T -> int): seq<T> {
    if s == [] || key(x) < key(s[0]) then [x] + s
    else [s[0]] + InsertBy(s[1..], x, key)
  }

  /** Inserting into a sorted sequence keeps it sorted and adds exactly `x`. */
  lemma {:induction false} InsertBySorted<T>(s: seq<T>, x: T, key: T -> int)
    requires SortedBy(s, key)
    ensures SortedBy(InsertBy(s, x, key), key)
    ensures multiset(InsertBy(s, x, key)) == multiset(s) + multiset{x}
  {
    if s == [] || key(x) < key(s[0]) {
      InsertFront(s, x, key);
    } else {
      TailSorted(s, key);
      InsertBySorted(s[1..], x, key);
      InsertAfterHead(s, x, key);
    }
  }

  /** `x` goes in front of a sequence whose keys are all larger. */
  lemma InsertFront<T>(s: seq<T>, x: T, key: T -> int)
    requires SortedBy(s, key) && (s == [] || key(x) < key(s[0]))
    ensures InsertBy(s, x, key) == [x] + s
    ensures SortedBy([x] + s, key)
  {
    assert AtLeast(s, key(x), key) by {
      if s != [] {
        assert forall j :: 0 <= j < |s| ==> key(s[0]) <= key(s[j]);
      }
    }
    ConsSorted(x, s, key);
  }

  lemma TailSorted<T>(s: seq<T>, key: T -> int)
    requires SortedBy(s, key) && s != []
    ensures SortedBy(s[1..], key) && AtLeast(s[1..], key(s[0]), key)
  {
    assert forall j :: 0 <= j < |s[1..]| ==> s[1..][j] == s[j + 1];
  }

  /** `x` goes after the head when the tail, with `x` inserted, is sorted and holds what it should. */
  lemma InsertAfterHead<T>(s: seq<T>, x: T, key: T -> int)
    requires SortedBy(s, key) && s != [] && key(s[0]) <= key(x)
    requires SortedBy(InsertBy(s[1..], x, key), key)
    requires multiset(InsertBy(s[1..], x, key)) == multiset(s[1..]) + multiset{x}
    ensures SortedBy(InsertBy(s, x, key), key)
    ensures multiset(InsertBy(s, x, key)) == multiset(s) + multiset{x}
  {
    var rest := InsertBy(s[1..], x, key);
    assert s == [s[0]] + s[1..];
    assert InsertBy(s, x, key) == [s[0]] + rest;
    assert multiset(s) == multiset{s[0]} + multiset(s[1..]);
    assert SortedBy([s[0]] + rest, key) by {
      TailSorted(s, key);
      BoundKept(s[1..], rest, x, key(s[0]), key);
      ConsSorted(s[0], rest, key);
    }
  }

  lemma ConsSorted<T>(h: T, s: seq<T>, key: T -> int)
    requires SortedBy(s, key) && AtLeast(s, key(h), key)
    ensures SortedBy([h] + s, key)
  {
    var r := [h] + s;
    forall i, j | 0 <= i < j < |r|
      ensures key(r[i]) <= key(r[j])
    {
      assert r[j] == s[j - 1];
      if i > 0 {
        assert r[i] == s[i - 1];
      }
    }
  }

  /** A lower bound on every key survives adding an element that also meets it. */
  lemma BoundKept<T>(s: seq<T>, r: seq<T>, x: T, b: int, key: T -> int)
    requires AtLeast(s, b, key) && b <= key(x)
    requires multiset(r) == multiset(s) + multiset{x}
    ensures AtLeast(r, b, key)
  {
    forall j | 0 <= j < |r|
      ensures b <= key(r[j])
    {
      assert r[j] in multiset(r);
      if r[j] != x {
        assert r[j] in multiset(s);
        var k :| 0 <= k < |s| && s[k] == r[j];
      }
    }
  }
}
