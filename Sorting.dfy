/** Python's `sorted(xs, key=...)` for an integer key: a stable sort. The
    model sorts by insertion; since a stable sort's output is determined by
    its input and key, this is the sequence Python's sort returns. */
module Sorting {

  predicate SortedBy<T>(s: seq<T>, key: T -> int) {
    forall i, j :: 0 <= i < j < |s| ==> key(s[i]) <= key(s[j])
  }

  /** The elements of `s` whose key is `k`, in their order in `s`. */
  function WithKey<T>(s: seq<T>, key: T -> int, k: int): seq<T>
  {
    if s == [] then []
    else (if key(s[0]) == k then [s[0]] else []) + WithKey(s[1..], key, k)
  }

  lemma WithKeyCons<T>(y: T, t: seq<T>, key: T -> int, k: int)
    ensures WithKey([y] + t, key, k) == (if key(y) == k then [y] else []) + WithKey(t, key, k)
  {
    assert ([y] + t)[1..] == t;
  }

  /** Puts `x` in front of the first element whose key is at least its own. */
  function Insert<T>(x: T, s: seq<T>, key: T -> int): (r: seq<T>)
    ensures |r| == |s| + 1
  {
    if s == [] || key(x) <= key(s[0]) then [x] + s
    else [s[0]] + Insert(x, s[1..], key)
  }

  /** Inserting adds `x` and loses nothing. */
  lemma {:induction false} InsertPerm<T>(x: T, s: seq<T>, key: T -> int)
    ensures multiset(Insert(x, s, key)) == multiset(s) + multiset{x}
  {
    if s != [] && key(x) > key(s[0]) {
      InsertPerm(x, s[1..], key);
      assert s == [s[0]] + s[1..];
    }
  }

  lemma {:induction false} InsertSorted<T>(x: T, s: seq<T>, key: T -> int)
    requires SortedBy(s, key)
    ensures SortedBy(Insert(x, s, key), key)
  {
    if s == [] || key(x) <= key(s[0]) {
    } else {
      var t := Insert(x, s[1..], key);
      InsertSorted(x, s[1..], key);
      InsertPerm(x, s[1..], key);
      forall j | 0 <= j < |t| ensures key(s[0]) <= key(t[j]) {
        assert t[j] in multiset(t);
        assert t[j] == x || t[j] in multiset(s[1..]);
      }
      assert Insert(x, s, key) == [s[0]] + t;
    }
  }

  function SortBy<T(==)>(s: seq<T>, key: T -> int): (r: seq<T>)
    ensures multiset(r) == multiset(s)
    ensures |r| == |s|
    ensures SortedBy(r, key)
  {
    if s == [] then []
    else
      assert s == [s[0]] + s[1..];
      InsertSorted(s[0], SortBy(s[1..], key), key);
      InsertPerm(s[0], SortBy(s[1..], key), key);
      Insert(s[0], SortBy(s[1..], key), key)
  }

  lemma {:induction false} InsertWithKey<T>(x: T, s: seq<T>, key: T -> int, k: int)
    ensures WithKey(Insert(x, s, key), key, k)
            == (if key(x) == k then [x] else []) + WithKey(s, key, k)
  {
    if s == [] || key(x) <= key(s[0]) {
      WithKeyCons(x, s, key, k);
    } else {
      var t := Insert(x, s[1..], key);
      var a := if key(s[0]) == k then [s[0]] else [];
      var b := if key(x) == k then [x] else [];
      var w := WithKey(s[1..], key, k);
      calc {
        WithKey(Insert(x, s, key), key, k);
        { assert Insert(x, s, key) == [s[0]] + t; }
        WithKey([s[0]] + t, key, k);
        { WithKeyCons(s[0], t, key, k); }
        a + WithKey(t, key, k);
        { InsertWithKey(x, s[1..], key, k); }
        a + (b + w);
        { if a != [] { assert b == []; } }
        b + (a + w);
        { WithKeyCons(s[0], s[1..], key, k); assert [s[0]] + s[1..] == s; }
        b + WithKey(s, key, k);
      }
    }
  }

  /** Sorting keeps the elements of each key in their input order. */
  lemma {:induction false} SortByStable<T>(s: seq<T>, key: T -> int, k: int)
    ensures WithKey(SortBy(s, key), key, k) == WithKey(s, key, k)
  {
    if s != [] {
      SortByStable(s[1..], key, k);
      InsertWithKey(s[0], SortBy(s[1..], key), key, k);
    }
  }

  /** Elements of equal key appear in increasing `rank`. */
  predicate TieOrdered<T>(s: seq<T>, key: T -> int, rank: T -> int) {
    forall i, j :: 0 <= i < j < |s| && key(s[i]) == key(s[j]) ==> rank(s[i]) < rank(s[j])
  }

  lemma {:induction false} InsertTies<T>(x: T, s: seq<T>, key: T -> int, rank: T -> int)
    requires TieOrdered(s, key, rank)
    requires forall i :: 0 <= i < |s| ==> rank(x) < rank(s[i])
    ensures TieOrdered(Insert(x, s, key), key, rank)
  {
    if s == [] || key(x) <= key(s[0]) {
      var r := [x] + s;
      forall i, j | 0 <= i < j < |r| && key(r[i]) == key(r[j]) ensures rank(r[i]) < rank(r[j]) {
        assert r[j] == s[j - 1];
        if i > 0 {
          assert r[i] == s[i - 1];
        }
      }
    } else {
      var s' := s[1..];
      assert forall i :: 0 <= i < |s'| ==> s'[i] == s[i + 1];
      InsertTies(x, s', key, rank);
      InsertTiesStep(x, s, key, rank);
    }
  }

  /** `s[0]` stays in front of `x`'s insertion into the rest without
      breaking a tie. */
  lemma InsertTiesStep<T>(x: T, s: seq<T>, key: T -> int, rank: T -> int)
    requires s != [] && key(x) > key(s[0])
    requires TieOrdered(s, key, rank)
    requires TieOrdered(Insert(x, s[1..], key), key, rank)
    ensures TieOrdered(Insert(x, s, key), key, rank)
  {
    var s' := s[1..];
    var t := Insert(x, s', key);
    var r := [s[0]] + t;
    assert Insert(x, s, key) == r;
    forall j | 0 <= j < |t| && key(s[0]) == key(t[j]) ensures rank(s[0]) < rank(t[j]) {
      var m := InsertOrigin(x, s', key, j);
      assert s[m + 1] == t[j];
    }
    forall i, j | 0 <= i < j < |r| && key(r[i]) == key(r[j]) ensures rank(r[i]) < rank(r[j]) {
      assert r[j] == t[j - 1];
      if i > 0 {
        assert r[i] == t[i - 1];
      }
    }
  }

  /** An element of an insertion other than `x` comes from `s`. */
  lemma InsertOrigin<T>(x: T, s: seq<T>, key: T -> int, j: int) returns (m: int)
    requires 0 <= j < |Insert(x, s, key)| && Insert(x, s, key)[j] != x
    ensures 0 <= m < |s| && s[m] == Insert(x, s, key)[j]
  {
    var t := Insert(x, s, key);
    InsertPerm(x, s, key);
    assert t[j] in multiset(t);
    assert t[j] in multiset(s);
    m :| 0 <= m < |s| && s[m] == t[j];
  }

  /** Sorting an input already in increasing `rank` leaves each run of equal
      keys in increasing `rank`: a stable sort breaks ties by input order. */
  lemma {:induction false} SortByTies<T>(s: seq<T>, key: T -> int, rank: T -> int)
    requires forall i, j :: 0 <= i < j < |s| ==> rank(s[i]) < rank(s[j])
    ensures TieOrdered(SortBy(s, key), key, rank)
  {
    if s != [] {
      var s' := s[1..];
      assert forall i :: 0 <= i < |s'| ==> s'[i] == s[i + 1];
      SortByTies(s', key, rank);
      var t := SortBy(s', key);
      forall i | 0 <= i < |t| ensures rank(s[0]) < rank(t[i]) {
        assert t[i] in multiset(s');
        var m :| 0 <= m < |s'| && s'[m] == t[i];
        assert s[m + 1] == t[i];
      }
      InsertTies(s[0], t, key, rank);
    }
  }
}
