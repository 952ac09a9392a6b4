/** Insertion sort by an integer key, and sums that no reordering changes. */
module Sorting {

  function SumOf<T>(s: seq<T>, f: T -> int): int {
    if s == [] then 0 else SumOf(s[..|s| - 1], f) + f(s[|s| - 1])
  }

  lemma {:induction false} SumOfFront<T>(x: T, s: seq<T>, f: T -> int)
    ensures SumOf([x] + s, f) == f(x) + SumOf(s, f)
  {
    if s == [] {
      assert [x] + s == [x] && [x][..0] == [];
    } else {
      var m := |s| - 1;
      SumOfFront(x, s[..m], f);
      assert ([x] + s)[..m + 1] == [x] + s[..m];
    }
  }

  lemma SumOfPush<T>(s: seq<T>, x: T, f: T -> int)
    ensures SumOf(s + [x], f) == SumOf(s, f) + f(x)
  {
    assert (s + [x])[..|s|] == s;
  }

  lemma {:induction false} SumOfConcat<T>(s: seq<T>, t: seq<T>, f: T -> int)
    ensures SumOf(s + t, f) == SumOf(s, f) + SumOf(t, f)
  {
    if t == [] {
      assert s + t == s;
    } else {
      var m := |t| - 1;
      SumOfConcat(s, t[..m], f);
      assert (s + t)[..|s| + m] == s + t[..m];
    }
  }

  lemma {:induction false} SumOfUpdate<T>(s: seq<T>, j: nat, x: T, f: T -> int)
    requires j < |s|
    ensures SumOf(s[j := x], f) == SumOf(s, f) + f(x) - f(s[j])
  {
    var m := |s| - 1;
    if j < m {
      SumOfUpdate(s[..m], j, x, f);
      assert s[j := x][..m] == s[..m][j := x];
    } else {
      assert s[j := x][..m] == s[..m];
    }
  }

  ghost predicate Ascending<T>(s: seq<T>, key: T -> int) {
    forall i, j | 0 <= i < j < |s| :: key(s[i]) <= key(s[j])
  }

  function Insert<T>(x: T, s: seq<T>, key: T -> int): seq<T> {
    if s == [] || key(x) < key(s[0]) then [x] + s else [s[0]] + Insert(x, s[1..], key)
  }

  function SortBy<T>(s: seq<T>, key: T -> int): seq<T> {
    if s == [] then [] else Insert(s[|s| - 1], SortBy(s[..|s| - 1], key), key)
  }

  lemma {:induction false} InsertSum<T>(x: T, s: seq<T>, key: T -> int, f: T -> int)
    ensures SumOf(Insert(x, s, key), f) == f(x) + SumOf(s, f)
  {
    if s == [] || key(x) < key(s[0]) {
      SumOfFront(x, s, f);
    } else {
      InsertSum(x, s[1..], key, f);
      SumOfFront(s[0], Insert(x, s[1..], key), f);
      assert s == [s[0]] + s[1..];
      SumOfFront(s[0], s[1..], f);
    }
  }

  lemma {:induction false} InsertPermutes<T>(x: T, s: seq<T>, key: T -> int)
    ensures multiset(Insert(x, s, key)) == multiset(s) + multiset{x}
  {
    if s != [] && key(x) >= key(s[0]) {
      InsertPermutes(x, s[1..], key);
      assert s == [s[0]] + s[1..];
    }
  }

  lemma MultisetPush<T>(s: seq<T>, x: T)
    ensures multiset(s + [x]) == multiset(s) + multiset{x}
  {
  }

  lemma {:induction false} InsertMember<T>(x: T, s: seq<T>, key: T -> int, y: T)
    requires y in Insert(x, s, key)
    ensures y == x || y in s
  {
    if s != [] && key(x) >= key(s[0]) && y != s[0] {
      InsertMember(x, s[1..], key, y);
    }
  }

  lemma {:induction false} InsertAscends<T>(x: T, s: seq<T>, key: T -> int)
    requires Ascending(s, key)
    ensures Ascending(Insert(x, s, key), key)
  {
    if s != [] && key(x) >= key(s[0]) {
      var rest := Insert(x, s[1..], key);
      InsertAscends(x, s[1..], key);
      forall i | 0 <= i < |rest|
        ensures key(s[0]) <= key(rest[i])
      {
        InsertMember(x, s[1..], key, rest[i]);
      }
    }
  }

  /** Sorting changes no sum. */
  lemma {:induction false} SortSum<T>(s: seq<T>, key: T -> int, f: T -> int)
    ensures SumOf(SortBy(s, key), f) == SumOf(s, f)
  {
    if s != [] {
      SortSum(s[..|s| - 1], key, f);
      InsertSum(s[|s| - 1], SortBy(s[..|s| - 1], key), key, f);
    }
  }

  lemma {:induction false} SortPermutes<T>(s: seq<T>, key: T -> int)
    ensures multiset(SortBy(s, key)) == multiset(s)
  {
    if s != [] {
      var m := |s| - 1;
      SortPermutes(s[..m], key);
      InsertPermutes(s[m], SortBy(s[..m], key), key);
      MultisetPush(s[..m], s[m]);
      assert s == s[..m] + [s[m]];
    }
  }

  lemma {:induction false} SortAscends<T>(s: seq<T>, key: T -> int)
    ensures Ascending(SortBy(s, key), key)
  {
    if s != [] {
      SortAscends(s[..|s| - 1], key);
      InsertAscends(s[|s| - 1], SortBy(s[..|s| - 1], key), key);
    }
  }
}
