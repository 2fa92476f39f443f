/** Python's `list.sort(key=...)` on a list: a stable sort by a real-valued key,
    written as an insertion sort that puts every element after those whose key
    is equal to its own. */
module Sorting {

  ghost predicate SortedBy<T>(s: seq<T>, key: T -> real)
  {
    forall a, b :: 0 <= a < b < |s| ==> key(s[a]) <= key(s[b])
  }

  /** Inserts `x` after every leading element whose key is at most its own. */
  function Insert<T>(s: seq<T>, x: T, key: T -> real): (r: seq<T>)
    ensures |r| == |s| + 1
  {
    if s == [] then [x]
    else if key(x) < key(s[0]) then [x] + s
    else [s[0]] + Insert(s[1..], x, key)
  }

  /** Insertion adds exactly `x`. */
  lemma {:induction false} InsertPermutes<T>(s: seq<T>, x: T, key: T -> real)
    ensures multiset(Insert(s, x, key)) == multiset(s) + multiset{x}
  {
    if s != [] && key(x) >= key(s[0]) {
      InsertPermutes(s[1..], x, key);
      assert s == [s[0]] + s[1..];
    }
  }

  /** A sorted list stays sorted behind an element whose key is at most every
      key in it. */
  lemma ConsSorted<T>(y: T, s: seq<T>, key: T -> real)
    requires SortedBy(s, key)
    requires forall k :: 0 <= k < |s| ==> key(y) <= key(s[k])
    ensures SortedBy([y] + s, key)
  {
    var r := [y] + s;
    forall a, b | 0 <= a < b < |r| ensures key(r[a]) <= key(r[b]) {
      assert r[b] == s[b - 1];
      if a > 0 {
        assert r[a] == s[a - 1];
      }
    }
  }

  /** Every element of `Insert(s, x)` is `x` or an element of `s`. */
  lemma InsertMembers<T>(s: seq<T>, x: T, key: T -> real, k: nat)
    requires k < |s| + 1
    ensures Insert(s, x, key)[k] == x || Insert(s, x, key)[k] in s
  {
    var r := Insert(s, x, key);
    InsertPermutes(s, x, key);
    assert r[k] in multiset(r);
  }

  /** Insertion into a sorted list keeps it sorted. */
  lemma {:induction false} InsertSorted<T>(s: seq<T>, x: T, key: T -> real)
    requires SortedBy(s, key)
    ensures SortedBy(Insert(s, x, key), key)
  {
    if s == [] {
    } else if key(x) < key(s[0]) {
      ConsSorted(x, s, key);
    } else {
      var tail := s[1..];
      var rest := Insert(tail, x, key);
      InsertSorted(tail, x, key);
      forall k | 0 <= k < |rest| ensures key(s[0]) <= key(rest[k]) {
        InsertMembers(tail, x, key, k);
        if rest[k] != x {
          var m :| 0 <= m < |tail| && tail[m] == rest[k];
          assert s[1 + m] == rest[k];
        }
      }
      ConsSorted(s[0], rest, key);
    }
  }

  /** The stable sort of `s` by `key`: insertion of each element in turn. */
  function SortBy<T>(s: seq<T>, key: T -> real): (r: seq<T>)
    ensures |r| == |s|
  {
    if s == [] then []
    else Insert(SortBy(s[..|s| - 1], key), s[|s| - 1], key)
  }

  /** The sort is sorted and a permutation of its input. */
  lemma {:induction false} SortBySortsAndPermutes<T>(s: seq<T>, key: T -> real)
    ensures SortedBy(SortBy(s, key), key)
    ensures multiset(SortBy(s, key)) == multiset(s)
  {
    if s != [] {
      var init := s[..|s| - 1];
      SortBySortsAndPermutes(init, key);
      InsertSorted(SortBy(init, key), s[|s| - 1], key);
      InsertPermutes(SortBy(init, key), s[|s| - 1], key);
      assert s == init + [s[|s| - 1]];
    }
  }

  /** The first element of a sorted list has the smallest key. */
  lemma SortedFirstIsLeast<T>(s: seq<T>, key: T -> real, k: nat)
    requires SortedBy(s, key) && k < |s|
    ensures key(s[0]) <= key(s[k])
  {
  }

  /** A position of an element of a list. */
  lemma PositionOf<T>(s: seq<T>, x: T) returns (k: nat)
    requires x in multiset(s)
    ensures k < |s| && s[k] == x
  {
    k :| 0 <= k < |s| && s[k] == x;
  }

  /** `list.reverse()`. */
  function Reverse<T>(s: seq<T>): (r: seq<T>)
    ensures |r| == |s|
    ensures forall k :: 0 <= k < |s| ==> r[k] == s[|s| - 1 - k]
  {
    if s == [] then [] else Reverse(s[1..]) + [s[0]]
  }

  /** Reversal keeps the elements. */
  lemma {:induction false} ReversePermutes<T>(s: seq<T>)
    ensures multiset(Reverse(s)) == multiset(s)
  {
    if s != [] {
      ReversePermutes(s[1..]);
      assert s == [s[0]] + s[1..];
    }
  }

  /** Reversing a sorted list puts the largest keys first: every element of a
      prefix of the reversed list has a key no smaller than any element after
      that prefix. */
  lemma ReversePrefixKeysAboveSuffix<T>(s: seq<T>, key: T -> real, n: nat, x: T, y: T)
    requires SortedBy(s, key) && n <= |s|
    requires x in Reverse(s)[..n] && y in Reverse(s)[n..]
    ensures key(x) >= key(y)
  {
    var r := Reverse(s);
    var a :| 0 <= a < n && r[a] == x;
    var b :| 0 <= b < |r[n..]| && r[n..][b] == y;
    assert r[n + b] == y;
    assert s[|s| - 1 - a] == x && s[|s| - 1 - (n + b)] == y;
  }

  /** Every element of a prefix of a sorted list has a key no larger than any
      element after that prefix. */
  lemma PrefixKeysBelowSuffix<T>(s: seq<T>, key: T -> real, n: nat, x: T, y: T)
    requires SortedBy(s, key) && n <= |s|
    requires x in s[..n] && y in s[n..]
    ensures key(x) <= key(y)
  {
    var a :| 0 <= a < n && s[a] == x;
    var b :| 0 <= b < |s[n..]| && s[n..][b] == y;
    assert s[n + b] == y;
  }
}
