/**
 * The pandas DataFrame operations the offline scripts chain together, as
 * pure functions on sequences of rows. A column is a key function from a
 * row to the column's value.
 */
module Frames {

  /** Number of rows whose `key` column equals `k`. */
  function Occurrences<T, K(==,!new)>(s: seq<T>, key: T -> K, k: K): (n: nat)
    ensures n <= |s|
  {
    if |s| == 0 then 0 else (if key(s[0]) == k then 1 else 0) + Occurrences(s[1..], key, k)
  }

  /** A value occurs exactly when some row holds it. */
  lemma {:induction false} OccurrencesPositive<T, K(!new)>(s: seq<T>, key: T -> K, k: K)
    ensures Occurrences(s, key, k) > 0 <==> exists i :: 0 <= i < |s| && key(s[i]) == k
  {
    if |s| > 0 {
      OccurrencesPositive(s[1..], key, k);
      assert forall i :: 1 <= i < |s| ==> s[i] == s[1..][i - 1];
    }
  }

  lemma {:induction false} OccurrencesConcat<T, K(!new)>(a: seq<T>, b: seq<T>, key: T -> K, k: K)
    ensures Occurrences(a + b, key, k) == Occurrences(a, key, k) + Occurrences(b, key, k)
  {
    if |a| == 0 {
      assert a + b == b;
    } else {
      assert (a + b)[1..] == a[1..] + b;
      OccurrencesConcat(a[1..], b, key, k);
    }
  }

  /** Reordering rows does not change how often a value occurs in a column. */
  lemma {:induction false} OccurrencesPermutation<T(!new), K(!new)>(a: seq<T>, b: seq<T>, key: T -> K, k: K)
    requires multiset(a) == multiset(b)
    ensures Occurrences(a, key, k) == Occurrences(b, key, k)
  {
    if |a| == 0 {
      assert |b| == |multiset(b)| == 0;
    } else {
      assert a[0] in multiset(b);
      var m :| 0 <= m < |b| && b[m] == a[0];
      MultisetRemoveAt(a, b, m);
      OccurrencesPermutation(a[1..], b[..m] + b[m + 1..], key, k);
      OccurrencesRemoveAt(b, m, key, k);
      OccurrencesRemoveAt(a, 0, key, k);
      assert a[..0] + a[1..] == a[1..];
    }
  }

  /** Taking the same row out of two permutations leaves two permutations. */
  lemma MultisetRemoveAt<T>(a: seq<T>, b: seq<T>, m: nat)
    requires multiset(a) == multiset(b) && |a| > 0 && m < |b| && b[m] == a[0]
    ensures multiset(a[1..]) == multiset(b[..m] + b[m + 1..])
  {
    var x, pre, post := a[0], b[..m], b[m + 1..];
    assert b == pre + [x] + post;
    assert a == [x] + a[1..];
    assert multiset(b) == multiset(pre) + multiset([x]) + multiset(post);
    assert multiset(a) == multiset([x]) + multiset(a[1..]);
    assert multiset(pre + post) == multiset(pre) + multiset(post);
    forall y ensures multiset(a[1..])[y] == multiset(pre + post)[y] {
      assert multiset(a)[y] == multiset([x])[y] + multiset(a[1..])[y];
      assert multiset(b)[y] == multiset(pre)[y] + multiset([x])[y] + multiset(post)[y];
    }
  }

  /** Removing row `m` lowers the count of its own value by one. */
  lemma {:induction false} OccurrencesRemoveAt<T(!new), K(!new)>(s: seq<T>, m: nat, key: T -> K, k: K)
    requires m < |s|
    ensures Occurrences(s, key, k) == Occurrences(s[..m] + s[m + 1..], key, k) + (if key(s[m]) == k then 1 else 0)
  {
    var t := s[..m] + s[m + 1..];
    if m == 0 {
      assert t == s[1..];
    } else {
      OccurrencesRemoveAt(s[1..], m - 1, key, k);
      assert t[0] == s[0];
      assert t[1..] == s[1..][..m - 1] + s[1..][m..];
    }
  }

  /** Boolean-mask selection `df[mask]`: the rows satisfying `p`, in order. */
  function Filter<T(==,!new)>(s: seq<T>, p: T -> bool): (r: seq<T>)
    ensures |r| <= |s|
    ensures forall x :: x in r <==> x in s && p(x)
  {
    if |s| == 0 then []
    else
      assert forall x :: x in s <==> x == s[0] || x in s[1..];
      (if p(s[0]) then [s[0]] else []) + Filter(s[1..], p)
  }

  /** A filter keeps all rows of a value when all of them pass, and none when none does. */
  lemma {:induction false} FilterOccurrences<T(!new), K(!new)>(s: seq<T>, p: T -> bool, key: T -> K, k: K)
    ensures (forall x :: x in s && key(x) == k ==> p(x)) ==> Occurrences(Filter(s, p), key, k) == Occurrences(s, key, k)
    ensures (forall x :: x in s && key(x) == k ==> !p(x)) ==> Occurrences(Filter(s, p), key, k) == 0
  {
    if |s| > 0 {
      FilterOccurrences(s[1..], p, key, k);
      var head := if p(s[0]) then [s[0]] else [];
      OccurrencesConcat(head, Filter(s[1..], p), key, k);
    }
  }

  /** `df.duplicated(col, keep=False)` as a mask: the rows whose value occurs more than once. */
  function Duplicated<T(==,!new), K(==,!new)>(s: seq<T>, key: T -> K): (r: seq<T>)
    ensures forall x :: x in r <==> x in s && Occurrences(s, key, key(x)) >= 2
  {
    Filter(s, x => Occurrences(s, key, key(x)) >= 2)
  }

  /** `df.drop_duplicates(subset=[col], keep=False)`: the rows whose value occurs exactly once. */
  function DropAllDuplicates<T(==,!new), K(==,!new)>(s: seq<T>, key: T -> K): (r: seq<T>)
    ensures forall x :: x in r <==> x in s && Occurrences(s, key, key(x)) == 1
    ensures forall k :: Occurrences(r, key, k) == if Occurrences(s, key, k) == 1 then 1 else 0
  {
    var r := Filter(s, x => Occurrences(s, key, key(x)) == 1);
    forall k ensures Occurrences(r, key, k) == if Occurrences(s, key, k) == 1 then 1 else 0 {
      FilterOccurrences(s, x => Occurrences(s, key, key(x)) == 1, key, k);
    }
    r
  }

  /** The rows of `s` whose `key` column equals `k` (one group of `df.groupby(col)`). */
  function Group<T(==,!new), K(==,!new)>(s: seq<T>, key: T -> K, k: K): (g: seq<T>)
    ensures forall x :: x in g <==> x in s && key(x) == k
  {
    Filter(s, x => key(x) == k)
  }

  /** `df.groupby(col).filter(keep)`: the rows whose whole group satisfies `keep`, in order. */
  function FilterGroups<T(==,!new), K(==,!new)>(s: seq<T>, key: T -> K, keep: seq<T> -> bool): (r: seq<T>)
    ensures forall x :: x in r <==> x in s && keep(Group(s, key, key(x)))
  {
    Filter(s, x => keep(Group(s, key, key(x))))
  }

  /** `df.drop_duplicates(subset=[col], keep="first")`. */
  function KeepFirst<T(==,!new), K(==,!new)>(s: seq<T>, key: T -> K): (r: seq<T>)
    ensures forall x :: x in r ==> x in s
  {
    if |s| == 0 then []
    else
      var init := s[..|s| - 1];
      var last := s[|s| - 1];
      var kept := KeepFirst(init, key);
      if Occurrences(init, key, key(last)) > 0 then kept else kept + [last]
  }

  /** `keep="first"` leaves exactly one row for each value present in the input. */
  lemma {:induction false} KeepFirstCount<T(!new), K(!new)>(s: seq<T>, key: T -> K, k: K)
    ensures Occurrences(KeepFirst(s, key), key, k) == if Occurrences(s, key, k) > 0 then 1 else 0
  {
    if |s| > 0 {
      var init := s[..|s| - 1];
      var last := s[|s| - 1];
      var kept := KeepFirst(init, key);
      assert s == init + [last];
      KeepFirstCount(init, key, k);
      KeepFirstCount(init, key, key(last));
      OccurrencesConcat(init, [last], key, k);
      OccurrencesConcat(kept, [last], key, k);
    }
  }

  /** The row `keep="first"` leaves for a value is the earliest row holding it. */
  lemma {:induction false} KeepFirstIsFirst<T(!new), K(!new)>(s: seq<T>, key: T -> K, x: T)
    requires x in KeepFirst(s, key)
    ensures exists j :: 0 <= j < |s| && s[j] == x && Occurrences(s[..j], key, key(x)) == 0
  {
    var init := s[..|s| - 1];
    var last := s[|s| - 1];
    var kept := KeepFirst(init, key);
    if x in kept {
      KeepFirstIsFirst(init, key, x);
      var j :| 0 <= j < |init| && init[j] == x && Occurrences(init[..j], key, key(x)) == 0;
      assert s[..j] == init[..j];
    } else {
      assert x == last && Occurrences(init, key, key(last)) == 0;
      assert s[..|s| - 1] == init;
    }
  }

  /** `df.drop_duplicates(subset=[col], keep="last")`. */
  function KeepLast<T(==,!new), K(==,!new)>(s: seq<T>, key: T -> K): (r: seq<T>)
    ensures forall x :: x in r ==> x in s
  {
    if |s| == 0 then []
    else
      var first := s[0];
      var tail := s[1..];
      var kept := KeepLast(tail, key);
      if Occurrences(tail, key, key(first)) > 0 then kept else [first] + kept
  }

  /** `keep="last"` leaves exactly one row for each value present in the input. */
  lemma {:induction false} KeepLastCount<T(!new), K(!new)>(s: seq<T>, key: T -> K, k: K)
    ensures Occurrences(KeepLast(s, key), key, k) == if Occurrences(s, key, k) > 0 then 1 else 0
  {
    if |s| > 0 {
      var first := s[0];
      var tail := s[1..];
      var kept := KeepLast(tail, key);
      assert s == [first] + tail;
      KeepLastCount(tail, key, k);
      KeepLastCount(tail, key, key(first));
      OccurrencesConcat([first], tail, key, k);
      OccurrencesConcat([first], kept, key, k);
    }
  }

  /** The row `keep="last"` leaves for a value is the latest row holding it. */
  lemma {:induction false} KeepLastIsLast<T(!new), K(!new)>(s: seq<T>, key: T -> K, x: T)
    requires x in KeepLast(s, key)
    ensures exists j :: 0 <= j < |s| && s[j] == x && Occurrences(s[j + 1..], key, key(x)) == 0
  {
    var first := s[0];
    var tail := s[1..];
    var kept := KeepLast(tail, key);
    if x in kept {
      KeepLastIsLast(tail, key, x);
      var j :| 0 <= j < |tail| && tail[j] == x && Occurrences(tail[j + 1..], key, key(x)) == 0;
      assert s[j + 1] == x && s[j + 2..] == tail[j + 1..];
    } else {
      assert x == first && Occurrences(tail, key, key(first)) == 0;
      assert s[1..] == tail;
    }
  }

  /** On rows sorted by `order`, the row `keep="last"` keeps for a value has the
      largest `order` among the rows with that value. */
  lemma KeepLastOfSortedIsLatest<T(!new), K(!new)>(s: seq<T>, key: T -> K, order: T -> int, x: T, y: T)
    requires SortedBy(s, order)
    requires x in KeepLast(s, key) && y in s && key(y) == key(x)
    ensures order(y) <= order(x)
  {
    KeepLastIsLast(s, key, x);
    var j :| 0 <= j < |s| && s[j] == x && Occurrences(s[j + 1..], key, key(x)) == 0;
    var m :| 0 <= m < |s| && s[m] == y;
    OccurrencesPositive(s[j + 1..], key, key(x));
    forall i | j < i < |s| ensures key(s[i]) != key(x) {
      assert s[j + 1..][i - j - 1] == s[i];
    }
    assert m <= j;
  }

  /** Rows in ascending order of the integer column `key`. */
  predicate SortedBy<T>(s: seq<T>, key: T -> int) {
    forall i, j :: 0 <= i < j < |s| ==> key(s[i]) <= key(s[j])
  }

  /** Insertion into a sorted sequence, before every row whose key is not
      smaller than `key(x)`. `SortBy` inserts each row into the sorted rows
      that follow it, so rows with equal keys keep their input order. */
  function InsertBy<T(==,!new)>(x: T, s: seq<T>, key: T -> int): (r: seq<T>)
    ensures multiset(r) == multiset(s) + multiset{x}
  {
    if |s| == 0 || key(x) <= key(s[0]) then [x] + s
    else
      assert s == [s[0]] + s[1..];
      [s[0]] + InsertBy(x, s[1..], key)
  }

  /** Inserting into a sorted sequence keeps it sorted. */
  lemma {:induction false} InsertBySorted<T(!new)>(x: T, s: seq<T>, key: T -> int)
    requires SortedBy(s, key)
    ensures SortedBy(InsertBy(x, s, key), key)
  {
    if |s| > 0 && key(x) > key(s[0]) {
      var rest := InsertBy(x, s[1..], key);
      InsertBySorted(x, s[1..], key);
      forall i | 0 <= i < |rest| ensures key(s[0]) <= key(rest[i]) {
        InsertByMember(x, s[1..], key, i);
      }
    }
  }

  /** Each row of an insertion result is the inserted row or a row of the input. */
  lemma InsertByMember<T(!new)>(x: T, s: seq<T>, key: T -> int, i: nat)
    requires i < |InsertBy(x, s, key)|
    ensures InsertBy(x, s, key)[i] == x || exists j :: 0 <= j < |s| && s[j] == InsertBy(x, s, key)[i]
  {
    var r := InsertBy(x, s, key);
    assert r[i] in multiset(r);
  }

  /** Sorting keeps exactly the rows it was given. */
  lemma SortByMembers<T(!new)>(s: seq<T>, key: T -> int, x: T)
    ensures x in SortBy(s, key) <==> x in s
  {
    assert x in SortBy(s, key) <==> x in multiset(SortBy(s, key));
  }

  /** `df.sort_values(col, ascending=True)`: a permutation of the rows, sorted by `key`. */
  function SortBy<T(==,!new)>(s: seq<T>, key: T -> int): (r: seq<T>)
    ensures SortedBy(r, key)
    ensures multiset(r) == multiset(s)
    ensures |r| == |s|
  {
    if |s| == 0 then []
    else
      assert s == [s[0]] + s[1..];
      var sorted := SortBy(s[1..], key);
      InsertBySorted(s[0], sorted, key);
      var r := InsertBy(s[0], sorted, key);
      assert |r| == |multiset(r)|;
      r
  }
}
