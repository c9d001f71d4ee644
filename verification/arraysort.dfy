/** `Array.prototype.sort(compare)` as the modelled code uses it: a stable sort, where
    `compare(a, b) < 0` puts `a` first and elements comparing 0 keep their order.
    Written as an insertion sort, which orders any input the way every stable sort
    does when the comparator is consistent. */
module ArraySort {

  function Last<T>(s: seq<T>): T
    requires s != []
  {
    s[|s| - 1]
  }

  /** Places `x`, which came after every element of `t`, before the first element
      it compares below and after every element it does not. */
  function Insert<T>(x: T, t: seq<T>, cmp: (T, T) -> int): (r: seq<T>)
    ensures |r| == |t| + 1
    ensures multiset(r) == multiset(t) + multiset{x}
  {
    if t == [] then [x]
    else if cmp(x, t[0]) < 0 then [x] + t
    else
      assert t == [t[0]] + t[1..];
      [t[0]] + Insert(x, t[1..], cmp)
  }

  /** The sorted array: a permutation of the input. */
  function Sort<T>(s: seq<T>, cmp: (T, T) -> int): (r: seq<T>)
    ensures |r| == |s|
    ensures multiset(r) == multiset(s)
  {
    if s == [] then []
    else
      assert s == s[..|s| - 1] + [Last(s)];
      Insert(Last(s), Sort(s[..|s| - 1], cmp), cmp)
  }

  /** No element is placed before one that should come before it. */
  ghost predicate SortedBy<T>(s: seq<T>, cmp: (T, T) -> int) {
    forall i, j :: 0 <= i < j < |s| ==> cmp(s[i], s[j]) <= 0
  }

  /** On the elements of `elems`, `cmp` is a consistent comparator: swapping the
      arguments of a non-negative comparison gives a non-positive one, and
      "not after" is transitive. */
  ghost predicate Consistent<T>(cmp: (T, T) -> int, elems: seq<T>) {
    && (forall a, b {:trigger cmp(a, b)} :: a in elems && b in elems && cmp(a, b) >= 0 ==> cmp(b, a) <= 0)
    && (forall a, b, c {:trigger cmp(a, b), cmp(b, c)} ::
          a in elems && b in elems && c in elems && cmp(a, b) <= 0 && cmp(b, c) <= 0 ==> cmp(a, c) <= 0)
  }

  /** An element that is not after anything in a sorted sequence can lead it. */
  lemma SortedCons<T>(h: T, rest: seq<T>, cmp: (T, T) -> int)
    requires SortedBy(rest, cmp)
    requires forall k :: 0 <= k < |rest| ==> cmp(h, rest[k]) <= 0
    ensures SortedBy([h] + rest, cmp)
  {
    var r := [h] + rest;
    forall i, j | 0 <= i < j < |r| ensures cmp(r[i], r[j]) <= 0 {
      assert r[j] == rest[j - 1];
      if i > 0 { assert r[i] == rest[i - 1]; }
    }
  }

  lemma {:induction false} InsertSorted<T>(x: T, t: seq<T>, cmp: (T, T) -> int, elems: seq<T>)
    requires SortedBy(t, cmp) && Consistent(cmp, elems)
    requires x in elems && forall k :: 0 <= k < |t| ==> t[k] in elems
    ensures SortedBy(Insert(x, t, cmp), cmp)
    decreases |t|
  {
    if t == [] {
    } else if cmp(x, t[0]) < 0 {
      forall k | 0 <= k < |t| ensures cmp(x, t[k]) <= 0 {
        if k > 0 {
          assert cmp(t[0], t[k]) <= 0;
          assert t[0] in elems && t[k] in elems;
        }
      }
      SortedCons(x, t, cmp);
    } else {
      var rest := Insert(x, t[1..], cmp);
      assert SortedBy(t[1..], cmp) by {
        forall i, j | 0 <= i < j < |t[1..]| ensures cmp(t[1..][i], t[1..][j]) <= 0 {
          assert t[1..][i] == t[i + 1] && t[1..][j] == t[j + 1];
        }
      }
      InsertSorted(x, t[1..], cmp, elems);
      assert t[0] in elems;
      assert cmp(t[0], x) <= 0;
      forall k | 0 <= k < |rest| ensures cmp(t[0], rest[k]) <= 0 {
        var y := rest[k];
        assert y in multiset(rest);
        if y != x {
          assert y in multiset(t[1..]);
          var m :| 0 <= m < |t[1..]| && t[1..][m] == y;
          assert t[m + 1] == y;
        }
      }
      SortedCons(t[0], rest, cmp);
    }
  }

  /** With a consistent comparator the result is sorted. */
  lemma {:induction false} SortSorted<T>(s: seq<T>, cmp: (T, T) -> int)
    requires Consistent(cmp, s)
    ensures SortedBy(Sort(s, cmp), cmp)
    decreases |s|
  {
    if s != [] {
      var front := s[..|s| - 1];
      assert forall y :: y in front ==> y in s;
      SortSorted(front, cmp);
      var t := Sort(front, cmp);
      forall k | 0 <= k < |t| ensures t[k] in s {
        assert t[k] in multiset(t);
        assert t[k] in front;
      }
      InsertSorted(Last(s), t, cmp, s);
    }
  }

  /** Inserting into a non-empty sequence puts `x` last exactly when it compares
      non-negatively with every element already there. */
  lemma {:induction false} LastOfInsert<T>(x: T, t: seq<T>, cmp: (T, T) -> int)
    requires t != []
    ensures Last(Insert(x, t, cmp)) ==
            if forall i :: 0 <= i < |t| ==> cmp(x, t[i]) >= 0 then x else Last(t)
    decreases |t|
  {
    if cmp(x, t[0]) >= 0 && |t| > 1 {
      LastOfInsert(x, t[1..], cmp);
      if forall i :: 0 <= i < |t[1..]| ==> cmp(x, t[1..][i]) >= 0 {
        assert forall i :: 0 <= i < |t| ==> cmp(x, t[i]) >= 0 by {
          forall i | 0 <= i < |t| ensures cmp(x, t[i]) >= 0 {
            if i > 0 { assert t[i] == t[1..][i - 1]; }
          }
        }
      } else {
        var i :| 0 <= i < |t[1..]| && cmp(x, t[1..][i]) < 0;
        assert cmp(x, t[i + 1]) < 0;
      }
    }
  }

  /** The comparator `(a, b) => key(a) - key(b)`: ascending by an integer key. */
  function ByKey<T>(key: T -> int): (T, T) -> int {
    (a, b) => key(a) - key(b)
  }

  /** The index of the last element of largest key: a reference definition. */
  function LastMaxIndex<T>(s: seq<T>, key: T -> int): (j: nat)
    requires s != []
    ensures j < |s|
    ensures forall k :: 0 <= k < |s| ==> key(s[k]) <= key(s[j])
    ensures forall k :: j < k < |s| ==> key(s[k]) < key(s[j])
    decreases |s|
  {
    if |s| == 1 then 0
    else
      var j := LastMaxIndex(s[..|s| - 1], key);
      assert forall k :: 0 <= k < |s| - 1 ==> s[k] == s[..|s| - 1][k];
      if key(Last(s)) >= key(s[j]) then |s| - 1 else j
  }

  /** Sorting ascending by a key and taking the last element picks the element of
      largest key that came last in the input. */
  lemma {:induction false} LastOfSortByKey<T>(s: seq<T>, key: T -> int)
    requires s != []
    ensures Last(Sort(s, ByKey(key))) == s[LastMaxIndex(s, key)]
    decreases |s|
  {
    var cmp := ByKey(key);
    var front := s[..|s| - 1];
    if front == [] {
      assert Sort(s, cmp) == Insert(Last(s), [], cmp);
    } else {
      LastOfSortByKey(front, key);
      var t := Sort(front, cmp);
      LastOfInsert(Last(s), t, cmp);
      var j := LastMaxIndex(front, key);
      assert front[j] == s[j];
      if forall i :: 0 <= i < |t| ==> cmp(Last(s), t[i]) >= 0 {
        assert Last(t) in multiset(front);
        var i :| 0 <= i < |t| && t[i] == Last(t);
        assert cmp(Last(s), t[i]) >= 0;
      } else {
        var i :| 0 <= i < |t| && cmp(Last(s), t[i]) < 0;
        assert t[i] in multiset(front);
        var m :| 0 <= m < |front| && front[m] == t[i];
        assert key(front[m]) <= key(front[j]);
      }
    }
  }
}
