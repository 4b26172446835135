/** Stable insertion sort by an integer key, as a specification shared by the range list and the handler
    lists. */
module StableSort {
  /** Puts x behind the last element whose key is not above its own. */
  function Insert<T>(s: seq<T>, x: T, key: T -> int): seq<T> {
    if s == [] || key(s[|s| - 1]) <= key(x) then s + [x]
    else Insert(s[..|s| - 1], x, key) + [s[|s| - 1]]
  }

  function Sort<T>(s: seq<T>, key: T -> int): seq<T> {
    if s == [] then [] else Insert(Sort(s[..|s| - 1], key), s[|s| - 1], key)
  }

  ghost predicate Sorted<T>(s: seq<T>, key: T -> int) {
    forall i, j | 0 <= i < j < |s| :: key(s[i]) <= key(s[j])
  }

  /** The elements with key k, in order. */
  function Bucket<T>(s: seq<T>, k: int, key: T -> int): seq<T> {
    if s == [] then []
    else Bucket(s[..|s| - 1], k, key) + (if key(s[|s| - 1]) == k then [s[|s| - 1]] else [])
  }

  lemma {:induction false} InsertPermutes<T>(s: seq<T>, x: T, key: T -> int)
    ensures multiset(Insert(s, x, key)) == multiset(s) + multiset{x}
  {
    if s != [] && key(s[|s| - 1]) > key(x) {
      InsertPermutes(s[..|s| - 1], x, key);
      assert s == s[..|s| - 1] + [s[|s| - 1]];
    }
  }

  lemma {:induction false} InsertSorted<T>(s: seq<T>, x: T, key: T -> int)
    requires Sorted(s, key)
    ensures Sorted(Insert(s, x, key), key)
  {
    if s != [] && key(s[|s| - 1]) > key(x) {
      var front, last := s[..|s| - 1], s[|s| - 1];
      InsertSorted(front, x, key);
      InsertPermutes(front, x, key);
      var r := Insert(front, x, key);
      forall i | 0 <= i < |r|
        ensures key(r[i]) <= key(last)
      {
        assert r[i] in multiset(r);
        assert r[i] == x || r[i] in front;
      }
    }
  }

  lemma {:induction false} InsertBucket<T>(s: seq<T>, x: T, k: int, key: T -> int)
    requires Sorted(s, key)
    ensures Bucket(Insert(s, x, key), k, key) == Bucket(s, k, key) + (if key(x) == k then [x] else [])
  {
    var r := Insert(s, x, key);
    if s == [] || key(s[|s| - 1]) <= key(x) {
      assert r[..|r| - 1] == s;
    } else {
      var front, last := s[..|s| - 1], s[|s| - 1];
      assert r[..|r| - 1] == Insert(front, x, key) && r[|r| - 1] == last;
      InsertBucket(front, x, k, key);
      if key(x) == k {
        assert Bucket(s, k, key) == Bucket(front, k, key);
      }
    }
  }

  /** Sorting sorts, permutes, and keeps equal keys in their order. */
  lemma {:induction false} SortIsStable<T>(s: seq<T>, key: T -> int)
    ensures Sorted(Sort(s, key), key)
    ensures multiset(Sort(s, key)) == multiset(s)
    ensures |Sort(s, key)| == |s|
    ensures forall k :: Bucket(Sort(s, key), k, key) == Bucket(s, k, key)
  {
    if s != [] {
      var front, last := s[..|s| - 1], s[|s| - 1];
      SortIsStable(front, key);
      InsertSorted(Sort(front, key), last, key);
      InsertPermutes(Sort(front, key), last, key);
      assert s == front + [last];
      forall k
        ensures Bucket(Sort(s, key), k, key) == Bucket(s, k, key)
      {
        InsertBucket(Sort(front, key), last, k, key);
      }
      assert |multiset(Sort(s, key))| == |multiset(s)|;
    }
  }

  lemma {:induction false} BucketBelow<T>(s: seq<T>, k: int, key: T -> int)
    requires forall i | 0 <= i < |s| :: key(s[i]) < k
    ensures Bucket(s, k, key) == []
  {
    if s != [] {
      BucketBelow(s[..|s| - 1], k, key);
    }
  }

  lemma LastInBucket<T>(s: seq<T>, key: T -> int)
    ensures s != [] ==> exists k :: Bucket(s, k, key) != []
  {
    if s != [] {
      assert Bucket(s, key(s[|s| - 1]), key) != [];
    }
  }

  /** A sorted list is determined by its buckets: sorted and stable leaves one result only. */
  lemma {:induction false} SortedUnique<T>(a: seq<T>, b: seq<T>, key: T -> int)
    requires Sorted(a, key) && Sorted(b, key)
    requires forall k :: Bucket(a, k, key) == Bucket(b, k, key)
    ensures a == b
    decreases |a| + |b|
  {
    if a == [] || b == [] {
      LastInBucket(a, key);
      LastInBucket(b, key);
    } else {
      var x, y := a[|a| - 1], b[|b| - 1];
      if key(x) < key(y) {
        BucketBelow(a, key(y), key);
      } else if key(y) < key(x) {
        BucketBelow(b, key(x), key);
      } else {
        var k := key(x);
        var a', b' := a[..|a| - 1], b[..|b| - 1];
        assert Bucket(a, k, key) == Bucket(a', k, key) + [x];
        assert Bucket(b, k, key) == Bucket(b', k, key) + [y];
        assert x == y && Bucket(a', k, key) == Bucket(b', k, key) by {
          assert (Bucket(a', k, key) + [x])[|Bucket(a', k, key)|] == x;
          assert (Bucket(b', k, key) + [y])[|Bucket(b', k, key)|] == y;
          assert (Bucket(a', k, key) + [x])[..|Bucket(a', k, key)|] == Bucket(a', k, key);
          assert (Bucket(b', k, key) + [y])[..|Bucket(b', k, key)|] == Bucket(b', k, key);
        }
        forall j
          ensures Bucket(a', j, key) == Bucket(b', j, key)
        {
          assert Bucket(a, j, key) == Bucket(b, j, key);
          assert j != k ==> Bucket(a, j, key) == Bucket(a', j, key) && Bucket(b, j, key) == Bucket(b', j, key);
        }
        SortedUnique(a', b', key);
        assert a == a' + [x] && b == b' + [y];
      }
    }
  }

  /** Where Insert puts x in a sorted list: before the first greater key. */
  lemma {:induction false} InsertPosition<T>(s: seq<T>, x: T, i: nat, key: T -> int)
    requires Sorted(s, key) && i <= |s|
    requires i > 0 ==> key(s[i - 1]) <= key(x)
    requires i < |s| ==> key(s[i]) > key(x)
    ensures Insert(s, x, key) == s[..i] + [x] + s[i..]
  {
    if i == |s| {
      assert s[..i] == s;
    } else {
      var front, last := s[..|s| - 1], s[|s| - 1];
      assert i < |s| - 1 ==> key(s[i]) <= key(last);
      assert front[..i] == s[..i] && front[i..] + [last] == s[i..];
      if i < |front| {
        assert front[i] == s[i];
      }
      InsertPosition(front, x, i, key);
      Regroup(s[..i] + [x], front[i..], [last]);
    }
  }

  lemma Regroup<T>(a: seq<T>, b: seq<T>, c: seq<T>)
    ensures a + b + c == a + (b + c)
  {
  }

  lemma {:induction false} SortOfSorted<T>(s: seq<T>, key: T -> int)
    requires Sorted(s, key)
    ensures Sort(s, key) == s
  {
    if s != [] {
      SortOfSorted(s[..|s| - 1], key);
      assert s == s[..|s| - 1] + [s[|s| - 1]];
    }
  }
}
