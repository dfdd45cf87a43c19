/**
  A stable sort of a sequence by an integer key, the behaviour of Python's
  `sorted(xs, key=...)`: the result is ascending by key, is a permutation of
  the input, and keeps the input order among entries with equal keys.
 */
module StableSort {

  /** The entries of `s` whose key is `k`, in their order in `s`. */
  function WithKey<T>(s: seq<T>, key: T -> int, k: int): seq<T>
  {
    if s == [] then []
    else (if key(s[0]) == k then [s[0]] else []) + WithKey(s[1..], key, k)
  }

  /** `s` is ascending by `key`. */
  predicate SortedBy<T>(s: seq<T>, key: T -> int)
  {
    forall i, j :: 0 <= i < j < |s| ==> key(s[i]) <= key(s[j])
  }

  /** Inserts `x` in front of the first entry of `s` whose key is not smaller. */
  function Insert<T(==)>(x: T, s: seq<T>, key: T -> int): (r: seq<T>)
    ensures multiset(r) == multiset(s) + multiset{x}
    decreases |s|
  {
    if s == [] || key(x) <= key(s[0]) then [x] + s
    else
      assert s == [s[0]] + s[1..];
      [s[0]] + Insert(x, s[1..], key)
  }

  /** Every entry after the head of an ascending sequence has a key at least the head's. */
  lemma HeadBelowRest<T>(s: seq<T>, key: T -> int, y: T)
    requires SortedBy(s, key) && s != [] && y in s[1..]
    ensures key(s[0]) <= key(y)
  {
    var j :| 0 <= j < |s[1..]| && s[1..][j] == y;
    assert s[j + 1] == y;
  }

  /** Insertion into an ascending sequence keeps it ascending. */
  lemma {:induction false} InsertSorted<T>(x: T, s: seq<T>, key: T -> int)
    requires SortedBy(s, key)
    ensures SortedBy(Insert(x, s, key), key)
    decreases |s|
  {
    if s != [] && key(x) > key(s[0]) {
      var rest := Insert(x, s[1..], key);
      InsertSorted(x, s[1..], key);
      var r := [s[0]] + rest;
      forall j | 0 <= j < |rest|
        ensures key(s[0]) <= key(rest[j])
      {
        assert rest[j] in multiset(rest);
        if rest[j] != x {
          assert rest[j] in multiset(s[1..]);
          HeadBelowRest(s, key, rest[j]);
        }
      }
      forall a, b | 0 <= a < b < |r|
        ensures key(r[a]) <= key(r[b])
      {
        if a > 0 {
          assert r[a] == rest[a - 1] && r[b] == rest[b - 1];
        } else {
          assert r[b] == rest[b - 1];
        }
      }
    }
  }

  /** Inserting `x` puts it first among the entries with its key and leaves every other key's entries alone. */
  lemma {:induction false} InsertStable<T>(x: T, s: seq<T>, key: T -> int, k: int)
    ensures WithKey(Insert(x, s, key), key, k) == if key(x) == k then [x] + WithKey(s, key, k) else WithKey(s, key, k)
    decreases |s|
  {
    var r := Insert(x, s, key);
    if s == [] || key(x) <= key(s[0]) {
      assert r[0] == x && r[1..] == s;
    } else {
      var rest := Insert(x, s[1..], key);
      InsertStable(x, s[1..], key, k);
      assert r[0] == s[0] && r[1..] == rest;
      var head := if key(s[0]) == k then [s[0]] else [];
      var tail := WithKey(s[1..], key, k);
      assert WithKey(r, key, k) == head + WithKey(rest, key, k);
      assert WithKey(s, key, k) == head + tail;
      if key(x) == k {
        assert head == [];
        assert WithKey(r, key, k) == [x] + tail;
      } else {
        assert WithKey(r, key, k) == head + tail;
      }
    }
  }

  /** Insertion sort: the tail is sorted first, then the head is inserted in front of its equals. */
  function Sort<T(==)>(s: seq<T>, key: T -> int): (r: seq<T>)
    ensures SortedBy(r, key)
    ensures multiset(r) == multiset(s)
    ensures forall k :: WithKey(r, key, k) == WithKey(s, key, k)
  {
    if s == [] then []
    else
      var sorted := Sort(s[1..], key);
      assert s == [s[0]] + s[1..];
      InsertSorted(s[0], sorted, key);
      assert forall k :: WithKey(Insert(s[0], sorted, key), key, k) == WithKey(s, key, k) by {
        forall k
          ensures WithKey(Insert(s[0], sorted, key), key, k) == WithKey(s, key, k)
        {
          InsertStable(s[0], sorted, key, k);
        }
      }
      Insert(s[0], sorted, key)
  }

  lemma {:induction false} WithKeyMember<T>(s: seq<T>, key: T -> int, k: int, x: T)
    ensures x in WithKey(s, key, k) <==> x in s && key(x) == k
    decreases |s|
  {
    if s != [] {
      WithKeyMember(s[1..], key, k, x);
      assert s == [s[0]] + s[1..];
    }
  }

  /** In an ascending sequence the head has the least key. */
  lemma HeadKeyLeast<T>(s: seq<T>, key: T -> int, x: T)
    requires SortedBy(s, key) && x in s
    ensures key(s[0]) <= key(x)
  {
    var i :| 0 <= i < |s| && s[i] == x;
    if i > 0 {
      assert key(s[0]) <= key(s[i]);
    }
  }

  /** Two non-empty ascending sequences that agree on every key start with the same entry. */
  lemma SameHead<T>(a: seq<T>, b: seq<T>, key: T -> int)
    requires a != [] && b != []
    requires SortedBy(a, key) && SortedBy(b, key)
    requires forall k :: WithKey(a, key, k) == WithKey(b, key, k)
    ensures a[0] == b[0]
  {
    var ka, kb := key(a[0]), key(b[0]);
    WithKeyMember(b, key, kb, b[0]);
    WithKeyMember(a, key, kb, b[0]);
    HeadKeyLeast(a, key, b[0]);
    WithKeyMember(a, key, ka, a[0]);
    WithKeyMember(b, key, ka, a[0]);
    HeadKeyLeast(b, key, a[0]);
    assert ka == kb;
    var wa, wb := WithKey(a[1..], key, ka), WithKey(b[1..], key, ka);
    assert WithKey(a, key, ka) == [a[0]] + wa;
    assert WithKey(b, key, ka) == [b[0]] + wb;
    assert ([a[0]] + wa)[0] == ([b[0]] + wb)[0];
  }

  /** Two sequences that agree on every key are empty together. */
  lemma EmptyAgree<T>(a: seq<T>, b: seq<T>, key: T -> int)
    requires forall k :: WithKey(a, key, k) == WithKey(b, key, k)
    ensures a == [] <==> b == []
  {
    if a != [] {
      assert WithKey(a, key, key(a[0])) != [];
    }
    if b != [] {
      assert WithKey(b, key, key(b[0])) != [];
    }
  }

  /** Removing an equal head from two sequences that agree on every key leaves tails that agree. */
  lemma TailsAgree<T>(a: seq<T>, b: seq<T>, key: T -> int)
    requires a != [] && b != [] && a[0] == b[0]
    requires forall k :: WithKey(a, key, k) == WithKey(b, key, k)
    ensures forall k :: WithKey(a[1..], key, k) == WithKey(b[1..], key, k)
  {
    forall k
      ensures WithKey(a[1..], key, k) == WithKey(b[1..], key, k)
    {
      var wa, wb := WithKey(a[1..], key, k), WithKey(b[1..], key, k);
      if key(a[0]) == k {
        assert WithKey(a, key, k) == [a[0]] + wa;
        assert WithKey(b, key, k) == [b[0]] + wb;
        assert wa == ([a[0]] + wa)[1..];
        assert wb == ([b[0]] + wb)[1..];
      } else {
        assert WithKey(a, key, k) == wa;
        assert WithKey(b, key, k) == wb;
      }
    }
  }

  /**
    Sortedness and stability determine the result: two sequences that are both
    ascending by `key` and agree on the subsequence of every key are equal.
    So `Sort` returns exactly what any stable sort by `key` returns.
   */
  lemma {:induction false} SortedStableUnique<T>(a: seq<T>, b: seq<T>, key: T -> int)
    requires SortedBy(a, key) && SortedBy(b, key)
    requires forall k :: WithKey(a, key, k) == WithKey(b, key, k)
    ensures a == b
    decreases |a|
  {
    EmptyAgree(a, b, key);
    if a != [] {
      SameHead(a, b, key);
      TailsAgree(a, b, key);
      SortedStableUnique(a[1..], b[1..], key);
      assert a == [a[0]] + a[1..];
      assert b == [b[0]] + b[1..];
    }
  }
}
