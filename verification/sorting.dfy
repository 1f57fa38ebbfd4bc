/** `sorted(xs, key=key, reverse=True)`: a stable sort into descending key order. Python keeps
    elements with equal keys in their original order even when `reverse` is set. */
module Sorting {
  import opened Text

  /** The elements of `s` whose key is `v`, in order. */
  function WithKey<T>(s: seq<T>, key: T -> int, v: int): seq<T> {
    if s == [] then [] else (if key(s[0]) == v then [s[0]] else []) + WithKey(s[1..], key, v)
  }

  predicate Descending<T>(s: seq<T>, key: T -> int) {
    forall i, j :: 0 <= i < j < |s| ==> key(s[i]) >= key(s[j])
  }

  /** `x` placed after every element of `s` whose key is at least its own. */
  function Insert<T>(s: seq<T>, x: T, key: T -> int): seq<T> {
    if s == [] then [x]
    else if key(s[0]) >= key(x) then [s[0]] + Insert(s[1..], x, key)
    else [x] + s
  }

  /** Insertion of each element in turn, the later one after the earlier ones of equal key. */
  function SortDesc<T>(xs: seq<T>, key: T -> int): seq<T> {
    if xs == [] then [] else Insert(SortDesc(xs[..|xs| - 1], key), xs[|xs| - 1], key)
  }

  lemma {:induction false} WithKeyAppend<T>(a: seq<T>, b: seq<T>, key: T -> int, v: int)
    ensures WithKey(a + b, key, v) == WithKey(a, key, v) + WithKey(b, key, v)
  {
    if a == [] {
      assert a + b == b;
    } else {
      var head := if key(a[0]) == v then [a[0]] else [];
      assert (a + b)[0] == a[0] && (a + b)[1..] == a[1..] + b;
      assert WithKey(a + b, key, v) == head + WithKey(a[1..] + b, key, v);
      assert WithKey(a, key, v) == head + WithKey(a[1..], key, v);
      WithKeyAppend(a[1..], b, key, v);
      assert head + (WithKey(a[1..], key, v) + WithKey(b, key, v))
          == (head + WithKey(a[1..], key, v)) + WithKey(b, key, v);
    }
  }

  /** A descending list whose first key is below `v` holds no element with key `v`. */
  lemma {:induction false} WithKeyBelow<T>(s: seq<T>, key: T -> int, v: int)
    requires Descending(s, key) && s != [] && key(s[0]) < v
    ensures WithKey(s, key, v) == []
  {
    if |s| > 1 {
      assert key(s[1]) <= key(s[0]);
      WithKeyBelow(s[1..], key, v);
    }
  }

  predicate AtMost<T>(s: seq<T>, key: T -> int, b: int) {
    forall i :: 0 <= i < |s| ==> key(s[i]) <= b
  }

  lemma ConsDescending<T>(h: T, t: seq<T>, key: T -> int)
    requires Descending(t, key) && AtMost(t, key, key(h))
    ensures Descending([h] + t, key)
  {
    assert forall j :: 0 < j < |[h] + t| ==> ([h] + t)[j] == t[j - 1];
  }

  lemma {:induction false} InsertAtMost<T>(s: seq<T>, x: T, key: T -> int, b: int)
    requires AtMost(s, key, b) && key(x) <= b
    ensures AtMost(Insert(s, x, key), key, b)
  {
    if s != [] && key(s[0]) >= key(x) {
      InsertAtMost(s[1..], x, key, b);
      assert forall j :: 0 < j < |[s[0]] + Insert(s[1..], x, key)| ==>
        ([s[0]] + Insert(s[1..], x, key))[j] == Insert(s[1..], x, key)[j - 1];
    } else if s != [] {
      assert forall j :: 0 < j < |[x] + s| ==> ([x] + s)[j] == s[j - 1];
    }
  }

  lemma {:induction false} InsertDescending<T>(s: seq<T>, x: T, key: T -> int)
    requires Descending(s, key)
    ensures Descending(Insert(s, x, key), key)
  {
    if s != [] {
      if key(s[0]) >= key(x) {
        InsertDescending(s[1..], x, key);
        InsertAtMost(s[1..], x, key, key(s[0]));
        ConsDescending(s[0], Insert(s[1..], x, key), key);
      } else {
        ConsDescending(x, s, key);
      }
    }
  }

  lemma {:induction false} InsertPermutes<T>(s: seq<T>, x: T, key: T -> int)
    ensures multiset(Insert(s, x, key)) == multiset(s) + multiset{x}
  {
    if s != [] && key(s[0]) >= key(x) {
      InsertPermutes(s[1..], x, key);
      assert s == [s[0]] + s[1..];
    }
  }

  /** Insertion appends `x` to the elements of its own key and leaves the others alone. */
  lemma {:induction false} InsertWithKey<T>(s: seq<T>, x: T, key: T -> int, v: int)
    requires Descending(s, key)
    ensures WithKey(Insert(s, x, key), key, v) == WithKey(s, key, v) + (if key(x) == v then [x] else [])
  {
    if s == [] {
    } else if key(s[0]) >= key(x) {
      InsertWithKey(s[1..], x, key, v);
      assert ([s[0]] + Insert(s[1..], x, key))[1..] == Insert(s[1..], x, key);
    } else {
      assert ([x] + s)[1..] == s;
      if key(x) == v {
        WithKeyBelow(s, key, v);
      }
    }
  }

  /** The result is in descending key order and is a permutation of the input. */
  lemma {:induction false} SortDescSorted<T>(xs: seq<T>, key: T -> int)
    ensures Descending(SortDesc(xs, key), key)
    ensures multiset(SortDesc(xs, key)) == multiset(xs)
  {
    if xs != [] {
      var init := xs[..|xs| - 1];
      SortDescSorted(init, key);
      InsertDescending(SortDesc(init, key), xs[|xs| - 1], key);
      InsertPermutes(SortDesc(init, key), xs[|xs| - 1], key);
      assert xs == init + [xs[|xs| - 1]];
    }
  }

  /** The sort is stable: the elements of each key keep their input order. */
  lemma {:induction false} SortDescStable<T>(xs: seq<T>, key: T -> int, v: int)
    ensures WithKey(SortDesc(xs, key), key, v) == WithKey(xs, key, v)
  {
    if xs != [] {
      var init := xs[..|xs| - 1];
      var x := xs[|xs| - 1];
      SortDescStable(init, key, v);
      SortDescSorted(init, key);
      InsertWithKey(SortDesc(init, key), x, key, v);
      InitLast(xs);
      WithKeyAppend(init, [x], key, v);
    }
  }
}
