/** Python's `sorted(xs, key=k, reverse=True)` as the program uses it: a stable
    sort into non-increasing key order. The built-in is Timsort; any stable
    sort produces the same list, so an insertion sort defines it here. */
module Sorting {

  /** Keys never increase from left to right. */
  ghost predicate NonIncreasing<T>(s: seq<T>, key: T -> real)
  {
    forall i, j :: 0 <= i < j < |s| ==> key(s[i]) >= key(s[j])
  }

  /** No element occurs twice. */
  ghost predicate Distinct<T>(s: seq<T>)
  {
    forall i, j :: 0 <= i < j < |s| ==> s[i] != s[j]
  }

  /** The elements whose key is `v`, in their order in `s`. */
  function WithKey<T>(s: seq<T>, key: T -> real, v: real): seq<T>
  {
    if s == [] then []
    else WithKey(s[..|s| - 1], key, v) + (if key(s[|s| - 1]) == v then [s[|s| - 1]] else [])
  }

  /** Places `x` after every element whose key is at least its own. */
  function Insert<T>(s: seq<T>, x: T, key: T -> real): seq<T>
  {
    if s == [] then [x]
    else if key(s[0]) >= key(x) then [s[0]] + Insert(s[1..], x, key)
    else [x] + s
  }

  /** Inserting adds `x` and loses nothing. */
  lemma {:induction false} InsertPermutes<T>(s: seq<T>, x: T, key: T -> real)
    ensures multiset(Insert(s, x, key)) == multiset(s) + multiset{x}
  {
    if s != [] && key(s[0]) >= key(x) {
      assert s == [s[0]] + s[1..];
      InsertPermutes(s[1..], x, key);
    }
  }

  /** Inserting a key no larger than a bound keeps every key within that bound. */
  lemma InsertBounded<T>(s: seq<T>, x: T, key: T -> real, b: real)
    requires forall i :: 0 <= i < |s| ==> key(s[i]) <= b
    requires key(x) <= b
    ensures forall i :: 0 <= i < |Insert(s, x, key)| ==> key(Insert(s, x, key)[i]) <= b
  {
    var r := Insert(s, x, key);
    InsertPermutes(s, x, key);
    forall i | 0 <= i < |r| ensures key(r[i]) <= b {
      assert r[i] in multiset(r);
      if r[i] != x {
        assert r[i] in multiset(s);
        var k :| 0 <= k < |s| && s[k] == r[i];
      }
    }
  }

  /** Inserting into a non-increasing list keeps it non-increasing. */
  lemma {:induction false} InsertNonIncreasing<T>(s: seq<T>, x: T, key: T -> real)
    requires NonIncreasing(s, key)
    ensures NonIncreasing(Insert(s, x, key), key)
  {
    if s != [] && key(s[0]) >= key(x) {
      var tail := s[1..];
      assert NonIncreasing(tail, key) by {
        forall i, j | 0 <= i < j < |tail| ensures key(tail[i]) >= key(tail[j]) {
          assert tail[i] == s[i + 1] && tail[j] == s[j + 1];
        }
      }
      InsertNonIncreasing(tail, x, key);
      forall i | 0 <= i < |tail| ensures key(tail[i]) <= key(s[0]) {
        assert tail[i] == s[i + 1];
      }
      InsertBounded(tail, x, key, key(s[0]));
      var r := Insert(s, x, key);
      var rt := Insert(tail, x, key);
      assert r == [s[0]] + rt;
      forall i, j | 0 <= i < j < |r| ensures key(r[i]) >= key(r[j]) {
        assert r[j] == rt[j - 1];
        if i > 0 {
          assert r[i] == rt[i - 1];
        }
      }
    } else if s != [] {
      var r := Insert(s, x, key);
      assert r == [x] + s;
      forall i, j | 0 <= i < j < |r| ensures key(r[i]) >= key(r[j]) {
        assert r[j] == s[j - 1];
        if i > 0 {
          assert r[i] == s[i - 1];
        }
      }
    }
  }

  /** `sorted(xs, key=key, reverse=True)`. */
  function SortDesc<T>(xs: seq<T>, key: T -> real): (r: seq<T>)
    ensures multiset(r) == multiset(xs)
    ensures NonIncreasing(r, key)
  {
    if xs == [] then []
    else
      var init := xs[..|xs| - 1];
      assert xs == init + [xs[|xs| - 1]];
      InsertNonIncreasing(SortDesc(init, key), xs[|xs| - 1], key);
      InsertPermutes(SortDesc(init, key), xs[|xs| - 1], key);
      Insert(SortDesc(init, key), xs[|xs| - 1], key)
  }

  lemma WithKeyAppend<T>(a: seq<T>, b: seq<T>, key: T -> real, v: real)
    ensures WithKey(a + b, key, v) == WithKey(a, key, v) + WithKey(b, key, v)
    decreases |b|
  {
    if b == [] {
      assert a + b == a;
    } else {
      var b' := b[..|b| - 1];
      assert (a + b)[..|a + b| - 1] == a + b';
      assert (a + b)[|a + b| - 1] == b[|b| - 1];
      WithKeyAppend(a, b', key, v);
    }
  }

  /** A list holding no element with key `v` has nothing to keep. */
  lemma {:induction false} WithKeyNone<T>(s: seq<T>, key: T -> real, v: real)
    requires forall i :: 0 <= i < |s| ==> key(s[i]) != v
    ensures WithKey(s, key, v) == []
  {
    if s != [] {
      WithKeyNone(s[..|s| - 1], key, v);
    }
  }

  lemma NonIncreasingTail<T>(s: seq<T>, key: T -> real)
    requires s != [] && NonIncreasing(s, key)
    ensures NonIncreasing(s[1..], key)
    ensures forall i :: 0 <= i < |s| ==> key(s[i]) <= key(s[0])
  {
    var tail := s[1..];
    forall i, j | 0 <= i < j < |tail| ensures key(tail[i]) >= key(tail[j]) {
      assert tail[i] == s[i + 1] && tail[j] == s[j + 1];
    }
  }

  /** Inserting `x` adds it behind every element that shares its key. */
  lemma {:induction false} WithKeyInsert<T>(s: seq<T>, x: T, key: T -> real, v: real)
    requires NonIncreasing(s, key)
    ensures WithKey(Insert(s, x, key), key, v) == WithKey(s, key, v) + WithKey([x], key, v)
    decreases |s|, 1
  {
    if s == [] {
      assert [x][..0] == [];
      assert Insert(s, x, key) == [x];
    } else if key(s[0]) >= key(x) {
      WithKeyInsertBehind(s, x, key, v);
    } else {
      WithKeyInsertFirst(s, x, key, v);
    }
  }

  /** `x` goes behind the head: the head's share stays in front. */
  lemma {:induction false} WithKeyInsertBehind<T>(s: seq<T>, x: T, key: T -> real, v: real)
    requires NonIncreasing(s, key) && s != [] && key(s[0]) >= key(x)
    ensures WithKey(Insert(s, x, key), key, v) == WithKey(s, key, v) + WithKey([x], key, v)
    decreases |s|, 0
  {
    var head := [s[0]];
    var tail := s[1..];
    assert s == head + tail;
    var rest := Insert(tail, x, key);
    assert Insert(s, x, key) == head + rest;
    NonIncreasingTail(s, key);
    WithKeyInsert(tail, x, key, v);
    WithKeyAppend(head, rest, key, v);
    WithKeyAppend(head, tail, key, v);
    var wh := WithKey(head, key, v);
    var wt := WithKey(tail, key, v);
    var wx := WithKey([x], key, v);
    assert wh + (wt + wx) == (wh + wt) + wx;
  }

  /** `x` goes first: everything behind it has a smaller key. */
  lemma WithKeyInsertFirst<T>(s: seq<T>, x: T, key: T -> real, v: real)
    requires NonIncreasing(s, key) && s != [] && key(s[0]) < key(x)
    ensures WithKey(Insert(s, x, key), key, v) == WithKey(s, key, v) + WithKey([x], key, v)
  {
    assert Insert(s, x, key) == [x] + s;
    WithKeyAppend([x], s, key, v);
    var ws := WithKey(s, key, v);
    var wx := WithKey([x], key, v);
    assert [x][..0] == [];
    if key(x) == v {
      NonIncreasingTail(s, key);
      WithKeyNone(s, key, v);
      assert wx + ws == ws + wx;
    } else {
      assert wx == [];
      assert wx + ws == ws + wx;
    }
  }

  /** Stability: the elements sharing any one key keep their input order. */
  lemma {:induction false} SortDescStable<T>(xs: seq<T>, key: T -> real, v: real)
    ensures WithKey(SortDesc(xs, key), key, v) == WithKey(xs, key, v)
  {
    if xs != [] {
      var init := xs[..|xs| - 1];
      var x := xs[|xs| - 1];
      var both := WithKey(init, key, v) + WithKey([x], key, v);
      assert WithKey(SortDesc(xs, key), key, v) == both by {
        var sorted := SortDesc(init, key);
        assert SortDesc(xs, key) == Insert(sorted, x, key);
        SortDescStable(init, key, v);
        WithKeyInsert(sorted, x, key, v);
      }
      assert WithKey(xs, key, v) == both by {
        assert [x][..0] == [];
        assert WithKey([x], key, v) == (if key(x) == v then [x] else []);
      }
    }
  }

  lemma MultisetDistinct<T>(s: seq<T>, t: seq<T>)
    requires Distinct(s) && multiset(s) == multiset(t)
    ensures Distinct(t)
  {
    forall i, j | 0 <= i < j < |t| ensures t[i] != t[j] {
      if t[i] == t[j] {
        var x := t[i];
        assert t == t[..i] + [x] + t[i + 1..j] + [x] + t[j + 1..];
        assert multiset(t)[x] >= 2;
        CountAtMostOne(s, x);
      }
    }
  }

  lemma {:induction false} CountAtMostOne<T>(s: seq<T>, x: T)
    requires Distinct(s)
    ensures multiset(s)[x] <= 1
  {
    if s != [] {
      var init := s[..|s| - 1];
      assert s == init + [s[|s| - 1]];
      CountAtMostOne(init, x);
      if s[|s| - 1] == x {
        assert x !in init;
      }
    }
  }

  /** Sorting a list without repeats gives a list without repeats. */
  lemma SortDescDistinct<T>(xs: seq<T>, key: T -> real)
    requires Distinct(xs)
    ensures Distinct(SortDesc(xs, key))
  {
    MultisetDistinct(xs, SortDesc(xs, key));
  }
}
