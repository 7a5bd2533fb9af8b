/**
 * The two orders the dropdown rules put their lists in: `Array.prototype.sort` with the
 * comparator `(a, b) => a - b` on integers, and with `(a, b) => key(b) - key(a)`, which
 * orders by a key, largest first, keeping equal keys in their original order (the sort
 * is stable).
 */
module Sorting {

  predicate Ascending(s: seq<int>)
  {
    forall i, j :: 0 <= i < j < |s| ==> s[i] <= s[j]
  }

  predicate StrictlyAscending(s: seq<int>)
  {
    forall i, j :: 0 <= i < j < |s| ==> s[i] < s[j]
  }

  predicate NoDuplicates<T(==)>(s: seq<T>)
  {
    forall i, j :: 0 <= i < j < |s| ==> s[i] != s[j]
  }

  // ---------------------------------------------------------------- ascending

  /** Inserts `x` into a list before its first element that is not smaller than `x`. */
  function Insert(x: int, s: seq<int>): seq<int>
  {
    if s == [] || x <= s[0] then [x] + s else [s[0]] + Insert(x, s[1..])
  }

  /** Insertion adds exactly `x`. */
  lemma {:induction false} InsertPermutes(x: int, s: seq<int>)
    ensures multiset(Insert(x, s)) == multiset(s) + multiset{x}
  {
    if s != [] && x > s[0] {
      InsertPermutes(x, s[1..]);
      assert s == [s[0]] + s[1..];
    }
  }

  /** Every element of an insertion is `x` or an element of the list. */
  lemma InsertElements(x: int, s: seq<int>, k: nat)
    requires k < |Insert(x, s)|
    ensures Insert(x, s)[k] == x || Insert(x, s)[k] in s
  {
    InsertPermutes(x, s);
    assert Insert(x, s)[k] in multiset(s) + multiset{x};
  }

  /** An ascending list that starts with `h`, from `h` and an ascending tail above it. */
  lemma ConsAscending(h: int, tail: seq<int>, strict: bool)
    requires Ascending(tail) && (strict ==> StrictlyAscending(tail))
    requires forall k :: 0 <= k < |tail| ==> h <= tail[k] && (strict ==> h < tail[k])
    ensures Ascending([h] + tail) && (strict ==> StrictlyAscending([h] + tail))
  {
    var r := [h] + tail;
    forall i, j | 0 <= i < j < |r|
      ensures r[i] <= r[j] && (strict ==> r[i] < r[j])
    {
      assert r[j] == tail[j - 1];
      if i > 0 {
        assert r[i] == tail[i - 1];
      }
    }
  }

  /** Insertion keeps a list ascending, and strictly ascending when `x` is new. */
  lemma {:induction false} InsertOrdered(x: int, s: seq<int>, strict: bool)
    requires Ascending(s) && (strict ==> StrictlyAscending(s) && x !in s)
    ensures Ascending(Insert(x, s)) && (strict ==> StrictlyAscending(Insert(x, s)))
  {
    if s == [] || x <= s[0] {
      forall k | 0 <= k < |s|
        ensures x <= s[k] && (strict ==> x < s[k])
      {
        assert s[0] <= s[k];
      }
      ConsAscending(x, s, strict);
    } else {
      var tail := Insert(x, s[1..]);
      assert strict ==> x !in s[1..];
      InsertOrdered(x, s[1..], strict);
      forall k | 0 <= k < |tail|
        ensures s[0] <= tail[k] && (strict ==> s[0] < tail[k])
      {
        InsertElements(x, s[1..], k);
      }
      ConsAscending(s[0], tail, strict);
    }
  }

  /** `s.sort((a, b) => a - b)` on integers, written as an insertion sort. */
  function SortAscending(s: seq<int>): seq<int>
  {
    if s == [] then [] else Insert(s[0], SortAscending(s[1..]))
  }

  /**
   * The sort yields an ascending permutation of its input, strictly ascending when the
   * input holds no value twice.
   */
  lemma {:induction false} SortAscendingCorrect(s: seq<int>)
    ensures Ascending(SortAscending(s))
    ensures multiset(SortAscending(s)) == multiset(s)
    ensures NoDuplicates(s) ==> StrictlyAscending(SortAscending(s))
  {
    if s != [] {
      var rest := SortAscending(s[1..]);
      var strict := NoDuplicates(s);
      SortAscendingCorrect(s[1..]);
      assert s == [s[0]] + s[1..];
      if strict {
        assert NoDuplicates(s[1..]) by {
          forall i, j | 0 <= i < j < |s[1..]|
            ensures s[1..][i] != s[1..][j]
          {
            assert s[1..][i] == s[i + 1] && s[1..][j] == s[j + 1];
          }
        }
        assert s[0] !in s[1..];
        assert s[0] !in multiset(rest);
      }
      InsertOrdered(s[0], rest, strict);
      InsertPermutes(s[0], rest);
    }
  }

  /**
   * An ascending list is fixed by its elements: whichever algorithm a JavaScript engine
   * uses for `sort`, its result with this comparator is the list SortAscending gives.
   */
  lemma {:induction false} AscendingPermutationUnique(a: seq<int>, b: seq<int>)
    requires Ascending(a) && Ascending(b) && multiset(a) == multiset(b)
    ensures a == b
    decreases |a|
  {
    assert |a| == |multiset(a)| == |multiset(b)| == |b|;
    if a != [] {
      AscendingSameHead(a, b);
      var x := a[0];
      assert a == [x] + a[1..] && b == [x] + b[1..];
      assert multiset(a[1..]) == multiset(a) - multiset{x};
      assert multiset(b[1..]) == multiset(b) - multiset{x};
      AscendingTail(a);
      AscendingTail(b);
      AscendingPermutationUnique(a[1..], b[1..]);
    }
  }

  /** Two ascending lists with the same elements start with the same, smallest, element. */
  lemma AscendingSameHead(a: seq<int>, b: seq<int>)
    requires Ascending(a) && Ascending(b) && multiset(a) == multiset(b) && a != []
    ensures b != [] && a[0] == b[0]
  {
    assert a[0] in multiset(b);
    var i :| 0 <= i < |b| && b[i] == a[0];
    assert b[0] in multiset(a);
    var j :| 0 <= j < |a| && a[j] == b[0];
    assert b[0] <= b[i] && a[0] <= a[j];
  }

  lemma AscendingTail(a: seq<int>)
    requires Ascending(a) && a != []
    ensures Ascending(a[1..])
  {
    forall i, j | 0 <= i < j < |a| - 1
      ensures a[1..][i] <= a[1..][j]
    {
      assert a[1..][i] == a[i + 1] && a[1..][j] == a[j + 1];
    }
  }

  // ---------------------------------------------------------------- stable, by key, largest first

  predicate DescendingBy<T>(s: seq<T>, key: T -> int)
  {
    forall i, j :: 0 <= i < j < |s| ==> key(s[i]) >= key(s[j])
  }

  /** The elements of `s` whose key is `c`, in their order in `s`. */
  function WithKey<T>(s: seq<T>, key: T -> int, c: int): seq<T>
  {
    if s == [] then [] else (if key(s[0]) == c then [s[0]] else []) + WithKey(s[1..], key, c)
  }

  lemma {:induction false} WithKeyConcat<T>(a: seq<T>, b: seq<T>, key: T -> int, c: int)
    ensures WithKey(a + b, key, c) == WithKey(a, key, c) + WithKey(b, key, c)
  {
    if a == [] {
      assert a + b == b;
    } else {
      var head := if key(a[0]) == c then [a[0]] else [];
      assert (a + b)[0] == a[0];
      assert (a + b)[1..] == a[1..] + b;
      WithKeyConcat(a[1..], b, key, c);
      calc {
        WithKey(a + b, key, c);
        head + WithKey(a[1..] + b, key, c);
        head + (WithKey(a[1..], key, c) + WithKey(b, key, c));
        (head + WithKey(a[1..], key, c)) + WithKey(b, key, c);
      }
    }
  }

  lemma {:induction false} WithKeyAbsent<T>(s: seq<T>, key: T -> int, c: int)
    requires forall i :: 0 <= i < |s| ==> key(s[i]) != c
    ensures WithKey(s, key, c) == []
  {
    if s != [] {
      assert key(s[0]) != c;
      WithKeyAbsent(s[1..], key, c);
    }
  }

  /** Inserts `x` after the leading elements whose key is at least its own. */
  function InsertBy<T>(x: T, s: seq<T>, key: T -> int): seq<T>
  {
    if s == [] || key(s[0]) < key(x) then [x] + s else [s[0]] + InsertBy(x, s[1..], key)
  }

  lemma {:induction false} InsertByPermutes<T>(x: T, s: seq<T>, key: T -> int)
    ensures multiset(InsertBy(x, s, key)) == multiset(s) + multiset{x}
  {
    if s != [] && key(s[0]) >= key(x) {
      InsertByPermutes(x, s[1..], key);
      assert s == [s[0]] + s[1..];
    }
  }

  /** Inserting into a list ordered by key, largest first, keeps it ordered. */
  lemma {:induction false} InsertByOrdered<T>(x: T, s: seq<T>, key: T -> int)
    requires DescendingBy(s, key)
    ensures DescendingBy(InsertBy(x, s, key), key)
  {
    var r := InsertBy(x, s, key);
    if s == [] || key(s[0]) < key(x) {
      assert r == [x] + s;
      forall i, j | 0 <= i < j < |r|
        ensures key(r[i]) >= key(r[j])
      {
        assert r[j] == s[j - 1];
        if i > 0 {
          assert r[i] == s[i - 1];
        } else {
          assert key(s[0]) >= key(s[j - 1]);
        }
      }
    } else {
      var tail := InsertBy(x, s[1..], key);
      assert DescendingBy(s[1..], key);
      InsertByOrdered(x, s[1..], key);
      InsertByPermutes(x, s[1..], key);
      forall k | 0 <= k < |tail|
        ensures key(s[0]) >= key(tail[k])
      {
        assert tail[k] in multiset(s[1..]) + multiset{x};
      }
      assert r == [s[0]] + tail;
      forall i, j | 0 <= i < j < |r|
        ensures key(r[i]) >= key(r[j])
      {
        assert r[j] == tail[j - 1];
        if i > 0 {
          assert r[i] == tail[i - 1];
        }
      }
    }
  }

  /** Inserting by key puts `x` last among the elements that share its key. */
  lemma {:induction false} InsertByKeyClass<T>(x: T, s: seq<T>, key: T -> int, c: int)
    requires DescendingBy(s, key)
    ensures WithKey(InsertBy(x, s, key), key, c) == WithKey(s, key, c) + (if key(x) == c then [x] else [])
  {
    var r := InsertBy(x, s, key);
    if s == [] || key(s[0]) < key(x) {
      assert forall i :: 0 <= i < |s| ==> key(s[i]) <= key(s[0]);
      if key(x) == c {
        WithKeyAbsent(s, key, c);
      }
      assert r[1..] == s;
    } else {
      assert DescendingBy(s[1..], key);
      InsertByKeyClass(x, s[1..], key, c);
      assert r[1..] == InsertBy(x, s[1..], key);
    }
  }

  /** `s.sort((a, b) => key(b) - key(a))`, written as a stable insertion sort. */
  function StableSortBy<T>(s: seq<T>, key: T -> int): seq<T>
    decreases |s|
  {
    if s == [] then [] else InsertBy(s[|s| - 1], StableSortBy(s[..|s| - 1], key), key)
  }

  /**
   * The sort yields a permutation ordered by key, largest first, in which the elements
   * of each key keep the order they had in `s`.
   */
  lemma {:induction false} StableSortByCorrect<T>(s: seq<T>, key: T -> int)
    ensures DescendingBy(StableSortBy(s, key), key)
    ensures multiset(StableSortBy(s, key)) == multiset(s)
    ensures forall c :: WithKey(StableSortBy(s, key), key, c) == WithKey(s, key, c)
    decreases |s|
  {
    if s != [] {
      var init, last := s[..|s| - 1], s[|s| - 1];
      assert s == init + [last];
      StableSortByCorrect(init, key);
      var sortedInit := StableSortBy(init, key);
      InsertByPermutes(last, sortedInit, key);
      InsertByOrdered(last, sortedInit, key);
      forall c
        ensures WithKey(StableSortBy(s, key), key, c) == WithKey(s, key, c)
      {
        StableSortByKeyClass(init, last, key, c);
      }
    }
  }

  lemma StableSortByKeyClass<T>(init: seq<T>, last: T, key: T -> int, c: int)
    requires WithKey(StableSortBy(init, key), key, c) == WithKey(init, key, c)
    requires DescendingBy(StableSortBy(init, key), key)
    ensures WithKey(StableSortBy(init + [last], key), key, c) == WithKey(init + [last], key, c)
  {
    var s := init + [last];
    assert s[..|s| - 1] == init && s[|s| - 1] == last;
    InsertByKeyClass(last, StableSortBy(init, key), key, c);
    WithKeyConcat(init, [last], key, c);
    assert WithKey([last], key, c) == (if key(last) == c then [last] else []);
  }

  /** The first element of a list heads the elements that share its key. */
  lemma WithKeyHead<T>(s: seq<T>, key: T -> int)
    requires s != []
    ensures WithKey(s, key, key(s[0])) == [s[0]] + WithKey(s[1..], key, key(s[0]))
  {
  }

  /** The elements with key `c` are elements of `s` whose key is `c`. */
  lemma {:induction false} WithKeyMembers<T>(s: seq<T>, key: T -> int, c: int)
    ensures forall x :: x in WithKey(s, key, c) ==> x in s && key(x) == c
  {
    if s != [] {
      WithKeyMembers(s[1..], key, c);
      assert s == [s[0]] + s[1..];
    }
  }

  /** In a list ordered by key, largest first, no element has a larger key than the first. */
  lemma FirstHasLargestKey<T>(s: seq<T>, key: T -> int, x: T)
    requires DescendingBy(s, key) && x in s
    ensures key(x) <= key(s[0])
  {
    var j :| 0 <= j < |s| && s[j] == x;
    assert j == 0 || key(s[0]) >= key(s[j]);
  }

  /**
   * Two lists ordered by key, largest first, that hold the same elements of each key in
   * the same order are equal.
   */
  lemma {:induction false} KeyOrderedUnique<T>(a: seq<T>, b: seq<T>, key: T -> int)
    requires DescendingBy(a, key) && DescendingBy(b, key)
    requires forall c :: WithKey(a, key, c) == WithKey(b, key, c)
    ensures a == b
    decreases |a| + |b|
  {
    if a == [] && b != [] {
      WithKeyHead(b, key);
      assert false;
    } else if a != [] && b == [] {
      WithKeyHead(a, key);
      assert false;
    } else if a != [] {
      var k := key(a[0]);
      WithKeyHead(a, key);
      WithKeyHead(b, key);
      WithKeyMembers(a, key, key(b[0]));
      WithKeyMembers(b, key, k);
      assert a[0] in WithKey(b, key, k);
      assert b[0] in WithKey(a, key, key(b[0]));
      FirstHasLargestKey(b, key, a[0]);
      FirstHasLargestKey(a, key, b[0]);
      assert key(b[0]) == k;
      assert a[0] == b[0];
      forall c
        ensures WithKey(a[1..], key, c) == WithKey(b[1..], key, c)
      {
        var head := if k == c then [a[0]] else [];
        assert WithKey(a, key, c) == head + WithKey(a[1..], key, c);
        assert WithKey(b, key, c) == head + WithKey(b[1..], key, c);
        assert WithKey(a[1..], key, c) == WithKey(a, key, c)[|head|..];
        assert WithKey(b[1..], key, c) == WithKey(b, key, c)[|head|..];
      }
      assert DescendingBy(a[1..], key) && DescendingBy(b[1..], key);
      KeyOrderedUnique(a[1..], b[1..], key);
      assert a == [a[0]] + a[1..] && b == [b[0]] + b[1..];
    }
  }

  /**
   * Any arrangement of `s` ordered by key, largest first, that keeps the elements of each
   * key in their order in `s` is StableSortBy's: whichever stable algorithm a JavaScript
   * engine uses, its result with this comparator is this list.
   */
  lemma StableSortUnique<T>(s: seq<T>, key: T -> int, r: seq<T>)
    requires DescendingBy(r, key)
    requires forall c :: WithKey(r, key, c) == WithKey(s, key, c)
    ensures r == StableSortBy(s, key)
  {
    StableSortByCorrect(s, key);
    KeyOrderedUnique(r, StableSortBy(s, key), key);
  }
}
