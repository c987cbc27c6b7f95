/**
 * The two `sort` calls of the item store's list view use JavaScript's
 * `Array.prototype.sort`, which is stable, with comparators of the form
 * `(a, b) => key(a) - key(b)`: a negative answer puts `a` first, zero keeps
 * the two in their current order. This module models such a sort as a stable
 * insertion sort on an integer key and proves what the store relies on:
 * the result is a permutation of the input, it is ordered by the key,
 * elements with equal keys keep their input order, and sorting an input that
 * was already ordered by a second key leaves that second key as the
 * tie-break.
 */
module StableSort {

  /** `s` is in non-decreasing order of `key`. */
  ghost predicate SortedBy<T>(s: seq<T>, key: T -> int)
  {
    forall i, j :: 0 <= i < j < |s| ==> key(s[i]) <= key(s[j])
  }

  /** Among elements of `s` with equal `major` key, `minor` is non-decreasing. */
  ghost predicate TiesOrderedBy<T>(s: seq<T>, major: T -> int, minor: T -> int)
  {
    forall i, j :: 0 <= i < j < |s| && major(s[i]) == major(s[j]) ==> minor(s[i]) <= minor(s[j])
  }

  /** The elements of `s` whose key is `v`, in the order they have in `s`. */
  function KeyClass<T(!new)>(s: seq<T>, key: T -> int, v: int): (r: seq<T>)
    ensures |r| <= |s|
    ensures forall x :: x in r ==> x in s && key(x) == v
    ensures forall x :: x in s && key(x) == v ==> x in r
  {
    if s == [] then []
    else (if key(s[0]) == v then [s[0]] else []) + KeyClass(s[1..], key, v)
  }

  /**
   * Inserts `x` in front of the first element whose key is not smaller than
   * its own: that is where the stable sort puts an element that came before
   * all of `s` in the input.
   */
  function Insert<T(!new)>(x: T, s: seq<T>, key: T -> int): (r: seq<T>)
    ensures multiset(r) == multiset(s) + multiset{x}
  {
    if s == [] || key(x) <= key(s[0]) then [x] + s
    else
      assert s == [s[0]] + s[1..];
      [s[0]] + Insert(x, s[1..], key)
  }

  /** Every element of `Insert(x, s, key)` is `x` or an element of `s`. */
  lemma InsertMembers<T(!new)>(x: T, s: seq<T>, key: T -> int, y: T)
    requires y in Insert(x, s, key)
    ensures y == x || y in s
  {
  }

  /** Inserting into an ordered sequence keeps it ordered. */
  lemma {:induction false} InsertSorted<T(!new)>(x: T, s: seq<T>, key: T -> int)
    requires SortedBy(s, key)
    ensures SortedBy(Insert(x, s, key), key)
  {
    if s != [] && key(x) > key(s[0]) {
      InsertSorted(x, s[1..], key);
      var rest := Insert(x, s[1..], key);
      var r := [s[0]] + rest;
      assert Insert(x, s, key) == r;
      forall i, j | 0 <= i < j < |r| ensures key(r[i]) <= key(r[j]) {
        if i > 0 {
          assert r[i] == rest[i - 1] && r[j] == rest[j - 1];
        } else {
          assert r[j] == rest[j - 1];
          InsertMembers(x, s[1..], key, r[j]);
        }
      }
    }
  }

  /** The stable sort of `s` by ascending `key`. */
  function SortBy<T(!new)>(s: seq<T>, key: T -> int): (r: seq<T>)
    ensures multiset(r) == multiset(s)
    ensures |r| == |s|
    ensures SortedBy(r, key)
  {
    if s == [] then []
    else
      assert s == [s[0]] + s[1..];
      var rest := SortBy(s[1..], key);
      InsertSorted(s[0], rest, key);
      Insert(s[0], rest, key)
  }

  /** The sort neither adds nor loses an element. */
  lemma SortByMembers<T(!new)>(s: seq<T>, key: T -> int)
    ensures forall x :: x in SortBy(s, key) <==> x in s
  {
    assert forall x :: x in SortBy(s, key) <==> x in multiset(SortBy(s, key));
  }

  lemma {:induction false} KeyClassAppend<T(!new)>(a: seq<T>, b: seq<T>, key: T -> int, v: int)
    ensures KeyClass(a + b, key, v) == KeyClass(a, key, v) + KeyClass(b, key, v)
  {
    if a != [] {
      assert (a + b)[0] == a[0] && (a + b)[1..] == a[1..] + b;
      KeyClassAppend(a[1..], b, key, v);
    } else {
      assert a + b == b;
    }
  }

  /** Inserting `x` adds it to the front of its own key class and changes no other class. */
  lemma {:induction false} InsertKeyClass<T(!new)>(x: T, s: seq<T>, key: T -> int, v: int)
    ensures KeyClass(Insert(x, s, key), key, v)
         == if key(x) == v then [x] + KeyClass(s, key, v) else KeyClass(s, key, v)
  {
    if s == [] || key(x) <= key(s[0]) {
      assert ([x] + s)[1..] == s;
    } else {
      var rest := Insert(x, s[1..], key);
      assert ([s[0]] + rest)[1..] == rest;
      InsertKeyClass(x, s[1..], key, v);
    }
  }

  /** Stability: every key class of the result is the key class of the input, in input order. */
  lemma {:induction false} SortByStable<T(!new)>(s: seq<T>, key: T -> int, v: int)
    ensures KeyClass(SortBy(s, key), key, v) == KeyClass(s, key, v)
  {
    if s != [] {
      SortByStable(s[1..], key, v);
      InsertKeyClass(s[0], SortBy(s[1..], key), key, v);
    }
  }

  /** Filtering by two keys gives the same subsequence in either order. */
  lemma {:induction false} KeyClassCommute<T(!new)>(s: seq<T>, k1: T -> int, v1: int, k2: T -> int, v2: int)
    ensures KeyClass(KeyClass(s, k1, v1), k2, v2) == KeyClass(KeyClass(s, k2, v2), k1, v1)
  {
    if s != [] {
      var h := [s[0]];
      assert s == h + s[1..];
      KeyClassAppend(h, s[1..], k1, v1);
      KeyClassAppend(h, s[1..], k2, v2);
      KeyClassAppend(KeyClass(h, k1, v1), KeyClass(s[1..], k1, v1), k2, v2);
      KeyClassAppend(KeyClass(h, k2, v2), KeyClass(s[1..], k2, v2), k1, v1);
      KeyClassCommute(s[1..], k1, v1, k2, v2);
    }
  }

  /**
   * Inserting an element whose `minor` key is at most every `minor` key of `s`
   * keeps `minor` as the tie-break of `major`.
   */
  lemma {:induction false} InsertKeepsTies<T(!new)>(x: T, s: seq<T>, major: T -> int, minor: T -> int)
    requires SortedBy(s, major) && TiesOrderedBy(s, major, minor)
    requires forall y :: y in s ==> minor(x) <= minor(y)
    ensures TiesOrderedBy(Insert(x, s, major), major, minor)
  {
    if s == [] || major(x) <= major(s[0]) {
      var r := [x] + s;
      assert Insert(x, s, major) == r;
      forall i, j | 0 <= i < j < |r| && major(r[i]) == major(r[j])
        ensures minor(r[i]) <= minor(r[j])
      {
        assert r[j] == s[j - 1];
        if i > 0 {
          assert r[i] == s[i - 1];
        }
      }
    } else {
      InsertKeepsTies(x, s[1..], major, minor);
      var rest := Insert(x, s[1..], major);
      var r := [s[0]] + rest;
      assert Insert(x, s, major) == r;
      forall i, j | 0 <= i < j < |r| && major(r[i]) == major(r[j])
        ensures minor(r[i]) <= minor(r[j])
      {
        assert r[j] == rest[j - 1];
        if i > 0 {
          assert r[i] == rest[i - 1];
        } else {
          InsertMembers(x, s[1..], major, r[j]);
          if r[j] != x {
            var k :| 0 <= k < |s[1..]| && s[1..][k] == r[j];
            assert s[k + 1] == r[j] && s[0] == r[i];
          }
        }
      }
    }
  }

  /**
   * Sorting by `major` an input already ordered by `minor` leaves `minor` as
   * the tie-break: this is what two successive stable sorts do.
   */
  lemma {:induction false} SortByKeepsTies<T(!new)>(s: seq<T>, major: T -> int, minor: T -> int)
    requires SortedBy(s, minor)
    ensures TiesOrderedBy(SortBy(s, major), major, minor)
  {
    if s != [] {
      assert s == [s[0]] + s[1..];
      SortByKeepsTies(s[1..], major, minor);
      var rest := SortBy(s[1..], major);
      forall y | y in rest ensures minor(s[0]) <= minor(y) {
        assert y in multiset(rest);
        assert y in s[1..];
        var k :| 0 <= k < |s[1..]| && s[1..][k] == y;
        assert s[k + 1] == y;
      }
      InsertKeepsTies(s[0], rest, major, minor);
    }
  }

  /**
   * After a stable sort by `first` and then a stable sort by `second`, the
   * elements sharing both keys are in their input order.
   */
  lemma TwoSortsStable<T(!new)>(s: seq<T>, first: T -> int, second: T -> int, v1: int, v2: int)
    ensures KeyClass(KeyClass(SortBy(SortBy(s, first), second), second, v2), first, v1)
         == KeyClass(KeyClass(s, second, v2), first, v1)
  {
    var s1 := SortBy(s, first);
    SortByStable(s1, second, v2);
    KeyClassCommute(s1, second, v2, first, v1);
    SortByStable(s, first, v1);
    KeyClassCommute(s, first, v1, second, v2);
  }
}
