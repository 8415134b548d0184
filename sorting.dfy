/**
 * Stable sorting by a lexicographic key, the behaviour Array.prototype.sort has
 * (it is required to be stable) when its comparator is consistent. The planner's
 * comparators compare at most three integer components, so a key is a triple.
 */
module Sorting {

  datatype Key = Key(first: int, second: int, third: int)

  /** Lexicographic strict order on keys. */
  predicate KeyLt(a: Key, b: Key) {
    a.first < b.first ||
    (a.first == b.first && (a.second < b.second || (a.second == b.second && a.third < b.third)))
  }

  /** No element is followed by one with a strictly smaller key. */
  predicate SortedBy<T>(s: seq<T>, key: T -> Key) {
    forall i, j :: 0 <= i < j < |s| ==> !KeyLt(key(s[j]), key(s[i]))
  }

  /** The elements of `s` whose key is `k`, in their order in `s`. */
  function WithKey<T>(s: seq<T>, key: T -> Key, k: Key): seq<T> {
    if s == [] then []
    else (if key(s[0]) == k then [s[0]] else []) + WithKey(s[1..], key, k)
  }

  /** Places `x` after every element whose key is not greater than its own. */
  function Insert<T>(s: seq<T>, x: T, key: T -> Key): seq<T> {
    if s == [] then [x]
    else if KeyLt(key(x), key(s[0])) then [x] + s
    else [s[0]] + Insert(s[1..], x, key)
  }

  /** Inserting into a sorted sequence keeps it sorted and adds exactly `x`. */
  lemma {:induction false} InsertSorted<T>(s: seq<T>, x: T, key: T -> Key)
    requires SortedBy(s, key)
    ensures SortedBy(Insert(s, x, key), key)
    ensures multiset(Insert(s, x, key)) == multiset(s) + multiset{x}
  {
    if s == [] {
    } else if KeyLt(key(x), key(s[0])) {
      SortedCons(x, s, key);
    } else {
      var rest := Insert(s[1..], x, key);
      SortedTail(s, key);
      InsertSorted(s[1..], x, key);
      assert s == [s[0]] + s[1..];
      BoundedAfterInsert(s, x, rest, key);
      SortedCons(s[0], rest, key);
    }
  }

  /** `y` has no key smaller than `h`'s. */
  predicate NotBelow<T>(y: T, h: T, key: T -> Key) {
    !KeyLt(key(y), key(h))
  }

  lemma SortedCons<T>(h: T, rest: seq<T>, key: T -> Key)
    requires SortedBy(rest, key)
    requires forall y :: y in rest ==> NotBelow(y, h, key)
    ensures SortedBy([h] + rest, key)
  {
    var r := [h] + rest;
    forall i, j | 0 <= i < j < |r|
      ensures !KeyLt(key(r[j]), key(r[i]))
    {
      assert r[j] == rest[j - 1];
      if i > 0 {
        assert r[i] == rest[i - 1];
      } else {
        assert r[j] in rest;
      }
    }
  }

  lemma BoundedAfterInsert<T>(s: seq<T>, x: T, rest: seq<T>, key: T -> Key)
    requires s != [] && SortedBy(s, key) && NotBelow(x, s[0], key)
    requires multiset(rest) == multiset(s[1..]) + multiset{x}
    ensures forall y :: y in rest ==> NotBelow(y, s[0], key)
  {
    forall y | y in rest
      ensures NotBelow(y, s[0], key)
    {
      assert y in multiset(rest);
      if y != x {
        assert y in multiset(s[1..]);
        var j :| 0 <= j < |s[1..]| && s[1..][j] == y;
        assert s[j + 1] == y;
      }
    }
  }

  /** Insertion sort: each element is inserted, in input order, into the sorted prefix. */
  function SortByKey<T>(s: seq<T>, key: T -> Key): (r: seq<T>)
    ensures SortedBy(r, key)
    ensures multiset(r) == multiset(s)
    ensures |r| == |s|
  {
    if s == [] then []
    else
      var sorted := SortByKey(s[..|s| - 1], key);
      InsertSorted(sorted, s[|s| - 1], key);
      var r := Insert(sorted, s[|s| - 1], key);
      assert s == s[..|s| - 1] + [s[|s| - 1]];
      assert |r| == |multiset(r)|;
      r
  }

  lemma {:induction false} WithKeyAppend<T>(s: seq<T>, t: seq<T>, key: T -> Key, k: Key)
    ensures WithKey(s + t, key, k) == WithKey(s, key, k) + WithKey(t, key, k)
  {
    if s != [] {
      assert (s + t)[1..] == s[1..] + t;
      WithKeyAppend(s[1..], t, key, k);
    } else {
      assert s + t == t;
    }
  }

  lemma {:induction false} WithKeyAbsent<T>(s: seq<T>, key: T -> Key, k: Key)
    requires forall i :: 0 <= i < |s| ==> key(s[i]) != k
    ensures WithKey(s, key, k) == []
  {
    if s != [] {
      WithKeyAbsent(s[1..], key, k);
    }
  }

  /** Inserting `x` adds it after the elements already holding its key and
      disturbs no other key's elements. */
  lemma {:induction false} InsertWithKey<T>(s: seq<T>, x: T, key: T -> Key, k: Key)
    requires SortedBy(s, key)
    ensures WithKey(Insert(s, x, key), key, k) ==
            WithKey(s, key, k) + (if key(x) == k then [x] else [])
  {
    if s == [] {
      assert WithKey([x], key, k) == (if key(x) == k then [x] else []) + WithKey([], key, k);
    } else if KeyLt(key(x), key(s[0])) {
      assert Insert(s, x, key) == [x] + s;
      InsertFrontWithKey(s, x, key, k);
    } else {
      var rest := Insert(s[1..], x, key);
      var head := if key(s[0]) == k then [s[0]] else [];
      var tail := if key(x) == k then [x] else [];
      assert Insert(s, x, key) == [s[0]] + rest;
      assert WithKey([s[0]] + rest, key, k) == head + WithKey(rest, key, k) by {
        assert ([s[0]] + rest)[1..] == rest;
      }
      SortedTail(s, key);
      InsertWithKey(s[1..], x, key, k);
      assert head + (WithKey(s[1..], key, k) + tail) == (head + WithKey(s[1..], key, k)) + tail;
    }
  }

  /** An element placed before all larger keys precedes its own key's elements. */
  lemma InsertFrontWithKey<T>(s: seq<T>, x: T, key: T -> Key, k: Key)
    requires s != [] && SortedBy(s, key) && KeyLt(key(x), key(s[0]))
    ensures WithKey([x] + s, key, k) == WithKey(s, key, k) + (if key(x) == k then [x] else [])
  {
    if key(x) == k {
      forall i | 0 <= i < |s|
        ensures key(s[i]) != k
      {
        if i > 0 {
          assert !KeyLt(key(s[i]), key(s[0]));
        }
      }
      WithKeyAbsent(s, key, k);
    }
    assert ([x] + s)[1..] == s;
  }

  lemma SortedTail<T>(s: seq<T>, key: T -> Key)
    requires s != [] && SortedBy(s, key)
    ensures SortedBy(s[1..], key)
  {
    forall i, j | 0 <= i < j < |s| - 1
      ensures !KeyLt(key(s[1..][j]), key(s[1..][i]))
    {
      assert s[1..][j] == s[j + 1] && s[1..][i] == s[i + 1];
    }
  }

  /** Stability: for every key, the elements holding it keep their input order. */
  lemma {:induction false} SortStable<T>(s: seq<T>, key: T -> Key, k: Key)
    ensures WithKey(SortByKey(s, key), key, k) == WithKey(s, key, k)
  {
    if s != [] {
      var init, last := s[..|s| - 1], s[|s| - 1];
      var tail := if key(last) == k then [last] else [];
      assert WithKey(SortByKey(s, key), key, k) == WithKey(init, key, k) + tail by {
        var sorted := SortByKey(init, key);
        assert SortByKey(s, key) == Insert(sorted, last, key);
        SortStable(init, key, k);
        InsertWithKey(sorted, last, key, k);
      }
      assert WithKey(s, key, k) == WithKey(init, key, k) + tail by {
        assert WithKey([last], key, k) == tail by {
          assert [last][1..] == [];
        }
        WithKeyAppend(init, [last], key, k);
        assert s == init + [last];
      }
    }
  }

  lemma KeyTotal(a: Key, b: Key)
    ensures KeyLt(a, b) || KeyLt(b, a) || a == b
  {
  }

  lemma {:induction false} WithKeyFirst<T>(s: seq<T>, key: T -> Key)
    requires s != []
    ensures WithKey(s, key, key(s[0])) != [] && WithKey(s, key, key(s[0]))[0] == s[0]
  {
  }

  lemma {:induction false} WithKeyMember<T>(s: seq<T>, key: T -> Key, k: Key)
    requires WithKey(s, key, k) != []
    ensures exists i :: 0 <= i < |s| && key(s[i]) == k
  {
    if key(s[0]) != k {
      WithKeyMember(s[1..], key, k);
      var i :| 0 <= i < |s[1..]| && key(s[1..][i]) == k;
      assert key(s[i + 1]) == k;
    }
  }

  /** A sequence sorted by `key` is determined by its per-key subsequences: the
      stable sort of an input is the only sorted arrangement that keeps every
      key's elements in input order. */
  lemma {:induction false} SortedUnique<T>(a: seq<T>, b: seq<T>, key: T -> Key)
    requires SortedBy(a, key) && SortedBy(b, key)
    requires forall k :: WithKey(a, key, k) == WithKey(b, key, k)
    ensures a == b
    decreases |a|
  {
    if a == [] {
      if b != [] {
        WithKeyFirst(b, key);
        assert false;
      }
    } else if b == [] {
      WithKeyFirst(a, key);
      assert false;
    } else {
      var ka, kb := key(a[0]), key(b[0]);
      WithKeyFirst(a, key);
      WithKeyFirst(b, key);
      assert WithKey(b, key, ka) != [];
      WithKeyMember(b, key, ka);
      assert WithKey(a, key, kb) != [];
      WithKeyMember(a, key, kb);
      KeyTotal(ka, kb);
      assert ka == kb;
      assert a[0] == b[0] by {
        assert WithKey(a, key, ka)[0] == a[0];
        assert WithKey(b, key, ka)[0] == b[0];
      }
      forall k
        ensures WithKey(a[1..], key, k) == WithKey(b[1..], key, k)
      {
        var head := if ka == k then [a[0]] else [];
        assert WithKey(a, key, k) == head + WithKey(a[1..], key, k);
        assert WithKey(b, key, k) == head + WithKey(b[1..], key, k);
        assert (head + WithKey(a[1..], key, k))[|head|..] == WithKey(a[1..], key, k);
        assert (head + WithKey(b[1..], key, k))[|head|..] == WithKey(b[1..], key, k);
      }
      SortedUnique(a[1..], b[1..], key);
      assert a == [a[0]] + a[1..] && b == [b[0]] + b[1..];
    }
  }
}
