/**
 * Python's `sorted(xs, key=...)`: a STABLE sort. Every key used by the
 * object model is a string or a `(level, name)` pair, so both are ordered
 * here as a pair `(int, string)` (a plain string sort uses level 0).
 */
module Sorting {
  import opened Strings

  type Key = (int, string)

  /** Python's `<=` on `(int, str)` tuples. */
  predicate KeyLe(a: Key, b: Key)
  {
    a.0 < b.0 || (a.0 == b.0 && !StrLt(b.1, a.1))
  }

  lemma KeyLeTotal(a: Key, b: Key)
    ensures KeyLe(a, b) || KeyLe(b, a)
  {
    StrLtAsymmetric(a.1, b.1);
  }

  lemma KeyLeTransitive(a: Key, b: Key, c: Key)
    requires KeyLe(a, b) && KeyLe(b, c)
    ensures KeyLe(a, c)
  {
    if a.0 == b.0 == c.0 && StrLt(c.1, a.1) {
      StrLtTotal(a.1, b.1);
      StrLtTotal(b.1, c.1);
      if StrLt(a.1, b.1) {
        StrLtTransitive(c.1, a.1, b.1);
      } else if StrLt(b.1, c.1) {
        StrLtTransitive(b.1, c.1, a.1);
      }
    }
  }

  lemma KeyLeAntisymmetric(a: Key, b: Key)
    requires KeyLe(a, b) && KeyLe(b, a)
    ensures a == b
  {
    StrLtTotal(a.1, b.1);
  }

  predicate SortedBy<T>(s: seq<T>, key: T -> Key)
  {
    forall i, j :: 0 <= i < j < |s| ==> KeyLe(key(s[i]), key(s[j]))
  }

  /** The elements of `s` whose key is `k`, in their order in `s`. */
  function WithKey<T>(s: seq<T>, key: T -> Key, k: Key): seq<T>
  {
    if s == [] then [] else WithKey(s[..|s| - 1], key, k) + (if key(s[|s| - 1]) == k then [s[|s| - 1]] else [])
  }

  lemma {:induction false} WithKeyAppend<T>(a: seq<T>, b: seq<T>, key: T -> Key, k: Key)
    ensures WithKey(a + b, key, k) == WithKey(a, key, k) + WithKey(b, key, k)
    decreases |b|
  {
    if b == [] {
      assert a + b == a;
    } else {
      assert (a + b)[..|a + b| - 1] == a + b[..|b| - 1];
      WithKeyAppend(a, b[..|b| - 1], key, k);
    }
  }

  lemma WithKeySingle<T>(x: T, key: T -> Key, k: Key)
    ensures WithKey([x], key, k) == if key(x) == k then [x] else []
  {
    assert [x][..0] == [];
  }

  /** Inserts `x` after every element of `ys` whose key is at most its own. */
  function Insert<T>(ys: seq<T>, x: T, key: T -> Key): (r: seq<T>)
    ensures multiset(r) == multiset(ys) + multiset{x} && |r| == |ys| + 1
  {
    if ys == [] then [x]
    else if KeyLe(key(ys[|ys| - 1]), key(x)) then ys + [x]
    else
      assert ys == ys[..|ys| - 1] + [ys[|ys| - 1]];
      Insert(ys[..|ys| - 1], x, key) + [ys[|ys| - 1]]
  }

  /** `sorted(xs, key=key)`: insertion sort from the front, each new element placed after its equals. */
  function SortBy<T>(xs: seq<T>, key: T -> Key): (r: seq<T>)
    ensures multiset(r) == multiset(xs) && |r| == |xs|
  {
    if xs == [] then []
    else
      assert xs == xs[..|xs| - 1] + [xs[|xs| - 1]];
      Insert(SortBy(xs[..|xs| - 1], key), xs[|xs| - 1], key)
  }

  /** Every element of `s` has a key at most `b`. */
  predicate AllAtMost<T>(s: seq<T>, key: T -> Key, b: Key)
  {
    forall i :: 0 <= i < |s| ==> KeyLe(key(s[i]), b)
  }

  lemma SortedAppend<T>(s: seq<T>, y: T, key: T -> Key)
    requires SortedBy(s, key) && AllAtMost(s, key, key(y))
    ensures SortedBy(s + [y], key)
  {
  }

  /** Inserting keeps every key at most a bound that both the sequence and the new element respect. */
  lemma InsertAtMost<T>(ys: seq<T>, x: T, key: T -> Key, b: Key)
    requires AllAtMost(ys, key, b) && KeyLe(key(x), b)
    ensures AllAtMost(Insert(ys, x, key), key, b)
  {
    var r := Insert(ys, x, key);
    forall i | 0 <= i < |r| ensures KeyLe(key(r[i]), b) {
      assert r[i] in multiset(r);
      if r[i] != x {
        assert r[i] in multiset(ys);
        var j :| 0 <= j < |ys| && ys[j] == r[i];
      }
    }
  }

  lemma {:induction false} InsertSorted<T>(ys: seq<T>, x: T, key: T -> Key)
    requires SortedBy(ys, key)
    ensures SortedBy(Insert(ys, x, key), key)
    decreases |ys|
  {
    if ys != [] && !KeyLe(key(ys[|ys| - 1]), key(x)) {
      var init, last := ys[..|ys| - 1], ys[|ys| - 1];
      assert SortedBy(init, key);
      InsertSorted(init, x, key);
      KeyLeTotal(key(last), key(x));
      assert AllAtMost(init, key, key(last));
      InsertAtMost(init, x, key, key(last));
      SortedAppend(Insert(init, x, key), last, key);
    } else if ys != [] {
      forall i | 0 <= i < |ys| ensures KeyLe(key(ys[i]), key(x)) {
        if i < |ys| - 1 {
          KeyLeTransitive(key(ys[i]), key(ys[|ys| - 1]), key(x));
        }
      }
      SortedAppend(ys, x, key);
    }
  }

  /** The result is ordered by key. */
  lemma {:induction false} SortBySorted<T>(xs: seq<T>, key: T -> Key)
    ensures SortedBy(SortBy(xs, key), key)
  {
    if xs != [] {
      SortBySorted(xs[..|xs| - 1], key);
      InsertSorted(SortBy(xs[..|xs| - 1], key), xs[|xs| - 1], key);
    }
  }

  lemma {:induction false} InsertWithKey<T>(ys: seq<T>, x: T, key: T -> Key, k: Key)
    ensures WithKey(Insert(ys, x, key), key, k) == WithKey(ys + [x], key, k)
    decreases |ys|
  {
    if ys == [] {
      assert ys + [x] == [x];
    } else if !KeyLe(key(ys[|ys| - 1]), key(x)) {
      var init, last := ys[..|ys| - 1], ys[|ys| - 1];
      assert key(last) != key(x) by {
        if key(last) == key(x) {
          StrLtIrreflexive(key(x).1);
        }
      }
      var wl, wx := WithKey([last], key, k), WithKey([x], key, k);
      assert wl == [] || wx == [] by {
        WithKeySingle(last, key, k);
        WithKeySingle(x, key, k);
      }
      calc {
        WithKey(Insert(ys, x, key), key, k);
        WithKey(Insert(init, x, key) + [last], key, k);
        { WithKeyAppend(Insert(init, x, key), [last], key, k); }
        WithKey(Insert(init, x, key), key, k) + wl;
        { InsertWithKey(init, x, key, k); }
        WithKey(init + [x], key, k) + wl;
        { WithKeyAppend(init, [x], key, k); }
        WithKey(init, key, k) + wx + wl;
        WithKey(init, key, k) + wl + wx;
        { WithKeyAppend(init, [last], key, k); assert ys == init + [last]; }
        WithKey(ys, key, k) + wx;
        { WithKeyAppend(ys, [x], key, k); }
        WithKey(ys + [x], key, k);
      }
    }
  }

  /** Stability: among elements with the same key the input order is kept. */
  lemma {:induction false} SortByStable<T>(xs: seq<T>, key: T -> Key, k: Key)
    ensures WithKey(SortBy(xs, key), key, k) == WithKey(xs, key, k)
  {
    if xs != [] {
      var init, last := xs[..|xs| - 1], xs[|xs| - 1];
      calc {
        WithKey(SortBy(xs, key), key, k);
        WithKey(Insert(SortBy(init, key), last, key), key, k);
        { InsertWithKey(SortBy(init, key), last, key, k); }
        WithKey(SortBy(init, key) + [last], key, k);
        { WithKeyAppend(SortBy(init, key), [last], key, k); }
        WithKey(SortBy(init, key), key, k) + WithKey([last], key, k);
        { SortByStable(init, key, k); }
        WithKey(init, key, k) + WithKey([last], key, k);
        { WithKeyAppend(init, [last], key, k); assert xs == init + [last]; }
        WithKey(xs, key, k);
      }
    }
  }

  /** Sorting an already sorted sequence changes nothing. */
  lemma {:induction false} SortBySortedIdentity<T>(xs: seq<T>, key: T -> Key)
    requires SortedBy(xs, key)
    ensures SortBy(xs, key) == xs
  {
    if xs != [] {
      var init := xs[..|xs| - 1];
      assert SortedBy(init, key);
      SortBySortedIdentity(init, key);
      assert xs == init + [xs[|xs| - 1]];
    }
  }

  function StringKey(s: string): Key
  {
    (0, s)
  }

  /** `sorted(strings)` */
  function SortStrings(xs: seq<string>): seq<string>
  {
    SortBy(xs, StringKey)
  }

  predicate StrictlyIncreasing(s: seq<string>)
  {
    forall i, j :: 0 <= i < j < |s| ==> StrLt(s[i], s[j])
  }

  predicate Distinct(s: seq<string>)
  {
    forall i, j :: 0 <= i < j < |s| ==> s[i] != s[j]
  }

  lemma {:induction false} DistinctMultiplicity(s: seq<string>, x: string)
    requires Distinct(s)
    ensures multiset(s)[x] <= 1
  {
    if s != [] {
      var init := s[..|s| - 1];
      assert s == init + [s[|s| - 1]];
      assert Distinct(init);
      DistinctMultiplicity(init, x);
      if x == s[|s| - 1] {
        assert x !in init;
      }
    }
  }

  /** Sorting distinct strings yields them in strictly increasing order, nothing added or lost. */
  lemma SortStringsStrict(xs: seq<string>)
    requires Distinct(xs)
    ensures StrictlyIncreasing(SortStrings(xs))
    ensures forall s :: s in SortStrings(xs) <==> s in xs
  {
    var r := SortStrings(xs);
    SortBySorted(xs, StringKey);
    assert multiset(r) == multiset(xs);
    forall s ensures s in r <==> s in xs {
      assert s in r <==> s in multiset(r);
      assert s in xs <==> s in multiset(xs);
    }
    forall i, j | 0 <= i < j < |r| ensures StrLt(r[i], r[j]) {
      assert KeyLe(StringKey(r[i]), StringKey(r[j]));
      if r[i] == r[j] {
        var m := multiset(r);
        assert r == r[..j] + [r[j]] + r[j + 1..];
        assert r[i] in r[..j];
        assert multiset(r)[r[i]] >= 2;
        DistinctMultiplicity(xs, r[i]);
      }
      StrLtTotal(r[i], r[j]);
    }
  }
}
