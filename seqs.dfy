/**
 * Sequence helpers shared by the model: Python's sum(), list filtering, flattening,
 * str.join, the ordering of Python strings, and the stable sort behind sorted().
 */
module Seqs {

  /** Positions `i` and `j` of `s` do not hold the same element. */
  ghost predicate DistinctAt<T>(s: seq<T>, i: int, j: int) {
    0 <= i < j < |s| ==> s[i] != s[j]
  }

  /**
   * No element occurs twice (the keys of a dict, the wells of a plate). The
   * quantifier is triggered only by DistinctAt, so proofs instantiate it
   * through DistinctElements.
   */
  ghost predicate Distinct<T>(s: seq<T>) {
    forall i, j :: DistinctAt(s, i, j)
  }

  lemma DistinctElements<T>(s: seq<T>, i: int, j: int)
    requires Distinct(s) && 0 <= i < j < |s|
    ensures s[i] != s[j]
  {
    assert DistinctAt(s, i, j);
  }

  /** The element at position `n` does not occur before it. */
  lemma DistinctNotBefore<T>(s: seq<T>, n: int)
    requires Distinct(s) && 0 <= n < |s|
    ensures s[n] !in s[..n]
  {
    if s[n] in s[..n] {
      var i :| 0 <= i < n && s[..n][i] == s[n];
      DistinctElements(s, i, n);
    }
  }

  /** Appending an element not yet present keeps the elements distinct. */
  lemma DistinctAppend<T>(s: seq<T>, x: T)
    requires Distinct(s) && x !in s
    ensures Distinct(s + [x])
  {
    var t := s + [x];
    forall i, j ensures DistinctAt(t, i, j) {
      if 0 <= i < j < |t| {
        if j < |s| {
          DistinctElements(s, i, j);
        } else {
          assert t[i] == s[i];
        }
      }
    }
  }

  /** Python's sum(): a left fold of + starting from 0. */
  function Sum(s: seq<real>): real {
    if s == [] then 0.0 else Sum(s[..|s| - 1]) + s[|s| - 1]
  }

  lemma {:induction false} SumAppend(a: seq<real>, b: seq<real>)
    ensures Sum(a + b) == Sum(a) + Sum(b)
  {
    if b == [] {
      assert a + b == a;
    } else {
      assert (a + b)[..|a + b| - 1] == a + b[..|b| - 1];
      SumAppend(a, b[..|b| - 1]);
    }
  }

  /** A sum of non-negative terms is non-negative. */
  lemma {:induction false} SumNonNegative(s: seq<real>)
    requires forall i | 0 <= i < |s| :: s[i] >= 0.0
    ensures Sum(s) >= 0.0
  {
    if s != [] {
      SumNonNegative(s[..|s| - 1]);
    }
  }

  /** The elements of `s` that satisfy `p`, in their original order (a list comprehension with an if). */
  function Filter<T>(s: seq<T>, p: T -> bool): (r: seq<T>)
    ensures |r| <= |s|
  {
    if s == [] then [] else (if p(s[0]) then [s[0]] else []) + Filter(s[1..], p)
  }

  /** An element is kept exactly when it occurs in `s` and satisfies `p`. */
  lemma {:induction false} FilterMembers<T>(s: seq<T>, p: T -> bool)
    ensures forall x :: x in Filter(s, p) <==> x in s && p(x)
    ensures forall x | x in Filter(s, p) :: x in s && p(x)
  {
    if s != [] {
      FilterMembers(s[1..], p);
      assert s == [s[0]] + s[1..];
    }
  }

  /** Filtering keeps every satisfying element as often as it occurs, and drops the rest. */
  lemma {:induction false} FilterMultiset<T>(s: seq<T>, p: T -> bool)
    ensures forall x :: multiset(Filter(s, p))[x] == if p(x) then multiset(s)[x] else 0
  {
    if s != [] {
      FilterMultiset(s[1..], p);
      assert s == [s[0]] + s[1..];
    }
  }

  lemma {:induction false} FilterAppend<T>(a: seq<T>, b: seq<T>, p: T -> bool)
    ensures Filter(a + b, p) == Filter(a, p) + Filter(b, p)
  {
    if a == [] {
      assert a + b == b;
    } else {
      var t := a[1..];
      assert a == [a[0]] + t && a + b == [a[0]] + (t + b);
      FilterAppend(t, b, p);
      FilterCons(a[0], t + b, p);
      FilterCons(a[0], t, p);
    }
  }

  lemma FilterCons<T>(y: T, t: seq<T>, p: T -> bool)
    ensures Filter([y] + t, p) == (if p(y) then [y] else []) + Filter(t, p)
  {
    assert ([y] + t)[1..] == t;
  }

  lemma {:induction false} FilterDistinct<T>(s: seq<T>, p: T -> bool)
    requires Distinct(s)
    ensures Distinct(Filter(s, p))
  {
    if s != [] {
      var t := s[1..];
      assert Distinct(t) by {
        forall i, j ensures DistinctAt(t, i, j) {
          if 0 <= i < j < |t| {
            DistinctElements(s, i + 1, j + 1);
          }
        }
      }
      FilterDistinct(t, p);
      FilterMembers(t, p);
      assert s[0] !in t by {
        if s[0] in t {
          var j :| 0 <= j < |t| && t[j] == s[0];
          DistinctElements(s, 0, j + 1);
        }
      }
      var rest := Filter(t, p);
      var r := (if p(s[0]) then [s[0]] else []) + rest;
      assert Filter(s, p) == r;
      forall i, j ensures DistinctAt(r, i, j) {
        if 0 <= i < j < |r| {
          if p(s[0]) {
            if i == 0 {
              assert r[j] == rest[j - 1];
            } else {
              assert DistinctAt(rest, i - 1, j - 1);
            }
          } else {
            assert DistinctAt(rest, i, j);
          }
        }
      }
    }
  }

  /** The concatenation of a list of lists, in order. */
  function Flatten<T>(ss: seq<seq<T>>): seq<T> {
    if ss == [] then [] else ss[0] + Flatten(ss[1..])
  }

  lemma {:induction false} FlattenAppend<T>(a: seq<seq<T>>, b: seq<seq<T>>)
    ensures Flatten(a + b) == Flatten(a) + Flatten(b)
  {
    if a == [] {
      assert a + b == b;
    } else {
      assert (a + b)[1..] == a[1..] + b;
      FlattenAppend(a[1..], b);
    }
  }

  /** Python's `sep.join(parts)`. */
  function Join(parts: seq<string>, sep: string): string {
    if parts == [] then ""
    else if |parts| == 1 then parts[0]
    else parts[0] + sep + Join(parts[1..], sep)
  }

  /** Joining two non-empty lists of parts joins the two joins with one more separator. */
  lemma {:induction false} JoinAppend(a: seq<string>, b: seq<string>, sep: string)
    requires a != [] && b != []
    ensures Join(a + b, sep) == Join(a, sep) + sep + Join(b, sep)
  {
    if |a| == 1 {
      assert (a + b)[1..] == b;
    } else {
      assert (a + b)[1..] == a[1..] + b;
      JoinAppend(a[1..], b, sep);
    }
  }

  /** The first part opens the joined string, and the last part closes it. */
  lemma {:induction false} JoinEnds(parts: seq<string>, sep: string)
    requires parts != []
    ensures parts[0] <= Join(parts, sep)
    ensures var j := Join(parts, sep); var l := parts[|parts| - 1]; |l| <= |j| && j[|j| - |l|..] == l
  {
    if |parts| > 1 {
      JoinEnds(parts[1..], sep);
    }
  }

  /** Python's `a <= b` on strings: code points compared lexicographically. */
  predicate LexLe(a: string, b: string)
    decreases |a|
  {
    a == [] || (b != [] && (a[0] < b[0] || (a[0] == b[0] && LexLe(a[1..], b[1..]))))
  }

  /** Python's `a < b` on strings. */
  predicate LexLess(a: string, b: string) {
    LexLe(a, b) && a != b
  }

  lemma {:induction false} LexLeTotal(a: string, b: string)
    ensures LexLe(a, b) || LexLe(b, a)
    decreases |a|
  {
    if a != [] && b != [] && a[0] == b[0] {
      LexLeTotal(a[1..], b[1..]);
    }
  }

  lemma {:induction false} LexLeAntisymmetric(a: string, b: string)
    requires LexLe(a, b) && LexLe(b, a)
    ensures a == b
    decreases |a|
  {
    if a != [] {
      LexLeAntisymmetric(a[1..], b[1..]);
      assert a == [a[0]] + a[1..] && b == [b[0]] + b[1..];
    }
  }

  lemma {:induction false} LexLeTransitive(a: string, b: string, c: string)
    requires LexLe(a, b) && LexLe(b, c)
    ensures LexLe(a, c)
    decreases |a|
  {
    if a != [] && a[0] == b[0] && b[0] == c[0] {
      LexLeTransitive(a[1..], b[1..], c[1..]);
    }
  }

  lemma LexLeReflexive(a: string)
    ensures LexLe(a, a)
  {
  }

  /** The keys of `s` never decrease. */
  predicate SortedBy<T>(s: seq<T>, key: T -> string) {
    forall i, j | 0 <= i < j < |s| :: LexLe(key(s[i]), key(s[j]))
  }

  /** Places `x` after every element whose key is not greater than its own. */
  function Insert<T>(l: seq<T>, x: T, key: T -> string): seq<T> {
    if l == [] then [x]
    else if LexLess(key(x), key(l[0])) then [x] + l
    else [l[0]] + Insert(l[1..], x, key)
  }

  /** Python's `sorted(s, key=key)` for string keys: a stable insertion sort. */
  function SortBy<T>(s: seq<T>, key: T -> string): seq<T> {
    if s == [] then [] else Insert(SortBy(s[..|s| - 1], key), s[|s| - 1], key)
  }

  /** The elements of `s` whose key is `k`, in order. */
  function WithKey<T>(s: seq<T>, key: T -> string, k: string): seq<T> {
    if s == [] then []
    else (if key(s[0]) == k then [s[0]] else []) + WithKey(s[1..], key, k)
  }

  lemma {:induction false} WithKeyAppend<T>(a: seq<T>, b: seq<T>, key: T -> string, k: string)
    ensures WithKey(a + b, key, k) == WithKey(a, key, k) + WithKey(b, key, k)
  {
    if a == [] {
      assert a + b == b;
    } else {
      var t := a[1..];
      assert a == [a[0]] + t && a + b == [a[0]] + (t + b);
      WithKeyAppend(t, b, key, k);
      WithKeyCons(a[0], t + b, key, k);
      WithKeyCons(a[0], t, key, k);
    }
  }

  lemma {:induction false} InsertMultiset<T>(l: seq<T>, x: T, key: T -> string)
    ensures multiset(Insert(l, x, key)) == multiset(l) + multiset{x}
  {
    if l != [] && !LexLess(key(x), key(l[0])) {
      InsertMultiset(l[1..], x, key);
      assert l == [l[0]] + l[1..];
    }
  }

  lemma {:induction false} InsertSorted<T>(l: seq<T>, x: T, key: T -> string)
    requires SortedBy(l, key)
    ensures SortedBy(Insert(l, x, key), key)
  {
    var r := Insert(l, x, key);
    if l == [] {
    } else if LexLess(key(x), key(l[0])) {
      forall i, j | 0 <= i < j < |r| ensures LexLe(key(r[i]), key(r[j])) {
        if i == 0 && j > 1 {
          LexLeTransitive(key(x), key(l[0]), key(l[j - 1]));
        }
      }
    } else {
      var t := l[1..];
      InsertSorted(t, x, key);
      InsertMultiset(t, x, key);
      var rt := Insert(t, x, key);
      assert r == [l[0]] + rt;
      LexLeTotal(key(x), key(l[0]));
      forall j | 0 < j < |r| ensures LexLe(key(r[0]), key(r[j])) {
        var y := r[j];
        assert y == rt[j - 1];
        assert y in multiset(rt);
        if y != x {
          assert y in multiset(t);
          var m :| 0 <= m < |t| && t[m] == y;
          assert l[m + 1] == y;
        }
      }
    }
  }

  lemma {:induction false} InsertWithKey<T>(l: seq<T>, x: T, key: T -> string, k: string)
    requires SortedBy(l, key)
    ensures WithKey(Insert(l, x, key), key, k) == WithKey(l, key, k) + (if key(x) == k then [x] else [])
  {
    if l == [] {
    } else if LexLess(key(x), key(l[0])) {
      WithKeyCons(x, l, key, k);
      if key(x) == k {
        WithKeyAbsent(l, key, k);
      }
    } else {
      var t := l[1..];
      assert SortedBy(t, key);
      InsertWithKey(t, x, key, k);
      WithKeyCons(l[0], Insert(t, x, key), key, k);
      WithKeyCons(l[0], t, key, k);
      assert l == [l[0]] + t;
    }
  }

  lemma WithKeyCons<T>(y: T, t: seq<T>, key: T -> string, k: string)
    ensures WithKey([y] + t, key, k) == (if key(y) == k then [y] else []) + WithKey(t, key, k)
  {
    assert ([y] + t)[1..] == t;
  }

  /** Every element of a sorted `l` has a key at least `key(l[0])`, so none has a key below it. */
  lemma WithKeyAbsent<T>(l: seq<T>, key: T -> string, k: string)
    requires l != [] && SortedBy(l, key) && LexLess(k, key(l[0]))
    ensures WithKey(l, key, k) == []
  {
    forall y | y in l ensures key(y) != k {
      var m :| 0 <= m < |l| && l[m] == y;
      if key(y) == k {
        if m > 0 {
          assert LexLe(key(l[0]), key(y));
        }
        LexLeAntisymmetric(k, key(l[0]));
      }
    }
    WithKeyNone(l, key, k);
  }

  lemma {:induction false} WithKeyNone<T>(l: seq<T>, key: T -> string, k: string)
    requires forall y :: y in l ==> key(y) != k
    ensures WithKey(l, key, k) == []
  {
    if l != [] {
      assert l[0] in l;
      WithKeyNone(l[1..], key, k);
    }
  }

  /** sorted() returns a permutation of its input. */
  lemma {:induction false} SortByMultiset<T>(s: seq<T>, key: T -> string)
    ensures multiset(SortBy(s, key)) == multiset(s)
  {
    if s != [] {
      var init, last := s[..|s| - 1], s[|s| - 1];
      SortByMultiset(init, key);
      InsertMultiset(SortBy(init, key), last, key);
      assert s == init + [last];
    }
  }

  /** sorted() returns its input in key order. */
  lemma {:induction false} SortBySorted<T>(s: seq<T>, key: T -> string)
    ensures SortedBy(SortBy(s, key), key)
  {
    if s != [] {
      SortBySorted(s[..|s| - 1], key);
      InsertSorted(SortBy(s[..|s| - 1], key), s[|s| - 1], key);
    }
  }

  /** sorted() is stable: the elements with one key keep their input order. */
  lemma {:induction false} SortByStable<T>(s: seq<T>, key: T -> string, k: string)
    ensures WithKey(SortBy(s, key), key, k) == WithKey(s, key, k)
  {
    if s != [] {
      var init, last := s[..|s| - 1], s[|s| - 1];
      SortByStable(init, key, k);
      SortBySorted(init, key);
      InsertWithKey(SortBy(init, key), last, key, k);
      assert s == init + [last];
      WithKeyAppend(init, [last], key, k);
    }
  }

  /** Comparing two strings with a common prefix compares what follows it. */
  lemma {:induction false} LexLeCommonPrefix(p: string, a: string, b: string)
    ensures LexLe(p + a, p + b) <==> LexLe(a, b)
  {
    if p != [] {
      assert (p + a)[1..] == p[1..] + a && (p + b)[1..] == p[1..] + b;
      LexLeCommonPrefix(p[1..], a, b);
    } else {
      assert p + a == a && p + b == b;
    }
  }

  /** Inserting an element whose key is at least every key in the list appends it. */
  lemma {:induction false} InsertAtEnd<T>(l: seq<T>, x: T, key: T -> string)
    requires forall i | 0 <= i < |l| :: LexLe(key(l[i]), key(x))
    ensures Insert(l, x, key) == l + [x]
  {
    if l != [] {
      assert !LexLess(key(x), key(l[0])) by {
        if LexLess(key(x), key(l[0])) {
          LexLeAntisymmetric(key(x), key(l[0]));
        }
      }
      InsertAtEnd(l[1..], x, key);
      assert l == [l[0]] + l[1..];
    }
  }

  /** A list already in key order is returned as it is. */
  lemma {:induction false} SortByOfSorted<T>(s: seq<T>, key: T -> string)
    requires SortedBy(s, key)
    ensures SortBy(s, key) == s
  {
    if s != [] {
      var init := s[..|s| - 1];
      SortByOfSorted(init, key);
      InsertAtEnd(init, s[|s| - 1], key);
      assert s == init + [s[|s| - 1]];
    }
  }
  lemma FilterKeeps<T>(s: seq<T>, p: T -> bool, y: T)
    requires y in Filter(s, p)
    ensures y in s && p(y)
  {
    FilterMembers(s, p);
  }

  /**
   * On a list without repeats, Filter finds nothing exactly when no element
   * qualifies, one element exactly when every qualifying element is that one,
   * and otherwise two different qualifying elements first.
   */
  lemma FilterCount<T>(s: seq<T>, p: T -> bool)
    requires Distinct(s)
    ensures |Filter(s, p)| == 0 <==> forall x | x in s :: !p(x)
    ensures |Filter(s, p)| >= 1 ==> Filter(s, p)[0] in s && p(Filter(s, p)[0])
    ensures |Filter(s, p)| == 1 ==> forall x | x in s && p(x) :: x == Filter(s, p)[0]
    ensures |Filter(s, p)| >= 2 ==>
      Filter(s, p)[1] in s && p(Filter(s, p)[1]) && Filter(s, p)[0] != Filter(s, p)[1]
  {
    FilterMembers(s, p);
    FilterDistinct(s, p);
    var f := Filter(s, p);
    if |f| >= 1 {
      FilterKeeps(s, p, f[0]);
    }
    if |f| >= 2 {
      FilterKeeps(s, p, f[1]);
      DistinctElements(f, 0, 1);
    }
    if |f| == 1 {
      forall x | x in s && p(x) ensures x == f[0] {
        assert x in f;
      }
    }
  }

  // ---------------------------------------------------------------------------
  // Grouping by key, in order of first occurrence (an OrderedDict of lists)
  // ---------------------------------------------------------------------------

  /** The keys of `ks` without repeats, each at the place where it first occurs. */
  function FirstSeen<K(==)>(ks: seq<K>): (r: seq<K>)
    ensures forall k | k in r :: k in ks
    ensures forall i | 0 <= i < |ks| :: ks[i] in r
  {
    if ks == [] then []
    else
      var seen := FirstSeen(ks[..|ks| - 1]);
      var k := ks[|ks| - 1];
      assert ks == ks[..|ks| - 1] + [k];
      if k in seen then seen else seen + [k]
  }

  lemma {:induction false} FirstSeenDistinct<K>(ks: seq<K>)
    ensures Distinct(FirstSeen(ks))
  {
    if ks != [] {
      FirstSeenDistinct(ks[..|ks| - 1]);
      var seen := FirstSeen(ks[..|ks| - 1]);
      if ks[|ks| - 1] !in seen {
        DistinctAppend(seen, ks[|ks| - 1]);
      }
    }
  }

  /** The items whose key is `k`, in their order. */
  function Members<T, K(==)>(items: seq<T>, ks: seq<K>, k: K): (r: seq<T>)
    requires |items| == |ks|
    ensures |r| <= |items|
  {
    if items == [] then []
    else
      var n := |items| - 1;
      Members(items[..n], ks[..n], k) + if ks[n] == k then [items[n]] else []
  }

  /** Every item is in the group of its own key, and a group holds only items with that key. */
  lemma {:induction false} MembersOfKey<T, K>(items: seq<T>, ks: seq<K>, k: K)
    requires |items| == |ks|
    ensures forall i | 0 <= i < |items| && ks[i] == k :: items[i] in Members(items, ks, k)
    ensures forall x | x in Members(items, ks, k) :: exists i :: 0 <= i < |items| && ks[i] == k && items[i] == x
    ensures Members(items, ks, k) == [] <==> k !in ks
  {
    if items != [] {
      var n := |items| - 1;
      MembersOfKey(items[..n], ks[..n], k);
      assert ks == ks[..n] + [ks[n]];
      var m := Members(items[..n], ks[..n], k);
      forall x | x in Members(items, ks, k)
        ensures exists i :: 0 <= i < |items| && ks[i] == k && items[i] == x
      {
        if x in m {
          var i :| 0 <= i < n && ks[..n][i] == k && items[..n][i] == x;
          assert ks[i] == k && items[i] == x;
        } else {
          assert ks[n] == k && items[n] == x;
        }
      }
      forall i | 0 <= i < |items| && ks[i] == k ensures items[i] in Members(items, ks, k) {
        if i < n {
          assert ks[..n][i] == k && items[..n][i] == items[i];
        }
      }
    }
  }

  /** The groups of the distinct keys `keys` hold, between them, `Size` items. */
  function GroupSizes<T, K(==)>(items: seq<T>, ks: seq<K>, keys: seq<K>): nat
    requires |items| == |ks|
  {
    if keys == [] then 0 else GroupSizes(items, ks, keys[..|keys| - 1]) + |Members(items, ks, keys[|keys| - 1])|
  }
  lemma DistinctInit<T>(s: seq<T>)
    requires Distinct(s) && s != []
    ensures Distinct(s[..|s| - 1])
  {
    var t := s[..|s| - 1];
    forall i, j ensures DistinctAt(t, i, j) {
      if 0 <= i < j < |t| {
        DistinctElements(s, i, j);
      }
    }
  }

  /** The last item adds one to the group of its key, when that key is among `keys`. */
  lemma {:induction false} GroupSizesStep<T, K>(items: seq<T>, ks: seq<K>, keys: seq<K>)
    requires |items| == |ks| && items != [] && Distinct(keys)
    ensures GroupSizes(items, ks, keys) ==
      GroupSizes(items[..|items| - 1], ks[..|ks| - 1], keys) + if ks[|ks| - 1] in keys then 1 else 0
  {
    if keys != [] {
      var n, m := |keys| - 1, |items| - 1;
      var init, last, k := keys[..n], keys[n], ks[m];
      DistinctInit(keys);
      DistinctNotBefore(keys, n);
      GroupSizesStep(items, ks, init);
      var before, after := items[..m], ks[..m];
      assert GroupSizes(items, ks, keys) == GroupSizes(items, ks, init) + |Members(items, ks, last)|;
      assert GroupSizes(before, after, keys) == GroupSizes(before, after, init) + |Members(before, after, last)|;
      assert |Members(items, ks, last)| == |Members(before, after, last)| + if k == last then 1 else 0;
      assert keys == init + [last];
      assert k in keys <==> k in init || k == last;
    }
  }


  /** The groups of the keys in order of first occurrence partition the items: their sizes add up. */
  lemma {:induction false} GroupsPartition<T, K>(items: seq<T>, ks: seq<K>)
    requires |items| == |ks|
    ensures GroupSizes(items, ks, FirstSeen(ks)) == |items|
  {
    if items != [] {
      var n := |items| - 1;
      GroupsPartition(items[..n], ks[..n]);
      FirstSeenDistinct(ks[..n]);
      var seen := FirstSeen(ks[..n]);
      GroupSizesStep(items, ks, seen);
      if ks[n] !in seen {
        NewGroup(items, ks, seen);
      }
    }
  }

  /** A key met for the first time by the last item opens a group of one. */
  lemma NewGroup<T, K>(items: seq<T>, ks: seq<K>, seen: seq<K>)
    requires |items| == |ks| && items != []
    requires seen == FirstSeen(ks[..|ks| - 1]) && ks[|ks| - 1] !in seen
    ensures GroupSizes(items, ks, FirstSeen(ks)) == GroupSizes(items, ks, seen) + 1
  {
    var n := |items| - 1;
    var k := ks[n];
    assert FirstSeen(ks) == seen + [k];
    assert (seen + [k])[..|seen|] == seen;
    MembersOfKey(items[..n], ks[..n], k);
    assert Members(items, ks, k) == [items[n]];
  }


  /** When every item has the same key, there is one key. */
  lemma {:induction false} FirstSeenConstant<K>(ks: seq<K>, k: K)
    requires ks != [] && forall i | 0 <= i < |ks| :: ks[i] == k
    ensures FirstSeen(ks) == [k]
  {
    if |ks| > 1 {
      FirstSeenConstant(ks[..|ks| - 1], k);
    }
  }

  /** When every item has the key `k`, the group of `k` is all of them. */
  lemma {:induction false} MembersConstant<T, K>(items: seq<T>, ks: seq<K>, k: K)
    requires |items| == |ks| && forall i | 0 <= i < |ks| :: ks[i] == k
    ensures Members(items, ks, k) == items
  {
    if items != [] {
      var n := |items| - 1;
      MembersConstant(items[..n], ks[..n], k);
      assert items == items[..n] + [items[n]];
    }
  }

  /** One more item joins the group of its key and no other. */
  lemma MembersStep<T, K>(items: seq<T>, ks: seq<K>, i: nat, k: K)
    requires |items| == |ks| && i < |items|
    ensures Members(items[..i + 1], ks[..i + 1], k) ==
      Members(items[..i], ks[..i], k) + if ks[i] == k then [items[i]] else []
  {
    assert items[..i + 1][..i] == items[..i] && ks[..i + 1][..i] == ks[..i];
  }

  /** One more key is listed after those seen so far, unless it was seen already. */
  lemma FirstSeenStep<K>(ks: seq<K>, i: nat)
    requires i < |ks|
    ensures FirstSeen(ks[..i + 1]) == if ks[i] in FirstSeen(ks[..i]) then FirstSeen(ks[..i]) else FirstSeen(ks[..i]) + [ks[i]]
  {
    assert ks[..i + 1][..i] == ks[..i];
  }

  /** Filtering keeps the relative order of the elements it keeps. */
  lemma {:induction false} FilterOrdered<T>(s: seq<T>, p: T -> bool, before: (T, T) -> bool)
    requires forall i, j | 0 <= i < j < |s| :: before(s[i], s[j])
    ensures forall i, j | 0 <= i < j < |Filter(s, p)| :: before(Filter(s, p)[i], Filter(s, p)[j])
  {
    if s != [] {
      var t := s[1..];
      assert forall i | 0 <= i < |t| :: t[i] == s[i + 1];
      FilterOrdered(t, p, before);
      FilterMembers(t, p);
      var f, r := Filter(t, p), Filter(s, p);
      if p(s[0]) {
        assert r == [s[0]] + f;
        forall i, j | 0 <= i < j < |r| ensures before(r[i], r[j]) {
          if i == 0 {
            FilterKeeps(t, p, f[j - 1]);
            var k :| 0 <= k < |t| && t[k] == f[j - 1];
            assert before(s[0], s[k + 1]);
          } else {
            assert r[i] == f[i - 1] && r[j] == f[j - 1];
          }
        }
      }
    }
  }
}
