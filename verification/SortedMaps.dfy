/** Ordered maps (`BTreeMap`) as key-ascending association lists, and sorting of string lists. */
module SortedMaps {
  import opened Wrappers

  ghost predicate StrictOrder<T(!new)>(before: (T, T) -> bool) {
    && (forall x :: !before(x, x))
    && (forall x, y, z :: before(x, y) && before(y, z) ==> before(x, z))
  }

  ghost predicate StrictTotalOrder<T(!new)>(before: (T, T) -> bool) {
    StrictOrder(before) && forall x, y :: x != y ==> before(x, y) || before(y, x)
  }

  /** The lexicographic order of sequences. */
  predicate LexLess<T(==)>(a: seq<T>, b: seq<T>, before: (T, T) -> bool) {
    b != [] && (a == [] || before(a[0], b[0]) || (a[0] == b[0] && LexLess(a[1..], b[1..], before)))
  }

  lemma {:induction false} LexIrreflexive<T(!new)>(a: seq<T>, before: (T, T) -> bool)
    requires StrictTotalOrder(before)
    ensures !LexLess(a, a, before)
  {
    if a != [] {
      LexIrreflexive(a[1..], before);
    }
  }

  lemma {:induction false} LexTransitive<T(!new)>(a: seq<T>, b: seq<T>, c: seq<T>, before: (T, T) -> bool)
    requires StrictTotalOrder(before) && LexLess(a, b, before) && LexLess(b, c, before)
    ensures LexLess(a, c, before)
  {
    if a != [] && a[0] == b[0] == c[0] {
      LexTransitive(a[1..], b[1..], c[1..], before);
    }
  }

  lemma {:induction false} LexConnected<T(!new)>(a: seq<T>, b: seq<T>, before: (T, T) -> bool)
    requires StrictTotalOrder(before) && a != b
    ensures LexLess(a, b, before) || LexLess(b, a, before)
  {
    if a != [] && b != [] && a[0] == b[0] {
      assert a == [a[0]] + a[1..] && b == [b[0]] + b[1..];
      LexConnected(a[1..], b[1..], before);
    }
  }

  predicate CharLess(c: char, d: char) {
    c < d
  }

  /** The order of Rust strings, which is that of their code points. */
  predicate StringLess(a: string, b: string) {
    LexLess(a, b, CharLess)
  }

  /** The sequences agree up to k, where `a` ends or its element comes before that of `b`. */
  predicate DifferAt<T(==)>(a: seq<T>, b: seq<T>, before: (T, T) -> bool, k: nat) {
    k <= |a| && k < |b| && a[..k] == b[..k] && (k == |a| || before(a[k], b[k]))
  }

  lemma DifferInRest<T>(a: seq<T>, b: seq<T>, before: (T, T) -> bool, k: nat)
    requires a != [] && b != [] && k > 0
    ensures DifferAt(a, b, before, k) <==> a[0] == b[0] && DifferAt(a[1..], b[1..], before, k - 1)
  {
    if k <= |a| && k < |b| {
      assert a[..k] == [a[0]] + a[1..][..k - 1] && b[..k] == [b[0]] + b[1..][..k - 1];
      assert a[..k][1..] == a[1..][..k - 1] && b[..k][1..] == b[1..][..k - 1];
    }
  }

  lemma {:induction false} LexLessDiffers<T>(a: seq<T>, b: seq<T>, before: (T, T) -> bool) returns (k: nat)
    requires LexLess(a, b, before)
    ensures DifferAt(a, b, before, k)
  {
    k := 0;
    if a != [] && !before(a[0], b[0]) {
      k := LexLessDiffers(a[1..], b[1..], before);
      k := k + 1;
      DifferInRest(a, b, before, k);
    }
  }

  lemma {:induction false} DifferingIsLexLess<T>(a: seq<T>, b: seq<T>, before: (T, T) -> bool, k: nat)
    requires DifferAt(a, b, before, k)
    ensures LexLess(a, b, before)
  {
    if k > 0 {
      DifferInRest(a, b, before, k);
      DifferingIsLexLess(a[1..], b[1..], before, k - 1);
    }
  }

  /** The first difference decides, and what runs out first is less. */
  lemma LexLessIff<T>(a: seq<T>, b: seq<T>, before: (T, T) -> bool)
    ensures LexLess(a, b, before) <==>
            exists k :: 0 <= k <= |a| && k < |b| && a[..k] == b[..k] && (k == |a| || before(a[k], b[k]))
  {
    if LexLess(a, b, before) {
      var k := LexLessDiffers(a, b, before);
      assert a[..k] == b[..k];
    }
    forall k | 0 <= k <= |a| && k < |b| && a[..k] == b[..k] && (k == |a| || before(a[k], b[k]))
      ensures LexLess(a, b, before)
    {
      DifferingIsLexLess(a, b, before, k);
    }
  }

  /** Strings are compared at the first character where they differ, by code point. */
  lemma StringLessIff(a: string, b: string)
    ensures StringLess(a, b) <==> exists k :: 0 <= k <= |a| && k < |b| && a[..k] == b[..k] && (k == |a| || a[k] as int < b[k] as int)
  {
    LexLessIff(a, b, CharLess);
  }

  lemma StringLessIsStrictTotalOrder()
    ensures StrictTotalOrder(StringLess)
  {
    assert StrictTotalOrder(CharLess);
    forall a ensures !StringLess(a, a) {
      LexIrreflexive(a, CharLess);
    }
    forall a, b, c | StringLess(a, b) && StringLess(b, c) ensures StringLess(a, c) {
      LexTransitive(a, b, c, CharLess);
    }
    forall a, b: string | a != b ensures StringLess(a, b) || StringLess(b, a) {
      LexConnected(a, b, CharLess);
    }
  }

  // ---------------------------------------------------------------- maps

  ghost predicate Ascending<K, V>(m: seq<(K, V)>, less: (K, K) -> bool) {
    forall i, j :: 0 <= i < j < |m| ==> less(m[i].0, m[j].0)
  }

  function Find<K(==), V>(m: seq<(K, V)>, key: K): Option<V> {
    if m == [] then None else if m[0].0 == key then Some(m[0].1) else Find(m[1..], key)
  }

  /** Insert or overwrite. */
  function Put<K(==), V>(m: seq<(K, V)>, key: K, value: V, less: (K, K) -> bool): seq<(K, V)> {
    if m == [] then [(key, value)]
    else if m[0].0 == key then [(key, value)] + m[1..]
    else if less(key, m[0].0) then [(key, value)] + m
    else [m[0]] + Put(m[1..], key, value, less)
  }

  lemma {:induction false} FindIsMembership<K(!new), V>(m: seq<(K, V)>, key: K)
    ensures Find(m, key).Some? <==> exists i :: 0 <= i < |m| && m[i].0 == key
    ensures Find(m, key).Some? ==> exists i :: 0 <= i < |m| && m[i] == (key, Find(m, key).value)
  {
    if m != [] && m[0].0 != key {
      FindIsMembership(m[1..], key);
      if Find(m, key).Some? {
        var i :| 0 <= i < |m[1..]| && m[1..][i] == (key, Find(m, key).value);
        assert m[i + 1] == (key, Find(m, key).value);
      }
      forall i | 0 <= i < |m| && m[i].0 == key ensures Find(m, key).Some? {
        assert m[1..][i - 1].0 == key;
      }
    } else if m != [] {
      assert m[0] == (key, m[0].1);
    }
  }

  lemma FindInAscending<K(!new), V>(m: seq<(K, V)>, i: nat, less: (K, K) -> bool)
    requires StrictTotalOrder(less) && Ascending(m, less) && i < |m|
    ensures Find(m, m[i].0) == Some(m[i].1)
  {
    FindIsMembership(m, m[i].0);
    var j :| 0 <= j < |m| && m[j] == (m[i].0, Find(m, m[i].0).value);
    assert i == j;
  }

  lemma {:induction false} PutFind<K(!new), V>(m: seq<(K, V)>, key: K, value: V, less: (K, K) -> bool, other: K)
    ensures Find(Put(m, key, value, less), other) == if other == key then Some(value) else Find(m, other)
  {
    if m != [] {
      PutFind(m[1..], key, value, less, other);
    }
  }

  lemma {:induction false} PutKeys<K(!new), V>(m: seq<(K, V)>, key: K, value: V, less: (K, K) -> bool, i: nat)
    requires i < |Put(m, key, value, less)|
    ensures Put(m, key, value, less)[i] == (key, value) || exists j :: 0 <= j < |m| && Put(m, key, value, less)[i] == m[j]
  {
    if m != [] && m[0].0 != key && !less(key, m[0].0) && i > 0 {
      PutKeys(m[1..], key, value, less, i - 1);
    }
  }

  lemma {:induction false} PutKeepsAscending<K(!new), V>(m: seq<(K, V)>, key: K, value: V, less: (K, K) -> bool)
    requires StrictTotalOrder(less) && Ascending(m, less)
    ensures Ascending(Put(m, key, value, less), less)
  {
    if m != [] && m[0].0 != key && !less(key, m[0].0) {
      PutKeepsAscending(m[1..], key, value, less);
      var rest := Put(m[1..], key, value, less);
      forall i | 0 <= i < |rest| ensures less(m[0].0, rest[i].0) {
        PutKeys(m[1..], key, value, less, i);
      }
    }
  }

  // ---------------------------------------------------------------- strictly ascending lists

  ghost predicate AscendingBy<T>(s: seq<T>, before: (T, T) -> bool) {
    forall i, j :: 0 <= i < j < |s| ==> before(s[i], s[j])
  }

  lemma HeadIsHeld<T>(s: seq<T>)
    requires s != []
    ensures s[0] in s
  {
  }

  lemma HeadIsFirst<T>(s: seq<T>, before: (T, T) -> bool, x: T)
    requires AscendingBy(s, before) && x in s
    ensures x == s[0] || before(s[0], x)
  {
    var k :| 0 <= k < |s| && s[k] == x;
  }

  lemma HeadIsSame<T(!new)>(a: seq<T>, b: seq<T>, before: (T, T) -> bool)
    requires StrictOrder(before) && AscendingBy(a, before) && AscendingBy(b, before)
    requires a != [] && b != [] && a[0] in b && b[0] in a
    ensures a[0] == b[0]
  {
    HeadIsFirst(b, before, a[0]);
    HeadIsFirst(a, before, b[0]);
  }

  lemma RestIsHeld<T(!new)>(a: seq<T>, b: seq<T>, before: (T, T) -> bool, x: T)
    requires StrictOrder(before) && AscendingBy(a, before)
    requires a != [] && b != [] && a[0] == b[0]
    requires x in a[1..] && x in b
    ensures x in b[1..]
  {
    var i :| 0 <= i < |a[1..]| && a[1..][i] == x;
    assert before(a[0], a[i + 1]);
    var k :| 0 <= k < |b| && b[k] == x;
    assert b[1..][k - 1] == x;
  }

  /** Strictly ascending lists that hold the same elements are the same list. */
  lemma {:induction false} AscendingListsAreEqual<T(!new)>(a: seq<T>, b: seq<T>, before: (T, T) -> bool)
    requires StrictOrder(before) && AscendingBy(a, before) && AscendingBy(b, before)
    requires forall x :: x in a <==> x in b
    ensures a == b
  {
    if a == [] {
      if b != [] {
        HeadIsHeld(b);
      }
    } else {
      HeadIsHeld(a);
      HeadIsHeld(b);
      HeadIsSame(a, b, before);
      forall x ensures x in a[1..] <==> x in b[1..] {
        if x in a[1..] {
          RestIsHeld(a, b, before, x);
        }
        if x in b[1..] {
          RestIsHeld(b, a, before, x);
        }
      }
      AscendingListsAreEqual(a[1..], b[1..], before);
      assert a == [a[0]] + a[1..] && b == [b[0]] + b[1..];
    }
  }

  // ---------------------------------------------------------------- sorting

  ghost predicate Sorted(s: seq<string>) {
    forall i, j :: 0 <= i < j < |s| ==> !StringLess(s[j], s[i])
  }

  function Insert(x: string, s: seq<string>): (r: seq<string>)
    ensures multiset(r) == multiset(s) + multiset{x}
  {
    if s == [] || !StringLess(s[0], x) then
      assert [x] + s == [x] + s;
      [x] + s
    else
      assert s == [s[0]] + s[1..];
      [s[0]] + Insert(x, s[1..])
  }

  /** `sort` on a list of strings: a sorted permutation. */
  function Sort(s: seq<string>): (r: seq<string>)
    ensures multiset(r) == multiset(s)
  {
    if s == [] then []
    else
      assert s == [s[0]] + s[1..];
      Insert(s[0], Sort(s[1..]))
  }

  lemma {:induction false} InsertKeepsSorted(x: string, s: seq<string>)
    requires Sorted(s)
    ensures Sorted(Insert(x, s))
  {
    var r := Insert(x, s);
    StringLessIsStrictTotalOrder();
    if s == [] || !StringLess(s[0], x) {
      forall i | 0 <= i < |s| ensures !StringLess(s[i], x) {
        assert s[i] == s[0] || StringLess(s[0], s[i]);
      }
    } else {
      InsertKeepsSorted(x, s[1..]);
      var rest := Insert(x, s[1..]);
      forall i | 0 <= i < |rest| ensures !StringLess(rest[i], s[0]) {
        assert rest[i] in multiset(s[1..]) + multiset{x};
        if rest[i] != x {
          assert rest[i] in s[1..];
        }
      }
    }
  }

  lemma {:induction false} SortSorts(s: seq<string>)
    ensures Sorted(Sort(s))
  {
    if s != [] {
      SortSorts(s[1..]);
      InsertKeepsSorted(s[0], Sort(s[1..]));
    }
  }
}
