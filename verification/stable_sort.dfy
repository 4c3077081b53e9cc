/** A stable sort over sequences ordered by integer keys.

    A comparator that compares a fixed list of integer criteria one after the
    other is a lexicographic order on integer keys. Sorting stably by such a
    comparator has exactly one possible result (see SortIsTheStableSort), so
    this insertion sort stands for any stable sort the host language uses.
 */
module StableSort {

  /** Lexicographic order on integer keys: compare the first components and
      fall through to the rest on a tie; a key that runs out first is smaller. */
  predicate KeyLe(a: seq<int>, b: seq<int>)
    decreases |a|
  {
    |a| == 0 || (|b| > 0 && (a[0] < b[0] || (a[0] == b[0] && KeyLe(a[1..], b[1..]))))
  }

  lemma {:induction false} KeyLeReflexive(a: seq<int>)
    ensures KeyLe(a, a)
    decreases |a|
  {
    if |a| > 0 {
      KeyLeReflexive(a[1..]);
    }
  }

  lemma {:induction false} KeyLeTotal(a: seq<int>, b: seq<int>)
    ensures KeyLe(a, b) || KeyLe(b, a)
    decreases |a|
  {
    if |a| > 0 && |b| > 0 && a[0] == b[0] {
      KeyLeTotal(a[1..], b[1..]);
    }
  }

  lemma {:induction false} KeyLeTransitive(a: seq<int>, b: seq<int>, c: seq<int>)
    requires KeyLe(a, b) && KeyLe(b, c)
    ensures KeyLe(a, c)
    decreases |a|
  {
    if |a| > 0 && a[0] == b[0] && b[0] == c[0] {
      KeyLeTransitive(a[1..], b[1..], c[1..]);
    }
  }

  lemma {:induction false} KeyLeAntisymmetric(a: seq<int>, b: seq<int>)
    requires KeyLe(a, b) && KeyLe(b, a)
    ensures a == b
    decreases |a|
  {
    if |a| > 0 {
      KeyLeAntisymmetric(a[1..], b[1..]);
      assert a == [a[0]] + a[1..];
      assert b == [b[0]] + b[1..];
    }
  }

  /** Keys of the form [c] + k compare like k once the first criterion is equal. */
  lemma {:induction false} KeyLeCommonHead(c: int, a: seq<int>, b: seq<int>)
    ensures KeyLe([c] + a, [c] + b) <==> KeyLe(a, b)
  {
    assert ([c] + a)[1..] == a;
    assert ([c] + b)[1..] == b;
  }

  /** Two-criteria keys compare on the first criterion, then the second. */
  lemma {:induction false} KeyLePair(a0: int, a1: int, b0: int, b1: int)
    ensures KeyLe([a0, a1], [b0, b1]) <==> a0 < b0 || (a0 == b0 && a1 <= b1)
  {
    assert [a0, a1][1..] == [a1];
    assert [b0, b1][1..] == [b1];
    assert [a1][1..] == [] && [b1][1..] == [];
    assert KeyLe([a1][1..], [b1][1..]);
    assert KeyLe([a1], [b1]) <==> a1 <= b1;
  }

  /** Three-criteria keys compare criterion by criterion. */
  lemma {:induction false} KeyLeTriple(a0: int, a1: int, a2: int, b0: int, b1: int, b2: int)
    ensures KeyLe([a0, a1, a2], [b0, b1, b2])
        <==> a0 < b0 || (a0 == b0 && (a1 < b1 || (a1 == b1 && a2 <= b2)))
  {
    assert [a0, a1, a2][1..] == [a1, a2];
    assert [b0, b1, b2][1..] == [b1, b2];
    KeyLePair(a1, a2, b1, b2);
  }

  ghost predicate SortedBy<T>(s: seq<T>, key: T -> seq<int>) {
    forall i, j :: 0 <= i < j < |s| ==> KeyLe(key(s[i]), key(s[j]))
  }

  /** Inserts x into s after every element whose key is at most x's key. */
  function Insert<T>(s: seq<T>, x: T, key: T -> seq<int>): (r: seq<T>)
    ensures |r| == |s| + 1
    ensures multiset(r) == multiset(s) + multiset{x}
  {
    if |s| == 0 then [x]
    else if KeyLe(key(s[|s| - 1]), key(x)) then s + [x]
    else
      assert s == s[..|s| - 1] + [s[|s| - 1]];
      Insert(s[..|s| - 1], x, key) + [s[|s| - 1]]
  }

  /** Inserting after the last element when it sorts no later than x. */
  lemma {:induction false} InsertAfterLast<T>(s: seq<T>, x: T, key: T -> seq<int>)
    requires |s| > 0 && KeyLe(key(s[|s| - 1]), key(x))
    ensures Insert(s, x, key) == s + [x]
  {
  }

  /** Inserting behind the last element when it sorts after x. */
  lemma {:induction false} InsertBehind<T>(s: seq<T>, x: T, key: T -> seq<int>)
    requires |s| > 0 && !KeyLe(key(s[|s| - 1]), key(x))
    ensures Insert(s, x, key) == Insert(s[..|s| - 1], x, key) + [s[|s| - 1]]
  {
  }

  /** Stable insertion sort: elements are taken in input order and each is
      placed after every earlier element whose key is not greater. */
  function SortBy<T>(s: seq<T>, key: T -> seq<int>): (r: seq<T>)
    ensures |r| == |s|
    ensures multiset(r) == multiset(s)
    ensures SortedBy(r, key)
  {
    if |s| == 0 then []
    else
      assert s == s[..|s| - 1] + [s[|s| - 1]];
      var sorted := SortBy(s[..|s| - 1], key);
      InsertSorted(sorted, s[|s| - 1], key);
      Insert(sorted, s[|s| - 1], key)
  }

  lemma {:induction false} InsertSorted<T>(s: seq<T>, x: T, key: T -> seq<int>)
    requires SortedBy(s, key)
    ensures SortedBy(Insert(s, x, key), key)
  {
    if |s| == 0 {
    } else if KeyLe(key(s[|s| - 1]), key(x)) {
      InsertAfterLast(s, x, key);
      forall i | 0 <= i < |s|
        ensures KeyLe(key(s[i]), key(x))
      {
        if i < |s| - 1 {
          KeyLeTransitive(key(s[i]), key(s[|s| - 1]), key(x));
        }
      }
      SortedSnoc(s, x, key);
    } else {
      var p, last := s[..|s| - 1], s[|s| - 1];
      KeyLeTotal(key(last), key(x));
      SortedByPrefix(s, key);
      InsertSorted(p, x, key);
      InsertBehind(s, x, key);
      var q := Insert(p, x, key);
      forall i | 0 <= i < |q|
        ensures KeyLe(key(q[i]), key(last))
      {
        var y := q[i];
        assert y in multiset(q);
        if y != x {
          assert y in multiset(p);
          var k :| 0 <= k < |p| && p[k] == y;
          assert s[k] == y;
        }
      }
      SortedSnoc(q, last, key);
    }
  }

  /** Appending an element whose key bounds every key keeps a sequence sorted. */
  lemma {:induction false} SortedSnoc<T>(s: seq<T>, x: T, key: T -> seq<int>)
    requires SortedBy(s, key)
    requires forall i :: 0 <= i < |s| ==> KeyLe(key(s[i]), key(x))
    ensures SortedBy(s + [x], key)
  {
    var r := s + [x];
    forall i, j | 0 <= i < j < |r|
      ensures KeyLe(key(r[i]), key(r[j]))
    {
      assert r[i] == s[i];
      if j < |s| {
        assert r[j] == s[j];
      }
    }
  }

  /** The elements of s whose key is k, in their order in s. */
  function WithKey<T>(s: seq<T>, key: T -> seq<int>, k: seq<int>): seq<T>
  {
    if |s| == 0 then []
    else WithKey(s[..|s| - 1], key, k) + (if key(s[|s| - 1]) == k then [s[|s| - 1]] else [])
  }

  lemma {:induction false} WithKeyMember<T>(s: seq<T>, key: T -> seq<int>, k: seq<int>, y: T)
    requires y in WithKey(s, key, k)
    ensures y in s && key(y) == k
  {
    if |s| > 0 {
      var p := s[..|s| - 1];
      if y in WithKey(p, key, k) {
        WithKeyMember(p, key, k, y);
        assert y in p;
      }
    }
  }

  lemma {:induction false} WithKeySnoc<T>(s: seq<T>, y: T, key: T -> seq<int>, k: seq<int>)
    ensures WithKey(s + [y], key, k) == WithKey(s, key, k) + (if key(y) == k then [y] else [])
  {
    assert (s + [y])[..|s|] == s;
  }

  lemma {:induction false} SortedByPrefix<T>(s: seq<T>, key: T -> seq<int>)
    requires |s| > 0 && SortedBy(s, key)
    ensures SortedBy(s[..|s| - 1], key)
  {
    var p := s[..|s| - 1];
    forall i, j | 0 <= i < j < |p|
      ensures KeyLe(key(p[i]), key(p[j]))
    {
      assert p[i] == s[i] && p[j] == s[j];
    }
  }

  lemma {:induction false} WithKeySingle<T>(x: T, key: T -> seq<int>, k: seq<int>)
    ensures WithKey([x], key, k) == if key(x) == k then [x] else []
  {
    WithKeySnoc([], x, key, k);
    assert [] + [x] == [x];
  }

  /** The step of InsertStable where x moves in front of the last element. */
  lemma {:induction false} InsertStableBehind<T>(s: seq<T>, x: T, key: T -> seq<int>, k: seq<int>)
    requires |s| > 0 && !KeyLe(key(s[|s| - 1]), key(x))
    requires WithKey(Insert(s[..|s| - 1], x, key), key, k) == WithKey(s[..|s| - 1], key, k) + WithKey([x], key, k)
    ensures WithKey(Insert(s, x, key), key, k) == WithKey(s, key, k) + WithKey([x], key, k)
  {
    var p, last := s[..|s| - 1], s[|s| - 1];
    var q := Insert(p, x, key);
    InsertBehind(s, x, key);
    WithKeySnoc(q, last, key, k);
    WithKeySingle(x, key, k);
    var a := WithKey(p, key, k);
    var wx := WithKey([x], key, k);
    var wl := if key(last) == k then [last] else [];
    assert WithKey(s, key, k) == a + wl;
    if key(x) == k {
      KeyLeReflexive(key(x));
      assert wl == [];
      assert (a + wx) + wl == a + wx;
      assert a + wl == a;
    } else {
      assert wx == [];
      assert (a + wl) + wx == a + wl;
      assert a + wx == a;
    }
  }

  /** The step of InsertStable where x goes after the last element. */
  lemma {:induction false} InsertStableAfter<T>(s: seq<T>, x: T, key: T -> seq<int>, k: seq<int>)
    requires |s| > 0 && KeyLe(key(s[|s| - 1]), key(x))
    ensures WithKey(Insert(s, x, key), key, k) == WithKey(s, key, k) + WithKey([x], key, k)
  {
    WithKeySingle(x, key, k);
    InsertAfterLast(s, x, key);
    WithKeySnoc(s, x, key, k);
  }

  lemma {:induction false} InsertStable<T>(s: seq<T>, x: T, key: T -> seq<int>, k: seq<int>)
    requires SortedBy(s, key)
    ensures WithKey(Insert(s, x, key), key, k) == WithKey(s, key, k) + WithKey([x], key, k)
  {
    if |s| == 0 {
      WithKeySingle(x, key, k);
    } else if KeyLe(key(s[|s| - 1]), key(x)) {
      InsertStableAfter(s, x, key, k);
    } else {
      SortedByPrefix(s, key);
      InsertStable(s[..|s| - 1], x, key, k);
      InsertStableBehind(s, x, key, k);
    }
  }

  /** Sorting keeps the relative order of elements with equal keys. */
  lemma {:induction false} SortStable<T>(s: seq<T>, key: T -> seq<int>, k: seq<int>)
    ensures WithKey(SortBy(s, key), key, k) == WithKey(s, key, k)
    decreases |s|
  {
    if |s| > 0 {
      var p := s[..|s| - 1];
      SortStable(p, key, k);
      InsertStable(SortBy(p, key), s[|s| - 1], key, k);
      assert WithKey([s[|s| - 1]], key, k)
          == WithKey([], key, k) + (if key(s[|s| - 1]) == k then [s[|s| - 1]] else []);
    }
  }

  /** Sorting an already sorted sequence changes nothing. */
  lemma {:induction false} SortedIsFixed<T>(s: seq<T>, key: T -> seq<int>)
    requires SortedBy(s, key)
    ensures SortBy(s, key) == s
    decreases |s|
  {
    if |s| > 0 {
      var p := s[..|s| - 1];
      assert SortedBy(p, key);
      SortedIsFixed(p, key);
      assert s == p + [s[|s| - 1]];
    }
  }

  /** Sorting a sorted sequence with one element appended inserts that element. */
  lemma {:induction false} SortSnocOfSorted<T>(s: seq<T>, x: T, key: T -> seq<int>)
    requires SortedBy(s, key)
    ensures SortBy(s + [x], key) == Insert(s, x, key)
  {
    SortedIsFixed(s, key);
    assert (s + [x])[..|s|] == s;
  }

  /** Two elements stay in place unless the first sorts strictly after the
      second. */
  lemma {:induction false} SortTwo<T>(a: T, b: T, key: T -> seq<int>)
    ensures SortBy([a, b], key) == if KeyLe(key(a), key(b)) then [a, b] else [b, a]
  {
    assert [a, b][..1] == [a];
    assert [a][..0] == [];
    assert SortBy([a], key) == [a];
  }

  /** Sorting is idempotent. */
  lemma {:induction false} SortIdempotent<T>(s: seq<T>, key: T -> seq<int>)
    ensures SortBy(SortBy(s, key), key) == SortBy(s, key)
  {
    SortedIsFixed(SortBy(s, key), key);
  }

  lemma {:induction false} WithKeyLast<T>(s: seq<T>, key: T -> seq<int>)
    requires |s| > 0
    ensures |WithKey(s, key, key(s[|s| - 1]))| > 0
  {
  }

  /** Two sorted sequences that agree on the order of each key class are equal. */
  lemma {:induction false} SortedStableUnique<T>(s: seq<T>, t: seq<T>, key: T -> seq<int>)
    requires SortedBy(s, key) && SortedBy(t, key)
    requires forall k :: WithKey(s, key, k) == WithKey(t, key, k)
    ensures s == t
    decreases |s| + |t|
  {
    if |s| == 0 && |t| == 0 {
    } else if |s| == 0 {
      WithKeyLast(t, key);
      assert false;
    } else if |t| == 0 {
      WithKeyLast(s, key);
      assert false;
    } else {
      var a, b := s[|s| - 1], t[|t| - 1];
      assert WithKey(s, key, key(a)) == WithKey(t, key, key(a));
      assert WithKey(t, key, key(b)) == WithKey(s, key, key(b));
      LastKeyBound(s, t, key);
      LastKeyBound(t, s, key);
      KeyLeAntisymmetric(key(a), key(b));
      LastsEqual(s, t, key);
      var s', t' := s[..|s| - 1], t[..|t| - 1];
      forall k
        ensures WithKey(s', key, k) == WithKey(t', key, k)
      {
        assert WithKey(s, key, k) == WithKey(t, key, k);
        PrefixesAgree(s, t, key, k);
      }
      SortedByPrefix(s, key);
      SortedByPrefix(t, key);
      SortedStableUnique(s', t', key);
      assert s == s' + [a] && t == t' + [b];
    }
  }

  /** When s's last element has its key class in sorted t, its key is at most
      the key of t's last element. */
  lemma {:induction false} LastKeyBound<T>(s: seq<T>, t: seq<T>, key: T -> seq<int>)
    requires SortedBy(t, key) && |s| > 0 && |t| > 0
    requires WithKey(s, key, key(s[|s| - 1])) == WithKey(t, key, key(s[|s| - 1]))
    ensures KeyLe(key(s[|s| - 1]), key(t[|t| - 1]))
  {
    var a := s[|s| - 1];
    assert a in WithKey(t, key, key(a));
    WithKeyMember(t, key, key(a), a);
    var i :| 0 <= i < |t| && t[i] == a;
    if i < |t| - 1 {
      assert KeyLe(key(t[i]), key(t[|t| - 1]));
    } else {
      KeyLeReflexive(key(a));
    }
  }

  /** The last elements of two sequences with equal last keys and equal key
      classes coincide. */
  lemma {:induction false} LastsEqual<T>(s: seq<T>, t: seq<T>, key: T -> seq<int>)
    requires |s| > 0 && |t| > 0 && key(s[|s| - 1]) == key(t[|t| - 1])
    requires WithKey(s, key, key(s[|s| - 1])) == WithKey(t, key, key(s[|s| - 1]))
    ensures s[|s| - 1] == t[|t| - 1]
  {
    var a := s[|s| - 1];
    var x, y := WithKey(s[..|s| - 1], key, key(a)), WithKey(t[..|t| - 1], key, key(a));
    assert (x + [a])[|x|] == a;
  }

  /** Dropping equal last elements keeps every key class equal. */
  lemma {:induction false} PrefixesAgree<T>(s: seq<T>, t: seq<T>, key: T -> seq<int>, k: seq<int>)
    requires |s| > 0 && |t| > 0 && s[|s| - 1] == t[|t| - 1]
    requires WithKey(s, key, k) == WithKey(t, key, k)
    ensures WithKey(s[..|s| - 1], key, k) == WithKey(t[..|t| - 1], key, k)
  {
    var a := s[|s| - 1];
    AppendCancel(WithKey(s[..|s| - 1], key, k), WithKey(t[..|t| - 1], key, k), if key(a) == k then [a] else []);
  }

  lemma {:induction false} AppendCancel<T>(x: seq<T>, y: seq<T>, w: seq<T>)
    requires x + w == y + w
    ensures x == y
  {
    assert |x| == |y|;
    assert x == (x + w)[..|x|];
    assert y == (y + w)[..|y|];
  }

  /** Any sorted rearrangement that keeps equal keys in input order is SortBy's
      result: a stable sort by the same comparator cannot produce another. */
  lemma {:induction false} SortIsTheStableSort<T>(s: seq<T>, t: seq<T>, key: T -> seq<int>)
    requires SortedBy(t, key)
    requires forall k :: WithKey(t, key, k) == WithKey(s, key, k)
    ensures t == SortBy(s, key)
  {
    forall k
      ensures WithKey(t, key, k) == WithKey(SortBy(s, key), key, k)
    {
      SortStable(s, key, k);
    }
    SortedStableUnique(t, SortBy(s, key), key);
  }

  lemma {:induction false} InsertSameOrder<T>(s: seq<T>, x: T, k1: T -> seq<int>, k2: T -> seq<int>)
    requires forall y :: y in s ==> (KeyLe(k1(y), k1(x)) <==> KeyLe(k2(y), k2(x)))
    ensures Insert(s, x, k1) == Insert(s, x, k2)
  {
    if |s| > 0 {
      assert s[|s| - 1] in s;
      var p := s[..|s| - 1];
      forall y | y in p
        ensures KeyLe(k1(y), k1(x)) <==> KeyLe(k2(y), k2(x))
      {
        assert y in s;
      }
      InsertSameOrder(p, x, k1, k2);
    }
  }

  /** Two key functions that order the elements of s alike sort s alike. */
  lemma {:induction false} SortBySameOrder<T>(s: seq<T>, k1: T -> seq<int>, k2: T -> seq<int>)
    requires forall x, y :: x in s && y in s ==> (KeyLe(k1(x), k1(y)) <==> KeyLe(k2(x), k2(y)))
    ensures SortBy(s, k1) == SortBy(s, k2)
    decreases |s|
  {
    if |s| > 0 {
      var p := s[..|s| - 1];
      var x := s[|s| - 1];
      assert x in s;
      forall a, b | a in p && b in p
        ensures KeyLe(k1(a), k1(b)) <==> KeyLe(k2(a), k2(b))
      {
        assert a in s && b in s;
      }
      SortBySameOrder(p, k1, k2);
      var r := SortBy(p, k1);
      forall y | y in r
        ensures KeyLe(k1(y), k1(x)) <==> KeyLe(k2(y), k2(x))
      {
        assert y in multiset(r);
        assert y in multiset(p);
        assert y in s;
      }
      InsertSameOrder(r, x, k1, k2);
    }
  }

  /** Two permutations of each other stay so when the last element of one is
      taken out of both: some index of the other holds it. */
  lemma {:induction false} PermutationWithoutLast<T>(s: seq<T>, t: seq<T>) returns (i: nat)
    requires multiset(s) == multiset(t) && |s| > 0
    ensures i < |t| && t[i] == s[|s| - 1]
    ensures multiset(s[..|s| - 1]) == multiset(t[..i] + t[i + 1..])
  {
    var x := s[|s| - 1];
    assert s == s[..|s| - 1] + [x];
    assert x in multiset(t);
    i :| 0 <= i < |t| && t[i] == x;
    var s', t' := s[..|s| - 1], t[..i] + t[i + 1..];
    assert t == t[..i] + [x] + t[i + 1..];
    assert multiset(t) == multiset(t[..i]) + multiset{x} + multiset(t[i + 1..]);
    assert multiset(t') == multiset(t[..i]) + multiset(t[i + 1..]);
    assert multiset(s) == multiset(s') + multiset{x};
    assert multiset(s') == multiset(s) - multiset{x};
    assert multiset(t') == multiset(t) - multiset{x};
  }

  /** Permutations of each other hold the same elements. */
  lemma {:induction false} SameElements<T>(s: seq<T>, t: seq<T>)
    requires multiset(s) == multiset(t)
    ensures forall d :: d in s <==> d in t
  {
    forall d
      ensures d in s <==> d in t
    {
      assert d in s <==> d in multiset(s);
      assert d in t <==> d in multiset(t);
    }
  }

  lemma {:induction false} SnocLast<T>(s: seq<T>)
    requires |s| > 0
    ensures s[..|s| - 1] + [s[|s| - 1]] == s
  {
  }
}
