/** What a stable sort does to an element that is changed, re-sorted, and
    changed back.

    The app re-sorts its collection in place after every change, so an
    operation and its inverse are separated by a sort. When the change moved
    the element's key, the sort carries it out of its class of equal keys; when
    it is changed back, the next sort puts it at the edge of that class: behind
    its peers if the change had raised its key, in front of them if it had
    lowered it. */
module Resort {
  import opened StableSort

  lemma {:induction false} WithKeyAppend<T>(s: seq<T>, t: seq<T>, key: T -> seq<int>, k: seq<int>)
    ensures WithKey(s + t, key, k) == WithKey(s, key, k) + WithKey(t, key, k)
    decreases |t|
  {
    if |t| == 0 {
      assert s + t == s;
    } else {
      var t', y := t[..|t| - 1], t[|t| - 1];
      WithKeyAppend(s, t', key, k);
      SnocLast(t);
      assert s + t == (s + t') + [y];
      WithKeySnoc(s + t', y, key, k);
      WithKeySnoc(t', y, key, k);
    }
  }

  /** The class of k in s with element i replaced by e, split around i. */
  lemma {:induction false} WithKeyUpdate<T>(s: seq<T>, i: nat, e: T, key: T -> seq<int>, k: seq<int>)
    requires i < |s|
    ensures WithKey(s[i := e], key, k)
      == WithKey(s[..i], key, k) + WithKey([e], key, k) + WithKey(s[i + 1..], key, k)
  {
    assert s[i := e] == s[..i] + [e] + s[i + 1..];
    WithKeyAppend(s[..i] + [e], s[i + 1..], key, k);
    WithKeyAppend(s[..i], [e], key, k);
  }

  /** A sequence with no element of key k has an empty class of k. */
  lemma {:induction false} WithKeyNone<T>(s: seq<T>, key: T -> seq<int>, k: seq<int>)
    requires forall m :: 0 <= m < |s| ==> key(s[m]) != k
    ensures WithKey(s, key, k) == []
  {
    if WithKey(s, key, k) != [] {
      var y := WithKey(s, key, k)[0];
      WithKeyMember(s, key, k, y);
      assert false;
    }
  }

  /** Sequences with the same classes sort alike. */
  lemma {:induction false} SortSameClasses<T>(a: seq<T>, b: seq<T>, key: T -> seq<int>)
    requires forall k :: WithKey(a, key, k) == WithKey(b, key, k)
    ensures SortBy(a, key) == SortBy(b, key)
  {
    forall k
      ensures WithKey(SortBy(a, key), key, k) == WithKey(b, key, k)
    {
      SortStable(a, key, k);
    }
    SortIsTheStableSort(b, SortBy(a, key), key);
  }

  /** k sorts strictly before k'. */
  predicate KeyLt(k: seq<int>, k': seq<int>) {
    KeyLe(k, k') && k != k'
  }

  /** In a sorted sequence nothing after an element of key k' has a key
      strictly below k'. */
  lemma {:induction false} NoneBelowAfter<T>(t: seq<T>, j: nat, key: T -> seq<int>, k: seq<int>)
    requires SortedBy(t, key) && j < |t| && KeyLt(k, key(t[j]))
    ensures WithKey(t[j + 1..], key, k) == []
  {
    var q := t[j + 1..];
    forall m | 0 <= m < |q|
      ensures key(q[m]) != k
    {
      assert q[m] == t[j + 1 + m];
      if key(q[m]) == k {
        KeyLeAntisymmetric(k, key(t[j]));
      }
    }
    WithKeyNone(q, key, k);
  }

  /** In a sorted sequence nothing before an element of key k' has a key
      strictly above k'. */
  lemma {:induction false} NoneAboveBefore<T>(t: seq<T>, j: nat, key: T -> seq<int>, k: seq<int>)
    requires SortedBy(t, key) && j < |t| && KeyLt(key(t[j]), k)
    ensures WithKey(t[..j], key, k) == []
  {
    var p := t[..j];
    forall m | 0 <= m < |p|
      ensures key(p[m]) != k
    {
      assert p[m] == t[m];
      if key(p[m]) == k {
        KeyLeAntisymmetric(k, key(t[j]));
      }
    }
    WithKeyNone(p, key, k);
  }

  /** Splitting two equal sequences at the first occurrence of x gives equal
      parts. */
  lemma {:induction false} SplitAtFirst<T>(p: seq<T>, q: seq<T>, a: seq<T>, b: seq<T>, x: T)
    requires p + [x] + q == a + [x] + b
    requires x !in p && x !in a
    ensures p == a && q == b
  {
    var w := p + [x] + q;
    assert forall n :: 0 <= n < |p| ==> w[n] == p[n];
    assert forall n :: 0 <= n < |a| ==> w[n] == a[n];
    assert w[|p|] == x && w[|a|] == x;
    assert |p| == |a|;
    assert p == w[..|p|] && a == w[..|a|];
    assert q == w[|p| + 1..] && b == w[|a| + 1..];
  }

  lemma {:induction false} NotInClass<T>(s: seq<T>, key: T -> seq<int>, k: seq<int>, x: T)
    requires x !in s
    ensures x !in WithKey(s, key, k)
  {
    if x in WithKey(s, key, k) {
      WithKeyMember(s, key, k, x);
    }
  }

  /** The element changed back goes to the back of its class when the change
      had raised its key, and to the front when it had lowered it. */
  function Rejoined<T>(s: seq<T>, i: nat, raised: bool): (r: seq<T>)
    requires i < |s|
    ensures multiset(r) == multiset(s)
  {
    var rest := s[..i] + s[i + 1..];
    assert s == s[..i] + [s[i]] + s[i + 1..];
    if raised then rest + [s[i]] else [s[i]] + rest
  }

  lemma {:induction false} RejoinedClass<T>(s: seq<T>, i: nat, raised: bool, key: T -> seq<int>, k: seq<int>)
    requires i < |s|
    ensures var a, b, w := WithKey(s[..i], key, k), WithKey(s[i + 1..], key, k), WithKey([s[i]], key, k);
      WithKey(Rejoined(s, i, raised), key, k) == if raised then a + b + w else w + a + b
  {
    var rest := s[..i] + s[i + 1..];
    WithKeyAppend(s[..i], s[i + 1..], key, k);
    if raised {
      WithKeyAppend(rest, [s[i]], key, k);
    } else {
      WithKeyAppend([s[i]], rest, key, k);
      assert WithKey([s[i]], key, k) + (WithKey(s[..i], key, k) + WithKey(s[i + 1..], key, k))
          == WithKey([s[i]], key, k) + WithKey(s[..i], key, k) + WithKey(s[i + 1..], key, k);
    }
  }

  /** The class of k in s split around element i. */
  lemma {:induction false} WithKeySplit<T>(s: seq<T>, i: nat, key: T -> seq<int>, k: seq<int>)
    requires i < |s|
    ensures WithKey(s, key, k)
      == WithKey(s[..i], key, k) + WithKey([s[i]], key, k) + WithKey(s[i + 1..], key, k)
  {
    WithKeyUpdate(s, i, s[i], key, k);
    assert s[i := s[i]] == s;
  }

  /** The facts about the changed element e inside the re-sorted sequence t. */
  ghost predicate ChangedAt<T>(s: seq<T>, i: nat, e: T, t: seq<T>, j: nat, key: T -> seq<int>) {
    && SortedBy(s, key) && i < |s| && key(e) != key(s[i])
    && t == SortBy(s[i := e], key)
    && j < |t| && t[j] == e
    && e !in s[..i] && e !in t[..j]
  }

  /** The class equations every case below starts from: x is the class in the
      re-sorted sequence, y the class after changing back, r the class of
      Rejoined, and a, b, p, q the classes around the changed positions. */
  lemma {:induction false} ClassEquations<T>(s: seq<T>, i: nat, e: T, t: seq<T>, j: nat, raised: bool, key: T -> seq<int>, k: seq<int>)
    requires i < |s| && j < |t| && t[j] == e
    requires WithKey(t, key, k) == WithKey(s[i := e], key, k)
    ensures var a, b := WithKey(s[..i], key, k), WithKey(s[i + 1..], key, k);
      var p, q := WithKey(t[..j], key, k), WithKey(t[j + 1..], key, k);
      var we, wd := WithKey([e], key, k), WithKey([s[i]], key, k);
      && a + we + b == p + we + q
      && WithKey(t[j := s[i]], key, k) == p + wd + q
      && WithKey(Rejoined(s, i, raised), key, k) == if raised then a + b + wd else wd + a + b
  {
    WithKeyUpdate(s, i, e, key, k);
    WithKeySplit(t, j, key, k);
    WithKeyUpdate(t, j, s[i], key, k);
    RejoinedClass(s, i, raised, key, k);
  }

  lemma {:induction false} AlgebraOther<T>(a: seq<T>, b: seq<T>, p: seq<T>, q: seq<T>, y: seq<T>, r: seq<T>, raised: bool)
    requires a + [] + b == p + [] + q
    requires y == p + [] + q
    requires r == if raised then a + b + [] else [] + a + b
    ensures y == r
  {
    assert a + [] + b == a + b && p + [] + q == p + q;
    assert a + b + [] == a + b && [] + a + b == a + b;
  }

  lemma {:induction false} AlgebraRaised<T>(a: seq<T>, b: seq<T>, p: seq<T>, q: seq<T>, d: T, y: seq<T>, r: seq<T>)
    requires a + [] + b == p + [] + q && q == []
    requires y == p + [d] + q
    requires r == a + b + [d]
    ensures y == r
  {
    assert a + [] + b == a + b && p + [] + q == p;
  }

  lemma {:induction false} AlgebraLowered<T>(a: seq<T>, b: seq<T>, p: seq<T>, q: seq<T>, d: T, y: seq<T>, r: seq<T>)
    requires a + [] + b == p + [] + q && p == []
    requires y == p + [d] + q
    requires r == [d] + a + b
    ensures y == r
  {
    assert a + [] + b == a + b && p + [] + q == q;
    assert [d] + a + b == [d] + (a + b);
  }

  lemma {:induction false} AlgebraNew<T>(a: seq<T>, b: seq<T>, p: seq<T>, q: seq<T>, e: T, y: seq<T>, r: seq<T>, raised: bool)
    requires a + [e] + b == p + [e] + q
    requires e !in p && e !in a
    requires y == p + [] + q
    requires r == if raised then a + b + [] else [] + a + b
    ensures y == r
  {
    SplitAtFirst(p, q, a, b, e);
    assert p + [] + q == a + b;
    assert a + b + [] == a + b && [] + a + b == a + b;
  }

  /** The classes of the changed element's old key. */
  lemma {:induction false} ChangedBackOldClass<T>(s: seq<T>, i: nat, e: T, t: seq<T>, j: nat, key: T -> seq<int>)
    requires ChangedAt(s, i, e, t, j, key)
    ensures var k := key(s[i]);
      WithKey(t[j := s[i]], key, k) == WithKey(Rejoined(s, i, KeyLe(key(s[i]), key(e))), key, k)
  {
    var k := key(s[i]);
    var raised := KeyLe(key(s[i]), key(e));
    SortStable(s[i := e], key, k);
    ClassEquations(s, i, e, t, j, raised, key, k);
    WithKeySingle(e, key, k);
    WithKeySingle(s[i], key, k);
    var a, b := WithKey(s[..i], key, k), WithKey(s[i + 1..], key, k);
    var p, q := WithKey(t[..j], key, k), WithKey(t[j + 1..], key, k);
    if raised {
      NoneBelowAfter(t, j, key, k);
      AlgebraRaised(a, b, p, q, s[i], WithKey(t[j := s[i]], key, k), WithKey(Rejoined(s, i, raised), key, k));
    } else {
      KeyLeTotal(key(s[i]), key(e));
      NoneAboveBefore(t, j, key, k);
      AlgebraLowered(a, b, p, q, s[i], WithKey(t[j := s[i]], key, k), WithKey(Rejoined(s, i, raised), key, k));
    }
  }

  /** The classes of the changed element's new key. */
  lemma {:induction false} ChangedBackNewClass<T>(s: seq<T>, i: nat, e: T, t: seq<T>, j: nat, key: T -> seq<int>)
    requires ChangedAt(s, i, e, t, j, key)
    ensures var k := key(e);
      WithKey(t[j := s[i]], key, k) == WithKey(Rejoined(s, i, KeyLe(key(s[i]), key(e))), key, k)
  {
    var k := key(e);
    var raised := KeyLe(key(s[i]), key(e));
    SortStable(s[i := e], key, k);
    ClassEquations(s, i, e, t, j, raised, key, k);
    WithKeySingle(e, key, k);
    WithKeySingle(s[i], key, k);
    NotInClass(t[..j], key, k, e);
    NotInClass(s[..i], key, k, e);
    AlgebraNew(WithKey(s[..i], key, k), WithKey(s[i + 1..], key, k), WithKey(t[..j], key, k), WithKey(t[j + 1..], key, k),
      e, WithKey(t[j := s[i]], key, k), WithKey(Rejoined(s, i, raised), key, k), raised);
  }

  /** The classes of every other key. */
  lemma {:induction false} ChangedBackOtherClass<T>(s: seq<T>, i: nat, e: T, t: seq<T>, j: nat, key: T -> seq<int>, k: seq<int>)
    requires ChangedAt(s, i, e, t, j, key)
    requires k != key(s[i]) && k != key(e)
    ensures WithKey(t[j := s[i]], key, k) == WithKey(Rejoined(s, i, KeyLe(key(s[i]), key(e))), key, k)
  {
    var raised := KeyLe(key(s[i]), key(e));
    SortStable(s[i := e], key, k);
    ClassEquations(s, i, e, t, j, raised, key, k);
    WithKeySingle(e, key, k);
    WithKeySingle(s[i], key, k);
    AlgebraOther(WithKey(s[..i], key, k), WithKey(s[i + 1..], key, k), WithKey(t[..j], key, k), WithKey(t[j + 1..], key, k),
      WithKey(t[j := s[i]], key, k), WithKey(Rejoined(s, i, raised), key, k), raised);
  }

  /** Change element i of a sorted sequence to e with another key, sort, and
      change e back: the next sort gives the sequence with the element moved to
      the back of its class when the change raised its key, or to the front
      when it lowered it. e must be found at its first occurrence. */
  lemma {:induction false} ChangedBack<T>(s: seq<T>, i: nat, e: T, t: seq<T>, j: nat, key: T -> seq<int>)
    requires ChangedAt(s, i, e, t, j, key)
    ensures SortBy(t[j := s[i]], key) == SortBy(Rejoined(s, i, KeyLe(key(s[i]), key(e))), key)
  {
    var r := Rejoined(s, i, KeyLe(key(s[i]), key(e)));
    forall k
      ensures WithKey(t[j := s[i]], key, k) == WithKey(r, key, k)
    {
      if k == key(s[i]) {
        ChangedBackOldClass(s, i, e, t, j, key);
      } else if k == key(e) {
        ChangedBackNewClass(s, i, e, t, j, key);
      } else {
        ChangedBackOtherClass(s, i, e, t, j, key, k);
      }
    }
    SortSameClasses(t[j := s[i]], r, key);
  }

  /** An element that no other element ties with comes back to its place. */
  lemma {:induction false} RejoinedWithoutPeer<T>(s: seq<T>, i: nat, raised: bool, key: T -> seq<int>)
    requires SortedBy(s, key) && i < |s|
    requires forall m :: 0 <= m < |s| && m != i ==> key(s[m]) != key(s[i])
    ensures SortBy(Rejoined(s, i, raised), key) == s
  {
    var r := Rejoined(s, i, raised);
    NoPeerClass(s, i, key);
    forall k
      ensures WithKey(r, key, k) == WithKey(s, key, k)
    {
      RejoinedSameClass(s, i, raised, key, k);
    }
    SortSameClasses(r, s, key);
    SortedIsFixed(s, key);
  }

  /** Without a peer, element i is alone in its class on either side. */
  lemma {:induction false} NoPeerClass<T>(s: seq<T>, i: nat, key: T -> seq<int>)
    requires i < |s|
    requires forall m :: 0 <= m < |s| && m != i ==> key(s[m]) != key(s[i])
    ensures WithKey(s[..i], key, key(s[i])) == [] && WithKey(s[i + 1..], key, key(s[i])) == []
  {
    var p, q := s[..i], s[i + 1..];
    forall m | 0 <= m < |p|
      ensures key(p[m]) != key(s[i])
    {
      assert p[m] == s[m];
    }
    WithKeyNone(p, key, key(s[i]));
    forall m | 0 <= m < |q|
      ensures key(q[m]) != key(s[i])
    {
      assert q[m] == s[i + 1 + m];
    }
    WithKeyNone(q, key, key(s[i]));
  }

  /** Every class of the rejoined sequence is the original's when element i
      has no peer on either side. */
  lemma {:induction false} RejoinedSameClass<T>(s: seq<T>, i: nat, raised: bool, key: T -> seq<int>, k: seq<int>)
    requires i < |s|
    requires k == key(s[i]) ==> WithKey(s[..i], key, k) == [] && WithKey(s[i + 1..], key, k) == []
    ensures WithKey(Rejoined(s, i, raised), key, k) == WithKey(s, key, k)
  {
    var a, b := WithKey(s[..i], key, k), WithKey(s[i + 1..], key, k);
    RejoinedClass(s, i, raised, key, k);
    WithKeySplit(s, i, key, k);
    WithKeySingle(s[i], key, k);
    if k == key(s[i]) {
      AlgebraRaised([], [], [], [], s[i], WithKey(s, key, k), WithKey(Rejoined(s, i, raised), key, k));
    } else {
      AlgebraOther(a, b, a, b, WithKey(s, key, k), WithKey(Rejoined(s, i, raised), key, k), raised);
    }
  }
}
