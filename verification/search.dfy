/** The array searches the app uses on every collection: `find` and
    `findIndex` (the first element that satisfies a test) and `filter`. */
module Search {
  import opened Optional
  import opened StableSort

  /** The index of the first element that satisfies p; None where `findIndex`
      gives -1 and `find` gives undefined. */
  function FindFirst<T>(s: seq<T>, p: T -> bool): (r: Option<nat>)
    ensures r.Some? ==> r.value < |s| && p(s[r.value])
    ensures r.Some? ==> forall j :: 0 <= j < r.value ==> !p(s[j])
    ensures r.None? <==> forall j :: 0 <= j < |s| ==> !p(s[j])
  {
    if |s| == 0 then None
    else if p(s[0]) then Some(0)
    else match FindFirst(s[1..], p)
      case None => None
      case Some(k) => Some(k + 1)
  }

  /** The search answers the first index that passes the test. */
  lemma {:induction false} FindFirstAt<T>(s: seq<T>, p: T -> bool, i: nat)
    requires i < |s| && p(s[i])
    requires forall j :: 0 <= j < i ==> !p(s[j])
    ensures FindFirst(s, p) == Some(i)
  {
  }

  /** Two sequences whose elements pass two tests alike, position by position,
      are searched alike. */
  lemma {:induction false} FindFirstAgree<T, U>(a: seq<T>, p: T -> bool, b: seq<U>, q: U -> bool)
    requires |a| == |b|
    requires forall j :: 0 <= j < |a| ==> p(a[j]) == q(b[j])
    ensures FindFirst(a, p) == FindFirst(b, q)
  {
    match FindFirst(a, p)
    case None =>
      assert forall j :: 0 <= j < |b| ==> !q(b[j]);
    case Some(i) =>
      assert q(b[i]);
      FindFirstAt(b, q, i);
  }

  /** The elements that satisfy p, in their order. */
  function Filter<T>(s: seq<T>, p: T -> bool): (r: seq<T>)
    ensures |r| <= |s|
  {
    if |s| == 0 then []
    else Filter(s[..|s| - 1], p) + (if p(s[|s| - 1]) then [s[|s| - 1]] else [])
  }

  lemma {:induction false} FilterSnoc<T>(s: seq<T>, x: T, p: T -> bool)
    ensures Filter(s + [x], p) == Filter(s, p) + (if p(x) then [x] else [])
  {
    assert (s + [x])[..|s|] == s;
  }

  /** Exactly the elements that pass the test survive. */
  lemma {:induction false} FilterMembers<T>(s: seq<T>, p: T -> bool, x: T)
    ensures x in Filter(s, p) <==> x in s && p(x)
    decreases |s|
  {
    if |s| > 0 {
      var q := s[..|s| - 1];
      FilterMembers(q, p, x);
      SnocLast(s);
      assert x in s <==> x in q || x == s[|s| - 1];
    }
  }

  /** Filtering distributes over concatenation, so the survivors keep their
      order. */
  lemma {:induction false} FilterAppend<T>(s: seq<T>, t: seq<T>, p: T -> bool)
    ensures Filter(s + t, p) == Filter(s, p) + Filter(t, p)
    decreases |t|
  {
    if |t| > 0 {
      var t', last := t[..|t| - 1], t[|t| - 1];
      FilterAppend(s, t', p);
      SnocLast(t);
      assert s + t == (s + t') + [last];
      FilterSnoc(s + t', last, p);
    } else {
      assert s + t == s;
    }
  }

  /** When every element passes, nothing is filtered out. */
  lemma {:induction false} FilterAll<T>(s: seq<T>, p: T -> bool)
    requires forall j :: 0 <= j < |s| ==> p(s[j])
    ensures Filter(s, p) == s
    decreases |s|
  {
    if |s| > 0 {
      FilterAll(s[..|s| - 1], p);
      SnocLast(s);
    }
  }

  /** When some element fails the test, the result is strictly shorter. */
  lemma {:induction false} FilterShorter<T>(s: seq<T>, p: T -> bool, i: nat)
    requires i < |s| && !p(s[i])
    ensures |Filter(s, p)| < |s|
    decreases |s|
  {
    if i < |s| - 1 {
      FilterShorter(s[..|s| - 1], p, i);
    }
  }

  /** Filtering out an inserted element that fails the test gives what
      filtering the sequence gave. */
  lemma {:induction false} FilterInsertDropped<T>(s: seq<T>, x: T, key: T -> seq<int>, p: T -> bool)
    requires !p(x)
    ensures Filter(Insert(s, x, key), p) == Filter(s, p)
    decreases |s|
  {
    if |s| == 0 {
      FilterSnoc([], x, p);
      assert [] + [x] == [x];
    } else if KeyLe(key(s[|s| - 1]), key(x)) {
      InsertAfterLast(s, x, key);
      FilterSnoc(s, x, p);
    } else {
      var q, last := s[..|s| - 1], s[|s| - 1];
      InsertBehind(s, x, key);
      FilterInsertDropped(q, x, key, p);
      FilterSnoc(Insert(q, x, key), last, p);
      FilterSnoc(q, last, p);
      SnocLast(s);
    }
  }
}
