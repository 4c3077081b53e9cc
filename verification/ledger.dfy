/** A driver's ledger: the list `freights` of entries, each with an id, a
    value, a date and a type, and the values derived from it (app.js). */
module Ledger {
  import opened Optional
  import opened StableSort
  import opened Search

  /** One real in cents: the source adds and defaults to `1`, a currency unit. */
  const UNIT: int := 100

  /** The entry's `type`: 'freight', 'penalty', or absent on the single entry
      the legacy-record migration synthesises. Every check in the source is
      `type === 'penalty'`, so an untagged entry counts as real revenue. */
  datatype Kind = Ordinary | Penalty | Untagged

  /** A ledger entry: `id` (the creation clock), `value` in cents, `date` in
      milliseconds, `type`. */
  datatype Freight = Freight(id: int, value: int, date: int, kind: Kind)

  function Amount(f: Freight): int {
    f.value
  }

  /** The part of an entry that is real income: penalties are not. */
  function RealAmount(f: Freight): int {
    if f.kind == Penalty then 0 else f.value
  }

  function PenaltyAmount(f: Freight): int {
    if f.kind == Penalty then f.value else 0
  }

  /** `fs.reduce((sum, f) => sum + amount(f), 0)`. */
  function SumOf(fs: seq<Freight>, amount: Freight -> int): int {
    if |fs| == 0 then 0 else SumOf(fs[..|fs| - 1], amount) + amount(fs[|fs| - 1])
  }

  /** The sorting revenue: every entry, penalties included. */
  function Total(fs: seq<Freight>): int {
    SumOf(fs, Amount)
  }

  /** The real revenue shown to the user: penalties filtered out. */
  function RealTotal(fs: seq<Freight>): int {
    SumOf(fs, RealAmount)
  }

  function PenaltyTotal(fs: seq<Freight>): int {
    SumOf(fs, PenaltyAmount)
  }

  lemma {:induction false} SumOfAppend(s: seq<Freight>, t: seq<Freight>, amount: Freight -> int)
    ensures SumOf(s + t, amount) == SumOf(s, amount) + SumOf(t, amount)
    decreases |t|
  {
    if |t| > 0 {
      var u := s + t;
      assert u[..|u| - 1] == s + t[..|t| - 1];
      assert u[|u| - 1] == t[|t| - 1];
      SumOfAppend(s, t[..|t| - 1], amount);
      assert SumOf(u, amount) == SumOf(u[..|u| - 1], amount) + amount(u[|u| - 1]);
    } else {
      assert s + t == s;
    }
  }

  lemma {:induction false} SumOfSingle(x: Freight, amount: Freight -> int)
    ensures SumOf([x], amount) == amount(x)
  {
    assert [x][..0] == [];
  }

  /** A sum over a ledger does not depend on the order of its entries. */
  lemma {:induction false} SumOfPermutation(s: seq<Freight>, t: seq<Freight>, amount: Freight -> int)
    requires multiset(s) == multiset(t)
    ensures SumOf(s, amount) == SumOf(t, amount)
    decreases |s|
  {
    if |s| > 0 {
      var x := s[|s| - 1];
      var s' := s[..|s| - 1];
      assert s == s' + [x];
      var i := PermutationWithoutLast(s, t);
      var t' := t[..i] + t[i + 1..];
      SumOfPermutation(s', t', amount);
      SumOfRemove(t, i, amount);
      SumOfAppend(s', [x], amount);
      SumOfSingle(x, amount);
    }
  }

  /** Taking entry i out of a ledger takes its amount out of the sum. */
  lemma {:induction false} SumOfRemove(t: seq<Freight>, i: nat, amount: Freight -> int)
    requires i < |t|
    ensures SumOf(t, amount) == SumOf(t[..i] + t[i + 1..], amount) + amount(t[i])
  {
    var a, b := t[..i], t[i + 1..];
    assert t == (a + [t[i]]) + b;
    SumOfAppend(a + [t[i]], b, amount);
    SumOfAppend(a, [t[i]], amount);
    SumOfAppend(a, b, amount);
    SumOfSingle(t[i], amount);
  }

  /** The sorting revenue is the real revenue plus the penalties. */
  lemma {:induction false} TotalSplits(fs: seq<Freight>)
    ensures Total(fs) == RealTotal(fs) + PenaltyTotal(fs)
    decreases |fs|
  {
    if |fs| > 0 {
      TotalSplits(fs[..|fs| - 1]);
    }
  }

  /** A ledger without penalties is all real revenue. */
  lemma {:induction false} NoPenaltyAllReal(fs: seq<Freight>)
    requires forall i :: 0 <= i < |fs| ==> fs[i].kind != Penalty
    ensures RealTotal(fs) == Total(fs)
    decreases |fs|
  {
    if |fs| > 0 {
      NoPenaltyAllReal(fs[..|fs| - 1]);
    }
  }

  /** Date of the last list element, 0 for an empty ledger: the queue's
      tie-break. It is the last element, not the latest date. */
  function LastDate(fs: seq<Freight>): int {
    if |fs| == 0 then 0 else fs[|fs| - 1].date
  }

  /** The "refused the last load" badge: the last list element is a penalty. */
  predicate LastIsPenalty(fs: seq<Freight>) {
    |fs| > 0 && fs[|fs| - 1].kind == Penalty
  }

  /** The ledger's sort key: the comparator `a.date - b.date`. */
  function DateKey(f: Freight): seq<int> {
    [f.date]
  }

  ghost predicate DateSorted(fs: seq<Freight>) {
    forall i, j :: 0 <= i < j < |fs| ==> fs[i].date <= fs[j].date
  }

  /** An entry dated no earlier than the last one can be appended in order. */
  lemma {:induction false} AppendKeepsDateSorted(fs: seq<Freight>, f: Freight)
    requires DateSorted(fs)
    requires LastDate(fs) <= f.date
    ensures DateSorted(fs + [f])
  {
    var gs := fs + [f];
    forall a, b | 0 <= a < b < |gs|
      ensures gs[a].date <= gs[b].date
    {
      if b == |fs| && a < |fs| - 1 {
        assert fs[a].date <= fs[|fs| - 1].date;
      }
    }
  }

  /** `freights.sort((a, b) => a.date - b.date)`, a stable sort by date. */
  function SortByDate(fs: seq<Freight>): (r: seq<Freight>)
    ensures multiset(r) == multiset(fs)
    ensures DateSorted(r)
  {
    var r := SortBy(fs, DateKey);
    assert forall i, j :: 0 <= i < j < |r| ==> KeyLe(DateKey(r[i]), DateKey(r[j]));
    r
  }

  /** The index of the first entry with the given id: `freights.find`. */
  function FindEntry(fs: seq<Freight>, id: int): (r: Option<nat>)
    ensures r.Some? ==> r.value < |fs| && fs[r.value].id == id
    ensures r.Some? ==> forall j :: 0 <= j < r.value ==> fs[j].id != id
    ensures r.None? <==> forall j :: 0 <= j < |fs| ==> fs[j].id != id
  {
    FindFirst(fs, (f: Freight) => f.id == id)
  }

  /** `freights.filter(f => f.id !== id)`. */
  function RemoveEntries(fs: seq<Freight>, id: int): (r: seq<Freight>)
    ensures |r| <= |fs|
  {
    Filter(fs, (f: Freight) => f.id != id)
  }

  /** Exactly the entries with another id survive a removal. */
  lemma {:induction false} RemoveEntriesMembers(fs: seq<Freight>, id: int, f: Freight)
    ensures f in RemoveEntries(fs, id) <==> f in fs && f.id != id
  {
    FilterMembers(fs, (f: Freight) => f.id != id, f);
  }

  /** Removing keeps the surviving entries in their order: it distributes over
      concatenation. */
  lemma {:induction false} RemoveEntriesAppend(s: seq<Freight>, t: seq<Freight>, id: int)
    ensures RemoveEntries(s + t, id) == RemoveEntries(s, id) + RemoveEntries(t, id)
  {
    FilterAppend(s, t, (f: Freight) => f.id != id);
  }

  lemma {:induction false} RemoveEntriesSnoc(s: seq<Freight>, x: Freight, id: int)
    ensures RemoveEntries(s + [x], id) == RemoveEntries(s, id) + (if x.id != id then [x] else [])
  {
    FilterSnoc(s, x, (f: Freight) => f.id != id);
  }

  /** Removing an id no entry has changes nothing. */
  lemma {:induction false} RemoveAbsentEntry(fs: seq<Freight>, id: int)
    requires forall j :: 0 <= j < |fs| ==> fs[j].id != id
    ensures RemoveEntries(fs, id) == fs
  {
    FilterAll(fs, (f: Freight) => f.id != id);
  }

  /** The sorting revenue after a removal drops by exactly the removed values. */
  lemma {:induction false} RemoveEntriesTotal(fs: seq<Freight>, id: int)
    ensures Total(RemoveEntries(fs, id)) == Total(fs) - SumOf(fs, (f: Freight) => if f.id == id then f.value else 0)
    decreases |fs|
  {
    if |fs| > 0 {
      var p := fs[..|fs| - 1];
      RemoveEntriesTotal(p, id);
      var x := fs[|fs| - 1];
      SumOfAppend(RemoveEntries(p, id), if x.id != id then [x] else [], Amount);
      assert SumOf([x], Amount) == x.value by {
        assert [x][..0] == [];
      }
    }
  }

  /** Removing a freshly inserted entry from a sorted ledger gives the ledger back. */
  lemma {:induction false} RemoveInserted(s: seq<Freight>, f: Freight)
    requires forall j :: 0 <= j < |s| ==> s[j].id != f.id
    ensures RemoveEntries(Insert(s, f, DateKey), f.id) == s
    decreases |s|
  {
    if |s| == 0 {
      RemoveEntriesSnoc([], f, f.id);
      assert [] + [f] == [f];
    } else if KeyLe(DateKey(s[|s| - 1]), DateKey(f)) {
      InsertAfterLast(s, f, DateKey);
      RemoveEntriesSnoc(s, f, f.id);
      RemoveAbsentEntry(s, f.id);
    } else {
      var p := s[..|s| - 1];
      var last := s[|s| - 1];
      assert forall j :: 0 <= j < |p| ==> p[j].id != f.id;
      RemoveInserted(p, f);
      assert last.id != f.id;
      RemoveBehind(s, f);
    }
  }

  /** The step of RemoveInserted where f goes in front of the last entry. */
  lemma {:induction false} RemoveBehind(s: seq<Freight>, f: Freight)
    requires |s| > 0 && !KeyLe(DateKey(s[|s| - 1]), DateKey(f))
    requires s[|s| - 1].id != f.id
    requires RemoveEntries(Insert(s[..|s| - 1], f, DateKey), f.id) == s[..|s| - 1]
    ensures RemoveEntries(Insert(s, f, DateKey), f.id) == s
  {
    var p := s[..|s| - 1];
    var last := s[|s| - 1];
    var q := Insert(p, f, DateKey);
    InsertBehind(s, f, DateKey);
    RemoveEntriesSnoc(q, last, f.id);
    assert RemoveEntries(q + [last], f.id) == p + [last];
    SnocLast(s);
  }

  /** Sorting a date-ordered ledger with one entry appended inserts that entry
      behind every entry dated no later. */
  lemma {:induction false} SortByDateSnoc(fs: seq<Freight>, f: Freight)
    requires DateSorted(fs)
    ensures SortByDate(fs + [f]) == Insert(fs, f, DateKey)
  {
    forall i, j | 0 <= i < j < |fs|
      ensures KeyLe(DateKey(fs[i]), DateKey(fs[j]))
    {
      assert KeyLe(DateKey(fs[i]), DateKey(fs[j])) <==> fs[i].date <= fs[j].date;
    }
    SortSnocOfSorted(fs, f, DateKey);
  }

  /** Registering a freshly numbered entry in a date-ordered ledger and then
      removing that id gives the ledger back. */
  lemma {:induction false} RegisterRemoveEntry(fs: seq<Freight>, f: Freight)
    requires DateSorted(fs)
    requires forall j :: 0 <= j < |fs| ==> fs[j].id != f.id
    ensures RemoveEntries(SortByDate(fs + [f]), f.id) == fs
  {
    SortByDateSnoc(fs, f);
    RemoveInserted(fs, f);
  }

  /** The appended entry can be found in the sorted ledger by its id. */
  lemma {:induction false} FindEntryOfSorted(fs: seq<Freight>, f: Freight)
    ensures FindEntry(SortByDate(fs + [f]), f.id).Some?
  {
    var g := SortByDate(fs + [f]);
    assert f in multiset(fs + [f]);
    assert f in multiset(g);
    var k :| 0 <= k < |g| && g[k] == f;
  }

  /** Sets the value of entry i, leaving every other field and entry alone. */
  function WithValue(fs: seq<Freight>, i: nat, v: int): (r: seq<Freight>)
    requires i < |fs|
    ensures |r| == |fs|
    ensures forall j :: 0 <= j < |fs| ==>
      r[j].id == fs[j].id && r[j].date == fs[j].date && r[j].kind == fs[j].kind
    ensures forall j :: 0 <= j < |fs| && j != i ==> r[j] == fs[j]
    ensures r[i].value == v
  {
    fs[i := fs[i].(value := v)]
  }

  /** Setting the old value back undoes the change. */
  lemma {:induction false} WithValueBack(fs: seq<Freight>, i: nat, v: int)
    requires i < |fs|
    ensures WithValue(WithValue(fs, i, v), i, fs[i].value) == fs
  {
  }

  /** Changing one entry's value moves the total by the difference. */
  lemma {:induction false} WithValueTotal(fs: seq<Freight>, i: nat, v: int)
    requires i < |fs|
    ensures Total(WithValue(fs, i, v)) == Total(fs) - fs[i].value + v
  {
    var r := WithValue(fs, i, v);
    assert fs == fs[..i] + [fs[i]] + fs[i + 1..];
    assert r == fs[..i] + [r[i]] + fs[i + 1..];
    SumOfAppend(fs[..i] + [fs[i]], fs[i + 1..], Amount);
    SumOfAppend(fs[..i], [fs[i]], Amount);
    SumOfAppend(fs[..i] + [r[i]], fs[i + 1..], Amount);
    SumOfAppend(fs[..i], [r[i]], Amount);
    assert SumOf([fs[i]], Amount) == fs[i].value by {
      assert [fs[i]][..0] == [];
    }
    assert SumOf([r[i]], Amount) == v by {
      assert [r[i]][..0] == [];
    }
  }
}
