/** The rotation queue of app.js: the driver collection, the comparator that
    ranks it, and every operation that mutates it. There is no stored queue
    position; the rank is recomputed by sorting after each change.

    Operations are pure: they take the collection and return an Outcome, the
    new collection or the reason the source returned without changing it. The
    source's `confirm()` is the boolean `confirmed`, and `Date.now()` is
    passed in as a fresh id and a current time. */
module Queue {
  import opened Optional
  import opened StableSort
  import opened Ledger
  import opened Text
  import opened Search
  import opened Resort

  datatype Driver = Driver(id: int, name: string, freights: seq<Freight>, isPaused: bool)

  /** Why an operation left the collection as it was: an `alert`, an early
      `return`, a declined `confirm`, or a TypeError on a missing driver. */
  datatype Failure = BlankName | DuplicateName | InvalidValue | UnknownDriver | UnknownFreight | Cancelled

  datatype Outcome = Applied(drivers: seq<Driver>) | Refused(failure: Failure)

  // ---------------------------------------------------------------------
  // Ordering
  // ---------------------------------------------------------------------

  /** The comparator of `sortDrivers`: negative when a goes first. */
  function Compare(a: Driver, b: Driver): (c: int)
    ensures c <= 0 <==> QueueLe(a, b)
    ensures c == 0 <==> QueueKey(a) == QueueKey(b)
  {
    if a.isPaused && !b.isPaused then 1
    else if !a.isPaused && b.isPaused then -1
    else if Total(a.freights) < Total(b.freights) then -1
    else if Total(a.freights) > Total(b.freights) then 1
    else LastDate(a.freights) - LastDate(b.freights)
  }

  /** The comparator's criteria as a key: paused last, then total, then the
      date of the last entry. */
  function QueueKey(d: Driver): seq<int> {
    [if d.isPaused then 1 else 0, Total(d.freights), LastDate(d.freights)]
  }

  /** a may stand before b in the queue. */
  predicate QueueLe(a: Driver, b: Driver) {
    || (!a.isPaused && b.isPaused)
    || (a.isPaused == b.isPaused
        && (Total(a.freights) < Total(b.freights)
            || (Total(a.freights) == Total(b.freights) && LastDate(a.freights) <= LastDate(b.freights))))
  }

  /** The comparator and the key order agree, and the comparator returns 0
      exactly on equal keys. */
  lemma {:induction false} CompareIsKeyOrder(a: Driver, b: Driver)
    ensures Compare(a, b) <= 0 <==> KeyLe(QueueKey(a), QueueKey(b))
    ensures Compare(a, b) == 0 <==> QueueKey(a) == QueueKey(b)
    ensures KeyLe(QueueKey(a), QueueKey(b)) <==> QueueLe(a, b)
  {
    KeyLeTriple(if a.isPaused then 1 else 0, Total(a.freights), LastDate(a.freights),
                if b.isPaused then 1 else 0, Total(b.freights), LastDate(b.freights));
  }

  /** The comparator is a total preorder, which is what a sort needs of it. */
  lemma {:induction false} QueueLeTotalPreorder(a: Driver, b: Driver, c: Driver)
    ensures QueueLe(a, a)
    ensures QueueLe(a, b) || QueueLe(b, a)
    ensures QueueLe(a, b) && QueueLe(b, c) ==> QueueLe(a, c)
  {
  }

  ghost predicate QueueOrdered(ds: seq<Driver>) {
    forall i, j :: 0 <= i < j < |ds| ==> QueueLe(ds[i], ds[j])
  }

  lemma {:induction false} QueueOrderedIsSorted(ds: seq<Driver>)
    ensures QueueOrdered(ds) <==> SortedBy(ds, QueueKey)
  {
    forall a, b {
      CompareIsKeyOrder(a, b);
    }
  }

  /** `sortDrivers`: a stable sort by the comparator. */
  function SortDrivers(ds: seq<Driver>): (r: seq<Driver>)
    ensures multiset(r) == multiset(ds)
    ensures QueueOrdered(r)
  {
    var r := SortBy(ds, QueueKey);
    QueueOrderedIsSorted(r);
    r
  }

  /** The collection the program holds after an operation. Every operation
      that changes the collection ends with `render()`, which sorts the array
      in place, so the next operation starts from the sorted result; one that
      is refused leaves the array as it was. The program starts from a sorted
      array too, since loading is followed by `render()`. */
  function Held(ds: seq<Driver>, o: Outcome): (r: seq<Driver>)
    ensures o.Applied? ==> multiset(r) == multiset(o.drivers) && QueueOrdered(r)
    ensures o.Refused? ==> r == ds
  {
    match o
    case Applied(changed) => SortDrivers(changed)
    case Refused(_) => ds
  }

  /** In a sorted queue every active driver precedes every paused one, totals
      never decrease within a pause group, and equal totals have
      non-decreasing last-entry dates. */
  lemma {:induction false} SortDriversGroups(ds: seq<Driver>, i: int, j: int)
    requires 0 <= i < j < |SortDrivers(ds)|
    ensures var r := SortDrivers(ds);
      && (r[j].isPaused || !r[i].isPaused)
      && (r[i].isPaused == r[j].isPaused ==> Total(r[i].freights) <= Total(r[j].freights))
      && (r[i].isPaused == r[j].isPaused && Total(r[i].freights) == Total(r[j].freights)
          ==> LastDate(r[i].freights) <= LastDate(r[j].freights))
  {
  }

  /** Re-sorting a sorted queue is the identity. */
  lemma {:induction false} SortDriversFixesOrdered(ds: seq<Driver>)
    requires QueueOrdered(ds)
    ensures SortDrivers(ds) == ds
  {
    QueueOrderedIsSorted(ds);
    SortedIsFixed(ds, QueueKey);
  }

  /** Drivers that compare equal keep their relative order. */
  lemma {:induction false} SortDriversStable(ds: seq<Driver>, k: seq<int>)
    ensures WithKey(SortDrivers(ds), QueueKey, k) == WithKey(ds, QueueKey, k)
  {
    SortStable(ds, QueueKey, k);
  }

  /** The engine's own stable sort cannot give another order than SortDrivers. */
  lemma {:induction false} SortDriversIsTheStableSort(ds: seq<Driver>, t: seq<Driver>)
    requires QueueOrdered(t)
    requires forall k :: WithKey(t, QueueKey, k) == WithKey(ds, QueueKey, k)
    ensures t == SortDrivers(ds)
  {
    QueueOrderedIsSorted(t);
    SortIsTheStableSort(ds, t, QueueKey);
  }

  // ---------------------------------------------------------------------
  // Lookup by id
  // ---------------------------------------------------------------------

  /** The index of the first driver with the given id: `drivers.find`. */
  function FindDriver(ds: seq<Driver>, id: int): (r: Option<nat>)
    ensures r.Some? ==> r.value < |ds| && ds[r.value].id == id
    ensures r.Some? ==> forall j :: 0 <= j < r.value ==> ds[j].id != id
    ensures r.None? <==> forall j :: 0 <= j < |ds| ==> ds[j].id != id
  {
    FindFirst(ds, (d: Driver) => d.id == id)
  }

  /** The collection with driver i replaced by d. */
  function Replace(ds: seq<Driver>, i: nat, d: Driver): (r: seq<Driver>)
    requires i < |ds|
    ensures |r| == |ds| && r[i] == d
    ensures forall j :: 0 <= j < |ds| && j != i ==> r[j] == ds[j]
  {
    ds[i := d]
  }

  // ---------------------------------------------------------------------
  // penalizeDriver
  // ---------------------------------------------------------------------

  /** `maxRevenue`: the largest total among drivers with another id, starting
      from 0, paused drivers included. */
  function MaxOtherRevenue(ds: seq<Driver>, id: int): (m: int)
    ensures m >= 0
    ensures forall e :: e in ds && e.id != id ==> Total(e.freights) <= m
    ensures m == 0 || exists e :: e in ds && e.id != id && Total(e.freights) == m
  {
    if |ds| == 0 then 0
    else
      var p := ds[..|ds| - 1];
      var d := ds[|ds| - 1];
      assert ds == p + [d];
      var m := MaxOtherRevenue(p, id);
      if d.id != id && Total(d.freights) > m then Total(d.freights) else m
  }

  /** The penalty entry's value: what lifts the driver's total to one unit
      above the largest other total, or one unit when the driver's total is
      already at least that. */
  function PenaltyValue(current: int, maxOther: int): (v: int)
    ensures v > 0
    ensures current + v >= maxOther + UNIT
    ensures current < maxOther + UNIT ==> current + v == maxOther + UNIT
    ensures current >= maxOther + UNIT ==> v == UNIT
  {
    var target := maxOther + UNIT;
    if target - current > 0 then target - current else UNIT
  }

  lemma {:induction false} TotalAppend(fs: seq<Freight>, f: Freight)
    ensures Total(fs + [f]) == Total(fs) + f.value
    ensures RealTotal(fs + [f]) == RealTotal(fs) + RealAmount(f)
  {
    assert (fs + [f])[..|fs|] == fs;
  }

  /** `penalizeDriver`: appends, without re-sorting the ledger, a penalty entry
      worth PenaltyValue of the driver's total and the largest other total, which
      puts the driver's total strictly above every driver with another id. */
  function Penalize(ds: seq<Driver>, id: int, confirmed: bool, penaltyId: int, now: int): (o: Outcome)
    ensures o.Applied? <==> FindDriver(ds, id).Some? && confirmed
    ensures o.Refused? ==> o.failure == if FindDriver(ds, id).None? then UnknownDriver else Cancelled
    ensures o.Applied? ==>
      var i := FindDriver(ds, id).value;
      var r := o.drivers;
      var n := |ds[i].freights|;
      && |r| == |ds|
      && (forall j :: 0 <= j < |ds| && j != i ==> r[j] == ds[j])
      && r[i].id == id && r[i].name == ds[i].name && r[i].isPaused == ds[i].isPaused
      && |r[i].freights| == n + 1
      && r[i].freights[..n] == ds[i].freights
      && r[i].freights[n].kind == Penalty
      && r[i].freights[n].id == penaltyId && r[i].freights[n].date == now
      && r[i].freights[n].value == PenaltyValue(Total(ds[i].freights), MaxOtherRevenue(ds, id))
      && r[i].freights[n].value > 0
      && Total(r[i].freights) == Total(ds[i].freights) + r[i].freights[n].value
      && (forall e :: e in ds && e.id != id ==> Total(r[i].freights) > Total(e.freights))
  {
    match FindDriver(ds, id)
    case None => Refused(UnknownDriver)
    case Some(i) =>
      if !confirmed then Refused(Cancelled)
      else
        var d := ds[i];
        var maxOther := MaxOtherRevenue(ds, id);
        var penalty := Freight(penaltyId, PenaltyValue(Total(d.freights), maxOther), now, Penalty);
        TotalAppend(d.freights, penalty);
        assert (d.freights + [penalty])[..|d.freights|] == d.freights;
        Applied(Replace(ds, i, d.(freights := d.freights + [penalty])))
  }

  /** In a sorted queue an active driver stands before any driver with a
      larger total. */
  lemma {:induction false} LargerTotalStandsBehind(r: seq<Driver>, i: int, j: int)
    requires QueueOrdered(r)
    requires 0 <= i < |r| && 0 <= j < |r|
    requires !r[i].isPaused && Total(r[j].freights) > Total(r[i].freights)
    ensures i < j
  {
  }

  /** After a penalty and the re-sort that follows it, every active driver
      with another id stands before the penalised driver. */
  lemma {:induction false} PenalizedDriverGoesBehind(ds: seq<Driver>, id: int, penaltyId: int, now: int)
    requires Penalize(ds, id, true, penaltyId, now).Applied?
    ensures var after := Penalize(ds, id, true, penaltyId, now).drivers;
      var p := after[FindDriver(ds, id).value];
      var r := SortDrivers(after);
      forall i, j :: 0 <= i < |r| && 0 <= j < |r| && r[j] == p && r[i].id != id && !r[i].isPaused ==> i < j
  {
    var after := Penalize(ds, id, true, penaltyId, now).drivers;
    var k := FindDriver(ds, id).value;
    var p := after[k];
    var r := SortDrivers(after);
    SameElements(r, after);
    forall i, j | 0 <= i < |r| && 0 <= j < |r| && r[j] == p && r[i].id != id && !r[i].isPaused
      ensures i < j
    {
      PenalizedOutranks(ds, id, penaltyId, now, r[i]);
      LargerTotalStandsBehind(r, i, j);
    }
  }

  /** After a penalty every driver with another id has a smaller total than
      the penalised driver. */
  lemma {:induction false} PenalizedOutranks(ds: seq<Driver>, id: int, penaltyId: int, now: int, e: Driver)
    requires Penalize(ds, id, true, penaltyId, now).Applied?
    requires e in Penalize(ds, id, true, penaltyId, now).drivers && e.id != id
    ensures Total(Penalize(ds, id, true, penaltyId, now).drivers[FindDriver(ds, id).value].freights) > Total(e.freights)
  {
    var after := Penalize(ds, id, true, penaltyId, now).drivers;
    var k := FindDriver(ds, id).value;
    var m :| 0 <= m < |after| && after[m] == e;
    assert m != k;
    assert e == ds[m];
    assert e in ds;
  }

  /** With unique ids the penalised driver's total exceeds every other driver's. */
  lemma {:induction false} PenaltyExceedsEveryone(ds: seq<Driver>, id: int, penaltyId: int, now: int, j: int)
    requires forall a, b :: 0 <= a < b < |ds| ==> ds[a].id != ds[b].id
    requires Penalize(ds, id, true, penaltyId, now).Applied?
    requires 0 <= j < |ds| && j != FindDriver(ds, id).value
    ensures var r := Penalize(ds, id, true, penaltyId, now).drivers;
      Total(r[FindDriver(ds, id).value].freights) > Total(r[j].freights)
  {
    var i := FindDriver(ds, id).value;
    assert ds[j] in ds;
    if j < i {
      assert ds[j].id != id;
    } else {
      assert ds[i].id != ds[j].id;
    }
  }

  /** A penalty keeps a date-ordered ledger date-ordered when it is dated no
      earlier than the last entry, as a penalty dated now normally is. */
  lemma {:induction false} PenaltyKeepsDateOrder(ds: seq<Driver>, id: int, penaltyId: int, now: int)
    requires Penalize(ds, id, true, penaltyId, now).Applied?
    requires DateSorted(ds[FindDriver(ds, id).value].freights)
    requires LastDate(ds[FindDriver(ds, id).value].freights) <= now
    ensures DateSorted(Penalize(ds, id, true, penaltyId, now).drivers[FindDriver(ds, id).value].freights)
  {
    var i := FindDriver(ds, id).value;
    var fs := ds[i].freights;
    var gs := Penalize(ds, id, true, penaltyId, now).drivers[i].freights;
    assert gs == fs + [gs[|fs|]];
    AppendKeepsDateSorted(fs, gs[|fs|]);
  }

  // ---------------------------------------------------------------------
  // registerFreightForDriver
  // ---------------------------------------------------------------------

  /** The result of `parseFloat` on the value field, in cents. */
  datatype Number = NaN | Num(cents: int)

  predicate ValidValue(v: Number) {
    v.Num? && v.cents > 0
  }

  /** `registerFreightForDriver`: validates the value, then appends an ordinary
      entry and re-sorts the ledger by date. */
  function RegisterFreight(ds: seq<Driver>, id: int, value: Number, freightId: int, now: int): (o: Outcome)
    ensures !ValidValue(value) ==> o == Refused(InvalidValue)
    ensures ValidValue(value) && FindDriver(ds, id).None? ==> o == Refused(UnknownDriver)
    ensures o.Applied? <==> ValidValue(value) && FindDriver(ds, id).Some?
    ensures o.Applied? ==>
      var i := FindDriver(ds, id).value;
      var r := o.drivers;
      var f := Freight(freightId, value.cents, now, Ordinary);
      && |r| == |ds|
      && (forall j :: 0 <= j < |ds| && j != i ==> r[j] == ds[j])
      && r[i].id == id && r[i].name == ds[i].name && r[i].isPaused == ds[i].isPaused
      && multiset(r[i].freights) == multiset(ds[i].freights) + multiset{f}
      && DateSorted(r[i].freights)
      && Total(r[i].freights) == Total(ds[i].freights) + value.cents
      && RealTotal(r[i].freights) == RealTotal(ds[i].freights) + value.cents
  {
    if value.NaN? || value.cents <= 0 then Refused(InvalidValue)
    else match FindDriver(ds, id)
      case None => Refused(UnknownDriver)
      case Some(i) =>
        var d := ds[i];
        var f := Freight(freightId, value.cents, now, Ordinary);
        var fs := SortByDate(d.freights + [f]);
        TotalAppend(d.freights, f);
        SumOfPermutation(fs, d.freights + [f], Amount);
        SumOfPermutation(fs, d.freights + [f], RealAmount);
        Applied(Replace(ds, i, d.(freights := fs)))
  }

  // ---------------------------------------------------------------------
  // removeFreight
  // ---------------------------------------------------------------------

  lemma {:induction false} RemoveEntriesSpec(fs: seq<Freight>, id: int)
    ensures forall f :: f in RemoveEntries(fs, id) <==> f in fs && f.id != id
  {
    forall f {
      RemoveEntriesMembers(fs, id, f);
    }
  }

  /** `removeFreight`: after confirmation, drops every entry with the id from
      the driver's ledger. */
  function RemoveFreight(ds: seq<Driver>, id: int, freightId: int, confirmed: bool): (o: Outcome)
    ensures FindDriver(ds, id).None? ==> o == Refused(UnknownDriver)
    ensures o.Applied? <==>
      FindDriver(ds, id).Some? && FindEntry(ds[FindDriver(ds, id).value].freights, freightId).Some? && confirmed
    ensures o.Refused? && FindDriver(ds, id).Some? ==>
      o.failure == if FindEntry(ds[FindDriver(ds, id).value].freights, freightId).None? then UnknownFreight else Cancelled
    ensures o.Applied? ==>
      var i := FindDriver(ds, id).value;
      var r := o.drivers;
      && |r| == |ds|
      && (forall j :: 0 <= j < |ds| && j != i ==> r[j] == ds[j])
      && r[i].id == id && r[i].name == ds[i].name && r[i].isPaused == ds[i].isPaused
      && (forall f :: f in r[i].freights <==> f in ds[i].freights && f.id != freightId)
      && r[i].freights == RemoveEntries(ds[i].freights, freightId)
  {
    match FindDriver(ds, id)
    case None => Refused(UnknownDriver)
    case Some(i) =>
      var d := ds[i];
      if FindEntry(d.freights, freightId).None? then Refused(UnknownFreight)
      else if !confirmed then Refused(Cancelled)
      else
        RemoveEntriesSpec(d.freights, freightId);
        Applied(Replace(ds, i, d.(freights := RemoveEntries(d.freights, freightId))))
  }

  /** Where registering lands: the driver's ledger becomes the date sort of
      the ledger with the new entry appended. */
  lemma {:induction false} RegisterFreightAt(ds: seq<Driver>, id: int, value: Number, freightId: int, now: int)
    requires RegisterFreight(ds, id, value, freightId, now).Applied?
    ensures var i := FindDriver(ds, id).value;
      RegisterFreight(ds, id, value, freightId, now).drivers
        == Replace(ds, i, ds[i].(freights := SortByDate(ds[i].freights + [Freight(freightId, value.cents, now, Ordinary)])))
  {
  }

  /** Where a confirmed removal lands: the driver's ledger is filtered. */
  lemma {:induction false} RemoveFreightAt(ds: seq<Driver>, id: int, freightId: int, i: nat)
    requires FindDriver(ds, id) == Some(i)
    requires FindEntry(ds[i].freights, freightId).Some?
    ensures RemoveFreight(ds, id, freightId, true)
      == Applied(Replace(ds, i, ds[i].(freights := RemoveEntries(ds[i].freights, freightId))))
  {
  }

  /** Replacing a driver by one with the same id leaves every id lookup as it
      was. */
  lemma {:induction false} FindDriverReplaceSameId(ds: seq<Driver>, i: nat, d: Driver, id: int)
    requires i < |ds| && d.id == ds[i].id
    ensures FindDriver(Replace(ds, i, d), id) == FindDriver(ds, id)
  {
    FindDriverSameIds(ds, Replace(ds, i, d), id);
  }

  /** Putting the old driver back undoes a replacement. */
  lemma {:induction false} ReplaceBack(ds: seq<Driver>, i: nat, d: Driver)
    requires i < |ds|
    ensures Replace(Replace(ds, i, d), i, ds[i]) == ds
  {
  }

  /** The id lookup only sees ids. */
  lemma {:induction false} FindDriverSameIds(a: seq<Driver>, b: seq<Driver>, id: int)
    requires |a| == |b|
    requires forall j :: 0 <= j < |a| ==> a[j].id == b[j].id
    ensures FindDriver(a, id) == FindDriver(b, id)
  {
    FindFirstAgree(a, (d: Driver) => d.id == id, b, (d: Driver) => d.id == id);
  }

  // ---------------------------------------------------------------------
  // saveFreightEdit
  // ---------------------------------------------------------------------

  /** `saveFreightEdit`: sets the value of the driver's first entry with the id.
      The value is not validated and penalty entries are not refused. */
  function SaveFreightEdit(ds: seq<Driver>, id: int, freightId: int, newValue: int): (o: Outcome)
    ensures FindDriver(ds, id).None? ==> o == Refused(UnknownDriver)
    ensures o.Applied? <==>
      FindDriver(ds, id).Some? && FindEntry(ds[FindDriver(ds, id).value].freights, freightId).Some?
    ensures o.Refused? && FindDriver(ds, id).Some? ==> o.failure == UnknownFreight
    ensures o.Applied? ==>
      var i := FindDriver(ds, id).value;
      var k := FindEntry(ds[i].freights, freightId).value;
      var r := o.drivers;
      var fs := ds[i].freights;
      && |r| == |ds|
      && (forall j :: 0 <= j < |ds| && j != i ==> r[j] == ds[j])
      && r[i].id == id && r[i].name == ds[i].name && r[i].isPaused == ds[i].isPaused
      && |r[i].freights| == |fs|
      && (forall j :: 0 <= j < |fs| ==>
            r[i].freights[j].id == fs[j].id && r[i].freights[j].date == fs[j].date
            && r[i].freights[j].kind == fs[j].kind)
      && (forall j :: 0 <= j < |fs| && j != k ==> r[i].freights[j] == fs[j])
      && r[i].freights[k].value == newValue
      && Total(r[i].freights) == Total(fs) - fs[k].value + newValue
  {
    match FindDriver(ds, id)
    case None => Refused(UnknownDriver)
    case Some(i) =>
      var d := ds[i];
      match FindEntry(d.freights, freightId)
      case None => Refused(UnknownFreight)
      case Some(k) =>
        WithValueTotal(d.freights, k, newValue);
        Applied(Replace(ds, i, d.(freights := WithValue(d.freights, k, newValue))))
  }

  /** The history shows an edit button only on entries that are not penalties;
      nothing else stops a penalty from being edited. */
  predicate EditButtonShown(f: Freight) {
    f.kind != Penalty
  }

  /** Where an edit lands: the value of entry k of driver i is set. */
  lemma {:induction false} SaveFreightEditAt(ds: seq<Driver>, id: int, freightId: int, newValue: int, i: nat, k: nat)
    requires FindDriver(ds, id) == Some(i)
    requires FindEntry(ds[i].freights, freightId) == Some(k)
    ensures SaveFreightEdit(ds, id, freightId, newValue)
      == Applied(Replace(ds, i, ds[i].(freights := WithValue(ds[i].freights, k, newValue))))
  {
  }

  lemma {:induction false} FindEntrySameIds(a: seq<Freight>, b: seq<Freight>, id: int)
    requires |a| == |b|
    requires forall j :: 0 <= j < |a| ==> a[j].id == b[j].id
    ensures FindEntry(a, id) == FindEntry(b, id)
  {
    FindFirstAgree(a, (f: Freight) => f.id == id, b, (f: Freight) => f.id == id);
  }

  // ---------------------------------------------------------------------
  // resetQuinzena
  // ---------------------------------------------------------------------

  /** `resetQuinzena`: after confirmation, empties every ledger. */
  function ResetQuinzena(ds: seq<Driver>, confirmed: bool): (o: Outcome)
    ensures o.Applied? <==> confirmed
    ensures !confirmed ==> o == Refused(Cancelled)
    ensures o.Applied? ==>
      var r := o.drivers;
      && |r| == |ds|
      && forall i :: 0 <= i < |ds| ==>
           && r[i].id == ds[i].id && r[i].name == ds[i].name && r[i].isPaused == ds[i].isPaused
           && |r[i].freights| == 0 && Total(r[i].freights) == 0
  {
    if !confirmed then Refused(Cancelled)
    else Applied(seq(|ds|, i requires 0 <= i < |ds| => ds[i].(freights := [])))
  }

  // ---------------------------------------------------------------------
  // addDriver / removeDriver / togglePauseDriver
  // ---------------------------------------------------------------------

  /** Some driver's lower-cased name equals the lower-cased candidate. */
  predicate NameTaken(ds: seq<Driver>, name: string) {
    exists j :: 0 <= j < |ds| && ToLower(ds[j].name) == ToLower(name)
  }

  /** `addDriver` as written: the blank check trims, but the duplicate check
      compares the untrimmed input while the trimmed name is stored. */
  function AddDriver(ds: seq<Driver>, name: string, newId: int): (o: Outcome)
    ensures AllSpace(name) ==> o == Refused(BlankName)
    ensures !AllSpace(name) && NameTaken(ds, name) ==> o == Refused(DuplicateName)
    ensures o.Applied? <==> !AllSpace(name) && !NameTaken(ds, name)
    ensures o.Applied? ==>
      var r := o.drivers;
      && |r| == |ds| + 1 && r[..|ds|] == ds
      && r[|ds|].id == newId && r[|ds|].name == Trim(name)
      && r[|ds|].freights == [] && !r[|ds|].isPaused
      && |r[|ds|].name| > 0 && !IsSpace(r[|ds|].name[0]) && !IsSpace(r[|ds|].name[|r[|ds|].name| - 1])
  {
    TrimEmptyIffBlank(name);
    if Trim(name) == "" then Refused(BlankName)
    else if NameTaken(ds, name) then Refused(DuplicateName)
    else
      var r := ds + [Driver(newId, Trim(name), [], false)];
      assert r[..|ds|] == ds;
      Applied(r)
  }

  /** No two drivers share a name up to case. */
  ghost predicate UniqueNames(ds: seq<Driver>) {
    forall i, j :: 0 <= i < j < |ds| ==> ToLower(ds[i].name) != ToLower(ds[j].name)
  }

  /** The duplicate check as intended: the name that will be stored is the one
      compared. */
  function AddDriverChecked(ds: seq<Driver>, name: string, newId: int): (o: Outcome)
    ensures AllSpace(name) ==> o == Refused(BlankName)
    ensures o.Applied? <==> !AllSpace(name) && !NameTaken(ds, Trim(name))
    ensures o.Applied? ==> o.drivers == ds + [Driver(newId, Trim(name), [], false)]
    ensures o.Applied? && UniqueNames(ds) ==> UniqueNames(o.drivers)
  {
    TrimEmptyIffBlank(name);
    if Trim(name) == "" then Refused(BlankName)
    else if NameTaken(ds, Trim(name)) then Refused(DuplicateName)
    else Applied(ds + [Driver(newId, Trim(name), [], false)])
  }

  /** The correction only matters for input with surrounding white space. */
  lemma {:induction false} AddDriverAgreesOnTrimmed(ds: seq<Driver>, name: string, newId: int)
    requires Trim(name) == name
    ensures AddDriverChecked(ds, name, newId) == AddDriver(ds, name, newId)
  {
  }

  /** The source's check lets a name with surrounding spaces through when the
      trimmed name is already taken: "Ana " beside "Ana" yields two "Ana"s. */
  lemma {:induction false} AddDriverAdmitsDuplicate()
    ensures var ds := [Driver(1, "Ana", [], false)];
      && UniqueNames(ds)
      && AddDriver(ds, "Ana ", 2).Applied?
      && !UniqueNames(AddDriver(ds, "Ana ", 2).drivers)
  {
    var ds := [Driver(1, "Ana", [], false)];
    SpacedName();
    assert !NameTaken(ds, "Ana ");
    var r := AddDriver(ds, "Ana ", 2).drivers;
    assert r[1].name == "Ana";
    assert ToLower(r[0].name) == ToLower(r[1].name);
  }

  /** The input of the example: not blank, trims to "Ana", and differs from
      "Ana" up to case. */
  lemma {:induction false} SpacedName()
    ensures !AllSpace("Ana ") && Trim("Ana ") == "Ana"
    ensures ToLower("Ana") != ToLower("Ana ")
  {
    assert TrimStart("Ana ") == "Ana ";
    assert "Ana "[..3] == "Ana";
    assert TrimEnd("Ana ") == "Ana";
    assert !IsSpace("Ana "[0]);
    assert |ToLower("Ana")| != |ToLower("Ana ")|;
  }

  /** `drivers.filter(d => d.id !== id)`. */
  function RemoveDrivers(ds: seq<Driver>, id: int): (r: seq<Driver>)
    ensures |r| <= |ds|
  {
    Filter(ds, (d: Driver) => d.id != id)
  }

  /** Exactly the drivers with another id survive, in their order. */
  lemma {:induction false} RemoveDriversKeeps(ds: seq<Driver>, id: int, d: Driver)
    ensures d in RemoveDrivers(ds, id) <==> d in ds && d.id != id
  {
    FilterMembers(ds, (d: Driver) => d.id != id, d);
  }

  lemma {:induction false} RemoveAbsentDriver(ds: seq<Driver>, id: int)
    requires forall j :: 0 <= j < |ds| ==> ds[j].id != id
    ensures RemoveDrivers(ds, id) == ds
  {
    FilterAll(ds, (d: Driver) => d.id != id);
  }

  /** `removeDriver`: after confirmation, drops every driver with the id. */
  function RemoveDriver(ds: seq<Driver>, id: int, confirmed: bool): (o: Outcome)
    ensures o.Applied? <==> FindDriver(ds, id).Some? && confirmed
    ensures o.Refused? ==> o.failure == if FindDriver(ds, id).None? then UnknownDriver else Cancelled
    ensures o.Applied? ==> |o.drivers| < |ds|
    ensures o.Applied? ==> forall d :: d in o.drivers <==> d in ds && d.id != id
    ensures o.Applied? ==> o.drivers == RemoveDrivers(ds, id)
  {
    match FindDriver(ds, id)
    case None => Refused(UnknownDriver)
    case Some(i) =>
      if !confirmed then Refused(Cancelled)
      else
        var r := RemoveDrivers(ds, id);
        forall d {
          RemoveDriversKeeps(ds, id, d);
        }
        RemoveDriversShorter(ds, id, i);
        Applied(r)
  }

  lemma {:induction false} RemoveDriversShorter(ds: seq<Driver>, id: int, i: nat)
    requires i < |ds| && ds[i].id == id
    ensures |RemoveDrivers(ds, id)| < |ds|
  {
    FilterShorter(ds, (d: Driver) => d.id != id, i);
  }

  /** `togglePauseDriver`: flips the flag of the first driver with the id. */
  function TogglePause(ds: seq<Driver>, id: int): (o: Outcome)
    ensures o.Applied? <==> FindDriver(ds, id).Some?
    ensures o.Refused? ==> o.failure == UnknownDriver
    ensures o.Applied? ==>
      var i := FindDriver(ds, id).value;
      var r := o.drivers;
      && |r| == |ds|
      && (forall j :: 0 <= j < |ds| && j != i ==> r[j] == ds[j])
      && r[i].isPaused != ds[i].isPaused
      && r[i] == ds[i].(isPaused := r[i].isPaused)
  {
    match FindDriver(ds, id)
    case None => Refused(UnknownDriver)
    case Some(i) => Applied(Replace(ds, i, ds[i].(isPaused := !ds[i].isPaused)))
  }

  // ---------------------------------------------------------------------
  // Undoing an operation on the held, re-sorted collection
  // ---------------------------------------------------------------------

  /** No two drivers share an id, as ids taken from `Date.now()` normally
      differ. */
  ghost predicate UniqueIds(ds: seq<Driver>) {
    forall a, b :: 0 <= a < b < |ds| ==> ds[a].id != ds[b].id
  }

  /** No other driver compares equal to driver i. */
  ghost predicate Untied(ds: seq<Driver>, i: nat)
    requires i < |ds|
  {
    forall m :: 0 <= m < |ds| && m != i ==> QueueKey(ds[m]) != QueueKey(ds[i])
  }

  /** Where a driver that was changed to e and re-sorted stands: the id lookup
      finds e. */
  lemma {:induction false} FindChanged(ds: seq<Driver>, i: nat, e: Driver, id: int) returns (j: nat)
    requires UniqueIds(ds) && FindDriver(ds, id) == Some(i) && e.id == id
    ensures var t := SortDrivers(Replace(ds, i, e));
      FindDriver(t, id) == Some(j) && t[j] == e
  {
    var r := Replace(ds, i, e);
    var t := SortDrivers(r);
    assert e in multiset(r);
    assert e in multiset(t);
    var m :| 0 <= m < |t| && t[m] == e;
    j := FindDriver(t, id).value;
    assert t[j] in multiset(r);
    var n :| 0 <= n < |r| && r[n] == t[j];
    OnlyOneWithId(ds, i);
    assert n == i;
  }

  /** With unique ids, driver i is the only one with its id. */
  lemma {:induction false} OnlyOneWithId(ds: seq<Driver>, i: nat)
    requires UniqueIds(ds) && i < |ds|
    ensures forall m :: 0 <= m < |ds| && m != i ==> ds[m].id != ds[i].id
  {
    forall m | 0 <= m < |ds| && m != i
      ensures ds[m].id != ds[i].id
    {
      if m < i {
        assert ds[m].id != ds[i].id;
      } else {
        assert ds[i].id != ds[m].id;
      }
    }
  }

  /** Change driver i of a held collection to e with another queue key, let
      the sort run, and change the driver back by id: after the next sort the
      driver has rejoined its tied peers, behind them when the change had
      raised its key and in front of them when it had lowered it. */
  lemma {:induction false} ChangedBackInQueue(ds: seq<Driver>, i: nat, e: Driver, id: int) returns (j: nat)
    requires QueueOrdered(ds) && UniqueIds(ds)
    requires FindDriver(ds, id) == Some(i) && e.id == id && QueueKey(e) != QueueKey(ds[i])
    ensures var t := SortDrivers(Replace(ds, i, e));
      && FindDriver(t, id) == Some(j) && t[j] == e
      && SortDrivers(Replace(t, j, ds[i])) == SortDrivers(Rejoined(ds, i, KeyLe(QueueKey(ds[i]), QueueKey(e))))
  {
    j := FindChanged(ds, i, e, id);
    var t := SortDrivers(Replace(ds, i, e));
    QueueOrderedIsSorted(ds);
    forall m | 0 <= m < i
      ensures ds[..i][m] != e
    {
      assert ds[..i][m] == ds[m];
    }
    forall m | 0 <= m < j
      ensures t[..j][m] != e
    {
      assert t[..j][m] == t[m];
    }
    ChangedBack(ds, i, e, t, j, QueueKey);
  }

  /** An untied driver rejoins at its old place. */
  lemma {:induction false} RejoinedUntied(ds: seq<Driver>, i: nat, raised: bool)
    requires QueueOrdered(ds) && i < |ds| && Untied(ds, i)
    ensures SortDrivers(Rejoined(ds, i, raised)) == ds
  {
    QueueOrderedIsSorted(ds);
    RejoinedWithoutPeer(ds, i, raised, QueueKey);
  }

  /** Toggling a driver's pause twice, with the sort `render()` runs after each
      toggle: an active driver rejoins behind the drivers it ties with, a
      paused one in front of them, and an untied driver gets its place back. */
  lemma {:induction false} ToggleTwice(ds: seq<Driver>, id: int)
    requires QueueOrdered(ds) && UniqueIds(ds)
    requires TogglePause(ds, id).Applied?
    ensures var i := FindDriver(ds, id).value;
      var once := Held(ds, TogglePause(ds, id));
      var twice := Held(once, TogglePause(once, id));
      && twice == SortDrivers(Rejoined(ds, i, !ds[i].isPaused))
      && (Untied(ds, i) ==> twice == ds)
  {
    var i := FindDriver(ds, id).value;
    var d := ds[i];
    var e := d.(isPaused := !d.isPaused);
    var j := ChangedBackInQueue(ds, i, e, id);
    var t := SortDrivers(Replace(ds, i, e));
    assert e.(isPaused := !e.isPaused) == d;
    KeyLeTriple(if d.isPaused then 1 else 0, Total(d.freights), LastDate(d.freights),
                if e.isPaused then 1 else 0, Total(e.freights), LastDate(e.freights));
    if Untied(ds, i) {
      RejoinedUntied(ds, i, !d.isPaused);
    }
  }

  /** Two active drivers with empty ledgers tie: toggling the first one twice
      puts it behind the second. */
  lemma {:induction false} ToggleTwiceSwapsTie()
    ensures var ana := Driver(1, "Ana", [], false);
      var bia := Driver(2, "Bia", [], false);
      var once := Held([ana, bia], TogglePause([ana, bia], 1));
      Held(once, TogglePause(once, 1)) == [bia, ana]
  {
    TieFirstToggle();
    TieSecondToggle();
  }

  /** The first toggle of ToggleTwiceSwapsTie: the paused driver sorts last. */
  lemma {:induction false} TieFirstToggle()
    ensures var ana := Driver(1, "Ana", [], false);
      var bia := Driver(2, "Bia", [], false);
      Held([ana, bia], TogglePause([ana, bia], 1)) == [bia, ana.(isPaused := true)]
  {
    var ana := Driver(1, "Ana", [], false);
    var bia := Driver(2, "Bia", [], false);
    var paused := ana.(isPaused := true);
    assert FindDriver([ana, bia], 1) == Some(0);
    assert TogglePause([ana, bia], 1) == Applied([paused, bia]);
    assert QueueKey(paused) == [1, 0, 0] && QueueKey(bia) == [0, 0, 0];
    KeyLeTriple(1, 0, 0, 0, 0, 0);
    SortTwo(paused, bia, QueueKey);
  }

  /** The second toggle of ToggleTwiceSwapsTie: the two active drivers tie, so
      they stay in the order the first sort left. */
  lemma {:induction false} TieSecondToggle()
    ensures var ana := Driver(1, "Ana", [], false);
      var bia := Driver(2, "Bia", [], false);
      var paused := ana.(isPaused := true);
      Held([bia, paused], TogglePause([bia, paused], 1)) == [bia, ana]
  {
    var ana := Driver(1, "Ana", [], false);
    var bia := Driver(2, "Bia", [], false);
    var paused := ana.(isPaused := true);
    assert [bia, paused][0].id != 1 && [bia, paused][1].id == 1;
    assert FindDriver([bia, paused], 1) == Some(1);
    assert TogglePause([bia, paused], 1) == Applied([bia, ana]);
    assert QueueKey(ana) == [0, 0, 0] && QueueKey(bia) == [0, 0, 0];
    KeyLeReflexive([0, 0, 0]);
    SortTwo(bia, ana, QueueKey);
  }

  /** Registering a freight under a fresh id and removing it again, with the
      sorts in between: the driver's total went up, so it rejoins behind the
      drivers it ties with; an untied driver gets its place back. */
  lemma {:induction false} RegisterThenRemove(ds: seq<Driver>, id: int, value: Number, freightId: int, now: int)
    requires QueueOrdered(ds) && UniqueIds(ds)
    requires RegisterFreight(ds, id, value, freightId, now).Applied?
    requires DateSorted(ds[FindDriver(ds, id).value].freights)
    requires FindEntry(ds[FindDriver(ds, id).value].freights, freightId).None?
    ensures var i := FindDriver(ds, id).value;
      var once := Held(ds, RegisterFreight(ds, id, value, freightId, now));
      var twice := Held(once, RemoveFreight(once, id, freightId, true));
      && twice == SortDrivers(Rejoined(ds, i, true))
      && (Untied(ds, i) ==> twice == ds)
  {
    var i := FindDriver(ds, id).value;
    var d := ds[i];
    var f := Freight(freightId, value.cents, now, Ordinary);
    var e := d.(freights := SortByDate(d.freights + [f]));
    RegisterFreightAt(ds, id, value, freightId, now);
    RegisterRaisesKey(ds, id, value, freightId, now);
    var j := ChangedBackInQueue(ds, i, e, id);
    var t := SortDrivers(Replace(ds, i, e));
    FindEntryOfSorted(d.freights, f);
    RemoveFreightAt(t, id, freightId, j);
    RegisterRemoveEntry(d.freights, f);
    assert e.(freights := RemoveEntries(e.freights, freightId)) == d;
    if Untied(ds, i) {
      RejoinedUntied(ds, i, true);
    }
  }

  /** Registering raises the driver's queue key strictly. */
  lemma {:induction false} RegisterRaisesKey(ds: seq<Driver>, id: int, value: Number, freightId: int, now: int)
    requires RegisterFreight(ds, id, value, freightId, now).Applied?
    ensures var i := FindDriver(ds, id).value;
      var e := RegisterFreight(ds, id, value, freightId, now).drivers[i];
      KeyLe(QueueKey(ds[i]), QueueKey(e)) && QueueKey(e) != QueueKey(ds[i])
  {
    var i := FindDriver(ds, id).value;
    var d := ds[i];
    var e := RegisterFreight(ds, id, value, freightId, now).drivers[i];
    KeyLeTriple(if d.isPaused then 1 else 0, Total(d.freights), LastDate(d.freights),
                if e.isPaused then 1 else 0, Total(e.freights), LastDate(e.freights));
    assert QueueKey(e)[1] != QueueKey(d)[1];
  }

  /** Editing an entry and editing it back to its previous value, with the
      sorts in between: a raised value makes the driver rejoin behind the
      drivers it ties with, a lowered one in front of them, an unchanged one
      changes nothing, and an untied driver gets its place back. */
  lemma {:induction false} EditIsUndone(ds: seq<Driver>, id: int, freightId: int, newValue: int)
    requires QueueOrdered(ds) && UniqueIds(ds)
    requires SaveFreightEdit(ds, id, freightId, newValue).Applied?
    ensures var i := FindDriver(ds, id).value;
      var previous := ds[i].freights[FindEntry(ds[i].freights, freightId).value].value;
      var once := Held(ds, SaveFreightEdit(ds, id, freightId, newValue));
      var twice := Held(once, SaveFreightEdit(once, id, freightId, previous));
      && twice == (if newValue == previous then ds else SortDrivers(Rejoined(ds, i, newValue > previous)))
      && (Untied(ds, i) ==> twice == ds)
  {
    var i := FindDriver(ds, id).value;
    var d := ds[i];
    var fs := d.freights;
    var k := FindEntry(fs, freightId).value;
    var e := d.(freights := WithValue(fs, k, newValue));
    SaveFreightEditAt(ds, id, freightId, newValue, i, k);
    if newValue == fs[k].value {
      EditSameValue(ds, i, k, newValue);
      SortDriversFixesOrdered(ds);
      SaveFreightEditAt(ds, id, freightId, newValue, i, k);
    } else {
      EditMovesKey(d, k, newValue);
      var j := ChangedBackInQueue(ds, i, e, id);
      var t := SortDrivers(Replace(ds, i, e));
      FindEntrySameIds(fs, e.freights, freightId);
      SaveFreightEditAt(t, id, freightId, fs[k].value, j, k);
      WithValueBack(fs, k, newValue);
      assert e.(freights := WithValue(e.freights, k, fs[k].value)) == d;
      if Untied(ds, i) {
        RejoinedUntied(ds, i, newValue > fs[k].value);
      }
    }
  }

  /** Setting an entry to the value it has changes nothing. */
  lemma {:induction false} EditSameValue(ds: seq<Driver>, i: nat, k: nat, v: int)
    requires i < |ds| && k < |ds[i].freights| && ds[i].freights[k].value == v
    ensures Replace(ds, i, ds[i].(freights := WithValue(ds[i].freights, k, v))) == ds
  {
    assert WithValue(ds[i].freights, k, v) == ds[i].freights;
  }

  /** A changed value moves the queue key: up when it grows, down when it
      shrinks. */
  lemma {:induction false} EditMovesKey(d: Driver, k: nat, v: int)
    requires k < |d.freights| && v != d.freights[k].value
    ensures var e := d.(freights := WithValue(d.freights, k, v));
      && QueueKey(e) != QueueKey(d)
      && (KeyLe(QueueKey(d), QueueKey(e)) <==> v > d.freights[k].value)
  {
    var e := d.(freights := WithValue(d.freights, k, v));
    WithValueTotal(d.freights, k, v);
    assert LastDate(e.freights) == LastDate(d.freights);
    KeyLeTriple(if d.isPaused then 1 else 0, Total(d.freights), LastDate(d.freights),
                if e.isPaused then 1 else 0, Total(e.freights), LastDate(e.freights));
    assert QueueKey(e)[1] != QueueKey(d)[1];
  }

  /** Adding a driver under a fresh id and removing that id, with the sorts in
      between, gives the held collection back. */
  lemma {:induction false} AddThenRemove(ds: seq<Driver>, name: string, newId: int)
    requires QueueOrdered(ds)
    requires AddDriverChecked(ds, name, newId).Applied?
    requires forall j :: 0 <= j < |ds| ==> ds[j].id != newId
    ensures var once := Held(ds, AddDriverChecked(ds, name, newId));
      Held(once, RemoveDriver(once, newId, true)) == ds
  {
    var n := Driver(newId, Trim(name), [], false);
    QueueOrderedIsSorted(ds);
    SortSnocOfSorted(ds, n, QueueKey);
    var once := Insert(ds, n, QueueKey);
    assert n in multiset(once);
    var m :| 0 <= m < |once| && once[m] == n;
    assert FindDriver(once, newId).Some?;
    FilterInsertDropped(ds, n, QueueKey, (d: Driver) => d.id != newId);
    RemoveAbsentDriver(ds, newId);
    SortDriversFixesOrdered(ds);
  }
}
