/** The drivers' read-only position lookup (motorista.js): it re-sorts the
    stored collection with its own comparator, which has no pause criterion,
    and reports the rank of the driver whose name matches. */
module Lookup {
  import opened Optional
  import opened StableSort
  import opened Ledger
  import opened Text
  import opened Queue
  import opened Search

  /** The lookup comparator's criteria: total, then the last entry's date. */
  function LookupKey(d: Driver): seq<int> {
    [Total(d.freights), LastDate(d.freights)]
  }

  /** motorista.js `sortDrivers`: a stable sort by total and last-entry date;
      paused drivers are ranked like everyone else. */
  function SortForLookup(ds: seq<Driver>): (r: seq<Driver>)
    ensures multiset(r) == multiset(ds)
    ensures forall i, j :: 0 <= i < j < |r| ==>
      || Total(r[i].freights) < Total(r[j].freights)
      || (Total(r[i].freights) == Total(r[j].freights) && LastDate(r[i].freights) <= LastDate(r[j].freights))
  {
    var r := SortBy(ds, LookupKey);
    forall i, j | 0 <= i < j < |r|
      ensures || Total(r[i].freights) < Total(r[j].freights)
              || (Total(r[i].freights) == Total(r[j].freights) && LastDate(r[i].freights) <= LastDate(r[j].freights))
    {
      KeyLePair(Total(r[i].freights), LastDate(r[i].freights), Total(r[j].freights), LastDate(r[j].freights));
    }
    r
  }

  /** When every driver has the same pause flag the two comparators agree, so
      the lookup's rank is the rank in the main table. */
  lemma {:induction false} LookupOrderIsQueueOrder(ds: seq<Driver>)
    requires forall i, j :: 0 <= i < |ds| && 0 <= j < |ds| ==> ds[i].isPaused == ds[j].isPaused
    ensures SortForLookup(ds) == SortDrivers(ds)
  {
    forall x, y | x in ds && y in ds
      ensures KeyLe(LookupKey(x), LookupKey(y)) <==> KeyLe(QueueKey(x), QueueKey(y))
    {
      var c := if x.isPaused then 1 else 0;
      assert QueueKey(x) == [c] + LookupKey(x);
      assert QueueKey(y) == [c] + LookupKey(y);
      KeyLeCommonHead(c, LookupKey(x), LookupKey(y));
    }
    SortBySameOrder(ds, LookupKey, QueueKey);
  }

  /** The colour of the position: first, top three, or further back. */
  datatype PositionClass = Success | Info | Warning

  /** `positionClass` starts as info and is overridden for the first
      position and for positions past the third. */
  function ClassFor(position: nat): (c: PositionClass)
    ensures c == Success <==> position == 1
    ensures c == Warning <==> position > 3
    ensures c == Info <==> position == 0 || position == 2 || position == 3
  {
    if position == 1 then Success else if position > 3 then Warning else Info
  }

  /** What the lookup shows: an error for a blank name, an error when nothing
      is stored, an error when no name matches, or the driver's name and
      position, the name at the head of the queue and the position's class. */
  datatype LookupResult =
    | BlankInput
    | NoData
    | NotFound
    | Found(name: string, position: nat, next: string, cls: PositionClass)

  /** `findIndex` by lower-cased name: the first driver whose lower-cased
      name equals key. */
  function FindByName(ds: seq<Driver>, key: string): (r: Option<nat>)
    ensures r.Some? ==> r.value < |ds| && ToLower(ds[r.value].name) == key
    ensures r.Some? ==> forall j :: 0 <= j < r.value ==> ToLower(ds[j].name) != key
    ensures r.None? <==> forall j :: 0 <= j < |ds| ==> ToLower(ds[j].name) != key
  {
    FindFirst(ds, (d: Driver) => ToLower(d.name) == key)
  }

  /** `findPosition`: the input is trimmed and lower-cased; `stored` is the
      decoded collection, None when nothing is stored. */
  function FindPosition(input: string, stored: Option<seq<Driver>>): (r: LookupResult)
    ensures r == BlankInput <==> AllSpace(input)
    ensures r == NoData <==> !AllSpace(input) && stored.None?
    ensures r == NotFound <==>
      (!AllSpace(input) && stored.Some?
       && forall d :: d in stored.value ==> ToLower(d.name) != ToLower(Trim(input)))
    ensures r.Found? ==>
      var sorted := SortForLookup(stored.value);
      && 1 <= r.position <= |sorted|
      && r.name == sorted[r.position - 1].name
      && ToLower(r.name) == ToLower(Trim(input))
      && (forall j :: 0 <= j < r.position - 1 ==> ToLower(sorted[j].name) != ToLower(Trim(input)))
      && r.next == sorted[0].name
      && r.cls == ClassFor(r.position)
  {
    TrimEmptyIffBlank(input);
    var key := ToLower(Trim(input));
    if key == "" then
      BlankInput
    else if stored.None? then
      NoData
    else
      var sorted := SortForLookup(stored.value);
      SameElements(stored.value, sorted);
      match FindByName(sorted, key)
      case None =>
        NotFound
      case Some(i) =>
        var position := i + 1;
        var next := if |sorted| > 0 then sorted[0].name else "Ningu\U{E9}m";
        Found(sorted[i].name, position, next, ClassFor(position))
  }

  /** The head of the queue asking sees their own name as the next driver, in
      the success colour. */
  lemma {:induction false} FirstIsNext(input: string, stored: Option<seq<Driver>>)
    requires FindPosition(input, stored).Found?
    requires FindPosition(input, stored).position == 1
    ensures FindPosition(input, stored).next == FindPosition(input, stored).name
    ensures FindPosition(input, stored).cls == Success
  {
  }

  /** The lookup does not skip paused drivers: a paused driver with the
      smaller total heads the lookup's order, while the main table puts that
      driver last. */
  lemma {:induction false} PausedDriverLeadsLookup()
    ensures var ana := Driver(1, "Ana", [], true);
      var bia := Driver(2, "Bia", [Freight(10, 100, 5, Ordinary)], false);
      && SortDrivers([ana, bia]) == [bia, ana]
      && SortForLookup([ana, bia]) == [ana, bia]
  {
    var ana := Driver(1, "Ana", [], true);
    var bia := Driver(2, "Bia", [Freight(10, 100, 5, Ordinary)], false);
    SumOfSingle(Freight(10, 100, 5, Ordinary), Amount);
    assert QueueKey(ana) == [1, 0, 0] && QueueKey(bia) == [0, 100, 5];
    KeyLeTriple(1, 0, 0, 0, 100, 5);
    SortTwo(ana, bia, QueueKey);
    assert LookupKey(ana) == [0, 0] && LookupKey(bia) == [100, 5];
    KeyLePair(0, 0, 100, 5);
    SortTwo(ana, bia, LookupKey);
  }

  /** The names in the example: "bia" is a non-blank key that matches "Bia"
      and not "Ana". */
  lemma {:induction false} ExampleNames()
    ensures !AllSpace("bia") && ToLower(Trim("bia")) == "bia"
    ensures ToLower("Bia") == "bia" && ToLower("Ana") != "bia"
  {
    ExampleKey();
    ExampleLower();
  }

  lemma {:induction false} ExampleLower()
    ensures ToLower("bia") == "bia" && ToLower("Bia") == "bia" && ToLower("Ana") != "bia"
  {
    assert ToLower("Ana")[0] == 'a';
  }

  lemma {:induction false} ExampleKey()
    ensures !AllSpace("bia") && Trim("bia") == "bia"
  {
    assert TrimStart("bia") == "bia";
    assert TrimEnd("bia") == "bia";
    assert !IsSpace("bia"[0]);
  }

  /** The lookup's answer for a driver at index i of the lookup order whose
      name is the first to match. */
  lemma {:induction false} FoundAt(input: string, ds: seq<Driver>, i: nat)
    requires !AllSpace(input)
    requires i < |SortForLookup(ds)|
    requires ToLower(SortForLookup(ds)[i].name) == ToLower(Trim(input))
    requires forall j :: 0 <= j < i ==> ToLower(SortForLookup(ds)[j].name) != ToLower(Trim(input))
    ensures FindPosition(input, Some(ds))
      == Found(SortForLookup(ds)[i].name, i + 1, SortForLookup(ds)[0].name, ClassFor(i + 1))
  {
    var sorted := SortForLookup(ds);
    var key := ToLower(Trim(input));
    TrimEmptyIffBlank(input);
    assert key != "";
    FindByNameFirst(sorted, key, i);
  }

  /** The name search answers the first matching index. */
  lemma {:induction false} FindByNameFirst(ds: seq<Driver>, key: string, i: nat)
    requires i < |ds| && ToLower(ds[i].name) == key
    requires forall j :: 0 <= j < i ==> ToLower(ds[j].name) != key
    ensures FindByName(ds, key) == Some(i)
  {
    FindFirstAt(ds, (d: Driver) => ToLower(d.name) == key, i);
  }

  /** So the active driver asking is told a paused driver is next. */
  lemma {:induction false} PausedDriverCanBeNext()
    ensures var ana := Driver(1, "Ana", [], true);
      var bia := Driver(2, "Bia", [Freight(10, 100, 5, Ordinary)], false);
      FindPosition("bia", Some([ana, bia])) == Found("Bia", 2, "Ana", Info)
  {
    var ana := Driver(1, "Ana", [], true);
    var bia := Driver(2, "Bia", [Freight(10, 100, 5, Ordinary)], false);
    PausedDriverLeadsLookup();
    ExampleNames();
    FoundAt("bia", [ana, bia], 1);
  }

  /** A non-blank name is found exactly when some stored driver carries it,
      up to case. */
  lemma {:induction false} FoundIffStored(input: string, ds: seq<Driver>)
    requires !AllSpace(input)
    ensures FindPosition(input, Some(ds)).Found? <==>
      exists d :: d in ds && ToLower(d.name) == ToLower(Trim(input))
  {
  }
}
