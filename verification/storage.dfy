/** The stored form of the driver collection and the migration `loadDrivers`
    applies to it (app.js). Decoding JSON is not modelled: a record arrives
    with the fields it had, each present or absent. */
module Storage {
  import opened Optional
  import opened Ledger
  import opened Queue

  /** A decoded driver record. Records written before the ledger existed have
      no `freights` but carry `accumulatedRevenue` and `lastFreightDate`;
      records written before pausing existed have no `isPaused`. */
  datatype Record = Record(
    id: int,
    name: string,
    freights: Option<seq<Freight>>,
    accumulatedRevenue: Option<int>,
    lastFreightDate: Option<int>,
    isPaused: Option<bool>)

  /** What the storage key holds: nothing (or the empty string), text that does
      not decode to a list of records, or the records. */
  datatype Stored = Missing | Unreadable | Records(records: seq<Record>)

  /** The date a legacy entry carries: the last freight date, or 0 when the
      record has none (the source then stores an undefined date, whose time is
      NaN; see the README). */
  function LegacyDate(r: Record): int {
    if r.lastFreightDate.Some? then r.lastFreightDate.value else 0
  }

  /** The single entry a positive legacy balance becomes, whether or not the
      record has a date: its id and date are the last freight date, it has no
      type, and it holds the whole balance. */
  function LegacyEntry(r: Record): (e: Option<Freight>)
    ensures e.Some? <==> r.accumulatedRevenue.Some? && r.accumulatedRevenue.value > 0
    ensures e.Some? ==> e.value == Freight(LegacyDate(r), r.accumulatedRevenue.value, LegacyDate(r), Untagged)
  {
    match r.accumulatedRevenue
    case Some(acc) =>
      if acc > 0 then Some(Freight(LegacyDate(r), acc, LegacyDate(r), Untagged)) else None
    case None => None
  }

  /** The per-record migration: a missing ledger becomes the legacy entry (or
      stays empty when there was no positive balance), a missing pause flag
      becomes false. */
  function Migrate(r: Record): (d: Driver)
    ensures d.id == r.id && d.name == r.name
    ensures r.freights.Some? ==> d.freights == r.freights.value
    ensures r.freights.None? ==> |d.freights| <= 1
    ensures r.freights.None? && LegacyEntry(r).None? ==> d.freights == []
    ensures d.isPaused <==> r.isPaused == Some(true)
  {
    var fs := match r.freights
      case Some(fs) => fs
      case None => if LegacyEntry(r).Some? then [LegacyEntry(r).value] else [];
    Driver(r.id, r.name, fs, r.isPaused == Some(true))
  }

  /** `loadDrivers`: nothing stored and unreadable storage both give an empty
      collection; otherwise every record is migrated in place. */
  function LoadDrivers(s: Stored): (ds: seq<Driver>)
    ensures s.Records? ==> |ds| == |s.records|
    ensures s.Records? ==> forall i :: 0 <= i < |ds| ==> ds[i] == Migrate(s.records[i])
    ensures !s.Records? ==> ds == []
  {
    match s
    case Records(rs) => seq(|rs|, i requires 0 <= i < |rs| => Migrate(rs[i]))
    case _ => []
  }

  /** `saveDrivers`: a driver is written with every current field present. */
  function ToRecord(d: Driver): Record {
    Record(d.id, d.name, Some(d.freights), None, None, Some(d.isPaused))
  }

  /** Every saved record carries a ledger and a pause flag, so migrating it
      again gives the driver back unchanged. */
  function Save(ds: seq<Driver>): (s: Stored)
    ensures s.Records? && |s.records| == |ds|
    ensures forall i :: 0 <= i < |ds| ==>
      s.records[i].freights.Some? && s.records[i].isPaused.Some? && Migrate(s.records[i]) == ds[i]
  {
    Records(seq(|ds|, i requires 0 <= i < |ds| => ToRecord(ds[i])))
  }

  /** Saving and loading gives the collection back. */
  lemma {:induction false} LoadSaved(ds: seq<Driver>)
    ensures LoadDrivers(Save(ds)) == ds
  {
  }

  /** Migration settles after one load: loading what was saved after a load
      changes nothing more. */
  lemma {:induction false} MigrationSettles(s: Stored)
    ensures LoadDrivers(Save(LoadDrivers(s))) == LoadDrivers(s)
  {
    LoadSaved(LoadDrivers(s));
  }

  /** A migrated legacy driver keeps a positive balance as both sorting and
      real revenue, with or without a date, shows no refusal badge, and is
      tie-broken by the old last freight date. */
  lemma {:induction false} LegacyBalanceKept(r: Record)
    requires r.freights.None?
    ensures var d := Migrate(r);
      var positive := r.accumulatedRevenue.Some? && r.accumulatedRevenue.value > 0;
      var balance := if positive then r.accumulatedRevenue.value else 0;
      && Total(d.freights) == balance
      && RealTotal(d.freights) == balance
      && !LastIsPenalty(d.freights)
      && LastDate(d.freights) == (if positive then LegacyDate(r) else 0)
  {
    var d := Migrate(r);
    if LegacyEntry(r).Some? {
      var e := LegacyEntry(r).value;
      assert d.freights == [e];
      SumOfSingle(e, Amount);
      SumOfSingle(e, RealAmount);
    }
  }

  /** Among migrated legacy drivers the queue keeps the old ranking: smaller
      balance first, and on equal balances the older last freight. */
  lemma {:induction false} LegacyOrderKept(a: Record, b: Record)
    requires a.freights.None? && b.freights.None?
    requires LegacyEntry(a).Some? && LegacyEntry(b).Some?
    requires a.isPaused == b.isPaused
    ensures QueueLe(Migrate(a), Migrate(b)) <==>
      a.accumulatedRevenue.value < b.accumulatedRevenue.value
      || (a.accumulatedRevenue.value == b.accumulatedRevenue.value
          && LegacyDate(a) <= LegacyDate(b))
  {
    LegacyBalanceKept(a);
    LegacyBalanceKept(b);
  }

  /** A legacy balance without a date is kept: the driver is ranked by it. */
  lemma {:induction false} UndatedBalanceKept()
    ensures var r := Record(7, "Caio", None, Some(50000), None, None);
      Total(Migrate(r).freights) == 50000 && LastDate(Migrate(r).freights) == 0
  {
    var r := Record(7, "Caio", None, Some(50000), None, None);
    LegacyBalanceKept(r);
  }
}
