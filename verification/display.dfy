/** What `render` and `generateShareableText` derive from the sorted queue
    (app.js): the rank column, the two revenues, the badges, the history
    order, and the ranking text shared with the drivers. */
module Display {
  import opened Optional
  import opened Ledger
  import opened Text
  import opened Queue
  import opened Week
  import opened StableSort

  // ---------------------------------------------------------------------
  // The table
  // ---------------------------------------------------------------------

  /** One table row: rank (`-` for a paused driver), name, real and sorting
      revenue, the two badges, the seven daily columns and the history. */
  datatype Row = Row(
    rank: Option<nat>,
    name: string,
    realRevenue: int,
    sortingRevenue: int,
    refusedBadge: bool,
    pausedBadge: bool,
    daily: seq<int>,
    history: seq<Freight>)

  /** The ledger newest-first, as the history list shows it. */
  function Reversed(fs: seq<Freight>): (r: seq<Freight>)
    ensures |r| == |fs|
    ensures forall i :: 0 <= i < |fs| ==> r[i] == fs[|fs| - 1 - i]
  {
    seq(|fs|, i requires 0 <= i < |fs| => fs[|fs| - 1 - i])
  }

  /** The row of the driver at queue index `index`: a rank only when active,
      real revenue without the penalties, the refusal badge when the last
      list element is a penalty, seven daily columns that add up to the
      week's real revenue, and the history newest first. */
  function RowOf(d: Driver, index: nat, now: int): (r: Row)
    ensures r.name == d.name && r.pausedBadge == d.isPaused
    ensures r.rank.None? <==> d.isPaused
    ensures r.rank.Some? ==> r.rank.value == index + 1
    ensures r.sortingRevenue == Total(d.freights)
    ensures r.realRevenue + PenaltyTotal(d.freights) == r.sortingRevenue
    ensures r.refusedBadge <==> |d.freights| > 0 && d.freights[|d.freights| - 1].kind == Penalty
    ensures |r.daily| == 7 && SumInts(r.daily) == WeekRevenue(d.freights, now)
    ensures |r.history| == |d.freights|
    ensures |d.freights| > 0 ==> r.history[0] == d.freights[|d.freights| - 1]
  {
    TotalSplits(d.freights);
    DailyRevenuesAddUp(d.freights, now);
    Row(if d.isPaused then None else Some(index + 1),
        d.name,
        RealTotal(d.freights),
        Total(d.freights),
        LastIsPenalty(d.freights),
        d.isPaused,
        DailyRevenues(d.freights, now),
        Reversed(d.freights))
  }

  /** `render`: sorts, then one row per driver in queue order. */
  function Render(ds: seq<Driver>, now: int): (rows: seq<Row>)
    ensures |rows| == |ds|
    ensures forall i :: 0 <= i < |rows| && rows[i].rank.Some? ==> rows[i].rank.value == i + 1
    ensures forall i, j :: 0 <= i < j < |rows| && rows[j].rank.Some? ==> rows[i].rank.Some?
    ensures forall i, j ::
      0 <= i < j < |rows| && rows[i].pausedBadge == rows[j].pausedBadge ==> rows[i].sortingRevenue <= rows[j].sortingRevenue
    ensures forall k :: 0 <= k < |ds| ==> exists i :: 0 <= i < |rows| && rows[i].name == ds[k].name
  {
    var r := SortDrivers(ds);
    RowsOfOrdered(r, now);
    RowsOfNames(r, ds, now);
    RowsOf(r, now)
  }

  /** One row per driver of r, in r's order. */
  function RowsOf(r: seq<Driver>, now: int): (rows: seq<Row>)
    ensures |rows| == |r|
    ensures forall i :: 0 <= i < |r| ==> rows[i] == RowOf(r[i], i, now)
  {
    seq(|r|, i requires 0 <= i < |r| => RowOf(r[i], i, now))
  }

  lemma {:induction false} RowsOfOrdered(r: seq<Driver>, now: int)
    requires QueueOrdered(r)
    ensures var rows := RowsOf(r, now);
      && (forall i :: 0 <= i < |rows| && rows[i].rank.Some? ==> rows[i].rank.value == i + 1)
      && (forall i, j :: 0 <= i < j < |rows| && rows[j].rank.Some? ==> rows[i].rank.Some?)
      && (forall i, j ::
            0 <= i < j < |rows| && rows[i].pausedBadge == rows[j].pausedBadge ==> rows[i].sortingRevenue <= rows[j].sortingRevenue)
  {
    var rows := RowsOf(r, now);
    forall i, j | 0 <= i < j < |rows|
      ensures rows[j].rank.Some? ==> rows[i].rank.Some?
      ensures rows[i].pausedBadge == rows[j].pausedBadge ==> rows[i].sortingRevenue <= rows[j].sortingRevenue
    {
      assert QueueLe(r[i], r[j]);
    }
  }

  lemma {:induction false} RowsOfNames(r: seq<Driver>, ds: seq<Driver>, now: int)
    requires multiset(r) == multiset(ds)
    ensures forall k :: 0 <= k < |ds| ==> exists i :: 0 <= i < |RowsOf(r, now)| && RowsOf(r, now)[i].name == ds[k].name
  {
    var rows := RowsOf(r, now);
    forall k | 0 <= k < |ds|
      ensures exists i :: 0 <= i < |rows| && rows[i].name == ds[k].name
    {
      assert ds[k] in multiset(r);
      var i :| 0 <= i < |r| && r[i] == ds[k];
      assert 0 <= i < |rows| && rows[i].name == ds[k].name;
    }
    assert forall k :: 0 <= k < |ds| ==> exists i :: 0 <= i < |rows| && rows[i].name == ds[k].name;
  }

  /** The number of drivers that are not paused. */
  function ActiveCount(ds: seq<Driver>): (n: nat)
    ensures n <= |ds|
  {
    if |ds| == 0 then 0
    else ActiveCount(ds[..|ds| - 1]) + (if ds[|ds| - 1].isPaused then 0 else 1)
  }

  /** In queue order the active drivers are exactly the first ActiveCount ones. */
  lemma {:induction false} ActiveFirst(ds: seq<Driver>, i: int)
    requires QueueOrdered(ds)
    requires 0 <= i < |ds|
    ensures !ds[i].isPaused <==> i < ActiveCount(ds)
    decreases |ds|
  {
    var p := ds[..|ds| - 1];
    var x := ds[|ds| - 1];
    assert QueueOrdered(p);
    if x.isPaused {
      if i < |p| {
        ActiveFirst(p, i);
      }
    } else {
      forall j | 0 <= j < |p|
        ensures !p[j].isPaused
      {
        assert QueueLe(ds[j], x);
      }
      ActiveCountAll(p);
    }
  }

  /** With no paused driver, all are counted. */
  lemma {:induction false} ActiveCountAll(ds: seq<Driver>)
    requires forall j :: 0 <= j < |ds| ==> !ds[j].isPaused
    ensures ActiveCount(ds) == |ds|
    decreases |ds|
  {
    if |ds| > 0 {
      ActiveCountAll(ds[..|ds| - 1]);
    }
  }

  /** The rank column shows 1, 2, ..., k on the k active drivers, which come
      first, and `-` on every paused one. */
  lemma {:induction false} RenderRanks(ds: seq<Driver>, now: int, i: int)
    requires 0 <= i < |ds|
    ensures var rows := Render(ds, now);
      && (rows[i].rank.Some? <==> i < ActiveCount(SortDrivers(ds)))
      && (rows[i].rank.Some? ==> rows[i].rank.value == i + 1)
      && (rows[i].rank.None? <==> rows[i].pausedBadge)
  {
    ActiveFirst(SortDrivers(ds), i);
  }

  /** Each row shows real revenue equal to the sorting revenue minus the
      penalties, and the refusal badge exactly when the last entry is a
      penalty. */
  lemma {:induction false} RenderRevenues(ds: seq<Driver>, now: int, i: int)
    requires 0 <= i < |ds|
    ensures var d := SortDrivers(ds)[i];
      var row := Render(ds, now)[i];
      && row.realRevenue == row.sortingRevenue - PenaltyTotal(d.freights)
      && (row.refusedBadge <==> |d.freights| > 0 && d.freights[|d.freights| - 1].kind == Penalty)
      && (|d.freights| > 0 ==> row.history[0] == d.freights[|d.freights| - 1])
  {
    TotalSplits(SortDrivers(ds)[i].freights);
  }

  /** The badge after a refusal: the penalised driver shows it at once. */
  lemma {:induction false} PenaltyShowsBadge(ds: seq<Driver>, id: int, penaltyId: int, now: int)
    requires Penalize(ds, id, true, penaltyId, now).Applied?
    ensures LastIsPenalty(Penalize(ds, id, true, penaltyId, now).drivers[FindDriver(ds, id).value].freights)
  {
  }

  /** Registering a freight dated no earlier than every entry clears the badge:
      the new entry becomes the last element. */
  lemma {:induction false} RegisterClearsBadge(ds: seq<Driver>, id: int, value: Number, freightId: int, now: int)
    requires RegisterFreight(ds, id, value, freightId, now).Applied?
    requires DateSorted(ds[FindDriver(ds, id).value].freights)
    requires LastDate(ds[FindDriver(ds, id).value].freights) <= now
    ensures !LastIsPenalty(RegisterFreight(ds, id, value, freightId, now).drivers[FindDriver(ds, id).value].freights)
  {
    var fs := ds[FindDriver(ds, id).value].freights;
    var f := Freight(freightId, value.cents, now, Ordinary);
    SortByDateSnoc(fs, f);
    if |fs| > 0 {
      assert KeyLe(DateKey(fs[|fs| - 1]), DateKey(f));
    }
  }

  // ---------------------------------------------------------------------
  // The shareable ranking text
  // ---------------------------------------------------------------------

  /** The 35-dash rule above and below the list. */
  const RULE: string := "-----------------------------------"

  const TITLE: string := "*ROD\U{CD}ZIO DE FRETES FIORINOS* \U{1F69B}\n"

  const NO_DRIVERS: string := "Nenhum motorista na fila."

  /** The title, the date line and the rule; `today` is the locale-formatted
      date. */
  function Header(today: string): string {
    TITLE + "_Atualizado em: " + today + "_\n" + RULE + "\n\n"
  }

  function Footer(): string {
    "\n" + RULE
  }

  /** One listed driver: the position in the queue and the name. */
  datatype Entry = Entry(position: nat, name: string)

  /** One line of the list: the position right-aligned to width, the ordinal
      sign, and the name. */
  function ShareLine(e: Entry, width: nat): string {
    PadStart(Decimal(e.position), width) + "\U{BA} - " + e.name + "\n"
  }

  /** The listed drivers of ds, where the position is index + 1 and paused
      drivers are skipped. */
  function ShareEntries(ds: seq<Driver>): seq<Entry> {
    if |ds| == 0 then []
    else
      var d := ds[|ds| - 1];
      ShareEntries(ds[..|ds| - 1]) + (if d.isPaused then [] else [Entry(|ds|, d.name)])
  }

  function ShareLines(ds: seq<Driver>, width: nat): (ls: seq<string>)
    ensures |ls| == |ShareEntries(ds)|
    ensures forall k :: 0 <= k < |ls| ==> ls[k] == ShareLine(ShareEntries(ds)[k], width)
  {
    var es := ShareEntries(ds);
    seq(|es|, k requires 0 <= k < |es| => ShareLine(es[k], width))
  }

  function Concat(ls: seq<string>): string {
    if |ls| == 0 then "" else Concat(ls[..|ls| - 1]) + ls[|ls| - 1]
  }

  /** `generateShareableText`: header, then either the empty-queue notice or
      one line per active driver of the sorted queue, then the footer. The
      padding width is the digit count of the number of all drivers. */
  function ShareText(ds: seq<Driver>, today: string): (t: string)
    ensures |Header(today)| + |Footer()| <= |t|
    ensures t[..|Header(today)|] == Header(today)
    ensures t[|t| - |Footer()|..] == Footer()
    ensures |ds| == 0 ==> t == Header(today) + NO_DRIVERS + Footer()
  {
    var r := SortDrivers(ds);
    assert |r| == |ds| by {
      assert |multiset(r)| == |multiset(ds)|;
    }
    var m := if |r| == 0 then NO_DRIVERS else Concat(ShareLines(r, |Decimal(|r|)|));
    Framed(Header(today), m, Footer());
    Header(today) + m + Footer()
  }

  lemma Framed(h: string, m: string, f: string)
    ensures var t := h + m + f;
      |h| + |f| <= |t| && t[..|h|] == h && t[|t| - |f|..] == f
  {
    var t := h + m + f;
    assert t[..|h|] == h;
    assert t[|t| - |f|..] == f;
  }

  /** With at least one driver, the list holds one line per active driver,
      and line i shows position i + 1 and the name of the driver at queue
      index i, padded to the digit count of the number of drivers. */
  lemma {:induction false} ShareTextLines(ds: seq<Driver>, today: string)
    requires |ds| > 0
    ensures var r := SortDrivers(ds);
      var lines := ShareLines(r, |Decimal(|ds|)|);
      && ShareText(ds, today) == Header(today) + Concat(lines) + Footer()
      && |lines| == ActiveCount(ds)
      && (forall i :: 0 <= i < |lines| ==> !r[i].isPaused)
      && (forall i :: 0 <= i < |lines| ==> lines[i] == ShareLine(Entry(i + 1, r[i].name), |Decimal(|ds|)|))
  {
    var r := SortDrivers(ds);
    var w := |Decimal(|ds|)|;
    assert |r| == |ds| by {
      assert |multiset(r)| == |multiset(ds)|;
    }
    ActiveCountPermutation(ds, r);
    ShareLinesCount(r, w);
    forall i | 0 <= i < ActiveCount(r)
      ensures !r[i].isPaused
      ensures ShareLines(r, w)[i] == ShareLine(Entry(i + 1, r[i].name), w)
    {
      ActiveFirst(r, i);
      ShareLinesOfOrdered(r, w, i);
    }
  }

  /** One line per active driver and none for a paused one. */
  lemma {:induction false} ShareLinesCount(ds: seq<Driver>, width: nat)
    ensures |ShareEntries(ds)| == ActiveCount(ds)
    ensures |ShareLines(ds, width)| == ActiveCount(ds)
    decreases |ds|
  {
    if |ds| > 0 {
      ShareLinesCount(ds[..|ds| - 1], width);
    }
  }

  /** For a queue in order the lines are positions 1, 2, ..., k with the
      names of the first k drivers, the active ones. */
  lemma {:induction false} ShareLinesOfOrdered(ds: seq<Driver>, width: nat, i: int)
    requires QueueOrdered(ds)
    requires 0 <= i < ActiveCount(ds)
    ensures |ShareLines(ds, width)| == ActiveCount(ds)
    ensures ShareEntries(ds)[i] == Entry(i + 1, ds[i].name)
    ensures ShareLines(ds, width)[i] == ShareLine(Entry(i + 1, ds[i].name), width)
  {
    var n := ActiveCount(ds);
    forall j | 0 <= j < |ds|
      ensures ds[j].isPaused <==> n <= j
    {
      ActiveFirst(ds, j);
    }
    ShareLinesCount(ds, width);
    ShareEntriesOfActivePrefix(ds, n, i);
  }

  /** The same for any collection whose first n drivers are the active ones. */
  lemma {:induction false} ShareEntriesOfActivePrefix(ds: seq<Driver>, n: nat, i: int)
    requires n <= |ds|
    requires forall j :: 0 <= j < |ds| ==> (ds[j].isPaused <==> n <= j)
    requires 0 <= i < n
    ensures |ShareEntries(ds)| == n
    ensures ShareEntries(ds)[i] == Entry(i + 1, ds[i].name)
    decreases |ds|
  {
    var p := ds[..|ds| - 1];
    var x := ds[|ds| - 1];
    var es := ShareEntries(ds);
    if x.isPaused {
      assert es == ShareEntries(p);
      ShareEntriesOfActivePrefix(p, n, i);
      assert ds[i] == p[i];
    } else {
      assert n == |ds|;
      assert es == ShareEntries(p) + [Entry(|ds|, x.name)];
      if |p| == 0 {
        assert ShareEntries(p) == [];
      } else {
        ShareEntriesOfActivePrefix(p, |p|, if i < |p| then i else 0);
      }
      if i < |p| {
        assert ds[i] == p[i];
      }
    }
  }

  /** Every position up to the number of drivers pads to the same width, so
      the names line up. */
  lemma {:induction false} PositionsAligned(n: nat, position: nat)
    requires position <= n
    ensures |PadStart(Decimal(position), |Decimal(n)|)| == |Decimal(n)|
  {
    DecimalLengthMonotone(position, n);
  }

  /** An empty collection shares the notice; a queue of paused drivers only
      shares an empty list. */
  lemma {:induction false} ShareTextWithoutActive(ds: seq<Driver>, today: string)
    requires ActiveCount(ds) == 0
    ensures ShareText(ds, today) == Header(today) + (if |ds| == 0 then NO_DRIVERS else "") + Footer()
  {
    var r := SortDrivers(ds);
    assert |r| == |ds| by {
      assert |multiset(r)| == |multiset(ds)|;
    }
    ActiveCountPermutation(ds, r);
    ShareLinesCount(r, |Decimal(|r|)|);
  }

  /** The number of active drivers does not depend on their order. */
  lemma {:induction false} ActiveCountPermutation(ds: seq<Driver>, es: seq<Driver>)
    requires multiset(ds) == multiset(es)
    ensures ActiveCount(ds) == ActiveCount(es)
    decreases |ds|
  {
    if |ds| > 0 {
      var x := ds[|ds| - 1];
      var p := ds[..|ds| - 1];
      assert ds == p + [x];
      var i := PermutationWithoutLast(ds, es);
      var q := es[..i] + es[i + 1..];
      ActiveCountPermutation(p, q);
      ActiveCountRemove(es, i);
      ActiveCountAppend(p, [x]);
      ActiveCountSingle(x);
    }
  }

  /** Taking driver i out lowers the count by one exactly when it is active. */
  lemma {:induction false} ActiveCountRemove(es: seq<Driver>, i: nat)
    requires i < |es|
    ensures ActiveCount(es) == ActiveCount(es[..i] + es[i + 1..]) + ActiveCount([es[i]])
  {
    var a, b := es[..i], es[i + 1..];
    assert es == (a + [es[i]]) + b;
    ActiveCountAppend(a + [es[i]], b);
    ActiveCountAppend(a, [es[i]]);
    ActiveCountAppend(a, b);
  }

  lemma {:induction false} ActiveCountSingle(x: Driver)
    ensures ActiveCount([x]) == if x.isPaused then 0 else 1
  {
    assert [x][..0] == [];
  }

  lemma {:induction false} ActiveCountAppend(s: seq<Driver>, t: seq<Driver>)
    ensures ActiveCount(s + t) == ActiveCount(s) + ActiveCount(t)
    decreases |t|
  {
    if |t| > 0 {
      var u := s + t;
      assert u[..|u| - 1] == s + t[..|t| - 1];
      ActiveCountAppend(s, t[..|t| - 1]);
    } else {
      assert s + t == s;
    }
  }
}
