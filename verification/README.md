# Freight rotation queue (Fiorino vans): a Dafny model

This project models the rotation-queue engine of the freight-dispatch app
(`app.js`) and the read-only position lookup used by the drivers
(`motorista.js`).

Each driver has a ledger. The ledger (`freights`) is a list of entries, and
each entry has an id, a value, a date and a type: a freight or a penalty.
Each driver also has a pause flag. No queue position is stored. The rank is
recomputed from a comparator every time:

1. paused drivers go last;
2. then drivers are ordered by ascending total of all entry values;
3. ties are broken by the date of the **last list element**, with 0 for an
   empty ledger.

Refusing a load appends a penalty entry. Its value brings the driver's total
to one real above the highest total among the drivers with another id. A
driver who is already at or above that level gets a penalty of one real.

The model is functional. Drivers and entries are immutable datatypes. The
collection is a `seq`. Each operation is a pure function that returns an
`Outcome`: either the new collection, or the reason the source returned
without changing anything. That reason covers an alert, an early return, a
declined `confirm()`, or a TypeError on a missing driver.

`render` and `generateShareableText` sort the stored array in place. The
next operation therefore starts from the re-sorted array, which
`Queue.Held` models.

Modelling conventions:

- Money is integer cents. The source's `+ 1` and its fallback value `1` are
  one real, so they become `UNIT = 100`.
- Time is integer milliseconds on the local wall clock.
- `confirm()` is a boolean parameter.
- `Date.now()` is passed in twice: as the fresh entry or driver id, and as
  the current time.

Modules, in dependency order:

| file | module | what it holds |
|---|---|---|
| optional.dfy | Optional | `Option`, for `undefined` and array searches that can miss |
| stable_sort.dfy | StableSort | A generic stable insertion sort keyed by integer sequences compared lexicographically. It proves sortedness, permutation and stability. It also proves that any sorted, stable rearrangement equals this sort, so `Array.prototype.sort` with the same comparator gives the same order. |
| search.dfy | Search | `find`/`findIndex` (the first element that passes a test) and `filter`, once for every collection |
| resort.dfy | Resort | What re-sorting does to an element that was changed and then changed back: it returns to its place unless it ties with another element |
| text.dfy | Text | `trim`, `toLowerCase`, `String(n)` and `padStart` |
| ledger.dfy | Ledger | entries, the sums over a ledger, the date sort, `filter` by id, editing a value |
| queue.dfy | Queue | the driver comparator and every mutation of the collection |
| week.dfy | Week | the Monday-to-Sunday window and the daily revenue columns |
| display.dfy | Display | the table rows (rank, revenues, badges, history) and the shareable ranking text |
| storage.dfy | Storage | the stored records, the legacy migration of `loadDrivers`, and saving |
| lookup.dfy | Lookup | the lookup's own comparator, which has no pause criterion, and `findPosition` |

## Behaviour of the code that the model keeps

- `saveFreightEdit` (app.js:516-525) does not validate the new value and
  does not refuse penalty entries. Only the history list hides the edit
  button on penalties (app.js:234). `Queue.SaveFreightEdit` edits any entry to
  any value, and `Queue.EditButtonShown` records what the UI hides.
- `penalizeDriver` appends its entry without re-sorting the ledger
  (app.js:110), unlike `registerFreightForDriver` (app.js:468).
  `Queue.PenaltyKeepsDateOrder` states when the ledger stays date-ordered
  anyway.
- The rules text of the app (app.js:620) tells a paused driver that they
  leave the queue for a while. The lookup still ranks paused drivers like
  everyone else (motorista.js:8-24), so it can name a paused driver as the
  next one to be served. `Lookup.PausedDriverLeadsLookup` and
  `Lookup.PausedDriverCanBeNext` exhibit such a case.
- Entries carry one of two types, `'freight'` (app.js:463) and `'penalty'`
  (app.js:106). Migration adds a third kind of entry without any type, which
  is `Kind.Untagged` here.
- A change followed by its inverse does not always restore the stored
  order. `render` re-sorts the array in between, and the sort is stable, so
  a driver who ties with another driver on the comparator comes back behind
  or ahead of that driver. `Queue.ToggleTwiceSwapsTie` exhibits such a case.

## Model

| member | source | states |
|---|---|---|
| StableSort.SortBy | app.js:364-384 | The result is a permutation of the input and is sorted by the key. |
| StableSort.SortStable | app.js:364-384 | Elements with equal keys keep their input order. |
| StableSort.SortedStableUnique | app.js:364-384 | Two sorted sequences with the same order inside every key class are equal. |
| StableSort.SortIsTheStableSort | app.js:364-384 | Any sorted rearrangement that keeps equal keys in input order is SortBy's result, so a stable engine sort gives this order. |
| StableSort.SortedIsFixed | app.js:364-384 | Sorting an already sorted sequence returns it unchanged. |
| StableSort.SortBySameOrder | motorista.js:8-24 | Two keys that order the elements alike produce the same sort. |
| Text.TrimStart | app.js:390 | The result is the suffix after the leading white space, and it does not start with white space. |
| Text.TrimEnd | app.js:403 | The result is the prefix before the trailing white space, and it does not end with white space. |
| Text.TrimEmptyIffBlank | app.js:390 | `trim()`, which strips both ends, is empty exactly when the input is all white space; otherwise it has no white space at either end. |
| Text.ToLower | app.js:395 | The length is kept, and every character is lower-cased in place. |
| Text.ToLowerIdempotent | app.js:395 | Lower-casing twice equals lower-casing once. |
| Text.Decimal | app.js:557 | `String(n)` is a non-empty digit string without a leading zero. |
| Text.DecimalRoundTrip | app.js:560-562 | Reading the digits of `String(n)` back gives n. |
| Text.DecimalLengthMonotone | app.js:557 | A larger number never has fewer digits. |
| Text.PadStart | app.js:562 | The result has at least the requested width, ends with the input, and is padded with spaces on the left. |
| Ledger.TotalSplits | app.js:170-174 | The sorting revenue equals the real revenue plus the penalty values. |
| Ledger.NoPenaltyAllReal | app.js:170-174 | A ledger without penalties has real revenue equal to sorting revenue. |
| Ledger.SumOfAppend | app.js:174 | The sum over a concatenation is the sum of the parts. |
| Ledger.SumOfPermutation | app.js:174 | The sum does not depend on the order of the entries. |
| Ledger.AppendKeepsDateSorted | app.js:110 | Appending an entry dated no earlier than the last one keeps the ledger date-ordered. |
| Ledger.SortByDate | app.js:468 | The ledger sort is a permutation and is ordered by date. |
| Ledger.SortByDateSnoc | app.js:467-468 | On a date-ordered ledger, push-then-sort inserts the entry behind every entry dated no later. |
| Search.FindFirst | app.js:70 | `find` and `findIndex` return the first index whose element passes the test, or nothing exactly when no element passes. |
| Search.FindFirstAgree | app.js:70 | Two collections whose elements pass their tests alike, position by position, are searched alike. |
| Search.FilterMembers | app.js:422 | After `filter`, exactly the elements that pass the test remain. |
| Search.FilterAppend | app.js:485 | `filter` distributes over concatenation, so the survivors keep their order. |
| Search.FilterShorter | app.js:422 | When some element fails the test, `filter` returns strictly fewer elements. |
| Search.FilterInsertDropped | app.js:422 | An element that fails the test and was inserted into a sorted sequence is gone again after `filter`, which leaves the rest as it was. |
| Ledger.FindEntry | app.js:481 | `freights.find` returns the first entry with the id, or nothing exactly when no entry has it. |
| Ledger.RemoveEntriesMembers | app.js:485 | After `filter`, exactly the entries with another id remain. |
| Ledger.RemoveEntriesAppend | app.js:485 | The removal distributes over concatenation, so the surviving entries keep their order. |
| Ledger.RemoveAbsentEntry | app.js:485 | Removing an id that no entry has changes nothing. |
| Ledger.RemoveEntriesTotal | app.js:485 | After a removal, the total drops by exactly the values of the removed entries. |
| Ledger.RemoveInserted | app.js:485 | Removing a freshly inserted entry's id from a sorted insertion gives the ledger back. |
| Ledger.RegisterRemoveEntry | app.js:467-468 | Push-and-sort of a fresh id, followed by filtering that id out, restores a date-ordered ledger. |
| Ledger.WithValue | app.js:521 | Only the value of the chosen entry changes; ids, dates, types and the other entries stay. |
| Ledger.WithValueTotal | app.js:521 | The total moves by the new value minus the old value. |
| Queue.CompareIsKeyOrder | app.js:364-383 | The comparator is non-positive exactly when the key (paused, total, last date) is lexicographically no greater. It is zero exactly on equal keys, and it matches the criteria predicate QueueLe. |
| Queue.Compare | app.js:364-383 | The comparator is non-positive exactly when the first driver may precede the second (active first, then lower total, then earlier last date), and zero exactly when the two agree on pause flag, total and last date. |
| Queue.QueueLeTotalPreorder | app.js:364-383 | The comparator is reflexive, total and transitive. |
| Queue.QueueOrderedIsSorted | app.js:364-383 | Queue order is sortedness by the queue key. |
| Queue.SortDrivers | app.js:363-384 | The queue is a permutation of the collection and is in queue order. |
| Queue.SortDriversGroups | app.js:363-384 | In the queue, active drivers come before paused ones; totals never decrease within a pause group; equal totals have non-decreasing last-entry dates. |
| Queue.SortDriversFixesOrdered | app.js:363-384 | Re-sorting a queue that is already in order is the identity. |
| Queue.SortDriversStable | app.js:363-384 | Drivers that compare equal keep their stored order. |
| Queue.SortDriversIsTheStableSort | app.js:363-384 | No stable sort by the comparator can give another order. |
| Queue.Held | app.js:363-384 | After an applied operation the program holds its result sorted in place, a permutation in queue order; after a refused one it holds the collection unchanged. |
| Queue.FindDriver | app.js:70 | `drivers.find` returns the first driver with the id, or nothing exactly when no driver has it. |
| Queue.MaxOtherRevenue | app.js:74-81 | `maxRevenue` is at least 0 and bounds the total of every driver with another id, paused ones included. Unless it is 0, some such driver attains it. |
| Queue.PenaltyValue | app.js:87-104 | The penalty is positive. Below the maximum plus one real it is exactly the difference to that level; at or above that level it is exactly one real. |
| Queue.Penalize | app.js:69-114 | With an unknown id or no confirmation, nothing changes. Otherwise only that driver changes: one penalty entry dated now is appended, whose value is PenaltyValue of the driver's total and the maximum over the other ids, so the total grows by exactly that value. The new total is strictly above that of every driver with another id. |
| Queue.PenalizedDriverGoesBehind | app.js:69-114 | After a penalty and the re-sort, every active driver with another id ranks before the penalised driver. |
| Queue.PenaltyExceedsEveryone | app.js:74-110 | When ids are unique, the penalised total exceeds every other driver's total. |
| Queue.PenaltyKeepsDateOrder | app.js:102-110 | The unsorted push keeps a date-ordered ledger ordered when the penalty is dated no earlier than the last entry. |
| Queue.RegisterFreight | app.js:447-472 | The operation rejects NaN and values ≤ 0, and then an unknown driver, without change. Otherwise only the target ledger changes: it gains exactly one ordinary entry and is date-ordered. Its total and real revenue rise by exactly the value. |
| Queue.RemoveFreight | app.js:477-489 | An unknown driver or entry, or a declined confirmation, changes nothing. Otherwise exactly the entries with that id leave that driver's ledger, in order, and nothing else changes. |
| Queue.RegisterThenRemove | app.js:447-489 | Registering a freight under a fresh id in a date-ordered ledger, letting `render` sort, and then removing the entry gives the re-sort of the held queue with that driver moved behind the drivers it ties with. An untied driver gets its place back, and the collection is restored. |
| Queue.SaveFreightEdit | app.js:516-525 | The operation sets the value of the first matching entry only, keeping length, order, ids, dates and types. The total moves by the difference. No validation is done, and penalty entries are accepted. |
| Queue.EditIsUndone | app.js:516-525 | Editing an entry, letting `render` sort, and editing it back restores the collection when the value did not change. Otherwise the driver rejoins behind the drivers it ties with when the edit had raised the value, and in front of them when it had lowered it. An untied driver gets its place back. |
| Queue.ResetQuinzena | app.js:530-539 | When confirmed, every ledger is empty with total 0, and ids, names, pause flags and the count are kept. Without confirmation, nothing changes. |
| Queue.AddDriver | app.js:389-414 | Whitespace-only names are rejected, and so are names whose lower case matches an existing one. Otherwise exactly one driver is appended, with the trimmed name, an empty ledger and not paused. |
| Queue.AddDriverChecked | app.js:395-403 | Corrected duplicate check on the stored trimmed name: case-insensitively unique names stay unique. |
| Queue.AddDriverAgreesOnTrimmed | app.js:395-403 | For a name without surrounding white space, the corrected check gives the same outcome as the original. |
| Queue.AddDriverAdmitsDuplicate | app.js:395-403 | Adding "Ana " next to "Ana" is accepted and produces two drivers named "Ana". |
| Queue.RemoveDriversKeeps | app.js:422 | After `filter`, exactly the drivers with another id remain. |
| Queue.RemoveDriver | app.js:419-426 | An unknown id or a declined confirmation changes nothing. Otherwise the result is the `filter` of the drivers with another id: every driver with the id leaves, no other driver does, and the rest keep their order. |
| Queue.AddThenRemove | app.js:389-426 | Adding a driver under a fresh id with the corrected check, letting `render` sort, and then removing that id gives back the held, sorted collection. |
| Queue.TogglePause | app.js:432-442 | Only the first driver with the id changes, and only its pause flag, which flips. An unknown id changes nothing. |
| Queue.ToggleTwice | app.js:432-442 | Toggling twice, with the sort after each toggle, gives the held queue with that driver moved behind the drivers it ties with when it was active, and in front of them when it was paused. An untied driver gets its place back. |
| Queue.ChangedBackInQueue | app.js:363-384 | When a driver is changed to another key, sorted, found again by id and changed back, the next sort equals the old queue with that driver taken out and put back at the end of its tie group (key raised by the change) or at its front (key lowered). |
| Queue.ToggleTwiceSwapsTie | app.js:432-442 | Two active drivers with empty ledgers, Ana then Bia: toggling Ana twice leaves Bia first. |
| Resort.ChangedBack | app.js:363-384 | For any key: changing an element of a sorted sequence, sorting, and changing its first occurrence back, then sorting, is the sort of the original with the element moved to the back or the front of its key class. |
| Resort.RejoinedWithoutPeer | app.js:363-384 | An element that shares its key with no other element returns to its place when the sort runs, whether it was moved to the back or the front. |
| Week.MondayDistanceIsMonday | app.js:126-127 | Going back `distance` days from any weekday lands on a Monday. It is the only distance under a week that does. |
| Week.WeekHoldsNow | app.js:124-133 | The window contains now, starts at a Monday midnight and spans exactly seven days. |
| Week.DayWithinWeek | app.js:128-145 | The k-th day of the window has weekday k + 1 modulo 7. |
| Week.SameWeekIffSameStart | app.js:124-133 | A moment lies in the window exactly when it has the same Monday as now. |
| Week.DailyRevenuesAddUp | app.js:135-145 | The seven daily columns add up to the week's non-penalty revenue. |
| Week.PenaltyLeavesDaysAlone | app.js:137 | A penalty entry never changes a daily column. |
| Week.RevenueForDaySnoc | app.js:121-148 | A new entry adds its value to a day column exactly when it is not a penalty, falls in the current week, and lies on that weekday; otherwise the column is unchanged. |
| Week.RevenueForDayOfNone | app.js:135-145 | A column with no entry that counts on that day shows 0. |
| Display.Reversed | app.js:241 | The history lists the ledger newest first. |
| Display.ActiveFirst | app.js:363-384 | In queue order, a driver is active exactly when its index is below the number of active drivers. |
| Display.RenderRanks | app.js:255 | The rank column shows 1..k on the k active drivers, which come first, and `-` exactly on paused ones. |
| Display.RenderRevenues | app.js:170-179 | Each row's real revenue is its sorting revenue minus penalties. The refusal badge shows exactly when the last list element is a penalty. The history starts with that last element. |
| Display.RowOf | app.js:166-251 | A row has a rank only when its driver is active, and then the rank is index + 1. Its real revenue plus the penalties is the sorting revenue, which is the total. The refusal badge shows exactly when the last entry is a penalty. The seven day columns add up to the week's real revenue, and the history lists every entry, newest first. |
| Display.Render | app.js:153-256 | There is one row per driver. Ranks are index + 1, ranked rows come before unranked ones, sorting revenues never decrease within a pause group, and every driver's name appears in some row. |
| Display.PenaltyShowsBadge | app.js:177-178 | A penalised driver shows the refusal badge. |
| Display.RegisterClearsBadge | app.js:467-468 | A freight dated no earlier than every entry becomes the last element and clears the badge. |
| Display.ShareLinesCount | app.js:559-567 | The shared list has one line per active driver and none for a paused one. |
| Display.ShareLinesOfOrdered | app.js:559-567 | For a queue in order, line i shows position i + 1 and the name of the driver at index i. |
| Display.PositionsAligned | app.js:557-562 | Every position up to the driver count pads to the same width. |
| Display.ShareTextWithoutActive | app.js:553-571 | An empty collection shares the notice. A collection of paused drivers only shares an empty list between header and footer. |
| Display.ShareText | app.js:544-573 | The text starts with the header and ends with the footer; with no driver the notice stands between them. |
| Display.ShareTextLines | app.js:553-567 | With drivers, between header and footer stands one line per active driver: line i shows position i + 1, padded to the digit count of the driver total, and the name of the driver at index i of the queue, which is active. |
| Display.ActiveCountPermutation | app.js:559-567 | The number of active drivers does not depend on their order. |
| Storage.Migrate | app.js:38-44 | Migration keeps the id and name. It keeps an existing ledger. A missing ledger becomes the one legacy entry when the balance is positive, dated or not, and empty otherwise. A missing pause flag becomes false. |
| Storage.LoadDrivers | app.js:32-53 | Nothing stored, or unreadable storage, gives an empty collection. Otherwise every record is migrated in place. |
| Storage.Save | app.js:58-64 | One record per driver, each carrying a ledger and a pause flag, and migrating any saved record gives its driver back. |
| Storage.LoadSaved | app.js:58-64 | Loading what was saved gives the collection back. |
| Storage.MigrationSettles | app.js:32-64 | A second load after a save migrates nothing more. |
| Storage.LegacyBalanceKept | app.js:40 | A migrated legacy balance is both the sorting and the real revenue, and shows no badge. A positive balance keeps the old last freight date, or 0 without one, as the tie-break; otherwise total and tie-break are 0. |
| Storage.UndatedBalanceKept | app.js:40 | A legacy record with a balance of 500 reais and no last freight date keeps that balance as its total, with tie-break date 0. |
| Storage.LegacyOrderKept | app.js:40 | Migrated legacy drivers rank by balance, then by their old last freight date. |
| Lookup.SortForLookup | motorista.js:8-24 | The lookup order is a permutation with non-decreasing totals and, on equal totals, non-decreasing last-entry dates. There is no pause criterion. |
| Lookup.LookupOrderIsQueueOrder | motorista.js:8-24 | When all drivers share one pause flag, the lookup order is the table's queue order. |
| Lookup.PausedDriverLeadsLookup | motorista.js:8-24 | A paused driver with a smaller total heads the lookup order, while the table puts that driver last. |
| Lookup.ClassFor | motorista.js:56-58 | The class is success exactly for position 1, warning exactly past 3, and info otherwise. |
| Lookup.FindByName | motorista.js:44 | `findIndex` returns the first driver whose lower-cased name equals the key, or nothing exactly when none does. |
| Lookup.FindPosition | motorista.js:26-74 | A blank input gives an error, and no stored data gives an error. No match gives "not found". Otherwise the position is index + 1 ≥ 1 of the first match in the lookup order, the next driver is the head of that order, and the class follows the position. |
| Lookup.FoundAt | motorista.js:44-58 | The answer for the first match at index i is its name, i + 1, the head's name and the class of i + 1. |
| Lookup.FirstIsNext | motorista.js:53-57 | The driver at position 1 is told that they are next, in the success class. |
| Lookup.FoundIffStored | motorista.js:44-50 | A non-blank name is found exactly when a stored driver carries it, up to case. |
| Lookup.PausedDriverCanBeNext | motorista.js:52-58 | An active driver can be told that a paused driver is next. |

## Left out

- DOM construction, event listeners, modals, `filterTable`, the clipboard and
  `setTimeout` are left out. They are UI plumbing.
- The currency and date formatting (`toLocaleString`, `toLocaleDateString`)
  is left out. The shared text takes the formatted date as a parameter, and
  row values stay as integers.
- The "Nenhum motorista cadastrado." row for an empty table is left out:
  `Display.Render` gives no rows.
- `localStorage` and `JSON.parse`/`JSON.stringify` are left out. Records
  arrive decoded, with each field present or absent. A stored value that
  does not decode to a list of records is one case, `Stored.Unreadable`,
  which gives the empty collection.
- `Date` parsing and time zones are left out:
  - Dates are integer milliseconds on the local clock.
  - The weekday is counted from 1 January 1970, a Thursday.
  - Daylight-saving days are 24 hours long.
- Floating-point money is left out. Values are integer cents, so the
  strict-exceedance property of the penalty holds exactly. Sub-cent inputs
  and rounding in `parseFloat` are not represented. The value given to
  `Queue.RegisterFreight` is a `Number`, which is NaN or a whole number of
  cents, because that operation rejects NaN.
- Queue.SaveFreightEdit: the new value is a whole number of cents, so NaN is
  not modelled. The edit form reads it with `parseFloat` (app.js:667), and
  `saveFreightEdit` stores NaN unchecked. The driver's total then becomes
  NaN, the comparator returns NaN for that driver, and the engine's sort
  order is no longer determined. The integer key cannot express that.
- Storage.LegacyEntry: a positive legacy balance without a
  `lastFreightDate` gets id 0 and date 0. The source stores id NaN (from
  `new Date(undefined).getTime()`) and an undefined date. Its comparator
  then returns NaN against every driver with the same pause flag and total,
  so the engine's order between them is not determined, while the model breaks the
  tie with date 0. A NaN id never matches an id search, but id 0 could.
  An unparseable date string is not represented either.
- Queue.ToggleTwice: stated for a held collection, which is in queue order,
  with unique ids. Ids come from `Date.now()`, which the source does not
  check for duplicates.
- Queue.RegisterThenRemove: stated for a held collection with unique ids
  and a date-ordered ledger; a penalty appended out of date order
  (`Queue.PenaltyKeepsDateOrder`) is not covered.
- Queue.EditIsUndone: stated for a held collection with unique ids.
- Text.ToLower: lower-cases ASCII and the Latin-1 capitals only, not all of
  Unicode as `toLowerCase` does. Names of other scripts compare
  case-sensitively in the model.
- The lookup's `driverRevenue` (motorista.js:54) is left out. It is computed
  but never shown.
- The lookup crashes on a legacy record without `freights`, because it reads
  storage without migrating. This is not modelled: the lookup takes decoded
  drivers that all have a ledger.
- The fixed rules announcement text (app.js:599-640) is left out. It is
  static prose.
- `openEditModal` is left out. It only fills the form.
- `Queue.PenaltyExceedsEveryone`: stated only for collections with unique
  ids. The source does not enforce unique ids: with a duplicate id, the
  other driver is skipped by `maxRevenue`, and `Queue.Penalize` states only
  what holds for every driver with another id.

## Findings

| source | as written | input that shows it | evidently intended | confidence | as-written member | corrected member |
|---|---|---|---|---|---|---|
| app.js:395-403 | The duplicate check compares the untrimmed input, but the trimmed name is stored. | Drivers `["Ana"]`, new name `"Ana "`: `"ana " != "ana"`, so it is accepted, and a second "Ana" is stored. | Compare the trimmed name, which is the one that will be stored, so names stay unique up to case. | not executed | Queue.AddDriver, Queue.AddDriverAdmitsDuplicate | Queue.AddDriverChecked |
