# F1 Racers: the query layer and view logic, modelled in Dafny

The F1 Racers app is a small React application. It shows a list of racing
drivers loaded from a bundled dataset. This project models the parts of it
that hold logic, and proves what they promise:

- **Driver query functions** (`src/services/driverService.js`).
  `sortDriversByStanding` copies the array and sorts the copy by current
  standing. Standing 0 means "no standing" and goes after every real
  standing. `filterChampions` keeps the world champions in order. Both return
  `[]` for anything that is not an array.
- **Standing formatter** (`formatPosition` in
  `src/components/StandingsDisplay.jsx`). It turns 0 into "N/A" and any other
  standing into an English ordinal ("1st", "12th", "22nd").
- **Champion badge** (`src/components/ChampionBadge.jsx`). It shows nothing
  for a missing or empty list of years. Otherwise it shows the title
  "<count>x World Champion" and the years joined with ", ".
- **Driver list** (`src/components/DriverList.jsx`). Three state fields
  (`drivers`, `loading`, `error`) are driven by one fetch when the component
  mounts. What it renders is chosen in priority order: loading, then error,
  then no data, then no matches, then one card per record that has an id.

Files, one module each:

| file | module | contents |
|---|---|---|
| optional.dfy | `Optional` | `Option`, for `null` and `undefined` |
| seqs.dfy | `Seqs` | order-preserving `Filter` and its exactness lemmas |
| decimal.dfy | `Decimal` | how JavaScript writes a number into a string, and reading it back |
| driver_data.dfy | `DriverData` | the `Driver` record; `Input`, meaning "an array or not" |
| driver_service.dfy | `DriverService` | the comparator, the stable sort, `filterChampions` |
| standings_display.dfy | `StandingsDisplay` | `formatPosition`, evaluated as JavaScript evaluates it |
| champion_badge.dfy | `ChampionBadge` | the badge's title and years text |
| driver_list.dfy | `DriverList` | the component state as a class, and the render selection |

How it is modelled:

- **Sort.** `SortDriversByStanding` copies the input into a fresh array. It
  then sorts that array in place with an insertion sort (`SortInPlace`). Its
  specification is the function `SortByStanding`, which inserts the elements
  one at a time. Lemmas prove that `SortByStanding` is a permutation, is in
  standing order, and is stable. `StableSortIsSortByStanding` proves that any
  stable sort with this comparator gives the same result. So the engine's own
  algorithm inside `Array.prototype.sort` does not matter.
- **Formatter.** `formatPosition` picks its suffix with one compact
  expression. The model keeps JavaScript's truncating `%`, the indexing that
  yields `undefined` outside 0..3, and the `||` fallbacks. A lemma then
  proves that this equals the usual English rule for every standing.
- **List state.** `DriverListState` holds the three fields and `Valid()`
  states the invariant the fetch keeps. `searchDrivers` is a function
  parameter (`Search`), because its code is not part of this model.

How the view state is kept:

- The code keeps three separate fields (`drivers`, `loading`, `error`). The
  model has the same fields and proves that no error is recorded while
  loading.
- The code has two messages: one for an empty or missing list, checked
  before searching, and one for an empty search result.
- If the search result is non-empty but no record in it has an id, the code
  renders an empty card list, not a message. The model does the same.

## Model

| member | source | states |
|---|---|---|
| DriverService.CompareByStanding | src/services/driverService.js:31-45 | negative exactly when the first driver stands before the second (it has a real standing and the second has none or a larger one); zero exactly when the standings are equal |
| DriverService.CompareByStandingIsConsistent | src/services/driverService.js:31-45 | the comparator is antisymmetric, and both "not after" and "tie" are transitive, so it is a consistent comparator for `Array.prototype.sort` |
| DriverService.SortDriversByStanding | src/services/driverService.js:26-46 | `[]` for a non-array; otherwise the copy is sorted as `SortByStanding` says: the same drivers as often as in the input, real standings ascending, every standing-0 driver after every real standing, and each standing's drivers in input order |
| DriverService.SortInPlace | src/services/driverService.js:31-45 | sorting the fresh copy in place leaves it equal to `SortByStanding` of its old contents |
| DriverService.ShiftGreater | src/services/driverService.js:31-45 | the shifting loop of one insertion pass moves right, by one place, exactly the prefix drivers after the gap it returns, all of which compare greater than the new driver, and stops at a driver that does not |
| DriverService.InsertInPlace | src/services/driverService.js:31-45 | one insertion pass moves the new driver left past every greater one, yielding `Insert` of the sorted prefix and leaving the rest of the array alone |
| DriverService.SortByStandingPermutes | src/services/driverService.js:31 | the sorted result has the same multiset of drivers as the input |
| DriverService.SortByStandingOrdered | src/services/driverService.js:34-44 | no driver in the result stands before one that precedes it |
| DriverService.SortByStandingStable | src/services/driverService.js:34-44 | for every standing, the drivers with that standing appear in the result in their input order, so comparator ties keep input order |
| DriverService.OrderedByStandingMeans | src/services/driverService.js:34-44 | in standing order, non-zero standings ascend and a standing-0 driver never precedes a non-zero one |
| DriverService.StableOrderIsUnique | src/services/driverService.js:31-45 | two lists in standing order with the same drivers per standing, in the same order, are equal |
| DriverService.StableSortIsSortByStanding | src/services/driverService.js:31-45 | any ordered list whose standing classes match the input's is exactly `SortByStanding` of the input |
| DriverService.InsertOrdered | src/services/driverService.js:31-45 | inserting into an ordered list keeps it ordered |
| DriverService.InsertOfStanding | src/services/driverService.js:34-36 | inserting a driver adds it at the end of its own standing class and changes no other class |
| DriverService.FilterChampions | src/services/driverService.js:53-59 | `[]` for a non-array; otherwise no longer than the input, and every driver in it is a world champion |
| Seqs.Filter | src/services/driverService.js:58 | the kept elements are no more than the input, and every one of them satisfies the predicate |
| DriverService.FilterChampionsExact | src/services/driverService.js:58 | the result is an in-order subsequence of the input; each champion occurs as often as in the input, and nobody else occurs |
| DriverService.FilterChampionsIdempotent | src/services/driverService.js:58 | filtering the result again changes nothing |
| DriverService.FilterChampionsKeepsAllChampions | src/services/driverService.js:58 | the result equals the input exactly when every input driver is a champion |
| StandingsDisplay.FormatPosition | src/components/StandingsDisplay.jsx:4-11 | the result is "N/A" exactly for 0; otherwise it is the decimal digits of the standing followed by one of "th", "st", "nd", "rd" |
| StandingsDisplay.JsRemainder | src/components/StandingsDisplay.jsx:8-10 | JavaScript's `%`: the remainder is strictly between -b and b and takes the sign of the dividend |
| StandingsDisplay.SuffixAt | src/components/StandingsDisplay.jsx:7-10 | indexing the suffix table is defined exactly for indices 0 to 3 |
| StandingsDisplay.PositionSuffix | src/components/StandingsDisplay.jsx:7-10 | the suffix expression always yields an entry of the suffix table, never `undefined` |
| StandingsDisplay.SuffixOfLastTwo | src/components/StandingsDisplay.jsx:7-10 | for last two digits from 0 to 99, the three-way fallback expression yields the English suffix of that number |
| StandingsDisplay.PositionSuffixIsOrdinal | src/components/StandingsDisplay.jsx:7-10 | for every standing the suffix expression equals the English rule: 11 to 13 modulo 100 take "th"; otherwise a last digit of 1, 2 or 3 takes "st", "nd" or "rd", and anything else "th" |
| StandingsDisplay.FormatPositionIsEnglishOrdinal | src/components/StandingsDisplay.jsx:4-11 | every standing from 1 up is displayed as its digits followed by its English ordinal suffix |
| StandingsDisplay.SuffixDependsOnLastTwoDigits | src/components/StandingsDisplay.jsx:8-10 | two standings that agree modulo 100 get the same suffix |
| StandingsDisplay.FormatPositionInjective | src/components/StandingsDisplay.jsx:4-11 | different standings are displayed as different texts |
| StandingsDisplay.FormatPositionExamples | src/components/StandingsDisplay.test.jsx:6-29 | 0, 1, 2, 3 and 4 display as "N/A", "1st", "2nd", "3rd", "4th" |
| StandingsDisplay.FormatPositionMoreExamples | src/components/StandingsDisplay.jsx:4-11 | 11, 21 and 22 display as "11th", "21st", "22nd" |
| StandingsDisplay.FormatPositionHundredsExamples | src/components/StandingsDisplay.jsx:4-11 | 100, 101, 111 and 112 display as "100th", "101st", "111th", "112th" |
| Decimal.NatToString | src/components/StandingsDisplay.jsx:10 | a number meeting a string is written as at least one decimal digit, with a leading zero only for 0 itself |
| Decimal.NatToStringRoundTrip | src/components/StandingsDisplay.jsx:10 | reading the written digits gives back the number |
| Decimal.IntToStringRoundTrip | src/components/ChampionBadge.jsx:8 | a written number (minus sign included) followed by any non-digit text reads back as that number and that text |
| ChampionBadge.Render | src/components/ChampionBadge.jsx:3-22 | no badge exactly when the years are missing or empty; otherwise the title reads back as the number of years, and the years text reads back as the list itself |
| ChampionBadge.JoinYears | src/components/ChampionBadge.jsx:8 | the years text is empty exactly when there are no years; it has at least one character per year and two per separator |
| ChampionBadge.JoinYearsRoundTrip | src/components/ChampionBadge.jsx:8 | the years text is the years in input order, separated by ", ", with no separator at either end |
| ChampionBadge.TitleRoundTrip | src/components/ChampionBadge.jsx:9-16 | the title is the count followed directly by "x World Champion", and reads back as the count |
| ChampionBadge.SingleYearBadge | src/components/ChampionBadge.jsx:8-16 | a single year is shown alone with no separator, under the title "1x World Champion" |
| ChampionBadge.RenderExample | src/components/ChampionBadge.test.jsx:6-24 | 2008, 2014, 2015 give "3x World Champion" and "2008, 2014, 2015"; an empty list gives no badge |
| DriverList.IsTruthy | src/components/DriverList.jsx:33 | an error counts as truthy only when a string is present; the fixed fetch message is truthy |
| DriverList.CardsOf | src/components/DriverList.jsx:50-57 | there are no more cards than entries, and every card has a non-empty id |
| DriverList.CardsOfSelectsRecordsWithId | src/components/DriverList.jsx:50-57 | there is exactly one card per entry that has an id, in entry order; null entries and entries without an id produce nothing |
| DriverList.CardsOfAllRecords | src/components/DriverList.jsx:50-57 | when every entry has an id, there is one card per entry, in order |
| DriverList.SelectView | src/components/DriverList.jsx:29-57 | loading shows the loading message whatever else holds; otherwise a truthy error shows the error; otherwise a missing or empty list shows "no data" before any search; otherwise an empty search result shows "no matches"; otherwise the cards of the search result |
| DriverList.ViewIgnoresSearchWithoutData | src/components/DriverList.jsx:29-42 | while loading, with an error, or with no data, the view is the same whatever the search function does |
| DriverList.DriverListState.constructor | src/components/DriverList.jsx:7-9 | the initial state is an empty list, loading, and no error |
| DriverList.DriverListState.BeginFetch | src/components/DriverList.jsx:14-15 | starting the fetch sets loading, clears the error, and keeps the list |
| DriverList.DriverListState.Settle | src/components/DriverList.jsx:16-23 | a resolved fetch stores the data with no error; a rejected one records the fixed message and keeps the list; either way loading ends and `Valid` still holds |
| DriverList.Mount | src/components/DriverList.jsx:6-31 | the first render of a mount is the loading message; after a rejection it is the fixed error message; after a resolution it is the view of the loaded data, and "no data" for an empty or missing list |

## Left out

- `getDrivers` (the JSON import and the 100 ms timer) is input and timing. The fetch enters the model only as its outcome, resolved or rejected (`FetchOutcome`).
- `searchDrivers` is imported by `DriverList.jsx` but is not defined in `driverService.js`. It is a parameter of the view selection, assumed only to be a pure function returning a list.
- DriverList.SelectView: the cards are modelled as the driver records they are built from. The card markup, keys and `DriverCard` are not modelled.
- DriverList.DriverListState.Settle: React batches state updates and schedules the effect. Neither is modelled. Each method applies its updates together, and `Settle` may run only while a fetch is in progress.
- DriverService.SortDriversByStanding: the caller's array is a value here. So the model shows only that the sort writes to a fresh copy (`SortInPlace` modifies only that copy). Aliasing of the caller's array is not represented.
- Dynamic typing is not modelled: `Array.isArray` on arbitrary values is the `Input` variant; `isWorldChampion` is a boolean; a missing or falsy `id` is the empty string; a loaded value that is neither a list nor `null` is not modelled.
- StandingsDisplay.FormatPosition: standings are exact whole numbers, with no upper bound. A JavaScript number is an IEEE double: it is exact only up to 2^53, and from 10^21 `String` writes it in exponent form, so 10^21 would show as "1e+21th". Above 2^53 JavaScript writes the shortest digits that convert back to the same double, padded with zeros (2^64 shows as "18446744073709552000th", the model gives "18446744073709551616th"). The model matches the code up to 2^53. Negative and fractional standings are not modelled.
- Decimal.NatToString: writes the plain decimal digits of any whole number. JavaScript does so only below 10^21, and exactly only up to 2^53; above 2^53 it writes the shortest digits that convert back to the same double, and from 10^21 it uses exponent form.
- DriverService.SortDriversByStanding: the `Driver` type rules out `null` and `undefined` array elements and holes. In the code a `null` element makes the comparator throw a `TypeError` when it reads `currentStanding` (src/services/driverService.js:34) once it is compared, which needs two or more elements. `undefined` elements, and holes, which the spread turns into `undefined`, are sorted to the end without calling the comparator.
- DriverService.FilterChampions: the `Driver` type rules out these elements here too. In the code a `null` or `undefined` element makes the filter callback throw a `TypeError` when it reads `isWorldChampion` (src/services/driverService.js:58); holes are skipped without calling it.
- `DriverCard.jsx`, `SearchBox.jsx` and `App.jsx` only lay out markup and pass props. `console.error` logging, CSS, images and hover or scroll behaviour are left out as well.
