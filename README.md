# Currency table: sorting controller and ticker feed client

A Dafny model of the two pieces of logic in the cryptocurrency ticker
dashboard:

- **The sortable table** (`src/components/CurrentyTable.tsx`). It covers the
  three-way comparator `descendingComparator` and its direction-aware wrapper
  `getComparator`, and the state machine over `order`, `orderBy`, `result` and
  `tableData` that `handleSort`, `reloadTable` and the result effect drive. It
  also covers the active/direction indicator of each column header.
- **The feed client** (`src/services/api.ts`). It covers `getTickers`: the
  composite-symbol query it builds, the `loadData` call that always fetches
  `data.json`, and the positional projection of each 11-entry record to a
  `CurrencyDetail`.

Modules:

- `Wrappers`: `Option` and `Result`.
- `Ticker`: the row entity `CurrencyDetail`, the `Field` enumeration of the
  eight column accessors, and field values (`Key`). It also defines
  JavaScript's `<` on two numbers or two strings: for strings, the
  lexicographic order `LexLess`, defined explicitly.
- `ArraySort`: `Array.prototype.sort`. ECMAScript requires the sort to be
  stable, so for a consistent comparator its outcome is a single sequence.
  `StableSort` defines that sequence. The method `SortInPlace` computes it in
  place on an array, by insertion, and is proved equal to it. The lemmas prove
  the outcome is a permutation, in order, and stable, and that it is the only
  sorted permutation that keeps tied elements in their input order.
- `Sorting`: the two comparators, their meaning, and what sorting the rows
  with them produces.
- `Table`: the component's state as a class `CurrencyTable`. Each React state
  setter is an assignment to a field. `''` for "no column" is `None`; an
  `undefined` result is `None`.
- `JsString`: `toLocaleUpperCase` restricted to ASCII letters, and `join`
  with a one-character separator. The client never calls `split`; `Split`
  is the inverse of the `join`, used only to state that the query round-trips.
- `Api`: the query builder, `loadData`, the record projection and
  `getTickers`. The network is a parameter `fetch`: the parsed body of the
  response to a URL, or the cause of its rejection.

`getTickers` keeps the 0-indexed record positions 0, 1, 3 and 6 to 10, and
skips positions 2, 4 and 5 (`src/services/api.ts:28-40`).

## Model

| member | source | states |
|---|---|---|
| `Ticker.Get` | src/components/CurrentyTable.tsx:39-71 | the symbol column is the only string-valued one; every other column holds a number |
| `Ticker.ColumnsListEachFieldOnce` | src/components/CurrentyTable.tsx:39-71 | the eight columns name every field of a row, each exactly once |
| `Ticker.LexLess` | src/components/CurrentyTable.tsx:120-124 | the JavaScript `<` on two strings, applied at :120 and :123; no string is below itself, and `LexLessMeaning` gives its meaning |
| `Ticker.KeyLess` | src/components/CurrentyTable.tsx:120-124 | the `<` the comparator applies to two field values: it holds only between two numbers or two strings, and never between equal values |
| `Ticker.LexLessMeaning` | src/components/CurrentyTable.tsx:120-124 | JavaScript `<` on strings holds iff the first is a proper prefix of the second, or is smaller at the first position where they differ |
| `Ticker.LexLessAsymmetric` | src/components/CurrentyTable.tsx:120-124 | no two strings are each below the other |
| `Ticker.LexLessTrichotomy` | src/components/CurrentyTable.tsx:120-124 | of two strings one is below the other or they are equal |
| `Ticker.LexLessTransitive` | src/components/CurrentyTable.tsx:120-124 | the string order is transitive |
| `Ticker.KeyLessAsymmetric` | src/components/CurrentyTable.tsx:120-124 | the `<` the comparator applies to field values is asymmetric |
| `Ticker.KeyLessTrichotomy` | src/components/CurrentyTable.tsx:120-124 | two values of one field are ordered one way or the other, or equal |
| `Ticker.KeyLessTransitive` | src/components/CurrentyTable.tsx:120-124 | the `<` on field values is transitive |
| `Sorting.Flip` | src/components/CurrentyTable.tsx:103 | flipping a direction always changes it |
| `Sorting.DescendingComparator` | src/components/CurrentyTable.tsx:119-127 | the comparator only ever returns -1, 0 or 1 |
| `Sorting.DescendingComparatorMeaning` | src/components/CurrentyTable.tsx:119-127 | -1 iff `a`'s key is above `b`'s, 1 iff it is below, 0 iff the keys are equal |
| `Sorting.GetComparator` | src/components/CurrentyTable.tsx:129-139 | the comparator for either direction only ever returns -1, 0 or 1; `GetComparatorMeaning` gives its sign for each direction |
| `Sorting.GetComparatorMeaning` | src/components/CurrentyTable.tsx:129-139 | the comparator for either direction is negative iff `a` comes first in that direction, zero iff the keys are equal, positive iff `b` comes first |
| `Sorting.AscendingNegatesDescending` | src/components/CurrentyTable.tsx:136-138 | the `'asc'` comparator is the negation of the `'desc'` one |
| `Sorting.GetComparatorAntisymmetric` | src/components/CurrentyTable.tsx:129-139 | `cmp(a, b) == -cmp(b, a)` |
| `Sorting.GetComparatorTransitive` | src/components/CurrentyTable.tsx:129-139 | `cmp(a, b) <= 0` and `cmp(b, c) <= 0` give `cmp(a, c) <= 0` |
| `Sorting.GetComparatorTotalPreorder` | src/components/CurrentyTable.tsx:129-139 | both comparators are consistent: antisymmetric and transitive |
| `Sorting.SortedMeaning` | src/components/CurrentyTable.tsx:136-138 | in `'asc'` comparator order means keys non-decreasing; in `'desc'` order, non-increasing |
| `Sorting.TiesHaveSameKey` | src/components/CurrentyTable.tsx:119-127 | the rows the comparator ranks equal to a row are exactly the rows sharing its key |
| `Sorting.SortByField` | src/components/CurrentyTable.tsx:109-110 | the sorted copy is a permutation of the rows, keys non-decreasing for `'asc'` and non-increasing for `'desc'`, and rows with equal keys keep their fetched order |
| `Sorting.SortBySortedIsIdentity` | src/components/CurrentyTable.tsx:109-110 | rows already in the requested order come out unchanged |
| `Sorting.SortByFieldIsSorted` | src/components/CurrentyTable.tsx:110 | the sorted copy is in the comparator's order |
| `Sorting.ReversedAscendingIsDescending` | src/components/CurrentyTable.tsx:136-138 | a list in `'asc'` order, read back to front, is in `'desc'` order |
| `Sorting.DistinctKeysRankApart` | src/components/CurrentyTable.tsx:119-127 | rows whose keys differ are never ranked equal |
| `Sorting.DescendingIsReversedAscending` | src/components/CurrentyTable.tsx:129-139 | when no two different rows share a key, sorting `'desc'` gives exactly the reverse of sorting `'asc'` |
| `ArraySort.Insert` | src/components/CurrentyTable.tsx:110 | inserting one element into a sorted prefix adds exactly one element; `InsertInPlace` is proved to compute it on the array |
| `ArraySort.StableSort` | src/components/CurrentyTable.tsx:110 | the outcome of `sort` has its input's length; the lemmas below prove it a permutation, in order, stable, and the only such outcome |
| `ArraySort.StableSortPermutes` | src/components/CurrentyTable.tsx:110 | `sort` returns a permutation of its input |
| `ArraySort.StableSortSorted` | src/components/CurrentyTable.tsx:110 | with a consistent comparator, `sort` returns its input in the comparator's order |
| `ArraySort.StableSortStable` | src/components/CurrentyTable.tsx:110 | elements the comparator ranks equal keep their relative order |
| `ArraySort.StableSortOfSorted` | src/components/CurrentyTable.tsx:110 | sorting an already sorted input returns it unchanged |
| `ArraySort.StableSortUnique` | src/components/CurrentyTable.tsx:110 | any sorted permutation of the input that keeps the elements tied with each element in their input order is the stable sort's outcome |
| `ArraySort.SortedSameTiesUnique` | src/components/CurrentyTable.tsx:110 | two sorted permutations of each other with the same order among tied elements are equal |
| `ArraySort.SortedUnique` | src/components/CurrentyTable.tsx:110 | two sorted permutations of each other are equal when no two different elements tie |
| `ArraySort.InsertInPlace` | src/components/CurrentyTable.tsx:110 | one insertion step on the array: its prefix becomes the stable insertion of the next element, and the rest is untouched |
| `ArraySort.SortInPlace` | src/components/CurrentyTable.tsx:109-110 | sorting the copied array in place leaves exactly the stable sort of its old contents |
| `Table.CurrencyTable.constructor` | src/components/CurrentyTable.tsx:79-81 | on mount: no result, an empty display, `'asc'`, no column |
| `Table.CurrencyTable.Header` | src/components/CurrentyTable.tsx:180-181 | a column header is active iff `orderBy` is that column; its arrow is `order` when active and `'asc'` otherwise |
| `Table.CurrencyTable.HandleSort` | src/components/CurrentyTable.tsx:100-112 | the direction flips on the active column and is `'asc'` on any other, and the clicked column becomes active. The display is the stable sort of the fetched rows (not of the displayed ones), or the fetched rows for `''`; the fetched rows are untouched. While no fetch has succeeded the handler throws and the display is left as it was. A header can only be clicked then after the first fetch failed, or on the first render before the mount effect starts the fetch, because the table shows only a spinner while a fetch is in flight. |
| `Table.CurrencyTable.Reload` | src/components/CurrentyTable.tsx:93-98 | resets to `'asc'` and no column; every header is inactive with an `'asc'` arrow; rows are unchanged until the fetch resolves |
| `Table.CurrencyTable.OnResult` | src/components/CurrentyTable.tsx:87-91 | a defined new result replaces the display (an empty array too); an undefined one leaves it; the sort state is untouched |
| `JsString.ToUpperCase` | src/services/api.ts:23 | upper-casing keeps the length, leaves no lower-case letter and changes only lower-case letters |
| `JsString.ToUpperCaseIdempotent` | src/services/api.ts:23 | upper-casing twice is upper-casing once |
| `JsString.ToUpperCaseOfUpper` | src/services/api.ts:23 | a string with no lower-case letter upper-cases to itself |
| `JsString.ToUpperCaseAddsNothing` | src/services/api.ts:23 | upper-casing introduces no character other than upper-case letters |
| `JsString.ToUpperCaseEqualIff` | src/services/api.ts:23 | two strings upper-case to the same string iff they are equal up to letter case |
| `JsString.Join` | src/services/api.ts:25 | the joined string starts with the first part, and when no part holds the separator it holds one separator fewer than there are parts |
| `JsString.Split` | src/services/api.ts:25 | the inverse of the `join`: splitting gives at least one part, none containing the separator |
| `JsString.SplitJoin` | src/services/api.ts:21-25 | splitting the join of separator-free parts gives the parts back |
| `Api.Position` | src/services/api.ts:28-40 | every field is read from a position below 11 other than 2, 4 and 5 |
| `Api.ToDetail` | src/services/api.ts:28-50 | each field of the detail is the record entry at that field's position |
| `Api.PositionsDistinct` | src/services/api.ts:28-40 | distinct fields are read from distinct positions |
| `Api.ToDetailIgnoresDroppedPositions` | src/services/api.ts:31-34 | records that agree on positions 0, 1, 3, 6, 7, 8, 9 and 10 map to the same detail, whatever positions 2, 4 and 5 hold |
| `Api.ToDetailSample` | src/services/api.ts:28-50 | `["BTC",100,1,101,1,0,0.05,100.5,1000,102,99]` maps to symbol BTC, bid 100, ask 101, change 0.05, last 100.5, volume 1000, high 102, low 99 |
| `Api.ToDetails` | src/services/api.ts:26-27 | the mapped list has the input's length and order, element by element |
| `Api.CompositeSymbol` | src/services/api.ts:23 | the composite symbol is one character longer than coin and base together |
| `Api.CompositeSymbols` | src/services/api.ts:21-24 | one composite symbol per coin, in order |
| `Api.CompositeSymbolIgnoresCase` | src/services/api.ts:23 | two coins give the same composite symbol iff they are equal up to letter case |
| `Api.CompositeSymbolSample` | src/services/api.ts:18-23 | `"btc"` and `"BTC"` both give `"tBTCUSD"` with the default base |
| `Api.CompositeSymbolWithoutComma` | src/services/api.ts:23 | a coin and base without commas give a composite symbol without commas |
| `Api.BaseOrDefault` | src/services/api.ts:18 | the base currency is the given one, or `USD` when it is omitted |
| `Api.SymbolsQuery` | src/services/api.ts:21-25 | the query is empty iff there are no coins; `SymbolsQuerySplits` proves splitting it at commas gives back the composite symbols |
| `Api.BaseWithoutComma` | src/services/api.ts:18 | the base currency, given or the default `USD`, has no comma when the given one has none |
| `Api.SymbolsQuerySplits` | src/services/api.ts:21-25 | with at least one coin and no commas in coins or base, splitting the query at commas gives one composite symbol per coin, in order |
| `Api.SymbolsQueryNoCoins` | src/services/api.ts:21-25 | with no coins the query is empty, and splitting it gives one empty entry |
| `Api.LoadData` | src/services/api.ts:5-14 | whatever endpoint name and query it is given, the outcome is that of fetching `data.json` |
| `Api.GetTickers` | src/services/api.ts:16-52 | fails iff the fetch of `data.json` fails, with the same cause; otherwise one detail per record, each the projection of its record |
| `Api.GetTickersIgnoresCoins` | src/services/api.ts:5-7 | the outcome does not depend on the coins or the base currency, because the query is never sent |

## Left out

- Rendering is not modelled: React/MUI, `useReactTable`/`flexRender`, the cell components and the explainer toggle. `Header` gives only the two values the table passes to each `TableSortLabel`.
- `useAsync` is not modelled: the loading spinner, error status, and overlapping reloads. `OnResult` is the moment the hook's `result` changes; a failed reload leaves `result` as it was, so it does not call `OnResult`.
- The mount effect's `execute()` and the one in `reloadTable` start a fetch. The fetch itself is `GetTickers` with the network as a parameter, and the UI never calls it directly in the model.
- `fetch`, `response.json()` and the `console.error` in `loadData` are not modelled. The parsed body is the parameter `fetch`. The URL in the comment at `src/services/api.ts:6` is never built by the code.
- Api.ToDetail, Api.ToDetails, Api.GetTickers: require records that match the declared `ResponseDataTicket` shape: at least 11 entries, a string symbol and numbers at the kept positions. Short records that yield `undefined` fields, and wrongly typed entries, are outside the model.
- Ticker.KeyLess: numbers are exact reals. NaN, infinities and floating-point rounding are not modelled, nor mixed number/string comparisons. Every field has one type.
- Ticker.LexLess: orders strings by Dafny characters (code points). JavaScript compares UTF-16 code units, and the two orders differ only for characters outside the Basic Multilingual Plane.
- JsString.ToUpperCase: upper-cases ASCII letters only; locale-specific case mappings of `toLocaleUpperCase` are not modelled.
- Table.CurrencyTable.HandleSort: with `''` the source also sorts its discarded copy with a comparator that reads a missing property. The model does not sort that copy, because the result is not observable. When the handler throws because no fetch has succeeded yet (after the first fetch failed, or on the first render before the mount effect starts the fetch), the model keeps the direction and column already set, as React applies setter calls made before the throw.
- `src/components/cells/Percentage.tsx` is not part of this model. It is floating-point and locale formatting.
