# eri_front core, modelled in Dafny

This project models the self-contained logic of the ERI front end and the
survey value objects of its backend. That logic is:

- the string and number formatters and validators of `com_util.js` and
  `formatter.js`: padding, date and time checks, date reformatting, comma
  grouping, and account, card, phone, e-mail and serial-number masking;
- the month grid, month stepping and date clicks of `Calendar.js`;
- the two bottom-sheet components: the drag-to-close gesture, the single and
  range date picker with its disabled-day rule, the option list, and the
  plain and period calendars;
- the client stores: the employee-name cache, the query cache with retries,
  the page-move flags with their cooldown timers, and the consultation popup
  store;
- the input filter of `CmpInput`, the sort and pagination of `Board`, the menu
  tree of both `HeaderArea` copies, the consultation form, and the two
  helpers of `utils.js`;
- the derived predicates of the Java survey value objects.

Everything is written as immutable datatypes and pure functions. A React
state update is a function from the old state to the new one. A timer is an
explicit tick event. The clock, the network fetcher and the browser are
parameters.

Shared modules hold the JavaScript and Java semantics the code relies on:

- `JsString`: `substring`, `substr`, `trim`, `split`, `indexOf`, string `<`,
  and `Number` on strings;
- `JsDate`: ECMAScript day numbers, including the rule that a two-digit year
  means 19xx;
- `StableSort`: the stable `Array.prototype.sort`;
- `Optional`: `null`/`undefined` as `None`.

## Model

| member | source | states |
|---|---|---|
| Board.Value | src/components/Board.js:44-45 | a column the row does not have reads as `undefined` |
| Board.Compare | src/components/Board.js:43-56 | the comparator answers only -1, 0 or 1; a missing left value always goes after, and a missing right value after a present left one |
| Board.LeMeaning | src/components/Board.js:51-55 | on numbers and on strings the comparator is `<=` for `asc` and `>=` for any other order; a missing value may follow anything and precede only another missing value |
| Board.LeTotal | src/components/Board.js:51-55 | on a column of one kind any two values are comparable one way or the other |
| Board.LeTransitive | src/components/Board.js:51-55 | on a column of one kind the comparator's order is transitive |
| Board.Insert | src/components/Board.js:43-56 | inserting a row adds exactly that row to the multiset of rows |
| Board.Sort | src/components/Board.js:42-57 | the sorted copy is a permutation of the rows |
| Board.SortedData | src/components/Board.js:40-58 | without a sort key the data comes back as given; with one it is a permutation of the data |
| Board.InsertOrdered | src/components/Board.js:43-56 | inserting into an ordered column of one kind keeps it ordered |
| Board.SortOrdered | src/components/Board.js:42-57 | sorting a column of one kind yields an ordered sequence |
| Board.KindsKept | src/components/Board.js:42 | a permutation of a column of one kind is of that same kind |
| Board.SortedDataOrdered | src/components/Board.js:40-58 | on a numbers-only or strings-only column `sortedData` is a permutation of the data that is ordered for the chosen direction, with every missing value after every present one |
| Board.MixedColumnInconsistent | src/components/Board.js:54 | once a number and a non-numeric string share a column, each compares as less than the other, so no consistent order exists |
| Board.HandleSort | src/components/Board.js:61-66 | an empty key does nothing; otherwise the clicked key is reported, descending exactly when that key was already sorted ascending, ascending in every other case |
| Board.HandleSortAlternates | src/components/Board.js:61-66 | clicking a new header three times gives ascending, descending, ascending |
| Board.RenderPagination | src/components/Board.js:69-98 | no pager for at most one page; otherwise one button per page numbered 1..totalPages, the current one disabled, and the arrows disabled at the ends |
| Board.PaginationStaysInRange | src/components/Board.js:69-98 | for a current page in range every enabled button leads to another page in range, and exactly the current page's button is disabled |
| CmpInput.Filter | src/components/ui/CmpInput.js:103 | the filtered text is no longer than the input and consists only of accepted characters |
| CmpInput.FilterConcat | src/components/ui/CmpInput.js:103 | filtering a concatenation filters each part, so what was kept of earlier text never changes |
| CmpInput.FilterCounts | src/components/ui/CmpInput.js:103 | every accepted character is kept as many times as it occurs and every other character is dropped |
| CmpInput.FilterKeepsAllowed | src/components/ui/CmpInput.js:103 | text made only of accepted characters passes unchanged |
| CmpInput.FilterValue | src/components/ui/CmpInput.js:92-104 | only a `text` input is filtered; every other input type passes its value through |
| CmpInput.FilterValueIdempotent | src/components/ui/CmpInput.js:92-104 | filtering twice is filtering once, and never lengthens the value |
| CmpInput.PatternMeanings | src/components/ui/CmpInput.js:21-28 | `num` accepts exactly the digits, `eng` exactly the Latin letters, `kor` exactly the Hangul syllables U+AC00..U+D7A3; `all`, an unknown type and a custom type without a RegExp behave alike and drop a newline |
| CmpInput.Sync | src/components/ui/CmpInput.js:82-84 | a new `value` prop replaces the stored value, with null or undefined read as "" |
| CmpInput.HandleChange | src/components/ui/CmpInput.js:111-116 | the stored value is the filtered typed text, and exactly when there is an `onChange` it receives that same value |
| CmpInput.HandleClear | src/components/ui/CmpInput.js:122-125 | the value becomes "" and exactly when there is an `onChange` it receives "" |
| CmpInput.ChangeToShownValue | src/components/ui/CmpInput.js:111-116 | re-sending the shown value leaves the state unchanged |
| CmpInput.ClearIsEmptyChange | src/components/ui/CmpInput.js:111-125 | clearing has the same effect as typing the empty string |
| CmpInput.TogglePassword | src/components/ui/CmpInput.js:168 | the eye button flips whether the password is shown and keeps the value |
| CmpInput.RenderedType | src/components/ui/CmpInput.js:134 | a password field renders as `text` exactly while shown and as `password` exactly while hidden; other types render as given |
| CmpInput.ToggleTwice | src/components/ui/CmpInput.js:134-168 | toggling twice restores the state and the rendered type |
| CmpInput.ClearHidesButton | src/components/ui/CmpInput.js:122-197 | after a clear the clear button is not shown |
| Utils.FormattedLabel | src/app/shared/utils/utils.js:6-17 | the null element exactly for an undefined label; a TypeError exactly for a null label, since only `undefined` is guarded before `split`; fragments exactly for a text |
| Utils.FormattedLabelShape | src/app/shared/utils/utils.js:11-16 | one fragment per `<br/>`-separated piece, holding that piece, with a line break after every fragment but the last; joining the fragments with the marker gives the label back |
| Utils.Breaks | src/app/shared/utils/utils.js:14 | a list of fragments has at most one line break per fragment |
| Utils.BreaksCount | src/app/shared/utils/utils.js:11-16 | a formatted label has exactly one line break fewer than fragments |
| Utils.ConvertToDataAttributes | src/app/shared/utils/utils.js:21-30 | a falsy argument gives the empty object; otherwise one attribute per key |
| Utils.DataAttributesRoundTrip | src/app/shared/utils/utils.js:21-30 | every attribute is the key prefixed with `data-` and keeps that key's value; stripping the prefix gives the styles back, and keys are distinct before exactly when they are distinct after |
| Utils.EmptyStyles | src/app/shared/utils/utils.js:21-30 | a falsy argument and an empty object give the same empty result |
| ConsultationPopupStore.Initial | src/app/core/slices/consultationPopupStore.js:10-13 | the store starts closed with no callback |
| ConsultationPopupStore.OpenPopup | src/app/core/slices/consultationPopupStore.js:16-18 | opening marks the popup open and stores whatever callback was given, null by default |
| ConsultationPopupStore.ClosePopup | src/app/core/slices/consultationPopupStore.js:21-23 | closing returns the store to its initial state |
| ConsultationPopupStore.HandleSuccess | src/app/core/slices/consultationPopupStore.js:26-32 | the stored callback is called once exactly when it is a function, and the store then closes |
| ConsultationPopupStore.OpenThenSucceed | src/app/core/slices/consultationPopupStore.js:16-32 | open then success calls the given callback exactly when it is a function and ends in the initial state, whatever the state before opening |
| ConsultationPopupStore.CloseDropsCallback | src/app/core/slices/consultationPopupStore.js:21-32 | after a close a success calls nothing |
| PageMoveStore.Initial | src/common/store/pageMoveStore.js:18-69 | a fresh store has no target, both flags down, no cooldown and no timers, and meets the store invariant |
| PageMoveStore.SetMoveTo | src/common/store/pageMoveStore.js:37 | only the target changes, to the given path |
| PageMoveStore.ResetMoveTo | src/common/store/pageMoveStore.js:42 | only the target changes, back to null |
| PageMoveStore.ResetMoveToForgets | src/common/store/pageMoveStore.js:37-42 | a reset after a set leaves no trace of the set, and setting the same target twice is setting it once |
| PageMoveStore.SetRefresh | src/common/store/pageMoveStore.js:51-58 | the flag ends up raised, nothing else changes, and an already raised flag leaves the store as it was |
| PageMoveStore.ResetRefresh | src/common/store/pageMoveStore.js:63-66 | only the refresh flag changes, and it ends lowered |
| PageMoveStore.SetRefreshIdempotent | src/common/store/pageMoveStore.js:51-66 | setting refresh twice is setting it once, and a reset undoes a set from a lowered flag |
| PageMoveStore.SetGoBack | src/common/store/pageMoveStore.js:76-105 | ignored during the cooldown and while `goBack` is up; otherwise raises `goBack`, starts a 1000 ms cooldown and schedules a safety reset 2000 ms later; target and refresh are never touched |
| PageMoveStore.ResetGoBack | src/common/store/pageMoveStore.js:110-113 | only `goBack` changes, lowered; the cooldown and the pending timers stay |
| PageMoveStore.Pending | src/common/store/pageMoveStore.js:97-103 | the timers still pending at a time are exactly those of the list that lie after it |
| PageMoveStore.Tick | src/common/store/pageMoveStore.js:91-103 | the clock advances; the cooldown survives only if it ends later; `goBack` survives only if no safety timer fires in the interval; the timers left are earlier ones still in the future |
| PageMoveStore.TickKeepsInv | src/common/store/pageMoveStore.js:80-103 | the passing of time keeps the store invariant |
| PageMoveStore.ApplyKeepsInv | src/common/store/pageMoveStore.js:37-113 | every store action and every tick keeps the store invariant |
| PageMoveStore.RunKeepsInv | src/common/store/pageMoveStore.js:37-113 | every sequence of events from an invariant store keeps the invariant |
| PageMoveStore.TimersBoundFlags | src/common/store/pageMoveStore.js:89-103 | whatever came before, the cooldown is over after 1000 ms and `goBack` is down after 2000 ms |
| PageMoveStore.GoBackPress | src/common/store/pageMoveStore.js:76-105 | an accepted press ignores a second press, the cooldown lasts exactly 1000 ms and the flag drops exactly 2000 ms after the press |
| PageMoveStore.StaleSafetyTimer | src/common/store/pageMoveStore.js:97-113 | an earlier press's safety timer survives `resetGoBack` and lowers a later press's flag after only 900 ms |
| EmpNameCache.New | src/common/empNameCache.js:21-24 | a new cache is valid, empty and not initialised |
| EmpNameCache.Position | src/common/empNameCache.js:42 | finds the first entry with the id, and finds none exactly when no entry has it |
| EmpNameCache.PositionOfEntry | src/common/empNameCache.js:42 | with unique ids, an entry's id leads back to that entry |
| EmpNameCache.ViewKeys | src/common/empNameCache.js:22 | the ids of the map are exactly the ids of its entries |
| EmpNameCache.ViewAt | src/common/empNameCache.js:59 | with unique ids, the map gives every entry's id that entry's name |
| EmpNameCache.ViewConcat | src/common/empNameCache.js:40-44 | the map of two runs of insertions is the later run laid over the earlier one |
| EmpNameCache.Put | src/common/empNameCache.js:42 | `Map.set` either updates in place or appends one entry |
| EmpNameCache.ReplaceView | src/common/empNameCache.js:88 | updating an entry's name in place updates the map at that id and nowhere else |
| EmpNameCache.PutLookup | src/common/empNameCache.js:88 | `Map.set` keeps the entries valid and changes the map at exactly one id |
| EmpNameCache.Delete | src/common/empNameCache.js:99 | `Map.delete` keeps only entries that were there and have another id |
| EmpNameCache.DeleteView | src/common/empNameCache.js:99 | deleting removes exactly that id from the map |
| EmpNameCache.DeleteUnique | src/common/empNameCache.js:99 | deleting keeps the ids unique |
| EmpNameCache.DeleteLookup | src/common/empNameCache.js:99 | `Map.delete` keeps the entries valid and removes exactly that id from the map |
| EmpNameCache.Initialize | src/common/empNameCache.js:31-48 | a falsy or non-object argument changes nothing; any object marks the cache initialised |
| EmpNameCache.KeepTruthy | src/common/empNameCache.js:41 | the entries kept are exactly those whose id and name are both non-empty |
| EmpNameCache.InitializeLookup | src/common/empNameCache.js:31-48 | after `initialize` the cache is valid and holds exactly the object's entries with a non-empty id and name, whatever it held before |
| EmpNameCache.PutAllLookup | src/common/empNameCache.js:40-44 | the `forEach` pass ends with the map of the old entries followed by the kept new ones |
| EmpNameCache.StepLookup | src/common/empNameCache.js:41-43 | one pass of the `forEach` acts on the map as appending the kept entry would |
| EmpNameCache.GetEmpName | src/common/empNameCache.js:56-61 | "" for an empty id; the cached name for a cached id; the id itself otherwise, so a non-empty id never reads as "" |
| EmpNameCache.GetEmpNameAfterSet | src/common/empNameCache.js:56-90 | after `setEmpInfo`, that id reads as the new name and every other id reads as before |
| EmpNameCache.GetEmpNameAfterRemove | src/common/empNameCache.js:56-101 | after `removeEmpInfo`, that id reads as itself and every other id reads as before |
| EmpNameCache.GetEmpId | src/common/empNameCache.js:69-78 | "" for an empty name; a returned id maps to that name and is the first such entry in insertion order; "" for a non-empty name means no id maps to it |
| EmpNameCache.FirstNamed | src/common/empNameCache.js:72-76 | finds the first entry with the name, and finds none exactly when no entry has it |
| EmpNameCache.SetEmpInfo | src/common/empNameCache.js:86-90 | an empty id or name changes nothing; the initialised flag never changes |
| EmpNameCache.RemoveEmpInfo | src/common/empNameCache.js:97-101 | an empty id changes nothing; the initialised flag never changes |
| EmpNameCache.SetRemoveLookup | src/common/empNameCache.js:86-101 | both keep the cache valid; `setEmpInfo` with both arguments non-empty sets the map at that id; `removeEmpInfo` with a non-empty id removes that id |
| EmpNameCache.GetSize | src/common/empNameCache.js:117-119 | the size is the number of ids in the map |
| EmpNameCache.IdsCount | src/common/empNameCache.js:118 | with unique ids there are as many ids as entries |
| EmpNameCache.Clear | src/common/empNameCache.js:134-138 | after a clear the cache is valid, empty and not initialised |
| EmpNameCache.SearchByName | src/common/empNameCache.js:146-156 | [] for an empty term; otherwise an entry is in the answer exactly when it is in the cache and its name contains the term (order and repeats: `SearchByNameAppend`) |
| EmpNameCache.SearchByNameAppend | src/common/empNameCache.js:146-156 | the answer follows the Map's order: an entry added last is reported last, exactly when its name contains the non-empty term |
| EmpNameCache.Matching | src/common/empNameCache.js:150-154 | the scan is no longer than its input, and an entry is kept exactly when its name contains the term (order and repeats: `MatchingAppend`) |
| EmpNameCache.MatchingAppend | src/common/empNameCache.js:150-154 | the scan keeps order and repeats: an entry appended to the input is appended to the result exactly when its name contains the term |
| EmpNameCache.GetStatus | src/common/empNameCache.js:166-172 | reports the initialised flag and the map's size, with `hasData` exactly when the map is non-empty |
| QueryStore.HexDigit | src/app/core/slices/queryStore.js:34 | a value below 16 becomes one lower-case hexadecimal digit |
| QueryStore.EscapeChar | src/app/core/slices/queryStore.js:26-34 | a character stands for itself inside a JSON string exactly when it is not a quote, a backslash or a control character; every other character becomes an escape starting with a backslash |
| QueryStore.Escape | src/app/core/slices/queryStore.js:26-34 | escaping never shortens a string |
| QueryStore.ItemTexts | src/app/core/slices/queryStore.js:26-28 | one text per array element, each written as `String` or `JSON.stringify` writes it |
| QueryStore.Insert | src/app/core/slices/queryStore.js:33 | inserting a property adds exactly that property |
| QueryStore.InsertSorted | src/app/core/slices/queryStore.js:33 | inserting a property with a new name into a name-sorted list keeps it sorted |
| QueryStore.SortFields | src/app/core/slices/queryStore.js:33 | sorting the property names permutes the properties |
| QueryStore.SortFieldsSorted | src/app/core/slices/queryStore.js:33 | with unique names the sorted properties are strictly ordered by name |
| QueryStore.SortedUnique | src/app/core/slices/queryStore.js:33 | two strictly sorted lists of the same properties are equal |
| QueryStore.SameHead | src/app/core/slices/queryStore.js:33 | two strictly sorted lists of the same properties start with the same property |
| QueryStore.CreateCacheKey | src/app/core/slices/queryStore.js:20-38 | a string is its own key, and only `null` (where `Object.keys` throws) gives no key |
| QueryStore.ObjectKeyOrderFree | src/app/core/slices/queryStore.js:31-35 | objects with the same properties get the same key whatever order the properties were created in |
| QueryStore.ArrayKeyReadsBack | src/app/core/slices/queryStore.js:25-29 | when no element's text contains '\|', splitting an array's key on '\|' gives the element texts back |
| QueryStore.KeyCollisions | src/app/core/slices/queryStore.js:20-38 | the number 1 and the string "1" share a key, and so do `["a\|b"]` and `["a", "b"]` |
| QueryStore.OrElse | src/app/core/slices/queryStore.js:48-62 | a missing or empty message gives the fallback; any other message is kept |
| QueryStore.ClassifyError | src/app/core/slices/queryStore.js:41-66 | a response makes a response error carrying its status and data; otherwise a request makes a network error; otherwise a request error keeping a non-empty message; the message is never empty |
| QueryStore.PreviousData | src/app/core/slices/queryStore.js:116 | the cached data when there is truthy cached data, and null otherwise |
| QueryStore.FirstSuccess | src/app/core/slices/queryStore.js:128-153 | the attempt found succeeds and every earlier attempt failed; none found means every attempt in range failed |
| QueryStore.Waits | src/app/core/slices/queryStore.js:158-161 | the wait after failed attempt k is `retryDelay * (k + 1)` |
| QueryStore.WaitsTotal | src/app/core/slices/queryStore.js:158-161 | the waits before attempt n add up to `retryDelay * n * (n + 1) / 2` |
| QueryStore.LoadingState | src/app/core/slices/queryStore.js:112-124 | while fetching, the state is loading and fetching, has no error, and is stamped with the current time |
| QueryStore.Attempts | src/app/core/slices/queryStore.js:128-180 | the retry loop stops at the first successful attempt; it calls the fetcher once per attempt up to that one, or `retry + 1` times when all fail, and never for a negative `retry`; the waits are those between the attempts made |
| QueryStore.Cached | src/app/core/slices/queryStore.js:92 | the cached entry for a key, present exactly when the cache holds the key |
| QueryStore.FetchQuery | src/app/core/slices/queryStore.js:111-180 | only the entry for the key changes; a negative retry count calls nothing and leaves the key loading; the first success, after the waits for the failures before it, is cached and returned stamped with its arrival time; after the last failure the state keeps the previous data and timestamp, holds the classified error, and the error is thrown |
| QueryStore.ExecuteQuery | src/app/core/slices/queryStore.js:76-181 | a disabled query and a null key change nothing and call nothing; a valid cache entry is returned without a call and with the cache untouched; otherwise the query is fetched as `FetchQuery` states; only the entry for the key ever changes |
| QueryStore.FirstSuccessAt | src/app/core/slices/queryStore.js:128-153 | a successful attempt preceded only by failures is the first success |
| QueryStore.GetQueryState | src/app/core/slices/queryStore.js:256-265 | the stored state for the key, or the idle default when there is none; a null key throws |
| QueryStore.InvalidateQueries | src/app/core/slices/queryStore.js:276-287 | the walk throws exactly when one of the keys is null |
| QueryStore.InvalidateDropsListed | src/app/core/slices/queryStore.js:276-287 | a key leaves the cache and the query states exactly when the walk reaches it; every other entry stays as it was |
| QueryStore.ListedExactly | src/app/core/slices/queryStore.js:276-287 | with no null key the walk reaches exactly the keys of the listed values |
| QueryStore.InvalidateThenRead | src/app/core/slices/queryStore.js:290-292 | after `invalidateQuery` the key has no cache entry and reads as the idle default |
| QueryStore.ClearCache | src/app/core/slices/queryStore.js:295-298 | both the cache and the query states end empty |
| QueryStore.UpdateQueryData | src/app/core/slices/queryStore.js:301-323 | a key without a state changes nothing; otherwise the state's data becomes `updater(data)`, the cache gets the same data under the state's timestamp, and every other cache entry stays; a null key throws |
| QueryStore.UpdateKeepsValidity | src/app/core/slices/queryStore.js:301-323 | after an update the cache entry is valid exactly when the state's timestamp was, so an update never makes stale data fresh |
| HeaderArea.Level | src/app/shared/layouts/HeaderArea.js:24-25 | keeps exactly the menus whose level is strictly the given number and whose `mnuUseYn` is 'Y' |
| HeaderArea.ChildrenOf | src/app/shared/layouts/HeaderArea.js:29-30 | keeps exactly the second-level menus whose parent code is strictly equal to the given code, so null and a missing code do not match |
| HeaderArea.StrictComparisons | src/app/shared/layouts/HeaderArea.js:24-30 | a menu whose level is the text "1" is no node, and a child with a null parent code is not attached to a menu without a code |
| HeaderArea.Attach | src/app/shared/layouts/HeaderArea.js:28-36 | one node per first-level menu |
| HeaderArea.ItemsAttach | src/app/shared/layouts/HeaderArea.js:28-36 | attaching children keeps the first-level menus and their order |
| HeaderArea.ItemsSort | src/app/shared/layouts/HeaderArea.js:37 | sorting the nodes by `mnuOrd` sorts their menus the same way |
| HeaderArea.HierarchyTopLevel | src/app/shared/layouts/HeaderArea.js:23-40 | the tree's first-level menus are exactly the enabled level-1 menus of the list, each as often as in the list, stably sorted by `mnuOrd` |
| HeaderArea.HierarchyChildren | src/app/shared/layouts/HeaderArea.js:28-36 | each node's children are exactly the enabled level-2 menus naming it as parent, stably sorted by `mnuOrd` |
| HeaderArea.OnlyTwoLevels | src/app/shared/layouts/HeaderArea.js:23-40 | every node is an enabled level-1 menu and every child an enabled level-2 menu of the list |
| HeaderArea.OrphansDropped | src/app/shared/layouts/HeaderArea.js:29-31 | a level-2 menu whose parent code matches no enabled level-1 menu appears nowhere in the tree |
| HeaderArea.Fallback | src/components/layout/HeaderArea.js:64-72 | a failed request sets the five fixed names without children, with their paths in the shared-layout copy and with '#' in the components copy |
| HeaderArea.LoadMenus | src/app/shared/layouts/HeaderArea.js:43-75 | on a login page or the root the menus are emptied; menus already loaded are kept |
| HeaderArea.FetchOnlyWhenEmpty | src/app/shared/layouts/HeaderArea.js:43-50 | off a rendered page, or with menus already loaded, the request's outcome makes no difference |
| HeaderArea.LoadOutcomes | src/app/shared/layouts/HeaderArea.js:51-74 | with no menus loaded, a failure leaves the fallback, an answer the tree of its list, an answer without an array the empty tree; a second load changes nothing |
| HeaderArea.RenderGuard | src/components/layout/HeaderArea.js:20-21 | every path starting with `/login` is hidden, the root is hidden, `/main` is shown |
| HeaderArea.FixedRoute | src/app/shared/layouts/HeaderArea.js:82-97 | exactly the five fixed names have a route, each its own path |
| HeaderArea.HandleMenuClick | src/app/shared/layouts/HeaderArea.js:78-107 | a fixed name moves to its path; any other menu navigates exactly when its URL is non-empty and not '#', and then to that URL |
| HeaderArea.FixedNameIgnoresUrl | src/app/shared/layouts/HeaderArea.js:82-97 | for a fixed name the URL and every other field are ignored |
| HeaderArea.FallbackClicksMove | src/app/shared/layouts/HeaderArea.js:65-97 | each fallback entry of this copy carries the path that clicking it moves to |
| StableSort.Insert | src/app/shared/layouts/HeaderArea.js:31-37 | inserting an element adds exactly that element |
| StableSort.SortBy | src/app/shared/layouts/HeaderArea.js:31-37 | the sort permutes its input |
| StableSort.SortSorted | src/app/shared/layouts/HeaderArea.js:31-37 | the result is ordered by the key |
| StableSort.SortOfKey | src/app/shared/layouts/HeaderArea.js:31-37 | the elements of each key keep their relative order |
| StableSort.StableSortUnique | src/app/shared/layouts/HeaderArea.js:31-37 | two key-ordered lists with the same elements of every key, in the same order, are equal |
| StableSort.SortIsStable | src/app/shared/layouts/HeaderArea.js:31-37 | the sort is a stable sort of its input: a permutation, ordered by key, keeping the order within each key |
| StableSort.SortCharacterized | src/app/shared/layouts/HeaderArea.js:31-37 | a list is the sort of the input exactly when it is a stable sort of it, so every stable sort by the same key agrees |
| JsString.Substring | src/common/formatter.js:137-139 | in-range bounds give the slice, reversed bounds give the slice between them, and the result is never longer than the string |
| JsString.Substr | src/app/shared/utils/com_util.js:274-281 | an in-range start and length give the slice; a start past the end or a non-positive length gives "" |
| JsString.Trim | src/app/shared/components/ConsultationPopup.js:78-90 | the trimmed text is empty exactly when the string is all white space, and otherwise neither starts nor ends with white space |
| JsString.IndexOf | src/common/formatter.js:719 | the first position where the text occurs, or none when it occurs nowhere |
| JsString.Includes | src/common/empNameCache.js:151 | true exactly when the text occurs somewhere |
| JsString.Split | src/common/formatter.js:719 | a split always gives at least one piece |
| JsString.SplitJoin | src/app/shared/utils/utils.js:11 | splitting and re-joining with the same separator gives the string back |
| JsString.SplitPiecesFree | src/common/formatter.js:719 | no piece of a split contains the separator |
| JsString.JoinSplit | src/app/core/slices/queryStore.js:26-28 | pieces free of a one-character separator, joined and split again, come back unchanged |
| JsString.RemoveChar | src/common/formatter.js:668 | the result has no occurrence of the character, is no longer than the input, and a string without the character is unchanged |
| JsString.RemoveCharConcat | src/common/formatter.js:668 | removing a character from a concatenation removes it from each part |
| JsString.KeepDigits | src/app/shared/utils/com_util.js:271-273 | only digits remain, and a string of digits is unchanged |
| JsString.ToNumber | src/app/shared/utils/com_util.js:1624-1627 | a string of digits reads as its decimal value, and the empty string as 0 |
| JsString.ToNumberTrims | src/app/shared/utils/com_util.js:1624-1627 | `Number` ignores surrounding white space |
| JsString.LetterIsNaN | src/app/shared/utils/com_util.js:1624-1627 | a lone Latin letter is not a number |
| JsString.NatString | src/app/shared/components/Calendar.js:55-56 | the decimal text of a natural number is a digit string whose value is that number |
| JsString.IntString | src/app/shared/components/Calendar.js:55-56 | `String(n)` is the decimal text, with a minus sign for a negative number |
| JsString.PadStart | src/app/shared/components/Calendar.js:55-56 | a string shorter than the width is filled on the left to the width; a longer one is unchanged |
| JsString.StrLtTrichotomy | src/components/Board.js:54-55 | string `<` is a strict total order: exactly one of less, greater or equal |
| JsString.StrLtTransitive | src/components/Board.js:54-55 | string `<` is transitive |
| JsString.StrLtDigits | src/components/Board.js:54-55 | on digit strings of one length `<` orders by value |
| JsDate.DaysInYear | src/app/shared/utils/com_util.js:1639-1641 | 366 days exactly in a Gregorian leap year, 365 otherwise |
| JsDate.DaysInMonth | src/app/shared/utils/com_util.js:1638-1643 | a month has 28 to 31 days, and February has 29 exactly in a leap year |
| JsDate.MonthStep | src/app/shared/components/Calendar.js:28-29 | each month starts its predecessor's length after the predecessor |
| JsDate.YearStep | src/app/shared/components/Calendar.js:28-29 | each year starts its predecessor's length after the predecessor |
| JsDate.DayNumberOrder | src/app/shared/components/bottomSheets/cmp_bottomSheets.js:471-477 | comparing two valid dates as `Date` objects compares them in calendar order |
| JsDate.DayNumberInjective | src/app/shared/components/bottomSheets/cmp_bottomSheets.js:471-477 | two valid dates with the same time value are the same date |
| JsDate.FullYear | src/app/shared/components/Calendar.js:210 | a year argument from 0 to 99 means 1900 to 1999; any other year is kept |
| JsDate.NormalizeMonth | src/app/shared/components/Calendar.js:29 | a month outside 0..11 rolls into a month 0..11 of another year denoting the same month |
| JsDate.Roll | src/app/shared/components/Calendar.js:29 | a day outside its month rolls into a valid date with the same day count |
| JsDate.NewDate | src/app/shared/components/Calendar.js:210 | `new Date(y, m, d)` is a valid date whose time value is the one the constructor computes from the three arguments |
| JsDate.NewDateOfValid | src/app/shared/components/Calendar.js:210 | a valid date passed back through the constructor is unchanged, for years outside 0..99 |
| JsDate.LastDayOfMonth | src/app/shared/components/Calendar.js:29 | day 0 of the next month is the last day of this month |
| JsDate.WeekDay | src/app/shared/components/Calendar.js:32 | `getDay()` lies in 0..6 |
| Calendar.CellFor | src/app/shared/components/Calendar.js:37-41 | a cell holds its day exactly when the day belongs to the month, and null otherwise |
| Calendar.FirstWeekDay | src/app/shared/components/Calendar.js:28-32 | the weekday of the first of the month lies in 0..6 |
| Calendar.LastDate | src/app/shared/components/Calendar.js:29 | the length read from day 0 of the next month lies in 28..31 |
| Calendar.GetCalendarMatrix | src/app/shared/components/Calendar.js:26-46 | just enough rows of seven cells to hold the month starting at the weekday of its first; the cell in row r and column c holds day 7r + c + 1 - weekday when that is a day of the month, and null otherwise |
| Calendar.Week | src/app/shared/components/Calendar.js:35-42 | a row holds the seven cells from its first day on |
| Calendar.AppendRow | src/app/shared/components/Calendar.js:43 | appending the next row keeps every earlier cell in place |
| Calendar.RowCount | src/app/shared/components/Calendar.js:34 | the loop makes the fewest rows of seven that hold all cells |
| Calendar.EachDayOnce | src/app/shared/components/Calendar.js:26-46 | every day of the month appears in exactly one cell, at the row and column its weekday offset gives |
| Calendar.ColumnIsWeekDay | src/app/shared/components/Calendar.js:32 | a day's column is its weekday, column 0 being Sunday |
| Calendar.LastDateIsMonthLength | src/app/shared/components/Calendar.js:29 | for years outside 0..99, the length the component reads is the month's number of days |
| Calendar.ParseIsoDate | src/app/shared/components/Calendar.js:53-58 | only a ten-character string can name a date |
| Calendar.PadTwo | src/app/shared/components/Calendar.js:55-56 | a number from 1 to 99 padded to two digits reads back as that number |
| Calendar.FormatDateRoundTrip | src/app/shared/components/Calendar.js:53-58 | a valid date of a four-digit year formats to a YYYY-MM-DD string that parses back to the same date |
| Calendar.FormatDateInjective | src/app/shared/components/Calendar.js:53-58 | on four-digit years two dates format alike exactly when they are equal |
| Calendar.OrNumber | src/app/shared/components/Calendar.js:148-149 | a present non-zero number is kept, and 0 or a missing number gives the fallback |
| Calendar.Init | src/app/shared/components/Calendar.js:147-150 | with no year and month given, today's year and month are shown; the selection is the given date |
| Calendar.PreviousMonth | src/app/shared/components/Calendar.js:169-176 | one month back, staying a valid month, with the selection kept |
| Calendar.NextMonth | src/app/shared/components/Calendar.js:181-188 | one month forward, staying a valid month, with the selection kept |
| Calendar.NavigationInverse | src/app/shared/components/Calendar.js:169-188 | forward then back, and back then forward, return to the same view |
| Calendar.TodayDate | src/app/shared/components/Calendar.js:163-164 | today is highlighted exactly when the displayed month is today's month, and then on today's day |
| Calendar.GoToToday | src/app/shared/components/Calendar.js:193-201 | today's month is shown with today highlighted and selected, and the callback, when there is one, receives today |
| Calendar.HandleDateClick | src/app/shared/components/Calendar.js:207-216 | a null cell does nothing; otherwise the displayed month stays, the clicked day's date is selected, and exactly when there is a callback it receives the selected date |
| Calendar.ClickedDate | src/app/shared/components/Calendar.js:210 | the clicked date is valid, and for a day of the displayed month of a year outside 0..99 it is that very day |
| Calendar.DayOfView | src/app/shared/components/Calendar.js:210 | the constructor leaves a day of the displayed month as it is, for years outside 0..99 |
| Calendar.EventsOn | src/app/shared/components/Calendar.js:227 | an event is kept exactly when it is in the list and dated with the given string (order and repeats: `EventsOnAppend`) |
| Calendar.EventsOnAppend | src/app/shared/components/Calendar.js:227 | the filter keeps order and repeats: an event appended to the list is appended to the result exactly when it falls on the date |
| Calendar.GetEventsForDate | src/app/shared/components/Calendar.js:223-228 | nothing for a null cell or hidden events; otherwise the events dated with the formatted clicked date |
| Calendar.EventsForDayMatch | src/app/shared/components/Calendar.js:223-228 | an event is listed on a day of the displayed month exactly when its date string parses to that day |
| Calendar.EventsKeyOfDay | src/app/shared/components/Calendar.js:226-227 | the events of a day of the displayed month are those keyed by that day's formatted date |
| Calendar.ParseInjective | src/app/shared/components/Calendar.js:53-58 | two strings that parse to the same date are equal |
| Formatter.Time | src/common/formatter.js:133-144 | a falsy value is returned as is; four, six and eight characters gain ':' after each pair (and '.' before the last pair of eight); every other length is unchanged |
| Formatter.TimeDigits | src/common/formatter.js:133-144 | only texts of the three formatted lengths read back, to four, six or eight characters |
| Formatter.TimeRoundTrip | src/common/formatter.js:133-144 | formatting four, six or eight characters and removing the separators gives them back |
| Formatter.TimeDigitsRoundTrip | src/common/formatter.js:133-144 | every formatted time is what `time` makes of its own characters |
| Formatter.Date1 | src/common/formatter.js:152-159 | a six-character value becomes its characters 4-5 followed by "월"; an eight-character value becomes characters 4-5, "월", characters 6-7, "일"; a falsy value and every other length are returned as is |
| Formatter.Date1FromDateText | src/common/formatter.js:152-159 | `date1` shows the month and day fields that `date` shows between dots, without the year |
| Formatter.MaskMiddle | src/common/formatter.js:376-378 | the three characters at distance 7 to 5 from the end become "***" and the rest is kept; a shorter text gets "***" in front of its last four characters |
| Formatter.AccountMask | src/common/formatter.js:361-453 | a falsy value is returned as is, any other value gives a text, and another bank's account keeps its length with "***" at distance 7 to 5 from the end |
| Formatter.AccountMaskOtherBank | src/common/formatter.js:368-382 | for another bank, `account` leaves the number as it is and `accountMask` differs from it in exactly the three masked places |
| Formatter.AccountMaskTextLayout | src/common/formatter.js:428-452 | with a text layout `accountMask` and `account` give the same text |
| Formatter.PhoneCuts | src/common/formatter.js:527-553 | Seoul "02" numbers of 9 or 10 characters, "0505" numbers of 11 or 12 and other numbers of 10 or 11 are cut after the area code (2, 4 or 3 characters) and before the last four; no other number is cut |
| Formatter.Phone | src/common/formatter.js:527-553 | null and "" give ""; lengths outside 9..12 come back unchanged; a number without cuts gives `undefined`; otherwise the result is the area code, the exchange and the line number joined by hyphens, cut where `PhoneCuts` says, with the line number shown as "****" unless `donMask` |
| Formatter.PhoneKeepsDigits | src/common/formatter.js:532-542 | unmasked, the formatted number is the number with hyphens added and nothing else changed |
| Formatter.ThreeCuts | src/common/formatter.js:532-542 | cutting a text twice and joining with hyphens adds only hyphens |
| Formatter.PhoneMaskHidesLineNumber | src/common/formatter.js:527-553 | the masked and unmasked forms exist for the same numbers, and the masked one is the unmasked one with its last four characters replaced by "****" |
| Formatter.Card | src/common/formatter.js:666-679 | null gives ""; hyphens are removed; sixteen digits appear as four groups of four joined by hyphens, the middle groups as "****" when masked; other lengths come back without hyphens |
| Formatter.GroupedShape | src/common/formatter.js:672-674 | four groups of four joined by hyphens have hyphens at 4, 9 and 14 and the groups between them |
| Formatter.CardIdempotent | src/common/formatter.js:666-679 | the unmasked card text loses nothing but hyphens, so formatting it again changes nothing |
| Formatter.FourGroups | src/common/formatter.js:674 | four groups joined by hyphens strip back to the sixteen digits |
| Formatter.CardMaskHidesMiddle | src/common/formatter.js:670-675 | masking changes nothing outside the two middle groups |
| Formatter.AdrsNo | src/common/formatter.js:682-687 | a falsy value is returned as is; otherwise the input's hyphens are dropped, a hyphen follows the first three characters (or all, when fewer), the text without hyphens is the first six characters of the input without hyphens, and the result is exactly one character longer than those |
| Formatter.AdrsNoIdempotent | src/common/formatter.js:682-687 | formatting a postal code twice is formatting it once |
| Formatter.SecuMediaNoMasking | src/common/formatter.js:689-708 | null gives ""; up to six characters are unchanged; longer ones keep their length, their first two and last four characters, with '*' everywhere between |
| Formatter.SecuMediaNoMaskingIdempotent | src/common/formatter.js:689-708 | masking a masked serial number changes nothing |
| Formatter.EmailMasking | src/common/formatter.js:710-732 | a missing or blank address, or one without '@', gives "" |
| Formatter.SplitHasTwo | src/common/formatter.js:719-729 | an address with '@' splits into at least two parts: the text before the first '@' and the text after it up to any second '@' |
| Formatter.EmailMaskingShape | src/common/formatter.js:710-732 | for an address whose first '@' is at position j, the result has '@' at j, the first two characters of the local part, '*' for each other character of it, then the text after the '@' up to any second '@' |
| Formatter.EmailMaskingParts | src/common/formatter.js:719-729 | the masked address is the kept characters, the stars, '@' and the second part of the split |
| ComUtil.Repeat | src/app/shared/utils/com_util.js:832-839 | empty for a non-positive count; otherwise `n` whole copies of the filler: the length is `n * |fill|` and character `i` is the filler's character `i mod |fill|` |
| ComUtil.Lpad | src/app/shared/utils/com_util.js:832-839 | a text at least as long as the width is unchanged; otherwise the text is preceded by one whole copy of the filler per missing position (length `|src| + (len - |src|) * |fill|`, character `i` of the prefix is the filler's `i mod |fill|`), which is exactly the width for a one-character filler |
| ComUtil.Rpad | src/app/shared/utils/com_util.js:987-994 | as `lpad`, with the whole copies of the filler after the text |
| ComUtil.LpadIsPadStart | src/app/shared/utils/com_util.js:832-839 | with a one-character filler `lpad` is the standard `padStart` |
| ComUtil.DateText | src/app/shared/utils/com_util.js:932-940 | a falsy value and lengths other than 4, 6 and 8 are returned as is; six characters become `d[..4] + "." + d[4..]`, eight become `d[..4] + "." + d[4..6] + "." + d[6..]`, and four become `d[..2] + "." + d[2..]` |
| ComUtil.IsValidDayMeansRealDate | src/app/shared/utils/com_util.js:1636-1644 | for numeric fields, `isValidDay` accepts exactly the dates that exist in the Gregorian calendar |
| ComUtil.IsValidDateDigits | src/app/shared/utils/com_util.js:1597-1617 | for eight digits, `isValidDate` accepts exactly the existing dates from the year 1900 on |
| ComUtil.DayDigits | src/app/shared/utils/com_util.js:1636-1644 | for digit strings, `isValidDay` accepts exactly the existing dates |
| ComUtil.MonthDigits | src/app/shared/utils/com_util.js:1624-1627 | for a digit string, `isValidMonth` accepts exactly the values 1 to 12 |
| ComUtil.IsValidTimeDigits | src/app/shared/utils/com_util.js:1651-1677 | for six digits, `isValidTime` accepts exactly hours below 24 with minutes and seconds below 60 |
| ComUtil.HourDigits | src/app/shared/utils/com_util.js:1651-1654 | for a digit string, `isValidHour` accepts exactly the values below 24 |
| ComUtil.MinDigits | src/app/shared/utils/com_util.js:1661-1664 | for a digit string, `isValidMin` accepts exactly the values below 60 |
| ComUtil.IsValidTimeEmpty | src/app/shared/utils/com_util.js:1671-1677 | missing fields read as zero, so the empty string and a four-digit "1230" pass |
| ComUtil.IsValidMonth | src/app/shared/utils/com_util.js:1624-1627 | holds exactly when the text reads as a whole number from 1 to 12 |
| ComUtil.IsValidDay | src/app/shared/utils/com_util.js:1636-1644 | holds exactly when the month reads as 1 to 12, the day reads as a number, and that day exists in that month of the year, a year that is not a number counting as a common year |
| ComUtil.IsValidDate | src/app/shared/utils/com_util.js:1597-1617 | only six or eight characters can pass, with a month of 1 to 12; six characters need a year from 1900, eight also need a valid day |
| ComUtil.IsValidHour | src/app/shared/utils/com_util.js:1651-1654 | holds exactly when the text reads as a whole number from 0 to 23 |
| ComUtil.IsValidMin | src/app/shared/utils/com_util.js:1661-1664 | holds exactly when the text reads as a whole number from 0 to 59 |
| ComUtil.IsValidTime | src/app/shared/utils/com_util.js:1671-1677 | holds exactly when characters 0-2 read as an hour of 0 to 23 and characters 2-4 and 4-6 as 0 to 59 |
| ComUtil.GetJbBankYn | src/app/shared/utils/com_util.js:183-191 | holds exactly for "037" and "37", codes of two or three characters ending in "37" |
| ComUtil.OtherBank | src/app/shared/utils/com_util.js:216-217 | another bank's account exactly when a code of three characters is given that is not "037" |
| ComUtil.GroupThousands | src/app/shared/utils/com_util.js:1118-1130 | up to three digits are unchanged |
| ComUtil.GroupThousandsLength | src/app/shared/utils/com_util.js:1118-1130 | grouping adds one comma per complete group of three beyond the first |
| ComUtil.GroupThousandsStrip | src/app/shared/utils/com_util.js:1118-1130 | removing the commas of a grouped comma-free text gives it back |
| ComUtil.GroupDigits | src/app/shared/utils/com_util.js:1118-1130 | the loop over the digits produces the reference grouping, a comma before each group of three counted from the right |
| ComUtil.GroupLoop | src/app/shared/utils/com_util.js:1131-1134 | after the loop over the digits past the leading `|a| % 3`, the text is the leading group followed by every later digit with a comma before each third one (`GroupedSoFar`), having gone through all of them |
| ComUtil.GroupIteration | src/app/shared/utils/com_util.js:1126-1129 | one pass of the loop appends the next digit, after a comma when it opens a group |
| ComUtil.LastIndexOfChar | src/app/shared/utils/com_util.js:1110-1112 | the scan finds the last '.', or none when there is none |
| ComUtil.SplitAmount | src/app/shared/utils/com_util.js:1108-1122 | sign, integer digits and fraction put back together give the comma-free amount |
| ComUtil.AddComma | src/app/shared/utils/com_util.js:1101-1142 | removing the commas of the result gives the input without commas: only commas are added |
| ComUtil.AddCommaIdempotent | src/app/shared/utils/com_util.js:1101-1142 | formatting an already formatted amount changes nothing |
| ComUtil.AddCommaLength | src/app/shared/utils/com_util.js:1101-1142 | the result is the comma-free input plus one comma per complete group of three integer digits beyond the first |
| ComUtil.MaskTail | src/app/shared/utils/com_util.js:218 | the three characters before the last one become "***" and the rest is kept |
| ComUtil.DefaultLayout | src/app/shared/utils/com_util.js:227-261 | sixteen characters starting "000" read 4-2-7 from position 3, or 3-2-7 from position 4 when a fourth zero follows; other sixteen-character numbers show their first and last four digits with the middle eight as "****-****"; twelve characters read 3-2-7 and thirteen 4-2-7; any other length is returned unchanged when it is a kept convenient number, otherwise without a leading "0000" or "000"; stripped of hyphens, every result but the masked one is the input minus at most four leading zeros |
| ComUtil.WidthOf | src/app/shared/utils/com_util.js:274-278 | a layout digit asks for its own width and any other character for none |
| ComUtil.Piece | src/app/shared/utils/com_util.js:274-284 | a piece of a digit string is a digit string |
| ComUtil.TextPieces | src/app/shared/utils/com_util.js:274-284 | the loop keeps only non-empty pieces, and pieces of digits are digits |
| ComUtil.TextPiecesStep | src/app/shared/utils/com_util.js:275 | a non-empty piece is kept and an empty one dropped |
| ComUtil.OtherBankCodes | src/app/shared/utils/com_util.js:183-191 | a bank code marks another bank's account exactly when it has three characters and is not "037"; "37" is own-bank, "004" is another bank's, and an absent code is not |
| ComUtil.Account | src/app/shared/utils/com_util.js:211-289 | a falsy value is returned as is and any other value gives a text; another bank's account is returned as is unless `isMask` is true, and then keeps its length with "***" before the last character; an own-bank account with a text layout shows only digits and hyphens |
| ComUtil.TextLayout | src/app/shared/utils/com_util.js:268-288 | the text-layout branch shows only digits and hyphens |
| ComUtil.AccountDefaultKeepsDigits | src/app/shared/utils/com_util.js:227-261 | in the default layout, apart from card numbers, the hyphen-free result is the input minus some leading zeros |
| ComUtil.AccountArrayLayoutIgnored | src/app/shared/utils/com_util.js:198-212 | an array layout as documented is discarded, so an account of 9 to 11 characters starting with "0", such as "0123456789", comes back unformatted |
| ComUtil.AccountTextLayoutLosesTail | src/app/shared/utils/com_util.js:274-281 | the text layout "334" on ten digits gives only the first 3-3 digits: the running start becomes the text "033" and the tail is lost |
| ComUtil.AccountTextLayout | src/app/shared/utils/com_util.js:268-288 | an own-bank account with a text layout joins the layout loop's pieces of its digits with hyphens |
| ComUtil.WidthPieces | src/app/shared/utils/com_util.js:198-208 | the intended pieces are non-empty, and digits when the input is digits |
| ComUtil.WidthPiecesCover | src/app/shared/utils/com_util.js:198-208 | the intended pieces are consecutive and cover every digit from the start |
| ComUtil.JoinStrip | src/app/shared/utils/com_util.js:284-287 | joining digit pieces with hyphens and removing the hyphens concatenates the pieces |
| ComUtil.AccountWithWidths | src/app/shared/utils/com_util.js:198-208 | the intended formatting adds only hyphens: stripped of them, it is the digits of the input |
| ComUtil.AccountWithWidthsExample | src/app/shared/utils/com_util.js:198-208 | the documented example `[3,3,4]` splits ten digits 3-3-4 and keeps all of them |
| ConsultationPopup.EmptyForm | src/app/shared/components/ConsultationPopup.js:143-151 | the default form has every text field empty and is not anonymous |
| ConsultationPopup.ResetForm | src/app/shared/components/ConsultationPopup.js:143-153 | a reset restores the default form, drops every file and leaves the loading flag alone |
| ConsultationPopup.HandleAnonymousChange | src/app/shared/components/ConsultationPopup.js:58-66 | the choice is stored; the nickname survives only when the request becomes anonymous; no other field changes |
| ConsultationPopup.HandlePriorityChange | src/app/shared/components/ConsultationPopup.js:69-74 | only the priority changes, to the given value |
| ConsultationPopup.EditKeepsNicknameRule | src/app/shared/components/ConsultationPopup.js:58-66 | no edit gives a non-anonymous form a nickname, so a request that is not anonymous never sends one |
| ConsultationPopup.ValidateMeaning | src/app/shared/components/ConsultationPopup.js:77-93 | each alert appears exactly when its check fails and every earlier check passes: blank title, blank content, no category, then an anonymous request with a blank nickname; no alert exactly for a complete form |
| ConsultationPopup.ResetFormIsIncomplete | src/app/shared/components/ConsultationPopup.js:78-81 | a reset form fails first on its title |
| ConsultationPopup.UrgentYn | src/app/shared/components/ConsultationPopup.js:110 | 'Y' exactly for the urgent priority code "PRI001", 'N' for every other code |
| ConsultationPopup.Fields | src/app/shared/components/ConsultationPopup.js:102-111 | the fixed part of the body has seven entries |
| ConsultationPopup.Payload | src/app/shared/components/ConsultationPopup.js:102-115 | the body holds the seven fixed entries and one more per file |
| ConsultationPopup.FormReadsBack | src/app/shared/components/ConsultationPopup.js:102-111 | reading the body's fields back gives the form, and `urgentYn` is 'Y' exactly for the urgent priority |
| ConsultationPopup.FilesReadBack | src/app/shared/components/ConsultationPopup.js:113-115 | the body's `files` entries are the files, in order |
| ConsultationPopup.IncompleteSendsNothing | src/app/shared/components/ConsultationPopup.js:77-93 | an incomplete form sends nothing, changes nothing, calls nothing and alerts the first failing check, whatever the server would answer |
| ConsultationPopup.CompleteIsSent | src/app/shared/components/ConsultationPopup.js:100-139 | a complete form is sent as its body and loading ends; only a success clears the form, closes the popup and, when there is one, calls `onSuccess`; a refusal or an error keeps the input |
| ConsultationPopup.RefusalText | src/app/shared/components/ConsultationPopup.js:131-133 | a refusal shows its message, or the default text when the message is empty or missing |
| ConsultationPopup.CompletePasses | src/app/shared/components/ConsultationPopup.js:77-93 | a complete form raises no alert |
| ConsultationPopup.CloseIsReset | src/app/shared/components/ConsultationPopup.js:161-164 | closing leaves the default form and no files, and resetting twice is resetting once |
| BottomSheets.StampInjective | src/common/ui_com.js:248-256 | the `hhmmss` stamp tells readings apart exactly to the second, so a zero touch time means the gesture ended in the second it began |
| BottomSheets.TouchStart | src/app/shared/components/bottomSheets/cmp_bottomSheets.js:64-68 | the start position and time are those of the touch, and the drag distance of the previous gesture survives |
| BottomSheets.TouchMove | src/app/shared/components/bottomSheets/cmp_bottomSheets.js:70-76 | the drag distance is never negative, is at least how far the finger went below the start, and is either zero or exactly that distance |
| BottomSheets.TouchEnd | src/app/shared/components/bottomSheets/cmp_bottomSheets.js:78-111 | an undragged sheet is left alone, and only an undragged one |
| BottomSheets.TouchEndCloses | src/app/shared/components/bottomSheets/cmp_bottomSheets.js:78-111 | a dragged sheet closes exactly when the drag was short and ended in the second it began, or reached a third of the sheet's height, and snaps back otherwise |
| BottomSheets.FartherStillCloses | src/app/shared/components/bottomSheets/cmp_bottomSheets.js:96-103 | past the first second, dragging farther never turns a close into a snap-back |
| BottomSheets.QuickDragsNotMonotone | src/app/shared/components/bottomSheets/cmp_bottomSheets.js:84-95 | within one second a 10-pixel drag closes a 600-pixel sheet while a 160-pixel drag snaps it back |
| BottomSheets.Swipe | src/app/shared/components/bottomSheets/cmp_bottomSheets.js:64-111 | a whole gesture leaves a non-negative drag distance |
| BottomSheets.StaleDragClosesOnTap | src/app/shared/components/bottomSheets/cmp_bottomSheets.js:64-111 | as written, a slow drag that snaps back followed by a tap with no movement in a later second closes the sheet |
| BottomSheets.TouchStartFresh | src/app/shared/components/bottomSheets/cmp_bottomSheets.js:64-68 | the corrected start records the touch and clears the previous drag distance |
| BottomSheets.FreshTapStays | src/app/shared/components/bottomSheets/cmp_bottomSheets.js:64-111 | with the reset a tap without movement never moves the sheet |
| BottomSheets.FreshGestureForgetsHistory | src/app/shared/components/bottomSheets/cmp_bottomSheets.js:64-111 | with the reset a gesture's outcome does not depend on the gestures before it |
| BottomSheets.KeyFields | src/app/shared/components/bottomSheets/cmp_bottomSheets.js:468 | a day key of a four-digit year is eight digits: the year, then the padded month, then the padded day, each reading back as its number |
| BottomSheets.DateKeyOrder | src/app/shared/components/bottomSheets/cmp_bottomSheets.js:345 | comparing two day keys as strings orders them as the calendar does, and equal keys name equal days |
| BottomSheets.KeyDate | src/app/shared/components/bottomSheets/cmp_bottomSheets.js:334 | a key that reads as a date reads as a valid one |
| BottomSheets.KeySlices | src/app/shared/components/bottomSheets/cmp_bottomSheets.js:348-354 | slicing a key at 4, 6 and 8 gives its year, month and day fields |
| BottomSheets.KeyDateOfKey | src/app/shared/components/bottomSheets/cmp_bottomSheets.js:334 | reading a day's key back as a date gives that day |
| BottomSheets.Init | src/app/shared/components/bottomSheets/cmp_bottomSheets.js:225-278 | no range end at start; the `setDay` prop or else today is selected; with a `setcb` in range mode `setDay` also starts the range |
| BottomSheets.SingleOf | src/app/shared/components/bottomSheets/cmp_bottomSheets.js:377-383 | the callback of a single pick is a single pick carrying the clicked key |
| BottomSheets.HandleDateSelect | src/app/shared/components/bottomSheets/cmp_bottomSheets.js:333-388 | a single pick selects the key, reports it and closes; range mode leaves the selection alone; the sheet closes exactly when the callback fires, and an alert changes nothing |
| BottomSheets.HandleToday | src/app/shared/components/bottomSheets/cmp_bottomSheets.js:321-331 | today is selected; in range mode today starts a new range with no end, otherwise the range is kept |
| BottomSheets.SelectKeepsOrder | src/app/shared/components/bottomSheets/cmp_bottomSheets.js:321-388 | every handler keeps a finished range's start before its end |
| BottomSheets.RangeSteps | src/app/shared/components/bottomSheets/cmp_bottomSheets.js:336-373 | with no start or a finished range a click starts a new range; with only a start a later key finishes the range, reports both ends and closes; any other key alerts and changes nothing |
| BottomSheets.TwoClicks | src/app/shared/components/bottomSheets/cmp_bottomSheets.js:336-373 | two clicks on grid days make a range exactly when the second day is later, and the callback then gets the year, month and day of both |
| BottomSheets.SinglePickFields | src/app/shared/components/bottomSheets/cmp_bottomSheets.js:374-384 | a single pick of a grid day reports its year and its padded month and day |
| BottomSheets.TodayThenLater | src/app/shared/components/bottomSheets/cmp_bottomSheets.js:321-373 | "today" in range mode followed by a later day makes the range from today to that day |
| BottomSheets.InRangeDays | src/app/shared/components/bottomSheets/cmp_bottomSheets.js:477-487 | the days highlighted inside a range are those strictly between its ends in the calendar |
| BottomSheets.Bound | src/app/shared/components/bottomSheets/cmp_bottomSheets.js:283-284 | an absent limit prop limits nothing |
| BottomSheets.DisabledDays | src/app/shared/components/bottomSheets/cmp_bottomSheets.js:471-474 | a day is disabled exactly when it is before the first limit, after the last, a weekend day while weekends are off, or a holiday |
| BottomSheets.NoLimits | src/app/shared/components/bottomSheets/cmp_bottomSheets.js:283-284 | with no limit props and weekends allowed no day is disabled |
| BottomSheets.Press | src/app/shared/components/bottomSheets/cmp_bottomSheets.js:492-493 | a disabled day button does nothing |
| BottomSheets.PressRespectsLimits | src/app/shared/components/bottomSheets/cmp_bottomSheets.js:474-493 | a press changes the state or fires the callback only when its button is enabled, and what it changes becomes the pressed key |
| BottomSheets.DaysArray | src/app/shared/components/bottomSheets/cmp_bottomSheets.js:395-397 | the cell list has one blank per weekday before the first and one cell per day |
| BottomSheets.RowsCover | src/app/shared/components/bottomSheets/cmp_bottomSheets.js:464-467 | every row has one to seven cells, and each day of the month appears in row `i / 7`, column `i % 7` of its position |
| BottomSheets.RowsNeeded | src/app/shared/components/bottomSheets/cmp_bottomSheets.js:464 | the grid has just enough rows for the cells and no more |
| BottomSheetsWrapper.CheckSelected | src/components/bottomSheets/cmp_bottomSheets_wrapper.js:73-79 | the `aria-selected` text is always "true" or "false" |
| BottomSheetsWrapper.InitialMarks | src/components/bottomSheets/cmp_bottomSheets_wrapper.js:158 | a rendered list has one mark per item |
| BottomSheetsWrapper.InitialMarksSelected | src/components/bottomSheets/cmp_bottomSheets_wrapper.js:73-79 | a freshly rendered list marks the item at `selectedIdx` and no other |
| BottomSheetsWrapper.OptionClick | src/components/bottomSheets/cmp_bottomSheets_wrapper.js:81-126 | the list keeps its length, and the sheet closes exactly when an item is reported |
| BottomSheetsWrapper.OptionClickSelects | src/components/bottomSheets/cmp_bottomSheets_wrapper.js:81-126 | with at most one item marked, a click on an enabled item leaves exactly it marked, reports it and closes; a click on the disabled item or on none changes nothing |
| BottomSheetsWrapper.OptionClickKeepsOne | src/components/bottomSheets/cmp_bottomSheets_wrapper.js:100-110 | clicks keep the list to at most one marked item |
| BottomSheetsWrapper.BeforeMonth | src/components/bottomSheets/cmp_bottomSheets_wrapper.js:732-747 | the previous month is one month earlier, wrapping January to December of the year before |
| BottomSheetsWrapper.AfterMonth | src/components/bottomSheets/cmp_bottomSheets_wrapper.js:520-536 | the next month is one month later, wrapping December to January of the year after |
| BottomSheetsWrapper.MonthStepsInverse | src/components/bottomSheets/cmp_bottomSheets_wrapper.js:503-536 | the previous-month and next-month steps undo each other |
| BottomSheetsWrapper.LastDateIsLength | src/components/bottomSheets/cmp_bottomSheets_wrapper.js:664-667 | day 0 of the next month is the last day of the month shown |
| BottomSheetsWrapper.MaxWeeks | src/components/bottomSheets/cmp_bottomSheets_wrapper.js:669 | the number of weeks is just enough for the blanks and the days |
| BottomSheetsWrapper.Grid | src/components/bottomSheets/cmp_bottomSheets_wrapper.js:662-730 | the grid has `maxWeeks` rows |
| BottomSheetsWrapper.GridCells | src/components/bottomSheets/cmp_bottomSheets_wrapper.js:700-725 | each day of the month has exactly one cell of the grid |
| BottomSheetsWrapper.GridColumnIsWeekDay | src/components/bottomSheets/cmp_bottomSheets_wrapper.js:662-730 | each day's cell lies in the column of its weekday |
| BottomSheetsWrapper.FutureMeansLaterDay | src/components/bottomSheets/cmp_bottomSheets_wrapper.js:681 | a day is in the future exactly when it comes after today's date, so today is not |
| BottomSheetsWrapper.Init | src/components/bottomSheets/cmp_bottomSheets_wrapper.js:599-611 | the month shown starts from the `year` and `month` props, or today's month when either is missing, with "today" unmarked |
| BottomSheetsWrapper.SelectDate | src/components/bottomSheets/cmp_bottomSheets_wrapper.js:628-654 | selecting a day never changes the month shown |
| BottomSheetsWrapper.SelectDateFuture | src/components/bottomSheets/cmp_bottomSheets_wrapper.js:628-654 | in period mode a day is taken exactly when it is not after today, which is when its button is enabled; a taken day goes to the callback and clears the "today" mark |
| BottomSheetsWrapper.AsWrittenGuardIsDead | src/components/bottomSheets/cmp_bottomSheets_wrapper.js:749-773 | as written the next-month handler always moves one month on, because its guard compares with a function instead of today's year |
| BottomSheetsWrapper.AsWrittenPassesToday | src/components/bottomSheets/cmp_bottomSheets_wrapper.js:754-760 | shown May 2024 on 15 May 2024, the handler as written moves to June although the button is disabled |
| BottomSheetsWrapper.SetAfterMonth | src/components/bottomSheets/cmp_bottomSheets_wrapper.js:749-773 | the corrected handler keeps the "today" mark |
| BottomSheetsWrapper.SetAfterMonthAgreesWithButton | src/components/bottomSheets/cmp_bottomSheets_wrapper.js:613-626 | the corrected handler moves exactly when the next-month button is enabled, and never past today's month from a month not after it |
| BottomSheetsWrapper.SetToday | src/components/bottomSheets/cmp_bottomSheets_wrapper.js:775-780 | "today" marks today |
| BottomSheetsWrapper.Highlights | src/components/bottomSheets/cmp_bottomSheets_wrapper.js:680-696 | no day carries both highlights; after "today" exactly today's day is highlighted as today; after a pick no day is |
| SurveyVo.CodesExclusive | ERI_BACKEND/ERI/src/main/java/com/ERI/demo/vo/SurveyMasterVO.java:50-60 | a code field equals at most one of two different codes, and null equals none |
| SurveyVo.FlagOnlyY | ERI_BACKEND/ERI/src/main/java/com/ERI/demo/vo/SurveyMasterVO.java:62-72 | a flag holds exactly for the one-character string "Y": not for null, "N", "y" or " Y"; every Y/N predicate of the value objects (anonymous, duplicate allowed, file attachment, deleted, required, skip logic, question score, other choice) reads its field through this one test |
| SurveyVo.StatusOf | ERI_BACKEND/ERI/src/main/java/com/ERI/demo/vo/SurveyMasterVO.java:50-60 | only a present code names a survey state |
| SurveyVo.MasterStatus | ERI_BACKEND/ERI/src/main/java/com/ERI/demo/vo/SurveyMasterVO.java:50-60 | each status predicate holds exactly when the code names its state, at most one holds, and "ARCHIVED" and null give none |
| SurveyVo.MasterFlagsIndependent | ERI_BACKEND/ERI/src/main/java/com/ERI/demo/vo/SurveyMasterVO.java:50-72 | each predicate of a survey reads its own field and no other |
| SurveyVo.ResponseStatusExclusive | ERI_BACKEND/ERI/src/main/java/com/ERI/demo/vo/SurveyResponseVO.java:49-59 | at most one response status holds, and none for null |
| SurveyVo.JavaDiv | ERI_BACKEND/ERI/src/main/java/com/ERI/demo/vo/SurveyResponseVO.java:67 | integer division truncates toward zero, as Java's does |
| SurveyVo.ToInt32 | ERI_BACKEND/ERI/src/main/java/com/ERI/demo/vo/SurveyResponseVO.java:67 | the `(int)` cast yields a 32-bit value and leaves one that fits unchanged |
| SurveyVo.DurationIsWholeMinutes | ERI_BACKEND/ERI/src/main/java/com/ERI/demo/vo/SurveyResponseVO.java:65-70 | for an end after the start by less than 2^31 minutes, the duration is the number of whole minutes elapsed |
| SurveyVo.DurationReversed | ERI_BACKEND/ERI/src/main/java/com/ERI/demo/vo/SurveyResponseVO.java:65-70 | nothing orders start and end: swapping a span of whole seconds negates the count |
| SurveyVo.DurationSources | ERI_BACKEND/ERI/src/main/java/com/ERI/demo/vo/SurveyResponseVO.java:65-70 | with both times present they decide and the stored minutes are ignored; otherwise the stored minutes, or 0 when null |
| SurveyVo.TypeCount | ERI_BACKEND/ERI/src/main/java/com/ERI/demo/vo/SurveyQuestionVO.java:60-74 | at most four type predicates can hold |
| SurveyVo.QuestionTypes | ERI_BACKEND/ERI/src/main/java/com/ERI/demo/vo/SurveyQuestionVO.java:48-74 | at most one type holds, exactly one for the four known codes, none for "ETC" or null; the required, skip-logic and score flags do not depend on the type |
| SurveyVo.StripLeading | ERI_BACKEND/ERI/src/main/java/com/ERI/demo/vo/SurveyResponseDetailVO.java:41 | `trim` drops a prefix, after which the text starts above a space |
| SurveyVo.StripTrailing | ERI_BACKEND/ERI/src/main/java/com/ERI/demo/vo/SurveyResponseDetailVO.java:41 | `trim` keeps a prefix of what is left |
| SurveyVo.StripLeadingEmpty | ERI_BACKEND/ERI/src/main/java/com/ERI/demo/vo/SurveyResponseDetailVO.java:41 | stripping leading characters up to a space leaves nothing exactly when every character is at most a space |
| SurveyVo.StripTrailingEmpty | ERI_BACKEND/ERI/src/main/java/com/ERI/demo/vo/SurveyResponseDetailVO.java:41 | stripping trailing characters up to a space leaves nothing exactly when every character is at most a space |
| SurveyVo.JavaTrimEmpty | ERI_BACKEND/ERI/src/main/java/com/ERI/demo/vo/SurveyResponseDetailVO.java:41 | `trim()` gives the empty string exactly when every character is at most a space |
| SurveyVo.IsTextResponse | ERI_BACKEND/ERI/src/main/java/com/ERI/demo/vo/SurveyResponseDetailVO.java:40-42 | a text response is one whose text holds a character above a space; null, "" and blank text are not |
| SurveyVo.DetailPredicates | ERI_BACKEND/ERI/src/main/java/com/ERI/demo/vo/SurveyResponseDetailVO.java:40-50 | a score counts only when positive, and a detail may be a text and a choice response at once |
| SurveyVo.ChoicePredicates | ERI_BACKEND/ERI/src/main/java/com/ERI/demo/vo/SurveyChoiceVO.java:42-48 | the "other" choice is marked only by "Y"; a choice has a score exactly when its score is present and positive |
| SurveyVo.TimesHundred | ERI_BACKEND/ERI/src/main/java/com/ERI/demo/vo/SurveyStatisticsVO.java:46-51 | multiplying the unscaled value by 100 at the same scale multiplies the value by 100 |
| SurveyVo.PercentageMeaning | ERI_BACKEND/ERI/src/main/java/com/ERI/demo/vo/SurveyStatisticsVO.java:46-51 | the percentage is 100 times the rate at the rate's scale, so 0.5 gives 50.0; no rate gives zero |
| SurveyVo.StatisticsScore | ERI_BACKEND/ERI/src/main/java/com/ERI/demo/vo/SurveyStatisticsVO.java:38-44 | a mean, minimum or maximum makes a score statistic and the standard deviation alone does not; `hasChoice` holds exactly for a present choice |
| SurveyVo.TargetKindOf | ERI_BACKEND/ERI/src/main/java/com/ERI/demo/vo/SurveyTargetVO.java:38-52 | only a present code names a target kind |
| SurveyVo.TargetKinds | ERI_BACKEND/ERI/src/main/java/com/ERI/demo/vo/SurveyTargetVO.java:38-52 | each target predicate holds exactly when the code names its kind, and the target's value plays no part |
| SurveyVo.IsActive | ERI_BACKEND/ERI/src/main/java/com/ERI/demo/vo/SurveyMasterVO.java:50-52 | holds exactly when the status code is "ACTIVE", the state `StatusOf` names Active |
| SurveyVo.IsDraft | ERI_BACKEND/ERI/src/main/java/com/ERI/demo/vo/SurveyMasterVO.java:54-56 | holds exactly when the status code is "DRAFT", the state `StatusOf` names Draft |
| SurveyVo.IsClosed | ERI_BACKEND/ERI/src/main/java/com/ERI/demo/vo/SurveyMasterVO.java:58-60 | holds exactly when the status code is "CLOSED", the state `StatusOf` names Closed |
| SurveyVo.IsAnonymousSurvey | ERI_BACKEND/ERI/src/main/java/com/ERI/demo/vo/SurveyMasterVO.java:62-64 | holds exactly when `anonYn` is the string "Y" |
| SurveyVo.IsDuplicateAllowed | ERI_BACKEND/ERI/src/main/java/com/ERI/demo/vo/SurveyMasterVO.java:66-68 | holds exactly when `duplYn` is the string "Y" |
| SurveyVo.HasFileAttachment | ERI_BACKEND/ERI/src/main/java/com/ERI/demo/vo/SurveyMasterVO.java:70-72 | holds exactly when `fileAttYn` is the string "Y" |
| SurveyVo.IsAnonymousResponse | ERI_BACKEND/ERI/src/main/java/com/ERI/demo/vo/SurveyResponseVO.java:45-47 | holds exactly when the response's `anonYn` is the string "Y" |
| SurveyVo.IsInProgress | ERI_BACKEND/ERI/src/main/java/com/ERI/demo/vo/SurveyResponseVO.java:49-51 | holds exactly when the response status is "IN_PROGRESS" |
| SurveyVo.IsCompleted | ERI_BACKEND/ERI/src/main/java/com/ERI/demo/vo/SurveyResponseVO.java:53-55 | holds exactly when the response status is "COMPLETED" |
| SurveyVo.IsAbandoned | ERI_BACKEND/ERI/src/main/java/com/ERI/demo/vo/SurveyResponseVO.java:57-59 | holds exactly when the response status is "ABANDONED" |
| SurveyVo.IsDeletedResponse | ERI_BACKEND/ERI/src/main/java/com/ERI/demo/vo/SurveyResponseVO.java:61-63 | holds exactly when the response's `delYn` is the string "Y" |
| SurveyVo.DurationMinutes | ERI_BACKEND/ERI/src/main/java/com/ERI/demo/vo/SurveyResponseVO.java:65-70 | the `(int)` cast keeps the count within 32 bits, and a forward span under a minute counts 0 |
| SurveyVo.GetDurationMinutes | ERI_BACKEND/ERI/src/main/java/com/ERI/demo/vo/SurveyResponseVO.java:65-70 | without both times the stored minutes, or 0 when null; with both, a 32-bit count, 0 when they are equal |
| SurveyVo.IsRequired | ERI_BACKEND/ERI/src/main/java/com/ERI/demo/vo/SurveyQuestionVO.java:48-50 | holds exactly when `reqYn` is the string "Y" |
| SurveyVo.HasSkipLogic | ERI_BACKEND/ERI/src/main/java/com/ERI/demo/vo/SurveyQuestionVO.java:52-54 | holds exactly when `skipLgcYn` is the string "Y" |
| SurveyVo.QuestionHasScore | ERI_BACKEND/ERI/src/main/java/com/ERI/demo/vo/SurveyQuestionVO.java:56-58 | holds exactly when `scrYn` is the string "Y" |
| SurveyVo.IsSingleChoice | ERI_BACKEND/ERI/src/main/java/com/ERI/demo/vo/SurveyQuestionVO.java:60-62 | holds exactly when the type code is "SINGLE_CHOICE" |
| SurveyVo.IsMultipleChoice | ERI_BACKEND/ERI/src/main/java/com/ERI/demo/vo/SurveyQuestionVO.java:64-66 | holds exactly when the type code is "MULTIPLE_CHOICE" |
| SurveyVo.IsText | ERI_BACKEND/ERI/src/main/java/com/ERI/demo/vo/SurveyQuestionVO.java:68-70 | holds exactly when the type code is "TEXT" |
| SurveyVo.IsScale | ERI_BACKEND/ERI/src/main/java/com/ERI/demo/vo/SurveyQuestionVO.java:72-74 | holds exactly when the type code is "SCALE" |
| SurveyVo.JavaTrim | ERI_BACKEND/ERI/src/main/java/com/ERI/demo/vo/SurveyResponseDetailVO.java:40-42 | `trim()` gives a slice of the text that neither starts nor ends with a character up to a space |
| SurveyVo.IsChoiceResponse | ERI_BACKEND/ERI/src/main/java/com/ERI/demo/vo/SurveyResponseDetailVO.java:44-46 | holds exactly when a choice is present |
| SurveyVo.DetailHasScore | ERI_BACKEND/ERI/src/main/java/com/ERI/demo/vo/SurveyResponseDetailVO.java:48-50 | holds exactly when the score, a missing one read as 0, is positive |
| SurveyVo.IsDeletedDetail | ERI_BACKEND/ERI/src/main/java/com/ERI/demo/vo/SurveyResponseDetailVO.java:52-54 | holds exactly when the detail's `delYn` is the string "Y" |
| SurveyVo.IsEtcChoice | ERI_BACKEND/ERI/src/main/java/com/ERI/demo/vo/SurveyChoiceVO.java:42-44 | holds exactly when `etcYn` is the string "Y" |
| SurveyVo.ChoiceHasScore | ERI_BACKEND/ERI/src/main/java/com/ERI/demo/vo/SurveyChoiceVO.java:46-48 | holds exactly when the score, a missing one read as 0, is positive |
| SurveyVo.HasChoice | ERI_BACKEND/ERI/src/main/java/com/ERI/demo/vo/SurveyStatisticsVO.java:38-40 | holds exactly when a choice is present |
| SurveyVo.StatisticsHasScore | ERI_BACKEND/ERI/src/main/java/com/ERI/demo/vo/SurveyStatisticsVO.java:42-44 | fails exactly when the mean, the minimum and the maximum are all missing |
| SurveyVo.ResponseRatePercentage | ERI_BACKEND/ERI/src/main/java/com/ERI/demo/vo/SurveyStatisticsVO.java:46-51 | zero without a rate; otherwise the rate's unscaled value times 100 at the rate's scale |
| SurveyVo.IsAllEmployees | ERI_BACKEND/ERI/src/main/java/com/ERI/demo/vo/SurveyTargetVO.java:38-40 | holds exactly when the target code names all employees ("ALL") |
| SurveyVo.IsIndividualEmployee | ERI_BACKEND/ERI/src/main/java/com/ERI/demo/vo/SurveyTargetVO.java:42-44 | holds exactly when the target code names one employee ("EMP_ID") |
| SurveyVo.IsDepartment | ERI_BACKEND/ERI/src/main/java/com/ERI/demo/vo/SurveyTargetVO.java:46-48 | holds exactly when the target code names a department ("DEPT_CD") |
| SurveyVo.IsPosition | ERI_BACKEND/ERI/src/main/java/com/ERI/demo/vo/SurveyTargetVO.java:50-52 | holds exactly when the target code names a position ("POSITION_CD") |

## Left out

- The survey lifecycle, duplicate-response and maximum-response enforcement, and statistics aggregation have no code in the repository, so they are not modelled. The MyBatis mappers are declarations without SQL.
- DOM writes, focus handling, `console` output, `alert` dialogs, styled-components and every layout-only component are left out. Where a handler's effect is a DOM change, the model returns the change as data: a release decision, a list of marks, a close flag.
- The network is not modelled. `menuAPI.getMenuList`, the consultation request and the query fetcher are parameters or outcomes handed in by the caller.
- JavaScript numbers are modelled as integers or NaN (`JsString.ToNumber`). Fractions, exponents, hexadecimal literals and `Infinity` read as NaN, so a validator given "1.5" or "1e1" rejects what JavaScript would compare as a number.
- Strings are sequences of Unicode code points, where JavaScript counts UTF-16 code units. They differ only on characters outside the Basic Multilingual Plane.
- The order of `Object.keys` is taken to be the order of the given property list. The model does not reorder integer-like keys first as JavaScript does.
- `null` and `undefined` are both `None` where the code cannot tell them apart: `==`, truthiness, optional chaining, or a strict comparison with a number or a text. `FormattedLabel` and the menu tree compare with `===` against `undefined` or against another field, and there the model keeps the two apart.
- Dates are whole days of the proleptic Gregorian calendar at local midnight. Time of day, time zones, daylight saving and the ±8.64e15 ms range of a `Date` are not modelled. The absent `start`/`end` props of the bottom-sheet picker therefore bound nothing, instead of bounding by the extreme time values.
- `Math.ceil` of fractional screen coordinates is not modelled: touch positions are integers.
- `com_util.js` functions outside the formatting core are left out: `getToday`, `getTime`, `getBoundDate` and `Dateformat` read the clock; `xorEncrypt` is random; `number`, `currency` and `transAmt` use floating point; the rest depend on the browser or on navigation.
- From `formatter.js`, `number` (which references undefined variables), `currency`, `bsno`, `juminBsno`, `bsnonotmasking` and `datetime` are left out: they depend on jQuery, globals or the clock.
- `escapeHtml` and `unescapeHtml` are not modelled. They are not inverse to each other, and nothing in the core uses them.
- ComUtil.IsValidDay: a year that does not read as a number fails every leap test and is treated as a common year. The model uses 1970 for it, which gives the same month lengths.
- ComUtil.DateText: only string arguments are modelled. A numeric `dat` has no `length` and comes back unchanged in the source.
- ComUtil.AddComma: a numeric argument is modelled as the decimal string `toString` gives for an integer. Fractions and exponent notation of numbers are not modelled.
- `Lpad` and `Rpad` follow the source rather than a fixed-width pad: a filler longer than one character is repeated whole once per missing position, so the result overshoots `len`; their contracts state that length and the repeated filler.
- CmpInput: the `all` pattern `/^.*$/` drops line terminators, because `.` does not match them. The `custom` pattern's own RegExp flags and the `lastIndex` state of a global RegExp are not modelled. A custom pattern is a character predicate.
- QueryStore: a fetch takes no time. Only the waits between retries advance the clock.
- QueryStore.ExecuteQuery: a run is atomic here. Other store calls that interleave at the awaits are not modelled: the fetcher call at queryStore.js:130 and the retry wait at :160. In the source an `invalidateQueries` or `clearCache` during a fetch is undone by the success write at :133-151. A final failure writes back data and timestamp from the `cached` snapshot taken at :92, not from the cache's current entry.
- QueryStore.Waits: `retryDelay` is a natural number, here and in the query options. A negative delay, which `setTimeout` treats as 0, is not modelled.
- QueryStore: `executeMutation` and `getMutationState` are left out. The mutation map is kept only as far as `clearCache` resets it.
- QueryStore: `staleTime`, `refetchOnWindowFocus` and the other options the hooks read are not modelled. Only `enabled`, `cacheTime`, `retry` and `retryDelay` are.
- QueryStore: keys are JSON-like values with integer numbers. Functions, `undefined` members, symbols and cyclic objects are not modelled.
- Board: the branch that turns ISO timestamps into `Date` objects is not modelled. Such cells compare as strings, which orders timestamps of one format the same way.
- Board: `Array.prototype.sort` with this comparator, which is not a consistent order, is implementation-defined. The model sorts by insertion.
- Board: two missing values compare as 1, as written, so their relative order is whatever insertion gives.
- PageMoveStore: the `console` logging and the module-level timer handles are left out. The timers are explicit events.
- HeaderArea: `mnuOrd` is an integer, and the sort is the stable one of `Array.prototype.sort`. Fallback entries carry only a name, a URL and no children; their other fields are absent.
- HeaderArea: in the components copy a menu click only records which menu is highlighted (`activeMenu`). That, its fixed header buttons and its main-select popup are presentation only.
- EmpNameCache: `getAllCache` and `isCacheInitialized` return a field unchanged and have no row of their own. `getSize` and `getStatus` are covered.
- ConsultationPopup: attached files are modelled by name. `fetchCommonCodes`, the loading button, the alert texts and `handleFileChange` are left out. A null category and an empty one are treated alike, as the `!` test does.
- Utils: a falsy `styles` argument is `None`. `FormatTextWithBr`, `ContAreaReset`, `PageInitMotion` and `TabChange` are left out, being DOM and animation code.
- BottomSheets: the year and month navigation buttons of the picker, `CmpBsTitleEdit` and `CalendarSet` are not modelled. They change only what is displayed, or only open the sheet. The `multi == true` test is modelled as a boolean flag.
- BottomSheets: the fields handed to the callback are modelled as integers where the code hands numbers and as strings where it hands padded strings.
- BottomSheetsWrapper: the description and link lists (`CmpBsWrapDescriptionCont`, `CmpBsWrapLinkCont`) keep no selection and are not modelled.
- BottomSheetsWrapper: the `year` and `month` props are modelled as the integers `Number` makes of them.
- BottomSheetsWrapper.LastDateIsLength: it is stated for years from 100 on. Below that, `new Date` reads a two-digit year as 19xx.
- Calendar.HandleDateClick: the date handed to the callback is the clicked day only for years outside 0..99, for the same reason.
- Calendar: `getSizeStyles` and `getEventStyle` are presentation only and left out.
- SurveyVo: Lombok accessors, `equals`/`hashCode` and the fields no predicate reads are left out. `Integer` fields are unbounded integers.
- SurveyVo: `BigDecimal` values are unscaled integers with a scale. `PercentageMeaning` states both the value and the scale, so it does not depend on `equals` comparing scales.

## Findings

| source | as written | input that shows it | evidently intended | confidence | as-written member | corrected member |
|---|---|---|---|---|---|---|
| src/app/shared/utils/com_util.js:198-212 | the documented array layout (`[3,3,4]`) is not a string, so the `typeof arg != "string"` test replaces it by null, so the default layout runs | `account("0123456789", [3,3,4])` returns "0123456789" unformatted | an array of widths splits the digits into pieces of those widths joined by '-' | not executed | ComUtil.AccountArrayLayoutIgnored | ComUtil.AccountWithWidthsExample |
| src/app/shared/utils/com_util.js:274-281 | the running start index is built with `+` on a string taken from the layout, so it becomes text and `substr` reads a wrong start | layout "334" on "0123456789" gives "012-345" and drops the last four digits | the pieces cover the whole number: "012-345-6789" | not executed | ComUtil.AccountTextLayoutLosesTail | ComUtil.AccountWithWidths |
| src/components/bottomSheets/cmp_bottomSheets_wrapper.js:754-760 | `todayYear` is bound to the function `today.getFullYear`, so the guard's comparisons are always false and it never returns | shown May 2024 on 15 May 2024, the handler moves to June | the handler refuses to move past today's month, as the disabled button does | not executed | BottomSheetsWrapper.AsWrittenPassesToday | BottomSheetsWrapper.SetAfterMonthAgreesWithButton |
| src/app/shared/components/bottomSheets/cmp_bottomSheets.js:64-111 | `touchStart` does not reset `touchMoveMax`, so a tap after a drag reuses the drag's distance | a slow 100-pixel drag on a 600-pixel sheet snaps back; a later tap with no movement then closes the sheet | each gesture is judged by its own movement, so a tap never moves the sheet | not executed | BottomSheets.StaleDragClosesOnTap | BottomSheets.FreshTapStays |
