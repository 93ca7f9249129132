# Travel-App list, URL and favourites logic in Dafny

This project models the logic of the Travel-App country browser. It covers four pieces:

- **`buildSearchUrl`** (`src/lib/url.ts`). It merges a record of updates into a copy of the page's URL search parameters. An update whose value is a default deletes its key; any other update sets the key. The result is serialised as `""` or `"?" + query`. The parameter list follows the `URLSearchParams` behaviour of section 6.2 of the WHATWG URL Standard:
  - `set` replaces the first pair in place and drops later duplicates;
  - `delete` removes every pair with the name;
  - `toString` is the `application/x-www-form-urlencoded` serializer of section 5.2.
- **The country list page** (`src/components/CountriesListClient.tsx`):
  - decoding of its five URL parameters;
  - the text and region filters, and the optional "nearest first" sort done in place on a copy;
  - the page count and page slice;
  - the five-button page window with Previous/Next;
  - the debounced search box, and the effect that rewrites `pageSize` into canonical form.
- **The favourite button** (`src/app/country/FavoriteButton.tsx`). It keeps a JSON list of country codes in the browser store, under a per-user or shared key, and toggles one code.
- **The favourites page** (`src/app/favorites/FavoritesClient.tsx`). It loads the shared list, with a fallback to no codes, and shows the listed countries.

The JavaScript built-ins these call are written out in `ecma.dfy`:
- numbers are integers, NaN or Infinity;
- `parseInt`, `Number(string)` and `toString` on numbers;
- ASCII `toLowerCase`, `includes` and `slice`;
- `Math.ceil` of a division, `Math.min`/`Math.max` and the comparisons, where NaN compares false.

Modules:
- `Wrappers`: Option.
- `Seqs`: `filter`, and the subsequence relation.
- `Ecma`: the JavaScript built-ins.
- `SearchParams`: the parameter list and its serializer, and the `UrlSearchParams` class.
- `Url`: `buildSearchUrl`.
- `Countries`: the country record, the coordinate fallback, the comparator and the in-place sort.
- `CountriesList`: the list page.
- `Favorites`: the store, the button and the favourites page.

Points where the code behaves differently from what its own defaults and helpers suggest:
- **Decoding does not check its numbers.** The fallbacks `"1"` and `DEFAULT_PAGE_SIZE.toString()` show that a page and a page size are meant to be positive integers. The code passes `parseInt`'s result straight on, so a negative or non-numeric value reaches `slice` and the pager. See Findings.
- **Writing and reading the URL do not match for the text `"All"`.** `"All"` is the fallback of `region` only (`get("region") || "All"`). `buildSearchUrl` elides `"All"` for every key, so a search text `"All"` is not written back. See Findings.
- **Coordinates are tested for truthiness.** The comparator treats a missing coordinate and a coordinate of exactly 0 alike, as missing.
- **The two favourites components use different keys.** The favourites page reads only the shared key `"favorites"`. The button writes to `"favorites:<userId>"` when a user id is given. `Favorites.SignedInWritesUnseen` states the consequence.

## Model

| member | source | states |
|---|---|---|
| SearchParams.UrlSearchParams.constructor | src/lib/url.ts:10-12 | the copy starts with exactly the given pairs |
| SearchParams.UrlSearchParams.Delete | src/lib/url.ts:26 | the list becomes the old list without any pair of that name, all else in order |
| SearchParams.UrlSearchParams.Set | src/lib/url.ts:28 | the first pair of that name gets the value, later ones are dropped, appended if absent |
| SearchParams.DeleteAllValues | src/lib/url.ts:26 | after `delete(k)` key k has no value and every other key keeps its values |
| SearchParams.SetFirstValues | src/lib/url.ts:28 | after `set(k, v)` key k has exactly the value v and every other key keeps its values |
| SearchParams.SetFirstAppends | src/lib/url.ts:28 | setting an absent key appends one pair at the end |
| SearchParams.SetFirstInPlace | src/lib/url.ts:28 | setting a present key rewrites its first pair where it stands, the pairs before it unchanged |
| SearchParams.DeleteAbsent | src/lib/url.ts:26 | deleting an absent key leaves the list unchanged |
| SearchParams.SetSettled | src/lib/url.ts:28 | setting a key to the one value it already has leaves the list unchanged |
| SearchParams.DeleteAllOutside | src/lib/url.ts:26 | delete leaves the pairs of other keys unchanged and in order |
| SearchParams.SetFirstOutside | src/lib/url.ts:28 | set leaves the pairs of other keys unchanged and in order |
| SearchParams.SerializeEmpty | src/lib/url.ts:32 | the serialised query is empty exactly when no pair remains |
| SearchParams.EncodeByteHasNoSeparators | src/lib/url.ts:32 | no single encoded byte is `&` or `=` |
| SearchParams.FormEncodeHasNoSeparators | src/lib/url.ts:32 | an encoded name or value never contains `&` or `=`, so pairs stay apart |
| Url.Elides | src/lib/url.ts:15-25 | an update deletes its key for `""`, `false`, `"All"` (any key as written, only `region` when corrected), a `page` numerically 1 or a `pageSize` numerically the default; stated by `SentinelDeletes` and `DefaultsDeleted` |
| Url.ApplyAll | src/lib/url.ts:14-30 | the `forEach` over the entries, in order; each entry adds at most one pair |
| Url.BuildSearchUrl | src/lib/url.ts:4-34 | the loop of deletes and sets returns the query string of the updates applied in order |
| Url.ValuesAfterUpdates | src/lib/url.ts:14-30 | a key no update names keeps its values; otherwise the last update naming it decides: none if it elides, else exactly its text |
| Url.SentinelDeletes | src/lib/url.ts:19-26 | a last update of `""`, `false` or `"All"` removes the key, whatever the key |
| Url.DefaultsDeleted | src/lib/url.ts:9-17 | `page` numerically 1 and `pageSize` equal to the default are removed; the default is 15 without options |
| Url.SetLeavesOne | src/lib/url.ts:27-28 | any other last update leaves exactly one pair for the key, holding `value.toString()` |
| Url.UntouchedCarriedOver | src/lib/url.ts:10-14 | pairs of keys no update names are carried over unchanged and in the same order |
| Url.QueryStringShape | src/lib/url.ts:32-33 | the result is `""` exactly when no pair remains, else `"?"` followed by the serialised pairs |
| Url.LastUpdateOfDistinct | src/lib/url.ts:14 | with distinct keys the last update naming a key is that key's entry |
| Url.LastUpdateAbsent | src/lib/url.ts:14 | a key no entry names has no last update |
| Url.ApplySettled | src/lib/url.ts:14-30 | updates whose outcome the list already shows change nothing |
| Url.ApplyAllIdempotent | src/lib/url.ts:14-30 | applying the same distinct-key updates to the result again changes nothing |
| Url.SearchUrlIdempotent | src/lib/url.ts:4-34 | `buildSearchUrl` on its own result's parameters returns the same string |
| Url.RepeatedKeysNotIdempotent | src/lib/url.ts:14-30 | with a repeated key, idempotence fails: a concrete list of updates reorders pairs on a second pass |
| Ecma.ParseInt | src/components/CountriesListClient.tsx:29-32 | `parseInt` never yields Infinity |
| Ecma.RelativeIndex | src/components/CountriesListClient.tsx:142-145 | a `slice` bound always lands within the list |
| Ecma.DecimalDigitsAreDigits | src/lib/url.ts:28 | `toString` of a non-negative integer is decimal digits without leading zeros that denote it |
| Ecma.ParseIntOfDigits | src/components/CountriesListClient.tsx:29 | `parseInt` of such digits is their value |
| Ecma.ParseIntOfNegativeDigits | src/components/CountriesListClient.tsx:29 | `parseInt` of `-` and such digits is the negated value |
| Ecma.ParseIntOfText | src/components/CountriesListClient.tsx:29-32 | `parseInt(x.toString())` is x for every integer and for NaN |
| Ecma.IncludesEmpty | src/components/CountriesListClient.tsx:94 | every string includes the empty string |
| Seqs.FilterCount | src/components/CountriesListClient.tsx:93-101 | `filter` keeps every kept element as often as it occurs, and drops the rest |
| Seqs.FilterMembers | src/components/CountriesListClient.tsx:93-101 | an element is in the filtered list exactly when it is in the input and kept |
| Seqs.FilterIsSubsequence | src/components/CountriesListClient.tsx:93-101 | `filter` keeps the input order |
| Seqs.FilterKeepAll | src/components/CountriesListClient.tsx:92 | a filter that keeps everything returns its input |
| Seqs.SubsequenceReflexive | src/components/CountriesListClient.tsx:90-102 | every list is a subsequence of itself, the case of a filter stage that is skipped |
| Seqs.SubsequenceTransitive | src/components/CountriesListClient.tsx:90-102 | a subsequence of a subsequence is a subsequence, so chained filters keep the order |
| Countries.Component | src/components/CountriesListClient.tsx:106-110 | a coordinate is the capital's when present, else the country's centre; used by `Located` and the comparator |
| Countries.Compare | src/components/CountriesListClient.tsx:105-129 | the comparator: an entry without coordinates sorts after everything, else by distance; its order properties are the next three rows |
| Countries.NotBeforeTransitive | src/components/CountriesListClient.tsx:105-129 | "not strictly before" under the comparator is transitive |
| Countries.BeforeAsymmetric | src/components/CountriesListClient.tsx:105-129 | the comparator never puts two entries each strictly before the other |
| Countries.NearestFirstMeaning | src/components/CountriesListClient.tsx:107-128 | in a sorted list no entry without coordinates comes before one with them, and entries with coordinates ascend by distance |
| Countries.SwapKeepsUnlocated | src/components/CountriesListClient.tsx:112 | moving an entry with coordinates one place left keeps the entries without coordinates in order |
| Countries.SwapKeepsTies | src/components/CountriesListClient.tsx:122-128 | a strict exchange never swaps two located entries at the same distance, so every group of equally distant entries keeps its order |
| Countries.SwapKeepsFilter | src/components/CountriesListClient.tsx:105 | exchanging two neighbours of which at most one passes a filter leaves the filtered list unchanged |
| Countries.InsertStep | src/components/CountriesListClient.tsx:105 | one exchange of the insertion keeps the sorted-except-one invariant |
| Countries.InsertDone | src/components/CountriesListClient.tsx:105 | when the insertion stops the prefix is sorted |
| Countries.SwapNext | src/components/CountriesListClient.tsx:105 | exchanging two neighbours moves only those two entries and keeps the multiset of entries |
| Countries.Swap | src/components/CountriesListClient.tsx:105 | the in-place exchange leaves the array equal to that exchanged sequence |
| Countries.SwapKeepsTail | src/components/CountriesListClient.tsx:105 | an exchange of two neighbours leaves every later entry alone |
| Countries.InsertLeft | src/components/CountriesListClient.tsx:105 | inserting one entry extends the sorted prefix, permutes the array, keeps in order both the unlocated entries and each group of located entries at one distance, and leaves the entries after it unchanged |
| Countries.SortNearestFirst | src/components/CountriesListClient.tsx:105-129 | the in-place sort yields a nearest-first permutation with the entries without coordinates in their original order and, as the stable sort does, located entries at equal distance in their original order |
| CountriesList.OrElse | src/components/CountriesListClient.tsx:27-33 | `get(k) \|\| d` is the present value when it is non-empty, and the fallback when the key is absent or empty |
| CountriesList.Decode | src/components/CountriesListClient.tsx:27-33 | the decoded page and page size are never Infinity |
| CountriesList.ParseDefaults | src/components/CountriesListClient.tsx:29-32 | the default texts `"1"` and `"15"` parse to 1 and 15 |
| CountriesList.DecodeDefaults | src/components/CountriesListClient.tsx:27-33 | absent parameters decode to no query, region `"All"`, page 1, page size 15, no sort |
| CountriesList.SortFlagIsExact | src/components/CountriesListClient.tsx:33 | the sort is on exactly for the text `"true"` |
| CountriesList.GetAfterEncode | src/lib/url.ts:14-30 | after writing a whole query, each key is absent or holds its value's text |
| CountriesList.NumberReadsBack | src/components/CountriesListClient.tsx:29-32 | a number written or elided as a default reads back as itself |
| CountriesList.PageRoundTrip | src/components/CountriesListClient.tsx:29 | the page written by the update `page` reads back as that page, also when elided as 1 |
| CountriesList.PageSizeRoundTrip | src/components/CountriesListClient.tsx:30-32 | the page size written by the update `pageSize` reads back as that size, also when elided as 15 |
| CountriesList.TextsRoundTrip | src/components/CountriesListClient.tsx:27-28 | search text, region and sort flag read back as written; as written, only for a search text other than `"All"` |
| CountriesList.RoundTrip | src/components/CountriesListClient.tsx:27-33 | decoding the parameters written for a query gives that query back, whatever else the URL holds; as written, only for a search text other than `"All"` |
| CountriesList.SearchForAllIsLost | src/lib/url.ts:22 | writing the search text `"All"` decodes as no search |
| CountriesList.TextFilterMembers | src/components/CountriesListClient.tsx:92-96 | the text filter keeps exactly the countries whose lower-cased name contains the lower-cased query |
| CountriesList.EmptyQueryKeepsAll | src/components/CountriesListClient.tsx:92 | skipping the filter for an empty query is a shortcut: it would keep everything |
| CountriesList.RegionFilterMembers | src/components/CountriesListClient.tsx:98-102 | the region filter keeps exactly the countries of the region, or all for `"All"` |
| CountriesList.FilteredMembers | src/components/CountriesListClient.tsx:89-102 | the filtered list holds exactly the countries passing both filters |
| CountriesList.FilteredIsSubsequence | src/components/CountriesListClient.tsx:90-102 | the filtered list keeps the input order |
| CountriesList.FilteredCountries | src/components/CountriesListClient.tsx:89-139 | without sort, or without a position, the result is the filtered list; with both, it is a nearest-first permutation of it with unlocated entries, and located entries at equal distance, in their filtered order |
| CountriesList.TotalPages | src/components/CountriesListClient.tsx:141 | for a positive page size, the fewest pages of that size that hold all entries |
| CountriesList.PageSlice | src/components/CountriesListClient.tsx:142-145 | the page is a piece of the list, and empty when the page or the page size is NaN |
| CountriesList.PageSliceBound | src/components/CountriesListClient.tsx:142-145 | a page never holds more than `pageSize` entries, for any page number |
| CountriesList.PageSliceContents | src/components/CountriesListClient.tsx:142-145 | page p ≥ 1 with page size k ≥ 1 is the block `[(p-1)k, pk)` cut at the end of the list |
| CountriesList.BlockShape | src/components/CountriesListClient.tsx:142-145 | that block is empty exactly when it starts past the end, copies the list from its start, and has length `min(pk, n) - (p-1)k` otherwise |
| CountriesList.PastLastPage | src/components/CountriesListClient.tsx:141 | page p starts past the end of n entries exactly when p exceeds `ceil(n / k)` |
| CountriesList.PageEmptyBeyondLast | src/components/CountriesListClient.tsx:141-145 | a page from 1 on is empty exactly when its number exceeds `ceil(n / pageSize)` |
| CountriesList.EveryEntryOnItsPage | src/components/CountriesListClient.tsx:141-145 | entry i is on page `i / k + 1`, a page the pager counts, at position `i % k` |
| CountriesList.Window | src/components/CountriesListClient.tsx:262-268 | `Array.from({ length: Math.min(5, totalPages) }, …)`: never more than five buttons; their numbers are stated by `WindowInRange` |
| CountriesList.PageNumberAt | src/components/CountriesListClient.tsx:263-268 | the number on button `i`, by the four cases of the source; stated by `WindowInRange` |
| CountriesList.WindowInRange | src/components/CountriesListClient.tsx:242-268 | whenever the pager is shown (`totalPages > 1`, an integer or Infinity), for an integer current page the window is `min(5, totalPages)` consecutive numbers from 1 up, none past the last page, and contains an existing current page; for a NaN current page the same holds up to five pages, beyond that every button is NaN |
| CountriesList.PreviousNext | src/components/CountriesListClient.tsx:250-304 | for an integer current page, Previous never goes below 1 and Next never past the last page; from an existing page an enabled button moves one page, and each is disabled exactly on the first or last page; with Infinity pages Next is never disabled; for a NaN current page both are enabled and both lead to NaN |
| CountriesList.NegativePageDecoded | src/components/CountriesListClient.tsx:29 | a negative `?page=` such as `-1` decodes to that negative page, not to a default |
| CountriesList.NegativePageShowsEntries | src/components/CountriesListClient.tsx:142-145 | with one entry per page, negative page v shows the entry at `n + v - 1` instead of nothing |
| CountriesList.NegativePageSizeShowsEntries | src/components/CountriesListClient.tsx:141-145 | page size -1 shows all entries but the last, and the page count is negative |
| CountriesList.NonNumericPageDecoded | src/components/CountriesListClient.tsx:29 | a page text with no leading digit, sign or white space, such as `abc`, decodes to NaN, not to a default |
| CountriesList.NonNumericPageStrands | src/components/CountriesListClient.tsx:141-145 | with such a page no entry is shown, and with more than five pages every page button is NaN while Previous and Next are enabled and lead to NaN again |
| CountriesList.Checked | src/components/CountriesListClient.tsx:29-32 | the corrected values are positive integers, equal to the decoded ones when those already are |
| CountriesList.CheckedPageIsBlock | src/components/CountriesListClient.tsx:141-145 | with the corrected values every page is the block it names and no larger than the page size |
| CountriesList.ZeroPageSizeEndless | src/components/CountriesListClient.tsx:30-32 | `?pageSize=0` decodes to page size 0: over a non-empty list the page count is Infinity, so the pager is shown; every page is empty; Next is never disabled and always moves one page further |
| CountriesList.CheckedPagesEnd | src/components/CountriesListClient.tsx:141-145 | with the corrected page size the page count is finite and exactly the pages past it are empty |
| CountriesList.CheckedPager | src/components/CountriesListClient.tsx:250-304 | with the corrected page every button and both Previous/Next targets are integer pages within range, and an existing current page is among the buttons |
| CountriesList.SearchSync.constructor | src/components/CountriesListClient.tsx:39-46 | the box starts with the committed query and the timer is armed |
| CountriesList.SearchSync.Edit | src/components/CountriesListClient.tsx:154-156 | typing replaces the buffer; a different text restarts the timer |
| CountriesList.SearchSync.Navigate | src/components/CountriesListClient.tsx:41-43 | a changed committed query overwrites the buffer, and changed parameters restart the timer |
| CountriesList.SearchSync.Tick | src/components/CountriesListClient.tsx:45-57 | the timer navigates only when the buffer differs from the committed query, to the URL with the buffer as query and page 1 |
| CountriesList.SearchSync.CommitCycle | src/components/CountriesListClient.tsx:39-57 | a tick that navigates lands on the commit's parameters with the URL as their query string; unless the text is `"All"` the box keeps its text and the following tick navigates nowhere |
| CountriesList.SearchSync.Dispose | src/components/CountriesListClient.tsx:59 | unmounting clears the timer and nothing else |
| CountriesList.CommitSettles | src/components/CountriesListClient.tsx:47-55 | after the commit the URL decodes to the buffered text and page 1 with all other settings unchanged, so the next tick is quiet; as written, only for a text other than `"All"` |
| CountriesList.CommitWritesQuery | src/components/CountriesListClient.tsx:49 | after the commit the URL's query reads as the buffered text; as written, only for a text other than `"All"` |
| CountriesList.CommitResetsPage | src/components/CountriesListClient.tsx:50 | after the commit the page reads as 1 |
| CountriesList.CommitKeepsOthers | src/components/CountriesListClient.tsx:48-53 | the commit leaves region, page size and sort parameters as they were |
| CountriesList.CommitOfAllIsLost | src/components/CountriesListClient.tsx:48-53 | committing the text `"All"` writes no query |
| CountriesList.CanonicalKeepsQuery | src/components/CountriesListClient.tsx:74-87 | the `pageSize` rewrite never changes the decoded state, and leaves `pageSize` absent for 15, else the parsed number's text |
| CountriesList.PageSizeRewrite | src/components/CountriesListClient.tsx:74-87 | the effect asks for a new URL exactly when the stored `pageSize` text is not the parsed number's text; its outcome is stated by `CanonicalKeepsQuery` and `CanonicalIsStable` |
| CountriesList.CanonicalPageSize | src/components/CountriesListClient.tsx:74-87 | after the rewrite `pageSize` is absent for 15, else the parsed number's text, and reads back as the same size |
| CountriesList.CanonicalKeepsOthers | src/components/CountriesListClient.tsx:74-87 | the rewrite leaves query, region, page and sort flag reading as before |
| CountriesList.CanonicalKeepsKey | src/components/CountriesListClient.tsx:74-87 | the rewrite leaves the value of every key other than `pageSize` unchanged |
| CountriesList.CanonicalIsStable | src/components/CountriesListClient.tsx:74-87 | a second run of the effect on the rewritten URL asks for that same URL |
| Favorites.LocalStorage.SetItem | src/app/country/FavoriteButton.tsx:31 | `setItem` changes exactly one key |
| Favorites.StorageKey | src/app/country/FavoriteButton.tsx:24 | the key is the shared one exactly when no non-empty user id is given; otherwise the user id can be read back from the key |
| Favorites.StorageKeysDistinct | src/app/country/FavoriteButton.tsx:24 | two different signed-in users never share a key |
| Favorites.SignedInKeyIsOwn | src/app/country/FavoriteButton.tsx:24 | a signed-in user's key differs from the shared key |
| Favorites.ReadList | src/app/country/FavoriteButton.tsx:18 | an absent or empty value reads as no codes; only unparsable text throws |
| Favorites.Toggled | src/app/country/FavoriteButton.tsx:27-37 | the list written back: the code filtered out, or appended; its contents are stated by `ToggledContents` |
| Favorites.ToggledContents | src/app/country/FavoriteButton.tsx:27-36 | after a toggle the code is listed exactly when it was not a favourite; other codes keep their counts; removal keeps order, addition appends exactly one copy at the end |
| Favorites.AddThenRemove | src/app/country/FavoriteButton.tsx:27-36 | adding a code that was absent and then removing it restores the list |
| Favorites.FavoriteButton.constructor | src/app/country/FavoriteButton.tsx:13-14 | the button starts loading and not a favourite |
| Favorites.FavoriteButton.Load | src/app/country/FavoriteButton.tsx:16-21 | loading shows whether the code is in the stored list and ends the loading state, or throws on unparsable text |
| Favorites.FavoriteButton.ToggleFavorite | src/app/country/FavoriteButton.tsx:23-38 | only the computed key changes, to the toggled list, the shown state flips, and a button in sync with the store stays in sync |
| Favorites.ViewIds | src/app/favorites/FavoritesClient.tsx:16-25 | the page reads the shared key only; absent, empty or unparsable values give no codes |
| Favorites.SignedInWritesUnseen | src/app/favorites/FavoritesClient.tsx:18 | a write under a signed-in user's key does not change what the page loads |
| Favorites.FavoriteCountries | src/app/favorites/FavoritesClient.tsx:27-30 | the countries shown: none before loading, else the countries whose code is listed; stated by `FavoriteCountriesContents` |
| Favorites.FavoriteCountriesContents | src/app/favorites/FavoritesClient.tsx:27-30 | nothing before loading; after it, exactly the listed countries in order, each as often as given |
| Favorites.DuplicateIdsIgnored | src/app/favorites/FavoritesClient.tsx:29 | listing a code twice shows the same countries as listing it once |
| Favorites.FavoritesView.constructor | src/app/favorites/FavoritesClient.tsx:14 | before loading the list is null and nothing is shown |
| Favorites.FavoritesView.LoadFavorites | src/app/favorites/FavoritesClient.tsx:16-25 | loading sets the list to what the shared key holds, with the fallback to no codes |

## Left out

- Floating point: coordinates are `real`, and `calculateDistance` (`src/lib/api.ts`, not part of this model) is a parameter. Numbers are integers, NaN or +Infinity. `Number(...)` of fractions or exponents reads as NaN.
- `toLowerCase` maps only ASCII A–Z. Other Unicode case mappings are not modelled.
- The string form of `buildSearchUrl`'s first argument is not modelled. The same goes for the parse of `searchParams.toString()` back into pairs (`src/lib/url.ts:10-12`). The model takes the pair list directly.
- `Object.entries` lists integer-like keys first. The updates are taken in the order given.
- Url.BuildSearchUrl: numeric keys are not reordered the way `Object.entries` would reorder them.
- Timers and the router are modelled as events of `SearchSync` (edit, navigate, tick, dispose). The 300 ms delay is not modelled, nor is React's render scheduling.
- The loading-skeleton timer (`src/components/CountriesListClient.tsx:68-72`) is only UI timing.
- The click handlers that call `buildSearchUrl` with fixed updates are covered by the `Url` lemmas only. These are the location, sort toggle, region and page buttons (`src/components/CountriesListClient.tsx:159-209, 274-282`).
- JSON: stored values are a list of codes, the empty string, or unparsable text. The following are not modelled:
  - JSON that parses to something other than an array. A JSON string turns `includes` into a substring test on both pages. A toggle then either throws (no `filter` on a string) or spreads the string into characters. `null` leaves the favourites page loading, and most other values make the call to `includes` throw;
  - arrays with non-string entries.
- Countries.SortNearestFirst: the comparator returns 1 both ways for two entries without coordinates, so it is not consistent, and ECMAScript leaves the whole resulting order implementation-defined when some entry lacks coordinates. The model is a stable insertion sort that moves an entry left only while it is strictly before its neighbour. That insertion step is this model's choice. Keeping the entries without coordinates in their filtered order is therefore a promise of the model, not of JavaScript. An engine whose insertion step tests `compare(prev, x) > 0` instead reverses those entries. When every entry has coordinates the comparator is consistent and the stable sort fixes the order, which the model states: equally distant entries keep their filtered order. The same applies to `CountriesList.FilteredCountries`.
- CountriesList.PageSlice: products with Infinity are excluded. In the model `parseInt` never yields Infinity, because its integers are unbounded.
- Ecma.ParseInt: JavaScript reads the digits as a double. Rounding above 2^53, and the overflow of more than 308 digits to Infinity, are not modelled.
- Ecma.ParseIntOfText: `toString` is modelled in plain decimal. JavaScript switches to exponent notation from 1e21 on, so there `parseInt(x.toString())` gives back only the leading digit, which is not modelled.
- CountriesList.Decode: `page` and `pageSize` are unbounded integers or NaN. The rounding and overflow of large values are not modelled.
- CountriesList.CanonicalKeepsQuery: holds only for the model's numbers. In JavaScript `?pageSize=1000000000000000000000` is rewritten to `"1e+21"`, which then parses as 1, so the page size changes. This is not modelled.
- Favorites.FavoriteButton.ToggleFavorite: the shown state matches the store afterwards only if it matched before. The button does not re-derive it from the list it re-reads.
- The detail-page aggregator `fetchAllCountryData` (`src/app/country/[code]/page.tsx:21-55`) is left out. It is network fan-out. It fetches the country first, and a failure there is not caught and propagates. It then fetches the encyclopedia summary and the images concurrently under `Promise.allSettled`, and after them the weather. Each of those three falls back to null on failure.
- The weather route, the geolocation button and the markup-only components are also out. They are I/O, browser APIs or markup.

## Findings

| source | as written | input that shows it | evidently intended | confidence | as-written member | corrected member |
|---|---|---|---|---|---|---|
| src/lib/url.ts:22 | the value `"All"` deletes any key, so the search box's commit of the text `"All"` writes no query | typing `All` in the search box: the commit `{ query: "All", page: 1 }` yields a URL without `query` | `"All"` is the default only of `region` and should only elide that key (`Rule.Intended`) | medium, not executed | CountriesList.CommitOfAllIsLost | CountriesList.CommitSettles |
| src/components/CountriesListClient.tsx:29 | a non-numeric page decodes to NaN and is used unchecked | `?page=abc` with more than five pages: no entry is shown, the five page buttons are NaN, and Previous and Next are enabled and lead to `page=NaN` again | a page that is not a positive integer falls back to page 1 (`Checked`), where the pager stays within range | high, not executed | CountriesList.NonNumericPageStrands | CountriesList.CheckedPager |
| src/components/CountriesListClient.tsx:30-32 | a page size of 0 is used unchecked | `?pageSize=0` over a non-empty list: the page count is Infinity, every page is empty, and Next is never disabled | a page size that is not a positive integer falls back to 15 (`Checked`), so the page count is finite and only pages past it are empty | high, not executed | CountriesList.ZeroPageSizeEndless | CountriesList.CheckedPagesEnd |
| src/components/CountriesListClient.tsx:29-32 | `parseInt` results are used unchecked, so negative pages slice from the end of the list | `?page=-1&pageSize=1` over three countries shows the second country, where page -1 should show the first page or nothing | a page or page size that is not a positive integer falls back to its default (`Checked`) | high, not executed | CountriesList.NegativePageShowsEntries | CountriesList.CheckedPageIsBlock |
