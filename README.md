# Photo archive gallery: search, sort and favorites, in Dafny

This project models the browser-side core of a photo archive gallery:

- the projection of raw catalog items into flat photo records (`mapPhotos`);
- the search index, query tokenizer, conjunctive substring filter, the four
  sort orders and the "nothing found" decision (`initSearchAndSort`, and the
  earlier `initSearch` that only filters);
- the favorites store: a set of id strings kept in memory, saved to local
  storage after every change and re-read when another tab changes it;
- the favorites page: the list built from the store, the heart-button click
  that drops a card, and the empty state.

Modules, one file each:

| file | module | what it holds |
|---|---|---|
| `seqs.dfy` | `Seqs` | `Array.prototype.filter`, order-preserving subsequences, duplicate removal as done by `new Set(array)` |
| `text.dfy` | `Text` | `trim`, `toLowerCase`, `split(/\s+/)`, `split('-')`, `join`, `includes`, decimal strings |
| `sorting.dfy` | `Sorting` | `Array.prototype.sort` as a stable sort by a total preorder |
| `photos.dfy` | `Photos` | raw items, photo records, `mapPhotos` |
| `search.dfy` | `Search` | the pure search and sort logic the two search scripts share |
| `search_pages.dfy` | `SearchPages` | the page state of both search scripts (query, sort key, rendered list, message) |
| `favorites_store.dfy` | `FavoritesStore` | the store as a class |
| `favorites_page.dfy` | `FavoritesPage` | the favorites page as a class |

Both search scripts hold the same `extractYear`, index, `tokenizeQuery`,
`filterByQuery` and `showEmptyState` code; it is defined once, in `Search`.
Pure code is modelled as functions with lemmas. State that the scripts
reassign (the current sort key, the favorites set, the displayed cards) lives
in classes whose methods state the whole new state.

Modelling choices:

- Locale collation is a parameter: a `Collation` holds two "at or before"
  relations on strings, one for `localeCompare(_, 'ru')` (the year sorts'
  tie-break) and one for the `['ru', 'en']` base-sensitivity, numeric,
  punctuation-ignoring comparison (the location sorts). Both must be total
  preorders. A comparator result `<= 0` is read as "at or before".
- The built-in sort is stable (ECMAScript 2019 and later), so the model sorts
  by insertion, which is stable, and proves it sorted, a permutation and stable.
- Local storage under the store's key is a `Stored` value: nothing, text that
  does not parse, or an array of id strings. The values of the
  'favorites:changed' events are recorded as a sequence of counts.
- A photo id is a number or a string, compared by its decimal or literal string form.

## Model

| member | source | states |
|---|---|---|
| Photos.MapPhotos | scripts/utils/mapPhotos.js:2-3 | one record per catalog item, in catalog order, each the projection of its item |
| Photos.MapPhoto | scripts/utils/mapPhotos.js:4-34 | id, thumb and web are copied; region and country are '' exactly when the location or the sub-field is missing or empty, else the sub-field; location follows the composition rule; year and month come from the date; missing tags are [], a missing or empty hq is null, a missing description is ''; each camera field is '' exactly when the camera or that field is missing or empty |
| Photos.ComposeLocation | scripts/utils/mapPhotos.js:10-14 | '' exactly when region and country are both ''; `region • country` when both are present, otherwise the one present; both always occur inside the result |
| Photos.CameraField | scripts/utils/mapPhotos.js:28-33 | '' exactly when there is no camera or the field is missing or empty, otherwise the field's value |
| Photos.YearOfDate | scripts/utils/mapPhotos.js:18 | the year is the longest prefix of the date without '-', and it ends the date or is followed by '-' |
| Photos.MonthOfDate | scripts/utils/mapPhotos.js:19 | '' when the date has no '-'; otherwise the '-'-free segment right after the first '-' |
| Photos.YearOfPrefix | scripts/utils/mapPhotos.js:18 | a '-'-free segment that ends the date or is followed by '-' is exactly the year |
| Photos.DateParts | scripts/utils/mapPhotos.js:18-19 | a date `y-m` or `y-m-rest` projects to year `y` and month `m` |
| Photos.DateWithoutDash | scripts/utils/mapPhotos.js:18-19 | a date without '-' is all year and has month '' |
| Photos.IdStringOfNumber | scripts/favoritesStore.js:37 | a number id and its decimal string have the same string form, which reads back as the number |
| Search.ExtractYear | scripts/utils/initSearchAndSort.js:50-60 | the result is '' or four digits; it is the date's part before the first '-' exactly when that part is four digits, and '' otherwise (so '' for an empty date) |
| Search.ExtractYearOfYear | scripts/utils/initSearch.js:4-14 | a four-digit year alone or followed by '-' is returned as is |
| Search.BuildIndex | scripts/utils/initSearchAndSort.js:63-75 | one entry per photo, in order, keeping the photo and adding the lower case of country, region, year, space-joined tags and description joined by single spaces; every search text is lower case |
| Search.SearchTextWords | scripts/utils/initSearchAndSort.js:63-75 | a word without white space occurs in a photo's search text exactly when it occurs, lower-cased, inside its country, region, year, one of its tags or its description |
| Search.WordInSearchText | scripts/utils/initSearchAndSort.js:63-75 | a word found in the search text lies inside one searchable value |
| Search.SearchWordInText | scripts/utils/initSearchAndSort.js:63-75 | every searchable value, lower-cased, lies inside the search text |
| Search.Tokenize | scripts/utils/initSearchAndSort.js:78-80 | no token is empty or holds white space; there are no tokens exactly when the query is missing, empty or white space only; every token occurs in the lower-cased query, and the tokens put together are exactly the lower-cased query's non-space characters |
| Search.TokensOfQuery | scripts/utils/initSearchAndSort.js:79 | the non-empty pieces of the trimmed, lower-cased query occur in the lower-cased query and together hold all its non-space characters |
| Search.JoinWithoutEmpty | scripts/utils/initSearchAndSort.js:79 | `filter(Boolean)` drops only empty pieces, so the pieces' concatenation is unchanged |
| Search.BlankQuery | scripts/utils/initSearch.js:32-34 | a blank query trims to ''; a non-blank one leaves non-space text after trimming and lower-casing |
| Search.TokenizeJoin | scripts/utils/initSearchAndSort.js:78-80 | lower-case words joined by single spaces tokenize back to exactly those words |
| Search.JoinedWordsAreQuery | scripts/utils/initSearchAndSort.js:79 | trimming and lower-casing leave lower-case words joined by single spaces unchanged |
| Search.JoinedWordsTrimmed | scripts/utils/initSearchAndSort.js:79 | trimming leaves non-empty space-free words joined by single spaces unchanged |
| Search.FilterByQuery | scripts/utils/initSearchAndSort.js:83-90 | no tokens: the input unchanged; in every case the result is the plain filter by the tokens: a record is kept exactly when its search text contains every token, with all its copies, in input order |
| Search.FilterConjunctive | scripts/utils/initSearch.js:41-43 | filtering by two token lists together equals filtering by one and then by the other |
| Search.FilterOrderInsensitive | scripts/utils/initSearch.js:41-43 | token lists with the same tokens, in any order or repetition, keep the same records |
| Search.MatchesByField | scripts/utils/initSearch.js:41-43 | an index entry survives a query exactly when every query word occurs, lower-cased, in one of its searchable values |
| Search.ShowEmptyState | scripts/utils/initSearchAndSort.js:142-146 | the message shows exactly when the query has a non-space character and the list is empty |
| Search.OrderingIsTotalPreorder | scripts/utils/initSearchAndSort.js:7-31 | exactly the four known keys have a comparator, and each is a total preorder |
| Search.InitSort | scripts/utils/initSearchAndSort.js:5-36 | the result is a permutation of the list; an unknown key returns it unchanged |
| Search.InitSortOrdered | scripts/utils/initSearchAndSort.js:6-31 | for a known key the result is ordered by that key's comparator, and records that tie keep their input order |
| Search.YearSortOrder | scripts/utils/initSearchAndSort.js:8-17 | `year_desc`: years never increase and equal years are in ascending 'ru' location order; `year_asc`: years never decrease, same tie-break |
| Search.LocationSortOrder | scripts/utils/initSearchAndSort.js:18-31 | `location_asc` is ascending and `location_desc` descending in the base collation |
| Search.EmptyStateIffNoMatch | scripts/utils/initSearchAndSort.js:98-104 | after filtering then sorting, the message shows exactly when the query has a token and no catalog entry contains all of them |
| Search.EmptyStateWithoutSort | scripts/utils/initSearch.js:51-56 | the same for the filter-only page |
| Sorting.StableSortSorted | scripts/utils/initSearchAndSort.js:6-31 | the sort of a copy is ordered by the comparator |
| Sorting.StableSortStable | scripts/utils/initSearchAndSort.js:6-31 | elements that compare equal keep their relative order |
| Text.TrimFacts | scripts/utils/initSearchAndSort.js:142 | trim leaves '' exactly for white-space-only text; otherwise a middle part starting and ending with a non-space |
| Text.TrimStartCut | scripts/utils/initSearchAndSort.js:79 | trimming the start leaves a suffix that is empty or starts with a non-space, and everything cut is white space |
| Text.TrimEndCut | scripts/utils/initSearchAndSort.js:79 | trimming the end leaves a prefix that is empty or ends with a non-space, and everything cut is white space |
| Text.TrimBounds | scripts/utils/initSearchAndSort.js:79 | trim returns a slice of the text with only white space cut on either side |
| Text.SplitPiecesAreInfixes | scripts/utils/initSearchAndSort.js:79 | every piece of `split(/\s+/)` occurs in the text |
| Text.SplitKeepsNonSpace | scripts/utils/initSearchAndSort.js:79 | the pieces of `split(/\s+/)` put together are exactly the text's non-space characters, in order |
| Text.SplitJoin | scripts/utils/initSearchAndSort.js:79 | splitting single-space-joined non-empty words on white space gives the words back |
| SearchPages.SearchAndSortPage.constructor | scripts/utils/initSearchAndSort.js:39-40 | the index is built from the photos; the sort key is the select's value, or 'year_desc' without a select; the first search has run |
| SearchPages.SearchAndSortPage.RunSearch | scripts/utils/initSearchAndSort.js:98-104 | renders the sort of the filter result for the field's text and current key; the message shows exactly when the query has a token and nothing matches it |
| SearchPages.SearchAndSortPage.ChangeSort | scripts/utils/initSearchAndSort.js:41-46 | the new key is kept and the results are re-sorted by it for the same query |
| SearchPages.SearchAndSortPage.Search | scripts/utils/initSearchAndSort.js:107-119 | new field text is searched under the current key |
| SearchPages.SearchPage.constructor | scripts/utils/initSearch.js:51-57 | the index is built and the first search has run |
| SearchPages.SearchPage.RunSearch | scripts/utils/initSearch.js:51-56 | renders exactly the filter result, in index order; the message shows exactly when the query has a token and nothing matches it |
| SearchPages.SearchPage.Search | scripts/utils/initSearch.js:59-72 | new field text is searched |
| FavoritesStore.Load | scripts/favoritesStore.js:5-11 | a stored array is returned as is; nothing stored or unparsable text gives [] |
| FavoritesStore.LoadSet | scripts/favoritesStore.js:14 | the loaded ids without repeats, with the same members |
| FavoritesStore.SaveLoad | scripts/favoritesStore.js:17-18 | loading what was saved gives back the same set in the same order |
| FavoritesStore.Toggled | scripts/favoritesStore.js:41-43 | a present id leaves and no other id changes; an absent id joins at the end; no repeats appear |
| FavoritesStore.ToggleTwice | scripts/favoritesStore.js:41-45 | toggling one id twice restores the set, and the exact order when the id was absent |
| FavoritesStore.FavoriteByString | scripts/favoritesStore.js:36-38 | a number id and its decimal string give the same answer |
| FavoritesStore.Store.constructor | scripts/favoritesStore.js:14 | the set starts as the loaded ids without repeats |
| FavoritesStore.Store.GetFavorites | scripts/favoritesStore.js:26-28 | the ids in insertion order, each once |
| FavoritesStore.Store.GetFavoritesCount | scripts/favoritesStore.js:31-33 | the number of distinct ids, equal to the length of the list of favorites |
| FavoritesStore.Store.IsFavorite | scripts/favoritesStore.js:36-38 | true exactly when the id's string form is in the set |
| FavoritesStore.Store.SaveAndNotify | scripts/favoritesStore.js:17-23 | the whole set is saved, loading it gives the set back, and the notified count is the set's size |
| FavoritesStore.Store.ToggleFavorite | scripts/favoritesStore.js:41-45 | the id's membership flips, every id with another string form keeps its answer, the set is saved and its size notified |
| FavoritesStore.Store.ClearFavorites | scripts/favoritesStore.js:48-51 | the set is empty, no id is a favorite, the empty set is saved and 0 notified |
| FavoritesStore.Store.OnStorage | scripts/favoritesStore.js:54-58 | another key changes nothing; the store's key replaces the set by the loaded one and notifies its size |
| FavoritesPage.BuildFavoritesList | scripts/favorites.js:15-18 | exactly the catalog photos whose id's string form is a favorite, every copy of each as often as in the catalog, as an order-preserving subsequence of the catalog |
| FavoritesPage.RemoveById | scripts/favorites.js:76-77 | with unique ids, dropping the photos with card `i`'s id drops exactly card `i` |
| FavoritesPage.UnfavoriteDropsCard | scripts/favorites.js:72-77 | with unique ids, un-favoriting a listed card's id lists exactly the other cards, in order |
| FavoritesPage.Page.constructor | scripts/favorites.js:59-64 | after the first render the page agrees with the store |
| FavoritesPage.Page.Render | scripts/favorites.js:59-63 | the empty state shows exactly when no catalog photo is a favorite; otherwise the cards are the favorites list, each a favorite; the empty state leaves the old cards in the hidden grid |
| FavoritesPage.Page.OnLikeClick | scripts/favorites.js:67-81 | exactly the card's id is toggled in the store and exactly that card is removed; the empty state shows once no card is left; with unique ids a page that agreed with the store still does |
| FavoritesPage.Page.OnStorage | scripts/favorites.js:84-86 | under the store's key the store reloads the stored set, saves nothing new and notifies its size, and the page renders again (the old cards stay hidden when no favorite is left); other keys change neither the store nor the page |

## Left out

- Collation: `localeCompare` with the 'ru' and ['ru', 'en'] locales and options is an external library; it is the `Collation` parameter, assumed to be two total preorders.
- Search.YearOf: `Number(year || 0)` is modelled for years made of decimal digits and for '', which give their value and 0; any other year text reads as 0. In the script such text may still parse as a number (' 2021', '+2021', '1e3', '0x7E5'), and when it gives NaN, `NaN || …` falls through to the 'ru' location comparison, so the comparator is no longer consistent and the resulting order depends on the engine's sort.
- Text.Lower: `toLowerCase` is modelled for Latin A-Z and the Cyrillic capitals U+0400 to U+042F; other characters are left unchanged, unlike full Unicode case mapping.
- Timers: the 100 ms typing delay before a search is not modelled; `Search` runs the search at once, which is what happens when the delay elapses.
- DOM: HTML of cards, creating the message element, `hidden` and `display` styles and the early returns when the search field, the button, the grid or the empty-state element is missing are left out; the pages are modelled with all elements present.
- Local storage and events: `JSON.parse` and `JSON.stringify`, and the event objects, are replaced by the `Stored` value and the list of notified counts. Stored JSON that parses to something other than an array of strings is not modelled.
- Camera values are carried as text; a numeric value of 0 in the catalog would give '' in the script.
- Photos.MapPhoto: every catalog item is taken to have a date and files, as `RawItem` requires; for an item without `date` or `files` the script throws a TypeError while mapping, which is not modelled.
- Photos.IdString: a numeric id is a natural number written in decimal; the script's ids are JSON doubles, so negative and fractional ids are not represented, and `String(n)` from 1e21 upward gives exponent notation such as '1e+21', which `NatToString` does not.
- `console.warn` for an unknown sort key is left out.
- scripts/gallery.js, scripts/photo.js and scripts/utils/loader.js are not part of this model: they wire the pages, render the detail view and animate the loader.
- The scripts have no paged "load more", no shuffling and no saving or restoring of the scroll position, so none is modelled.
- In the sort-and-search script, a change of the sort select is handled even when the search field is missing, and `runSearch` would then read the missing field; the model has the field present.
