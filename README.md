# Movie search: search, sort and persist state, in Dafny

This project models the client-side logic of a React movie-search page. The page does four things:

- It searches the OMDb movie provider by title and folds a provider error into "no results".
- It keeps two copies of the results: the list on show and the list in the provider's (relevance) order.
- It re-sorts the list on show by year, by title or back to relevance, without touching the provider's order.
- It stores the last search's results in the browser's `localStorage` and loads them again when the page mounts.

A separate list component shows one detail record at a time, fetched when the user clicks a title.

Modules:

- `Wrappers`: `Option`, the model's `null`.
- `Provider`: the records (`Movie`, `Detail`), a decoded provider reply (`Response`: `Err(msg)` with a non-empty `ErrorText`, or `Ok(payload)`), and the two folds `SearchMovies` and `SearchMoviesById`.
- `Sorting`: a reference stable sort (`StableSort`, insertion from the back) over any consistent comparator `le`. Proved: the result is a permutation, it is ordered, equivalent elements keep their order (`StableWrt`, stated through `Peers`), and sorting twice changes nothing. `StableSortCharacterised` proves that every ordered, stable rearrangement equals `StableSort`. So the reference stands for the engine's `Array.prototype.sort`, which is stable.
- `SortEngine`: the two comparators as orders and `SortMovies`, the sort step of `handleSort`. Title collation is a parameter `titleLe`, assumed to be a total preorder. The year-to-number coercion is a parameter `yearKey: string -> Option<int>`.
- `Session`: class `MovieSearch`, with fields `current` (`movies`), `original` (`originalMovies`) and `stored` (`localStorage['movies']`), and the handlers `HandleSearch`, `HandleSort` and `Startup`. Class `MovieList` holds the detail slot `selected` (`selectedMovie`), with `HandleClick` and `HandleClose`. `MovieSearch.Valid()` keeps `current` a permutation of `original`.

The provider's reply is a method parameter, not a network call. Each handler runs as one atomic step.

Three behaviours of the code shape the model:

- A stored value is read with `JSON.parse`, and nothing catches an error there. The model makes no claim about a corrupt stored value.
- The year comparator `a.Year - b.Year` returns NaN when a year is not a number, which leaves the engine's order unspecified. The model places such entries last. Year ordering and year stability are stated only when every year parses.
- A stored empty list is truthy in JavaScript. So `Startup` seeds both lists from a stored `[]` too.

## Model

| member | source | states |
|---|---|---|
| Provider.SearchMovies | src/MovieSearch.js:8-17 | A reply with `Error` gives the empty list. Any other reply gives its hits unchanged and in order. The result is empty exactly when the reply is an error or has no hits. |
| Provider.SearchMoviesById | src/MovieSearch.js:38-47 | The result is present exactly when the reply carries no error. When present, it is the reply's record. |
| Provider.ErrorLooksLikeNoMatches | src/MovieSearch.js:11-13 | A provider error and a search with no hits give the same result, whatever the (non-empty) error text. |
| Sorting.StableSort | src/MovieSearch.js:125-128 | The sort of a copied list returns a permutation of its input (equal multisets). |
| Sorting.StableSortSorted | src/MovieSearch.js:125-128 | Under a consistent comparator, every element of the sorted list is `le` every later one. |
| Sorting.StableSortStable | src/MovieSearch.js:125-128 | Elements the comparator cannot tell apart keep their relative input order. |
| Sorting.StableSortIdempotent | src/MovieSearch.js:125-128 | Sorting the sorted result again with the same comparator returns it unchanged. |
| Sorting.StableSortCharacterised | src/MovieSearch.js:125-128 | Any ordered and stable rearrangement of the input equals `StableSort`, so the reference pins down what the engine's stable sort returns. |
| SortEngine.YearOrder | src/MovieSearch.js:125 | When both years parse, `le(a, b)` holds exactly when `a.Year - b.Year <= 0`. An entry whose year does not parse never precedes one whose year does; that placement is the model's choice for the NaN case. |
| SortEngine.TitleOrder | src/MovieSearch.js:128 | `le(a, b)` holds exactly when the titles are in collation order, that is, when `a.Title.localeCompare(b.Title) <= 0`. |
| SortEngine.YearOrderIsTotalPreorder | src/MovieSearch.js:125 | The year comparator, with parsed years by value and unparsed ones last, is total and transitive. |
| SortEngine.TitleOrderIsTotalPreorder | src/MovieSearch.js:128 | The title comparator is total and transitive whenever the collation is. |
| SortEngine.SortMovies | src/MovieSearch.js:122-136 | For every option except `relevance`, the next list is a permutation of the list on show. |
| SortEngine.SortsKeepPermutation | src/MovieSearch.js:122-136 | After any sequence of sort picks, the list on show is still a permutation of the provider's list. |
| SortEngine.RelevanceRestoresOriginal | src/MovieSearch.js:130-131 | After any sequence of picks, picking `relevance` gives exactly the provider's list. |
| SortEngine.UnknownOptionIsNoOp | src/MovieSearch.js:133-134 | An option other than `year`, `alphabetical` and `relevance` leaves the list on show as it was. |
| SortEngine.AlphabeticalSortedStableIdempotent | src/MovieSearch.js:128 | `alphabetical` orders titles by the collation and keeps titles that collate equal in their previous order. Picking it again changes nothing. |
| SortEngine.WithYearIsPeers | src/MovieSearch.js:125 | Under the year comparator, the entries that tie with a movie are exactly those with the same coerced year, in list order. |
| SortEngine.YearSortedStable | src/MovieSearch.js:125 | When every year parses, `year` orders the list by ascending year and keeps entries with equal years in their previous order. |
| Session.MovieSearch.constructor | src/MovieSearch.js:111-113 | On mount both lists are empty, and the stored slot holds whatever an earlier session wrote. |
| Session.MovieSearch.HandleSearch | src/MovieSearch.js:115-120 | The folded reply becomes the list on show, the provider's list and the stored snapshot, even when it is empty. |
| Session.MovieSearch.HandleSort | src/MovieSearch.js:122-136 | Only the list on show changes, to a permutation of itself. `relevance` makes it the provider's list. `alphabetical` leaves it in collation order, with equally collating titles in their previous order. An unknown option leaves it as it was. The provider's list and the stored snapshot are unchanged. |
| Session.MovieSearch.Startup | src/MovieSearch.js:138-144 | A stored snapshot, even an empty one, seeds both lists. Without one, both lists keep their values. |
| Session.Mount | src/MovieSearch.js:138-143 | After mount and the startup effect, both lists equal the stored snapshot, or are empty when none is stored. The page keeps the comparators it was given. A `relevance` pick then shows the same list. |
| Session.MovieList.constructor | src/MovieSearch.js:64 | No detail record is on show initially. |
| Session.MovieList.HandleClick | src/MovieSearch.js:66-69 | The folded detail reply replaces the record on show. An error reply leaves nothing on show. |
| Session.MovieList.HandleClose | src/MovieSearch.js:71-73 | Nothing is on show afterwards. |
| Session.SearchSortOpenClose | src/MovieSearch.js:115-136 | A search returns titles from 2008, 1989 and 2022. `year` shows them as 1989, 2008, 2022. `relevance` restores the provider's order. Opening a title shows its record, and closing clears it. |

## Left out

- The HTTP request, the URL with its API key, and `response.json()` (src/MovieSearch.js:9-10, 39-40) are network I/O. Each handler takes the decoded reply as a parameter instead.
- Log output through `console.error` (src/MovieSearch.js:12, 42) has no effect on state and is not modelled.
- A reply whose `Error` field is the empty string is not modelled. That value is falsy in JavaScript, so the code would return the reply's `Search` field, or the reply itself for a lookup by id. `Err` takes an `ErrorText`, which is never empty, so such a reply cannot be written as an `Err`.
- `Session.MovieList.HandleClick` takes the reply for the clicked title's `imdbID`. The identifier only builds the request URL, so it is not a parameter.
- Overlapping asynchronous searches and detail fetches, where a stale reply overwrites a newer one, are concurrency. Each handler is one atomic step.
- React's deferred state updates and re-rendering are not modelled. A handler's writes take effect together.
- The JSON encoding of the stored slot is left out. The slot is an `Option<seq<Movie>>`. A corrupt stored value, or a reply without a `Search` field (stored as `undefined`), makes `JSON.parse` throw at startup, uncaught. The model makes no claim about corrupt data.
- SortEngine.YearSortedStable: the ordering and the stability are stated only when every year parses as a number. Otherwise the source's comparator returns NaN, and the engine's order is unspecified.
- SortEngine.SortMovies and Session.MovieSearch.HandleSort give the model's order, not the program's, for `year` when some year does not parse: the model puts such entries after every numeric year. The permutation property still holds for them.
- `yearKey` returns whole numbers. Fractional years, which the numeric coercion would accept, are not modelled.
- The collation inside `localeCompare` is not modelled. It is the parameter `titleLe`, assumed to be a total preorder.
- JSX rendering, the router, `SearchForm`, `SortDropdown`, `MovieDetailsPanel` and the embedded CSS (src/MovieSearch.js:19-36, 49-61, 75-109, 146-300) have no logic and are not modelled.
