/** The state of the search page. `MovieSearch` holds the list on show
    (`movies`), the list in the provider's order (`originalMovies`) and the
    browser's stored snapshot (`localStorage['movies']`); `MovieList` holds
    the detail record on show (`selectedMovie`). Each handler runs as one
    step; the provider's reply, which the source awaits, is a parameter. */
module Session {
  import opened Wrappers
  import opened Provider
  import opened Sorting
  import opened SortEngine

  class MovieSearch {
    /** `localeCompare` on titles and the numeric coercion of years. */
    const titleLe: (string, string) -> bool
    const yearKey: string -> Option<int>

    /** `movies`: the list on show. */
    var current: seq<Movie>
    /** `originalMovies`: the last search's results in the provider's order. */
    var original: seq<Movie>
    /** `localStorage['movies']`: the snapshot written by the last search, if any. */
    var stored: Option<seq<Movie>>

    /** The list on show is always a rearrangement of the provider's list,
        and the title collation is a consistent comparator. */
    ghost predicate Valid()
      reads this
    {
      TotalPreorder(titleLe) && multiset(current) == multiset(original)
    }

    /** Mounting the page: both lists start empty; the storage keeps
        whatever an earlier session wrote. */
    constructor (titleLe: (string, string) -> bool, yearKey: string -> Option<int>, stored: Option<seq<Movie>>)
      requires TotalPreorder(titleLe)
      ensures Valid()
      ensures this.titleLe == titleLe && this.yearKey == yearKey
      ensures current == [] && original == [] && this.stored == stored
    {
      this.titleLe := titleLe;
      this.yearKey := yearKey;
      current, original := [], [];
      this.stored := stored;
    }

    /** `handleSearch`: the folded reply replaces both lists and the stored
        snapshot, even when it is empty. */
    method HandleSearch(response: Response<seq<Movie>>)
      requires Valid()
      modifies this
      ensures Valid()
      ensures current == SearchMovies(response) && original == SearchMovies(response)
      ensures stored == Some(SearchMovies(response))
    {
      var results := SearchMovies(response);
      current := results;
      original := results;
      stored := Some(results);
    }

    /** `handleSort`: only the list on show changes; it becomes the sort
        step's result, which is a rearrangement of the previous list on
        show. The provider's list and the stored snapshot are untouched. */
    method HandleSort(option: string)
      requires Valid()
      modifies this`current
      ensures Valid()
      ensures current == SortMovies(old(current), original, option, titleLe, yearKey)
      ensures multiset(current) == multiset(old(current))
      ensures option == RelevanceOption ==> current == original
      ensures option !in {YearOption, AlphabeticalOption, RelevanceOption} ==> current == old(current)
      ensures option == AlphabeticalOption ==>
        Sorted(TitleOrder(titleLe), current) && StableWrt(TitleOrder(titleLe), old(current), current)
      ensures original == old(original) && stored == old(stored)
    {
      if option == AlphabeticalOption {
        TitleOrderIsTotalPreorder(titleLe);
        StableSortSorted(TitleOrder(titleLe), current);
        StableSortStable(TitleOrder(titleLe), current);
      }
      current := SortMovies(current, original, option, titleLe, yearKey);
    }

    /** The startup effect: a stored snapshot, even an empty one, seeds both
        lists; without one both lists keep their values. */
    method Startup()
      requires Valid()
      modifies this`current, this`original
      ensures Valid()
      ensures stored.Some? ==> current == stored.value && original == stored.value
      ensures stored.None? ==> current == old(current) && original == old(original)
      ensures stored == old(stored)
    {
      if stored.Some? {
        current := stored.value;
        original := stored.value;
      }
    }
  }

  /** Mounting the page and running its startup effect: the lists show the
      stored snapshot when there is one and are empty otherwise, and a
      `relevance` pick then shows the same list again. */
  method Mount(titleLe: (string, string) -> bool, yearKey: string -> Option<int>, stored: Option<seq<Movie>>)
    returns (page: MovieSearch)
    requires TotalPreorder(titleLe)
    ensures fresh(page) && page.Valid() && page.stored == stored
    ensures page.titleLe == titleLe && page.yearKey == yearKey
    ensures page.current == page.original
    ensures page.current == (if stored.Some? then stored.value else [])
    ensures SortMovies(page.current, page.original, RelevanceOption, titleLe, yearKey) == page.current
  {
    page := new MovieSearch(titleLe, yearKey, stored);
    page.Startup();
  }

  class MovieList {
    /** `selectedMovie`: the detail record on show, if any. */
    var selected: Option<Detail>

    constructor ()
      ensures selected == None
    {
      selected := None;
    }

    /** `handleClick`: the folded detail reply replaces whatever was on
        show; a reply carrying an error leaves nothing on show. */
    method HandleClick(response: Response<Detail>)
      modifies this
      ensures selected == SearchMoviesById(response)
      ensures selected.Some? <==> response.Ok?
    {
      selected := SearchMoviesById(response);
    }

    /** `handleClose`: nothing is on show afterwards. */
    method HandleClose()
      modifies this
      ensures selected == None
    {
      selected := None;
    }
  }

  /** A whole session: a search returns three titles from 2008, 1989 and
      2022 in that order; `year` shows them oldest first, `relevance` brings
      back the provider's order, opening the first title shows its detail
      record and closing the panel leaves nothing on show. */
  method SearchSortOpenClose(titleLe: (string, string) -> bool, yearKey: string -> Option<int>,
                             a: Movie, b: Movie, c: Movie, detail: Detail)
    returns (byYear: seq<Movie>, restored: seq<Movie>, shown: Option<Detail>, cleared: Option<Detail>)
    requires TotalPreorder(titleLe)
    requires yearKey(a.year) == Some(2008) && yearKey(b.year) == Some(1989) && yearKey(c.year) == Some(2022)
    ensures byYear == [b, a, c] && restored == [a, b, c]
    ensures shown == Some(detail) && cleared == None
  {
    var le := YearOrder(yearKey);
    assert le(b, c) && !le(a, b) && le(a, c);
    assert StableSort(le, [c]) == [c];
    assert [b, c][1..] == [c];
    assert Insert(le, b, [c]) == [b, c];
    assert StableSort(le, [b, c]) == [b, c];
    assert [a, b, c][1..] == [b, c];
    assert Insert(le, a, [c]) == [a, c];
    assert Insert(le, a, [b, c]) == [b, a, c];
    assert StableSort(le, [a, b, c]) == [b, a, c];
    var page := new MovieSearch(titleLe, yearKey, None);
    page.HandleSearch(Ok([a, b, c]));
    page.HandleSort(YearOption);
    byYear := page.current;
    page.HandleSort(RelevanceOption);
    restored := page.current;
    var list := new MovieList();
    list.HandleClick(Ok(detail));
    shown := list.selected;
    list.HandleClose();
    cleared := list.selected;
  }
}
