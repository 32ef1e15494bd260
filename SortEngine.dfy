/** The sort step of the search page (`handleSort`): from the list on show,
    the list as the provider returned it and the option picked in the sort
    menu, the next list on show. The two comparators are taken as
    parameters: `titleLe` stands for `localeCompare` on titles (`titleLe(a, b)`
    when `a.localeCompare(b) <= 0`) and `yearKey` for the numeric coercion
    that `a.Year - b.Year` applies to each year (`None` when the text is not
    a number). */
module SortEngine {
  import opened Wrappers
  import opened Provider
  import opened Sorting

  /** The option values the sort menu offers. */
  const YearOption: string := "year"
  const AlphabeticalOption: string := "alphabetical"
  const RelevanceOption: string := "relevance"

  /** Order on coerced years: numbers by value. Where a year is not a
      number the source's comparator yields NaN and the engine's order is
      unspecified; this model puts such entries after every numeric year. */
  function YearLe(a: Option<int>, b: Option<int>): bool {
    match (a, b)
    case (Some(x), Some(y)) => x <= y
    case (Some(_), None) => true
    case (None, Some(_)) => false
    case (None, None) => true
  }

  /** The comparator `(a, b) => a.Year - b.Year`, as an order: when both
      years are numbers, `a` may precede `b` exactly when the difference is
      not positive. An entry whose year is not a number never precedes one
      whose year is (the model's choice for the NaN case). */
  function YearOrder(yearKey: string -> Option<int>): (le: (Movie, Movie) -> bool)
    ensures forall a: Movie, b: Movie | yearKey(a.year).Some? && yearKey(b.year).Some? ::
      le(a, b) <==> yearKey(a.year).value - yearKey(b.year).value <= 0
    ensures forall a: Movie, b: Movie | yearKey(a.year).None? && yearKey(b.year).Some? :: !le(a, b)
  {
    (a: Movie, b: Movie) => YearLe(yearKey(a.year), yearKey(b.year))
  }

  /** The comparator `(a, b) => a.Title.localeCompare(b.Title)`, as an order:
      `a` may precede `b` exactly when their titles are in collation order. */
  function TitleOrder(titleLe: (string, string) -> bool): (le: (Movie, Movie) -> bool)
    ensures forall a: Movie, b: Movie :: le(a, b) <==> titleLe(a.title, b.title)
  {
    (a: Movie, b: Movie) => titleLe(a.title, b.title)
  }

  /** The year comparator is consistent whatever the years hold. */
  lemma YearOrderIsTotalPreorder(yearKey: string -> Option<int>)
    ensures TotalPreorder(YearOrder(yearKey))
  {
  }

  /** The title comparator is consistent when the collation is. */
  lemma TitleOrderIsTotalPreorder(titleLe: (string, string) -> bool)
    requires TotalPreorder(titleLe)
    ensures TotalPreorder(TitleOrder(titleLe))
  {
  }

  /** `handleSort`: `year` and `alphabetical` sort a copy of the list on
      show, `relevance` copies the provider's order, any other option leaves
      the list on show as it is. Apart from `relevance`, the result is a
      rearrangement of the list on show. */
  function SortMovies(current: seq<Movie>, original: seq<Movie>, option: string,
                      titleLe: (string, string) -> bool, yearKey: string -> Option<int>): (next: seq<Movie>)
    ensures option != RelevanceOption ==> multiset(next) == multiset(current)
  {
    if option == YearOption then StableSort(YearOrder(yearKey), current)
    else if option == AlphabeticalOption then StableSort(TitleOrder(titleLe), current)
    else if option == RelevanceOption then original
    else current
  }

  /** The list on show after the user picks each of `options` in turn. */
  function ApplySorts(current: seq<Movie>, original: seq<Movie>, options: seq<string>,
                      titleLe: (string, string) -> bool, yearKey: string -> Option<int>): seq<Movie>
    decreases |options|
  {
    if options == [] then current
    else ApplySorts(SortMovies(current, original, options[0], titleLe, yearKey), original, options[1..], titleLe, yearKey)
  }

  /** Whatever sequence of options is picked, the list on show stays a
      rearrangement of the provider's list: no entry is lost or duplicated. */
  lemma {:induction false} SortsKeepPermutation(current: seq<Movie>, original: seq<Movie>, options: seq<string>,
                                                titleLe: (string, string) -> bool, yearKey: string -> Option<int>)
    requires multiset(current) == multiset(original)
    ensures multiset(ApplySorts(current, original, options, titleLe, yearKey)) == multiset(original)
    decreases |options|
  {
    if options != [] {
      SortsKeepPermutation(SortMovies(current, original, options[0], titleLe, yearKey), original, options[1..], titleLe, yearKey);
    }
  }

  /** Picking `relevance` restores the provider's order exactly, after any
      sequence of earlier picks. */
  lemma {:induction false} RelevanceRestoresOriginal(current: seq<Movie>, original: seq<Movie>, options: seq<string>,
                                                     titleLe: (string, string) -> bool, yearKey: string -> Option<int>)
    ensures ApplySorts(current, original, options + [RelevanceOption], titleLe, yearKey) == original
    decreases |options|
  {
    if options != [] {
      assert (options + [RelevanceOption])[1..] == options[1..] + [RelevanceOption];
      RelevanceRestoresOriginal(SortMovies(current, original, options[0], titleLe, yearKey), original, options[1..], titleLe, yearKey);
    }
  }

  /** An option the menu does not offer changes nothing. */
  lemma UnknownOptionIsNoOp(current: seq<Movie>, original: seq<Movie>, option: string,
                            titleLe: (string, string) -> bool, yearKey: string -> Option<int>)
    requires option !in {YearOption, AlphabeticalOption, RelevanceOption}
    ensures SortMovies(current, original, option, titleLe, yearKey) == current
  {
  }

  /** `alphabetical` orders the list by title, keeps entries whose titles
      collate equal in their previous order, and picking it a second time
      changes nothing. */
  lemma AlphabeticalSortedStableIdempotent(current: seq<Movie>, original: seq<Movie>,
                                           titleLe: (string, string) -> bool, yearKey: string -> Option<int>)
    requires TotalPreorder(titleLe)
    ensures var next := SortMovies(current, original, AlphabeticalOption, titleLe, yearKey);
      && (forall i, j :: 0 <= i < j < |next| ==> titleLe(next[i].title, next[j].title))
      && StableWrt(TitleOrder(titleLe), current, next)
      && SortMovies(next, original, AlphabeticalOption, titleLe, yearKey) == next
  {
    TitleOrderIsTotalPreorder(titleLe);
    var le := TitleOrder(titleLe);
    StableSortSorted(le, current);
    StableSortStable(le, current);
    StableSortIdempotent(le, current);
    var next := StableSort(le, current);
    forall i, j | 0 <= i < j < |next| ensures titleLe(next[i].title, next[j].title) {
      assert le(next[i], next[j]);
    }
  }

  /** The entries of `s` whose year coerces to `year`, in their order in `s`. */
  function WithYear(yearKey: string -> Option<int>, year: Option<int>, s: seq<Movie>): (r: seq<Movie>)
    ensures forall m | m in r :: m in s && yearKey(m.year) == year
  {
    if s == [] then []
    else (if yearKey(s[0].year) == year then [s[0]] else []) + WithYear(yearKey, year, s[1..])
  }

  /** Under the year order, the peers of `k` are the entries with `k`'s year. */
  lemma {:induction false} WithYearIsPeers(yearKey: string -> Option<int>, k: Movie, s: seq<Movie>)
    ensures WithYear(yearKey, yearKey(k.year), s) == Peers(YearOrder(yearKey), k, s)
  {
    if s != [] {
      WithYearIsPeers(yearKey, k, s[1..]);
      var le := YearOrder(yearKey);
      assert Equiv(le, s[0], k) <==> yearKey(s[0].year) == yearKey(k.year);
    }
  }

  /** Every year in `s` coerces to a number, so the source's comparator
      never yields NaN on `s`. */
  ghost predicate AllYearsNumeric(yearKey: string -> Option<int>, s: seq<Movie>) {
    forall m | m in s :: yearKey(m.year).Some?
  }

  /** When every year is a number, `year` orders the list by ascending year
      and keeps entries with equal years in their previous order. */
  lemma YearSortedStable(current: seq<Movie>, original: seq<Movie>,
                         titleLe: (string, string) -> bool, yearKey: string -> Option<int>)
    requires AllYearsNumeric(yearKey, current)
    ensures var next := SortMovies(current, original, YearOption, titleLe, yearKey);
      && AllYearsNumeric(yearKey, next)
      && (forall i, j :: 0 <= i < j < |next| ==>
            yearKey(next[i].year).Some? && yearKey(next[j].year).Some? &&
            yearKey(next[i].year).value <= yearKey(next[j].year).value)
      && (forall m | m in current :: WithYear(yearKey, yearKey(m.year), next) == WithYear(yearKey, yearKey(m.year), current))
  {
    YearOrderIsTotalPreorder(yearKey);
    var le := YearOrder(yearKey);
    StableSortSorted(le, current);
    StableSortStable(le, current);
    var next := StableSort(le, current);
    forall m | m in next ensures yearKey(m.year).Some? {
      assert m in multiset(current);
    }
    forall i, j | 0 <= i < j < |next|
      ensures yearKey(next[i].year).Some? && yearKey(next[j].year).Some? &&
              yearKey(next[i].year).value <= yearKey(next[j].year).value
    {
      assert next[i] in next && next[j] in next;
      assert le(next[i], next[j]);
    }
    forall m | m in current
      ensures WithYear(yearKey, yearKey(m.year), next) == WithYear(yearKey, yearKey(m.year), current)
    {
      WithYearIsPeers(yearKey, m, next);
      WithYearIsPeers(yearKey, m, current);
    }
  }
}
