/** The movie provider's records and the two lookups that fold a provider
    reply into a result (`searchMovies` and `searchMoviesById`). The HTTP
    request and the JSON decoding are not modelled: each lookup takes the
    decoded reply as its argument. */
module Provider {
  import opened Wrappers

  /** One hit of a title search, as listed under the reply's `Search` field. */
  datatype Movie = Movie(imdbID: string, title: string, year: string, poster: string)

  /** The full record returned by a lookup by identifier. */
  datatype Detail = Detail(
    imdbID: string, title: string, year: string, poster: string,
    genre: string, director: string, actors: string, plot: string)

  /** The text of a reply's `Error` field when the lookups treat it as an
      error: a string is truthy in JavaScript exactly when it is not empty. */
  type ErrorText = s: string | s != "" witness "error"

  /** A decoded provider reply: either it carries an `Error` message, or it
      carries the payload the lookup asked for. */
  datatype Response<P> = Err(msg: ErrorText) | Ok(payload: P)

  /** `searchMovies`: a reply carrying an error becomes the empty list; any
      other reply yields its hits unchanged and in the provider's order. */
  function SearchMovies(response: Response<seq<Movie>>): (hits: seq<Movie>)
    ensures response.Ok? ==> hits == response.payload
    ensures hits == [] <==> response.Err? || response.payload == []
  {
    match response
    case Err(_) => []
    case Ok(found) => found
  }

  /** `searchMoviesById`: a reply carrying an error becomes absent (`null`);
      any other reply is the detail record itself. */
  function SearchMoviesById(response: Response<Detail>): (detail: Option<Detail>)
    ensures detail.Some? <==> response.Ok?
    ensures detail.Some? ==> detail.value == response.payload
  {
    match response
    case Err(_) => None
    case Ok(record) => Some(record)
  }

  /** A caller cannot tell a provider error from a search without matches:
      both fold to the same empty list, whatever the error text. */
  lemma ErrorLooksLikeNoMatches(msg: ErrorText)
    ensures SearchMovies(Err(msg)) == SearchMovies(Ok([]))
  {
  }
}
