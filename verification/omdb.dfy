/**
 * The metadata client: the three helpers that query the OMDb service
 * (`fetch_movie_by_title`, `fetch_movie_by_imdb_id`, `search_movies`).
 * The HTTP round trip itself is a parameter, `http`, from the query the
 * helper sends to the reply it gets back; what is modelled is each helper's
 * decision on that reply, and the short cut taken when no API key is set.
 */
module Omdb {
  import opened Wrappers

  /** The string-valued members of a JSON object the service returns. */
  type Record = map<string, string>

  /** Python's `record.get(name)`. */
  function Get(r: Record, name: string): Option<string> {
    if name in r then Some(r[name]) else None
  }

  /**
   * The query parameter sent beside `apikey`: `t` (a title), `i` (an
   * identifier; a search hit without one sends none) or `s` (a search term).
   */
  datatype Param = Title(t: string) | Id(i: Option<string>) | Term(s: string)

  datatype Query = Query(apikey: string, param: Param)

  /**
   * What comes back: the HTTP status, the string members of the decoded body
   * and, for a search, the body's "Search" array when it has one.
   */
  datatype Reply = Reply(status: int, body: Record, search: Option<seq<Record>>)

  /** `OMDB_API_KEY` is truthy: set and not empty. */
  predicate HasKey(key: Option<string>) {
    key.Some? && key.value != ""
  }

  /** A reply the helpers accept: status 200 and a body whose "Response" is "True". */
  predicate Succeeded(reply: Reply) {
    reply.status == 200 && Get(reply.body, "Response") == Some("True")
  }

  /** The decision the three helpers share, given the key and the query they would send. */
  function Fetch(key: Option<string>, http: Query -> Reply, param: Param): (r: Option<Record>)
    ensures !HasKey(key) ==> r == None
    ensures r.Some? <==> HasKey(key) && Succeeded(http(Query(key.value, param)))
    ensures r.Some? ==> r.value == http(Query(key.value, param)).body
  {
    if !HasKey(key) then None
    else
      var reply := http(Query(key.value, param));
      if reply.status != 200 then None
      else if Get(reply.body, "Response") != Some("True") then None
      else Some(reply.body)
  }

  /** `fetch_movie_by_title`: the detail record of the movie with this title, or None. */
  function FetchMovieByTitle(key: Option<string>, http: Query -> Reply, title: string): (r: Option<Record>)
    ensures !HasKey(key) ==> r == None
    ensures r.Some? ==> Get(r.value, "Response") == Some("True")
  {
    Fetch(key, http, Title(title))
  }

  /** `fetch_movie_by_imdb_id`: the detail record of the movie with this identifier, or None. */
  function FetchMovieByImdbId(key: Option<string>, http: Query -> Reply, imdbId: Option<string>): (r: Option<Record>)
    ensures !HasKey(key) ==> r == None
    ensures r.Some? ==> Get(r.value, "Response") == Some("True")
  {
    Fetch(key, http, Id(imdbId))
  }

  /**
   * `search_movies`: the hits of a free-text search; empty without a key, on a
   * failed reply, and when a successful reply has no "Search" array.
   */
  function SearchMovies(key: Option<string>, http: Query -> Reply, query: string): (hits: seq<Record>)
    ensures !HasKey(key) ==> hits == []
    ensures hits != [] ==> HasKey(key) && Succeeded(http(Query(key.value, Term(query))))
    ensures hits != [] ==> http(Query(key.value, Term(query))).search == Some(hits)
    ensures HasKey(key) && Succeeded(http(Query(key.value, Term(query)))) ==>
      hits == http(Query(key.value, Term(query))).search.GetOr([])
  {
    match Fetch(key, http, Term(query))
    case None => []
    case Some(_) => http(Query(key.value, Term(query))).search.GetOr([])
  }
}
