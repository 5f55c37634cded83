/**
 * The two pages. `index` builds the base list (search-driven when a query is
 * given, seed-driven otherwise), derives the facets from that list, then
 * narrows it by the selected genre; `movie_detail` looks one identifier up
 * and answers "not found" when the lookup fails. Rendering, routing and the
 * reading of request arguments and of the environment are left to the web
 * framework: the arguments arrive here as values.
 */
module App {
  import opened Wrappers
  import opened Text
  import opened Omdb
  import opened Catalog
  import opened Genres

  /** The process-wide settings: `OMDB_API_KEY` (None when unset) and the seed titles `BASE_MOVIES`. */
  datatype Config = Config(apiKey: Option<string>, baseMovies: seq<string>)

  /** What `index` hands to its template. */
  datatype Page = Page(
    movies: seq<Summary>,
    genres: seq<string>,
    selectedGenre: string,
    query: string,
    hasApiKey: bool)

  /** What `movie_detail` answers: 404, or the detail page of the record found. */
  datatype DetailPage = NotFound | Detail(movie: Record)

  /** `request.args.get(name, "").strip()`. */
  function Arg(raw: Option<string>): string {
    Strip(raw.GetOr(""))
  }

  /** The list before the genre filter: search results for a query, the seed titles otherwise. */
  function BaseList(cfg: Config, http: Query -> Reply, query: string): seq<Summary> {
    if query != "" then Collect(SearchMovies(cfg.apiKey, http, query), ByHitId(cfg.apiKey, http))
    else Collect(cfg.baseMovies, ByTitle(cfg.apiKey, http))
  }

  /** Without an API key every lookup fails, so the base list is empty whatever the query. */
  lemma NoKeyEmptyBase(cfg: Config, http: Query -> Reply, query: string)
    requires !HasKey(cfg.apiKey)
    ensures BaseList(cfg, http, query) == []
  {
    if query == "" {
      CollectNothing(cfg.baseMovies, ByTitle(cfg.apiKey, http));
    }
  }

  /**
   * `index`: the echoed arguments, the facets of the unfiltered base list
   * (so they do not depend on the selected genre), and the base list narrowed
   * by the selected genre when one is given.
   */
  method Index(cfg: Config, http: Query -> Reply, rawQuery: Option<string>, rawGenre: Option<string>)
    returns (page: Page)
    ensures page.query == Arg(rawQuery) && page.selectedGenre == Arg(rawGenre)
    ensures page.hasApiKey == HasKey(cfg.apiKey)
    ensures page.genres == SortedSet(AllGenres(BaseList(cfg, http, page.query)))
    ensures page.selectedGenre == "" ==> page.movies == BaseList(cfg, http, page.query)
    ensures page.selectedGenre != "" ==> page.movies == WithGenre(BaseList(cfg, http, page.query), page.selectedGenre)
    ensures !HasKey(cfg.apiKey) ==> page.movies == [] && page.genres == []
  {
    var query := Arg(rawQuery);
    var selectedGenre := Arg(rawGenre);
    var movies;
    if query != "" {
      var rawResults := SearchMovies(cfg.apiKey, http, query);
      movies := SearchResults(cfg.apiKey, http, rawResults);
    } else {
      movies := GetHomeMovies(cfg.apiKey, http, cfg.baseMovies);
    }
    var genres := ExtractGenres(movies);
    if selectedGenre != "" {
      movies := FilterByGenre(movies, selectedGenre);
    }
    page := Page(movies, genres, selectedGenre, query, HasKey(cfg.apiKey));
    if !HasKey(cfg.apiKey) {
      NoKeyEmptyBase(cfg, http, query);
      ElemsEmpty(genres);
    }
  }

  /** `movie_detail`: 404 exactly when the identifier does not resolve, the record otherwise. */
  function MovieDetail(cfg: Config, http: Query -> Reply, imdbId: string): (r: DetailPage)
    ensures r.NotFound? <==> FetchMovieByImdbId(cfg.apiKey, http, Some(imdbId)).None?
    ensures r.Detail? ==> Some(r.movie) == FetchMovieByImdbId(cfg.apiKey, http, Some(imdbId))
    ensures !HasKey(cfg.apiKey) ==> r.NotFound?
  {
    match FetchMovieByImdbId(cfg.apiKey, http, Some(imdbId))
    case None => NotFound
    case Some(movie) => Detail(movie)
  }

  // ---------------------------------------------------------------------------
  // A worked case
  // ---------------------------------------------------------------------------

  // The strings of the case are parameters fixed by `requires` rather than
  // literals, so that the solver does not unfold `Split` and `Strip` over them.

  /** The labels of "Action, Sci-Fi" are Action and Sci-Fi: the space after the comma is stripped. */
  lemma ActionSciFiLabels(m: Summary, a: string, b: string)
    requires a == "Action" && b == " Sci-Fi"
    requires m.genre == Some(a + [','] + b)
    ensures MovieGenres(m) == ["Action", "Sci-Fi"]
  {
    assert Join([a, b], ',') == a + [','] + b by { assert [a, b][1..] == [b]; }
    LabelsOfJoined(m, [a, b]);
    StripTrimmed(a);
    assert Strip(b) == b[1..] by {
      assert TrimStart(b) == TrimStart(b[1..]);
      StripTrimmed(b[1..]);
    }
    assert b[1..] == "Sci-Fi";
    var ab := [a, b];
    assert ab[..1] == [a] && ab[..1][..0] == [];
    assert Tokens([a]) == [a];
    assert Tokens(ab) == Tokens(ab[..1]) + [Strip(b)];
  }

  /** A single movie whose Genre is "Action, Sci-Fi" has the facets Action and Sci-Fi, in that order. */
  lemma ActionSciFiFacets(movies: seq<Summary>, a: string, b: string)
    requires a == "Action" && b == " Sci-Fi"
    requires |movies| == 1 && movies[0].genre == Some(a + [','] + b)
    ensures SortedSet(AllGenres(movies)) == ["Action", "Sci-Fi"]
  {
    ActionSciFiLabels(movies[0], a, b);
    UnionStep(movies, MovieGenres, 0);
    assert movies[..1] == movies && movies[..0] == [];
    assert AllGenres(movies) == Elems(["Action", "Sci-Fi"]);
    assert Below("Action", "Sci-Fi");
    AscendingUnique(SortedSet(AllGenres(movies)), ["Action", "Sci-Fi"]);
  }

  /**
   * One seed title whose record has Genre "Action, Sci-Fi": the home list is
   * that one summary, and its facets are Action and Sci-Fi, in that order.
   */
  lemma MatrixHome(cfg: Config, http: Query -> Reply, d: Record, a: string, b: string)
    requires HasKey(cfg.apiKey) && cfg.baseMovies == ["The Matrix"]
    requires a == "Action" && b == " Sci-Fi"
    requires d == map["Response" := "True", "Title" := "The Matrix",
                      "Genre" := a + [','] + b, "imdbID" := "tt0133093"]
    requires http(Query(cfg.apiKey.value, Title("The Matrix"))) == Reply(200, d, None)
    ensures BaseList(cfg, http, "") ==
      [Summary(Some("The Matrix"), None, None, Some("tt0133093"), Some(a + [','] + b), None)]
    ensures SortedSet(AllGenres(BaseList(cfg, http, ""))) == ["Action", "Sci-Fi"]
  {
    var movies := BaseList(cfg, http, "");
    assert ByTitle(cfg.apiKey, http)("The Matrix") == Some(d);
    assert cfg.baseMovies[..0] == [];
    assert movies == [Summarize(d)];
    ActionSciFiFacets(movies, a, b);
  }
}
