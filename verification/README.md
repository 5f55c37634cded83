# ifilmes: movie aggregation and genre facets, modelled in Dafny

ifilmes is a small Flask front end over the OMDb movie-metadata service. The
logic behind its pages is a short in-memory pipeline:

1. The **metadata client** (`fetch_movie_by_title`, `fetch_movie_by_imdb_id`,
   `search_movies`) sends one query to OMDb. It answers None or `[]` when no
   API key is set, when the HTTP status is not 200, or when the body's
   `Response` is not `"True"`.
2. The **aggregator** turns a list into movie summaries. `get_home_movies`
   works over the seed titles and the search loop of `index` over the search
   hits. Each element gets one detail lookup. Failed lookups are skipped, and
   each detail record is cut down to `Title`, `Year`, `Poster`, `imdbID`,
   `Genre` and `imdbRating`.
3. The **facet builder** `extract_genres` splits each `Genre` string on commas
   and strips each piece. It drops empty pieces, removes duplicates and
   returns the labels sorted.
4. The **genre filter** in `index` keeps the movies whose stripped labels
   include the selected genre exactly. An empty selection leaves the list
   unchanged. The facets are computed from the list before it is filtered.
5. The **detail route** `movie_detail` answers 404 when the identifier does
   not resolve.

The Dafny modules follow that structure:

- `wrappers.dfy`, module `Wrappers`: `Option`, the absent/present result.
- `text.dfy`, module `Text`: the parts of Python's `str` that the genre code
  uses. These are `split(sep)`, `strip()` (with Python's `isspace` set) and
  string `<`, which is lexicographic by code point. It also holds `sorted` on
  a set of strings. The reference definition is `SortedSet` (least element
  first). The method `SortSet` inserts elements one at a time into an
  ascending sequence. The lemma `AscendingUnique` shows the two agree.
- `omdb.dfy`, module `Omdb`: the three fetch helpers. The HTTP round trip is
  the parameter `http: Query -> Reply`. A `Reply` holds the status, the
  string members of the decoded JSON body, and its `Search` array.
- `catalog.dfy`, module `Catalog`: the `Summary` record and `Collect`, the
  reference filter-map. It also has the two aggregation loops as methods
  proved equal to `Collect`.
- `genres.dfy`, module `Genres`: a movie's labels, the facet set
  `AllGenres`, `extract_genres` as a method with nested loops, and the genre
  filter as a method (`FilterByGenre`) with its reference `WithGenre`.
- `app.dfy`, module `App`: the `index` orchestration, the `movie_detail`
  decision, and one worked case: a seed whose genre is `"Action, Sci-Fi"`.

Configuration is passed as a value, `Config(apiKey, baseMovies)`. It stands
for `OMDB_API_KEY` and `BASE_MOVIES`. Request arguments are passed as
`Option<string>` values.

Two points of the code are worth stating directly:

- The fetch helpers can raise. They do not catch transport or JSON-decoding
  errors (ifilmes/app.py:34, 37), so no "never fails" property is claimed
  for them.
- A summary may have a None title or a None `imdbID`. Each field is
  `detail.get(name)` (ifilmes/app.py:85-90), so the model keeps those
  fields as `Option<string>`.

## Model

| member | source | states |
|---|---|---|
| `Text.IsSpace` | ifilmes/app.py:102 | definition: the characters Python's `str.isspace` accepts, the set `strip()` removes |
| `Text.TrimStart` | ifilmes/app.py:102 | definition; characterized by `Text.TrimStartSpec` |
| `Text.TrimEnd` | ifilmes/app.py:102 | definition; characterized by `Text.TrimEndSpec` |
| `Text.TrimStartSpec` | ifilmes/app.py:102 | stripping the start removes only leading whitespace; what is kept is a suffix that does not start with whitespace |
| `Text.TrimEndSpec` | ifilmes/app.py:102 | stripping the end removes only trailing whitespace; what is kept is a prefix that does not end with whitespace |
| `Text.Strip` | ifilmes/app.py:102 | `strip()` returns a string with no leading or trailing whitespace |
| `Text.StripIsInfix` | ifilmes/app.py:102 | `strip()` returns a contiguous infix of its input, and everything it removes on either side is whitespace |
| `Text.StripTrimmed` | ifilmes/app.py:102 | `strip()` leaves an already trimmed string unchanged, so stripping twice is stripping once |
| `Text.StripEmpty` | ifilmes/app.py:102-103 | a piece strips to `""` (and is dropped by `if g`) exactly when it is all whitespace |
| `Text.Split` | ifilmes/app.py:101 | `split(",")` yields at least one piece (`""` splits to `[""]`); characterized by `Text.JoinSplit`, `Text.SplitJoin` and `Text.SplitNoSeparator` |
| `Text.SplitNoSeparator` | ifilmes/app.py:101 | no piece of `split(",")` contains a comma |
| `Text.JoinSplit` | ifilmes/app.py:101 | `split` loses nothing: joining the pieces with the separator gives back the input |
| `Text.SplitJoin` | ifilmes/app.py:101 | splitting a join of separator-free pieces gives back exactly those pieces, empty ones included |
| `Text.Below` | ifilmes/app.py:105 | definition of string `<`, by code point with a proper prefix first; a strict total order by `Text.BelowIrreflexive`, `Text.BelowTransitive` and `Text.BelowTotal` |
| `Text.BelowIrreflexive` | ifilmes/app.py:105 | Python's string `<` is irreflexive |
| `Text.BelowTransitive` | ifilmes/app.py:105 | Python's string `<` is transitive |
| `Text.BelowTotal` | ifilmes/app.py:105 | any two different strings are ordered one way or the other by `<` |
| `Text.BelowAsymmetric` | ifilmes/app.py:105 | `a < b` excludes `b < a` |
| `Text.LeastExists` | ifilmes/app.py:105 | every non-empty finite set of strings has a least element under `<` |
| `Text.Insert` | ifilmes/app.py:104-105 | adding a label to a strictly ascending listing keeps it strictly ascending, and its elements become the old ones plus the label |
| `Text.SortedSet` | ifilmes/app.py:105 | `sorted(set)` is strictly ascending (so free of duplicates) and holds exactly the set's elements |
| `Text.AscendingUnique` | ifilmes/app.py:105 | a set has only one strictly ascending listing, so the sorted facet list is fully determined by the facet set |
| `Text.SortSet` | ifilmes/app.py:105 | the loop that builds the sorted listing returns exactly `SortedSet(s)` |
| `Omdb.HasKey` | ifilmes/app.py:30 | definition: `OMDB_API_KEY` is truthy (set and non-empty); the short cut it guards is stated by `Omdb.Fetch` and `Omdb.SearchMovies` |
| `Omdb.Fetch` | ifilmes/app.py:30-40 | a lookup succeeds exactly when a key is set, the status is 200 and `Response` is `"True"`, and it then returns the reply's body; without a key it is None |
| `Omdb.FetchMovieByTitle` | ifilmes/app.py:28-40 | no key gives None; a record returned has `Response == "True"` |
| `Omdb.FetchMovieByImdbId` | ifilmes/app.py:43-55 | no key gives None; a record returned has `Response == "True"` |
| `Omdb.SearchMovies` | ifilmes/app.py:58-70 | no key gives `[]`; non-empty hits come only from a successful reply, and they are its `Search` array; a successful reply gives its `Search` array, or `[]` when it has none |
| `Catalog.Summarize` | ifilmes/app.py:83-92 | each of the six summary fields holds what the detail record holds under that name, or None when the record lacks it |
| `Catalog.SummarizeOnlyReadsFields` | ifilmes/app.py:84-91 | a summary depends on the six copied fields only: records that agree on them give the same summary |
| `Catalog.Collect` | ifilmes/app.py:78-93 | aggregation never returns more summaries than it was given elements |
| `Catalog.CollectCounts` | ifilmes/app.py:79-82 | one summary per successful lookup, and the shortfall against the input length is exactly the number of failed lookups |
| `Catalog.CollectIndices` | ifilmes/app.py:78-93 | aggregation is an order-preserving filter-map: the k-th summary is the summary of the idx[k]-th element's record, idx is increasing, and it covers exactly the positions whose lookup succeeded |
| `Catalog.CollectNothing` | ifilmes/app.py:30-31 | when every lookup fails, as every one does without a key, the list is empty |
| `Catalog.ByTitle` | ifilmes/app.py:80 | definition: the per-seed lookup `fetch_movie_by_title(title)`; its outcomes are those of `Omdb.FetchMovieByTitle` |
| `Catalog.ByHitId` | ifilmes/app.py:119 | definition: the per-hit lookup `fetch_movie_by_imdb_id(item.get("imdbID"))`; its outcomes are those of `Omdb.FetchMovieByImdbId` |
| `Catalog.GetHomeMovies` | ifilmes/app.py:73-93 | the loop over the seed titles returns exactly `Collect` of the titles under the per-title lookup |
| `Catalog.SearchResults` | ifilmes/app.py:115-132 | the loop over the search hits returns exactly `Collect` of the hits under the lookup by each hit's `imdbID` |
| `Genres.GenreText` | ifilmes/app.py:100 | definition of `m.get("Genre") or ""`; a missing or empty genre gives no labels by `Genres.NoGenreNoLabels` |
| `Genres.Tokens` | ifilmes/app.py:144 | definition of the non-empty stripped pieces, in order; characterized by `Genres.TokensSpec` |
| `Genres.MovieGenres` | ifilmes/app.py:143-144 | definition of a movie's label list; characterized by `Genres.TokensSpec`, `Genres.MovieGenresNoComma` and `Genres.LabelsOfJoined` |
| `Genres.TokensSpec` | ifilmes/app.py:144 | a label is in a movie's token list exactly when it is the non-empty strip of one of the pieces |
| `Genres.MovieGenresNoComma` | ifilmes/app.py:101-102 | no label contains a comma |
| `Genres.LabelsOfJoined` | ifilmes/app.py:100-103 | a `Genre` written as comma-joined pieces has as its labels the non-empty strips of those pieces, in order |
| `Genres.NoGenreNoLabels` | ifilmes/app.py:100 | a movie whose `Genre` is missing, None or `""` contributes no labels |
| `Genres.AllGenres` | ifilmes/app.py:98-104 | definition of the facet set; characterized by `Genres.AllGenresSpec` and `Genres.GenresSoundComplete` |
| `Genres.UnionSpec` | ifilmes/app.py:99-104 | a label is in the union exactly when it is a label of some element of the list |
| `Genres.AllGenresSpec` | ifilmes/app.py:99-104 | a label is a facet exactly when some movie of the list carries it |
| `Genres.GenresSoundComplete` | ifilmes/app.py:99-104 | sound and complete: a string is a facet exactly when it is the non-empty strip of some comma piece of some movie's `Genre` |
| `Genres.AllGenresWellFormed` | ifilmes/app.py:101-103 | every facet is non-empty and has no leading or trailing whitespace |
| `Genres.ExtractGenres` | ifilmes/app.py:96-105 | the result is `sorted` of the facet set: strictly ascending (no duplicates), exactly the facets, each non-empty and trimmed |
| `Genres.Keep` | ifilmes/app.py:141-147 | filtering never lengthens the list |
| `Genres.KeepIndices` | ifilmes/app.py:142-146 | a filter keeps an order-preserving subsequence, made of exactly the elements that pass |
| `Genres.KeepIdempotent` | ifilmes/app.py:142-146 | filtering twice by the same test is filtering once |
| `Genres.KeepUnion` | ifilmes/app.py:137-147 | the labels of a filtered list are among the labels of the original |
| `Genres.HasGenre` | ifilmes/app.py:145 | definition of `selected_genre in movie_genres`; characterized by `Genres.WithGenreIndices` |
| `Genres.WithGenre` | ifilmes/app.py:141-147 | definition of the filtered list; characterized by `Genres.WithGenreIndices`, `Genres.WithGenreIdempotent` and `Genres.WithGenreNonEmpty` |
| `Genres.FilterByGenre` | ifilmes/app.py:140-147 | an empty selection returns the list unchanged; otherwise the result is `WithGenre`, the movies carrying the selected label |
| `Genres.WithGenreIndices` | ifilmes/app.py:141-147 | the filtered list is an order-preserving subsequence, and a movie is kept exactly when the selection equals one of its trimmed non-empty labels |
| `Genres.WithGenreIdempotent` | ifilmes/app.py:141-147 | applying the genre filter twice gives the same result as applying it once |
| `Genres.WithGenreNonEmpty` | ifilmes/app.py:137-147 | a selection keeps at least one movie exactly when it is one of the facets offered for the unfiltered list |
| `Genres.WithGenreUnmatchable` | ifilmes/app.py:144-145 | a selection containing a comma or surrounding whitespace keeps no movie |
| `Genres.FilteredFacets` | ifilmes/app.py:137-147 | the facets of the filtered list are among the facets of the unfiltered one |
| `App.Arg` | ifilmes/app.py:110-111 | definition of `request.args.get(name, "").strip()`; trimmed by the contract of `Text.Strip` |
| `App.BaseList` | ifilmes/app.py:113-134 | definition of the list before the genre filter; characterized by `Catalog.CollectIndices` and `App.NoKeyEmptyBase` |
| `App.NoKeyEmptyBase` | ifilmes/app.py:113-134 | without an API key the base list is empty, whether or not there is a query |
| `App.Index` | ifilmes/app.py:108-156 | the query and genre are the stripped arguments; the facets are the sorted facets of the unfiltered base list, so they do not depend on the selection; the movies are the base list, or its genre-filtered subsequence when a genre is selected; without a key, both lists are empty |
| `App.MovieDetail` | ifilmes/app.py:159-164 | not found exactly when the detail lookup fails, and so always without a key; otherwise the page shows the record found |
| `App.ActionSciFiLabels` | ifilmes/app.py:100-103 | `"Action, Sci-Fi"` has the labels `Action` and `Sci-Fi` (the space after the comma is stripped) |
| `App.ActionSciFiFacets` | ifilmes/app.py:96-105 | one movie with that genre string has the facets `["Action", "Sci-Fi"]` |
| `App.MatrixHome` | ifilmes/app.py:73-105 | one seed, `"The Matrix"`, whose record has genre `"Action, Sci-Fi"`, gives a one-entry home list with exactly that genre, and facets `["Action", "Sci-Fi"]` |

## Left out

- The HTTP request (`requests.get`, the 10-second timeout, the URL) is the
  abstract parameter `http`. Transport errors, timeouts and JSON-decoding
  errors raise in the source (ifilmes/app.py:34, 37) and are not modelled. So
  is a `"Search"` member that is present but not an array.
- JSON values other than strings in a detail record or search hit are not
  modelled. A `Record` holds only string members.
- Flask routing, `render_template`, `abort` as a mechanism, and `app.run`
  are web-framework plumbing. `movie_detail`'s 404 is the `NotFound` value.
- `load_dotenv` and the environment read of `OMDB_API_KEY` are
  configuration I/O. The key is the `Config.apiKey` value.
- The contents of `BASE_MOVIES` are static data. Everything about the seed
  list is proved for any `Config.baseMovies`.
- The order in which Python iterates a set is not modelled. `SortSet` picks
  an arbitrary remaining element, and its result does not depend on the
  choice.
- Strings holding lone surrogate code points, which a Python `str` (for
  example one decoded by `resp.json()` from `"\ud800"`) can contain, are not
  modelled. A Dafny `char` is a Unicode scalar value.
