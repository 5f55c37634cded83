/**
 * The aggregator: `get_home_movies` and the search loop of `index` both walk
 * a list in order, look each element up, skip the elements whose lookup
 * fails, and keep a six-field summary of each detail record that came back.
 * `Collect` is that filter-map written as a function; the two loops are
 * methods proved equal to it.
 */
module Catalog {
  import opened Wrappers
  import opened Omdb

  /**
   * The dictionary a page lists. Each value is `detail.get(name)`, so a field
   * the detail record lacks is None.
   */
  datatype Summary = Summary(
    title: Option<string>,
    year: Option<string>,
    poster: Option<string>,
    imdbID: Option<string>,
    genre: Option<string>,
    imdbRating: Option<string>)

  /** The six names a summary copies, in the order the source lists them. */
  const SummaryFields: seq<string> := ["Title", "Year", "Poster", "imdbID", "Genre", "imdbRating"]

  /** `summary.get(name)`. */
  function Field(s: Summary, name: string): Option<string> {
    if name == "Title" then s.title
    else if name == "Year" then s.year
    else if name == "Poster" then s.poster
    else if name == "imdbID" then s.imdbID
    else if name == "Genre" then s.genre
    else if name == "imdbRating" then s.imdbRating
    else None
  }

  /** The summary of one detail record: each of the six fields holds what the record holds under that name. */
  function Summarize(d: Record): (s: Summary)
    ensures forall name :: name in SummaryFields ==> Field(s, name) == Get(d, name)
  {
    Summary(Get(d, "Title"), Get(d, "Year"), Get(d, "Poster"),
            Get(d, "imdbID"), Get(d, "Genre"), Get(d, "imdbRating"))
  }

  /** A summary depends on the six copied fields only: records that agree on them summarize alike. */
  lemma SummarizeOnlyReadsFields(d1: Record, d2: Record)
    requires forall name :: name in SummaryFields ==> Get(d1, name) == Get(d2, name)
    ensures Summarize(d1) == Summarize(d2)
  {
    assert SummaryFields[0] == "Title" && SummaryFields[1] == "Year" && SummaryFields[2] == "Poster";
    assert SummaryFields[3] == "imdbID" && SummaryFields[4] == "Genre" && SummaryFields[5] == "imdbRating";
  }

  /**
   * The reference filter-map: the summaries of the keys whose lookup
   * succeeded, in key order.
   */
  function Collect<K>(keys: seq<K>, lookup: K -> Option<Record>): (movies: seq<Summary>)
    ensures |movies| <= |keys|
  {
    if keys == [] then []
    else
      var init := Collect(keys[..|keys| - 1], lookup);
      match lookup(keys[|keys| - 1])
      case None => init
      case Some(d) => init + [Summarize(d)]
  }

  /** The positions whose lookup succeeded. */
  function Hits<K>(keys: seq<K>, lookup: K -> Option<Record>): set<int> {
    set i | 0 <= i < |keys| && lookup(keys[i]).Some?
  }

  /** The positions whose lookup failed. */
  function Misses<K>(keys: seq<K>, lookup: K -> Option<Record>): set<int> {
    set i | 0 <= i < |keys| && lookup(keys[i]).None?
  }

  /**
   * Drop-on-failure, counted: one summary per successful lookup, and the
   * shortfall against the input is exactly the number of failed lookups.
   */
  lemma {:induction false} CollectCounts<K>(keys: seq<K>, lookup: K -> Option<Record>)
    ensures |Collect(keys, lookup)| == |Hits(keys, lookup)|
    ensures |keys| - |Collect(keys, lookup)| == |Misses(keys, lookup)|
  {
    if keys != [] {
      var n := |keys| - 1;
      CollectCounts(keys[..n], lookup);
      HitsStep(keys, lookup);
    }
  }

  lemma HitsStep<K>(keys: seq<K>, lookup: K -> Option<Record>)
    requires keys != []
    ensures var n := |keys| - 1;
      if lookup(keys[n]).Some?
      then Hits(keys, lookup) == Hits(keys[..n], lookup) + {n} && Misses(keys, lookup) == Misses(keys[..n], lookup)
      else Hits(keys, lookup) == Hits(keys[..n], lookup) && Misses(keys, lookup) == Misses(keys[..n], lookup) + {n}
  {
    var n := |keys| - 1;
    assert forall i :: 0 <= i < n ==> keys[..n][i] == keys[i];
  }

  /**
   * Collect is an order-preserving filter-map: its k-th summary comes from the
   * idx[k]-th key, the positions idx are increasing, and they are exactly the
   * positions whose lookup succeeded.
   */
  lemma {:induction false} CollectIndices<K>(keys: seq<K>, lookup: K -> Option<Record>) returns (idx: seq<int>)
    ensures |idx| == |Collect(keys, lookup)|
    ensures forall k :: 0 <= k < |idx| ==>
      0 <= idx[k] < |keys| && lookup(keys[idx[k]]).Some? &&
      Collect(keys, lookup)[k] == Summarize(lookup(keys[idx[k]]).value)
    ensures forall k, l :: 0 <= k < l < |idx| ==> idx[k] < idx[l]
    ensures forall i :: 0 <= i < |keys| && lookup(keys[i]).Some? ==> i in idx
  {
    if keys == [] {
      idx := [];
    } else {
      var n := |keys| - 1;
      var init := keys[..n];
      var prev := CollectIndices(init, lookup);
      assert forall i :: 0 <= i < n ==> init[i] == keys[i];
      if lookup(keys[n]).Some? {
        idx := prev + [n];
      } else {
        idx := prev;
      }
    }
  }

  /** When every lookup fails (as every one does without an API key) nothing is collected. */
  lemma {:induction false} CollectNothing<K>(keys: seq<K>, lookup: K -> Option<Record>)
    requires forall i :: 0 <= i < |keys| ==> lookup(keys[i]).None?
    ensures Collect(keys, lookup) == []
  {
    if keys != [] {
      CollectNothing(keys[..|keys| - 1], lookup);
    }
  }

  /** The per-seed lookup of `get_home_movies`. */
  function ByTitle(key: Option<string>, http: Query -> Reply): string -> Option<Record> {
    title => FetchMovieByTitle(key, http, title)
  }

  /** The per-hit lookup of the search loop in `index`: the detail of the hit's `imdbID`. */
  function ByHitId(key: Option<string>, http: Query -> Reply): Record -> Option<Record> {
    hit => FetchMovieByImdbId(key, http, Get(hit, "imdbID"))
  }

  /** `get_home_movies`, over the configured seed titles. */
  method GetHomeMovies(key: Option<string>, http: Query -> Reply, seeds: seq<string>) returns (movies: seq<Summary>)
    ensures movies == Collect(seeds, ByTitle(key, http))
  {
    movies := [];
    for i := 0 to |seeds|
      invariant movies == Collect(seeds[..i], ByTitle(key, http))
    {
      assert seeds[..i + 1][..i] == seeds[..i];
      var movie := FetchMovieByTitle(key, http, seeds[i]);
      if movie.None? {
        continue;
      }
      movies := movies + [Summarize(movie.value)];
    }
    assert seeds[..|seeds|] == seeds;
  }

  /** The loop of `index` that turns search hits into summaries, one detail lookup per hit. */
  method SearchResults(key: Option<string>, http: Query -> Reply, hits: seq<Record>) returns (movies: seq<Summary>)
    ensures movies == Collect(hits, ByHitId(key, http))
  {
    movies := [];
    for i := 0 to |hits|
      invariant movies == Collect(hits[..i], ByHitId(key, http))
    {
      assert hits[..i + 1][..i] == hits[..i];
      var details := FetchMovieByImdbId(key, http, Get(hits[i], "imdbID"));
      if details.None? {
        continue;
      }
      movies := movies + [Summarize(details.value)];
    }
    assert hits[..|hits|] == hits;
  }
}
