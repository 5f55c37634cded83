/**
 * Genre facets and the genre filter. A movie's genre labels are the pieces of
 * its comma-separated "Genre" string, each stripped of surrounding whitespace,
 * with the empty ones dropped; a missing or None "Genre" counts as "".
 * `extract_genres` lists the distinct labels of a whole list in sorted order;
 * the filter of `index` keeps the movies that carry the selected label.
 */
module Genres {
  import opened Wrappers
  import opened Text
  import opened Catalog

  /** `m.get("Genre") or ""`. */
  function GenreText(m: Summary): string {
    m.genre.GetOr("")
  }

  /** `[g.strip() for g in parts if g.strip()]`. */
  function Tokens(parts: seq<string>): seq<string> {
    if parts == [] then []
    else
      var g := Strip(parts[|parts| - 1]);
      Tokens(parts[..|parts| - 1]) + (if g != "" then [g] else [])
  }

  /** The genre labels of one movie, in the order its "Genre" string lists them. */
  function MovieGenres(m: Summary): seq<string> {
    Tokens(Split(GenreText(m), ','))
  }

  /** A label comes out of Tokens exactly when it is the non-empty strip of some piece. */
  lemma {:induction false} TokensSpec(parts: seq<string>, g: string)
    ensures g in Tokens(parts) <==> g != "" && exists p :: p in parts && Strip(p) == g
  {
    if parts != [] {
      var init := parts[..|parts| - 1];
      TokensSpec(init, g);
      assert parts == init + [parts[|parts| - 1]];
    }
  }

  /** A label never contains the comma it was split on. */
  lemma MovieGenresNoComma(m: Summary, g: string)
    requires g in MovieGenres(m)
    ensures ',' !in g
  {
    var parts := Split(GenreText(m), ',');
    TokensSpec(parts, g);
    var p :| p in parts && Strip(p) == g;
    SplitNoSeparator(GenreText(m), ',');
    var i, j := StripIsInfix(p);
    assert g == p[i..j];
  }

  /**
   * A "Genre" string written as comma-free pieces joined by commas has as its
   * labels the non-empty strips of those pieces, in order.
   */
  lemma LabelsOfJoined(m: Summary, pieces: seq<string>)
    requires |pieces| >= 1
    requires forall k :: 0 <= k < |pieces| ==> ',' !in pieces[k]
    requires GenreText(m) == Join(pieces, ',')
    ensures MovieGenres(m) == Tokens(pieces)
  {
    SplitJoin(pieces, ',');
  }

  /** A movie whose "Genre" is missing, None or empty has no labels. */
  lemma NoGenreNoLabels(m: Summary)
    requires m.genre.None? || m.genre == Some("")
    ensures MovieGenres(m) == []
  {
    assert GenreText(m) == "";
    var parts := Split("", ',');
    assert parts == [""];
    assert parts[..0] == [] && Strip(parts[0]) == "";
    assert Tokens(parts) == Tokens([]) + [];
  }

  /** The union of the labels of the elements of a list. */
  function Union<T>(xs: seq<T>, labels: T -> seq<string>): set<string> {
    if xs == [] then {}
    else Union(xs[..|xs| - 1], labels) + Elems(labels(xs[|xs| - 1]))
  }

  lemma {:induction false} UnionSpec<T>(xs: seq<T>, labels: T -> seq<string>, g: string)
    ensures g in Union(xs, labels) <==> exists i :: 0 <= i < |xs| && g in labels(xs[i])
  {
    if xs != [] {
      var n := |xs| - 1;
      var init := xs[..n];
      UnionSpec(init, labels, g);
      assert g in Elems(labels(xs[n])) <==> g in labels(xs[n]);
      if g in Union(init, labels) {
        var i :| 0 <= i < n && g in labels(init[i]);
        assert init[i] == xs[i];
      }
      if exists i :: 0 <= i < |xs| && g in labels(xs[i]) {
        var i :| 0 <= i < |xs| && g in labels(xs[i]);
        if i < n {
          assert init[i] == xs[i];
        }
      }
    }
  }

  lemma UnionStep<T>(xs: seq<T>, labels: T -> seq<string>, i: int)
    requires 0 <= i < |xs|
    ensures Union(xs[..i + 1], labels) == Union(xs[..i], labels) + Elems(labels(xs[i]))
  {
    assert xs[..i + 1][..i] == xs[..i];
  }

  /** Every label of every movie of the list: the facets. */
  function AllGenres(movies: seq<Summary>): set<string> {
    Union(movies, MovieGenres)
  }

  /** A label is a facet of the list exactly when some movie of the list carries it. */
  lemma AllGenresSpec(movies: seq<Summary>, g: string)
    ensures g in AllGenres(movies) <==> exists i :: 0 <= i < |movies| && g in MovieGenres(movies[i])
  {
    UnionSpec(movies, MovieGenres, g);
  }

  /**
   * Sound and complete: a string is a facet exactly when it is the non-empty
   * strip of some comma-separated piece of some movie's "Genre".
   */
  lemma GenresSoundComplete(movies: seq<Summary>, g: string)
    ensures g in AllGenres(movies) <==>
      g != "" && exists i, p :: 0 <= i < |movies| && p in Split(GenreText(movies[i]), ',') && Strip(p) == g
  {
    AllGenresSpec(movies, g);
    if g in AllGenres(movies) {
      var i :| 0 <= i < |movies| && g in MovieGenres(movies[i]);
      TokensSpec(Split(GenreText(movies[i]), ','), g);
    }
    if g != "" && exists i, p :: 0 <= i < |movies| && p in Split(GenreText(movies[i]), ',') && Strip(p) == g {
      var i, p :| 0 <= i < |movies| && p in Split(GenreText(movies[i]), ',') && Strip(p) == g;
      TokensSpec(Split(GenreText(movies[i]), ','), g);
    }
  }

  /** Every facet is a non-empty label without surrounding whitespace. */
  lemma AllGenresWellFormed(movies: seq<Summary>, g: string)
    requires g in AllGenres(movies)
    ensures g != "" && IsTrimmed(g)
  {
    AllGenresSpec(movies, g);
    var i :| 0 <= i < |movies| && g in MovieGenres(movies[i]);
    TokensSpec(Split(GenreText(movies[i]), ','), g);
  }

  /**
   * `extract_genres`: the distinct labels of the list, sorted. The result is
   * the sorted listing of AllGenres, so it is strictly ascending (no
   * duplicates) and holds exactly the facets.
   */
  method ExtractGenres(movies: seq<Summary>) returns (genres: seq<string>)
    ensures genres == SortedSet(AllGenres(movies))
    ensures StrictlyAscending(genres) && Elems(genres) == AllGenres(movies)
    ensures forall g :: g in genres ==> g != "" && IsTrimmed(g)
  {
    var found: set<string> := {};
    for i := 0 to |movies|
      invariant found == AllGenres(movies[..i])
    {
      var parts := Split(GenreText(movies[i]), ',');
      for j := 0 to |parts|
        invariant found == AllGenres(movies[..i]) + Elems(Tokens(parts[..j]))
      {
        var g := Strip(parts[j]);
        if g != "" {
          found := found + {g};
        }
        TokensStep(parts, j);
      }
      assert parts[..|parts|] == parts;
      UnionStep(movies, MovieGenres, i);
    }
    assert movies[..|movies|] == movies;
    genres := SortSet(found);
    forall g | g in genres ensures g != "" && IsTrimmed(g) {
      assert g in Elems(genres);
      AllGenresWellFormed(movies, g);
    }
  }

  lemma TokensStep(parts: seq<string>, j: int)
    requires 0 <= j < |parts|
    ensures Elems(Tokens(parts[..j + 1])) ==
      Elems(Tokens(parts[..j])) + (if Strip(parts[j]) != "" then {Strip(parts[j])} else {})
  {
    assert parts[..j + 1][..j] == parts[..j];
    var g := Strip(parts[j]);
    var extra: seq<string> := if g != "" then [g] else [];
    assert Tokens(parts[..j + 1]) == Tokens(parts[..j]) + extra;
    ElemsAppend(Tokens(parts[..j]), extra);
  }

  lemma ElemsAppend(a: seq<string>, b: seq<string>)
    ensures Elems(a + b) == Elems(a) + Elems(b)
  {
  }

  /** The elements of a list that satisfy `p(_, a)`, in list order. */
  function Keep<T, A>(xs: seq<T>, p: (T, A) -> bool, a: A): (kept: seq<T>)
    ensures |kept| <= |xs|
  {
    if xs == [] then []
    else
      var init := Keep(xs[..|xs| - 1], p, a);
      if p(xs[|xs| - 1], a) then init + [xs[|xs| - 1]] else init
  }

  lemma {:induction false} KeepIndices<T, A>(xs: seq<T>, p: (T, A) -> bool, a: A) returns (idx: seq<int>)
    ensures |idx| == |Keep(xs, p, a)|
    ensures forall k :: 0 <= k < |idx| ==> 0 <= idx[k] < |xs| && Keep(xs, p, a)[k] == xs[idx[k]]
    ensures forall k, l :: 0 <= k < l < |idx| ==> idx[k] < idx[l]
    ensures forall i :: 0 <= i < |xs| ==> (i in idx <==> p(xs[i], a))
  {
    if xs == [] {
      idx := [];
    } else {
      var n := |xs| - 1;
      var prev := KeepIndices(xs[..n], p, a);
      assert forall i :: 0 <= i < n ==> xs[..n][i] == xs[i];
      if p(xs[n], a) {
        idx := prev + [n];
      } else {
        idx := prev;
      }
    }
  }

  lemma {:induction false} KeepIdempotent<T, A>(xs: seq<T>, p: (T, A) -> bool, a: A)
    ensures Keep(Keep(xs, p, a), p, a) == Keep(xs, p, a)
  {
    if xs != [] {
      var n := |xs| - 1;
      var init := Keep(xs[..n], p, a);
      KeepIdempotent(xs[..n], p, a);
      if p(xs[n], a) {
        var kept := init + [xs[n]];
        assert kept[..|kept| - 1] == init;
      }
    }
  }

  lemma {:induction false} KeepUnion<T, A>(xs: seq<T>, p: (T, A) -> bool, a: A, labels: T -> seq<string>)
    ensures Union(Keep(xs, p, a), labels) <= Union(xs, labels)
  {
    if xs != [] {
      var n := |xs| - 1;
      var init := Keep(xs[..n], p, a);
      KeepUnion(xs[..n], p, a, labels);
      if p(xs[n], a) {
        var kept := init + [xs[n]];
        assert kept[..|kept| - 1] == init;
      }
    }
  }

  /** `selected in movie_genres`: the movie carries the label as an exact, case-sensitive match. */
  predicate HasGenre(m: Summary, selected: string) {
    selected in MovieGenres(m)
  }

  /** The reference genre filter: the movies that carry the label, in list order. */
  function WithGenre(movies: seq<Summary>, selected: string): seq<Summary> {
    Keep(movies, HasGenre, selected)
  }

  /**
   * The genre filter of `index`, lifted out: an empty selection keeps the list
   * as it is, any other keeps the movies that carry the selected label.
   */
  method FilterByGenre(movies: seq<Summary>, selected: string) returns (filtered: seq<Summary>)
    ensures selected == "" ==> filtered == movies
    ensures selected != "" ==> filtered == WithGenre(movies, selected)
  {
    if selected == "" {
      return movies;
    }
    filtered := [];
    for i := 0 to |movies|
      invariant filtered == WithGenre(movies[..i], selected)
    {
      assert movies[..i + 1][..i] == movies[..i];
      var movieGenres := MovieGenres(movies[i]);
      if selected in movieGenres {
        filtered := filtered + [movies[i]];
      }
    }
    assert movies[..|movies|] == movies;
  }

  /**
   * The filter keeps an order-preserving subsequence: its k-th movie is the
   * idx[k]-th of the input, the positions idx increase, and they are exactly
   * the positions of the movies that carry the label.
   */
  lemma WithGenreIndices(movies: seq<Summary>, selected: string) returns (idx: seq<int>)
    ensures |idx| == |WithGenre(movies, selected)|
    ensures forall k :: 0 <= k < |idx| ==>
      0 <= idx[k] < |movies| && WithGenre(movies, selected)[k] == movies[idx[k]]
    ensures forall k, l :: 0 <= k < l < |idx| ==> idx[k] < idx[l]
    ensures forall i :: 0 <= i < |movies| ==> (i in idx <==> selected in MovieGenres(movies[i]))
  {
    idx := KeepIndices(movies, HasGenre, selected);
  }

  /** Filtering twice by the same label is filtering once. */
  lemma WithGenreIdempotent(movies: seq<Summary>, selected: string)
    ensures WithGenre(WithGenre(movies, selected), selected) == WithGenre(movies, selected)
  {
    KeepIdempotent(movies, HasGenre, selected);
  }

  /**
   * A selection keeps some movie exactly when it is one of the facets of the
   * unfiltered list: following a facet never empties the page, and any other
   * selection always does.
   */
  lemma WithGenreNonEmpty(movies: seq<Summary>, selected: string)
    ensures WithGenre(movies, selected) != [] <==> selected in AllGenres(movies)
  {
    var idx := KeepIndices(movies, HasGenre, selected);
    AllGenresSpec(movies, selected);
    if selected in AllGenres(movies) {
      var i :| 0 <= i < |movies| && selected in MovieGenres(movies[i]);
      assert HasGenre(movies[i], selected);
      assert i in idx;
    }
    if WithGenre(movies, selected) != [] {
      assert HasGenre(movies[idx[0]], selected);
    }
  }

  /** A selection with a comma or with surrounding whitespace matches no movie. */
  lemma WithGenreUnmatchable(movies: seq<Summary>, selected: string)
    requires ',' in selected || !IsTrimmed(selected)
    ensures WithGenre(movies, selected) == []
  {
    WithGenreNonEmpty(movies, selected);
    if selected in AllGenres(movies) {
      AllGenresSpec(movies, selected);
      var i :| 0 <= i < |movies| && selected in MovieGenres(movies[i]);
      MovieGenresNoComma(movies[i], selected);
      AllGenresWellFormed(movies, selected);
    }
  }

  /** The facets of a filtered list are among the facets of the list it came from. */
  lemma FilteredFacets(movies: seq<Summary>, selected: string)
    ensures AllGenres(WithGenre(movies, selected)) <= AllGenres(movies)
  {
    KeepUnion(movies, HasGenre, selected, MovieGenres);
  }
}
