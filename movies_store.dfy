/**
 * The in-memory movie table: a map from id to movie plus an id counter that
 * grows with every addition and is lowered only by `Clear`.
 */
module Store {
  import opened Wrappers
  import opened JavaStrings

  /** A movie record; the store assigns the id. */
  datatype Movie = Movie(id: int, title: string, year: int)

  /** The value of a MoviesStore: its `storage` map and its `currentId` counter. */
  datatype StoreState = StoreState(storage: map<int, Movie>, currentId: int)

  /**
   * Every key is the id of the movie stored under it and lies in
   * 1..currentId, and the counter fits a Java `int`.
   */
  ghost predicate Invariant(st: StoreState)
  {
    && 0 <= st.currentId <= INT_MAX
    && forall k :: k in st.storage ==> st.storage[k].id == k && 1 <= k <= st.currentId
  }

  /** A new store, and a store after `clear`: nothing stored, counter at zero. */
  const EMPTY := StoreState(map[], 0)

  /** getMovieById: the movie under `id`, or None where Java returns null. */
  function Lookup(st: StoreState, id: int): (r: Option<Movie>)
    ensures r.Some? <==> id in st.storage
    ensures Invariant(st) && r.Some? ==> r.value.id == id && r.value in AllMovies(st)
  {
    if id in st.storage then Some(st.storage[id]) else None
  }

  /** addMovie: bump the counter and store a movie under the new id. */
  function Added(st: StoreState, title: string, year: int): (r: StoreState)
    requires Invariant(st) && st.currentId < INT_MAX
    ensures Invariant(r)
    ensures r.currentId == st.currentId + 1
    ensures forall k :: k in st.storage ==> k < r.currentId
    ensures Lookup(r, r.currentId) == Some(Movie(r.currentId, title, year))
    ensures forall k :: k != r.currentId ==> Lookup(r, k) == Lookup(st, k)
    ensures |r.storage| == |st.storage| + 1
  {
    var id := st.currentId + 1;
    StoreState(st.storage[id := Movie(id, title, year)], id)
  }

  /** deleteMovie: the store without the entry for `id`. */
  function Removed(st: StoreState, id: int): (r: StoreState)
    requires Invariant(st)
    ensures Invariant(r)
    ensures r.currentId == st.currentId
    ensures Lookup(r, id) == None
    ensures forall k :: k != id ==> Lookup(r, k) == Lookup(st, k)
    ensures |r.storage| == if id in st.storage then |st.storage| - 1 else |st.storage|
  {
    StoreState(st.storage - {id}, st.currentId)
  }

  /**
   * Deleting the movie just added gives back the entries from before the
   * addition; only the counter stays advanced, so the id is not handed out
   * again.
   */
  lemma RemovedUndoesAdded(st: StoreState, title: string, year: int)
    requires Invariant(st) && st.currentId < INT_MAX
    ensures Removed(Added(st, title, year), st.currentId + 1) == StoreState(st.storage, st.currentId + 1)
  {
    var id := st.currentId + 1;
    assert id !in st.storage;
    assert Added(st, title, year).storage - {id} == st.storage;
  }

  /** getMovies, as the multiset of stored movies (HashMap order is unspecified). */
  function AllMovies(st: StoreState): (ms: multiset<Movie>)
    ensures forall m :: m in ms <==> m in st.storage.Values
    ensures forall m :: ms[m] <= 1
  {
    multiset(st.storage.Values)
  }

  /** getMoviesByYear, as the multiset of stored movies of that year. */
  function MoviesOfYear(st: StoreState, year: int): (ms: multiset<Movie>)
    ensures forall m :: m in ms <==> m in st.storage.Values && m.year == year
    ensures forall m :: ms[m] <= 1
  {
    multiset(set m | m in st.storage.Values && m.year == year)
  }

  /** Under the invariant a movie is stored exactly when it sits under its own id. */
  lemma StoredUnderOwnId(st: StoreState, m: Movie)
    requires Invariant(st)
    ensures m in st.storage.Values <==> m.id in st.storage && st.storage[m.id] == m
  {
    if m in st.storage.Values {
      if forall k :: k in st.storage ==> st.storage[k] != m {
        assert false;
      }
      var k :| k in st.storage && st.storage[k] == m;
      assert k == m.id;
    }
  }

  /** A non-empty set of keys has a member to pick. */
  lemma NonEmptyHasMember(keys: set<int>)
    requires keys != {}
    ensures exists k :: k in keys
  {
    if forall k :: k !in keys {
      assert false;
    }
  }

  /** getMovies lists each stored movie exactly once: one entry per key. */
  lemma {:induction false} AllMoviesSize(st: StoreState)
    requires Invariant(st)
    ensures |AllMovies(st)| == |st.storage|
    decreases |st.storage|
  {
    if st.storage.Keys != {} {
      NonEmptyHasMember(st.storage.Keys);
      var k :| k in st.storage.Keys;
      var rest := Removed(st, k);
      AllMoviesSize(rest);
      var m := st.storage[k];
      forall x
        ensures x in st.storage.Values <==> x in rest.storage.Values || x == m
      {
        StoredUnderOwnId(st, x);
        StoredUnderOwnId(rest, x);
      }
      assert st.storage.Values == rest.storage.Values + {m};
      StoredUnderOwnId(rest, m);
      assert m !in rest.storage.Values;
    }
  }

  /**
   * getMoviesByYear is the part of getMovies whose year matches: every
   * stored movie of that year once, and nothing else.
   */
  lemma MoviesOfYearFilters(st: StoreState, year: int)
    ensures MoviesOfYear(st, year) <= AllMovies(st)
    ensures forall m :: MoviesOfYear(st, year)[m] == if m.year == year then AllMovies(st)[m] else 0
  {
    forall m
      ensures MoviesOfYear(st, year)[m] == if m.year == year then AllMovies(st)[m] else 0
    {
      if m in MoviesOfYear(st, year) {
        assert MoviesOfYear(st, year)[m] == 1 == AllMovies(st)[m];
      } else if m.year == year {
        assert m !in AllMovies(st);
      }
    }
  }

  /** On an empty store every year selects nothing. */
  lemma MoviesOfYearEmpty(year: int)
    ensures MoviesOfYear(EMPTY, year) == multiset{}
  {
    assert (set m | m in EMPTY.storage.Values && m.year == year) == {};
  }

  /**
   * The store object: the map and the counter as fields that its methods
   * update in place.
   */
  class MoviesStore {
    var storage: map<int, Movie>
    var currentId: int

    /** The value this object holds. */
    function State(): (s: StoreState)
      reads this
    {
      StoreState(storage, currentId)
    }

    ghost predicate Valid()
      reads this
    {
      Invariant(State())
    }

    constructor ()
      ensures Valid() && State() == EMPTY
    {
      storage := map[];
      currentId := 0;
    }

    method AddMovie(title: string, year: int) returns (movie: Movie)
      requires Valid() && currentId < INT_MAX
      modifies this
      ensures Valid()
      ensures State() == Added(old(State()), title, year)
      ensures movie == Movie(currentId, title, year)
    {
      currentId := currentId + 1;
      movie := Movie(currentId, title, year);
      storage := storage[currentId := movie];
    }

    /** How often `m` has been listed once the keys in `pending` are still to visit. */
    ghost function Count(m: Movie, pending: set<int>): (c: nat)
      reads this
    {
      if m.id in storage && m.id !in pending && storage[m.id] == m then 1 else 0
    }

    /** Streams the values of the map into a list; the visiting order is left open. */
    method GetMovies() returns (movies: seq<Movie>)
      requires Valid()
      ensures multiset(movies) == AllMovies(State())
      ensures |movies| == |storage|
    {
      movies := [];
      var pending := storage.Keys;
      while pending != {}
        invariant pending <= storage.Keys
        invariant forall m :: multiset(movies)[m] == Count(m, pending)
        decreases |pending|
      {
        NonEmptyHasMember(pending);
        var k :| k in pending;
        movies := movies + [storage[k]];
        pending := pending - {k};
      }
      forall m
        ensures multiset(movies)[m] == AllMovies(State())[m]
      {
        StoredUnderOwnId(State(), m);
      }
      assert multiset(movies) == AllMovies(State());
      AllMoviesSize(State());
    }

    method GetMovieById(id: int) returns (movie: Option<Movie>)
      requires Valid()
      ensures movie == Lookup(State(), id)
      ensures movie.Some? ==> movie.value.id == id && movie.value in AllMovies(State())
    {
      movie := if id in storage then Some(storage[id]) else None;
    }

    method DeleteMovie(id: int) returns (removed: bool)
      requires Valid()
      modifies this
      ensures Valid()
      ensures removed <==> Lookup(old(State()), id).Some?
      ensures State() == Removed(old(State()), id)
    {
      removed := id in storage;
      storage := storage - {id};
    }

    /** Streams the values of the map through a filter on the year. */
    method GetMoviesByYear(year: int) returns (movies: seq<Movie>)
      requires Valid()
      ensures multiset(movies) == MoviesOfYear(State(), year)
      ensures forall k :: 0 <= k < |movies| ==> movies[k].year == year
    {
      var all := GetMovies();
      movies := WithYear(all, year);
      forall m
        ensures multiset(movies)[m] == MoviesOfYear(State(), year)[m]
      {
      }
    }

    method Clear()
      modifies this
      ensures Valid() && State() == EMPTY
    {
      storage := map[];
      currentId := 0;
    }
  }

  /** The stream filter `movie.year() == year`, keeping the list order. */
  function WithYear(movies: seq<Movie>, year: int): (r: seq<Movie>)
    ensures forall m :: multiset(r)[m] == if m.year == year then multiset(movies)[m] else 0
    ensures forall k :: 0 <= k < |r| ==> r[k].year == year
  {
    if |movies| == 0 then []
    else
      var last := movies[|movies| - 1];
      var rest := movies[..|movies| - 1];
      assert movies == rest + [last];
      if last.year == year then WithYear(rest, year) + [last] else WithYear(rest, year)
  }
}
