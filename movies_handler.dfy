/**
 * The /movies request handler: method dispatch, id and year extraction from
 * the request URI, POST validation, and the mapping of each case to a status
 * and a body. `Serve` states what one request does to a store value; the
 * class `MoviesHandler` does it step by step on a MoviesStore object.
 */
module Http {
  import opened Wrappers
  import opened JavaStrings
  import opened Store
  import opened Api

  const EMPTY_TITLE := "Empty title"
  const YEAR_MUST_BE := "Year must be between 1888 and 2026"
  const TOO_LARGE_TITLE := "Title length more that 100 characters"
  const VALIDATION_EXCEPTION := "No valid"
  const MOVIE_NOT_FOUND_MESSAGE := "Movie not found"
  const RESOURCE_NOT_FOUND_MESSAGE := "Resource not found"
  const UNPROCESSABLE_CONTENT_MESSAGE := "Unprocessable Content"
  const UNSUPPORTED_MEDIA_TYPE_MESSAGE := "Unsupported Media Type"
  const MAX_TITLE_LENGTH := 100
  const YEAR_OF_START_CINEMA := 1888
  const HTTP_STATUS_OK := 200
  const HTTP_STATUS_CREATED := 201
  const HTTP_STATUS_NO_CONTENT := 204
  const HTTP_STATUS_BAD_REQUEST := 400
  const HTTP_STATUS_NOT_FOUND := 404
  const HTTP_STATUS_UNSUPPORTED_MEDIA_TYPE := 415
  const HTTP_STATUS_UNPROCESSABLE_CONTENT := 422
  /** The Content-Type every response carries, whatever its body. */
  const CT_JSON := "application/json; charset=UTF-8"

  /** The error of the 422 validation answer. */
  const NO_VALID_DATA := VALIDATION_EXCEPTION + " data"

  /**
   * A POST body after JSON decoding, as far as the handler looks at it.
   * A field is None when it is missing or its getter (getAsString for the
   * title, getAsInt for the year) throws.
   */
  datatype JsonBody =
    | SyntaxError
    | NotAnObject
    | JsonObject(title: Option<string>, year: Option<int>)

  /** An inbound request: method, raw request URI, first Content-Type header, decoded body. */
  datatype Request = Request(requestMethod: string, uri: string, contentType: Option<string>, body: JsonBody)

  /**
   * A response body as an abstract value: nothing, plain text, a movie, a
   * JSON array of movies (as a multiset: the order is HashMap's), or an
   * ErrorResponse.
   */
  datatype Body =
    | NoBody
    | Text(text: string)
    | MovieJson(movie: Movie)
    | MovieArray(movies: multiset<Movie>)
    | ErrorJson(error: string, details: seq<string>)

  datatype Response = Response(status: int, contentType: string, body: Body)

  /** The runtime exceptions the handler does not catch. */
  datatype Uncaught =
    | IndexOutOfBounds   // a URI split too short for the index the handler reads
    | InvalidField       // a POST field that is missing or of the wrong JSON type

  /** What one call of `handle` does: a response is sent, or an exception escapes. */
  datatype Outcome = Sent(response: Response) | Escaped(exception: Uncaught)

  datatype Result = Result(outcome: Outcome, store: StoreState)

  /** The branch of `handle` a request takes. */
  datatype Route = Create | DeleteById | GetByYear | GetById | GetAll | NotRouted

  /** sendJson / sendNoContent: the status with the fixed JSON content type. */
  function Send(status: int, body: Body): (r: Outcome)
    ensures r.Sent? && r.response.contentType == CT_JSON
  {
    Sent(Response(status, CT_JSON, body))
  }

  /** Java's `parts[index]`: the element, or None where it would throw. */
  function Element(parts: seq<string>, index: nat): (r: Option<string>)
    ensures r.Some? <==> index < |parts|
    ensures r.Some? ==> r.value == parts[index]
  {
    if index < |parts| then Some(parts[index]) else None
  }

  /** The dispatch of `handle`, in its order of precedence. */
  function RouteOf(requestMethod: string, uri: string): (r: Route)
    ensures r == Create <==> ToUpperCase(requestMethod) == "POST"
    ensures r == DeleteById <==> ToUpperCase(requestMethod) == "DELETE"
    ensures r == GetByYear <==> ToUpperCase(requestMethod) == "GET" && Contains(uri, "year")
    ensures r == GetById <==> ToUpperCase(requestMethod) == "GET" && !Contains(uri, "year") && |Split(uri, '/')| > 2
    ensures r == GetAll <==> ToUpperCase(requestMethod) == "GET" && !Contains(uri, "year") && |Split(uri, '/')| <= 2
  {
    var m := ToUpperCase(requestMethod);
    if m == "POST" then Create
    else if m == "DELETE" then DeleteById
    else if m == "GET" then
      if Contains(uri, "year") then GetByYear
      else if |Split(uri, '/')| > 2 then GetById
      else GetAll
    else NotRouted
  }

  predicate YearInRange(year: int, maxYear: int)
  {
    YEAR_OF_START_CINEMA <= year <= maxYear
  }

  /** Position of each validation detail in the order POST checks them. */
  function DetailRank(detail: string): (rank: int)
  {
    if detail == EMPTY_TITLE then 0
    else if detail == TOO_LARGE_TITLE then 1
    else if detail == YEAR_MUST_BE then 2
    else 3
  }

  /**
   * The details POST collects for a trimmed title and a year: each check adds
   * its message when it fails, none stops the others.
   */
  function Details(title: string, year: int, maxYear: int): (ds: seq<string>)
    ensures EMPTY_TITLE in ds <==> |title| == 0
    ensures TOO_LARGE_TITLE in ds <==> |title| > MAX_TITLE_LENGTH
    ensures YEAR_MUST_BE in ds <==> !YearInRange(year, maxYear)
    ensures ds == [] <==> 0 < |title| <= MAX_TITLE_LENGTH && YearInRange(year, maxYear)
    ensures |ds| <= 2
    ensures forall i, j :: 0 <= i < j < |ds| ==> DetailRank(ds[i]) < DetailRank(ds[j])
    ensures forall i :: 0 <= i < |ds| ==> DetailRank(ds[i]) < 3
  {
    (if |title| == 0 then [EMPTY_TITLE] else [])
    + (if |title| > MAX_TITLE_LENGTH then [TOO_LARGE_TITLE] else [])
    + (if !YearInRange(year, maxYear) then [YEAR_MUST_BE] else [])
  }

  /**
   * `r` answers 201 with a movie that carries the next id and is now
   * stored under it, next to everything that was there before.
   */
  ghost predicate Created(st: StoreState, r: Result)
  {
    && r.outcome.Sent?
    && r.outcome.response.status == HTTP_STATUS_CREATED
    && r.outcome.response.body.MovieJson?
    && r.outcome.response.body.movie.id == st.currentId + 1 == r.store.currentId
    && Lookup(r.store, r.store.currentId) == Some(r.outcome.response.body.movie)
    && forall k :: k != r.store.currentId ==> Lookup(r.store, k) == Lookup(st, k)
  }

  /** callPostMethod. */
  function PostReply(contentType: Option<string>, body: JsonBody, st: StoreState, maxYear: int): (r: Result)
    requires Invariant(st) && st.currentId < INT_MAX
    ensures Invariant(r.store)
    ensures r.store == st || Created(st, r)
    ensures r.outcome.Sent? && r.outcome.response.status == HTTP_STATUS_CREATED <==> Created(st, r)
    ensures r.outcome.Sent? ==> r.outcome.response.contentType == CT_JSON
  {
    if contentType.Some? && !Contains(contentType.value, "application/json") then
      Result(Send(HTTP_STATUS_UNSUPPORTED_MEDIA_TYPE, Text(UNSUPPORTED_MEDIA_TYPE_MESSAGE)), st)
    else
      match body
      case SyntaxError =>
        Result(Send(HTTP_STATUS_UNPROCESSABLE_CONTENT, Text(UNPROCESSABLE_CONTENT_MESSAGE)), st)
      case NotAnObject =>
        Result(Send(HTTP_STATUS_UNPROCESSABLE_CONTENT, Text(UNPROCESSABLE_CONTENT_MESSAGE)), st)
      case JsonObject(rawTitle, rawYear) =>
        if rawTitle.None? || rawYear.None? then Result(Escaped(InvalidField), st)
        else
          var title := Trim(rawTitle.value);
          var year := rawYear.value;
          var details := Details(title, year, maxYear);
          if details != [] then
            Result(Send(HTTP_STATUS_UNPROCESSABLE_CONTENT, ErrorJson(NO_VALID_DATA, details)), st)
          else
            var st' := Added(st, title, year);
            Result(Send(HTTP_STATUS_CREATED, MovieJson(Movie(st'.currentId, title, year))), st')
  }

  /** callDeleteMovie: the id is `uri.split("/")[2]`. */
  function DeleteReply(uri: string, st: StoreState): (r: Result)
    requires Invariant(st)
    ensures Invariant(r.store) && r.store.currentId == st.currentId
    ensures r.store != st ==> r.outcome == Send(HTTP_STATUS_NO_CONTENT, NoBody)
    ensures r.outcome.Sent? ==> r.outcome.response.contentType == CT_JSON
    ensures r.outcome.Sent? ==> r.outcome.response.status in {HTTP_STATUS_NO_CONTENT, HTTP_STATUS_BAD_REQUEST, HTTP_STATUS_NOT_FOUND}
  {
    var parts := Split(uri, '/');
    match Element(parts, 2)
    case None => Result(Escaped(IndexOutOfBounds), st)
    case Some(segment) =>
      match ParseInt(segment)
      case None =>
        Result(Send(HTTP_STATUS_BAD_REQUEST, Text(VALIDATION_EXCEPTION + " ID: " + segment)), st)
      case Some(id) =>
        if Lookup(st, id).Some? then Result(Send(HTTP_STATUS_NO_CONTENT, NoBody), Removed(st, id))
        else Result(Send(HTTP_STATUS_NOT_FOUND, NoBody), st)
  }

  /** callGetMovieById: the id is `uri.split("/")[2]`, which dispatch made sure exists. */
  function ByIdReply(uri: string, st: StoreState): (r: Outcome)
    requires |Split(uri, '/')| > 2
    ensures r.Sent? && r.response.contentType == CT_JSON
    ensures r.response.status in {HTTP_STATUS_OK, HTTP_STATUS_BAD_REQUEST, HTTP_STATUS_NOT_FOUND}
    ensures r.response.status == HTTP_STATUS_OK <==> ParseInt(Split(uri, '/')[2]).Some? && Lookup(st, ParseInt(Split(uri, '/')[2]).value).Some?
  {
    var segment := Split(uri, '/')[2];
    match ParseInt(segment)
    case None => Send(HTTP_STATUS_BAD_REQUEST, Text(VALIDATION_EXCEPTION + " ID: " + segment))
    case Some(id) =>
      match Lookup(st, id)
      case None => Send(HTTP_STATUS_NOT_FOUND, Text(MOVIE_NOT_FOUND_MESSAGE))
      case Some(movie) => Send(HTTP_STATUS_OK, MovieJson(movie))
  }

  /** callGetMoviesByYear: the year is `uri.split("=")[1]`. */
  function ByYearReply(uri: string, st: StoreState, maxYear: int): (r: Outcome)
    ensures r.Sent? ==> r.response.contentType == CT_JSON
    ensures r.Sent? ==> r.response.status in {HTTP_STATUS_OK, HTTP_STATUS_BAD_REQUEST}
  {
    var parts := Split(uri, '=');
    match Element(parts, 1)
    case None => Escaped(IndexOutOfBounds)
    case Some(raw) =>
      match ParseInt(raw)
      case None => Send(HTTP_STATUS_BAD_REQUEST, Text(VALIDATION_EXCEPTION + " year:" + raw))
      case Some(year) =>
        if !YearInRange(year, maxYear) then
          Send(HTTP_STATUS_BAD_REQUEST, Text(VALIDATION_EXCEPTION + " " + YEAR_MUST_BE))
        else Send(HTTP_STATUS_OK, MovieArray(MoviesOfYear(st, year)))
  }

  /**
   * handle: what one request does to a store. Only a created movie or a
   * deleted one changes the store; the counter never goes down and grows by
   * at most one.
   */
  function Serve(req: Request, st: StoreState, maxYear: int): (r: Result)
    requires Invariant(st)
    requires RouteOf(req.requestMethod, req.uri) == Create ==> st.currentId < INT_MAX
    ensures Invariant(r.store)
    ensures st.currentId <= r.store.currentId <= st.currentId + 1
    ensures r.store != st ==>
      r.outcome.Sent? && r.outcome.response.status in {HTTP_STATUS_CREATED, HTTP_STATUS_NO_CONTENT}
    ensures RouteOf(req.requestMethod, req.uri) !in {Create, DeleteById} ==> r.store == st
    ensures r.outcome.Sent? && r.outcome.response.status == HTTP_STATUS_CREATED ==> Created(st, r)
    ensures r.outcome.Sent? ==> r.outcome.response.contentType == CT_JSON
  {
    match RouteOf(req.requestMethod, req.uri)
    case Create => PostReply(req.contentType, req.body, st, maxYear)
    case DeleteById => DeleteReply(req.uri, st)
    case GetByYear => Result(ByYearReply(req.uri, st, maxYear), st)
    case GetById => Result(ByIdReply(req.uri, st), st)
    case GetAll => Result(Send(HTTP_STATUS_OK, MovieArray(AllMovies(st))), st)
    case NotRouted => Result(Send(HTTP_STATUS_NOT_FOUND, Text(RESOURCE_NOT_FOUND_MESSAGE)), st)
  }

  /** The handler object: it shares a MoviesStore and fixes the upper year bound once. */
  class MoviesHandler {
    const store: MoviesStore
    /** The year after the one the class was loaded in. */
    const maxYear: int

    constructor (store: MoviesStore, maxYear: int)
      requires YEAR_OF_START_CINEMA <= maxYear
      ensures this.store == store && this.maxYear == maxYear
    {
      this.store := store;
      this.maxYear := maxYear;
    }

    method Handle(req: Request) returns (out: Outcome)
      requires store.Valid()
      requires RouteOf(req.requestMethod, req.uri) == Create ==> store.currentId < INT_MAX
      modifies store
      ensures store.Valid()
      ensures Result(out, store.State()) == Serve(req, old(store.State()), maxYear)
    {
      var requestMethod := ToUpperCase(req.requestMethod);
      if requestMethod == "POST" {
        out := CallPostMethod(req);
      } else if requestMethod == "DELETE" {
        out := CallDeleteMovie(req.uri);
      } else if requestMethod == "GET" {
        if Contains(req.uri, "year") {
          out := CallGetMoviesByYear(req.uri);
        } else if |Split(req.uri, '/')| > 2 {
          out := CallGetMovieById(req.uri);
        } else {
          out := CallGetMovies();
        }
      } else {
        out := Send(HTTP_STATUS_NOT_FOUND, Text(RESOURCE_NOT_FOUND_MESSAGE));
      }
    }

    method CallDeleteMovie(uri: string) returns (out: Outcome)
      requires store.Valid()
      modifies store
      ensures store.Valid()
      ensures Result(out, store.State()) == DeleteReply(uri, old(store.State()))
    {
      var uriSplit := Split(uri, '/');
      if |uriSplit| <= 2 {
        return Escaped(IndexOutOfBounds);
      }
      var id := ParseInt(uriSplit[2]);
      if id.None? {
        return Send(HTTP_STATUS_BAD_REQUEST, Text(VALIDATION_EXCEPTION + " ID: " + uriSplit[2]));
      }
      var isDeleted := store.DeleteMovie(id.value);
      if isDeleted {
        out := Send(HTTP_STATUS_NO_CONTENT, NoBody);
      } else {
        out := Send(HTTP_STATUS_NOT_FOUND, NoBody);
      }
    }

    method CallGetMovies() returns (out: Outcome)
      requires store.Valid()
      ensures out == Send(HTTP_STATUS_OK, MovieArray(AllMovies(store.State())))
    {
      var movies := store.GetMovies();
      out := Send(HTTP_STATUS_OK, MovieArray(multiset(movies)));
    }

    method CallGetMovieById(uri: string) returns (out: Outcome)
      requires store.Valid() && |Split(uri, '/')| > 2
      ensures out == ByIdReply(uri, store.State())
    {
      var uriSplit := Split(uri, '/');
      var id := ParseInt(uriSplit[2]);
      if id.None? {
        return Send(HTTP_STATUS_BAD_REQUEST, Text(VALIDATION_EXCEPTION + " ID: " + uriSplit[2]));
      }
      var movie := store.GetMovieById(id.value);
      if movie.None? {
        return Send(HTTP_STATUS_NOT_FOUND, Text(MOVIE_NOT_FOUND_MESSAGE));
      }
      out := Send(HTTP_STATUS_OK, MovieJson(movie.value));
    }

    method CallGetMoviesByYear(uri: string) returns (out: Outcome)
      requires store.Valid()
      ensures out == ByYearReply(uri, store.State(), maxYear)
    {
      var uriSplit := Split(uri, '=');
      if |uriSplit| <= 1 {
        return Escaped(IndexOutOfBounds);
      }
      var year := ParseInt(uriSplit[1]);
      if year.None? {
        return Send(HTTP_STATUS_BAD_REQUEST, Text(VALIDATION_EXCEPTION + " year:" + uriSplit[1]));
      }
      if year.value < YEAR_OF_START_CINEMA || year.value > maxYear {
        return Send(HTTP_STATUS_BAD_REQUEST, Text(VALIDATION_EXCEPTION + " " + YEAR_MUST_BE));
      }
      var movies := store.GetMoviesByYear(year.value);
      out := Send(HTTP_STATUS_OK, MovieArray(multiset(movies)));
    }

    /** The three checks of callPostMethod; each adds its detail when it fails. */
    method Validate(errorResponse: ErrorResponse, title: string, year: int)
      modifies errorResponse
      ensures errorResponse.details == old(errorResponse.details) + Details(title, year, maxYear)
    {
      if |title| == 0 {
        errorResponse.AddDetails(EMPTY_TITLE);
      }
      if |title| > MAX_TITLE_LENGTH {
        errorResponse.AddDetails(TOO_LARGE_TITLE);
      }
      if year < YEAR_OF_START_CINEMA || year > maxYear {
        errorResponse.AddDetails(YEAR_MUST_BE);
      }
    }

    method CallPostMethod(req: Request) returns (out: Outcome)
      requires store.Valid() && store.currentId < INT_MAX
      modifies store
      ensures store.Valid()
      ensures Result(out, store.State()) == PostReply(req.contentType, req.body, old(store.State()), maxYear)
    {
      var errorResponse := new ErrorResponse(NO_VALID_DATA);
      var contentType := req.contentType;
      if contentType.Some? && !Contains(contentType.value, "application/json") {
        return Send(HTTP_STATUS_UNSUPPORTED_MEDIA_TYPE, Text(UNSUPPORTED_MEDIA_TYPE_MESSAGE));
      }
      if req.body.SyntaxError? || req.body.NotAnObject? {
        return Send(HTTP_STATUS_UNPROCESSABLE_CONTENT, Text(UNPROCESSABLE_CONTENT_MESSAGE));
      }
      if req.body.title.None? || req.body.year.None? {
        return Escaped(InvalidField);
      }
      var title := Trim(req.body.title.value);
      var year := req.body.year.value;
      ghost var before := store.State();
      ghost var details := Details(title, year, maxYear);
      Validate(errorResponse, title, year);
      assert errorResponse.details == [] + details == details;
      assert store.State() == before;
      if !errorResponse.IsDetailsEmpty() {
        out := Send(HTTP_STATUS_UNPROCESSABLE_CONTENT, ErrorJson(errorResponse.GetError(), errorResponse.GetDetails()));
        assert out == Send(HTTP_STATUS_UNPROCESSABLE_CONTENT, ErrorJson(NO_VALID_DATA, details));
        return;
      }

      var newMovie := store.AddMovie(title, year);
      assert store.State() == Added(before, title, year);
      out := Send(HTTP_STATUS_CREATED, MovieJson(newMovie));
    }
  }
}
