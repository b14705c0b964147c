/**
 * What the handler promises across requests and for the URI shapes clients
 * send: dispatch precedence, error answers, ids that only grow, and the
 * request sequences the API tests walk through.
 */
module HandlerProperties {
  import opened Wrappers
  import opened JavaStrings
  import opened Store
  import opened Http

  // ---------------------------------------------------------------------
  // Dispatch

  /** The method name is compared after upper-casing, so its case never matters. */
  lemma RouteIgnoresCase(requestMethod: string, uri: string)
    ensures RouteOf(requestMethod, uri) == RouteOf(ToUpperCase(requestMethod), uri)
  {
    ToUpperCaseIdempotent(requestMethod);
  }

  /** An upper-case word is its own upper-case form. */
  lemma UpperWordUnchanged(w: string)
    requires IsUpperWord(w)
    ensures ToUpperCase(w) == w
  {
    assert forall k :: 0 <= k < |w| ==> ToUpperCase(w)[k] == w[k];
  }

  /** A GET is routed on the URI alone: "year" anywhere first, then the path shape. */
  lemma RouteGet(uri: string)
    ensures RouteOf("GET", uri) == if Contains(uri, "year") then GetByYear
                                   else if |Split(uri, '/')| > 2 then GetById
                                   else GetAll
  {
    UpperWordUnchanged("GET");
  }

  /** POST always reaches the create path. */
  lemma RoutePost(uri: string)
    ensures RouteOf("POST", uri) == Create
  {
    UpperWordUnchanged("POST");
  }

  /** DELETE always reaches the delete path. */
  lemma RouteDelete(uri: string)
    ensures RouteOf("DELETE", uri) == DeleteById
  {
    UpperWordUnchanged("DELETE");
  }

  /** The pieces of `/<name>` between slashes. */
  lemma PathPieces(name: string)
    requires '/' !in name
    ensures Pieces("/" + name, '/') == ["", name]
  {
    assert "/" + name == "" + ['/'] + name;
    PiecesCons("", '/', name);
  }

  /** The pieces of `/<name>/<rest>` between slashes, for a `rest` without one. */
  lemma ItemPathPieces(name: string, rest: string)
    requires '/' !in name && '/' !in rest
    ensures Pieces("/" + name + "/" + rest, '/') == ["", name, rest]
  {
    assert "/" + name + "/" + rest == "" + ['/'] + (name + ['/'] + rest);
    PiecesCons("", '/', name + ['/'] + rest);
    PiecesCons(name, '/', rest);
  }

  /**
   * `/<name>` and `/<name>/` both split on '/' into an empty piece and the
   * name: split drops the empty piece after a trailing slash.
   */
  lemma SplitCollectionPath(name: string)
    requires name != "" && '/' !in name
    ensures Split("/" + name, '/') == ["", name]
    ensures Split("/" + name + "/", '/') == ["", name]
  {
    assert ("/" + name)[0] == '/';
    PathPieces(name);
    DropTrailingEmptyKeeps(["", name]);
    assert ("/" + name + "/")[0] == '/';
    ItemPathPieces(name, "");
    assert "/" + name + "/" + "" == "/" + name + "/";
    assert ["", name, ""][..2] == ["", name];
    DropTrailingEmptyKeeps(["", name]);
  }

  /** `/<name>/<segment>` splits on '/' into an empty piece, the name and the segment. */
  lemma SplitItemPath(name: string, segment: string)
    requires name != "" && '/' !in name
    requires segment != "" && '/' !in segment
    ensures Split("/" + name + "/" + segment, '/') == ["", name, segment]
  {
    assert ("/" + name + "/" + segment)[0] == '/';
    ItemPathPieces(name, segment);
    DropTrailingEmptyKeeps(["", name, segment]);
  }

  /** `/movies` and `/movies/` split into an empty piece and "movies". */
  lemma SplitMovies()
    ensures Split("/movies", '/') == ["", "movies"]
    ensures Split("/movies/", '/') == ["", "movies"]
  {
    SplitCollectionPath("movies");
    assert "/movies" == "/" + "movies";
    assert "/movies/" == "/" + "movies" + "/";
  }

  /** Neither `/movies` nor `/movies/` mentions "year". */
  lemma MoviesPathHasNoYear()
    ensures !Contains("/movies", "year") && !Contains("/movies/", "year")
  {
    NotContainsWithoutFirstChar("/movies", "year");
    NotContainsWithoutFirstChar("/movies/", "year");
  }

  /** A GET of `/movies` or `/movies/` lists everything. */
  lemma ListAllUris()
    ensures RouteOf("GET", "/movies") == GetAll
    ensures RouteOf("GET", "/movies/") == GetAll
  {
    SplitMovies();
    MoviesPathHasNoYear();
    RouteGet("/movies");
    RouteGet("/movies/");
  }

  /** How `/movies/<segment>` splits on '/': the segment is element 2. */
  lemma SplitIdUri(segment: string)
    requires segment != "" && '/' !in segment
    ensures Split("/movies/" + segment, '/') == ["", "movies", segment]
  {
    SplitItemPath("movies", segment);
    assert "/movies/" + segment == "/" + "movies" + "/" + segment;
  }

  /** A GET of `/movies/<segment>` goes to get-by-id unless the segment mentions "year". */
  lemma ByIdUri(segment: string)
    requires segment != "" && '/' !in segment
    ensures RouteOf("GET", "/movies/" + segment) == if Contains(segment, "year") then GetByYear else GetById
  {
    var uri := "/movies/" + segment;
    SplitIdUri(segment);
    ContainsAfterPrefix("/movies/", segment, "year");
    RouteGet(uri);
  }

  /** How `/movies?year=<raw>` splits on '=': the raw value is element 1. */
  lemma SplitYearUri(raw: string)
    requires raw != "" && '=' !in raw
    ensures Split("/movies?year=" + raw, '=') == ["/movies?year", raw]
  {
    assert "/movies?year=" + raw == "/movies?year" + ['='] + raw;
    PiecesCons("/movies?year", '=', raw);
    assert Pieces(raw, '=') == [raw];
  }

  /** Every URI that starts `/movies?year` mentions "year". */
  lemma YearQueryMentionsYear(rest: string)
    ensures Contains("/movies?year" + rest, "year")
  {
    var uri := "/movies?year" + rest;
    assert uri[8..12] == "year";
    assert OccursAt(uri, "year", 8);
    ContainsIff(uri, "year");
  }

  /** A GET of `/movies?year=<raw>` goes to by-year with `raw` as the year text. */
  lemma ByYearUri(raw: string)
    requires raw != "" && '=' !in raw
    ensures RouteOf("GET", "/movies?year=" + raw) == GetByYear
    ensures Element(Split("/movies?year=" + raw, '='), 1) == Some(raw)
  {
    var uri := "/movies?year=" + raw;
    SplitYearUri(raw);
    assert uri == "/movies?year" + ("=" + raw);
    YearQueryMentionsYear("=" + raw);
    RouteGet(uri);
  }

  // ---------------------------------------------------------------------
  // Serve on each route

  lemma ServeOnRoute(req: Request, st: StoreState, maxYear: int)
    requires Invariant(st)
    requires RouteOf(req.requestMethod, req.uri) == Create ==> st.currentId < INT_MAX
    ensures var r := Serve(req, st, maxYear);
            match RouteOf(req.requestMethod, req.uri)
            case Create => r == PostReply(req.contentType, req.body, st, maxYear)
            case DeleteById => r == DeleteReply(req.uri, st)
            case GetByYear => r == Result(ByYearReply(req.uri, st, maxYear), st)
            case GetById => r == Result(ByIdReply(req.uri, st), st)
            case GetAll => r == Result(Send(HTTP_STATUS_OK, MovieArray(AllMovies(st))), st)
            case NotRouted => r == Result(Send(HTTP_STATUS_NOT_FOUND, Text(RESOURCE_NOT_FOUND_MESSAGE)), st)
  {
  }

  // ---------------------------------------------------------------------
  // Answers of the GET and DELETE paths

  /**
   * An id segment that parseInt rejects (letters, a query suffix such as
   * `5?x=1`, an empty sign) is answered 400 with the segment quoted, and the
   * store is left alone; GET answers so for every segment that does not
   * mention "year", since those go to by-year.
   */
  lemma InvalidIdOnGet(segment: string, st: StoreState, maxYear: int,
                       contentType: Option<string>, body: JsonBody)
    requires Invariant(st)
    requires segment != "" && '/' !in segment && !Contains(segment, "year")
    requires ParseInt(segment).None?
    ensures Serve(Request("GET", "/movies/" + segment, contentType, body), st, maxYear)
      == Result(Send(HTTP_STATUS_BAD_REQUEST, Text(VALIDATION_EXCEPTION + " ID: " + segment)), st)
  {
    var req := Request("GET", "/movies/" + segment, contentType, body);
    ByIdUri(segment);
    SplitIdUri(segment);
    ServeOnRoute(req, st, maxYear);
  }

  /** DELETE answers an unparsable id segment the same way as GET, whether or not the segment mentions "year". */
  lemma InvalidIdOnDelete(segment: string, st: StoreState, maxYear: int,
                          contentType: Option<string>, body: JsonBody)
    requires Invariant(st)
    requires segment != "" && '/' !in segment
    requires ParseInt(segment).None?
    ensures Serve(Request("DELETE", "/movies/" + segment, contentType, body), st, maxYear)
      == Result(Send(HTTP_STATUS_BAD_REQUEST, Text(VALIDATION_EXCEPTION + " ID: " + segment)), st)
  {
    var req := Request("DELETE", "/movies/" + segment, contentType, body);
    RouteDelete(req.uri);
    SplitIdUri(segment);
    ServeOnRoute(req, st, maxYear);
  }

  /** An id followed by a query without '/' or "year" is a single by-id segment that parseInt refuses. */
  lemma QuerySegment(id: int, query: string)
    requires '/' !in query && !Contains(query, "year")
    ensures var segment := IntToString(id) + "?" + query;
            segment != "" && '/' !in segment && !Contains(segment, "year") && ParseInt(segment).None?
  {
    var digits := IntToString(id);
    var prefix := digits + "?";
    var segment := prefix + query;
    assert segment[|digits|] == '?';
    assert '/' !in segment by {
      assert forall k :: 0 <= k < |digits| ==> segment[k] == digits[k];
      assert forall k :: |digits| < k < |segment| ==> segment[k] == query[k - |digits| - 1];
    }
    assert 'y' !in prefix by {
      assert forall k :: 0 <= k < |digits| ==> prefix[k] == digits[k];
    }
    ContainsAfterPrefix(prefix, query, "year");
  }

  /**
   * A query string after the id stays in the id segment, and parseInt
   * refuses the '?', so `/movies/5?x=1` and `/movies/5?sort=yes` are bad
   * requests, not movie 5; only a query mentioning "year" is routed elsewhere.
   */
  lemma QuerySuffixIsInvalidId(id: int, query: string, st: StoreState, maxYear: int,
                               contentType: Option<string>, body: JsonBody)
    requires Invariant(st)
    requires '/' !in query && !Contains(query, "year")
    ensures var segment := IntToString(id) + "?" + query;
            Serve(Request("GET", "/movies/" + segment, contentType, body), st, maxYear)
              == Result(Send(HTTP_STATUS_BAD_REQUEST, Text(VALIDATION_EXCEPTION + " ID: " + segment)), st)
  {
    var segment := IntToString(id) + "?" + query;
    QuerySegment(id, query);
    InvalidIdOnGet(segment, st, maxYear, contentType, body);
  }

  /** GET `/movies/<id>`: the stored movie with 200, or 404 "Movie not found". */
  lemma GetByIdAnswer(id: int, st: StoreState, maxYear: int, contentType: Option<string>, body: JsonBody)
    requires Invariant(st)
    requires INT_MIN <= id <= INT_MAX
    ensures Serve(Request("GET", "/movies/" + IntToString(id), contentType, body), st, maxYear)
      == Result(match Lookup(st, id)
                case Some(m) => Send(HTTP_STATUS_OK, MovieJson(m))
                case None => Send(HTTP_STATUS_NOT_FOUND, Text(MOVIE_NOT_FOUND_MESSAGE)), st)
  {
    var segment := IntToString(id);
    var req := Request("GET", "/movies/" + segment, contentType, body);
    assert '/' !in segment && 'y' !in segment;
    ParseIntToString(id);
    NotContainsWithoutFirstChar(segment, "year");
    ByIdUri(segment);
    SplitIdUri(segment);
    ServeOnRoute(req, st, maxYear);
  }

  /**
   * DELETE `/movies/<id>`: 204 with an empty body and the entry gone when it
   * was there, otherwise 404 with an empty body and nothing changed.
   */
  lemma DeleteAnswer(id: int, st: StoreState, maxYear: int, contentType: Option<string>, body: JsonBody)
    requires Invariant(st)
    requires INT_MIN <= id <= INT_MAX
    ensures Serve(Request("DELETE", "/movies/" + IntToString(id), contentType, body), st, maxYear)
      == if Lookup(st, id).Some? then Result(Send(HTTP_STATUS_NO_CONTENT, NoBody), Removed(st, id))
         else Result(Send(HTTP_STATUS_NOT_FOUND, NoBody), st)
  {
    var segment := IntToString(id);
    var req := Request("DELETE", "/movies/" + segment, contentType, body);
    assert '/' !in segment;
    ParseIntToString(id);
    RouteDelete(req.uri);
    SplitIdUri(segment);
    ServeOnRoute(req, st, maxYear);
  }

  /** Deleting the same id twice: 204, then 404, and a later GET finds nothing. */
  lemma DeleteTwice(id: int, st: StoreState, maxYear: int)
    requires Invariant(st)
    requires id in st.storage
    ensures var del := Request("DELETE", "/movies/" + IntToString(id), None, NotAnObject);
            var first := Serve(del, st, maxYear);
            var second := Serve(del, first.store, maxYear);
            && first.outcome == Send(HTTP_STATUS_NO_CONTENT, NoBody)
            && second == Result(Send(HTTP_STATUS_NOT_FOUND, NoBody), first.store)
            && Serve(Request("GET", "/movies/" + IntToString(id), None, NotAnObject), first.store, maxYear).outcome
               == Send(HTTP_STATUS_NOT_FOUND, Text(MOVIE_NOT_FOUND_MESSAGE))
  {
    assert 1 <= id <= INT_MAX;
    DeleteAnswer(id, st, maxYear, None, NotAnObject);
    var after := Removed(st, id);
    DeleteAnswer(id, after, maxYear, None, NotAnObject);
    GetByIdAnswer(id, after, maxYear, None, NotAnObject);
  }

  /** DELETE without an id segment makes split("/")[2] throw: no answer, no change. */
  lemma DeleteWithoutIdEscapes(st: StoreState, maxYear: int)
    requires Invariant(st)
    ensures Serve(Request("DELETE", "/movies", None, NotAnObject), st, maxYear)
      == Result(Escaped(IndexOutOfBounds), st)
  {
    var req := Request("DELETE", "/movies", None, NotAnObject);
    RouteDelete(req.uri);
    SplitMovies();
    ServeOnRoute(req, st, maxYear);
  }

  /** callGetMoviesByYear on `/movies?year=<y>` reads back `y` and checks its range. */
  lemma ByYearReplyAnswer(year: int, st: StoreState, maxYear: int)
    requires INT_MIN <= year <= INT_MAX
    ensures ByYearReply("/movies?year=" + IntToString(year), st, maxYear)
      == if YEAR_OF_START_CINEMA <= year <= maxYear
         then Send(HTTP_STATUS_OK, MovieArray(MoviesOfYear(st, year)))
         else Send(HTTP_STATUS_BAD_REQUEST, Text(VALIDATION_EXCEPTION + " " + YEAR_MUST_BE))
  {
    var raw := IntToString(year);
    assert '=' !in raw;
    ParseIntToString(year);
    SplitYearUri(raw);
  }

  /**
   * GET `/movies?year=<y>`: 200 with exactly the stored movies of year `y`
   * when 1888 <= y <= maxYear, otherwise 400 with the range message; the
   * bounds themselves are accepted.
   */
  lemma ByYearAnswer(year: int, st: StoreState, maxYear: int)
    requires Invariant(st)
    requires INT_MIN <= year <= INT_MAX
    ensures Serve(Request("GET", "/movies?year=" + IntToString(year), None, NotAnObject), st, maxYear)
      == Result(if YEAR_OF_START_CINEMA <= year <= maxYear
                then Send(HTTP_STATUS_OK, MovieArray(MoviesOfYear(st, year)))
                else Send(HTTP_STATUS_BAD_REQUEST, Text(VALIDATION_EXCEPTION + " " + YEAR_MUST_BE)), st)
  {
    var raw := IntToString(year);
    var req := Request("GET", "/movies?year=" + raw, None, NotAnObject);
    assert '=' !in raw;
    ByYearUri(raw);
    ServeOnRoute(req, st, maxYear);
    ByYearReplyAnswer(year, st, maxYear);
  }

  /** callGetMoviesByYear quotes a year value parseInt refuses. */
  lemma UnparsableYearReply(raw: string, st: StoreState, maxYear: int)
    requires raw != "" && '=' !in raw && ParseInt(raw).None?
    ensures ByYearReply("/movies?year=" + raw, st, maxYear)
      == Send(HTTP_STATUS_BAD_REQUEST, Text(VALIDATION_EXCEPTION + " year:" + raw))
  {
    SplitYearUri(raw);
  }

  /** A year value parseInt refuses is answered 400 with the raw text quoted. */
  lemma UnparsableYearIsBadRequest(raw: string, st: StoreState, maxYear: int)
    requires Invariant(st)
    requires raw != "" && '=' !in raw && ParseInt(raw).None?
    ensures Serve(Request("GET", "/movies?year=" + raw, None, NotAnObject), st, maxYear)
      == Result(Send(HTTP_STATUS_BAD_REQUEST, Text(VALIDATION_EXCEPTION + " year:" + raw)), st)
  {
    var req := Request("GET", "/movies?year=" + raw, None, NotAnObject);
    ByYearUri(raw);
    ServeOnRoute(req, st, maxYear);
    UnparsableYearReply(raw, st, maxYear);
  }

  /**
   * A GET whose URI mentions "year" but carries no value after an '=' (as
   * in `/movies?year` or `/movies?year=`) makes split("=")[1] throw: no
   * answer, no change.
   */
  lemma YearWithoutValueEscapes(path: string, st: StoreState, maxYear: int)
    requires Invariant(st)
    requires Contains(path, "year") && '=' !in path
    ensures Serve(Request("GET", path, None, NotAnObject), st, maxYear)
      == Result(Escaped(IndexOutOfBounds), st)
    ensures Serve(Request("GET", path + "=", None, NotAnObject), st, maxYear)
      == Result(Escaped(IndexOutOfBounds), st)
  {
    ContainsIff(path, "year");
    var i :| OccursAt(path, "year", i);
    assert path != "";
    var withEq := path + "=";
    assert OccursAt(withEq, "year", i) by {
      assert withEq[i..i + 4] == path[i..i + 4];
    }
    ContainsIff(withEq, "year");
    assert withEq == path + ['='];
    SplitTrailingDelimiter(path, '=');
    RouteGet(path);
    RouteGet(withEq);
    ServeOnRoute(Request("GET", path, None, NotAnObject), st, maxYear);
    ServeOnRoute(Request("GET", withEq, None, NotAnObject), st, maxYear);
  }

  /** A method other than POST, DELETE or GET, in any case, is answered 404 and changes nothing. */
  lemma UnknownMethodNotFound(req: Request, st: StoreState, maxYear: int)
    requires Invariant(st)
    requires ToUpperCase(req.requestMethod) != "POST"
    requires ToUpperCase(req.requestMethod) != "DELETE"
    requires ToUpperCase(req.requestMethod) != "GET"
    ensures Serve(req, st, maxYear) == Result(Send(HTTP_STATUS_NOT_FOUND, Text(RESOURCE_NOT_FOUND_MESSAGE)), st)
  {
    ServeOnRoute(req, st, maxYear);
  }

  // ---------------------------------------------------------------------
  // POST

  /** A Content-Type without "application/json" is refused with 415 before the body is read. */
  lemma WrongContentTypeRejected(uri: string, contentType: string, body: JsonBody, st: StoreState, maxYear: int)
    requires Invariant(st) && st.currentId < INT_MAX
    requires !Contains(contentType, "application/json")
    ensures Serve(Request("POST", uri, Some(contentType), body), st, maxYear)
      == Result(Send(HTTP_STATUS_UNSUPPORTED_MEDIA_TYPE, Text(UNSUPPORTED_MEDIA_TYPE_MESSAGE)), st)
  {
    var req := Request("POST", uri, Some(contentType), body);
    RoutePost(uri);
    ServeOnRoute(req, st, maxYear);
  }

  /**
   * A body that is not valid JSON, or is JSON but not an object, is answered
   * 422 "Unprocessable Content" when the Content-Type is absent or accepted,
   * and changes nothing.
   */
  lemma MalformedBodyRejected(uri: string, contentType: Option<string>, body: JsonBody, st: StoreState, maxYear: int)
    requires Invariant(st) && st.currentId < INT_MAX
    requires contentType.None? || Contains(contentType.value, "application/json")
    requires body.SyntaxError? || body.NotAnObject?
    ensures Serve(Request("POST", uri, contentType, body), st, maxYear)
      == Result(Send(HTTP_STATUS_UNPROCESSABLE_CONTENT, Text(UNPROCESSABLE_CONTENT_MESSAGE)), st)
  {
    RoutePost(uri);
    ServeOnRoute(Request("POST", uri, contentType, body), st, maxYear);
  }

  /** A title of only blanks is reported as empty, never as too long. */
  lemma BlankTitleIsEmpty(title: string, year: int, maxYear: int)
    requires forall k :: 0 <= k < |title| ==> IsBlank(title[k])
    ensures EMPTY_TITLE in Details(Trim(title), year, maxYear)
    ensures TOO_LARGE_TITLE !in Details(Trim(title), year, maxYear)
  {
    TrimEmptyIff(title);
  }

  /** The Content-Type every response carries is accepted on a POST. */
  lemma JsonContentTypeAccepted()
    ensures Contains(CT_JSON, "application/json")
  {
    assert CT_JSON[0..16] == "application/json";
    assert OccursAt(CT_JSON, "application/json", 0);
    ContainsIff(CT_JSON, "application/json");
  }

  /**
   * A POST whose fields are present but break a rule is answered 422 with
   * every detail that applies, under "No valid data", and uses up no id,
   * whenever the Content-Type is absent or mentions "application/json".
   */
  lemma InvalidFieldsRejected(uri: string, contentType: Option<string>, title: string, year: int,
                              st: StoreState, maxYear: int)
    requires Invariant(st) && st.currentId < INT_MAX
    requires contentType.None? || Contains(contentType.value, "application/json")
    requires Details(Trim(title), year, maxYear) != []
    ensures Serve(Request("POST", uri, contentType, JsonObject(Some(title), Some(year))), st, maxYear)
      == Result(Send(HTTP_STATUS_UNPROCESSABLE_CONTENT,
                     ErrorJson(NO_VALID_DATA, Details(Trim(title), year, maxYear))), st)
  {
    var req := Request("POST", uri, contentType, JsonObject(Some(title), Some(year)));
    RoutePost(uri);
    ServeOnRoute(req, st, maxYear);
  }

  /**
   * A title over 100 characters together with a year past the bound gets
   * both details, title first, under any accepted Content-Type (the one
   * every response carries among them, by JsonContentTypeAccepted).
   */
  lemma BothViolationsReported(uri: string, contentType: Option<string>, title: string, year: int,
                               st: StoreState, maxYear: int)
    requires Invariant(st) && st.currentId < INT_MAX
    requires contentType.None? || Contains(contentType.value, "application/json")
    requires |Trim(title)| > MAX_TITLE_LENGTH && year > maxYear
    ensures Serve(Request("POST", uri, contentType, JsonObject(Some(title), Some(year))), st, maxYear)
      == Result(Send(HTTP_STATUS_UNPROCESSABLE_CONTENT,
                     ErrorJson(NO_VALID_DATA, [TOO_LARGE_TITLE, YEAR_MUST_BE])), st)
  {
    TooLongAndLateDetails(Trim(title), year, maxYear);
    InvalidFieldsRejected(uri, contentType, title, year, st, maxYear);
  }

  /** The details of a too long title with a too late year, in check order. */
  lemma TooLongAndLateDetails(title: string, year: int, maxYear: int)
    requires |title| > MAX_TITLE_LENGTH && year > maxYear
    ensures Details(title, year, maxYear) == [TOO_LARGE_TITLE, YEAR_MUST_BE]
  {
  }

  /**
   * A valid POST, with the Content-Type absent or mentioning
   * "application/json", answers 201 with the trimmed title under the next
   * id and stores exactly that movie.
   */
  lemma ValidPostCreates(uri: string, contentType: Option<string>, title: string, year: int,
                         st: StoreState, maxYear: int)
    requires Invariant(st) && st.currentId < INT_MAX
    requires contentType.None? || Contains(contentType.value, "application/json")
    requires 0 < |Trim(title)| <= MAX_TITLE_LENGTH && YEAR_OF_START_CINEMA <= year <= maxYear
    ensures Serve(Request("POST", uri, contentType, JsonObject(Some(title), Some(year))), st, maxYear)
      == Result(Send(HTTP_STATUS_CREATED, MovieJson(Movie(st.currentId + 1, Trim(title), year))),
                Added(st, Trim(title), year))
  {
    var req := Request("POST", uri, contentType, JsonObject(Some(title), Some(year)));
    RoutePost(uri);
    ServeOnRoute(req, st, maxYear);
    ValidPostReply(contentType, title, year, st, maxYear);
  }

  /** callPostMethod on valid fields, before the dispatch: 201 and the movie added. */
  lemma ValidPostReply(contentType: Option<string>, title: string, year: int, st: StoreState, maxYear: int)
    requires Invariant(st) && st.currentId < INT_MAX
    requires contentType.None? || Contains(contentType.value, "application/json")
    requires 0 < |Trim(title)| <= MAX_TITLE_LENGTH && YEAR_OF_START_CINEMA <= year <= maxYear
    ensures PostReply(contentType, JsonObject(Some(title), Some(year)), st, maxYear)
      == Result(Send(HTTP_STATUS_CREATED, MovieJson(Movie(st.currentId + 1, Trim(title), year))),
                Added(st, Trim(title), year))
  {
    var t := Trim(title);
    assert YearInRange(year, maxYear);
    assert Details(t, year, maxYear) == [];
    var st' := Added(st, t, year);
    assert st'.currentId == st.currentId + 1;
  }

  /** What a valid POST creates, a GET of its id returns. */
  lemma PostThenGet(uri: string, contentType: Option<string>, title: string, year: int,
                    st: StoreState, maxYear: int)
    requires Invariant(st) && st.currentId < INT_MAX
    requires contentType.None? || Contains(contentType.value, "application/json")
    requires 0 < |Trim(title)| <= MAX_TITLE_LENGTH && YEAR_OF_START_CINEMA <= year <= maxYear
    ensures var post := Serve(Request("POST", uri, contentType, JsonObject(Some(title), Some(year))), st, maxYear);
            var movie := Movie(st.currentId + 1, Trim(title), year);
            Serve(Request("GET", "/movies/" + IntToString(movie.id), None, NotAnObject), post.store, maxYear)
              == Result(Send(HTTP_STATUS_OK, MovieJson(movie)), post.store)
  {
    ValidPostCreates(uri, contentType, title, year, st, maxYear);
    GetByIdAnswer(st.currentId + 1, Added(st, Trim(title), year), maxYear, None, NotAnObject);
  }

  // ---------------------------------------------------------------------
  // Request sequences

  /** Serves `reqs` in order from `st`: the outcomes and the final store. */
  function Run(reqs: seq<Request>, st: StoreState, maxYear: int): (r: (seq<Outcome>, StoreState))
    requires Invariant(st) && st.currentId + |reqs| <= INT_MAX
    ensures |r.0| == |reqs| && Invariant(r.1)
    ensures st.currentId <= r.1.currentId <= st.currentId + |reqs|
  {
    if |reqs| == 0 then ([], st)
    else
      var first := Serve(reqs[0], st, maxYear);
      var rest := Run(reqs[1..], first.store, maxYear);
      ([first.outcome] + rest.0, rest.1)
  }

  /** The id a 201 answer reports, as a sequence of zero or one ids. */
  function CreatedId(o: Outcome): (ids: seq<int>)
  {
    if o.Sent? && o.response.status == HTTP_STATUS_CREATED && o.response.body.MovieJson?
    then [o.response.body.movie.id] else []
  }

  /** The ids of the movies created, in the order of the 201 answers. */
  function CreatedIds(outcomes: seq<Outcome>): (ids: seq<int>)
  {
    if |outcomes| == 0 then [] else CreatedId(outcomes[0]) + CreatedIds(outcomes[1..])
  }

  /** All values of `ids` lie in (lo, hi] and strictly increase. */
  predicate IncreasingWithin(ids: seq<int>, lo: int, hi: int)
  {
    && (forall i, j :: 0 <= i < j < |ids| ==> ids[i] < ids[j])
    && (forall i :: 0 <= i < |ids| ==> lo < ids[i] <= hi)
  }

  /** One request reports a created id only when it is the next one, and then the counter moved to it. */
  lemma CreatedIdOfServe(req: Request, st: StoreState, maxYear: int)
    requires Invariant(st) && st.currentId < INT_MAX
    ensures var r := Serve(req, st, maxYear);
            CreatedId(r.outcome) == [] || (CreatedId(r.outcome) == [st.currentId + 1] && r.store.currentId == st.currentId + 1)
  {
    var r := Serve(req, st, maxYear);
    if CreatedId(r.outcome) != [] {
      assert Created(st, r);
    }
  }

  /** An id above `lo` in front of ids above it keeps the order. */
  lemma IncreasingPrepend(head: seq<int>, tail: seq<int>, lo: int, mid: int, hi: int)
    requires head == [] || (head == [mid] && lo < mid)
    requires lo <= mid <= hi
    requires IncreasingWithin(tail, mid, hi)
    ensures IncreasingWithin(head + tail, lo, hi)
  {
    var ids := head + tail;
    if head != [] {
      assert forall i :: 1 <= i < |ids| ==> ids[i] == tail[i - 1];
    } else {
      assert ids == tail;
    }
  }

  /**
   * Across any request sequence, including failed POSTs and deletions, the
   * ids handed out strictly increase, all lie above every id issued before
   * the sequence, and the counter ends at or above the last of them.
   */
  lemma {:induction false} IdsStrictlyIncrease(reqs: seq<Request>, st: StoreState, maxYear: int)
    requires Invariant(st) && st.currentId + |reqs| <= INT_MAX
    ensures IncreasingWithin(CreatedIds(Run(reqs, st, maxYear).0), st.currentId, Run(reqs, st, maxYear).1.currentId)
  {
    if |reqs| > 0 {
      var first := Serve(reqs[0], st, maxYear);
      var rest := Run(reqs[1..], first.store, maxYear);
      IdsStrictlyIncrease(reqs[1..], first.store, maxYear);
      CreatedIdOfServe(reqs[0], st, maxYear);
      var outs := [first.outcome] + rest.0;
      assert Run(reqs, st, maxYear) == (outs, rest.1);
      assert outs[0] == first.outcome && outs[1..] == rest.0;
      assert CreatedIds(outs) == CreatedId(first.outcome) + CreatedIds(rest.0);
      IncreasingPrepend(CreatedId(first.outcome), CreatedIds(rest.0), st.currentId, first.store.currentId, rest.1.currentId);
    }
  }

  /** A fresh store lists an empty array. */
  lemma EmptyStoreListsNothing(maxYear: int)
    ensures Serve(Request("GET", "/movies", None, NotAnObject), EMPTY, maxYear)
      == Result(Send(HTTP_STATUS_OK, MovieArray(multiset{})), EMPTY)
  {
    var req := Request("GET", "/movies", None, NotAnObject);
    ListAllUris();
    assert Invariant(EMPTY);
    ServeOnRoute(req, EMPTY, maxYear);
    assert Serve(req, EMPTY, maxYear) == Result(Send(HTTP_STATUS_OK, MovieArray(AllMovies(EMPTY))), EMPTY);
    assert EMPTY.storage.Values == {};
    assert AllMovies(EMPTY) == multiset{};
  }

  /**
   * Deleting the movie a POST just created answers 204 and restores the
   * stored entries exactly as they were before the POST (only the counter
   * stays advanced), after which GET of that id finds nothing.
   */
  lemma CreateThenDelete(uri: string, title: string, year: int, st: StoreState, maxYear: int)
    requires Invariant(st) && st.currentId < INT_MAX
    requires 0 < |Trim(title)| <= MAX_TITLE_LENGTH && YEAR_OF_START_CINEMA <= year <= maxYear
    ensures var id := st.currentId + 1;
            var s1 := Added(st, Trim(title), year);
            var s2 := Removed(s1, id);
            && Serve(Request("DELETE", "/movies/" + IntToString(id), None, NotAnObject), s1, maxYear)
                 == Result(Send(HTTP_STATUS_NO_CONTENT, NoBody), s2)
            && s2 == StoreState(st.storage, id)
            && Serve(Request("GET", "/movies/" + IntToString(id), None, NotAnObject), s2, maxYear).outcome
                 == Send(HTTP_STATUS_NOT_FOUND, Text(MOVIE_NOT_FOUND_MESSAGE))
  {
    var id := st.currentId + 1;
    var s1 := Added(st, Trim(title), year);
    var s2 := Removed(s1, id);
    RemovedUndoesAdded(st, Trim(title), year);
    DeleteAnswer(id, s1, maxYear, None, NotAnObject);
    GetByIdAnswer(id, s2, maxYear, None, NotAnObject);
  }

  /**
   * Ids are not reused: after a created movie is deleted again, the next
   * POST gets the id after it, although the entries are back to what they
   * were.
   */
  lemma IdNotReusedAfterDelete(uri: string, contentType: Option<string>, title: string, year: int,
                                st: StoreState, maxYear: int)
    requires Invariant(st) && st.currentId + 1 < INT_MAX
    requires contentType.None? || Contains(contentType.value, "application/json")
    requires 0 < |Trim(title)| <= MAX_TITLE_LENGTH && YEAR_OF_START_CINEMA <= year <= maxYear
    ensures var s2 := Removed(Added(st, Trim(title), year), st.currentId + 1);
            Serve(Request("POST", uri, contentType, JsonObject(Some(title), Some(year))), s2, maxYear).outcome
              == Send(HTTP_STATUS_CREATED, MovieJson(Movie(st.currentId + 2, Trim(title), year)))
  {
    var s2 := Removed(Added(st, Trim(title), year), st.currentId + 1);
    RemovedUndoesAdded(st, Trim(title), year);
    ValidPostCreates(uri, contentType, title, year, s2, maxYear);
  }
}
