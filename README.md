# Movies hub: store, request handler and error response in Dafny

The movies hub is a small HTTP service for a catalogue of films at the path `/movies`. This project models three parts of it and proves properties about them:

- **`MoviesStore`** is the in-memory table. It holds a `HashMap<Integer, Movie>` and an id counter `currentId`.
  - `Store.StoreState` is its value.
  - `Store.Invariant` is its invariant: each key is the id of the movie stored under it and lies in `1..currentId`, and the counter fits an `int`.
  - `Store.Added` and `Store.Removed` are its transitions.
  - `Store.MoviesStore` is the class. Its methods change the `storage` and `currentId` fields in place, and each one is proved against those functions.
- **`MoviesHandler`** handles the requests.
  - `Http.Serve` states what one request does to a store value. It covers the dispatch on the upper-cased method, id and year extraction with Java's `split` and `Integer.parseInt`, POST validation, and every status and body.
  - `Http.MoviesHandler` performs the same steps on a `MoviesStore` object. `Handle` is proved equal to `Serve`.
  - Runtime exceptions that `handle` does not catch show up as the outcome `Escaped`, and they leave the store unchanged. These are an index past the end of a `split` result, and a POST field that is missing or of the wrong type.
- **`ErrorResponse`** is the body of the 422 answer. Its `error` is a `const`, and its `details` list is a field that `AddDetails` appends to.
  - `GetError` and `GetDetails` read those fields.
  - `IsDetailsEmpty` holds exactly when `details` has length 0.

`JavaStrings` models the parts of `java.lang.String` and `Integer` that the handler relies on:

- `contains`;
- `split` with a one-character delimiter, which drops trailing empty strings;
- `trim`;
- `toUpperCase`;
- `Integer.parseInt` and `Integer.toString`.

`HandlerProperties` proves what the handler promises across requests and for the URI shapes clients send:

- dispatch precedence;
- every error answer;
- ids that strictly increase and are never reused;
- create, read and delete sequences.

Years are checked against `maxYear`, a constant of the handler object. In the program it is the year after the one in which the class was loaded. The range message keeps the fixed text "Year must be between 1888 and 2026", as the program does.

## Model

| member | source | states |
|---|---|---|
| JavaStrings.Contains | src/main/ru/practicum/moviehub/http/MoviesHandler.java:52 | a string contains the empty string, and never a longer one; ContainsIff gives the exact meaning |
| JavaStrings.ContainsIff | src/main/ru/practicum/moviehub/http/MoviesHandler.java:52 | `contains` holds exactly when the substring occurs at some index of the string |
| JavaStrings.ContainsAfterPrefix | src/main/ru/practicum/moviehub/http/MoviesHandler.java:52 | a prefix without the substring's first character neither adds nor hides an occurrence |
| JavaStrings.NotContainsWithoutFirstChar | src/main/ru/practicum/moviehub/http/MoviesHandler.java:52 | a string without the first character of the substring does not contain it |
| JavaStrings.Pieces | src/main/ru/practicum/moviehub/http/MoviesHandler.java:54 | there is at least one piece, and no piece holds the delimiter |
| JavaStrings.PiecesJoin | src/main/ru/practicum/moviehub/http/MoviesHandler.java:54 | the pieces between delimiters lose nothing: joined with the delimiter they give back the string |
| JavaStrings.PiecesCons | src/main/ru/practicum/moviehub/http/MoviesHandler.java:71 | a delimiter-free part followed by the delimiter comes off as the first piece |
| JavaStrings.DropTrailingEmpty | src/main/ru/practicum/moviehub/http/MoviesHandler.java:54 | split's result is a prefix of the pieces, ends in a non-empty piece, and only empty pieces are cut |
| JavaStrings.DropTrailingEmptyKeeps | src/main/ru/practicum/moviehub/http/MoviesHandler.java:54 | a piece list ending in a non-empty piece is kept whole |
| JavaStrings.Split | src/main/ru/practicum/moviehub/http/MoviesHandler.java:54 | split of a string without the delimiter is the string alone. Otherwise it is a prefix of the pieces: it ends in a non-empty piece and drops only empty ones. No element holds the delimiter |
| JavaStrings.SplitTrailingDelimiter | src/main/ru/practicum/moviehub/http/MoviesHandler.java:106 | a single delimiter at the very end gives no second element, so `split("=")[1]` throws |
| JavaStrings.TrimStart | src/main/ru/practicum/moviehub/http/MoviesHandler.java:138 | the result is a suffix; everything cut is blank, and the result starts with a non-blank |
| JavaStrings.TrimEnd | src/main/ru/practicum/moviehub/http/MoviesHandler.java:138 | the result is a prefix; everything cut is blank, and the result ends with a non-blank |
| JavaStrings.Trim | src/main/ru/practicum/moviehub/http/MoviesHandler.java:138 | the trimmed title is the title with only blanks cut from its two ends, and it neither starts nor ends with a blank |
| JavaStrings.TrimEmptyIff | src/main/ru/practicum/moviehub/http/MoviesHandler.java:138-142 | the trimmed title is empty exactly when the title is all blanks |
| JavaStrings.TrimIdempotent | src/main/ru/practicum/moviehub/http/MoviesHandler.java:138 | trimming twice is trimming once |
| JavaStrings.ToUpperCase | src/main/ru/practicum/moviehub/http/MoviesHandler.java:44 | same length; each character is upper-cased on its own |
| JavaStrings.ToUpperCaseIdempotent | src/main/ru/practicum/moviehub/http/MoviesHandler.java:44 | upper-casing an upper-cased method name changes nothing |
| JavaStrings.UpperCharMatches | src/main/ru/practicum/moviehub/http/MoviesHandler.java:44 | a character upper-cases to a letter exactly when it is that letter in either case |
| JavaStrings.ToUpperCaseMatches | src/main/ru/practicum/moviehub/http/MoviesHandler.java:44-48 | a method name matches "POST", "DELETE" or "GET" after upper-casing exactly when each character is the letter in either case |
| JavaStrings.ParseInt | src/main/ru/practicum/moviehub/http/MoviesHandler.java:73 | an accepted text starts with a digit or a sign, continues with digits only and ends in a digit, so a bare sign is refused; the value it gives lies in the `int` range. ParseIntAccepts and ParseIntRefuses give the exact accepted texts and the value |
| JavaStrings.SignedValue | src/main/ru/practicum/moviehub/http/MoviesHandler.java:73 | the value of a sign and a digit run is negative or zero after a minus, and non-negative otherwise |
| JavaStrings.ParseIntAccepts | src/main/ru/practicum/moviehub/http/MoviesHandler.java:73 | every optional sign followed by one or more digits whose signed value fits an `int` is accepted with that value. This includes "+5", "007" and "-0" |
| JavaStrings.ParseIntRefuses | src/main/ru/practicum/moviehub/http/MoviesHandler.java:73 | for an optional sign followed by digits, `parseInt` throws exactly when there are no digits (a bare "+" or "-", or the empty text) or the signed value falls outside the `int` range, so `/movies/99999999999` is a 400 |
| JavaStrings.NatToString | src/main/ru/practicum/moviehub/http/MoviesHandler.java:73 | the decimal text of a natural number is a non-empty run of digits |
| JavaStrings.IntToString | src/main/ru/practicum/moviehub/http/MoviesHandler.java:73 | the decimal text of an integer is non-empty and made of digits and a minus sign |
| JavaStrings.NatToStringValue | src/main/ru/practicum/moviehub/http/MoviesHandler.java:73 | the digits of a natural number read back to that number |
| JavaStrings.ParseIntToString | src/main/ru/practicum/moviehub/http/MoviesHandler.java:73 | `parseInt` inverts `toString` on every `int`, so a URI built from an id reads back that id |
| Store.Lookup | src/main/ru/practicum/moviehub/store/MoviesStore.java:29-31 | the lookup finds a movie exactly when the id is a key; under the invariant, that movie carries the id and is among the listed movies |
| Store.Added | src/main/ru/practicum/moviehub/store/MoviesStore.java:18-23 | the invariant is kept; the counter grows by one; the new movie is stored under the new id; every other entry is unchanged; old keys lie below the new id; the size grows by one |
| Store.Removed | src/main/ru/practicum/moviehub/store/MoviesStore.java:33-35 | the invariant is kept; the counter is unchanged; the id is absent; every other entry is unchanged; the size drops by one exactly when the id was present |
| Store.RemovedUndoesAdded | src/main/ru/practicum/moviehub/store/MoviesStore.java:19-35 | deleting the movie just added restores the entries, while the counter stays advanced |
| Store.AllMovies | src/main/ru/practicum/moviehub/store/MoviesStore.java:25-27 | the listed movies are exactly the stored values, each once |
| Store.MoviesOfYear | src/main/ru/practicum/moviehub/store/MoviesStore.java:37-41 | the filtered movies are exactly the stored values of that year, each once |
| Store.StoredUnderOwnId | src/main/ru/practicum/moviehub/store/MoviesStore.java:21 | under the invariant, a movie is stored exactly when it sits under its own id |
| Store.AllMoviesSize | src/main/ru/practicum/moviehub/store/MoviesStore.java:25-27 | the listed movies number exactly the stored entries, so no movie is listed twice |
| Store.MoviesOfYearFilters | src/main/ru/practicum/moviehub/store/MoviesStore.java:37-41 | the movies of a year are a sub-multiset of all movies: each movie of that year is kept with its multiplicity, and every other movie is dropped |
| Store.MoviesOfYearEmpty | src/main/ru/practicum/moviehub/store/MoviesStore.java:37-41 | an empty store gives no movies for any year |
| Store.MoviesStore.constructor | src/main/ru/practicum/moviehub/store/MoviesStore.java:13-16 | a new store is empty, its counter is 0, and the invariant holds |
| Store.MoviesStore.AddMovie | src/main/ru/practicum/moviehub/store/MoviesStore.java:18-23 | the new state is `Added` of the old one, and the returned movie carries the new counter value, the title and the year |
| Store.MoviesStore.GetMovies | src/main/ru/practicum/moviehub/store/MoviesStore.java:25-27 | every stored movie is returned exactly once, in an unspecified order |
| Store.MoviesStore.GetMovieById | src/main/ru/practicum/moviehub/store/MoviesStore.java:29-31 | returns the movie under the id, which carries that id, or None where Java returns null; nothing changes |
| Store.MoviesStore.DeleteMovie | src/main/ru/practicum/moviehub/store/MoviesStore.java:33-35 | returns true exactly when the id was present; the new state is `Removed` of the old one |
| Store.MoviesStore.GetMoviesByYear | src/main/ru/practicum/moviehub/store/MoviesStore.java:37-41 | returns exactly the stored movies of that year, each once, and all of them have that year |
| Store.MoviesStore.Clear | src/main/ru/practicum/moviehub/store/MoviesStore.java:43-46 | the store is empty with its counter at 0, so the next addition gets id 1 |
| Store.WithYear | src/main/ru/practicum/moviehub/store/MoviesStore.java:38-40 | the filter keeps every movie of the year as often as it occurs and drops all the others |
| Api.ErrorResponse.constructor | src/main/ru/practicum/moviehub/api/ErrorResponse.java:10-13 | the error is the one given, and the details are empty |
| Api.ErrorResponse.GetError | src/main/ru/practicum/moviehub/api/ErrorResponse.java:15-17 | returns the error fixed at construction |
| Api.ErrorResponse.GetDetails | src/main/ru/practicum/moviehub/api/ErrorResponse.java:19-21 | returns the details added so far, in order |
| Api.ErrorResponse.IsDetailsEmpty | src/main/ru/practicum/moviehub/api/ErrorResponse.java:27-29 | holds exactly when no detail is held |
| Api.ErrorResponse.AddDetails | src/main/ru/practicum/moviehub/api/ErrorResponse.java:23-29 | appends exactly the detail at the end; the length grows by one and earlier details are unchanged; afterwards `IsDetailsEmpty` is false |
| Http.Send | src/main/ru/practicum/moviehub/http/BaseHttpHandler.java:23-47 | every response that is sent carries the content type "application/json; charset=UTF-8" |
| Http.RouteOf | src/main/ru/practicum/moviehub/http/MoviesHandler.java:44-61 | the route is fixed by the upper-cased method. POST creates, and DELETE deletes by id. A GET goes by year when the whole URI contains "year"; otherwise by id when the URI splits on '/' into more than 2 parts; otherwise it lists all. Any other method is not routed |
| Http.Element | src/main/ru/practicum/moviehub/http/MoviesHandler.java:73 | `parts[index]` exists exactly when the index is in range, and then it is that element |
| Http.Details | src/main/ru/practicum/moviehub/http/MoviesHandler.java:141-149 | each detail is present exactly when its check fails: an empty title, a title over 100 characters, a year outside 1888..maxYear. No other entry occurs. The list is empty exactly when all checks pass, has at most two entries, and keeps the order of the checks |
| Http.PostReply | src/main/ru/practicum/moviehub/http/MoviesHandler.java:123-163 | the store is unchanged or the movie was created; the answer is 201 exactly when the movie was created under the next id and nothing else changed; the invariant is kept |
| Http.DeleteReply | src/main/ru/practicum/moviehub/http/MoviesHandler.java:70-83 | the counter never changes; the store changes only with a 204 and no body; the status is 204, 400 or 404 |
| Http.ByIdReply | src/main/ru/practicum/moviehub/http/MoviesHandler.java:90-103 | always sent; the status is 200, 400 or 404; it is 200 exactly when the segment parses to a stored id |
| Http.ByYearReply | src/main/ru/practicum/moviehub/http/MoviesHandler.java:105-121 | when sent, the status is 200 or 400, with the JSON content type |
| Http.Serve | src/main/ru/practicum/moviehub/http/MoviesHandler.java:41-68 | the invariant is kept, and the counter grows by at most one. The store changes only with a 201 or a 204, and never on a GET or an unknown method. A 201 means a movie was created under the next id. Every sent answer carries the JSON content type. Only a request routed to creation needs room in the counter |
| Http.MoviesHandler.constructor | src/main/ru/practicum/moviehub/http/MoviesHandler.java:35-38 | the handler shares the given store and fixes the year bound |
| Http.MoviesHandler.Handle | src/main/ru/practicum/moviehub/http/MoviesHandler.java:41-68 | the outcome and the new store are exactly those of `Serve` on the old store |
| Http.MoviesHandler.CallDeleteMovie | src/main/ru/practicum/moviehub/http/MoviesHandler.java:70-83 | the outcome and the new store are those of `DeleteReply` |
| Http.MoviesHandler.CallGetMovies | src/main/ru/practicum/moviehub/http/MoviesHandler.java:85-88 | 200 with exactly the stored movies |
| Http.MoviesHandler.CallGetMovieById | src/main/ru/practicum/moviehub/http/MoviesHandler.java:90-103 | the outcome is `ByIdReply` for the current store |
| Http.MoviesHandler.CallGetMoviesByYear | src/main/ru/practicum/moviehub/http/MoviesHandler.java:105-121 | the outcome is `ByYearReply` for the current store |
| Http.MoviesHandler.Validate | src/main/ru/practicum/moviehub/http/MoviesHandler.java:141-149 | the error response gains exactly `Details` of the title and year, in order, after what it held |
| Http.MoviesHandler.CallPostMethod | src/main/ru/practicum/moviehub/http/MoviesHandler.java:123-163 | the outcome and the new store are those of `PostReply` |
| HandlerProperties.RouteIgnoresCase | src/main/ru/practicum/moviehub/http/MoviesHandler.java:44 | the route does not depend on the case of the method name |
| HandlerProperties.UpperWordUnchanged | src/main/ru/practicum/moviehub/http/MoviesHandler.java:45-51 | the method names in the switch are already upper case |
| HandlerProperties.RouteGet | src/main/ru/practicum/moviehub/http/MoviesHandler.java:51-59 | a GET goes to by-year when the whole URI contains "year"; otherwise to by-id when it splits into more than 2 parts; otherwise to list-all |
| HandlerProperties.RoutePost | src/main/ru/practicum/moviehub/http/MoviesHandler.java:45-47 | a POST is a creation whatever the path |
| HandlerProperties.RouteDelete | src/main/ru/practicum/moviehub/http/MoviesHandler.java:48-50 | a DELETE is a delete-by-id whatever the path |
| HandlerProperties.PathPieces | src/main/ru/practicum/moviehub/http/MoviesHandler.java:54 | `/<name>` falls into an empty piece and the name |
| HandlerProperties.ItemPathPieces | src/main/ru/practicum/moviehub/http/MoviesHandler.java:54 | `/<name>/<rest>` falls into an empty piece, the name and the rest |
| HandlerProperties.SplitCollectionPath | src/main/ru/practicum/moviehub/http/MoviesHandler.java:54 | `/<name>` and `/<name>/` split alike, into 2 parts |
| HandlerProperties.SplitItemPath | src/main/ru/practicum/moviehub/http/MoviesHandler.java:54 | `/<name>/<segment>` splits into 3 parts, the segment last |
| HandlerProperties.SplitMovies | src/main/ru/practicum/moviehub/http/MoviesHandler.java:54 | `/movies` and `/movies/` both split into `["", "movies"]` |
| HandlerProperties.MoviesPathHasNoYear | src/main/ru/practicum/moviehub/http/MoviesHandler.java:52 | neither `/movies` nor `/movies/` contains "year" |
| HandlerProperties.ListAllUris | src/main/ru/practicum/moviehub/http/MoviesHandler.java:51-58 | a GET of `/movies` or `/movies/` lists everything |
| HandlerProperties.SplitIdUri | src/main/ru/practicum/moviehub/http/MoviesHandler.java:71 | the id segment of `/movies/<segment>` is element 2 of the split |
| HandlerProperties.ByIdUri | src/main/ru/practicum/moviehub/http/MoviesHandler.java:51-55 | a GET of `/movies/<segment>` goes to get-by-id, unless the segment contains "year" |
| HandlerProperties.SplitYearUri | src/main/ru/practicum/moviehub/http/MoviesHandler.java:106 | the raw year of `/movies?year=<raw>` is element 1 of the split on '=' |
| HandlerProperties.YearQueryMentionsYear | src/main/ru/practicum/moviehub/http/MoviesHandler.java:52 | every URI starting `/movies?year` contains "year" |
| HandlerProperties.ByYearUri | src/main/ru/practicum/moviehub/http/MoviesHandler.java:52-53 | a GET of `/movies?year=<raw>` goes to by-year with `raw` as the year text |
| HandlerProperties.InvalidIdOnGet | src/main/ru/practicum/moviehub/http/MoviesHandler.java:90-101 | a GET whose id segment does not mention "year" and is refused by `parseInt` is answered 400 "No valid ID: " plus the segment, and the store is unchanged |
| HandlerProperties.InvalidIdOnDelete | src/main/ru/practicum/moviehub/http/MoviesHandler.java:70-81 | a DELETE whose id segment `parseInt` refuses is answered 400 "No valid ID: " plus the segment, and the store is unchanged |
| HandlerProperties.QuerySuffixIsInvalidId | src/main/ru/practicum/moviehub/http/MoviesHandler.java:91-101 | a query without '/' after an id (as in `/movies/5?x=1` or `/movies/5?sort=yes`) stays in the segment, and the request is a 400, not a lookup, unless the query mentions "year"; whatever the Content-Type and body |
| HandlerProperties.GetByIdAnswer | src/main/ru/practicum/moviehub/http/MoviesHandler.java:90-99 | GET of `/movies/<id>` for any `int` id, negative ones included, and whatever the Content-Type and body, answers 200 with the stored movie, or 404 "Movie not found"; the store is unchanged |
| HandlerProperties.DeleteAnswer | src/main/ru/practicum/moviehub/http/MoviesHandler.java:70-79 | DELETE of `/movies/<id>` for any `int` id, whatever the Content-Type and body, answers 204 with no body and removes the entry when present; otherwise 404 with no body and no change |
| HandlerProperties.DeleteTwice | src/main/ru/practicum/moviehub/store/MoviesStore.java:33-35 | the first delete of an id answers 204 and the second 404, because `remove` finds nothing the second time; a GET afterwards answers "Movie not found" |
| HandlerProperties.DeleteWithoutIdEscapes | src/main/ru/practicum/moviehub/http/MoviesHandler.java:71-73 | DELETE `/movies` throws from the split index, sends nothing and changes nothing |
| HandlerProperties.ByYearReplyAnswer | src/main/ru/practicum/moviehub/http/MoviesHandler.java:105-117 | the year is read back from the URI: 200 with the movies of that year inside 1888..maxYear, otherwise 400 "No valid Year must be between 1888 and 2026" |
| HandlerProperties.ByYearAnswer | src/main/ru/practicum/moviehub/http/MoviesHandler.java:105-117 | GET `/movies?year=<y>` answers 200 with exactly the stored movies of year y when 1888 <= y <= maxYear, bounds included; otherwise 400 with the range message; the store is unchanged |
| HandlerProperties.UnparsableYearReply | src/main/ru/practicum/moviehub/http/MoviesHandler.java:118-119 | a year text that `parseInt` refuses is answered 400 "No valid year:" plus the text |
| HandlerProperties.UnparsableYearIsBadRequest | src/main/ru/practicum/moviehub/http/MoviesHandler.java:105-120 | GET `/movies?year=<raw>` with an unparsable raw is answered 400 "No valid year:" plus raw, and the store is unchanged |
| HandlerProperties.YearWithoutValueEscapes | src/main/ru/practicum/moviehub/http/MoviesHandler.java:106-108 | a GET whose URI mentions "year" and has no '=' at all, or a single '=' at its very end, throws from the split index, sends nothing and changes nothing |
| HandlerProperties.UnknownMethodNotFound | src/main/ru/practicum/moviehub/http/MoviesHandler.java:60-61 | any other method, in any case, is answered 404 "Resource not found", and the store is unchanged |
| HandlerProperties.WrongContentTypeRejected | src/main/ru/practicum/moviehub/http/MoviesHandler.java:125-128 | a Content-Type without "application/json" gets 415 "Unsupported Media Type" whatever the body, and the store is unchanged |
| HandlerProperties.MalformedBodyRejected | src/main/ru/practicum/moviehub/http/MoviesHandler.java:133-135 | with no Content-Type or one containing "application/json", a body that is not JSON, or is not an object, gets 422 "Unprocessable Content", and the store is unchanged |
| HandlerProperties.BlankTitleIsEmpty | src/main/ru/practicum/moviehub/http/MoviesHandler.java:138-146 | an all-blank title is reported as empty, never as too long |
| HandlerProperties.JsonContentTypeAccepted | src/main/ru/practicum/moviehub/http/BaseHttpHandler.java:15 | the content type the server itself sends passes the POST check |
| HandlerProperties.InvalidFieldsRejected | src/main/ru/practicum/moviehub/http/MoviesHandler.java:125-154 | a POST that breaks a rule, with no Content-Type or one containing "application/json", is answered 422 with "No valid data" and every applicable detail; no id is used |
| HandlerProperties.BothViolationsReported | src/test/ru/practicum/moviehub/http/MoviesApiTest.java:429-463 | a title over 100 characters and a year past the bound get both details, the title first, whenever the Content-Type is absent or accepted |
| HandlerProperties.ValidPostCreates | src/main/ru/practicum/moviehub/http/MoviesHandler.java:125-158 | a valid POST, with no Content-Type or one containing "application/json", answers 201 with the trimmed title under the next id, and the new store is `Added` of the old one |
| HandlerProperties.PostThenGet | src/main/ru/practicum/moviehub/http/MoviesHandler.java:156-158 | after a valid POST, a GET of the new id returns the movie the POST answered with |
| HandlerProperties.Run | src/main/ru/practicum/moviehub/http/MoviesHandler.java:41-68 | serving a sequence keeps the invariant, gives one outcome per request, and grows the counter by at most one per request |
| HandlerProperties.CreatedIdOfServe | src/main/ru/practicum/moviehub/store/MoviesStore.java:19-20 | a request reports a created id only when it is the next one, and the counter then stands at it |
| HandlerProperties.IdsStrictlyIncrease | src/main/ru/practicum/moviehub/store/MoviesStore.java:18-35 | across any request sequence, including failed POSTs and deletions, the created ids strictly increase and lie above every earlier id and at or below the final counter |
| HandlerProperties.EmptyStoreListsNothing | src/test/ru/practicum/moviehub/http/MoviesApiTest.java:47-73 | a fresh store answers GET `/movies` with 200 and an empty array |
| HandlerProperties.CreateThenDelete | src/main/ru/practicum/moviehub/store/MoviesStore.java:18-35 | deleting the movie a POST just created answers 204 and restores the entries; the counter stays advanced, and a GET of the id then gets 404 |
| HandlerProperties.IdNotReusedAfterDelete | src/main/ru/practicum/moviehub/store/MoviesStore.java:19-35 | after a created movie is deleted, the next POST (with any accepted Content-Type) gets the id after it, not the freed one |

## Left out

- Transport is not part of this model: `HttpExchange` reading and writing, header handling, body streams, the response length -1, and `MoviesServer` (port binding, start and stop, console output).
- Of the transport, only two facts are kept:
  - every response carries the fixed content type;
  - the status and body are abstract values (`Http.Body`).
- The `IOException` catch that answers 400 with no body is left out. It depends on a transport failure.
- Gson is left out.
  - POST bodies arrive already decoded as `Http.JsonBody`: a syntax error, a non-object, or an object with optional `title` and `year`.
  - A field whose `getAsString`/`getAsInt` would throw is `None`, and it leads to `Escaped(InvalidField)`.
  - Responses are abstract `Body` values rather than JSON text.
- `ResponseException` is not a separate type. A thrown-and-caught exception is the `Sent` answer with its status and message.
- `LocalDate.now()` reads the clock. It is replaced by the handler constant `maxYear`, with `maxYear >= 1888`.
- Concurrency is left out. The server may run handlers on several threads over an unsynchronised `HashMap`, but the model is sequential.
- `HashMap` iteration order is left out. List answers are multisets, and `GetMovies` visits the keys in an unspecified order.
- `int` overflow of `currentId` after 2^31-1 additions is excluded by a precondition. `Serve`, `MoviesHandler.Handle` and the POST lemmas require `currentId < INT_MAX` before a request that is routed to creation. Other requests need only the invariant.
- HandlerProperties.IdNotReusedAfterDelete: requires `currentId + 1 < INT_MAX`, because it makes two POSTs.
- HandlerProperties.Run: requires room in the counter for one POST per request.
- HandlerProperties.IdsStrictlyIncrease: requires room in the counter for one POST per request.
- The `java.lang.String` operations are modelled on `seq<char>` and only for ASCII:
  - `toUpperCase` maps only a-z;
  - `parseInt` accepts only ASCII digits, not the other Unicode digits that `Character.digit` accepts;
  - a title's length is its number of characters, not UTF-16 code units.
- `getDetails` returns the live list in Java. The model returns its value, so aliasing through the returned list is not modelled.
- The `Movie` record is not part of this model. It is used as a plain value `(id, title, year)`.
- `MoviesServer.clearMovieStore` is only a pass-through to `MoviesStore.clear`, which is modelled as `Store.MoviesStore.Clear`.
- The URI lemmas state their facts for the path `/movies`, or for any collection name, because the handler never checks the first path segment.
