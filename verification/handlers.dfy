/** The five request handlers of the movie service, each as a pure step from the store
    and the request's inputs to the next store and the response written back. */
module Handlers {
  import opened Movies
  import opened MovieStore
  import Decimal

  /** Body of the JSON object written when a lookup by id misses. */
  const NotFoundMessage: string := "Movie not found"
  const StatusOK: int := 200
  const StatusBadRequest: int := 400
  /** New ids are drawn from [0, IdRange). */
  const IdRange: nat := 1_000_000

  /** What a handler writes, before JSON encoding. */
  datatype Response =
    | MovieList(movies: seq<Movie>)          // a JSON array of movies
    | OneMovie(movie: Movie)                 // a JSON object for one movie
    | Message(message: string)               // {"message": ...}, sent with status 200
    | HttpError(status: int, error: string)  // plain-text error body with a non-200 status

  /** The HTTP status a response goes out with. */
  function Status(r: Response): (code: int)
    ensures code != StatusOK <==> r.HttpError? && r.status != StatusOK
  {
    if r.HttpError? then r.status else StatusOK
  }

  /** Outcome of decoding an update's request body. */
  datatype Decoded = Parsed(movie: Movie) | Malformed(error: string)

  /** The store after a handler ran, and what it responded. */
  datatype Step = Step(store: Store, response: Response)

  /** The two records the service starts with. */
  const Seed: Store := [
    Movie("1", "438277", "Movie One", Some(Director("John", "Doe"))),
    Movie("2", "277438", "Movie Two", Some(Director("Smith", "Bob")))
  ]

  /** GET /movies: the whole store, in its current order; nothing changes. */
  function GetMovies(s: Store): (r: Step)
    ensures r.store == s
    ensures r.response.MovieList? && r.response.movies == s
  {
    Step(s, MovieList(s))
  }

  /** GET /movies/{id}: the first record carrying `id`, or the not-found message. */
  function GetMovie(s: Store, id: string): (r: Step)
    ensures r.store == s
    ensures r.response.Message? <==> NoMatch(s, id)
    ensures r.response.Message? ==> r.response.message == NotFoundMessage
    ensures !r.response.Message? ==>
              r.response.OneMovie? && exists i :: IsFirstMatch(s, id, i) && s[i] == r.response.movie
  {
    match FirstMatch(s, id)
    case None => Step(s, Message(NotFoundMessage))
    case Some(i) => Step(s, OneMovie(s[i]))
  }

  /** POST /movies: the decoded body gets the id rendered from the random draw, whatever id it
      carried, and is appended at the end. A body that failed to decode arrives here as
      whatever the decoder left behind. */
  function CreateMovie(s: Store, body: Movie, draw: nat): (r: Step)
    requires draw < IdRange
    ensures |r.store| == |s| + 1 && r.store[..|s|] == s
    ensures r.response == OneMovie(r.store[|s|])
    ensures var m := r.store[|s|];
              && m.isbn == body.isbn && m.title == body.title && m.director == body.director
              && m.id == Decimal.Itoa(draw)
              && Decimal.AllDigits(m.id) && Decimal.Atoi(m.id) == draw && 0 < |m.id| <= 6
  {
    var m := body.(id := Decimal.Itoa(draw));
    Decimal.AtoiItoa(draw);
    Decimal.ItoaLength(draw, 6);
    Step(s + [m], OneMovie(m))
  }

  /** PUT /movies/{id}: the first record carrying `id` is removed BEFORE the body is looked at.
      A malformed body then yields status 400 with the record already gone; a parsed body gets
      the path id and is appended at the end. With no record carrying `id` nothing changes. */
  function UpdateMovie(s: Store, id: string, body: Decoded): (r: Step)
    ensures NoMatch(s, id) ==> r == Step(s, Message(NotFoundMessage))
    ensures forall i :: IsFirstMatch(s, id, i) && body.Malformed? ==>
              r == Step(s[..i] + s[i + 1..], HttpError(StatusBadRequest, body.error))
    ensures forall i :: IsFirstMatch(s, id, i) && body.Parsed? ==>
              && r.store == s[..i] + s[i + 1..] + [body.movie.(id := id)]
              && r.response == OneMovie(body.movie.(id := id))
  {
    match FirstMatch(s, id)
    case None => Step(s, Message(NotFoundMessage))
    case Some(i) =>
      var rest := RemoveAt(s, i);
      match body
      case Malformed(e) => Step(rest, HttpError(StatusBadRequest, e))
      case Parsed(m) =>
        var m' := m.(id := id);
        Step(rest + [m'], OneMovie(m'))
  }

  /** DELETE /movies/{id}: only the first record carrying `id` is removed; the response is the
      remaining store, whether or not anything was removed. */
  function DeleteMovie(s: Store, id: string): (r: Step)
    ensures r.response == MovieList(r.store)
    ensures NoMatch(s, id) ==> r.store == s
    ensures forall i :: IsFirstMatch(s, id, i) ==> r.store == s[..i] + s[i + 1..]
  {
    match FirstMatch(s, id)
    case None => Step(s, MovieList(s))
    case Some(i) =>
      var rest := RemoveAt(s, i);
      Step(rest, MovieList(rest))
  }

  /** The five routes, with the path id and the decoded body already extracted. */
  datatype Request =
    | ListMovies                          // GET /movies
    | GetOne(id: string)                  // GET /movies/{id}
    | Create(posted: Movie, draw: nat)    // POST /movies, with the random draw
    | Update(id: string, put: Decoded)    // PUT /movies/{id}
    | Delete(id: string)                  // DELETE /movies/{id}

  /** A create request's draw comes from `rand.Intn(1_000_000)`. */
  predicate WellFormed(req: Request) {
    req.Create? ==> req.draw < IdRange
  }

  /** Route a request to its handler. */
  function Serve(s: Store, req: Request): (r: Step)
    requires WellFormed(req)
    ensures (req.ListMovies? || req.GetOne?) ==> r.store == s
    ensures |r.store| > |s| <==> req.Create?
    ensures |r.store| < |s| <==> (req.Update? || req.Delete?) && !NoMatch(s, req.id)
                                  && !(req.Update? && req.put.Parsed?)
    ensures |s| - 1 <= |r.store| <= |s| + 1
    ensures Status(r.response) != StatusOK <==> req.Update? && req.put.Malformed? && !NoMatch(s, req.id)
  {
    match req
    case ListMovies => GetMovies(s)
    case GetOne(id) => GetMovie(s, id)
    case Create(body, draw) => CreateMovie(s, body, draw)
    case Update(id, body) => UpdateMovie(s, id, body)
    case Delete(id) => DeleteMovie(s, id)
  }

  /** The store and the responses after serving `reqs` one after another. */
  datatype Trace = Trace(store: Store, responses: seq<Response>)

  predicate AllWellFormed(reqs: seq<Request>) {
    forall k :: 0 <= k < |reqs| ==> WellFormed(reqs[k])
  }

  /** Serve a sequence of requests in order, one response per request. */
  function Run(s: Store, reqs: seq<Request>): (t: Trace)
    requires AllWellFormed(reqs)
    ensures |t.responses| == |reqs|
    decreases |reqs|
  {
    if |reqs| == 0 then Trace(s, [])
    else
      var step := Serve(s, reqs[0]);
      var rest := Run(step.store, reqs[1..]);
      Trace(rest.store, [step.response] + rest.responses)
  }
}
