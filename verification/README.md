# Movie store of go-crud-api, modelled in Dafny

The service keeps its movies in one global slice and serves five routes over it:
list all (`GET /movies`), get one (`GET /movies/{id}`), create (`POST /movies`),
update (`PUT /movies/{id}`) and delete (`DELETE /movies/{id}`). List only returns the
slice. Create only appends. The three handlers that take an id scan the slice from the
front for the first movie whose `ID` matches. Get only reads that movie. Update and delete
splice it out (`append(movies[:i], movies[i+1:]...)`). Update then appends the replacement.

This project states that store logic as pure functions. The store is an explicit
`seq<Movie>` passed in and out. Each handler is a function `(store, inputs) -> Step(store', response)`.

- `movies.dfy` (`Movies`): `Movie`, `Director` (the nil-able pointer becomes `Option`), `Store`.
- `decimal.dfy` (`Decimal`): `strconv.Itoa` for the random draw that becomes a new id. A
  reference parser `Atoi` is its round-trip partner.
- `store.dfy` (`MovieStore`): the first-match scan, as a recursive function and as the
  loop the handlers run, and the splice `RemoveAt`. It also defines the reference predicates
  `NoMatch`, `IsFirstMatch`, `AtMostOne` and `UniqueIds`.
- `handlers.dfy` (`Handlers`): the five handlers, the response forms, the seed data,
  a `Serve` dispatcher over the five routes and `Run` for a sequence of requests.
- `properties.dfy` (`HandlerProperties`): lemmas relating several calls and stating the
  code's quirks. An update moves the record to the end. A malformed update body loses the
  record. Delete removes one duplicate at a time. Ids stay distinct only while the random
  draw avoids ids already in use.

Responses are a small datatype. `MovieList` and `OneMovie` are the JSON-encoded array and
object. `Message` is the `{"message": "Movie not found"}` object, sent with status 200.
`HttpError` is the `http.Error` reply, status 400, carrying the decode error text.

A create body that fails to decode still produces a record: the decode error is discarded
(main.go:57), and the decoder may have filled some fields before failing. So `CreateMovie`
accepts any `Movie`.

## Model

| member | source | states |
|---|---|---|
| `Decimal.Itoa` | main.go:58 | the new id is a non-empty all-digit string with no leading zero unless the draw is 0 |
| `Decimal.AtoiItoa` | main.go:58 | reading the rendered id back as a decimal number gives the draw |
| `Decimal.ItoaInjective` | main.go:58 | two draws give the same id exactly when they are equal |
| `Decimal.ItoaLength` | main.go:58 | a draw below 10^k renders to at most k digits, so ids from `rand.Intn(1_000_000)` have at most six |
| `MovieStore.FirstMatch` | main.go:43-48 | the scan finds nothing exactly when no record has the id; otherwise it returns the lowest index holding the id |
| `MovieStore.ScanFirst` | main.go:91-96 | the range loop with `break` stops at the first index whose record has the id, or reports that none has it; it finds the same index as `FirstMatch` |
| `MovieStore.RemoveAt` | main.go:93 | the splice drops exactly the record at the index: length one less, earlier records in place, later ones shifted down by one, multiset minus that record |
| `MovieStore.FirstMatchIsIndex` | main.go:43-44 | any index meeting the first-match definition is the one the scan returns |
| `MovieStore.RemoveOnlyMatch` | main.go:93 | splicing out the only record with an id leaves no record with it |
| `MovieStore.RemovePreservesUnique` | main.go:70 | splicing out a record keeps ids pairwise distinct |
| `Handlers.Status` | main.go:74 | a response has a non-200 status exactly when it is an error reply carrying a non-200 code |
| `Handlers.GetMovies` | main.go:34-37 | list answers with the whole store in its current order and leaves the store unchanged |
| `Handlers.GetMovie` | main.go:40-51 | get answers "Movie not found" exactly when no record has the id; otherwise it answers with the record at the first match; the store is unchanged |
| `Handlers.CreateMovie` | main.go:54-61 | create makes the store one longer with every earlier record unchanged; the last record keeps the body's isbn, title and director; its id is exactly the decimal rendering `Itoa` of the draw, a digit string of at most six digits that reads back as the draw; the response is that record |
| `Handlers.UpdateMovie` | main.go:64-85 | update with no match leaves the store and answers not-found; with a match at i and a malformed body it leaves `s[..i] + s[i+1..]` and answers 400 with the error; with a parsed body it leaves `s[..i] + s[i+1..]` plus the body with the path id at the end, and answers with that record |
| `Handlers.DeleteMovie` | main.go:88-98 | delete with no match leaves the store unchanged; with a match at i it leaves `s[..i] + s[i+1..]`; the response is always the resulting store |
| `Handlers.Serve` | main.go:109-113 | reads never change the store; only create grows it; it shrinks exactly on a delete hit or an update hit with a malformed body; the only non-200 reply is an update hit with a malformed body |
| `HandlerProperties.DeleteRemovesOne` | main.go:91-96 | a delete hit removes exactly one record, the one at the first match, counted as multisets |
| `HandlerProperties.DeleteIdempotent` | main.go:91-96 | with at most one record per id, deleting twice gives the same store and response as deleting once |
| `HandlerProperties.DeleteRemovesOneDuplicate` | main.go:91-95 | in any store where a later record shares the id of the first match, a delete removes only the first match; the later record survives one place earlier, so a second delete removes another record |
| `HandlerProperties.UpdateMovesToEnd` | main.go:67-80 | in any store with a match, a successful update keeps the length and the others' relative order and puts the replacement with the path id last; when no other record carries the id, a later get also finds that replacement |
| `HandlerProperties.MalformedUpdateLosesRecord` | main.go:70-75 | in any store with a match, a malformed update body answers 400 but the store is already one shorter; when no other record carries the id, a later get of that id also answers not-found |
| `HandlerProperties.DuplicateHidesUpdate` | main.go:67-80 | when a later record shares the id of the first match, it survives an update of either kind; a later get answers with such an old record, not with the replacement and not with not-found |
| `HandlerProperties.AppendFreshPreservesUnique` | main.go:59 | appending a record whose id is not in use keeps ids pairwise distinct |
| `HandlerProperties.ServePreservesUnique` | main.go:58-59 | every handler keeps ids pairwise distinct, provided a create's rendered draw is not already in use |
| `HandlerProperties.RunPreservesUnique` | main.go:109-113 | ids stay pairwise distinct along any run of requests in which no create draws an id already in use |
| `HandlerProperties.SeedUnique` | main.go:105-106 | the two seed records carry distinct ids |
| `HandlerProperties.RunFromSeedKeepsUnique` | main.go:105-113 | starting from the seed store, ids stay pairwise distinct along any run of requests in which no create draws an id already in use |
| `HandlerProperties.CreateCanDuplicateId` | main.go:58-59 | nothing checks a new id for collisions: a draw of 1 against the seed store duplicates id "1" |
| `HandlerProperties.RepeatedGetIsStable` | main.go:43-50 | repeating the same get any number of times leaves the store unchanged and gives the same answer each time |
| `HandlerProperties.SeedScenarios` | main.go:105-106 | on the seed store: the list is ids "1", "2" in that order; get "1" gives John Doe's movie; get "999" is not-found; a malformed update of "1" answers 400 and loses it; a good update of "1" moves it last; deleting "2" twice leaves only "1" |

## Left out

- Routing with gorilla/mux and `mux.Vars` (main.go:42, 66, 90, 102-113): path matching is foreign library code. `Request` carries the extracted path id directly.
- JSON encoding and decoding (main.go:36, 45, 50, 57, 60, 73, 79, 84, 97): foreign library code. An update body arrives as `Parsed(movie)` or `Malformed(error)`. A create body arrives as the `Movie` the decoder produced, since its error is discarded.
- The wire form of the 400 reply: `http.Error` also sets a plain-text content type and appends a newline. The model keeps only the status and the error text.
- Response headers (`Content-Type: application/json`) and writing to the connection: I/O.
- `rand.Intn(1_000_000)` (main.go:58): randomness. The draw is a parameter, required to be below 1,000,000.
- `fmt.Println`, `http.ListenAndServe` and `log.Fatal` (main.go:115-116): process I/O.
- Byte-level ids: Go strings are byte sequences compared bytewise (main.go:44, 68, 92). The model uses `seq<char>`. Handlers only compare ids for equality, so behaviour is the same.
- Concurrency: handlers race on the unsynchronised global slice. The model is sequential, and the store is an explicit value rather than a global.
