# Room directory of go-ws-sample, in Dafny

A model of the core of `go-ws-sample`, a small Go web/websocket sample
service, with proofs about it:

- the in-memory room directory `RoomsAccess` (`Find`, `Get`, `Create`,
  `Delete`) over an ordered sequence of rooms, with an abstract identifier
  generator;
- the identifier value object (`ParseID`, `ID.Validate`, `ID.String`) and the
  ULID generator seen only as a fallible source of 26-character identifiers;
- the four room use cases (list, get, create, delete), which forward to the
  store's reader or writer capability;
- the error sentinels, with Go's error wrapping and `errors.Is`;
- the `Authorization` header parser: a restricted form of HTTP Basic
  authentication (section 2 of RFC 7617) on top of standard padded base64
  (section 4 of RFC 4648), decoded the way Go's `base64.StdEncoding` does;
- the pure decisions inside the recovery middleware: redacting
  `Authorization` lines from the request dump, and choosing the status code
  and message from the errors a handler recorded;
- the logger configuration: level and format names, the range-guarded
  options and the order in which they are applied;
- the generic pointer helpers `ToPointer` and `Deref`.

Layout, one module per file: `wrappers.dfy` (`Option`, `Result`),
`strings.dfy` (Go's `strings.Index`, `Split`, `SplitN(…, 2)`, `Join`,
`TrimSpace`), `errors.dfy`, `entity.dfy`, `ulid.dfy`, `ports.dfy`,
`dummy_rooms.dfy`, `interactors.dfy`, `base64.dfy`, `auth.dfy`,
`recovery.dfy`, `logging.dfy`, `pointers.dfy`, and `scenarios.dfy`, which
runs the use cases against the in-memory store.

Modelling choices:

- The store is a `seq<Room>`. `Create` and `Delete` return the next
  sequence. Each call is one atomic step, as the read/write lock makes it.
- The identifier generator is a parameter: `Create` receives the outcome of
  its single call to `Generate`, as a `Result<ID, Error>`.
- A capability is a record of functions over an abstract store state. A
  reader's functions return no state, so the list and get use cases, which
  hold only a reader, cannot change the store.
- Go errors are `Sentinel(kind)`, `Wrapped(context, cause)` (for
  `fmt.Errorf("…: %w", err)`) or `Other(text)`. `errors.Is` holds when the
  root of the wrap chain is that sentinel.
- The header is a string (`seq<char>`). Decoded credentials are bytes
  (`seq<byte>`). The user and password are compared and split as bytes, as
  Go does on the decoded text.
- The recovery middleware is two pure functions. `RedactHeaders` works on
  the dump text. `ErrorResponse` works on the recorded `gin` errors, each
  with its 64-bit type mask.

## Model

| member | source | states |
|---|---|---|
| DummyRooms.Reader | adapter/dummy/room.go:14-17 | the store serves as a reader: its find and get are the store's `Find` and `Get` on every state and input |
| DummyRooms.Writer | adapter/dummy/room.go:14-17 | the store serves as a writer: its create and delete are the store's `Create`, with the generator's outcome, and `Delete` |
| DummyRooms.Manager | adapter/dummy/room.go:14-17 | one store gives both capabilities, each operation being the store's own |
| DummyRooms.Find | adapter/dummy/room.go:31-37 | never fails and returns exactly the stored rooms in insertion order; it returns no new state, so the store is unchanged |
| DummyRooms.Get | adapter/dummy/room.go:39-50 | fails exactly when no room carries the identifier, and then with the not-found sentinel; otherwise returns the first room, in sequence order, carrying it |
| DummyRooms.Create | adapter/dummy/room.go:52-70 | generator failure: store unchanged, and the error wrapped as `failed to generate id`; success: exactly one room appended at the end with the generated identifier, the input name and description, earlier rooms unchanged, and that room returned |
| DummyRooms.Without | adapter/dummy/room.go:76-78 | a room is kept exactly when it was stored and does not carry the identifier; the result is never longer |
| DummyRooms.Delete | adapter/dummy/room.go:72-81 | always succeeds; removes every room carrying the identifier and keeps every other room; with no match the store is unchanged |
| DummyRooms.NoMatchKeepsAll | adapter/dummy/room.go:76-78 | removing an identifier nobody carries gives back the same sequence |
| DummyRooms.WithoutAppend | adapter/dummy/room.go:76-78 | removal distributes over concatenation, so the survivors keep their relative order |
| DummyRooms.DeleteIdempotent | adapter/dummy/room.go:76-78 | deleting the same identifier twice leaves the same store as deleting it once |
| DummyRooms.GetAfterDelete | adapter/dummy/room.go:42-49 | after deleting an identifier, getting it fails with the not-found sentinel |
| DummyRooms.DeleteKeepsOthers | adapter/dummy/room.go:42-49 | deleting one identifier does not change what getting any other identifier returns |
| DummyRooms.DeleteRemovesAtMostOne | adapter/dummy/room.go:76-78 | with unique identifiers, deletion removes exactly one room when the identifier is stored, and at most one in any case |
| DummyRooms.UniqueWithout | adapter/dummy/room.go:76-78 | removal keeps identifiers unique |
| DummyRooms.DeletePreservesUnique | adapter/dummy/room.go:72-81 | deletion keeps identifiers unique |
| DummyRooms.CreateThenGet | adapter/dummy/room.go:60-65 | round trip: a room created under an identifier nobody carries is what getting that identifier returns, with the requested name and description |
| DummyRooms.DuplicateIdShadowsNewRoom | adapter/dummy/room.go:65 | there is no duplicate check: created under an identifier already stored, the new room is hidden, and getting the identifier still returns the older room |
| DummyRooms.CreatePreservesUnique | adapter/dummy/room.go:60-65 | creating under a fresh identifier keeps identifiers unique |
| DummyRooms.ListAfterTwoCreates | adapter/dummy/room.go:31-37 | from an empty store, two creates then a find list exactly the two new rooms, in creation order |
| Entity.Validate | entity/id.go:22-27 | reports an error exactly for the empty identifier, and that error is `empty` |
| Entity.IdString | entity/id.go:18-20 | the text is the identifier's own string: converting it back gives the same identifier |
| Entity.ParseId | entity/id.go:10-16 | fails exactly on the empty string, returning the empty identifier and the validation error wrapped as `invalid id`; any other string gives the identifier of exactly that string, which validates |
| Entity.ParseIdString | entity/id.go:10-20 | round trip: parsing any non-empty text succeeds, and printing the identifier gives the text back |
| Entity.StringParseId | entity/id.go:10-20 | round trip: printing a valid identifier and parsing the text gives the same identifier, with no error |
| Ulid.Generate | adapter/id/ulid.go:19-21 | a freshly made 26-character token always parses, so generation succeeds with a valid identifier holding exactly that token |
| Interactors.ListRooms | usecase/interactor/list_rooms.go:32-41 | calls the reader's find with the empty input; a store error is returned unchanged with no output; on success the rooms are the store's, in the same order |
| Interactors.GetRoom | usecase/interactor/get_room.go:33-44 | asks the reader for the same identifier; a store error, not-found included, is returned unchanged; on success the room is the one the reader returned |
| Interactors.CreateRoom | usecase/interactor/create_room.go:34-46 | the name and description reach the writer unchanged, whatever they are; the next store state is the writer's; a store error is returned unchanged; on success the room is the one the writer returned |
| Interactors.DeleteRoom | usecase/interactor/delete_room.go:33-42 | the identifier reaches the writer unchanged; a store error is returned unchanged; on success the output holds no room |
| Scenarios.ListRoomsOnStore | usecase/interactor/list_rooms.go:32-41 | listing through the store's reader returns every stored room, in order |
| Scenarios.GetMissingRoomIsNotFound | usecase/interactor/get_room.go:33-44 | getting an identifier nobody carries fails with the not-found sentinel, which the middleware answers with 404 `Not Found` |
| Scenarios.CreateThenGetRoom | usecase/interactor/create_room.go:34-46 | round trip through the use cases: with a fresh identifier, the created room is exactly the identifier, name and description, and getting it afterwards returns it |
| Scenarios.CreateRoomGeneratorFails | adapter/dummy/room.go:56-59 | through the create use case, a failing generator leaves the store unchanged and surfaces the wrapped generator error, whose root is the generator's error |
| Scenarios.DeleteThenGetRoom | usecase/interactor/delete_room.go:33-42 | deleting always succeeds with no room in the output, even when nothing matched, and the identifier is gone afterwards |
| Scenarios.AuthErrorIsUnauthorized | controller/web/middlewares/recovery.go:69-86 | an authentication error, recorded as public, is answered with 401 and the error's own text, which ends with the text of its sentinel |
| Scenarios.AuthFailureIsUnauthorized | controller/web/middlewares/recovery.go:76-78 | every failure of the header parser, recorded as public, is answered with 401 and the error's own text |
| Errors.Message | adapter/dummy/room.go:58 | a sentinel prints the text it was created with; a wrapped error prints its context, then `: `, then its cause's text; any other error prints its own text |
| Errors.MessageEndsWithRoot | entity/id.go:13 | wrapping only puts context in front: the text of a wrap chain ends with the text of its innermost error |
| Errors.MessageEndsWithKind | usecase/errors.go:5-9 | the text of an error whose chain ends in a sentinel ends with that sentinel's own text |
| Errors.Is | controller/web/handlers/auth.go:42-59 | `errors.Is` holds exactly when the innermost error of the wrap chain is that sentinel |
| Auth.IsAuthError | controller/web/handlers/auth.go:42-59 | true exactly when the root of the error is one of the five sentinels: no value, invalid value, unsupported type, no user, invalid credential |
| Auth.AuthErrorText | controller/web/middlewares/recovery.go:76-78 | the text the middleware sends for an authentication error ends with the text of its sentinel, however deeply it is wrapped |
| Auth.BasicAuthInfo | controller/web/handlers/auth.go:61-82 | every failure is the invalid-value sentinel; a success has a non-empty user and password without `:`, and the credential decodes to exactly `user:password` |
| Auth.BasicAuthComplete | controller/web/handlers/auth.go:63-81 | conversely, a credential that decodes to `user:password`, both non-empty and without `:`, is accepted with exactly that user and password |
| Auth.GetAuthInfo | controller/web/handlers/auth.go:22-40 | fails with the no-value sentinel exactly on the empty header; a header without a space gives the invalid-value sentinel; the split is at the first space, the unsupported-type sentinel comes exactly when the trimmed scheme is not `Basic`, and `Basic` hands the trimmed rest to the credential decoder; every failure is an authentication error |
| Auth.BasicRoundTrip | controller/web/handlers/auth.go:32-38 | `Basic ` followed by the base64 encoding of `user:password` parses to that user and password, for every non-empty user and password without `:` |
| Auth.EncodedNotSpace | controller/web/handlers/auth.go:33 | no character of a base64 encoding is white space, so trimming leaves an encoded credential intact |
| Base64.Encode | controller/web/handlers/auth.go:63 | reference encoder of section 4 of RFC 4648, not code of the repository: the inverse the decoder is proved against; four characters for every three bytes, rounded up, only alphabet and padding characters |
| Base64.DecodeString | controller/web/handlers/auth.go:63-67 | `base64.StdEncoding.DecodeString`: once line breaks are stripped, a successful decoding needs a whole number of four-character quanta and gives three bytes per quantum, less at most two for padding; a failure is the decoding error |
| Base64.DecodeQuanta | controller/web/handlers/auth.go:63 | a successful decoding consumes whole quanta, three bytes per quantum less at most two |
| Base64.DecodeQuantum | controller/web/handlers/auth.go:63 | a quantum decodes to one to three bytes, three exactly when it is not padded, and only the last quantum may be padded |
| Base64.DecodeEncode | controller/web/handlers/auth.go:63 | decoding the standard padded encoding of any bytes gives the bytes back |
| Base64.DecodeQuantaEncode | controller/web/handlers/auth.go:63 | decoding the quanta of an encoding, with no line breaks to strip, gives the bytes back |
| Base64.StripLineBreaks | controller/web/handlers/auth.go:63 | the decoder's input has no carriage return or line feed left, and text without them is unchanged |
| Base64.StripLineBreaksChar | controller/web/handlers/auth.go:63 | a single character is dropped exactly when it is a carriage return or a line feed |
| Base64.StripLineBreaksAppend | controller/web/handlers/auth.go:63 | stripping distributes over concatenation, so with the single-character case every other character is kept, in order |
| Base64.LineBreakIgnored | controller/web/handlers/auth.go:63 | a carriage return or line feed anywhere in the input does not change what `DecodeString` returns |
| Strings.JoinEnds | controller/web/middlewares/recovery.go:40 | `strings.Join` starts with the first piece, followed by the separator when there are more, and ends with the last piece |
| Strings.Split | controller/web/middlewares/recovery.go:33 | `strings.Split` yields at least one piece, joining the pieces with the separator gives the input back, and no piece contains the separator |
| Strings.SplitJoin | controller/web/middlewares/recovery.go:33-40 | splitting a join gives the pieces back, when no piece contains the separator and the separator cannot overlap itself |
| Strings.SplitFirst | controller/web/handlers/auth.go:27-30 | `strings.SplitN(s, sep, 2)` yields one piece exactly when the separator is absent |
| Strings.SplitFirstOf | controller/web/handlers/auth.go:27 | the split is at the first occurrence: a prefix without the separator comes out as the first piece |
| Strings.TrimSpace | controller/web/handlers/auth.go:32-33 | the result is a slice of the input with only white space cut from the two ends, and neither end of the result is white space |
| Strings.SpaceEnd | controller/web/handlers/auth.go:32-33 | the scan from the left stops at the first character that is not white space, or at the end |
| Strings.SpaceStart | controller/web/handlers/auth.go:32-33 | the scan from the right stops just after the last character that is not white space, or at the lower bound |
| Strings.TrimSpaceNoop | controller/web/handlers/auth.go:32-33 | a string whose two ends are not white space is its own trim |
| Recovery.RedactLine | controller/web/middlewares/recovery.go:35-38 | a line whose text before its first `:` is exactly `Authorization` becomes `Authorization: *`; every other line is unchanged |
| Recovery.RedactHeaders | controller/web/middlewares/recovery.go:33-40 | the dump keeps its number of `\r\n`-separated lines; each line is its redaction |
| Recovery.RedactIdempotent | controller/web/middlewares/recovery.go:35-38 | redacting twice is redacting once |
| Recovery.ByType | controller/web/middlewares/recovery.go:65-69 | for every type but the all-ones mask, `ByType` keeps exactly the recorded errors whose mask shares a bit with the type |
| Recovery.Filter | controller/web/middlewares/recovery.go:65 | `ByType` keeps exactly the recorded errors whose mask shares a bit with the type |
| Recovery.FilterHead | controller/web/middlewares/recovery.go:65-69 | the filtered list is non-empty exactly when an error of the type is recorded, and its head is the first such error |
| Recovery.StatusText | controller/web/middlewares/recovery.go:81-83 | `http.StatusText` for the five codes the middleware can choose: 400 `Bad Request`, 401 `Unauthorized`, 404 `Not Found`, 409 `Conflict`, 500 `Internal Server Error`; other codes are outside the model |
| Recovery.PublicResponse | controller/web/middlewares/recovery.go:69-86 | not-found gives 404 `Not Found`; otherwise already-exists gives 409 `Conflict`; otherwise an authentication error gives 401 with its own text; anything else gives 400 `Bad Request` |
| Recovery.ErrorResponse | controller/web/middlewares/recovery.go:65-87 | the first bind error wins, with 400 and its own text; without one, the first public error decides; nothing is written exactly when neither kind is recorded |
| Recovery.Recover | controller/web/middlewares/recovery.go:21-88 | a crash aborts with 500 and records nothing; a broken connection, which is always a network error, records that error as private and aborts without a status; without a panic nothing is aborted by status; the JSON response is chosen from the handler's errors |
| Recovery.PrivateErrorIgnored | controller/web/middlewares/recovery.go:59 | recording one more private error never changes the chosen response |
| Recovery.PanicErrorAsWritten | controller/web/middlewares/recovery.go:41-46 | as written: an error value is kept; any other panic value becomes an error whose text is `<nil>` |
| Recovery.PanicError | controller/web/middlewares/recovery.go:41-46 | as intended: an error value is kept; any other value keeps its own text |
| Recovery.PanicTextLost | controller/web/middlewares/recovery.go:44-45 | for `panic("boom")` the written and the intended conversions give different texts |
| Logging.LevelString | util/logging.go:37-57 | Debug, Info, Warn and Error (-1 to 2) print as `debug`, `info`, `warn`, `error`; every other value prints as the empty string |
| Logging.ParseLevel | util/logging.go:66-77 | as written: `debug`, `warn` and `error` all give Debug; every other string, `info` included, gives Info |
| Logging.ParseLevelLosesWarnAndError | util/logging.go:72-75 | parsing the names of Warn and Error gives Debug |
| Logging.ParseLevelIntended | util/logging.go:66-77 | as intended: the result is one of the four levels, and either the string is that level's name or the level is Info |
| Logging.ParseLevelIntendedRoundTrip | util/logging.go:44-57 | the intended parser inverts printing on every level |
| Logging.FormatString | util/logging.go:88-95 | `console` exactly for Console; `json` for every other value |
| Logging.ParseFormat | util/logging.go:79-86 | `console` gives Console; every other string gives JSON |
| Logging.FormatRoundTrip | util/logging.go:61-64 | parsing a printed format gives back JSON and Console |
| Logging.Apply | util/logging.go:108-126 | a level option sets the level only when it is within -1 to 2, and a format option sets the format only when it is 0 or 1; otherwise the configuration is unchanged, and neither option touches the other field |
| Logging.Fold | util/logging.go:166-168 | no options leave the configuration as it was, and folding keeps a level and a format that start in range in range |
| Logging.FoldSnoc | util/logging.go:166-168 | the options are applied left to right: one more option is applied to the result of the rest |
| Logging.FoldLastWins | util/logging.go:166-168 | folding left to right equals taking the last in-range option of each kind, or the starting value when there is none |
| Logging.Configure | util/logging.go:163-168 | the configuration starts at Info and JSON, and the last in-range option of each kind wins |
| Pointers.Deref | util/pointer.go:7-12 | nil gives the default; a non-nil pointer gives its value, whatever the default |
| Pointers.ToPointer | util/pointer.go:3-5 | never nil, and dereferencing it gives the value back, whatever the default |

## Left out

- The read/write mutex of `RoomsAccess` and the unused `context.Context`
  parameters. Concurrency is not modelled: each call is one atomic step.
- Pointer aliasing of `*Room` between the store and its callers. No code
  changes a room after it is created, so rooms are immutable values.
- The `Messages` and `Users` fields of a room. They are never set anywhere
  in the core.
- The ULID itself: the timestamp, the randomness and the base32 text. The
  generator is a parameter of `Create`.
- Ulid.Generate: the 26-character length of a token is a precondition taken
  from the library's format, not derived.
- `errors.Is` through `Unwrap() []error`, custom `Is` methods and
  `errors.Join`. The core uses neither; only single `%w` wrapping is modelled.
- Recovery.Recover: the broken-pipe test, the request dump, the logging and
  `gin.IsDebugging` are left out. The test inspects `*net.OpError` and
  `*os.SyscallError`, so its answer is given as the kind of panic: a
  `BrokenConnection` always carries an error, since only a network error
  can pass the test. The dump is given as text.
  Logging is I/O and does not affect the outcome.
- Recovery.Recover: gin's handling of a JSON response written after
  `AbortWithStatus(500)` has already written the status is not modelled. The
  outcome reports both the status and the chosen response.
- Recovery.ByType: the contract says nothing about the all-ones mask, for
  which the list is returned unchanged. The middleware never asks for it.
- Recovery.StatusText: only the five codes the middleware can choose (400,
  401, 404, 409, 500) carry their text; every other code, which Go's
  `http.StatusText` also names, gives the empty text in this model.
- Recovery.PanicError: the intended conversion keeps a panic's text as it
  is. The source passes that text to `fmt.Errorf` as the format string, so
  a `%` in it would be read as a formatting verb; this is not modelled.
- Go's `unicode.IsSpace` is the character list; Go's handling of invalid
  UTF-8 in `TrimSpace` is not modelled, because strings are sequences of
  characters rather than bytes. The decoded credential is split as bytes,
  as in Go.
- The logger back ends: zap and stdr construction, the conversion to a zap
  level (the numbers are the same), `Begin` timing, `FromContext` and the
  global logger. These are I/O, wall-clock time and global state.
- `NewLoggerStdImplWithOption` returns a zap-typed wrapper around the stdr
  logger. This is part of the back ends above.
- The HTTP handlers, binding, routes and server, and the other middlewares.
  These are HTTP plumbing; the request length limits are struct tags
  enforced by a validation library outside the repository.
- The `cmd` programs: CLI wiring, websocket networking, goroutines and
  sleeps.

## Findings

| source | as written | input that shows it | evidently intended | confidence | as-written member | corrected member |
|---|---|---|---|---|---|---|
| controller/web/middlewares/recovery.go:42-46 | a panic value that is not an error is formatted through `_pErr`, the failed type assertion's nil error | `panic("boom")` is logged as `<nil>` | format the recovered value `p` | high, not executed | Recovery.PanicErrorAsWritten (shown by Recovery.PanicTextLost) | Recovery.PanicError |
| util/logging.go:72-75 | the `warn` and `error` cases return `LoggerLevelDebug` | `ParseLoggerLevelStr("warn")` is Debug | each name gives its own level | medium, not executed | Logging.ParseLevel (shown by Logging.ParseLevelLosesWarnAndError) | Logging.ParseLevelIntended (proved by Logging.ParseLevelIntendedRoundTrip) |
