# Release-channel store and reload, in Dafny

This project models the core of a small lookup service. The service maps a
(container, release channel) pair to an image reference. The model has two
parts.

- **Indexed store** (`db.dfy`, module `Db`). The class `InMem` models the
  Go type `inMem`, with the same four views:
  - `all`, the append-only write history;
  - `byContainer` and `byChannel`, maps from a value to the list of
    releases that have it;
  - `byBoth`, a map from `ReleaseKey` to one release, where the last write
    for a key wins.

  `Write` validates the container, the release channel and the image path,
  in that order. It then appends to the lists and overwrites the key entry.
  `Query` picks one index: both fields set, else container only, else
  channel only, else everything. The invariant `Valid()` ties every index to
  the write history: `Matching(all, f, v)` is the history filtered to one
  value, and `LastByKey(all, k)` is the last release written for a key.
  `Query` is proved equal to `Answer(all, q)`, which defines each query
  shape from the history alone. Lemmas then say what `Answer` returns.
- **Reload logic** (`server.dfy`, module `Server`). The class `Srv` holds the
  current store `db` and the watermark `lastMod`. `LoadDatabase` installs a
  fresh store before parsing. It then writes each parsed record and skips
  the ones that `Write` refuses. `ReloadDatabase` stats the file, skips the
  reload unless the file's modification time is strictly after the
  watermark, reads the file, loads it, and advances the watermark only on
  success. `New` sets the first watermark and does the first load. The pure
  function `ReloadPlan` gives the decision one reload takes. The method is
  proved against it, and the lemmas about it cover each case and the
  behaviour of repeated reloads.

The file system and the JSON decoder are not modelled. They are inputs:

- `StatResult` is the modification time or a stat error;
- `ReadResult` is the file's bytes or a read error;
- `Parser` is a total function from bytes to `Option<seq<Release>>`. It
  stands for `json.Unmarshal` into the `releases` list.

Timestamps are integers. Go's zero `time.Time` is `ZeroTime` (0), and
`After` is `>`.

Three behaviours of the code are easy to miss:

- `loadDatabase` replaces the store with an empty one before it parses
  (`internal/server/server.go:66`, then `:74`). After a parse failure the
  server therefore serves an empty store, not the previous one. Because the
  watermark does not move, every later poll of the same file reads it, fails
  and empties the store again (`ReloadParseError`,
  `ReloadRetriesAfterParseError`).
- The container and channel lists keep every write, including duplicates for
  a key written twice. Only `byBoth` is last-write-wins (`DuplicateKeyWrites`).
- Two reloads of an unchanged file rebuild at most once only when the first
  reload did not fail to parse. `ReloadRebuildsAtMostOnce` proves this for
  every first reload that did not fail to parse, including one that failed
  on stat or read. `ReloadTwiceRebuildsOnce` adds that after a first reload
  that succeeded, the second one does nothing at all.

## Model

| member | source | states |
|---|---|---|
| Db.ToKey | internal/db/db.go:22-28 | the key of a release is its container paired with its release channel |
| Db.ToKeyIgnoresImagePath | internal/db/db.go:22-28 | two releases have the same key exactly when they have the same container and channel; the key carries the release's container and channel and ignores the image path |
| Db.Check | internal/db/db.go:105-114 | validation passes exactly when all three fields are non-empty; otherwise it reports the first empty field, in the order container, release channel, image path |
| Db.MatchingSnoc | internal/db/db.go:119-123 | appending a release to the history extends the list of its container (or channel) by that release and leaves every other list unchanged |
| Db.MatchingMembers | internal/db/db.go:119-123 | a list for a value holds all and only the releases of the history with that value |
| Db.LastByKeySnoc | internal/db/db.go:125-126 | after appending a release, the last release for its key is that release; every other key is unaffected |
| Db.LastByKeyIsLast | internal/db/db.go:125-126 | the key lookup finds nothing exactly when no release in the history has the key; otherwise it finds a release with that key that no later write for the key follows |
| Db.InMem.constructor | internal/db/db.go:53-63 | a new store has an empty history and empty indices, and satisfies the cross-index invariant |
| Db.InMem.Write | internal/db/db.go:102-129 | returns the validation result; a refused release changes none of the four views; an accepted one is appended to the history and to its container and channel lists, and replaces the entry for its key; the cross-index invariant is preserved |
| Db.InMem.Query | internal/db/db.go:68-100 | the index lookup returns exactly Answer over the history, including the empty result for an absent key; it reads the store without changing it |
| Db.AnswerByKey | internal/db/db.go:72-79 | with both fields set the result has at most one element; it is empty exactly when no release with that key was written; otherwise it is a release with the queried container and channel that no later write for the key follows |
| Db.AnswerByContainer | internal/db/db.go:81-88 | with only the container set the result holds all and only the releases of that container |
| Db.AnswerByChannel | internal/db/db.go:90-99 | with only the channel set the result holds all and only the releases of that channel; with neither set it is the whole history |
| Db.IndicesDeterminedByHistory | internal/db/db.go:116-126 | two valid stores with the same history have identical indices, so a store is determined by the sequence of accepted writes |
| Db.DuplicateKeyWrites | internal/db/db.go:116-126 | two valid writes for one key leave a history of length 2 and a container list holding both, while the key entry and a query on the key give only the second |
| Db.DistinctKeyWrites | internal/db/db.go:72-79 | after two valid writes with different keys, a query on either key returns exactly that release |
| Db.RejectedWrite | internal/db/db.go:105-114 | a release with an empty field is refused (with ContainerNotSet when the container is empty) and the history stays empty |
| Db.ExampleQueries | internal/db/db.go:68-100 | with releases app/dev and app/prod loaded, the container query returns both in load order, the pair query returns only app/prod, and an unknown container returns nothing |
| Server.Accepted | internal/server/server.go:79-85 | what the write loop keeps of the parsed records: each record Write accepts, in input order; the result is never longer than the input and holds only well-formed releases |
| Server.InitialWatermark | internal/server/server.go:40-44 | the start-up watermark is the file's modification time when stat succeeds and the zero time otherwise |
| Server.ReloadPlan | internal/server/server.go:90-123 | the decision of one reload: a stat error fails and keeps everything; a modification time not after the watermark succeeds and keeps everything; a read error fails and keeps everything; a parse failure fails, keeps the watermark and installs an empty store; otherwise the accepted records are installed and the watermark becomes the modification time; the watermark never decreases |
| Server.AcceptedConcat | internal/server/server.go:79-85 | loading record by record: the releases kept from a concatenation of inputs are those kept from each part, in order |
| Server.AcceptedPrefix | internal/server/server.go:80-85 | one more loop iteration keeps the next record when it is well-formed and skips it otherwise |
| Server.SkipsInvalidRecord | internal/server/server.go:80-85 | a refused record does not abort the load: the records before and after it are all kept |
| Server.AcceptedMembers | internal/server/server.go:79-87 | the loaded store holds exactly the well-formed parsed records, and an input of well-formed records is loaded in full and in order |
| Server.ReloadStatError | internal/server/server.go:92-97 | a stat error returns an error and keeps both the store and the watermark |
| Server.ReloadUnchangedFile | internal/server/server.go:99-102 | a modification time not after the watermark returns success and changes nothing |
| Server.ReloadReadError | internal/server/server.go:106-111 | a read error after a newer modification time returns an error and keeps both the store and the watermark |
| Server.ReloadParseError | internal/server/server.go:113-117 | a parse failure returns an error and keeps the watermark, while the served store has already become empty |
| Server.ReloadSuccess | internal/server/server.go:113-122 | a successful load installs a store of the accepted records and sets the watermark to the file's modification time |
| Server.WatermarkMonotone | internal/server/server.go:99-122 | a reload never lowers the watermark, and it changes the watermark only when it succeeds and installs a new store |
| Server.ReloadTwiceRebuildsOnce | internal/server/server.go:99-120 | after a successful reload, a second reload against the same file returns success, installs nothing and keeps the watermark |
| Server.ReloadRebuildsAtMostOnce | internal/server/server.go:99-120 | two reloads with the same stat result, where the first did not fail to parse (it succeeded, or failed on stat or on read), install a new store at most once between them |
| Server.ReloadRetriesAfterParseError | internal/server/server.go:113-117 | after a parse failure the watermark has not moved, so the next reload of the same file again installs an empty store and fails |
| Server.Srv.constructor | internal/server/server.go:46-53 | the server starts with the given store and watermark |
| Server.Srv.LoadDatabase | internal/server/server.go:63-88 | the server always ends up with a fresh store; a parse failure returns ParseError with that store empty; otherwise it returns success and the store holds the accepted records in order; the watermark is not touched |
| Server.Srv.ReloadDatabase | internal/server/server.go:90-123 | the result and the new watermark are those of ReloadPlan; when the plan installs nothing the same store object stays, otherwise a fresh store holding the planned records replaces it |
| Server.New | internal/server/server.go:35-61 | returns a server exactly when the initial parse succeeds; its watermark is the file's modification time, or the zero time when stat fails, and its store holds the accepted records |
| Server.PollTwice | internal/server/server.go:99-120 | two polls of a file whose first reload succeeded and rebuilt: the second succeeds, and store contents and watermark stay those of the first |

## Left out

- HTTP layer (`Run`, `queryHandler`, `readyHandler`, `healthHandler`, `reloadHandler`, `internal/server/server.go:145-217`): routing, port binding and status codes are transport. Of it the model keeps only the query that reaches the store: `queryHandler` builds a query `Release` with an empty image path, and `Query` ignores that field. Mapping an empty result to 404 is transport and is not modelled.
- `startFileWatcher` (`internal/server/server.go:125-143`): a goroutine that calls `ReloadDatabase` every 30 seconds. Its point is concurrency, and the source has no locking between it and the handlers, so there is no atomic swap to verify. The model is sequential.
- `os.Stat`, `os.ReadFile` and `json.Unmarshal` are foreign calls. Their outcomes are the inputs `StatResult`, `ReadResult` and `Parser`. Which byte blobs are well-formed JSON is not modelled.
- A JSON `null` element in `releases` decodes to a nil `*Release`, and `Write` would dereference it and panic. Records are values in the model, so this case is not represented.
- Go pointers: the store holds `*Release` values, and `Query` returns its internal slices. The model holds values, so aliasing between a query's result and the store is not captured.
- Logging (every zerolog call), the logger fields, `ReleaseKey.String` (text for logs and errors only) and the error message texts. Errors are the kinds `WriteError` and `ServerError`.
- `dbFile`, the file path: the StatResult and ReadResult inputs stand for the file. The path is not modelled, and neither is the file changing between stat and read.
- `time.Time`: the model uses integer timestamps, with the zero time as 0, and not Go's wall and monotonic clock readings.
- `cmd/server/main.go` (process start-up, exit codes) and `cmd/server/version_test.go` (a build variable).
