# Discussion board service, modelled in Dafny

The server behind a small discussion board. Clients list *subjects*, post
*questions* under a subject, and like or unlike a question. The Go gRPC
server has two parts, and both are modelled here.

- **The Board service** (`server/grpc/board.go`). It has six operations over
  two tables, `subject(id, title, enabled)` and
  `question(id, question, subject_id, likes)`:
  - ListSubjects, GetSubject and ListQuestions read;
  - CreateQuestion, Like and Unlike write.

  Every write is one statement inside its own begin/exec/commit.
- **The request pipeline** (`server/grpc/service.go`). It covers:
  - the tracing interceptors for unary and streaming calls;
  - the interceptor that hands the store to the handler;
  - the chain the server installs;
  - how a handler error becomes a span status.

Files:

- `results.dfy`: `Option` and `Result`. Go's `(T, error)` pairs become `Result`.
- `errors.dfy`: the seventeen gRPC codes, and handler errors. A handler error
  is either a status carrying a code or a plain Go error.
- `records.dfy`: table rows and the `Subject`/`Question` messages.
- `ordering.dfy`: the two `ORDER BY` orders as predicates, plus sorted insertion.
- `database.dfy`: the store, as class `Store`:
  - the two tables as sequence fields, the next question id, and the default of the `likes` column;
  - one method per SQL query;
  - `Execute`, which runs one statement in a transaction.
- `board.dfy`: the helpers and the six operations, as methods that take the store as an argument.
- `service.dfy`: span statuses, hex-encoded identifiers, span opening, the three interceptors and the unary chain.

Store failures are explicit arguments, not choices the model makes:

- `ReadFault` says where a read breaks. The query can fail. Scanning the row
  with a given id can fail. Or the result stream can stop just before that
  row: `rows.Next()` answers false, and the error stays in `rows.Err()`,
  which the code never reads.
- `WriteFault` says which step of a write fails: prepare, begin, exec or commit.

The tracing backend is treated as a recorder. An interceptor's result
records three things: the finished span, the header-decoding errors it
reported, and (for unary calls) the handler errors it logged.

Where the code behaves differently from the design of the system, the
model follows the code:

- CreateQuestion does not report an error when it rejects a disabled or
  missing subject, or an empty question. The insert is skipped, but the
  error returned is still the nil one from the lookup.
- A missing subject or question is never a not-found error. The lookup hands
  back a zero-valued record. For CreateQuestion that record counts as
  "disabled". For Unlike it counts as "no likes", which gives the
  "like count can not be negative" error.
- Every error the Board returns is a plain Go error, whose gRPC code is
  `Unknown`. Its span status is therefore *undefined*, never failed
  precondition or internal error.
- Unlike checks the count and decrements it in two separate round trips.
  The race this opens is kept, and it is exhibited by a lemma.

## Model

| member | source | states |
|---|---|---|
| Board.ListSubjects | server/grpc/board.go:18-54 | fails exactly when the query fails or scanning a subject row fails, with that error; otherwise the list is in ascending id order and is a permutation of the subject table, or, when the stream stops early at a row, exactly the subjects with smaller ids |
| Board.SubjectsBeforeStop | server/grpc/board.go:34-49 | in an id-ordered permutation of the table, the rows before position i are exactly the table's rows whose id is below that of row i |
| Board.SubjectsWalked | server/grpc/board.go:34-49 | a walk over every row that met no faulty row means that no row of the table carries the faulty id |
| Board.GetSubject | server/grpc/board.go:56-80 | fails exactly when the query fails or scanning the matching row fails; otherwise returns the row with that id, or the zero-valued Subject when there is none or the stream stops before it |
| Board.CreateQuestion | server/grpc/board.go:82-118 | checks in order: a failed subject lookup returns its error; a disabled or missing subject, and then empty text, return no error and insert nothing; otherwise the insert helper's error is returned, and with no fault exactly one row (fresh id, given text and subject id, default likes) is appended; subjects never change; non-negative counters stay non-negative when the default is non-negative |
| Board.ListQuestions | server/grpc/board.go:120-159 | fails exactly when the query fails or scanning one of the subject's rows fails; otherwise the list is ranked (likes descending, then text ascending) and is a permutation of the subject's questions; when the stream stops early at a row, the list holds only questions with another id that rank no later than that row, and holds every question of the subject that ranks strictly ahead of it |
| Board.QuestionsBeforeStop | server/grpc/board.go:139-154 | the row the stream stopped at is a row of the subject; every question before it in the ranked listing has another id and ranks no later; every question of the subject that ranks strictly ahead of it comes before it |
| Board.StrictlyAheadListed | server/grpc/board.go:139-154 | in a ranked listing, a question that ranks strictly ahead of the row at position i appears before position i |
| Board.QuestionsWalked | server/grpc/board.go:139-154 | a walk over all of a subject's questions that met no faulty row means that the subject has no row with the faulty id |
| Board.FoundIsSelected | server/grpc/board.go:127-129 | the row filed under a subject is among the questions selected for that subject |
| Board.Like | server/grpc/board.go:161-174 | returns the helper's error; with no fault, the likes of the row with that id rise by one and nothing else changes; otherwise nothing changes; non-negative counters stay non-negative |
| Board.Unlike | server/grpc/board.go:176-200 | a failed lookup returns its error; a looked-up count of zero or less (a missing row included) returns "like count can not be negative" and changes nothing; otherwise the helper's error is returned, and with no fault the count drops by one; non-negative counters stay non-negative |
| Board.SelectSubject | server/grpc/board.go:202-218 | never yields nil: the error exactly when the query or the scan of the matching row fails, otherwise the matching row or the zero-valued Subject |
| Board.LookedUpSubject | server/grpc/board.go:209-217 | the zero-valued Subject when no row matches or the stream stops before the row; otherwise exactly the row found under the requested id |
| Board.InsertQuestion | server/grpc/board.go:220-240 | returns the prepare, begin or exec error and then changes nothing; with no fault, appends the row with a fresh id, the given text and subject id and the default likes; a failed commit changes nothing and reports success |
| Board.SelectQuestion | server/grpc/board.go:242-258 | never yields nil: the error exactly when the query or the scan of the matching row fails, otherwise the selected columns of the row or the zero-valued Question |
| Board.LookedUpQuestion | server/grpc/board.go:249-257 | the zero-valued Question (likes 0) when no row matches or the stream stops before the row; otherwise exactly the selected columns of the row found under the requested id |
| Board.AddQuestionLikes | server/grpc/board.go:260-280 | with no fault, only the likes of the row with that id change, by +1; a failed step changes nothing; only prepare, begin and exec errors are returned |
| Board.SubQuestionLikes | server/grpc/board.go:282-302 | with no fault, only the likes of the row with that id change, by -1; a failed step changes nothing; only prepare, begin and exec errors are returned |
| Board.UnlikeKeepsNonNegative | server/grpc/board.go:188-199 | when the row's count is positive, decrementing it keeps every count of the table non-negative |
| Board.FindAfterLikesAdded | server/grpc/board.go:261 | after the UPDATE, the row found under the id is the old row with its likes moved by delta |
| Board.LikesAddedToMissingRow | server/grpc/board.go:261 | an UPDATE whose id matches no row leaves the table equal to what it was |
| Board.LikeThenUnlikeRestores | server/grpc/board.go:161-200 | after a Like, Unlike's guard passes, and the decrement restores the table exactly |
| Board.InterleavedUnlikesGoNegative | server/grpc/board.go:183-197 | two Unlikes that both read a count of 1 before either one decrements both pass the guard and leave -1 |
| Board.InsertedIsListed | server/grpc/board.go:220-240 | a question inserted under a subject is among those selected for it, with the default count |
| Board.FixtureOrder | server/grpc/board.go:128 | likes {3, 3, 1} with texts {"b", "a", "c"} have exactly one ranked arrangement: a(3), b(3), c(1) |
| Database.Store.SelectSubjectsOrderById | server/grpc/board.go:25 | the rows come back in strictly ascending id order and are a permutation of the subject table |
| Database.Store.SelectSubjectById | server/grpc/board.go:203 | the one row with that id, or no row |
| Database.Store.SelectQuestionsOfSubject | server/grpc/board.go:127-129 | the rows come back ranked (likes descending, then text ascending) and are a permutation of the subject's questions |
| Database.Store.SelectQuestionById | server/grpc/board.go:243 | the selected columns of the one row with that id, or no row |
| Database.Store.Execute | server/grpc/board.go:220-240 | prepare and begin errors return early; an exec error rolls back; a commit error is dropped with the tables unchanged; otherwise the statement's effect is applied; ids stay unique and below the next id |
| Database.WriteError | server/grpc/board.go:232-239 | a write helper reports an error exactly when prepare, begin or exec fails; a failed commit reports nothing |
| Database.FindSubject | server/grpc/board.go:203 | a found row is a table row with that id; none found means no row has that id |
| Database.FindQuestion | server/grpc/board.go:243 | a found row is a table row with that id; none found means no row has that id |
| Database.LikesAdded | server/grpc/board.go:261 | same length; the rows with that id have their likes moved by delta, and every other row is unchanged |
| Database.QuestionsOf | server/grpc/board.go:127-129 | every row filed under the subject contributes its (id, question, likes) |
| Database.SelectedIsFound | server/grpc/board.go:127-129 | every selected question is the projection of the unique row with its id, and that row is filed under the subject |
| Ordering.TextLeTotal | server/grpc/board.go:128 | any two texts are comparable in the ascending text order |
| Ordering.TextLeTransitive | server/grpc/board.go:128 | the ascending text order is transitive |
| Ordering.RankLeTotal | server/grpc/board.go:128 | any two questions are comparable in the listing order |
| Ordering.RankLeTransitive | server/grpc/board.go:128 | the listing order is transitive |
| Ordering.InsertById | server/grpc/board.go:25 | inserting adds exactly that subject (as a multiset) |
| Ordering.InsertByIdOrdered | server/grpc/board.go:25 | inserting a subject with a new id into an id-ordered list keeps it id-ordered |
| Ordering.InsertRanked | server/grpc/board.go:128 | inserting adds exactly that question (as a multiset) |
| Ordering.InsertRankedRanked | server/grpc/board.go:128 | inserting into a ranked list keeps it ranked |
| Errors.CodeOf | server/grpc/service.go:140 | a plain error has code Unknown, and a status error has its own code |
| Service.ToSpanStatus | server/grpc/service.go:139-152 | Internal gives InternalError, InvalidArgument gives InvalidArgument, FailedPrecondition gives FailedPrecondition, each in both directions; every other code gives Undefined |
| Service.PlainErrorIsUndefined | server/grpc/service.go:139-152 | a plain error, the only kind the Board returns, gives status Undefined and never FailedPrecondition |
| Service.HexDecode | server/grpc/service.go:84 | decoding succeeds exactly when the value has even length and only hex digits, with half as many bytes; otherwise it reports the first non-digit, or the odd length when every character is a digit |
| Service.HexEncode | server/grpc/service.go:84 | encoding gives two hex digits per byte |
| Service.DecodeEncoded | server/grpc/service.go:84 | decoding an encoded identifier gives back its bytes |
| Service.ReadHeader | server/grpc/service.go:82-96 | only the first value of the key is used; no value leaves the identifier as it was; a value that decodes replaces it; one that does not is reported, and the identifier is kept |
| Service.FirstValueOnly | server/grpc/service.go:82-88 | values after the first one never change what is read |
| Service.EncodedHeaderArrives | server/grpc/service.go:82-96 | an identifier of at most 16 bytes (trace) or 8 bytes (span) sent in encoded form is read back intact, with nothing reported |
| Service.OpenSpan | server/grpc/service.go:77-97 | op "grpc.server" and the full method name as description; the trace id comes from `traceid`, otherwise generated; `spanid` goes into the chosen field and the other field keeps its default; the status is not set yet; trace-header errors are reported before span-header errors |
| Service.FinalStatus | server/grpc/service.go:105-108 | the status is classified only when the handler failed, and left undefined otherwise |
| Service.SentryUnary | server/grpc/service.go:69-112 | the result is the handler's result on the context carrying the new span, with `spanid` as the span's parent; the response and error are returned unchanged; the error is logged and classified into the span; header errors are only reported |
| Service.SentryStream | server/grpc/service.go:23-67 | the same as the unary interceptor, except that `spanid` becomes the span's own id and nothing is logged |
| Service.DBUnary | server/grpc/service.go:114-118 | the handler gets the same request, on the context with the store handle added, and its outcome is returned unchanged |
| Service.ServeUnary | server/grpc/service.go:120-137 | through the installed chain, the handler sees the call's metadata, the tracing span and the store handle, and its outcome is what the call returns |
| Service.ChainOrder | server/grpc/service.go:128-131 | the span and its header reports do not depend on the store handle: they are those of the tracing interceptor called without it, with the handler's error classifying the span (the order itself is fixed by ServeUnary) |
| Service.MalformedTraceHeaderIsOnlyReported | server/grpc/service.go:82-88 | a malformed `traceid` of at most 32 characters is reported first; the trace id stays generated; the handler still runs and its outcome is returned |
| Service.SpanHeaderTarget | server/grpc/service.go:45-96 | the same well-formed `spanid` of at most 8 bytes becomes a unary span's parent id, but a streaming span's own id |
| Service.PlainFailuresLeaveSpanUndefined | server/grpc/service.go:104-108 | through the chain, a handler that fails only with plain errors leaves every span undefined |

## Left out

- Process startup and the client are not part of this model: `server/cmd/main.go` and `server/cmd/utils.go` (environment, DSN, listeners, goroutines), and the TypeScript client.
- The tracing library and logrus are reduced to what the interceptors record:
  - the span tree, `TransactionFromContext`/`StartChild` in the Board methods, and `span.Finish`;
  - hub lookup and cloning, and `SetExtra("requestBody", …)`;
  - how exceptions are sent.
- The span name "finpc-server", and how it interacts with the transaction name, is not modelled; the op and the description are.
- Service.HexDecode: the fixed-width destinations are not modelled. A valid value shorter than 16 (trace) or 8 (span) bytes overwrites only a prefix of the identifier; a longer one indexes past the array and panics. The partial bytes written before a decoding error are not modelled either: the model keeps the old identifier whole.
- Service.HexDecode: a header value is taken as one byte per character. A non-ASCII character is reported as itself, not as the first byte of its UTF-8 encoding.
- Service.Values: metadata keys are taken as already lower-case. The case-insensitive fallback of the metadata lookup is not modelled.
- Board.ListQuestions: in the source, `defer rows.Close()` is registered before the query error is checked. So when the query fails, closing the nil result set panics inside `database/sql`. The model returns the query error, as ListSubjects does.
- Ordering.TextLe: text order is plain character-code order. The store's collation is not modelled.
- Database.Store.Execute: the `likes` default is a parameter of the store, because the schema does not fix it. Without a default the column is NULL; scanning such a row later is a scan failure, which `ReadFault` covers. Sequence values used up by rolled-back inserts are not modelled: a failed insert leaves the next id unchanged.
- Concurrency is not modelled: concurrent calls, and isolation between statements. Each operation runs alone, and the Unlike race is stated by Board.InterleavedUnlikesGoNegative.
- Integer widths are not modelled: ids and counts are unbounded, while the source uses int64 columns.
- Board.ListQuestions: the engine's order among rows that tie in the ORDER BY (equal likes and equal text) is not fixed. So the contract states rankedness and a permutation, not one particular sequence.
