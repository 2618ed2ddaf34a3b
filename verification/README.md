# Verification model of the Damn Vulnerable Web Server

A Dafny model of the server's core logic, kept beside the C++ code. Every part is modelled as
the code is written, planted defects included: where the code does not deliver a property, the
exact condition under which it does is proved instead.

| file | models |
|---|---|
| `ThreadPool.dfy` | the worker pool as a step system over every interleaving, and the pool object |
| `LogFiles.dfy` | the access log, its rotation by a chain of renames, over a small file map |
| `RequestLogger.dfy` | the asynchronous log pipeline: queue, ageing, captured sinks, delivery outside the lock |
| `Base64.dfy` | the Base64 codec over buffers (RFC 4648 sections 3.5 and 4), 32-bit arithmetic included |
| `Percent.dfy` | the two percent decoders, the length estimator, the buffer sizing (RFC 3986 section 2.1) |
| `Credentials.dfy` | Basic credentials (RFC 7617 section 2), cut in place in the decoded buffer |
| `HttpRequest.dfy`, `RequestFields.dfy` | the request line, query parameters, header values, the session cookie |
| `Escapers.dfy` | JSON and HTML escaping, each with the reader that undoes it (RFC 8259 section 7) |
| `Registry.dfy` | the rule vector, the path-to-tag index, the dispatch loop |
| `Router.dfy` | one dispatch as one atomic step over sessions and registry |
| `Text.dfy`, `Options.dfy` | string searches, `Option` |

Each stateful component comes twice. A pure transition function (`Apply`, `Dispatch`, `Rotated`,
`Encode`, ...) carries the theorems over every run; a class or an array method with the original's
loops and updates in place is proved to compute exactly that function. Statements about runs
quantify over every sequence of enabled steps from the initial state, and say what the state is in
terms of that sequence alone: which tasks were submitted, which log calls were made and when, which
requests were executed.

A text is a sequence of characters, one per byte of the original; a C string is such a text
without NUL. Where the code treats bytes as numbers, members require characters below 256.

One comment disagrees with the code, and the model follows the code: the comment above
`estimate_decoded_length` calls the estimate an upper bound. When its scan stops at the end of the
parameter text, it is a lower bound (`Percent.EstimateBounds`), and the decoded text fits exactly
when every `%` it counts has a well-formed escape starting in its three characters. When its last
token straddles the NUL, CR or LF that ends the text, what it counts beyond the text is slack. For
every text, the decoded text fits exactly when that slack covers two bytes for each counted `%`
beyond the well-formed escapes (`Percent.FitsIff`). `%GZ` does not fit (`Percent.MalformedOverflows`);
a lone `%` before CRLF does (`Percent.StraddlingFits`), and so does `50%` at the end of a request,
but not `%G` (`Percent.RequestEnds`).

Properties that hold only under a condition, proved as an equivalence: full drain needs a worker
(`ThreadPool.DrainsIffWorkers`); a printed request parses to its own method and target when no
marker tried before its method's stands anywhere in it (`HttpRequest.ParsePrinted`); its path comes
back when it is a HEAD, or the name after the slash is not empty, starts with no second slash and
has at most 198 characters (`HttpRequest.TargetRecovered`; a 199-character name fits the buffer and
loses its last character, `HttpRequest.LongestNameIsCut`); a cookie ended by a line break is read
exactly when no semicolon follows (`RequestFields.CookieRoundTrip`); the object a CGI tag selects is
a CGI route exactly when the path was given that type first (`Registry.ChosenIsCgiIff`).

## Model

| member | source | states |
|---|---|---|
| ThreadPool.HistoryFollows | src/thread_pool.cpp:4-46 | in every run there are exactly n workers, all ready at the start; the submissions are the pushes of the schedule in order, one notify is owed for each, one finish recorded for each end of a task |
| ThreadPool.ThrowingCountsAsRun | src/thread_pool.cpp:40-44 | a running task may return or throw, and both record it as run and leave its worker ready |
| ThreadPool.NothingForbidden | src/thread_pool.cpp:22-46 | a thread's next step is enabled by its own place alone: every interleaving, wake choice and spurious wake is a run |
| ThreadPool.NoLostWakeup | src/thread_pool.cpp:22-46 | in every reachable state, under any interleaving and any spurious wakes, a sleeping worker implies that queued tasks are at most the pending notifies plus the awake idle workers |
| ThreadPool.NeverStuck | src/thread_pool.cpp:22-46 | with a worker and a queued task, a notify is pending or a worker is awake, and a step that moves a queued task on is enabled |
| ThreadPool.TakenInOrder | src/thread_pool.cpp:22-46 | the take order is a prefix of the schedule's submissions, and none finishes more often than it was submitted |
| ThreadPool.FullDrain | src/thread_pool.cpp:11-46 | when the last join returns, the queue is empty, every worker has exited, and the schedule's submissions have been taken in order and have finished exactly once each |
| ThreadPool.NoWorkersNoDrain | src/thread_pool.cpp:4-20 | a pool of no workers has a run that destroys it with its task still queued |
| ThreadPool.DrainsIffWorkers | src/thread_pool.cpp:4-46 | every run drains before the destructor returns if and only if the pool has at least one worker |
| ThreadPool.NobodySleepsAgain | src/thread_pool.cpp:11-46 | after notify_all no worker is asleep, then or after any further step |
| ThreadPool.StepDecreases | src/thread_pool.cpp:11-46 | every step of a flagged pool, and every step but a push or spurious wake of a live one, strictly decreases the measure |
| ThreadPool.RunBounded | src/thread_pool.cpp:11-46 | every run is no longer than its measure, plus five steps for each push and two for each spurious wake |
| ThreadPool.Settles | src/thread_pool.cpp:22-46 | without new submits and spurious wakes a run is no longer than its measure, and one that cannot be continued has emptied the queue |
| ThreadPool.ShutdownBounded | src/thread_pool.cpp:11-46 | after the flag every run, spurious wakes included, is no longer than its measure |
| ThreadPool.ShutdownProgress | src/thread_pool.cpp:11-46 | after the flag some thread can move until the last join has returned |
| ThreadPool.DestructorReturns | src/thread_pool.cpp:11-46 | every maximal run of a flagged pool is finite and ends with all workers joined and every task the whole schedule submitted run exactly once |
| ThreadPool.RunInv | src/thread_pool.cpp:11-46 | the invariant (work conserving, accounted, orderly) is kept by every run |
| ThreadPool.StepAccounted | src/thread_pool.cpp:22-46 | each step keeps taken plus queued equal to submitted, and each task queued, running or finished once |
| ThreadPool.TaskPool.constructor | src/thread_pool.cpp:4-9 | a new pool has the given number of workers, all awake, an empty queue and no flag |
| ThreadPool.TaskPool.Submit | src/thread_pool.cpp:22-26 | the push under the mutex is the push step and keeps the invariant |
| ThreadPool.TaskPool.Notify | src/thread_pool.cpp:27-27 | notify_one wakes one sleeper if there is one, as the notify step |
| ThreadPool.TaskPool.TakeTask | src/thread_pool.cpp:33-39 | the critical section takes the front task whenever there is one, else sleeps, or exits once flagged |
| ThreadPool.TaskPool.FinishTask | src/thread_pool.cpp:40-44 | a returning and a throwing task both count as run and leave the worker awake |
| ThreadPool.TaskPool.Flag | src/thread_pool.cpp:12-15 | the destructor's critical section is the flag step |
| ThreadPool.TaskPool.WakeEveryone | src/thread_pool.cpp:16-16 | notify_all leaves nobody asleep |
| ThreadPool.TaskPool.JoinNext | src/thread_pool.cpp:17-19 | a join passes exactly one exited worker; after the last one a pool that has workers is drained and every submission has finished once |
| ThreadPool.TaskPool.ServesNext | src/thread_pool.cpp:22-46 | a pool object in a valid state with a worker and a queued closure has a serving step enabled |
| LogFiles.LogDirectory.RotateLogIfNeeded | src/request_logger.cpp:28-44 | the loop of renames moves every copy up by one and drops the oldest, exactly when the live log has reached 1 MiB |
| LogFiles.GapMoves | src/request_logger.cpp:36-43 | one rename of the loop moves the free name down by one and nothing else |
| LogFiles.RotatedKeepsSuffix | src/request_logger.cpp:28-44 | a rotation keeps the retained text a suffix of everything logged and loses text only with three copies on disk |
| LogFiles.LoggedKeepsSuffix | src/request_logger.cpp:94-119 | a synchronous log call keeps the suffix property, gap-free copies and full copies |
| LogFiles.RetainsThreeCopies | src/request_logger.cpp:28-44 | either nothing has been lost or at least 3 MiB are retained |
| RequestLogger.RotationKeepsSuffix | src/request_logger.cpp:28-119 | over every run .3, .2, .1 and the live log concatenated are a suffix of all bytes logged, copies gap-free and at least 1 MiB each |
| RequestLogger.LiveLogBounded | src/request_logger.cpp:77-119 | until a sink is installed the live log stays under 1 MiB plus the latest entry |
| RequestLogger.EveryCallQueued | src/request_logger.cpp:77-84 | over every run, the records queued and on their way to the queue are exactly those of the log calls that found a sink |
| RequestLogger.EveryByteLogged | src/request_logger.cpp:94-119 | over every run, the bytes logged are the entries of the log calls made before any install and, for each delivery to a file sink, the line of its record, in order; each delivery writes once |
| RequestLogger.DeliveredOnTime | src/logging_sink.cpp:53-83 | no record is delivered sooner than 250 ms after its enqueue, by the clock the schedule ticks |
| RequestLogger.SampleFollows | src/logging_sink.cpp:57-64 | a pass works with the clock at its own sample |
| RequestLogger.PassCompletes | src/logging_sink.cpp:53-83 | left alone, the worker completes a pass from any idle state: it writes what is due at its sample, keeps the rest, and is idle again |
| RequestLogger.OnlySyncRotates | src/request_logger.cpp:77-95 | no step but a synchronous log call changes a numbered copy |
| RequestLogger.PartitionCuts | src/logging_sink.cpp:61-70 | on a queue in stamp order the stable partition is a prefix of what is due and a suffix of what stays |
| RequestLogger.NothingLost | src/logging_sink.cpp:53-83 | at every point of every run, delivered, in-flight and queued records concatenated are all records ever queued, in order |
| RequestLogger.WrittenAsCaptured | src/logging_sink.cpp:53-83 | each write carries its record to the sink captured with it, at least 250 ms after its stamp |
| RequestLogger.WrittenToInstalledSink | src/logging_sink.cpp:106-120 | the i-th record written goes to the sink that was installed last before the i-th enqueue, whatever was installed since |
| RequestLogger.PassIsExact | src/logging_sink.cpp:57-71 | a pass takes only records at least 250 ms old at its sample and leaves only younger ones, those stamped after the sample included |
| RequestLogger.NullTestNeverDrops | src/logging_sink.cpp:73-81 | every queued record has a sink, so each delivery turn writes one record |
| RequestLogger.FirstLine | src/request_logger.cpp:77-82 | the message is the request up to its first line feed, and the carriage return before that end, if any, is removed |
| RequestLogger.Pipeline.SetOutput | src/handlers/admin.cpp:202-225 | "file" and "syslog" install a new sink of that kind, any other output changes nothing |
| RequestLogger.Pipeline.LogRequestResponse | src/request_logger.cpp:64-120 | with a sink the first line is handed on, without one the log is rotated if needed and appended to |
| RequestLogger.Pipeline.EnqueueLogRecord | src/logging_sink.cpp:115-120 | the record is queued last with the current sink and the current time |
| RequestLogger.Pipeline.CollectDue | src/logging_sink.cpp:57-71 | the partition loop computes exactly what is due and what stays |
| RequestLogger.Pipeline.DeliverNext | src/logging_sink.cpp:73-81 | one turn writes the batch's first record to its captured sink, a file sink appending its line to the log |
| Base64.DecodeEncode | src/base64.cpp:36-102 | decoding the encoding of any non-empty octet string returns it |
| Base64.EncodeDecode | src/base64.cpp:36-102 | encoding the decoding of any canonical text returns it |
| Base64.CanonicalIff | src/base64.cpp:36-61 | the canonical texts (alphabet, correct padding, zero pad bits) are exactly the encodings of non-empty strings |
| Base64.EncodesGroups | src/base64.cpp:43-54 | output group i holds the same 24 bits as input group i, zero bits added at the end |
| Base64.DecodesAnyText | src/base64.cpp:68-99 | any non-empty text, canonical or not: nothing exactly when its length is no multiple of four, else three octets a group less one for each '=' in the last two places, each cut from the number its group's characters read as |
| Base64.UnknownReadsAsOnes | src/base64.cpp:84-91 | a character outside the alphabet reads as a 32-bit word of all ones |
| Base64.TableIsAlphabet | src/base64.cpp:8-12 | the encoding table is the alphabet of RFC 4648, Table 1 |
| Base64.EncodePads | src/base64.cpp:56-58 | overwriting the end of zero-filled groups by mod_table's padding gives the encoding |
| Base64.UnpackOctets | src/base64.cpp:93-97 | the shifts, sum and masks cut four sextets into the three octets of their 24 bits |
| Base64.Codec.BuildDecodingTable | src/base64.cpp:18-29 | the table maps every alphabet symbol to its value and every other byte to -1 |
| Base64.Codec.EncodeBuffer | src/base64.cpp:36-61 | the loops fill exactly 4 * ceil(n / 3) positions with the encoding |
| Base64.Codec.DecodeBuffer | src/base64.cpp:63-102 | fails exactly on lengths not divisible by 4; else fills the announced length, with one octet of room for the caller's terminator |
| Base64.Codec.DecodeInto | src/base64.cpp:83-99 | the loop's write index ends at the announced length whatever the text holds |
| Percent.StreamReads | src/utils.cpp:21-23 | what an escape stores is a formatted hexadecimal read of its two characters: blanks skipped, a sign taken, digits up to the first other character |
| Percent.UrlDecodeCopies | src/utils.cpp:25-31 | up to its first escape a text is copied, '+' as a space, a percent sign in the last two positions as itself |
| Percent.UrlDecodeReads | src/utils.cpp:20-24 | an escape, well formed or not, becomes the one byte that read stores |
| Percent.HexValIff | src/handlers/admin.cpp:26-31 | exactly the 22 hexadecimal digits have a value, each its own |
| Percent.StatusCopies | src/handlers/admin.cpp:39-50 | text without a well-formed escape, malformed ones included, is copied |
| Percent.StatusReads | src/handlers/admin.cpp:40-46 | a well-formed escape becomes its byte |
| Percent.UrlDecodeLoop | src/utils.cpp:16-34 | the loop computes the decoded text, white space, signs and non-digits read as the stream reads them |
| Percent.UrlDecodeInvertsEncode | src/utils.cpp:16-34 | for every byte string and every choice of bytes to escape, in either case, decoding the encoding returns it |
| Percent.DecodeStatusParam | src/handlers/admin.cpp:37-52 | with room for it, the decoded parameter and a NUL are written and nothing else changes |
| Percent.EstimateDecodedLength | src/utils.cpp:40-51 | on every buffer the scan returns the estimate and reads at most two bytes past the terminating NUL |
| Percent.NoLatePercent | src/utils.cpp:42-45 | without a percent sign in the last two positions of the text the scan stays inside the text |
| Percent.EstimateOfText | src/utils.cpp:42-51 | what follows the text adds to the estimate just what is counted there, and nothing when no token straddles the terminator |
| Percent.DecodedLength | src/handlers/admin.cpp:37-52 | the decoder saves two bytes for every well-formed escape wherever it starts: escapes never overlap |
| Percent.Owner | src/utils.cpp:42-45 | every well-formed escape starts inside the three characters of a percent sign the estimator stops at |
| Percent.OwnersDiffer | src/utils.cpp:40-51 | different escapes have different such percent signs: the injection from escapes into tokens |
| Percent.EscapesFitTokens | src/utils.cpp:40-51 | there are at most as many well-formed escapes as percent signs the estimator stops at |
| Percent.EstimatedLength | src/utils.cpp:40-51 | the estimate is the text's length less two per token, plus what is counted past the text |
| Percent.EstimateBounds | src/utils.cpp:40-51 | the estimate, less what it counts past the text, <= decoded length <= 3 * estimate |
| Percent.FitsIff | src/handlers/admin.cpp:81-89 | on every text, the decoded text fits exactly when the slack past the text covers the tokens that are no escape; without slack, exactly when every token holds an escape, and then the sizes are equal |
| Percent.ExactSizing | src/handlers/admin.cpp:81-89 | if every percent sign of the text begins a well-formed escape, the estimate is the decoded length, whatever follows the text |
| Percent.MalformedOverflows | src/handlers/admin.cpp:76-89 | one malformed escape decodes to three bytes against an estimate of one |
| Percent.StraddlingFits | src/handlers/admin.cpp:76-89 | a lone percent sign before CRLF is no escape, yet its decoded text fits |
| Percent.RequestEnds | src/handlers/admin.cpp:76-89 | at the end of a request "50%" is estimated at its three decoded bytes, and "%G" at one against two |
| Percent.DecodersAgree | src/handlers/admin.cpp:37-52 | on well-formed text without '+' both decoders produce the same bytes |
| Percent.StatusParamReads | src/handlers/admin.cpp:67-74 | the parameter is all that follows the first "status=", and there is none without one |
| Percent.SystemStatus | src/handlers/admin.cpp:64-95 | under exactly the condition of FitsIff, the buffer has the estimate plus one bytes and holds the decoded parameter and its NUL |
| Credentials.Extract | src/utils.cpp:108-139 | an accepted user has no colon, and neither part has a NUL |
| Credentials.ExtractIff | src/utils.cpp:108-139 | any header: an exception exactly below six characters, the pair of the first colon of what the rest decodes to, else rejected |
| Credentials.CredentialsRoundTrip | src/utils.cpp:108-139 | for NUL-free parts with no colon in the user, the printed header yields exactly that pair, colons in the password included |
| Credentials.AcceptedIff | src/utils.cpp:108-139 | on a canonical header without NUL in its text, a pair is accepted exactly when what follows the six skipped characters is its encoding |
| Credentials.ExtractUsernamePassword | src/utils.cpp:108-139 | terminating the buffer, cutting it at the colon and reading both halves computes that result |
| HttpRequest.MethodTokenIff | src/http/request.cpp:17-29 | the token is non-empty exactly when the first line is token SP target SP "HTTP/" and at least one character, and then is that token |
| HttpRequest.RefusedToken | src/http/request.cpp:59-76 | the same of the method left by every failing parse |
| HttpRequest.ParsedIff | src/http/request.cpp:33-100 | any raw request parses to the method of its chosen marker and what stands between that marker and the next " HTTP/", and to nothing exactly when there is no such place |
| HttpRequest.PrintedFits | src/http/request.cpp:78-82 | a printed request fits the path buffer exactly when what is copied of its target is shorter than 200 |
| HttpRequest.ParsePrinted | src/http/request.cpp:33-100 | a printed request with a space-free target that fits parses to its method and what is recovered of its target exactly when no earlier-tried marker stands anywhere in it |
| HttpRequest.TargetRecovered | src/http/request.cpp:78-96 | the query is the printed one; the path is, exactly for HEAD or when the name is non-empty, starts with no second slash and is at most 198 long; else it is empty, the bare name, or a slash and the first 198 characters |
| HttpRequest.LongestNameIsCut | src/http/request.cpp:92-96 | a GET of a 199-character name fits the buffer and loses its last character |
| HttpRequest.RequestObject.CutQuery | src/http/request.cpp:84-89 | cutting the buffer at its first question mark leaves the path in it and the query beside it |
| HttpRequest.RequestObject.NormalizePath | src/http/request.cpp:91-96 | the copy through the second buffer leaves the normalized path |
| HttpRequest.RequestObject.ParseInto | src/http/request.cpp:33-100 | copying, cutting and normalizing in the fixed buffer computes that parse |
| RequestFields.RequestLineRoundTrip | src/utils.cpp:76-106 | from one printed request that fits, the parser recovers method and query, and the path exactly when it is kept; the parameter reader recovers the printed map |
| RequestFields.QueryStringIff | src/utils.cpp:79-92 | any request has exactly the query after the first question mark between its first two spaces |
| RequestFields.NoQueryNoParams | src/utils.cpp:79-90 | a request without one has no parameters |
| RequestFields.PrintedQueryString | src/utils.cpp:79-92 | the parameter reader sees the query the request line was printed with |
| RequestFields.PrintedReads | src/utils.cpp:92-103 | a printed list of pairs reads back as its map |
| RequestFields.PiecesRead | src/utils.cpp:96-103 | pieces are taken one by one up to each '&', and one without '=' is ignored |
| RequestFields.LastPairWins | src/utils.cpp:96-103 | a key's value is that of its last pair |
| RequestFields.ExtractQueryParameters | src/utils.cpp:76-106 | the loop over '&'-separated pairs computes that map |
| RequestFields.ExtractHeaderValue | src/utils.cpp:54-73 | the loop over white space and the line-end search compute the header's value |
| RequestFields.MissingHeader | src/utils.cpp:58-61 | a header that is missing reads as the empty text |
| RequestFields.LineEndCases | src/utils.cpp:68-72 | a value ends at the next CRLF; when none follows at all, at the next LF or the end |
| RequestFields.PrintedHeaderReads | src/utils.cpp:54-73 | a printed header's value comes back: any value that starts with no blank and has no CRLF inside |
| RequestFields.NoSessionId | src/session_manager.cpp:34-54 | no cookie header, no session id behind it, or no end of the id: no id |
| RequestFields.CookieRoundTrip | src/session_manager.cpp:33-55 | an id sent back as the first cookie is read exactly when it is ended by ';' or no ';' follows in the whole request |
| RequestFields.SessionIdToLineEnd | src/session_manager.cpp:33-55 | an id ended by CRLF is read exactly if and only if no ';' follows in the whole request |
| Escapers.JsonEscapeLoop | src/handlers/status.cpp:26-42 | the loop computes the escaped text |
| Escapers.JsonReadsBack | src/handlers/status.cpp:26-42 | a JSON string reader, which fails on a bare quote or control character, returns the original |
| Escapers.JsonCopies | src/handlers/status.cpp:37-39 | characters that need no escape are copied |
| Escapers.JsonEscapes | src/handlers/status.cpp:30-36 | a quote or backslash gets a backslash, a control character four lower-case hex digits |
| Escapers.JsonInjective | src/handlers/status.cpp:26-42 | different texts escape differently |
| Escapers.HtmlEscapeLoop | src/handlers/echo.cpp:22-45 | the loop computes the escaped text |
| Escapers.HtmlReadsBack | src/handlers/echo.cpp:22-45 | an entity reader, which fails on a bare bracket or quote, returns the original |
| Escapers.HtmlInjective | src/handlers/echo.cpp:22-45 | different texts escape differently |
| Registry.ReachableCovered | src/handlers/admin.cpp:135-200 | in every reachable registry the tagged paths are exactly the registered paths |
| Registry.TagsByHistory | src/handlers/admin.cpp:135-200 | a path's tag is the type it was given last, its first object is of the class it was given first |
| Registry.RulesInOrder | src/handlers/admin.cpp:140-151 | the rule vector holds exactly the objects of the run's adds with a known type, payloads included, in order |
| Registry.FirstRuleIs | src/handlers/admin.cpp:140-151 | the first rule of a path is the object of its first add with a known type |
| Registry.ChosenIsCgiIff | src/handlers/cgi.cpp:12-31 | a rule is chosen exactly when the last type given is CGI, and is a CgiRoute exactly when the first was |
| Registry.OneTypeIsSafe | src/handlers/cgi.cpp:16-27 | a run that never gives a path two types only ever executes CgiRoute objects for it |
| Registry.TwoTypesConfuse | src/handlers/admin.cpp:192-196 | an add and an update with different types make dispatch choose an object of the other class |
| Registry.RouteRegistry.AddRule | src/handlers/admin.cpp:135-164 | a known type appends an object with its decoded payload and tags the path; an unknown one changes nothing; coverage is kept |
| Registry.RouteRegistry.UpdateRule | src/handlers/admin.cpp:166-200 | only the tag of a registered path with a known type is rewritten; coverage is kept |
| Registry.RouteRegistry.CgiDispatch | src/handlers/cgi.cpp:12-31 | the loop that indexes the tag map inserts nothing and returns the first-registered rule with the path when its tag is CGI |
| Router.AuthIff | src/router.cpp:46-58 | a request is granted exactly when what its Authorization header holds behind six characters decodes to "admin:admin"; a missing header is denied, one of one to five characters throws |
| Router.SessionHistory | src/router.cpp:124-174 | an id reads as authenticated exactly when, since it was last minted, some /admin/ request carrying it presented valid credentials |
| Router.SessionsKnown | src/router.cpp:141-174 | the session map holds exactly the ids granted or minted in the run, each with one of the two values |
| Router.AdminIffAuthorized | src/router.cpp:128-161 | an admin handler runs exactly for a request to its path, one of the seven of the table, with valid credentials or, except on /whoami, such an id |
| Router.WhoamiIgnoresSessions | src/router.cpp:129-144 | the answer to /whoami depends on the request's own credentials alone and changes no state |
| Router.RegistryFollows | src/router.cpp:152-158 | the registry of every run is the one built by its authorised add and update requests in order |
| Router.RegistryByRequests | src/handlers/admin.cpp:135-200 | a path's first rule is the object its first executed add request describes, by the parameters type, path, directory and executable; its tag is the type its last executed add or update named |
| Router.ExecutedRule | src/router.cpp:163-167 | a rule is executed exactly for a path under /cgi-bin/ whose last executed add or update named "cgi"; it is the object the first executed add describes, with that request's decoded executable or directory |
| Router.AddedReadable | src/handlers/admin.cpp:140-149 | the payload of every executed add is one the decoder reads |
| Router.RegistryChangesOnlyAuthorized | src/router.cpp:127-158 | only an authorised request to add_rule or update_rule changes the registry |
| Router.DispatchShape | src/router.cpp:62-178 | one dispatch in terms of the state before it: when an admin handler runs, which ids read as authenticated after it, which rules change |
| Router.DispatchOutcome | src/router.cpp:62-178 | which handler every request comes to: 405 or 400 by the token left, each open route by its path, refused or aborted by the authorisation, an admin handler, the rule of its path, or a static file; an id is minted exactly for a visitor without one who is served a static file |
| Router.PrintedCredentials | src/router.cpp:46-58 | a request with a printed Basic header is granted exactly when its pair is the one account's |
| Router.Dispatcher.RequireAuth | src/router.cpp:46-58 | reading the header, extracting the pair and comparing it computes the authorisation decision |
| Router.Dispatcher.RunHandler | src/router.cpp:152-158 | the registry handlers change the registry, the others nothing modelled here |
| Router.Dispatcher.Serve | src/router.cpp:163-176 | a CGI rule, else a static file with a fresh session for a visitor without an id |
| Router.Dispatcher.HandleRequest | src/router.cpp:62-178 | the early-return chain over the globals computes one dispatch |

## Left out

- Sockets, `poll`, `accept`, `send`, `recv`, response pages and header text: input and output without state of interest here.
- `popen`, the staging of the CGI helper, static files, MIME types, error pages and the status counter: operating-system behaviour, or tables and counters without invariants.
- ZIP deployment: miniz is not part of this model.
- Dates, `rand`, `time` and process ids: timestamps, clock ticks, log entries and freshly minted session ids are parameters of the steps.
- The upload handler's 32-bit sum and the whoami identity record: their handlers change no state modelled here.
- Deletion of a sink that records still name: a sink is an identity, not memory.
- Data races on `sessions`, `g_sink` and the registry: one dispatch, one log call, one install and one critical section are one atomic step each.
- `size_t` wrap-around, failing allocations and failing `fopen`, `rename` or `remove`: lengths are unbounded and the calls succeed.
- A null sink passed to `install_log_sink`, and `enqueue_log_record` called before any install: no caller does either.
- Submitting to the pool once its destruction has started: its owner joins the accept loop first.
- Non-ASCII `isspace` and plain `char` as unsigned: `char` is signed, so a table entry of -1 reads as a word of all ones.
- Percent.UrlDecode: an escape of two white-space characters leaves the decoded variable unwritten and is excluded by a precondition.
- Percent.SystemStatus: requires the exact condition of FitsIff, because beyond it the code writes past its buffer.
- Percent.EstimateDecodedLength: takes the two bytes after the NUL to be zero, as in the cleared request buffer (src/main.cpp:140-145); not modelled is a request that leaves no room for them in that buffer.
- Base64.Codec.DecodeBuffer: excludes the empty text, on which the code reads before its buffer; an Authorization value of exactly six characters is excluded for the same reason.
- HttpRequest.RequestObject.ParseInto: requires that the copied path fits its 200 bytes, which the code does not check.
- Credentials.AcceptedIff: speaks of canonical encodings only; other texts decode too, but are no encoding of anything.
