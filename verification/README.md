# CacheProof, modelled and proved in Dafny

CacheProof is a proxy that speaks the Redis protocol, stands between an application and its Redis, and injects
faults: missed reads, an outage, an emptied cache. This project models its four parts and proves what each is for.

* **Codec** (`Bytes`, `Streams`, `Replies`, `ReplyTrees`, `Commands`, `Values`, `Client`). Readers are methods over a
  buffered stream, each proved against a parsing function on byte strings. The functions are then proved against
  independent definitions: a grammar of reply trees, an encoder, a meaning of trees.
* **Proxy** (`Faults`, `Handler`, `Synthetic`, `Masking`, `ProxyState`, `Interleaving`). `Handler` is the loop of one connection.
  `Masking` proves that what an application sees is a Redis with some keys masked. `Interleaving` is the state machine
  of all goroutines, one event per lock section or operation on a connection, and `ProxyState` the lock-protected object.
* **Policy** (`Globs`, `Config`, `Scanning`, `ColdCache`, `Audit`). The SCAN loops against a server whose every reply is
  arbitrary, with Redis's documented SCAN guarantee as a hypothesis of the completeness lemmas only.
* **Bookkeeping** (`Recording`, `Reporting`, `Orchestration`). Counters, verdicts, and the order of a whole run.

The command for the whole project is `dafny verify dfyconfig.toml`. Hypotheses about Redis or the surroundings are
always preconditions of a lemma, stated in its header.

## How the code was read

Points at which the code is easily misread, all of them modelled as they are:

* A line's whole trailing run of CR and LF is dropped, and numbers may carry signs and leading zeros, so encodings
  are not canonical. Reply trees keep their header lines verbatim for that reason.
* The CRLF after a bulk is checked in commands and not in replies. A negative count ends an attribute as well, and
  the reply after an attribute counts as one level deeper.
* A rejection that cannot be written to the application does not end the connection's loop; every other reply does.
* An engine switch reaches a connection between two commands: a command whose engine was read before the switch is
  still forwarded. During an outage new connections are accepted and then closed, not refused by the listener. On
  both points the program's documentation (README.md:28-29) is shorter than the code, which is followed here.
* A scenario name that matches nothing (README.md:133) runs the baseline alone.

## What turned out false, and exactly when it holds

* *Requests and replies stay in lockstep.* Not when something inside a reply makes the typed reader stop and more of
  the reply follows: the rest then answers the next request. What makes it stop is an error reply, a kind it does not
  know (an attribute, a boolean, a bulk error), a bad integer, or a map key that cannot be one
  (`Client.NestedErrorBreaksLockstep`, `Client.UnknownKindBreaksLockstep`). For every reply frame, the connection stays
  in step if and only if the frame has no stopper, or one as its very last part (`Client.InStepExactly`). Errors at the
  top level, and so the fallback from UNLINK to DEL, are safe (`Client.TopLevelRefusalInStep`), and against frames in
  step any batch of calls works (`Client.DoAll`).
* *The proxy knows the negotiated protocol.* Not when the server refuses a HELLO with a bulk error, which the proxy
  takes for acceptance: the next synthetic nil then has the wrong form (`Masking.RefusedHelloMisleads`). In every run
  the proxy's idea agrees with the server's throughout if and only if no HELLO that would change the protocol was
  refused that way (`Masking.NegotiationExactly`).
* *Nothing is added to the wait group at zero while somebody waits.* Not when a shutdown gives up before the proxy is
  started: its waiter may still be there at the start (`Interleaving.RaceIsReachable`). That is the only race, exactly
  (`Interleaving.NoAddAtZero`), and a caller who starts first never sees it (`Interleaving.StartFirstNeverRaces`).
* *Deleted keys share a literal prefix of the configured length.* Not when the pattern contains backslashes, which the
  check counts as literal bytes (`Globs.EscapedPatternIsTooWide`). For patterns without character classes, the matching
  keys share `n` leading bytes if and only if the literal part with escapes resolved has `n` bytes
  (`Globs.SharedPrefixExactly`), and without backslashes the checked prefix is that part (`Globs.LiteralLength`).
* *An error reply is one frame.* If and only if its line fits the limit of 1 MiB (`Faults.ErrorReplyIsFrame`); the
  messages the proxy produces always do.

## Model

| member | source | states |
|---|---|---|
| Bytes.AtoiOfItoa | internal/resp/parser.go:139-146 | parsing a printed number gives it back, if and only if it fits a 64-bit int |
| Bytes.AtoiExactly | internal/resp/parser.go:139-146 | parsing accepts exactly the decimal forms of the numbers that fit: an optional sign, zeros in front, the digits |
| Bytes.ItoaDigits | internal/resp/client.go:106-110 | a printed number has the digits of its decimal form, as many as it takes and no zero in front |
| Bytes.UpperExactly | internal/resp/command.go:26 | the upper case of a text is the same text with every lower-case letter, and nothing else, replaced by its capital |
| Bytes.UpperFolds | internal/resp/command.go:26 | two texts have the same upper case if and only if they differ in case only |
| Bytes.TrimTerminated | internal/resp/parser.go:140 | trimming removes exactly the terminator, whatever run of CR and LF it is, from text that does not end in one |
| Bytes.FieldsOfSpaced | internal/resp/parser.go:32 | splitting gives the words back, whatever white space is before, between and after them |
| Bytes.SpacedOf | internal/resp/parser.go:32 | every text consists of such words and white space |
| Streams.Reader.ReadSlice | internal/resp/parser.go:95 | a chunk is the stream up to its first LF, or a full buffer, or the unfinished rest |
| Streams.ReadRESPLine | internal/resp/parser.go:92-107 | for every stream and buffer size the chunked loop returns what the simple line specification says, errors included |
| Streams.LineExact | internal/resp/parser.go:92-107 | a line is read if and only if the stream starts with it, it has at most 1 MiB, and its only LF is its last byte |
| Replies.ReadReplyRaw | internal/resp/reply.go:14-21 | the returned bytes are exactly the consumed ones; outcome and kind are those of the reply specification |
| Replies.ReadReplyRawDepth | internal/resp/reply.go:23-36 | appends to the shared buffer exactly what it consumes, at every depth, and terminates |
| Replies.KindsExactly | internal/resp/reply.go:38-92 | the kind bytes of one-line replies, bulks, lists and pairs, by their characters |
| Replies.ReadBody | internal/resp/reply.go:38-112 | the same for what follows the first line, kind by kind |
| Replies.ReadPayload | internal/resp/reply.go:49-57 | a bulk takes its length and two more bytes, whatever they are |
| Replies.ReadElements | internal/resp/reply.go:58-108 | aggregates, maps, and attributes with the reply after them |
| Replies.ReadReplies | internal/resp/reply.go:69-73 | the loop consumes and copies exactly as many frames as were announced |
| ReplyTrees.ReplyGrammar | internal/resp/reply.go:12-112 | a frame of n bytes and a kind is accepted if and only if these bytes are the text of a tree of that kind within the size and depth limits |
| ReplyTrees.ReadsTree | internal/resp/reply.go:23-112 | the text of a tree followed by anything is read as exactly that text and kind if its depth fits 128, and is refused as too deep otherwise |
| ReplyTrees.SelfDelimiting | internal/resp/reply.go:14-112 | an accepted frame followed by any other suffix is read the same |
| ReplyTrees.PrefixFree | internal/resp/reply.go:14-112 | no accepted frame is a proper prefix of another |
| ReplyTrees.NodesBound | internal/resp/reply.go:23-112 | every node of a reply takes at least two bytes |
| ReplyTrees.FrameNodes | internal/resp/reply.go:23-112 | a frame of n bytes has a tree with at most n / 2 nodes |
| Commands.ReadCommand | internal/resp/parser.go:19-90 | outcome, arguments, raw bytes and position after it are those of the command specification; the name is the first argument in upper case |
| Commands.CommandNamed | internal/resp/command.go:23-29 | every command that is read has arguments and is named after the first, in upper case |
| Commands.SameName | internal/resp/command.go:23-29 | two commands have the same name, which has no lower-case letter, if and only if their first arguments differ in case only |
| Commands.KeyExactly | internal/resp/command.go:11-37 | a command has a key exactly if its name is one of the listed ones and it has a second argument, which is the key |
| Commands.ReadInline | internal/resp/parser.go:24-37 | the same for inline commands |
| Commands.ReadArgs | internal/resp/parser.go:57-88 | the loop's raw bytes are exactly what it consumed |
| Commands.ReadArg | internal/resp/parser.go:59-87 | one argument: prefix, length, payload and its checked CRLF |
| Commands.EncodeCommand | internal/resp/client.go:103-116 | the loop builds the encoding |
| Commands.EncodingExample | internal/resp/client.go:103-116 | the encoding of LLEN mylist, byte for byte |
| Commands.EncodedHeader | internal/resp/client.go:103-116 | an encoded length is a line that reads back as that length |
| Commands.CommandRoundTrip | internal/resp/client.go:103-116 | an encoded command followed by anything is read back with its arguments, its own bytes as raw and its name, if it is within the limits, and refused otherwise |
| Commands.CommandGrammar | internal/resp/parser.go:38-89 | the reader accepts exactly the command arrays within the limits: the announced number of arguments, lengths in any decimal form, each argument as long as announced and followed by CRLF |
| Commands.InlineRoundTrip | internal/resp/parser.go:24-37 | every inline line is read as its words, with the line as raw bytes, is refused if it has none, and is too long beyond the limit |
| Commands.Pipelining | internal/resp/parser.go:19-90 | the encodings of any list of commands are read back one by one, in order, each with its own raw bytes, leaving what follows |
| Commands.CommandSelfDelimiting | internal/resp/parser.go:19-90 | an accepted command followed by any other suffix is read the same |
| Commands.CommandPrefixFree | internal/resp/parser.go:19-90 | no accepted command is a proper prefix of another |
| Commands.RawIsWhole | internal/resp/parser.go:36-89 | the raw bytes of a command alone are that command |
| Client.ReadValue | internal/resp/client.go:118-210 | the recursive typed reader gives the specified value, refusal or failure, and stops where specified |
| Client.ReadItems | internal/resp/client.go:160-179 | the loop over the elements of an aggregate |
| Client.ReadEntries | internal/resp/client.go:180-206 | the loop over the entries of a map, later values of a key replacing earlier ones |
| Client.ReadPair | internal/resp/client.go:193-204 | a map key is checked before its value is read |
| Values.ReadsMeaning | internal/resp/client.go:118-210 | on the text of any reply tree within the depth limit, the typed reader gives the tree's meaning, whatever follows |
| Values.MapKeyInjective | internal/resp/client.go:212-218 | different values are different map keys |
| Client.ValueRoundTrip | internal/resp/client.go:118-179 | what a server sends for a value of strings, integers, nils and nested arrays is read as that value, whatever follows |
| Client.LineReplies | internal/resp/client.go:132-143 | a simple string is read as its text, an error refuses with its text, a RESP3 null is nil |
| Values.StopsExactly | internal/resp/client.go:118-218 | a whole reply gives a value if and only if it holds no stopper, and is then read to its end; otherwise reading stops inside it, at its end exactly if the stopper is its last part |
| Client.ReadersAgree | internal/resp/client.go:118-210 | where the typed reader succeeds the byte-preserving one succeeds on the same bytes; and a top-level error is a whole frame for both |
| Client.MeaningOfFrame | internal/resp/client.go:118-210 | the typed reader's result on a frame does not depend on what follows it |
| Client.InStepExactly | internal/resp/client.go:118-218 | reading any reply frame leaves the stream at the frame's end if and only if it holds no stopper or ends in its only one |
| Client.TopLevelRefusalInStep | internal/resp/client.go:134-135 | an error reply at the top level is consumed whole |
| Client.Lockstep | internal/resp/client.go:118-210 | against frames none of which is out of step, the i-th reading gives what the i-th frame means on its own |
| Client.DoAll | internal/resp/client.go:69-101 | any sequence of calls against a server that sends one frame in step for each command: exactly the encodings are sent, the i-th call returns what the i-th frame means, and what follows the last frame is left |
| Client.NestedErrorBreaksLockstep | internal/resp/client.go:172-176 | an array with an error before its end leaves the rest for the next request |
| Client.UnknownKindBreaksLockstep | internal/resp/client.go:207-209 | so does an array with a boolean before its end, although it holds no error |
| Client.Connection.Do | internal/resp/client.go:69-101 | sends the encoding and reads one reply; with no arguments there is no traffic |
| Faults.MissThreshold | internal/fault/random_miss.go:44-58 | at every probability a key is missed if and only if its bucket lies below the threshold |
| Faults.DecideExactly | internal/fault/random_miss.go:22-34 | a command is replaced by a miss exactly if it is GET, GETEX, GETDEL or HGET with a key whose bucket lies below the threshold; every other command is forwarded |
| Faults.BucketExactly | internal/fault/random_miss.go:51-56 | the bucket is the FNV-1a hash of the seed's eight bytes and then the key, modulo a million |
| Faults.FnvExamples | internal/fault/random_miss.go:51-56 | the published hash values of the empty string and of a |
| Faults.MissesGrow | internal/fault/random_miss.go:44-58 | the missed keys grow with the probability, from none at 0 to all at 1 |
| Faults.MissDependsOnKeyOnly | internal/fault/random_miss.go:22-34 | two read commands for one key are decided alike |
| Faults.NilReplyIsFrame | internal/resp/reply.go:118-123 | the synthetic nil is one frame of the negotiated protocol's kind |
| Synthetic.NilReadsAsNil | internal/resp/reply.go:118-123 | a client reads the synthetic nil as nil, in either protocol |
| Synthetic.ErrorReadsAsRefusal | internal/resp/reply.go:125-129 | a client reads a synthetic error as a refusal with its message, line ends replaced by spaces |
| Faults.ErrorReplyIsFrame | internal/resp/reply.go:125-129 | an error reply is exactly one error frame, whatever the message, if and only if its line fits the limit |
| Handler.HandleConn | internal/proxy/conn.go:56-106 | bytes received by the application, bytes sent upstream, bytes taken from upstream and commands shown to the recorder are those of the specified trace, under every schedule of engines and cancellation |
| Handler.HandleCommand | internal/proxy/conn.go:73-121 | one command: the reply, and that the raw bytes go upstream if and only if it is forwarded |
| Handler.RunHandlesRight | internal/proxy/conn.go:73-105 | in every run nothing but the listed commands is refused, with the stated text, nothing but reads of missed keys is answered with nil, and everything else is forwarded |
| Handler.RejectsExactly | internal/proxy/unsupported.go:3-18 | the fourteen refused names, under any engine but pass-through |
| Handler.HelloExactly | internal/proxy/conn.go:123-133 | a command asks for a protocol exactly if it is HELLO 2 or HELLO 3 |
| Masking.RunAnswers | internal/proxy/conn.go:57-106 | in every run the i-th reply is one frame that answers the i-th command, the application gets exactly the writable ones in order, and only an unwritable rejection does not end the loop |
| Masking.ObservedIsRead | internal/proxy/conn.go:62-71 | in every run the recorder is shown the application's commands in order, each once, and all of them if the input ends the loop |
| Masking.PassThroughIsTransparent | internal/proxy/conn.go:86-121 | without faults upstream gets exactly the consumed application bytes and the application exactly the consumed upstream bytes |
| Masking.MaskedRefinement | internal/proxy/conn.go:57-106 | for every lawful server, schedule and moment at which the application goes: upstream receives exactly the kept ones of the handled commands and final states agree; the proxy's replies are those of the masked server, synthetic nils in the negotiated protocol, if no HELLO that matters was refused by a bulk error |
| Masking.NegotiationExactly | internal/proxy/conn.go:92-94 | the protocol flag equals the server's protocol through the whole run if and only if no HELLO that would change it was refused by a bulk error |
| Masking.RefusedHelloMisleads | internal/proxy/conn.go:92-94 | after such a HELLO the next synthetic nil is in the wrong protocol |
| Masking.ProxyIsMaskedRedis | internal/proxy/conn.go:57-121 | under one engine the application receives the beginning of what the masked server sends, byte for byte, and all of it if it keeps listening; the real server, reading the bytes sent to it, is in the masked server's state for the handled commands |
| Masking.MaskIsLawful | internal/proxy/conn.go:77-99 | a masked server is itself a server: one frame per command, and only an accepted HELLO changes the protocol |
| Masking.UpstreamReadsSame | internal/proxy/conn.go:109-112 | a server that parses the bytes sent upstream finds exactly the commands that were sent |
| Masking.AcceptingServerIsLawful | internal/proxy/conn.go:86-94 | the hypothesis on servers can be met, also by one that changes protocol |
| ProxyState.Proxy.SetEngine | internal/proxy/proxy.go:99-106 | only the engine changes; none means pass-through |
| ProxyState.Proxy.RegisterConn | internal/proxy/proxy.go:137-141 | adds the connection and changes nothing else |
| ProxyState.Proxy.UnregisterConn | internal/proxy/proxy.go:143-147 | removes the connection and changes nothing else |
| ProxyState.Proxy.TakeListener | internal/proxy/proxy.go:71-76 | only the first shutdown gets the listener |
| ProxyState.Proxy.CloseAllConns | internal/proxy/proxy.go:117-129 | every registered connection is closed, none is registered or unregistered |
| Interleaving.EventKeepsInv | internal/proxy/proxy.go:50-168 | every event of every goroutine keeps the invariant: the wait group counts accept loop and handlers, registered connections have live handlers, and an outage is contained |
| Interleaving.OutageIsContained | internal/proxy/conn.go:23-33 | in every interleaving, after the switch each connection forwards at most one more command, and after the close of all connections every open one belongs to a handler before its check that has forwarded nothing |
| Interleaving.OutageIsPermanent | internal/proxy/conn.go:73-76 | while the engine stays unavailable none of those connections, and none accepted later, ever passes its check or forwards |
| Interleaving.ClosedForGood | internal/proxy/proxy.go:117-129 | a closed connection stays closed and no further reply is written to it |
| Interleaving.ShutdownIsFinal | internal/proxy/proxy.go:70-97 | when shutdown of a started proxy returned nil there is no accept loop, handler, registered or open connection, and never will be |
| Interleaving.NoAddAtZero | internal/proxy/proxy.go:65-97 | the wait group never goes below zero, only the start adds to it at zero, and that races with a waiter exactly if a shutdown gave up before the start and its waiter is still there |
| Interleaving.StartFirstNeverRaces | internal/proxy/proxy.go:65-97 | if no shutdown gives up before the proxy is started, no addition of the whole run races |
| Interleaving.RaceIsReachable | internal/proxy/proxy.go:65-97 | there is such a race |
| Interleaving.StoppedIsReachable | internal/proxy/proxy.go:70-97 | a shutdown can come to its end |
| Interleaving.ClosedIsReachable | internal/orchestrator/scenario.go:53-55 | an outage can be complete, after a connection forwarded its one command |
| Interleaving.LifeIsReachable | internal/proxy/conn.go:16-107 | a connection can live its whole life and leave nothing behind |
| Globs.MatchStartsLiteral | internal/policy/cold_cache.go:108-124 | every key a pattern matches starts with the pattern's literal part, escapes resolved |
| Globs.SafeExactly | internal/policy/cold_cache.go:108-124 | the check accepts exactly the patterns other than the empty one and a lone star whose first bytes, as many as configured, are there and no wildcards |
| Globs.LiteralLength | internal/policy/cold_cache.go:112-121 | the checked prefix exceeds the literal part by at most its backslashes, and is the literal part if it has none |
| Globs.SafePatternPrefix | internal/policy/cold_cache.go:108-124 | keys matched by an accepted pattern without backslashes start with a prefix at least as long as configured |
| Globs.EscapedPatternIsTooWide | internal/policy/cold_cache.go:112-121 | a pattern accepted for three literal bytes matches a key of two |
| Globs.SharedPrefixExactly | internal/config/validate.go:162-178 | matching keys share n leading bytes if and only if the resolved literal part is that long (patterns in which every `[` is escaped) |
| Config.UniqueNames | internal/config/validate.go:98-110 | the names that came before, each time they come again, in order; none if and only if the names are distinct |
| Config.RepeatsExactly | internal/config/validate.go:98-110 | a name is complained about if and only if it stands at two places |
| Config.CheckScenario | internal/config/validate.go:33-58 | no complaint if and only if the scenario is valid, and each complaint exactly when its condition holds |
| Config.Validate | internal/config/validate.go:30-58 | no complaint if and only if names are distinct and every scenario is valid; the complaints are exactly those about repeated names and about scenarios |
| Scanning.ParseKeys | internal/policy/auditor.go:169-177 | all keys in order, if and only if all are strings |
| Scanning.ParseScanExactly | internal/policy/auditor.go:156-178 | a SCAN reply is read as a cursor and keys if and only if it is the array of that cursor and the array of those keys |
| Scanning.PageExactly | internal/policy/auditor.go:156-178 | the page the loops work on has the reply's cursor and all of the reply's keys |
| Scanning.UnknownExactly | internal/resp/client.go:220-226 | a reply is taken for an unknown command exactly if it is a refusal that says so somewhere, in whatever case |
| Scanning.ContainsExactly | internal/resp/client.go:220-226 | the search finds the words if and only if they occur somewhere |
| ColdCache.DeletePattern | internal/policy/cold_cache.go:66-106 | counts successful commands, stays within its budget, deletes only keys SCAN returned for the pattern, tries no UNLINK after a DEL, and with budget to spare sweeps the pattern to the end; an error is a reply of the server |
| ColdCache.DeleteKeys | internal/policy/cold_cache.go:80-100 | one page: with budget to spare none of its keys is left; no UNLINK after a DEL; an error is a refused or lost delete command |
| ColdCache.DeleteKey | internal/policy/cold_cache.go:84-97 | which commands are sent for one key, with DEL exactly after an UNLINK the server does not know; success is that of the last one |
| ColdCache.DeleteColdCache | internal/policy/cold_cache.go:14-64 | the budget over all profiles and patterns, exact count on success and no overcount on error, only permitted deletions, completeness below the budget, and the exact cause of every error |
| ColdCache.SweptMeansGone | internal/policy/cold_cache.go:70-104 | with SCAN's guarantee no key matching a swept pattern remains |
| ColdCache.ValidateAndDelete | internal/policy/cold_cache.go:14-64 | from validation to the last deletion: a valid configuration never fails the permission or pattern check, every deletion is of a key with the literal part of a checked disposable pattern, and success below the budget leaves no key that a disposable pattern matches |
| ColdCache.PermittedMeansPrefixed | internal/policy/cold_cache.go:108-124 | every deleted key starts with the literal part of a checked disposable pattern |
| Audit.AuditKeys | internal/policy/auditor.go:109-132 | one page: counters equal the violations among the keys asked for, within the budget |
| Audit.AuditPattern | internal/policy/auditor.go:91-136 | one pattern: the same, and all keys of a full iteration were asked for if budget is left |
| Audit.AuditTTL | internal/policy/auditor.go:88-154 | TTL queries over all profiles and patterns stay within one budget; findings are those of all patterns in order; an error is a SCAN or TTL reply that cannot be used |
| Audit.CountedOnce | internal/policy/auditor.go:122-131 | each examined key adds to at most one counter |
| Audit.TtlExactly | internal/policy/auditor.go:180-192 | a TTL reply is read as a number exactly if it is that integer or a decimal text of it |
| Audit.TtlReads | internal/policy/auditor.go:180-192 | integers and their decimal texts are read as they are; nil, arrays and maps are no TTL |
| Audit.WholeSeconds | internal/policy/auditor.go:129 | comparing in whole seconds decides as comparing the exact durations |
| Audit.AuditIsExact | internal/policy/auditor.go:88-154 | with budget left and SCAN's guarantees a pattern has a finding if and only if a matching key violates its profile |
| Audit.AuditExactly | internal/policy/auditor.go:88-154 | the whole audit: with budget left, SCAN's guarantees and truthful replies, a pattern is reported for a violation if and only if some key it matches violates its profile that way |
| Audit.AuditAll | internal/policy/auditor.go:34-86 | the findings are contract violations, big values and TTL findings in this order, or one all-clear |
| Audit.ViolationsExactly | internal/policy/auditor.go:38-67 | what is reported, in both directions, with which level, and that a failure is reported exactly for a suspicious command beside a disposable profile |
| Recording.ValueSize | internal/recorder/value_size.go:5-32 | the size of the written value, for HSET the largest field value |
| Recording.SizeOfExactly | internal/recorder/value_size.go:5-32 | which commands write a value, and which argument its size is that of |
| Recording.LargestField | internal/recorder/value_size.go:15-25 | an upper bound of all field values that one of them reaches |
| Recording.Recorder.Observe | internal/recorder/recorder.go:51-73 | appends one row to the history, and every field stays the tally of the history it stands for |
| Recording.Recorder.SetScenario | internal/recorder/recorder.go:42-49 | changes the scenario of later rows and no count |
| Recording.Recorder.TakeSnapshot | internal/recorder/recorder.go:75-99 | equal counts in fresh maps |
| Recording.Conservation | internal/recorder/recorder.go:51-62 | observed rows are the sum of the command counts, and each command's count is its sum over scenarios, for every history |
| Recording.LargestIsMaximum | internal/recorder/recorder.go:65-68 | the largest size seen bounds all observed sizes and is one of them |
| Recording.OversizedExactly | internal/recorder/recorder.go:69-71 | with a positive limit some value was too big if and only if the largest was |
| Recording.SnapshotThenMany | internal/recorder/recorder.go:75-99 | a snapshot tells the history up to it and keeps telling it through any sequence of later observations and scenario changes |
| Reporting.BuildRunResult | internal/report/model.go:24-64 | outcomes mirror their inputs, a scenario passes if and only if its probes do, and the summary counts exactly |
| Reporting.DisposableExactly | internal/report/model.go:24-64 | passed and failed scenarios add up, and the verdict is disposable if and only if every probe passed and no finding is a failure |
| Reporting.BuildSuite | internal/report/junit.go:27-50 | one case per probe and per failing finding, in order, and failures counted exactly |
| Reporting.CaseExactly | internal/report/junit.go:29-37 | a probe's case carries scenario and probe name, and fails exactly if the probe did, with its first failure |
| Reporting.FindingCasesFail | internal/report/junit.go:40-49 | failing finding cases number the FAIL findings, and the WARN findings too under fail-on warn |
| Reporting.VerdictsAgree | internal/report/model.go:66-74 | for each fail-on the exit code is nonzero if and only if the JUnit suite has a failure |
| Orchestration.RunMeasuredProbes | internal/orchestrator/lifecycle.go:17-41 | every probe once, in order, up to the first that cannot be run, each against the baseline result of its name; what is returned is what the probes answered |
| Orchestration.RunRound | internal/orchestrator/lifecycle.go:57-63 | one round of warm-up runs all probes in order and stops at the first that fails |
| Orchestration.RunWarmup | internal/orchestrator/lifecycle.go:53-75 | success is at most as many failed rounds as may be retried, each with a wait after it, and a complete one; failure is retries + 1 failed rounds or a wait cut short |
| Orchestration.PrepareScenario | internal/orchestrator/scenario.go:49-65 | the scenario's engine is set on success and none on failure; an outage closes connections after the switch |
| Orchestration.RunScenario | internal/orchestrator/scenario.go:16-47 | on success exactly reset, warm-up, ping, fault, measured probes; an error is the failure of what was done last, or an unknown type; all of it disciplined on every exit |
| Orchestration.RunBaseline | internal/orchestrator/orchestrator.go:81-123 | the same for the baseline; a finding of no traffic if and only if no row was observed meanwhile |
| Orchestration.RunSelected | internal/orchestrator/orchestrator.go:125-136 | pass-through before and after every scenario, on every exit; on success exactly the selected scenarios in order |
| Orchestration.Run | internal/orchestrator/orchestrator.go:69-148 | on every exit a fault engine was active only in its own measured window and pass-through is restored; an error is the failure of what was done last; a report comes with the complete log of the run, event by event; by that log it is disposable exactly if every probe passed, there was traffic and the audit found no failure, and its probes are the logged answers in order |
| Orchestration.ReportIsFaithful | internal/orchestrator/orchestrator.go:98-147 | the report's verdict and each reported probe's name, verdict, latency and failures follow from the log alone |
| Orchestration.EngineExactly | internal/orchestrator/scenario.go:51-62 | which engine each type of scenario runs with |
| Orchestration.OwnBaseline | internal/orchestrator/lifecycle.go:20-32 | every probe has a baseline result, and with distinct names it is its own |
| Orchestration.CompletedRun | internal/orchestrator/orchestrator.go:98-147 | in a reported run every measured probe was compared with the baseline result of its name, and nothing failed but warm-up probes that were retried |
| Orchestration.SelectedExactly | internal/orchestrator/orchestrator.go:125-128 | the selected scenarios are exactly the ones asked for, each as often as it is there and in the configuration's order; all if none was named |

## Left out

- Sockets, deadlines, timeouts, dialing (with its AUTH and PING), panics and logging: a connection is a byte string and a flag, a blocking call is an event that may happen. No claim is made that shutdown or a switch ends promptly.
- Write errors and partial writes towards upstream, and partial writes towards the application: a write either delivers all its bytes or none.
- Unsolicited RESP3 pushes, the RESET command, and a HELLO queued inside MULTI: the upstream sends exactly one frame per command, and changes protocol exactly when it answers a HELLO 2 or 3 without an error.
- Unicode: upper case, comparison without case and white space are the ASCII ones.
- Error texts: errors are told apart by their cause, not by their message; so `IsUnknownCommand` on a malformed reply whose error text quotes the words is not modelled.
- Faults.MissThreshold: probabilities are real numbers; rounding of the binary fraction a bucket is divided into is not modelled.
- Audit.WholeSeconds: durations are whole nanoseconds; the rounding of their conversion to floating-point seconds is not modelled.
- Audit.AuditIsExact: assumes that TTL replies are truthful and that keys and TTLs do not change during the audit.
- ColdCache.DeleteColdCache: failures of the address lookup and of dialing are left out, as they come before anything is deleted; whether the address is a loopback address is an input. Deleted counts are successful commands, since SCAN may repeat keys.
- Globs.SharedPrefixExactly: character classes are matched by an arbitrary rule, for which only the forward direction (Globs.MatchStartsLiteral) holds.
- Interleaving.NoAddAtZero: the proxy is started at most once, and one controller thread makes its calls, as the orchestrator does; so no start runs while a shutdown is still in progress.
- Interleaving.ShutdownIsFinal: safety only; a handler may block in its dial.
- The connection loop and the interleaving model are separate: the former takes the other goroutines' effects as a schedule, the latter abstracts commands and replies to events.
- Handler.HandleConn: the initial refuse check and the dial are events of the interleaving model only; the recorder appears as the list of commands it is shown, and its counters are proved separately.
- SHA-256 key hashes are an arbitrary function, so unique keys are unique hashes; FNV-1a is written out, and proved on two published values only.
- Audit.AuditAll: the observed commands come sorted, as an input; names and message texts of findings are reduced to their kinds.
- Config.Validate: YAML, validator tags, version, environment, probe and command checks; the two copies of the delete-pattern check are modelled once.
- Orchestration.Run: probes, reset command, upstream pings and the clock give arbitrary answers; the audit is an arbitrary list of findings here. Starting and shutting down the proxy are part of the interleaving model.
- Terminal, JSON and XML text, and the exit codes 2 and 3.
- Some Go functions are split into several methods here, one per loop or branch, so that each has its own contract.
