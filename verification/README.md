# Honeypot verification

Dafny proofs about the honeypot's six stateful parts: the TCP proxy and its admission control, the PROXY line
between proxy and backend, the in-memory filesystem, the shell's line grammar and evaluator, and the two
least-recently-used stores behind sessions and logins. Objects the program changes in place are classes here, loops
are loops, and every such method is proved against a function or predicate on values; the laws are lemmas about
those. `dafny verify dfyconfig.toml` verifies the whole project.

## What is modelled

**Proxy.** `Sockets` is the operating system: a socket answers each call with the next reply of an arbitrary finite
script and logs, as ghost state, what `recv` returned, what `send` took and how often it was shut down. The source
stream is what `recv` returned, not what the peer wrote: a hang-up may mark the end of input while a full queue
stopped reading. `Pipes.Pipe` is one direction of a session (queue, head offset, end-of-input and half-close flags;
the source keeps these as fields of the session, two of each). `Relay.ProxySession` has one method per handler of
`proxy_server.cpp`. Its invariant `Inv` says that every byte received was sent or is still queued, in order, behind
the PROXY line; that a queue holds at most 65536 bytes plus fewer than 8192 dead ones; that a write half is shut
exactly when its source has ended and its queue is empty; and that the watched events are the desired ones. Every
handler keeps `Inv` or ends the session in a state described by `Over`. `Send` demands that the half was never shut,
so "nothing is sent after shutdown" is an obligation at each call. `ProxyServing.ProxyServer` is the session table:
sessions share no object, and the leases that hold slots are exactly those of the sessions in the table.

**Admission.** `RateSpec` is the token bucket on values; `RateLimiting` is the code, with leases that are moved,
released and destroyed. Tokens and seconds are `real`; the clock is a parameter that never goes back.

**PROXY line.** `ProxyProtocol` prints and parses it (version 1 of the PROXY protocol, section 2.1 of HAProxy's "The
PROXY protocol"); `Preamble` is the backend's reader, called once per fragment; `EndToEnd` joins relay, header and
reader.

**Filesystem.** `FlatFs` is the specification: a prefix-closed map from lists of names to entries, and the byte
counter. `Vfs` is the code: file and directory objects linked through `children`. A ghost map lists the object at
every place; each operation is proved to have exactly the effect and outcome of the specification. `Paths` is
path text, `Chmod` the mode specifications, `Redirect` the write loop of `cat /dev/zero > file`.

**Shell.** `Splitter` has the two quote-aware splitters, `Evaluator` the statement and `&&`/`||` loops over an
arbitrary pipeline function, and the joining of outputs.

**Stores.** `OrderedStore` is the ordered dictionary with time stamps, `SessionManagement` the per-IP session
store, `Auth` pins and failed-login counts. A login is two critical sections; the lockout theorems quantify over
every sequence of such sections, hence over every interleaving of concurrent logins.

## Where the code falls short of a property

Each of these is proved as an exact condition.

- Sweeping idle addresses is unobservable, and the token-bucket bound holds in every window, if and only if
  `rate_burst <= 30 * rate_limit` (or one of the two caps is zero, so that nobody is admitted).
- What SSH receives is independent of fragmentation if and only if the stream does not open with a `PROXY ` line
  whose CRLF ends beyond byte 107.
- A path joined with `/` resolves like its two halves in turn, for every plain second half, if and only if the first
  half is not `-` and does not expand to nothing, or the working directory is the root.
- The redirect loop runs through all its iterations if and only if the target is `/dev/null` and its device node is
  gone: writes to that path are discarded by name, not by node. Otherwise it stops as intended.
- The pipeline splitter cuts `a||b` at the second bar. It agrees with the general splitter if and only if no two bars
  stand next to each other in the open, which holds on every fragment the shell gives it.
- A session number decodes from its epoll token if and only if it is positive and below 2^62.

## Model

| member | source | states |
|---|---|---|
| Pipes.Pipe.Compact | proxy/src/proxy_server.cpp:75-88 | dropping the dead front leaves exactly the queued bytes, at offset 0 |
| Pipes.Pipe.Consume | proxy/src/proxy_server.cpp:90-100 | removes exactly the first n queued bytes, with or without compaction, and keeps the storage bound |
| Pipes.Pipe.InsertAtHead | proxy/src/proxy_server.cpp:629-639 | on a direction where nothing has happened, the inserted bytes become all that is queued and all that is owed first |
| Pipes.Pipe.SendQueued | proxy/src/proxy_server.cpp:728-754 | whatever the socket takes per call, sent plus queued stays what is owed; ends empty, blocked or broken, and says which |
| Pipes.Pipe.ShutIfDrained | proxy/src/proxy_server.cpp:757-767 | shuts the write half at most once, and only with nothing queued and the source at its end |
| Pipes.Pipe.SendDirect | proxy/src/proxy_server.cpp:688-710 | the destination takes exactly a prefix of the chunk; a short prefix means the socket blocked |
| Pipes.Pipe.Forward | proxy/src/proxy_server.cpp:686-717 | every byte of a received chunk is sent or queued behind what waits, in order, within the 64 KiB limit |
| Pipes.Pipe.StorageIsBounded | proxy/src/proxy_server.cpp:23-100 | a queue within its bound holds at most 65536 waiting bytes and at most 8191 more in store |
| Relay.ProxySession.InjectProxyHeader | proxy/src/proxy_server.cpp:629-639 | the PROXY line is queued once, alone, before any client byte |
| Relay.ProxySession.RefreshEvents | proxy/src/proxy_server.cpp:840-877 | afterwards the watched sets are the desired ones for both sockets, and a session that was sound stays so; what the desired ones are is WatchedExactly |
| Relay.ProxySession.FlushWrite | proxy/src/proxy_server.cpp:722-770 | keeps the session invariant or ends the session for cause; a live session has an empty queue or a blocked destination |
| Relay.ProxySession.OnReadEof | proxy/src/proxy_server.cpp:772-792 | marks the source as ended and keeps the invariant: the half-close happens exactly when the queue is empty |
| Relay.ProxySession.MaybeComplete | proxy/src/proxy_server.cpp:794-807 | ends the session exactly when both directions have ended and drained; then both halves were shut once and all owed bytes sent |
| Relay.ProxySession.ReadOnce | proxy/src/proxy_server.cpp:654-719 | one round of the read loop keeps the invariant; if it stops on a live session the source ended, blocked, or the queue is full |
| Relay.ProxySession.PumpRead | proxy/src/proxy_server.cpp:641-720 | terminates, keeps the invariant, and leaves a live session only with its source ended or blocked or 64 KiB queued |
| Relay.ProxySession.FinishConnect | proxy/src/proxy_server.cpp:606-627 | the session survives if and only if SO_ERROR was read and is zero, and is then established with exactly the PROXY line queued for the backend |
| Relay.ProxySession.HandleEvent | proxy/src/proxy_server.cpp:555-604 | any set of events on either socket keeps the invariant or ends the session in a described state; errors always end it, and what was announced is exhausted |
| Relay.NoStuckSession | proxy/src/proxy_server.cpp:857-877 | every unfinished direction of a live session has its destination watched for room or its source for input; a full queue stops reading; connecting sessions watch the backend for room |
| Relay.WatchedExactly | proxy/src/proxy_server.cpp:857-877 | for every sound session, four equivalences in terms of queues, flags and state: when each socket is watched for room and for input, and hang-ups always |
| ProxyServing.TokenRoundTrip | proxy/src/proxy_server.cpp:51-69 | token and session decode to each other exactly for numbers in 1..2^62-1, and never collide with the two reserved tokens |
| ProxyServing.ProxyServer.HandleEvent | proxy/src/proxy_server.cpp:405-427 | the session a token names, and no other, handles the events: it leaves the table exactly when it ends, an error ends it, and otherwise all that was announced is done |
| ProxyServing.ProxyServer.HandleSessionEvent | proxy/src/proxy_server.cpp:555-604 | the named session handles the events; it leaves the table exactly when it ends, and then exactly its own slot is released |
| ProxyServing.ProxyServer.SpawnSession | proxy/src/proxy_server.cpp:465-508 | a session is added exactly if admitted, dialled and watched; on any failure the slot is given back and the table unchanged |
| ProxyServing.ProxyServer.Drop | proxy/src/proxy_server.cpp:809-811 | erasing a session releases exactly one slot of its address and keeps leases and sessions in step |
| ProxyServing.SlotsAreSessions | proxy/src/rate_limiter.cpp:50-76 | in every valid state the global count, the sum over addresses and the table size are equal and within the cap, and so per address |
| RateLimiting.RateLimiter.Charge | proxy/src/rate_limiter.cpp:50-75 | decision and new state are those of the specification, and one more lease is registered exactly on success |
| RateLimiting.RateLimiter.TryAdmit | proxy/src/rate_limiter.cpp:50-76 | as Charge, with the lease moved to the caller; a lease the caller still held is released |
| RateLimiting.RateLimiter.ReleaseFor | proxy/src/rate_limiter.cpp:111-123 | the total and the count of the address go back by one and the address was seen now; tokens and other addresses stay, and the guards never decide |
| RateLimiting.RateLimiter.MaybeSweep | proxy/src/rate_limiter.cpp:78-85 | sweeps exactly if 5 seconds have passed, and touches no lease |
| RateLimiting.RateLimiter.SweepStaleEntries | proxy/src/rate_limiter.cpp:100-109 | erasing while iterating, in any order, an entry goes if and only if it has no live lease and was last seen 30 seconds ago or earlier; the others are unchanged |
| RateLimiting.Lease.MoveFrom | proxy/src/rate_limiter.cpp:28-38 | what the target held is released, the claim changes hands without being counted twice, self-move changes nothing |
| RateLimiting.Lease.End | proxy/src/rate_limiter.cpp:16-21 | a lease that holds a slot gives back exactly that slot; a moved-from lease gives back nothing |
| RateSpec.StepKeepsCoherent | proxy/src/rate_limiter.cpp:50-123 | every step keeps: total equals the sum of the counts, both caps, tokens between 0 and burst, stamps in order |
| RateSpec.SweepKeepsCoherent | proxy/src/rate_limiter.cpp:100-109 | the sweep never erases an address with live leases |
| RateSpec.SweepForgetsExactly | proxy/src/rate_limiter.cpp:8-9 | which addresses a sweep forgets, by count and time in figures; survivors are unchanged |
| RateSpec.AdmitExactly | proxy/src/rate_limiter.cpp:50-98 | for every state: the decision, tokens, counts and stamps after an attempt, from elapsed time, rate and burst, and that nothing else changes |
| RateSpec.ReleaseExactly | proxy/src/rate_limiter.cpp:111-123 | the whole state after a slot is given back |
| RateSpec.SweepingIsInvisibleFrom | proxy/src/rate_limiter.cpp:87-109 | with burst <= 30*rate, the sweeping limiter makes the same decisions as one that never forgets, from any pair of states that agree on what matters |
| RateSpec.SweepingInvisibleExactly | proxy/src/rate_limiter.cpp:8-109 | over all runs, sweeping changes no decision if and only if burst <= 30*rate or a cap is zero |
| RateSpec.WindowBoundedExactly | proxy/src/rate_limiter.cpp:50-109 | every address gets at most burst + rate*(t2-t1) admissions in every window of every run, under the same if and only if |
| RateSpec.PatienceIsRewarded | proxy/src/rate_limiter.cpp:50-98 | below both caps, an address whose last refill is one token ago is admitted |
| RateSpec.LargeBurstBreaksBoth | proxy/src/rate_limiter.cpp:8-109 | for every larger burst, the run that breaks both: drain, be forgotten, drain again |
| ProxyProtocol.HeaderReadsBack | proxy/src/proxy_server.cpp:193-223 | for every address pair, parsing the printed line gives back the client address and port, or nothing for the unknown header |
| ProxyProtocol.HeaderIsFramed | proxy/src/proxy_server.cpp:193-223 | the printed header is at most 107 bytes and its only CR is the one before the final LF |
| ProxyProtocol.HeaderIsJoin | proxy/src/proxy_server.cpp:211-222 | a header that names the client is the six fields of the protocol, in order, with single spaces and a final CRLF |
| ProxyProtocol.HeaderExactly | proxy/src/proxy_server.cpp:130-223 | which address pairs are announced as TCP4, as TCP6 or as unknown, and the exact text for each |
| ProxyProtocol.ParsesExactly | server.py:49-69 | for every line, printed by the proxy or not: an address and port are read if and only if the line is ASCII and has the six fields, with a port from 0 to 65535 |
| ProxyProtocol.PyIntExactly | server.py:63-67 | int() gives a number exactly for blanks, a sign and groups of digits, and gives their signed value |
| ProxyProtocol.DigitsAreDecimal | server.py:63-67 | the value of a run of digits is the number whose decimal notation it is after leading zeros |
| ProxyProtocol.ConstantsSpell | proxy/src/proxy_server.cpp:193-223 | the header constants are the bytes of the protocol words, and the limit is 107 |
| ProxyProtocol.PortReadsBack | server.py:49-69 | every printed port is read back as the same number by integer parsing that also takes signs, blanks and underscores |
| Preamble.PreambleProtocol.ConnectionMade | server.py:225-229 | the fallback address is the peer's if there is one; nothing is handed off |
| Preamble.PreambleProtocol.DataReceived | server.py:231-237 | one fragment moves the reader as specified; an SSH connection, once made, stays the same one |
| Preamble.PreambleProtocol.EofReceived | server.py:239-247 | after the end of the stream exactly one SSH connection exists and has been told |
| Preamble.PreambleProtocol.TryHandoff | server.py:261-285 | hands off exactly as decided on the collected bytes, and always when forced |
| Preamble.PreambleProtocol.Complete | server.py:287-301 | the first call hands over with the left-over bytes; every later call changes nothing |
| Preamble.OutcomeIsMeaning | server.py:231-301 | cut in any way, a stream without a late header line yields its meaning: address of the line, or the fallback, and the remaining bytes |
| Preamble.ProgressIsMeaning | server.py:231-285 | before the end, what was handed off is the meaning of what has arrived, and handoff happens exactly when that is decided |
| Preamble.ChunkingInvisibleExactly | server.py:231-301 | the outcome is the same for all ways to cut a stream if and only if it has no header line ending beyond byte 107 |
| Preamble.LongHeaderDependsOnChunks | server.py:277-285 | for every stream with such a line, two ways to cut it with different outcomes |
| Preamble.NothingElseIsLost | server.py:231-301 | for every stream and cut, SSH gets all bytes or all but the first line that opens with PROXY |
| EndToEnd.CompletedSessionIsTransparent | proxy/src/proxy_server.cpp:641-807 | after a completed session SSH has the client's address and exactly the bytes the client sent, and the client exactly the backend's bytes |
| EndToEnd.LiveSessionIsTransparent | proxy/src/proxy_server.cpp:641-770 | at any moment SSH has nothing yet, or the right address and a prefix of the client's bytes; once the header is through, it has been handed off |
| Paths.Canonicalize | vfs.py:266-284 | the loop computes the normal form by names; a lone dash is returned as it is |
| Paths.CanonicalIsCanonical | vfs.py:266-284 | every result is a lone dash or printed names none of which is empty, `.`, `..` or contains a slash |
| Paths.CanonicalIdempotent | vfs.py:266-284 | normalising a normal form changes nothing, whatever the working directory and home |
| Paths.CompositionExactly | vfs.py:266-284 | joining equals resolving in turn for every plain second path, under the stated if and only if |
| Paths.BasesExactly | vfs.py:268-274 | `~` is the home directory, alone or before a slash; absolute paths ignore the working directory, others continue it; `-` is itself |
| Paths.ParentSplitsComponents | vfs.py:287-291 | parent and last name of a canonical path are its names without the last one, and the last one |
| Paths.DashIsAChildOfRoot | vfs.py:270-271 | the path `-` behaves as the child `-` of the root |
| FlatFs.ResolveFindsExactly | vfs.py:521-535 | resolution succeeds exactly for the names in the map, and finds that place |
| FlatFs.WalkErrorExactly | vfs.py:528-534 | a failed resolution names the first file in the way if there is one, otherwise reports the path as missing |
| FlatFs.PhysicalIsLexical | vfs.py:521-535 | whenever walking the raw path with a stack of parents succeeds, resolving the normalised text finds the same place |
| FlatFs.ApplyKeepsSound | vfs.py:602-745 | every operation, failed or not, keeps the tree prefix-closed, the counter equal to the bytes of dynamic files, and both limits |
| FlatFs.RunKeepsSound | vfs.py:602-745 | the same over any sequence of operations |
| FlatFs.FailureChangesNothing | vfs.py:582-745 | an operation that raises leaves the map and the counter as they were |
| FlatFs.OnlyTheTargetChanges | vfs.py:582-745 | an operation leaves every place outside its target or subtree as it was |
| FlatFs.WriteSucceedsExactly | vfs.py:602-648 | writing succeeds if and only if a directory holds the place, no directory is in it, and the new size fits both limits or a device is there |
| FlatFs.WriteStores | vfs.py:615-636 | a successful write changes one place, appending or replacing, keeps its mode, and moves the counter by exactly that much |
| FlatFs.WriteErrorExactly | vfs.py:606-648 | a refused write into an existing directory names the directory in its place, else the file limit if exceeded, else the total limit |
| FlatFs.ParentDirExactly | vfs.py:587-591 | an operation finds its directory exactly if one holds the place; otherwise the error names the file in the way, or the missing parent |
| FlatFs.TouchIsExact | vfs.py:582-597 | succeeds exactly where a directory holds the place; makes an empty uncounted file or changes nothing |
| FlatFs.MkdirIsExact | vfs.py:684-695 | succeeds exactly for a free place held by a directory, and adds just that directory |
| FlatFs.RmdirIsExact | vfs.py:728-745 | succeeds exactly for a directory without children, and removes just that place, counter unchanged |
| FlatFs.MkdirParentsAllOrNothing | vfs.py:668-683 | mkdir -p succeeds if and only if no file is on the path, then makes every missing prefix with the given mode, and otherwise nothing |
| FlatFs.RemovalIsExact | vfs.py:697-726 | removal takes exactly the subtree and gives back exactly its bytes: the clamp at zero never decides |
| FlatFs.MissingIsRemovedByForce | vfs.py:708-721 | removing what is not there changes nothing, and succeeds exactly with force and no file in the way |
| FlatFs.TargetErrorExactly | vfs.py:684-745 | which error mkdir, rm and rmdir raise for a missing place, a file, a directory or a full one, and when none |
| FlatFs.NoHolderErrorExactly | vfs.py:582-745 | without a directory to work in every operation names the file in the way or the missing parent; only forced removal forgives absence |
| FlatFs.RootErrorExactly | vfs.py:602-745 | what each operation says at the root, and that writes to /dev/null do nothing |
| FlatFs.MkdirParentsErrorExactly | vfs.py:668-683 | mkdir -p names the file on the way, or the path itself when the file is at its end |
| FlatFs.ReadExactly | vfs.py:537-558 | what reading gives: the content of a file, the text of each device, or which error |
| FlatFs.ReadAfterWrite | vfs.py:602-636 | reading a path just written gives the old content and then the new when appending, else the new |
| FlatFs.ReadElsewhere | vfs.py:602-636 | a write leaves reading of every other path as it was, and nothing can be read below the file written |
| FlatFs.Utf8SizeExactly | vfs.py:364-365 | a character counts the fewest bytes whose UTF-8 payload holds its code, a text the sum of its characters |
| Vfs.VirtualFileSystem.Resolve | vfs.py:521-535 | the walk over linked objects finds the object at the place the flat map gives, or its error |
| Vfs.VirtualFileSystem.ReadFile | vfs.py:537-558 | what is read is what the flat map says by ReadExactly; nothing changes |
| Vfs.VirtualFileSystem.Touch | vfs.py:582-597 | refines the flat operation: same new map, counter and error |
| Vfs.VirtualFileSystem.WriteFile | vfs.py:602-636 | refines the flat operation, both limits and both /dev/null rules included |
| Vfs.VirtualFileSystem.AccountWrite | vfs.py:638-648 | charges the difference or refuses with the right error and no change |
| Vfs.VirtualFileSystem.ReleaseDynamicBytes | vfs.py:650-659 | the recursion over the linked subtree subtracts exactly the bytes below that place |
| Vfs.VirtualFileSystem.Mkdir | vfs.py:661-695 | refines the flat operation, with and without parents |
| Vfs.VirtualFileSystem.MakeAll | vfs.py:668-683 | the downward walk that creates as it goes equals filling in all missing prefixes at once, or fails having made nothing |
| Vfs.VirtualFileSystem.Remove | vfs.py:697-726 | refines the flat operation, recursive and forced variants included |
| Vfs.VirtualFileSystem.Rmdir | vfs.py:728-745 | refines the flat operation |
| Vfs.VirtualFileSystem.ChangeMode | vfs.py:747-749 | changes the mode of exactly the resolved place by the masks of the specification; path errors come before mode errors |
| Vfs.UnlinkingKeepsTree | vfs.py:697-745 | deleting one link removes exactly a subtree and leaves a tree in which every object has one place |
| Chmod.ApplyChmodMode | vfs.py:428-440 | the result is one pair of masks, depending on the specification alone, applied to the mode; malformed exactly when some clause is |
| Chmod.ApplySymbolicClause | vfs.py:443-488 | one clause acts as its mask pair, in whatever order the subject set is visited |
| Chmod.TableIsPosix | vfs.py:459-483 | the twelve bits are where POSIX puts them, and each subject clears its own three and its special bit |
| Chmod.ClauseMeaning | vfs.py:484-488 | plus sets, minus clears and equals assigns exactly its bits, leaving all others |
| Chmod.OctalExactly | vfs.py:431-436 | one to four octal digits replace the mode by exactly those digits, place by place; more, or nothing, is malformed; anything else is read as clauses |
| Chmod.ClausesExactly | vfs.py:437-440 | a list is well-formed exactly if every clause is; with none the twelve bits stay |
| Chmod.ClauseExactly | vfs.py:443-488 | a clause is well-formed exactly if it is subjects, an operator and permissions, and means that operator on them |
| Chmod.DeltaExactly | vfs.py:472-476 | the bits a clause names are those of each letter for each subject and no others |
| Chmod.WhoMaskExactly | vfs.py:477-483 | what an assignment clears for several subjects is what it clears for each |
| Chmod.DoChmodExactly | vfs.py:747-749 | a missing path is reported before a malformed mode; otherwise one mode changes and nothing else |
| Chmod.ChmodStaysNarrowAndIsIdempotent | vfs.py:428-488 | every valid specification yields a mode within 0o7777, and applying it twice is applying it once |
| Chmod.ChmodsCompose | vfs.py:428-488 | two specifications in a row act as one pair of masks, again within twelve bits |
| Chmod.ClausesCompose | vfs.py:437-440 | a clause list split anywhere acts as its two parts in turn, and is malformed exactly if a part is |
| Chmod.ChmodKeepsSound | vfs.py:747-749 | changing modes keeps tree and quota |
| Redirect.StreamInfiniteRedirect | shell.py:1161-1193 | discarded exactly for a device target; runs to the end exactly for /dev/null without its device; otherwise raises after at most max_total/chunk writes, quota kept |
| Redirect.HoldsFewChunks | shell.py:1172-1176 | a sound filesystem holds at most max_total/chunk chunks in one file |
| Splitter.SplitOperators | shell.py:535-583 | the character loop computes the stripped non-empty pieces between the greedy cuts of the line |
| Splitter.SplitPipeline | shell.py:599-639 | likewise for the pipeline rule |
| Splitter.SortedFindsLongest | shell.py:537-566 | trying the operators longest first finds the longest that matches |
| Splitter.SplittingIsLossless | shell.py:535-583 | raw pieces and operators, interleaved, are the line |
| Splitter.CutsAreExact | shell.py:545-578 | every operator cut out stands outside quotes and after no unquoted backslash, is the longest match there, and no other position could be cut |
| Splitter.QuotingExactly | shell.py:548-565 | the state after each character: a backslash escapes one in the open, each of the two quotes runs to its next occurrence |
| Splitter.CutExactly | shell.py:566-578 | a line is cut where, in the open, an operator begins, at the longest one; for pipelines at a bar with no bar after it |
| Splitter.QuotesProtect | shell.py:556-565 | nothing is cut from a quote to its match, whatever stands between |
| Splitter.BackslashProtects | shell.py:548-555 | nothing is cut at an unquoted backslash or the character after it |
| Splitter.KeptPieceByPiece | shell.py:569-583 | stripping and dropping empty pieces acts on each piece alone, with the operator before it, and keeps the order |
| Text.StripExactly | shell.py:569-583 | stripping leaves the part between the first and the last character that is not whitespace |
| Text.SpacesExactly | shell.py:569-583 | which ASCII characters are whitespace |
| Splitter.FragmentsAreAtomic | shell.py:535-583 | every stripped fragment, split again by the same operators, yields itself alone |
| Splitter.PipelineSplitAgreesExactly | shell.py:599-639 | the pipeline loop equals the general splitter if and only if the line has no doubled bar in the open |
| Splitter.PipelinesOfConditionals | shell.py:591-639 | on every fragment of split_conditionals the two agree |
| Splitter.PipelineSplitOfOr | shell.py:624-628 | on `a\|\|b` alone they differ, with the two results |
| Evaluator.JoinOutputs | shell.py:888-896 | the loop computes the fold of the joining operation |
| Evaluator.GlueIsMonoid | shell.py:888-896 | joining two outputs is associative with the empty output as unit |
| Evaluator.GlueKeepsLines | shell.py:890-896 | each output is kept whole and begins a line, with at most one line break added |
| Evaluator.NestedJoinIsFlat | shell.py:888-896 | joining groups and then the results is one flat join |
| Evaluator.Shell.Execute | shell.py:970-987 | state, exit flag, code and path are those of the reference evaluator on the parsed line, and the output is one flat join of everything that ran |
| Evaluator.Shell.ExecuteConditionals | shell.py:989-1012 | the skipping loop equals the recursive left-associative short-circuit evaluator, early exit included |
| Evaluator.NextCommandExactly | shell.py:996-1006 | while nothing has ended the session, a command after && runs exactly if the last exit code was 0, after \|\| exactly if it was not, any other always; what is skipped changes nothing |
| Evaluator.NextStatementExactly | shell.py:975-981 | statements run one after another whatever their exit codes, until one ends the session |
| Evaluator.LineExactly | shell.py:586-596 | a line is its statements between semicolons, each a list split at && and \|\| |
| Evaluator.ReportExactly | shell.py:982-987 | the report has the status of the last command that ran and all non-empty outputs joined |
| Evaluator.ListsSplitAnywhere | shell.py:989-1012 | evaluating a list from the left equals resuming at any point with the state reached there |
| Evaluator.ShortCircuit | shell.py:996-1000 | a row of && after a non-zero exit code is skipped whole, and so is a row of \|\| after a zero one |
| Evaluator.ExitComesLast | shell.py:1001-1006 | only the last pipeline that ran can have ended the session, and it is what is reported |
| OrderedStore.OrderedDict.PurgeExpired | session_manager.py:90-97 | collecting expired keys and deleting them one by one removes exactly the expired records |
| OrderedStore.OrderedDict.MakeRoom | session_manager.py:67-68 | popping the first while full leaves the last cap-1 records |
| OrderedStore.PurgeIsSuffix | session_manager.py:90-97 | with order and time stamps in agreement, purging cuts off exactly a prefix |
| OrderedStore.EvictionTakesOldest | session_manager.py:67-68 | whatever eviction removes was used no later than anything it leaves |
| OrderedStore.StoreKeepsOrder | session_manager.py:57-97 | in every reachable state the order is the order of the time stamps and the size is within the cap |
| OrderedStore.ContentsFromHistory | session_manager.py:57-97 | contents are the window, by cap and by age at the last purge, of the unbounded recency list of the access history |
| OrderedStore.RecordSurvives | session_manager.py:57-97 | accesses to fewer than cap other keys, within the time to live, leave a record and its value in place |
| OrderedStore.PurgeExactly | session_manager.py:90-97 | a record survives a purge exactly if it was used no longer ago than the time to live |
| OrderedStore.FetchExactly | session_manager.py:57-74 | after a fetch the key is last, stamped now, with its kept value or the new one; another record is lost only to age or, as the oldest, to a full store |
| OrderedStore.TouchExactly | session_manager.py:76-82 | after a touch a present key is last and stamped now, an absent one stays absent, every other record stays |
| SessionManagement.SessionManager.GetOrCreate | session_manager.py:57-74 | returns the kept state or the new one as the history says, renewed and last in order |
| SessionManagement.SessionManager.Touch | session_manager.py:76-82 | renews a present record, ignores an absent one, purges nothing |
| SessionManagement.SessionManager.Sweep | session_manager.py:84-88 | removes exactly the stale prefix and returns its length |
| SessionManagement.SessionComesBack | session_manager.py:57-97 | a fetched session is found again with the same state while its time has not run out and fewer than cap other addresses were in touch |
| Auth.AuthManager.GetOrPinPassword | auth.py:95-108 | returns the pinned password, or pins the choice; the pin is from the list and last in order |
| Auth.AuthManager.BeginLogin | auth.py:121-135 | new state and login are those of the specified first section; a wrong username touches nothing |
| Auth.AuthManager.FinishLogin | auth.py:136-154 | new state and verdict are those of the specified second section |
| Auth.LoginAcceptedExactly | auth.py:121-154 | whatever other logins do between its two sections, a login is accepted if and only if it names root, gives the ASCII password pinned at the first, and the count unexpired at the second is below the limit; otherwise its refusal |
| Auth.BeginExactly | auth.py:95-135 | the first section pins the unexpired password or the choice, and the login carries success exactly for that password |
| Auth.DecideExactly | auth.py:136-154 | the second section from the unexpired count: verdict, that success forgets the failures, that a failure is on record from now |
| Auth.DecideLeavesOthers | auth.py:136-154 | the record of another address leaves only by age or as the oldest of a full store |
| Auth.CleanExactly | auth.py:233-247 | each purge forgets exactly what is older than its own time to live, pins and failures |
| Auth.AuthManager.RegisterFailure | auth.py:221-231 | one more failure, entering the address at the end of the store if it is new |
| Auth.AuthManager.IsLockedOut | auth.py:114-119 | true exactly if the unexpired count has reached the limit |
| Auth.AuthManager.Sweep | auth.py:215-219 | purges both stores and returns the number of pins removed |
| Auth.NextKeepsInv | auth.py:95-154 | every critical section keeps order, caps, counts within 1..max_attempts and pins from the list |
| Auth.RunKeepsInv | auth.py:95-154 | the same over every interleaving |
| Auth.LockedLeavesExactly | auth.py:136-154 | a locked record is gone after a step if and only if it had expired, or a new failing address entered a full store whose oldest record it was |
| Auth.LockoutHolds | auth.py:136-154 | over every interleaving within its time to live, with fewer than max_pins other addresses failing, a locked address stays locked and every one of its logins is refused |
| Auth.FailuresAddUp | auth.py:136-154 | after so many failures within the time to live, whatever others do, the verdict is refusal from the limit on, and below it entry exactly if the password matched |

## Left out

- System calls: sockets, epoll, name resolution and file descriptors appear only as scripted results. `epoll_ctl` is
  a parameter of admission and succeeds afterwards.
- Each socket has its own script of replies; the order of calls between the two sockets is the code's.
- `inet_ntop`: an address carries its text, any ASCII of 1 to 39 bytes without space, CR or LF, or none on failure.
- Pipes.Pipe.InsertAtHead: stated for a direction where nothing has happened yet, the only place the proxy calls it;
  inserting before bytes already queued is not modelled.
- Tokens and times are `real` instead of `double` and clock ticks; rounding is not modelled.
- ProxyServing.ProxyServer.SpawnSession: the header given fits the 64 KiB queue; printed headers have at most 107
  bytes.
- `std::uint64_t` session numbers are unbounded, except in the token arithmetic, which is modulo 2^64.
- `accept_ready`, `open_backend`, the wake-up descriptor, start and stop: loops around system calls.
- `read_optional_proxy` in server.py, a second header reader the server itself does not call; it is not independent
  of fragmentation.
- Connection loss, write pausing and `set_protocol`: after the handoff data reach SSH through the wrapper.
- Preamble.PreambleProtocol.DataReceived: asks for a connected transport, which asyncio guarantees.
- Texts with lone surrogates, which UTF-8 cannot encode: a character here is a Unicode scalar value.
- Modification times, owners, link counts and reported sizes of inodes.
- The default tree: the filesystem starts from any tree without dynamic files. `list_dir`, `is_dir`, `exists`, `get`
  and `clone` would only add readers.
- Redirect.StreamInfiniteRedirect: takes the chunk read from the device as a parameter, not empty; the messages made
  of the errors are left out, and the loop is not interleaved with other sessions, which have their own filesystem.
- What a pipeline does (commands, scripts, downloads, redirections other than the one above) is an arbitrary
  function on the shell's state; nested scripts and their depth limit are part of that function.
- Splitting into words, and the special cases of `strip()` on text that is not a fragment.
- Splitter.SplitOperators: operators must be non-empty and free of quoting characters, as `;`, `&&`, `||` and `|` are.
- Records of the stores are values in an ordered sequence: that a caller keeps a reference to an evicted session is
  not visible. The state of a session and the choice of a password are parameters.
- Constructors of the stores that raise on arguments out of range have those ranges as preconditions.
- Telemetry, the tarpit delay, session identifiers and asyncssh itself.
- LLM providers, canned outputs, option parsing and quarantine: tables and presentation.
