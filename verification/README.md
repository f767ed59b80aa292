# TeamSpeak connector: ServerQuery session and command-list helpers

A Dafny model of the protocol core of a TeamSpeak 3 ServerQuery connector plugin.

**`CNetwork` session (src/CNetwork.cpp).** This part drives a line-oriented, pipelined ServerQuery connection:

- Commands go into a FIFO. Only the front command is on the wire. Each
  terminal status line `error id=N msg=M` completes the front command and
  writes the next one.
- On success (`id=0`), the buffered data lines are handed to the front
  command's callback. Before that, a line holding `|`-separated rows is
  first expanded into one line per row.
- On error, the error is forwarded, naming the command.
- Lines starting with `notify` go to the first matching event handler. Back-to-back
  duplicates of the three high-frequency client notifications are suppressed.
- Everything else is buffered as result data.
- Around this sit the connect/handshake (`use port=<port>`), disconnect, the
  write queue with its newline termination, and the read-error path.

**Legacy poller helpers (src/thread.cpp).** This part covers:

- the `<N>` placeholder substitution of a queued command list;
- the `MFind` segment narrowing of a reply and the `ValName=value` capture
  into the first empty of nine slots;
- the roster of connected clients, with the script callbacks queued on
  enter, leave, move and text notifications.

**Modules:**

- `Text`: search helpers.
- `Decimal`: decimal digit strings and their values.
- `StatusLine`: the status-line search and the three-way classification of a line.
- `Rows`: the `|` split, and the row expansion as written and as intended.
- `Session`: the state record and one pure step function per handler. Each
  step returns the next state and the observable actions: buffers written,
  callbacks run, errors forwarded, handlers dispatched.
- `Pipeline`: whole runs of the session and the FIFO theorem.
- `Template`: placeholder substitution.
- `Extract`: segment, capture and slot store.
- `Roster`: the client map.

**Behaviours the model fixes by hand:**

- Status matching follows the regex `error id=([0-9]+) msg=([^ \n]+)` searched
  anywhere in the line, leftmost match first, with greedy captures.
- Success means the captured id is the text `0`. So `id=00` is an error.
- The placeholder number is read as an `unsigned int`. Its slot index is `N - 1`
  with 32-bit wrap-around, so `<0>` names no slot.

## Model

| member | source | states |
|---|---|---|
| StatusLine.StatusAtYields | src/CNetwork.cpp:170-172 | At a given position the status pattern either matches and yields the digit run as id and the longest run of non-space, non-newline characters as msg, or does not match and yields nothing |
| StatusLine.SearchFrom | src/CNetwork.cpp:170-172 | The search reports the status at the leftmost matching position at or after the start, or reports nothing exactly when no position from there matches |
| StatusLine.FindStatus | src/CNetwork.cpp:170-172 | A line yields a status if and only if the pattern matches somewhere in it, and the status is the one at the leftmost match |
| StatusLine.Classify | src/CNetwork.cpp:172-283 | Every line is exactly one of: a status line (the pattern matches anywhere), a notification (no status, starts with `notify`), or data; a status comes from some match position |
| StatusLine.StatusAnywhere | src/CNetwork.cpp:170-172 | A status text embedded anywhere in a line, with any text before and after, makes the line a status line |
| StatusLine.ClassifyStatusText | src/CNetwork.cpp:170-174 | A line consisting of a status text with a digit id and a well-formed message classifies as exactly that id and message |
| StatusLine.ClassifySuccess | src/CNetwork.cpp:174 | `error id=0 msg=ok` is a success status |
| StatusLine.ClassifyZeroPadded | src/CNetwork.cpp:174 | `error id=00 msg=ok` is a status but not a success, because success compares the id text with `0` |
| StatusLine.ClassifyByPrefix | src/CNetwork.cpp:241-283 | A `notifyclientmoved` line is a notification and a plain `clid=…` line is data |
| Decimal.ValueFromNat | src/CNetwork.cpp:126 | The decimal rendering of a number reads back as that number |
| Decimal.FromNatValue | src/CNetwork.cpp:126 | A canonical digit string is the rendering of its own value |
| Rows.SplitLength | src/CNetwork.cpp:184-192 | A line with k delimiters splits into exactly k+1 pieces |
| Rows.SplitClean | src/CNetwork.cpp:184-192 | No piece of a split contains the delimiter |
| Rows.JoinSplit | src/CNetwork.cpp:184-192 | Joining the pieces of a line with the delimiter gives back the line |
| Rows.SplitJoin | src/CNetwork.cpp:184-192 | Splitting the join of delimiter-free pieces gives back the pieces |
| Rows.SplitRow | src/CNetwork.cpp:184-192 | The source's do/while split loop computes exactly the pieces of the line in left-to-right order |
| Rows.RowsAsWritten | src/CNetwork.cpp:194-196 | Re-inserting the pieces produces one row per piece (k+1 rows for k delimiters) |
| Rows.RowsAsWrittenIsReversal | src/CNetwork.cpp:194-196 | The erase-and-insert sequence leaves a line's pieces in reverse order |
| Rows.ReinsertPieces | src/CNetwork.cpp:194-196 | Erasing element i and inserting each piece at the returned iterator puts the pieces, reversed, in place of element i and leaves the rest as it was |
| Rows.ExpandInPlace | src/CNetwork.cpp:176-197 | The source's iterator loop over the buffered lines yields the as-written expansion of every line, in buffer order |
| Rows.ExpandAsWritten | src/CNetwork.cpp:176-197 | The as-written expansion has one row per piece of every buffered line |
| Rows.Expand | src/CNetwork.cpp:176-197 | The intended expansion has one row per piece of every buffered line |
| Rows.ExpandClean | src/CNetwork.cpp:176-197 | No expanded row contains the delimiter |
| Rows.ExpandAsWrittenAppend | src/CNetwork.cpp:176-197 | The as-written expansion works line by line: expanding a concatenation is concatenating the expansions |
| Rows.ExpandAppend | src/CNetwork.cpp:176-197 | The intended expansion works line by line |
| Rows.ExpandWithoutDelimiter | src/CNetwork.cpp:179-180 | Lines without a delimiter are passed through unchanged by both expansions |
| Rows.ExpandLineRoundTrip | src/CNetwork.cpp:176-197 | Joining the rows of an expanded line gives back the line |
| Rows.ExpandAsWrittenSwapsRows | src/CNetwork.cpp:194-196 | `row1` and `row2` joined by the delimiter comes out as `row2, row1` as written, and as `row1, row2` intended |
| Session.WriteBuffer | src/CNetwork.cpp:105-109 | The buffer sent is the command followed by one newline, or the command itself when it already ends in one |
| Session.WriteBufferIdempotent | src/CNetwork.cpp:108-109 | Terminating an already terminated buffer changes nothing |
| Session.AsyncWrite | src/CNetwork.cpp:101-113 | One terminated buffer is queued and handed to the socket; nothing else changes |
| Session.OnWrite | src/CNetwork.cpp:300-313 | A write completion pops exactly the oldest buffer; an error code is forwarded and success forwards nothing; the connection flag is untouched |
| Session.Execute | src/CNetwork.cpp:315-321 | The command is appended to the FIFO and written at once exactly when the FIFO was empty |
| Session.UseCommand | src/CNetwork.cpp:126 | The handshake is `use port=` followed by the canonical decimal rendering of the stored port |
| Session.UseCommandInjective | src/CNetwork.cpp:126 | Different ports give different handshakes |
| Session.Connect | src/CNetwork.cpp:34-61 | Refused while connected; a failed host lookup is forwarded and refused; otherwise it succeeds, remembers the port and clears the flag |
| Session.OnConnect | src/CNetwork.cpp:121-138 | A successful connect sets the flag and issues the handshake through the command FIFO, writing it exactly when the FIFO was empty; the buffered rows, last notification and port are kept and nothing else happens; a failure is only forwarded |
| Session.Disconnect | src/CNetwork.cpp:63-93 | When connected a `quit` command is queued and written exactly when the FIFO was empty; in every case the flag ends cleared, the call reports success, and the rest of the state is kept |
| Session.OnReadError | src/CNetwork.cpp:287-297 | A read failure is forwarded and the session becomes disconnected; nothing else changes |
| Session.FirstMatch | src/CNetwork.cpp:267-274 | Dispatch picks the lowest-numbered event entry that matches the line, and none when no entry matches |
| Session.OnNotify | src/CNetwork.cpp:241-278 | A notification runs at most one handler, the first match; it runs none exactly when it is a tracked duplicate or nothing matches; it always becomes the last notification |
| Session.DuplicateSuppressed | src/CNetwork.cpp:243-277 | A tracked notification repeated back to back is dispatched only once; after a different notification it is dispatched again |
| Session.UntrackedNeverSuppressed | src/CNetwork.cpp:252-261 | Notifications of other kinds are dispatched every time they arrive |
| Session.Advance | src/CNetwork.cpp:210-213 | Popping the front writes the new front, if any, and nothing else |
| Session.CompleteFront | src/CNetwork.cpp:199-215 | A success with a command pending produces exactly its callback run (if it has a callback) with the rows, then the write of the next command; the state differs only in the popped FIFO, the grown write queue, the cleared buffer and, for the quit callback, the cleared flag |
| Session.Complete | src/CNetwork.cpp:199-239 | A success with nothing pending only clears the buffer |
| Session.FailAsWritten | src/CNetwork.cpp:217-239 | An error status produces exactly the error naming the front command, then the write of the next command; the front is popped without its callback, the buffer is cleared, and nothing else in the state changes |
| Session.Fail | src/CNetwork.cpp:217-239 | As FailAsWritten when a command is pending; with nothing pending the error is forwarded naming no command and only the buffer is cleared |
| Session.OnReadAsWritten | src/CNetwork.cpp:168-283 | A status line clears the buffer; any other line leaves the command FIFO alone |
| Session.OnReadAsWrittenAgrees | src/CNetwork.cpp:168-283 | Wherever the as-written step is defined it reaches the same state, writes and errors as the corrected one; it differs only in a success's callback rows, which are the as-written expansion instead of the intended one |
| Session.OnRead | src/CNetwork.cpp:168-283 | A status line clears the buffer and keeps the last notification; any other line leaves the command FIFO alone |
| Session.OnReadStatus | src/CNetwork.cpp:172-239 | A status line pops the front and writes the next command; on success the front's callback gets the expanded rows; on error the error names the front command (or none) and no callback runs |
| Session.OnReadStatusExact | src/CNetwork.cpp:172-239 | A status line produces exactly: on success the front's callback run with the expanded rows, on error the error naming the front (or none), each followed by the next command's write; the state keeps the port, the last notification and the flag except when the quit command succeeds |
| Session.OnReadOther | src/CNetwork.cpp:241-283 | A non-status line writes nothing: a `notify` line is dispatched, any other line is appended to the buffer |
| Session.RowsReachCallbackInOrder | src/CNetwork.cpp:176-207 | With one command pending and a buffered `row1` and `row2` joined by the delimiter, the status `error id=0 msg=ok` delivers exactly one callback run, with `row1, row2` |
| Session.RowsReversedAsWritten | src/CNetwork.cpp:176-207 | In the same situation the as-written step delivers the rows as `row2, row1` |
| Session.ErrorWithNothingPending | src/CNetwork.cpp:225-231 | After the handshake completes nothing is pending, so an error status falls outside what the as-written step handles; the corrected step forwards it naming no command |
| Session.ReconnectBehindStaleCommands | src/CNetwork.cpp:115-127 | After a read failure the pending commands stay queued, and a reconnect's handshake waits behind them unwritten |
| Pipeline.StepFifo | src/CNetwork.cpp:199-321 | Every event appends one command (written iff the FIFO was empty), pops the front (writing the next), or leaves the FIFO alone and writes nothing |
| Pipeline.RunFifo | src/CNetwork.cpp:199-236 | Over any run, commands complete in the order issued, the FIFO holds the rest, and each command that became the front was written exactly once, in order |
| Pipeline.RunFromInitial | src/CNetwork.cpp:315-321 | From a fresh session, issued = completed followed by pending, and the bytes written are exactly the buffers of the completed commands and of the one in flight |
| Template.SlotIndex | src/thread.cpp:57-58 | The unsigned index names one of the nine slots exactly when the placeholder number is 1 to 9 |
| Template.CloseOf | src/thread.cpp:54-56 | A placeholder ends at the first `>` after its `<`, with no `>` in between, or at the end of the text when no `>` follows |
| Template.ReadUnsignedAccepts | src/thread.cpp:57 | The unsigned cast accepts exactly a non-empty digit string, optionally after one `+` or `-`, whose value is below 2^32; the result is that value, or its negation modulo 2^32 after `-` |
| Template.ReadUnsignedFromNat | src/thread.cpp:57 | Every number below 2^32 in decimal reads back as itself, also after `+`, and after `-` as its negation modulo 2^32 |
| Template.Cast | src/thread.cpp:54-57 | A successful cast ends where the placeholder ends and yields a number below 2^32 |
| Template.CastReads | src/thread.cpp:54-57 | The cast fails exactly when the text between the `<` and the placeholder's end is not accepted by the unsigned cast, and otherwise yields what that cast reads |
| Template.SignedAndUnclosed | src/thread.cpp:54-57 | `<+1>` reads 1, `<-1>` reads 2^32 - 1, and `id=<7` with no `>` reads 7 up to the end of the text |
| Template.Placeholder | src/thread.cpp:57-59 | A placeholder is replaced exactly when its number is 1 to 9 and that slot holds a value, which is what replaces it |
| Template.ZeroNamesNoSlot | src/thread.cpp:57-58 | `<0>` wraps past the last slot and is never replaced |
| Template.ScanFacts | src/thread.cpp:54-59 | The scan stops at the first `<` from the position and replaces exactly the placeholder that opens there when it is valid |
| Template.Substitute | src/thread.cpp:53-62 | A template without `<` is sent unchanged |
| Template.SubstituteNoOpen | src/thread.cpp:54 | From a position with no `<` after it, the substitution leaves the text as it is |
| Template.EmptySlotsChangeNothing | src/thread.cpp:57-61 | With every slot empty, the intended substitution sends any template unchanged: each `<` is invalid, kept, and passed over |
| Template.SubstituteRender | src/thread.cpp:53-62 | A template made of `<`-free literals and references to filled slots is sent with every reference replaced by its slot's value |
| Template.Pass | src/thread.cpp:53-61 | One loop iteration ends the loop exactly when no `<` is left from the position, and otherwise stops at the first such `<` |
| Template.PassFollowsScan | src/thread.cpp:54-61 | An iteration leaves the text of the intended scan at the `<` found, except that a valid placeholder without `>` at position 0 is not removed and gets its value inserted in front; an invalid `<` leaves the text alone |
| Template.SettledStep | src/thread.cpp:53-62 | From a position where every `<` ahead is valid, one iteration keeps the text that will finally be sent, stays in that situation and replaces one placeholder; when the loop exits the text is the substitution |
| Template.PassStalls | src/thread.cpp:58-61 | At an invalid placeholder the loop reaches a state that the next iteration maps to itself, so it never terminates |
| Template.EmptySlotStalls | src/thread.cpp:58-61 | `clientinfo clid=<1>` with every slot empty sticks at position 16 for good |
| Template.ValueRescanned | src/thread.cpp:54-59 | `<1>` with slot 1 holding `<2>` and slot 2 holding `y` goes to `<2>`, then `y`, and the loop exits, while the intended substitution sends `<2>` |
| Template.SubstituteInPlace | src/thread.cpp:53-62 | The source's loop, when every `<` it meets is valid and no value holds a `<`, ends with the intended substitution, except that a template opening with a valid placeholder without `>` ends with that substitution twice |
| Template.UnclosedTailReplaced | src/thread.cpp:54-59 | A placeholder without `>` after some leading text is replaced through the end of the text, by the loop as by the intended substitution |
| Template.UnclosedHeadFirst | src/thread.cpp:54-59 | For a valid placeholder without `>` at position 0 the intended substitution sends its value once, while the loop's first iteration puts the value in front of the untouched text |
| Template.UnclosedHeadDoubles | src/thread.cpp:54-59 | For such a template the loop takes three iterations: value in front, the shifted placeholder replaced through the end, then exit, leaving the value twice |
| Template.UnclosedHeadExample | src/thread.cpp:54-59 | `<1` with slot 1 holding `x` is such a template, and its intended substitution is `x` |
| Extract.SpanAround | src/thread.cpp:83-91 | The segment ends at the first delimiter at or after the match and starts at the last delimiter before that (or at 0), with no delimiter inside |
| Extract.Segment | src/thread.cpp:80-95 | The reply is unchanged when `MFind` is empty or absent; otherwise the segment holds no delimiter past its first character |
| Extract.SegmentContainsMatch | src/thread.cpp:82-93 | A delimiter-free `MFind` occurs inside the segment it selects |
| Extract.SegmentIsPiece | src/thread.cpp:82-93 | The segment is the delimiter-separated piece of the reply in which the match starts, with its leading delimiter when it is not the first |
| Extract.RunFrom | src/thread.cpp:99-104 | The captured value is the longest run of non-space characters after `ValName=` |
| Extract.CaptureFrom | src/thread.cpp:99-104 | The capture is at the leftmost position where `ValName=` is followed by a non-space, or none when there is no such position |
| Extract.CaptureValue | src/thread.cpp:96-104 | A captured value is non-empty, has no space, and comes from the leftmost match of `ValName=` |
| Extract.CaptureStopsAtSpace | src/thread.cpp:99-104 | `clid` in `clid=12 cid=3` captures `12` |
| Extract.FirstEmpty | src/thread.cpp:105-110 | The slot chosen is the lowest empty one, or none when all nine are filled |
| Extract.Store | src/thread.cpp:105-110 | The value goes into the lowest empty slot and nowhere else; with all slots full nothing changes |
| Extract.StoreKeepsFilled | src/thread.cpp:105-110 | A filled slot is never overwritten; a changed slot was empty, is the lowest empty one and now holds the value |
| Extract.StoreInFirstEmpty | src/thread.cpp:105-110 | The source's slot loop computes the store |
| Extract.Process | src/thread.cpp:79-112 | A command without `ValName` leaves the slots alone, and no command overwrites a filled slot |
| Extract.RunList | src/thread.cpp:47-115 | One text is sent per command; the first is substituted from the starting slots; filled slots stay filled |
| Extract.SlotsAfter | src/thread.cpp:96-112 | Processing replies one after another never changes a filled slot |
| Extract.RunListSends | src/thread.cpp:46-112 | Command i is sent with its placeholders filled from the slots left by the replies to commands 0 to i-1, and the run ends with the slots left by all replies |
| Extract.CapturedValueReachesNextCommand | src/thread.cpp:96-112 | A value captured for one command is in the first empty slot when the next command is substituted |
| Roster.Handle | src/thread.cpp:197-374 | Only an enter adds a client and only a leave removes one; a known client's UID never changes; each notification queues at most one callback |
| Roster.OthersUntouched | src/thread.cpp:197-374 | Clients other than the notification's subject are untouched |
| Roster.EnterViewRule | src/thread.cpp:228-237 | An enter records a new id with its UID and channel, keeps an existing entry as it was, and always queues the connect callback |
| Roster.LeftViewRule | src/thread.cpp:247-279 | A leave for an unknown id does nothing; for a known id it removes it and queues the disconnect callback with the stored UID |
| Roster.TextMessageRule | src/thread.cpp:297-318 | A server text is always reported; a channel text only from a known client with non-empty names and message, with its last channel; any other mode is ignored |
| Roster.ClientMovedRule | src/thread.cpp:360-372 | A move updates the channel and queues the callback exactly when the id is known and both names are non-empty |
| Roster.EnterThenLeave | src/thread.cpp:228-250 | Enter followed by leave restores the roster, and the disconnect carries the UID entered with |
| Roster.MoveThenChannelText | src/thread.cpp:306-372 | A channel text reports the channel of the client's latest move |
| Roster.HandleAll | src/thread.cpp:193-375 | A stream of notifications queues at most one callback per notification |
| Roster.UidStable | src/thread.cpp:228-372 | A known client stays known with its UID as long as no leave for it arrives |
| Roster.KnownAfter | src/thread.cpp:228-250 | Every id known after a stream was known before or entered during it |

## Left out

- Sockets, the io_service thread, `async_read_until` framing on `'\r'` (each read is one line here) and the `NetAlive` keepalive timer (src/CNetwork.cpp:13-31) are I/O and timing, not modelled.
- Session.Disconnect: the up-to-5-second wait for the quit callback, socket close, timer cancel and thread join (src/CNetwork.cpp:72-91) are blocking I/O; the model keeps only the end state.
- Mutexes, and the unlocking around a callback (src/CNetwork.cpp:200-215), are concurrency; each step is one atomic transition.
- Session.OnNotify: the handlers' regexes are abstract predicates over the line (`Pattern`), and what a handler does is not modelled, only which one runs.
- Session.Fail: the message is kept raw. `UnEscapeString` and `ConvertStringToInt` on the id and message (src/CNetwork.cpp:219-223) live in a utility file that is not part of this model, and the text formatting of forwarded errors is wording.
- `CServer::CSingleton::Destroy()` on a read error (src/CNetwork.cpp:295) tears down an object outside this model.
- Template.SubstituteInPlace: requires every `<` met to open a valid placeholder and no slot value to contain `<`; it states nothing about other templates. There the source loops forever at a castable invalid placeholder (`PassStalls`), throws at an uncastable one, and rescans a value holding `<`, which can send a different text (`ValueRescanned`) or never end.
- Template.Pass: requires the `<` found to open a placeholder the unsigned cast accepts. The source's `lexical_cast` throws on anything else, an exception outside this model.
- Template.RemovedAsWritten: the count of characters removed for a placeholder without `>` relies on `npos - ParamPos` converted to `int` and back to `size_t` with two's-complement wrap-around; templates of 2^31 characters or more, where that `int` overflows, are not modelled.
- Extract.RunList: it sends what the intended substitution gives. Where the source's loop hangs (an invalid placeholder, `src/thread.cpp:58-61`) or doubles a value (a placeholder without `>` at the start), the corrected text it sends is one the source never sends; `Template.SubstituteInPlace` states when the two agree.
- Extract.CaptureValue: `ValName` is taken literally. The source builds a regex from it, so a name with regex metacharacters would behave differently.
- The poller's bootstrap and connect loop (src/thread.cpp:28-45 and 123-191), `Send`/`Recv` with re-queueing of the command list on failure (src/thread.cpp:64-77), and the blocking name lookups of the roster handlers are network I/O. Their answers are inputs to `Extract.RunList` and `Roster.Handle`.
- Roster.Handle: the notification regexes and `lexical_cast` of ids are taken as already parsed, and the `SClientInfo` leak when an enter repeats a known id is memory, not behaviour.
- Roster.HandleAll: each notification is one line here. The source handles one received chunk per iteration, picks the kind by substring tests in a fixed order (src/thread.cpp:197, 241, 282, 322) and acts on the first regex match in the chunk only; several notifications in one chunk are not modelled.
- src/CCallback.cpp (the script callback queue and its thread) is context only and not modelled.
- `_DEBUG` logging and `printf` diagnostics have no effect on state.
- Session.OnRead: rows are expected in wire order, as the comment at src/CNetwork.cpp:182-183 describes (split up and re-insert every row). The code reverses them (src/CNetwork.cpp:194-196). The model follows the code in `Rows.ExpandAsWritten` and `Session.OnReadAsWritten`, and logs the difference under Findings.

## Findings

| source | as written | input that shows it | evidently intended | confidence | as-written member | corrected member |
|---|---|---|---|---|---|---|
| src/CNetwork.cpp:194-196 | each piece is inserted before the one inserted just before it, so a multi-row line comes out reversed | buffered line `row1` and `row2` joined by the delimiter, then `error id=0 msg=ok`: the callback gets `row2, row1` | rows in wire order, `row1, row2` | high (not executed) | Rows.ExpandAsWrittenSwapsRows | Rows.ExpandLineRoundTrip |
| src/CNetwork.cpp:225-231 | the error branch reads and pops `m_CmdQueue.front()` without checking that a command is pending | after the `use port=` handshake has completed, a line `error id=1 msg=x` arrives: the FIFO is empty | forward the error without naming a command, pop nothing | medium (not executed) | Session.ErrorWithNothingPending | Session.Fail |
| src/thread.cpp:58-61 | on an invalid placeholder `ParamPos` is not advanced, so the same `<` is found again forever | `clientinfo clid=<1>` with every slot empty | report the error and continue after the `<` | high (not executed) | Template.EmptySlotStalls | Template.EmptySlotsChangeNothing |
| src/thread.cpp:55-59 | for a `<` with no `>` the length `npos - ParamPos` is stored in an `int`; at position 0 that makes `replace` remove nothing, so the value is inserted in front and the placeholder is replaced again on the next iteration | template `<1` with slot 1 holding `x`: the command sent is `xx` | `x`, the placeholder replaced once | medium (not executed; relies on the implementation-defined conversion of `npos` to `int`) | Template.UnclosedHeadDoubles | Template.UnclosedHeadFirst |
