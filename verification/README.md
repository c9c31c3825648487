# Verified model of the swarmx server's state machines

swarmx runs command-line agents in terminals, records what they print, wakes them, watches them
and stops them when a budget is spent. This project models the deterministic machinery inside
the server in Dafny and proves what it is for.

`dafny verify dfyconfig.toml` checks everything.

| file | what it models |
|---|---|
| `Calendar.dfy` | day number to calendar date, against the Gregorian calendar |
| `Text.dfy`, `Cron.dfy` | reading cron expressions; what their text means |
| `CronSearch.dfy` | the search for the next firing, which skips whole days |
| `Utf8.dfy`, `Recorder.dfy` | incremental UTF-8 decoding (RFC 3629, section 4; Unicode Standard, section 3.9) and the recorder's writer |
| `JsonScan.dfy` | finding and repairing a JSON object (RFC 8259) in a model's answer |
| `PtyStream.dfy` | the bounded, numbered replay buffer of a terminal and its subscribers |
| `Notify.dfy` | waiting for that buffer to change, step by step, any interleaving |
| `Search.dfy`, `Sliding.dfy` | finding bytes; where a buffer that keeps only its end begins |
| `OscScanner.dfy` | the shim's lifecycle markers in chunked output |
| `ReadyPlan.dfy` | the sequential readiness plan with deadlines |
| `Watchdog.dfy` | the stuck watchdog: one sweep over all agents, and all runs of one agent |
| `Budget.dfy`, `BudgetProtocol.dfy` | the budget brake, one operation at a time and with everything interleaved |
| `WakeThrottle.dfy`, `WakePayload.dfy` | the Stop hook's rate limit, and what a claimed wake carries |
| `Basics.dfy` | options and saturating arithmetic |

Code that works by changing things is modelled by classes and methods with loops; each method is
proved equal to a function of its inputs and old state, and the laws are lemmas about that function.
Strings whose bytes matter are kept as their UTF-8 bytes. Clocks, input and output, the store and the
network are parameters.

## What the proofs found

Where the code and its comments differ, the model follows the code.

- The search for the next firing starts at the first whole minute after the given second, except for a
  negative second inside a minute, where it starts one minute late (`StartIsNextMinute`).
- Day of month and day of week must both match, unlike the POSIX rule (`ExprTextMeans`).
- One repair leaves a comma too many if and only if two such commas stand in a row with only white space
  between them (`CommaStays`, `RepairTwice`); `[1,,]` becomes `[1,]` (`TwoCommasStayOne`).
- Which lifecycle markers are seen is decided by the lengths of the chunks alone, for any chunks (`ShimIsSeen`):
  a marker is seen if and only if the buffer, of which a cut at 4096 bytes leaves the last 256, still begins at
  or before it when its last byte comes. So in one chunk each marker is seen if and only if the chunk fits 4096
  bytes or the marker stands in its last 256, with both markers in the same chunk too (`ShimInOneChunk`).
  Chunks of at most 237 bytes always do (`MarkersAreSeen`), and 238 are too many (`SafeChunkIsLongest`).
  Terminal reads are 8 KiB.
- The readiness plan misses needles the same way, with 8192 and 1024 bytes (`NeedleInRun`): for a needle of n
  bytes chunks of 1025 - n bytes are safe (`ShortChunksMatch`) and 1026 - n are not (`LongerChunkIsTooMuch`).
- Numbers wrap after 2^32 - 1 appends. For any number of appends a subscriber is told that it is up to date if
  and only if its cursor is not below the number of appends modulo 2^32 - 1 (`ToldNothing`).
- An operator's pause outlives all the brake can do if and only if the brake does not hold the agent when it
  is made: it is not in the ledger, and no trip or lift under way has its hand on it (`OperatorPauseLasts`).
- A trip that stands does not always stop its agents. It stops one for good, until a lift, if and only if the
  agent is paused when the store answers and no other trip or lift under way has its hand on it
  (`StandingTripStops`). If no later write fails, other trips still pausing do no harm: then only a trip being
  taken back or a lift under way does (`PauseLastsAnswered`). Both halves fail in real runs: the write of
  another trip that paused the agent fails, or was refused before, and it is taken back
  (`MarkerOverARunningAgent`), or the operator resumes the agent before the store answers
  (`ResumedBeforeTheAnswer`).
- The rate limit of wakes holds from one empty mailbox to the next as long as the budget brake answers no call
  (`UnbrakedIsLimited`). The brake's zero answer removes the state file with wakes still unread; the limit
  survives it if and only if there was nothing to forget (`BrakeForgets`); with the default limit of 3 in
  30 seconds, five wakes can be delivered in five milliseconds (`FiveInAWindow`).
- An exit marker that stands in front of a ready marker in the same buffer is never read (`ReadyHidesExit`).
- A mailbox note of more than 64 KiB is cut, and its line in the digest has no pointer to the rest
  (`NoteIsWhole`).
- A wake can be lost: the server marks wakes read before it answers. None is lost if and only if no answer to
  a call that found wakes is lost (`NothingLost`).

## Model

| member | source | states |
|---|---|---|
| `Calendar.CivilInverse` | crates/swarmx-server/src/cron.rs:38-49 | every day number, negative ones too, gives a date that exists, and counting days to that date (leap years and month lengths, no shifted March years) gives the number back |
| `Calendar.CivilOfDate` | crates/swarmx-server/src/cron.rs:38-49 | every date that exists is the date of its day number: the map is a bijection |
| `Calendar.CivilStep` | crates/swarmx-server/src/cron.rs:38-49 | the date of the next number is the next day of the Gregorian calendar |
| `Calendar.Epoch` | crates/swarmx-server/src/cron.rs:37-37 | day 0 is 1970-01-01 |
| `Calendar.YearOfEraIsRight` | crates/swarmx-server/src/cron.rs:42-44 | the year formula lands in the year whose days contain the given day of the 400-year cycle, with a 366th day only in leap years |
| `Calendar.MonthIsRight` | crates/swarmx-server/src/cron.rs:45-48 | the month and day formulas give an existing date and lose no day |
| `Cron.FieldsFromUnix` | crates/swarmx-server/src/cron.rs:20-35 | every field is in its calendar range, for every second |
| `Cron.FieldsAreRight` | crates/swarmx-server/src/cron.rs:20-35 | date, hour and minute put the instant together again; weekdays follow each other from Thursday at the epoch |
| `Text.SplitOfJoin` | crates/swarmx-server/src/cron.rs:53-53 | splitting at a separator undoes joining with it |
| `Text.JoinOfSplit` | crates/swarmx-server/src/cron.rs:53-53 | for any string: joining the pieces gives it back, and no piece has a separator |
| `Text.WordsOfSpaced` | crates/swarmx-server/src/cron.rs:89-89 | splitting at white space gives the words back, whatever white space is around them, any run of it |
| `Text.SpacedOfWords` | crates/swarmx-server/src/cron.rs:89-89 | and every string is its words with such white space |
| `Text.U32Means` | crates/swarmx-server/src/cron.rs:62-62 | any string whatever: read as the sum of its digits times their powers of ten, zeros in front and a plus sign allowed, if that is below 2^32, and not at all otherwise |
| `Text.DecimalU32` | crates/swarmx-server/src/cron.rs:62-62 | so a 32-bit number is read back from its decimal digits |
| `Text.I32Means` | crates/swarmx-server/src/spawn.rs:615-619 | the same for a signed number |
| `Text.SplitOnceAt` | crates/swarmx-server/src/cron.rs:69-69 | a range is cut at its first dash |
| `Cron.MatchField` | crates/swarmx-server/src/cron.rs:52-85 | the loop over the comma list answers whether some element matches |
| `Cron.ValidFieldHasValue` | crates/swarmx-server/src/cron.rs:116-143 | an accepted field matches some value of its range |
| `Cron.ValidDowHasDay` | crates/swarmx-server/src/cron.rs:108-114 | an accepted day-of-week field matches some weekday, 7 meaning Sunday |
| `Cron.PartMeans` | crates/swarmx-server/src/cron.rs:52-85 | any string as one element of a list matches if and only if it is the text of an item that lets the value through, a range cut to the bounds |
| `Cron.ListMeans` | crates/swarmx-server/src/cron.rs:52-85 | any list of strings matches if and only if one of them, trimmed, does |
| `Cron.FieldTextValid` | crates/swarmx-server/src/cron.rs:121-143 | the text of a list of items, with any zeros in front of its numbers, is accepted exactly when all its numbers are in range |
| `Cron.FieldTextMatches` | crates/swarmx-server/src/cron.rs:52-85 | such a text matches exactly the values one of its items means |
| `Cron.ExprTextMeans` | crates/swarmx-server/src/cron.rs:87-157 | the text of a five-field expression, with any white space around its fields and any zeros in front of its numbers, is accepted exactly when it is in range, and matches exactly the instants it means (all fields, Sunday as 0 or 7) |
| `Cron.AcceptedIsText` | crates/swarmx-server/src/cron.rs:116-157 | nothing else is accepted: every accepted string is such a text of an expression in range |
| `CronSearch.NextAfter` | crates/swarmx-server/src/cron.rs:159-192 | the day-skipping search returns what probing every minute would: the least whole minute of the window at which the expression fires, or None if there is none or the expression is not accepted; any start, any offset |
| `CronSearch.SearchMeans` | crates/swarmx-server/src/cron.rs:159-192 | for every accepted text and every second from 1970 on: the least whole minute after it that the expression means, within 366 days of the next whole minute, or None if there is none |
| `CronSearch.SameLocalDay` | crates/swarmx-server/src/cron.rs:178-185 | the minutes skipped share the date that did not match |
| `CronSearch.StartIsNextMinute` | crates/swarmx-server/src/cron.rs:174-174 | the window starts at the first whole minute after the given second if and only if that second is not negative or is a whole minute |
| `CronSearch.WholeMinuteFires` | crates/swarmx-server/src/cron.rs:299-311 | the scheduler's test at any second of a minute agrees with the minute |
| `CronSearch.FiresWithinAWeek` | crates/swarmx-server/src/cron.rs:159-192 | an accepted expression open in day and month fires within 7 days and the search returns it |
| `CronSearch.StarsFireWithinAWeek` | crates/swarmx-server/src/cron.rs:121-192 | so does every accepted expression whose day of month and month are stars |
| `CronSearch.FiresWithinTheWindow` | crates/swarmx-server/src/cron.rs:174-175 | 366 days are enough for every accepted expression that lets through a date of common years on any weekday |
| `Utf8.ReadCharMeaning` | crates/swarmx-recorder/src/writer.rs:276-299 | the byte-by-byte reader finds a character exactly when the RFC grammar does, asks for more exactly when the grammar could go on, and otherwise skips a maximal subpart |
| `Utf8.DecodeInTwo` | crates/swarmx-recorder/src/writer.rs:263-302 | decoding may stop at any byte and go on from the open bytes |
| `Utf8.LossyMeans` | crates/swarmx-recorder/src/writer.rs:225-233 | lossy decoding of any bytes, in the words of the standards: a character is copied, and where none begins the maximal subpart becomes one U+FFFD |
| `Utf8.TextMeans` | crates/swarmx-recorder/src/writer.rs:276-280 | text is a sequence of characters of the grammar |
| `Utf8.CharsAreText` | crates/swarmx-recorder/src/writer.rs:276-280 | every sequence of characters is text |
| `Utf8.LossyIsDecode` | crates/swarmx-recorder/src/writer.rs:225-233 | one-shot lossy decoding is the incremental one plus the lossy decoding of what is left open |
| `Utf8.TextIsKept` | crates/swarmx-recorder/src/writer.rs:190-194 | well-formed text is decoded to itself with nothing open |
| `Utf8.DecodedIsText` | crates/swarmx-recorder/src/writer.rs:190-194 | whatever comes in, what is written is well-formed |
| `Recorder.ValidateIsDecode` | crates/swarmx-recorder/src/writer.rs:277-298 | what the validity check reports (valid prefix, error length, end of input) determines the decoding |
| `Recorder.Writer.DecodeChunk` | crates/swarmx-recorder/src/writer.rs:271-302 | the loop puts out the decoding of pending bytes and chunk and keeps exactly the open bytes |
| `Recorder.Writer.Receive` | crates/swarmx-recorder/src/writer.rs:169-222 | a chunk is counted always and becomes one event unless the size cap is reached or the disk has failed; a failed line or flush ends the events; at most 3 bytes stay pending; the invariant ties the file to the bytes received |
| `Recorder.Writer.Finish` | crates/swarmx-recorder/src/writer.rs:225-260 | what was handed to the file is a beginning of the lossy decoding of everything received, and all of it if the cap was not reached and the disk did not fail; every event is well-formed text |
| `Recorder.AnySplit` | crates/swarmx-recorder/src/writer.rs:263-302 | for every way of cutting the output into chunks, events and lossy tail are the one-shot decoding, and text comes through unchanged |
| `JsonScan.PeekCloses` | crates/swarmx-server/src/fusion.rs:117-119 | the look-ahead skips white space and sees whether a bracket or brace closes next |
| `JsonScan.RepairJson` | crates/swarmx-server/src/fusion.rs:100-131 | the byte loop computes the repair, and on text the result is text, so the fallback is never taken |
| `JsonScan.RepairedIsText` | crates/swarmx-server/src/fusion.rs:128-130 | dropping commas from text leaves text, wherever multi-byte characters stand |
| `JsonScan.RepairMeans` | crates/swarmx-server/src/fusion.rs:100-131 | any bytes, cut at their strings: the repair takes out exactly the commas outside strings behind which, but for white space, a bracket or brace closes; strings stay, closed or not |
| `JsonScan.AnyBytes` | crates/swarmx-server/src/fusion.rs:100-131 | all bytes can be cut like that |
| `JsonScan.ClosesMeans` | crates/swarmx-server/src/fusion.rs:117-119 | the look-ahead sees a bracket or brace behind white space and nothing else |
| `JsonScan.RepairValue` | crates/swarmx-server/src/fusion.rs:95-131 | for every JSON tree, any white space and at most one comma too many before each closing bracket, the repair removes exactly those commas and changes nothing else |
| `JsonScan.GoodJsonIsKept` | crates/swarmx-server/src/fusion.rs:95-99 | JSON without such commas is left as it is |
| `JsonScan.CommaStays` | crates/swarmx-server/src/fusion.rs:100-131 | for all bytes: after one repair a comma too many is left outside strings if and only if two stood in a row with only white space between |
| `JsonScan.RepairedIsSame` | crates/swarmx-server/src/fusion.rs:100-131 | for all bytes: the repair changes nothing if and only if there is no comma too many outside strings |
| `JsonScan.RepairTwice` | crates/swarmx-server/src/fusion.rs:100-131 | a second repair finds nothing to do if and only if no two stood in a row |
| `JsonScan.FirstBalancedObject` | crates/swarmx-server/src/fusion.rs:138-166 | the scan from the first brace returns the object the specification finds |
| `JsonScan.BareEnds` | crates/swarmx-server/src/fusion.rs:138-166 | any bytes: the object ends at the first closing brace outside strings that brings the braces outside strings into balance |
| `JsonScan.BareGoesOn` | crates/swarmx-server/src/fusion.rs:138-166 | a stretch outside strings without such a brace only moves the depth by its braces |
| `JsonScan.QuotedIsSkipped` | crates/swarmx-server/src/fusion.rs:138-166 | a string moves nothing, and ends the search if it is never closed |
| `JsonScan.SkipValue` | crates/swarmx-server/src/fusion.rs:144-163 | inside an object every value, with its strings, escapes and braces, leaves the depth where it was |
| `JsonScan.FoundStays` | crates/swarmx-server/src/fusion.rs:133-137 | text after a complete object does not change what is found |
| `JsonScan.ObjectIsFound` | crates/swarmx-server/src/fusion.rs:80-85 | out of text without a brace, any rendering of an object and any text after it, exactly the object comes out, and its repair is the object without extra commas |
| `JsonScan.TruncatedIsNotFound` | crates/swarmx-server/src/fusion.rs:133-135 | no proper beginning of an object is taken for one |
| `Stream.KeptIsUnique` | crates/swarmx-server/src/pty_stream.rs:17-23 | there is one longest end of the history that fits, or the newest chunk alone |
| `Stream.NumbersMean` | crates/swarmx-server/src/pty_stream.rs:109-132 | numbers start at 1, go up by one to 2^32 - 1 and start at 1 again |
| `Stream.PtyStream.constructor` | crates/swarmx-server/src/pty_stream.rs:97-107 | a new stream is open and has no history |
| `Stream.PtyStream.Append` | crates/swarmx-server/src/pty_stream.rs:109-132 | appends to the history and evicts, so that exactly the longest fitting end (or the newest chunk) is held, numbered contiguously with the byte total exact; numbers wrap at 2^32 leaving out 0 |
| `Stream.PtyStream.Close` | crates/swarmx-server/src/pty_stream.rs:136-142 | marks the stream closed and keeps the rest |
| `Stream.PtyStream.Snapshot` | crates/swarmx-server/src/pty_stream.rs:144-151 | tells next number, oldest number held and closedness |
| `Stream.PtyStream.FetchSince` | crates/swarmx-server/src/pty_stream.rs:153-187 | for any number of appends: the answer over the numbers as they wrap; below 2^32 - 1 appends it is nothing new, a gap exactly when the next chunk needed was evicted, or all later chunks in order |
| `Stream.AnswerIsFetch` | crates/swarmx-server/src/pty_stream.rs:153-158 | with fewer than 2^32 - 1 appends, comparing numbers is comparing positions in the history |
| `Stream.ToldNothing` | crates/swarmx-server/src/pty_stream.rs:161-165 | for any number of appends: nothing is sent if and only if the cursor is not below the number of appends modulo 2^32 - 1 |
| `Stream.PollLeads` | crates/swarmx-server/src/routes/pty_ws.rs:219-247 | with fewer than 2^32 - 1 appends a poll catches up to the head, and reports a loss exactly when the next chunk was evicted |
| `Stream.SubscriberGetsAll` | crates/swarmx-server/src/routes/pty_ws.rs:215-247 | under any interleaving with appends, fewer than 2^32 - 1 in all, a subscriber gets every chunk once, in order, except those it is told are lost |
| `Stream.NoLossIsAll` | crates/swarmx-server/src/pty_stream.rs:9-15 | a log without a loss is exactly the chunks from its first cursor to its last |
| `Notify.NoLostWakeup` | crates/swarmx-server/src/pty_stream.rs:189-209 | in every interleaving of appends, closes, notifications and any number of waiters, nobody sleeps through a change unless a notification is still owed, and nobody returns without cause |
| `Notify.EveryRun` | crates/swarmx-server/src/pty_stream.rs:196-209 | from the start; and once no notification is owed every waiter with cause returns after at most three steps of its own |
| `Search.FindFinds` | crates/swarmx-server/src/spawn.rs:644-646 | the search finds the first occurrence if there is one |
| `OscScanner.Scanner.ScanOsc` | crates/swarmx-server/src/spawn.rs:583-642 | the scanning loop over bounded buffer, lifecycle and events is the specified scan of old buffer and chunk |
| `OscScanner.AnyInput` | crates/swarmx-server/src/spawn.rs:599-632 | over any input the events are exactly the changes of the lifecycle: at most one ready, at most one exit, never another code |
| `OscScanner.PassReady` | crates/swarmx-server/src/spawn.rs:599-611 | any bytes: a ready marker goes first, the first one there is, and takes all before it along |
| `OscScanner.PassExit` | crates/swarmx-server/src/spawn.rs:612-634 | without one it is the first exit marker, up to the first bell behind it |
| `OscScanner.PassNothing` | crates/swarmx-server/src/spawn.rs:635-641 | and without either, or without the bell, nothing is taken out |
| `OscScanner.ReadyHidesExit` | crates/swarmx-server/src/spawn.rs:599-634 | an exit marker in front of a ready marker in the same buffer is never read |
| `OscScanner.ExitCodeMeans` | crates/swarmx-server/src/spawn.rs:615-619 | any bytes in an exit marker: digits, perhaps behind one sign, are worth their decimal value if it fits 32 bits, and anything else is worth -1 |
| `OscScanner.CodeIsRead` | crates/swarmx-server/src/spawn.rs:615-619 | so every 32-bit exit code is read back from its marker |
| `OscScanner.ShimStreamIsMarked` | crates/swarmx-shim/src/main.rs:46-86 | markers in clean output make no further markers at the seams |
| `OscScanner.OneCall` | crates/swarmx-server/src/spawn.rs:591-641 | one call, with any part of a stream of at most one marker of each kind in buffer and chunk, of any length: each marker is seen if and only if it is complete and stands in what the cut leaves; buffer, lifecycle and events after it |
| `OscScanner.AnyChunks` | crates/swarmx-server/src/spawn.rs:583-642 | any sequence of chunks, long or short: which markers are seen is decided by the lengths of the chunks, and the events are exactly those, in order |
| `OscScanner.ShimIsSeen` | crates/swarmx-server/src/spawn.rs:576-642 | the same for clean output around the two markers the shim writes, from the start, with the exit code written |
| `OscScanner.ShimInOneChunk` | crates/swarmx-server/src/spawn.rs:591-632 | both markers in one chunk of any length: each is seen if and only if the chunk fits the buffer or it stands in the kept part |
| `OscScanner.MarkersAreSeen` | crates/swarmx-server/src/spawn.rs:576-642 | any clean output around a ready and an exit marker, in any chunks of at most 237 bytes, gives ShimReady, then ShimExit with the code written |
| `OscScanner.SafeChunkIsLongest` | crates/swarmx-server/src/spawn.rs:592-597 | a marker of 20 bytes that has begun, however it came, is lost when a chunk of 238 bytes completes it and the buffer overflows |
| `OscScanner.LongChunk` | crates/swarmx-server/src/spawn.rs:592-597 | the same for a ready marker alone in buffer and chunk |
| `OscScanner.LongChunkExit` | crates/swarmx-server/src/spawn.rs:591-632 | the same for an exit marker alone in buffer and chunk, with any lifecycle before it |
| `ReadyPlan.Runner.FromPlan` | crates/swarmx-server/src/spawn.rs:859-911 | the usable steps in order, none at all giving no runner, the first deadline armed |
| `ReadyPlan.PlanOrder` | crates/swarmx-server/src/spawn.rs:859-903 | the runner's steps are exactly the complete steps of the plan, each once, in order |
| `ReadyPlan.DeadlineDecides` | crates/swarmx-server/src/spawn.rs:922-1014 | at the next reading of the clock the active step is dropped if and only if it has a needle and more than its window has passed since it became active, even if the needle is there; otherwise it is done if and only if it has no needle or the needle is in the buffer; else it waits |
| `ReadyPlan.Runner.AdvanceCursor` | crates/swarmx-server/src/spawn.rs:961-1034 | the loop is the specified progress through the plan |
| `ReadyPlan.Runner.ScanChunk` | crates/swarmx-server/src/spawn.rs:942-955 | one chunk: bounded buffer, progress, and a cleared buffer at the end of the plan |
| `ReadyPlan.EveryRun` | crates/swarmx-server/src/spawn.rs:942-1034 | from any sound state, over every chunk sequence, clock and channel: the log stays sound, what was typed is what the log says, and the buffer is at most 8 KiB |
| `ReadyPlan.PlanRuns` | crates/swarmx-server/src/spawn.rs:902-1034 | from the start of a plan: what is typed is, in order and once each, the responses of matched steps that the channel took; every step is left rightly and one after the other; the buffer is bounded |
| `ReadyPlan.WrittenPlanRuns` | crates/swarmx-server/src/spawn.rs:859-1034 | the same for the plan as it is written: the step left in place i is its i-th complete step, left rightly, and what is typed are the responses of its matched dialog and input steps that the channel took, in its order |
| `ReadyPlan.LogTells` | crates/swarmx-server/src/spawn.rs:965-1014 | a needle step counts as matched only if its needle stands in the output in one piece and its window was open, as expired only after its window; steps pass one per clock reading in order |
| `ReadyPlan.Senders` | crates/swarmx-server/src/spawn.rs:996-1005 | the steps that sent are in the order of the plan, each once: the matched dialog and input steps whose response the channel took |
| `ReadyPlan.AnswersInOrder` | crates/swarmx-server/src/spawn.rs:996-1005 | what was typed is the responses of those steps |
| `ReadyPlan.RestsOnlyToWait` | crates/swarmx-server/src/spawn.rs:957-960 | progress stops only at a step whose needle is not in the buffer and whose time is not over |
| `ReadyPlan.NeedleInRun` | crates/swarmx-server/src/spawn.rs:942-1014 | over any chunks while its time is not over: a needle that stands in the output once is matched if and only if the buffer still begins at or before it when its last byte comes, which the lengths of the chunks decide |
| `ReadyPlan.ShortChunksMatch` | crates/swarmx-server/src/spawn.rs:946-949 | a needle of n bytes is matched in time if no chunk has more than 1025 - n bytes |
| `ReadyPlan.LongerChunkIsTooMuch` | crates/swarmx-server/src/spawn.rs:946-949 | a chunk of 1026 - n bytes that completes it behind a nearly full buffer makes the plan miss it for good |
| `ReadyPlan.TokenIsWord` | crates/swarmx-server/src/spawn.rs:1040-1054 | the captured token is the word behind the blanks |
| `ReadyPlan.ExtractStores` | crates/swarmx-server/src/spawn.rs:1015-1027 | an extract step in time stores the word behind the first occurrence of its needle in the buffer |
| `ReadyPlan.SlotStays` | crates/swarmx-server/src/spawn.rs:1015-1027 | and that stays through every run without another step that extracts into the slot |
| `Watchdog.Watchdog.JudgeOne` | crates/swarmx-server/src/stuck_watchdog.rs:340-505 | the early exits and the rest of the loop body do what the decision on the whole snapshot says; its recovery arm is never reached |
| `Watchdog.Watchdog.ClearMarks` | crates/swarmx-server/src/stuck_watchdog.rs:252-288 | exactly the live stuck agents with newer life lose mark and count |
| `Watchdog.Watchdog.Candidates` | crates/swarmx-server/src/stuck_watchdog.rs:296-323 | exactly the live, ready, error-free, running, unpaused agents; those with an error lose their count |
| `Watchdog.Watchdog.Judge` | crates/swarmx-server/src/stuck_watchdog.rs:340-505 | the loop judges every candidate on its own and touches no other agent |
| `Watchdog.Watchdog.Sweep` | crates/swarmx-server/src/stuck_watchdog.rs:240-506 | a sweep does to every agent what the one-agent specification says, and forgets agents that are gone |
| `Watchdog.SweepMeans` | crates/swarmx-server/src/stuck_watchdog.rs:143-189 | whatever is tracked: exactly when a sweep wakes an agent, marks it or clears its mark, in terms of its row, its signs of life, its debt and its wakes so far, and what is tracked afterwards |
| `Watchdog.NextInRun` | crates/swarmx-server/src/stuck_watchdog.rs:143-189 | over every run of sweeps: the next one wakes an agent in debt and long silent if and only if it has had fewer than two wakes in this silence, and marks it if and only if it has had two |
| `Watchdog.RunIsSound` | crates/swarmx-server/src/stuck_watchdog.rs:78-92 | over every run of sweeps the tracked count is the number of wakes of the current silence, each a threshold after the one before |
| `Watchdog.MarkAfterSilence` | crates/swarmx-server/src/stuck_watchdog.rs:17-25 | a mark comes after exactly two unanswered wakes, so more than three thresholds after the last sign of life, on an agent that owes a handoff and waits for nothing |
| `Watchdog.SilenceIsMarked` | crates/swarmx-server/src/stuck_watchdog.rs:143-189 | over every run of sweeps, however often, at most d apart: an agent silent since its last sign of life and in debt is woken, woken again and marked, exactly once each, by any sweep later than three thresholds and 2 d after that sign (two thresholds and d after the first sweep, if watching began late) |
| `Watchdog.MarkedIsLeftAlone` | crates/swarmx-server/src/stuck_watchdog.rs:297-308 | over every run a marked agent is neither woken nor marked again and keeps its mark until life newer than the mark |
| `Watchdog.NewerLifeClears` | crates/swarmx-server/src/stuck_watchdog.rs:250-287 | a sweep clears a persisted mark if and only if it sees life newer than the mark, and the count starts over |
| `Budget.Brake.TripWorkspace` | crates/swarmx-server/src/budget.rs:94-158 | a trip pauses exactly the running targets, or leaves no trace; nothing happens if the agents cannot be listed; agents that exit before they are interrupted are as if they had not been there |
| `Budget.TripMeans` | crates/swarmx-server/src/budget.rs:94-238 | a trip stands if and only if the store works and the marker is set already or the cap is set, above zero and at most the cost; what it then changes, and that nothing changes otherwise |
| `Budget.Brake.PersistTrip` | crates/swarmx-storage/src/store.rs:3128-3181 | the four outcomes of the store, with marker and ledger |
| `Budget.Brake.HandleTripPersist` | crates/swarmx-server/src/budget.rs:180-238 | pauses stay when the trip stands and are taken back otherwise |
| `Budget.Brake.RevertPauses` | crates/swarmx-server/src/budget.rs:161-173 | exactly the given agents that are still there are unpaused |
| `Budget.Brake.LiftWorkspace` | crates/swarmx-server/src/budget.rs:244-287 | clears marker and ledger, unpauses and wakes exactly the ledger's live agents |
| `Budget.LiftMeans` | crates/swarmx-server/src/budget.rs:244-287 | what a lift changes: marker and ledger gone, the ledger's agents running, all others as they were; nothing without a working store |
| `Budget.LiveMeans` | crates/swarmx-server/src/budget.rs:257-272 | the agents a lift wakes are those of the ledger that are there, in its order |
| `Budget.LiftUndoesTrip` | crates/swarmx-server/src/budget.rs:11-14 | a trip and the lift after it give every agent back as it was; a trip without a marker changed nothing |
| `Budget.TripsAddUp` | crates/swarmx-server/src/budget.rs:89-90 | further trips only add: all live targets paused, the ledger the union of what was unpaused before, and one lift undoes all |
| `BudgetProtocol.PausedForAReason` | crates/swarmx-server/src/budget.rs:94-287 | in every interleaving of trips, rollbacks, lifts, operator steps, spawns and exits, gates that let through while the marker is set included: with nothing in flight an agent is paused only by an operator's pause that nobody has ended or by the ledger of a set marker |
| `BudgetProtocol.AccountedStep` | crates/swarmx-server/src/budget.rs:94-287 | the invariant behind it, in flight too |
| `BudgetProtocol.PauseLasts` | crates/swarmx-server/src/budget.rs:161-287 | in any state, with lifts or without: a pause lasts through every run of the brake if and only if no hand of the brake is on the agent that could let go (a trip or lift under way, a trip about to pause it, with lifts the ledger) |
| `BudgetProtocol.PauseLastsAnswered` | crates/swarmx-server/src/budget.rs:180-236 | under the marker, with a store whose writes do not fail, a pause lasts until a lift if and only if no trip being taken back and no lift under way holds the agent |
| `BudgetProtocol.FirmLasts` | crates/swarmx-server/src/budget.rs:94-287 | such a pause lasts through every other step too, until the operator ends it or the agent exits |
| `BudgetProtocol.OperatorPauseLasts` | crates/swarmx-server/src/budget.rs:11-14 | whatever is in flight, the operator's pause outlives all the brake can do if and only if the brake does not hold the agent when it is made |
| `BudgetProtocol.OperatorKeepsIt` | crates/swarmx-server/src/budget.rs:11-14 | and it stays the operator's own |
| `BudgetProtocol.PauseAgainstLift` | crates/swarmx-server/src/budget.rs:240-272 | with nothing in flight the ledger alone decides, and a lift undoes the pause of an agent in it |
| `BudgetProtocol.StandingTripStops` | crates/swarmx-server/src/budget.rs:145-236 | a trip that stands stops an agent until a lift if and only if the agent is paused at that moment and nothing else in flight has its hand on it; if no later write fails, if and only if it is paused and nothing under way lets go of it |
| `BudgetProtocol.MarkerOverARunningAgent` | crates/swarmx-server/src/budget.rs:207-236 | a run in which the write of another trip that paused the agent fails: the marker is set and the agent runs |
| `BudgetProtocol.ResumedBeforeTheAnswer` | crates/swarmx-server/src/routes/rest.rs:2563-2585 | a run in which the operator resumes the agent before the store answers: the marker is set, the agent in the ledger, and it runs |
| `WakeThrottle.Hook.Run` | crates/swarmx-mcp/src/wake_check.rs:122-253 | one invocation: gate, claim, state file, and what is put out, for a server that is out of reach, braked, answers, or claims and loses the answer |
| `WakeThrottle.DeliveryMeans` | crates/swarmx-mcp/src/wake_check.rs:122-253 | every call in every state: exactly the unread wakes are put out, in order, if and only if the hook is not stopping, the agent is known, the server answers, there are wakes, and the gate is open: no file, no time in it, a window that is over, or a count below the limit |
| `WakeThrottle.InvocationMeans` | crates/swarmx-mcp/src/wake_check.rs:166-240 | and what is left behind: mailbox, delivered and lost wakes, and the state file |
| `WakeThrottle.EveryWakeAccounted` | crates/swarmx-server/src/wake_claim.rs:27-41 | whatever fails, every wake that arrived is delivered, lost with an answer or still unread, each once and in order |
| `WakeThrottle.NothingLost` | crates/swarmx-mcp/src/wake_check.rs:202-211 | no wake is lost in a run if and only if no answer to a call that asked and found wakes was lost |
| `WakeThrottle.ThrottledRun` | crates/swarmx-mcp/src/wake_check.rs:166-239 | the file always holds the time and length of the burst since it was last removed, and no burst exceeds the limit |
| `WakeThrottle.RateIsLimited` | crates/swarmx-mcp/src/wake_check.rs:166-239 | of any limit-and-one deliveries in a row without a zero answer between, two neighbours are a window apart; the clock may even go back |
| `WakeThrottle.UnbrakedIsLimited` | crates/swarmx-mcp/src/wake_check.rs:24-29 | as long as the brake answers no call, the limit holds from one empty mailbox to the next |
| `WakeThrottle.BrakeForgets` | crates/swarmx-server/src/routes/swarm.rs:339-360 | after a zero answer of the brake everything that can follow keeps to the limit if and only if there is no window, no delivery since the mailbox was last found empty, or an empty mailbox |
| `WakeThrottle.FiveInAWindow` | crates/swarmx-server/src/routes/swarm.rs:339-360 | a run with the default limit of 3 in 30 seconds: five deliveries in five milliseconds |
| `WakePayload.TruncateUtf8` | crates/swarmx-server/src/wake_claim.rs:128-140 | the longest beginning that fits and ends at a character boundary, and whether anything was dropped |
| `WakePayload.PreviewPrefix` | crates/swarmx-protocol/src/rest.rs:594-603 | the same cut |
| `WakePayload.CutIsGood` | crates/swarmx-protocol/src/rest.rs:592-593 | a cut is well-formed text and at most three bytes shorter than it must be |
| `WakePayload.CutIsLongest` | crates/swarmx-server/src/wake_claim.rs:128-140 | the cut is the longest beginning that fits and ends at a character boundary |
| `Utf8.BoundaryMeans` | crates/swarmx-server/src/wake_claim.rs:128-140 | a place of text is a character boundary if and only if what is before it is text |
| `WakePayload.InlineWakePayloads` | crates/swarmx-server/src/wake_claim.rs:57-124 | the loop with its budget computes the specified items; the page may fail to come, and the blackboard is read anew for every message |
| `WakePayload.InlineOne` | crates/swarmx-server/src/wake_claim.rs:95-121 | one item and the budget left |
| `WakePayload.InlineIsSound` | crates/swarmx-server/src/wake_claim.rs:14-25 | at most 50 items, ids claimed and strictly ascending, contents beginnings of blackboard values within 64 KiB each and 256 KiB together, the flag exact |
| `WakePayload.InlineMeans` | crates/swarmx-server/src/wake_claim.rs:80-121 | in a page with distinct ids every wake claimed with fewer than 50 claimed ids before its own, with or without a key, has its item: all its fields, its note cut at 64 KiB, and the value of its key if it is on the blackboard and budget is left, cut at 64 KiB and at what the items before left of 256 KiB |
| `WakePayload.InlineOnly` | crates/swarmx-server/src/wake_claim.rs:87-94 | there are no other items |
| `WakePayload.InlineIsComplete` | crates/swarmx-server/src/wake_claim.rs:87-94 | in any page at all such a wake has an item with its id |
| `WakePayload.ContinuationPrompt` | crates/swarmx-protocol/src/rest.rs:517-570 | the loop lists the first ten digests and the number left |
| `WakePayload.PromptMeans` | crates/swarmx-protocol/src/rest.rs:517-590 | the first ten items each have their line, in order and with their author: a quote if and only if nothing was cut and it has at most 2000 bytes, a teaser with a pointer otherwise, or the note; and the wakes left are counted |
| `WakePayload.QuoteIsWhole` | crates/swarmx-protocol/src/rest.rs:574-590 | a line that quotes without a pointer quotes the whole blackboard value; a teaser is a beginning of it; a note is the mailbox note of a message, whole if and only if the item is not flagged |
| `WakePayload.NoteIsWhole` | crates/swarmx-protocol/src/rest.rs:574-590 | a mailbox note is shown whole if and only if it has at most 64 KiB, which is when the item is not flagged |
| `WakePayload.PromptAccounts` | crates/swarmx-protocol/src/rest.rs:517-570 | lines and remainder add up to the wakes claimed, and every quote is whole |

## Left out

- PollLeads: stated for fewer than 2^32 - 1 appends; what a subscriber makes of numbers on both sides of a wrap is not followed.
- SubscriberGetsAll: the same bound, on all appends of the run.
- EveryWakeAccounted: wakes claimed on other paths (terminal kicks, served engines) never enter the mailbox here.
- Receive: the JSON text of an event line, whose length is a parameter, and the arm for a number and two strings that cannot be written as JSON; how much of a failed line is in the file is open.
- NextAfter: instants are unbounded integers, so the overflow of seconds near the ends of 64 bits is not modelled.
- FirstBalancedObject: the nesting depth is unbounded where the source has 32 bits.
- Sweep: the wake coordinator, events and log lines; obligations and dependencies come in as two flags of an agent.
- ContinuationPrompt: the wording; a line is its kind, author, key and text.
- The scheduler's store of last runs, and starting an orchestrator for a job.
- The health scanner of the terminal, the fences and the parser around the JSON scanners, the panel, judge and synthesis calls.
- HTTP and web sockets, terminals and processes, SQLite, configuration, plugins and the web interface.
