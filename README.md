# ihazspam mail acceptance, modelled in Dafny

ihazspam is a disposable-mailbox service. Its MX process accepts SMTP
connections. It accepts mail only for mailboxes that are currently active,
stores each message body under a fresh content identifier, and queues an
accepted-mail record for a database writer. Around that process sit:

- the byte-buffer helpers the protocol parser uses;
- the server's sweep of stale sessions;
- random mailbox names;
- configuration validation;
- the string logic of the mail extractor (script injection into HTML
  previews, attachment file names, which files get pre-compressed).

The model follows the code's own shapes:

- **Bytes** (`bytes.dfy`): the byte-array helpers are methods over `array<byte>`. Each is proved against a specification function: `UpperRegion`, `FirstOccurrence` or `Tokens`.
- **Smtp** (`smtp_protocol.dfy`): one call of `HandleCompleteLine` is the pure function `Step` over a `Session` value. One pass of the line-reassembly loop is `Batch`.
- **SmtpSessions** (`smtp_session.dfy`): the class `SmtpSession` keeps the source's fields (state, buffered data as an `array<byte>`, buffered length) and a log of replies sent. Its methods are proved to do what `Step` and `Batch` say.
- **SmtpCommands, SmtpMail, SmtpSize, SmtpLines**: what each command does and what the line reassembly guarantees, stated as lemmas about `Step` and `Batch`.
- **Dispatch**: `MailDispatcher`, with its sorted active-mailbox cache and binary search, its FIFO queue and ghost logs of records enqueued, taken and persisted.
- **Server**: `SmtpServer`, with its list of active sessions, the backward sweep that drops dead sessions and aborts expired ones, and removal on notification.
- **Mailboxes**: `MailboxDTO`, covering random names, addresses and expiry.
- **Configurations**: the validation rules and the domain normalisation loop.
- **Extraction**: the pure string logic of the extractor.
- **Common** and **Text**: shared types, C# 32-bit wrap-around and the .NET string operations used.

Where the code behaves in a way a reader may not expect, the model follows the code:

- RSET resets the transaction and returns to `WaitingForHelo`. It only closes the partial body file; it does not delete it (`src/MX/SmtpSession.cs:184-195`), although section 4.1.1.5 of RFC 5321 says RSET discards any stored mail data.
- QUIT leaves every state, `WaitingForRset` included. RSET is not the only way out of that state (`src/MX/SmtpSession.cs:466-479`).
- The dispatcher's worker takes a record off the queue before inserting it. If the insert fails, that record is lost; it does not stay queued (`src/MX/MailDispatcher.cs:77-80`). `DispatchNext(insertSucceeds)` models this.
- The body is written only while it stays within the maximum size (`src/MX/SmtpSession.cs:460`). So the "message too big" branch at the terminating dot (`:442-446`) cannot be reached. `Inv` bounds the body by the maximum, and `StepBody` states that the terminating dot always enqueues a record.
- The EHLO reply puts the server name, not the maximum size, after `SIZE` (`src/MX/SmtpSession.cs:120`). `Reply.Text` reproduces this.
- The SIZE= parameter is read as the code reads it; see Findings.

## Model

| member | source | states |
|---|---|---|
| Bytes.BuildTables | src/Common/Bytes.cs:12-19 | the two 256-entry tables hold, at every index, the upper-case mapping and the digit decoding |
| Bytes.AlphaUpperChangesOnlyLowerCase | src/Common/Bytes.cs:16 | the upper-case table changes exactly the bytes 'a'..'z', each to the letter 32 below, and never yields a lower-case letter |
| Bytes.DigitsDecodeAsciiDigits | src/Common/Bytes.cs:17 | a byte decodes to a digit 0..9 exactly when it is '0'..'9', and then to its value |
| Bytes.ToUpper | src/Common/Bytes.cs:31-40 | after the call the array is the old contents upper-cased inside the region and unchanged elsewhere |
| Bytes.UpperRegionSpec | src/Common/Bytes.cs:31-40 | a byte changes only if it lies in the region and is a lower-case letter; such bytes become upper case; upper-casing twice equals once |
| Bytes.IsSame | src/Common/Bytes.cs:47-55 | true exactly when the search bytes equal the region |
| Bytes.StartsWith | src/Common/Bytes.cs:62-73 | true exactly when the search bytes fit in the region and form its prefix |
| Bytes.EndsWith | src/Common/Bytes.cs:80-92 | true exactly when the search bytes fit in the region and form its suffix |
| Bytes.MatchesAt | src/Common/Bytes.cs:103-111 | the inner comparison loop reports exactly whether the pattern occurs at the offset |
| Bytes.OffsetOf | src/Common/Bytes.cs:99-118 | returns the first occurrence of the pattern lying wholly in the region, or -1 |
| Bytes.FirstOccurrenceIsFirst | src/Common/Bytes.cs:99-118 | no occurrence in the region starts before the returned index, and none exists when -1 is returned |
| Bytes.FirstOccurrenceLocal | src/Common/Bytes.cs:99-118 | the search depends only on the bytes of the region |
| Bytes.IsDelimiter | src/Common/Bytes.cs:132-140 | true exactly when the byte is in the delimiter set |
| Bytes.Split | src/Common/Bytes.cs:121-163 | the segments returned are the maximal delimiter-free runs of the region, in order |
| Bytes.TokensAreTokens | src/Common/Bytes.cs:121-163 | every segment is non-empty, delimiter-free, maximal and inside the region, and the segments are strictly ascending |
| Bytes.TokensConcatenate | src/Common/Bytes.cs:121-163 | the segments joined together are exactly the region with its delimiters removed |
| Bytes.TokensWithin | src/Common/Bytes.cs:121-163 | every segment produced for a region lies inside that region |
| Common.Wrap32 | src/MX/SmtpSession.cs:326-330 | the C# unchecked `int` result of an arithmetic value: always within 32 bits, and the value itself when it fits |
| Text.TrimStartSpec | src/MX/SmtpSession.cs:301 | the left trim removes a white-space prefix and leaves nothing or a non-white-space first character |
| Text.TrimEndSpec | src/MX/SmtpSession.cs:301 | the right trim removes a white-space suffix and leaves nothing or a non-white-space last character |
| Text.TrimIsSlice | src/MX/SmtpSession.cs:301 | a trimmed string is a contiguous slice of the original |
| Text.TrimCutsWhiteSpace | src/MX/SmtpSession.cs:301 | what trimming removes on both sides is white space only |
| Text.TrimEndsNotWhiteSpace | src/MX/SmtpSession.cs:301 | a non-empty trimmed string starts and ends with non-white-space characters |
| Text.TrimIdempotent | src/Common/Configuration.cs:55 | trimming twice equals trimming once |
| Text.TrimOfLower | src/MX/SmtpSession.cs:390 | trimming and lower-casing commute |
| Text.ToLowerIdempotent | src/MX/SmtpSession.cs:390 | lower-casing twice equals lower-casing once |
| Dispatch.CompareZeroIffEqual | src/MX/MailDispatcher.cs:62 | the string order used by the binary search says "equal" exactly for equal strings |
| Dispatch.CompareAntisymmetric | src/MX/MailDispatcher.cs:62 | swapping the arguments negates the comparison |
| Dispatch.CompareTransitive | src/MX/MailDispatcher.cs:62 | the order is transitive |
| Dispatch.BinarySearch | src/MX/MailDispatcher.cs:62 | on a sorted list: a non-negative result indexes the item; a negative result means the item is absent, and its complement is the insertion point, with smaller items before it and larger ones after |
| Dispatch.MailDispatcher.constructor | src/MX/MailDispatcher.cs:27-32 | empty cache, empty queue, no worker threads |
| Dispatch.MailDispatcher.Start | src/MX/MailDispatcher.cs:34-51 | after any number of calls there is exactly one dispatcher thread and one updater thread; cache and queue are unchanged |
| Dispatch.MailDispatcher.Enqueue | src/MX/MailDispatcher.cs:53-56 | the record is appended to the queue and to the log of enqueued records; nothing else changes |
| Dispatch.MailDispatcher.IsMailboxActive | src/MX/MailDispatcher.cs:58-65 | true exactly when the recipient is in the active-mailbox cache |
| Dispatch.MailDispatcher.UpdateActiveMailBoxCache | src/MX/MailDispatcher.cs:104-117 | a successful query replaces the cache with the sorted result; a failed one leaves the cache as it was; the queue is untouched |
| Dispatch.MailDispatcher.DispatchNext | src/MX/MailDispatcher.cs:67-88 | one worker iteration: the head of the queue is taken, and persisted only when the insert succeeds; an empty queue yields nothing; the queue always equals the enqueued log minus the taken log |
| Dispatch.TakenInEnqueueOrder | src/MX/MailDispatcher.cs:77-80 | records are taken in the order they were enqueued, and the next one taken is the oldest not yet taken |
| Smtp.ResetMailInfo | src/MX/SmtpSession.cs:184-195 | clears sender, recipient and body, sets the empty content id and the unknown expected size (-1), and keeps the state |
| Smtp.VerbIsUpperFirstToken | src/MX/SmtpSession.cs:221-231 | the verb is the first whitespace-delimited token of the line, upper-cased, or empty when the line has no token |
| Smtp.UpperFirstTokenInLine | src/MX/SmtpSession.cs:228 | upper-casing the verb changes no byte outside the line |
| Smtp.AddressLoopIsScan | src/MX/SmtpSession.cs:278-298 | the bracket loop of MAIL/RCPT finds the pair exactly as `AddressScan` describes, with the '<' and '>' inside the line |
| Smtp.ValueEndIsDigitRun | src/MX/SmtpSession.cs:307-322 | the SIZE value scan returns the last index of a non-empty digit run ended by white space or the end of the line, and -1 otherwise |
| Smtp.Unstuffed | src/MX/SmtpSession.cs:452-458 | a body line loses exactly one leading dot, and is otherwise kept whole |
| Smtp.Step | src/MX/SmtpSession.cs:215-511 | handling a line keeps the session invariant: the body stays within the maximum, a body exists exactly while waiting for the end of data, and sender/recipient are set in the states that need them |
| Smtp.Command | src/MX/SmtpSession.cs:233-500 | the dispatch chain keeps the session invariant; only a body line can complete a record; outside the body every line gets a reply |
| Smtp.Mail | src/MX/SmtpSession.cs:273-361 | MAIL always replies and completes no record; it leaves the session waiting for MAIL, for RCPT or for RSET, and once it moves on the sender is set |
| Smtp.Rcpt | src/MX/SmtpSession.cs:362-406 | RCPT always replies; it accepts with 250 only a recipient found in the active-mailbox cache, which becomes the last recipient; any other reply leaves the session unchanged |
| Smtp.Data | src/MX/SmtpSession.cs:407-427 | DATA replies 354, moves to receiving the body and leaves a content buffer open |
| Smtp.Body | src/MX/SmtpSession.cs:428-465 | a body line completes a record exactly when it is the terminating dot; the dot replies 250 and waits for the next MAIL; any other line gets no reply and stays in the body |
| Smtp.AnyStateCommand | src/MX/SmtpSession.cs:466-500 | QUIT, VRFY, EXPN, HELP, NOOP and the 503/500 fall-through always reply and complete no record; only a QUIT changes the state, to disconnect |
| Smtp.Batch | src/MX/SmtpSession.cs:554-565 | handling the complete lines of the buffer keeps the session invariant and consumes a prefix of the data |
| Smtp.LineTokens | src/MX/SmtpSession.cs:225 | the tokens of a command line are the whitespace-separated runs of the line and lie inside it |
| SmtpSessions.ScanAddress | src/MX/SmtpSession.cs:278-296 | the loop over the line computes the bracket positions of the specification |
| SmtpSessions.ScanSizeValue | src/MX/SmtpSession.cs:307-322 | the loop computes the end of the SIZE value as specified |
| SmtpSessions.AccumulateSize | src/MX/SmtpSession.cs:326-330 | the digit loop, with 32-bit products, sums and scales, computes `AccumulateAsWritten` |
| SmtpSessions.ScanSizeParameter | src/MX/SmtpSession.cs:303-349 | the SIZE parameter found by the imperative scan is `SizeParameterOf` |
| SmtpSessions.IsKnownCommand | src/MX/SmtpSession.cs:498 | true exactly when the verb is one of the eleven known commands |
| SmtpSessions.SmtpSession.constructor | src/MX/SmtpSession.cs:112-154 | a new session waits for HELO with no transaction, is alive, has an empty 8320-byte buffer and has sent the greeting |
| SmtpSessions.SmtpSession.ResetMailInfo | src/MX/SmtpSession.cs:184-195 | the session's transaction is cleared as `Smtp.ResetMailInfo` says |
| SmtpSessions.SmtpSession.Abort | src/MX/SmtpSession.cs:156-177 | after any number of calls the session is aborting and not alive; the server has been notified exactly once; the transaction is cleared the first time only |
| SmtpSessions.SmtpSession.Send | src/MX/SmtpSession.cs:503-510 | the reply is appended to the replies sent |
| SmtpSessions.SmtpSession.HandleMail | src/MX/SmtpSession.cs:273-361 | the MAIL branch produces exactly the session and reply of `Mail` |
| SmtpSessions.SmtpSession.HandleRcpt | src/MX/SmtpSession.cs:362-406 | the RCPT branch, consulting the dispatcher's cache, produces exactly the session and reply of `Rcpt` |
| SmtpSessions.SmtpSession.HandleData | src/MX/SmtpSession.cs:407-427 | the DATA branch produces exactly the session and reply of `Data` |
| SmtpSessions.SmtpSession.HandleBodyLine | src/MX/SmtpSession.cs:428-465 | a body line updates the session as `Body` says; the record it completes is appended to the dispatcher's queue; the cache is untouched |
| SmtpSessions.SmtpSession.Execute | src/MX/SmtpSession.cs:233-500 | the if-else chain over the verb yields exactly the session, reply and enqueued record of `Smtp.Command`, and leaves the dispatcher's cache alone |
| SmtpSessions.SmtpSession.ExecuteAnyState | src/MX/SmtpSession.cs:466-500 | the tail of the chain yields exactly the session and reply of `Smtp.AnyStateCommand` and enqueues nothing |
| SmtpSessions.SmtpSession.HandleCompleteLine | src/MX/SmtpSession.cs:215-511 | one line yields exactly the new session, reply, enqueued record and upper-cased buffer of `Step` |
| SmtpSessions.SmtpSession.Append | src/MX/SmtpSession.cs:545-552 | the received bytes follow the buffered ones, in a reallocated buffer when they do not fit |
| SmtpSessions.SmtpSession.HandleLines | src/MX/SmtpSession.cs:555-565 | the loop over complete lines yields exactly the replies, records, session and consumed length of `Batch` |
| SmtpSessions.SmtpSession.HandleNextLine | src/MX/SmtpSession.cs:557-563 | one turn of the line loop handles the line up to the next CRLF and returns the offset after it, so that the rest of the loop yields what `Batch` yields for the whole buffer; -1 leaves everything unchanged |
| SmtpSessions.SmtpSession.Compact | src/MX/SmtpSession.cs:567-569 | the unconsumed bytes move to the front and become the buffered length |
| SmtpSessions.SmtpSession.ReceiveCompleted | src/MX/SmtpSession.cs:528-587 | a socket error changes nothing; zero bytes abort; received data is appended, its complete lines handled as `Batch` says, the rest compacted, and a session that reached Disconnect is aborted |
| SmtpSessions.BatchFromIsBatch | src/MX/SmtpSession.cs:555-565 | the loop's accumulator form agrees with the declarative `Batch` from any starting logs |
| SmtpCommands.StepRset | src/MX/SmtpSession.cs:233-246 | in any command state, bare RSET clears the transaction, returns to WaitingForHelo and replies 250; with arguments it replies 501 and changes nothing |
| SmtpCommands.StepGreeting | src/MX/SmtpSession.cs:247-272 | HELO/EHLO with exactly one argument replies 250 with the matching greeting and moves to WaitingForMailFrom; otherwise 501 and no change |
| SmtpCommands.StepData | src/MX/SmtpSession.cs:407-427 | bare DATA after a recipient replies 354, opens an empty body under a fresh content id and waits for the end of data; otherwise 501 and no change |
| SmtpCommands.StepQuit | src/MX/SmtpSession.cs:466-479 | bare QUIT in any command state clears the transaction, replies 221 and moves to Disconnect; otherwise 501 and no change |
| SmtpCommands.StepInformational | src/MX/SmtpSession.cs:480-494 | VRFY/EXPN reply 502, HELP 211 and NOOP 250, and none of them changes the session |
| SmtpCommands.StepUnhandled | src/MX/SmtpSession.cs:496-500 | a verb the current state does not accept leaves the session unchanged and replies 503 when it is a known command and 500 otherwise |
| SmtpCommands.StepBody | src/MX/SmtpSession.cs:428-465 | while waiting for the end of data no line is a command: "." ends the mail with the record (time, recipient, sender, size, id), 250 and a cleared transaction; any other line is unstuffed and appended while the body stays within the maximum, silently |
| SmtpCommands.UnstuffedRemovesOneDot | src/MX/SmtpSession.cs:452-458 | the stored line plus the removed dot is the received line |
| SmtpMail.AddressScanSpec | src/MX/SmtpSession.cs:277-298 | no address exactly when no ':' is followed by '<' and then '>'; otherwise the brackets are the first '<' after the first ':' and the first '>' after it |
| SmtpMail.MailIgnoresVerbCase | src/MX/SmtpSession.cs:228 | upper-casing the verb in place does not change what MAIL reads from the rest of the line |
| SmtpMail.RcptIgnoresVerbCase | src/MX/SmtpSession.cs:228 | upper-casing the verb in place does not change what RCPT reads from the rest of the line |
| SmtpMail.StepMail | src/MX/SmtpSession.cs:273-361 | MAIL records the trimmed sender whenever the brackets are found and then: no SIZE gives 250 and WaitingForRcptTo; a malformed SIZE gives 501; a size above the maximum gives 552 and WaitingForRset; otherwise 250 with the size stored; no brackets gives 501 and no change |
| SmtpMail.StepRcpt | src/MX/SmtpSession.cs:362-406 | RCPT with an active recipient (trimmed, lower-cased) records it as the only recipient and replies 250; an inactive one gets 550; no brackets gives 501 |
| SmtpSize.SizeAbsentSpec | src/MX/SmtpSession.cs:304-305 | the parameter is absent exactly when "SIZE=" does not occur between the '>' and absolute index `count` |
| SmtpSize.SizeValueSpec | src/MX/SmtpSession.cs:306-349 | a SIZE value is malformed exactly when its digit run is empty or ended by a byte other than white space; otherwise the declared size is what the digit loop makes of the run |
| SmtpSize.AccumulateIsDecimal | src/MX/SmtpSession.cs:326-330 | a value of at most seven digits is read as its decimal value |
| SmtpSize.SizeIgnoredOnLaterLines | src/MX/SmtpSession.cs:304 | on a line that does not start at the front of the buffer and whose offset is at least its length, the SIZE parameter is never seen |
| SmtpSize.LongValueStopsEarly | src/MX/SmtpSession.cs:326-330 | "12097152" is read as 2097152, the maximum, and the leading 1 is never read |
| SmtpSize.HugeValueWraps | src/MX/SmtpSession.cs:326-330 | "3000000000" is read as -1294967296, which is not above the maximum |
| SmtpSize.SaturatedValueSpec | src/MX/SmtpSession.cs:326-335 | the corrected reading exceeds the maximum exactly when the decimal value does, equals it otherwise, and never leaves 32 bits |
| SmtpSize.CorrectedSizeAbsentSpec | src/MX/SmtpSession.cs:304 | with the corrected window the parameter is absent exactly when "SIZE=" does not occur after the '>' within the line, wherever the line lies |
| SmtpSize.CorrectedSizeValueSpec | src/MX/SmtpSession.cs:306-349 | with the corrected reading a value is malformed exactly as before, and a declared size is above the maximum exactly when its decimal value is |
| SmtpSize.CorrectedAgreesOnShortValues | src/MX/SmtpSession.cs:303-349 | for a line at the front of the buffer with at most seven digits, the corrected and as-written readings agree on the outcome and on the stored size |
| SmtpLines.BatchLines | src/MX/SmtpSession.cs:555-565 | the lines handled are the CRLF-terminated lines of the data, and the bytes after the last one are left as received |
| SmtpLines.LinesTerminated | src/MX/SmtpSession.cs:558-561 | every line handled ends at the first CRLF after its start |
| SmtpLines.LinesContiguous | src/MX/SmtpSession.cs:560-564 | the lines are consecutive, start at the front and end at the consumed length |
| SmtpLines.LinesRestHasNoCrLf | src/MX/SmtpSession.cs:558 | no CRLF lies wholly in the unconsumed rest |
| SmtpLines.LinesCover | src/MX/SmtpSession.cs:555-565 | the lines joined together are exactly the consumed bytes |
| SmtpLines.StepBufferLocal | src/MX/SmtpSession.cs:228 | handling a line changes no buffered byte outside that line |
| SmtpLines.LeftoverIsUnconsumedSuffix | src/MX/SmtpSession.cs:567-569 | after compaction the buffer begins with the received bytes that follow the last complete line |
| Server.SmtpServer.constructor | src/MX/SmtpServer.cs:25-34 | a new server has no active sessions |
| Server.SmtpServer.RemoveStale | src/MX/SmtpServer.cs:54-69 | the backward sweep keeps exactly the alive, unexpired sessions in order, and collects the expired ones in reverse order |
| Server.SmtpServer.Sweep | src/MX/SmtpServer.cs:53-74 | one sweep leaves the kept sessions and aborts the expired ones, each once, in the order the sweep met them |
| Server.SmtpServer.AbortCollected | src/MX/SmtpServer.cs:71-74 | aborting each collected session leaves the active list unchanged and records each abort once, in order |
| Server.SmtpServer.NotifyTerminatedSession | src/MX/SmtpServer.cs:78-84 | the first entry of the terminated session is removed, if any |
| Server.SmtpServer.AcceptCompleted | src/MX/SmtpServer.cs:86-95 | a successful accept appends a new alive session; a failed one changes nothing |
| Server.SweepPartitions | src/MX/SmtpServer.cs:56-68 | every session is kept, aborted or dropped, and none is lost or duplicated |
| Server.KeptOfSpec | src/MX/SmtpServer.cs:59-67 | a session is kept exactly when it is alive and within its lifetime |
| Server.ExpiredOfSpec | src/MX/SmtpServer.cs:63-66 | a session is aborted exactly when it is alive and over its lifetime |
| Server.KeptOfIdempotent | src/MX/SmtpServer.cs:56-68 | a second sweep of the kept sessions keeps them all and aborts none |
| Server.AbortedIsGone | src/MX/SmtpServer.cs:63-66 | an aborted session is no longer active |
| Server.RemoveFirstSpec | src/MX/SmtpServer.cs:82 | removal takes out exactly the first entry with that id |
| Mailboxes.RandomName | src/Common/MailboxDTO.cs:33-46 | the loop builds the name the draws determine |
| Mailboxes.RandomNameShape | src/Common/MailboxDTO.cs:33-46 | a name has 15 characters: a vowel at even positions, a consonant at odd ones, and the only '.' after the sixth letter |
| Mailboxes.MailboxAddress | src/Common/MailboxDTO.cs:28 | the address is the name, '@' and one of the configured domains |
| Mailboxes.CreateRandomOne | src/Common/MailboxDTO.cs:21-31 | a new mailbox has the given token, a random address and an expiry the time-to-live after now |
| Mailboxes.ExpiresAfterTimeToLive | src/Common/MailboxDTO.cs:16-19 | a new mailbox is not expired when created, and is expired exactly once the time-to-live has passed |
| Mailboxes.ExpiryIsPermanent | src/Common/MailboxDTO.cs:16-19 | `IsExpired` is monotone in time: a mailbox expired at one time is expired at every later time |
| Configurations.FirstError | src/Common/Configuration.cs:47-51 | no error exactly when the time-to-live is at least 1, domains are set and non-empty, and the three strings are not blank; the time-to-live is checked first |
| Configurations.DirectoryMessagesCoincide | src/Common/Configuration.cs:49-50 | both directory checks report the same message |
| Configurations.NormalizedDomainShape | src/Common/Configuration.cs:55 | a normalised domain has no outer white space and no upper-case ASCII letter |
| Configurations.NormalizeDomainIdempotent | src/Common/Configuration.cs:55 | normalising twice equals normalising once |
| Configurations.Configuration.Validate | src/Common/Configuration.cs:45-56 | returns the first failed check and then leaves the domains alone; on success it replaces every domain by its normalised form |
| Configurations.RevalidationIsStable | src/Common/Configuration.cs:53-56 | validating already normalised domains changes none |
| Extraction.IndexOfIgnoringCase | src/MailExtractor/Extractor.cs:81-85 | returns the first case-insensitive match at or after the start, or -1 when there is none |
| Extraction.Insert | src/MailExtractor/Extractor.cs:88 | the text is spliced in at the index, with the string before and after unchanged |
| Extraction.InjectBeforeHead | src/MailExtractor/Extractor.cs:81-89 | the script goes before the first `</head>`, in any case |
| Extraction.InjectBeforeBody | src/MailExtractor/Extractor.cs:81-89 | without `</head>`, the script goes before the first `</body>` |
| Extraction.InjectInFront | src/MailExtractor/Extractor.cs:91-96 | with neither tag, the script is written in front of the HTML |
| Extraction.InjectSplices | src/MailExtractor/Extractor.cs:79-96 | the output is always the HTML with the script spliced in at one place |
| Extraction.InjectScript | src/MailExtractor/Extractor.cs:79-96 | the output is the HTML lengthened by exactly the script, whichever of the three placements applies |
| Extraction.CleanupFilename | src/MailExtractor/Extractor.cs:194-201 | every invalid character becomes '_' and every other character is kept |
| Extraction.CleanNameIsValid | src/MailExtractor/Extractor.cs:194-201 | a cleaned name contains no invalid character |
| Extraction.ShouldGzipSpec | src/MailExtractor/Extractor.cs:164-172 | a file is compressed exactly when its lower-cased name ends with one of the seven extensions, whatever its case, compared ordinally |

## Findings

| source | as written | input that shows it | evidently intended | confidence | as-written member | corrected member |
|---|---|---|---|---|---|---|
| src/MX/SmtpSession.cs:326-330 | the SIZE digits are summed from the last one back, and the loop stops once the partial sum reaches the maximum | `MAIL FROM:<a@b> SIZE=12097152` is read as 2097152 and accepted with 250 | reject any declared size above 2097152 with 552 | high, not executed | SmtpSize.LongValueStopsEarly | SmtpSize.SaturatedValueSpec |
| src/MX/SmtpSession.cs:326-330 | the products and the scale are unchecked 32-bit `int` | `MAIL FROM:<a@b> SIZE=3000000000` is read as -1294967296 and accepted with 250 | reject it with 552 | high, not executed | SmtpSize.HugeValueWraps | SmtpSize.SaturatedValueSpec |
| src/MX/SmtpSession.cs:304 | the SIZE search ends at `line.Count - gt - 1` past `gt + 1`, that is at absolute index `line.Count`, although `gt` is an absolute index | a MAIL line that follows at least as many bytes of earlier lines in the same read as it is long, e.g. five `NOOP\r\n` lines then `MAIL FROM:<a@b> SIZE=3000000\r\n`: the size is not seen and MAIL is accepted with 250 | search up to the end of the line, `line.Offset + line.Count` | high, not executed | SmtpSize.SizeIgnoredOnLaterLines | SmtpSize.CorrectedSizeAbsentSpec |

The session model (`Smtp.Step`, `SmtpSessions.SmtpSession`) keeps the code's behaviour, so that it describes the running system. The corrected reading is `SmtpSize.SizeParameterCorrected` with `SmtpSize.SaturatedValue`, proved beside it. `SmtpSize.CorrectedAgreesOnShortValues` shows that the two agree on the common case: a line at the front of the buffer with at most seven digits.

## Left out

- Socket I/O: accepting, receiving and sending become parameters (`socketOk`, `received`, `success`) and the log `sent` of replies. `Greet`, `Receive`, `CreateArgs` and `SendCompleted` (`src/MX/SmtpSession.cs:197-213, 513-526`) only start I/O.
- Reply bytes: a reply is modelled by its code and text. The server name from `GetServerName` is a parameter.
- Clocks: `DateTime.UtcNow` becomes `now` parameters in ticks. A session's lifetime is a number on its server entry.
- Body storage: the body file is an in-memory byte sequence. File creation, flushing, disposal and I/O failures are not modelled.
- Content identifiers: `Guid.NewGuid` becomes a counter of identifiers issued; `Guid.Empty` is 0.
- Randomness: `Random.Next` becomes a sequence of draws.
- Concurrency: locks, threads, the blocking queue's timeout, the sleeps and the worker loops are not modelled. `DispatchNext` is one iteration of the dispatcher's loop, and `Start` records the threads created. `ReceiveCompleted` requires that an aborted session's socket delivers no more bytes. It does not model an `Abort` from the server's sweep (`src/MX/SmtpServer.cs:73`) racing a completed receive. In that interleaving the source would handle a line on the reset session, and in `WaitingForEndOfData` it would dereference the null `_mailContent` (`src/MX/SmtpSession.cs:433`).
- Database: the SQL query and insert are not modelled. The query result is an `Option` (None for a failure) and the insert's outcome is a flag.
- Server notification: the call from `Abort` to `SmtpServer.NotifyTerminatedSession` is a ghost count of notifications. The server side is modelled separately over (id, alive, lifetime) entries. `SmtpServer.Run`'s bind, listen and five-second wait are not modelled; `Sweep` is one pass of its loop.
- Configuration: loading from the environment variable and JSON, the lazy singleton and the writability test of the two directories (`src/Common/Configuration.cs:24-43, 58-76`) are not modelled. A directory that cannot be written is not reported.
- Extraction: `Extract`'s mailbox query, directory creation, MIME parsing and HTML preview, attachment writing, `mails.json` update and gzip compression, and `Touch`, are not modelled. Only the string decisions are: script injection, file-name cleanup and the compression filter. `Path.GetInvalidFileNameChars` is a parameter.
- Overloads: the `ArraySegment` overloads of the byte helpers (`src/Common/Bytes.cs:26-29, 42-45, 57-60, 75-78, 94-97`) only forward their segment's offset and count; the model has the offset and length forms.
- Dispatch.Compare: ordinal order stands in for the culture-sensitive default comparer of `List<string>.BinarySearch`. The database returns addresses in its own collation. The model assumes the cache is sorted in the order the search uses, which is stated as the requires of `UpdateActiveMailBoxCache`. The culture comparer also treats as equal strings that differ only by characters it ignores, such as a control byte 0x01 that survives `Trim` and the ASCII decoding (`RCPT TO:<abc\x01@d>` against a cached `abc@d`). For such recipients the source finds a match, while `IsMailboxActive`'s `isActive <==> recipient in cache` does not describe it.
- Extraction.ShouldGzip: the ordinal suffix test stands in for `inputFile.ToLowerInvariant().EndsWith(ext)` (`src/MailExtractor/Extractor.cs:170`), which is culture-sensitive. The two differ on names ending in characters the collation ignores: `report.pdf` followed by U+200B is compressed by the source but not by the model.
- Extraction.ShouldGzipSpec: weaker than the source for the names just described; it is stated for the ordinal suffix test.
- Configurations.Configuration.Validate: C# null strings are not modelled. A `MailDomains` list holding a null entry passes the checks at `src/Common/Configuration.cs:47-51` and then throws `NullReferenceException` at the `Trim` on line 55. In the model every entry is a string, and `Validate` succeeds on such a list.
- Extraction.CleanupFilename: a missing attachment file name (null, `src/MailExtractor/Extractor.cs:103-104`) is not modelled. The source throws `NullReferenceException` in `Replace` (`:198`); the model's name is always a string.
- Text.ToLower: models `ToLowerInvariant` on ASCII letters only; other upper-case letters are kept as they are.
- Extraction.IndexOfIgnoringCase: OrdinalIgnoreCase is modelled by ASCII case folding only.
- Dispatch.MailDispatcher.Start: creating a thread only sets a flag; the threads' work is `DispatchNext` and `UpdateActiveMailBoxCache`.
- Buffer size: the receive buffer's size of 8192 + 128 bytes is a constant, not read from the socket.
