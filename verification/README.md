# Ern-OS, modelled and proved in Dafny

This project models the parts of Ern-OS that decide what happens to people's files, accounts,
services and texts, and proves what those parts promise. `dafny verify dfyconfig.toml` checks
all of it.

- **The disk** (`Paths`, `HostFiles`, `TheDisk`). The host is a map from path to file or folder;
  every host call is atomic, may be denied, and may be cut off by the power. A note is written
  under a staging name and renamed. The *view* of a path is its final file, or else its orphan
  stage; every operation is proved by what it does to the view, and whole histories of writes,
  cuts and restarts show an old or a new text, never a torn one. When no host call is denied,
  every operation that the view allows succeeds.
- **The folder tree** (`Sessions`, `VirtualFiles`, `Tally`). Each operation refines an operation
  on the view; a member's run changes nothing outside their home; the tally counts every note
  and folder once.
- **Accounts** (`AccountRecords`, `UserAccounts`, `AccountCases`). The record text and its fields,
  salted stretching over any hash, legacy migration, and whole runs of creations, logins and removals.
- **Services** (`Messages`, `Services`, `ServiceTable`). The heartbeat protocol as interleaved
  steps over two queues per instance, its invariant and laws for every interleaving, and the
  actual loops and calls, proved to be runs of that machine.
- **Texts** (`Strings`, `Utf8`, `Json`, `JsonLaws`, `JsonForms`, `JsonLimits`, `JsonEscapes`, `Csv`,
  `WebSocket`, `UnderstandCommand`, `SentenceLaws`, `ActionLaws`, `Notes`). Printers and parsers with
  exact round trips and reading laws: JSON (RFC 8259, RFC 3629), CSV (RFC 4180), WebSocket frames
  (RFC 6455), one law for each plain-English command, and the note editor.
- **Structures and numbers** (`Machine`, `Collections`, `Regex`, `BumpAllocator`, `MathLib`). The
  heap, the glob matcher, the boot allocator, square root, greatest common divisor and primes.

Strings are sequences of characters; where the source works on C strings the cut at the first zero
byte is written out (`Json.CutAtNul`, `WebSocket.CutAtNul`). Loops of the source are methods proved
against functions; laws are lemmas about those functions. The clock, the salt, SHA-256, refusals of
the host, power cuts and the scheduler are arbitrary choices or parameters.

## Where the code does less than one might expect

Each of these is proved as an exact condition, most with a concrete case.

- A recovery that the host refuses makes an existing note look missing. A caller can rule this out:
  it happens only where a stage is beside the note. `TheDisk.Disk.Exists`, `VirtualFiles.MakeFolder`,
  `VirtualFiles.Remove` and `VirtualFiles.Move` do what the view dictates exactly when no recovery
  was refused (a move also when there was nothing to move). Otherwise a made folder hides the note
  (`VirtualFiles.RefusedRecoveryHidesNote`), and a move can replace it
  (`VirtualFiles.RefusedRecoveryReplacesNote`).
- The same refusal lets account creation write over an account: without a stage beside the record
  never (`UserAccounts.Accounts.Create`), with one beside a record file always possibly
  (`AccountCases.RewriteGoesThrough`, `AccountCases.AccountWrittenOver`).
- Account creation can answer 7 and leave a working account: exactly when taking the record back was
  denied (`UserAccounts.Accounts.Create`, `AccountCases.AccountLeftAfterSeven`).
- A name that ends in `.ern-new` passes the name check, and the next use of the other note takes it
  away (`VirtualFiles.ReservedNameIsTakenAway`). Paths are assumed not to use that suffix.
- A reply that comes after its request timed out is given to a later request
  (`Services.ReplyLagsByTimeouts`, `Services.LateReplyGoesToNextRequest`), and a stop can miss its
  goodbye (`Services.OnlyStopHearsGoodbye`).
- A frame whose first byte is zero, as in the middle of a fragmented message, is read as if its
  second byte were zero (`WebSocket.ZeroFirstByteLosesStep`); a pong stops at the first zero byte
  of the ping (`WebSocket.PongCarriesTheSame`); the key and the reason of a close frame stay unread
  (`WebSocket.CloseIsEmpty`).
- Escapes with an unpaired surrogate parse to bytes that are not UTF-8
  (`JsonEscapes.SurrogatesMustPair`), integers beyond the clamp come back smaller
  (`JsonLaws.IntReadsBackExactly`), and a tree with a null one level too deep is not read to the
  end of its text (`JsonLimits.ReadsBackExactly`).
- Filler between a verb of going and "to" changes the command (`SentenceLaws.FillerDoesNotMatter`).
- The note editor leaves unsaved changes behind without a warning when a shutdown is requested
  (`Notes.LeavesKnowingly`).
- The bound test of the boot allocator subtracts unsigned numbers: a request that rounds to more
  than the whole heap is handed out (`BumpAllocator.TestIsRightExactly`,
  `BumpAllocator.BootHeap.Allocate`).
- The guesses of the square root are squared in 64 bits; from 6074001000 on some wrap, and the loop
  ends above the root (`MathLib.SqrtInt`, `MathLib.SqrtIsRightUpTo`). The least 64-bit integer has no
  absolute value, so its greatest common divisors are mostly wrong (`MathLib.Gcd`), and the largest
  one has no successor, so it passes for a prime (`MathLib.IsPrime`).
- A stale staging file is counted as a note (`Tally.TallyOfTheView`), and so is a folder whose path
  the disk would not take (`Tally.ReachedIsAll`).

## Model

| member | source | states |
|---|---|---|
| Strings.StringTrim | stdlib/string.ep:196-219 | the two trimming loops compute the trimmed text |
| Strings.TrimIsMiddle | stdlib/string.ep:217-219 | trimming removes only white space at the ends, and leaves none there |
| Strings.StringToLower | stdlib/string.ep:186-194 | the loop lowers every capital letter and nothing else |
| Strings.LowerMeans | stdlib/string.ep:186-194 | no capital is left, each becomes the letter at its place, and nothing else changes |
| Strings.StringIndexOf | stdlib/string.ep:101-113 | the first place a text occurs, or -1 when it occurs nowhere |
| Strings.StringLastIndexOf | stdlib/string.ep:115-126 | the last place a text occurs, or -1 when it occurs nowhere |
| Strings.SplitString | stdlib/string.ep:258-280 | the scanning loop computes the split, for every non-empty delimiter |
| Strings.JoinStrings | stdlib/string.ep:282-293 | the loop computes the join |
| Strings.JoinOfSplit | stdlib/string.ep:258-293 | joining what split gave is the text again, for every text and delimiter |
| Strings.SplitOfJoin | stdlib/string.ep:258-293 | splitting what join gave is the parts again, when no part holds the delimiter |
| Strings.SplitOfConcat | stdlib/string.ep:258-280 | a delimiter between any two texts splits them apart |
| Strings.SplitStretch | stdlib/string.ep:258-280 | text without the delimiter, added at the end, only lengthens the last part |
| Strings.PartsLackDelimiter | stdlib/string.ep:258-280 | no part of a split holds the delimiter |
| Strings.ParseInt | stdlib/string.ep:323-340 | the loop computes the signed value of the digits in 64 bits, wrapping, and skips what is no digit |
| Strings.IntRoundTrip | stdlib/string.ep:323-340 | the decimal text of an integer reads back as what is left of it in 64 bits, so as itself exactly when it is in range |
| Paths.NameIsSafe | system/hal/the_disk.ep:16-46 | true exactly of the names allowed on the disk |
| Paths.PathIsSafe | system/hal/the_disk.ep:49-57 | true exactly of the non-empty paths of such names |
| Paths.SafePathStaysInside | system/hal/the_disk.ep:12-62 | a safe path, followed from the disk folder, ends strictly inside it at the names it spells |
| Paths.ParentOf | system/kernel/virtual_files.ep:30-35 | the path up to its last slash, "" for a top name |
| Paths.ParentIsSafe | system/kernel/virtual_files.ep:30-35 | the folder above a safe path is safe |
| HostFiles.DiscardStage | system/hal/the_disk.ep:71-81 | dropping a stale stage beside a final file changes nothing in view |
| HostFiles.CommitStage | system/hal/the_disk.ep:71-81 | renaming a stage to its final name puts its bytes there, and shows nothing new when it was an orphan |
| HostFiles.StageWritten | system/hal/the_disk.ep:93-104 | writing a stage shows nothing beside a final file, and the staged bytes otherwise |
| HostFiles.ViewTreeOk | system/hal/the_disk.ep:60-81 | everything in view lies in a folder |
| HostFiles.ViewOfMoved | system/hal/the_disk.ep:160-167 | renaming moves a thing and all below it in the view |
| HostFiles.RenameStaysInside | system/hal/the_disk.ep:160-167 | a rename between two places of a region changes nothing outside it |
| TheDisk.Disk.Recover | system/hal/the_disk.ep:71-81 | never changes the view; after a success no stage is left and the files are the recovered ones; it can be refused only where a stage is |
| TheDisk.Disk.Read | system/hal/the_disk.ep:84-90 | the text in view exactly when recovery was not refused or there is no text; without a stage it cannot be refused; changes nothing in view |
| TheDisk.Disk.Write | system/hal/the_disk.ep:93-104 | the view is the old one or the one with the new text, whatever was refused or cut, torn only for a new note when writes tear; success means the new text, and comes whenever the view allows and nothing is denied; after a failure a new note is in view exactly when its stage was left |
| TheDisk.Disk.Append | system/hal/the_disk.ep:107-112 | nothing that was there is lost, even by a cut; success adds exactly the text |
| TheDisk.Disk.Exists | system/hal/the_disk.ep:115-120 | says what is in view exactly when recovery was not refused, which without a stage it cannot be |
| TheDisk.Disk.IsFolderAt | system/hal/the_disk.ep:123-126 | true exactly of safe paths that are folders in view |
| TheDisk.Disk.List | system/hal/the_disk.ep:129-137 | the names directly inside, each once; none for an unsafe path |
| TheDisk.Disk.MakeFolder | system/hal/the_disk.ep:140-143 | success adds a folder to the view, failure nothing |
| TheDisk.Disk.RemoveFile | system/hal/the_disk.ep:146-151 | success takes the path out of the view, failure nothing |
| TheDisk.Disk.RemoveFolder | system/hal/the_disk.ep:154-157 | success takes an empty folder out of the view, failure nothing |
| TheDisk.Disk.Rename | system/hal/the_disk.ep:160-167 | success on a free place moves the whole subtree in the view; it stays inside any region of both places |
| TheDisk.TornExactly | system/hal/the_disk.ep:93-104 | a cut inside the staging write leaves the old or the new text in view exactly when the note existed or the stage is whole |
| TheDisk.CrashHistory | system/hal/the_disk.ep:68-104 | over any history of writes, reads, cuts and restarts a note shows a text at least as new as the last acknowledged one, and no other note changes |
| Sessions.Session.constructor | system/kernel/sessions.ep:15-25 | a session begins in the person's home |
| Sessions.Session.MayWriteAt | system/kernel/sessions.ep:63-73 | admins everywhere, others exactly in their home and below it |
| Sessions.HomeFacts | system/kernel/sessions.ep:15-25 | the home of every permitted name is a safe path without the reserved suffix |
| VirtualFiles.ResolveUnreserved | system/kernel/virtual_files.ep:17-27 | from a place without the reserved suffix, a typed name without it never leads to one with it |
| VirtualFiles.ResolveLeads | system/kernel/virtual_files.ep:17-27 | whatever blanks stand around it, a typed name leads below the place part by part, one with a leading slash to the rest of it from any place, and nothing typed to the place |
| VirtualFiles.NameLeadsHere | system/kernel/virtual_files.ep:17-35 | a single name leads to what has that name right in the place |
| VirtualFiles.AnswersTell | system/kernel/virtual_files.ep:80-131 | which state of the view makes each of the answers 4, 5 and 6, where the person may write |
| VirtualFiles.Exists | system/kernel/virtual_files.ep:42-44 | true of what is in view and of nothing else, exactly when recovery was not refused; without a stage it cannot be |
| VirtualFiles.Read | system/kernel/virtual_files.ep:71-77 | the note's text in view, "" when there is none, exactly when recovery was not refused or there is no text; changes nothing in view |
| VirtualFiles.Write | system/kernel/virtual_files.ep:80-94 | refines the tree operation on the view, answer by answer, even when recovery is refused; fails only when a host call is denied; a name typed in a place puts the text under that name there; a member is refused outside their home, and an admin succeeds wherever a file can be |
| VirtualFiles.MakeFolder | system/kernel/virtual_files.ep:97-111 | refines the tree operation on the view exactly when recovery was not refused, which without a stage it cannot be; the host fails only what is denied; a name typed in a place becomes a folder there |
| VirtualFiles.Remove | system/kernel/virtual_files.ep:114-131 | refines the tree operation on the view exactly when recovery was not refused, which without a stage it cannot be; the host fails only what is denied; a name typed in a place goes from there |
| VirtualFiles.Move | system/kernel/virtual_files.ep:134-155 | refines the tree operation on the view exactly when recovery was not refused, or there was nothing to move; without stages at the two places it cannot be refused; the host fails only what is denied, or a move into the moved thing itself |
| VirtualFiles.Go | system/kernel/virtual_files.ep:158-163 | moves the session exactly into folders; a name typed in a place leads to that folder in it |
| VirtualFiles.GoUp | system/kernel/virtual_files.ep:166-172 | moves the session to the folder above, except at the top |
| VirtualFiles.ListEmpty | system/kernel/virtual_files.ep:120-127 | a folder lists no names exactly when nothing lies below it in view |
| VirtualFiles.MakeFolderExactly | system/kernel/virtual_files.ep:97-111 | where the host lets a folder be made, the tree dictates it if and only if nothing is staged there |
| VirtualFiles.RefusedRecoveryHidesNote | system/kernel/virtual_files.ep:97-111 | a folder made where a note is staged takes the place of that note in view |
| VirtualFiles.RefusedRecoveryReplacesNote | system/kernel/virtual_files.ep:134-155 | a move over a note that a refused recovery hid |
| VirtualFiles.ReservedNameIsTakenAway | system/hal/the_disk.ep:16-104 | a text written under a staging name is gone from there after one recovery of the other note: it has become that note, or is nowhere when that note existed |
| VirtualFiles.MemberRun | system/kernel/sessions.ep:63-73 | over any run of calls by a member, cuts included, nothing outside the home changes and the place stays a safe path |
| Tally.Walk | system/kernel/virtual_files.ep:188-199 | the walk ends and counts every file and every folder it can see below the path once |
| Tally.TallyAll | system/kernel/virtual_files.ep:201-208 | the sums over the three top folders |
| Tally.ReachedIsAll | system/kernel/virtual_files.ep:186-208 | everything is seen as what it is exactly when every folder on the host disk has a path the disk takes |
| Tally.TallyOfTheView | system/kernel/virtual_files.ep:186-208 | the folders are those in view; the notes are those in view plus the stale stages, so right exactly when there are none |
| Messages.Board.Find | system/kernel/messages.ep:16-26 | the spot of a name, or -1 when it is not there |
| Messages.Board.Register | system/kernel/messages.ep:29-39 | the name leads to the new channel, all others as before |
| Messages.Board.ChannelOf | system/kernel/messages.ep:42-47 | the channel a name leads to, or 0 |
| Messages.MeaningAt | system/kernel/messages.ep:12-47 | what the board says of a name is its entry |
| Services.InvHolds | system/kernel/services.ep:16-111 | the protocol invariant holds after every interleaving of steps |
| Services.Balance | system/kernel/services.ep:16-111 | orders and replies under way are the timed-out requests plus the one in flight |
| Services.StopIsLastOrder | system/kernel/services.ep:99-111 | a stop is the last order in the channel, and a thread that took it finds none behind it |
| Services.StopIsFinal | system/kernel/services.ep:99-111 | once an instance was sent a stop, no step ever sends it another order |
| Services.ReplyLagsByTimeouts | system/kernel/services.ep:90-95 | a reply answers the request as many places earlier as requests had timed out; its own exactly when none had |
| Services.LateReplyGoesToNextRequest | system/kernel/services.ep:90-95 | a run in which a request times out and the next one is given the reply to it |
| Services.OnlyStopHearsGoodbye | system/kernel/services.ep:90-111 | a request receives the goodbye if and only if it is the stop and nothing timed out before it |
| Services.CountsNeverDecrease | system/kernel/services.ep:90-95 | later requests never receive smaller counts |
| Services.BeatsCount | system/kernel/services.ep:16-34 | after every run the count of an instance is the number of seconds its select ran out |
| Services.CountsAreBeats | system/kernel/services.ep:24-32 | every count ever sent is that number as of the moment it was sent |
| Services.GivenWasCounted | system/kernel/services.ep:90-95 | so is every count a request is given |
| Services.OneUnstopped | system/kernel/services.ep:62-86 | only the last instance, while running, has not been sent a stop |
| Services.SelectedIsThere | system/kernel/services.ep:24-29 | a receive after a select that reported never blocks |
| ServiceTable.HeartbeatService | system/kernel/services.ep:16-34 | the loop, with any steps of the others in between, is a run of the machine that takes one turn per select, counts one beat for every turn without an order, sends the counts, and ends with the goodbye |
| ServiceTable.Shared.Send | system/kernel/services.ep:31-33 | a send waits for room and sends the count, or 99, that the machine sends |
| ServiceTable.Kernel.Find | system/kernel/services.ep:41-50 | the spot of a record, or -1 |
| ServiceTable.Kernel.IsRunning | system/kernel/services.ep:53-58 | 1 exactly when the machine's record says running, -1 exactly for names not in the table |
| ServiceTable.Kernel.Start | system/kernel/services.ep:62-86 | answers 1, 4 and 6 as the record dictates; a start takes the machine's start step and posts the new channels |
| ServiceTable.Kernel.BoardAsk | system/kernel/messages.ep:64-75 | -1 at once when a name is not on the board; otherwise one request, logged once, answered by what the machine logged for it |
| ServiceTable.Kernel.Ask | system/kernel/services.ep:90-95 | -1 when not running; otherwise what the machine logged, which is never the goodbye, and if it is a count, the seconds counted when it was sent |
| ServiceTable.Kernel.Stop | system/kernel/services.ep:99-111 | answers 1, 4 and 6 as the record dictates; a stop leaves the record stopped and the stop sent |
| Utf8.EncodeDecodes | stdlib/json.ep:172-190 | the bytes written for a code point decode to it by the grammar of RFC 3629 exactly when it is a scalar value |
| Utf8.EncodeAllGood | stdlib/json.ep:172-190 | what is written for a sequence of code points is well-formed, and then decodes back to them, exactly when all are scalar values |
| Json.EscapeString | stdlib/json.ep:64-82 | the loop computes the escaped text |
| Json.Stringify | stdlib/json.ep:85-131 | the printer's loops compute the text of every node tree |
| Json.Parser.SkipWhitespace | stdlib/json.ep:133-146 | the cursor goes past blanks, and no further |
| Json.Parser.StringNode | stdlib/json.ep:192-252 | the string loop computes the parse, escapes and surrogate pairs included |
| Json.Parser.NumberNode | stdlib/json.ep:254-311 | the number loops compute the clamped value, skipping fraction and exponent |
| Json.Parser.ValueNode | stdlib/json.ep:313-360 | terminates on every text, computes the parse, and restores the depth |
| Json.Parser.ObjectNode | stdlib/json.ep:362-418 | the object loop computes the fields and restores the depth |
| Json.Parser.ListNode | stdlib/json.ep:420-463 | the list loop computes the items and restores the depth |
| Json.ParseText | stdlib/json.ep:465-471 | parsing a whole text, as JsonForms.LawfulTextReads describes it |
| Json.ParseValue | stdlib/json.ep:313-360 | total on every text and depth; the cursor never moves back or past the end |
| JsonLaws.RoundTrip | stdlib/json.ep:64-131 | every tree within the bounds, printed and parsed, is itself, and the whole text is read |
| JsonLaws.TextReadsBack | stdlib/json.ep:85-131 | the same wherever the text stands as a value inside another |
| JsonForms.LawfulTextReads | stdlib/json.ep:133-471 | every text of RFC 8259 within the bounds, any blanks, escapes, fractions and exponents in it, is read as the node it means, and to its end |
| JsonForms.FormReads | stdlib/json.ep:133-463 | the same of every value inside a text; true and false are 1 and 0, a number is its whole part |
| JsonForms.TextControls | stdlib/json.ep:64-131 | a printed text holds no control character exactly when no string in it holds one besides line feed, carriage return and tab |
| JsonLimits.ReadsBackExactly | stdlib/json.ep:64-463 | a tree, printed and parsed, is itself with the whole text read, exactly when it is within the bounds |
| JsonLimits.ValueHolds | stdlib/json.ep:313-463 | whatever the text, the parse stays within the nesting, entry and integer bounds |
| JsonLimits.DeepNullStops | stdlib/json.ep:313-463 | a null one level too deep is left unread, and reading stops there in every list and object around it |
| JsonLaws.IntReadsBackExactly | stdlib/json.ep:254-311 | an integer reads back exactly up to the magnitude the clamp lets grow |
| JsonLaws.ClampedBound | stdlib/json.ep:254-311 | accumulating any digits stays in 64 bits |
| JsonEscapes.EscapesDecode | stdlib/json.ep:148-243 | scalar values written as escapes, pairs above FFFF, parse to exactly their UTF-8, which decodes back to them |
| JsonEscapes.UnitIsSpelled | stdlib/json.ep:148-168 | the unit of an escape is the one its four hex digits spell, in either case, and no other |
| JsonEscapes.SurrogatesMustPair | stdlib/json.ep:192-252 | any escapes of nonzero units and plain characters parse to the UTF-8 of their code points, which is well-formed exactly when every surrogate is one of a pair |
| WebSocket.XorByDivision | stdlib/websocket.ep:185-197 | the division loop computes the bitwise exclusive or |
| WebSocket.XorUndone | stdlib/websocket.ep:185-197 | exclusive or with the same byte twice is nothing |
| WebSocket.MaskUndone | stdlib/websocket.ep:175-200 | unmasking undoes masking, for every key |
| WebSocket.BuildHeaderList | stdlib/websocket.ep:210-237 | the header bytes in the shortest of the three length forms |
| WebSocket.Connection.SendFrameRaw | stdlib/websocket.ep:239-266 | exactly the bytes of the frame are sent |
| WebSocket.Connection.SendPong | stdlib/websocket.ep:286-288 | a pong with the data up to its first zero byte |
| WebSocket.Connection.ReadFrame | stdlib/websocket.ep:55-202 | one call takes, answers and replies what the reading of the stream says, on every stream |
| WebSocket.Connection.Unmask | stdlib/websocket.ep:178-200 | every byte under its byte of the key |
| WebSocket.DataFrameReadsBack | stdlib/websocket.ep:55-266 | any data frame, any length form, mask and rest: payload returned and rest left, exactly up to the limit |
| WebSocket.ServerFrameReadsBack | stdlib/websocket.ep:210-266 | the same of the frames the server sends |
| WebSocket.ZeroFirstByteLosesStep | stdlib/websocket.ep:59-67 | a first byte of zero hides the second: only a two-byte frame is then read whole |
| WebSocket.PingIsAnswered | stdlib/websocket.ep:74-116 | a lawful ping is taken whole and answered by a pong |
| WebSocket.PongCarriesTheSame | stdlib/websocket.ep:112-114 | the pong carries the ping's bytes exactly when none is zero |
| WebSocket.PongIsSkipped | stdlib/websocket.ep:118-132 | a lawful pong is taken whole and not answered |
| WebSocket.CloseIsEmpty | stdlib/websocket.ep:69-71 | a close frame is answered "" after two bytes; what it carries stays unread |
| WebSocket.ReadConversation | stdlib/websocket.ep:55-202 | any run of lawful frames is read in step: payloads in order, a pong for every ping, the rest left |
| Csv.Parse | stdlib/csv.ep:11-70 | the scanning loop computes the rows of every text |
| Csv.EscapeField | stdlib/csv.ep:93-119 | quotes exactly the fields that need it, doubling quotes inside |
| Csv.Stringify | stdlib/csv.ep:74-91 | the printing loops compute the text of every table |
| Csv.FileReads | stdlib/csv.ep:11-70 | every file of RFC 4180, any quoting and line ends, is read as its records |
| Csv.RoundTrip | stdlib/csv.ep:11-119 | printed rows come back followed by one row of one empty field; carriage returns are lost only from unquoted fields |
| Csv.RowsComeBack | stdlib/csv.ep:11-119 | the rows come back unchanged exactly when none is empty and every field with a carriage return needs quotes |
| UnderstandCommand.FindWord | system/shell/understand_command.ep:109-117 | the first spot of a word, or -1 |
| UnderstandCommand.JoinBetween | system/shell/understand_command.ep:121-133 | the words between two spots without filler, joined |
| UnderstandCommand.SplitIntoWords | system/shell/understand_command.ep:140-147 | the trimmed non-empty pieces between spaces |
| UnderstandCommand.PickTheTarget | system/shell/understand_command.ep:193-212 | what was announced by "called" or "named", or else what is left behind the verb |
| UnderstandCommand.UnderstandWords | system/shell/understand_command.ep:234-352 | the command of a word list, branch by branch |
| UnderstandCommand.UnderstandCommand | system/shell/understand_command.ep:215-352 | the command of a typed line |
| SentenceLaws.FillerDoesNotMatter | system/shell/understand_command.ep:101-352 | the command is that of the list without filler, except exactly where filler parts a verb of going from "to" or "into" |
| SentenceLaws.WriteSentence | system/shell/understand_command.ep:215-328 | "write a note called N saying T" asks to write exactly T under exactly N |
| SentenceLaws.SayingSpot | system/shell/understand_command.ep:222-230 | the text begins at the first " saying ", wherever else the word stands later |
| ActionLaws.TypedAnyhow | system/shell/understand_command.ep:215-253 | more spaces and capitals do not change what a line asks for |
| ActionLaws.SystemSentence | system/shell/understand_command.ep:257-264 | help, where, who and time, whatever else is said |
| ActionLaws.LogoutSentence | system/shell/understand_command.ep:271-272 | the verbs of logging out ask for that, whatever else is said |
| ActionLaws.ShutdownSentence | system/shell/understand_command.ep:273-274 | the verbs of shutting down ask for that, whatever else is said |
| ActionLaws.RestartSentence | system/shell/understand_command.ep:275-276 | the verbs of restarting ask for that, whatever else is said |
| ActionLaws.WhatSentence | system/shell/understand_command.ep:265-270 | what: the time, what is running, or not understood |
| ActionLaws.RebuildSentence | system/shell/understand_command.ep:277-280 | rebuild: the compiler when it is named, or else the system |
| ActionLaws.AddSentence | system/shell/understand_command.ep:284-292 | add or invite: a person of the name that was given |
| ActionLaws.ServiceSentence | system/shell/understand_command.ep:294-298 | start and stop: the service that was named |
| ActionLaws.LookSentence | system/shell/understand_command.ep:284-305 | the verbs of looking: the people, the place behind "in", or the name given |
| ActionLaws.GoSentence | system/shell/understand_command.ep:307-317 | the verbs of going: the place behind "to", home, up, or the place named |
| ActionLaws.MakeSentence | system/shell/understand_command.ep:284-324 | the verbs of making: a person, a note with its text, or a folder of the name given |
| ActionLaws.SaveSentence | system/shell/understand_command.ep:326-328 | write and save: exactly the text under the name given |
| ActionLaws.ReadSentence | system/shell/understand_command.ep:330-339 | read and open: the name given, or notes or files when nothing else is left |
| ActionLaws.RemoveSentence | system/shell/understand_command.ep:284-342 | the verbs of removing: a person or a thing of the name given |
| ActionLaws.MoveSentence | system/shell/understand_command.ep:344-350 | move and rename: what stands before "to", to what stands behind it |
| ActionLaws.UnknownSentence | system/shell/understand_command.ep:239-253 | any other first word is not understood |
| ActionLaws.PoliteNothing | system/shell/understand_command.ep:234-255 | nothing but polite words asks for nothing |
| AccountRecords.StretchLegacy | system/kernel/user_accounts.ep:64-71 | the rounds of the old scheme |
| AccountRecords.Stretch | system/kernel/user_accounts.ep:75-86 | the salted rounds of the current scheme |
| AccountRecords.SecretsMatch | system/kernel/user_accounts.ep:92-106 | true exactly of equal texts |
| AccountRecords.LegacySecretsApart | system/kernel/user_accounts.ep:64-71 | without collisions of the hash the old fingerprint tells any two passwords apart |
| AccountRecords.SecretsApart | system/kernel/user_accounts.ep:75-86 | and so does the current one |
| AccountRecords.SecretsAreCounted | system/kernel/user_accounts.ep:64-86 | how often each scheme applies the hash, and to how much |
| AccountRecords.OnePassword | system/kernel/user_accounts.ep:165-196 | without collisions no record accepts two passwords |
| AccountRecords.OldAcceptsItsOwn | system/kernel/user_accounts.ep:165-196 | a record of the old scheme accepts the password it was made with and no other, exactly while its rounds are from 10000 to 1000000 |
| AccountRecords.CurrentAcceptsItsOwn | system/kernel/user_accounts.ep:165-196 | and so does one of the current scheme |
| AccountRecords.FreshIsCurrent | system/kernel/user_accounts.ep:8-15 | a new record is of the current scheme, with 200000 rounds |
| AccountRecords.MakeSalt | system/kernel/user_accounts.ep:55-61 | thirty-two characters, no line feed |
| AccountRecords.BuildRecord | system/kernel/user_accounts.ep:122-136 | the lines of a record, in order |
| AccountRecords.ReadField | system/kernel/user_accounts.ep:109-119 | the value on the first line with the key's marker, or "" |
| AccountRecords.FieldReadsBack | system/kernel/user_accounts.ep:109-137 | every value without a line feed reads back under its key |
| AccountRecords.RecordReadsBack | system/kernel/user_accounts.ep:109-137 | all seven fields of a written record read back |
| AccountRecords.RecordFieldLacksLineFeed | system/kernel/user_accounts.ep:109-119 | what is read from a record can be written into one |
| AccountRecords.FreshAccepts | system/kernel/user_accounts.ep:164-196 | a fresh record accepts a password exactly when the fingerprints agree, and keeps role and date |
| UserAccounts.NameIsOk | system/kernel/user_accounts.ep:25-45 | one to 32 letters, digits, dashes and underscores |
| UserAccounts.Accounts.Exists | system/kernel/user_accounts.ep:48-52 | true exactly of permitted names with a record in view, exactly when recovery was not refused; without a stage it cannot be |
| UserAccounts.Accounts.WriteRecord | system/kernel/user_accounts.ep:122-137 | the record becomes the new text or stays, and nothing else changes; after a failure a new record is in view exactly when its stage was left |
| UserAccounts.Accounts.Create | system/kernel/user_accounts.ep:141-162 | the answers 0, 1 and 7; what was made accepts the password and has the role; an existing account is left alone unless recovery of its record was refused, for which a stage must be there; after 7 a new account is there exactly when taking it back was denied, and with a home already there only its write can have failed; exact when no host call is denied |
| UserAccounts.Accounts.Verify | system/kernel/user_accounts.ep:165-196 | yes only to an accepted password, without collisions the only one there is, and right about the record in view unless recovery was refused, for which a stage must be there; the record stays or is migrated, accepting the password and keeping role and date; a good legacy login is migrated unless a host call is denied |
| UserAccounts.Accounts.Delete | system/kernel/user_accounts.ep:222-229 | the answers 1, 4 and 7; success takes the record out of view, failure leaves it; 4 exactly for no account unless recovery was refused, for which a stage must be there |
| UserAccounts.Accounts.LogLine | system/kernel/system_log.ep:13-17 | a success adds one whole line to the diary; nothing else changes |
| UserAccounts.AccountRun | system/kernel/user_accounts.ep:64-229 | over any run of creations, logins and removals, failures and cuts included, an account accepts its password and keeps role and date until removed, as long as no recovery is refused or no one creates an account of that name while a stage is beside its record |
| AccountCases.RewriteGoesThrough | system/kernel/user_accounts.ep:141-156 | wherever a record can be, past the question whether it exists a creation can replace it, stage or not |
| AccountCases.OldPasswordStopsWorking | system/kernel/user_accounts.ep:141-196 | after that the account accepts exactly the passwords with the new fingerprint |
| AccountCases.AccountWrittenOver | system/kernel/user_accounts.ep:141-156 | a host state with a stale stage from which one refused recovery leads to an account that no longer accepts its password |
| AccountCases.AccountLeftAfterSeven | system/kernel/user_accounts.ep:154-160 | a host state without a folder for homes in which, after answer 7, the account is there and works |
| Notes.LinesOf | system/apps/notes.ep:8-16 | the lines of a note, none for an empty one |
| Notes.LinesJoinBack | system/apps/notes.ep:8-16 | joining the lines of any note gives the note |
| Notes.Listen | system/apps/notes.ep:46-115 | the order a typed line means, edge cases included |
| Notes.AddKeepsText | system/apps/notes.ep:78-83 | adding a trimmed text adds exactly it |
| Notes.ChangeKeepsText | system/apps/notes.ep:88-103 | "change K to " and a trimmed text puts exactly it in line K, when there is one |
| Notes.RemoveTakes | system/apps/notes.ep:105-113 | "remove K" takes line K away, when there is one |
| Notes.AddedLine | system/apps/notes.ep:78-86 | after "add" the text stands behind all the lines, which stay |
| Notes.ChangedLine | system/apps/notes.ep:88-103 | after "change" line K is the text, and no other changes |
| Notes.RemovedLine | system/apps/notes.ep:105-113 | after "remove" all the lines but line K are left, in order |
| Notes.LoneWords | system/apps/notes.ep:50-76 | what done, quit, show, help and save leave on the desk |
| Notes.OtherWord | system/apps/notes.ep:115 | any other word is not followed |
| Notes.Editor.Heed | system/apps/notes.ep:43-115 | one line does what the machine does, and keeps the note and the lines in agreement |
| Notes.SavedIsStored | system/apps/notes.ep:41-116 | with nothing unsaved the joined lines are what the note holds |
| Notes.LeavesKnowingly | system/apps/notes.ep:50-58 | leaving with something unsaved, but for a shutdown, was warned of, and asked again with no edit between |
| Notes.EditNote | system/apps/notes.ep:32-116 | the same on the disk, for every sequence of typed lines and a shutdown at any of them |
| Collections.PriorityQueue.Push | stdlib/collections.ep:106-120 | keeps the heap order and adds exactly the value |
| Collections.PriorityQueue.Pop | stdlib/collections.ep:122-152 | returns a least value, 0 when empty, keeps the heap order and removes exactly it |
| Collections.PriorityQueue.Peek | stdlib/collections.ep:154-157 | a least value, 0 when there is none, and nothing changes |
| Collections.TopIsLeast | stdlib/collections.ep:154-157 | the top of a heap is least |
| Collections.Serve | stdlib/collections.ep:106-152 | any interleaving of pushes and pops is served as from a bag |
| Collections.PushAllPopAll | stdlib/collections.ep:106-152 | pushing all and popping all is a sorted permutation |
| Regex.GlobMatchHelper | stdlib/regex.ep:37-72 | terminates, and is right from every pair of start positions |
| Regex.GlobExactly | stdlib/regex.ep:37-72 | the recursion agrees with the relation: the text falls into one part per pattern character |
| Regex.SimpleMatch | stdlib/regex.ep:33-35 | true exactly of matching pattern and text |
| BumpAllocator.MaskDropsRemainder | baremetal/runtime/freestanding.c:52 | the mask takes the remainder by 16 away |
| BumpAllocator.AlignedIs | baremetal/runtime/freestanding.c:52 | the rounded size is the least multiple of 16, or 0 when the sum wraps |
| BumpAllocator.TestIsRightExactly | baremetal/runtime/freestanding.c:53 | the bound test is right for exactly the sizes that round to at most the heap, or wrap; it hands out every other one |
| BumpAllocator.BootHeap.MemorySet | baremetal/runtime/freestanding.c:15-21 | sets exactly the given bytes |
| BumpAllocator.BootHeap.Reset | baremetal/runtime/freestanding.c:43-46 | no block is live and every byte is zero |
| BumpAllocator.BootHeap.Allocate | baremetal/runtime/freestanding.c:48-60 | a block exactly when it fits, zeroed, behind the others, whose bytes stay, for every sound size; a block that leaves the heap for every other one |
| BumpAllocator.BootHeap.Used | baremetal/runtime/freestanding.c:62-64 | the sum of the sizes handed out |
| BumpAllocator.StackedApart | baremetal/runtime/freestanding.c:48-60 | live blocks are aligned, inside what is used, and do not meet |
| BumpAllocator.Run | baremetal/runtime/freestanding.c:43-64 | over any run the used size is the sum of the rounded sizes, in blocks that lie apart, up to the first request of an unsound size, whose block leaves the heap |
| MathLib.SqrtInt | stdlib/math.ep:41-51 | for every 64-bit number the floor of the root or more; the floor exactly when no guess wraps to a square that looks small enough |
| MathLib.SqrtIsRightUpTo | stdlib/math.ep:41-51 | the root of every number up to 6074000999 is right, that of the next one is not, and later ones can be right again |
| MathLib.Gcd | stdlib/math.ep:55-62 | a common divisor that every common divisor divides, exactly when neither number is the least one, or only one is and the other divides it |
| MathLib.IsPrime | stdlib/math.ep:111-125 | true exactly of the primes and of the largest 64-bit number |
| MathLib.LargestIsNoPrime | stdlib/math.ep:111-125 | the largest 64-bit number, called a prime, is none |

## Left out

- TheDisk.Disk.HostWrite: a write that reports success wrote everything; the host's short writes on a full disk are not modelled.
- TheDisk.Disk.Rename: the host's rename follows POSIX; what Windows does differently with open or existing files is not modelled.
- TheDisk.Disk.Read: reading a folder as if it were a note gives no text; what a C library does with it is not modelled.
- VirtualFiles.MemberRun: assumes that typed names do not use the reserved staging suffix, which the name check lets through.
- Services.InvHolds: the two processes are interleaved steps, not threads; time is an arbitrary choice at each select.
- ServiceTable.HeartbeatService: followed for any number of turns, since a service that is never stopped runs for ever.
- ServiceTable.Kernel.BoardAsk: a send into a full channel is a call that has not returned; the heartbeat's two names are asked only while it runs, as the two callers do.
- WebSocket.Connection.ReadFrame: when the peer closes inside a frame the answer is not described, because it is made of unset memory; only that nothing is left and nothing sent is lost.
- AccountRecords.MakeSalt: which bytes are drawn is arbitrary; nothing is said about their randomness or about the strength of the hash.
- AccountCases.AccountWrittenOver: shown with a hash that can be followed by hand, not with SHA-256, as is AccountCases.AccountLeftAfterSeven; AccountCases.OldPasswordStopsWorking holds for any hash.
- UserAccounts.AccountRun: a legacy record is followed while no other password with the same old fingerprint logs in, because a migration would replace the fingerprint.
- BumpAllocator.BootHeap.Allocate: what lies behind the boot heap, which a block of an unsound size reaches into, is not part of this model.
- BumpAllocator.Run: ends at the first request of an unsound size.
- The WebSocket handshake, close frames sent by the server, and the sockets themselves.
- Preparing and formatting a new disk, the account lists, the role lookup, and the text of folder listings.
- Boards and service tables with other services than the heartbeat: no other service exists.
- Upper case, padding, replacing, counting and formatting in the string library; csv columns; queues and stacks.
- The configuration parser, insertion sort and string formatting, which do not end or do not sort on some inputs.
- Running the commands that sentences become, the terminal, the desktop, help texts, and everything that only shows.
- Programs outside Ern-OS, rebuilding, booting, serial output, and foreign or runtime calls.
