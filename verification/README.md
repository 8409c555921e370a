# A verified model of the collaborative Markdown server

The server keeps one document. Clients send command lines; a command is checked, authorised and executed
against the document, where it only queues insertions and deletions. A commit applies the queue, renumbers
the ordered lists, makes a new version and publishes the log of submissions to every connected client.

The model has two layers.

* **Values.** `Ops` (the queue and how it moves texts and positions), `Provenance` (the same queue on a text
  whose characters remember where they come from), `Tombstones` (the same queue on a text that forgets nothing),
  `Renumbering`, `Engine` (what each command queues, when it is refused, what it means), `Meaning`,
  `RangeOrder`, `Text`, `Commands` (lines and tokens), `Payloads` (the published text and a reader for it),
  `ClientReader` (how the client program takes it off its pipe), `Cores` (submissions, commits, replay),
  `LineMeanings` (what every line does when it is submitted, spelled out), `Protocol` (the server as a state
  machine over joins, lines and hang-ups of any number of clients in any interleaving) and `Announcements` (what a
  command does on the server to text, log and streams).
* **Objects.** The classes `Documents.Document`, `ServerCores.ServerCore`, `Registry.ClientRegistry` and
  `Servers.Server`, the table `OpTables.OpTable` in which the documents keep their queues, and the methods
  `RenumberOrderedLists` and `CommandExecute`, do what the C code does step by step, with its loops, buffers,
  early returns and linked nodes. Each is proved equal to the value layer, and its contract says which objects
  stay, which are dropped and which are new, so that calls compose. `ServerRuns.Serve` puts them together: for any
  events in any order the server object reaches the state of the state machine, so that the theorems about runs
  hold of the object and of the streams it returned.

Main results, in the order of their difficulty:

* `Protocol.ClientsConverge`: in every interleaving a connected client can work out the version and the whole
  text of the server's document from nothing but the characters that were written to its stream. It rests on
  gap-free streams, the payload round trip, the snapshot round trip and replay faithfulness. `ServerRuns.Serve`
  states it of the stream objects.
* `Provenance.TransformSplits` and `Meaning.RangeEnclosesItsCharacters`: a range command encloses exactly the
  surviving committed characters of its range, whatever insertions and deletions were queued before it.
* `Tombstones.TransformCountsLiveCells`: an account of carried positions that never moves them. Deleted
  characters stay as tombstones, a gap stays behind its left neighbour, and the loop of the source rejects a
  position exactly when one deletion marked the nearest live characters on both sides of its gap, and otherwise
  returns the number of live characters up to it.
* `RangeOrder.FormattingClosedForm` and `RangeOrder.OrderIsIrrelevantIff`: the closed form of any list of range
  commands on any valid document, whatever is pending on it, and exactly when their order does not matter. It
  does not when the places they are carried to are pairwise distinct (`DistinctPlacesCommute`), so in particular
  not when their endpoints are distinct and nothing but insertions is pending (`DistinctEndpointsCommute`). A
  pending deletion can carry distinct endpoints to one place (`DeletionsMergeEndpoints`), and with shared
  endpoints the order can matter (`SharedEndpointsDoNotCommute`).
* `Cores.RunIsFollowed` and `Cores.ReadersDoNotInterfere`: the published payloads of any run, with any number of
  submissions before each commit, determine version and committed text, and readers influence neither texts nor
  the results of writers.
* `LineMeanings` and `Announcements`: a complete account of every line, from its characters to the working text,
  the committed text, the log entry and what the clients are sent, in the literal words, markers and limits of the
  source. Tokens and numbers enter by laws that determine them (`TokenLaws`, `NumbersAre`, `SignedNumber`).
* `Renumbering.ListStartsAtOne`, `ListGoesOnByOne` and `RenumberChangesOnlyItems`: three laws that determine the
  renumbered text; by `RenumberIdempotent` committed texts are fixed points.

Premises: allocation and stream writes succeed; texts contain no NUL; sums of positions and lengths do not
exceed the range of `size_t` (for a deletion, whose length a client chooses, `Engine.DeletionStaysInBoundsIff`
shows that this is exactly what it takes); the role file only knows names that are single words; `fgets` delivers lines
with at most one newline, at the end, and at most 511 characters. Versions and parsed numbers are 64 bits wide.

Where comments and code differ the model follows the code. The comment at `src/markdown.c:372-377` says that
positions in later commands refer to the committed version; that is so only for the four range commands, while
all other commands take positions in the working text. The comment at `src/markdown.c:50-51` allows for a
slightly larger output of renumbering; the output has exactly the length of the input.

## Model

| member | source | states |
|---|---|---|
| Ops.ClampsNeverAlter | src/markdown.c:242-298 | on a well-formed queue every operation is in bounds for the text left by the ones before it, so cutting back positions and lengths never has an effect |
| Ops.Conservation | src/markdown.c:300-319 | the length of the working text is the committed length plus all inserted and minus all deleted characters |
| Ops.TransformBounded | src/markdown.c:353-405 | a carried-over position lies within the working text |
| Ops.TransformMonotone | src/markdown.c:353-405 | carrying positions over any queue keeps their order |
| Ops.TransformStrict | src/markdown.c:369-380 | over insertions alone no position is lost and distinct positions stay distinct |
| Ops.TransformLost | src/markdown.c:385-387 | a position lost in a prefix of the queue stays lost, which justifies the early return |
| Provenance.ErasesToWorking | src/markdown.c:300-319 | the text with provenance is the working text with annotations |
| Provenance.SurvivorsAreFaithful | src/markdown.c:242-319 | surviving committed characters are unchanged, occur at most once and keep their committed order |
| Provenance.TransformSplits | src/markdown.c:353-405 | intent preservation: the carried-over position of a committed gap has exactly the surviving characters from before the gap on its left and those from after it on its right |
| Provenance.TransformFollowsLeftNeighbour | src/markdown.c:378-399 | while the character on its left survives, a gap is never lost and stays directly behind that character |
| Provenance.LostOnlyIfLeftNeighbourDeleted | src/markdown.c:385-387 | a position is only rejected as deleted when the character on its left is gone |
| Provenance.LostIffStrictlyInside | src/markdown.c:381-387 | a position is rejected exactly when one pending deletion covers both sides of the place it has been carried to |
| Provenance.DeletedNeighboursCanBeAccepted | src/markdown.c:385-399 | two separate deletions of both neighbours leave a position accepted |
| Provenance.SurvivingNeighbourCanBeRejected | src/markdown.c:378-387 | a position can be rejected although the committed character on its right survives |
| Meaning.RangeOnSurvivorRejected | src/markdown.c:662-705 | INSERT 1 x, DEL 0 2, BOLD 1 2 on "ab" is rejected as deleted although the character at 1 survives |
| Meaning.RangeOnDeletedAccepted | src/markdown.c:662-705 | DEL 0 1 twice and BOLD 0 1 on "ab" is accepted although both characters are gone |
| Tombstones.TransformCountsLiveCells | src/markdown.c:353-405 | a position is rejected exactly when one pending deletion marks the nearest live characters on both sides of its gap, and otherwise becomes the number of live characters before its gap, in a text where deletions only mark and a gap stays behind its left neighbour |
| Tombstones.SwallowsIff | src/markdown.c:381-387 | a deletion marks the nearest live characters on both sides of a gap exactly when the gap lies strictly inside it |
| Tombstones.LivingStonesAreTraced | src/markdown.c:242-319 | without its tombstones the text that forgets nothing is the working text |
| Tombstones.TracedBetweenGaps | src/markdown.c:300-405 | two carried positions cut the working text where their gaps cut the text that forgets nothing: before, between and behind them stands exactly what lives there |
| Renumbering.RenumberTouchesOnlyListDigits | src/markdown.c:28-113 | renumbering keeps the length, the newlines and the list lines, and changes nothing but the leading digit of list lines |
| Renumbering.RenumberChangesOnlyItems | src/markdown.c:28-41 | a character changes only if it is a digit at the start of a line, followed by a dot and a blank |
| Renumbering.ListStartsAtOne | src/markdown.c:67-93 | a line of that shape under a line of another shape gets the number 1 |
| Renumbering.ListGoesOnByOne | src/markdown.c:74-93 | a line of that shape under a line of that shape gets the next number, and 9 after 9; the three laws together determine the whole text |
| Renumbering.ListsAreNumberedFromOne | src/markdown.c:74-93 | the k-th of consecutive lines of that shape gets the number min(k, 9) |
| Renumbering.RenumberIdempotent | src/markdown.c:43-113 | renumbering a renumbered text changes nothing |
| Renumbering.RenumberOrderedLists | src/markdown.c:43-113 | the loop over lines fills a buffer one longer than the text with exactly the renumbered text and a terminator |
| Engine.ExecMeans | src/markdown.c:552-930 | a command succeeds exactly when the document accepts it, and then the working text becomes the declared effect: insertion, truncated deletion, line break, block at a line start, or markers around the carried-over range |
| Engine.CarriedRange | src/markdown.c:686-704 | the carried-over start and end are in order and within the working text |
| Engine.RefusalIs | src/markdown.c:325-351 | a refused command changes nothing, and its error code follows the order of the checks |
| Engine.ExecKeepsValid | src/markdown.c:552-930 | every command keeps the queue well-formed, only appends to it, and leaves it as it was unless it succeeds |
| Engine.CommitKeepsValid | src/markdown.c:963-1002 | committed texts are in normal form, and a commit without pending operations changes only the version |
| Engine.DeletionStaysInBoundsIff | src/markdown.c:590-596 | with sizes added modulo 2^64 a deletion keeps the queue well-formed exactly when position plus length does not overflow, and then it queues what the model queues |
| Engine.OverflowingDeletion | src/markdown.c:590-596 | position 1 and length 2^64 - 1 in a text of two characters overflow, and the length is not cut back |
| Engine.VersionsAre64Bit | src/markdown.c:1000-1001 | the version after v is v + 1, and 0 after 2^64 - 1 |
| Meaning.BlockLandsAtLineStart | src/markdown.c:453-482 | the tag of a heading, quote, list item or rule stands at the start of a line and the text around it is kept |
| Meaning.NewListItemIsNumbered | src/markdown.c:761-808 | after the next commit a new list item carries min(9, 1 + the list lines directly above it) |
| Meaning.RangeEnclosesItsCharacters | src/markdown.c:662-705 | the markers of a range command stand around exactly the surviving committed characters of its range, and around exactly those inserted ones that stand between the gaps of its two ends |
| RangeOrder.FormattingClosedForm | src/markdown.c:662-750 | any list of range commands on a valid document yields its working text with all markers at the places their endpoints are carried to, the latest first, and moves every carried position to the offset of its place |
| RangeOrder.OutcomesIgnoreOrder | src/markdown.c:662-704 | what a range command returns does not depend on the range commands before it |
| RangeOrder.OrderIsIrrelevantIff | src/markdown.c:699-704 | on any valid document two orders of the same range commands give the same text exactly when they stack the markers equally at every place |
| RangeOrder.DistinctPlacesCommute | src/markdown.c:699-704 | range commands whose endpoints are carried to pairwise distinct places can be applied in any order, whatever is pending |
| RangeOrder.DistinctEndpointsCommute | src/markdown.c:369-380 | range commands with pairwise distinct endpoints can be applied in any order when nothing but insertions is pending |
| RangeOrder.DeletionsMergeEndpoints | src/markdown.c:381-399 | after DEL 1 1 on "abc" the distinct endpoints of BOLD 0 1 and CODE 2 3 meet in one place, and the two orders give different texts |
| RangeOrder.SharedEndpointsDoNotCommute | src/markdown.c:856-861 | bold and code on the same character give two different, crossing results in the two orders |
| Documents.Document.constructor | src/markdown.c:488-521 | a new document is empty, at version 0 and valid when no queue waits at its address |
| Documents.Document.Free | src/markdown.c:523-546 | a freed document leaves nothing pending at its address, so that the next document there starts valid, and the other queues as they were |
| Documents.Document.OthersAreKept | src/markdown.c:140-228 | what any editing method does to its own queue in the shared table leaves committed text, queue and version of every other document as they were |
| Documents.Document.GetWorkingText | src/markdown.c:300-319 | the loop over the queue computes the working text |
| Documents.Document.TransformPosition | src/markdown.c:353-405 | the loop over the queue carries a position over it or reports it as deleted |
| Documents.Document.EnsureBlockPrefixPosition | src/markdown.c:453-482 | breaks the line unless the position starts one, and returns the start of the line |
| Documents.Document.Insert | src/markdown.c:552-569 | result and new state are those of the insertion command, and no other queue of the table changes |
| Documents.Document.Delete | src/markdown.c:571-597 | result and new state are those of the deletion command, truncated at the end of the text |
| Documents.Document.Newline | src/markdown.c:603-642 | the steps (swallow a space, insert a newline) succeed or fail together |
| Documents.Document.Heading | src/markdown.c:644-660 | all or nothing: the steps amount to the heading command or change nothing |
| Documents.Document.Blockquote | src/markdown.c:752-759 | all or nothing: the steps amount to the quote command or change nothing |
| Documents.Document.OrderedList | src/markdown.c:761-808 | all or nothing: the three steps amount to the list command or change nothing |
| Documents.Document.UnorderedList | src/markdown.c:810-817 | all or nothing: the steps amount to the list command or change nothing |
| Documents.Document.HorizontalRule | src/markdown.c:864-871 | all or nothing: the steps amount to the rule command or change nothing |
| Documents.Document.Bold | src/markdown.c:662-705 | all or nothing: once the closing marker is queued the opening one cannot fail |
| Documents.Document.Italic | src/markdown.c:707-750 | all or nothing: once the closing marker is queued the opening one cannot fail |
| Documents.Document.Code | src/markdown.c:819-862 | all or nothing: once the closing marker is queued the opening one cannot fail |
| Documents.Document.Link | src/markdown.c:873-930 | all or nothing: once the closing marker is queued the opening one cannot fail |
| Documents.Document.IncrementVersion | src/markdown.c:963-1002 | commits the renumbered working text, empties the queue and advances the version |
| Commands.ValidateRawCommandLine | src/command.c:45-72 | the loop accepts exactly the lines of 1 to 256 characters from blank to tilde with an optional final newline |
| Commands.TokenLaws | src/command.c:119-127 | blanks in front of a token do not count, and a token ends at a blank or at the end of the line; these laws determine all tokens of a line |
| Commands.NumbersAre | src/command.c:92-106 | a token is a number exactly when it is an optional sign and one or more digits |
| Commands.SignedNumber | src/command.c:92-106 | the value of a sign and any digits: saturated at 2^64 - 1, negated modulo 2^64 after a minus sign |
| Commands.DecimalIsWord | src/command.c:92-106 | every decimal number below 2^64 is one printable token and is read back exactly |
| Commands.SignedSizes | src/command.c:98-104 | a plus sign is ignored, a minus sign negates modulo 2^64, and too large a number saturates |
| Commands.CanonicalLineIsExecuted | src/command.c:108-359 | the canonical line of each of the twelve commands, with or without newline, is executed as exactly that command with exactly its arguments, and is refused to readers |
| Commands.CanonicalLineOutcome | src/command.c:25-43 | the result a writer gets for a canonical line, in terms of the document alone |
| Commands.ExecuteKeepsValid | src/command.c:108-359 | any line keeps the document valid, and changes nothing unless it succeeds |
| Commands.ReadersChangeNothing | src/command.c:129-132 | a line of a reader is always rejected and changes nothing |
| Commands.SuccessIsReplayable | src/server_core.c:22-40 | a line that succeeded was sent by a writer at the current version, and does the same again without its newline |
| CommandExecution.CommandExecute | src/command.c:108-359 | taking tokens off the line one by one, authorising and dispatching gives the result and the document of the specification |
| CommandExecution.ReadTwoSizes | src/command.c:153-166 | the token steps accept exactly two tokens that are numbers |
| CommandExecution.ReadLink | src/command.c:333-346 | the token steps accept exactly two numbers and a word |
| Payloads.PayloadRoundTrip | src/server_core.c:169-185 | a payload can be read back from the front of any stream if and only if its users are single words and neither users nor commands contain a newline |
| Payloads.PayloadLines | src/server_core.c:163-185 | a payload has one line per entry and two more, and its only line END is the last one |
| ClientReader.TakesOnePayload | src/client.c:279-296 | reading pieces of at most 511 characters until the piece END takes exactly one payload off the front of any stream, however long its lines are |
| ClientReader.ReadsLine | src/client.c:289-296 | a line of any length that does not end in END is taken whole, and no piece of it stops the reading |
| Payloads.SplitResultOf | src/command.c:361-377 | the result at the end of an entry line determines where the command ends |
| LineMeanings.UnprintableLine | src/command.c:45-72 | a line that is empty, longer than 256 or not printable is refused to everybody as an invalid command and changes nothing |
| LineMeanings.UnknownLine | src/command.c:119-127 | so is a line without a word or whose first word is none of the twelve |
| LineMeanings.ReaderLine | src/command.c:129-132 | each of the twelve words is refused to a reader as unauthorised and changes nothing |
| LineMeanings.MiscountedLine | src/command.c:153-166 | too few or too many words after any of the twelve are an invalid command and change nothing |
| LineMeanings.InsertLine | src/command.c:136-151 | INSERT with any blanks in front and between: an invalid position token or no content is refused, a position behind the end too, and otherwise exactly the rest of the line is put at the position of the working text |
| LineMeanings.InsertNothingLine | src/command.c:136-151 | INSERT without anything behind its position is an invalid command and changes nothing |
| LineMeanings.DelLine | src/markdown.c:571-597 | DEL cuts the given number of characters, at most to the end of the text, and any token that is no number is refused |
| LineMeanings.NewlineLine | src/markdown.c:603-642 | NEWLINE puts a newline in place of a blank at its position, or in front of any other character |
| LineMeanings.HeadingLine | src/markdown.c:644-660 | HEADING puts one to three hashes and a blank at the start of a line, and refuses other levels |
| LineMeanings.BlockquoteLine | src/markdown.c:752-759 | BLOCKQUOTE puts "> " at the start of a line |
| LineMeanings.UnorderedListLine | src/markdown.c:810-817 | UNORDERED_LIST puts "- " at the start of a line |
| LineMeanings.HorizontalRuleLine | src/markdown.c:864-871 | HORIZONTAL_RULE puts "---" and a newline at the start of a line |
| LineMeanings.OrderedListLine | src/markdown.c:761-808 | ORDERED_LIST drops a blank at its position and puts "1. " at the start of a line |
| LineMeanings.BoldLine | src/markdown.c:662-705 | BOLD puts two stars around the carried range, and refuses an empty, reversed, overlong or deleted one with the code of the source |
| LineMeanings.ItalicLine | src/markdown.c:707-750 | the same with one star |
| LineMeanings.CodeLine | src/markdown.c:819-862 | the same with a backquote |
| LineMeanings.LinkLine | src/markdown.c:873-930 | the same with a bracket in front and the bracketed URL behind |
| LineMeanings.CanonicalLineSubmitted | src/server_core.c:111-129 | the canonical line of a command, submitted by a writer, succeeds exactly when the document accepts the command and then takes its effect, and otherwise gets the code of the first failed check and changes nothing; a reader's is unauthorised |
| Cores.SubmitLogs | src/server_core.c:52-83 | a submission adds one entry to the log: the sender, the line without its one final newline, and the result that was returned |
| Cores.SubmitKeepsConsistent | src/server_core.c:111-129 | a submission keeps core and document at the same version and the log an explanation of the queue |
| Cores.PublishKeepsConsistent | src/server_core.c:150-193 | after a commit the working text is the committed text |
| Cores.EmptyLogMeansNothingPending | src/server_core.c:157-161 | an empty log means an empty queue, so skipping the commit loses nothing |
| Cores.RunsAreConsistent | src/server_core.c:85-193 | the invariant holds in every core that a run of submissions and commits reaches |
| Cores.NeverOutdated | src/server_core.c:111-129 | a submission is never rejected as outdated |
| Cores.BatchIsReplayable | src/server_core.c:52-193 | after any batch of submissions and a commit, replaying the logged commands that succeeded, without newline and as a writer, on the previous committed text and committing gives the new committed text |
| Cores.RunIsFollowed | src/server_core.c:85-193 | from any consistent core, following the payloads of all commits of a run, with any submissions before each, leads to the version and the committed text the run reaches |
| Cores.RunsFromStartAreFollowed | src/server_core.c:85-193 | in particular from the empty document at version 0 |
| Cores.ReadersDoNotInterfereWithRuns | src/server_core.c:85-193 | in every run from the initial state, erasing all submissions of readers changes neither the texts after the commits nor the results of writers |
| Cores.ReadersDoNotInterfere | src/server_core.c:111-193 | the same from any two consistent cores with the same text and queue: erasing all submissions of readers from a run changes neither the texts after its commits nor the results of writers |
| ServerCores.ServerCore.Submit | src/server_core.c:111-129 | executes and logs one line |
| ServerCores.ServerCore.BroadcastPayloadSize | src/server_core.c:131-148 | the first pass computes the exact length of the payload |
| ServerCores.ServerCore.WritePayload | src/server_core.c:163-185 | the second pass writes the whole payload into the sized buffer, no piece is truncated and the terminator fits |
| ServerCores.ServerCore.Commit | src/server_core.c:150-193 | commits if anything was submitted, returns the printed log and empties it |
| ServerCores.Snprintf | src/server_core.c:171-185 | writes as much as fits, always a terminator, and returns the full length |
| Registry.ClientRegistry.Find | src/client_registry.c:72-84 | walks the list to the client of the process asked for, or reports that there is none |
| Registry.ClientRegistry.Add | src/client_registry.c:86-124 | puts a client in front unless its process is registered, and keeps processes distinct and the count exact |
| Registry.ClientRegistry.Remove | src/client_registry.c:126-156 | redirects the one link to the client; the other clients stay the same nodes with the same streams, in their order |
| Registry.DropKeepsOthers | src/client_registry.c:126-156 | dropping the node of a process leaves exactly the nodes of all other processes |
| Registry.ClientRegistry.Broadcast | src/client_registry.c:166-186 | appends the payload to every stream as often as it is registered, so once for every client when no two share a stream |
| OpTables.OpTable.FindOps | src/markdown.c:140-148 | walks the list to the one node of a document |
| OpTables.OpTable.GetOrCreateOps | src/markdown.c:150-168 | finds or prepends the node of a document, so that no document ever has two |
| OpTables.OpTable.EnqueueOp | src/markdown.c:212-228 | appends to the queue of one document and leaves every other queue as it was |
| OpTables.OpTable.ClearOps | src/markdown.c:170-186 | empties the queue of one document and leaves every other queue as it was |
| OpTables.OpTable.FreeOps | src/markdown.c:188-210 | unlinks the node of one document and leaves every other queue as it was |
| OpTables.LookupWithout | src/markdown.c:188-210 | with one node per document, dropping a node changes the lookup of its document only |
| Protocol.StepKeepsGood | src/server.c:225-293 | every critical section leaves everything committed and every process registered at most once |
| Protocol.StreamsAreGapFree | src/server.c:225-282 | a connected client has received the snapshot of the moment it joined and then every later payload, in order and once |
| Protocol.CommitsAreNumbered | src/server.c:272-282 | the payloads of a run are numbered consecutively from 1 and the server is at the last number |
| Protocol.ReceivedVersionsAreConsecutive | src/server.c:272-282 | a client that joined at version v receives v + 1, v + 2, ... |
| Protocol.AdvanceIsModularSum | src/markdown.c:1000-1001 | n commits advance the version by n modulo 2^64 |
| Protocol.FollowingCommitsCatchesUp | src/server_core.c:150-193 | replaying all commits since any moment of a run leads from the document of that moment to the present one |
| Protocol.SnapshotRoundTrip | src/server.c:107-127 | role, version and document can be read back from the snapshot whatever follows it |
| Protocol.ClientsConverge | src/server.c:225-282 | the characters written to a connected client determine the version and text of the server's document |
| Announcements.CommandIsCommitted | src/server.c:266-282 | a command is submitted under the name and role of its client, and what it leaves pending is renumbered and committed as the next version |
| Announcements.CanonicalLineCommits | src/server.c:266-282 | the canonical line of a command from a registered writer commits the renumbered effect on the committed text, and any other canonical line leaves the committed text as it was |
| Announcements.CommandIsAttributed | src/server_core.c:111-129 | in every run the payload of a command has exactly one entry: the user with whom the process joined, the line without its final newline, and the result of the submission under the role of that join |
| Announcements.CommandIsAnnounced | src/server_core.c:163-185 | every registered stream grows by the version line, the one entry line and END |
| Announcements.ResultsInWords | src/command.c:361-377 | the words for the six results |
| Announcements.EventsThatArrive | src/server.c:263-266 | which events runs are made of, in numbers: lines of 1 to 511 characters with a newline at most at the end |
| Announcements.JoinIsGreeted | src/server.c:107-127 | the stream of a new client holds its role in words, the version, the length and the text |
| Announcements.Farewells | src/server.c:258-293 | DISCONNECT, QUIT and the end of its input unregister a client and no other, and no other line does |
| Servers.Server.SendInitialDocument | src/server.c:107-127 | writes the snapshot of the present document |
| Servers.Server.Connect | src/server.c:199-256 | joining is one step of the state machine, also when it is rejected; the new stream holds the refusal or the snapshot, and the registry has one new node with it in front or the nodes it had |
| Servers.Server.HandleLine | src/server.c:266-282 | handling a line is one step of the state machine; the registered nodes and their streams stay the same objects unless the line is a farewell, which drops the one of its sender |
| Servers.Server.CommandSection | src/server.c:272-282 | submit, commit and broadcast on the shared objects are the command step |
| Servers.Server.Disconnect | src/server.c:291-293 | leaving is one step of the state machine, and the other clients keep their nodes and streams |
| ServerRuns.Handle | src/server.c:199-293 | any event is one step of the state machine, and the registry has a new node in front or none but old ones |
| ServerRuns.ServeAll | src/server.c:199-293 | any events, one after the other, take a new server to the state of the run; every registered client still has the stream of its own join, and a refused one gets nothing after its refusal |
| ServerRuns.Serve | src/server.c:199-293 | the stream object of every client still connected is registered and determines role, version and text of the server's document |

## Left out

- Documents.Document.Delete: `pos + len` is computed without the wrap-around of `size_t` at `src/markdown.c:592`; positions and lengths are natural numbers, and `Engine.DeletionStaysInBoundsIff` says exactly when that makes a difference.
- The operations of one queue, a list with a tail pointer in the source, are a sequence in the node of its document.
- Allocation failure, freeing of memory and NULL arguments, including the result -1 that stands for both a failed allocation and an invalid position.
- The chunk list: the code only ever keeps one committed chunk, which is a single text here.
- `strtok_r`, `strtoul` and `snprintf` are modelled by what they do on the strings that reach them; leading white space cannot occur in a token.
- Reading the role file (`src/auth.c`): the answer of the lookup is part of the join event.
- Named pipes, signals, threads and the lock itself: the three sections under the lock are atomic steps, which `ServerRuns` runs one after the other.
- Failed or partial writes to a client, and the closing of streams.
- The client program beyond its reading loop: it prints what it receives; the reader of streams in `Protocol` is what a client could do with it.
- The update interval of the server, which is parsed but drives nothing.
- The log is a sequence instead of linked nodes with a tail pointer; the client registry and the table of queues are modelled with their nodes.
