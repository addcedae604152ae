# Desktop client: verified models

A Dafny model of the parts of the OpenCloud desktop client in which small mistakes are hard to
see: the Windows Explorer extension that talks to the client over a named pipe and caches its
menu, and four smaller pieces (account persistence, the release configuration, the command-line
client, the HTTP log merger). `dafny verify dfyconfig.toml` checks everything.

The Explorer extension, bottom up:

- `Splitting`, `Utf`: finding and splitting, UTF-8 and UTF-16 with everything Windows does to
  malformed text.
- `Pipe`: a connection as values. The kernel is a finite script of overlapped operations; each may
  be rejected, complete at once or later, fail, time out, or complete while it is being cancelled,
  so that its bytes are lost. All theorems hold for all scripts. A reply read bit by bit is
  compared with the same stream decoded and split in one go.
- `PrintedMenus`: what the client's menu lines mean, apart from how they are read. `Grammar`,
  `MenuList`, `Wire`: MENU_ITEM and STRING lines, separator normalisation, commands and how the peer
  reads them.
- `SocketClients`: the class `SocketClient`, its loops and its use of the one OVERLAPPED structure,
  proved equal to the functions of `Pipe`; `Requests` says what whole requests guarantee.
- `MenuCaches`: the class `MenuCache` and serialised runs of it. `CacheThreads`: the same method as
  a transition system of any number of threads whose every access to the shared fields is a step;
  `StringThreads` the same for the strings, which have a lock of their own.
- `Enumerators`, `Explorer`: the enumerator, the 16 slots and the root command.

`Accounts`, `ReleaseConfig`, `CmdSync` and `HttpLog` each stand alone.

Where the code does less than a reader might expect, the model follows the code and says exactly
when it does what one expects: joined names lose leading empty ones (`Wire.SplitJoinedFiles`), the
request timeout applies to each read, so that it bounds a whole reply only for some timings of the
reads (`Pipe.RequestTimeoutIsKeptExactly`), a client certificate without an RSA or EC key is not
restored (`Accounts.DurableExactly`), the filter for stable-1.2 also admits 1.20
(`ReleaseConfig.StableTagsExactly`), a newer release is not always marked as latest
(`ReleaseConfig.MarkedAsLatestExactly`), and a sync that needs another one after the restarts ran
out neither ends the program nor goes on (`CmdSync.SyncsExactly`). A failed menu request is cached
as an empty menu until the selection changes (`MenuCaches.FailureIsKept`), and what follows a
second hyphen of a tag is lost (`ReleaseConfig.PrintedTagIsParsed`).

## Model

| member | source | states |
|---|---|---|
| `Utf.TextRoundTrip` | shell_integration/windows/socketclient.cpp:37-51 | Text survives encoding and decoding if and only if it has no lone surrogates. |
| `Utf.BytesRoundTrip` | shell_integration/windows/socketclient.cpp:37-51 | Bytes survive decoding and encoding if and only if they are well-formed UTF-8 (section 4 of RFC 3629). |
| `Utf.DecodeOfEncode` | shell_integration/windows/socketclient.cpp:37-51 | What arrives of any text is that text with each lone surrogate replaced by U+FFFD. |
| `Utf.Examples` | shell_integration/windows/socketclient.cpp:37-51 | The examples of section 7 of RFC 3629, of one to four bytes, and the surrogate pair of the last one. |
| `Utf.MalformedIsReplaced` | shell_integration/windows/socketclient.cpp:37-51 | A byte that begins no well-formed sequence is read as U+FFFD, and a lone surrogate is sent as the bytes of U+FFFD. |
| `Utf.EncodeIsWellFormed` | shell_integration/windows/socketclient.cpp:37-43 | Everything sent is well-formed UTF-8. |
| `Utf.DecodeIsWellFormed` | shell_integration/windows/socketclient.cpp:45-51 | Everything read is well-formed UTF-16. |
| `Utf.DecodeKeepsAscii` | shell_integration/windows/socketclient.cpp:45-51 | Decoding neither makes nor loses an ASCII character; in particular no decoded line holds a newline. |
| `Utf.DecodeAround` | shell_integration/windows/socketclient.cpp:45-51 | Decoding splits at every ASCII byte, for well-formed and malformed bytes alike. |
| `Utf.SplittingCommutesWithDecoding` | shell_integration/windows/socketclient.cpp:139-146 | For every byte stream, splitting the bytes at 0x0A and decoding each piece is decoding the whole stream and splitting at U+000A. |
| `Grammar.ParseBySplitting` | shell_integration/windows/socketclient.cpp:66-82 | A MENU_ITEM line is accepted exactly when two colons follow the prefix; command and flags are the first two colon-separated pieces, all the rest is the title, and only a d in the flags disables the item. |
| `Grammar.ParsePrinted` | shell_integration/windows/socketclient.cpp:66-82 | Parsing inverts printing for colon-free command and flags and any title. |
| `Grammar.ParsedIsPrinted` | shell_integration/windows/socketclient.cpp:66-82 | Every accepted line is the print of a colon-free command, colon-free flags and a title. |
| `Grammar.PrintIsInjective` | shell_integration/windows/socketclient.cpp:66-82 | A line decomposes into command, flags and title in one way only. |
| `Grammar.CollectStrings` | shell_integration/windows/socketclient.cpp:223-235 | The loop over the STRING lines computes the map that the next three rows characterise. |
| `Grammar.ParseStringBySplitting` | shell_integration/windows/socketclient.cpp:225-233 | A STRING line is accepted exactly if it begins with STRING: and a colon follows; the first colon-separated piece is the key, all the rest the value. |
| `Grammar.FirstDefinitionWins` | shell_integration/windows/socketclient.cpp:223-235 | For any lines, a key is known if and only if some line defines it, and the first such line gives its value. |
| `Grammar.ParsePrintedString` | shell_integration/windows/socketclient.cpp:225-233 | A printed STRING line with a colon-free key is read back; the value may hold colons. |
| `Grammar.StringsRoundTrip` | shell_integration/windows/socketclient.cpp:223-235 | Any map with colon-free keys is read back exactly, in whatever order and however often its entries are printed. |
| `MenuList.CollectMenuItems` | shell_integration/windows/socketclient.cpp:197-214 | For every way of reading the lines as printed item lines (colon-free command and flags, any title), separator lines and others: exactly the printed items in order, a d in the flags disabling them, one separator between two of them if and only if a separator line is between their lines. Equally the layout of the item lines. |
| `MenuList.NormalisedIsMenu` | shell_integration/windows/socketclient.cpp:66-82 | The same of the specification: the menu of any printed lines is what they mean, stated on the printed lines alone. |
| `MenuList.EveryReplyIsPrinted` | shell_integration/windows/socketclient.cpp:197-210 | Every reply can be read as such lines, so the previous rows cover all replies. |
| `MenuList.NormalisedIsReference` | shell_integration/windows/socketclient.cpp:197-214 | Separator normalisation equals that reference for all reply lines. |
| `MenuList.PositionsExactly` | shell_integration/windows/socketclient.cpp:197-203 | The reference is built on exactly the lines that carry an item, each once, in order. |
| `MenuList.MenuIsWellSeparated` | shell_integration/windows/socketclient.cpp:204-213 | No menu has a leading, trailing or adjacent separator. |
| `MenuList.EraseIsFusion` | shell_integration/windows/explorercommand.cpp:226-236 | Normalising separators and then erasing them is just reading the parsable MENU_ITEM lines in order. |
| `MenuList.NoiseIsIrrelevant` | shell_integration/windows/explorercommand.cpp:226-236 | Inserting or deleting separator, malformed or unrelated lines anywhere never changes what the cache stores. |
| `MenuList.AccumulatedIsPicture` | shell_integration/windows/socketclient.cpp:197-210 | The loop invariant: the list so far is the layout of the items seen, plus one separator if one is waiting for a next item. |
| `Wire.JoinFileNames` | shell_integration/windows/socketclient.cpp:54-64 | The joining loop loses leading empty names and joins all others with one record separator each. |
| `Wire.SentBytes` | shell_integration/windows/socketclient.cpp:54-64 | The bytes of a command are its UTF-8, 0x3A, the UTF-8 of the names from the first that is not empty with 0x1E between them, and 0x0A. |
| `Wire.SplitJoinedFiles` | shell_integration/windows/socketclient.cpp:54-64 | Joined names split back into the same list if and only if the list is not empty, no name holds a record separator, and the first name is not empty (or is the only one). |
| `Wire.ReceivedText` | shell_integration/windows/socketclient.cpp:132-137 | For any sent line the bytes read back as the decoded text of its pieces: one message for each line feed. |
| `Wire.FoldingCommutes` | src/gui/socketapi/socketapi.cpp:239-266 | For every stream: dropping a byte order mark, normalising each line to NFC before splitting it and upper-casing the command, as the client does, gives the split messages with command and files folded; NFC is any function that leaves the separators in place. |
| `Wire.ClientReadsCommand` | src/gui/socketapi/socketapi.cpp:239-266 | So the client reads a surviving command and selection as exactly one message, the folded command, without a byte order mark at its start, with the normalised files. |
| `Wire.InvokeRoundTrip` | shell_integration/windows/socketclient.cpp:238-250 | The bytes of a command are read back as exactly one message with exactly this command and these files if and only if the command is well-formed, free of colons and line feeds, and the selection survives joining and encoding. |
| `Wire.ParsedCommandSurvives` | shell_integration/windows/socketclient.cpp:66-82 | Every command parsed from a line of the pipe meets the condition of the previous row. |
| `Pipe.ReadLineRound` | shell_integration/windows/socketclient.cpp:147-153 | Without a line feed in the buffer: a read is appended exactly if it was issued, signalled in time, did not fail and brought something; otherwise there is no line and its bytes are gone. |
| `Pipe.ReadLineTakesFirstLine` | shell_integration/windows/socketclient.cpp:139-154 | Whatever the kernel does, a returned line is the decoded first line of the unread bytes, and exactly it and its line feed are gone. |
| `Pipe.ReadLineTakesFirstPiece` | shell_integration/windows/socketclient.cpp:139-154 | In text: the line is the first piece of the decoded stream, has no newline, and all other pieces are still unread. |
| `Pipe.DrainRefinesSplitting` | shell_integration/windows/socketclient.cpp:139-154 | Chunk independence of successive calls: lines returned so far followed by the unread pieces are the pieces of the whole stream, however it is cut. |
| `Pipe.DrainAccountsForBytes` | shell_integration/windows/socketclient.cpp:139-154 | The same in bytes: the lines with their line feeds, then the buffer, then what is not yet read, are all the bytes there were. |
| `Pipe.CollectedIsReply` | shell_integration/windows/socketclient.cpp:167-184 | Gap-freedom under faults: any list of lines that is returned is exactly the lines in front of the first end marker of the stream read in one go. |
| `Pipe.HealthyReadLine` | shell_integration/windows/socketclient.cpp:139-154 | Without faults a line is returned if and only if the stream has a line feed. |
| `Pipe.HealthyCollect` | shell_integration/windows/socketclient.cpp:167-184 | Refinement: without faults and with delays below the deadline, the incremental request returns the one-shot reply, for every cut of the stream; nothing if it has no end marker. |
| `Pipe.HealthyReplyIsReturned` | shell_integration/windows/socketclient.cpp:167-184 | If the reads up to the end marker are healthy and in time, the request returns the one-shot reply, whatever faults would come after the marker. |
| `Pipe.ReplyIsFinal` | shell_integration/windows/socketclient.cpp:167-184 | A reply that is returned does not depend on what the kernel would do with later reads. |
| `Pipe.ChunkIndependence` | shell_integration/windows/socketclient.cpp:156-185 | Two connections that carry the same bytes give the same reply, however they are cut and delayed; a faulty one gives that reply or none. |
| `Pipe.TimeoutsInRange` | shell_integration/windows/socketclient.cpp:168-175 | Every timeout passed to readLine is between 1 and the request timeout: no underflow, no narrowing. |
| `Pipe.ReadLineTime` | shell_integration/windows/socketclient.cpp:139-154 | One readLine call takes at most its own timeout for each read it waits for, plus the time of a cancellation; a rejected read is not waited for. |
| `Pipe.RequestTime` | shell_integration/windows/socketclient.cpp:168-184 | The whole loop, from any state with time left: it ends at most k - 1 times the timeout of the last readLine call after the deadline, k being the reads that call waited for, plus the time of its cancellation. |
| `Pipe.ReplyTime` | shell_integration/windows/socketclient.cpp:168-184 | From the send on: one request timeout and that excess, so at most max(1, k) request timeouts, k being the reads the last readLine waited for, plus the time of its cancellation. |
| `Pipe.RequestTimeoutIsKeptExactly` | shell_integration/windows/socketclient.cpp:168-184 | For reads of a given timing, whatever bytes they carry: the reply ends within the 2000 ms if and only if the waits and cancellations of the reads, up to the first one that brings nothing, together take no longer than that. |
| `Pipe.EndsInTime` | shell_integration/windows/socketclient.cpp:168-184 | From any state of the loop: if the reads still to come take no longer than what is left, the request ends by its deadline. |
| `Pipe.RequestTimeIsAttained` | shell_integration/windows/socketclient.cpp:149-153 | The 2000 ms can be exceeded by any number of them: the timeout is per read, and for every k there is a peer for which a reply takes exactly k request timeouts. |
| `SocketClients.SocketClient.Connect` | shell_integration/windows/socketclient.cpp:105-116 | The outcome, the time spent and the peer consumed, for absent, busy and unopenable pipes. |
| `SocketClients.SocketClient.CompleteIo` | shell_integration/windows/socketclient.cpp:118-130 | No overlapped operation is pending on return; success exactly if the operation was issued, ended in time and without error. |
| `SocketClients.SocketClient.SendLine` | shell_integration/windows/socketclient.cpp:132-137 | Success exactly if the kernel took every byte of the encoded line in time; the bytes it took are recorded. |
| `SocketClients.SocketClient.ReadNextLine` | shell_integration/windows/socketclient.cpp:139-154 | The loop computes the specified read for every behaviour of the kernel, never reuses a pending operation, and terminates. |
| `SocketClients.SocketClient.ReceiveLines` | shell_integration/windows/socketclient.cpp:167-184 | The loop of request computes the specified collection for every behaviour of the kernel, passes only timeouts that fit a DWORD, and terminates. |
| `SocketClients.SocketClient.Request` | shell_integration/windows/socketclient.cpp:156-185 | The static method computes the specified request, including the clock and the bytes sent. |
| `SocketClients.SocketClient.FetchMenuItems` | shell_integration/windows/socketclient.cpp:187-215 | The result and the effects of fetchMenuItems; nothing is sent for an empty selection. |
| `SocketClients.SocketClient.FetchStrings` | shell_integration/windows/socketclient.cpp:217-236 | The result and the effects of fetchStrings. |
| `SocketClients.SocketClient.SendCommand` | shell_integration/windows/socketclient.cpp:238-250 | The result and the effects of sendCommand. |
| `Requests.RequestIsExact` | shell_integration/windows/socketclient.cpp:156-185 | A request returns the peer's reply or nothing, and the reply whenever the peer takes the request in time and sends its reply without faults or long delays. |
| `Requests.RequestEnds` | shell_integration/windows/socketclient.cpp:156-184 | When the clock stands after a request: when its collection ends if the whole line was taken, otherwise before a reply is awaited. |
| `Requests.RequestSendsOneLine` | shell_integration/windows/socketclient.cpp:132-166 | One connection per request, never more than a prefix of its one line on the wire, and no reply unless the whole line was taken. |
| `Requests.RequestDuration` | shell_integration/windows/explorercommand.cpp:255-261 | How long a request can hold up a caller: the connect, write and request timeouts, k - 1 times the timeout of the last readLine call, and cancellations. |
| `Requests.FetchedMenuIsReference` | shell_integration/windows/socketclient.h:38-42 | The menu is the reference menu of the reply or empty; empty if the client does not listen; exactly the reference if it answers. |
| `Requests.FetchedMenuIsPrinted` | shell_integration/windows/socketclient.cpp:187-215 | If the peer prints a menu and GET_MENU_ITEMS:END, what comes back is that menu or nothing, and that menu whenever it answers GET_MENU_ITEMS: with the files. |
| `Requests.FetchedStringsAreReplied` | shell_integration/windows/socketclient.cpp:217-236 | The strings are those of the lines in front of GET_STRINGS:END or none, and those whenever the peer answers GET_STRINGS:. |
| `Requests.StringRequestArrives` | shell_integration/windows/socketclient.cpp:217-222 | Whenever the strings are answered the client read exactly one GET_STRINGS without an argument. |
| `Requests.CommandIsSentExactly` | shell_integration/windows/socketclient.cpp:238-250 | A command is sent exactly if a pipe is free within 100 ms, opens, and takes every byte within a second; then the wire holds the whole line. |
| `Requests.MenuCommandsSurvive` | shell_integration/windows/socketclient.cpp:187-215 | Every command a fetched menu holds is one the peer reads back. |
| `Requests.MenuRequestArrives` | shell_integration/windows/socketclient.cpp:187-195 | Whenever a menu request is answered, even without items, the client was asked about exactly the selection if and only if the selection survives joining and encoding. |
| `Requests.InvokedItemArrives` | shell_integration/windows/socketclient.cpp:238-250 | From menu to message: a successfully sent item of a fetched menu is read as its command and the selection if and only if the selection survives. |
| `MenuCaches.MenuCache.MenuItems` | shell_integration/windows/explorercommand.cpp:217-237 | The cache, the answer and the requests of one call; a hit leaves cache and wire alone. |
| `MenuCaches.MenuCache.String` | shell_integration/windows/explorercommand.cpp:239-253 | The strings, the answer and the requests of one call. |
| `MenuCaches.FetchedItems` | shell_integration/windows/explorercommand.cpp:226-236 | What a request leaves in the cache is the item lines of the peer's reply, or nothing. |
| `MenuCaches.FetchedItemsArePrinted` | shell_integration/windows/explorercommand.cpp:226-236 | In terms of printed lines: what a request leaves in the cache is the printed items in order, or nothing. |
| `MenuCaches.CacheHoldsLastSelection` | shell_integration/windows/explorercommand.h:33-37 | After any run the cache holds the last non-empty selection; before the first one it is unset. |
| `MenuCaches.RequestsAreChanges` | shell_integration/windows/explorercommand.cpp:217-237 | Over any serialised run the client is asked about exactly the non-empty selections without immediate repetitions, in order; as many requests as changes, the first one counting. |
| `MenuCaches.FailureIsKept` | shell_integration/windows/explorercommand.cpp:226-236 | If the request fails in any way when a selection is first asked for, every call for it receives an empty menu without a further request, whatever the client would answer by then. |
| `MenuCaches.CacheIsLastRequest` | shell_integration/windows/explorercommand.cpp:217-237 | What is cached is what the last request returned, for its selection. |
| `MenuCaches.AnswerWasFetchedForSelection` | shell_integration/windows/explorercommand.h:20-24 | A non-empty selection receives separator-free items that a request for exactly this selection returned, its own or the last one. |
| `MenuCaches.EmptySelectionChangesNothing` | shell_integration/windows/explorercommand.cpp:221-224 | An empty selection receives the last stored items, or none, and leaves the cache as it is. |
| `MenuCaches.CacheIsTransparent` | shell_integration/windows/explorercommand.h:20-24 | While the client's answer depends on the selection alone, cached and uncached answers agree. |
| `MenuCaches.SameSelectionSameAnswer` | shell_integration/windows/explorercommand.h:20-24 | While the selection stays, every call receives the same items without a further request. |
| `MenuCaches.StringsAreFirstProvided` | shell_integration/windows/explorercommand.cpp:242-252 | In any run a query sends a request if and only if none before it was answered with strings, and from the first ones provided on every lookup is answered from those; before, with the empty text. |
| `CacheThreads.RunKeepsInvariant` | shell_integration/windows/explorercommand.cpp:217-237 | Over every interleaving of every step of any number of threads: mutual exclusion, and agreement of the shared fields, the answers and the requests with the sequential cache. |
| `CacheThreads.Linearizable` | shell_integration/windows/explorercommand.cpp:219-237 | Every answer equals that of the sequential cache run in lock order. |
| `CacheThreads.ReturnedComesFirst` | shell_integration/windows/explorercommand.cpp:219-237 | That order respects real time: what had returned at any moment of a run comes before all other calls. |
| `CacheThreads.EveryCallIsAnswered` | shell_integration/windows/explorercommand.cpp:217-237 | Every thread is answered for the selections it asked for, in its own order; at most its last call is not answered yet. |
| `CacheThreads.RepliesAreUsed` | shell_integration/windows/explorercommand.cpp:225-236 | The sequential run is made of exactly the replies the client gave, in order, and the one the holder of the lock has received. |
| `CacheThreads.OneRequestInFlight` | shell_integration/windows/explorercommand.cpp:219-226 | No two threads are ever in a menu request at once. |
| `CacheThreads.AnswersAreForTheSelection` | shell_integration/windows/explorercommand.cpp:219-237 | In every run a non-empty selection receives, without separators, the client's reply to a recorded request for exactly that selection. |
| `CacheThreads.RequestsSent` | shell_integration/windows/explorercommand.cpp:219-226 | In every run the requests sent are, in order, the selections in lock order without immediate repetitions, then the one of a call that has not returned. |
| `CacheThreads.SomeCallProceeds` | shell_integration/windows/explorercommand.cpp:219-237 | No deadlock: while a call is running some running call can make a step. |
| `StringThreads.Linearizable` | shell_integration/windows/explorercommand.cpp:239-253 | Over every interleaving of any number of threads, each string lookup is answered from the client's first reply that has strings, or empty before it, in lock order. |
| `StringThreads.ReturnedComesFirst` | shell_integration/windows/explorercommand.cpp:239-253 | That order respects real time. |
| `StringThreads.EveryCallIsAnswered` | shell_integration/windows/explorercommand.cpp:239-253 | Every thread is answered for the keys it asked for, in its own order. |
| `StringThreads.OneRequestInFlight` | shell_integration/windows/explorercommand.cpp:239-245 | No two threads are ever in a string request at once; the lock is not that of the menu, so there is at most one request of each kind. |
| `StringThreads.RequestsStop` | shell_integration/windows/explorercommand.cpp:242-245 | In every run one request is sent for each call up to and with the first one that is provided with strings, and none after it. |
| `Explorer.FilePaths` | shell_integration/windows/explorercommand.cpp:25-53 | The paths of all items, or none as soon as one item is not in the file system. |
| `Explorer.SubCommand.ItemFor` | shell_integration/windows/explorercommand.cpp:136-143 | The item of the slot for the selection, and the effects on cache and client. |
| `Explorer.SubCommand.GetTitle` | shell_integration/windows/explorercommand.cpp:55-79 | The whole title of the slot's item; a failure and no text exactly if there is no item or its title is empty. |
| `Explorer.SubCommand.GetState` | shell_integration/windows/explorercommand.cpp:99-104 | Hidden without an item, otherwise enabled as the item is. |
| `Explorer.SubCommand.Invoke` | shell_integration/windows/explorercommand.cpp:106-120 | Sends the command of the slot's item with the selection, and nothing without files or an item; success exactly if it was sent. |
| `Explorer.ExplorerCommand.GetState` | shell_integration/windows/explorercommand.cpp:255-261 | The root is hidden exactly if the menu of the selection is empty. |
| `Explorer.ExplorerCommand.GetTitle` | shell_integration/windows/explorercommand.cpp:193-196 | The client's string for CONTEXT_MENU_TITLE, requested if there are none yet; a failure if it is missing or empty. |
| `Explorer.ExplorerCommand.GetIcon` | shell_integration/windows/explorercommand.cpp:198-202 | The same for CONTEXT_MENU_ICON. |
| `Explorer.ExplorerCommand.EnumSubCommands` | shell_integration/windows/explorercommand.cpp:277-295 | Either 16 slots with indices 0 to 15 over the one cache and a cursor at the start, or out of memory and nothing. |
| `Explorer.VisibleSlots` | shell_integration/windows/explorercommand.cpp:99-104 | With n items exactly slots 0 to min(16, n) - 1 are visible, enabled as their items are; the root is hidden if and only if every slot is. |
| `Explorer.SlotsAgree` | shell_integration/windows/explorercommand.h:20-24 | Any sequence of state queries for one selection sees one menu, and only the first may send a request. |
| `Explorer.ShownItemWasPrinted` | shell_integration/windows/explorercommand.cpp:74-104 | Over every run of the cache, what a slot shows for a selection stands on a MENU_ITEM line the client sent for exactly this selection: its title, its command, and enabled unless the flags hold a d. |
| `Explorer.InvokeSendsShownItem` | shell_integration/windows/explorercommand.cpp:106-120 | For any cache: invoking a slot after its menu was shown, from the cache or by a request, asks for no menu again and sends the command of the item shown there; a hidden slot or an empty selection sends nothing. |
| `Explorer.ShownItemArrives` | shell_integration/windows/explorercommand.cpp:106-120 | Over every run of the cache: if that succeeds, the client reads exactly that command and the selection if and only if the selection survives. |
| `Enumerators.EnumCommands.Next` | shell_integration/windows/explorercommand.cpp:157-167 | Fills the array with the next commands and leaves the rest alone; S_OK exactly if the full count was served. |
| `Enumerators.EnumCommands.Skip` | shell_integration/windows/explorercommand.cpp:169-174 | Moves the cursor, not past the end; S_OK exactly if the full count was skipped. |
| `Enumerators.EnumCommands.Reset` | shell_integration/windows/explorercommand.cpp:176-180 | Back to the first command. |
| `Enumerators.ExecuteAll` | shell_integration/windows/explorercommand.cpp:157-180 | Any sequence of calls on the class leaves the cursor, delivers the commands, and returns S_OK exactly as the runs of the next rows say. |
| `Enumerators.DeliveredInOrder` | shell_integration/windows/explorercommand.cpp:157-180 | Over any sequence of calls, what was delivered since the last Reset is in order and exactly what lies before the cursor and was not skipped; the cursor stays within bounds. |
| `Enumerators.ShortCallsReachTheEnd` | shell_integration/windows/explorercommand.cpp:157-174 | A call is S_OK exactly if the cursor moved by the full count; otherwise it is at the end. |
| `Enumerators.SkipsCompose` | shell_integration/windows/explorercommand.cpp:169-174 | Skip(a) then Skip(b) is Skip(a + b), in state and in outcome. |
| `Enumerators.NothingIsLost` | shell_integration/windows/explorercommand.cpp:157-180 | Once the end is reached, every command was delivered or skipped. |
| `Accounts.AccountManager.AddAccountState` | src/gui/accountmanager.cpp:283-293 | Inserts under the account's uuid and keeps keys equal to uuids. |
| `Accounts.AccountManager.SaveAccount` | src/gui/accountmanager.cpp:168-203 | Writes exactly the fields of the account to its array entry and touches no other entry. |
| `Accounts.AccountManager.Save` | src/gui/accountmanager.cpp:160-207 | Whatever array the settings held, a later start would restore exactly what is in memory, as far as it is durable; other settings are kept. The order of writing does not matter. |
| `Accounts.AccountManager.Restore` | src/gui/accountmanager.cpp:97-158 | The loop adds every readable entry in order. |
| `Accounts.AccountManager.DeleteAccount` | src/gui/accountmanager.cpp:244-266 | Removes the account, and the stored array matches memory; an unknown account changes nothing. |
| `Accounts.RestoredExactly` | src/gui/accountmanager.cpp:105-154 | For any array: an account is restored if and only if some entry with a url provides its uuid, and the last such entry decides. |
| `Accounts.RestoringStoredAccounts` | src/gui/accountmanager.cpp:97-207 | Restoring a stored array into an empty manager gives the same accounts, as durable as they are. |
| `Accounts.WhatSurvives` | src/gui/accountmanager.cpp:111-149 | Uuid, url, display name, sync root, approved certificates and sign-out come back as they were, a client certificate only with an RSA or EC key, and every capability, with the mark cached. |
| `Accounts.StoredFields` | src/gui/accountmanager.cpp:168-203 | Which value an entry holds under which key, and which keys are left out. |
| `Accounts.EntryCountsExactly` | src/gui/accountmanager.cpp:108-115 | An entry is restored exactly if it has a url, under its uuid, or the one created for it if it has none. |
| `Accounts.DurableExactly` | src/gui/accountmanager.cpp:129-149 | All fields but the capabilities survive if and only if a client certificate comes with a key that is recognised on restore; a second round changes nothing. |
| `Accounts.Restart` | src/gui/accountmanager.cpp:97-207 | Saving and restoring in a new manager gives the durable accounts, which are stable from then on. |
| `ReleaseConfig.CompareIsPrecedence` | release-config.ts:86-112 | On tags with three numbers the comparator is negative, zero or positive exactly as in items 2 and 3 of section 11 of Semantic Versioning 2.0.0. |
| `ReleaseConfig.CompareIsTotalPreorder` | release-config.ts:86-112 | Reflexive, sign-antisymmetric, transitive and total. |
| `ReleaseConfig.CompareIsNaNExactly` | release-config.ts:86-112 | For all parsed versions, also of malformed tags: the result is no number if and only if the first difference is not between two numbers. |
| `ReleaseConfig.CompareReflexiveExactly` | release-config.ts:86-112 | A parsed version is equal to itself if and only if none of its numbers is unreadable. |
| `ReleaseConfig.WellFormedTagIsProper` | release-config.ts:66-71 | Digits separated by dots, with or without the v or a pre-release, are parsed into their values; of a pre-release the part before its first hyphen is kept. |
| `ReleaseConfig.TagIsProperExactly` | release-config.ts:66-71 | Of any tag: it has three readable numbers exactly if in front of the first hyphen it has at least three pieces between dots and the first three are digits. |
| `ReleaseConfig.PrintedTagIsParsed` | release-config.ts:66-71 | The tag printed for three numbers and a pre-release is parsed back into them if and only if the pre-release has no hyphen. |
| `ReleaseConfig.FilterKeepsSorted` | release-config.ts:49-53 | Filtering sorted tags by a prefix keeps them sorted. |
| `ReleaseConfig.GetLatestTag` | release-config.ts:39-57 | On proper tags, for any sorting of them: v0.0.0 without v-tags; otherwise a greatest tag of those with the stable branch's prefix if there are any, of all v-tags if there are none. |
| `ReleaseConfig.LatestTagIsGreatest` | release-config.ts:39-57 | The candidates are exactly those tags, and the last one is a greatest. |
| `ReleaseConfig.StableTagsExactly` | release-config.ts:46-49 | The filter of branch stable-M.m admits exactly major M and every minor number that begins with the digits of m, whatever follows, so on stable-1.2 also 1.20.0 and 1.20.0-rc.1. |
| `ReleaseConfig.UseLatestRelease` | release-config.ts:58-63 | On proper tags, for any sorting of them: true exactly if the release is newer than every v-tag and one step after a greatest one; without v-tags, after 0.0.0. |
| `ReleaseConfig.MarkedAsLatestExactly` | release-config.ts:58-63 | The comparison gives -1 exactly if the second version is newer and the first number that differs is one more. |
| `ReleaseConfig.NewerIsNotAlwaysMarked` | release-config.ts:58-63 | A release newer than every tag that is not marked: 3.0.0 with the one tag v1.0.0. |
| `CmdSync.Journal.SelectiveSyncFixup` | src/cmd/cmd.cpp:116-134 | Stores the new list and schedules each path whose membership changes once, in any order; an unreadable journal is left alone. |
| `CmdSync.ReadFolders` | src/cmd/cmd.cpp:146-157 | The filtered and edited lines are exactly the folders the text names: lines neither blank nor comments, each with one closing slash added if it has none. |
| `CmdSync.FoldersExactly` | src/cmd/cmd.cpp:146-157 | Stated on characters: a folder is read exactly if some line does not begin with #, has a character other than space and U+0009 to U+000D, and is that folder with or without its closing slash. |
| `CmdSync.OnlyFoldersAreRead` | src/cmd/cmd.cpp:146-157 | Whatever the file holds, every name read is free of line feeds, no comment, not blank, and ends with a slash. |
| `CmdSync.FoldersRoundTrip` | src/cmd/cmd.cpp:146-157 | Any such names, written one a line between blank lines and comments, are read back exactly. |
| `CmdSync.PrepareJournal` | src/cmd/cmd.cpp:139-166 | What a sync does to the journal before it starts; a file that names no folder, or that cannot be opened, leaves it alone. |
| `CmdSync.ScheduledAsOftenAsFlipped` | src/cmd/cmd.cpp:116-134 | Conservation: over any sequence of fixups a path is scheduled exactly as often as its membership flips. |
| `CmdSync.StoredListIsLastGiven` | src/cmd/cmd.cpp:116-134 | The stored list is the last one that could be stored. |
| `CmdSync.Engine.Finished` | src/cmd/cmd.cpp:173-191 | One outcome: failure, restart, giving up, or quitting. |
| `CmdSync.SyncsExactly` | src/cmd/cmd.cpp:173-191 | Over any sequence of outcomes: exactly how many syncs are started, and exactly when the program fails, quits or gives up without ending. |
| `CmdSync.RestartsAreBounded` | src/cmd/cmd.cpp:173-191 | At most 1 + max(0, restartTimes) syncs, and quitting only after a success that needs no other. |
| `HttpLog.ParseLog` | admin/logging/parse_http_logs.py:60-81 | The loop computes the merged log, or stops at a payload it cannot use. |
| `HttpLog.StopsExactly` | admin/logging/parse_http_logs.py:60-81 | It stops if and only if some record has a payload that is not shaped as expected. |
| `HttpLog.EntryIsProjection` | admin/logging/parse_http_logs.py:76-80 | However the lines are interleaved, an id has an entry exactly if it has a decodable line, and the entry is its own last request and last response. |
| `HttpLog.EntryIsLast` | admin/logging/parse_http_logs.py:76-80 | The entry of an id is what the last of its request lines and the last of its response lines say. |
| `HttpLog.OthersDoNotMatter` | admin/logging/parse_http_logs.py:60-81 | Merging an id's own lines alone gives the same entry. |
| `HttpLog.KeysInOrder` | admin/logging/parse_http_logs.py:76 | The keys are the ids with a decodable line, each once, in the order of their first ones. |
| `HttpLog.CountFlows` | admin/logging/parse_http_logs.py:186-194 | The number of flows is the number of ids that have a REQUEST record. |
| `HttpLog.RequestIsExtracted` | admin/logging/parse_http_logs.py:84-94 | Of any payload: it can be used as a request exactly if it, its request, and that one's info and body are objects as far as they are there; then each field is what stands at its place, or its default. |
| `HttpLog.ResponseIsExtracted` | admin/logging/parse_http_logs.py:97-113 | The same for a response with the status and version of its reply. |
| `HttpLog.RequestIsReadBack` | admin/logging/parse_http_logs.py:84-94 | A logged request is read back field by field if and only if falsy headers are an empty object and falsy data is an empty text; an empty payload is a GET without contents. |
| `HttpLog.ResponseIsReadBack` | admin/logging/parse_http_logs.py:97-113 | A logged response is read back, status and normalised version in their places, if and only if falsy headers are an empty object and falsy data is an empty text; an empty payload is a 200 with HTTP/1.1. |
| `HttpLog.VersionIsNormalised` | admin/logging/parse_http_logs.py:102-105 | Of every version text: unless it is empty or begins with HTTP/, that and what follows its last space, with .0 if it has no dot; normalising again changes nothing. |
| `HttpLog.VersionOfOthers` | admin/logging/parse_http_logs.py:102-105 | A version that is no text stays if it is falsy, and stops the program otherwise. |

## Left out

- Scripts are finite: a peer that never stops sending is covered up to any finite number of reads, not in the limit.
- Real Win32 and COM calls (handles, security, `SHStrDupW`, foreground rights, reference counts, logging): only bytes, timeouts, failures and the clock are kept. Milliseconds are unbounded, so is the size of a conversion (the source casts it to `int`).
- Malformed UTF-8: each byte that begins no well-formed sequence becomes one U+FFFD. How many Windows emits for a longer malformed sequence is not documented; no statement about well-formed text or about line feeds depends on it.
- Wire.InvokeRoundTrip: compares what is read before the client drops a byte order mark, normalises to NFC and upper-cases the command; `Wire.ClientReadsCommand` says what is read after that, for any such functions. Their tables are not modelled.
- The server side beyond reading a line (dispatch, building menus and strings) is not modelled.
- Waiting for the lock is not fair in the model: a thread may wait forever while others are served.
- `GetFlags`, `GetToolTip`, `GetCanonicalName`, `Clone`, the icon of the sub commands, the root `Invoke`: constants.
- Accounts: urls, certificates and capabilities are kept as they are by the settings; PEM and url codecs, credentials, folder marking and the signals are left out. `QMap` writes in uuid order; the model allows any order.
- ReleaseConfig.CompareIsPrecedence: pre-releases are compared by `localeCompare`, a collation given as a key, so item 4 of section 11 of Semantic Versioning 2.0.0 is not claimed; it is taken to return -1, 0 or 1. Numbers are unbounded.
- ReleaseConfig.CompareIsNaNExactly: speaks of parsed versions; texts such as 1e3 or 0x10, which JavaScript reads as numbers, are parsed as unreadable here, so v1e0.0.0 is ordered by the code and not by the model.
- ReleaseConfig.LatestTagIsGreatest: running git and the sort itself are left out; any sorted permutation of the v-tags is allowed, and all of them must be proper, since the comparator is no order otherwise.
- Exclude lists, network limits and the remaining options of the command-line client; its file of unsynced folders is its decoded text.
- The journal is its black list and a log of scheduled paths; the sync engine is its outcomes.
- Matching log lines, decoding JSON and time stamps, and writing HTML or mitmproxy files.
