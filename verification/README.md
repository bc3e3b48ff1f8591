# A verified model of the POP3 server and its monitoring protocol

The server is one process with one thread. `select` reports descriptors that are ready, a dispatcher calls their handlers,
and a table of states decides what a session does next. The model follows those layers, one module for each:

- `Buffers` (Buffer.dfy): the byte buffer with its read and write pointers over one array, against a queue.
- `Tokenizer`: the transition table of the command parser and its truncating actions, against "lines end at CR LF, words at
  spaces" on whole streams.
- `Terminator`: the automaton that looks for the end of a mail.
- `Monitor`, `MonitorClient`, `MonitorResponse`: the parser of the monitoring protocol against a grammar that judges whole
  streams, the client's serializer, and the way back.
- `Selector`: the growable table of descriptors, its two derived sets and maximum, and the dispatch with callbacks that may
  change the table while it is walked.
- `Registry` and `Connections`: the two linked lists.
- `Maildrop`, `Numbers`, `Commands`: mailbox, marks and counters; what each command does and answers.
- `Mailbox`, `Batches`: what STAT, LIST, RETR, DELE and RSET say, told from the history; a batch against its commands one by
  one.
- `Session`: a session as a machine over events. An event says which descriptor is ready and what the system call then
  gives: how many octets of which content were read, how many of the pending ones were sent, or an error.
- `SessionInvariant`, `Login`, `Bypass`, `Deletion`, `Pipelining`, `StateTrace`, `Transfer`: what holds of all runs of that
  machine.
- `Dialogue`: each command by its name, what it does told from the history, and its reply read back as words and numbers.
- `Liveness`: no session is stuck, and every mail whose end is recognised can be delivered.
- `Lifetime`: all sessions of the server together, and the list of connections that is to follow them.
- `Pop3Server` (Pop3.dfy): the handlers as the code has them, one object updated in place over arrays, buffers, the
  tokenizer and the list of users. `Pop3Read` and `Pop3Write` are proved to be the step of the machine, so what is proved
  of runs is proved of them.

A session carries a log of what its observers can tell later: states arrived in, logins, loads of the mailbox, marks, removed
files. It plays no part in what the session does.

## What the code does other than one would expect

The members named state the exact condition, or an input that shows it.

- A mail is recognised to end only if the automaton is in its start state before CR LF . CR LF: one blank line in front
  hides the terminator (`Terminator.RecognisedIffAtStart`, `BlankLineHidesTerminator`), and since the automaton is reset
  whenever READING_MAIL is entered, a terminator cut by the boundary of two chunks is not seen either
  (`Transfer.CutTerminatorIsMissed`). A file in which none is recognised never brings the session
  back to TRANSACTION (`Transfer.RetrSendsThroughTerminator`).
  No dot is ever doubled: the byte-stuffing of section 3 of RFC 1939 is not what `byte_stuffer` does.
- The send after the end of a mail drops what it did not take (`Transfer.EndConservesExactly`). What is read before that send
  is copied behind the end, and if it begins with LF the terminator itself is damaged (`Transfer.ReadConservesExactly`).
- `pop3_close` destroys a session only while `done` is 0. A client that leaves, or sends anything, between the end of a mail
  and the send behind it ends its session with `done` set if the file has nothing more (`Lifetime.EndsDoneExactly`,
  `GoneIsLost`): the socket is closed, but list and live counter keep the connection (`Lifetime.ListIsLiveExactly`). When the
  descriptor is given out again the list has it twice, and destroying the new session frees the old connection
  (`Connections.DestroyedExactly`, `ReusedDescriptor`).
- What is pending when a session ends is never sent. QUIT in AUTH, and RETR of a file that does not open, close at once: the
  responses to all commands sent with them are lost, although piecemeal they may have been sent
  (`Pipelining.EndingBatchIsUnanswered`, `QuitIsUnanswered`). In UPDATE the first send ends the session, whatever it leaves
  (`Pipelining.UpdateSendsOnce`).
- PASS before USER returns the status of its write as a state: with a full buffer the session gets past AUTH
  (`Login.BypassExactly`), and a client can bring that about; when that session ends, a descriptor stays registered for it
  though it is gone (`Bypass.BypassReachable`).
- Only four octets of the first word count: any word that begins with the four letters of a command is that command
  (`Tokenizer.WordsAreKept`).
- A command that stays in its state returns the state in which its batch came: after a login in the middle of a batch it
  takes the session back to AUTH (`Batches.BatchAgreesExactly`). Marks set by then meet the mailbox of whoever logs in next
  (`Deletion.SecondUserLosesMail`).
- The answer to RSET counts what the last load left, and knows of one message before any load (`Mailbox.ResetReplyExactly`).
  RSET clears the marks up to the last index loaded only (`Mailbox.StatAfterResetExactly`).
- `LIST n` with n beyond the last message looks at what lies behind the arrays and answers twice
  (`Dialogue.ListOneExactly`).
- A read handler that makes the descriptor table grow leaves the dispatch with a pointer into the old table
  (`Selector.DeterminedExactly`, `GrowthLosesWrite`, `GrowthMakesUnsafe`).
- A descriptor equal to the size of the table is not covered by the growth test (`Selector.RegisterIndexesItsSlot`,
  `ServerMisses513`).
- `unregister_user` drops the new head (`Registry.UnregisterUser`). The functions that return the head are right.
- An add request of the monitoring protocol without separator is accepted (`Monitor.AddForms`), although section 1.f of its
  document has one. At a declared length of 0 the buffer size accepts any octet.
- The client lets names of five octets through, the server has room for four and a terminator
  (`MonitorClient.RoundTrip`).
- The number of octets a response handler reports is right only for the lengths its callers use
  (`MonitorResponse.ReturnCountsOctets`).

## Model

| member | source | states |
|---|---|---|
| Buffers.Buffer.constructor | src/server/buffer.c:18-23 | a buffer starts empty over its whole array |
| Buffers.Buffer.Reset | src/server/buffer.c:11-16 | everything stored is forgotten, the limit stays |
| Buffers.Buffer.CanWrite | src/server/buffer.c:25-29 | true exactly when there is room for an octet |
| Buffers.Buffer.CanRead | src/server/buffer.c:39-43 | true exactly when an unread octet is there |
| Buffers.Buffer.WritePtr | src/server/buffer.c:31-37 | where the next octet goes and how many fit behind it |
| Buffers.Buffer.ReadPtr | src/server/buffer.c:45-51 | the octets at the pointer given, as many as announced, are the unread ones |
| Buffers.Buffer.CopyIn | src/server/pop3nio.c:322-324 | writing through the pointer given changes nothing that was stored |
| Buffers.Buffer.WriteAdv | src/server/buffer.c:53-61 | the octets behind the write pointer are appended; a negative count changes nothing |
| Buffers.Buffer.ReadAdv | src/server/buffer.c:63-77 | consumes from the front, compaction of a drained buffer included; a negative count changes nothing |
| Buffers.Buffer.Read | src/server/buffer.c:79-93 | gives and consumes the first unread octet; 0 and no change when there is none |
| Buffers.Buffer.Write | src/server/buffer.c:95-103 | appends the octet if there is room, loses it otherwise |
| Buffers.Buffer.Compact | src/server/buffer.c:105-123 | the unread octets move to the front of the array and stay the same |
| Buffers.Buffer.DeleteN | src/server/buffer.c:125-127 | takes the last n octets back |
| Buffers.RefinesStep | src/server/buffer.c:11-127 | each operation, seen from an unbounded queue, appends, consumes, retracts, empties or does nothing; compaction does nothing |
| Buffers.BufferIsFifo | src/server/buffer.c:11-127 | over every sequence of operations meeting their preconditions, resets included, read <= write <= limit, and the unread octets are those accepted minus those consumed or cleared minus those retracted, only puts at a full buffer being lost |
| Buffers.PutLostOnlyWhenFull | src/server/buffer.c:95-103 | an octet is appended if and only if there is room, and lost if and only if there is none |
| Terminator.ByteStuffer | src/server/pop3nio.c:358-385 | the next automaton state and whether the octet completes the terminator |
| Terminator.StateIsMatchedPrefix | src/server/pop3nio.c:358-385 | before a match, state k says that the last k octets are the first k of CR LF . CR LF |
| Terminator.StateContinuesPrefix | src/server/pop3nio.c:358-385 | the same when the automaton starts in any state in the middle of a stream |
| Terminator.MatchIsSound | src/server/pop3nio.c:374-378 | a match is reported only when the last five octets are the terminator |
| Terminator.MatchContinuesPrefix | src/server/pop3nio.c:374-378 | the same across the octets that went before a chunk |
| Terminator.RecognisedIffAtStart | src/server/pop3nio.c:358-385 | an occurrence of the terminator no match precedes is recognised if and only if the automaton enters it in its start state |
| Terminator.RecognisedAfterPlainOctet | src/server/pop3nio.c:358-385 | so it is at the start of input and behind any octet but CR, LF and the dot |
| Terminator.EndOfMail | src/server/pop3nio.c:358-385 | a mail of lines ends exactly at the first lone dot preceded by an even number of blank lines (an odd number if nothing but blank lines precedes), and nowhere if there is none |
| Terminator.PrimedByParity | src/server/pop3nio.c:358-385 | the state between lines depends only on the parity of the blank lines before it |
| Terminator.BlankLineHidesTerminator | src/server/pop3nio.c:358-385 | text, one blank line and the lone dot: the mail ends there by section 3 of RFC 1939 and the code does not see it |
| Terminator.CutIsMissed | src/server/pop3nio.c:299-310 | a terminator in two pieces, each looked at from the start state as READING_MAIL does, is seen in neither |
| Tokenizer.SplitIsSplit | src/server/tokenizer.c:16-71 | the words are the text cut at its spaces: no word holds one and joined again they are the text |
| Tokenizer.SplitOfJoin | src/server/tokenizer.c:16-71 | and it is the inverse of joining: words without spaces, joined, are given back |
| Tokenizer.WordsAreKept | src/server/tokenizer.c:136-173 | words with single spaces between them are understood as these words: the first up to 4 octets, two arguments up to 40 each, an empty one being none |
| Tokenizer.CutIsCut | src/server/tokenizer.c:73-108 | lines end exactly at the CR LF pairs of the stream: glued together they are the stream, and none contains one |
| Tokenizer.CutSplit | src/server/parser.c:58-98 | cutting a stream in two places is cutting it once, the unfinished line being all that is carried over |
| Tokenizer.RowMeaning | src/server/tokenizer.c:10-108 | which transition of each state is the first to match each octet |
| Tokenizer.FeedStep | src/server/tokenizer.c:10-171 | one octet takes the fields from those of a line to those of the longer line, or to a completed command exactly at CR LF: the first word cut to 4 octets, two more cut to 40 and absent if empty, later words ignored |
| Tokenizer.Parser.constructor | src/server/parser.c:40-51 | a new parser is at the start of a line |
| Tokenizer.Parser.Store | src/server/tokenizer.c:137-171 | an octet goes to the word if it has not reached its capacity |
| Tokenizer.Parser.Act | src/server/tokenizer.c:120-171 | the action of a transition, and that only the last one completes a command |
| Tokenizer.Parser.Pick | src/server/parser.c:69-96 | the scan finds the first transition that matches |
| Tokenizer.Parser.Feed | src/server/parser.c:58-98 | a command is completed at CR LF and only there, and is the meaning of the line; every other octet extends the line |
| Tokenizer.Parser.Restart | src/server/tokenizer.c:173-186 | nothing of a command is carried over into the next line |
| Tokenizer.Advance | src/server/pop3nio.c:330-342 | one octet of the reading loop: the command of the line it ends, or none |
| Tokenizer.Tokenize | src/server/pop3nio.c:328-350 | a chunk gives the commands of the lines it ends and leaves the unfinished line |
| Tokenizer.TokenizeStream | src/server/pop3nio.c:328-350 | for every stream and every chunking the commands are those of the lines of the whole stream, in order |
| Monitor.Absorbing | src/server/monitor.c:399-406 | what follows a finished or an error state changes nothing |
| Monitor.CompleteLength | src/server/monitor.c:86-185 | a GET finishes at octet 19, a CONFIG at 21 and its declared length, at least one octet of data |
| Monitor.AddForms | src/server/monitor.c:193-279 | an add request is accepted exactly with a name alone, or a name, a NUL and a secret, all alphanumeric |
| Monitor.RequestExactly | src/server/monitor.c:53-358 | the octets at which the parser finishes are exactly the requests of section 1 of the protocol: version 1, 16 octets of token, GET of one of three counters, or one of six configurations with as many octets of data as declared, each kind in its own alphabet |
| Monitor.RefusedExactly | src/server/monitor.c:53-358 | a stream is refused if and only if no request begins with it |
| Monitor.RefusedField | src/server/monitor.c:53-358 | which error: that of the first field that is wrong, in the order of the stream |
| Monitor.FieldInMemory | src/server/monitor.c:280-358 | after a request other than an add the memory holds the data and a terminator |
| Monitor.DataStep | src/server/monitor.c:187-360 | the verdict on one more octet of data |
| Monitor.Parser.constructor | src/server/monitor.c:15-19 | a new parser has seen nothing |
| Monitor.Parser.ParseVersion | src/server/monitor.c:44-59 | the verdict on the stream with the first octet, and the fields for it |
| Monitor.Parser.ParseToken | src/server/monitor.c:61-69 | the token holds the octets seen of it |
| Monitor.Parser.ParseType | src/server/monitor.c:71-84 | the verdict on the method octet |
| Monitor.Parser.ParseTarget | src/server/monitor.c:86-134 | the verdict on the target octet; a GET is finished by it |
| Monitor.Parser.ParseDlen | src/server/monitor.c:142-185 | the declared length is the big-endian value of its two octets |
| Monitor.Parser.StorePair | src/server/monitor.c:193-226 | an octet of an add request is accepted and stored in the field it belongs to, or refused and nothing stored |
| Monitor.Parser.ClosePair | src/server/monitor.c:228-233 | the terminator of the second field is written where a zero already is |
| Monitor.Parser.ParsePair | src/server/monitor.c:193-279 | the verdict on an octet of an add request, and both fields terminated at the end |
| Monitor.Parser.ParseField | src/server/monitor.c:280-357 | the verdict on an octet of any other request, and the field terminated at the end |
| Monitor.Parser.Stay | src/server/monitor.c:399-407 | a final verdict and the fields for it stand whatever follows |
| Monitor.Parser.Feed | src/server/monitor.c:362-414 | the state is the verdict of the grammar on everything fed, and the fields are those of the stream |
| Monitor.Parser.Consume | src/server/monitor.c:28-42 | octets are consumed up to the first that decides the verdict, and no further |
| Monitor.ReceiveChunk | src/server/monitor.c:28-42 | a chunk takes the verdict on, and is drained unless the verdict is final |
| Monitor.Receive | src/server/monitor.c:28-42 | in any chunking the verdict is that of the grammar (sections 1.a to 1.f of the monitoring protocol) on the whole stream, and what is consumed is the shortest prefix that decides it |
| MonitorClient.WireIsProtocol | src/client/clientrequest.c:6-72 | the layout by the codes of sections 1.c and 1.d of the protocol, octet by octet |
| MonitorClient.SerializeRequest | src/client/clientrequest.c:6-31 | the buffer holds version, token, method, target, big-endian length and data in the layout of the protocol |
| MonitorClient.SerializeConfigData | src/client/clientrequest.c:33-72 | the data of each kind of configuration, the header untouched |
| MonitorClient.SerializePair | src/client/clientrequest.c:40-59 | name, separator, secret |
| MonitorClient.RoundTrip | src/client/clientrequest.c:6-72 | every request the client can send is accepted to its last octet, and read back as meant if and only if an added name has at most four octets or no secret follows |
| MonitorClient.NoEarlyFinish | src/client/clientrequest.c:6-72 | no shorter prefix of a configuration request finishes the parser |
| MonitorClient.PairInMemory | src/server/monitor.c:193-279 | the secret always reads back; the name does if and only if the secret did not overwrite its terminator |
| MonitorClient.NameInMemory | src/server/monitor.c:280-338 | a name to remove and a path read back as sent |
| MonitorClient.Deliver | src/server/monitor.c:28-42 | client and server together: in any chunks the parser ends holding token, method, target, length and secret as sent, and the name if and only if its terminator was not overwritten |
| MonitorResponse.ResponseHandler | src/server/monitor.c:461-507 | without room the buffer is untouched and -1 returned; with room the response is appended and dlen + 3 returned |
| MonitorResponse.ErrorHandler | src/server/monitor.c:416-460 | the status of the error, length 1 and a zero octet, or nothing without room |
| MonitorResponse.ReturnCountsOctets | src/server/monitor.c:461-507 | the value returned is the number of octets appended if and only if the length is 4 for a number and 1 for no data; then length, number and data read back |
| MonitorResponse.StatusTellsError | src/server/monitor.c:427-447 | two streams get the same status octet exactly when they have the same error |
| MonitorResponse.StatusNamesField | src/server/monitor.c:427-447 | section 2.a of the protocol from the octets of the request: 1 for the version, 2 for the method, 3 for the target, 4 for the data |
| MonitorResponse.Decode16 | src/server/monitor.c:470-477 | the decoding of every 16-bit length is its inverse |
| MonitorResponse.Decode32 | src/server/monitor.c:479-488 | the decoding of every 32-bit number is its inverse |
| MonitorResponse.HandleGetOkStatus | src/client/clientresponse.c:3-17 | the number is the big-endian value of octets 3 to 6 of the response |
| MonitorResponse.CounterTrip | src/client/clientresponse.c:3-17 | a counter sent by the server is the number the client reads |
| Registry.RegistryIsMap | src/server/pop3nio.c:118-198 | over every sequence of registrations and removals names stay distinct and the list holds exactly the pairs of the map in which the first registration of a name stands until it is removed |
| Registry.RemovesExactlyOne | src/server/pop3nio.c:152-169 | removal takes out one account and keeps the order of the others |
| Registry.RegisterUserRec | src/server/pop3nio.c:118-139 | a new name goes to the end and 0 is reported; a known name changes nothing and reports 1 |
| Registry.UnregisterUserRec | src/server/pop3nio.c:152-169 | the list without the first account of that name; the error is cleared exactly when there was one |
| Registry.UnregisterUser | src/server/pop3nio.c:171-180 | the list the caller holds is the right one if and only if the user was not at its head |
| Registry.ValidateUser | src/server/pop3nio.c:182-198 | true exactly for the pairs registered |
| Registry.Node.SetNext | src/server/pop3nio.c:137-138 | the node followed by the given list |
| Registry.RunOnNodes | src/server/pop3nio.c:118-169 | any run on the linked nodes ends in the list of the pure run |
| Connections.ListIsOpenSet | src/server/pop3nio.c:733-739 | over every run of connections accepted and closed the list holds exactly the open ones if and only if no close came with done set |
| Connections.OpenAreListed | src/server/pop3nio.c:605-622 | however connections were closed, every open one is in the list, which is in the order of acceptance and longer than they are by the closes with done set |
| Connections.DestroyedExactly | src/server/pop3nio.c:74-97 | destroying the session of a descriptor takes its own connection out of the list, and not an earlier one, if and only if no earlier close of that descriptor came with done set |
| Connections.ReusedDescriptor | src/server/pop3nio.c:74-97 | a descriptor closed with done set and given out again is in the list twice, and destroying the open session frees the other connection |
| Connections.WithoutMeans | src/server/pop3nio.c:74-88 | removal takes out the first connection of that descriptor and no other |
| Connections.RemoveClientRec | src/server/pop3nio.c:74-88 | the relinked nodes are the list without that connection, order kept |
| Connections.Clients.Pop3New | src/server/pop3nio.c:605-628 | a new connection goes to the end of the list and is counted as live and as historic |
| Connections.Clients.Tail | src/server/pop3nio.c:620-626 | the walk ends at the last connection |
| Connections.Clients.Append | src/server/pop3nio.c:614-628 | the connection is linked behind the last one |
| Connections.Clients.Pop3Destroy | src/server/pop3nio.c:235-237 | the first connection of that descriptor leaves the list, and the live count is one less |
| Connections.Clients.RemoveClient | src/server/pop3nio.c:90-97 | the same for the whole list, which may be empty |
| Connections.Clients.Pop3Close | src/server/pop3nio.c:733-739 | with done set list and counter stay as they are |
| Connections.RunOnNodes | src/server/pop3nio.c:605-626 | any run on the nodes ends in the list of the pure run; the live counter is the number of open connections and of closes with done set, the other the number of all connections, in 32 bits |
| Lifetime.EndsDoneExactly | src/server/pop3nio.c:733-739 | a reachable session ends with done set if and only if a read fails or meets the end of the file, on whichever descriptor, after the end of a mail was recognised and before the send behind it |
| Lifetime.ListIsLiveExactly | src/server/pop3nio.c:649-760 | for all sessions of the server, over every run: every open session is in the list, and the list holds exactly the open ones if and only if no such read happened |
| Lifetime.GoneIsLost | src/server/pop3nio.c:387-439 | a session whose RETR was accepted gets there in three events: +OK sent, the mail read to its end, the client gone or sending anything |
| Selector.LeastPowerAbove | src/server/selector.c:184-191 | the shift loop finds the least power of two above n |
| Selector.NextCapacity | src/server/selector.c:182-200 | never above 1025, and above n if and only if the platform can have descriptor n |
| Selector.CapacityCovers | src/server/selector.c:182-200 | the same of the capacity as a number |
| Selector.RegisterIndexesItsSlot | src/server/selector.c:397-409 | after the growth test with the real capacities a valid descriptor lies in the table if and only if it was not the one equal to its size |
| Selector.Table.MakeRoom | src/server/selector.c:397-406 | the growth test on the table: every valid descriptor but the one equal to the size is in bounds, every old slot kept, every new one unused |
| Selector.FirstSizes | src/server/selector.c:182-200 | tables for 10, 20 and 500 elements have 17, 33 and 513 slots |
| Selector.ServerMisses513 | src/server/selector.c:397-409 | the table the server starts with has no slot for descriptor 513 and does not grow for it |
| Selector.SelectorNew | src/server/selector.c:330-349 | no selector beyond the limit of the platform, an empty one of the capacity asked for otherwise |
| Selector.Table.constructor | src/server/selector.c:330-349 | an empty table larger than asked for |
| Selector.Table.ItemsInit | src/server/selector.c:212-220 | the slots from the given one on are unused, the others as they were |
| Selector.Table.EnsureCapacity | src/server/selector.c:268-327 | on success the table is larger than n, every old slot is kept and every new one unused; refused exactly beyond the limit |
| Selector.Table.ItemsMaxFd | src/server/selector.c:225-241 | the largest used descriptor, 0 if there is none |
| Selector.Table.UpdateFdSets | src/server/selector.c:243-261 | the bits of the descriptor follow its slot, all others stay |
| Selector.Table.Register | src/server/selector.c:383-432 | registrations and status for bad, used and free descriptors; the descriptor is in the read set exactly if it is to be read and in the write set exactly if it is to be written, every other one as before; slots, sets and maximum stay consistent |
| Selector.Table.Unregister | src/server/selector.c:434-472 | the registration is gone, from both sets and no other with it, and the maximum recomputed; status for descriptors not registered |
| Selector.Table.SetInterest | src/server/selector.c:474-494 | only the interest of that registration changes: the descriptor is in each set exactly if the interest says so, every other one as before |
| Selector.Table.Destroy | src/server/selector.c:351-379 | every registration is undone |
| Selector.Table.Callback | src/server/selector.c:526-547 | whatever a callback registers, unregisters and changes, the table stays consistent and is what those operations make of the registrations; it is moved exactly when it grew |
| Selector.Table.Perform | src/server/selector.c:383-494 | one operation of a callback |
| Selector.Table.Visit | src/server/selector.c:524-559 | one slot, looked up once: read before write, the write interest read through the old pointer, whose memory is arbitrary once the read handler made the table grow |
| Selector.Table.HandleIteration | src/server/selector.c:517-562 | the dispatch over the snapshot is the visits to all slots up to the maximum, one after the other |
| Selector.DispatchSafeAndComplete | src/server/selector.c:517-562 | if no read handler of a descriptor ready for writing makes the table grow, and whatever was dispatched before: of the calls this dispatch adds every one is to a descriptor ready in the snapshot and registered with that interest at that moment, none is made twice, and every ready descriptor no callback touched is served once per kind |
| Selector.DispatchBySets | src/server/selector.c:517-562 | the same by the sets select was given: a read call goes to a descriptor reported readable and in the read set at that moment, a write call likewise; one that is reported, in its set and untouched is called |
| Selector.CallsInOrder | src/server/selector.c:524-562 | a dispatch calls in ascending order of the descriptors, each for reading before writing, whatever the callbacks do |
| Selector.OpOnSets | src/server/selector.c:239-263 | what each operation does to the two sets |
| Selector.OneKindIsNeverStale | src/server/selector.c:524-556 | if no descriptor is in both sets of the snapshot, no visit meets memory the table has left, whatever the callbacks do |
| Selector.OneKindDispatch | src/server/selector.c:517-562 | so the dispatch is safe and complete for every table in which nothing is registered for both kinds, as nothing in this server is |
| Selector.DeterminedExactly | src/server/selector.c:524-556 | exactly then the dispatch does not depend on what the memory left by the table happens to hold |
| Selector.GrowthLosesWrite | src/server/selector.c:524-556 | a table of 17, descriptor 3 ready for both, a read handler that registers 20: the write call can be lost |
| Selector.GrowthMakesUnsafe | src/server/selector.c:524-556 | and if the handler unregistered 3 as well, 3 can be called for writing afterwards |
| Selector.CallAppended | src/server/selector.c:530-556 | one justified call keeps the history safe and is counted once |
| Selector.UntouchedStays | src/server/selector.c:517-562 | what no callback touched is registered as it was |
| Selector.SilentAfterUnregister | src/server/selector.c:530-556 | a descriptor unregistered in the middle, by its own read callback or another, is not called again unless registered anew |
| Maildrop.VisiblePrefix | src/server/email.c:92-143 | loading stops at a prefix of the mails of the directory |
| Maildrop.VisibleExactly | src/server/email.c:92-143 | the mails are the entries other than . and .., each once, in order, under their paths and with their sizes |
| Maildrop.CountersOfMarks | src/server/email.c:134-139 | count and octets kept beside the marks are those of the set of unmarked messages |
| Maildrop.RowsAddUp | src/server/comparator.c:214-228 | the rows of LIST add up to count and octets |
| Maildrop.RowsAreLive | src/server/comparator.c:219-227 | the rows are the unmarked messages, once each, in order, under the numbers of their positions |
| Maildrop.RowsAreRemaining | src/server/comparator.c:214-228 | rows, set of messages left and counters agree |
| Maildrop.PathsOfMarks | src/server/pop3nio.c:529-541 | the files removed are those of the marked messages |
| Maildrop.NothingMarked | src/server/email.c:134-139 | without marks count and octets are those of all mails |
| Numbers.AtoiOfDecimal | src/server/comparator.c:97-98 | a message number printed by LIST reads back as itself |
| Numbers.DecimalDigits | src/server/comparator.c:224 | the digits printed are decimal digits of that value |
| Numbers.DecimalIsDecimal | src/server/comparator.c:224 | they are the number in base ten, most significant digit first and no zero in front |
| Numbers.AtoiForms | src/server/comparator.c:97-98 | what atoi makes of any string: white space, a sign and digits, of which the low 32 bits of a saturated 64-bit value are taken |
| Commands.Comparator | src/server/comparator.c:309-324 | the handler of the first entry of the state's table with that name, the one for unknown commands otherwise; which that is, for every word, the next three rows say |
| Commands.AuthNames | src/server/comparator.c:32-37 | CAPA, USER, PASS and QUIT find their own handlers in AUTH |
| Commands.TransactionNames | src/server/comparator.c:39-48 | the eight names of TRANSACTION find their own handlers |
| Commands.OtherNames | src/server/comparator.c:309-324 | every other word, and no other, finds the one for unknown commands |
| Commands.TableSeparation | src/server/comparator.c:32-51 | login commands are found in AUTH only and mailbox commands in TRANSACTION only |
| Commands.ExecAllSplit | src/server/pop3nio.c:328-350 | a batch is its first part followed by its second |
| Commands.SayAllFits | src/server/comparator.c:53-65 | replies that fit together are all written |
| Dialogue.SayExactly | src/server/comparator.c:53-65 | a reply that finds no room is dropped whole |
| SessionInvariant.StepInv | src/server/pop3nio.c:290-598 | every event of every state keeps: the read buffer empty except behind a terminator, the partial terminator present in the write buffer, the descriptors registered as the state says, five octets to rewrite at a terminator |
| SessionInvariant.RunInv | src/server/pop3nio.c:290-598 | so every reachable session has it |
| SessionInvariant.CopyKeepsTrack | src/server/pop3nio.c:411-431 | unless the write buffer overflows, the terminator recognised lies at its end, and deleting and rewriting it changes nothing |
| Login.AuthenticationSafety | src/server/comparator.c:276-307 | in every reachable session in TRANSACTION, READING_MAIL, WRITING_MAIL or UPDATE an earlier PASS was accepted with a pair in the registry at that step, and the last one accepted was for the user and password the session holds, unless the refusal of a PASS before USER was taken for a state |
| Login.BypassExactly | src/server/comparator.c:280-283 | a reachable session that has not ended is past AUTH without a login if and only if such a refusal came before |
| Login.LoginBypassExactly | src/server/comparator.c:280-283 | the command that does it is exactly a PASS with argument before any USER whose refusal finds no room |
| Bypass.BypassReachable | src/server/comparator.c:280-283 | for buffers of every size a session of three events gets past AUTH with nobody logged in, then ends and is destroyed, and a descriptor stays registered for it |
| Bypass.BurstSlips | src/server/pop3nio.c:312-356 | blank lines that fill the write buffer and a PASS do it in one read |
| Login.LoginExactly | src/server/comparator.c:264-307 | USER then PASS log in if and only if the pair is registered, note exactly that, and leave the session in AUTH otherwise |
| Login.StepLogin | src/server/pop3nio.c:312-356 | one event without such a refusal leads past AUTH only with an accepted PASS in it |
| Login.NoMissingHandler | src/server/stm.c:67-93 | without such a refusal, whatever descriptor of a reachable session is reported, its state has a handler, so the abort is not reached; ended sessions have nothing registered |
| Deletion.DeletionOverSession | src/server/pop3nio.c:529-541 | over every session: files are removed on entering UPDATE only, once, and exactly those of the messages of the last load that accepted DELEs marked and no RSET cleared; without UPDATE none is |
| Deletion.RemovesChosenExactly | src/server/pop3nio.c:529-541 | they are the files the DELEs were meant for if and only if every mark still stands for its message in the last load |
| Deletion.StableMaildrop | src/server/comparator.c:172-177 | when every load found the same mails RSET clears every mark, and the files removed are those the DELEs since were meant for |
| Deletion.OneUserRemovesChosen | src/server/pop3nio.c:529-541 | so over directories that do not change, for sessions whose loads are all for one user |
| Deletion.SecondUserLosesMail | src/server/comparator.c:139-170 | two users in one read: the message of the second is removed for the mark of the first |
| Deletion.ResetOverSession | src/server/comparator.c:172-185 | RSET in every reachable session announces one message of no octets before any load, all messages of the last load with the octets of those not marked then afterwards |
| Mailbox.ResetReply | src/server/comparator.c:178-184 | the same after every command of a batch |
| Mailbox.ResetReplyExactly | src/server/comparator.c:178-184 | on a maildrop unchanged since the last load that is right if and only if it was never loaded and holds one empty message, or nothing with octets was marked at the last load |
| Mailbox.ResetBeforeLoad | src/server/comparator.c:178-184 | RSET before any load, with two messages of seven octets there: one message of none is announced |
| Mailbox.ResetAfterDele | src/server/comparator.c:178-184 | DELE and then RSET: the full totals are announced, whatever the marked message holds |
| Mailbox.StatAfterResetExactly | src/server/comparator.c:172-185 | after RSET the next STAT counts every message if and only if no message is marked beyond the last index loaded, and gives the full totals then |
| Mailbox.HandlerKeepsMarks | src/server/comparator.c:73-307 | after every command marks, counters and last index are those of the history, and what is noted of a load is what the directory of the user held |
| Mailbox.MarksSurvive | src/server/comparator.c:73-307 | only DELE and RSET change marks; they survive a load and a change of user |
| Mailbox.StatAndListAgree | src/server/comparator.c:187-241 | STAT and the header of LIST announce number and octets of the unmarked messages, and LIST prints their rows |
| Mailbox.ListedAreLeft | src/server/comparator.c:214-228 | LIST prints the unmarked messages and no other, with numbers that never shift and sizes that add up |
| Dialogue.DeleExactly | src/server/comparator.c:139-170 | DELE, for every argument: a message is marked, under its file, if and only if the number is that of a message which is there and not marked; otherwise nothing changes and the reply says which of the three reasons |
| Dialogue.RetrExactly | src/server/comparator.c:92-137 | RETR, for every argument: a message is selected and its file opened under the same condition, with ERROR if it does not open; otherwise nothing is selected and the reply says why |
| Dialogue.ListExactly | src/server/comparator.c:211-231 | LIST changes no mark; read back as words and numbers, its header has number and octets of the messages left, and there is one row for each, in order, with the number that DELE and RETR take for it and then its size |
| Dialogue.ListOneExactly | src/server/comparator.c:193-210 | LIST with any argument: that number and then its size for a message which is there and not marked, the reason otherwise, and a second line beyond the last message |
| Dialogue.StatExactly | src/server/comparator.c:233-241 | STAT changes no mark; the second word of its line reads back as the number of messages left, the third as their octets |
| Dialogue.RsetExactly | src/server/comparator.c:172-185 | RSET clears exactly the marks up to the last index loaded; its reply read back has the numbers announced |
| Dialogue.OthersExactly | src/server/comparator.c:67-90 | NOOP, CAPA, QUIT and unknown words change nothing; their replies, and that only QUIT asks for UPDATE |
| Dialogue.AuthExactly | src/server/comparator.c:67-71 | USER takes the name given, CAPA, QUIT and unknown words change nothing; their replies |
| Dialogue.PassExactly | src/server/comparator.c:276-307 | PASS logs in, and says so, if and only if a user was named and the pair is registered; otherwise nothing changes and the reply says why |
| Dialogue.LeadsExactly | src/server/comparator.c:67-307 | which command asks for which state: UPDATE exactly for QUIT in TRANSACTION, DONE exactly for QUIT in AUTH, READING_MAIL, ERROR and the login on their exact conditions |
| Dialogue.StatLineReads | src/include/server_messages.h:13 | status, first number, second number, each a word of its own |
| Dialogue.ListRowReads | src/server/comparator.c:224 | number, then size |
| Dialogue.ListHeaderReads | src/include/server_messages.h:11 | status, number of messages, and their octets in brackets |
| Dialogue.MailsAreEntries | src/server/email.c:31-43 | the mails of a user: the first thirty entries of the directory cur under the maildir and the name of the user, other than . and .., in order |
| Deletion.StepFiles | src/server/pop3nio.c:560-598 | each event keeps the account of removed files |
| Pipelining.PipeliningEquivalence | src/server/pop3nio.c:312-356 | octets delivered in any pieces, responses leaving in any pieces in between, end as if all had come at once: same state, unfinished line, effects and responses in order, provided only the last piece changes the state (section 6.6 of RFC 2449); the client gets the same answer if and only if the session has not ended or nothing was sent before |
| Pipelining.FinalIsSilent | src/server/pop3nio.c:741-760 | what is pending when a session has ended is never sent: no event follows |
| Pipelining.PendingCanLeave | src/server/pop3nio.c:441-474 | what is pending before can all be sent as soon as the client is ready |
| Pipelining.UpdateSendsOnce | src/server/pop3nio.c:441-474 | in UPDATE one event is left, and the client gets all that is pending if and only if that is a send which takes all of it |
| Pipelining.EndingBatchIsUnanswered | src/server/pop3nio.c:312-356 | a batch whose replies fit ends the session if and only if its last command is QUIT in AUTH or RETR of a message whose file does not open, and then nothing it said is ever sent |
| Pipelining.QuitIsUnanswered | src/server/pop3nio.c:312-356 | commands in AUTH followed by QUIT in one read, USER and QUIT for one: none is answered |
| Pipelining.BatchAlike | src/server/pop3nio.c:328-350 | a batch whose replies fit says the same and does the same whatever else the write buffer holds |
| Pipelining.BatchContinues | src/server/pop3nio.c:328-350 | receiving more octets continues the batch where it stopped, in the middle of a line or not |
| Pipelining.DeliveryCatchesUp | src/server/pop3nio.c:312-356 | at every moment of a piecemeal delivery responses sent and pending are those of the batch so far |
| Batches.BatchAgreesExactly | src/server/comparator.c:86-90 | a batch whose replies fit does and says what its commands do one by one, and ends in the same state, if and only if no command that stays in its state is met after a login in the middle of the batch |
| Batches.NoopAfterLogin | src/server/comparator.c:86-90 | USER, PASS and NOOP in one read end in AUTH |
| StateTrace.ArrivalsAreVisits | src/server/stm.c:33-65 | over every run the arrivals handled are the visited states with repeats merged, from the initial state on, without the one state that has no arrival function |
| Transfer.ReadConservesExactly | src/server/pop3nio.c:387-439 | reading a chunk adds exactly what is copied of it to the pending octets if and only if that fits the write buffer and the chunk does not begin with LF right behind the end of the mail, the rewriting of a terminator included |
| Transfer.WriteConservesExactly | src/server/pop3nio.c:476-521 | a send takes from the pending octets what it puts on the wire; the one after the end of the mail drops the rest |
| Transfer.RetrConservesOctets | src/server/pop3nio.c:387-521 | in every interleaving of file reads and partial sends whose copies fit the write buffer, in which no chunk that begins with LF is read right behind the end of the mail, octets sent and octets pending are the output queued before followed by the file copied so far |
| Transfer.EndConservesExactly | src/server/pop3nio.c:511-518 | the transfer as a whole sent all of it if and only if the last send took all that was pending |
| Transfer.RetrSendsThroughTerminator | src/server/pop3nio.c:387-521 | with a silent client, back in TRANSACTION: the file was sent exactly through the first recognised terminator if and only if the last send was whole |
| Transfer.EndAgain | src/server/pop3nio.c:415-429 | LF right behind the end counts as an end once more: of the five octets deleted the terminator is not all |
| Transfer.EndIsAfterEnd | src/server/pop3nio.c:369-429 | recognising the end leaves the automaton waiting for LF, so the chunk read next damages the terminator exactly if it begins with LF |
| Transfer.RetrBegins | src/server/comparator.c:118-131 | an accepted RETR as the last command of a read begins the transfer of that message, +OK behind what was pending |
| Transfer.RetrDelivers | src/server/pop3nio.c:387-521 | from the command to TRANSACTION with a silent client: what was pending, +OK and the file of that message exactly through the first recognised terminator were sent, if and only if the last send was whole |
| Liveness.DrainedReadsOn | src/server/pop3nio.c:493-508 | when a send on the mail's own descriptor leaves nothing pending and the end was not recognised, reading the next chunk is enabled, whatever it is |
| Liveness.TransferGoesOn | src/server/pop3nio.c:476-521 | from every reachable transfer whose end was not recognised at most one event leads to where the next chunk can be read |
| Liveness.TransferEnds | src/server/pop3nio.c:511-518 | once it was recognised one event ends the transfer and sends all that is pending |
| Liveness.MailIsDelivered | src/server/pop3nio.c:387-521 | for every mail and every chunking in which an end is recognised there is a run from the accepted RETR back to TRANSACTION, ready for the next command, that sends what was pending and the mail through that end |
| Liveness.RetrIsDelivered | src/server/pop3nio.c:312-521 | the same from the command on: what was pending, +OK and the file of that message through the recognised end are sent |
| Liveness.ThroughIsPrefix | src/server/pop3nio.c:411-431 | what is sent is the beginning of the file and ends with the terminator |
| Liveness.EventsLead | src/server/pop3nio.c:560-598 | the state after every event of every state: which failures end a session and which do not, UPDATE to DONE, a drained send back to the mail |
| Liveness.EntersUpdateExactly | src/server/comparator.c:74-79 | a session enters UPDATE, where mails are removed, exactly with a batch whose last command is QUIT in TRANSACTION |
| Liveness.RunResponsive | src/server/pop3nio.c:441-521 | every reachable session that answers commands waits to send what is pending, and every transfer has a descriptor to go on with |
| Liveness.AnswersLeave | src/server/pop3nio.c:441-474 | in AUTH and TRANSACTION one event sends all that is pending and leaves the session ready for the next command, with nothing else changed |
| Liveness.GreetsFirst | src/server/pop3nio.c:258-288 | a new session has the greeting pending, and nothing but sending it can come first |
| Transfer.CutTerminatorIsMissed | src/server/pop3nio.c:299-310 | a mail that is only the terminator, read in two chunks, has no end |
| Transfer.WholeMailInOneChunk | src/server/pop3nio.c:411-431 | of a mail of lines read at once, which line ends it |
| Pop3Server.Pop3.constructor | src/server/pop3nio.c:605-647 | a new session |
| Pop3Server.Pop3.LoadMail | src/server/email.c:96-140 | one mail is stored, and counted unless marked |
| Pop3Server.Pop3.LoadMails | src/server/email.c:79-151 | the mailbox of the listing: mails, count and octets of the unmarked, last index, marks untouched |
| Pop3Server.Pop3.WriteToBuffer | src/server/comparator.c:53-65 | all of the message or nothing, and 2 exactly when it does not fit |
| Pop3Server.Pop3.RetrHandler | src/server/comparator.c:92-137 | effects, next state and replies of RETR |
| Pop3Server.Pop3.DeleHandler | src/server/comparator.c:139-170 | effects, next state and replies of DELE |
| Pop3Server.Pop3.ClearMarks | src/server/comparator.c:174-177 | the marks up to the last index are cleared in place, the others kept |
| Pop3Server.Pop3.RsetHandler | src/server/comparator.c:172-185 | effects and replies of RSET, marks cleared in place |
| Pop3Server.Pop3.ReplyRows | src/server/comparator.c:214-229 | the replies of LIST are header, one row for each unmarked message and the end |
| Pop3Server.Pop3.ListHandler | src/server/comparator.c:187-231 | effects and replies of LIST, also for numbers out of range |
| Pop3Server.Pop3.StatHandler | src/server/comparator.c:233-241 | effects and reply of STAT |
| Pop3Server.Pop3.PassHandler | src/server/comparator.c:276-307 | effects, next state and reply of PASS, also when the refusal finds no room |
| Pop3Server.Pop3.CommandHandler | src/server/comparator.c:73-307 | each handler does to the object what the machine does to the session |
| Pop3Server.Pop3.DeleteMails | src/server/pop3nio.c:529-541 | the files removed are those marked up to the last index |
| Pop3Server.Pop3.AuthInit | src/server/pop3nio.c:269-288 | the welcome is queued |
| Pop3Server.Pop3.ReadingInit | src/server/pop3nio.c:299-310 | the automaton starts over and the mail is registered for reading, unless it is already |
| Pop3Server.Pop3.OnArrival | src/server/pop3nio.c:560-598 | the arrival function of each state |
| Pop3Server.Pop3.HandleFirst | src/server/stm.c:33-44 | the first event arrives in the initial state |
| Pop3Server.Pop3.Jump | src/server/stm.c:46-65 | an arrival exactly when the state changes |
| Pop3Server.Pop3.Pop3Done | src/server/pop3nio.c:741-760 | the client is unregistered, and the mail if one was ever opened |
| Pop3Server.Pop3.Dispatch | src/server/pop3nio.c:334-342 | the command of a complete line runs and the tokenizer is cleared |
| Pop3Server.Pop3.ReadOctet | src/server/pop3nio.c:330-349 | one octet of the reading loop does what the batch says |
| Pop3Server.Pop3.ReadLoop | src/server/pop3nio.c:328-350 | the whole chunk has run as a batch |
| Pop3Server.Pop3.ClientRead | src/server/pop3nio.c:312-356 | session and next state of the machine after a read from the client |
| Pop3Server.Pop3.CopyOctet | src/server/pop3nio.c:415-418 | one octet goes to the write buffer and through the automaton |
| Pop3Server.Pop3.CopyChunk | src/server/pop3nio.c:411-431 | up to and including the first recognised terminator is copied, which is then rewritten, or all there is |
| Pop3Server.Pop3.RewriteTerminator | src/server/pop3nio.c:420-426 | five octets back, the terminator written |
| Pop3Server.Pop3.FilesystemRead | src/server/pop3nio.c:387-439 | session and next state of the machine after a read from the mail |
| Pop3Server.Pop3.Advance | src/server/pop3nio.c:456-463 | the octets sent are consumed, and the interest goes back to reading exactly when none is pending |
| Pop3Server.Pop3.ClientWrite | src/server/pop3nio.c:441-474 | session and next state of the machine after a send to the client |
| Pop3Server.Pop3.MailWrite | src/server/pop3nio.c:476-521 | session and next state of the machine after a send in a transfer |
| Pop3Server.Pop3.EndMail | src/server/pop3nio.c:511-516 | the mail is unregistered and both buffers start over |
| Pop3Server.Pop3.MoveOn | src/server/pop3nio.c:699-719 | the move to the next state and the closing in a final one |
| Pop3Server.Pop3.Pop3Read | src/server/pop3nio.c:699-708 | for every reachable session a read event takes the object through one step of the machine, and the invariant is kept |
| Pop3Server.Pop3.Pop3Write | src/server/pop3nio.c:710-719 | the same for a write event |

## Left out

- System calls, signals, threads and the blocking-job list of the selector: what the calls give is a parameter of the event.
  Failures of malloc and realloc, freed memory other than the old table of the selector, logging, and the
  statistics of transferred octets are left out too.
- The scan for closed descriptors after a failed `select`, and time.
- The administrators' table (src/server/monitornio.c) and argument parsing of both programs.
- Registry, maildir, directories and files are parameters of a read event and the same for all its commands. A file opens if
  it is among them; the failure of `stat` is not modelled.
- Octets of value NUL inside commands, which end C strings early, and a secret of full length, which `strlen` on the
  client's side overruns.
- The tokenizer's strings and the mails are values here, not allocated memory.
- Commands.Exec: says nothing of commands that follow, in one batch, a command that left AUTH and TRANSACTION, nor of
  loading an empty directory (the last index wraps around): the code then reads beyond its tables. Events are required to be
  without such batches (`CanReact`).
- Commands.RunList: for `LIST n` beyond the last message the code dereferences memory behind the arrays; here the mark and the
  size found there are parameters of the event, so a crash is not modelled.
- Session.FileRead: registering a mail and changing an interest do not fail; a session has one mail descriptor, though the code
  opens one for each RETR and closes none.
- Pipelining.PipeliningEquivalence: assumes that the responses to the whole delivery fit the write buffer at once; responses
  that do not fit are dropped whole, so the two deliveries differ. Batches with a login before their last command are the
  subject of `Batches.BatchAgreesExactly`.
- Transfer.RetrConservesOctets: assumes that what is copied of each chunk fits the write buffer, which `ReadConservesExactly`
  shows to be necessary, and that no chunk that begins with LF is read right behind the end of the mail (`EndsOnce`): such a
  read does not conserve octets, by the same lemma.
- Selector.Table.Register: not for the descriptor equal to the size of the table; Unregister and SetInterest not for
  descriptors beyond the table, which the code does not check.
- Selector.Table.Callback: a handler is any function of the event and the history; handlers and their data are not stored, a
  missing handler and `handle_close` are not modelled, and an operation of a handler that breaks what the table asks of its
  callers is left out.
- Selector.Table.Visit: the memory a table has left holds an arbitrary write interest; that a call through it uses a handler
  found there is not modelled.
- Selector.Table.Destroy: the release of the table and of the job list.
- Monitor.Receive: not for data beyond the memory the parser has for it (`InCapacity`); the two file statics of the parser
  are fields of one parser, so two interleaved requests are not modelled.
- Registry.UnregisterUser: the node the caller still holds is freed by the code; here it is merely unlinked.
- Connections.Clients.Pop3Destroy: only for a connection in the list. When `accept` fails, pop3_passive_accept also calls it
  with none (src/server/pop3nio.c:667-696), which the code dereferences.
- Pop3Server.Pop3.Pop3Done: the closing of the socket, and the abort when unregistering fails.
