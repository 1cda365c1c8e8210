# MultiSlider: verified models

MultiSlider lets game clients meet in rooms and then play in sessions over an unreliable network. This
project models three parts of it and proves what they keep over all inputs and all runs.

* **The JSON codec** (`jsonxx`), through which every message and every envelope goes. `JsonValue` is the
  value tree, `JsonPrinter` the recursive writer with its repair of the last comma, `JsonGrammar` what each
  parsing routine answers and leaves of the text, and `JsonStream` the reader as it works: a stream that it
  consumes, probes and puts characters back into, proved to do what the grammar says. `JsonRoundTrip`,
  `JsonExactness` and `JsonEnvelope` prove the round trip, exactly when it holds, and what follows from it;
  `JsonStandard` proves the printed text to be JSON by RFC 8259, and `JsonExtensions` says what the reader
  accepts beyond it.
* **The session protocol** between a client (`Session`) and the server (`SessionActor`): reliable requests
  numbered modulo 1024 with a window of 32, a resend queue, clock estimation, timeouts, a life cycle and
  last-writer-wins data. `SequenceWindow` is the check both sides share; `ClientModel` and `SessionModel`
  are the two sides as state machines; `Client` and `SessionActor` are the classes whose methods update
  fields in place and are proved to take the machines' steps; `ClientLaws`, `ClientCalls`, `ClientLimits`,
  `ClientClock`, `SessionLaws`, `SessionAnswers`, `Delivery`, `ClosedLoop` and `ClosedLoopRuns` state what
  holds over every run of loss, repetition and reordering.
* **The server's bookkeeping**: `BackendModel` and `Backend` are the table of 256 sessions with its stack of
  free ids, together with all session actors and delayed close messages; `LobbyModel` and `Lobby` are
  the room actors and the registry they share, with `LobbyLaws` and `LobbyAnswers` on what they keep, answer
  and contain.

A message handler, a timer tick, the handling of one datagram and the end of `receive` are one step each.
A class says how the code works; the function it is proved against says what one step does; the laws say
what that means over all steps. Runs are arbitrary sequences of events, so a law about every run covers
every loss, repetition and order.

## Where the code is not what it seems

* The fourth branch of both acknowledgement checks repeats the guard of the second and is never reached, so
  the history mask is always 0 and an index behind the highest one is never accepted
  (`SequenceWindow.AcceptedExactly`, `SequenceWindow.ZeroStaysZero`, `SessionLaws.AcceptsExactly`,
  `ClientLaws.AcceptsExactly`). A negative index can be accepted by the server
  (`SequenceWindow.AcceptedInGeneral`).
* The window cannot tell all indices apart. It judges one rightly if and only if it is new or does not look
  new modulo 1024 (`SequenceWindow.CheckIsFresh`); within -992 to 1024 that is always so, and just outside it
  is not (`SequenceWindow.ReachIsUnambiguous`).
* An acknowledgement takes out its own request if and only if no earlier queued one was issued a multiple of
  1024 requests before (`ClientLaws.RemovesItsOwn`); `ClientLimits.LongWaitConfuses` is a run in which it takes
  out another one.
* A sync can take an own request out of the queue that the server never got: that of another player
  (`ClientLimits.SyncLooksLikeAck`), and after an overtaken request also the player's own
  (`ClosedLoopRuns.OwnSyncLosesRequest`). `ClientLaws.LeavesExactly` says what a sync takes out. Where nothing
  is taken out that the server did not take, leaving the queue means that the server has the request, and no
  weaker condition will do (`ClosedLoop.GoneMeansTaken`, `ClosedLoop.AccountedExactly`).
* A request that a later one overtakes is never delivered as long as nothing is lost in that way and no stale
  copy is ambiguous (`ClosedLoop.OvertakenForGood`). At most 31 requests of the queue can be overtaken
  (`ClosedLoop.NeverAllOvertaken`), but with 31 of them one lost acknowledgement is enough to block all later
  ones (`ClosedLoop.BlockedForGood`, `ClosedLoopRuns.BlockedIsReached`).
* A client that is acknowledged first does not see its own reliable sync (`ClientLaws.AckHidesSync`,
  `ClosedLoop.AckHidesOwnSync`).
* A clock response that arrives twice moves the clock twice (`ClientClock.RepeatCounts`). A response is sure to
  leave the estimate close if and only if the clock was not moved since its request
  (`ClientClock.EstimateExactly`).
* An object with an empty key is printed without the key and is not read back, and an invalid value comes
  back as null; these are the only exceptions to the round trip (`JsonExactness.SurvivesExactly`).
* A failed array is not rewound: an object after an unfinished array is read in the array's place
  (`JsonEnvelope.BracketReads`, `JsonEnvelope.UnfinishedArrayIsSkipped`). A failed object keeps the entries it
  has read, and the client does not look at the answer (`JsonStream.ReadText`).
* Ejecting a player does not tell the registry, which lists the player until the next join, departure or
  reconfiguration, and is exact if and only if nobody was ejected since the last of these
  (`LobbyLaws.RegistryIsConservative`, `LobbyLaws.EjectionIsNotRegistered`).

## Model

A row for a method says what happens; its contract states it as the whole new state and everything sent.

| member | source | states |
|---|---|---|
| JsonValue.InsertKeepsSorted | client/3rdParty/jsonxx/jsonxx.cc:310-310 | storing an entry keeps the keys of an object in strictly increasing order |
| JsonValue.InsertThenLookup | client/3rdParty/jsonxx/jsonxx.cc:310-310 | storing an entry changes the value under its key and under no other |
| JsonValue.InsertAppends | client/3rdParty/jsonxx/jsonxx.cc:310-310 | entries stored in key order end up in that order |
| JsonPrinter.TagIsBody | client/3rdParty/jsonxx/jsonxx.cc:562-606 | the text of a value is its body between name and separator: in every container inside, removing the last comma replaced exactly the separator after the last entry |
| JsonPrinter.CommaRemovedExactly | client/3rdParty/jsonxx/jsonxx.cc:553-560 | only a comma in the last but one place of a text of three characters or more becomes a blank |
| JsonPrinter.ItemsTrimmed | client/3rdParty/jsonxx/jsonxx.cc:553-560 | removing the last comma after an array's items touches the last separator only, and nothing when there are no items |
| JsonPrinter.FieldsTrimmed | client/3rdParty/jsonxx/jsonxx.cc:553-560 | the same for an object's entries |
| JsonPrinter.PrintedText | client/3rdParty/jsonxx/jsonxx.cc:834-845 | the whole text of an object, with and without the removal of commas |
| JsonGrammar.Match | client/3rdParty/jsonxx/jsonxx.cc:55-75 | a match never leaves more text than there was, and a matched single character is always consumed |
| JsonGrammar.ParseValue | client/3rdParty/jsonxx/jsonxx.cc:338-376 | reading terminates on every input, comments included, and leaves no more text than there was, though a null may be read from a comma without consuming anything |
| JsonGrammar.ParseArray | client/3rdParty/jsonxx/jsonxx.cc:384-407 | the same for arrays |
| JsonGrammar.ParseObject | client/3rdParty/jsonxx/jsonxx.cc:272-319 | the same for objects |
| JsonStream.TextStream.Ws | client/3rdParty/jsonxx/jsonxx.cc:56-56 | skips exactly the blanks; running into the end makes the stream unusable |
| JsonStream.TextStream.ParseComment | client/3rdParty/jsonxx/jsonxx.cc:226-259 | skips a comment to the end of its line and the blanks after it, or leaves the stream where it was |
| JsonStream.TextStream.MatchRound | client/3rdParty/jsonxx/jsonxx.cc:59-73 | one round of the matching loop keeps the answer that the remaining text gives |
| JsonStream.TextStream.Match | client/3rdParty/jsonxx/jsonxx.cc:55-75 | the loop with its putbacks and comments answers and leaves the stream as the grammar's match does, also on a mismatch and at the end of the text |
| JsonStream.TextStream.StringBody | client/3rdParty/jsonxx/jsonxx.cc:89-142 | the character loop with its escapes gives the string and stops right after the closing delimiter, or fails at the end of the text |
| JsonStream.TextStream.ParseString | client/3rdParty/jsonxx/jsonxx.cc:77-143 | double-quoted strings, and single-quoted ones as the permissive reader allows |
| JsonStream.TextStream.ParseNumber | client/3rdParty/jsonxx/jsonxx.cc:184-194 | a number and what follows it, or a rewound stream |
| JsonStream.TextStream.ParseBool | client/3rdParty/jsonxx/jsonxx.cc:196-206 | true, false or neither, with the stream left behind |
| JsonStream.TextStream.ParseNull | client/3rdParty/jsonxx/jsonxx.cc:208-216 | null, or a comma ahead taken for null without reading it |
| JsonStream.TextStream.ParseValue | client/3rdParty/jsonxx/jsonxx.cc:338-376 | the attempts one after the other, each on the stream that the failed one before it left |
| JsonStream.TextStream.ParseArray | client/3rdParty/jsonxx/jsonxx.cc:384-407 | the loop collects the grammar's items in order and terminates; the items read before a failure are kept |
| JsonStream.TextStream.ParseObject | client/3rdParty/jsonxx/jsonxx.cc:272-319 | the loop stores the grammar's entries, a later one over an earlier one with the same key, and terminates; the entries read before a failure are kept |
| JsonStream.ReadText | client/3rdParty/jsonxx/jsonxx.cc:1058-1061 | reading a text from the start succeeds when the grammar reads an object, and leaves the entries read so far when it does not |
| JsonRoundTrip.EscapeRoundTrip | client/3rdParty/jsonxx/jsonxx.cc:516-548 | for every string and every rest: reading the escaped string up to the closing quote gives the string and leaves exactly the rest |
| JsonRoundTrip.QuotedReads | client/3rdParty/jsonxx/jsonxx.cc:77-143 | a quoted string after blanks is read back and the rest is left |
| JsonRoundTrip.DecimalParses | client/3rdParty/jsonxx/jsonxx.cc:184-194 | a printed integer is read back as the same number, up to the separator |
| JsonRoundTrip.BodyParses | client/3rdParty/jsonxx/jsonxx.cc:338-376 | the printed text of any nested value is read back as that value and reading stops at the separator, whether or not last commas are removed |
| JsonRoundTrip.ItemsParse | client/3rdParty/jsonxx/jsonxx.cc:394-402 | the loop over a printed array collects every item in order |
| JsonRoundTrip.FieldsParse | client/3rdParty/jsonxx/jsonxx.cc:282-311 | the loop over a printed object collects every entry |
| JsonRoundTrip.PrintThenRead | client/3rdParty/jsonxx/jsonxx.cc:834-845 | printing an object with non-empty keys and reading the text gives it back, invalid values as null; removing the last commas makes no difference to the reader |
| JsonStandard.EscapedIsStandard | client/3rdParty/jsonxx/jsonxx.cc:516-548 | an escaped string is a string of RFC 8259 (section 7) that stands for the original, character by character |
| JsonStandard.BodyIsStandard | client/3rdParty/jsonxx/jsonxx.cc:562-606 | the trimmed text of every nested value is a text of that value in the grammar of RFC 8259, which knows no trailing commas |
| JsonStandard.PrintedIsStandard | client/3rdParty/jsonxx/jsonxx.cc:834-845 | the printed text of an object without empty keys is JSON by RFC 8259 for that object: what removing the last commas is for |
| JsonExtensions.SingleQuotesRead | client/3rdParty/jsonxx/jsonxx.cc:79-88 | a string may stand in single quotes |
| JsonExtensions.EscapeReads | client/3rdParty/jsonxx/jsonxx.cc:94-132 | the two-character escapes of RFC 8259 are read as what they stand for; of any other both characters are kept |
| JsonExtensions.UnicodeReads | client/3rdParty/jsonxx/jsonxx.cc:116-125 | a `\u` escape, with digits of either case, gives the low eight bits of its code |
| JsonExtensions.OddCodesRead | client/3rdParty/jsonxx/jsonxx.cc:116-125 | a hexadecimal prefix or a sign among the four characters of a `\u` escape is let through |
| JsonExtensions.NoCodeReads | client/3rdParty/jsonxx/jsonxx.cc:116-125 | without any digit the escape stands for nothing |
| JsonExtensions.NumberReads | client/3rdParty/jsonxx/jsonxx.cc:184-194 | a number with sign, point and exponent is read exactly: all digits as one whole number times a power of ten |
| JsonExtensions.ScaleMeans | client/3rdParty/jsonxx/jsonxx.cc:184-194 | that power of ten |
| JsonExtensions.CommaIsNull | client/3rdParty/jsonxx/jsonxx.cc:208-216 | a comma where a value is expected is read as null and stays |
| JsonExtensions.CommentIsSkipped | client/3rdParty/jsonxx/jsonxx.cc:226-259 | a comment before a token is skipped up to the end of its line |
| JsonExtensions.CommentAtEnd | client/3rdParty/jsonxx/jsonxx.cc:226-259 | a comment cut off by the end of the text leaves nothing to read |
| JsonExtensions.CommentInside | client/3rdParty/jsonxx/jsonxx.cc:59-69 | a comment may stand inside a word; when the word does not go on behind it nothing is left to read |
| JsonExtensions.WordAtEnd | client/3rdParty/jsonxx/jsonxx.cc:55-75 | a word cut off by the end of the text is not matched, except that one ending in a double letter is matched without it |
| JsonExtensions.NulIsNull | client/3rdParty/jsonxx/jsonxx.cc:208-216 | so `nul` at the end of the text is read as null |
| JsonExtensions.BlanksAre | client/3rdParty/jsonxx/jsonxx.cc:56-56 | which characters are blanks |
| JsonExactness.ValueCosts | client/3rdParty/jsonxx/jsonxx.cc:338-376 | every entry the reader gives has cost it a colon of the text, whatever the text |
| JsonExactness.BodyPays | client/3rdParty/jsonxx/jsonxx.cc:562-606 | the printer writes as many colons as there are entries with a name, apart from those inside strings |
| JsonExactness.SurvivesExactly | client/3rdParty/jsonxx/jsonxx.cc:566-569 | an object survives printing and reading if and only if no key inside is empty and no value inside is invalid |
| JsonEnvelope.ObjectIsCanonical | client/3rdParty/jsonxx/jsonxx.cc:272-319 | whatever is read has sorted keys and no invalid value inside |
| JsonEnvelope.ReprintIsStable | client/3rdParty/jsonxx/jsonxx.cc:834-845 | an object read from any text is unchanged by printing and reading again if and only if no key is empty |
| JsonEnvelope.KeptIsCanonical | client/3rdParty/jsonxx/jsonxx.cc:282-311 | what a failed parse leaves behind, which the client reads, also has sorted keys and no invalid value; what a successful one gives is what it leaves |
| JsonEnvelope.BracketReads | client/3rdParty/jsonxx/jsonxx.cc:361-375 | a text that starts with an opening bracket reads as an array, or as an object exactly when no array can be read and an object stands where that attempt stopped, and as nothing else |
| JsonEnvelope.UnfinishedArrayIsSkipped | client/3rdParty/jsonxx/jsonxx.cc:361-370 | an opening bracket and any values with commas between them are lost when an object follows without a comma: the object is read instead |
| JsonEnvelope.EnvelopeEntries | client/source/Session.cpp:103-110 | an envelope has exactly the class, the session id and the printed message, and can itself be printed and read back |
| JsonEnvelope.EnvelopeIsLossless | client/source/Session.cpp:103-110 | the envelope's text is read back entry by entry, and reading its data gives the message if and only if the message survives printing |
| SequenceWindow.AcceptedExactly | server/src/main/scala/amaze/soft/SessionActor.scala:120-144 | an index is accepted exactly when it is 1 to 31 ahead modulo 1024; it becomes the highest, otherwise nothing changes, and the mask stays 0 |
| SequenceWindow.ZeroStaysZero | server/src/main/scala/amaze/soft/SessionActor.scala:120-144 | no index whatever takes the mask away from 0 |
| SequenceWindow.AcceptedInGeneral | server/src/main/scala/amaze/soft/SessionActor.scala:124-141 | the same for integers outside 0 to 1023 and any mask |
| SequenceWindow.Pow2Adds | server/src/main/scala/amaze/soft/SessionActor.scala:128-132 | the factor of the mask's shifts is a power of two |
| SequenceWindow.CheckIsFresh | client/source/Session.cpp:407-438 | the wrapped check answers as an unbounded one if and only if the index is ambiguous in no way: it is new, or its distance modulo 1024 does not look new |
| SequenceWindow.ReachIsUnambiguous | client/source/Session.cpp:413-426 | from -992 to 1024 of the highest index nothing is ambiguous, and the next index on either side is |
| SessionLaws.InitHolds | server/src/main/scala/amaze/soft/SessionActor.scala:62-71 | a new session waits for exactly its players |
| SessionLaws.StepKeeps | server/src/main/scala/amaze/soft/SessionActor.scala:146-268 | every event keeps the invariant and the set of names; a running session never waits again; a running session has stopped exactly when nobody is left |
| SessionLaws.RunKeeps | server/src/main/scala/amaze/soft/SessionActor.scala:146-268 | the same over every run |
| SessionLaws.StartsExactly | server/src/main/scala/amaze/soft/SessionActor.scala:154-175 | the session starts exactly at the ready message that completes the player set, and then sends one start message to each player at the address it joined from |
| SessionLaws.StartsOnce | server/src/main/scala/amaze/soft/SessionActor.scala:162-168 | over every run start messages go out at one event if the session came to run, at none otherwise |
| SessionLaws.ClosesExactly | server/src/main/scala/amaze/soft/SessionActor.scala:106-118 | the close message goes out exactly when the last player leaves, with the session's id |
| SessionLaws.ClosesOnce | server/src/main/scala/amaze/soft/SessionActor.scala:106-118 | over every run one close message if the session stopped, none otherwise |
| SessionLaws.GoneForGood | server/src/main/scala/amaze/soft/SessionActor.scala:189-190 | once running, a player that left never comes back |
| SessionLaws.DepartsExactly | server/src/main/scala/amaze/soft/SessionActor.scala:90-104 | a player leaves by its quit message or by a tick more than ten seconds after its last sign of life, and by nothing else |
| SessionLaws.LastPingIsHeard | server/src/main/scala/amaze/soft/SessionActor.scala:222-226 | over every run the time kept for a player is that of its last keep-alive or taken update |
| SessionLaws.SilentAreDropped | server/src/main/scala/amaze/soft/SessionActor.scala:90-104 | after every run a tick takes out exactly the players not heard for more than ten seconds |
| SessionLaws.LatestWins | server/src/main/scala/amaze/soft/SessionActor.scala:192-201 | over every run a present player's data is that of its update with the greatest timestamp |
| SessionLaws.OrderDoesNotMatter | server/src/main/scala/amaze/soft/SessionActor.scala:192-201 | two runs that deliver the same updates, in any orders and with any repetition, leave the same data |
| SessionLaws.StartsAtZero | server/src/main/scala/amaze/soft/SessionActor.scala:159-163 | at the start every player has timestamp 0 and a fresh request window |
| SessionLaws.SharedIsLatestTaken | server/src/main/scala/amaze/soft/SessionActor.scala:202-205 | the shared timestamp never decreases and is the maximum over the updates taken with shared data, with that update's data |
| SessionLaws.RunKeepsWindows | server/src/main/scala/amaze/soft/SessionActor.scala:120-144 | over every run all masks stay 0, and all stored indices stay below 1024 when no negative index arrives |
| SessionLaws.AcceptsExactly | server/src/main/scala/amaze/soft/SessionActor.scala:228-248 | in every reachable running state a request with an index below 1024 is scheduled and acknowledged exactly when the index is 1 to 31 ahead of the stored one modulo 1024; otherwise nothing is changed or sent |
| SessionLaws.WindowRefinesCounter | server/src/main/scala/amaze/soft/SessionActor.scala:228-248 | over every run without an ambiguous request exactly the fresh requests are scheduled, under consecutive indices, and acknowledged; the state is the unbounded one modulo 1024 |
| SessionLaws.TakenInOrder | server/src/main/scala/amaze/soft/SessionActor.scala:228-248 | the requests taken have strictly increasing indices: each at most once, in the order of issue |
| SessionAnswers.StartIsSent | server/src/main/scala/amaze/soft/SessionActor.scala:162-164 | start messages go out exactly when the last missing player gets ready, one to each player at its address |
| SessionAnswers.AcceptedIsSent | server/src/main/scala/amaze/soft/SessionActor.scala:169-171 | a player that gets ready is told so exactly as long as another one is missing |
| SessionAnswers.RefusedIsSent | server/src/main/scala/amaze/soft/SessionActor.scala:173-181 | refused are exactly strangers that get ready and keep-alives of players that are not there |
| SessionAnswers.StateIsSent | server/src/main/scala/amaze/soft/SessionActor.scala:206-210 | the state goes exactly to the sender of each update that is taken |
| SessionAnswers.SyncIsSent | server/src/main/scala/amaze/soft/SessionActor.scala:237-248 | a sync goes out exactly for each simple request, without an index, and each reliable one that the window accepts, under the player's next index |
| SessionAnswers.AckIsSent | server/src/main/scala/amaze/soft/SessionActor.scala:243-243 | an acknowledgement goes exactly to the sender of each reliable request that the window accepts |
| SessionAnswers.ClockReplyIsSent | server/src/main/scala/amaze/soft/SessionActor.scala:250-252 | a clock response goes exactly to the sender of each clock request in the running phase, with its id and time and the server's time |
| SessionAnswers.QuitIsTold | server/src/main/scala/amaze/soft/SessionActor.scala:254-259 | a quit is told exactly to the other players that are there and have another address than the sender |
| SessionAnswers.PingIsSent | server/src/main/scala/amaze/soft/SessionActor.scala:165-168 | a keep-alive goes exactly to each player still there after a tick of the timer, at its address, and at no other event |
| SessionAnswers.PlayerFollows | server/src/main/scala/amaze/soft/SessionActor.scala:90-104 | what each event does to a player that stays: address, time and data of its update, last sign of life, and the weak flag |
| SessionAnswers.RestFollows | server/src/main/scala/amaze/soft/SessionActor.scala:192-205 | what an event does to the shared data; in the running phase a ready message changes nothing |
| SessionAnswers.WaitsAsJoined | server/src/main/scala/amaze/soft/SessionActor.scala:156-181 | over every waiting run a player is there exactly when it got ready, with the address of its last ready message and a fresh window |
| SessionAnswers.StartsWhereJoined | server/src/main/scala/amaze/soft/SessionActor.scala:162-164 | over every run the start message reaches each player at the address of its last ready message |
| SessionActor.SessionActor.constructor | server/src/main/scala/amaze/soft/SessionActor.scala:62-73 | the fields of a new session |
| SessionActor.SessionActor.CheckAcknowledgment | server/src/main/scala/amaze/soft/SessionActor.scala:120-144 | answers as the shared check does for the player's window, and changes that player's window only |
| SessionActor.SessionActor.Ready | server/src/main/scala/amaze/soft/SessionActor.scala:156-175 | while waiting, a player of the session joins with a fresh window; the one that completes the set starts the session and all get a start message; a stranger is refused; once running it is ignored |
| SessionActor.SessionActor.KeepAlive | server/src/main/scala/amaze/soft/SessionActor.scala:177-181 | notes the time of a present player; a disconnected one is answered with a refusal, an unknown one ignored |
| SessionActor.SessionActor.Update | server/src/main/scala/amaze/soft/SessionActor.scala:192-214 | a newer update of a present player replaces timestamp and data, replaces the shared data if it brings any and is newer than that too, and is answered; anything else changes nothing |
| SessionActor.SessionActor.RequestSync | server/src/main/scala/amaze/soft/SessionActor.scala:228-248 | an accepted reliable request is scheduled under the old local index, which then moves on, and acknowledged; a refused one has no effect and no answer; a simple one is scheduled without an index |
| SessionActor.SessionActor.ClockSync | server/src/main/scala/amaze/soft/SessionActor.scala:250-252 | a running session echoes id and request time with its own time; a waiting one is silent |
| SessionActor.SessionActor.QuitImpl | server/src/main/scala/amaze/soft/SessionActor.scala:106-118 | takes the player out and closes the session if it was the last |
| SessionActor.SessionActor.Quit | server/src/main/scala/amaze/soft/SessionActor.scala:254-259 | the player leaves, and those still there at other addresses are told |
| SessionActor.SessionActor.CheckPlayer | server/src/main/scala/amaze/soft/SessionActor.scala:92-103 | one player of the timer's loop: dropped, marked weak, marked well or left alone |
| SessionActor.SessionActor.CheckConnection | server/src/main/scala/amaze/soft/SessionActor.scala:90-104 | the loop, in any order of the players, treats all players as the simultaneous step does and closes the session at most once |
| SessionActor.SessionActor.Tick | server/src/main/scala/amaze/soft/SessionActor.scala:165-168 | the timer's check followed by a keep-alive to those still there |
| SessionActor.SessionActor.Receive | server/src/main/scala/amaze/soft/SessionActor.scala:146-268 | every message and tick is the model's step and keeps the invariants of the session laws; a stopped actor does nothing |
| ClientModel.Resent | client/source/Session.cpp:385-391 | exactly the due entries get the current time, the others stay, in place |
| ClientLaws.RemovesFirst | client/source/Session.cpp:441-451 | acknowledging takes out the first entry with the index and keeps the order of the rest |
| ClientLaws.StepKeeps | client/source/Session.cpp:240-265 | every step keeps: at most 32 queued requests, in order of issue, each an unchanged copy of the one issued; the n-th request carries n modulo 1024; the time of the last message is right in local time |
| ClientLaws.EveryRun | client/source/Session.cpp:300-398 | the same in every state a session can come to |
| ClientCalls.RequestExactly | client/source/Session.cpp:250-258 | a reliable call on a started session with fewer than 32 requests waiting sends and queues one request with the call's sync id and delay, the next index and the current time; any other one has no effect |
| ClientCalls.IssuedAreCalls | client/source/Session.cpp:245-258 | over every run the n-th request issued carries the sync id and delay of the n-th granted call, and n modulo 1024 |
| ClientCalls.StartedStep | client/source/Session.cpp:360-382 | what starts and stops a session in one step |
| ClientCalls.StartedExactly | client/source/Session.cpp:82-92 | after every run a session is started if and only if it was begun and since then neither left, nor quit under its own name, nor found silent for more than ten seconds |
| ClientCalls.AsksStep | client/source/Session.cpp:392-395 | a clock request goes out exactly at a start and when the estimate is more than 30 seconds past the last counting response, with the new id and the estimate |
| ClientCalls.AsksExactly | client/source/Session.cpp:392-395 | the same after every run in local time: the time since the last counting response plus how far that response moved the clock |
| ClientCalls.SaysGoodbye | client/source/Session.cpp:82-92 | the player's quit goes out exactly when a started session is left |
| ClientCalls.CountsExactly | client/source/Session.cpp:300-374 | a call of `receive` returns the number of datagrams read that are no keep-alives, at most the limit |
| ClientLaws.SentIsPending | client/source/Session.cpp:383-391 | every request that is ever sent, first or again, is an exact copy of a pending one |
| ClientLaws.ResendsAreDue | client/source/Session.cpp:385-391 | what is sent again is exactly the due entries, in queue order |
| ClientLaws.NothingIsLate | client/source/Session.cpp:383-391 | after `receive` with the session still started no entry is older than the interval, and indices and payloads are unchanged |
| ClientLaws.QueuedAreDistinct | client/source/Session.cpp:95-100 | while fewer than 1024 requests separate the oldest queued one from the next, queued indices are distinct |
| ClientLaws.RemovesItsOwn | client/source/Session.cpp:441-451 | acknowledging a queued request takes out that one if and only if no earlier queued one was issued a multiple of 1024 requests before it |
| ClientLaws.RemovesExactly | client/source/Session.cpp:441-451 | in particular while fewer than 1024 requests separate the oldest queued one from the next |
| ClientLaws.RemovesNothingElse | client/source/Session.cpp:441-451 | an index that no queued request has takes nothing out |
| ClientLaws.LeavesExactly | client/source/Session.cpp:332-347 | exactly which requests leave the queue at an acknowledgement or a sync with an index below 1024: the earliest with that index, if the index is 1 to 31 ahead |
| ClientLaws.AcceptsExactly | client/source/Session.cpp:407-438 | in every reachable state an index below 1024 is accepted exactly when it is 1 to 31 ahead of the stored one modulo 1024, and otherwise nothing changes |
| ClientLaws.SyncReaches | client/source/Session.cpp:332-337 | in every reachable state a sync with an index reaches the application exactly when the index is 1 to 31 ahead of the stored one modulo 1024, and one without an index always does |
| ClientLaws.AckHidesSync | client/source/Session.cpp:332-347 | after an accepted acknowledgement the sync with the same index is refused until the stored index has moved on by more than 992 |
| ClientLaws.TimesOutExactly | client/source/Session.cpp:375-382 | after every run the session times out exactly when more than 10000 ms of local time have passed since the last start or handled datagram, however often the clock was moved |
| ClientLaws.PingFollowsSample | client/source/Session.cpp:137-146 | the ping moves only with a sample: a clock response sets it, a keep-alive takes it towards the sample, never past it, and halves the distance up to rounding |
| ClientLaws.PingStaysWithin | client/source/Session.cpp:137-146 | over every run the ping stays within any bounds that hold for its first value and for all samples |
| ClientLaws.PingOfNew | client/source/Session.cpp:137-146 | so the ping of a new session is never negative and never above its greatest sample |
| ClientLaws.LoopIsRun | client/source/Session.cpp:304-374 | the receiving loop handles a prefix of the datagrams one step each, and says why it stopped |
| ClientLimits.SyncLooksLikeAck | client/source/Session.cpp:332-337 | a delivered request of another player can take an unacknowledged own one out of the queue; `ClientLaws.LeavesExactly` is the exact condition |
| ClientLimits.LongWaitConfuses | client/source/Session.cpp:441-451 | the bound of 1024 is sharp: a run after which an acknowledgement takes out the wrong request |
| ClientClock.SameId | client/source/Session.cpp:125-134 | a request has the id of the last one exactly when it is a multiple of 255 requests older |
| ClientClock.AnswerErrs | client/source/Session.cpp:348-358 | the error after any response that counts, from the round trip, the time of the server's stamp and how far the clock moved in between |
| ClientClock.EveryRunErrs | client/source/Session.cpp:348-358 | over every run, with responses lost, late and repeated, the estimate is off by exactly that |
| ClientClock.CloseExactly | client/source/Session.cpp:348-358 | a response is sure to leave at most half the round trip of error if and only if the clock was not moved between request and response, up to rounding, and the measured round trip is not negative |
| ClientClock.EstimateExactly | client/source/Session.cpp:348-358 | both together, after every run of a new session |
| ClientClock.AnswerCounts | client/source/Session.cpp:348-358 | in orderly runs a response counts exactly when it answers the last request; then the estimate is off by at most half of this round trip, whatever it was before; otherwise it stays |
| ClientClock.LocalKeeps | client/source/Session.cpp:300-398 | no other action moves the clock, and each clock request carries the next id and the current estimate |
| ClientClock.RunKeeps | client/source/Session.cpp:125-134 | over every orderly run the clock does not move between a request that counts and its response |
| ClientClock.EstimateIsClose | client/source/Session.cpp:348-358 | after every orderly run, each response at most once and within 255 requests, the estimate is off by at most half the round trip of the last response that counted: errors never add up |
| ClientClock.RepeatCounts | client/source/Session.cpp:348-358 | a repeated response counts again, with the clock moved by what the first delivery moved it |
| ClientClock.DuplicateSpoils | client/source/Session.cpp:348-358 | for instance an error 50 times the bound |
| ClientClock.LateAnswerCounts | client/source/Session.cpp:127-127 | a response to the request 255 before the last one is taken for the last one's |
| Client.Session.constructor | client/source/Session.cpp:65-73 | the fields of a new session |
| Client.Session.GetNextSeqIdx | client/source/Session.cpp:95-100 | gives the index and moves to the next one |
| Client.Session.SendClockSync | client/source/Session.cpp:125-134 | the id moves on modulo 255 and goes out with the current estimate of the time |
| Client.Session.Startup | client/source/Session.cpp:190-194 | the session is started, the clock asked for, and the last message is now |
| Client.Session.Sync | client/source/Session.cpp:240-265 | a reliable request goes out under the next index and is queued with the current time, or is refused when 32 are queued; an unreliable one goes out with index 1025; before the start an exception |
| Client.Session.Quit | client/source/Session.cpp:82-92 | a started session says goodbye and is stopped; otherwise nothing happens |
| Client.Session.RemoveAcknowledged | client/source/Session.cpp:441-451 | the search loop takes out the entry the model takes out |
| Client.Session.CheckAcknowledgement | client/source/Session.cpp:407-438 | answers as the shared check does and acknowledges exactly when it accepts |
| Client.Session.UpdatePing | client/source/Session.cpp:137-146 | after a first clock response and for a stamp ahead of the estimate the new ping lies between the old one and the sample; otherwise it stays |
| Client.Session.OnDatagram | client/source/Session.cpp:305-373 | each kind of datagram has its effect, the application gets the sync ids that are accepted, and the time of the last message is noted afterwards, on the moved clock |
| Client.Session.ReceiveLoop | client/source/Session.cpp:302-374 | the loop handles what the model's loop handles; keep-alive messages are not counted |
| Client.Session.Resend | client/source/Session.cpp:384-391 | the loop sends the due payloads in order and sets their times |
| Client.Session.Receive | client/source/Session.cpp:300-398 | the whole call: loop, timeout, resending and clock request |
| Delivery.CopiesAreWrapped | client/source/Session.cpp:254-257 | copies of what a client issued carry the wrapped indices that the server's law needs |
| Delivery.ScheduledAreTaken | server/src/main/scala/amaze/soft/SessionActor.scala:228-248 | the sync ids scheduled are those of the requests taken |
| Delivery.InIssueOrder | server/src/main/scala/amaze/soft/SessionActor.scala:228-248 | client and server together: over every run of each the server schedules some of the application's calls, each at most once, in the order in which they were made, with the sync ids they gave |
| Delivery.ServerResponds | server/src/main/scala/amaze/soft/SessionActor.scala:250-252 | a running server's only answer to a clock request is the response the clock laws assume |
| ClosedLoop.AccountedExactly | client/source/Session.cpp:332-347 | an acknowledgement or a sync with an index leaves every issued request pending or taken if and only if the entry it takes out, if any, was taken by the server |
| ClosedLoop.NeverFarAhead | client/source/Session.cpp:251-253 | the newest request is never more than 32 ahead of the highest one taken |
| ClosedLoop.OnlyStaleIsAmbiguous | server/src/main/scala/amaze/soft/SessionActor.scala:120-144 | so only a copy more than 992 behind can be mistaken by the server |
| ClosedLoop.ServerStep | server/src/main/scala/amaze/soft/SessionActor.scala:228-248 | a fresh copy is scheduled under the number of requests taken so far plus one, modulo 1024, and acknowledged; any other copy is dropped |
| ClosedLoop.MoveKeeps | server/src/main/scala/amaze/soft/SessionActor.scala:228-248 | client and server in one run: every move keeps both invariants, that exactly the requests taken are acknowledged, that each issued request is pending or taken, and that a full queue holds the newest |
| ClosedLoop.GoneMeansTaken | client/source/Session.cpp:332-347 | in every joint run in which no datagram takes out an entry that the server did not take, a request that left the queue was taken by the server |
| ClosedLoop.IdleSyncLosesNothing | client/source/Session.cpp:332-337 | that condition holds of a sync whose index takes no entry out |
| ClosedLoop.OwnIndexLosesNothing | client/source/Session.cpp:344-347 | and of an acknowledgement or sync with the index of a request taken, if no other pending request has the same index |
| ClosedLoop.NearIndexLosesNothing | client/source/Session.cpp:344-347 | in particular if all pending requests are less than 1024 from it |
| ClosedLoop.OwnSyncIndex | server/src/main/scala/amaze/soft/SessionActor.scala:230-242 | the k-th request taken comes back as the sync with index k modulo 1024; that is its own index exactly when the number of requests skipped before it is a multiple of 1024 |
| ClosedLoop.OwnSyncLosesNothing | server/src/main/scala/amaze/soft/SessionActor.scala:230-242 | while nothing is skipped the own sync of a request loses nothing, if no other pending request has its index |
| ClosedLoop.AckHidesOwnSync | client/source/Session.cpp:334-335 | then a client that accepts the acknowledgement first does not see its own reliable sync |
| ClosedLoopRuns.OwnSyncLosesRequest | server/src/main/scala/amaze/soft/SessionActor.scala:230-242 | a run, for all names and any session: after an overtaken request the client's own sync takes out a request that the server never got |
| ClosedLoop.TakingOvertakes | server/src/main/scala/amaze/soft/SessionActor.scala:120-144 | taking a request overtakes every earlier one not taken before |
| ClosedLoop.OvertakenForGood | client/source/Session.cpp:384-391 | an overtaken request is never taken and never acknowledged, and stays in the queue for good |
| ClosedLoop.AtMost31Overtaken | client/source/Session.cpp:251-253 | a full queue holds the newest request, which is never overtaken, so at most 31 queued requests are |
| ClosedLoop.NeverAllOvertaken | client/source/Session.cpp:251-253 | the same after every joint run |
| ClosedLoop.BlockedForGood | client/source/Session.cpp:251-253 | once the queue is full of requests overtaken or taken, every reliable request is refused as long as no acknowledgement or sync with the index of one of the taken ones arrives |
| ClosedLoopRuns.BlockedIsReached | client/source/Session.cpp:251-253 | a run, for all names and any session, that ends with 31 overtaken requests and one taken request whose acknowledgement is lost |
| BackendModel.EmptyTableHolds | server/src/main/scala/amaze/soft/Backend.scala:49-50 | at the start all 256 ids are free, each once |
| BackendModel.CreateKeeps | server/src/main/scala/amaze/soft/Backend.scala:88-95 | creation takes a free id and fills exactly its slot; it gives -1 exactly when all 256 slots are taken |
| BackendModel.CloseKeeps | server/src/main/scala/amaze/soft/Backend.scala:97-105 | closing keeps the free stack without duplicates and in step with the empty slots |
| BackendModel.MessageMeansSender | server/src/main/scala/amaze/soft/SessionActor.scala:114-115 | a close message under way refers to the stopped session that still occupies its slot |
| BackendModel.SystemStepKeeps | server/src/main/scala/amaze/soft/Backend.scala:88-105 | every creation, session event and delivery keeps the invariant of table, actors and messages |
| BackendModel.EveryRunCounts | server/src/main/scala/amaze/soft/Backend.scala:88-105 | in every reachable state live and free are 256 together, an id is free exactly when its slot is empty, and creation fails exactly when all slots are taken |
| BackendModel.EveryCloseHitsItsSender | server/src/main/scala/amaze/soft/Backend.scala:97-105 | in every reachable state delivering a close message takes the slot from its sender and from no other session |
| BackendModel.CreatesExactly | server/src/main/scala/amaze/soft/Backend.scala:88-95 | creating adds one session that waits for exactly the players given, in the slot of its id under its name, and changes nothing when all 256 slots are taken |
| BackendModel.ClosedIsNext | server/src/main/scala/amaze/soft/Backend.scala:97-105 | the id freed last is the next one given out |
| BackendModel.FirstIds | server/src/main/scala/amaze/soft/Backend.scala:49-50 | a new backend gives out the ids from 0 on |
| Backend.Backend.constructor | server/src/main/scala/amaze/soft/Backend.scala:49-50 | the array and the stack of a new backend |
| Backend.Backend.CreateSession | server/src/main/scala/amaze/soft/Backend.scala:88-95 | the top free id is taken and its slot filled, nothing else changes, and the invariant is kept; -1 and no change when the stack is empty |
| Backend.Backend.CloseSession | server/src/main/scala/amaze/soft/Backend.scala:97-105 | an occupied slot is emptied and its id pushed, an empty one left alone, and the invariant is kept |
| Backend.Backend.Envelop | server/src/main/scala/amaze/soft/Backend.scala:71-75 | a message goes to the session of that id exactly when the id is not free; outside the array it is refused |
| LobbyModel.RemoveAt | server/src/main/scala/amaze/soft/LobbyActor2.scala:122-122 | taking out a player takes out exactly that one and keeps the order of the rest |
| LobbyLaws.PlayersShape | server/src/main/scala/amaze/soft/LobbyActor2.scala:88-214 | a message adds a new last player, takes out exactly one or leaves the players alone; ejection never takes the host; the room ends exactly at a close or when the last one leaves |
| LobbyLaws.RoomStepKeeps | server/src/main/scala/amaze/soft/LobbyActor2.scala:88-214 | a running room always has a host and distinct names, in the order of joining |
| LobbyLaws.CacheFollows | server/src/main/scala/amaze/soft/Depot.scala:68-79 | every message keeps a room's entry conservative |
| LobbyLaws.SystemStepKeeps | server/src/main/scala/amaze/soft/Depot.scala:46-79 | a message to any room keeps all rooms and all entries right |
| LobbyLaws.OneToOne | server/src/main/scala/amaze/soft/Depot.scala:46-66 | in every reachable state entries and running rooms correspond one to one by name and handler, at most 256 of them, and every handler is a room |
| LobbyLaws.RegistryIsConservative | server/src/main/scala/amaze/soft/LobbyActor2.scala:115-202 | in every reachable state an entry has the current host, limit and reserved places; the real player list is a subsequence of the registered one, and equal if and only if nobody was ejected since the registry was last told |
| LobbyLaws.EjectionIsNotRegistered | server/src/main/scala/amaze/soft/LobbyActor2.scala:115-125 | a run, for all names, after which the room has one player and its entry lists two |
| LobbyLaws.ZombieIsHarmless | server/src/main/scala/amaze/soft/LobbyActor2.scala:216-222 | a room whose start fails or failed never changes the registry |
| LobbyLaws.CapacityKept | server/src/main/scala/amaze/soft/LobbyActor2.scala:165-169 | over every run no room has more players than unreserved places |
| LobbyLaws.HandleKeepsSound | server/src/main/scala/amaze/soft/LobbyActor2.scala:63-222 | every message keeps a room with a host, different names and no more players than unreserved places |
| LobbyLaws.HandleKeepsHosted | server/src/main/scala/amaze/soft/LobbyActor2.scala:50-52 | a running room keeps a host at every message, even if its names were not different |
| LobbyLaws.RoomsAreSound | client/source/Lobby.cpp:113-118 | in every reachable state, with creation arguments that pass the client's check, a running room has between one player and its unreserved places, distinct names, and as host the earliest-joined player still there |
| LobbyLaws.NewHostIsAnnounced | server/src/main/scala/amaze/soft/LobbyActor2.scala:184-197 | the new-host flag is sent exactly when a departure changes the host, and nothing else changes it |
| LobbyAnswers.RoomReplyIsSent | server/src/main/scala/amaze/soft/LobbyActor2.scala:72-75 | the room goes exactly to a creator whose name is free with fewer than 256 rooms registered, and to a player that is admitted |
| LobbyAnswers.CreationIsRefused | server/src/main/scala/amaze/soft/LobbyActor2.scala:76-82 | which refusal a creator gets |
| LobbyAnswers.JoinIsRefused | server/src/main/scala/amaze/soft/LobbyActor2.scala:177-182 | which refusal a player that is not admitted gets |
| LobbyAnswers.EjectionIsTold | server/src/main/scala/amaze/soft/LobbyActor2.scala:115-125 | who is told to be out, with which flags: the player the host ejects, and all players of a room that is closed |
| LobbyAnswers.ReconfigurationIsTold | server/src/main/scala/amaze/soft/LobbyActor2.scala:127-141 | a host whose players do not fit is refused; otherwise exactly the players are told |
| LobbyAnswers.NoticeIsSent | server/src/main/scala/amaze/soft/LobbyActor2.scala:184-197 | who is notified of an admission, an ejection and a departure, with which flags |
| LobbyAnswers.ModeFollows | server/src/main/scala/amaze/soft/LobbyActor2.scala:63-82 | when a room runs, is a zombie and stops |
| LobbyAnswers.ReconfiguresExactly | server/src/main/scala/amaze/soft/LobbyActor2.scala:127-141 | a host's request with places for its players is stored and registered; any other one changes neither room nor registry |
| LobbyAnswers.MessageAgrees | server/src/main/scala/amaze/soft/LobbyActor2.scala:88-214 | every message does to a room what it does to its content, which is computed from the messages alone |
| LobbyAnswers.RoomIsReplayed | server/src/main/scala/amaze/soft/LobbyActor2.scala:63-202 | in every reachable state a running room is what the messages it got make of it: name, description and parameter of its creation, limit and reserved places of its last granted reconfiguration or else of its creation, and its players one by one |
| LobbyAnswers.FitsWhatWasAsked | client/source/Lobby.cpp:113-118 | so no room ever has more players than the places that were asked for |
| Lobby.Depot.RegisterLobby | server/src/main/scala/amaze/soft/Depot.scala:46-58 | a new name is entered while there are fewer than 256; a known name or a full registry is reported and nothing changes |
| Lobby.Depot.UnregisterLobby | server/src/main/scala/amaze/soft/Depot.scala:60-66 | exactly the entry of that name is gone |
| Lobby.Depot.UpdateRoomInfo | server/src/main/scala/amaze/soft/Depot.scala:68-79 | a known room gets the new information and keeps its handler; an unknown one is ignored |
| Lobby.LobbyActor.Init | server/src/main/scala/amaze/soft/LobbyActor2.scala:64-82 | the creator becomes host and first player; the room runs if it could be registered and is a zombie otherwise |
| Lobby.LobbyActor.Join | server/src/main/scala/amaze/soft/LobbyActor2.scala:165-182 | below capacity a player with a new name is added last, the registry is told and the others are notified; otherwise nothing but a refusal |
| Lobby.LobbyActor.EjectPlayer | server/src/main/scala/amaze/soft/LobbyActor2.scala:115-125 | only for the host and not for itself, the named player is taken out and told; the registry is not |
| Lobby.LobbyActor.Reconfigure | server/src/main/scala/amaze/soft/LobbyActor2.scala:127-141 | only for the host: new limits that fit the players are taken and registered, others refused |
| Lobby.LobbyActor.Disconnected | server/src/main/scala/amaze/soft/LobbyActor2.scala:184-202 | the sender is taken out; the registry is told and the others notified, with the new-host flag if it was the host; the last one ends the room and its entry |
| Lobby.LobbyActor.Close | server/src/main/scala/amaze/soft/LobbyActor2.scala:204-210 | all players are ejected with the closing flag, the entry is removed and the room stops |
| Lobby.LobbyActor.Receive | server/src/main/scala/amaze/soft/LobbyActor2.scala:63-222 | every message, in the mode the room is in, is the model's step; the room stays hosted and sound, so it can take the next message |

## Left out

- JsonRoundTrip.PrintThenRead: numbers are integers below 10^19 in size, the ones the stream prints in plain decimal with the 19 digits of an 80-bit `long double`; other numbers are printed rounded, so they do not survive.
- JsonStream.TextStream.ParseNumber: the number read is exact; rounding to `long double` and the failure of a number too large for it are not modelled, and the extraction `input >> value` is one step.
- JsonStream.TextStream.ParseObject: the branch for unquoted keys is compiled off in this repository and not modelled; nor are the strict parser and the freeing of replaced values.
- SessionActor.SessionActor.Update: the answer is to the sender also when a broadcast is forced; the broadcast to all, which raises an exception half way when a player has left, and the content of state messages are not modelled.
- SessionActor.SessionActor.RequestSync: the delay of a scheduled sync, and the players it goes to when the delay is over, are not modelled.
- SessionActor.SessionActor.Receive: chat messages to all players are not modelled.
- Lobby.LobbyActor.Receive: starting a session, which passes the room's names to the backend and changes nothing in the room, chat messages and the forwarding of updates from clients are not modelled.
- Client.Session.Startup: begins with the start message; the waiting loop before it, which repeats the ready message, is not modelled.
- SessionLaws.WindowRefinesCounter: assumes that no request is ambiguous; for one that is the code errs, as `SequenceWindow.CheckIsFresh` shows.
- SessionLaws.AcceptsExactly: assumes that no negative index arrives, which a client cannot send.
- SessionLaws.OrderDoesNotMatter: is about private data only; shared data depends on which updates were taken, hence on their order.
- ClientLaws.AcceptsExactly: assumes that delivered acknowledgements carry indices below 1024, as those of the server do.
- ClientClock.EstimateIsClose: responses arrive at most once and before 255 more requests are sent; `ClientClock.EstimateExactly` has neither condition. A round trip is less than 2^64 ms in both.
- Delivery.InIssueOrder: does not say that every request arrives: `ClosedLoop.OvertakenForGood` shows that some never do.
- ClosedLoop.GoneMeansTaken: assumes that no acknowledgement or sync takes out a request that the server did not take, and that no copy more than 992 behind is ambiguous; each is a check of the state before the step, and the first one is exact (`ClosedLoop.AccountedExactly`). A run ends when the server's session stops.
- ClosedLoop.OvertakenForGood: holds under the same assumptions; an ambiguous copy of an overtaken request is taken out of order.
- LobbyLaws.RoomsAreSound: needs the client's check of the creation arguments, which the server does not repeat.
- Times, timestamps and sequence numbers are unbounded integers, except for half the round trip, which is computed modulo 2^64 as in the code; the narrowing assertions, `assert(currTime > requestTime)` in the handling of a clock response (client/source/Session.cpp:354), which a debug build fails on some of the repeated responses that `ClientClock.EstimateExactly` covers, and the jump of the time of day at midnight are not modelled.
- A character of the model's strings stands for one byte.
- Sockets, framing, schedulers and Akka: a run is a sequence of deliveries, ticks and calls; the race between the timer and the actor is not modelled.
- Parsing of messages on the server by lift-json, and the answers to ill-typed messages.
- The callbacks of the application and calls they make into the session.
- The frontend and its connections.
- The XML writers, `validate`, `reformat` and the printing of a bare array, which is that of an object with other brackets.
