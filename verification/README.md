# C2Hat: a verified model of the chat protocol, its server and the structures below them

C2Hat is a chat server and client written in C. This project models what lies between its sockets and its
screen, in Dafny 4.11, and proves how it behaves on every input and in every interleaving:

- **Wire protocol** (`Message`, `Framing`, `MessageCodec`, with `CString` and `Trim`). Messages
  `/type [user] content\0` are printed into and sliced out of fixed char buffers, trimmed in place and read
  back through a moving cursor. `Message` and `Framing` say on strings what each routine does. `MessageCodec`
  and `Trim` run the same routines on arrays, cursors and leftovers of moved bytes, and are proved to do it.
  The laws are round trips: of one message (if and only if it is well formed), and of any batch that fits a
  receive buffer, filling it or not.
- **One chat session** (`Session`, `NicknamePattern`). What the server does with what one receive brings: the drain
  loop on the connection's buffer and the server's queue, and the loop it is meant to be; and the nicknames it
  accepts, as the regular expression of the source and as a test on bytes.
- **Server** (`Server`, `ServerProofs`, `BroadcastPass`). The accepting thread, one thread per connection, and the
  broadcast thread, as atomic steps over the client list, the message queue and the list's cursor, with
  invariants over all runs, the pass of a message over the list while clients come and go, and the way of a line
  from one keyboard to the other screens.
- **What a connection's thread does in which order** (`SessionScript`). The steps of a run alone, without the
  machine's phases: which may come behind which, in every run, and what follows for who may speak.
- **The server on the heap** (`Clients`, `ChatServer`). The client list as a `LinkedList.List` with the pointers
  that the threads have into it, the queue as a `LinkedQueue.CQueue`, a `MessageCodec.MessageBuffer` for each
  connection. Every method is proved to be one step of the machine; `Globals.Valid` ties the heap to the machine's
  state and holds all invariants of its runs; and `Globals.Schedule` performs any possible schedule.
- **Handshake** (`Handshake`, `HandshakeScript`). Client and server over two channels that keep records apart; and the
  same told by the events alone, which give every state, what may happen next, and the end.
- **Data structures** (`LinkedList`, `ListSort`, `LinkedQueue`, `Hash`). Heap nodes with full pointer
  invariants, refining sequences and a map; the in-place sort; the queue under interleaved pushes and pops.
- **INI parser** (`Ini`, `IniSyntax`, `IniParser`, `IniRoundTrip`), with the shapes that lines are written in and
  what each is read as, as built with `INI_ALLOW_MULTILINE=0` (`Makefile:145`) and the other defaults of
  `src/lib/ini/ini.h`.
- **Chat log window** (`ChatLog`). The cached messages and the page on display.

`dafny verify dfyconfig.toml` checks everything.

## Where the code does less than it is meant to

**The drain loop drops messages.** The loop at `src/server/server.c:880-908` is there to handle all messages of
one receive. After it has acknowledged and enqueued a text it calls `C2HMessage_free(&message)`, which sets
`message` to NULL, and the loop goes on only while `message` is not NULL. The rest of the receive stays unread
and the next `Server_receive` wipes it. The model keeps the loop as it is. `Session.SecondTextIsDropped` gives
the failing family, any two texts in one receive. `Session.DrainIsCompleteIff` says exactly when the loop does
its work: when at most one of the reads, up to the first quit or unreadable message, is a quit, a text with
content, or a read without a defined outcome.

**A client that leaves during a pass.** `List_delete` sends the cursor to the new first client when the first one
is deleted, and leaves it on the freed node when the client under it is (`src/lib/list/list.c:181-188`). The pass
of the broadcast thread uses that cursor. `BroadcastPass.DropKeepsPending` says exactly which deletions leave the
rest of the pass as it was: one of the first client while at most one client has been passed, and one of any
other client that is not under the cursor. `BroadcastPass.UnsafeDropRepeats` shows the other outcome for a first
client that leaves later: the second one gets the message once more. `BroadcastPass.FanOut` covers every pass
whose deletions are of the harmless kind.

Where the texts about the code differ from it, the model follows the code. Comments at
`src/server/server.c:896` and `src/client/client.c:492-494` speak of names of up to 20 characters; the pattern at
`src/server/server.c:46` admits 2 to 15. `docs/c2hat-protocol.md` gives a log line as `/log John55 just joined the
chat` and lets a client leave with `/quit` before it has a name; the server sends `/log [John55] just joined the
chat`, and while it authenticates it passes over every message but a `/nick`. `src/lib/list/list.c:333` calls the
sort a quick sort; it makes n(n-1)/2 comparisons on every list of n nodes.

## A condition on the chat log window

The module of the chat log window keeps its page on the log only if the window has lines when browsing is turned
on over a log that is not empty: `ChatLog.RunKeepsPage` is the exact condition on its calls, and
`ChatLog.UndrawnPageLeavesLog` a sequence of calls outside of it. The client does not make such calls. It draws
the window before any message can be logged (`src/client/ui.c:166-188`), so `ChatLog.PageStaysOnLog` is what holds
of it.

## Conventions

A `char` stands for one byte of a C string; the theorems hold for every alphabet that contains ASCII. In `Hash`
bytes are the numbers 0 to 255, read as signed or unsigned. `Outcome.Undefined` and `Sliced.Overrun` mark the
inputs on which the C code would touch memory outside the field or block it works on: a user of 60 bytes, whose
terminator falls behind the field; a tag that is all of the message and stands right behind the prefix; a
content of 1536 bytes or more; and text in front of a `/` in a buffer with no NUL behind it. The model gives
them an outcome of their own instead of excluding them. A built text that holds a `%` is used as a format once
more (`src/server/server.c:994`, `src/server/server.c:1011`) and is `Undefined` as well; steps that would print
one are not among the steps of the machines. What a send or a receive brings about is a parameter: `writes` for
the results of `SSL_write`, `record` for the bytes of one receive, `acks` for which acknowledgements go out, `sent`
for one send, `full`, `taken` and the timeouts of the handshake for what the other threads and the clock do.

The functions that state the format, `TypeOf`, `UserOf`, `ContentOf`, `ParsePayload`, `Parse`, `FormatText`,
`Encode`, `Create`, `CreateFromString`, `Slice`, `Get`, and likewise `Reads`, `Handle`, `IndexFor`, `Classify`,
`ParseText`, `Apply`, `After`, `Shown` and `OnLog` to `OnNextPage`, are specifications. The table names the
methods that are proved against them and the lemmas that say what they mean.

## Model

| member | source | states |
|---|---|---|
| Trim.LTrimInPlace | src/lib/trim/trim.c:33-54 | The bytes from the first kept one to the NUL have moved to the front of the string, and every other byte of the block, leftovers included, is as it was. |
| Trim.RTrimInPlace | src/lib/trim/trim.c:60-73 | Exactly the trailing separators have become NULs. |
| Trim.TrimInPlace | src/lib/trim/trim.c:79-81 | The whole block after both: the right end is cut first, then the rest moves down. |
| Trim.TrimmedString | src/lib/trim/trim.c:79-81 | Read as a C string, the block then holds the trimmed string. |
| Trim.TrimmedIs | src/lib/trim/trim.c:75-81 | Whatever separators a trimmed text is wrapped in, trimming gives that text back. |
| Trim.BlanksAreTrimmed | src/lib/trim/trim.c:75-81 | The six bytes of white space, and no space between words, are what a trim without a set of its own takes away. |
| MessageCodec.GetType | src/lib/message/message.c:242-277 | The prefixes tried in order, with a cursor that stays moved when a content is missing, find the type and cursor of the specification. |
| MessageCodec.FormatInto | src/lib/message/message.c:87-146 | The zeroed buffer ends up holding the encoding, cut to fit, and zeros; the result is the encoding's length and its NUL. |
| MessageCodec.Send | src/server/server.c:447-475 | However the writes split it, what has gone out is a prefix of the encoding with its NUL; success means all of it and its length, a negative result means a write failed. |
| MessageCodec.MessageBuffer.NextRaw | src/lib/message/message.c:154-204 | One read of the buffer gives the next slice and leaves contents and start pointer as specified, the reset on a full buffer included. |
| MessageCodec.MessageBuffer.NextMessage | src/lib/message/message.c:318-353 | One read and parse of the buffer, against the specification of both. |
| MessageCodec.ParseInPlace | src/lib/message/message.c:318-353 | Prefix, in-place trim, user and content taken through the cursor come to what the format says of the bytes. |
| MessageCodec.ReadTrimmed | src/lib/message/message.c:336-352 | What the pointers into the trimmed block pick out, including what a cursor behind the trimmed string finds. |
| MessageCodec.TrimmedMemory | src/lib/message/message.c:334 | The block behind the prefix after the trim, byte by byte. |
| MessageCodec.CreateInPlace | src/lib/message/message.c:210-234 | Printing into the buffer, taking the user and copying from behind the tag builds the specified message. |
| MessageCodec.CreateFromTyped | src/lib/message/message.c:289-311 | On the trimmed copy in memory, a typed line gives the message that `Message.TypedCommand`, `Message.ServerWordsAreRefused`, `Message.BareCommands` and `Session.PlainTextIsWrapped` tell of it. |
| MessageCodec.CopyField | src/lib/message/message.c:57-77 | A field of a fixed size holds the copied bytes and a NUL, and is read back as they are up to their first NUL. |
| MessageCodec.CopyContent | src/lib/message/message.c:336-352 | The content copied from the cursor into its field is that of the format; a copy that would leave the field is told apart. |
| Message.RoundTrip | src/lib/message/message.c:139-353 | A message whose encoding fits is read back as itself if and only if it is well formed. |
| Message.EncodeIsFullText | src/lib/message/message.c:87-146 | The two successive cuts of the printer amount to one cut of the full text, and to none when it fits. |
| Message.ParsedIsWellFormed | src/lib/message/message.c:318-353 | Whatever bytes come in, a message that is read is well formed, but for the emptiness of its content. |
| Message.ParsePlain | src/lib/message/message.c:334-352 | A message of a type without a user is read with its body trimmed, whatever the body holds. |
| Message.UserOfTag | src/lib/message/message.c:57-77 | A tag in front gives its user, whatever brackets follow. |
| Message.PayloadTagOnly | src/lib/message/message.c:346-350 | A tag with nothing behind it but the printer's blank is read as that user and no content, although the cursor then stands behind the trimmed string. |
| Message.PrefixAloneIsNoMessage | src/lib/message/message.c:255-274 | The types that need content are not read without it. |
| Message.TypedKinds | src/lib/message/message.c:289-311 | A typed line is sent as a text, a nickname or a quit, and is read as that type or not at all. |
| Message.TypedCommand | src/lib/message/message.c:299-309 | Whatever blanks stand around it, the content typed behind `/msg`, `/nick` or `/quit` is the content of the message, for every content that survives the wire, and its encoding is read back as that message. |
| Message.CommandIs | src/lib/message/message.c:299-309 | For every rest of a typed line behind one of the three prefixes: the message is built from the rest, trimmed. |
| Message.ServerWordsAreRefused | src/lib/message/message.c:299-309 | A typed `/ok`, and a typed `/log` or `/err` with anything behind it, is no message. |
| Message.BareCommands | src/lib/message/message.c:289-296 | A prefix that needs content, typed without any, is a text without content. |
| Message.UserIsFirstTag | src/lib/message/message.c:57-77 | A text has a given user if and only if its first opening bracket starts a tag with that user, closed by the first bracket behind it and of a legal length. |
| Message.WireExamples | src/lib/message/message.c:87-146 | What a text, a nickname, an error, an ok, a quit and a log line look like on the wire, letter by letter. |
| Framing.FramingRoundTrip | src/lib/message/message.c:154-204 | The encodings of any well-formed messages that fit the buffer together come out as those messages in order, and the next read finds nothing and resets the start pointer. |
| Framing.GetManyRaws | src/lib/message/message.c:318-353 | Reading as often as there are slices gives what each slice parses to, and uses them up. |
| Framing.SliceFirst | src/lib/message/message.c:161-203 | A read takes exactly the first of the slices that are left, also when it ends at the last byte. |
| Framing.SliceLast | src/lib/message/message.c:163-169 | With only zeros left a read finds nothing, wipes the buffer and resets the pointer. |
| Framing.SliceOf | src/lib/message/message.c:154-204 | For every way a `/`, text, and NUL can lie in what is left of the buffer: nothing to read, a partial message that is kept, bytes in front that are skipped, a message that ends the buffer, and the read that would leave it. |
| Session.HandleReceived | src/server/server.c:876-910 | Whatever is in the connection's buffer, the drain loop acknowledges, builds and pushes onto the server's queue, and quits, as `Session.HandleAt` and `Session.IdleReadsDoNothing` tell; it ends, and keeps a buffer that the next receive may wipe. |
| Session.IdleReadsDoNothing | src/server/server.c:889-904 | Reads that are neither a quit nor a text with content bring about nothing, in the loop as it is and as it is meant to be. |
| Session.HandleAt | src/server/server.c:880-908 | Behind any number of such reads, a quit ends the chat, an unreadable message or a read without an outcome ends the loop, and a text with content is acknowledged and, if that was sent, pushed with nothing done about the rest, and otherwise passed over. |
| Session.PushesComeFromTexts | src/server/server.c:889-901 | Whatever is enqueued is the broadcast of a read text with content. |
| Session.IntendedAt | src/server/server.c:879-900 | The same for the loop it is meant to be: it answers that text and goes on with the rest. |
| Session.CountingAt | src/server/server.c:879-908 | The reads that count are the quits and texts with content, up to the first quit, unreadable message or read without an outcome. |
| Session.HandleAnswersFirst | src/server/server.c:880-908 | With every send succeeding, the loop answers the first read that counts, and does nothing else; `Session.CountingAt` says which those are. |
| Session.IntendedAnswersAll | src/server/server.c:879-900 | The loop it is meant to be answers all the reads that count, one after the other. |
| Session.ReadsOfFilled | src/server/server.c:880-882 | Messages laid end to end in the buffer are what the reads of one receive find, and then no more. |
| Session.DrainIsCompleteIff | src/server/server.c:879-908 | The loop does all that it is there for if and only if at most one of the reads counts. |
| Session.SecondTextIsDropped | src/server/server.c:901-908 | Of any two texts that arrive in one receive the first is acknowledged and enqueued, and the second is not, though it was meant to be. |
| Session.Receive | src/server/server.c:584-615 | From any buffer: a receive wipes what was left unread, and the buffer then holds the new bytes and zeros, except where the branch for leftovers clears a byte behind the buffer, which is told apart. |
| Session.ReceiveAndHandle | src/server/server.c:858-910 | A receive and the drain loop behind it do what is specified of the arrived bytes, and can follow each other for ever. |
| Session.Broadcast | src/server/server.c:1004-1020 | Printing, using the text as a format, building and pushing leave on the queue exactly the specified message, or nothing where it has no outcome. |
| Session.SendMessage | src/server/server.c:986-1002 | Success means that the record of exactly that message went out, failure that a write failed. |
| Session.FrameIsWhole | src/server/server.c:590-593 | Whole messages leave the last byte of the buffer zero, so the next receive takes the wiping branch. |
| Session.BroadcastIs | src/server/server.c:1004-1020 | A broadcast that has an outcome carries its sender as the user and as much of the content as fits behind the tag. |
| Session.BroadcastCarriesSender | src/server/server.c:1004-1020 | Without a `%` it always has one. |
| Session.BroadcastIsDefinedIff | src/server/server.c:1004-1020 | A broadcast has an outcome if and only if there is no `%` in the sender's nickname and in what is kept of the content. |
| NicknamePattern.NicknamesMatch | src/server/server.c:46 | A nickname is valid if and only if the regular expression of the source matches it. |
| Session.PlainTextIsWrapped | src/lib/message/message.c:289-296 | A line without a prefix becomes a text with that content, and one that survives the wire. |
| Session.WireIsRead | src/lib/message/message.c:139-353 | The record of a message that can be sent reads as that message, and as nothing else. |
| Session.TypedLineIsHandled | src/server/server.c:889-901 | The record of a plain typed line makes the server acknowledge it and push it under the user's nickname, with the content unchanged. |
| BroadcastPass.Delivery | src/server/server.c:784-984 | End to end, over the machine's runs: a chatting user types a plain line (trimmed, with no type prefix, tag or `%`, that fits); its record reaches the server; whatever happens until it is its turn in the queue and its pass is over, every client that then had a nickname and has not left receives it exactly once, others nothing, in a record that reads as that user's message, unchanged. |
| ServerProofs.EveryRun | src/server/server.c:784-984 | In every interleaving: the list is within the limit; nicknames in use are valid and pairwise different; a session that failed has enqueued nothing, any other a prefix of joined, its texts, left, all under its nickname; and what was popped and then what is queued is an interleaving of what the sessions have enqueued, each in its own order, with nothing lost, made up or doubled. Which sessions fail and which may speak is said by `SessionScript`. |
| SessionScript.EveryScript | src/server/server.c:784-936 | In every run the steps of a connection come in the order of its thread: admitted, welcomed, records passed over, a nickname accepted, greeted, joined, talking, a quit or an end, bye, dropped, with a welcome or hello that was not sent, a refused nickname and a timeout each leading to the drop and nothing else; and the connection stands where its last step left it, under the nickname that was accepted. |
| SessionScript.NextDeed | src/server/server.c:784-936 | After any run a step of a connection that has an outcome can be taken if and only if that order has it next. |
| SessionScript.RefusedIsSilent | src/server/server.c:796-810 | A connection with a failed welcome or hello, a refusal or a timeout among its steps enqueues nothing in the whole run, and is on its way out or gone. |
| SessionScript.NothingAfterFailure | src/server/server.c:706-810 | The same by the steps themselves, for a record that at that moment holds no message, an invalid nickname or one that a listed client has. |
| SessionScript.OnlyGreetedSpeak | src/server/server.c:796-816 | A connection that has enqueued anything was welcomed, had its nickname accepted, was greeted under it and joined, in that order, and no other nickname was ever accepted from it. |
| ServerProofs.StepKeepsInvariant | src/server/server.c:784-984 | Every step of every thread keeps all of this. |
| ServerProofs.StepKeepsLimit | src/server/server.c:389-393 | The limit check and the append are separate steps, with drops in between, and still the list does not exceed the limit. |
| ServerProofs.RoomIsGiven | src/server/server.c:389-393 | A new connection gets in if and only if fewer than the limit are listed, and then stands at the end of the list. |
| ServerProofs.StepKeepsApart | src/server/server.c:725-732 | With lookup and storing as one step, no two listed clients come to the same nickname. |
| ServerProofs.StepKeepsSessions | src/server/server.c:784-936 | Each phase of a session has its kind of trace, and a nickname exactly from authentication on. |
| ServerProofs.PushesAreOwn | src/server/server.c:889-901 | Whatever one receive brings, all it enqueues are texts under the session's own nickname. |
| ServerProofs.StepKeepsList | src/server/server.c:510-544 | The list has every live connection exactly once, and an empty list has no cursor. |
| ServerProofs.StepConserves | src/server/server.c:955-978 | Every step keeps popped and queued messages an interleaving of the sessions' traces. |
| BroadcastPass.FanOut | src/server/server.c:955-978 | From the pop to the end of the pass, with clients joining, authenticating and, where that is harmless to the cursor, leaving: whoever had a nickname at the start and has not left receives the message exactly once, nobody receives it twice or receives anything else, and only clients with a nickname receive it. |
| BroadcastPass.DropKeepsPending | src/lib/list/list.c:181-188 | A deletion leaves the clients that are still to be visited as they were, without the deleted one, if and only if it is of the first client with at most one passed, or of another that is not under the cursor. |
| BroadcastPass.UnsafeDropRepeats | src/lib/list/list.c:181-188 | When the first client is deleted later than that, the second one receives the message again. |
| BroadcastPass.OnlyNamedReceive | src/server/server.c:966-967 | A step delivers to nobody but the client under the cursor, one message, and only if that client has a nickname at that moment. |
| BroadcastPass.NextVisits | src/lib/list/list.c:236-247 | One more visit keeps the account of who is still to be visited and who has received the message exact. |
| BroadcastPass.PassRun | src/server/server.c:959-975 | So does every run of harmless steps. |
| ChatServer.Globals.AppendClient | src/server/server.c:392-403 | The linked list gets the client at its end, with an empty buffer and the pointer for its thread; the heap then holds the machine's next state, with all invariants. |
| ChatServer.Globals.TryAuthenticate | src/server/server.c:706-755 | A record is received and read on the thread's own buffer; a valid nickname that the search finds with no listed client is written through the thread's pointer, and no other answer touches the list: the machine's step, on the heap. |
| ChatServer.Globals.SendWelcome | src/server/server.c:796-798 | The thread goes on to authenticate exactly if the whole welcome record went out, and stays where it is while a write is waiting. |
| ChatServer.Globals.SendHello | src/server/server.c:808-810 | The same for the hello, which carries the nickname of the client's own entry; `SessionScript.NothingAfterFailure` says what becomes of a client to whom it was not sent. |
| ChatServer.Globals.ChatOnce | src/server/server.c:858-909 | Receive and drain loop on the thread's buffer, pushing onto the linked queue, are the machine's step for those bytes; the answer says whether the chat is over. |
| ChatServer.Globals.Announce | src/server/server.c:813-816 | The joined or left message is printed, built and pushed onto the linked queue under the nickname of the thread's own entry. |
| ChatServer.Globals.DropClient | src/server/server.c:510-544 | The search by thread and the deletion take exactly that client off the linked list, with the cursor where the machine has it. |
| ChatServer.Globals.PopAndRewind | src/server/server.c:955-958 | The oldest message comes off the linked queue and the list is rewound, as the machine's step has it; nothing comes off exactly if the queue is empty. |
| ChatServer.Globals.SendToNext | src/server/server.c:959-975 | The cursor of the linked list moves on; the client it stood on is handed out exactly if it has a nickname, and the pass is over exactly if there was none. |
| ChatServer.Globals.Schedule | src/server/server.c:376-984 | Any schedule of the threads' steps that the machine can take is performed on the heap, which ends up holding the state of that run, with every invariant of runs. |
| Clients.ClientList.Add | src/server/server.c:392-402 | The client is at the end of the list, the cursor on it if it is the first, and its thread's pointer leads to it. |
| Clients.ClientList.FindNickname | src/server/server.c:567-576 | Found if and only if a client on the list has the nickname. |
| Clients.ClientList.FindThread | src/server/server.c:551-560 | The place of the thread's client. |
| Clients.ClientList.SetNickname | src/server/server.c:729-732 | Writing through the thread's pointer renames that entry and no other. |
| Clients.ClientList.Remove | src/server/server.c:528-537 | Exactly the thread's client is cut out; the cursor moves only if it was the first. |
| Clients.ClientList.Advance | src/server/server.c:962 | The client under the cursor, and the cursor on the next one or behind the last. |
| Handshake.Agreement | src/client/client.c:500-585 | In every reachable state: the two sides never wait for each other on empty channels; a client that is done has authenticated if and only if the server let it in; when the server has let it in, the client is through or has just the ok left to read; and the name let in is the one offered, valid and long enough. What was asked and answered on the way is said by `HandshakeScript`. |
| HandshakeScript.EveryExchange | src/client/client.c:298-585 | Whatever happens, what each side has done so far gives the whole state, with every record under way; it says exactly what may happen next; and no exchange has more than eight events. |
| HandshakeScript.LetIn | src/server/server.c:727-810 | Who is let in found room, gave a name that was free when it was read, and was sent the hello; no exchange with a taken name, a full server or a timeout of the server ends with the client let in or through. |
| HandshakeScript.TurnsDoNotMatter | src/client/client.c:298-585 | Two exchanges in which either side does the same lead to the same state, however the two take turns. |
| HandshakeScript.EveryExchangeEnds | src/server/server.c:667-810 | Something other than a timeout can happen if and only if the exchange is not over on both sides, for every name that is free of `%` as the server receives it. |
| HandshakeScript.NextEvent | src/server/server.c:667-810 | One state: an event is possible if and only if what was done allows it. |
| Handshake.CanSucceed | src/server/server.c:667-776 | Some run authenticates the client if and only if its name is long enough for the client, and valid and free of `%` as the server receives it. |
| Handshake.ReachableIsConsistent | src/client/client.c:323-350 | Every event keeps a complete account of the records under way in terms of where both sides are. |
| Handshake.EventKeeps | src/server/server.c:667-810 | One event keeps that account. |
| Handshake.NickHeard | src/client/client.c:533-542 | The server hears the client's name cut to what fits a message and trimmed. |
| Handshake.Heard | src/server/server.c:986-1002 | A word of the server is heard as its type and its text. |
| Handshake.AuthenticateClient | src/client/client.c:500-585 | What it sends and whether it succeeds is what the client of the exchange comes to by reading the same records from the prompt on, whatever the server is at. |
| Handshake.ReadAllReaches | src/client/client.c:513-584 | Reading those records is a run of the exchange, so the agreement speaks of it. |
| LinkedList.List.Insert | src/lib/list/list.c:106-157 | At a legal position a fresh node is spliced in there, links mirrored and ends exact; at any other nothing changes. |
| LinkedList.List.Append | src/lib/list/list.c:96-98 | The value is added at the end, the first one also sets the cursor. |
| LinkedList.List.Prepend | src/lib/list/list.c:101-103 | The value is added in front. |
| LinkedList.List.Delete | src/lib/list/list.c:160-205 | At a legal position exactly that node is cut out; the cursor moves only for the first; elsewhere nothing changes. |
| LinkedList.List.Update | src/lib/list/list.c:208-232 | At a legal position the payload is replaced and every link stays; elsewhere nothing changes. |
| LinkedList.List.Next | src/lib/list/list.c:236-247 | From the node at place k: the value at k, and the cursor at k + 1 or behind the last; from behind the last, nothing. |
| LinkedList.List.Prev | src/lib/list/list.c:251-262 | From the node at place k: the value at k, and the cursor at k - 1 or in front of the first. |
| LinkedList.Traverse | src/server/server.c:958-964 | Rewound and read until there is nothing more, the list gives its values in order, each once. |
| LinkedList.List.First | src/lib/list/list.c:265-270 | The first value, or nothing exactly for an empty list. |
| LinkedList.List.Last | src/lib/list/list.c:273-278 | The last value, or nothing exactly for an empty list. |
| LinkedList.List.Rewind | src/lib/list/list.c:281-287 | The cursor goes to the first node, if there is one. |
| LinkedList.List.Search | src/lib/list/list.c:290-307 | The least position whose size and content both match, or -1 if there is none. |
| LinkedList.List.ItemAt | src/lib/list/list.c:310-321 | The value at a legal position, and nothing elsewhere. |
| LinkedList.SplicedLinked | src/lib/list/list.c:142-153 | The rewiring around a new node leaves next and prev mirror images all along the list. |
| LinkedList.CutLinked | src/lib/list/list.c:175-195 | So does the rewiring around a removed node. |
| ListSort.Sort | src/lib/list/list.c:390-394 | For any total preorder: ascending, a permutation of the payloads, every node and pointer in place, and n(n-1)/2 comparisons for n nodes. |
| ListSort.QuickSortList | src/lib/list/list.c:340-387 | A segment is sorted with everything outside it untouched, it ends, the number of comparisons is fixed by its length, and the call for the right-hand side is never reached. |
| ListSort.MaximumToFront | src/lib/list/list.c:351-367 | One pass brings a maximum of the segment to its front, keeping the segment's payloads, with one comparison per other node. |
| ListSort.MaximumToEnd | src/lib/list/list.c:347-370 | After the swap behind the pass a maximum stands at the end of the segment. |
| ListSort.PassStep | src/lib/list/list.c:353-359 | A comparison on the smaller of two sizes, with a swap if the front is less, extends the bound by one node. |
| ListSort.SortedBelowMaximum | src/lib/list/list.c:370-379 | Sorting what stands in front of a maximum sorts the segment. |
| ListSort.EndLinks | src/lib/list/list.c:375-386 | What the pointer tests behind a pass evaluate to. |
| LinkedQueue.Queue.Enqueue | src/lib/queue/queue.c:133-151 | Adds at the end, also when `last` is stale from the dequeue that emptied the queue. |
| LinkedQueue.Queue.Dequeue | src/lib/queue/queue.c:154-184 | Takes the oldest value, and leaves `last` as it is even when that was the only one. |
| LinkedQueue.Queue.Peek | src/lib/queue/queue.c:187-193 | The oldest value, or nothing exactly for an empty queue. |
| LinkedQueue.Queue.LastPeek | src/lib/queue/queue.c:196-202 | The newest value, or nothing exactly for an empty queue; a stale `last` is never read. |
| LinkedQueue.Queue.Purge | src/lib/queue/queue.c:210-228 | Empties the queue and says whether there was anything in it. |
| LinkedQueue.Queue.EmptyMeansNoContents | src/lib/queue/queue.c:78-80 | The three-way test of pointers and length is true if and only if the queue holds nothing. |
| LinkedQueue.RunConserves | src/lib/cqueue/cqueue.c:79-118 | For every interleaving of pushes and pops, what was popped followed by what is pending is what was pushed. |
| LinkedQueue.CQueue.DoPush | src/lib/cqueue/cqueue.c:79-89 | Is a push on the history and on the linked queue alike. |
| LinkedQueue.CQueue.DoTryPop | src/lib/cqueue/cqueue.c:109-118 | Is a pop on both, and gives the oldest pending value or nothing. |
| Hash.HashTable.Set | src/lib/hash/hash.c:185-224 | The map after it is the old one with the key set; every chain stays acyclic, in its bucket and free of double keys, and the length counts the keys. |
| Hash.HashTable.Delete | src/lib/hash/hash.c:269-295 | The map after it is the old one without the key, and it says whether the key was there. |
| Hash.HashTable.Get | src/lib/hash/hash.c:229-245 | The pair of a key in the map, and nothing for any other key. |
| Hash.HashTable.GetValue | src/lib/hash/hash.c:250-262 | The value of a key in the map, and nothing for any other key. |
| Hash.HashTable.First | src/lib/hash/hash.c:300-317 | Nothing exactly for the empty map, else a pair of the map from its lowest used bucket. |
| Hash.HashTable.Last | src/lib/hash/hash.c:322-343 | Nothing exactly for the empty map, else a pair of the map from its highest used bucket. |
| Hash.HashTable.FindNode | src/lib/hash/hash.c:188-209 | The walk down a chain stops at the key's node, or past the end exactly if the key is not in the map. |
| Hash.HashTable.BucketsApart | src/lib/hash/hash.c:173-180 | No node stands in two chains. |
| Hash.HashTable.EmptyTable | src/lib/hash/hash.c:300-343 | All buckets are NULL if and only if the map is empty. |
| Hash.ComputeIndex | src/lib/hash/hash.c:173-180 | The loop over the key and the conversion to an unsigned size give the specified bucket, for every key whose sum does not leave an int. |
| Hash.IndexIsPortable | src/lib/hash/hash.c:173-180 | A key has the same bucket whether `char` is signed or not. |
| Hash.IndexOfByte | src/lib/hash/hash.c:173-180 | A key of one byte is in the bucket of that byte's value modulo 128, so the first and last pairs of a hash of one-letter keys are those of the least and greatest letter. |
| Hash.IndexOfBoth | src/lib/hash/hash.c:173-180 | The bucket of two keys joined is the sum of their buckets modulo 128. |
| Hash.EntriesReplaced | src/lib/hash/hash.c:195-211 | A chain with a node replaced agrees with the updated map. |
| Hash.EntriesAppended | src/lib/hash/hash.c:213-222 | A chain with a node added agrees with the extended map. |
| Hash.EntriesCut | src/lib/hash/hash.c:276-288 | A chain with a node cut out agrees with the map without its key. |
| Hash.EntriesElsewhere | src/lib/hash/hash.c:185-224 | A change of the map at another bucket's key leaves a chain in agreement. |
| IniParser.StringReader.Read | src/lib/ini/ini.c:265-288 | One read copies the next chunk and its NUL into the line buffer and moves on, and fails exactly at the end of the text. |
| IniParser.Rstrip | src/lib/ini/ini.c:48-54 | NULs over exactly the trailing white space, and no other byte. |
| IniParser.Lskip | src/lib/ini/ini.c:57-62 | The pointer to the first byte that is not white space. |
| IniParser.FindCharsOrComment | src/lib/ini/ini.c:67-82 | The first delimiter, or the first `;` behind white space, or the end. |
| IniParser.StrNCopy0 | src/lib/ini/ini.c:85-94 | The copy is cut to the size and always ends in NUL. |
| IniParser.ReadLine | src/lib/ini/ini.c:157-219 | Cutting the line buffer up with NULs reads off it what the line says, which `IniSyntax.ReadAsWritten` tells from how it is written. |
| IniParser.ParseStream | src/lib/ini/ini.c:97-241 | The handler gets the calls, and the result is the line number, that `Ini.ParseTextReports` and `IniRoundTrip.ReadsAsMeant` tell. |
| Ini.ChunksCutText | src/lib/ini/ini.c:265-288 | The chunks joined are the text; each is non-empty, at most 199 bytes, with a newline only at its end; and all but the last are full. |
| Ini.ParseTextReports | src/lib/ini/ini.c:136-241 | The handler gets the pairs of all lines in order, each in the last section named before it; the result is 0 if and only if no line is malformed or rejected after the pairs before it, and otherwise the number of the first one that is. |
| Ini.FirstBadIs | src/lib/ini/ini.c:192-219 | From any line on, the number kept is that of the first bad line, and 0 if there is none. |
| IniSyntax.ReadAsWritten | src/lib/ini/ini.h:42-50 | For every line: it is skipped, names a section, is a pair, or cannot be read, if and only if it is written that way: nothing or a `;` or `#` with anything behind; a name of any length, cut to 49, in brackets; a name, `=` or `:`, and a value, with any white space around either and a `;` behind white space with anything behind; or a line without a closing bracket or a delimiter in front of such a comment. A byte-order mark in front of the first line is skipped. |
| IniSyntax.ShapeReads | src/lib/ini/ini.c:157-219 | Each shape of line, within any white space, is read as what it means, as any line and as the first. |
| IniSyntax.LineHasShape | src/lib/ini/ini.c:157-219 | Every line has one of these shapes. |
| IniSyntax.FindIs | src/lib/ini/ini.c:67-82 | A search stops at the first delimiter or `;` behind white space, or at the end. |
| IniRoundTrip.ReadsAsMeant | src/lib/ini/ini.c:97-241 | Any lines of any of these shapes that fit the line buffer, with or without a byte-order mark in front, written and parsed: the handler gets the pairs that are meant, each in its section, and if it accepts them the result is the number of the first line that cannot be read, or 0. |
| IniRoundTrip.IniRoundTrip | src/lib/ini/ini.c:291-298 | So any sections and pairs that fit their lines, with trimmed fields, no delimiter or comment in them and no byte-order mark in front, written plainly and parsed, give the handler exactly those triples in order, and 0 if it accepts them. |
| IniRoundTrip.ReadLine | src/lib/ini/ini.c:167-212 | A written section or pair is read as itself, with empty names and values and a first line. |
| ChatLog.LogHoldsTheLast | src/client/uichat.c:271-283 | In every run the cache is the last 100 of the messages that are no quit and not empty, in order. |
| ChatLog.RunKeepsPage | src/client/uichat.c:324-357 | The page is on the log all through a run if and only if the run never turns on browsing in a window that has messages and no lines. |
| ChatLog.EventKeepsPage | src/client/uichat.c:324-342 | The same for one event. |
| ChatLog.PageStaysOnLog | src/client/uichat.c:131-176 | In a window that is drawn first the page is on the log through every run of messages, switches, pages and resizes. |
| ChatLog.UndrawnPageLeavesLog | src/client/uichat.c:328-332 | One message and browsing, with no drawing before: the page starts behind the log. |
| ChatLog.NextPageIsUndone | src/client/uichat.c:344-356 | A page forward ends on the log without the correction, and a page back undoes it. |
| ChatLog.ChatWindow.LogMessage | src/client/uichat.c:271-283 | Appending to the linked list, and deleting its first node beyond 100, is the logging of the message. |
| ChatLog.ChatWindow.UpdateContent | src/client/uichat.c:95-128 | The walk over the linked list writes exactly the entries that are to be shown. |
| ChatLog.SwitchShows | src/client/uichat.c:324-342 | Over a log longer than the window, turning on browsing shows the page in front of the newest entry, and turning it off shows the last page. |
| ChatLog.LiveShows | src/client/uichat.c:95-128 | In live mode the end of the log is on display, as much as the page holds. |
| ChatLog.ShortLogShowsNewest | src/client/uichat.c:324-342 | Over a log that the window has room for, turning browsing off and on again leaves only the newest entry on display. |
| ChatLog.PageBackShows | src/client/uichat.c:344-348 | A page back shows the whole page of entries right in front of the current line, or the page from the oldest entry on if there are fewer, with all of these on it. |
| ChatLog.PagesBack | src/client/uichat.c:344-348 | Pages back move by so many pages towards the oldest entry, reach it and stop there. |
| ChatLog.LastPageStays | src/client/uichat.c:351-357 | On the last page a page forward changes nothing. |
| ChatLog.PagesAdjoin | src/client/uichat.c:351-357 | The next page starts where this one ends: nothing is left out or shown twice. |
| ChatLog.ChatWindow.ShowPreviousPage | src/client/uichat.c:344-348 | Is the page back, through the unsigned arithmetic of the source, and the content that is shown then. |
| ChatLog.ChatWindow.ShowNextPage | src/client/uichat.c:351-357 | Is the page forward, through the same, and its content; the over-run correction is never reached. |

## Left out

- TLS, sockets, select, signals, daemonising, PID files, shared memory, configuration files' own settings, OpenSSL encryption and ncurses: foreign calls. What a send, a receive or a timeout brings about is a parameter.
- Reassembly of a message split over two reads (`src/server/server.c:593-606`, `src/client/client.c:392-404`): that branch clears one byte behind the buffer, and parsing would start behind a gap of one byte. `Session.Receive` tells it apart; the machine's records do not end in the middle of a message at the last byte of the buffer.
- The `terminate` flag and the closing down of the server: a thread of the model goes on for as long as it has steps.
- Texts with a `%` that are used as a format again: no outcome is claimed for them. The refusal text of an invalid nickname ends in `%&`, which no conversion starts with; it is taken to be copied.
- ServerProofs.EveryRun: a run in which a client is deleted while the cursor stands on it goes on without the broadcast thread, whose next step is then not among the steps of the machine.
- BroadcastPass.FanOut: assumes that the broadcast thread's own sends succeed, because a failed one ends that thread in `Server_dropClient`; a visit and its send are one step. It makes no claim about passes with the deletions that `BroadcastPass.DropKeepsPending` shows to disturb the cursor.
- ServerProofs.StepKeepsApart: takes the lookup of a nickname and its storing as one step, though no lock is held over both; and thread identifiers are compared as they are, without the truncation at `src/server/server.c:488` and the race at `src/server/server.c:401-402`.
- Handshake.Agreement: leaves the broadcast thread idle, takes every send as succeeding, and says nothing of interrupted select calls.
- Hash.ComputeIndex: keys whose byte sum leaves a 32-bit int, where the addition is undefined in C.
- Message.RoundTrip: a content of exactly 1536 bytes, which the C code stores without a terminator, counts as undefined together with longer ones.
- Lists and queues carry values where the C code copies blocks of bytes; allocation always succeeds; freeing and wiping of freed memory are not modelled, nor is `Hash_purge`, which leaves the length stale, or `List_free`.
- The regular expression of a nickname is taken in ASCII, as what it matches; the engine in `src/lib/validate` and other locales are not modelled, and `isspace` is that of the C locale.
- `CQueue_waitAndPop`, which nothing calls, and the locks themselves: each locked region is one step.
- ChatLog.LogHoldsTheLast: entries are the messages; their timestamps and colours, and what curses makes of the entries written, are not modelled.
- Clients.ClientList.Add: the receive buffer, a field of the client's block in C, is kept in a map beside the list, and the list's payload is the thread and the nickname.
- `ini_parse` and `ini_parse_file`, which read through the C library; reading from a string stands for all readers.
- `src/lib/wtrim`, `src/lib/nccolor`, `src/client/uiinput.c`, `src/server/settings.c`, `src/lib/logger` and `src/lib/fsutil`.
