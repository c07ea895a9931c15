# Models of Chattere's data paths

Chattere is a chat server. This project models the parts of it that move and
rewrite data, and proves what each of them keeps:

- the JSON codec that the Lua plugins use (`Utf8`, `JsonText`, `JsonString`,
  `JsonPieces`, `JsonNumber`, `JsonSyntax`, `JsonDecode`, `JsonGrammar`,
  `JsonAccepts`, `JsonLayout`, `JsonEncode`, `JsonGraph`, `JsonUnfold`,
  `JsonRoundTrip`, `JsonHeap`, `JsonReprint`, `Rfc8259`, `JsonAcceptsRfc`,
  `JsonPrinted`);
- length-prefixed packets and the threads that receive, cut and process them
  (`Framing`, `Pipeline`, `PipelineRuns`, `FrontInsertion`, `Draining`,
  `ServerThreads`);
- the in-place text rewriters: colours (`ColorFormat`, `ColorLayers`,
  `Palette`), emoji
  (`Emoji`) and the chat line (`ChatFormat`);
- command lines (`Command`) and snowflake ids (`Snowflake`).

`dafny verify dfyconfig.toml` checks the whole project.

## How to read the models

Text is a sequence of bytes. Positions count from 0, so a Lua position `i` is
`i - 1` here. Where the code is a loop over an index or a buffer, the model is a
method with that loop; its `ensures` ties it to a recursive function on the text
that is left, and the lemmas are about that function. Errors are `Error` or
`Failure` values without a message.

**JSON.** A decoded table is the map of its fields, so `{}` and `[]` are one
value and a `null` inside a container leaves no field. `Syntax` is a written
value with its white space and the spelling of its strings; `Write` is its text
and `Meaning` its value. The parser accepts a text exactly when it is `Write` of
a well-formed `Syntax` between white space (`JsonAccepts.DecodeAccepts`). The
heap that `encode` prints is a map from table identities to tables, each with
the border that the length operator returns for it; `pairs` may list fields in
any order. `tonumber` on a word that is not an integer of at most fifteen
digits, and `%.14g` on a number that is not an integer below 10^14 in
magnitude, are parameters. `Represents` says, without reference to the printer,
which value a reference stands for. Printing and decoding gives back that value
if and only if no chain of fields meets a table twice and every table on it is
either the items 1 to `#t` or string keys only (`JsonRoundTrip.EncodeThenDecode`).
The other way round, decoding a text, printing the value and decoding that gives
the same value if and only if no array of the text that counts has a `null`
before another item (`JsonReprint.DecodeThenEncode`). `Rfc8259` is the grammar of
the standard in literal bytes; `decode` reads all of its texts
(`JsonAcceptsRfc.DecodesRfc`), and `JsonPrinted` says in bytes what `encode` prints.

**Server.** `Pipeline.State` holds the buffers, the framer thread's local
variables, the queue, and two histories: the bytes received and the packets
processed. Each event is what one thread does under one lock, or between two.
`ClientsRecv` inserts new bytes at the front of the buffer
(`Net/src/server_socket.cpp:96`), while the framer erases from the front as if
they had been appended. The model has both insertions. `Reachable` states are
those of runs in which every receive keeps the order of the bytes; for appending
these are all runs. For the code as it is, every state of a run keeps the byte
account if and only if, at every receive of the run, the chunk and the buffer
commute, that is, both repeat one block; a receive is safe for every chunk if and
only if the buffer is empty.

A run parses a buffer only when the copies stay inside it and the lengths fit an
`int`; outside that range no next state is defined (`Framing.CopiesInsideIff`).
With insertion at the back, clients that frame their payloads within the limit
never leave the range (`PipelineRuns.HonestClientsParse`). With the code as it is
they can: when part of a frame is waiting, some continuation of the client's
stream makes a payload be read as a header, and only an empty buffer is safe
(`FrontInsertion.FrontStaysInRangeIff`); `FrontInsertion.FrontReadsOutside` is a
run in which that happens. `FrontInsertion.FrontLosesSplitFrame` is a run of the
code that loses a packet which arrives in two pieces.

**Findings.** Besides that one: an array with a hole can pass the checks of
`encode_table` and lose the items behind the hole (`JsonRoundTrip.DecodeUndoesEncode`,
`JsonRoundTrip.DropsBehindHole`); a header from 0xfffffffc up makes
`packet_from_buffer` read behind its buffer (`Framing.CopiesOutside`), and with
insertion at the front an ordinary payload can become one
(`FrontInsertion.FrontReadsOutside`); an empty payload stalls a connection for
good (`Framing.ReceivesAllOrStalls`); `emojize` with the shipped table changes nothing
(`Emoji.BareNamesNeverMatch`); a user name that contains `$1` swallows the message
(`ChatFormat.BasicFormatAgrees`); ids of a worker that is not divisible by 4
collide (`Snowflake.DistinctIff`,
`Snowflake.WindowIsExact`), and the header's 41-bit time is really 23 bits
(`Snowflake.RepeatsIff`).

## Model

| member | source | states |
|---|---|---|
| Utf8.ReadsBack | LuaLibraries/json.lua:189-203 | every scalar value is written so that a decoder after RFC 3629, section 4, reads it back in any context |
| Utf8.WritesBack | LuaLibraries/json.lua:189-203 | whatever that decoder reads is byte for byte what `codepoint_to_utf8` writes, so the output is the shortest form |
| Utf8.CarriesBits | LuaLibraries/json.lua:189-203 | every code point, surrogates too, has the length its size asks for and carries its bits in a lead byte and tails; nothing is written above 0x10ffff |
| Utf8.PrefixFree | LuaLibraries/json.lua:189-203 | no output starts another, so the encoding is injective |
| JsonText.NextChar | LuaLibraries/json.lua:165-172 | the loop stops at the first byte whose membership differs from `negate`, or at the end |
| JsonString.IsHighMeans | LuaLibraries/json.lua:234-234 | the first pattern matches exactly the high surrogates |
| JsonString.HexNumberIff | LuaLibraries/json.lua:207-208 | four bytes are read as a number if and only if each is the digit for its place, in either letter case, of the sixteen written out |
| JsonString.ParseString | LuaLibraries/json.lua:218-256 | the loop over `j` and `k` computes the recursive reader, on every text and from every position |
| JsonPieces.ReadsPieces | LuaLibraries/json.lua:218-256 | every spelling of a string is read to its meaning and up to its closing quote, whatever follows |
| JsonPieces.ReadsOnlyPieces | LuaLibraries/json.lua:218-256 | nothing else is accepted: what was read is the spelling of pieces that mean the result |
| JsonPieces.DecodesEncoded | LuaLibraries/json.lua:101-103 | `parse_string` undoes `encode_string` for every byte string, between any texts |
| JsonPieces.EscapesEverything | LuaLibraries/json.lua:33-51 | no control byte is left in an encoded string, and reading it from the left every quote is the second byte of an escape |
| JsonPieces.ReadsScalar | LuaLibraries/json.lua:206-215 | any `\u` spelling of a scalar value, its digits in either letter case, with the surrogate pair of RFC 2781, section 2.2, above 0xffff, is read as its shortest UTF-8 form |
| JsonPieces.ReadsUnit | LuaLibraries/json.lua:206-215 | a single escape of any code unit, lone surrogates too, is read as that unit |
| JsonPieces.ReadsPair | LuaLibraries/json.lua:206-215 | a high surrogate before any escape is read by the formula for pairs, or refused when that is no code point |
| JsonAcceptsRfc.CharacterRead | LuaLibraries/json.lua:218-256 | what each byte of a string does, and which byte each of the eight escape letters stands for |
| JsonAcceptsRfc.NeedsFourDigits | LuaLibraries/json.lua:233-238 | `\u` without four hexadecimal digits is refused |
| JsonNumber.NumberReads | LuaLibraries/json.lua:106-112 | an integer below 10^14 in magnitude is printed as one word that reads back as it |
| JsonNumber.PrintsInteger | LuaLibraries/json.lua:106-112 | that word is an integer of RFC 8259, section 6, that denotes the number, and the only one apart from `-0` |
| JsonNumber.PrintsOther | LuaLibraries/json.lua:106-112 | any other number is left to `%.14g` |
| JsonNumber.ReadsInteger | LuaLibraries/json.lua:259-267 | a sign and 1 to 15 digits are read as the integer they denote by place; any other word is left to `tonumber` |
| JsonDecode.ParseNumber | LuaLibraries/json.lua:259-267 | reads the word up to the next delimiter as a number, or fails |
| JsonDecode.ParseLiteral | LuaLibraries/json.lua:270-277 | reads the word up to the next delimiter as one of the three literals, or fails |
| JsonDecode.Parse | LuaLibraries/json.lua:365-372 | terminates on every text and equals the recursive parser; a success at `i` ends behind `i` and inside the text |
| JsonDecode.ParseArray | LuaLibraries/json.lua:280-304 | the loop equals the recursive rounds, including trailing commas and nil items |
| JsonDecode.ParseObject | LuaLibraries/json.lua:307-341 | the loop equals the recursive rounds, including repeated keys and nil values |
| JsonDecode.DecodeJson | LuaLibraries/json.lua:375-385 | `json.decode` on every text, including the refusal of trailing garbage |
| JsonGrammar.ReadsValue | LuaLibraries/json.lua:259-372 | a well-formed value is read in any context and the parser stops exactly at its end; only words need a delimiter behind them |
| JsonGrammar.ReadsItems | LuaLibraries/json.lua:280-304 | the rest of an array is read to the table it fills |
| JsonGrammar.ReadsMembers | LuaLibraries/json.lua:307-341 | the rest of an object is read to the table it fills |
| JsonAccepts.ReadsOnlySyntax | LuaLibraries/json.lua:259-372 | whatever the parser accepts is the text of a well-formed value that means the result |
| JsonAccepts.DecodesText | LuaLibraries/json.lua:375-385 | a well-formed text between white space decodes to its meaning |
| JsonAccepts.DecodeAccepts | LuaLibraries/json.lua:375-385 | `decode` gives a value if and only if the text is well formed and means it |
| JsonAcceptsRfc.DecodesRfc | LuaLibraries/json.lua:218-386 | every text of RFC 8259 whose numbers are integers of up to 15 digits, between white space, is decoded to what it means; trailing commas are allowed too |
| JsonAcceptsRfc.ByteSets | LuaLibraries/json.lua:153-154 | which bytes are white space, and which end a word |
| JsonAcceptsRfc.StartsValue | LuaLibraries/json.lua:344-372 | which bytes start a value, that literals are spelled out, and where a word ends |
| JsonLayout.LayoutIsIgnored | LuaLibraries/json.lua:280-341 | white space around any token, inside empty containers too, and trailing commas do not change the result |
| JsonEncode.Encode | LuaLibraries/json.lua:124-131 | succeeds exactly when the value is encodable on the current path, leaves the stack as it was, and prints a text that presents the value |
| JsonEncode.EncodeTable | LuaLibraries/json.lua:59-98 | the same for a table, for every order of `pairs`; it terminates on every heap |
| JsonEncode.CheckArray | LuaLibraries/json.lua:68-79 | the key and length checks accept exactly the array shapes |
| JsonEncode.EncodeItems | LuaLibraries/json.lua:80-85 | prints the items before the first hole, in order |
| JsonEncode.EncodeMembers | LuaLibraries/json.lua:87-97 | prints every field once, whatever the order |
| JsonEncode.EncodeJson | LuaLibraries/json.lua:134-136 | `json.encode` starts with an empty stack |
| JsonPrinted.PrintsScalar | LuaLibraries/json.lua:54-121 | the bytes printed for nil, booleans and strings, escape by escape |
| JsonPrinted.EscapesAsShown | LuaLibraries/json.lua:33-51 | which bytes are escaped and how |
| JsonPrinted.RefusesOthers | LuaLibraries/json.lua:106-131 | NaN, infinities and functions are refused |
| JsonPrinted.PrintsArray | LuaLibraries/json.lua:80-85 | a bracket, the items before the first hole with commas between them, a bracket |
| JsonPrinted.PrintsEmpty | LuaLibraries/json.lua:68-85 | the empty table is printed as `[]` |
| JsonPrinted.PrintsObject | LuaLibraries/json.lua:87-97 | a brace, every key once in quotes with a colon and its value, commas between them, a brace |
| JsonPrinted.ShapeIs | LuaLibraries/json.lua:68-92 | which tables pass the checks, by the kinds of their keys |
| JsonGraph.WalkIsClear | LuaLibraries/json.lua:63-66 | from an encodable table no walk meets the path or itself, and every table on it prints |
| JsonGraph.EncodesExactly | LuaLibraries/json.lua:59-98 | a table is encodable if and only if no cycle can be reached and every table that can be reached prints; shared tables are fine |
| JsonUnfold.PresentedMeans | LuaLibraries/json.lua:59-131 | the text printed for a reference is well formed and means the tree that the heap unfolds to |
| JsonRoundTrip.DecodeUndoesEncode | LuaLibraries/json.lua:124-136 | decoding what was printed gives that tree, for every order of the fields, and the tree is the value with all its fields if and only if no table that can be reached has a hole |
| JsonRoundTrip.OneValue | LuaLibraries/json.lua:134-136 | a reference stands for at most one value, so giving back the value has one meaning |
| JsonRoundTrip.UnfoldsWholeIff | LuaLibraries/json.lua:68-83 | from any path, the tree along printed fields is the value of the reference if and only if no table that can be reached has a hole |
| JsonRoundTrip.PrintsWholeIff | LuaLibraries/json.lua:59-98 | `encode` accepts a reference and drops nothing if and only if no walk along fields meets a table twice and every table on one is a proper array or string-keyed object |
| JsonRoundTrip.EncodeThenDecode | LuaLibraries/json.lua:134-136 | the two calls in a row fail exactly when the value is not encodable, and give back the value with all its fields if and only if it is a JSON value in that sense |
| JsonRoundTrip.PrintsEveryField | LuaLibraries/json.lua:68-83 | a table that passes the checks is printed whole if and only if it is an object or an array without holes |
| JsonRoundTrip.DropsBehindHole | LuaLibraries/json.lua:77-83 | a table with three items that passes the checks, is printed as its first item alone, and is decoded to a value that is not the one printed |
| JsonHeap.Place | LuaLibraries/json.lua:280-341 | every value without nil fields lies on some heap, each table under an id of its own |
| JsonReprint.IsJsonIff | LuaLibraries/json.lua:59-98 | a reference is a JSON value if and only if every table in its value has string keys only or the keys 1 to some number |
| JsonReprint.ProperTextIff | LuaLibraries/json.lua:280-341 | the value of a text has only such tables if and only if no array that is not overwritten has a `null` before another item |
| JsonReprint.PrintsDecodedIff | LuaLibraries/json.lua:124-385 | wherever a decoded value lies on the heap, `encode` accepts it and drops nothing under the same condition on the text |
| JsonReprint.DecodeThenEncode | LuaLibraries/json.lua:134-385 | decoding, printing and decoding again gives the same value if and only if the text meets that condition; stated for values with short integers |
| Framing.CopiesInsideIff | Protocol/src/packet.cpp:23-27 | the guard with its 32-bit sum keeps the copy inside the buffer if and only if the header is below 0xfffffffc |
| Framing.CopiesOutside | Protocol/src/packet.cpp:23-27 | a buffer of four bytes for which the guard is passed and the copy would leave it |
| Framing.FirstFrameIs | Protocol/src/packet.cpp:16-27 | the size is the number of the four bytes, the least significant first, and the payload what follows |
| Framing.HeaderIs | Protocol/src/packet.cpp:77-80 | the four pushes write that number |
| Framing.PacketFromBuffer | Protocol/src/packet.cpp:5-39 | finds the complete non-empty frame at the front, or returns length 0; it fails exactly for a header from 0xfffffffc up, or a complete frame whose length does not fit an `int` |
| Framing.PacketsFromBuffer | Protocol/src/packet.cpp:41-67 | the loop takes off frames until none is complete, and fails exactly when a copy would leave the buffer or the total length does not fit an `int` |
| Framing.PacketToBuffer | Protocol/src/packet.cpp:69-85 | the frame of a payload, which unframes to that payload |
| Framing.FirstFrameOf | Protocol/src/packet.cpp:16-32 | the header written for a payload is read back as its length, whatever follows |
| Framing.ReceivesWhatWasSent | Protocol/src/packet.cpp:41-85 | frames followed by no complete frame give exactly their payloads and their total length |
| Framing.ConsumesItsFrames | Protocol/src/packet.cpp:41-67 | re-framing the packets gives the consumed bytes, and the remainder starts with no complete frame |
| Framing.UnframeAppend | Protocol/src/packet.cpp:41-67 | bytes that arrive later do not change the packets already complete |
| Framing.ChunkingIsIrrelevant | Server/src/server.cpp:152-165 | receive, parse and erase give the packets and the leftover of the whole stream, however it is cut |
| Framing.EmptyFrameStalls | Protocol/src/packet.cpp:23-38 | behind an empty frame nothing is ever found |
| Framing.ReceivesAllOrStalls | Protocol/src/packet.cpp:23-38 | all payloads come back if and only if none is empty |
| Pipeline.EraseIsExact | Server/src/server.cpp:211-211 | erasing what was parsed from a prefix of the live buffer takes off exactly those frames |
| Pipeline.StepKeeps | Server/src/server.cpp:105-245 | every event of every thread, in each mode, keeps the byte account of every client, if a receive keeps the order of the bytes |
| PipelineRuns.RunKeeps | Server/src/server.cpp:105-245 | so does every run of such events |
| PipelineRuns.NothingLostOrReordered | Server/src/server.cpp:176-245 | in every state reached by receives that keep the order, processed, queued, held and still buffered packets are, in this order, the packets received; with appending that is every state |
| PipelineRuns.EraseTakesParsedFrames | Server/src/server.cpp:198-212 | in the same states, between snapshot and erase the snapshot is a prefix of the buffer, and the erase is exact |
| PipelineRuns.DrainedProcessedAll | Server/src/server.cpp:152-172 | in the same states a drained client has had exactly its packets processed, and its buffer holds the bytes behind them |
| PipelineRuns.ModesAgree | Server/src/server.cpp:73-88 | with appending, one thread, two threads and workers agree on a drained client in every interleaving |
| PipelineRuns.AccountedClientsParse | Protocol/src/packet.cpp:41-67 | whenever the byte account is kept, the buffer of a client that sends frames of payloads within the limit can be parsed |
| PipelineRuns.HonestClientsParse | Protocol/src/packet.cpp:41-67 | with appending that is so in every state of every run |
| PipelineRuns.OrderOnlyGrows | Server/src/server.cpp:214-240 | the order in which packets are or will be processed is only ever extended |
| PipelineRuns.FreshIds | Net/src/server_socket.cpp:65-83 | in every run, with either insertion, a new client gets an id above all that were given, and no client is replaced |
| FrontInsertion.FrontKeepsOrderIff | Net/src/server_socket.cpp:96-96 | inserting at the front keeps a good state good if and only if chunk and buffer commute |
| FrontInsertion.RunKeepsIff | Net/src/server_socket.cpp:88-98 | every state of a run keeps the byte account if and only if chunk and buffer commute at each of its receives |
| FrontInsertion.CommutesIff | Net/src/server_socket.cpp:96-96 | they commute if and only if both repeat one block |
| FrontInsertion.FrontIsSafeWhenEmpty | Net/src/server_socket.cpp:96-96 | front and back insertion agree for every chunk if and only if the buffer is empty |
| FrontInsertion.FrontLosesSplitFrame | Net/src/server_socket.cpp:88-98 | a run in which a packet that arrives in two chunks is not found, though with appending it is |
| FrontInsertion.FrontStaysInRangeIff | Net/src/server_socket.cpp:96-96 | for a client that keeps to any payload limit from 32 MiB up, and no complete frame waiting, every continuation of its stream leaves the parser a buffer in range if and only if the buffer was empty |
| FrontInsertion.FrontReadsOutside | Net/src/server_socket.cpp:88-98 | a run of the code in which a client sends one small frame in two chunks and the copy of the parser would leave its buffer, though with appending it can be parsed |
| Draining.CatchesUp | Server/src/server.cpp:103-245 | in each mode, from every state that keeps the account and whose buffers can be parsed, some run of the server's own events processes exactly the packets received and leaves every client drained |
| ServerThreads.Server.AcceptClient | Net/src/server_socket.cpp:53-86 | one accept event, for each answer of the operating system; every answer but "would block" uses up an id |
| ServerThreads.Server.ClientsRecv | Net/src/server_socket.cpp:88-98 | in every mode the loop is a run of receive events with insertion at the front; each buffer becomes chunk then old bytes |
| ServerThreads.Server.InsertChunk | Net/src/server_socket.cpp:96-96 | one receive event of any mode; no other client's buffer changes |
| ServerThreads.Server.TakeSnapshot | Server/src/server.cpp:198-201 | the snapshot event |
| ServerThreads.Server.FindPackets | Server/src/server.cpp:202-205 | the parse event, and back to the next client when there is no packet; it says whether the event is defined |
| ServerThreads.Server.EraseParsed | Server/src/server.cpp:208-212 | the erase event; no other client's buffer changes |
| ServerThreads.Server.HandOverPackets | Server/src/server.cpp:214-222 | the hand-over event, to the queue or to `ProcessPacket` |
| ServerThreads.Server.WorkerStep | Server/src/server.cpp:233-239 | the work event: the first packet of the queue is taken off it and processed, under one lock |
| ServerThreads.Server.DrainClient | Server/src/server.cpp:155-171 | the single thread's parse, erase and process for one client; it says whether the event is defined |
| ServerThreads.Server.DrainClients | Server/src/server.cpp:154-171 | the single thread's loop over the clients is a run of drain events, and leaves no complete packet in any buffer, or stops at one that cannot be parsed |
| ServerThreads.Server.SingleThreadedRound | Server/src/server.cpp:142-172 | one round of the single thread is a run of accept, receive and drain events, after which no complete packet is waiting, or stops at a buffer that cannot be parsed |
| ColorFormat.ReplaceInPlace | Server/src/server.cpp:356-364 | the inner loop terminates and is the left-to-right replacement, for every non-empty token and every replacement |
| ColorFormat.TakesTwoBytes | Server/src/server.cpp:362-362 | a hit takes two bytes away, however long the token is |
| ColorFormat.Format | Server/src/server.cpp:351-368 | the outer loop applies the rules one after another |
| ColorFormat.PassesAreSimultaneous | Server/src/server.cpp:351-368 | when no pass disturbs the rules behind it, the passes of all rules are one pass with the first rule of each token; a lone or last rule may have any replacement |
| ColorLayers.SimultaneousIff | Server/src/server.cpp:351-368 | for rules with different two-byte tokens that do not overlap and do not disturb themselves, passes and one pass agree on every message if and only if no pass disturbs the rules behind it |
| ColorFormat.FormatIsFinal | Server/src/server.cpp:351-368 | for a clean palette, where no pass disturbs any rule, the result holds no token, and formatting it again changes nothing |
| ColorFormat.ReorderingIsIrrelevant | Server/src/server.cpp:354-365 | rules with distinct tokens may be listed in any order |
| ColorFormat.ShadowedRuleIsDead | Server/src/server.cpp:354-365 | a second rule for a token has no effect |
| ColorFormat.ChainedRulesDiffer | Server/src/server.cpp:354-365 | a pass that inserts the token of a later rule makes the passes differ from one pass |
| Palette.DefaultIsClean | Server/src/server.cpp:298-340 | the shipped palette is clean |
| Palette.DefaultFormat | Server/src/server.cpp:298-340 | so its 38 passes are one, leave no token, and are idempotent |
| Palette.ShowsColor | Server/src/server.cpp:298-340 | each of the 37 tokens, between texts without tokens, becomes the bytes 27 and 91, its parameters and 109, all written out |
| Palette.DefaultLookup | Server/src/server.cpp:298-340 | those are all tokens there are, each with that sequence |
| Palette.SecondHashEIsDead | Server/src/server.cpp:329-330 | the second `#e` rule changes no message |
| Emoji.Emojize | Emoji/include/emoji.hpp:1314-1352 | the in-place loop terminates and equals a left-to-right scanner, for every delimiter and table |
| Emoji.ReplacesName | Emoji/include/emoji.hpp:1341-1347 | a known name is replaced, the text before is kept and inserted text is not scanned again |
| Emoji.KeepsUnknownName | Emoji/include/emoji.hpp:1328-1339 | an unknown name stays, and its closing delimiter may open the next |
| Emoji.KeepsOpenName | Emoji/include/emoji.hpp:1317-1350 | plain text and a name that is not closed stay as they are |
| Emoji.IdentityIff | Emoji/include/emoji.hpp:1314-1352 | no text is changed if and only if no key is a delimited name, other than one that stands for itself |
| Emoji.BareNamesNeverMatch | Emoji/include/emoji.hpp:1320-1336 | with keys that do not contain the delimiter, as shipped, every text stays as it is |
| ChatFormat.Emit | Server/src/events/server_events.cpp:39-49 | the two searches and replacements in turn |
| ChatFormat.AgreeIff | Server/src/events/server_events.cpp:39-49 | filling in one after the other is filling in at once, for every message, if and only if the name is unambiguous in the format |
| ChatFormat.FillsIn | Server/src/events/server_events.cpp:39-49 | the bytes `$0` become the name and the bytes `$1` the message |
| ChatFormat.BasicFormatIs | Server/src/events/server_events.cpp:97-103 | the bytes of the basic listener's format |
| ChatFormat.BasicFormatAgrees | Server/src/events/server_events.cpp:97-103 | with the basic listener's format that holds if and only if the name does not contain `$1` |
| Command.CommandEvent.constructor | Server/src/events/events.cpp:87-92 | a new event has arguments, the first of which is the command |
| Command.CommandEvent.SetCommandMessage | Server/src/events/events.cpp:94-101 | both fields come from the split message |
| Command.CommandEvent.SetCommand | Server/src/events/events.cpp:103-107 | replaces the command in both fields |
| Command.CommandEvent.SetCommandArgs | Server/src/events/events.cpp:109-113 | takes over a non-empty list and its first element |
| Command.CommandEvent.GetFullCommand | Server/src/events/events.cpp:140-151 | the loop and the final cut join the arguments with single spaces |
| Command.SplitIsTokens | Server/src/events/events.cpp:96-97 | no argument holds a space, and only the first and the last can be empty |
| Command.SplitsAtBlanks | Server/src/events/events.cpp:96-97 | a run of the byte 32 ends an argument, and at an end of the text leaves an empty one |
| Command.JoinsWithBlanks | Server/src/events/events.cpp:140-151 | one such byte stands between two arguments |
| Command.CollapsesBlanks | Server/src/events/events.cpp:94-101 | one byte is left of a run |
| Command.JoinSplit | Server/src/events/events.cpp:94-101 | splitting and joining shortens each run of spaces to one |
| Command.SplitJoinIff | Server/src/events/events.cpp:140-151 | a list of arguments survives join and split if and only if it has that form |
| Command.NormalForm | Server/src/events/events.cpp:94-101 | the shortened text splits into the same arguments and is its own normal form |
| Command.Renormalise | Server/src/events/events.cpp:94-151 | setting a message, reading it back and setting that changes nothing |
| Snowflake.Generator.CreateSnowflake | Snowflakes/src/snowflake.cpp:11-20 | advances the sequence modulo 4096 and returns an id with 23 bits of the milliseconds since 1609187816000, the worker, and the sequence, the last two sharing two bits |
| Snowflake.IdFields | Snowflakes/src/snowflake.cpp:18-19 | those fields by division, with the epoch written out |
| Snowflake.OrHasBit | Snowflakes/src/snowflake.cpp:18-19 | the or has exactly the bits of its two sides |
| Snowflake.IdIs | Snowflakes/src/snowflake.cpp:18-19 | the three fields of an id, with the overlap of worker and sequence |
| Snowflake.SameIdIff | Snowflakes/src/snowflake.cpp:18-19 | two ids of a worker are equal if and only if the low 23 bits of the time, the low 10 bits of the sequence and its high bits mixed with the worker agree; for a worker divisible by 4 that is the whole sequence |
| Snowflake.DistinctIff | Snowflakes/src/snowflake.cpp:18-19 | sequence numbers give distinct ids at one time if and only if the worker is divisible by 4 |
| Snowflake.CreateInTurn | Snowflakes/src/snowflake.cpp:11-20 | successive calls of the generator return the ids of a run; for a worker divisible by 4, two of them are equal if and only if their times agree modulo 2^23 and their call numbers modulo 2^12, and for every worker the ids of one window are distinct |
| Snowflake.RepeatsIff | Snowflakes/src/snowflake.cpp:11-20 | among the ids that `CreateInTurn` returns, two ids are equal if and only if their times agree modulo 2^23 and their call numbers modulo 2^12 |
| Snowflake.WindowIsDistinct | Snowflakes/src/snowflake.cpp:11-20 | any 4096 of those ids in a row are distinct for a worker divisible by 4, any 2048 for other even workers, any 1024 for odd ones, whatever the clock returns |
| Snowflake.WindowIsSharp | Snowflakes/src/snowflake.cpp:13-16 | when the clock returns the same time again, the id one window later is the same; for workers that leave remainder 1 modulo 4, at every second block of 1024 calls |
| Snowflake.WindowIsExact | Snowflakes/src/snowflake.cpp:11-20 | for each worker the window is exactly the number of ids in a row that are sure to be distinct |

## Left out

- Messages and positions of JSON errors: the models only say that a call fails.
- JSON numbers other than short integers: `%.14g` and `tonumber` are library behaviour and enter as parameters; the round trip is stated for integers below 10^14 in magnitude, where both are exact.
- JsonPieces.ReadsUnit: for a lone surrogate the bytes are those of the code, which are not UTF-8; the same holds for `ReadsPair` when the second escape is no low surrogate.
- Lua tables as objects: `encode` changes no table, so the heap is a value; only the stack is an object that is updated.
- Framing.PacketFromBuffer: a failure stands for a copy behind the buffer, which has no defined meaning, and for a length of 2^31 or more, which the code would go on with as a negative `int`.
- ColorFormat.PassesAreSimultaneous: its condition is sufficient for every palette; that it is necessary too is proved for ordinary rules (`ColorLayers.SimultaneousIff`), since rules that disturb their own tokens can happen to give the same text.
- JsonReprint.DecodeThenEncode: stated for values whose numbers are integers below 10^14 in magnitude; what `%.14g` prints for others is a parameter.
- FrontInsertion.FrontStaysInRangeIff: stated for payload limits from 32 MiB up; with a smaller one fewer streams are allowed, and whether a waiting header can be completed harmfully depends on its bytes.
- JsonAcceptsRfc.DecodesRfc: fractions, exponents and integers of more than 15 digits are left out; they go to `tonumber`.
- Packets are their serialised bytes; Protobuf encoding is generated code and not part of this model.
- Sockets and `recv`: the chunk that arrives, or the answer of `accept`, is a parameter.
- Data races at the level of the C++ memory model, such as the receive that takes no lock: a step reads or writes a buffer at once.
- Liveness: nothing says that a thread ever runs.
- `Listen`'s switch falls through from one mode into the next; each mode is modelled alone.
- Pipeline.State queues packets under client ids instead of shared pointers to clients.
- Integer widths of `i`, `index` and `sLen` in `emojize`: texts are taken to be shorter than 2^31 bytes.
- ColorFormat.ReplaceInPlace: requires a non-empty token; for an empty one the loop of the code need not end.
- Concurrent calls of `CreateSnowflake`: the sequence is loaded and stored in two steps, so two threads can get one number.
- What `ProcessPacket` and its handlers do, the database, plugins, permissions, configuration files and logging.
