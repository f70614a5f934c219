# Slack event processor — a Dafny model

This project models the event processor of the Go Slack client `mxlje/slack`
(`processor.go`). The processor sits between the realtime connection and the
application. It does three things:

- **`Write(channel, text)`** splits outbound text into `message` events at
  break points chosen against two limits, 4000 bytes and 25 newlines. Each
  event gets the next sequence number.
- **The event loop** (`Start`) reads inbound frames and drops replies
  (`reply_to`) and message edits or deletions. It looks up every other frame's
  `type` in a handler table.
- **The user directory** (`users`) is updated by upserts. The `hello` handler
  (`onConnected`) loads every configured user. The `user_change` handler
  stores the changed user.

Modules, one per concern of the source:

| file | module | what it holds |
|---|---|---|
| `strings.dfy` | `Strings` | the byte-level `strings.Count`, `Index`, `LastIndex` and `LastIndexAny` that `Write` relies on |
| `configuration.dfy` | `Configuration` | the `User`, `Channel` and `Config` records of the handshake |
| `chunking.dfy` | `Chunking` | the chunking rule: one step (`NextCut`), the whole split (`Cuts`) and its properties |
| `directory.dfy` | `Directory` | the user directory and its upsert |
| `dispatch.dfy` | `Dispatch` | inbound frames and the decision of which handler, if any, runs |
| `processor.dfy` | `Processing` | the `Processor` class: its sequence counter, directory and account, with `Write`, `sendEvent`, `updateUser`, `onConnected` and one pass of the event loop |

Text is a sequence of bytes, because Go's `len`, slicing and `strings` indices
count bytes. Every delimiter the processor searches for is ASCII, so
`LastIndexAny`'s rune scan finds the same position as a byte scan.

The connection's `Write` is modelled by the ghost field `Processor.Sent`. It
holds every event handed to the connection, in order. `Processor.Valid()`
states two invariants. The sequence invariant: `sequence` is the number of
events sent, and the `i`-th event sent carries id `i + 1`. The directory
invariant: every user is stored under its own id.

`Processor.Write` is proved against the specification function
`Chunking.Cuts(text, AsWritten)`. The function's own properties are proved as
lemmas:

- the chunks and the dropped break bytes rebuild the text;
- at most one break byte is dropped per cut;
- each branch of the break choice cuts where it should.

The chunking rule takes a `Scan` parameter. `AsWritten` is what the code
does: the search covers the whole remaining text. `Windowed` is the evidently
intended search over the first 4000 bytes (see Findings). `Processor.Write`
keeps the code's behaviour, `AsWritten`. The corrected rule is the one that
`Chunking.WindowedCutsWithinLimits` proves keeps every message within both
limits.

The doc comment of `Write` (processor.go:82-83) promises that the maximum
message length is respected. The code as written does not keep that promise:
a message can exceed 4000 bytes. It can also hold more than 25 newlines, over
the line limit the code itself checks at processor.go:87 and 102 (see
Findings). The model follows the code.

## Model

| member | source | states |
|---|---|---|
| Strings.Count | processor.go:86 | the number of occurrences is at most the length, and is zero exactly when the byte does not occur |
| Strings.CountAppend | processor.go:86 | counting distributes over concatenation |
| Strings.Index | processor.go:105 | -1 exactly when the byte is absent; otherwise the position holds the byte and no earlier one does |
| Strings.LastIndex | processor.go:112 | -1 exactly when the byte is absent; otherwise the position holds the byte and no later one does |
| Strings.LastIndexAny | processor.go:114 | -1 exactly when no byte of the set occurs; otherwise the position holds one and no later one does |
| Chunking.LineEnd | processor.go:103-111 | the end of the `n`-th line, as the line loop reaches it, lies within the text |
| Chunking.FirstLineEnd | processor.go:105-109 | in a text holding a newline, one `strings.Index` search finds it and reaches the end of the first line |
| Chunking.LineEndCount | processor.go:102-111 | the end of the `n`-th line follows a newline, and exactly `n` newlines precede it |
| Chunking.LineEndStep | processor.go:104-110 | one `strings.Index` search from the end of line `n` finds a newline and reaches the end of line `n+1` |
| Chunking.LineEndPrefix | processor.go:97-111 | a prefix holding `n` newlines ends its `n`-th line where the whole text does |
| Chunking.CountedLines | processor.go:97-100 | the `lines` the break choice works with: at most the text's newlines, and equal to them for a text of at most 4000 bytes |
| Chunking.SearchWindow | processor.go:95-100 | the window searched for break points is a prefix of the text, and within 4000 bytes under the intended search |
| Chunking.BreakIndex | processor.go:102-118 | the break lies within the text; it is positive when the recounted lines exceed 25; otherwise it is 4000 or falls on a word-break byte |
| Chunking.NextCut | processor.go:85-128 | one loop pass: chunk, dropped bytes and rest rebuild the text, the rest is strictly shorter, and at most one word-break byte is dropped |
| Chunking.Cuts | processor.go:85-130 | the loop's cuts, never more than the text has bytes |
| Chunking.CutsRebuildText | processor.go:85-130 | the chunks with the dropped break bytes rebuild the text exactly, and each cut drops at most one break byte |
| Chunking.WholeTextIsOneCut | processor.go:85-91 | empty text gives no message; text within both limits gives exactly one, unchanged |
| Chunking.LineLimitCut | processor.go:97-111 | over the line limit, the chunk ends with its 25th newline, holds exactly 25 newlines, is at most 4000 bytes, and nothing is dropped |
| Chunking.HardBreakCut | processor.go:116-128 | with no newline or word-break byte to search, the chunk is exactly the first 4000 bytes and nothing is dropped |
| Chunking.LastNewlineCut | processor.go:112-113 | within the line limit, the chunk stops at the last newline searched, which is dropped unless it sits at offset 4000 |
| Chunking.LastWordBreakCut | processor.go:114-115 | with no newline searched, the chunk stops at the last word-break byte, which is dropped unless it sits at offset 4000 |
| Chunking.AsWrittenChunkExceedsSize | processor.go:95-100 | as written, a text with its only break byte past offset 4000 is cut there, so the first message exceeds 4000 bytes; the windowed search cuts at 4000 |
| Chunking.AsWrittenChunkExceedsLines | processor.go:97-113 | as written, a text with no newline in its first 4000 bytes and more than 25 newlines before its last newline is cut at that last newline, so the first message holds more than 25 newlines |
| Chunking.OnlyBreakCut | processor.go:112-126 | as written, a text whose only break byte lies past offset 4000 is cut at that byte, which is dropped |
| Chunking.WindowedHardBreak | processor.go:116-126 | with the windowed search, a text longer than 4000 bytes with no break byte in its first 4000 is cut at 4000 |
| Chunking.NoNewlineInWindow | processor.go:97-100 | a text longer than 4000 bytes with no newline in its first 4000 counts zero lines |
| Chunking.SplitAtBreak | processor.go:112-128 | within the line limit, a newline or word break chosen away from offset 4000 is the break, and that byte is dropped |
| Strings.LastIndexAnyAt | processor.go:114 | a position holding a byte of the set, with none after it, is what `LastIndexAny` finds |
| Chunking.WindowedCutWithinLimits | processor.go:97-128 | with the windowed search, each message is within both limits |
| Chunking.WindowedCutsWithinLimits | processor.go:84-133 | with the windowed search, every message is within both limits and the text is rebuilt exactly |
| Directory.Upsert | processor.go:176-177 | the user is stored under its id, the ids are the old ones plus that one, every other entry is unchanged, and a directory keyed by id stays keyed by id |
| Directory.UpsertIdempotent | processor.go:176-177 | upserting the same user twice equals upserting it once |
| Directory.UpsertAll | processor.go:187-189 | every listed user's id is present afterwards, no earlier id is lost, and a directory keyed by id stays keyed by id |
| Directory.LastWithId | processor.go:187-189 | the position of the last listed user with the id, or -1 exactly when none has it |
| Directory.UpsertAllLastWins | processor.go:183-190 | an id is present exactly when it was before or is listed; a listed id maps to its last listing; an unlisted id keeps its old entry |
| Dispatch.HandlerFor | processor.go:166-168 | a handler is found only under its own type, and nothing is found for a type no handler is registered under |
| Dispatch.HandlerForTag | processor.go:200-236 | every handler of the table is found under its own type |
| Dispatch.WellTyped | processor.go:161-166 | the frames whose type assertions cannot panic: unparsable frames, replies without a subtype, and edits or deletions always qualify; a non-string `type` is allowed only on a frame whose type is never looked up |
| Dispatch.Route | processor.go:144-171 | unparsable frames, replies, and message edits or deletions run no handler; a handler runs only for its own type; every registered type reaches its handler |
| Processing.MessageEvents | processor.go:120 | one message event per cut |
| Processing.MessageEventsAt | processor.go:63-70 | the `i`-th message sent by `Write` carries the `i`-th chunk and id `last + i + 1` |
| Processing.WholeTextIsOneMessage | processor.go:85-91 | empty text sends nothing; text within both limits is sent as a single message carrying it unchanged under the next id |
| Processing.WriteStep | processor.go:85-130 | one loop pass sends the message for the next cut and leaves the rest of the cuts to send |
| Processing.NumberedIdsIncrease | processor.go:37-38 | ids of the events sent strictly increase, so they are unique |
| Processing.FindBreak | processor.go:93-118 | the recounted `lines` and the break index match the chunking rule as written |
| Processing.Processor.constructor | processor.go:194-199 | the processor starts valid, with the configured account, an empty directory and sequence 0 |
| Processing.Processor.SendEvent | processor.go:62-80 | the sequence number goes up by one, exactly one event with that id is sent, and both invariants are kept |
| Processing.Processor.Write | processor.go:84-133 | the messages sent are exactly one per cut of the text, in order, with consecutive ids; empty text sends nothing; text within the limits is sent as one message; both invariants are kept |
| Processing.Processor.SendChunk | processor.go:86-128 | one pass of the loop sends the next cut's chunk under the next id, leaves that cut's rest, and leaves the messages of the remaining cuts still to send |
| Processing.Processor.UpdateUser | processor.go:176-177 | the directory becomes the upsert of the user and stays keyed by id |
| Processing.Processor.OnConnected | processor.go:183-190 | the configured account is taken as its own, every configured user is upserted in list order, and the directory stays keyed by id |
| Processing.Processor.Receive | processor.go:136-224 | `hello` runs `onConnected`; `user_change` upserts the decoded user, and when decoding failed still upserts Go's zero `User`, so an entry appears under the empty id; every other frame leaves the state unchanged; both invariants are kept |

## Left out

- The handshake, the transport, the reconnection logic and the `Connection` type (connect.go) are not part of this model. The connection's `Write` is represented by the ghost log `Processor.Sent`, and its `Read` by the frame passed to `Processor.Receive`.
- message.go and `filterMessage` (processor.go:242-283) are not part of this model. The `message` handler's body is commented out in the source, so that handler changes nothing.
- JSON encoding is left out. `sendEvent`'s `json.Marshal` error path (processor.go:72-75) cannot be taken for a struct of one int and three strings, so `Write` never returns an error here.
- JSON decoding of inbound frames is left out. A frame arrives already decoded into the keys the loop reads: `reply_to`, `subtype`, `type` and the `user_change` user.
- Processor.Receive: a `user_change` frame whose `user` field has a wrongly typed member is modelled as upserting the zero `User`. Go's `encoding/json` skips only the ill-typed field and keeps every other field it could decode.
- Logging and printing are left out. This includes the syntax-error excerpt at processor.go:150 and processor.go:220, which slices from `Offset-40` and could itself panic.
- The panics of the type assertions at processor.go:162 and processor.go:166 are excluded by the precondition `Dispatch.WellTyped`.
- The event loop runs forever (processor.go:137) and `EventProcessor` starts it (processor.go:239). `Processor.Receive` models one pass of the loop; the loop itself is left out.
- The handler table is fixed at construction, so it is modelled as `Dispatch.HandlerFor` rather than as a field.
- `sequence` is an unbounded integer. Go's 64-bit `int` overflow after 2^63 sends is not modelled.
- config.go's `State` type is not part of this model, because the processor never uses it. `Channel` and the `Config` channel list are carried as data only; the processor never reads them.
- processor.go reads `user.Id` while config.go declares the field `ID`. The model uses the single field `User.id`.

## Findings

| source | as written | input that shows it | evidently intended | confidence | as-written member | corrected member |
|---|---|---|---|---|---|---|
| processor.go:98 | `maxSizeChunk := text[:maxMessageSize]` declares a new variable inside the `if`, so the outer `maxSizeChunk` stays the whole remaining text and the newline and word-break searches scan past offset 4000 | any text over 4000 bytes whose only break byte lies past offset 4000, such as 9000 bytes with no newline and a single space at offset 4500: the first message is the first 4500 bytes, over the 4000-byte limit | assign (`=`) the first 4000 bytes to the outer variable, so every break is searched within the first 4000 bytes and every message stays within both limits | not executed | Chunking.AsWrittenChunkExceedsSize | Chunking.WindowedCutsWithinLimits |
| processor.go:98-113 | the same shadowing: `lines` is recounted over the first 4000 bytes, but the newline search then runs over the whole remaining text | 4001 bytes without a newline, then 30 newlines, then one more byte: the recount finds no line, the last newline is chosen, and the first message holds 29 newlines, over the 25-line limit | search the first 4000 bytes, so a text that counts at most 25 lines there is also cut within them | not executed | Chunking.AsWrittenChunkExceedsLines | Chunking.WindowedCutsWithinLimits |
