# disco: the outgoing side of a terminal Discord client, in Dafny

disco is a terminal client for Discord written in Go (`main.go`). After
login it reads standard input one line at a time and decides what each line
becomes:

- A line that starts with three backticks opens a fenced code block. The client
  then keeps reading until some read contains a fence, and sends everything it
  read as one message, byte for byte.
- `:q` or an empty line ends the session.
- Any other line loses its newline and goes through two rewriting passes. The
  command pass (`ParseForCommands`) runs first. The mention pass
  (`ParseForMentions`) runs second. It turns each `@name` into the platform's
  `<@ID>` reference for the first user that matches. What is left is sent,
  unless it is empty.

`ParseForEmoji` (main.go:217-225) shortens custom-emoji references
`<:name:ID>` to `:name:`. No line of `main.go` calls it. Its caller is not
part of this model, so the function is modelled on its own.

The project models this core in five modules and two helper modules:

- `Session` models the read loop at byte level.
  - `ReadString` is `bufio.Reader.ReadString('\n')`.
  - `CloseFence` is the search for the closing fence. `TurnAt` is one turn of
    the loop. `Transcript` is the whole session: what was sent and how it ended.
  - The methods `ReadBlock`, `Turn` and `Run` follow the loops of `main` and
    are proved against those functions.
  - `Dispatch` is one send plus the error line printed when the send fails.
- `Lines` lets the session be reasoned about line by line. It cuts the input
  into its physical lines (`Split`) and proves that the line-level transcript
  equals the byte-level one (`TranscriptAgrees`, `RunByLines`). The
  behavioural properties are proved on that line-level view: blocks are
  verbatim, the loop stops at the quit lines, and empty messages are never sent.
- `Mentions` models the resolver `ReplaceMentions` and the tokenizer behind
  `ParseForMentions`.
  - The resolver is a first-match search. Guild members come first, at most
    1000 of them, and the nickname is tried before the username. Direct-message
    recipients come after that.
  - The tokenizer cuts a line into `@\w+` tokens and single bytes. Cutting is
    proved to be a bijection onto well-formed piece sequences.
- `Emoji` models `ParseForEmoji` by the same tokenizer method, for
  `<(:\w+:)[0-9]+>`.
- `Disco` wires the mention pass into the read loop.
- The helper module `Text` holds the byte classes and `strings.HasPrefix` and
  `strings.Index`. The helper module `Wrappers` holds `Option`.

A `char` stands for one byte of a Go string. Nicknames and usernames are
compared byte by byte with `strings.HasPrefix` (main.go:189, 193 and 207), and
those bytes may be any UTF-8. Every character class the client tests (`\w`,
`[0-9]`, the fence and the newline) is ASCII. The inner block loop ignores
read errors, so a final read that is cut short by end of input still closes a
block when it holds a fence.
The model does the same.

The direct-message fallback tests `strings.HasPrefix(name,
recipient.Username)` (main.go:207). The typed name must start with the
username, which is the reverse of the member tests at main.go:189 and 193. So
`@ali` does not reach the recipient `alicia`, while `@alicia_x` does
(`Mentions.RecipientDirectionShortName`, `Mentions.RecipientDirectionLongName`).

## Model

| member | source | states |
|---|---|---|
| Session.Run | main.go:80-127 | Does what the loop of `main` does: what it sends and how it stops equal `Transcript` of the input. The lines it prints are the error lines of exactly the sends that failed. |
| Session.Turn | main.go:81-126 | One pass of the loop body equals `TurnAt`: stop at end of input, at a quit line, or at an unterminated block, or go on with at most one message and the position of the next read. |
| Session.ReadBlock | main.go:92-98 | The inner loop finishes exactly when a later read holds a fence. The block it returns is the bytes from the opener up to and including that read. |
| Session.Dispatch | main.go:99-102 | A send appends the payload to the sent messages. What is printed stays the error line of every failed send, in order. |
| Session.TurnAt | main.go:84-126 | A turn that goes on always moves strictly forward in the input. |
| Session.TurnAtBlock | main.go:91-103 | A line with the fence prefix is sent together with every byte up to the closing read. Without a closer the loop hangs. |
| Session.TurnAtPlain | main.go:106-126 | Any other complete line loses its newline. It stops the loop when it is `:q` or empty. Otherwise the command pass and then the mention pass rewrite it, and the result is sent only when it is not empty. |
| Session.CloseFence | main.go:92-98 | A closing position lies after the opener and within the input. |
| Session.BlockStep | main.go:93-97 | One inner read either closes the block right after itself, ends a search that has no closer at end of input, or passes the search on to the next read. |
| Session.CloseFenceOver | main.go:93-97 | The same step, for a read whose line is given. |
| Session.CloseFenceLast | main.go:95-97 | The search ends at a read that holds a fence, even one cut short by end of input, and fails at end of input otherwise. |
| Session.CloseFenceHit | main.go:95-97 | A read holding a fence closes the block right after itself. |
| Session.ContainsFenceIndex | main.go:95 | The fence test `strings.Index(subline, "```") != -1` holds exactly when the read contains three adjacent backticks. |
| Session.ReadString | main.go:84 | Definition of `ReadString('\n')`: the bytes from the position through the first newline, or, with end of input set, all the bytes that are left. |
| Session.Transcript | main.go:80-127 | Definition of the session: turns follow each other from the start of the input, each turn's message is sent before the next turn, and the first stop gives the exit. |
| Session.StripNewline | main.go:106-109 | Definition: drops the last byte of a non-empty line and leaves "" as it is. |
| Session.IsQuit | main.go:112 | Definition: the quit test, `:q` or the empty line. |
| Session.ErrorLine | main.go:101 | Definition: the printed line `Error: <err>` and a newline. |
| Session.ErrorReport | main.go:99-125 | Definition: one error line for each of the first `n` sends that failed, in send order. |
| Session.LineEnd | main.go:84 | The newline search stays in the input and stops at a newline or at the end. |
| Session.LineEndFirst | main.go:84 | The newline it stops at is the first one. |
| Session.ReadStringShape | main.go:84 | A read that is not at end of input is a whole line, ending in its only newline. A read at end of input holds no newline. |
| Session.ReadStringAt | main.go:84 | A read returns the bytes at the current position. |
| Session.ReadsLine | main.go:84 | A complete line at the current position is read as itself, not at end of input. |
| Session.ReadsTail | main.go:84-88 | Bytes without a newline at the end of the input are read with end of input set. |
| Session.ScenarioUnterminatedLast | main.go:84-88 | For `hi\nbye` without a final newline, `hi` is processed and the loop ends at the partial line without sending it. |
| Lines.CloseFence | main.go:92-98 | The closer is the first fenced line after the opener, and there is none exactly when no later line holds the fence. |
| Lines.LineTurn | main.go:84-126 | A line-level turn that goes on moves forward to a later line. |
| Lines.TranscriptAgrees | main.go:80-127 | The byte-level session from any line's offset equals the line-level session from that line. |
| Lines.RunByLines | main.go:80-127 | Any input is its physical lines joined together, and the session over the input is the session over those lines. |
| Lines.TurnAgrees | main.go:84-126 | The byte-level turn at a line's offset is the line-level turn at that line, with positions mapped to offsets. |
| Lines.BlockTurnAgrees | main.go:91-103 | The same for a line that opens a block. |
| Lines.PlainTurnAgrees | main.go:106-126 | The same for any other complete line. |
| Lines.CloseFenceAgrees | main.go:92-98 | Searching the bytes for the closer finds the offset of the line-level closer, or none when there is none. |
| Lines.CloseFenceNext | main.go:93-97 | A complete line without a fence passes the byte-level search on to the next line. |
| Lines.CloseFenceHere | main.go:95-97 | At a fenced line, at a partial last line or at the end, the byte-level search agrees with the line-level one. |
| Lines.CloseFenceAtEnd | main.go:84-97 | The search for a closer fails at the end of the input. |
| Lines.CloseFenceAtFence | main.go:95-97 | A fenced line closes the block at the next line's offset. |
| Lines.CloseFenceAtTail | main.go:93-97 | A partial line without a fence is the last line, and the search fails there. |
| Lines.ReadAt | main.go:84 | Each read returns the next physical line, with end of input set for an unterminated last line and "" at the end. |
| Lines.Split | main.go:84 | Definition: the input cut into the successive reads of `ReadString`. |
| Lines.Transcript | main.go:80-127 | Definition: the session of the read loop over the physical lines, one turn per line or per block. |
| Lines.SplitConcat | main.go:84 | Cutting the input into reads loses no byte and adds none. |
| Lines.SplitPhysical | main.go:84 | Every read but the last is a line ending in a newline, and a last read without one is not empty. |
| Lines.FencedBlock | main.go:91-103 | A block is sent as the opener plus every line through the closer, verbatim and starting with the fence. It does not depend on either rewriting pass, and the session goes on after the closer. Without a closer the session hangs and sends nothing more. |
| Lines.PlainLine | main.go:106-126 | A complete line is its text plus a newline. A quit text stops the session, and any other text sends its rewrite unless that is empty. |
| Lines.NoMessageEmpty | main.go:121-126 | No session sends an empty message, and none sends more messages than there are lines. |
| Lines.Outs | main.go:117-126 | The rewrites of plain lines number at most the lines. |
| Lines.PlainRun | main.go:84-126 | A session of plain, non-quit lines sends exactly the non-empty rewrites of its lines, in order, and ends at end of input. |
| Lines.QuitStops | main.go:111-114 | The session stops at the first quit line. It sends the rewrites of the lines before it, and nothing after it matters. |
| Lines.ScenarioFenceInOpener | main.go:91-98 | An opener holding a second fence does not close itself. The block runs to the next read holding a fence. |
| Lines.ScenarioBlockVerbatim | main.go:91-103 | `@bob` inside a block is sent untouched, together with the fences. |
| Lines.ScenarioQuit | main.go:111-114 | `:q` ends the session before any later line is sent. |
| Lines.Offset | main.go:84 | A line's offset lies within the input. |
| Lines.OffsetNext | main.go:84 | The next line starts where this line ends. |
| Lines.Between | main.go:93-94 | The bytes between two line offsets are those lines joined. |
| Lines.LineAt | main.go:84 | Each line sits at its offset in the input. |
| Lines.ConcatAppend | main.go:94 | Joining two runs of lines joins their texts. |
| Mentions.ReplaceMentions | main.go:173-214 | The imperative search returns exactly `Resolve`. |
| Mentions.Resolve | main.go:173-214 | Definition of the resolver. A token shorter than 2 bytes stays as it is. A failed member lookup leaves the token as it is. Otherwise the first of the first 1000 members that matches gives the mention. If none matches, a failed channel lookup leaves the token as it is, and otherwise the first matching recipient, channel by channel, gives the mention. With no match at all the token stays as it is. |
| Mentions.MemberMatches | main.go:189-195 | Definition: the member's nickname or its username starts with the typed name. |
| Mentions.RecipientMatches | main.go:207 | Definition: the typed name starts with the recipient's username. |
| Mentions.Tokenize | main.go:161-167 | Definition of the regex scan: from left to right, an `@` followed by a non-empty maximal word run is one token, and any other byte is passed over. |
| Mentions.Render | main.go:167 | Definition of the replacement: each token becomes its resolution, and each other byte stays. |
| Mentions.ResolveFirstMember | main.go:180-196 | The first of the at most 1000 listed members whose nickname or username starts with the typed name gives the mention. |
| Mentions.ResolveFirstRecipient | main.go:198-211 | When no listed member matches, the first direct-message recipient (channel by channel) whose username starts the typed name gives the mention. |
| Mentions.ResolveUnchanged | main.go:173-214 | A token comes back unchanged exactly when it is just `@` or nobody matches it, lookup errors included. |
| Mentions.ResolveSound | main.go:173-214 | Any replacement is the mention of a user that matches the name under the guild or the direct-message rule. |
| Mentions.FetchMembers | main.go:180-181 | The member lookup returns the first 1000 members of the roster, or all of them when there are fewer. |
| Mentions.FirstMember | main.go:187-196 | Finds the first member whose nickname or username starts with the name, and finds none exactly when none does. |
| Mentions.FirstRecipientIn | main.go:206-210 | The first matching recipient of one channel, or none exactly when none matches. |
| Mentions.FirstRecipient | main.go:205-211 | The first matching recipient in channel order, and none exactly when no channel has one. |
| Mentions.Mention | main.go:190-194 | A mention is `<@ID>` with the user's ID. |
| Mentions.MentionInjective | main.go:190-194 | Equal mentions mean equal user IDs. |
| Mentions.NicknameBeforeLaterUsername | main.go:188-194 | A member whose nickname matches wins over a later member whose username matches. |
| Mentions.UsernamePrefix | main.go:192-194 | `@ali` finds the member with username `alice`. |
| Mentions.RecipientDirectionShortName | main.go:207 | `@ali` does not reach the direct-message recipient `alicia`. |
| Mentions.RecipientDirectionLongName | main.go:207 | `@alicia_x` reaches the recipient `alicia`. |
| Mentions.ParseForMentions | main.go:160-170 | A line whose `@\w+` tokens all resolve to themselves comes back as it was. |
| Mentions.ParseForMentionsNoCandidates | main.go:160-170 | With nobody to resolve, every line comes back unchanged. |
| Mentions.ParseForMentionsAroundToken | main.go:160-170 | A maximal `@name` run in a line is replaced by its resolution, and the text around it is rewritten on its own. |
| Mentions.TokenizeRaw | main.go:161-167 | The token cut loses no byte and adds none. |
| Mentions.TokenizeWellFormed | main.go:161 | Every token is a maximal `@\w+` run, with no `@word` left among the single bytes. |
| Mentions.TokenizeUnique | main.go:161-167 | A well-formed piece sequence is the cut of its own text, so the cut is the only well-formed one. |
| Mentions.TokenizeHead | main.go:161 | The cut of a non-empty line is not empty, and its first piece is a plain word byte exactly when the line starts with a word byte. |
| Mentions.TokenizeToken | main.go:161 | An `@` followed by a maximal word run is one token. |
| Mentions.TokenizeChar | main.go:161 | Any byte that does not start a token stays a byte. |
| Mentions.TokenizeTokenFirst | main.go:161 | A line that starts with a token cuts it off first. |
| Mentions.TokenizeCharFirst | main.go:161 | A line that does not start with a token cuts off one byte first. |
| Mentions.TokenizeConcat | main.go:161-167 | Cutting splits at a boundary that is followed by a non-word byte. |
| Mentions.TokenizeConcatToken | main.go:161-167 | The token case of that split. |
| Mentions.TokenizeConcatChar | main.go:161-167 | The single-byte case of that split. |
| Mentions.TokenizeAppendToken | main.go:161 | A leading token survives appending a text that starts with a non-word byte. |
| Mentions.TokenizeAppendChar | main.go:161 | A leading single byte survives the same append. |
| Mentions.RawConcat | main.go:167 | The text of joined pieces is the joined texts. |
| Mentions.RenderConcat | main.go:167 | Rewriting joined pieces joins their rewrites. |
| Mentions.RenderFixed | main.go:167 | Pieces whose tokens all resolve to themselves rewrite to their own text. |
| Emoji.ParseForEmoji | main.go:217-225 | The result is never longer than the line, and a line with no reference comes back unchanged. |
| Emoji.ParseForEmojiAroundReference | main.go:217-225 | A reference `<:name:ID>` becomes `:name:`, and the text on each side is rewritten on its own. |
| Emoji.EmojiAt | main.go:218 | Definition of one match of `<(:\w+:)[0-9]+>` at the start of a text: `<:`, a maximal word run, `:`, a maximal digit run and `>`. |
| Emoji.Tokenize | main.go:218-224 | Definition of the scan: from left to right, a match is one piece, and otherwise one byte is passed over. |
| Emoji.Render | main.go:224 | Definition of the `$1` replacement: each match becomes `:name:`, and each other byte stays. |
| Emoji.EmojiAtSpec | main.go:218 | The pattern matches at a position exactly when a well-formed reference starts there, and yields its name and ID. |
| Emoji.EmojiAtFinds | main.go:218 | A well-formed reference at the start is matched with its parts. |
| Emoji.EmojiAtSound | main.go:218 | A match is a well-formed reference with a non-empty word name and digit ID. |
| Emoji.EmojiAtAppend | main.go:218 | Appending a text that starts with `<` does not change a match. |
| Emoji.TokenizeRaw | main.go:218-224 | The cut into bytes and references loses no byte and adds none. |
| Emoji.TokenizeWellFormed | main.go:218 | No single byte left by the cut starts a reference. |
| Emoji.TokenizeUnique | main.go:218-224 | A well-formed piece sequence is the cut of its own text. |
| Emoji.TokenizeCustomFirst | main.go:218 | A line that starts with a reference cuts it off first. |
| Emoji.TokenizeCharFirst | main.go:218 | A line that does not start with one cuts off one byte. |
| Emoji.TokenizeReferenceFirst | main.go:218 | A reference followed by any text is cut off as one piece. |
| Emoji.TokenizeConcat | main.go:218-224 | Cutting splits at a boundary followed by `<`. |
| Emoji.TokenizeConcatCustom | main.go:218-224 | The reference case of that split. |
| Emoji.TokenizeConcatChar | main.go:218-224 | The single-byte case of that split. |
| Emoji.NoReferenceNoCustom | main.go:218 | A line with no reference cuts into single bytes only. |
| Emoji.ReferenceTail | main.go:218 | A reference holds no `<` after its first byte. |
| Emoji.RenderFixed | main.go:224 | Single bytes render as themselves. |
| Emoji.RenderShrinks | main.go:224 | Rewriting never lengthens the text, and it shortens any text that holds a reference. |
| Emoji.RenderConcat | main.go:224 | Rewriting joined pieces joins their rewrites. |
| Text.IndexOfSpec | main.go:95 | `strings.Index` returns -1 exactly when the pattern occurs nowhere, and otherwise the first place where it occurs. |
| Text.IndexOfNone | main.go:95 | A result of -1 means no occurrence. |
| Text.IndexOfFirst | main.go:95 | Any other result is the first occurrence. |
| Text.IndexOf | main.go:95 | The result is -1 or a position in the text. |
| Text.WordRunSpec | main.go:161 | The greedy `\w+` run consists of word bytes and cannot be extended. |
| Text.WordRun | main.go:161 | The run lies within the text. |
| Text.WordRunOf | main.go:161 | A word prefix followed by a non-word byte is exactly the run. |
| Text.DigitRunSpec | main.go:218 | The greedy `[0-9]+` run consists of digits and cannot be extended. |
| Text.DigitRun | main.go:218 | The run lies within the text. |
| Text.DigitRunOf | main.go:218 | A digit prefix followed by a non-digit is exactly the run. |
| Disco.MentionPass | main.go:119 | Definition: the second pass of the loop, `ParseForMentions` against the lookups of the run. |
| Disco.ClientWithoutCandidates | main.go:117-120 | With nobody to resolve, the whole session with the mention pass sends what it sends with no second pass. |
| Disco.WithoutCandidates | main.go:117-120 | The same from any line of the line-level session. |
| Disco.TurnWithoutCandidates | main.go:117-120 | The same for one turn. |

## Left out

- Session start and login are not modelled: `DiscordState.NewSession(Config.Username,
  Config.password)` and `Session.Start()` at main.go:61-66. They belong to the
  `DiscordState` package, whose source is not part of this model.
- The `newMessage` handler registered at main.go:72 is not modelled, since its
  source is not shown. Neither is the printing of incoming messages.
  `ParseForEmoji` (main.go:217-225) is modelled on its own, and its caller is
  not part of this model.
- Flags, configuration (`GetConfig`, `CheckState`), the guild and channel
  menus, notifications (`notifyFlag`) and `InitWindow`/`ShowContent` are
  outside the core.
- `ParseForCommands` is the parameter `commands: string -> string`. The
  code for the chat commands is not part of this model.
- The mention pass is the parameter `mentions` of the read loop. `Disco`
  plugs `Mentions.ParseForMentions` into it.
- The outcome of each `ChannelMessageSend` is the parameter
  `transport: nat -> Option<string>`: the error, if any, of the k-th send.
- The two lookups of `ReplaceMentions` (`GuildMembers`, `UserChannels`) are the
  `Directory` value, fixed for the run. Changes to the guild in the middle of a
  line are not modelled.
- The `Msg(ErrorMsg, ...)` lines that a failed member lookup or a regex error
  prints are not modelled. The two regexes are constants that compile.
- `Mentions.Mention`: the `<@ID>` format is discordgo's `User.Mention`, and its
  source is not part of this model. Only the format and its injectivity are
  used.
- Standard input is the whole input string fixed up front. Read errors other
  than end of input are not modelled.
- An unterminated fenced block makes the source loop forever on end of input.
  The model ends that session with the exit `Hang` instead of running forever.
- Strings are sequences of bytes with ASCII classes. There is no UTF-8
  decoding: `\w` and `[0-9]` are ASCII in RE2 as well.
