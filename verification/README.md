# pycat relay core in Dafny

pycat is an IRC relay written in Python 2. It keeps one connection to an
IRC server and sits in one channel. Lines that TCP peers send to its
listener are said in the channel, and a helper script is run on channel
messages so that its output can be relayed back. This project models the
parts of the relay that work on text and queues, and proves properties
about them:

- **Line framer** (`PyCat.process_data`). Each descriptor has a receive
  buffer. Incoming text is appended to it, and complete `'\n'`-terminated
  lines are split off one by one. Empty lines are skipped. A zero-length
  read flushes the remainder and drops the descriptor's buffer and its
  dispatcher entry.
- **Target resolver and message routing** (`parse_targets`, `send_message`).
- **Outbound throttle** (`handle_send_buffer`). The send timer is virtual
  and advances 2 seconds per line. Lines are sent while it stays within
  10 seconds of now.
- **Small parsers**: `readable`, `parse_host_port`, and the `key = value`
  reply lines of the script's `--config` run.
- **IRC codec of irc.py**: `IRC._command` serialises a command and
  `Bot.parse_line` parses a line. The wire format is the message grammar
  of section 2.3.1 of RFC 1459: an optional `:prefix`, the command, then
  parameters, where the last one follows `" :"`. CTCP payloads are
  delimited by `'\001'` and carried in PRIVMSG and NOTICE.
- **irc.py's `Bot`**: the handler table, keyed by the upper-cased command;
  the receive buffer filled up to each `"\r\n"`; and the throttled sender,
  which spaces lines at least one second apart.
- **bot.py's handlers**: `listen_parser` classifies a listener line, and
  `mode_parser` walks a MODE modifier string.

Layout, one module per file:

| file | module | models |
|---|---|---|
| `wrappers.dfy` | `Wrappers` | `Option` and `Result`; Python exceptions become `Err` values |
| `text.dfy` | `Text` | Python `str` helpers: `split`, `join`, `lstrip`, `upper`, `in` |
| `framer.dfy` | `LineFramer` | what one feed of `process_data` yields and retains, as functions |
| `pycat_text.dfy` | `PyCatText` | `readable`, `parse_host_port`, the config-line regex, `parse_targets`, `send_message` |
| `relay.dfy` | `PyCatRelay` | class `PyCat` (receive buffers, dispatchers, send queue and timer, match expression) and its handlers |
| `irc_codec.dfy` | `IrcCodec` | `IRC._command`, `IRC.__getattr__`, `Bot.parse_line` |
| `irc_bot.dfy` | `IrcBot` | class `Bot` (buffer, handler table, `last_send`) |
| `bot_script.dfy` | `BotScript` | `listen_parser`, `mode_parser` and the handlers bot.py registers |

Each state-changing loop in the source is a `method` with a `while` or
`for` loop. Its `ensures` ties the result to a specification function, and the lemmas
state what that function means. Loops that only build a list
(`send_message`'s per-target calls, `parse_targets`' `map`/`filter`) are
sequence comprehensions and recursive functions. Where the source updates an object's
fields, the model is a `class`, and its methods state the new state.

## Model

| member | source | states |
|---|---|---|
| LineFramer.Feed | pycat.py:308-329 | the lines one `process_data` call yields: the framed lines, or the flush at end of stream; FeedYieldsLines, FramingIsSplit and FlushIsNonEmptyPieces state what they are |
| LineFramer.FrameLines | pycat.py:314-319 | every line the framing loop yields is non-empty and contains no `'\n'` |
| LineFramer.FrameRest | pycat.py:314-316 | after the loop the buffer holds no `'\n'` and is a suffix of what was buffered |
| LineFramer.FeedYieldsLines | pycat.py:308-329 | every line one call yields, end-of-stream flush included, is non-empty and has no `'\n'` |
| LineFramer.FrameStep | pycat.py:314-319 | one turn of the loop: the text before the first `'\n'` is yielded unless empty, and the rest is framed the same way |
| LineFramer.FramingIgnoresChunking | pycat.py:312-319 | feeding `a` and then `b` yields the same lines and leaves the same buffer as feeding `a + b` at once |
| LineFramer.FramingReassembles | pycat.py:312-319 | the yielded lines, each re-terminated with `'\n'`, followed by the retained buffer, rebuild the buffered text with exactly its empty lines removed |
| LineFramer.FramingIsSplit | pycat.py:314-319 | the yielded lines are the non-empty pieces of `split('\n')` except the last, and the retained buffer is the last piece |
| LineFramer.FlushIsNonEmptyPieces | pycat.py:321-329 | at end of stream the call yields every non-empty piece of `split('\n')`, the unterminated remainder last |
| PyCatText.Escaped | pycat.py:59-67 | each character below 32 becomes `\xNN` and every other character is kept; EscapedConcat, EscapedIsPrintable and EscapedUnchangedIff state its meaning, and Readable's loop is proved equal to it |
| PyCatText.Readable | pycat.py:55-67 | the accumulator loop returns the per-character escape of the whole string |
| PyCatText.EscapedConcat | pycat.py:61-65 | escaping works character by character, so it distributes over concatenation |
| PyCatText.EscapedIsPrintable | pycat.py:59-67 | the escaped string has no character below 32, and is 3 characters longer per control character |
| PyCatText.EscapedUnchangedIff | pycat.py:61-65 | a string is left unchanged exactly when it has no character below 32 |
| PyCatText.DecimalRoundTrip | pycat.py:487-488 | `int()` of the decimal digits of `n` is `n` |
| PyCatText.ParseHostPort | pycat.py:479-492 | `parse_host_port`: HostPortRoundTrip, HostPortInvalid, HostPortWithoutColon, HostPortTooManyColons and PortOfCases state each of its outcomes |
| PyCatText.HostPortRoundTrip | pycat.py:480-488 | `host:digits` parses to the host and the port number |
| PyCatText.HostPortInvalid | pycat.py:487-490 | a non-empty port that is not all digits gives port -1 |
| PyCatText.HostPortWithoutColon | pycat.py:482-492 | without a colon and with default `'port'`, the host is `''` and the whole string is the port: `''` when empty, `int(s)` when all digits, -1 otherwise; with any other default the string is the host and the port is `''` |
| PyCatText.PortOfCases | pycat.py:487-492 | an empty port is `''`, a port of digits is `int(port)`, and any other port is -1; a non-negative port number comes only from digits |
| PyCatText.HostPortTooManyColons | pycat.py:480-481 | two colons make the tuple unpacking fail with a ValueError |
| PyCatText.ParseConfigLine | pycat.py:267 | a match has a non-empty key of word characters at the start of the line, and a non-empty value without `'\n'` |
| PyCatText.ConfigLineNeedsEquals | pycat.py:267-271 | a line without `'='` is rejected |
| PyCatText.ConfigLineRoundTrip | pycat.py:267-273 | `key  =  value` gives back the key and the value, whatever spaces surround the `'='` |
| PyCatText.ParseTargets | pycat.py:331-353 | the resolver with empty comma entries skipped; TargetsAreAllowed, PlainLineGoesToChannel, TargetListMessage, TwoTargetResolution and SelectTargetsIff state its outcomes |
| PyCatText.SelectTargets | pycat.py:346-349 | every selected target is allowed and has no leading `'@'` |
| PyCatText.SelectTargetsIff | pycat.py:346-349 | `t` is selected exactly when it is allowed and some valid entry strips to it |
| PyCatText.TargetsAreAllowed | pycat.py:331-353 | with the channel not joined: no targets and the line unchanged; otherwise every target is a channel user or the channel, and an explicit list has no leading `'@'` |
| PyCatText.PlainLineGoesToChannel | pycat.py:339-353 | a first word without `'@'` or `'#'` gives exactly `[channel]` and the line unchanged |
| PyCatText.TargetListMessage | pycat.py:339-353 | a target-list word resolves through its comma entries, and the message is the rest of the line |
| PyCatText.TwoTargetResolution | pycat.py:339-353 | `@user,#chan msg` resolves to `[user, #chan]` and `msg` |
| PyCatText.ResolutionExample | pycat.py:331-353 | a concrete resolution of `@alice,#chan hello` |
| PyCatText.ParseTargetsAsWritten | pycat.py:342-347 | the resolver as written, with the IndexError of `s[0]` on an empty entry; AsWrittenAgreesOtherwise, StrayCommaCrashes and EmptyEntryCrashes state how it differs from ParseTargets |
| PyCatText.FilterValidAsWrittenAgrees | pycat.py:342-347 | the source's `valid` filter fails exactly when an entry is empty, and otherwise agrees with the corrected selection |
| PyCatText.AsWrittenAgreesOtherwise | pycat.py:331-353 | the resolver as written fails exactly on a target list with an empty entry, and otherwise equals the corrected one |
| PyCatText.StrayCommaCrashes | pycat.py:342-347 | `@user, msg` raises in the source; the corrected resolver sends `msg` to `user` |
| PyCatText.EmptyEntryCrashes | pycat.py:342-347 | a concrete line, `@alice, hi`, that raises IndexError in the source |
| PyCatText.SendMessage | pycat.py:355-366 | the library calls for a message; SendMessageSaysMessage states them |
| PyCatText.SendMessageSaysMessage | pycat.py:355-366 | every library call says the message; `/me ` and `/notice ` make one call per target in order, anything else one call to all targets |
| PyCatRelay.ClockStart | pycat.py:186-187 | the send timer is brought up to now if it lags behind |
| PyCatRelay.SendCount | pycat.py:189-192 | no more lines are sent than are queued |
| PyCatRelay.SendCountExact | pycat.py:189-190 | every line sent went out while the timer was under now + 10, and sending stops only at an empty queue or a timer at now + 10 or more |
| PyCatRelay.SendBurstAtMostFive | pycat.py:186-190 | one call sends at most five lines |
| PyCatRelay.SendCountFlushesShortQueue | pycat.py:186-190 | an idle timer and a queue of at most five lines: all of them are sent |
| PyCatRelay.RelayedAppend | pycat.py:211-221 | relaying a batch of lines is relaying each line in order |
| PyCatRelay.RelayLine | pycat.py:214-221 | one received line resolved and, unless its message is empty, sent; RelayLineReachesOnlyAllowed and RelayedAppend state its meaning |
| PyCatRelay.RelayLineReachesOnlyAllowed | pycat.py:214-221 | a relayed line with an empty message sends nothing; every call says the message; every recipient is a channel user or the channel |
| PyCatRelay.MatchStep | pycat.py:267-279 | a `match = value` line replaces the match expression; any other line leaves it |
| PyCatRelay.MatchAfterConcat | pycat.py:266-279 | processing reply lines in two batches is processing them in one |
| PyCatRelay.MatchAfterNoSetter | pycat.py:266-279 | lines that do not set `match` leave the expression unchanged |
| PyCatRelay.MatchAfterLastWins | pycat.py:266-279 | the last `match = ...` line wins |
| PyCatRelay.PyCat.constructor | pycat.py:87-100 | initial state: match `'^!'`, timer 0, empty queue, buffers and dispatchers |
| PyCatRelay.PyCat.ProcessData | pycat.py:308-329 | yields the feed of the old buffer plus the data; keeps the framing remainder; on zero-length data drops this descriptor's buffer and dispatcher, and only these |
| PyCatRelay.PyCat.HandleSendBuffer | pycat.py:182-194 | sends the first `SendCount` lines in FIFO order, advances the timer 2 per line sent, and leaves the queue empty or the timer at now + 10 or later |
| PyCatRelay.PyCat.HandleReceiver | pycat.py:207-224 | the framed lines are relayed, in order, onto the end of the send queue; the descriptor's buffer keeps the unterminated rest, or is dropped with its dispatcher at end of stream |
| PyCatRelay.PyCat.HandleStdout | pycat.py:227-232 | each line the script prints is sent to the target, in order; the descriptor's buffer keeps the unterminated rest, or is dropped with its dispatcher at end of stream |
| PyCatRelay.PyCat.HandleStderr | pycat.py:234-238 | the script's error lines are framed and nothing is sent; the descriptor's buffer keeps the unterminated rest, or is dropped with its dispatcher at end of stream |
| PyCatRelay.PyCat.HandleConfig | pycat.py:263-279 | the match expression becomes the one the reply lines set last; the descriptor's buffer keeps the unterminated rest, or is dropped with its dispatcher at end of stream |
| PyCatRelay.PyCat.Connected | pycat.py:455-457 | the new IRC socket is dispatched to the IRC handler and remembered |
| PyCatRelay.PyCat.OnDisconnect | pycat.py:436-445 | the IRC socket's dispatcher entry is removed and the send queue is emptied |
| PyCatRelay.SplitFirstLine | pycat.py:315-316 | `split('\n', 1)` gives the first line and the rest, and one framing step |
| PyCatRelay.SplitLines | pycat.py:314-319 | the framing loop returns the framed lines and a remainder with no `'\n'` |
| PyCatRelay.RelayLines | pycat.py:211-222 | the relaying loop produces the relay of every line in order |
| PyCatRelay.ScriptLines | pycat.py:230-232 | the loop sends every printed line to the target in order |
| PyCatRelay.ScriptOutputAppend | pycat.py:230-232 | script output for a batch is the output for each line in order |
| PyCatRelay.ApplyConfig | pycat.py:266-279 | the config loop computes the last match setting |
| IrcCodec.Invoke | irc.py:18-25 | `bot.irc.<name>(*params)`: the name upper-cased and serialised by `_command`; CommandRoundTrip and CtcpRoundTrip state what goes on the wire |
| IrcCodec.WireArgs | irc.py:27-33 | `CTCP_` pseudo-commands with fewer than two parameters raise IndexError; nothing else does |
| IrcCodec.Command | irc.py:27-35 | serialisation fails exactly on a short CTCP call |
| IrcCodec.SplitRuns | irc.py:119-122 | `re.split(' +')` gives at least one piece, and no piece holds a space |
| IrcCodec.SplitFirstRun | irc.py:115 | `re.split(' +', s, 1)` gives two pieces exactly when `s` has a space |
| IrcCodec.SplitColonFindsSeparator | irc.py:117-118 | `re.split(' +:', s, 1)` splits exactly when `' :'` occurs in `s` |
| IrcCodec.Tokens | irc.py:117-124 | the token list always has a command to pop |
| IrcCodec.Inner | irc.py:127 | `s[1:-1]` is `s` without its first and last character |
| IrcCodec.ParseCommand | irc.py:124-129 | the command part fails exactly on a PRIVMSG with no second argument or an empty one |
| IrcCodec.SplitPrefix | irc.py:112-115 | a line without `':'` has no prefix; a prefixed line parses exactly when a space follows; the prefix has no space |
| IrcCodec.SplitSource | irc.py:131-137 | an empty prefix has no parts; a prefix without `'!'` is a host; with `'!'` the split succeeds exactly when `'@'` follows, and then all three parts are set |
| IrcCodec.SourceRebuildsPrefix | irc.py:131-133 | the parts rebuild the prefix as `nick!user@host`, with no `'!'` in the nick and no `'@'` in the user |
| IrcCodec.ParseLine | irc.py:111-145 | an unprefixed line has no source; a `':'` line with no space raises ValueError |
| IrcCodec.SplitRunsJoin | irc.py:119-122 | splitting words joined by single spaces gives back the words |
| IrcCodec.SplitColonJoin | irc.py:117-120 | in `words + " :" + last` the trailing split finds the marker after the words, and the last argument is kept verbatim |
| IrcCodec.CommandRoundTrip | irc.py:27-35 | parsing a serialised command gives the command and its parameters back, the last one verbatim |
| IrcCodec.CtcpRoundTrip | irc.py:31-33 | `CTCP_<T>` becomes a PRIVMSG with a `'\001'` payload, which parses back to `CTCP_<T>`, the target and the text |
| IrcCodec.CtcpDecode | irc.py:126-129 | the payload is delimited by `'\001'`; its first word is the CTCP type, and the other words rejoin to the text |
| IrcCodec.CtcpNoticeIsNotice | irc.py:28-30 | `CTCP_NOTICE_<T>` is checked first and becomes a NOTICE with the payload, which parses as a plain NOTICE |
| IrcCodec.SourceOfFullPrefix | irc.py:131-133 | `nick!user@host` splits into its three parts |
| IrcCodec.PrefixedLine | irc.py:114-115 | `:prefix rest` splits into the prefix and the rest |
| IrcCodec.ParseUnprefixed | irc.py:111-145 | an unprefixed line parses to its command and arguments, with no source |
| IrcCodec.ParseWithSource | irc.py:111-145 | a prefixed line parses to the prefix's parts plus the command and arguments of the rest |
| IrcCodec.ParseFromUser | irc.py:131-145 | a message from `nick!user@host` carries all three parts |
| IrcCodec.ParseFromServer | irc.py:134-135 | a server prefix is the host alone |
| IrcCodec.ParseMissingHost | irc.py:133 | `nick!user` with no `'@'` raises ValueError |
| IrcBot.Register | irc.py:79-85 | the handler is appended to the upper-cased event's list, and every other list is unchanged |
| IrcBot.HandlersInRegistrationOrder | irc.py:79-85 | an event's handlers are those registered under a name that upper-cases to it, in registration order |
| IrcBot.LowerCaseEventHasNoHandlers | irc.py:158 | lookup does not upper-case, so an event with a lower-case letter finds no handlers |
| IrcBot.BuiltinTable | irc.py:58-61 | the table the four built-in `add_handler` calls build is the table of their registration list, in order |
| IrcBot.Bot.constructor | irc.py:40-63 | empty buffer, clock read, nothing sent yet (spacing invariant holds), and the table of the four built-in registrations PING, INVITE, 376, 433 in that order |
| IrcBot.Bot.AddHandler | irc.py:79-85 | the table becomes `Register` of the old one |
| IrcBot.Bot.CollectIncomingData | irc.py:147-148 | the data is appended to the buffer |
| IrcBot.Bot.FoundTerminator | irc.py:150-159 | the buffer is cleared even if parsing fails; the result is the parsed line and its command's handlers in table order, or the parse error |
| IrcBot.Bot.Throttle | irc.py:172-178 | sleeps only as long as needed; the new send time is at least one second after the last one and not before now |
| IrcBot.Bot.Sender | irc.py:180-185 | pushes the line plus `"\r\n"`, returns its length, and keeps every two sends at least a second apart |
| IrcBot.Bot.Send | irc.py:18-35 | `irc.name(*params)` pushes the serialised upper-cased command; a short CTCP call raises and nothing is sent |
| BotScript.ListenParser | bot.py:24-32 | nothing is sent exactly for a blank line or a bot that is not ready; otherwise one call to the channel |
| BotScript.ListenMe | bot.py:27-28 | `/me text` goes out as a CTCP ACTION to the channel, and that line parses back to the action and the text |
| BotScript.ListenNotice | bot.py:29-30 | `/notice text` goes out as a NOTICE to the channel and parses back to it |
| BotScript.ListenPlain | bot.py:31-32 | any other non-blank line goes out unchanged as a PRIVMSG and parses back to it |
| BotScript.WalkModes | bot.py:68-78 | the `for char in modifiers` walk over sign, state, and the argument list; WalkModesOutcome, WalkModesChange and WalkModesFailsFrom state its meaning, and ModeParser's loop is proved equal to it |
| BotScript.WalkModesOutcome | bot.py:68-78 | the walk fails exactly when the modes need more arguments than given; otherwise one change per mode letter, arguments consumed from the front, and the state is the last sign |
| BotScript.WalkModesChange | bot.py:72-78 | the mode letter at each position becomes the change numbered by the letters before it: the sign in effect plus the letter, with the next argument for `bklvo` and none otherwise |
| BotScript.WalkModesFailsFrom | bot.py:76 | once `available.pop(0)` fails, the whole walk fails |
| BotScript.ModeParser | bot.py:61-81 | fewer than two arguments raise IndexError; another target does nothing; otherwise the loop computes the walk's changes, and the reply is made exactly when `('+o', currentnick)` is among them |
| BotScript.OppedTriggersReply | bot.py:80-81 | a `+o` whose argument is the bot's nick puts `('+o', nick)` among the changes |
| BotScript.DeopReplyWire | bot.py:81 | the reply goes out as `MODE #foo +v-o nick :nick` and parses back to it |
| BotScript.DeopReplyIsQuiet | bot.py:72-81 | the server's echo of the reply walks to a voice and a deop, with no `+o`, so it does not trigger itself |
| BotScript.RegisteredForConcat | bot.py:97-100 | registrations the script makes after the constructor's land after them in every event's list |
| BotScript.ModeDispatch | bot.py:97-100 | a MODE line reaches `mode_parser` only |
| BotScript.InviteDispatch | bot.py:97-100 | an INVITE reaches the bot's own rejoin and then the script's, in that order (the script's `invite_rejoin` then fails with TypeError, see Left out) |
| BotScript.ResetAlarmOnlyOnAll | bot.py:100 | `reset_sigalarm` runs for a command exactly when the command is literally `ALL` |

## Left out

- Sockets, `select`, `accept` and `recv`, and the asyncore/asynchat loop are left out. They are I/O; each handler takes the data a read returned as a parameter.
- `time.time()` and `time.sleep` become a `now` parameter, and the time after a sleep is `now` plus the sleep.
- UTF-8/Latin-1 decoding and encoding are taken as already applied: data is text.
- LineFramer.FramingIgnoresChunking: holds for decoded text only. The source decodes each read on its own (pycat.py:312, with the Latin-1 fallback of pycat.py:40-43), so a multi-byte UTF-8 sequence split across two reads decodes differently from the same bytes read at once: `\xc3` then `\xa9\n` gives the line `Ã©`, not `é`.
- `subprocess`, signals and `os.kill`, and process start-up and hang handling (`start_process`, `handle_hanging_process`, `handle_check_config`) are left out. They are process control.
- The IRC library (`SingleServerIRCBot`, `self.channels[...].users()`, `action`, `notice`, `privmsg_many`, `send_raw`) is not part of this model. Channel membership is a `map<string, set<string>>` parameter, and library calls are `Outgoing` values that the send queue holds.
- `strip_unprintable` and the `re.search(self.match, ...)` trigger are left out: general regular expressions.
- Logging, option parsing, `main` and listener.py are left out.
- `Bot.reconnect`, `handle_connect`, `handle_close`, and the bodies of the built-in replies `irc_pong`, `irc_invite`, `irc_join` and `irc_nick_collision` are left out. Only their registration and the order the handlers run in are modelled.
- bot.py's `msg_parser`, `reset_sigalarm` and `alarm_handler` run a subprocess, set an alarm or send a VERSION request, and are left out. `invite_rejoin` (bot.py:83-85) would join the channel, but it is declared with a leading `self` parameter that has no default, so the `handler(**kwargs)` call of irc.py:159 raises TypeError on every INVITE, after `irc_invite` has run. Only the registrations are modelled; the TypeError falls under the FoundTerminator line below.
- `bot.ready` and `bot.currentnick` are not defined in any of the modelled files. They are parameters of `ListenParser` and `ModeParser`.
- Python generators run lazily. `ProcessData` and the handlers compute all of a call's lines at once, in the same order.
- PyCatRelay.PyCat.HandleSendBuffer: reads the clock once per call. The source calls `time.time()` again at each loop test.
- PyCatRelay.PyCat.ProcessData: requires the descriptor to be in the dispatcher table on a zero-length read. The source raises KeyError there, which only a descriptor that was never registered can cause.
- IrcBot.Bot.FoundTerminator: returns the handlers to run instead of calling them. A handler's own exception is therefore not modelled.
- Text.Upper: upper-cases ASCII letters only. That covers the command and event names the code upper-cases.
- BotScript.IsSpace: is Python 2.7's `unicode.isspace()` set, because listener lines are unicode.

## Findings

| source | as written | input that shows it | evidently intended | confidence | as-written member | corrected member |
|---|---|---|---|---|---|---|
| pycat.py:342-347 | `valid = lambda s: s[0] in '#@'` indexes every comma entry, so an empty entry raises IndexError. Nothing in the select loop catches it, so the relay stops | a peer sends `@alice, hi`: the entries are `@alice` and `""` | empty entries are skipped like any other entry that names no target, giving `(['alice'], 'hi')` | not executed | PyCatText.EmptyEntryCrashes | PyCatText.TargetsAreAllowed |

`ParseTargetsAsWritten` models the resolver as written. `StrayCommaCrashes`
shows that every `@user, msg` line fails. `AsWrittenAgreesOtherwise` shows
that it fails on nothing else. The relay (`PyCat.HandleReceiver`) uses the
corrected `ParseTargets`.

## Behaviour worth knowing

What the code does in cases a reader might expect otherwise:

- **Resolver with the channel not joined.** `parse_targets` returns no targets and the line unchanged, so nothing is said; it does not fall back to the configured channel.
- **Recognising a target list.** A first word counts as a target list when it *contains* `'@'` or `'#'`, not only when it starts with `'#'`.
- **Splitting the line.** The line is split on single spaces, not on the first run of spaces.
- **Plain lines.** A plain line resolves to `[channel]` itself.
- **Skipping lines.** Only an empty message is skipped; a message of white space is sent.
- **The throttle.** `handle_send_buffer` sends bursts rather than one message per interval: the virtual timer moves 2 seconds per line, and sending stops once it is 10 seconds ahead. That allows up to five lines per call and about one line per 2 seconds over time.
- **Serialising a command with no parameters.** `_command('X')` produces `" :X"` rather than raising an error.
- **CTCP decoding.** The test looks only at the second argument of a PRIVMSG. A PRIVMSG whose second argument is empty raises IndexError.
