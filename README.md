# telebase in Dafny

A model of the decision logic in `base.php`, the script behind a Telegram
user-bot. The script is built on MadelineProto. The model covers five parts:

- **Configuration.** `getConfig` reads `config.php` and fills in `delete_log`
  and `max_restarts`.
- **Supervisor.** `safeStartAndLoop` runs the session and restarts it after a
  failure that could not be reported, up to a limit.
- **Event handler state.** `EventHandler::__construct` and `onStart` record
  the robot's id, the owner's id and the report peers. The report peers are
  the recipients of failure reports.
- **Message handler.** `onUpdateNewMessage`, and the two update handlers that
  forward to it, turn one update into an ordered list of effects:
  - an audit log line;
  - edits of the triggering message;
  - administrative log lines;
  - restart, logout and stop calls.
- **Replies.** The uptime and memory replies of the `robot uptime` and
  `robot memory` commands.

The modules, one per file:

| module | file | covers |
|---|---|---|
| `PhpRuntime` | `php_runtime.dfy` | The PHP built-ins this logic depends on: `??` on a missing or null value, truthiness of a string, ASCII `strtolower`, `trim` with its default character set, decimal printing, `sprintf("%02d")`, and the truncation to integer that `%` applies to its operands. |
| `Config` | `config.dfy` | `getConfig`, over configuration arrays of PHP values. |
| `Supervisor` | `supervisor.dfy` | `safeStartAndLoop`. Each attempt's outcome (the session returned, or it threw and the report did or did not throw) is an oracle. |
| `ReportPeers` | `report_peers.dfy` | How configured `report_peers` entries become recipients. |
| `Handler` | `event_handler.dfy` | The `EventHandler` class: its constructor, and `onStart`, a method that appends to `reportPeers` in a loop. |
| `Formatters` | `formatters.dfy` | The uptime and memory replies. |
| `Dispatcher` | `dispatcher.dfy` | `onUpdateNewMessage` and its two forwarders. |

The model keeps the following quirks of the code exactly as written:

- The configuration key `max_restart` (without the s) feeds `max_restarts`.
- The hours field of the uptime is taken modulo 3600, not 24.
- The memory reply starts with "Robot's uptime is: ".
- `logout` has no `break`, so it falls through into `stop`.
- A message counts as addressed to the robot when its `reply_to_msg_id`, a
  message id, equals the robot's user id. The code does not look at who wrote
  the message replied to.
- The report peers are not deduplicated: each `owner` entry adds the owner's
  id again, and an entry kept verbatim may repeat it.
- An owner id given as a string is always added for an `owner` entry, even
  when it spells the robot's id, because `!==` also compares types.
- The robot stops when its own message reads `Robot is stopping ...`. That is
  the text the `stop` command writes into the command message.

Four things the handler depends on become parameters:

- `time()`, as the current time `now`;
- `memory_get_usage(true)`, as `memUsage`;
- the id `getSelf()` returns, as `self`;
- what including `config.php` yields, as `Option<map<string, Value>>`.

The memory reply is computed exactly in integers. `round(x, 2)` is modelled as
rounding half away from zero to the nearest hundredth. The printed number
drops trailing zeros, as PHP's float-to-string conversion does.

## Model

| member | source | states |
|---|---|---|
| PhpRuntime.Lower | base.php:155 | no contract; `strtolower` character by character, characterised by `PhpRuntime.LowerCharacterised` |
| PhpRuntime.LowerCharacterised | base.php:155 | `strtolower` keeps the length, leaves no ASCII capital in the result, and changes a character only by turning an ASCII capital into its lower-case letter; these facts determine the result |
| PhpRuntime.LowerIdempotent | base.php:155 | lower-casing an already lower-cased text changes nothing |
| PhpRuntime.LowerKeepsTruthy | base.php:154-155 | the lower-cased text is truthy exactly when the original is, so `$msg` and `$msgOrig` agree as conditions |
| PhpRuntime.Truthy | base.php:155-163 | no contract: PHP truthiness of a string or null (null, "" and "0" are false); characterised by `PhpRuntime.LowerKeepsTruthy` |
| PhpRuntime.Trim | base.php:173 | the result of `trim` is no longer than its argument and neither starts nor ends with one of " \t\n\r\0\x0B" |
| PhpRuntime.TrimRemovesOnlyPadding | base.php:173 | `trim` returns a contiguous middle of its argument; everything it removes on either side is one of those characters |
| PhpRuntime.TrimStripsPadding | base.php:173 | a keyword padded with strippable characters on both sides trims back to itself |
| PhpRuntime.Dec | base.php:222 | the decimal text of a natural number is non-empty, all digits, has no leading zero, and is a single digit exactly below 10 |
| PhpRuntime.ParseDecOfDec | base.php:212 | the decimal text of a natural number reads back as that number |
| PhpRuntime.Pad2 | base.php:212 | `%02d` pads to width exactly two: one digit gets a leading zero, longer numbers are their decimal text, and a negative number is a minus sign before its digits |
| PhpRuntime.ParsePad2 | base.php:212 | `%02d` of a natural number is all digits and reads back as the number |
| PhpRuntime.ParsePad2Negative | base.php:212 | `%02d` of a negative number is a minus sign followed by digits that read back as its magnitude |
| PhpRuntime.TruncDiv | base.php:209-210 | the float quotient truncated toward zero, as `%` converts it: what is left over has the dividend's sign and is smaller than the divisor |
| PhpRuntime.TruncMod | base.php:209-211 | PHP's `%`: dividend = quotient * divisor + remainder, with the remainder's sign that of the dividend and its magnitude below the divisor |
| Config.CoalesceSettles | base.php:13-14 | once `??` with a non-null default has been assigned back, the key is set and a later `??` yields the value it settled on |
| Config.ApplyDefaults | base.php:11-15 | the file's keys plus `delete_log` and `max_restarts`; `delete_log` defaults to true; `max_restarts` is taken from `max_restart`, default 1; every other entry is unchanged |
| Config.GetConfig | base.php:9-22 | both keys are always set; without a file the result is exactly `delete_log => true, max_restarts => 1` |
| Config.MissingFileIsEmptyConfig | base.php:16-21 | a missing file behaves like a file that returns an empty array |
| Config.ApplyDefaultsIdempotent | base.php:13-14 | applying the defaults to an already defaulted configuration changes nothing |
| Config.MaxRestartsEntryIgnored | base.php:14 | a `max_restarts` entry in the file never reaches the supervisor: only `max_restart` decides it |
| Supervisor.Supervision | base.php:49-72 | no contract; the recursive reading of the `do ... while` loop, characterised by `Supervisor.SupervisionFrom` |
| Supervisor.AttemptLimit | base.php:72 | the `do ... while ($restarts++ < $maxRestarts)` runs at least once and at most `max(maxRestarts, 0) + 1` times |
| Supervisor.SupervisionFrom | base.php:49-73 | from any counter value: the number of attempts is within the limit; every attempt but the last threw and failed to report; the last one decides the ending; `Exhausted` exactly when the limit is reached with nothing reported |
| Supervisor.SafeStartAndLoop | base.php:49-73 | the loop returns the attempts made and the ending, equal to the recursive supervision, with the same characterisation |
| Supervisor.AlwaysFailingRunsTwice | base.php:50-72 | with the default limit 1, a session whose failures can never be reported is started exactly twice |
| Supervisor.ReportedFailureNeverRetries | base.php:63-68 | a failure that is reported ends supervision after one attempt, whatever the limit |
| ReportPeers.ResolvePeer | base.php:119-131 | no contract; the `switch (strtolower(...))` for one entry, characterised by `ReportPeers.EntryContribution` |
| ReportPeers.ResolvePeers | base.php:117-133 | the entries together yield no more peers than there are entries; the contribution of each entry is `ReportPeers.EntryContribution`'s |
| ReportPeers.ResolvePeersAppend | base.php:118-132 | entries resolve independently and in order: the peers of a concatenation are the concatenated peers |
| ReportPeers.EntryContribution | base.php:119-131 | in position: a `robot` entry (any case) adds the robot's id; `owner` adds the owner's id when it is set and not identical to the robot's, nothing otherwise; any other entry is kept verbatim |
| ReportPeers.ResolvePeersMembers | base.php:117-133 | a peer is a recipient exactly when some single entry contributes it |
| ReportPeers.SelfReportOnlyWhenAsked | base.php:120-127 | the robot's own integer id is a recipient exactly when some entry lower-cases to `robot`; an integer owner id equal to it adds nothing |
| ReportPeers.StringOwnerAlwaysAdded | base.php:123-127 | an owner id given as a string passes `!==` against the robot's integer id, so an `owner` entry adds it even when it spells the robot's number |
| ReportPeers.OwnerEntriesRepeat | base.php:118-127 | there is no membership check: two `owner` entries, with the owner set and not the robot, make the owner a recipient twice |
| ReportPeers.ConfiguredEntries | base.php:117-118 | no contract; the entries `foreach` visits: none when `report_peers` is not set or is not an array |
| ReportPeers.StringEntries | base.php:118-119 | the entries `strtolower` accepts are the string prefix, up to the first entry that is not a string |
| Handler.EventHandler.constructor | base.php:89-96 | the start time is the clock reading; the configuration is `getConfig`'s; the robot is unknown and no report peers are recorded |
| Handler.EventHandler.PushReportPeers | base.php:117-133 | the loop appends the resolved peers of the leading string entries, in order, and reports whether every entry was a string |
| Handler.EventHandler.OnStart | base.php:108-139 | records the robot's id; takes the owner from `owner_id` when set; appends the resolved peers of the string entries to `reportPeers`; fails with a TypeError exactly when an entry is not a string, keeping the peers already pushed; otherwise returns the startup message to the robot |
| Formatters.UptimeFields | base.php:207-211 | no contract; the four fields as written, characterised by `Formatters.UptimeFieldBounds` and `Formatters.UptimeHoursCountWholeAge` |
| Formatters.AgeString | base.php:212 | no contract; the `%02d:%02d:%02d:%02d` text, characterised by `Formatters.UptimeReadsBack` |
| Formatters.UptimeReply | base.php:213-217 | no contract; the reply text, shown by `Formatters.UptimeReplyExample` |
| Formatters.UptimeFieldBounds | base.php:207-211 | for a non-negative age: whole days, hours modulo 3600, minutes and seconds modulo 60, each within its bounds |
| Formatters.UptimeHoursCountWholeAge | base.php:209-211 | below 3600 hours, hours*3600 + minutes*60 + seconds equals the whole age, so the hours repeat the days |
| Formatters.UptimeDaysOverlapHours | base.php:208-209 | from one day up to 3600 hours, the hours field is at least 24 and days and hours together overstate the age |
| Formatters.UptimeExample | base.php:207-212 | an age of 90061 seconds (1 day, 1 hour, 1 minute, 1 second) prints as `01:25:01:01`: the hours field counts all 25 hours |
| Formatters.UptimeReplyExample | base.php:207-216 | the reply for that age is "Robot's uptime is: 01:25:01:01." |
| Formatters.UptimeReadsBack | base.php:212 | for a non-negative age, the printed `DD:HH:MM:SS` text reads back as the four computed fields |
| Formatters.RoundedHundredths | base.php:224-226 | no contract; `round(bytes / unit, 2)` in hundredths, characterised by `Formatters.RoundedHundredthsNearest` |
| Formatters.Hundredths | base.php:224-226 | no contract; PHP's text for a number of hundredths, shown by `Formatters.HalfHundredths` and `Formatters.WholeHundredths` |
| Formatters.MemoryAmount | base.php:220-227 | no contract; the amount with its unit, characterised by `Formatters.MemoryUnits` |
| Formatters.MemoryReply | base.php:228-232 | no contract; the reply text, shown by `Formatters.MemoryReplyExample` |
| Formatters.RoundedHundredthsNearest | base.php:224-226 | the rounded number of hundredths is the one nearest to bytes/unit, halves rounded up |
| Formatters.MemoryUnits | base.php:220-227 | below 1024 the byte count itself in bytes; the text ends in " kilobytes" exactly from 1024 up to 1048576 and in " megabytes" exactly from 1048576 on |
| Formatters.MemoryExactMultiples | base.php:221-227 | whole numbers of kilobytes (below 1024) and of megabytes print without decimals, with their unit |
| Formatters.MemoryBytesExample | base.php:221-222 | 512 bytes print as "512 bytes" |
| Formatters.HalfHundredths | base.php:224 | 150 hundredths print as "1.5" |
| Formatters.WholeHundredths | base.php:224 | 102400 hundredths print as "1024" |
| Formatters.MemoryKilobytesExample | base.php:223-224 | 2048 bytes print as "2 kilobytes" |
| Formatters.MemoryMegabytesExample | base.php:225-226 | 2097152 bytes print as "2 megabytes" |
| Formatters.MemoryReplyExample | base.php:219-231 | the reply for 2048 bytes is "Robot's uptime is: 2 kilobytes." |
| Formatters.MemoryHalfExample | base.php:223-224 | 1536 bytes print as "1.5 kilobytes": the trailing zero of 1.50 is dropped |
| Formatters.MemoryRoundsUpExample | base.php:223-224 | 1048575 bytes stay in kilobytes and round up to "1024 kilobytes" |
| Dispatcher.ParseCommand | base.php:174-258 | no contract; the case labels of the switch, characterised by `Dispatcher.ParseCommandIsInverse` |
| Dispatcher.CommandEffects | base.php:174-258 | no contract; the calls of each case in order, characterised by `Dispatcher.CommandNeverStops`, `Dispatcher.CommandEditsTrigger` and `Dispatcher.LogoutFallsThroughToStop` |
| Dispatcher.RecognisedCommand | base.php:172-174 | no contract; the gate and the keyword, characterised in both directions by `Dispatcher.BlanksIgnored` and `Dispatcher.RecognisedIsPadded`, and by `Dispatcher.CaseInsensitive` and `Dispatcher.NothingWithoutCommand` |
| Dispatcher.ByRobot | base.php:157-162 | no contract; `$byRobot`: a non-empty message whose `from_id` (default 0) is strictly the robot's id and whose text is truthy |
| Dispatcher.ToRobot | base.php:158-163 | no contract; `$toRobot`: a non-empty message whose `reply_to_msg_id` (default 0) is strictly the robot's id and whose text is truthy |
| Dispatcher.HasCommandPrefix | base.php:172 | no contract; the `strlen >= 6` and `substr(..., 0, 6) === 'robot '` test |
| Dispatcher.IsStopCue | base.php:262 | no contract; the robot's own non-empty message whose original text is exactly the sentinel |
| Dispatcher.AuditEffects | base.php:166-168 | no contract; the audit line, the first of the three parts in `Dispatcher.HandlerDecomposes` |
| Dispatcher.EffectsOf | base.php:174-258 | no contract; the case of the switch for a recognised command, nothing without one |
| Dispatcher.RecognisedEffects | base.php:172-258 | no contract; the second part in `Dispatcher.HandlerDecomposes`: the effects of the command the update carries |
| Dispatcher.CueEffects | base.php:262-264 | no contract; the third part in `Dispatcher.HandlerDecomposes`: the stop on the sentinel |
| Dispatcher.OnUpdateNewMessage | base.php:149-265 | no contract; the handler, characterised by `Dispatcher.HandlerDecomposes` and the lemmas below |
| Dispatcher.ParseCommandIsInverse | base.php:174-258 | the switch recognises a keyword exactly when it is one of the seven command keywords, and then as that command |
| Dispatcher.HandlerDecomposes | base.php:149-265 | the handler is, in order: the audit line for a message from the robot or whose reply-to message id equals the robot's id; the effects of the recognised command; the stop on the sentinel |
| Dispatcher.EveryKindHandledAlike | base.php:141-148 | new, edited and channel messages are handled alike: the same effects, except for the update recorded in the audit line |
| Dispatcher.EmptyMessageDoesNothing | base.php:151-153 | an empty message has no effect |
| Dispatcher.NothingBeforeStart | base.php:162-163 | before `onStart` has recorded the robot's id, no update has any effect |
| Dispatcher.CommandNeverStops | base.php:174-258 | no command's case calls `stop` |
| Dispatcher.CommandEditsTrigger | base.php:174-258 | every command first edits the message that carried it, and every edit targets that message's peer and id |
| Dispatcher.LogoutFallsThroughToStop | base.php:234-257 | `logout` edits, logs, logs out, and then also writes the stop sentinel; `restart` edits, logs and restarts |
| Dispatcher.SentinelIsNoCommand | base.php:172-174 | the lower-cased sentinel starts with "robot " but its keyword `is stopping ...` matches no command |
| Dispatcher.CommandIsNotCue | base.php:172-174 | a message that carries a recognised command is never the stop cue |
| Dispatcher.RecognisedNeverStops | base.php:174-258 | whatever command an update carries, its effects include no stop |
| Dispatcher.StopExactlyOnCue | base.php:261-264 | the robot stops exactly on its own non-empty message whose original text is the sentinel |
| Dispatcher.CommandUpdate | base.php:166-259 | a recognised command yields the audit line followed by exactly its case of the switch, and no stop |
| Dispatcher.NothingWithoutCommand | base.php:172 | any edit, log line, restart or logout requires a recognised command: a non-empty message from the robot whose truthy text, lower-cased, starts with "robot " |
| Dispatcher.CueUpdate | base.php:261-264 | the robot's sentinel message yields only the audit line and the stop |
| Dispatcher.StopProtocol | base.php:251-264 | `robot stop` only edits its message into the sentinel; when that edit arrives as an edited-message update, the robot stops |
| Dispatcher.CaseInsensitive | base.php:155-174 | two texts that lower-case alike carry the same command, so the prefix and the keyword may be written in any case |
| Dispatcher.BlanksIgnored | base.php:172-174 | from the robot, "robot " followed by any run of `trim` characters, a keyword and another such run is that keyword's command |
| Dispatcher.RecognisedIsPadded | base.php:162-174 | the converse: a recognised command comes from the robot, and its lower-cased text is exactly "robot ", a run of `trim` characters, the keyword and another such run |
| Dispatcher.CommandIgnoresCaseAndBlanks | base.php:155-174 | an instance of both: "ROBOT  Stop \n" from the robot is the stop command |
| Dispatcher.UnknownKeywordDoesNothing | base.php:174-258 | without a recognised command the only possible effects are the audit line and the stop |

## Left out

- Downloading and requiring `madeline.php` (lines 4-7), reading `credentials.php` and `settings.php` (`getCredentials` and `getSettings`, lines 24-40, called at 269-270), and copying the credentials into the settings and constructing the API (lines 275-281): I/O and library set-up, with no decision logic.
- Deleting `MadelineProto.log` (lines 272-274): file I/O.
- `toJSON`: the audit line records the update itself rather than its JSON text.
- The periodic `GenericLoop` task (lines 283-297): every run it writes a "Time is ..." log line and reads the robot's id, and nothing else; it changes no state the handler reads. `sleep(5)`: timing only.
- Each supervisor attempt's session is not modelled. It starts the client, registers the handler and runs the event loop, all inside MadelineProto. Each attempt's outcome is a parameter.
- Sending, editing and logging are effects in a list; they are not performed. Each yielded call can throw, for example `editMessage` on a message deleted in the meantime, or the audit `logger`. A throw ends `onUpdateNewMessage` at that call. The effect list is the sequence of calls when every call returns, so the list does not capture a throw cutting the later calls short. In the `logout` and `stop` cases some calls are not awaited (no `yield`), so they may complete out of order. The list keeps the order of the calls.
- `getReportPeers` and `getRobotID`: plain getters.
- The `admins` field: it is initialised and never read.
- The `out` and `to_id['_']` entries of a message: they are read and never used.
- Config.GetConfig: the included `config.php` is taken to return an array. A file that returns nothing (`include` yields 1) would make line 13 throw, which the `Option<map<string, Value>>` parameter cannot express.
- Handler.EventHandler.OnStart: a `report_peers` value that is set but is not an array contributes nothing. PHP only warns when `foreach` is given a scalar.
- Supervisor.SafeStartAndLoop: the `int` type of `$maxRestarts` under strict types is not modelled. A configured `max_restart` of another type would make the call throw a TypeError, and the limit here is just an integer.
- Formatters.MemoryAmount: the result equals PHP's double-precision output only while the byte count stays below 2^43. Above that, the quotient is no longer exact in a double.
- Dispatcher.OnUpdateNewMessage: `$update['message']` is taken to be present. An update without one would fail in PHP on the first read.
