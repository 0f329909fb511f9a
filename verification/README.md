# Duolingo reminder bot — the reminder loop in Dafny

The bot is a Discord client hosted as a background service. It has one
behaviour: every evening at 20:00 Brasília time, it posts a fixed
"did you do your Duolingo today?" message, mentioning `@everyone`. The post goes
to the text channel named `spam` of every guild (server) the bot is in.
That behaviour is `DiscordBotService.ReminderLoop`. This project models that loop
and proves what it does:

- `schedule.dfy` (module `Schedule`) is the daily scheduling rule.
  From the local time, it builds today's 20:00:00 and rolls it to tomorrow
  when the clock is strictly past it. The loop then waits for the difference.
  Local time is a count of 100-nanosecond ticks, the resolution of a .NET
  `DateTime`. The date is the quotient by the ticks of a day; the time of day
  is the remainder.
- `broadcast.dfy` (module `Broadcast`) is one firing: the `foreach` over the
  guilds.
  - In each guild, it looks up the first text channel named exactly `spam`
    and sends the fixed text.
  - It catches only `HttpException`; any other exception leaves the loop.
  - The platform is an oracle: a function from a channel and a text to
    "delivered", "HTTP failure with a message" or "other exception".
  - `SendReminders` is the loop as a method, proved equal to the
    specification function `Outcomes`.
- `reminder_loop.dfy` (module `ReminderLoop`) is the `while (true)` over a
  simulated clock.
  - Each round of the world supplies three things: the guilds, the platform's
    answers, and the time that passes from the target instant to the next
    clock reading.
  - `RunReminderLoop` is the loop as a method, proved equal to the
    specification function `Run`.
  - The lemmas state the daily cadence: one firing per day at 20:00:00. They
    also state the boundary case, where a firing that ends exactly at the
    target fires again, and that an escaping exception ends the loop.

Models/NewsApiResponse.cs declares a news response type (`Status`,
`TotalResults`, `Results` of `Article`). None of the files modelled or cited
here refers to it, and `ReminderLoop` sends only the fixed reminder of
Services/DiscordBotService.cs:90. Controllers that Program.cs:5 and
Program.cs:12 register, and the `Article` type, are in files that are not
part of this model, so a use of the news type there is not ruled out; it is
simply outside the reminder loop.

## Model

| member | source | states |
|---|---|---|
| Schedule.At | Services/DiscordBotService.cs:69 | for a valid clock time, the built instant falls within the given date |
| Schedule.AtParts | Services/DiscordBotService.cs:69 | `new DateTime(y, m, d, 20, 0, 0)` keeps the date of `now` and has time of day exactly 20:00:00 |
| Schedule.AddDaysParts | Services/DiscordBotService.cs:72 | `AddDays(n)` moves the date forward by `n` and keeps the time of day |
| Schedule.TargetDate | Services/DiscordBotService.cs:69-73 | the target is always at 20:00:00. It is on the date of `now` when `now` is at or before 20:00:00, and on the next date otherwise |
| Schedule.DelayBounds | Services/DiscordBotService.cs:70-75 | the delay is at least 0 and less than one day. Up to 20:00:00 it is exactly 20:00:00 minus the time of day; after that it is more than 20 hours. It is 0 exactly when `now` is 20:00:00, because the comparison is strict |
| Schedule.NextReminderIsNextOccurrence | Services/DiscordBotService.cs:68-73 | the target is at or after `now`, is at 20:00:00, and no earlier instant from `now` on is at 20:00:00 |
| Schedule.NextOccurrenceUnique | Services/DiscordBotService.cs:68-73 | any instant that is the first 20:00:00 at or after `now` equals the computed target, so the rule and the reference definition agree |
| Schedule.TargetStable | Services/DiscordBotService.cs:66-73 | recomputing at any instant between `now` and the target gives the same target |
| Schedule.NextDayAfterFiring | Services/DiscordBotService.cs:63-73 | if the clock is read after a 20:00:00 target but no more than one day later, the new target is exactly that target plus one day |
| Schedule.AtTargetFiresAgain | Services/DiscordBotService.cs:70-75 | at exactly a 20:00:00 instant, the target is that same instant and the delay is 0 |
| Broadcast.ChannelIndex | Services/DiscordBotService.cs:84 | the index found is at most the number of channels. A channel at that index has the name, and no earlier channel has it |
| Broadcast.FindChannel | Services/DiscordBotService.cs:84 | no channel is found exactly when no channel has the exact name. A channel that is found has the name and belongs to the guild |
| Broadcast.FindChannelIsFirstMatch | Services/DiscordBotService.cs:84 | the first channel with the exact name is the one `FirstOrDefault` returns |
| Broadcast.Visit | Services/DiscordBotService.cs:84-100 | the outcome in a guild follows the catch rule, stated against the position of the first channel named `spam`. No such channel means no send. Otherwise the fixed text goes to that first channel, and the outcome is a delivery, a logged HTTP failure with the exception's message, or the escaping exception, exactly as the platform answers |
| Broadcast.Outcomes | Services/DiscordBotService.cs:81-101 | a firing has at most one outcome per guild |
| Broadcast.OutcomesShape | Services/DiscordBotService.cs:81-101 | each outcome is its own guild's visit, in order. Only the last outcome can be an escaping exception, and the firing ends early only because of one |
| Broadcast.SendToGuild | Services/DiscordBotService.cs:84-100 | the body of the `foreach` follows the same catch rule against the first `spam` channel, and its outcome is the one `Visit` specifies |
| Broadcast.SendReminders | Services/DiscordBotService.cs:81-101 | the `foreach` produces exactly the outcomes of the specification function `Outcomes` |
| Broadcast.SentTextIsFixed | Services/DiscordBotService.cs:84-99 | every guild the firing reaches follows the catch rule. It gets no send exactly when none of its channels is named `spam`; otherwise the fixed text goes to its first channel with that name |
| Broadcast.CompletesUnlessUncaught | Services/DiscordBotService.cs:88-95 | the firing reaches every guild exactly when no send before the last guild throws anything but an `HttpException`. It ends without an escaping exception exactly when no send does |
| Broadcast.VisitsAgree | Services/DiscordBotService.cs:84-95 | two platforms that agree on which sends throw non-HTTP exceptions find the same channel in a guild. They also agree on whether the send escapes |
| Broadcast.HttpFailuresDoNotStopTheLoop | Services/DiscordBotService.cs:88-95 | replacing deliveries by HTTP failures, or the reverse, changes no guild reached, no channel chosen and no escape |
| ReminderLoop.Run | Services/DiscordBotService.cs:63-103 | a run has at most one iteration per round |
| ReminderLoop.RunIterations | Services/DiscordBotService.cs:66-101 | the first iteration reads the clock at the start. In every iteration, the target is the rule applied to its clock reading, the delay is `Delay` of that reading, and the outcomes are that round's firing |
| ReminderLoop.RunChain | Services/DiscordBotService.cs:63-103 | no iteration but the last ends with an escaping exception. Each clock reading after the first is the previous target plus that round's elapsed time |
| ReminderLoop.RunStopsOnEscape | Services/DiscordBotService.cs:88-103 | a run stops before the rounds run out only after a firing whose exception escaped |
| ReminderLoop.RunReminderLoop | Services/DiscordBotService.cs:57-104 | the loop as a method produces exactly the iterations of the specification function `Run` |
| ReminderLoop.EveryIterationAtReminderTime | Services/DiscordBotService.cs:66-79 | every iteration fires at a 20:00:00 after waiting a delay of at least 0 and less than one day, and the delay takes it from its clock reading to its target |
| ReminderLoop.NextFiringOneDayLater | Services/DiscordBotService.cs:63-79 | if a firing ends strictly after its target and no more than one day after it, the next firing is exactly one day later, on the next date |
| ReminderLoop.OneFiringPerDay | Services/DiscordBotService.cs:63-103 | if every firing ends within that window, consecutive firings are exactly one day apart, on consecutive dates |
| ReminderLoop.FiringsDaysApart | Services/DiscordBotService.cs:63-103 | under the same timing, the k-th firing is exactly k days after the first |
| ReminderLoop.FinishingAtTargetFiresAgain | Services/DiscordBotService.cs:70-79 | a firing that leaves the clock exactly at its target is followed by a firing at the same target, with no delay |
| ReminderLoop.EscapeEndsTheLoop | Services/DiscordBotService.cs:88-103 | after a firing whose exception escaped, there is no further iteration |

## Left out

- The constructor, `StartAsync` and `StopAsync` (Services/DiscordBotService.cs:11-55) are left out. They configure the gateway client, log in and start it, which is I/O against the Discord platform.
- The detached task (`_ = ReminderLoop()`, line 43) and `Task.Delay` (line 79) are left out; the model places each firing at its target instant. An exception that ends the loop is therefore not observed by anyone, and the model records it only as the final `Aborted` outcome.
- The time-zone lookup and the UTC-to-Brasília conversion (lines 60 and 66) are library calls. The local clock reading is an input, and the clock is assumed monotone. Daylight-saving jumps and a timer that wakes early are not modelled; the elapsed time of a round is never negative. `Task.Delay(TimeSpan)` works in whole milliseconds, so the timer can end up to 1 ms before the target. The sends of that firing would then happen just before 20:00:00. If the whole firing and the next clock reading (line 66) also end at or before 20:00:00, for example when no guild has a `spam` channel, the source fires a second time at that target; `Schedule.TargetStable` and `ReminderLoop.FinishingAtTargetFiresAgain` cover that case. Otherwise, typically because an awaited send at line 90 takes an HTTP round trip, the reading falls after 20:00:00 and line 70 moves the target to the following day's 20:00:00 (`Schedule.NextDayAfterFiring`).
- The calendar is left out. Years, months, leap years and the `DateTime` range are abstracted into a day count; `AddDays` past the last representable date throws in .NET and is not modelled.
- Console log lines (lines 76, 94 and 99) are not modelled as text; each guild's outcome records which line would be written. The log lines name the channel `#span`, while the lookup uses `spam`; only the lookup matters to behaviour.
- RunReminderLoop: it runs for a finite number of rounds, as many as the world supplies, while the source loops forever. Each property is stated for every iteration of such a run.
- `_client.Guilds` is taken as the list of guilds the client knows when the delay ends. Changes to that list during a firing are not modelled.
- Bot.cs is an older, standalone variant of the same bot; it waits 24 hours and uses each guild's default channel. Program.cs:6 registers `DiscordBotService` as the hosted service and does not use Bot.cs, so Bot.cs is not part of this model.
- Program.cs (host wiring, including the controllers registered at lines 5 and 12, whose files are not part of this model) and Models/NewsApiResponse.cs (a data-transfer type with no behaviour) are not part of this model. No file modelled or cited here refers to that type.
