# Weather subscription bot — Dafny model

A Telegram bot lets each chat subscribe to a daily weather message for one city at one
wall-clock minute. Subscriptions live in a one-table SQLite store keyed by chat id. A
conversation collects the city, then the time. A background loop wakes every minute,
formats the clock as `HH:MM`, and sends the weather to every subscription whose stored
time text equals that string.

The model has four modules. `Database` and `WeatherBot` follow database.py and
weather_bot.py in imperative form. `TimeFormat` models the two library conversions the
bot calls as pure functions. `Wrappers` holds `Option`.

- `Database` (database.py) is a class `SubscriptionStore`. Its `rows: map<ChatId,
  Subscription>` field stands for the `users` table. Its `created` flag records whether
  `CREATE TABLE` has ever succeeded. Each method takes a `fault` flag. The flag is the
  environment's choice of whether SQLite raises on that call. A call succeeds only when
  the table exists and there is no fault (except `InitDb`, which creates the table). A failed call leaves the table as it was and
  returns `False`, `None` or `[]`, the same values the source returns.
- `TimeFormat` models `datetime.strptime(text, '%H:%M')` with the regular expression
  that CPython builds for the format, `(2[0-3]|[0-1]\d|\d):([0-5]\d|\d)`. It is matched
  at the start of the text, backtracking over the hour alternatives, and the parse is
  rejected if any characters remain. `FormatHourMinute` models `strftime('%H:%M')`.
  `ParseAcceptsExactlyWellFormed` proves that the accepted set is exactly: an hour of one
  or two digits in 0–23, a colon, a minute of one or two digits in 0–59, and nothing else.
- `WeatherBot` (weather_bot.py) is a class `Bot` that holds:
  - the store;
  - the onboarding drafts (`user_states`);
  - `pending`, the next-step handler registered for each chat. This stands in for
    `register_next_step_handler`.

  Each handler is a method that returns a `Reply` token, one per distinct message text.
  An exception that escapes a handler is `HandlerFailed`. In the source that happens when
  the change steps index a `None` returned by `get_user`. The transport removes a
  registration before it runs the step, so each step method requires its registration
  and first removes it. `ScanOnce` is one pass of `send_daily_weather`. It is specified by the pure
  selection `Due` over the listed rows.

The time text is stored exactly as typed (weather_bot.py:103, weather_bot.py:189). The
loop compares it with the zero-padded `strftime` output (weather_bot.py:59-61). The prompt
asks for `ЧЧ:ММ`, but the parse also accepts one-digit fields such as `9:00` or `7:5`. The
model follows the code. Such a subscription is confirmed but never served:
`MatchedByClockIffPadded` and `ServedAtSomeMinuteIffPadded` prove that an accepted text
equals some clock reading exactly when it has five characters.

`/stop` sends the same reply whether the delete succeeded or failed. The row is gone
afterwards unless the delete failed (`Bot.Stop`).

## Model

| member | source | states |
|---|---|---|
| `Database.SubscriptionStore.InitDb` | database.py:13-25 | creating the table never changes existing rows; after one success, more calls change nothing (idempotent); an error leaves everything as it was |
| `Database.SubscriptionStore.SaveUser` | database.py:27-38 | on success the row for the chat becomes exactly (city, time): any earlier row is replaced whole and no other row changes; on error it returns false and the table is unchanged |
| `Database.SubscriptionStore.GetUser` | database.py:40-50 | returns the stored (city, time) exactly when the table is readable and holds the chat; otherwise returns None, for a missing row and for an error alike |
| `Database.SubscriptionStore.GetAllUsers` | database.py:52-61 | on success lists every stored (chat_id, city, time) exactly once with its stored fields and nothing else, in no fixed order; on error returns the empty list |
| `Database.SubscriptionStore.DeleteUser` | database.py:63-73 | on success the chat has no row and no other row changes, and an absent chat still gives true; on error it returns false and the table is unchanged |
| `Database.ListingHasOneEntryPerRow` | database.py:52-58 | a complete listing has one entry per row, so its length is the number of distinct chats stored |
| `TimeFormat.ParseHourMinute` | weather_bot.py:99 | a successful parse yields an hour below 24 and a minute below 60 |
| `TimeFormat.ParseAcceptsExactlyWellFormed` | weather_bot.py:99 | the parse accepts a text iff it is a 1-2 digit hour in 0-23, a colon and a 1-2 digit minute in 0-59 with nothing after, and it yields those values |
| `TimeFormat.FormatHourMinute` | weather_bot.py:59 | the clock text always has five characters with the colon in the middle |
| `TimeFormat.FormatParseRoundTrip` | weather_bot.py:59-61 | every formatted clock reading is accepted by the parse and denotes the same hour and minute |
| `TimeFormat.MatchedByClockIffPadded` | weather_bot.py:99-103 | an accepted text equals the clock text of the time it denotes, or of any time, iff it has five characters (both fields zero-padded) |
| `TimeFormat.UnpaddedHourAccepted` | weather_bot.py:99 | "9:00" is accepted as nine o'clock |
| `TimeFormat.HourPastRangeRejected` | weather_bot.py:99 | "24:00" is rejected |
| `TimeFormat.MinutePastRangeRejected` | weather_bot.py:99 | "09:60" is rejected (a character stays unconverted) |
| `TimeFormat.TrailingDataRejected` | weather_bot.py:99 | "12:345" is rejected (a character stays unconverted) |
| `WeatherBot.Due` | weather_bot.py:60-64 | the messages of one pass in listing order: one Notification(chat, city) per row whose time text equals now and whose lookup has `main`, so never more messages than rows |
| `WeatherBot.Bot.constructor` | weather_bot.py:26 | a new bot over a given store starts with no drafts and no registered steps |
| `WeatherBot.DueSelectsDueRows` | weather_bot.py:60-64 | every message of a pass comes from a row whose time text equals the clock text and whose lookup has `main`; every such row gets one; distinct chats give distinct recipients |
| `WeatherBot.PassServesExactlyDueChats` | weather_bot.py:59-64 | over a complete listing, a pass messages each due chat exactly once with its stored city and messages no other chat |
| `WeatherBot.ServedAtSomeMinuteIffPadded` | weather_bot.py:59-64 | a subscription with an accepted time text is served at some minute iff the text is zero-padded and the lookup for its city has `main` |
| `WeatherBot.Bot.Start` | weather_bot.py:68-83 | a readable row gives the "already subscribed" reply and changes nothing; otherwise the bot asks for a city and registers the city step; drafts and store are untouched |
| `WeatherBot.Bot.ProcessCityStep` | weather_bot.py:86-93 | the draft becomes the typed city, the time step is registered, and the store is untouched |
| `WeatherBot.Bot.ProcessTimeStep` | weather_bot.py:96-116 | rejected text leaves store, draft and registration as they were and re-prompts; accepted text saves (draft city, text verbatim), unless the save fails, then confirms with both and drops the draft and the registration |
| `WeatherBot.Bot.ChangeCity` | weather_bot.py:119-130 | without a readable row: the "subscribe first" reply, nothing registered, nothing changed; otherwise it asks for a city and registers the city-change step |
| `WeatherBot.Bot.ProcessCityChangeStep` | weather_bot.py:133-144 | with a readable row, the row becomes (new city, old time verbatim) unless the save fails, other chats are unchanged, and the reply names the city; an unreadable row makes the handler fail with the store unchanged |
| `WeatherBot.Bot.ChangeTime` | weather_bot.py:167-178 | without a readable row: the "subscribe first" reply, nothing registered, nothing changed; otherwise it asks for a time and registers the time-change step |
| `WeatherBot.Bot.ProcessTimeChangeStep` | weather_bot.py:181-200 | rejected text leaves the row alone and keeps the step registered; accepted text makes the row (old city, text verbatim) unless the save fails; an unreadable row makes the handler fail with the store unchanged |
| `WeatherBot.Bot.Stop` | weather_bot.py:203-209 | the reply is the same in every case; afterwards the chat has a row only if the delete failed and it had one before |
| `WeatherBot.Bot.WeatherNow` | weather_bot.py:212-226 | a readable row gives the weather for its city when the lookup has `main` and a failure text otherwise; no readable row gives the "set up first" text |
| `WeatherBot.Bot.ScanOnce` | weather_bot.py:56-64 | one pass sends to exactly the chats whose stored time text equals the zero-padded clock and whose lookup has `main`, once each, with their city; a failed lookup or a failed listing sends nothing |
| `WeatherBot.UnpaddedOnboardingScenario` | weather_bot.py:59-110 | `/start`, "Moscow", "9:00" on a working store stores ("Moscow", "9:00") as typed and confirms it, yet a pass at any clock reading sends the chat nothing |
| `WeatherBot.OnboardingScenario` | weather_bot.py:68-110 | `/start`, "Moscow", "09:00" on a working store stores ("Moscow", "09:00"), confirms with both, leaves no step registered, and the pass at 09:00 serves the chat iff the lookup succeeds |

## Left out

- Telegram transport is not modelled: receiving updates, `send_message`, `bot.polling`, and
  matching commands to handlers. The model assumes two things the transport guarantees. A
  step method runs only for a chat registered for it. A message for such a chat goes to the
  step and never to a command handler.
- The transport runs handlers on a thread pool. Races between messages from the same chat,
  and between the handlers and the notification thread, are not modelled; every handler
  runs to completion on its own.
- Failed `send_message` calls are not modelled.
- The weather provider (`get_weather`, an HTTP request) is reduced to `hasMain`: whether
  the answer for a city contains `main`. The model assumes one answer per city within a
  pass. Network and JSON errors that would raise out of `get_weather` are not modelled.
- The text produced by `format_weather` is the abstract `WeatherReport(city)` token. Its
  `'main' not in` fallback cannot be reached: both callers check `'main' in` first.
- The endless loop, `sleep(60)`, `datetime.now()` and the daemon thread are not modelled.
  `ScanOnce` is one pass, with the clock reading as a parameter.
- `load_dotenv`, the token check at start-up and the static `/help` text are configuration
  and constant output. They are not modelled.
- SQLite connections, `row_factory` and the `print` logging are reduced to the `fault`
  flags and the `created` flag.
- Messages without text (`message.text` is `None`) are not modelled. Every message carries
  a string. In the source such a message becomes a `None` draft city, or makes `strptime`
  raise `TypeError`.
- TimeFormat.ParseHourMinute: reads `\d` as an ASCII digit only. Python's `\d` also
  matches other Unicode decimal digits, so CPython accepts a few more texts, such as
  `1٩:00`. Like the unpadded texts, those can never equal a clock reading.
