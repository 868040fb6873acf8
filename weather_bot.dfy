/**
  The bot's conversation handlers and one pass of its notification loop.

  The bot object holds the subscription store, the in-memory drafts (`user_states`: the city
  typed during onboarding, keyed by chat) and, for each chat, the next-step handler the
  transport will call with that chat's next message (`pending`). A step runs only for a
  chat registered for it: each step method requires its registration and first removes it,
  as the transport does before running the step, and may then register a step again. Sent
  messages are abstract `Reply` tokens, one per distinct text the bot sends; an exception
  that escapes a handler sends nothing and is `HandlerFailed`.

  Each store call made by a handler gets its own `fault` flag (see `Database`). The weather
  provider is reduced to whether its answer for a city contains the key `main`
  (`hasMain`).
*/
module WeatherBot {
  import opened Wrappers
  import opened TimeFormat
  import opened Database

  /** The next-step handler registered for a chat. */
  datatype Step = CityStep | TimeStep | CityChangeStep | TimeChangeStep

  /** The message a handler sends. */
  datatype Reply =
    | AlreadySubscribed                     // "already subscribed" with the list of commands
    | AskCity                               // prompt for a city during onboarding
    | AskTime                               // prompt for a time (HH:MM) during onboarding
    | Subscribed(city: string, time: string) // confirmation naming the draft city and the text as typed
    | BadTimeFormat                         // "wrong time format, enter HH:MM"
    | SubscribeFirst                        // "subscribe first via /start" (change commands)
    | AskNewCity
    | CityChanged(city: string)
    | AskNewTime
    | TimeChanged(time: string)
    | Unsubscribed                          // the single reply of /stop
    | WeatherReport(city: string)           // the formatted weather for the city
    | WeatherUnavailable                    // "could not get the weather" (/weather only)
    | SetUpFirst                            // "set up notifications via /start" (/weather)
    | HandlerFailed                         // an exception escaped the handler; nothing is sent

  /** One message of the notification loop: the formatted weather for `city`, sent to `chat`. */
  datatype Notification = Notification(chat: ChatId, city: string)

  // ---------------------------------------------------------------------------
  // One pass of the notification loop, as a selection over the table's rows
  // ---------------------------------------------------------------------------

  /** Whether a pass at clock text `now` sends the weather to `chat`. */
  ghost predicate DueFor(rows: map<ChatId, Subscription>, chat: ChatId, now: string, hasMain: string -> bool) {
    chat in rows && rows[chat].time == now && hasMain(rows[chat].city)
  }

  /**
    The messages a pass sends, in row order: a row is served when its stored time text equals
    `now` character for character and the lookup for its city contains `main`.
  */
  function Due(users: seq<UserRow>, now: string, hasMain: string -> bool): (sent: seq<Notification>)
    ensures |sent| <= |users|
  {
    if users == [] then []
    else
      var last := users[|users| - 1];
      Due(users[..|users| - 1], now, hasMain)
        + (if last.time == now && hasMain(last.city) then [Notification(last.chat, last.city)] else [])
  }

  /**
    Every message of a pass comes from a row that is due, every due row gets its message, and
    when the rows have distinct chats no chat gets two messages.
  */
  lemma {:induction false} DueSelectsDueRows(users: seq<UserRow>, now: string, hasMain: string -> bool)
    ensures forall k :: 0 <= k < |Due(users, now, hasMain)| ==>
              exists i :: 0 <= i < |users| && users[i].time == now && hasMain(users[i].city)
                          && Due(users, now, hasMain)[k] == Notification(users[i].chat, users[i].city)
    ensures forall i :: 0 <= i < |users| && users[i].time == now && hasMain(users[i].city) ==>
              Notification(users[i].chat, users[i].city) in Due(users, now, hasMain)
    ensures (forall i, j :: 0 <= i < j < |users| ==> users[i].chat != users[j].chat) ==>
              forall k, l :: 0 <= k < l < |Due(users, now, hasMain)| ==>
                Due(users, now, hasMain)[k].chat != Due(users, now, hasMain)[l].chat
  {
    if users != [] {
      var init := users[..|users| - 1];
      var last := users[|users| - 1];
      DueSelectsDueRows(init, now, hasMain);
      assert forall i :: 0 <= i < |init| ==> init[i] == users[i];
      var d, d0 := Due(users, now, hasMain), Due(init, now, hasMain);
      assert d == d0 + (if last.time == now && hasMain(last.city) then [Notification(last.chat, last.city)] else []);
      forall k | 0 <= k < |d|
        ensures exists i :: 0 <= i < |users| && users[i].time == now && hasMain(users[i].city)
                            && d[k] == Notification(users[i].chat, users[i].city)
      {
        if k < |d0| {
          assert d[k] == d0[k];
          var i :| 0 <= i < |init| && init[i].time == now && hasMain(init[i].city)
                   && d0[k] == Notification(init[i].chat, init[i].city);
          assert users[i] == init[i];
        } else {
          assert last.time == now && hasMain(last.city);
          assert d[k] == Notification(last.chat, last.city);
          assert users[|users| - 1] == last;
        }
      }
      assert forall k :: 0 <= k < |d| ==>
               exists i :: 0 <= i < |users| && users[i].time == now && hasMain(users[i].city)
                           && d[k] == Notification(users[i].chat, users[i].city);
    } else {
      assert Due(users, now, hasMain) == [];
    }
  }

  /**
    A pass over a complete listing of the table sends exactly one message to each chat whose
    row is due, with that row's city, and nothing to any other chat.
  */
  lemma PassServesExactlyDueChats(users: seq<UserRow>, rows: map<ChatId, Subscription>, now: string, hasMain: string -> bool)
    requires Enumerates(users, rows)
    ensures forall k :: 0 <= k < |Due(users, now, hasMain)| ==>
              var n := Due(users, now, hasMain)[k];
              DueFor(rows, n.chat, now, hasMain) && n.city == rows[n.chat].city
    ensures forall chat :: DueFor(rows, chat, now, hasMain) ==>
              Notification(chat, rows[chat].city) in Due(users, now, hasMain)
    ensures forall k, l :: 0 <= k < l < |Due(users, now, hasMain)| ==>
              Due(users, now, hasMain)[k].chat != Due(users, now, hasMain)[l].chat
  {
    DueSelectsDueRows(users, now, hasMain);
    forall chat | DueFor(rows, chat, now, hasMain)
      ensures Notification(chat, rows[chat].city) in Due(users, now, hasMain)
    {
      assert chat in Chats(users);
      var i :| 0 <= i < |users| && users[i].chat == chat;
    }
  }

  /**
    A subscription whose time text was accepted by the bot is served by some pass exactly
    when that text is zero-padded (five characters) and the lookup for its city succeeds: a
    subscription at "9:00" is never served.
  */
  lemma ServedAtSomeMinuteIffPadded(rows: map<ChatId, Subscription>, chat: ChatId, hasMain: string -> bool)
    requires chat in rows && ParseHourMinute(rows[chat].time).Some?
    ensures (exists clock :: ValidClock(clock) && DueFor(rows, chat, FormatHourMinute(clock), hasMain))
            <==> |rows[chat].time| == 5 && hasMain(rows[chat].city)
  {
    var time := rows[chat].time;
    MatchedByClockIffPadded(time);
    if |time| == 5 && hasMain(rows[chat].city) {
      var clock := ParseHourMinute(time).value;
      assert DueFor(rows, chat, FormatHourMinute(clock), hasMain);
    }
  }

  // ---------------------------------------------------------------------------
  // The bot
  // ---------------------------------------------------------------------------

  class Bot {
    const store: SubscriptionStore
    /** `user_states`: the city typed during onboarding, until the time step completes. */
    var drafts: map<ChatId, string>
    /** The next-step handler registered for each chat. */
    var pending: map<ChatId, Step>

    /** A chat waiting in the onboarding time step always has a draft city. */
    ghost predicate Valid()
      reads this
    {
      forall chat :: chat in pending && pending[chat] == TimeStep ==> chat in drafts
    }

    constructor (store: SubscriptionStore)
      ensures this.store == store && drafts == map[] && pending == map[]
      ensures Valid()
    {
      this.store := store;
      drafts := map[];
      pending := map[];
    }

    /**
      `/start`: a chat whose row can be read gets the command list and nothing changes;
      otherwise (no row, or the read failed) the bot asks for a city and waits for it.
    */
    method Start(chat: ChatId, lookupFault: bool) returns (reply: Reply)
      requires Valid()
      modifies this
      ensures Valid() && drafts == old(drafts)
      ensures store.Available(lookupFault) && chat in store.rows ==>
                reply == AlreadySubscribed && pending == old(pending)
      ensures !(store.Available(lookupFault) && chat in store.rows) ==>
                reply == AskCity && pending == old(pending)[chat := CityStep]
    {
      var found := store.GetUser(chat, lookupFault);
      if found.Some? {
        reply := AlreadySubscribed;
        return;
      }
      reply := AskCity;
      pending := pending[chat := CityStep];
    }

    /** The onboarding city step: remember the text as the draft city and wait for a time. */
    method ProcessCityStep(chat: ChatId, text: string) returns (reply: Reply)
      requires Valid() && chat in pending && pending[chat] == CityStep
      modifies this
      ensures Valid()
      ensures reply == AskTime
      ensures drafts == old(drafts)[chat := text]
      ensures pending == old(pending)[chat := TimeStep]
    {
      drafts := drafts[chat := text];
      reply := AskTime;
      pending := pending[chat := TimeStep];
    }

    /**
      The onboarding time step. Text the parse rejects keeps the draft and waits for another
      time. Accepted text is saved verbatim with the draft city (a failed save is ignored),
      confirmed, and the draft is dropped. The draft is read without a check, which is safe
      because a chat registered for this step always has one (`Valid`).
    */
    method ProcessTimeStep(chat: ChatId, text: string, saveFault: bool) returns (reply: Reply)
      requires Valid() && chat in pending && pending[chat] == TimeStep
      modifies this, store
      ensures Valid() && store.created == old(store.created)
      ensures ParseHourMinute(text).None? ==>
                && reply == BadTimeFormat && drafts == old(drafts)
                && pending == old(pending) && store.rows == old(store.rows)
      ensures ParseHourMinute(text).Some? ==>
                && reply == Subscribed(old(drafts)[chat], text)
                && drafts == old(drafts) - {chat} && pending == old(pending) - {chat}
                && store.rows == if old(store.Available(saveFault))
                                 then old(store.rows)[chat := Subscription(old(drafts)[chat], text)]
                                 else old(store.rows)
    {
      pending := pending - {chat};
      if ParseHourMinute(text).None? {
        reply := BadTimeFormat;
        pending := pending[chat := TimeStep];
        return;
      }
      var city := drafts[chat];
      var _ := store.SaveUser(chat, city, text, saveFault);
      reply := Subscribed(city, text);
      drafts := drafts - {chat};
    }

    /**
      `/change_city`: without a readable row the bot tells the chat to subscribe first and
      nothing changes; otherwise it asks for the new city and waits for it.
    */
    method ChangeCity(chat: ChatId, lookupFault: bool) returns (reply: Reply)
      requires Valid()
      modifies this
      ensures Valid() && drafts == old(drafts)
      ensures !(store.Available(lookupFault) && chat in store.rows) ==>
                reply == SubscribeFirst && pending == old(pending)
      ensures store.Available(lookupFault) && chat in store.rows ==>
                reply == AskNewCity && pending == old(pending)[chat := CityChangeStep]
    {
      var found := store.GetUser(chat, lookupFault);
      if found.None? {
        reply := SubscribeFirst;
        return;
      }
      reply := AskNewCity;
      pending := pending[chat := CityChangeStep];
    }

    /**
      The city-change step: the row becomes the new city with the old time text copied
      verbatim (a failed save is ignored). When the row cannot be read the handler raises
      before saving anything.
    */
    method ProcessCityChangeStep(chat: ChatId, text: string, lookupFault: bool, saveFault: bool)
      returns (reply: Reply)
      requires Valid() && chat in pending && pending[chat] == CityChangeStep
      modifies this, store
      ensures Valid() && drafts == old(drafts) && pending == old(pending) - {chat}
      ensures store.created == old(store.created)
      ensures !old(store.Available(lookupFault) && chat in store.rows) ==>
                reply == HandlerFailed && store.rows == old(store.rows)
      ensures old(store.Available(lookupFault) && chat in store.rows) ==>
                && reply == CityChanged(text)
                && store.rows == if old(store.Available(saveFault))
                                 then old(store.rows)[chat := Subscription(text, old(store.rows)[chat].time)]
                                 else old(store.rows)
    {
      pending := pending - {chat};
      var found := store.GetUser(chat, lookupFault);
      if found.None? {
        reply := HandlerFailed;
        return;
      }
      var _ := store.SaveUser(chat, text, found.value.time, saveFault);
      reply := CityChanged(text);
    }

    /**
      `/change_time`: without a readable row the bot tells the chat to subscribe first and
      nothing changes; otherwise it asks for the new time and waits for it.
    */
    method ChangeTime(chat: ChatId, lookupFault: bool) returns (reply: Reply)
      requires Valid()
      modifies this
      ensures Valid() && drafts == old(drafts)
      ensures !(store.Available(lookupFault) && chat in store.rows) ==>
                reply == SubscribeFirst && pending == old(pending)
      ensures store.Available(lookupFault) && chat in store.rows ==>
                reply == AskNewTime && pending == old(pending)[chat := TimeChangeStep]
    {
      var found := store.GetUser(chat, lookupFault);
      if found.None? {
        reply := SubscribeFirst;
        return;
      }
      reply := AskNewTime;
      pending := pending[chat := TimeChangeStep];
    }

    /**
      The time-change step. Text the parse rejects leaves the row alone and waits for another
      time. Accepted text replaces the time verbatim and keeps the old city (a failed save is
      ignored); when the row cannot be read the handler raises before saving anything.
    */
    method ProcessTimeChangeStep(chat: ChatId, text: string, lookupFault: bool, saveFault: bool)
      returns (reply: Reply)
      requires Valid() && chat in pending && pending[chat] == TimeChangeStep
      modifies this, store
      ensures Valid() && drafts == old(drafts) && store.created == old(store.created)
      ensures ParseHourMinute(text).None? ==>
                && reply == BadTimeFormat && pending == old(pending)
                && store.rows == old(store.rows)
      ensures ParseHourMinute(text).Some? ==> pending == old(pending) - {chat}
      ensures ParseHourMinute(text).Some? && !old(store.Available(lookupFault) && chat in store.rows) ==>
                reply == HandlerFailed && store.rows == old(store.rows)
      ensures ParseHourMinute(text).Some? && old(store.Available(lookupFault) && chat in store.rows) ==>
                && reply == TimeChanged(text)
                && store.rows == if old(store.Available(saveFault))
                                 then old(store.rows)[chat := Subscription(old(store.rows)[chat].city, text)]
                                 else old(store.rows)
    {
      if ParseHourMinute(text).None? {
        reply := BadTimeFormat;
        pending := pending[chat := TimeChangeStep];
        return;
      }
      pending := pending - {chat};
      var found := store.GetUser(chat, lookupFault);
      if found.None? {
        reply := HandlerFailed;
        return;
      }
      var _ := store.SaveUser(chat, found.value.city, text, saveFault);
      reply := TimeChanged(text);
    }

    /**
      `/stop`: delete the row; the reply is the same whether the delete succeeded, found no
      row, or failed. Afterwards the chat has no row unless the delete failed.
    */
    method Stop(chat: ChatId, deleteFault: bool) returns (reply: Reply)
      requires Valid()
      modifies store
      ensures reply == Unsubscribed
      ensures store.created == old(store.created)
      ensures store.rows == if old(store.Available(deleteFault)) then old(store.rows) - {chat} else old(store.rows)
      ensures chat in store.rows <==> !old(store.Available(deleteFault)) && chat in old(store.rows)
    {
      var ok := store.DeleteUser(chat, deleteFault);
      if ok {
        reply := Unsubscribed;
      } else {
        reply := Unsubscribed;
      }
    }

    /**
      `/weather`: for a readable row, the weather for its city when the lookup contains
      `main` and a failure text otherwise; without a readable row, a prompt to set up first.
    */
    method WeatherNow(chat: ChatId, lookupFault: bool, hasMain: string -> bool) returns (reply: Reply)
      ensures !(store.Available(lookupFault) && chat in store.rows) ==> reply == SetUpFirst
      ensures store.Available(lookupFault) && chat in store.rows ==>
                reply == (if hasMain(store.rows[chat].city) then WeatherReport(store.rows[chat].city)
                          else WeatherUnavailable)
    {
      var found := store.GetUser(chat, lookupFault);
      if found.Some? {
        if hasMain(found.value.city) {
          reply := WeatherReport(found.value.city);
        } else {
          reply := WeatherUnavailable;
        }
      } else {
        reply := SetUpFirst;
      }
    }

    /**
      One pass of `send_daily_weather` at clock reading `clock`: list the table, and send the
      weather to each row whose stored time text equals the zero-padded `HH:MM` of the clock
      and whose lookup contains `main`. A failed lookup sends nothing; a failed listing sends
      nothing at all.
    */
    method ScanOnce(clock: ClockTime, listFault: bool, hasMain: string -> bool) returns (sent: seq<Notification>)
      requires ValidClock(clock)
      ensures !store.Available(listFault) ==> sent == []
      ensures store.Available(listFault) ==>
                forall k :: 0 <= k < |sent| ==>
                  DueFor(store.rows, sent[k].chat, FormatHourMinute(clock), hasMain)
                  && sent[k].city == store.rows[sent[k].chat].city
      ensures store.Available(listFault) ==>
                forall chat :: DueFor(store.rows, chat, FormatHourMinute(clock), hasMain) ==>
                  Notification(chat, store.rows[chat].city) in sent
      ensures forall k, l :: 0 <= k < l < |sent| ==> sent[k].chat != sent[l].chat
    {
      var users := store.GetAllUsers(listFault);
      var now := FormatHourMinute(clock);
      sent := [];
      for i := 0 to |users|
        invariant sent == Due(users[..i], now, hasMain)
      {
        assert users[..i + 1][..i] == users[..i];
        var u := users[i];
        if now == u.time {
          if hasMain(u.city) {
            sent := sent + [Notification(u.chat, u.city)];
          }
        }
      }
      assert users[..|users|] == users;
      if store.Available(listFault) {
        PassServesExactlyDueChats(users, store.rows, now, hasMain);
      }
    }
  }

  /**
    The onboarding conversation on a working store, for a chat without a row: `/start`, then
    "Moscow", then "09:00". The row becomes ("Moscow", "09:00"), the confirmation names both,
    no step stays registered, and the pass at 09:00 serves the chat when the lookup succeeds.
  */
  method OnboardingScenario(bot: Bot, chat: ChatId, hasMain: string -> bool)
    returns (replies: seq<Reply>, sent: seq<Notification>)
    requires bot.Valid() && bot.store.created && chat !in bot.store.rows && chat !in bot.pending
    modifies bot, bot.store
    ensures bot.Valid() && chat !in bot.pending && chat !in bot.drafts
    ensures bot.store.rows == old(bot.store.rows)[chat := Subscription("Moscow", "09:00")]
    ensures replies == [AskCity, AskTime, Subscribed("Moscow", "09:00")]
    ensures hasMain("Moscow") <==> Notification(chat, "Moscow") in sent
  {
    var r1 := bot.Start(chat, false);
    var r2 := bot.ProcessCityStep(chat, "Moscow");
    assert FormatHourMinute(ClockTime(9, 0)) == "09:00";
    FormatParseRoundTrip(ClockTime(9, 0));
    var r3 := bot.ProcessTimeStep(chat, "09:00", false);
    replies := [r1, r2, r3];
    sent := bot.ScanOnce(ClockTime(9, 0), false, hasMain);
    assert bot.store.rows[chat] == Subscription("Moscow", "09:00");
    if Notification(chat, "Moscow") in sent {
      var k :| 0 <= k < |sent| && sent[k] == Notification(chat, "Moscow");
      assert DueFor(bot.store.rows, chat, "09:00", hasMain);
    }
    if hasMain("Moscow") {
      assert DueFor(bot.store.rows, chat, "09:00", hasMain);
    }
  }

  /**
    The same conversation with the unpadded time "9:00": the bot accepts it, stores it as
    typed and confirms it, but no pass at any clock reading ever sends the chat a message.
  */
  method UnpaddedOnboardingScenario(bot: Bot, chat: ChatId, clock: ClockTime, hasMain: string -> bool)
    returns (replies: seq<Reply>, sent: seq<Notification>)
    requires bot.Valid() && bot.store.created && chat !in bot.store.rows && chat !in bot.pending
    requires ValidClock(clock)
    modifies bot, bot.store
    ensures bot.store.rows == old(bot.store.rows)[chat := Subscription("Moscow", "9:00")]
    ensures replies == [AskCity, AskTime, Subscribed("Moscow", "9:00")]
    ensures forall k :: 0 <= k < |sent| ==> sent[k].chat != chat
  {
    var r1 := bot.Start(chat, false);
    var r2 := bot.ProcessCityStep(chat, "Moscow");
    UnpaddedHourAccepted();
    var r3 := bot.ProcessTimeStep(chat, "9:00", false);
    replies := [r1, r2, r3];
    sent := bot.ScanOnce(clock, false, hasMain);
    assert !DueFor(bot.store.rows, chat, FormatHourMinute(clock), hasMain);
  }
}
