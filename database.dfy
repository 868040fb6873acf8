/**
  The subscription store: one SQLite table `users(chat_id INTEGER PRIMARY KEY, city TEXT,
  time TEXT)`, modelled as a finite map from chat id to the row's two text fields.

  Every operation opens its own connection inside a `with` block, so each call either takes
  effect as a whole or is rolled back. Whether SQLite raises an error on a given call is the
  environment's choice and is passed in as `fault`. Every call also fails while the table has
  never been created (`created` is false): SQLite reports "no such table".
*/
module Database {
  import opened Wrappers

  /** A Telegram chat identifier, the table's primary key. */
  type ChatId = int

  /** The non-key columns of one row: the city and the notification time, both as typed. */
  datatype Subscription = Subscription(city: string, time: string)

  /** One row as `get_all_users` returns it: `(chat_id, city, time)`. */
  datatype UserRow = UserRow(chat: ChatId, city: string, time: string)

  /** The chat ids that occur in a list of rows. */
  ghost function Chats(users: seq<UserRow>): set<ChatId> {
    set i | 0 <= i < |users| :: users[i].chat
  }

  /**
    `users` lists every row of `rows` exactly once, in some order, with its stored fields.
  */
  ghost predicate Enumerates(users: seq<UserRow>, rows: map<ChatId, Subscription>) {
    && (forall i :: 0 <= i < |users| ==>
          users[i].chat in rows && rows[users[i].chat] == Subscription(users[i].city, users[i].time))
    && (forall i, j :: 0 <= i < j < |users| ==> users[i].chat != users[j].chat)
    && Chats(users) == rows.Keys
  }

  /**
    A complete listing has exactly as many entries as the table has rows: after any sequence
    of saves and deletes, `get_all_users` returns one entry per distinct chat still stored.
  */
  lemma {:induction false} ListingHasOneEntryPerRow(users: seq<UserRow>, rows: map<ChatId, Subscription>)
    requires Enumerates(users, rows)
    ensures |users| == |rows|
  {
    DistinctChatsCount(users);
    assert rows.Keys == Chats(users);
  }

  /** A list of rows with pairwise distinct chats names as many chats as it has entries. */
  lemma {:induction false} DistinctChatsCount(users: seq<UserRow>)
    requires forall i, j :: 0 <= i < j < |users| ==> users[i].chat != users[j].chat
    ensures |Chats(users)| == |users|
  {
    if users != [] {
      var init := users[..|users| - 1];
      var last := users[|users| - 1];
      DistinctChatsCount(init);
      assert Chats(users) == Chats(init) + {last.chat} by {
        assert forall i :: 0 <= i < |init| ==> users[i] == init[i];
        assert users[|users| - 1] == last;
      }
      assert last.chat !in Chats(init);
    } else {
      assert Chats(users) == {};
    }
  }

  /** A set of chat ids with no member is empty (used to pick the next row to return). */
  lemma NoChatMeansEmpty(s: set<ChatId>)
    ensures (forall id :: id !in s) ==> s == {}
  {
    if forall id :: id !in s {
      assert s == {};
    }
  }

  class SubscriptionStore {
    /** Whether `CREATE TABLE users` has ever succeeded on this database file. */
    var created: bool
    /** The table's contents, keyed by the primary key. */
    var rows: map<ChatId, Subscription>

    /** A database file that does not hold the table yet. */
    constructor ()
      ensures !created && rows == map[]
    {
      created := false;
      rows := map[];
    }

    /** A call succeeds when the table exists and SQLite raises no error on it. */
    predicate Available(fault: bool)
      reads this
    {
      created && !fault
    }

    /**
      `init_db`: `CREATE TABLE IF NOT EXISTS`. It never touches existing rows; an error is
      logged and swallowed, and the table then stays as it was.
    */
    method InitDb(fault: bool)
      modifies this
      ensures created == (old(created) || !fault)
      ensures rows == old(rows)
    {
      if !fault {
        created := true;
      }
    }

    /**
      `save_user`: `INSERT OR REPLACE`, which replaces the whole row for `chat` (no field of
      an earlier row survives) and touches no other row. Returns `False` on an error, leaving
      the table as it was.
    */
    method SaveUser(chat: ChatId, city: string, time: string, fault: bool) returns (ok: bool)
      modifies this
      ensures ok == old(Available(fault))
      ensures created == old(created)
      ensures rows == if ok then old(rows)[chat := Subscription(city, time)] else old(rows)
    {
      ok := Available(fault);
      if ok {
        rows := rows[chat := Subscription(city, time)];
      }
    }

    /**
      `get_user`: the row's `(city, time)`, or `None` both when there is no row and when the
      query fails.
    */
    method GetUser(chat: ChatId, fault: bool) returns (r: Option<Subscription>)
      ensures r.Some? <==> Available(fault) && chat in rows
      ensures r.Some? ==> r.value == rows[chat]
    {
      if Available(fault) && chat in rows {
        r := Some(rows[chat]);
      } else {
        r := None;
      }
    }

    /**
      `get_all_users`: every row as `(chat_id, city, time)`, each exactly once and in no
      particular order (SQLite's `fetchall`); the empty list when the query fails.
    */
    method GetAllUsers(fault: bool) returns (users: seq<UserRow>)
      ensures !Available(fault) ==> users == []
      ensures Available(fault) ==> Enumerates(users, rows)
    {
      users := [];
      if !Available(fault) {
        return;
      }
      var left := rows.Keys;
      while left != {}
        invariant left <= rows.Keys
        invariant forall i :: 0 <= i < |users| ==>
                    users[i].chat in rows && users[i].chat !in left
                    && rows[users[i].chat] == Subscription(users[i].city, users[i].time)
        invariant forall i, j :: 0 <= i < j < |users| ==> users[i].chat != users[j].chat
        invariant Chats(users) == rows.Keys - left
        decreases left
      {
        NoChatMeansEmpty(left);
        var id :| id in left;
        ghost var before := users;
        users := users + [UserRow(id, rows[id].city, rows[id].time)];
        assert Chats(users) == Chats(before) + {id} by {
          assert forall i :: 0 <= i < |before| ==> users[i] == before[i];
          assert users[|before|].chat == id;
        }
        left := left - {id};
      }
    }

    /**
      `delete_user`: `DELETE ... WHERE chat_id = ?`. Removing an absent row is not an error
      and still returns `True`; other rows are untouched. Returns `False` on an error, leaving
      the table as it was.
    */
    method DeleteUser(chat: ChatId, fault: bool) returns (ok: bool)
      modifies this
      ensures ok == old(Available(fault))
      ensures created == old(created)
      ensures rows == if ok then old(rows) - {chat} else old(rows)
    {
      ok := Available(fault);
      if ok {
        rows := rows - {chat};
      }
    }
  }
}
