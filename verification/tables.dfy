/**
  The three SQLite tables of database.py (`CreateTables`) and the writes and
  point reads of `WordleDatabaseAccess`.

  Each table is the sequence of its rows in insertion order. Each UNIQUE
  constraint is a conjunct of `Valid`, and every write is proved to keep it.
  Connections, SQL text and `commit` are not modelled: every call below is
  one statement that takes effect entirely.
*/
module Tables {
  import opened Wrappers

  /** A row of `Users (username, discord_user_id)`. */
  datatype UserRow = UserRow(username: string, discordUserId: nat)

  /** A row of `Games (game_id, discord_user_id, score, won)`. */
  datatype GameRow = GameRow(gameId: nat, discordUserId: nat, score: nat, won: bool)

  /** A row of `LastMessage (last_parsed_message_id, channel_id)`. */
  datatype CursorRow = CursorRow(lastParsedMessageId: nat, channelId: nat)

  datatype Database = Database(users: seq<UserRow>, games: seq<GameRow>, lastMessage: seq<CursorRow>)

  /**
    What the Games insert raises: the `sqlite3.IntegrityError` of
    `unique_games`, or the `OverflowError` of binding a Python int that does
    not fit a 64-bit SQLite INTEGER.
  */
  datatype StoreError = DuplicateGame(gameId: nat, discordUserId: nat) | IntegerOverflow(value: nat)

  /** The largest value of a SQLite INTEGER, 2^63 - 1. */
  const MaxInteger: nat := 0x7FFF_FFFF_FFFF_FFFF

  predicate FitsInteger(x: nat) {
    x <= MaxInteger
  }

  /** The first of the bound parameters, in binding order, that is too large to bind. */
  function FirstOverflow(values: seq<nat>): (r: Option<nat>)
    ensures r.None? <==> forall k | 0 <= k < |values| :: FitsInteger(values[k])
    ensures r.Some? ==> exists k | 0 <= k < |values| ::
      && values[k] == r.value && !FitsInteger(r.value)
      && forall m | 0 <= m < k :: FitsInteger(values[m])
  {
    if |values| == 0 then None
    else if !FitsInteger(values[0]) then Some(values[0])
    else
      var r := FirstOverflow(values[1..]);
      assert r.Some? ==> exists k | 0 <= k < |values| ::
        && values[k] == r.value && !FitsInteger(r.value)
        && forall m | 0 <= m < k :: FitsInteger(values[m]) by {
        if r.Some? {
          var k :| 0 <= k < |values| - 1 && values[1..][k] == r.value && !FitsInteger(r.value)
            && forall m | 0 <= m < k :: FitsInteger(values[1..][m]);
          assert forall m | 0 <= m < k + 1 :: FitsInteger(values[m]) by {
            forall m | 0 <= m < k + 1 ensures FitsInteger(values[m]) {
              if m > 0 { assert values[m] == values[1..][m - 1]; }
            }
          }
        }
      }
      r
  }

  /** The database right after `CreateTables`. */
  const EmptyDatabase: Database := Database([], [], [])

  /** `unique_users`: UNIQUE (discord_user_id). */
  predicate UniqueUsers(users: seq<UserRow>) {
    forall a, b | 0 <= a < b < |users| :: users[a].discordUserId != users[b].discordUserId
  }

  /** `unique_games`: UNIQUE (game_id, discord_user_id). */
  predicate UniqueGames(games: seq<GameRow>) {
    forall a, b | 0 <= a < b < |games| ::
      games[a].gameId != games[b].gameId || games[a].discordUserId != games[b].discordUserId
  }

  /** `unique_channels`: UNIQUE (channel_id). */
  predicate UniqueChannels(rows: seq<CursorRow>) {
    forall a, b | 0 <= a < b < |rows| :: rows[a].channelId != rows[b].channelId
  }

  predicate Valid(db: Database) {
    UniqueUsers(db.users) && UniqueGames(db.games) && UniqueChannels(db.lastMessage)
  }

  // ---------------------------------------------------------------------
  // Point reads
  // ---------------------------------------------------------------------

  /** The username stored for a discord id (the first row holding that id). */
  function UserName(users: seq<UserRow>, discordUserId: nat): (r: Option<string>)
    ensures r.None? <==> forall k | 0 <= k < |users| :: users[k].discordUserId != discordUserId
    ensures r.Some? ==> exists k | 0 <= k < |users| :: users[k] == UserRow(r.value, discordUserId)
  {
    if |users| == 0 then None
    else if users[0].discordUserId == discordUserId then Some(users[0].username)
    else
      var r := UserName(users[1..], discordUserId);
      assert r.Some? ==> exists k | 0 <= k < |users| :: users[k] == UserRow(r.value, discordUserId) by {
        if r.Some? {
          var k :| 0 <= k < |users| - 1 && users[1..][k] == UserRow(r.value, discordUserId);
          assert users[k + 1] == UserRow(r.value, discordUserId);
        }
      }
      r
  }

  /** Appending a row never changes the name already stored for an id. */
  lemma {:induction false} UserNameAppend(users: seq<UserRow>, row: UserRow, discordUserId: nat)
    ensures UserName(users + [row], discordUserId) ==
      if UserName(users, discordUserId).Some? then UserName(users, discordUserId)
      else if row.discordUserId == discordUserId then Some(row.username)
      else None
  {
    if |users| > 0 {
      assert (users + [row])[1..] == users[1..] + [row];
      UserNameAppend(users[1..], row, discordUserId);
    }
  }

  /** Whether Games holds a row for the key (game_id, discord_user_id). */
  predicate HasGame(games: seq<GameRow>, gameId: nat, discordUserId: nat) {
    exists k | 0 <= k < |games| :: games[k].gameId == gameId && games[k].discordUserId == discordUserId
  }

  /** The stored cursor of a channel: `rows[0][0]` of the SELECT, or None. */
  function LastParsed(rows: seq<CursorRow>, channelId: nat): (r: Option<nat>)
    ensures r.None? <==> forall k | 0 <= k < |rows| :: rows[k].channelId != channelId
    ensures r.Some? ==> exists k | 0 <= k < |rows| :: rows[k] == CursorRow(r.value, channelId)
  {
    if |rows| == 0 then None
    else if rows[0].channelId == channelId then Some(rows[0].lastParsedMessageId)
    else
      var r := LastParsed(rows[1..], channelId);
      assert r.Some? ==> exists k | 0 <= k < |rows| :: rows[k] == CursorRow(r.value, channelId) by {
        if r.Some? {
          var k :| 0 <= k < |rows| - 1 && rows[1..][k] == CursorRow(r.value, channelId);
          assert rows[k + 1] == CursorRow(r.value, channelId);
        }
      }
      r
  }

  /**
    `GetLastParsedMesasge`: None exactly when LastMessage has no row for the
    channel; otherwise the message id stored in that channel's row.
  */
  function GetLastParsedMessage(db: Database, channelId: nat): (r: Option<nat>)
    ensures r.None? <==> forall k | 0 <= k < |db.lastMessage| :: db.lastMessage[k].channelId != channelId
    ensures r.Some? ==> exists k | 0 <= k < |db.lastMessage| :: db.lastMessage[k] == CursorRow(r.value, channelId)
  {
    LastParsed(db.lastMessage, channelId)
  }

  // ---------------------------------------------------------------------
  // Writes
  // ---------------------------------------------------------------------

  /**
    `AddUserIfNecessary`: `INSERT OR IGNORE` keyed on discord_user_id. A user
    already present keeps the name first stored for it; an absent one is
    stored with `authorName`. No other id and no other table changes.
  */
  function AddUserIfNecessary(db: Database, authorName: string, authorId: nat): (r: Database)
    ensures r.games == db.games && r.lastMessage == db.lastMessage
    ensures UserName(r.users, authorId) ==
      if UserName(db.users, authorId).Some? then UserName(db.users, authorId) else Some(authorName)
    ensures forall id | id != authorId :: UserName(r.users, id) == UserName(db.users, id)
    ensures |db.users| <= |r.users| <= |db.users| + 1 && r.users[..|db.users|] == db.users
    ensures Valid(db) ==> Valid(r)
  {
    if UserName(db.users, authorId).Some? then db
    else
      var users := db.users + [UserRow(authorName, authorId)];
      UserNameAppend(db.users, UserRow(authorName, authorId), authorId);
      assert forall id | id != authorId :: UserName(users, id) == UserName(db.users, id) by {
        forall id | id != authorId ensures UserName(users, id) == UserName(db.users, id) {
          UserNameAppend(db.users, UserRow(authorName, authorId), id);
        }
      }
      db.(users := users)
  }

  /**
    `RecordGame`: a plain INSERT under UNIQUE (game_id, discord_user_id).
    Binding `(game_id, discord_user_id, score, won)` raises on the first value
    above 2^63 - 1; otherwise the insert fails exactly when the key is already
    stored. On a failure nothing changes; otherwise Games gains this one row
    after the existing ones. It does not check that the user exists.
  */
  function RecordGame(db: Database, discordUserId: nat, gameId: nat, score: nat, won: bool)
    : (r: Result<Database, StoreError>)
    ensures r.Failure? <==>
      !FitsInteger(gameId) || !FitsInteger(discordUserId) || !FitsInteger(score)
      || HasGame(db.games, gameId, discordUserId)
    ensures !FitsInteger(gameId) ==> r == Failure(IntegerOverflow(gameId))
    ensures r.Failure? && FirstOverflow([gameId, discordUserId, score]).Some? ==>
      r.error == IntegerOverflow(FirstOverflow([gameId, discordUserId, score]).value)
    ensures r.Failure? && FirstOverflow([gameId, discordUserId, score]).None? ==>
      r.error == DuplicateGame(gameId, discordUserId)
    ensures r.Success? ==>
      && r.value.users == db.users
      && r.value.lastMessage == db.lastMessage
      && multiset(r.value.games) == multiset(db.games) + multiset{GameRow(gameId, discordUserId, score, won)}
      && |r.value.games| == |db.games| + 1
      && r.value.games[..|db.games|] == db.games
    ensures r.Success? && Valid(db) ==> Valid(r.value)
  {
    var params := [gameId, discordUserId, score];
    assert params[0] == gameId && params[1] == discordUserId && params[2] == score;
    match FirstOverflow(params)
    case Some(v) => Failure(IntegerOverflow(v))
    case None =>
      if HasGame(db.games, gameId, discordUserId) then Failure(DuplicateGame(gameId, discordUserId))
      else
        var games := db.games + [GameRow(gameId, discordUserId, score, won)];
        assert games[..|db.games|] == db.games;
        Success(db.(games := games))
  }

  /** `UPDATE LastMessage SET last_parsed_message_id WHERE channel_id`: every row of the channel. */
  function SetCursor(rows: seq<CursorRow>, channelId: nat, messageId: nat): (r: seq<CursorRow>)
    ensures |r| == |rows|
    ensures forall k | 0 <= k < |rows| ::
      r[k] == if rows[k].channelId == channelId then CursorRow(messageId, channelId) else rows[k]
  {
    if |rows| == 0 then []
    else
      [if rows[0].channelId == channelId then CursorRow(messageId, channelId) else rows[0]]
      + SetCursor(rows[1..], channelId, messageId)
  }

  lemma {:induction false} LastParsedAfterSet(rows: seq<CursorRow>, channelId: nat, messageId: nat, other: nat)
    ensures LastParsed(SetCursor(rows, channelId, messageId), other) ==
      if other == channelId && LastParsed(rows, other).Some? then Some(messageId) else LastParsed(rows, other)
  {
    if |rows| > 0 {
      assert SetCursor(rows, channelId, messageId)[1..] == SetCursor(rows[1..], channelId, messageId);
      LastParsedAfterSet(rows[1..], channelId, messageId, other);
    }
  }

  lemma {:induction false} LastParsedAppend(rows: seq<CursorRow>, row: CursorRow, other: nat)
    ensures LastParsed(rows + [row], other) ==
      if LastParsed(rows, other).Some? then LastParsed(rows, other)
      else if row.channelId == other then Some(row.lastParsedMessageId)
      else None
  {
    if |rows| > 0 {
      assert (rows + [row])[1..] == rows[1..] + [row];
      LastParsedAppend(rows[1..], row, other);
    }
  }

  /** The channel has exactly one LastMessage row, and it holds `messageId`. */
  predicate SoleCursorRow(rows: seq<CursorRow>, channelId: nat, messageId: nat) {
    exists k | 0 <= k < |rows| ::
      && rows[k] == CursorRow(messageId, channelId)
      && forall m | 0 <= m < |rows| && m != k :: rows[m].channelId != channelId
  }

  /** What `UpdateLastParsedMessage` promises about the new LastMessage table. */
  ghost predicate CursorWritten(db: Database, rows: seq<CursorRow>, messageId: nat, channelId: nat) {
    && LastParsed(rows, channelId) == Some(messageId)
    && (forall other | other != channelId :: LastParsed(rows, other) == LastParsed(db.lastMessage, other))
    && (Valid(db) ==> UniqueChannels(rows) && SoleCursorRow(rows, channelId, messageId))
  }

  lemma InsertCursor(db: Database, messageId: nat, channelId: nat)
    requires LastParsed(db.lastMessage, channelId).None?
    ensures CursorWritten(db, db.lastMessage + [CursorRow(messageId, channelId)], messageId, channelId)
  {
    var row := CursorRow(messageId, channelId);
    var rows := db.lastMessage + [row];
    forall other {
      LastParsedAppend(db.lastMessage, row, other);
    }
    assert rows[|rows| - 1] == row;
  }

  lemma UpdateCursor(db: Database, messageId: nat, channelId: nat)
    requires LastParsed(db.lastMessage, channelId).Some?
    ensures CursorWritten(db, SetCursor(db.lastMessage, channelId, messageId), messageId, channelId)
  {
    var rows := SetCursor(db.lastMessage, channelId, messageId);
    forall other {
      LastParsedAfterSet(db.lastMessage, channelId, messageId, other);
    }
    assert forall m | 0 <= m < |rows| :: rows[m].channelId == db.lastMessage[m].channelId;
    if Valid(db) {
      assert UniqueChannels(rows);
      var k :| 0 <= k < |db.lastMessage| && db.lastMessage[k].channelId == channelId;
      assert rows[k] == CursorRow(messageId, channelId);
      assert forall m | 0 <= m < |rows| && m != k :: rows[m].channelId != channelId;
    }
  }

  /**
    `UpdateLastParsedMessage`: INSERT when the channel has no row, UPDATE
    otherwise. Afterwards the channel's cursor is `messageId` whatever it was
    before (there is no monotonicity check), the other channels keep theirs,
    and with the constraints in force the channel has exactly one row.
  */
  function UpdateLastParsedMessage(db: Database, messageId: nat, channelId: nat): (r: Database)
    ensures r.users == db.users && r.games == db.games
    ensures GetLastParsedMessage(r, channelId) == Some(messageId)
    ensures forall other | other != channelId ::
      GetLastParsedMessage(r, other) == GetLastParsedMessage(db, other)
    ensures Valid(db) ==> Valid(r) && SoleCursorRow(r.lastMessage, channelId, messageId)
  {
    if GetLastParsedMessage(db, channelId).None? then
      InsertCursor(db, messageId, channelId);
      db.(lastMessage := db.lastMessage + [CursorRow(messageId, channelId)])
    else
      UpdateCursor(db, messageId, channelId);
      db.(lastMessage := SetCursor(db.lastMessage, channelId, messageId))
  }
}
