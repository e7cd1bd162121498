/**
  `WordleStats` (database.py): the per-message step that feeds the tables,
  and the statistics derived from the queries (par, losses, leaderboard).
*/
module Stats {
  import opened Wrappers
  import opened Parser
  import opened Tables
  import opened Queries
  import Sorting

  /** What `ParseMessage` can raise: `int` on the outcome, or the Games insert. */
  datatype Exception = ParseFailed(parseError: ParseError) | StoreFailed(storeError: StoreError)

  /** How one call of `ParseMessage` ended: it returned `wasGame`, or it raised. */
  datatype StepOutcome = Completed(wasGame: bool) | Raised(cause: Exception)

  /** The tables after one call (writes committed before a raise stay) and how it ended. */
  datatype Step = Step(db: Database, outcome: StepOutcome)

  /** A score the parser can produce for a won or lost game. */
  predicate ScoreInRange(g: GameRow) {
    Parsable(GameResult(g.gameId, g.score, g.won))
  }

  /**
    What `ParseMessage` maintains beyond the UNIQUE constraints: every game's
    author has a Users row, and every score came out of the parser.
  */
  predicate Consistent(db: Database) {
    forall k | 0 <= k < |db.games| ::
      UserName(db.users, db.games[k].discordUserId).Some? && ScoreInRange(db.games[k])
  }

  /**
    The tables `CreateTables` leaves: the UNIQUE constraints hold, they are
    consistent, and no channel has a cursor yet. A run of `ParseMessage`
    calls from here keeps the first two (`ParseMessageKeepsInvariants`).
  */
  lemma EmptyDatabaseConsistent(channelId: nat)
    ensures Valid(EmptyDatabase) && Consistent(EmptyDatabase)
    ensures GetLastParsedMessage(EmptyDatabase, channelId).None?
    ensures forall username :: GetUserData(EmptyDatabase, username).None?
  {
  }

  /**
    `ParseMessage`. A message without a result line only moves the channel's
    cursor and returns False. A result line stores the author unless the
    discord id is already there (keeping the stored name), inserts the game,
    moves the cursor and returns True. If the (game, author) pair is already
    stored the insert raises: the author insert stays, Games and the cursor
    do not change. An outcome `int` cannot read raises before any write.
    Its properties are the lemmas that follow.
  */
  function ParseMessage(db: Database, channelId: nat, authorName: string, authorId: nat,
                        messageId: nat, content: string): Step
  {
    match ParseWordleGame(content)
    case Failure(e) => Step(db, Raised(ParseFailed(e)))
    case Success(None) => Step(UpdateLastParsedMessage(db, messageId, channelId), Completed(false))
    case Success(Some(g)) =>
      var withUser := AddUserIfNecessary(db, authorName, authorId);
      match RecordGame(withUser, authorId, g.gameId, g.score, g.won)
      case Failure(e) => Step(withUser, Raised(StoreFailed(e)))
      case Success(recorded) => Step(UpdateLastParsedMessage(recorded, messageId, channelId), Completed(true))
  }

  /**
    How a call ends: False exactly when the content has no result line, an
    unreadable outcome exactly when it raises before any write; a result
    line returns True exactly when its (game, author) pair was not stored,
    and otherwise raises the duplicate.
  */
  lemma ParseMessageOutcome(db: Database, channelId: nat, authorName: string, authorId: nat,
                            messageId: nat, content: string)
    ensures var r := ParseMessage(db, channelId, authorName, authorId, messageId, content);
      && (r.outcome == Completed(false) <==> NoMatch(content))
      && (r.outcome.Raised? && r.outcome.cause.ParseFailed? <==> ParseWordleGame(content).Failure?)
      && (r.outcome.Raised? && r.outcome.cause.ParseFailed? ==> r.db == db)
      && (ParseWordleGame(content).Success? && ParseWordleGame(content).value.Some? ==>
            var g := ParseWordleGame(content).value.value;
            var overflow := FirstOverflow([g.gameId, authorId, g.score]);
            && (r.outcome == Completed(true) <==> overflow.None? && !HasGame(db.games, g.gameId, authorId))
            && (overflow.Some? ==> r.outcome == Raised(StoreFailed(IntegerOverflow(overflow.value))))
            && (overflow.None? && HasGame(db.games, g.gameId, authorId) ==>
                  r.outcome == Raised(StoreFailed(DuplicateGame(g.gameId, authorId)))))
  {
  }

  /**
    A result line whose game id does not fit a SQLite INTEGER raises when the
    Games insert binds it: the author's Users row is already written, Games
    and every cursor stay as they were.
  */
  lemma OversizedGameIdRaises(db: Database, channelId: nat, authorName: string, authorId: nat,
                              messageId: nat, g: GameResult, rest: string)
    requires Parsable(g) && !FitsInteger(g.gameId)
    ensures var r := ParseMessage(db, channelId, authorName, authorId, messageId, ShareLine(g.gameId, OutcomeChar(g)) + rest);
      && r.outcome == Raised(StoreFailed(IntegerOverflow(g.gameId)))
      && r.db.games == db.games
      && r.db.lastMessage == db.lastMessage
      && UserName(r.db.users, authorId).Some?
  {
    ShareLineRoundTrip(g, rest);
  }

  /**
    What a call writes. The author gets a Users row unless the discord id
    has one (the stored name wins); Games gains the game's row at the end
    exactly when the call returns True and is otherwise unchanged; the
    channel's cursor becomes the message id exactly when the call
    completes, is otherwise unchanged, and no other channel's cursor moves.
  */
  lemma ParseMessageWrites(db: Database, channelId: nat, authorName: string, authorId: nat,
                           messageId: nat, content: string)
    ensures var r := ParseMessage(db, channelId, authorName, authorId, messageId, content);
      && (r.outcome == Completed(false) ==> r.db.users == db.users)
      && (forall id | id != authorId :: UserName(r.db.users, id) == UserName(db.users, id))
      && (ParseWordleGame(content).Success? && ParseWordleGame(content).value.Some? ==>
            var g := ParseWordleGame(content).value.value;
            && UserName(r.db.users, authorId) ==
                 (if UserName(db.users, authorId).Some? then UserName(db.users, authorId) else Some(authorName))
            && (r.outcome == Completed(true) ==> r.db.games == db.games + [GameRow(g.gameId, authorId, g.score, g.won)]))
      && (r.outcome != Completed(true) ==> r.db.games == db.games)
      && (r.outcome.Completed? ==> GetLastParsedMessage(r.db, channelId) == Some(messageId))
      && (r.outcome.Raised? ==> r.db.lastMessage == db.lastMessage)
      && (forall other | other != channelId ::
            GetLastParsedMessage(r.db, other) == GetLastParsedMessage(db, other))
  {
    match ParseWordleGame(content)
    case Failure(e) =>
    case Success(None) =>
    case Success(Some(g)) =>
      var withUser := AddUserIfNecessary(db, authorName, authorId);
      match RecordGame(withUser, authorId, g.gameId, g.score, g.won)
      case Failure(e) =>
      case Success(recorded) =>
        AppendedRow(db, withUser, recorded, authorId, g);
  }

  /** The Games insert appends its row: the old rows stay in place. */
  lemma AppendedRow(db: Database, withUser: Database, recorded: Database, authorId: nat, g: GameResult)
    requires withUser.games == db.games
    requires RecordGame(withUser, authorId, g.gameId, g.score, g.won) == Success(recorded)
    ensures recorded.games == db.games + [GameRow(g.gameId, authorId, g.score, g.won)]
  {
    assert recorded.games[..|db.games|] == db.games;
    assert recorded.games[|db.games|] in multiset(recorded.games);
  }

  /** A call keeps the UNIQUE constraints, and keeps the tables consistent. */
  lemma ParseMessageKeepsInvariants(db: Database, channelId: nat, authorName: string, authorId: nat,
                                    messageId: nat, content: string)
    requires Valid(db)
    ensures Valid(ParseMessage(db, channelId, authorName, authorId, messageId, content).db)
    ensures Consistent(db) ==> Consistent(ParseMessage(db, channelId, authorName, authorId, messageId, content).db)
  {
    match ParseWordleGame(content)
    case Failure(e) =>
    case Success(None) =>
    case Success(Some(g)) =>
      var withUser := AddUserIfNecessary(db, authorName, authorId);
      match RecordGame(withUser, authorId, g.gameId, g.score, g.won)
      case Failure(e) =>
      case Success(recorded) =>
        if Consistent(db) {
          AppendedRow(db, withUser, recorded, authorId, g);
          ConsistentAfterRecord(db, recorded, authorId, g);
        }
  }

  /** Appending a parsed game whose author has a Users row keeps the tables consistent. */
  lemma ConsistentAfterRecord(db: Database, recorded: Database, authorId: nat, g: GameResult)
    requires Consistent(db)
    requires recorded.games == db.games + [GameRow(g.gameId, authorId, g.score, g.won)]
    requires forall id | UserName(db.users, id).Some? :: UserName(recorded.users, id).Some?
    requires UserName(recorded.users, authorId).Some?
    requires Parsable(g)
    ensures Consistent(recorded)
  {
    forall k | 0 <= k < |recorded.games|
      ensures UserName(recorded.users, recorded.games[k].discordUserId).Some?
      ensures ScoreInRange(recorded.games[k])
    {
      if k < |db.games| {
        assert recorded.games[k] == db.games[k];
      }
    }
  }

  /** Re-delivering a message whose game was recorded raises, and changes nothing at all. */
  lemma RedeliveryRaises(db: Database, channelId: nat, authorName: string, authorId: nat,
                         messageId: nat, content: string, laterMessageId: nat)
    requires ParseMessage(db, channelId, authorName, authorId, messageId, content).outcome == Completed(true)
    ensures
      var first := ParseMessage(db, channelId, authorName, authorId, messageId, content);
      var second := ParseMessage(first.db, channelId, authorName, authorId, laterMessageId, content);
      var g := ParseWordleGame(content).value.value;
      && second.outcome == Raised(StoreFailed(DuplicateGame(g.gameId, authorId)))
      && second.db == first.db
  {
    var first := ParseMessage(db, channelId, authorName, authorId, messageId, content);
    ParseMessageOutcome(db, channelId, authorName, authorId, messageId, content);
    ParseMessageWrites(db, channelId, authorName, authorId, messageId, content);
    ParseMessageOutcome(first.db, channelId, authorName, authorId, laterMessageId, content);
    ParseMessageWrites(first.db, channelId, authorName, authorId, laterMessageId, content);
    var g := ParseWordleGame(content).value.value;
    var row := GameRow(g.gameId, authorId, g.score, g.won);
    assert row in multiset(first.db.games);
    var k :| 0 <= k < |first.db.games| && first.db.games[k] == row;
    assert HasGame(first.db.games, g.gameId, authorId);
  }

  // ---------------------------------------------------------------------
  // Derived statistics
  // ---------------------------------------------------------------------

  /** The `(par, average_score, total_losses)` of `WordleStats.GetUserData` without the average. */
  datatype UserStats = UserStats(par: int, losses: nat)

  /** With every score from the parser, each game is between 4 under and 5 over par. */
  lemma {:induction false} StrokesBounds(rows: seq<GameRow>)
    requires forall k | 0 <= k < |rows| :: ScoreInRange(rows[k])
    ensures -Par * |rows| <= Strokes(rows) <= 5 * |rows|
    decreases |rows|
  {
    if |rows| > 0 {
      StrokesBounds(rows[..|rows| - 1]);
    }
  }

  /**
    `WordleStats.GetUserData`: None exactly when the username has no game;
    otherwise par is the sum over its games of (score - 4) and losses the
    number of games not won. With scores from the parser, par lies between
    -4 and +5 per game.
  */
  function GetUserData(db: Database, username: string): (r: Option<UserStats>)
    ensures r.None? <==> !HasGames(db, username)
    ensures r.Some? ==>
      && r.value.par == Strokes(Joined(db, username))
      && r.value.losses == Losses(Joined(db, username))
    ensures r.Some? && Consistent(db) ==>
      -Par * |Joined(db, username)| <= r.value.par <= 5 * |Joined(db, username)|
  {
    match Queries.GetUserData(db, username)
    case None => None
    case Some(t) =>
      TotalsAgree(Joined(db, username));
      assert Consistent(db) ==> -Par * t.gameCount <= t.scoreSum - Par * t.gameCount <= 5 * t.gameCount by {
        if Consistent(db) {
          var rows := Joined(db, username);
          forall k | 0 <= k < |rows| ensures ScoreInRange(rows[k]) {
            assert rows[k] in db.games;
          }
          StrokesBounds(rows);
        }
      }
      Some(UserStats(t.scoreSum - Par * t.gameCount, t.gameCount - t.winCount))
  }

  /** The leaderboard sort key, `lambda x: x[1]`. */
  function NetScore(row: ScoreRow): int {
    row.net
  }

  lemma NetScoreSorted(rows: seq<ScoreRow>)
    requires Sorting.SortedBy(rows, NetScore)
    ensures forall a, b | 0 <= a < b < |rows| :: rows[a].net <= rows[b].net
  {
    forall a, b | 0 <= a < b < |rows| ensures rows[a].net <= rows[b].net {
      assert NetScore(rows[a]) <= NetScore(rows[b]);
    }
  }

  /** A permutation lists the same usernames. */
  lemma PermutationKeepsNames(rows: seq<ScoreRow>, rows': seq<ScoreRow>)
    requires multiset(rows) == multiset(rows')
    ensures forall name :: name in Usernames(rows) ==> name in Usernames(rows')
  {
    forall name | name in Usernames(rows) ensures name in Usernames(rows') {
      var i :| 0 <= i < |rows| && Usernames(rows)[i] == name;
      assert rows[i] in multiset(rows');
      var j :| 0 <= j < |rows'| && rows'[j] == rows[i];
      assert Usernames(rows')[j] == name;
    }
  }

  /**
    `GenerateLeaderboard`: the rows of `GetAllUserScores` sorted by net score,
    lowest (best) first. It is a permutation of those rows, stable on ties,
    and lists exactly the usernames that have at least one game.
  */
  function GenerateLeaderboard(db: Database): (r: seq<ScoreRow>)
    ensures forall a, b | 0 <= a < b < |r| :: r[a].net <= r[b].net
    ensures multiset(r) == multiset(GetAllUserScores(db))
    ensures forall net :: Sorting.WithKey(r, NetScore, net) == Sorting.WithKey(GetAllUserScores(db), NetScore, net)
    ensures forall name :: name in Usernames(r) <==> HasGames(db, name)
  {
    var scores := GetAllUserScores(db);
    var r := Sorting.SortBy(scores, NetScore);
    NetScoreSorted(r);
    PermutationKeepsNames(r, scores);
    PermutationKeepsNames(scores, r);
    r
  }

  /** Every leaderboard row shows the par that `GetUserData` reports for its username. */
  lemma LeaderboardAgreesWithUserData(db: Database)
    ensures forall i | 0 <= i < |GenerateLeaderboard(db)| ::
      var row := GenerateLeaderboard(db)[i];
      && GetUserData(db, row.username).Some?
      && GetUserData(db, row.username).value.par == row.net
      && row.gameCount == |Joined(db, row.username)|
  {
    var board := GenerateLeaderboard(db);
    var scores := GetAllUserScores(db);
    forall i | 0 <= i < |board|
      ensures GetUserData(db, board[i].username).Some?
      ensures GetUserData(db, board[i].username).value.par == board[i].net
      ensures board[i].gameCount == |Joined(db, board[i].username)|
    {
      assert board[i] in multiset(scores);
      ScoreRowAgrees(db, board[i]);
    }
  }

  lemma ScoreRowAgrees(db: Database, row: ScoreRow)
    requires row in GetAllUserScores(db)
    ensures GetUserData(db, row.username).Some?
    ensures GetUserData(db, row.username).value.par == row.net
    ensures row.gameCount == |Joined(db, row.username)|
  {
    var scores := GetAllUserScores(db);
    var j :| 0 <= j < |scores| && scores[j] == row;
    TotalsAgree(Joined(db, row.username));
  }

  // ---------------------------------------------------------------------
  // How one recorded game moves the statistics
  // ---------------------------------------------------------------------

  lemma {:induction false} JoinRowsSameOwners(users: seq<UserRow>, users': seq<UserRow>,
                                              games: seq<GameRow>, username: string)
    requires forall k | 0 <= k < |games| ::
      Owns(users, games[k].discordUserId, username) == Owns(users', games[k].discordUserId, username)
    ensures JoinRows(users, games, username) == JoinRows(users', games, username)
    decreases |games|
  {
    if |games| > 0 {
      JoinRowsSameOwners(users, users', games[..|games| - 1], username);
    }
  }

  /** With unique ids, a discord id is owned by exactly the username stored for it. */
  lemma OwnsStoredName(users: seq<UserRow>, discordUserId: nat, username: string)
    requires UniqueUsers(users) && UserName(users, discordUserId).Some?
    ensures Owns(users, discordUserId, username) <==> username == UserName(users, discordUserId).value
  {
    var k :| 0 <= k < |users| && users[k] == UserRow(UserName(users, discordUserId).value, discordUserId);
    if Owns(users, discordUserId, username) {
      var m :| 0 <= m < |users| && users[m].discordUserId == discordUserId && users[m].username == username;
      assert m == k;
    }
  }

  /** Adding a user that was absent does not change who owns the games already stored. */
  lemma OwnersKept(db: Database, authorName: string, authorId: nat, username: string)
    requires Consistent(db)
    ensures var users' := AddUserIfNecessary(db, authorName, authorId).users;
      forall k | 0 <= k < |db.games| ::
        Owns(db.users, db.games[k].discordUserId, username) == Owns(users', db.games[k].discordUserId, username)
  {
    var users' := AddUserIfNecessary(db, authorName, authorId).users;
    forall k | 0 <= k < |db.games|
      ensures Owns(db.users, db.games[k].discordUserId, username) == Owns(users', db.games[k].discordUserId, username)
    {
      var id := db.games[k].discordUserId;
      if users' != db.users {
        assert UserName(db.users, id).Some?;
        assert users' == db.users + [UserRow(authorName, authorId)];
        assert id != authorId;
        if Owns(db.users, id, username) {
          var m :| 0 <= m < |db.users| && db.users[m].discordUserId == id && db.users[m].username == username;
          assert users'[m] == db.users[m];
        }
      }
    }
  }

  /**
    A recorded game counts for exactly one username, the one stored for its
    author (which may differ from the name on this message): that username's
    games gain the new row, every other username's games are unchanged.
  */
  lemma RecordedGameCounts(db: Database, channelId: nat, authorName: string, authorId: nat,
                           messageId: nat, content: string, username: string)
    requires Valid(db) && Consistent(db)
    requires ParseMessage(db, channelId, authorName, authorId, messageId, content).outcome == Completed(true)
    ensures ParseWordleGame(content).Success? && ParseWordleGame(content).value.Some?
    ensures UserName(ParseMessage(db, channelId, authorName, authorId, messageId, content).db.users, authorId).Some?
    ensures
      var step := ParseMessage(db, channelId, authorName, authorId, messageId, content);
      var g := ParseWordleGame(content).value.value;
      var owner := UserName(step.db.users, authorId).value;
      Joined(step.db, username) ==
        Joined(db, username) + (if username == owner then [GameRow(g.gameId, authorId, g.score, g.won)] else [])
  {
    var step := ParseMessage(db, channelId, authorName, authorId, messageId, content);
    var g := ParseWordleGame(content).value.value;
    var row := GameRow(g.gameId, authorId, g.score, g.won);
    var withUser := AddUserIfNecessary(db, authorName, authorId);
    var recorded := RecordGame(withUser, authorId, g.gameId, g.score, g.won).value;
    assert step.db.users == withUser.users;
    assert step.db.games == db.games + [row] by {
      assert recorded.games[..|db.games|] == db.games;
      assert recorded.games[|db.games|] in multiset(recorded.games);
    }
    OwnersKept(db, authorName, authorId, username);
    JoinRowsSameOwners(db.users, withUser.users, db.games, username);
    OwnsStoredName(withUser.users, authorId, username);
    assert (db.games + [row])[..|db.games|] == db.games;
  }

  /**
    `after` is `before` with one more game of this score and outcome: par
    moves by (score - 4) and losses by one on a loss, counting from zero
    when there were no games before.
  */
  predicate ParMoved(before: Option<UserStats>, after: Option<UserStats>, score: nat, won: bool) {
    var b := if before.Some? then before.value else UserStats(0, 0);
    after == Some(UserStats(b.par + score - Par, b.losses + (if won then 0 else 1)))
  }

  /**
    A recorded game moves the statistics of exactly one username, the one
    stored for its author: by one game of its score and outcome. Every
    other username's statistics stay.
  */
  lemma RecordedGameMovesPar(db: Database, channelId: nat, authorName: string, authorId: nat,
                             messageId: nat, content: string, username: string)
    requires Valid(db) && Consistent(db)
    requires ParseMessage(db, channelId, authorName, authorId, messageId, content).outcome == Completed(true)
    ensures
      var step := ParseMessage(db, channelId, authorName, authorId, messageId, content);
      var g := ParseWordleGame(content).value.value;
      username == UserName(step.db.users, authorId).value ==>
        ParMoved(GetUserData(db, username), GetUserData(step.db, username), g.score, g.won)
    ensures
      var step := ParseMessage(db, channelId, authorName, authorId, messageId, content);
      username != UserName(step.db.users, authorId).value ==>
        GetUserData(step.db, username) == GetUserData(db, username)
  {
    RecordedGameCounts(db, channelId, authorName, authorId, messageId, content, username);
    var step := ParseMessage(db, channelId, authorName, authorId, messageId, content);
    var g := ParseWordleGame(content).value.value;
    var owner := UserName(step.db.users, authorId).value;
    if username == owner {
      StatsAfterGame(db, step.db, username, g, authorId);
    } else {
      StatsUnchanged(db, step.db, username);
    }
  }

  lemma StatsAfterGame(db: Database, db': Database, username: string, g: GameResult, authorId: nat)
    requires Joined(db', username) == Joined(db, username) + [GameRow(g.gameId, authorId, g.score, g.won)]
    ensures ParMoved(GetUserData(db, username), GetUserData(db', username), g.score, g.won)
  {
    StatsOfAppend(Joined(db, username), GameRow(g.gameId, authorId, g.score, g.won));
    UserDataIsStatsOf(db, username);
    UserDataIsStatsOf(db', username);
  }

  /** One more game moves the game-by-game statistics by that game. */
  lemma StatsOfAppend(rows: seq<GameRow>, row: GameRow)
    ensures ParMoved(StatsOf(rows), StatsOf(rows + [row]), row.score, row.won)
  {
    CountsAppend(rows, row);
    if |rows| == 0 {
      assert Strokes(rows) == 0 && Losses(rows) == 0;
    }
  }

  lemma StatsUnchanged(db: Database, db': Database, username: string)
    requires Joined(db', username) == Joined(db, username)
    ensures GetUserData(db', username) == GetUserData(db, username)
  {
    UserDataIsStatsOf(db, username);
    UserDataIsStatsOf(db', username);
  }

  lemma CountsAppend(rows: seq<GameRow>, row: GameRow)
    ensures Strokes(rows + [row]) == Strokes(rows) + row.score - Par
    ensures Losses(rows + [row]) == Losses(rows) + (if row.won then 0 else 1)
  {
    assert (rows + [row])[..|rows|] == rows;
  }

  /** The statistics of a list of games, counted game by game. */
  function StatsOf(rows: seq<GameRow>): Option<UserStats> {
    if |rows| == 0 then None else Some(UserStats(Strokes(rows), Losses(rows)))
  }

  lemma UserDataIsStatsOf(db: Database, username: string)
    ensures GetUserData(db, username) == StatsOf(Joined(db, username))
  {
  }
}
