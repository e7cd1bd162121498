# discord-wordle-stats: the ingestion and statistics core in Dafny

This project models the core of a Discord bot that keeps Wordle statistics.
The bot polls one channel for new messages. It reads each result line that a
player shares (`Wordle 245 3/6`) and stores the game in three SQLite tables.
From those tables it answers the `stats` and `leaderboard` slash commands.
bot.py also has a `user_history` handler for the game history, but nothing
registers it as a command.

The model has one module per part of the program:

- `Wrappers`: `Option` and `Result`.
- `Parser`: `_parseWordleGame` (database.py).
  - The regular expression `Wordle (\d+) (.)/6.*` under `re.search` is stated declaratively (`MatchSpan`, `LeftmostMatch`, `NoMatch`).
  - A scanning implementation is proved to agree with that statement.
  - A parse of the shared result line gives back the result.
- `Tables`: the Users, Games and LastMessage tables of `CreateTables`.
  - Each table is a sequence of rows in insertion order.
  - The three UNIQUE constraints make up `Valid`.
  - It also holds the writes and point reads of `WordleDatabaseAccess`.
- `Queries`: the three read queries of `WordleDatabaseAccess`. Each joins Games to Users on `discord_user_id`, then filters or groups by `username`.
- `Sorting`: a stable sort, standing for Python's `sorted` and for `ORDER BY`.
- `Stats`: `WordleStats`.
  - `ParseMessage` is one transition of the tables, with an outcome: it returned True, returned False, or raised.
  - It also holds the par, losses and leaderboard computations.
- `Poller`: the control logic of bot.py.
  - Messages are gathered page by page after the stored cursor.
  - Each message is fed to `ParseMessage`; whatever it raises is caught and the loop goes on.
  - Reactions are given to the messages whose call returned True.
  - Also covered: the history-limit normalisation and the leaderboard ranks.

## How the model follows the code

Four behaviours of the code are easy to misread. The model does what the code does:

- **`RecordGame` is a plain `INSERT`** under `UNIQUE (game_id, discord_user_id)`.
  - A duplicate (game, user) pair raises. It is not silently ignored.
  - A game id above 2^63 - 1 (SQLite's largest INTEGER) also raises: Python's `sqlite3` cannot bind it. `int` reads any digit run, so a message can carry such an id.
  - Inside `ParseMessage`, the user insert before it stays, and the cursor update after it is skipped.
  - The channel's cursor therefore stays before a re-posted result line. Every later poll reads that message again, until some later message completes (`Poller.NextPollResumes`).
- **`UpdateLastParsedMessage` does not check that the cursor grows.** It stores whatever id it is given.
- **The outcome group `(.)` takes any character except a newline.**
  - `'X'` is a loss scored 7.
  - Any digit is a win scored by its value, so `0/6`, `7/6`, `8/6` and `9/6` are accepted.
  - Any other character makes `int` raise before anything is written.
- **The queries join Games to Users on `discord_user_id`, then filter or group by `username`, which is not unique.** Only `discord_user_id` is. A username's statistics cover the games of every discord id stored under that name.
  - `AddUserIfNecessary` is `INSERT OR IGNORE`, so the first name stored for an id is kept.
  - A recorded game counts for that stored name, not the name on the message (`Stats.RecordedGameCounts`).

The channel is a snapshot: the sequence of its messages, oldest first. Discord
message ids grow with time, so the channel is required to be `Chronological`.
The network call `channel.history(limit=200, oldest_first=True, after=...)` is
`Poller.Page`, the list of messages it returns. A reaction is returned as the
id of the message to react to.

## Model

| member | source | states |
|---|---|---|
| `Parser.ParseWordleGame` | database.py:47-55 | `Success(None)` exactly when the pattern occurs nowhere in the text. Otherwise the leftmost match decides: `'X'` gives won=false and score 7, a digit gives won=true and its value, any other character gives `Failure(InvalidOutcome(c))`. The game id is the value of the digit run. Every result has score at most 9 on a win and 7 on a loss. |
| `Parser.ShareLineRoundTrip` | database.py:48-55 | Parsing the line `Wordle <id> <c>/6` gives back the game it was written from, whatever text follows it. |
| `Parser.UnknownOutcomeRaises` | database.py:52-54 | A result line whose outcome is neither a digit nor `'X'` (a lower-case `'x'`, say) raises instead of recording anything. |
| `Parser.NumberOfShowNat` | database.py:54 | `int` of the decimal rendering of a game id gives the id back. |
| `Tables.UserName` | database.py:19-21 | The name stored for a discord id is None exactly when no Users row has the id, and otherwise is the name of a row holding it. |
| `Tables.AddUserIfNecessary` | database.py:105-110 | Adds `(name, id)` only when the id has no row; an existing row and its name are untouched. Every other id keeps its name, Games and LastMessage are unchanged, and `unique_users` is kept. |
| `Tables.RecordGame` | database.py:97-103 | Binding (game_id, discord_user_id, score) fails with `IntegerOverflow` of the first value above 2^63 - 1. Otherwise it fails with `DuplicateGame` exactly when the (game_id, discord_user_id) key is already stored. Otherwise it appends the row and keeps `unique_games`. Users and LastMessage are never touched, and a failure changes nothing. |
| `Tables.FirstOverflow` | database.py:99-102 | The value reported for a failed bind is the first parameter, in binding order, above 2^63 - 1, and it is None exactly when every parameter fits. |
| `Tables.GetLastParsedMessage` | database.py:112-120 | None exactly when the channel has no LastMessage row; otherwise the id held by a row of that channel. |
| `Tables.UpdateLastParsedMessage` | database.py:155-170 | Afterwards the channel's cursor is the given id, whether it goes up or down. Every other channel's cursor, Users and Games are unchanged. On valid tables the channel has exactly one LastMessage row. |
| `Tables.InsertCursor` | database.py:159-163 | The INSERT branch on a channel without a row leaves exactly one row for it, holding the id, and keeps `unique_channels` and the other channels. |
| `Tables.UpdateCursor` | database.py:164-169 | The UPDATE branch on a channel with a row leaves exactly one row for it, holding the id, and keeps `unique_channels` and the other channels. |
| `Stats.EmptyDatabaseConsistent` | database.py:15-37 | The freshly created tables satisfy the three UNIQUE constraints and are consistent. No channel has a cursor and no username has statistics. |
| `Queries.Joined` | database.py:126-128 | The inner join selects exactly the stored games whose discord id is stored under the username, each as many times as Games holds it. It is empty exactly when the username has no game. |
| `Queries.GetUserData` | database.py:122-132 | None exactly when the username has no game. Otherwise the count is the number of joined games, the score sum is their scores added up, and the win count is the number of them won. |
| `Queries.GetUserGameHistory` | database.py:134-143 | The joined games as (game_id, score, won), with game ids not increasing. With a limit below the number of games, exactly `limit` rows (`res[:limit]`); otherwise all of them. Every row comes from the user's games, and every game left out is no newer than any game kept. |
| `Queries.GroupNames` | database.py:148-151 | `GROUP BY u.username` gives each username that has a game exactly once. |
| `Queries.GetAllUserScores` | database.py:145-153 | One row per username with at least one game, no username twice. Each row's count is that username's game count and its net is score sum minus 4 times that count. |
| `Sorting.SortBy` | database.py:90 | The result is sorted by the key and is a permutation of the input. It is stable: the elements of each key keep their input order. |
| `Stats.ParseMessageOutcome` | database.py:57-69 | A call returns False exactly when the text has no result line. It raises a parse error, with nothing written, exactly when the outcome is unreadable. A result line returns True exactly when the game id and author id fit a SQLite INTEGER and the (game, author) pair is not stored. It raises `IntegerOverflow` when a value does not fit, and `DuplicateGame` when the pair is stored. |
| `Stats.ParseMessageWrites` | database.py:57-69 | A False call writes no user, and no call changes the stored name of any discord id but the author's. For a result line, the author's stored name is the old one if any, else the message's name. Games gains the game's row exactly on True and is otherwise unchanged. The cursor becomes the message id when the call completes and stays when it raises; no other channel's cursor moves. |
| `Stats.ParseMessageKeepsInvariants` | database.py:57-69 | A call keeps the three UNIQUE constraints, and keeps every stored game's author in Users with a score the parser can produce. |
| `Stats.RedeliveryRaises` | database.py:66-68 | Feeding a message whose game was just recorded again, under any message id, raises `DuplicateGame` and changes no table, not even the cursor. |
| `Stats.OversizedGameIdRaises` | database.py:54-68 | A share line whose game id exceeds 2^63 - 1 raises `IntegerOverflow` from the Games insert. The author's Users row stays written, while Games and every cursor are unchanged, so the message gets no reaction. |
| `Queries.TotalsAgree` | database.py:76-81 | The SQL aggregates give the same par as adding `score - 4` game by game and the same losses as counting lost games. |
| `Stats.StrokesBounds` | database.py:52-53 | With scores from the parser, par lies between -4 and +5 per game. |
| `Stats.GetUserData` | database.py:71-82 | None exactly when the username has no game; otherwise par is the game-by-game sum of `score - 4` over its games and losses is the number of its games not won, within -4 and +5 per game when the tables are consistent. |
| `Stats.GenerateLeaderboard` | database.py:88-91 | The per-username rows sorted by net, lowest first; a permutation of `GetAllUserScores`, stable on equal nets, listing exactly the usernames that have a game. |
| `Stats.LeaderboardAgreesWithUserData` | database.py:148 | Every leaderboard row's net is the par `GetUserData` reports for that username, and its count is that username's number of games. |
| `Stats.RecordedGameCounts` | database.py:66-67 | A recorded game joins to exactly one username, the one stored for its author: that username's joined games gain its row at the end and every other username's joined games are unchanged. |
| `Stats.RecordedGameMovesPar` | database.py:57-82 | A recorded game moves the par of the author's stored username by `score - 4` and its losses by one on a loss, counting from zero for a first game; every other username's statistics stay the same. |
| `Poller.SinceMembers` | bot.py:41 | In a chronological channel, the messages after the cursor are exactly the channel's messages with a larger id (all of them when there is no cursor). |
| `Poller.GetAllMessagesSinceMessage` | bot.py:36-48 | Each request returns the first 200 messages after its cursor (`Page`). Requesting pages after the cursor, then after the last message gathered, until a page comes back empty, gathers every message after the cursor, oldest first, each once. |
| `Poller.ProcessMessages` | bot.py:57-60 | The loop calls `ParseMessage` once per fetched message, in the order fetched, and logs one outcome per message. |
| `Poller.Acks` | bot.py:61-62 | A message id gets the green-square reaction exactly when its call returned True. |
| `Poller.ProcessKeepsInvariants` | bot.py:58-64 | A run of messages, with some calls raising, keeps the UNIQUE constraints and the consistency of the tables. |
| `Poller.ProcessRecordsAcked` | bot.py:58-62 | After a run, Games is the old table followed by the rows of the messages whose call returned True, in message order. |
| `Poller.ProcessMovesCursor` | bot.py:58-64 | After a run, the cursor is the id of the last message whose call completed, whether or not it held a game. It is unchanged when every call raised or there were no messages. |
| `Poller.ProcessKeepsOtherCursors` | bot.py:58-64 | A run on one channel leaves every other channel's cursor where it was. |
| `Poller.PollNewMessages` | bot.py:50-64 | One poll processes exactly the messages after the stored cursor. It appends the rows of the reacted-to messages to Games and reacts to exactly the messages that returned True. It leaves the cursor at the last completed message and keeps other channels' cursors. It keeps the UNIQUE constraints and consistency. |
| `Poller.NextPollResumes` | bot.py:53-57 | The next poll starts right after the last message whose call completed. Messages that raised after it are read again, and nothing is left when the last message completed. |
| `Poller.UserHistoryLength` | bot.py:78-81 | After `limit = None if limit == 0 else limit`, `user_history` shows every game for limit 0 and otherwise the smaller of the limit and the game count. It shows nothing exactly when the username has no game. |
| `Poller.LeaderboardRanks` | bot.py:94-99 | Each line of the ranked table carries rank = position + 1 with its row's username and net. The ranks run from 1 to n in order, a better rank never has a larger net, no username is listed twice, and exactly the usernames with a game are listed. |

## Left out

- `Queries.GetUserData`: leaves out `AVG(Score)`, because it is a floating-point value; the sum, win count and count are kept.
- `Stats.GetUserData`: returns `(par, losses)` without `average_score`, for the same reason.
- `Parser.ParseWordleGame`: `\d` and `int` are restricted to ASCII digits; Python also accepts other Unicode decimal digits.
- `Queries.GetUserGameHistory`: takes a limit that is not negative. Python's `res[:limit]` with a negative limit drops rows from the end. That slice behaviour is not modelled: the limit is a `nat`.
- `Queries.GetUserGameHistory`: rows with the same game id keep Games table order. SQL leaves their order open, and this is one of the orders it allows.
- `Queries.GetAllUserScores`: groups come out in the order their usernames first appear in Users. SQL leaves the order of groups open, and this is one of the orders it allows. The leaderboard's tie order follows it.
- `Tables.AddUserIfNecessary`: does not check that the author id fits a SQLite INTEGER, where `sqlite3` raises `OverflowError` for a value above 2^63 - 1 before writing anything. `Tables.RecordGame` does check all three values it binds. So in `Stats.ParseMessage` an oversized author id raises one statement later than in the code, from the Games insert, after its Users row is written. Discord ids are snowflakes below 2^63, so this case does not arise from Discord itself.
- `Tables.UpdateLastParsedMessage`: does not check that the message and channel ids fit a SQLite INTEGER, where `sqlite3` raises for a value above 2^63 - 1. Both ids are Discord snowflakes, below 2^63.
- `Poller.PollNewMessages`: the channel is a snapshot sequence with increasing ids. Real reactions, `get_channel` and `get_partial_message` are not modelled; reactions are returned as message ids.
- The 15-second `tasks.loop`, `wait_until_ready`, and all async and nextcord plumbing are left out: they are scheduling, not logic.
- `print` logging (database.py:64, bot.py:64) is left out: it has no effect on the tables.
- Output formatting (`kUserStatsMessage`, `kHistoryLine`, `_addCodeBlocks`, `tabulate`, `send_message`) is left out. The lines shown are modelled as data (`Poller.Ranked`, `Poller.UserHistoryLength`).
- `WordleStats.GetUserGameHistory` and `WordleStats.GetLastParsedMesasge` forward to the database unchanged and are modelled by `Queries.GetUserGameHistory` and `Tables.GetLastParsedMessage`.
- The `__main__` block of database.py (file deletion, running `CreateTables`) is left out. The empty tables are `Tables.EmptyDatabase`.
- SQLite connections, `commit` and transactions are left out: each statement takes effect entirely, as it does under autocommit.
- config.py (JSON configuration), main.py (argument parsing, slash-command registration) and image_test.py (a plotting script calling queries database.py does not define) are not part of this model.
