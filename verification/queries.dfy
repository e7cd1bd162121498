/**
  The read queries of `WordleDatabaseAccess` (database.py): the user
  aggregate, the game history and the per-username net scores.

  All three join Games to Users on discord_user_id and then select or group
  by `username`, which is not unique: a username stands for every discord id
  stored with that name, and the aggregates range over all their games.
*/
module Queries {
  import opened Wrappers
  import opened Tables
  import Sorting

  /** The par baseline of `SUM(Score) - 4 * COUNT(*)`. */
  const Par: int := 4

  /** `INNER JOIN Users u ON u.discord_user_id = g.discord_user_id WHERE u.username = :username`. */
  predicate Owns(users: seq<UserRow>, discordUserId: nat, username: string) {
    exists k | 0 <= k < |users| :: users[k].discordUserId == discordUserId && users[k].username == username
  }

  /** Some game row joins to a user row with this username. */
  predicate HasGames(db: Database, username: string) {
    exists k | 0 <= k < |db.games| :: Owns(db.users, db.games[k].discordUserId, username)
  }

  /** The game rows that join to `username`, in table order. */
  function JoinRows(users: seq<UserRow>, games: seq<GameRow>, username: string): (rows: seq<GameRow>)
    ensures forall g :: g in rows <==> g in games && Owns(users, g.discordUserId, username)
    ensures forall g :: multiset(rows)[g] == if Owns(users, g.discordUserId, username) then multiset(games)[g] else 0
    ensures |rows| <= |games|
    decreases |games|
  {
    if |games| == 0 then []
    else
      var g := games[|games| - 1];
      assert games == games[..|games| - 1] + [g];
      JoinRows(users, games[..|games| - 1], username) + (if Owns(users, g.discordUserId, username) then [g] else [])
  }

  /** The rows the queries aggregate for `username`; empty exactly when it has no game. */
  function Joined(db: Database, username: string): (rows: seq<GameRow>)
    ensures forall g :: g in rows <==> g in db.games && Owns(db.users, g.discordUserId, username)
    ensures forall g :: multiset(rows)[g] == if Owns(db.users, g.discordUserId, username) then multiset(db.games)[g] else 0
    ensures |rows| > 0 <==> HasGames(db, username)
  {
    var rows := JoinRows(db.users, db.games, username);
    assert HasGames(db, username) ==> |rows| > 0 by {
      if HasGames(db, username) {
        var k :| 0 <= k < |db.games| && Owns(db.users, db.games[k].discordUserId, username);
        assert db.games[k] in rows;
      }
    }
    assert |rows| > 0 ==> HasGames(db, username) by {
      if |rows| > 0 {
        assert rows[0] in db.games;
      }
    }
    rows
  }

  /** `SUM(Score)`, `COUNT(CASE WHEN Won THEN 1 END)` and `COUNT(*)` over some rows. */
  datatype Totals = Totals(scoreSum: int, winCount: nat, gameCount: nat)

  function TotalsOf(rows: seq<GameRow>): (t: Totals)
    ensures t.gameCount == |rows| && t.winCount <= t.gameCount
    decreases |rows|
  {
    if |rows| == 0 then Totals(0, 0, 0)
    else
      var t := TotalsOf(rows[..|rows| - 1]);
      var g := rows[|rows| - 1];
      Totals(t.scoreSum + g.score, t.winCount + (if g.won then 1 else 0), t.gameCount + 1)
  }

  /** Strokes against par counted game by game: the sum of (score - 4). */
  function Strokes(rows: seq<GameRow>): int
    decreases |rows|
  {
    if |rows| == 0 then 0 else Strokes(rows[..|rows| - 1]) + (rows[|rows| - 1].score - Par)
  }

  /** The number of games not won. */
  function Losses(rows: seq<GameRow>): nat
    decreases |rows|
  {
    if |rows| == 0 then 0 else Losses(rows[..|rows| - 1]) + (if rows[|rows| - 1].won then 0 else 1)
  }

  /** The SQL totals give the same par and losses as counting game by game. */
  lemma {:induction false} TotalsAgree(rows: seq<GameRow>)
    ensures TotalsOf(rows).scoreSum - Par * TotalsOf(rows).gameCount == Strokes(rows)
    ensures TotalsOf(rows).gameCount - TotalsOf(rows).winCount == Losses(rows)
    decreases |rows|
  {
    if |rows| > 0 {
      TotalsAgree(rows[..|rows| - 1]);
    }
  }


  /**
    `WordleDatabaseAccess.GetUserData` without AVG: None exactly when no game
    joins to the username (COUNT(*) = 0); otherwise SUM(Score), the number
    of won games and COUNT(*) over its games.
  */
  function GetUserData(db: Database, username: string): (r: Option<Totals>)
    ensures r.None? <==> !HasGames(db, username)
    ensures r.Some? ==> r.value.gameCount == |Joined(db, username)| > 0
    ensures r.Some? ==> r.value.winCount <= r.value.gameCount
    ensures r.Some? ==>
      && r.value.scoreSum == Strokes(Joined(db, username)) + Par * |Joined(db, username)|
      && r.value.winCount == |Joined(db, username)| - Losses(Joined(db, username))
  {
    TotalsAgree(Joined(db, username));
    var t := TotalsOf(Joined(db, username));
    if t.gameCount == 0 then None else Some(t)
  }

  // ---------------------------------------------------------------------
  // History
  // ---------------------------------------------------------------------

  /** A row of `SELECT game_id, score, won`. */
  datatype HistoryRow = HistoryRow(gameId: nat, score: nat, won: bool)

  function HistoryOf(rows: seq<GameRow>): (h: seq<HistoryRow>)
    ensures |h| == |rows|
    ensures forall k | 0 <= k < |rows| :: h[k] == HistoryRow(rows[k].gameId, rows[k].score, rows[k].won)
  {
    seq(|rows|, k requires 0 <= k < |rows| => HistoryRow(rows[k].gameId, rows[k].score, rows[k].won))
  }

  /** `ORDER BY game_id DESC` as an ascending sort key. */
  function NewestFirst(h: HistoryRow): int {
    -(h.gameId as int)
  }

  /** In a descending sequence, everything after position `m` is no newer than everything before it. */
  lemma {:induction false} TruncationKeepsNewest(all: seq<HistoryRow>, m: nat)
    requires m <= |all|
    requires forall a, b | 0 <= a < b < |all| :: all[a].gameId >= all[b].gameId
    ensures forall h, x | h in multiset(all) - multiset(all[..m]) && x in all[..m] :: h.gameId <= x.gameId
  {
    Sorting.MultisetSplit(all, m);
    forall h, x | h in multiset(all) - multiset(all[..m]) && x in all[..m]
      ensures h.gameId <= x.gameId
    {
      assert h in multiset(all[m..]);
      var p :| 0 <= p < |all| - m && all[m..][p] == h;
      var q :| 0 <= q < m && all[..m][q] == x;
      assert all[q].gameId >= all[m + p].gameId;
    }
  }

  /** Python's `res[:limit] if limit is not None else res`, for a limit that is not negative. */
  function Truncate<T>(xs: seq<T>, limit: Option<nat>): (r: seq<T>)
    ensures |r| == if limit.Some? && limit.value < |xs| then limit.value else |xs|
    ensures r == xs[..|r|]
  {
    if limit.Some? && limit.value < |xs| then xs[..limit.value] else xs
  }

  lemma NewestFirstDescends(all: seq<HistoryRow>)
    requires Sorting.SortedBy(all, NewestFirst)
    ensures forall a, b | 0 <= a < b < |all| :: all[a].gameId >= all[b].gameId
  {
    forall a, b | 0 <= a < b < |all| ensures all[a].gameId >= all[b].gameId {
      assert NewestFirst(all[a]) <= NewestFirst(all[b]);
    }
  }

  /** A truncated permutation is a sub-multiset, and the whole one when nothing is cut. */
  lemma TruncatedPermutation<T>(all: seq<T>, rows: seq<T>, limit: Option<nat>)
    requires multiset(all) == multiset(rows)
    ensures multiset(Truncate(all, limit)) <= multiset(rows)
    ensures limit.None? ==> multiset(Truncate(all, limit)) == multiset(rows)
  {
    Sorting.MultisetSplit(all, |Truncate(all, limit)|);
  }

  /** The newest-first order of `rows`, truncated, keeps the newest rows. */
  lemma NewestRows(rows: seq<HistoryRow>, limit: Option<nat>)
    ensures var r := Truncate(Sorting.SortBy(rows, NewestFirst), limit);
      && (forall a, b | 0 <= a < b < |r| :: r[a].gameId >= r[b].gameId)
      && multiset(r) <= multiset(rows)
      && (limit.None? ==> multiset(r) == multiset(rows))
      && (forall h, x | h in multiset(rows) - multiset(r) && x in r :: h.gameId <= x.gameId)
  {
    var all := Sorting.SortBy(rows, NewestFirst);
    NewestFirstDescends(all);
    var r := Truncate(all, limit);
    TruncationKeepsNewest(all, |r|);
    TruncatedPermutation(all, rows, limit);
  }

  /**
    `GetUserGameHistory`: the username's games, newest game id first, cut to
    the first `limit` rows when a limit is given. The rows left out are never
    newer than the rows kept. Ties on game_id, which SQL leaves unordered,
    keep table order.
  */
  function GetUserGameHistory(db: Database, username: string, limit: Option<nat>): (r: seq<HistoryRow>)
    ensures forall a, b | 0 <= a < b < |r| :: r[a].gameId >= r[b].gameId
    ensures |r| == if limit.Some? && limit.value < |Joined(db, username)| then limit.value
                   else |Joined(db, username)|
    ensures multiset(r) <= multiset(HistoryOf(Joined(db, username)))
    ensures limit.None? ==> multiset(r) == multiset(HistoryOf(Joined(db, username)))
    ensures forall h, x | h in multiset(HistoryOf(Joined(db, username))) - multiset(r) && x in r ::
      h.gameId <= x.gameId
  {
    var rows := HistoryOf(Joined(db, username));
    NewestRows(rows, limit);
    Truncate(Sorting.SortBy(rows, NewestFirst), limit)
  }

  // ---------------------------------------------------------------------
  // Net scores per username
  // ---------------------------------------------------------------------

  /** A row of `SELECT u.username, SUM(Score) - 4 * COUNT(*), COUNT(*)`. */
  datatype ScoreRow = ScoreRow(username: string, net: int, gameCount: nat)

  /**
    The groups of `GROUP BY u.username`: the distinct usernames among the
    first `k` user rows that own at least one game, in Users order (SQL
    leaves the order of groups open).
  */
  function GroupNames(db: Database, k: nat): (names: seq<string>)
    requires k <= |db.users|
    ensures forall a, b | 0 <= a < b < |names| :: names[a] != names[b]
    ensures forall name :: name in names <==>
      HasGames(db, name) && exists i | 0 <= i < k :: db.users[i].username == name
    decreases k
  {
    if k == 0 then []
    else
      var names := GroupNames(db, k - 1);
      var name := db.users[k - 1].username;
      if name !in names && HasGames(db, name) then names + [name] else names
  }

  function Usernames(rows: seq<ScoreRow>): (names: seq<string>)
    ensures |names| == |rows|
    ensures forall i | 0 <= i < |rows| :: names[i] == rows[i].username
  {
    seq(|rows|, i requires 0 <= i < |rows| => rows[i].username)
  }

  /**
    `GetAllUserScores`: one row per username that has at least one game
    (the inner join drops the others), each agreeing with `GetUserData` for
    that username: net = score sum - 4 * game count.
  */
  function GetAllUserScores(db: Database): (r: seq<ScoreRow>)
    ensures forall a, b | 0 <= a < b < |r| :: r[a].username != r[b].username
    ensures forall name :: name in Usernames(r) <==> HasGames(db, name)
    ensures forall i | 0 <= i < |r| ::
      && GetUserData(db, r[i].username).Some?
      && r[i].gameCount == GetUserData(db, r[i].username).value.gameCount
      && r[i].net == GetUserData(db, r[i].username).value.scoreSum - Par * r[i].gameCount
  {
    var names := GroupNames(db, |db.users|);
    GroupNamesComplete(db);
    var r := seq(|names|, i requires 0 <= i < |names| => ScoreRowOf(db, names[i]));
    assert Usernames(r) == names;
    r
  }

  /** The row of one group: the username, its net score and its game count. */
  function ScoreRowOf(db: Database, username: string): (row: ScoreRow)
    ensures row.username == username
    ensures HasGames(db, username) ==>
      && GetUserData(db, username).Some?
      && row.gameCount == GetUserData(db, username).value.gameCount
      && row.net == GetUserData(db, username).value.scoreSum - Par * row.gameCount
  {
    var t := TotalsOf(Joined(db, username));
    ScoreRow(username, t.scoreSum - Par * t.gameCount, t.gameCount)
  }

  /** Every username that owns a game is one of the groups. */
  lemma GroupNamesComplete(db: Database)
    ensures forall name | HasGames(db, name) :: name in GroupNames(db, |db.users|)
  {
    forall name | HasGames(db, name) ensures name in GroupNames(db, |db.users|) {
      var k :| 0 <= k < |db.games| && Owns(db.users, db.games[k].discordUserId, name);
    }
  }
}
