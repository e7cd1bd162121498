/**
  The control logic of `WordleStatBot` (bot.py): gathering every message
  after the stored cursor page by page, feeding each one to `ParseMessage`
  while swallowing what it raises, the history limit and the leaderboard
  ranks.

  The channel is a snapshot: the sequence of its messages, oldest first.
  Discord message ids are snowflakes, so ids grow along the channel.
*/
module Poller {
  import opened Wrappers
  import opened Parser
  import opened Tables
  import opened Queries
  import opened Stats

  /** The fields of a Discord message the bot reads. */
  datatype Message = Message(id: nat, authorName: string, authorId: nat, content: string)

  /** The `limit` of every `channel.history` call. */
  const PageLimit: nat := 200

  /** Message ids strictly increase from the oldest message to the newest. */
  predicate Chronological(channel: seq<Message>) {
    forall a, b | 0 <= a < b < |channel| :: channel[a].id < channel[b].id
  }

  /** `after=...` keeps a message: always when there is no cursor, else when its id is larger. */
  predicate After(m: Message, after: Option<nat>) {
    after.None? || m.id > after.value
  }

  /** The position of the first message `after` keeps. */
  function FirstAfter(channel: seq<Message>, after: Option<nat>): (k: nat)
    ensures k <= |channel|
    ensures forall i | 0 <= i < k :: !After(channel[i], after)
    ensures k < |channel| ==> After(channel[k], after)
    decreases |channel|
  {
    if |channel| == 0 || After(channel[0], after) then 0
    else 1 + FirstAfter(channel[1..], after)
  }

  /** Any position with the two properties of `FirstAfter` is `FirstAfter`. */
  lemma FirstAfterUnique(channel: seq<Message>, after: Option<nat>, j: nat)
    requires j <= |channel|
    requires forall i | 0 <= i < j :: !After(channel[i], after)
    requires j < |channel| ==> After(channel[j], after)
    ensures FirstAfter(channel, after) == j
  {
  }

  /** The messages of the channel after the cursor, oldest first: a suffix of the channel. */
  function Since(channel: seq<Message>, after: Option<nat>): (r: seq<Message>)
    ensures |r| <= |channel| && r == channel[|channel| - |r|..]
  {
    channel[FirstAfter(channel, after)..]
  }

  /** In a chronological channel, `Since` holds exactly the messages `after` keeps. */
  lemma SinceMembers(channel: seq<Message>, after: Option<nat>)
    requires Chronological(channel)
    ensures forall m :: m in Since(channel, after) <==> m in channel && After(m, after)
  {
    var k := FirstAfter(channel, after);
    forall i | k <= i < |channel| ensures After(channel[i], after) {
      if after.Some? && i > k {
        assert channel[k].id < channel[i].id;
      }
    }
  }

  /** One `channel.history(limit=200, oldest_first=True, after=...)` call. */
  function Page(channel: seq<Message>, after: Option<nat>): (r: seq<Message>)
    ensures |r| == if |Since(channel, after)| < PageLimit then |Since(channel, after)| else PageLimit
    ensures r == Since(channel, after)[..|r|]
  {
    var all := Since(channel, after);
    if |all| < PageLimit then all else all[..PageLimit]
  }

  /**
    After the n-th message of `Since(channel, after)`, the channel holds
    exactly the messages that follow it there.
  */
  lemma SinceAfterPrefix(channel: seq<Message>, after: Option<nat>, n: nat)
    requires Chronological(channel)
    requires 0 < n <= |Since(channel, after)|
    ensures Since(channel, Some(Since(channel, after)[n - 1].id)) == Since(channel, after)[n..]
  {
    var all := Since(channel, after);
    var k := |channel| - |all|;
    var x := all[n - 1].id;
    assert all[n - 1] == channel[k + n - 1];
    forall i | 0 <= i < k + n ensures !After(channel[i], Some(x)) {
      if i < k + n - 1 {
        assert channel[i].id < channel[k + n - 1].id;
      }
    }
    if k + n < |channel| {
      assert channel[k + n - 1].id < channel[k + n].id;
    }
    FirstAfterUnique(channel, Some(x), k + n);
  }

  /** The page after a gathered prefix continues it, and is empty only once everything is gathered. */
  lemma NextPage(channel: seq<Message>, after: Option<nat>, gathered: seq<Message>)
    requires Chronological(channel)
    requires 0 < |gathered| <= |Since(channel, after)|
    requires gathered == Since(channel, after)[..|gathered|]
    ensures var res := Page(channel, Some(gathered[|gathered| - 1].id));
      var all := Since(channel, after);
      && |gathered| + |res| <= |all|
      && gathered + res == all[..|gathered| + |res|]
      && (|res| == 0 <==> |gathered| == |all|)
  {
    var all := Since(channel, after);
    var n := |gathered|;
    SinceAfterPrefix(channel, after, n);
    assert gathered[n - 1] == all[n - 1];
    var res := Page(channel, Some(gathered[n - 1].id));
    PrefixExtend(all, n, |res|);
  }

  lemma PrefixExtend<T>(all: seq<T>, n: nat, m: nat)
    requires n + m <= |all|
    ensures all[..n] + all[n..][..m] == all[..n + m]
  {
  }

  /**
    `get_all_messages_since_message`: requests pages after the cursor, then
    after the last message gathered so far, until a page comes back empty.
    The result is every message after the cursor, oldest first, each once.
  */
  method GetAllMessagesSinceMessage(channel: seq<Message>, last: Option<nat>) returns (messages: seq<Message>)
    requires Chronological(channel)
    ensures messages == Since(channel, last)
  {
    ghost var all := Since(channel, last);
    var res := Page(channel, last);
    messages := res;
    while |res| != 0
      invariant |messages| <= |all|
      invariant messages == all[..|messages|]
      invariant |res| != 0 ==> |messages| > 0
      invariant |res| == 0 ==> messages == all
      decreases |all| - |messages| + (if |res| != 0 then 1 else 0)
    {
      NextPage(channel, last, messages);
      res := Page(channel, Some(messages[|messages| - 1].id));
      messages := messages + res;
    }
  }

  // ---------------------------------------------------------------------
  // Feeding the messages to ParseMessage
  // ---------------------------------------------------------------------

  /** How the call of `ParseMessage` for one message ended. */
  datatype LogEntry = LogEntry(messageId: nat, outcome: StepOutcome)

  /** The tables after a run of messages, and one log entry per message. */
  datatype Batch = Batch(db: Database, log: seq<LogEntry>)

  /**
    The `for message in messages` loop of `poll_new_messages`: each message
    goes through `ParseMessage` against the tables the previous ones left;
    an exception is caught and the loop carries on with the next message.
  */
  function ProcessMessages(db: Database, channelId: nat, msgs: seq<Message>): (b: Batch)
    ensures |b.log| == |msgs|
    ensures forall i | 0 <= i < |msgs| :: b.log[i].messageId == msgs[i].id
    decreases |msgs|
  {
    if |msgs| == 0 then Batch(db, [])
    else
      var prev := ProcessMessages(db, channelId, msgs[..|msgs| - 1]);
      var m := msgs[|msgs| - 1];
      var step := ParseMessage(prev.db, channelId, m.authorName, m.authorId, m.id, m.content);
      Batch(step.db, prev.log + [LogEntry(m.id, step.outcome)])
  }

  /** The ids of the messages that get the green-square reaction: those whose call returned True. */
  function Acks(log: seq<LogEntry>): (ids: seq<nat>)
    ensures forall id :: id in ids <==> exists i | 0 <= i < |log| :: log[i] == LogEntry(id, Completed(true))
    decreases |log|
  {
    if |log| == 0 then []
    else
      var e := log[|log| - 1];
      var ids := Acks(log[..|log| - 1]) + (if e.outcome == Completed(true) then [e.messageId] else []);
      assert forall i | 0 <= i < |log| - 1 :: log[..|log| - 1][i] == log[i];
      ids
  }

  /** The Games row a message's result line stands for, if it has a readable one. */
  function Recorded(m: Message): Option<GameRow> {
    match ParseWordleGame(m.content)
    case Success(Some(g)) => Some(GameRow(g.gameId, m.authorId, g.score, g.won))
    case _ => None
  }

  /** The rows of the messages whose call returned True, in message order. */
  function NewRows(msgs: seq<Message>, log: seq<LogEntry>): seq<GameRow>
    requires |log| == |msgs|
    decreases |msgs|
  {
    if |msgs| == 0 then []
    else
      var m := msgs[|msgs| - 1];
      NewRows(msgs[..|msgs| - 1], log[..|log| - 1])
        + (if log[|log| - 1].outcome == Completed(true) && Recorded(m).Some? then [Recorded(m).value] else [])
  }

  /** One past the last message whose call completed; 0 when none did. */
  function ResumeIndex(log: seq<LogEntry>): (n: nat)
    ensures n <= |log|
    ensures n > 0 ==> log[n - 1].outcome.Completed?
    ensures forall i | n <= i < |log| :: log[i].outcome.Raised?
    decreases |log|
  {
    if |log| == 0 then 0
    else if log[|log| - 1].outcome.Completed? then |log|
    else ResumeIndex(log[..|log| - 1])
  }

  /** A run of messages keeps the UNIQUE constraints and the consistency of the tables. */
  lemma {:induction false} ProcessKeepsInvariants(db: Database, channelId: nat, msgs: seq<Message>)
    requires Valid(db)
    ensures Valid(ProcessMessages(db, channelId, msgs).db)
    ensures Consistent(db) ==> Consistent(ProcessMessages(db, channelId, msgs).db)
    decreases |msgs|
  {
    if |msgs| > 0 {
      var init := msgs[..|msgs| - 1];
      var m := msgs[|msgs| - 1];
      ProcessKeepsInvariants(db, channelId, init);
      ParseMessageKeepsInvariants(ProcessMessages(db, channelId, init).db, channelId, m.authorName, m.authorId, m.id, m.content);
    }
  }

  /**
    Games grows by the rows of the messages that returned True, appended in
    message order; nothing else is written to it.
  */
  lemma {:induction false} ProcessRecordsAcked(db: Database, channelId: nat, msgs: seq<Message>)
    ensures var b := ProcessMessages(db, channelId, msgs);
      b.db.games == db.games + NewRows(msgs, b.log)
    decreases |msgs|
  {
    if |msgs| > 0 {
      var init := msgs[..|msgs| - 1];
      var prev := ProcessMessages(db, channelId, init);
      var m := msgs[|msgs| - 1];
      var b := ProcessMessages(db, channelId, msgs);
      ProcessLast(db, channelId, msgs);
      ProcessRecordsAcked(db, channelId, init);
      StepGames(prev.db, channelId, m);
      NewRowsLast(msgs, b.log);
      assert b.log[..|b.log| - 1] == prev.log;
    }
  }

  /**
    After a run of messages the channel's cursor is the id of the last
    message whose call completed, or unchanged when every call raised.
  */
  lemma {:induction false} ProcessMovesCursor(db: Database, channelId: nat, msgs: seq<Message>)
    ensures var b := ProcessMessages(db, channelId, msgs);
      var n := ResumeIndex(b.log);
      GetLastParsedMessage(b.db, channelId) == (if n > 0 then Some(msgs[n - 1].id) else GetLastParsedMessage(db, channelId))
    decreases |msgs|
  {
    if |msgs| > 0 {
      var init := msgs[..|msgs| - 1];
      var prev := ProcessMessages(db, channelId, init);
      var b := ProcessMessages(db, channelId, msgs);
      var e := b.log[|msgs| - 1];
      LastCursor(db, channelId, msgs);
      ResumeIndexLast(prev.log, e);
      if !e.outcome.Completed? {
        ProcessMovesCursor(db, channelId, init);
        assert forall i | 0 <= i < |init| :: init[i] == msgs[i];
      }
    }
  }

  /** The last message of a run moves the cursor to itself exactly when its call completes. */
  lemma LastCursor(db: Database, channelId: nat, msgs: seq<Message>)
    requires |msgs| > 0
    ensures var b := ProcessMessages(db, channelId, msgs);
      var prev := ProcessMessages(db, channelId, msgs[..|msgs| - 1]);
      var e := b.log[|msgs| - 1];
      && b.log == prev.log + [e]
      && (e.outcome.Completed? ==> GetLastParsedMessage(b.db, channelId) == Some(msgs[|msgs| - 1].id))
      && (!e.outcome.Completed? ==> GetLastParsedMessage(b.db, channelId) == GetLastParsedMessage(prev.db, channelId))
  {
    var prev := ProcessMessages(db, channelId, msgs[..|msgs| - 1]);
    ProcessLast(db, channelId, msgs);
    StepCursor(prev.db, channelId, msgs[|msgs| - 1]);
  }

  /** A run of messages on one channel leaves every other channel's cursor where it was. */
  lemma {:induction false} ProcessKeepsOtherCursors(db: Database, channelId: nat, msgs: seq<Message>, other: nat)
    requires other != channelId
    ensures GetLastParsedMessage(ProcessMessages(db, channelId, msgs).db, other) == GetLastParsedMessage(db, other)
    decreases |msgs|
  {
    if |msgs| > 0 {
      var init := msgs[..|msgs| - 1];
      ProcessLast(db, channelId, msgs);
      ProcessKeepsOtherCursors(db, channelId, init, other);
      StepCursor(ProcessMessages(db, channelId, init).db, channelId, msgs[|msgs| - 1]);
    }
  }

  lemma ResumeIndexLast(log: seq<LogEntry>, e: LogEntry)
    ensures ResumeIndex(log + [e]) == if e.outcome.Completed? then |log| + 1 else ResumeIndex(log)
  {
    assert (log + [e])[..|log|] == log;
  }

  /** `ProcessMessages` on a non-empty run: the run without its last message, then that message. */
  lemma ProcessLast(db: Database, channelId: nat, msgs: seq<Message>)
    requires |msgs| > 0
    ensures var prev := ProcessMessages(db, channelId, msgs[..|msgs| - 1]);
      var m := msgs[|msgs| - 1];
      var step := ParseMessage(prev.db, channelId, m.authorName, m.authorId, m.id, m.content);
      ProcessMessages(db, channelId, msgs) == Batch(step.db, prev.log + [LogEntry(m.id, step.outcome)])
  {
  }

  lemma NewRowsLast(msgs: seq<Message>, log: seq<LogEntry>)
    requires |log| == |msgs| > 0
    ensures var m := msgs[|msgs| - 1];
      NewRows(msgs, log) == NewRows(msgs[..|msgs| - 1], log[..|log| - 1])
        + (if log[|log| - 1].outcome == Completed(true) && Recorded(m).Some? then [Recorded(m).value] else [])
  {
  }

  /** One message appends its row to Games exactly when its call returns True. */
  lemma StepGames(db: Database, channelId: nat, m: Message)
    ensures var step := ParseMessage(db, channelId, m.authorName, m.authorId, m.id, m.content);
      step.db.games == db.games
        + (if step.outcome == Completed(true) && Recorded(m).Some? then [Recorded(m).value] else [])
  {
    ParseMessageWrites(db, channelId, m.authorName, m.authorId, m.id, m.content);
  }

  /** One message moves the channel's cursor to itself exactly when its call completes. */
  lemma StepCursor(db: Database, channelId: nat, m: Message)
    ensures var step := ParseMessage(db, channelId, m.authorName, m.authorId, m.id, m.content);
      && GetLastParsedMessage(step.db, channelId) ==
           (if step.outcome.Completed? then Some(m.id) else GetLastParsedMessage(db, channelId))
      && forall other | other != channelId :: GetLastParsedMessage(step.db, other) == GetLastParsedMessage(db, other)
  {
    ParseMessageWrites(db, channelId, m.authorName, m.authorId, m.id, m.content);
  }

  lemma ProcessStep(db: Database, channelId: nat, msgs: seq<Message>, i: nat)
    requires i < |msgs|
    ensures var prev := ProcessMessages(db, channelId, msgs[..i]);
      var m := msgs[i];
      var step := ParseMessage(prev.db, channelId, m.authorName, m.authorId, m.id, m.content);
      ProcessMessages(db, channelId, msgs[..i + 1]) == Batch(step.db, prev.log + [LogEntry(m.id, step.outcome)])
  {
    assert msgs[..i + 1][..i] == msgs[..i];
    ProcessLast(db, channelId, msgs[..i + 1]);
  }

  lemma AcksSnoc(log: seq<LogEntry>, e: LogEntry)
    ensures Acks(log + [e]) == Acks(log) + (if e.outcome == Completed(true) then [e.messageId] else [])
  {
    assert (log + [e])[..|log|] == log;
  }

  /**
    `poll_new_messages`: reads the cursor, gathers every later message and
    feeds them to `ParseMessage` one by one, reacting to those that return
    True and swallowing exceptions. The cursor ends at the last message
    whose call completed; the new Games rows are exactly those of the
    reacted-to messages; the invariants of the tables are kept.
  */
  method PollNewMessages(db: Database, channelId: nat, channel: seq<Message>)
    returns (b: Batch, reactions: seq<nat>)
    requires Chronological(channel)
    ensures var msgs := Since(channel, GetLastParsedMessage(db, channelId));
      && b == ProcessMessages(db, channelId, msgs)
      && b.db.games == db.games + NewRows(msgs, b.log)
      && GetLastParsedMessage(b.db, channelId) ==
           (if ResumeIndex(b.log) > 0 then Some(msgs[ResumeIndex(b.log) - 1].id)
            else GetLastParsedMessage(db, channelId))
    ensures reactions == Acks(b.log)
    ensures forall other | other != channelId :: GetLastParsedMessage(b.db, other) == GetLastParsedMessage(db, other)
    ensures Valid(db) ==> Valid(b.db)
    ensures Valid(db) && Consistent(db) ==> Consistent(b.db)
  {
    var last := GetLastParsedMessage(db, channelId);
    var messages := GetAllMessagesSinceMessage(channel, last);
    b := Batch(db, []);
    reactions := [];
    var i := 0;
    while i < |messages|
      invariant 0 <= i <= |messages|
      invariant b == ProcessMessages(db, channelId, messages[..i])
      invariant reactions == Acks(b.log)
    {
      var m := messages[i];
      var step := ParseMessage(b.db, channelId, m.authorName, m.authorId, m.id, m.content);
      ProcessStep(db, channelId, messages, i);
      AcksSnoc(b.log, LogEntry(m.id, step.outcome));
      b := Batch(step.db, b.log + [LogEntry(m.id, step.outcome)]);
      if step.outcome == Completed(true) {
        reactions := reactions + [m.id];
      }
      i := i + 1;
    }
    assert messages[..i] == messages;
    ProcessRecordsAcked(db, channelId, messages);
    ProcessMovesCursor(db, channelId, messages);
    forall other | other != channelId
      ensures GetLastParsedMessage(b.db, other) == GetLastParsedMessage(db, other)
    {
      ProcessKeepsOtherCursors(db, channelId, messages, other);
    }
    if Valid(db) {
      ProcessKeepsInvariants(db, channelId, messages);
    }
  }

  /**
    The next poll over the same channel starts right after the last message
    whose call completed: the messages that raised after it are read again,
    and when the last message completed nothing is left to read.
  */
  lemma NextPollResumes(db: Database, channelId: nat, channel: seq<Message>)
    requires Chronological(channel)
    ensures var msgs := Since(channel, GetLastParsedMessage(db, channelId));
      var b := ProcessMessages(db, channelId, msgs);
      Since(channel, GetLastParsedMessage(b.db, channelId)) == msgs[ResumeIndex(b.log)..]
  {
    var msgs := Since(channel, GetLastParsedMessage(db, channelId));
    var b := ProcessMessages(db, channelId, msgs);
    ProcessMovesCursor(db, channelId, msgs);
    var n := ResumeIndex(b.log);
    if n > 0 {
      SinceAfterPrefix(channel, GetLastParsedMessage(db, channelId), n);
    }
  }

  // ---------------------------------------------------------------------
  // Slash commands
  // ---------------------------------------------------------------------

  /** `user_history`'s `None if limit == 0 else limit`: 0 asks for every game. */
  function HistoryLimit(limit: nat): (r: Option<nat>)
    ensures r.None? <==> limit == 0
    ensures r.Some? ==> r.value == limit
  {
    if limit == 0 then None else Some(limit)
  }

  /**
    What `user_history` shows: every game for limit 0, else at most `limit`
    newest games; nothing (the "has not played" reply) exactly when the
    username has no game.
  */
  lemma UserHistoryLength(db: Database, username: string, limit: nat)
    ensures var h := GetUserGameHistory(db, username, HistoryLimit(limit));
      var all := |Joined(db, username)|;
      && |h| == (if limit == 0 || all < limit then all else limit)
      && (|h| == 0 <==> !HasGames(db, username))
  {
  }

  /** A leaderboard line: `(ranking + 1,) + user_data`. */
  datatype RankedRow = RankedRow(rank: nat, username: string, net: int, gameCount: nat)

  /** `enumerate(res)` with ranks counted from 1. */
  function Ranked(board: seq<ScoreRow>): (r: seq<RankedRow>)
    ensures |r| == |board|
    ensures forall i | 0 <= i < |r| ::
      r[i] == RankedRow(i + 1, board[i].username, board[i].net, board[i].gameCount)
  {
    seq(|board|, i requires 0 <= i < |board| =>
      RankedRow(i + 1, board[i].username, board[i].net, board[i].gameCount))
  }

  /**
    The leaderboard table ranks 1 to n; a better rank never has a worse
    par; each username with a game appears on exactly one line, and no other.
  */
  lemma LeaderboardRanks(db: Database)
    ensures var r := Ranked(GenerateLeaderboard(db));
      && (forall i | 0 <= i < |r| :: 1 <= r[i].rank <= |r|)
      && (forall a, b | 0 <= a < b < |r| :: r[a].rank < r[b].rank && r[a].net <= r[b].net)
      && (forall a, b | 0 <= a < b < |r| :: r[a].username != r[b].username)
      && (forall name :: (exists i | 0 <= i < |r| :: r[i].username == name) <==> HasGames(db, name))
  {
    var board := GenerateLeaderboard(db);
    BoardDistinct(db);
    RankedNames(board);
  }

  /** No username is on the leaderboard twice. */
  lemma BoardDistinct(db: Database)
    ensures var board := GenerateLeaderboard(db);
      forall a, b | 0 <= a < b < |board| :: board[a].username != board[b].username
  {
    DistinctNamesPermuted(GenerateLeaderboard(db), GetAllUserScores(db));
  }

  /** A permutation of rows with distinct usernames has distinct usernames. */
  lemma DistinctNamesPermuted(board: seq<ScoreRow>, scores: seq<ScoreRow>)
    requires multiset(board) == multiset(scores)
    requires forall a, b | 0 <= a < b < |scores| :: scores[a].username != scores[b].username
    ensures forall a, b | 0 <= a < b < |board| :: board[a].username != board[b].username
  {
    PermutationDistinct(board, scores);
    forall a, b | 0 <= a < b < |board| ensures board[a].username != board[b].username {
      assert board[a] in multiset(scores);
      assert board[b] in multiset(scores);
      var p :| 0 <= p < |scores| && scores[p] == board[a];
      var q :| 0 <= q < |scores| && scores[q] == board[b];
    }
  }

  /** A username is on a ranked line exactly when it is on the board. */
  lemma RankedNames(board: seq<ScoreRow>)
    ensures forall name :: (exists i | 0 <= i < |Ranked(board)| :: Ranked(board)[i].username == name) <==> name in Usernames(board)
  {
    var r := Ranked(board);
    forall name ensures (exists i | 0 <= i < |r| :: r[i].username == name) <==> name in Usernames(board) {
      if name in Usernames(board) {
        var i :| 0 <= i < |board| && Usernames(board)[i] == name;
        assert r[i].username == name;
      }
      if exists i | 0 <= i < |r| :: r[i].username == name {
        var i :| 0 <= i < |r| && r[i].username == name;
        assert Usernames(board)[i] == name;
      }
    }
  }

  /** A permutation of a sequence without repeats has no repeats. */
  lemma PermutationDistinct<T>(xs: seq<T>, ys: seq<T>)
    requires multiset(xs) == multiset(ys)
    requires forall a, b | 0 <= a < b < |ys| :: ys[a] != ys[b]
    ensures forall a, b | 0 <= a < b < |xs| :: xs[a] != xs[b]
  {
    forall a, b | 0 <= a < b < |xs| ensures xs[a] != xs[b] {
      Sorting.MultisetSplit(xs, b);
      assert xs[a] in multiset(xs[..b]);
      assert xs[b] in multiset(xs[b..]);
      if xs[a] == xs[b] {
        AtMostOnce(ys, xs[a]);
      }
    }
  }

  /** In a sequence without repeats every value occurs at most once. */
  lemma {:induction false} AtMostOnce<T>(xs: seq<T>, v: T)
    requires forall a, b | 0 <= a < b < |xs| :: xs[a] != xs[b]
    ensures multiset(xs)[v] <= 1
    decreases |xs|
  {
    if |xs| > 0 {
      var last := |xs| - 1;
      assert xs == xs[..last] + [xs[last]];
      AtMostOnce(xs[..last], v);
      if xs[last] == v {
        assert v !in xs[..last];
      }
    }
  }
}
