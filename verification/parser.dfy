/**
  The result parser of `WordleStats._parseWordleGame` (database.py).

  `_parseWordleGame` runs `re.search` with the pattern `Wordle (\d+) (.)/6.*` and then
  converts the two groups with Python's `int`. The regex is specified here
  declaratively (`MatchSpan`, `LeftmostMatch`) and implemented by a scan over
  start positions; `ParseWordleGame` is proved to follow the specification.
  Digits are ASCII digits only.
*/
module Parser {
  import opened Wrappers

  /** The score recorded for a lost game, whose outcome character is 'X'. */
  const LossScore: nat := 7

  /** The literal text every match starts with. */
  const Prefix: string := "Wordle "

  /** A parsed result, the `(game_id, score, won)` tuple `_parseWordleGame` returns. */
  datatype GameResult = GameResult(gameId: nat, score: nat, won: bool)

  /** `int(outcome)` raised ValueError: the outcome is neither 'X' nor a digit. */
  datatype ParseError = InvalidOutcome(outcome: char)

  predicate IsDigit(c: char) {
    '0' <= c <= '9'
  }

  function DigitValue(c: char): (d: nat)
    requires IsDigit(c)
    ensures d <= 9
  {
    c as int - '0' as int
  }

  function DigitChar(d: nat): (c: char)
    requires d <= 9
    ensures IsDigit(c) && DigitValue(c) == d
  {
    ('0' as int + d) as char
  }

  predicate AllDigits(s: string) {
    forall k | 0 <= k < |s| :: IsDigit(s[k])
  }

  /** Python's `int` of a run of ASCII digits; leading zeros are allowed. */
  function Number(digits: string): nat
    requires AllDigits(digits)
  {
    if |digits| == 0 then 0
    else Number(digits[..|digits| - 1]) * 10 + DigitValue(digits[|digits| - 1])
  }

  // ---------------------------------------------------------------------
  // The regular expression, stated declaratively
  // ---------------------------------------------------------------------

  /**
    The pattern matches `s` starting at `i` with group 1 = `s[i + 7..j]`
    (one or more digits) and group 2 = `s[j + 1]` (any character but a
    newline). The trailing `.*` accepts any rest of the line.
  */
  predicate MatchSpan(s: string, i: int, j: int) {
    && 0 <= i
    && i + |Prefix| < j
    && j + 4 <= |s|
    && s[i..i + |Prefix|] == Prefix
    && AllDigits(s[i + |Prefix|..j])
    && s[j] == ' '
    && s[j + 1] != '\n'
    && s[j + 2] == '/'
    && s[j + 3] == '6'
  }

  predicate MatchesAt(s: string, i: int) {
    exists j | i + |Prefix| < j <= |s| - 4 :: MatchSpan(s, i, j)
  }

  /** No occurrence of the pattern anywhere in `s`. */
  predicate NoMatch(s: string) {
    forall i | 0 <= i <= |s| :: !MatchesAt(s, i)
  }

  /** The match `re.search` reports: the one that starts leftmost. */
  predicate LeftmostMatch(s: string, i: int, j: int) {
    MatchSpan(s, i, j) && forall k | 0 <= k < i :: !MatchesAt(s, k)
  }

  // ---------------------------------------------------------------------
  // The scan
  // ---------------------------------------------------------------------

  /** The end of the maximal run of digits starting at `k`. */
  function DigitRunEnd(s: string, k: nat): (e: nat)
    requires k <= |s|
    ensures k <= e <= |s|
    ensures forall m | k <= m < e :: IsDigit(s[m])
    ensures e == |s| || !IsDigit(s[e])
    decreases |s| - k
  {
    if k < |s| && IsDigit(s[k]) then DigitRunEnd(s, k + 1) else k
  }

  lemma DigitSlice(s: string, a: int, b: int)
    requires 0 <= a <= b <= |s|
    ensures AllDigits(s[a..b]) <==> forall m | a <= m < b :: IsDigit(s[m])
  {
    assert forall m | a <= m < b :: s[a..b][m - a] == s[m];
  }

  /**
    `\d+` can only end at the end of the maximal digit run, because the
    character after the group must be a space: a match at `i` has one span.
  */
  lemma SpanEndIsRunEnd(s: string, i: int, j: int)
    requires MatchSpan(s, i, j)
    ensures j == DigitRunEnd(s, i + |Prefix|)
  {
    DigitSlice(s, i + |Prefix|, j);
  }

  /** The span of the match at `i`, if the pattern matches there. */
  function MatchEnd(s: string, i: nat): (r: Option<nat>)
    requires i <= |s|
    ensures r.None? <==> !MatchesAt(s, i)
    ensures r.Some? ==> MatchSpan(s, i, r.value)
  {
    if i + |Prefix| <= |s| && s[i..i + |Prefix|] == Prefix then
      var j := DigitRunEnd(s, i + |Prefix|);
      if i + |Prefix| < j && j + 4 <= |s| && s[j] == ' ' && s[j + 1] != '\n'
         && s[j + 2] == '/' && s[j + 3] == '6'
      then
        DigitSlice(s, i + |Prefix|, j);
        assert MatchSpan(s, i, j);
        Some(j)
      else
        assert !MatchesAt(s, i) by {
          forall j' | i + |Prefix| < j' <= |s| - 4 && MatchSpan(s, i, j')
            ensures false
          {
            SpanEndIsRunEnd(s, i, j');
          }
        }
        None
    else None
  }

  /** The leftmost match starting at or after `from`, as (start, span end). */
  function FindFrom(s: string, from: nat): (r: Option<(nat, nat)>)
    requires from <= |s|
    ensures r.None? <==> forall i | from <= i <= |s| :: !MatchesAt(s, i)
    ensures r.Some? ==> from <= r.value.0 && MatchSpan(s, r.value.0, r.value.1)
    ensures r.Some? ==> forall i | from <= i < r.value.0 :: !MatchesAt(s, i)
    decreases |s| - from
  {
    match MatchEnd(s, from)
    case Some(j) => Some((from, j))
    case None => if from == |s| then None else FindFrom(s, from + 1)
  }

  /** Two leftmost matches are the same match. */
  lemma LeftmostUnique(s: string, i: int, j: int, i': int, j': int)
    requires LeftmostMatch(s, i, j) && LeftmostMatch(s, i', j')
    ensures i == i' && j == j'
  {
    if i < i' {
      assert MatchesAt(s, i);
    } else if i' < i {
      assert MatchesAt(s, i');
    }
    SpanEndIsRunEnd(s, i, j);
    SpanEndIsRunEnd(s, i', j');
  }

  /**
    `_parseWordleGame`: `None` exactly when the pattern occurs nowhere;
    otherwise the leftmost match decides. 'X' is a loss scored 7; a digit is
    a win scored by its value (so '0', '7', '8' and '9' are accepted too);
    any other character makes `int` raise before anything is returned.
  */
  function ParseWordleGame(text: string): (r: Result<Option<GameResult>, ParseError>)
    ensures r == Success(None) <==> NoMatch(text)
    ensures forall i, j | LeftmostMatch(text, i, j) ::
      && (text[j + 1] == 'X' ==>
            r == Success(Some(GameResult(Number(text[i + |Prefix|..j]), LossScore, false))))
      && (IsDigit(text[j + 1]) ==>
            r == Success(Some(GameResult(Number(text[i + |Prefix|..j]), DigitValue(text[j + 1]), true))))
      && (text[j + 1] != 'X' && !IsDigit(text[j + 1]) ==>
            r == Failure(InvalidOutcome(text[j + 1])))
    ensures r.Success? && r.value.Some? ==>
      if r.value.value.won then r.value.value.score <= 9 else r.value.value.score == LossScore
  {
    match FindFrom(text, 0)
    case None =>
      assert forall i, j | MatchSpan(text, i, j) :: MatchesAt(text, i);
      Success(None)
    case Some((i, j)) =>
      assert LeftmostMatch(text, i, j);
      assert forall i', j' | LeftmostMatch(text, i', j') :: i' == i && j' == j by {
        forall i', j' | LeftmostMatch(text, i', j') ensures i' == i && j' == j {
          LeftmostUnique(text, i, j, i', j');
        }
      }
      var outcome := text[j + 1];
      var gameId := Number(text[i + |Prefix|..j]);
      if outcome == 'X' then Success(Some(GameResult(gameId, LossScore, false)))
      else if IsDigit(outcome) then Success(Some(GameResult(gameId, DigitValue(outcome), true)))
      else Failure(InvalidOutcome(outcome))
  }

  // ---------------------------------------------------------------------
  // Round trip with the shared result line
  // ---------------------------------------------------------------------

  /** Decimal rendering of a natural number, without leading zeros. */
  function ShowNat(n: nat): (s: string)
    ensures |s| > 0 && AllDigits(s)
    decreases n
  {
    if n < 10 then [DigitChar(n)]
    else
      var s := ShowNat(n / 10) + [DigitChar(n % 10)];
      assert forall k | 0 <= k < |s| - 1 :: s[k] == ShowNat(n / 10)[k];
      s
  }

  lemma {:induction false} NumberOfShowNat(n: nat)
    ensures Number(ShowNat(n)) == n
    decreases n
  {
    if n >= 10 {
      var s := ShowNat(n);
      assert s[..|s| - 1] == ShowNat(n / 10);
      NumberOfShowNat(n / 10);
    }
  }

  /** A result the parser can produce. */
  predicate Parsable(g: GameResult) {
    if g.won then g.score <= 9 else g.score == LossScore
  }

  /** The outcome character for a result: its digit, or 'X' for a loss. */
  function OutcomeChar(g: GameResult): (c: char)
    requires Parsable(g)
    ensures c == 'X' || IsDigit(c)
  {
    if g.won then DigitChar(g.score) else 'X'
  }

  /** The line the game shares for a result, e.g. `Wordle 245 3/6`. */
  function ShareLine(gameId: nat, outcome: char): string {
    Prefix + ShowNat(gameId) + " " + [outcome] + "/6"
  }

  /** A share line at the start of a message is the leftmost match. */
  lemma ShareLineMatches(gameId: nat, outcome: char, rest: string)
    requires outcome != '\n'
    ensures
      var s := ShareLine(gameId, outcome) + rest;
      var j := |Prefix| + |ShowNat(gameId)|;
      LeftmostMatch(s, 0, j) && s[|Prefix|..j] == ShowNat(gameId) && s[j + 1] == outcome
  {
    var s := ShareLine(gameId, outcome) + rest;
    var digits := ShowNat(gameId);
    var j := |Prefix| + |digits|;
    assert s == Prefix + digits + [' ', outcome, '/', '6'] + rest;
    assert s[..|Prefix|] == Prefix;
    assert s[|Prefix|..j] == digits;
    assert MatchSpan(s, 0, j);
  }

  /** Parsing a share line, followed by any text, gives back the result. */
  lemma {:induction false} ShareLineRoundTrip(g: GameResult, rest: string)
    requires Parsable(g)
    ensures ParseWordleGame(ShareLine(g.gameId, OutcomeChar(g)) + rest) == Success(Some(g))
  {
    ShareLineMatches(g.gameId, OutcomeChar(g), rest);
    NumberOfShowNat(g.gameId);
  }

  /** An outcome that is neither a digit nor 'X' (a lower-case 'x', say) raises. */
  lemma {:induction false} UnknownOutcomeRaises(gameId: nat, outcome: char, rest: string)
    requires outcome != 'X' && outcome != '\n' && !IsDigit(outcome)
    ensures ParseWordleGame(ShareLine(gameId, outcome) + rest) == Failure(InvalidOutcome(outcome))
  {
    ShareLineMatches(gameId, outcome, rest);
  }
}
