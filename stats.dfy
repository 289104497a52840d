/** The players' statistics: what one finished game adds to them, the
    invariants they keep, and what they say about the games played so far. */
module Statistics {
  import opened GameTypes
  import opened GameLogic

  function Max(a: nat, b: nat): nat {
    if a >= b then a else b
  }

  /** `guessDistribution[n] || 0`: a missing entry counts as zero. */
  function Tally(d: map<int, nat>, n: int): nat {
    if n in d then d[n] else 0
  }

  /** `updateStats(won, attempts)`: one more game played; a win extends the
      streak, raises the best streak to it and counts one more win in
      `attempts` guesses, while a loss ends the streak. */
  function RecordGame(s: Stats, won: bool, attempts: int): (r: Stats)
    ensures r.gamesPlayed == s.gamesPlayed + 1
    ensures r.gamesWon == s.gamesWon + (if won then 1 else 0)
    ensures r.currentStreak == 0 <==> !won
    ensures s.maxStreak <= r.maxStreak && r.currentStreak <= r.maxStreak
    ensures !won ==> r.maxStreak == s.maxStreak
  {
    if won then
      var streak := s.currentStreak + 1;
      Stats(s.gamesPlayed + 1, s.gamesWon + 1, streak, Max(s.maxStreak, streak),
            s.guessDistribution[attempts := Tally(s.guessDistribution, attempts) + 1])
    else
      Stats(s.gamesPlayed + 1, s.gamesWon, 0, s.maxStreak, s.guessDistribution)
  }

  /** A win adds one to the distribution entry of its guess count,
      a missing entry counting as zero, and leaves every other entry alone;
      a loss leaves the distribution alone. */
  lemma RecordGameTally(s: Stats, won: bool, attempts: int, n: int)
    ensures Tally(RecordGame(s, won, attempts).guessDistribution, n)
         == Tally(s.guessDistribution, n) + (if won && n == attempts then 1 else 0)
  {
  }

  // ---------------------------------------------------------------------------
  // Invariants
  // ---------------------------------------------------------------------------

  /** Wins recorded in the distribution for 1 to `m` guesses. */
  function TallyUpTo(d: map<int, nat>, m: nat): nat {
    if m == 0 then 0 else TallyUpTo(d, m - 1) + Tally(d, m)
  }

  /** Statistics that can arise from play: wins never exceed games, the current
      streak never exceeds the best one, which never exceeds the wins, and the
      distribution counts every win once under a guess count from 1 to 6. */
  ghost predicate StatsValid(s: Stats) {
    && s.gamesWon <= s.gamesPlayed
    && s.currentStreak <= s.maxStreak <= s.gamesWon
    && (forall n :: n in s.guessDistribution ==> 1 <= n <= MaxAttempts)
    && TallyUpTo(s.guessDistribution, MaxAttempts) == s.gamesWon
  }

  lemma ZeroStatsValid()
    ensures StatsValid(ZeroStats)
  {
  }

  /** Raising one entry of the distribution raises the sum when that entry is
      among the first `m`, and leaves it alone otherwise. */
  lemma {:induction false} TallyUpToUpdate(d: map<int, nat>, n: int, m: nat)
    ensures TallyUpTo(d[n := Tally(d, n) + 1], m) == TallyUpTo(d, m) + (if 1 <= n <= m then 1 else 0)
  {
    if m > 0 {
      TallyUpToUpdate(d, n, m - 1);
    }
  }

  /** A game won in 1 to 6 guesses, or lost, keeps the statistics valid. */
  lemma RecordGamePreservesValid(s: Stats, won: bool, attempts: int)
    requires StatsValid(s)
    requires won ==> 1 <= attempts <= MaxAttempts
    ensures StatsValid(RecordGame(s, won, attempts))
  {
    if won {
      TallyUpToUpdate(s.guessDistribution, attempts, MaxAttempts);
    }
  }

  // ---------------------------------------------------------------------------
  // What the statistics say about a history of games
  // ---------------------------------------------------------------------------

  /** One finished game, as `updateStats` receives it. */
  datatype GameRecord = GameRecord(won: bool, guesses: int)

  /** The statistics after a history of games, starting from zero. */
  function Replay(h: seq<GameRecord>): Stats {
    if h == [] then ZeroStats
    else RecordGame(Replay(h[..|h| - 1]), h[|h| - 1].won, h[|h| - 1].guesses)
  }

  function Wins(h: seq<GameRecord>): nat {
    if h == [] then 0 else Wins(h[..|h| - 1]) + (if h[|h| - 1].won then 1 else 0)
  }

  function WinsWith(h: seq<GameRecord>, n: int): nat {
    if h == [] then 0 else WinsWith(h[..|h| - 1], n) + (if h[|h| - 1].won && h[|h| - 1].guesses == n then 1 else 0)
  }

  predicate AllWon(h: seq<GameRecord>) {
    forall i :: 0 <= i < |h| ==> h[i].won
  }

  /** Games played, games won and the distribution count the history. */
  lemma {:induction false} ReplayCounts(h: seq<GameRecord>)
    ensures Replay(h).gamesPlayed == |h|
    ensures Replay(h).gamesWon == Wins(h)
    ensures forall n :: Tally(Replay(h).guessDistribution, n) == WinsWith(h, n)
  {
    if h != [] {
      ReplayCounts(h[..|h| - 1]);
    }
  }

  /** The current streak is the run of wins that ends the history: those
      games are all won and the game before them, if any, was lost. */
  lemma {:induction false} ReplayCurrentStreak(h: seq<GameRecord>)
    ensures Replay(h).currentStreak <= |h|
    ensures AllWon(h[|h| - Replay(h).currentStreak..])
    ensures Replay(h).currentStreak < |h| ==> !h[|h| - Replay(h).currentStreak - 1].won
  {
    if h != [] {
      var p := h[..|h| - 1];
      ReplayCurrentStreak(p);
      var c := Replay(p).currentStreak;
      if h[|h| - 1].won {
        assert h[|h| - (c + 1)..] == p[|p| - c..] + [h[|h| - 1]];
      }
    }
  }

  /** A window of the history that ends at the last game and is all won is
      no longer than the current streak. */
  lemma TrailingRunBound(h: seq<GameRecord>, i: nat)
    requires i <= |h|
    requires AllWon(h[i..])
    ensures |h| - i <= Replay(h).currentStreak
  {
    ReplayCurrentStreak(h);
  }

  /** The `n` games from index `i` on are all won. */
  predicate RunAt(h: seq<GameRecord>, i: nat, n: nat) {
    i + n <= |h| && AllWon(h[i..i + n])
  }

  /** A window of all wins before the last game is one of the whole history. */
  lemma RunAtExtends(h: seq<GameRecord>, i: nat, n: nat)
    requires h != [] && RunAt(h[..|h| - 1], i, n)
    ensures RunAt(h, i, n)
  {
    var p := h[..|h| - 1];
    assert i + n <= |p|;
    assert h[i..i + n] == p[i..i + n];
  }

  /** The best streak bounds every all-won window of the history. */
  lemma {:induction false} ReplayMaxStreakBound(h: seq<GameRecord>)
    ensures forall i, j :: 0 <= i <= j <= |h| && AllWon(h[i..j]) ==> j - i <= Replay(h).maxStreak
  {
    if h != [] {
      var p := h[..|h| - 1];
      ReplayMaxStreakBound(p);
      ReplayCurrentStreak(h);
      forall i, j | 0 <= i <= j <= |h| && AllWon(h[i..j])
        ensures j - i <= Replay(h).maxStreak
      {
        if j == |h| {
          assert h[i..j] == h[i..];
          TrailingRunBound(h, i);
        } else {
          assert p[i..j] == h[i..j];
        }
      }
    }
  }

  /** Some all-won window of the history is exactly as long as the best streak. */
  lemma {:induction false} ReplayMaxStreakAttained(h: seq<GameRecord>)
    ensures exists i :: 0 <= i <= |h| && RunAt(h, i, Replay(h).maxStreak)
  {
    if h == [] {
      assert Replay(h).maxStreak == 0;
      assert RunAt(h, 0, 0);
    } else {
      var p := h[..|h| - 1];
      ReplayMaxStreakAttained(p);
      ReplayCurrentStreak(h);
      var m := Replay(h).maxStreak;
      var c := Replay(h).currentStreak;
      assert m == c || m == Replay(p).maxStreak;
      if m == c {
        assert RunAt(h, |h| - c, m);
      } else {
        var i :| 0 <= i <= |p| && RunAt(p, i, m);
        RunAtExtends(h, i, m);
      }
    }
  }

  /** Every history of wins in 1 to 6 guesses and losses yields valid
      statistics. */
  lemma {:induction false} ReplayValid(h: seq<GameRecord>)
    requires forall i :: 0 <= i < |h| ==> h[i].won ==> 1 <= h[i].guesses <= MaxAttempts
    ensures StatsValid(Replay(h))
  {
    if h != [] {
      ReplayValid(h[..|h| - 1]);
      RecordGamePreservesValid(Replay(h[..|h| - 1]), h[|h| - 1].won, h[|h| - 1].guesses);
    }
  }

  /** A win in three guesses followed by a loss. */
  lemma WinThenLossExample()
    ensures Replay([GameRecord(true, 3), GameRecord(false, 6)]) == Stats(2, 1, 0, 1, map[3 := 1])
  {
    var h := [GameRecord(true, 3), GameRecord(false, 6)];
    assert h[..1] == [GameRecord(true, 3)];
    assert h[..1][..0] == [];
  }
}
