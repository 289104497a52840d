/** The game state machine: a current game (target, attempts, the letters being
    typed, status, keyboard) and the statistics kept across games, with the
    transitions the component's handlers perform. */
module Game {
  import opened GameTypes
  import opened Strings
  import opened GameLogic
  import opened KeyboardMerge
  import opened Statistics

  /** The words a submission is checked against: the lower-case words of the
      word lists, or, in the older component, every word. */
  datatype Dictionary = AnyWord | WordList(words: set<string>)

  /** `VALID_WORDS.includes(attempt.toLowerCase())`. */
  predicate Accepts(d: Dictionary, attempt: string) {
    match d
    case AnyWord => true
    case WordList(words) => ToLower(attempt) in words
  }

  /** The status after the `count`-th attempt: won by guessing the target,
      lost when the attempts run out without it, playing otherwise. */
  function Outcome(attempt: string, target: string, count: nat): Status {
    if attempt == target then Won else if count >= MaxAttempts then Lost else Playing
  }

  /** The status a history of attempts has led to. */
  function HistoryStatus(attempts: seq<string>, target: string): Status {
    if attempts == [] then Playing else Outcome(attempts[|attempts| - 1], target, |attempts|)
  }

  /** Only the last attempt of a history can be the target. */
  ghost predicate NoEarlyWin(attempts: seq<string>, target: string) {
    forall i :: 0 <= i < |attempts| - 1 ==> attempts[i] != target
  }

  /** A history that ends in a win leaves every letter of the target showing
      `Correct` on the keyboard. */
  lemma WonKeyboardAllCorrect(attempts: seq<string>, target: string, i: nat)
    requires HistoryStatus(attempts, target) == Won
    requires i < |target|
    ensures [target[i]] in KeyboardAfter(attempts, target)
    ensures KeyboardAfter(attempts, target)[[target[i]]] == Correct
  {
    var j := |attempts| - 1;
    assert attempts[j] == target;
    assert ExactAt(attempts[j], target, i);
    KeyboardAfterKeepsCorrect(attempts, target, j, i);
  }

  /** The state the handlers keep: at most five typed letters and six
      attempts, no typing after the game ends, every attempt a five-letter
      word of the dictionary, the status and the keyboard determined by the
      attempts, and the statistics those of the finished games. */
  ghost predicate GameValid(dictionary: Dictionary, target: string, attempts: seq<string>, currentAttempt: string,
                            status: Status, keyboard: Keyboard, stats: Stats, finished: seq<GameRecord>)
  {
    && |currentAttempt| <= WordLength
    && |attempts| <= MaxAttempts
    && (status != Playing ==> currentAttempt == [])
    && (forall i :: 0 <= i < |attempts| ==> |attempts[i]| == WordLength && Accepts(dictionary, attempts[i]))
    && NoEarlyWin(attempts, target)
    && status == HistoryStatus(attempts, target)
    && keyboard == KeyboardAfter(attempts, target)
    && (forall i :: 0 <= i < |finished| ==> finished[i].won ==> 1 <= finished[i].guesses <= MaxAttempts)
    && stats == Replay(finished)
  }

  /** A history still in play has fewer than six attempts, none of them the
      target. */
  lemma PlayingHistory(attempts: seq<string>, target: string)
    requires HistoryStatus(attempts, target) == Playing
    requires NoEarlyWin(attempts, target)
    ensures |attempts| < MaxAttempts
    ensures forall i :: 0 <= i < |attempts| ==> attempts[i] != target
  {
    if attempts != [] {
      assert attempts[|attempts| - 1] != target;
    }
  }

  /** Appending an attempt decides the status from that attempt and merges
      it into the keyboard the earlier attempts built. */
  lemma HistoryAppend(attempts: seq<string>, attempt: string, target: string)
    ensures HistoryStatus(attempts + [attempt], target) == Outcome(attempt, target, |attempts| + 1)
    ensures KeyboardAfter(attempts + [attempt], target) == Merge(KeyboardAfter(attempts, target), attempt, target)
  {
    var next := attempts + [attempt];
    assert next[..|next| - 1] == attempts;
    assert next[|next| - 1] == attempt;
  }

  /** Appending an attempt that is not the target to attempts none of which
      is the target keeps only the last one able to win. */
  lemma NoEarlyWinAppend(attempts: seq<string>, attempt: string, target: string)
    requires forall i :: 0 <= i < |attempts| ==> attempts[i] != target
    ensures NoEarlyWin(attempts + [attempt], target)
  {
    var next := attempts + [attempt];
    forall i | 0 <= i < |next| - 1
      ensures next[i] != target
    {
      assert next[i] == attempts[i];
    }
  }

  /** Appending a five-letter dictionary word keeps every attempt one. */
  lemma WordsAppend(dictionary: Dictionary, attempts: seq<string>, attempt: string)
    requires forall i :: 0 <= i < |attempts| ==> |attempts[i]| == WordLength && Accepts(dictionary, attempts[i])
    requires |attempt| == WordLength && Accepts(dictionary, attempt)
    ensures var next := attempts + [attempt];
            forall i :: 0 <= i < |next| ==> |next[i]| == WordLength && Accepts(dictionary, next[i])
  {
    var next := attempts + [attempt];
    forall i | 0 <= i < |next|
      ensures |next[i]| == WordLength && Accepts(dictionary, next[i])
    {
      if i < |attempts| {
        assert next[i] == attempts[i];
      }
    }
  }

  /** Recording one more finished game adds it to the replayed statistics,
      and keeps every win within 1 to 6 guesses when this one is. */
  lemma FinishedAppend(finished: seq<GameRecord>, r: GameRecord)
    requires forall i :: 0 <= i < |finished| ==> finished[i].won ==> 1 <= finished[i].guesses <= MaxAttempts
    requires r.won ==> 1 <= r.guesses <= MaxAttempts
    ensures Replay(finished + [r]) == RecordGame(Replay(finished), r.won, r.guesses)
    ensures var f := finished + [r];
            forall i :: 0 <= i < |f| ==> f[i].won ==> 1 <= f[i].guesses <= MaxAttempts
  {
    var f := finished + [r];
    assert f[..|f| - 1] == finished;
    assert f[|f| - 1] == r;
    forall i | 0 <= i < |f| && f[i].won
      ensures 1 <= f[i].guesses <= MaxAttempts
    {
      if i < |finished| {
        assert f[i] == finished[i];
      }
    }
  }

  /** Accepting a five-letter dictionary word during play keeps the state
      valid: the word is appended, the keyboard merged, the status decided,
      and a game that ends is recorded as won or lost in that many guesses. */
  lemma AcceptKeepsValid(dictionary: Dictionary, target: string, attempts: seq<string>, currentAttempt: string,
                         keyboard: Keyboard, stats: Stats, finished: seq<GameRecord>)
    requires GameValid(dictionary, target, attempts, currentAttempt, Playing, keyboard, stats, finished)
    requires |currentAttempt| == WordLength && Accepts(dictionary, currentAttempt)
    ensures var next := attempts + [currentAttempt];
            var status := Outcome(currentAttempt, target, |next|);
            var ended := status != Playing;
            GameValid(dictionary, target, next, [], status, Merge(keyboard, currentAttempt, target),
                      if ended then RecordGame(stats, status == Won, |next|) else stats,
                      if ended then finished + [GameRecord(status == Won, |next|)] else finished)
  {
    var next := attempts + [currentAttempt];
    PlayingHistory(attempts, target);
    HistoryAppend(attempts, currentAttempt, target);
    NoEarlyWinAppend(attempts, currentAttempt, target);
    WordsAppend(dictionary, attempts, currentAttempt);
    var status := Outcome(currentAttempt, target, |next|);
    assert |next| <= MaxAttempts;
    assert status == HistoryStatus(next, target);
    assert Merge(keyboard, currentAttempt, target) == KeyboardAfter(next, target);
    if status != Playing {
      FinishedAppend(finished, GameRecord(status == Won, |next|));
    }
  }

  /** A valid state keeps valid statistics (wins within games, the current
      streak within the best one) and a keyboard truthful about the target. */
  lemma ValidStateFacts(dictionary: Dictionary, target: string, attempts: seq<string>, currentAttempt: string,
                        status: Status, keyboard: Keyboard, stats: Stats, finished: seq<GameRecord>)
    requires GameValid(dictionary, target, attempts, currentAttempt, status, keyboard, stats, finished)
    ensures StatsValid(stats)
    ensures stats.gamesPlayed == |finished|
    ensures KeyboardConsistent(keyboard, target)
  {
    ReplayValid(finished);
    ReplayCounts(finished);
    KeyboardAfterConsistent(attempts, target);
  }

  class WordleGame {
    const dictionary: Dictionary
    var targetWord: string
    var attempts: seq<string>
    var currentAttempt: string
    var gameStatus: Status
    var keyboardState: Keyboard
    var stats: Stats
    /** The finished games that `stats` summarises, oldest first. */
    ghost var finished: seq<GameRecord>

    ghost predicate Valid()
      reads this
    {
      GameValid(dictionary, targetWord, attempts, currentAttempt, gameStatus, keyboardState, stats, finished)
    }

    /** A first game against `target`, with no statistics yet. */
    constructor (target: string, dictionary: Dictionary)
      ensures Valid()
      ensures this.dictionary == dictionary && targetWord == target
      ensures attempts == [] && currentAttempt == [] && gameStatus == Playing && keyboardState == map[]
      ensures stats == ZeroStats && finished == []
    {
      this.dictionary := dictionary;
      targetWord := target;
      attempts := [];
      currentAttempt := [];
      gameStatus := Playing;
      keyboardState := map[];
      stats := ZeroStats;
      finished := [];
    }

    /** `addLetter`: appends while playing and fewer than five letters are typed. */
    method AddLetter(letter: char)
      requires Valid()
      modifies this`currentAttempt
      ensures Valid()
      ensures currentAttempt == if gameStatus == Playing && |old(currentAttempt)| < WordLength
                                then old(currentAttempt) + [letter] else old(currentAttempt)
    {
      if gameStatus != Playing {
        return;
      }
      if |currentAttempt| < WordLength {
        currentAttempt := currentAttempt + [letter];
      }
    }

    /** `removeLetter`: drops the last typed letter while playing; nothing typed
        stays nothing typed. */
    method RemoveLetter()
      requires Valid()
      modifies this`currentAttempt
      ensures Valid()
      ensures gameStatus != Playing || old(currentAttempt) == [] ==> currentAttempt == old(currentAttempt)
      ensures gameStatus == Playing && old(currentAttempt) != [] ==>
                currentAttempt == old(currentAttempt)[..|old(currentAttempt)| - 1]
    {
      if gameStatus != Playing {
        return;
      }
      currentAttempt := Slice(currentAttempt, -1);
    }

    /** `updateStats`: records one finished game in the statistics, a win
        taking 1 to 6 guesses. */
    method UpdateStats(won: bool, attempts: int)
      requires Valid()
      requires won ==> 1 <= attempts <= MaxAttempts
      modifies this`stats, this`finished
      ensures Valid()
      ensures stats == RecordGame(old(stats), won, attempts)
      ensures finished == old(finished) + [GameRecord(won, attempts)]
    {
      var newStats := stats;
      newStats := newStats.(gamesPlayed := newStats.gamesPlayed + 1);
      if won {
        newStats := newStats.(gamesWon := newStats.gamesWon + 1);
        newStats := newStats.(currentStreak := newStats.currentStreak + 1);
        newStats := newStats.(maxStreak := Max(newStats.maxStreak, newStats.currentStreak));
        newStats := newStats.(guessDistribution :=
          newStats.guessDistribution[attempts := Tally(newStats.guessDistribution, attempts) + 1]);
      } else {
        newStats := newStats.(currentStreak := 0);
      }
      FinishedAppend(finished, GameRecord(won, attempts));
      stats := newStats;
      finished := finished + [GameRecord(won, attempts)];
    }

    /** `submitAttempt`. A submission is accepted exactly when the game is in
        play and the typed word has five letters and is in the dictionary. A
        rejected one changes nothing: a finished game is left silently, and a
        short or unknown word shakes the row. An accepted one appends the
        word, clears the typing, merges it into the keyboard, decides the
        status and, when that ends the game, records it in the statistics. */
    method SubmitAttempt() returns (accepted: bool)
      requires Valid()
      modifies this
      ensures Valid()
      ensures accepted <==> old(gameStatus) == Playing && |old(currentAttempt)| == WordLength
                            && Accepts(dictionary, old(currentAttempt))
      ensures !accepted ==> unchanged(this)
      ensures targetWord == old(targetWord)
      ensures accepted ==> attempts == old(attempts) + [old(currentAttempt)] && currentAttempt == []
      ensures accepted ==> keyboardState == Merge(old(keyboardState), old(currentAttempt), targetWord)
      ensures accepted ==> gameStatus == Outcome(old(currentAttempt), targetWord, |attempts|)
      ensures accepted && gameStatus != Playing ==>
                stats == RecordGame(old(stats), gameStatus == Won, |attempts|)
                && finished == old(finished) + [GameRecord(gameStatus == Won, |attempts|)]
      ensures accepted && gameStatus == Playing ==> stats == old(stats) && finished == old(finished)
    {
      if gameStatus != Playing || |currentAttempt| != WordLength {
        return false;
      }
      var isValidWord := Accepts(dictionary, currentAttempt);
      if !isValidWord {
        return false;
      }
      AcceptAttempt();
      accepted := true;
    }

    /** The accepted branch of `submitAttempt`: a five-letter dictionary word
        typed during play. */
    method AcceptAttempt()
      requires Valid()
      requires gameStatus == Playing && |currentAttempt| == WordLength && Accepts(dictionary, currentAttempt)
      modifies this
      ensures Valid()
      ensures targetWord == old(targetWord)
      ensures attempts == old(attempts) + [old(currentAttempt)] && currentAttempt == []
      ensures keyboardState == Merge(old(keyboardState), old(currentAttempt), targetWord)
      ensures gameStatus == Outcome(old(currentAttempt), targetWord, |attempts|)
      ensures gameStatus != Playing ==>
                stats == RecordGame(old(stats), gameStatus == Won, |attempts|)
                && finished == old(finished) + [GameRecord(gameStatus == Won, |attempts|)]
      ensures gameStatus == Playing ==> stats == old(stats) && finished == old(finished)
    {
      AcceptKeepsValid(dictionary, targetWord, attempts, currentAttempt, keyboardState, stats, finished);
      PlayingHistory(attempts, targetWord);
      var newAttempts := attempts + [currentAttempt];
      var newKeyboardState := MergeKeyboard(keyboardState, currentAttempt, targetWord);
      var isWon := currentAttempt == targetWord;
      var isLost := |newAttempts| >= MaxAttempts && !isWon;
      var newStatus := if isWon then Won else if isLost then Lost else Playing;
      assert newStatus == Outcome(currentAttempt, targetWord, |newAttempts|);
      assert 1 <= |newAttempts| <= MaxAttempts;
      if isWon || isLost {
        UpdateStats(isWon, |newAttempts|);
      }
      attempts := newAttempts;
      currentAttempt := [];
      gameStatus := newStatus;
      keyboardState := newKeyboardState;
    }

    /** `resetGame`: a fresh game against `newTarget`; the statistics carry over. */
    method ResetGame(newTarget: string)
      requires Valid()
      modifies this
      ensures Valid()
      ensures targetWord == newTarget
      ensures attempts == [] && currentAttempt == [] && gameStatus == Playing && keyboardState == map[]
      ensures stats == old(stats) && finished == old(finished)
    {
      targetWord := newTarget;
      attempts := [];
      currentAttempt := [];
      gameStatus := Playing;
      keyboardState := map[];
    }
  }
}
