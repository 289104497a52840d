/** The shared record types of the game: the per-letter feedback, the status of
    one game and the persistent statistics. */
module GameTypes {

  /** Feedback for one guessed letter; `Unused` marks a cell not yet evaluated. */
  datatype LetterState = Correct | Present | Absent | Unused

  datatype Status = Playing | Won | Lost

  /** Statistics kept across games; `guessDistribution` maps a number of
      guesses to the number of games won in exactly that many guesses. */
  datatype Stats = Stats(
    gamesPlayed: nat,
    gamesWon: nat,
    currentStreak: nat,
    maxStreak: nat,
    guessDistribution: map<int, nat>)

  /** The statistics of a first-time player. */
  const ZeroStats: Stats := Stats(0, 0, 0, 0, map[])
}
