# Wordle: a verified model of the game logic and state machine

This project models the core of a browser Wordle clone in Dafny. The model has three parts.

- **Letter evaluation and reporting** (`gameLogic.ts`):
  - `getLetterState` classifies one guessed letter as correct, present, absent or unused. It accounts for duplicate letters.
  - `generateShareText` renders the emoji summary with a simpler per-cell rule.
  - `getToastMessage` and `getKeyboardClass` are lookup tables.
- **The game state machine of the newer component** (`src/components/game/WordleGame.tsx`). It is a class whose fields are the game state: target, attempts, the letters being typed, status, keyboard map and statistics. Its methods are the handlers:
  - `addLetter` and `removeLetter`;
  - `submitAttempt`, which validates the guess, merges it into the keyboard in a loop over the letters, and decides won or lost;
  - `updateStats` and `resetGame`.
- **The older component** (`src/app/components/WordleGame.tsx`). It is the same machine with a dictionary that accepts every word. It also has its own copies of the letter evaluator, the share rule and the key classes.

Modules, one per file:

| file | module | models |
|---|---|---|
| `strings.dfy` | `Strings` | JavaScript `includes`, ASCII `toLowerCase`, decimal rendering in template literals, `join` |
| `game_types.dfy` | `GameTypes` | `LetterState`, game status and `GameStats` of `src/types/game.ts` |
| `game_logic.dfy` | `GameLogic` | `gameLogic.ts`: constants, `getLetterState`, share text, toast, key classes |
| `evaluator_theory.dfy` | `EvaluatorTheory` | what `getLetterState` computes: a reference two-pass evaluator, per-letter mark counts, share rule against evaluator |
| `keyboard.dfy` | `KeyboardMerge` | the keyboard `forEach` of `submitAttempt`, its loop and its closed form |
| `stats.dfy` | `Statistics` | `updateStats` on a stats value, its invariants, and what the statistics say about a history of games |
| `wordle_game.dfy` | `Game` | the `WordleGame` class: handlers of the newer component |
| `legacy_game.dfy` | `LegacyGame` | the older component on the same class, with its inline evaluator, share glyphs and key classes |

### Modelling choices

**JavaScript semantics**
- `targetWord[index]` outside the word is `undefined`, which equals no letter.
- `slice(0, end)` with a negative `end` counts from the back.
- `includes` is a substring test, and `|| 0` lets a missing map entry count as zero.
- `getLetterState` takes its `letter` as a string and its `index` as an integer, as in the source, so the empty letter and negative or out-of-range indices stay meaningful.

**Word list and target**
- The word list is a `Dictionary`: either `WordList(words)`, a set of lower-case words checked after ASCII lower-casing, or `AnyWord` for the older component.
- The random target is a parameter of the constructor and of `ResetGame`.

**Statistics**
- Statistics are a value (`Stats`), as the component copies them before updating.
- A ghost field `finished` records the finished games, so the statistics can be tied to the history they summarise.

**Share glyphs**
- The glyph literals of `gameLogic.ts` are kept code point for code point. They read as UTF-8 bytes of the square emoji decoded as Windows-1252 (`GameLogic.ShareGlyphs`).
- The older file has the real emoji (`LegacyGame.LegacyGlyphs`).

**Strings and letters**
- A Dafny `string` is a sequence of Unicode code points. JavaScript's `split("")`, `.length` and `targetWord[index]` work on UTF-16 code units instead. The two agree for the letters A to Z the game is played with. They differ for characters outside the Basic Multilingual Plane: each square emoji of `LegacyGame.LegacyGlyphs` is one code point here but has length 2 in JavaScript.
- `addLetter` takes a string in the source. The model's `AddLetter` takes one `char`, because both callers pass a single letter: the keydown handler (src/components/game/WordleGame.tsx:216) and the virtual keyboard (src/components/game/WordleGame.tsx:283).

**Repeated guesses**
- `submitAttempt` (src/components/game/WordleGame.tsx:118-134) has no repeated-guess check, so a repeated five-letter dictionary word is accepted. The model accepts it too.

## Model

| member | source | states |
|---|---|---|
| GameLogic.LetterStateOf | src/components/game/gameLogic.ts:6-52 | `unused` exactly when the attempt or the letter is empty; `correct` exactly when both are non-empty and the letter equals `targetWord[index]`, an index outside the target never matching; `present` only for a letter the target contains |
| EvaluatorTheory.NotInTargetIsAbsent | src/components/game/gameLogic.ts:44-51 | a letter the target does not contain is `absent` (for a non-empty attempt and letter) |
| EvaluatorTheory.SpareIsUnmatched | src/components/game/gameLogic.ts:19-41 | `availableForYellow`, the target count minus exact matches anywhere in the attempt, equals the number of target letters no exact match takes, so it is never negative |
| EvaluatorTheory.StateAtOccurrence | src/components/game/gameLogic.ts:16-48 | letter `i` is `correct` on an exact match; otherwise `present` iff the non-exact copies of it before `i` are fewer than `availableForYellow`, and `absent` otherwise |
| EvaluatorTheory.MarkedPrefix | src/components/game/gameLogic.ts:29-48 | among the first `j` letters, the marked copies of a letter are its exact matches plus min(non-exact copies so far, spare copies) |
| EvaluatorTheory.MarkedIsMin | src/components/game/gameLogic.ts:29-48 | per letter, correct plus present cells equal min(count in attempt, count in target), so never exceed the count in the target |
| EvaluatorTheory.AllocateAgrees | src/components/game/gameLogic.ts:29-48 | the left-to-right handing out of unmatched target letters gives each position its rank-based state |
| EvaluatorTheory.RowAgrees | src/components/game/gameLogic.ts:6-52 | applied to each letter of an attempt, `getLetterState` computes the two-pass evaluation (exact matches first, then the unmatched target letters left to right) |
| EvaluatorTheory.ShareRefinesEvaluation | src/components/game/gameLogic.ts:77-84 | the share cell is green iff the evaluator says correct; present is always yellow; white is always absent |
| EvaluatorTheory.DuplicateLetterExample | src/components/game/gameLogic.test.ts:41-48 | `LLLHE` against `HELLO` gives present, absent, correct, present, present, while its share cell 1 is yellow |
| EvaluatorTheory.LaterExactMatchConsumesLetter | src/components/game/gameLogic.ts:24-26 | an exact match later in the attempt takes the only copy: `L` at 0 of `LXXLX` against `ABCLD` is absent, though its share cell is yellow |
| GameLogic.ShareCellRule | src/components/game/gameLogic.ts:79-83 | a share cell is green iff the letter is at its place, yellow iff it is not but the target has it, white iff the target lacks it |
| GameLogic.ShareRowAt | src/components/game/gameLogic.ts:77-84 | cell `i` of a share row is the share rule for letter `i`, one cell per letter |
| GameLogic.ShareRowsAt | src/components/game/gameLogic.ts:75-86 | row `k` of the share grid is the glyphs of attempt `k` |
| GameLogic.ShareTextWith | src/components/game/gameLogic.ts:71-89 | `generateShareText` over a set of glyphs: the text opens with the header for its attempt count and a blank line, and with no attempts it is the header alone; `ShareTextShape` gives the whole layout and `ShareRowsAt` the rows |
| GameLogic.ShareText | src/components/game/gameLogic.ts:71-89 | `generateShareText` with the file's own glyph literals: the text starts with `Wordle <count>/6` and a blank line |
| GameLogic.ShareTextShape | src/components/game/gameLogic.ts:71-89 | the share text is `Wordle <count>/6`, a blank line, then the glyph rows joined by newlines |
| GameLogic.ShareTextNoAttempts | src/components/game/gameLogic.test.ts:136-143 | with no attempts the text is exactly `Wordle 0/6` and a blank line |
| GameLogic.ShareHeaderInjective | src/components/game/gameLogic.ts:88 | the header determines the attempt count it reports |
| GameLogic.MaxAttemptsText | src/components/game/gameLogic.ts:4 | `MAX_ATTEMPTS` renders as `6` |
| Strings.DecimalRoundTrip | src/components/game/gameLogic.ts:88 | the number in the header reads back as the attempt count |
| GameLogic.ShareRowExample | src/components/game/gameLogic.test.ts:128-134 | `HELPO` against `HELLO` shares as green, green, green, white, green |
| GameLogic.ToastMessage | src/components/game/gameLogic.ts:91-112 | `getToastMessage`: the consolation message is shown exactly for a lost game, and a won game outside 1 to 6 guesses gets "Well done!"; `ToastFallback` adds the converse and `ToastDeterminesGuesses` the distinct phrases |
| GameLogic.ToastFallback | src/components/game/gameLogic.ts:91-112 | a lost game gets "Better luck next time!"; a won game gets "Well done!" exactly when its count is outside 1 to 6 |
| GameLogic.ToastDeterminesGuesses | src/components/game/gameLogic.ts:96-111 | the phrases for 1 to 6 guesses are all different and none is the consolation message |
| GameLogic.KeyboardClassWith | src/components/game/gameLogic.ts:54-69 | `getKeyboardClass` over a palette: the class is one of the palette's four, and the default one for an unused or missing key |
| GameLogic.KeyboardClass | src/components/game/gameLogic.ts:54-69 | `getKeyboardClass` with its own classes: the class drawn tells which state the key shows |
| GameLogic.KeyboardClassRoundTrip | src/components/game/gameLogic.ts:54-69 | the key class determines the key's state, and the default class is drawn exactly for an unused or missing entry |
| GameLogic.KeyboardPaletteDistinct | src/components/game/gameLogic.ts:60-67 | the four key classes are distinct strings |
| KeyboardMerge.MergeLetter | src/components/game/WordleGame.tsx:140-151 | the `forEach` body for one letter: its key is on the keyboard afterwards, shows `absent` exactly when the target lacks the letter, and shows `correct` after an exact match |
| KeyboardMerge.Merge | src/components/game/WordleGame.tsx:137-151 | the merge of a whole attempt: an empty attempt changes nothing; `MergeClosedForm` gives every key's state, `MergeKeys` the keys and `MergeNeverDowngrades` the monotonicity |
| KeyboardMerge.MergeKeyboard | src/components/game/WordleGame.tsx:137-151 | the loop over the attempt's letters, updating a copy of the map in place, computes the merge |
| KeyboardMerge.MergePrefixClosedForm | src/components/game/WordleGame.tsx:140-151 | after `n` letters: a typed key is `absent` if the target lacks it, else `correct` if it was or is placed exactly, else `present`; untyped keys are unchanged and no other key appears |
| KeyboardMerge.MergeClosedForm | src/components/game/WordleGame.tsx:140-151 | the closed form for the whole attempt |
| KeyboardMerge.MergeMarksExact | src/components/game/WordleGame.tsx:142-143 | every exactly placed letter shows `correct` after the merge |
| KeyboardMerge.MergeKeys | src/components/game/WordleGame.tsx:137-151 | the keys after the merge are the old keys plus the attempt's letters |
| KeyboardMerge.MergePreservesConsistent | src/components/game/WordleGame.tsx:140-151 | a keyboard that has no `unused` key and shows `absent` exactly for letters missing from the target keeps both properties |
| KeyboardMerge.MergeNeverDowngrades | src/components/game/WordleGame.tsx:144-150 | on such a keyboard a `correct` key stays `correct`, and the only change to a shown key is `present` to `correct` |
| KeyboardMerge.DowngradeNeedsInconsistentKeyboard | src/components/game/WordleGame.tsx:148-149 | the `absent` write can overwrite `correct` when the keyboard disagrees with the target, so the invariant is needed |
| KeyboardMerge.KeyboardAfterConsistent | src/components/game/WordleGame.tsx:136-151 | the keyboard built from a history of attempts tells the truth about the target |
| KeyboardMerge.KeyboardAfterKeepsCorrect | src/components/game/WordleGame.tsx:140-151 | a letter any attempt placed exactly shows `correct` for the rest of the game |
| KeyboardMerge.MergeExample | src/components/game/WordleGame.tsx:140-151 | `LLLHE` against `HELLO` yields `L` correct, `H` and `E` present |
| Statistics.RecordGame | src/components/game/WordleGame.tsx:93-116 | `updateStats` on a value: one more game played, one more win exactly when won, the streak zero exactly after a loss, the best streak never lower and never below the current one, and unchanged by a loss |
| Statistics.RecordGameTally | src/components/game/WordleGame.tsx:105-106 | a win adds one to the distribution entry of its guess count, a missing entry counting as zero; a loss, and every other entry, stay as they were |
| Statistics.ZeroStatsValid | src/components/game/WordleGame.tsx:46-52 | the initial statistics are valid |
| Statistics.TallyUpToUpdate | src/components/game/WordleGame.tsx:105-106 | incrementing one distribution entry (missing counted as 0) adds one to the wins recorded for counts 1 to `m` when that entry is among them |
| Statistics.RecordGamePreservesValid | src/components/game/WordleGame.tsx:93-116 | recording a loss or a win in 1 to 6 guesses keeps gamesWon ≤ gamesPlayed, currentStreak ≤ maxStreak ≤ gamesWon, and the distribution's counts 1 to 6 summing to gamesWon |
| Statistics.ReplayCounts | src/components/game/WordleGame.tsx:93-116 | over a history of games, gamesPlayed is its length, gamesWon the number of wins, and each distribution entry the number of wins in that many guesses |
| Statistics.ReplayCurrentStreak | src/components/game/WordleGame.tsx:98-109 | the current streak is the run of wins ending the history: all of them won, the game before lost |
| Statistics.ReplayMaxStreakBound | src/components/game/WordleGame.tsx:101-104 | the max streak is at least as long as every all-won window of the history |
| Statistics.ReplayMaxStreakAttained | src/components/game/WordleGame.tsx:101-104 | some all-won window is exactly as long as the max streak |
| Statistics.ReplayValid | src/components/game/WordleGame.tsx:93-116 | any history of losses and wins in 1 to 6 guesses leads to valid statistics |
| Statistics.WinThenLossExample | src/components/game/WordleGame.tsx:93-116 | a win in 3 then a loss gives 2 played, 1 won, streak 0, max streak 1, distribution {3: 1} |
| Game.WonKeyboardAllCorrect | src/components/game/WordleGame.tsx:140-153 | after a winning guess every letter of the target shows `correct` |
| Game.AcceptKeepsValid | src/components/game/WordleGame.tsx:136-169 | accepting a five-letter dictionary word during play keeps every invariant, including at most 6 attempts and recording a game that ends |
| Game.ValidStateFacts | src/components/game/WordleGame.tsx:93-151 | a valid state has valid statistics and a truthful keyboard |
| Game.WordleGame.constructor | src/components/game/WordleGame.tsx:39-53 | a new game: no attempts, nothing typed, playing, empty keyboard, zero statistics |
| Game.WordleGame.AddLetter | src/components/game/WordleGame.tsx:72-83 | appends the letter only while playing with fewer than 5 letters typed; keeps at most 5; the older component's `addLetter` (src/app/components/WordleGame.tsx lines 76-87) is the same transition |
| Game.WordleGame.RemoveLetter | src/components/game/WordleGame.tsx:85-91 | drops the last typed letter while playing; nothing typed stays nothing typed; no-op when not playing; likewise the older `removeLetter` (lines 89-95 of src/app/components/WordleGame.tsx) |
| Game.WordleGame.UpdateStats | src/components/game/WordleGame.tsx:93-116 | keeps the invariant for a loss or a win in 1 to 6 guesses; the statistics become the old ones with the game recorded, and the game joins the history; the older `updateStats` (lines 97-120 of src/app/components/WordleGame.tsx) has the same rules |
| Game.WordleGame.SubmitAttempt | src/components/game/WordleGame.tsx:118-173 | rejects (changing nothing) unless playing with a 5-letter dictionary word, silently when the game is over and with the shake otherwise; otherwise appends it, clears the typing, merges the keyboard, sets won / lost / playing, and records stats exactly when the game ends |
| Game.WordleGame.AcceptAttempt | src/components/game/WordleGame.tsx:136-169 | the accepted branch of `submitAttempt`: keeps the invariant, appends the word, clears the typing, merges the keyboard, decides the status, and records the game in the statistics exactly when it ends |
| Game.WordleGame.ResetGame | src/components/game/WordleGame.tsx:175-184 | a new target, no attempts, nothing typed, playing, empty keyboard; statistics unchanged; likewise the older `resetGame` (lines 163-174 of src/app/components/WordleGame.tsx) |
| LegacyGame.NewLegacyGame | src/app/components/WordleGame.tsx:45-58 | a new game of the older component accepting every word |
| LegacyGame.SubmitAnyWord | src/app/components/WordleGame.tsx:122-161 | any 5-letter word typed during play is accepted; won iff it is the target, lost iff 6 attempts without it, typing cleared |
| LegacyGame.GridState | src/app/components/WordleGame.tsx:220-265 | the older component's inline `getLetterState`, reading the target from the state: for a letter of the attempt at its own index it is the two-pass evaluation of that position |
| LegacyGame.GridRowAgrees | src/app/components/WordleGame.tsx:220-265 | the inline evaluator, reading the target from the state, gives the two-pass evaluation of each submitted row, and never marks more copies of a letter than the target has |
| LegacyGame.LegacyShareText | src/app/components/WordleGame.tsx:177-190 | the older share text starts with `Wordle <count>/6` and a blank line, and with no attempts it is exactly that |
| LegacyGame.LegacyShareShape | src/app/components/WordleGame.tsx:177-190 | the older share text is `Wordle n/6`, a blank line and green/yellow/white rows without duplicate accounting |
| LegacyGame.LegacyGlyphSingle | src/app/components/WordleGame.tsx:182-184 | each square emoji is one code point and reads back as its cell |
| LegacyGame.LegacyRowRoundTrip | src/app/components/WordleGame.tsx:179-186 | a row of square emoji reads back as exactly its cells |
| LegacyGame.LegacyKeyboardClass | src/app/components/WordleGame.tsx:267-279 | the older `getKeyboardClass`: the class drawn tells which state the key shows |
| LegacyGame.LegacyKeyboardClassRoundTrip | src/app/components/WordleGame.tsx:267-279 | the older key class determines the key's state; the default class is drawn exactly for unused keys |
| LegacyGame.PalettesCompared | src/app/components/WordleGame.tsx:270-277 | the two components draw correct and present keys alike and differ in the absent and default classes |
| LegacyGame.NonWordKeyboard | src/app/components/WordleGame.tsx:134-145 | merging `ZZZZZ` against `HELLO` into an empty keyboard gives only `Z`, absent |
| LegacyGame.WinKeepsAbsentKey | src/app/components/WordleGame.tsx:134-145 | guessing `HELLO` leaves an absent `Z` key alone |
| LegacyGame.ExampleGame | src/app/components/WordleGame.tsx:122-161 | the non-word `ZZZZZ` is accepted as a first guess against `HELLO`, keeps the game in play and marks `Z` absent |

## Left out

- Persistence: the `localStorage` load and save, `JSON.parse` and the same-day date check are browser I/O and the clock. Every game starts from the initial state.
- Random target choice: `Math.random` over the word list is replaced by a target parameter of the constructor and of `ResetGame`.
- The word lists: `WORDLE_LA`, `WORDLE_TA` and `FIVE_LETTER_WORDS` are not part of this model. The dictionary is an abstract set of lower-case words.
- Accepts: lower-cases ASCII letters only. JavaScript's full Unicode `toLowerCase` is not modelled.
- Sharing: `navigator.share` and the clipboard write are I/O. Only the share text itself is modelled.
- Input and timing: the shake and flip timers, the share notification timer and the window keydown listener are left out. A rejected submission is the `false` result of `SubmitAttempt`. The shake follows only a short or unknown word, not the silent return of a finished game.
- React batching: `submitAttempt` issues `updateStats` and the state update as separate `setGameState` calls. The model treats the submission as one atomic transition.
- Game.WordleGame.UpdateStats: the statistics are a value. The component's shallow copy shares the `guessDistribution` object with the previous statistics, and that aliasing is not modelled.
- The win-rate display, `Math.round(gamesWon / gamesPlayed * 100)`, is floating-point and is not modelled.
- Rendering-only components are not modelled: the grid, the virtual keyboard, the header, the status line, the statistics and result modals, the toast and the share notification.
- Test files are not modelled. Their expectations appear as lemmas: `DuplicateLetterExample`, `ShareRowExample`, `ShareTextNoAttempts`.
