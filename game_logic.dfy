/** The pure game logic: letter evaluation with duplicate-letter accounting,
    the emoji share text, the toast message and the keyboard key class. */
module GameLogic {
  import opened GameTypes
  import opened Strings

  const WordLength: nat := 5
  const MaxAttempts: nat := 6

  // ---------------------------------------------------------------------------
  // Counting helpers (the `split("").filter(...).length` chains)
  // ---------------------------------------------------------------------------

  /** Position `i` of `s` holds the letter found at the same position of the
      target; a position past the end of the target never matches. */
  predicate ExactAt(s: string, target: string, i: nat)
    requires i < |s|
  {
    i < |target| && s[i] == target[i]
  }

  /** Number of characters of `s` equal to `letter` (a one-character string
      compares equal to a character; a longer or empty one never does). */
  function Occurrences(s: string, letter: string): (n: nat)
    ensures n <= |s|
  {
    if s == [] then 0
    else Occurrences(s[..|s| - 1], letter) + (if [s[|s| - 1]] == letter then 1 else 0)
  }

  /** Number of positions of `s` that hold `letter` and match the target there. */
  function CorrectMatches(s: string, target: string, letter: string): (n: nat)
    ensures n <= Occurrences(s, letter)
  {
    if s == [] then 0
    else
      CorrectMatches(s[..|s| - 1], target, letter)
      + (if [s[|s| - 1]] == letter && ExactAt(s, target, |s| - 1) then 1 else 0)
  }

  /** `s.slice(0, end)`: a negative end counts from the back, and an end past
      the string is clamped to it. */
  function Slice(s: string, end: int): (r: string)
    ensures r <= s
    ensures 0 <= end <= |s| ==> r == s[..end]
  {
    if end < 0 then s[..if |s| + end < 0 then 0 else |s| + end]
    else s[..if end < |s| then end else |s|]
  }

  /** `letter === targetWord[index]`; an index outside the target reads
      `undefined`, which equals no string. */
  predicate MatchesAt(letter: string, target: string, index: int) {
    0 <= index < |target| && letter == [target[index]]
  }

  // ---------------------------------------------------------------------------
  // Letter evaluation
  // ---------------------------------------------------------------------------

  /** The feedback for `letter` at `index` of `attempt` against `targetWord`.
      Exact matches are counted over the whole attempt; the remaining copies of
      the letter in the target are handed out as `Present` from left to right. */
  function LetterStateOf(letter: string, index: int, attempt: string, targetWord: string): (r: LetterState)
    ensures r == Unused <==> attempt == [] || letter == []
    ensures r == Correct <==> attempt != [] && letter != [] && MatchesAt(letter, targetWord, index)
    ensures r == Present ==> Includes(targetWord, letter)
  {
    if attempt == [] || letter == [] then Unused
    else if MatchesAt(letter, targetWord, index) then Correct
    else
      var targetLetterCount := Occurrences(targetWord, letter);
      var correctPositions := CorrectMatches(attempt, targetWord, letter);
      var previousOccurrences := Occurrences(Slice(attempt, index), letter);
      var previousCorrect := CorrectMatches(Slice(attempt, index), targetWord, letter);
      var availableForYellow := targetLetterCount - correctPositions;
      if previousOccurrences - previousCorrect < availableForYellow && Includes(targetWord, letter)
      then Present
      else Absent
  }

  // ---------------------------------------------------------------------------
  // Share text
  // ---------------------------------------------------------------------------

  /** One cell of the share grid; unlike `LetterStateOf` there is no
      duplicate-letter accounting. */
  datatype Cell = Green | Yellow | White

  /** The three glyph strings a share grid is drawn with. */
  datatype Glyphs = Glyphs(green: string, yellow: string, white: string)

  /** The glyph literals of gameLogic.ts, whose bytes are the UTF-8 encoding of
      the square emoji read back as Windows-1252 text. */
  const ShareGlyphs: Glyphs := Glyphs(
    "\U{F0}\U{178}\U{178}\U{A9}",
    "\U{F0}\U{178}\U{178}\U{A8}",
    "\U{E2}\U{AC}\U{153}")

  function ShareCell(letter: char, index: nat, target: string): Cell {
    if index < |target| && letter == target[index] then Green
    else if Includes(target, [letter]) then Yellow
    else White
  }

  /** The cells of one attempt, one per letter. */
  function ShareRow(attempt: string, target: string): (row: seq<Cell>)
    ensures |row| == |attempt|
  {
    if attempt == [] then []
    else ShareRow(attempt[..|attempt| - 1], target) + [ShareCell(attempt[|attempt| - 1], |attempt| - 1, target)]
  }

  function GlyphOf(c: Cell, g: Glyphs): string {
    match c
    case Green => g.green
    case Yellow => g.yellow
    case White => g.white
  }

  /** `cells.map(glyph).join("")`. */
  function RenderRow(cells: seq<Cell>, g: Glyphs): string {
    if cells == [] then "" else RenderRow(cells[..|cells| - 1], g) + GlyphOf(cells[|cells| - 1], g)
  }

  function ShareRows(attempts: seq<string>, target: string, g: Glyphs): (rows: seq<string>)
    ensures |rows| == |attempts|
  {
    if attempts == [] then []
    else ShareRows(attempts[..|attempts| - 1], target, g) + [RenderRow(ShareRow(attempts[|attempts| - 1], target), g)]
  }

  /** The header line and blank line that open the share text. */
  function ShareHeader(count: nat): string {
    "Wordle " + NatToString(count) + "/" + NatToString(MaxAttempts) + "\n\n"
  }

  /** `generateShareText`, drawn with the given glyphs. */
  function ShareTextWith(attempts: seq<string>, target: string, g: Glyphs): (text: string)
    ensures ShareHeader(|attempts|) <= text
    ensures attempts == [] ==> text == ShareHeader(0)
  {
    ShareHeader(|attempts|) + Join(ShareRows(attempts, target, g), "\n")
  }

  /** The text starts with `Wordle <count>/6` and a blank line. */
  function ShareText(attempts: seq<string>, targetWord: string): (text: string)
    ensures "Wordle " + NatToString(|attempts|) + "/6\n\n" <= text
  {
    MaxAttemptsText();
    ShareTextWith(attempts, targetWord, ShareGlyphs)
  }

  // ---------------------------------------------------------------------------
  // Toast message
  // ---------------------------------------------------------------------------

  /** The consolation message is shown exactly for a lost game, and a won
      game outside 1 to 6 guesses gets the generic praise. */
  function ToastMessage(attempts: int, isWon: bool): (msg: string)
    ensures msg == "Better luck next time!" <==> !isWon
    ensures isWon && (attempts < 1 || attempts > MaxAttempts) ==> msg == "Well done!"
  {
    if !isWon then "Better luck next time!"
    else if attempts == 1 then "Genius!"
    else if attempts == 2 then "Magnificent!"
    else if attempts == 3 then "Impressive!"
    else if attempts == 4 then "Splendid!"
    else if attempts == 5 then "Great!"
    else if attempts == 6 then "Phew!"
    else "Well done!"
  }

  // ---------------------------------------------------------------------------
  // Keyboard key class
  // ---------------------------------------------------------------------------

  /** The four style classes a keyboard key can be drawn with. */
  datatype KeyPalette = KeyPalette(correct: string, present: string, absent: string, default: string)

  const KeyboardPalette: KeyPalette := KeyPalette(
    "bg-green-500 text-white",
    "bg-yellow-500 text-white",
    "bg-gray-500 text-white opacity-50",
    "bg-gray-200 hover:bg-gray-300 dark:bg-gray-500 dark:hover:bg-gray-400")

  /** `getKeyboardClass` over a palette: known states get their class, an
      `Unused` or missing entry the default one. */
  function KeyboardClassWith(letter: string, keyboardState: map<string, LetterState>, p: KeyPalette): (cls: string)
    ensures cls in {p.correct, p.present, p.absent, p.default}
    ensures ShownState(letter, keyboardState) == Unused ==> cls == p.default
  {
    if letter !in keyboardState then p.default
    else
      match keyboardState[letter]
      case Correct => p.correct
      case Present => p.present
      case Absent => p.absent
      case Unused => p.default
  }

  /** The class drawn for a key tells which state the key shows. */
  function KeyboardClass(letter: string, keyboardState: map<string, LetterState>): (cls: string)
    ensures StateOfClass(cls, KeyboardPalette) == ShownState(letter, keyboardState)
  {
    KeyboardPaletteDistinct();
    KeyboardClassRoundTrip(letter, keyboardState, KeyboardPalette);
    KeyboardClassWith(letter, keyboardState, KeyboardPalette)
  }

  // ---------------------------------------------------------------------------
  // Properties of the lookups and of the share text
  // ---------------------------------------------------------------------------

  /** A lost game always gets the consolation message; a won game with 1 to 6
      guesses gets its own phrase, and every other count of a won game gets
      the generic one. */
  lemma ToastFallback(attempts: int)
    ensures ToastMessage(attempts, false) == "Better luck next time!"
    ensures ToastMessage(attempts, true) == "Well done!" <==> attempts < 1 || attempts > MaxAttempts
  {
  }

  /** The phrase of a won game tells how many guesses it took, and no phrase
      of a won game is the consolation message. */
  lemma ToastDeterminesGuesses(m: int, n: int)
    requires 1 <= m <= MaxAttempts && 1 <= n <= MaxAttempts
    ensures ToastMessage(m, true) == ToastMessage(n, true) ==> m == n
    ensures ToastMessage(m, true) != ToastMessage(n, false)
  {
  }

  /** The state a key is drawn as: missing entries are drawn as `Unused`. */
  function ShownState(letter: string, keyboardState: map<string, LetterState>): LetterState {
    if letter in keyboardState then keyboardState[letter] else Unused
  }

  predicate PaletteDistinct(p: KeyPalette) {
    && p.correct != p.present && p.correct != p.absent && p.correct != p.default
    && p.present != p.absent && p.present != p.default
    && p.absent != p.default
  }

  /** Reads a key class back as the state it was drawn for. */
  function StateOfClass(cls: string, p: KeyPalette): LetterState {
    if cls == p.correct then Correct
    else if cls == p.present then Present
    else if cls == p.absent then Absent
    else Unused
  }

  lemma KeyboardPaletteDistinct()
    ensures PaletteDistinct(KeyboardPalette)
  {
  }

  /** With distinct classes, the class of a key determines the state it shows. */
  lemma KeyboardClassRoundTrip(letter: string, keyboardState: map<string, LetterState>, p: KeyPalette)
    requires PaletteDistinct(p)
    ensures StateOfClass(KeyboardClassWith(letter, keyboardState, p), p) == ShownState(letter, keyboardState)
    ensures KeyboardClassWith(letter, keyboardState, p) == p.default <==> ShownState(letter, keyboardState) == Unused
  {
  }

  /** The share rule for one letter: green on an exact match, otherwise yellow
      if the letter occurs anywhere in the target, otherwise white. */
  lemma ShareCellRule(letter: char, index: nat, target: string)
    ensures ShareCell(letter, index, target) == Green <==> index < |target| && letter == target[index]
    ensures ShareCell(letter, index, target) == Yellow <==> !(index < |target| && letter == target[index]) && letter in target
    ensures ShareCell(letter, index, target) == White <==> letter !in target
  {
    IncludesChar(target, letter);
  }

  /** Cell `i` of a share row is the share rule applied to letter `i`. */
  lemma {:induction false} ShareRowAt(attempt: string, target: string, i: nat)
    requires i < |attempt|
    ensures ShareRow(attempt, target)[i] == ShareCell(attempt[i], i, target)
  {
    var n := |attempt| - 1;
    if i < n {
      ShareRowAt(attempt[..n], target, i);
    }
  }

  /** Row `k` of the share grid renders the cells of attempt `k`. */
  lemma {:induction false} ShareRowsAt(attempts: seq<string>, target: string, g: Glyphs, k: nat)
    requires k < |attempts|
    ensures ShareRows(attempts, target, g)[k] == RenderRow(ShareRow(attempts[k], target), g)
  {
    var n := |attempts| - 1;
    if k < n {
      ShareRowsAt(attempts[..n], target, g, k);
    }
  }

  /** The total-attempts half of the header is the constant `6`. */
  lemma MaxAttemptsText()
    ensures NatToString(MaxAttempts) == "6"
  {
  }

  /** The share text is the header `Wordle <count>/6`, a blank line, and one
      row per attempt joined by newlines; row `k` is the glyphs of attempt
      `k`, one glyph per letter as `ShareRowAt` states. */
  lemma ShareTextShape(attempts: seq<string>, target: string, g: Glyphs)
    ensures ShareTextWith(attempts, target, g)
         == "Wordle " + NatToString(|attempts|) + "/6\n\n" + Join(ShareRows(attempts, target, g), "\n")
    ensures forall k :: 0 <= k < |attempts| ==> ShareRows(attempts, target, g)[k] == RenderRow(ShareRow(attempts[k], target), g)
  {
    MaxAttemptsText();
    forall k | 0 <= k < |attempts| {
      ShareRowsAt(attempts, target, g, k);
    }
  }

  /** With no attempts there are no glyph rows: only the header remains. */
  lemma ShareTextNoAttempts(target: string)
    ensures ShareText([], target) == "Wordle 0/6\n\n"
  {
  }

  /** The header determines the number of attempts it reports. */
  lemma ShareHeaderInjective(m: nat, n: nat)
    requires ShareHeader(m) == ShareHeader(n)
    ensures m == n
  {
    var p, s := "Wordle ", "/" + NatToString(MaxAttempts) + "\n\n";
    var hm, hn := NatToString(m), NatToString(n);
    assert ShareHeader(m) == p + hm + s;
    assert ShareHeader(n) == p + hn + s;
    assert |hm| == |hn|;
    assert hm == ShareHeader(m)[|p|..|p| + |hm|];
    assert hn == ShareHeader(n)[|p|..|p| + |hn|];
    NatToStringInjective(m, n);
  }

  /** The example of a mixed row: `HELPO` against `HELLO` shares as
      green, green, green, white, green. */
  lemma ShareRowExample()
    ensures ShareRow("HELPO", "HELLO") == [Green, Green, Green, White, Green]
  {
    IncludesChar("HELLO", 'P');
    assert "HELPO"[..4] == "HELP" && "HELP"[..3] == "HEL" && "HEL"[..2] == "HE" && "HE"[..1] == "H";
    assert ShareRow("H", "HELLO") == [Green];
  }
}
