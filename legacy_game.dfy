/** The older component: the same state machine with a dictionary that
    accepts every word, its own copy of the letter evaluator reading the target
    from the game state, its share glyphs and its keyboard classes. */
module LegacyGame {
  import opened GameTypes
  import opened Strings
  import opened GameLogic
  import opened EvaluatorTheory
  import opened KeyboardMerge
  import opened Statistics
  import opened Game

  /** A new game of the older component; no submission is ever checked
      against a word list. */
  method NewLegacyGame(target: string) returns (g: WordleGame)
    ensures fresh(g) && g.Valid()
    ensures g.dictionary == AnyWord && g.targetWord == target
    ensures g.attempts == [] && g.currentAttempt == [] && g.gameStatus == Playing && g.keyboardState == map[]
    ensures g.stats == ZeroStats
  {
    g := new WordleGame(target, AnyWord);
  }

  /** `submitAttempt` of the older component: every five-letter word typed
      during play is accepted, whatever it spells. */
  method SubmitAnyWord(g: WordleGame) returns (accepted: bool)
    requires g.Valid() && g.dictionary == AnyWord
    modifies g
    ensures g.Valid()
    ensures accepted <==> old(g.gameStatus) == Playing && |old(g.currentAttempt)| == WordLength
    ensures g.targetWord == old(g.targetWord)
    ensures accepted ==> g.attempts == old(g.attempts) + [old(g.currentAttempt)] && g.currentAttempt == []
    ensures accepted ==> g.gameStatus == Outcome(old(g.currentAttempt), g.targetWord, |g.attempts|)
    ensures accepted ==> g.keyboardState == Merge(old(g.keyboardState), old(g.currentAttempt), g.targetWord)
    ensures accepted && g.gameStatus != Playing ==> g.stats == RecordGame(old(g.stats), g.gameStatus == Won, |g.attempts|)
    ensures accepted && g.gameStatus == Playing ==> g.stats == old(g.stats)
    ensures !accepted ==> unchanged(g)
  {
    accepted := g.SubmitAttempt();
  }

  // ---------------------------------------------------------------------------
  // The inline letter evaluator
  // ---------------------------------------------------------------------------

  /** The component's own `getLetterState(letter, index, attempt)`, which takes
      the target from the game state. */
  function GridState(g: WordleGame, letter: string, index: int, attempt: string): (r: LetterState)
    reads g
    ensures 0 <= index < |attempt| && letter == [attempt[index]] ==> r == EvaluateRow(attempt, g.targetWord)[index]
  {
    if 0 <= index < |attempt| && letter == [attempt[index]] then
      RowAgrees(attempt, g.targetWord, index);
      LetterStateOf(letter, index, attempt, g.targetWord)
    else
      LetterStateOf(letter, index, attempt, g.targetWord)
  }

  /** Each cell of a submitted row of the grid is what the two-pass evaluator
      gives (exact matches first, then the target's remaining letters from
      left to right), and no letter shows more correct and present cells than
      the target holds. */
  lemma GridRowAgrees(g: WordleGame, r: nat, k: nat, c: char)
    requires r < |g.attempts| && k < |g.attempts[r]|
    ensures GridState(g, [g.attempts[r][k]], k, g.attempts[r]) == EvaluateRow(g.attempts[r], g.targetWord)[k]
    ensures Marked(g.attempts[r], g.targetWord, c, |g.attempts[r]|) <= Occurrences(g.targetWord, [c])
  {
    RowAgrees(g.attempts[r], g.targetWord, k);
    MarkedIsMin(g.attempts[r], g.targetWord, c);
  }

  // ---------------------------------------------------------------------------
  // Share text
  // ---------------------------------------------------------------------------

  /** The square emoji of the older component, one code point each. */
  const LegacyGlyphs: Glyphs := Glyphs("\U{1F7E9}", "\U{1F7E8}", "\U{2B1C}")

  /** The text `shareResult` hands to the share sheet or the clipboard. */
  function LegacyShareText(g: WordleGame): (text: string)
    reads g
    ensures "Wordle " + NatToString(|g.attempts|) + "/6\n\n" <= text
    ensures g.attempts == [] ==> text == "Wordle 0/6\n\n"
  {
    MaxAttemptsText();
    ShareTextWith(g.attempts, g.targetWord, LegacyGlyphs)
  }

  /** The share text of the older component is the header `Wordle n/6`, a
      blank line and the rows of the same green/yellow/white rule as the
      newer one, drawn with the square emoji. */
  lemma LegacyShareShape(g: WordleGame)
    ensures LegacyShareText(g) == "Wordle " + NatToString(|g.attempts|) + "/6\n\n" + Join(ShareRows(g.attempts, g.targetWord, LegacyGlyphs), "\n")
    ensures forall k :: 0 <= k < |g.attempts| ==> ShareRows(g.attempts, g.targetWord, LegacyGlyphs)[k] == RenderRow(ShareRow(g.attempts[k], g.targetWord), LegacyGlyphs)
  {
    ShareTextShape(g.attempts, g.targetWord, LegacyGlyphs);
  }

  function CellOfGlyph(c: char): Cell {
    if c == '\U{1F7E9}' then Green else if c == '\U{1F7E8}' then Yellow else White
  }

  /** Reads a row of square emoji back as cells. */
  function DecodeRow(s: string): (cells: seq<Cell>)
    ensures |cells| == |s|
  {
    if s == [] then [] else DecodeRow(s[..|s| - 1]) + [CellOfGlyph(s[|s| - 1])]
  }

  lemma LegacyGlyphSingle(c: Cell)
    ensures |GlyphOf(c, LegacyGlyphs)| == 1
    ensures CellOfGlyph(GlyphOf(c, LegacyGlyphs)[0]) == c
  {
  }

  /** Every legacy glyph is a single code point, so a row of them reads back
      as exactly the cells it was drawn from. */
  lemma {:induction false} LegacyRowRoundTrip(cells: seq<Cell>)
    ensures DecodeRow(RenderRow(cells, LegacyGlyphs)) == cells
  {
    if cells != [] {
      var p := cells[..|cells| - 1];
      var last := cells[|cells| - 1];
      LegacyRowRoundTrip(p);
      var r := RenderRow(p, LegacyGlyphs);
      var glyph := GlyphOf(last, LegacyGlyphs);
      LegacyGlyphSingle(last);
      assert glyph == [glyph[0]];
      assert RenderRow(cells, LegacyGlyphs) == r + glyph;
      DecodeAppend(r, glyph[0]);
    }
  }

  lemma DecodeAppend(r: string, c: char)
    ensures DecodeRow(r + [c]) == DecodeRow(r) + [CellOfGlyph(c)]
  {
    assert (r + [c])[..|r|] == r;
  }

  // ---------------------------------------------------------------------------
  // Keyboard classes
  // ---------------------------------------------------------------------------

  /** The key classes of the older component: a plain grey for absent keys
      and a darker default in dark mode. */
  const LegacyPalette: KeyPalette := KeyPalette(
    "bg-green-500 text-white",
    "bg-yellow-500 text-white",
    "bg-gray-500 text-white",
    "bg-gray-200 hover:bg-gray-300 dark:bg-gray-700 dark:hover:bg-gray-600")

  /** The component's own `getKeyboardClass(letter)`, reading the keyboard
      from the game state. */
  function LegacyKeyboardClass(g: WordleGame, letter: string): (cls: string)
    reads g
    ensures StateOfClass(cls, LegacyPalette) == ShownState(letter, g.keyboardState)
  {
    assert PaletteDistinct(LegacyPalette);
    KeyboardClassRoundTrip(letter, g.keyboardState, LegacyPalette);
    KeyboardClassWith(letter, g.keyboardState, LegacyPalette)
  }

  /** The class of a key tells which state the key shows, and the default
      class is drawn exactly for keys not yet evaluated. */
  lemma LegacyKeyboardClassRoundTrip(g: WordleGame, letter: string)
    ensures StateOfClass(LegacyKeyboardClass(g, letter), LegacyPalette) == ShownState(letter, g.keyboardState)
    ensures LegacyKeyboardClass(g, letter) == LegacyPalette.default <==> ShownState(letter, g.keyboardState) == Unused
  {
    assert PaletteDistinct(LegacyPalette);
    KeyboardClassRoundTrip(letter, g.keyboardState, LegacyPalette);
  }

  /** The two components draw correct and present keys alike and differ in
      the absent and default classes. */
  lemma PalettesCompared()
    ensures LegacyPalette.correct == KeyboardPalette.correct && LegacyPalette.present == KeyboardPalette.present
    ensures LegacyPalette.absent != KeyboardPalette.absent && LegacyPalette.default != KeyboardPalette.default
  {
  }

  // ---------------------------------------------------------------------------
  // A game played through
  // ---------------------------------------------------------------------------

  /** Typing `ZZZZZ` against `HELLO` marks only `Z`, as absent. */
  lemma NonWordKeyboard()
    ensures Merge(map[], "ZZZZZ", "HELLO") == map["Z" := Absent]
  {
    IncludesChar("HELLO", 'Z');
    var m := Merge(map[], "ZZZZZ", "HELLO");
    forall k | k in m
      ensures k == "Z"
    {
      MergeClosedForm(map[], "ZZZZZ", "HELLO", k);
      var i := TypedIsLetter("ZZZZZ", k, 5);
    }
    MergeClosedForm(map[], "ZZZZZ", "HELLO", "Z");
    TypedAt("ZZZZZ", 0, 5);
  }

  /** Guessing the target leaves the absent `Z` key as it was. */
  lemma WinKeepsAbsentKey()
    ensures "Z" in Merge(map["Z" := Absent], "HELLO", "HELLO")
    ensures Merge(map["Z" := Absent], "HELLO", "HELLO")["Z"] == Absent
  {
    MergeClosedForm(map["Z" := Absent], "HELLO", "HELLO", "Z");
    assert !TypedBefore("HELLO", "Z", 5);
  }

  /** Against `HELLO`, the non-word `ZZZZZ` is accepted as a first guess,
      leaves the game in play and marks `Z` absent. */
  method ExampleGame() returns (g: WordleGame, accepted: bool)
    ensures accepted && g.gameStatus == Playing && g.attempts == ["ZZZZZ"]
    ensures g.keyboardState == map["Z" := Absent]
  {
    g := NewLegacyGame("HELLO");
    g.AddLetter('Z');
    g.AddLetter('Z');
    g.AddLetter('Z');
    g.AddLetter('Z');
    g.AddLetter('Z');
    assert g.currentAttempt == "ZZZZZ";
    accepted := SubmitAnyWord(g);
    NonWordKeyboard();
  }
}
