/** What the letter evaluator of gameLogic.ts computes, stated independently of
    how it computes it: the feedback a letter gets by its rank among the
    non-exact copies, the classic two-pass evaluation of a whole row, the
    number of marked copies of each letter, and how the simpler share rule
    relates to it. */
module EvaluatorTheory {
  import opened GameTypes
  import opened Strings
  import opened GameLogic

  function Min(x: int, y: int): int {
    if x <= y then x else y
  }

  /** `x - y`, or 0 when that would be negative. */
  function ClampSub(x: int, y: int): int {
    if x > y then x - y else 0
  }

  /** Copies of `c` before position `j` of the attempt that are not exact matches. */
  function NonCorrectBefore(a: string, t: string, c: char, j: nat): nat
    requires j <= |a|
  {
    if j == 0 then 0
    else NonCorrectBefore(a, t, c, j - 1) + (if a[j - 1] == c && !ExactAt(a, t, j - 1) then 1 else 0)
  }

  /** Positions below `n`, inside both words, where both hold `c`. */
  function ExactBelow(a: string, t: string, c: char, n: nat): nat {
    if n == 0 then 0
    else ExactBelow(a, t, c, n - 1) + (if n - 1 < |a| && n - 1 < |t| && a[n - 1] == c && t[n - 1] == c then 1 else 0)
  }

  /** Copies of `c` in the target not taken by an exact match anywhere in the
      attempt (the evaluator's `availableForYellow`). */
  function Spare(a: string, t: string, c: char): int {
    Occurrences(t, [c]) - CorrectMatches(a, t, [c])
  }

  // ---------------------------------------------------------------------------
  // Counting lemmas
  // ---------------------------------------------------------------------------

  lemma {:induction false} OccurrencesMember(s: string, c: char)
    ensures Occurrences(s, [c]) > 0 <==> c in s
  {
    if s != [] {
      var p := s[..|s| - 1];
      OccurrencesMember(p, c);
      assert s == p + [s[|s| - 1]];
    }
  }

  /** Every copy of `c` in a prefix of the attempt is either an exact match or not. */
  lemma {:induction false} PrefixCounts(a: string, t: string, c: char, j: nat)
    requires j <= |a|
    ensures Occurrences(a[..j], [c]) == CorrectMatches(a[..j], t, [c]) + NonCorrectBefore(a, t, c, j)
    ensures CorrectMatches(a[..j], t, [c]) == ExactBelow(a, t, c, j)
  {
    if j > 0 {
      PrefixCounts(a, t, c, j - 1);
      var p := a[..j];
      assert p[..j - 1] == a[..j - 1];
      assert p[j - 1] == a[j - 1];
      assert ExactAt(p, t, j - 1) == ExactAt(a, t, j - 1);
    }
  }

  lemma {:induction false} ExactBelowStable(a: string, t: string, c: char, n: nat)
    requires n >= Min(|a|, |t|)
    ensures ExactBelow(a, t, c, n) == ExactBelow(a, t, c, Min(|a|, |t|))
  {
    if n > Min(|a|, |t|) {
      ExactBelowStable(a, t, c, n - 1);
    }
  }

  /** The copies of `c` in the target that no exact match takes. */
  function Unmatched(a: string, t: string, j: nat): multiset<char>
    requires j <= |t|
  {
    if j == 0 then multiset{}
    else Unmatched(a, t, j - 1) + (if j - 1 < |a| && a[j - 1] == t[j - 1] then multiset{} else multiset{t[j - 1]})
  }

  lemma {:induction false} TargetSplit(a: string, t: string, c: char, j: nat)
    requires j <= |t|
    ensures Occurrences(t[..j], [c]) == ExactBelow(a, t, c, j) + Unmatched(a, t, j)[c]
  {
    if j > 0 {
      TargetSplit(a, t, c, j - 1);
      var p, x := t[..j], t[j - 1];
      assert p[..j - 1] == t[..j - 1];
      assert Occurrences(p, [c]) == Occurrences(t[..j - 1], [c]) + (if x == c then 1 else 0) by {
        assert p[j - 1] == x;
        assert [x] == [c] <==> x == c;
      }
      var exact := j - 1 < |a| && a[j - 1] == x;
      assert Unmatched(a, t, j)[c] == Unmatched(a, t, j - 1)[c] + (if !exact && x == c then 1 else 0);
    }
  }

  /** The spare copies are exactly the unmatched target letters, so there are
      never fewer than zero of them. */
  lemma SpareIsUnmatched(a: string, t: string, c: char)
    ensures Spare(a, t, c) == Unmatched(a, t, |t|)[c]
    ensures CorrectMatches(a, t, [c]) <= Occurrences(t, [c])
  {
    PrefixCounts(a, t, c, |a|);
    TargetSplit(a, t, c, |t|);
    ExactBelowStable(a, t, c, |a|);
    ExactBelowStable(a, t, c, |t|);
    assert a[..|a|] == a;
    assert t[..|t|] == t;
  }

  // ---------------------------------------------------------------------------
  // The evaluator, position by position
  // ---------------------------------------------------------------------------

  /** A letter that does not occur in the target is never marked. */
  lemma NotInTargetIsAbsent(letter: string, index: int, attempt: string, target: string)
    requires attempt != [] && letter != []
    requires !Includes(target, letter)
    ensures LetterStateOf(letter, index, attempt, target) == Absent
  {
    if MatchesAt(letter, target, index) {
      assert target[index..index + 1] == letter;
      assert OccursAt(target, letter, index);
      assert false;
    }
  }

  /** Letter `i` of the attempt: an exact match is correct; otherwise it is
      present exactly when fewer non-exact copies of it come before it than
      the target has spare copies, spare copies being counted against exact
      matches anywhere in the attempt, later ones included. */
  lemma StateAtOccurrence(a: string, t: string, i: nat)
    requires i < |a|
    ensures LetterStateOf([a[i]], i, a, t) == RankedState(a, t, i)
  {
    var c := a[i];
    assert MatchesAt([c], t, i) <==> ExactAt(a, t, i);
    PrefixCounts(a, t, c, i);
    if NonCorrectBefore(a, t, c, i) < Spare(a, t, c) {
      OccurrencesMember(t, c);
      IncludesChar(t, c);
    }
  }

  /** Whether a letter state is shown as a hit (green or yellow). */
  predicate IsMarked(s: LetterState) {
    s == Correct || s == Present
  }

  /** Copies of `c` among the first `j` letters of the attempt that are marked. */
  function Marked(a: string, t: string, c: char, j: nat): nat
    requires j <= |a|
  {
    if j == 0 then 0
    else Marked(a, t, c, j - 1) + (if a[j - 1] == c && IsMarked(LetterStateOf([c], j - 1, a, t)) then 1 else 0)
  }

  lemma MarkedStep(a: string, t: string, c: char, i: nat)
    requires i < |a|
    ensures Marked(a, t, c, i + 1) == Marked(a, t, c, i) + (if a[i] == c && IsMarked(RankedState(a, t, i)) then 1 else 0)
  {
    if a[i] == c {
      StateAtOccurrence(a, t, i);
    }
  }

  lemma {:induction false} MarkedPrefix(a: string, t: string, c: char, j: nat)
    requires j <= |a|
    ensures Spare(a, t, c) >= 0
    ensures Marked(a, t, c, j) == ExactBelow(a, t, c, j) + Min(NonCorrectBefore(a, t, c, j), Spare(a, t, c))
  {
    SpareIsUnmatched(a, t, c);
    if j > 0 {
      MarkedPrefix(a, t, c, j - 1);
      MarkedStep(a, t, c, j - 1);
    }
  }

  /** Per letter, the evaluator marks as many copies as the attempt and the
      target have in common: never more than the target holds, and no copy
      is left unmarked while a copy in the target is still unclaimed. */
  lemma MarkedIsMin(a: string, t: string, c: char)
    ensures Marked(a, t, c, |a|) == Min(Occurrences(a, [c]), Occurrences(t, [c]))
    ensures Marked(a, t, c, |a|) <= Occurrences(t, [c])
  {
    MarkedPrefix(a, t, c, |a|);
    PrefixCounts(a, t, c, |a|);
    assert a[..|a|] == a;
  }

  // ---------------------------------------------------------------------------
  // A reference evaluation of the whole row
  // ---------------------------------------------------------------------------

  /** The state that the second pass gives letter `i` when `pool` is left. */
  function Allot(a: string, t: string, i: nat, pool: multiset<char>): LetterState
    requires i < |a|
  {
    if ExactAt(a, t, i) then Correct else if a[i] in pool then Present else Absent
  }

  /** The pool after letter `i` has taken its copy, if it took one. */
  function NextPool(a: string, t: string, i: nat, pool: multiset<char>): multiset<char>
    requires i < |a|
  {
    if Allot(a, t, i, pool) == Present then pool - multiset{a[i]} else pool
  }

  /** Second pass of the classic evaluation: from position `i` on, exact
      matches are correct and other letters take a copy from `pool` while
      one is left. */
  function Allocate(a: string, t: string, i: nat, pool: multiset<char>): (row: seq<LetterState>)
    requires i <= |a|
    ensures |row| == |a| - i
    decreases |a| - i
  {
    if i == |a| then [] else [Allot(a, t, i, pool)] + Allocate(a, t, i + 1, NextPool(a, t, i, pool))
  }

  /** The classic two-pass evaluation of a row: first the exact matches, then
      the unmatched target letters handed out left to right. */
  function EvaluateRow(a: string, t: string): (row: seq<LetterState>)
    ensures |row| == |a|
  {
    Allocate(a, t, 0, Unmatched(a, t, |t|))
  }

  /** Taking a copy for letter `i` keeps the pool of every letter equal to
      its spare copies not yet used by non-exact copies before it. */
  lemma PoolStep(a: string, t: string, i: nat, pool: multiset<char>, c: char)
    requires i < |a|
    requires pool[c] == ClampSub(Spare(a, t, c), NonCorrectBefore(a, t, c, i))
    ensures NextPool(a, t, i, pool)[c] == ClampSub(Spare(a, t, c), NonCorrectBefore(a, t, c, i + 1))
  {
  }

  /** The state of letter `k` by its rank among the non-exact copies. */
  function RankedState(a: string, t: string, k: nat): LetterState
    requires k < |a|
  {
    if ExactAt(a, t, k) then Correct
    else if NonCorrectBefore(a, t, a[k], k) < Spare(a, t, a[k]) then Present
    else Absent
  }

  lemma {:induction false} AllocateAgrees(a: string, t: string, i: nat, pool: multiset<char>, k: nat)
    requires i <= k < |a|
    requires pool[a[k]] == ClampSub(Spare(a, t, a[k]), NonCorrectBefore(a, t, a[k], i))
    ensures Allocate(a, t, i, pool)[k - i] == RankedState(a, t, k)
    decreases k - i
  {
    if k > i {
      PoolStep(a, t, i, pool, a[k]);
      AllocateAgrees(a, t, i + 1, NextPool(a, t, i, pool), k);
    }
  }

  /** The evaluator of gameLogic.ts, applied letter by letter, computes the
      classic two-pass evaluation of the row. */
  lemma RowAgrees(a: string, t: string, k: nat)
    requires k < |a|
    ensures EvaluateRow(a, t)[k] == LetterStateOf([a[k]], k, a, t)
  {
    SpareIsUnmatched(a, t, a[k]);
    AllocateAgrees(a, t, 0, Unmatched(a, t, |t|), k);
    StateAtOccurrence(a, t, k);
  }

  // ---------------------------------------------------------------------------
  // The share rule against the evaluator
  // ---------------------------------------------------------------------------

  /** The share grid agrees with the evaluator on green, shows every present
      letter as yellow and every white letter as absent; it may show yellow
      where the evaluator says absent. */
  lemma ShareRefinesEvaluation(a: string, t: string, i: nat)
    requires i < |a|
    ensures ShareCell(a[i], i, t) == Green <==> LetterStateOf([a[i]], i, a, t) == Correct
    ensures LetterStateOf([a[i]], i, a, t) == Present ==> ShareCell(a[i], i, t) == Yellow
    ensures ShareCell(a[i], i, t) == White ==> LetterStateOf([a[i]], i, a, t) == Absent
  {
    var c := a[i];
    assert MatchesAt([c], t, i) <==> ExactAt(a, t, i);
    ShareCellRule(c, i, t);
    IncludesChar(t, c);
  }

  // ---------------------------------------------------------------------------
  // Worked examples
  // ---------------------------------------------------------------------------

  /** Copies of each letter of `LLLHE` in `HELLO`. */
  lemma HelloCounts()
    ensures Occurrences("HELLO", "L") == 2
    ensures Occurrences("HELLO", "H") == 1
    ensures Occurrences("HELLO", "E") == 1
  {
    assert "H"[..0] == [];
    assert Occurrences("H", "L") == 0 && Occurrences("H", "H") == 1 && Occurrences("H", "E") == 0;
    assert "HE"[..1] == "H";
    assert Occurrences("HE", "L") == 0 && Occurrences("HE", "H") == 1 && Occurrences("HE", "E") == 1;
    assert "HEL"[..2] == "HE";
    assert Occurrences("HEL", "L") == 1 && Occurrences("HEL", "H") == 1 && Occurrences("HEL", "E") == 1;
    assert "HELL"[..3] == "HEL";
    assert Occurrences("HELL", "L") == 2 && Occurrences("HELL", "H") == 1 && Occurrences("HELL", "E") == 1;
    assert "HELLO"[..4] == "HELL";
    assert Occurrences("HELLO", "L") == 2 && Occurrences("HELLO", "H") == 1 && Occurrences("HELLO", "E") == 1;
  }

  /** Exact matches of each letter of `LLLHE` against `HELLO`. */
  lemma LllheExactCounts()
    ensures CorrectMatches("LLLHE", "HELLO", "L") == 1
    ensures CorrectMatches("LLLHE", "HELLO", "H") == 0
    ensures CorrectMatches("LLLHE", "HELLO", "E") == 0
  {
    assert "L"[..0] == [];
    assert CorrectMatches("L", "HELLO", "L") == 0 && CorrectMatches("L", "HELLO", "H") == 0 && CorrectMatches("L", "HELLO", "E") == 0;
    assert "LL"[..1] == "L";
    assert CorrectMatches("LL", "HELLO", "L") == 0 && CorrectMatches("LL", "HELLO", "H") == 0 && CorrectMatches("LL", "HELLO", "E") == 0;
    assert "LLL"[..2] == "LL";
    assert CorrectMatches("LLL", "HELLO", "L") == 1 && CorrectMatches("LLL", "HELLO", "H") == 0 && CorrectMatches("LLL", "HELLO", "E") == 0;
    assert "LLLH"[..3] == "LLL";
    assert CorrectMatches("LLLH", "HELLO", "L") == 1 && CorrectMatches("LLLH", "HELLO", "H") == 0 && CorrectMatches("LLLH", "HELLO", "E") == 0;
    assert "LLLHE"[..4] == "LLLH";
    assert CorrectMatches("LLLHE", "HELLO", "L") == 1 && CorrectMatches("LLLHE", "HELLO", "H") == 0 && CorrectMatches("LLLHE", "HELLO", "E") == 0;
  }

  /** Non-exact copies before each letter of `LLLHE` against `HELLO`. */
  lemma LllheRanks()
    ensures NonCorrectBefore("LLLHE", "HELLO", 'L', 0) == 0
    ensures NonCorrectBefore("LLLHE", "HELLO", 'L', 1) == 1
    ensures NonCorrectBefore("LLLHE", "HELLO", 'L', 2) == 2
    ensures NonCorrectBefore("LLLHE", "HELLO", 'H', 3) == 0
    ensures NonCorrectBefore("LLLHE", "HELLO", 'E', 4) == 0
  {
    assert NonCorrectBefore("LLLHE", "HELLO", 'L', 1) == 1 && NonCorrectBefore("LLLHE", "HELLO", 'H', 1) == 0 && NonCorrectBefore("LLLHE", "HELLO", 'E', 1) == 0;
    assert NonCorrectBefore("LLLHE", "HELLO", 'L', 2) == 2 && NonCorrectBefore("LLLHE", "HELLO", 'H', 2) == 0 && NonCorrectBefore("LLLHE", "HELLO", 'E', 2) == 0;
    assert NonCorrectBefore("LLLHE", "HELLO", 'L', 3) == 2 && NonCorrectBefore("LLLHE", "HELLO", 'H', 3) == 0 && NonCorrectBefore("LLLHE", "HELLO", 'E', 3) == 0;
    assert NonCorrectBefore("LLLHE", "HELLO", 'L', 4) == 2 && NonCorrectBefore("LLLHE", "HELLO", 'H', 4) == 1 && NonCorrectBefore("LLLHE", "HELLO", 'E', 4) == 0;
  }

  /** Target `HELLO`, attempt `LLLHE`: present, absent, correct, present,
      present; the share grid shows yellow, yellow, green, yellow, yellow. */
  lemma DuplicateLetterExample()
    ensures LetterStateOf("L", 0, "LLLHE", "HELLO") == Present
    ensures LetterStateOf("L", 1, "LLLHE", "HELLO") == Absent
    ensures LetterStateOf("L", 2, "LLLHE", "HELLO") == Correct
    ensures LetterStateOf("H", 3, "LLLHE", "HELLO") == Present
    ensures LetterStateOf("E", 4, "LLLHE", "HELLO") == Present
    ensures ShareCell('L', 1, "HELLO") == Yellow
  {
    var a, t := "LLLHE", "HELLO";
    HelloCounts();
    LllheExactCounts();
    LllheRanks();
    assert LetterStateOf("L", 0, a, t) == Present by { StateAtOccurrence(a, t, 0); }
    assert LetterStateOf("L", 1, a, t) == Absent by { StateAtOccurrence(a, t, 1); }
    assert LetterStateOf("H", 3, a, t) == Present by { StateAtOccurrence(a, t, 3); }
    assert LetterStateOf("E", 4, a, t) == Present by { StateAtOccurrence(a, t, 4); }
    IncludesChar(t, 'L');
  }

  /** Copies of `L` in `ABCLD`. */
  lemma AbcldCounts()
    ensures Occurrences("ABCLD", "L") == 1
  {
    assert "A"[..0] == [];
    assert Occurrences("A", "L") == 0;
    assert "AB"[..1] == "A";
    assert Occurrences("AB", "L") == 0;
    assert "ABC"[..2] == "AB";
    assert Occurrences("ABC", "L") == 0;
    assert "ABCL"[..3] == "ABC";
    assert Occurrences("ABCL", "L") == 1;
    assert "ABCLD"[..4] == "ABCL";
    assert Occurrences("ABCLD", "L") == 1;
  }

  /** Exact matches of `L` in `LXXLX` against `ABCLD`. */
  lemma LxxlxExactCounts()
    ensures CorrectMatches("LXXLX", "ABCLD", "L") == 1
  {
    assert "L"[..0] == [];
    assert CorrectMatches("L", "ABCLD", "L") == 0;
    assert "LX"[..1] == "L";
    assert CorrectMatches("LX", "ABCLD", "L") == 0;
    assert "LXX"[..2] == "LX";
    assert CorrectMatches("LXX", "ABCLD", "L") == 0;
    assert "LXXL"[..3] == "LXX";
    assert CorrectMatches("LXXL", "ABCLD", "L") == 1;
    assert "LXXLX"[..4] == "LXXL";
    assert CorrectMatches("LXXLX", "ABCLD", "L") == 1;
  }

  /** The spare count looks ahead: an exact `L` at position 3 takes the only
      `L` of the target, so the `L` at position 0 is absent, although the
      share grid shows it yellow. */
  lemma LaterExactMatchConsumesLetter()
    ensures LetterStateOf("L", 0, "LXXLX", "ABCLD") == Absent
    ensures ShareCell('L', 0, "ABCLD") == Yellow
  {
    AbcldCounts();
    LxxlxExactCounts();
    StateAtOccurrence("LXXLX", "ABCLD", 0);
    IncludesChar("ABCLD", 'L');
  }
}
