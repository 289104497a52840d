/** The on-screen keyboard map that a submitted attempt is merged into: one
    entry per letter key, keyed by the one-character string of the letter. */
module KeyboardMerge {
  import opened GameTypes
  import opened Strings
  import opened GameLogic

  type Keyboard = map<string, LetterState>

  // ---------------------------------------------------------------------------
  // The merge, one letter at a time
  // ---------------------------------------------------------------------------

  /** The body of the `forEach` for letter `i` of the attempt: an exact match
      writes `Correct`; a letter found elsewhere in the target writes `Present`
      unless the key already shows `Correct`; any other letter writes `Absent`. */
  function MergeLetter(kb: Keyboard, attempt: string, target: string, i: nat): (r: Keyboard)
    requires i < |attempt|
    ensures [attempt[i]] in r
    ensures r[[attempt[i]]] == Absent <==> !Includes(target, [attempt[i]])
    ensures ExactAt(attempt, target, i) ==> r[[attempt[i]]] == Correct
  {
    var key := [attempt[i]];
    if ExactAt(attempt, target, i) then ExactIsIncluded(attempt, target, i); kb[key := Correct]
    else if Includes(target, key) then
      (if key in kb && kb[key] == Correct then kb else kb[key := Present])
    else kb[key := Absent]
  }

  /** The keyboard after the first `n` letters of the attempt. */
  function MergePrefix(kb: Keyboard, attempt: string, target: string, n: nat): Keyboard
    requires n <= |attempt|
  {
    if n == 0 then kb else MergeLetter(MergePrefix(kb, attempt, target, n - 1), attempt, target, n - 1)
  }

  /** The keyboard after the whole attempt; an empty attempt changes nothing. */
  function Merge(kb: Keyboard, attempt: string, target: string): (r: Keyboard)
    ensures attempt == [] ==> r == kb
  {
    MergePrefix(kb, attempt, target, |attempt|)
  }

  /** The keyboard after a whole history of attempts, starting from `{}`. */
  function KeyboardAfter(attempts: seq<string>, target: string): Keyboard {
    if attempts == [] then map[]
    else Merge(KeyboardAfter(attempts[..|attempts| - 1], target), attempts[|attempts| - 1], target)
  }

  /** The merge as the component runs it: a copy of the old map updated in
      place, one letter after the other. */
  method MergeKeyboard(keyboardState: Keyboard, attempt: string, targetWord: string) returns (newKeyboardState: Keyboard)
    ensures newKeyboardState == Merge(keyboardState, attempt, targetWord)
  {
    newKeyboardState := keyboardState;
    for index := 0 to |attempt|
      invariant newKeyboardState == MergePrefix(keyboardState, attempt, targetWord, index)
    {
      var letter := [attempt[index]];
      if index < |targetWord| && attempt[index] == targetWord[index] {
        newKeyboardState := newKeyboardState[letter := Correct];
      } else if Includes(targetWord, letter) {
        if !(letter in newKeyboardState && newKeyboardState[letter] == Correct) {
          newKeyboardState := newKeyboardState[letter := Present];
        }
      } else {
        newKeyboardState := newKeyboardState[letter := Absent];
      }
    }
  }

  // ---------------------------------------------------------------------------
  // A closed form of the merge
  // ---------------------------------------------------------------------------

  /** Key `k` is one of the first `n` letters of the attempt. */
  predicate TypedBefore(attempt: string, k: string, n: nat)
    requires n <= |attempt|
  {
    n > 0 && ([attempt[n - 1]] == k || TypedBefore(attempt, k, n - 1))
  }

  /** Key `k` sits at its place in the target among the first `n` letters. */
  predicate ExactBefore(attempt: string, target: string, k: string, n: nat)
    requires n <= |attempt|
  {
    n > 0 && (([attempt[n - 1]] == k && ExactAt(attempt, target, n - 1)) || ExactBefore(attempt, target, k, n - 1))
  }

  /** What a key typed in the attempt ends up showing: `Absent` when the target
      lacks the letter, otherwise `Correct` when it already was, or is placed
      exactly somewhere in the attempt, and `Present` in the remaining case. */
  function MergedState(kb: Keyboard, attempt: string, target: string, k: string, n: nat): LetterState
    requires n <= |attempt|
  {
    if !Includes(target, k) then Absent
    else if (k in kb && kb[k] == Correct) || ExactBefore(attempt, target, k, n) then Correct
    else Present
  }

  lemma ExactIsIncluded(attempt: string, target: string, i: nat)
    requires i < |attempt|
    requires ExactAt(attempt, target, i)
    ensures Includes(target, [attempt[i]])
  {
    IncludesChar(target, attempt[i]);
  }

  lemma {:induction false} ExactBeforeIsIncluded(attempt: string, target: string, k: string, n: nat)
    requires n <= |attempt|
    requires ExactBefore(attempt, target, k, n)
    ensures Includes(target, k)
  {
    if [attempt[n - 1]] == k && ExactAt(attempt, target, n - 1) {
      ExactIsIncluded(attempt, target, n - 1);
    } else {
      ExactBeforeIsIncluded(attempt, target, k, n - 1);
    }
  }

  lemma {:induction false} ExactBeforeIsTyped(attempt: string, target: string, k: string, n: nat)
    requires n <= |attempt|
    requires ExactBefore(attempt, target, k, n)
    ensures TypedBefore(attempt, k, n)
  {
    if !([attempt[n - 1]] == k && ExactAt(attempt, target, n - 1)) {
      ExactBeforeIsTyped(attempt, target, k, n - 1);
    }
  }

  /** After `n` letters, a typed key shows `MergedState`, the other keys are
      exactly as before, and no key appears that was neither there nor typed. */
  lemma {:induction false} MergePrefixClosedForm(kb: Keyboard, attempt: string, target: string, n: nat, k: string)
    requires n <= |attempt|
    ensures k in MergePrefix(kb, attempt, target, n) <==> k in kb || TypedBefore(attempt, k, n)
    ensures TypedBefore(attempt, k, n) ==> MergePrefix(kb, attempt, target, n)[k] == MergedState(kb, attempt, target, k, n)
    ensures !TypedBefore(attempt, k, n) && k in kb ==> MergePrefix(kb, attempt, target, n)[k] == kb[k]
  {
    if n > 0 {
      var i := n - 1;
      MergePrefixClosedForm(kb, attempt, target, i, k);
      var prev := MergePrefix(kb, attempt, target, i);
      assert MergePrefix(kb, attempt, target, n) == MergeLetter(prev, attempt, target, i);
      if [attempt[i]] == k {
        if ExactAt(attempt, target, i) {
          ExactIsIncluded(attempt, target, i);
        } else if Includes(target, k) {
          if ExactBefore(attempt, target, k, i) {
            ExactBeforeIsTyped(attempt, target, k, i);
          }
        }
      }
    }
  }

  /** The closed form for a whole attempt. */
  lemma MergeClosedForm(kb: Keyboard, attempt: string, target: string, k: string)
    ensures k in Merge(kb, attempt, target) <==> k in kb || TypedBefore(attempt, k, |attempt|)
    ensures TypedBefore(attempt, k, |attempt|) ==> Merge(kb, attempt, target)[k] == MergedState(kb, attempt, target, k, |attempt|)
    ensures !TypedBefore(attempt, k, |attempt|) && k in kb ==> Merge(kb, attempt, target)[k] == kb[k]
  {
    MergePrefixClosedForm(kb, attempt, target, |attempt|, k);
  }

  lemma {:induction false} TypedAt(attempt: string, i: nat, n: nat)
    requires i < n <= |attempt|
    ensures TypedBefore(attempt, [attempt[i]], n)
  {
    if i < n - 1 {
      TypedAt(attempt, i, n - 1);
    }
  }

  lemma {:induction false} ExactAtBefore(attempt: string, target: string, i: nat, n: nat)
    requires i < n <= |attempt|
    requires ExactAt(attempt, target, i)
    ensures ExactBefore(attempt, target, [attempt[i]], n)
  {
    if i < n - 1 {
      ExactAtBefore(attempt, target, i, n - 1);
    }
  }

  lemma {:induction false} TypedIsLetter(attempt: string, k: string, n: nat) returns (i: nat)
    requires n <= |attempt|
    requires TypedBefore(attempt, k, n)
    ensures i < n && k == [attempt[i]]
  {
    if [attempt[n - 1]] == k {
      i := n - 1;
    } else {
      i := TypedIsLetter(attempt, k, n - 1);
    }
  }

  // ---------------------------------------------------------------------------
  // What the merge promises
  // ---------------------------------------------------------------------------

  /** Every letter placed exactly in the attempt shows `Correct` afterwards. */
  lemma MergeMarksExact(kb: Keyboard, attempt: string, target: string, i: nat)
    requires i < |attempt|
    requires ExactAt(attempt, target, i)
    ensures [attempt[i]] in Merge(kb, attempt, target)
    ensures Merge(kb, attempt, target)[[attempt[i]]] == Correct
  {
    TypedAt(attempt, i, |attempt|);
    ExactAtBefore(attempt, target, i, |attempt|);
    ExactIsIncluded(attempt, target, i);
    MergeClosedForm(kb, attempt, target, [attempt[i]]);
  }

  /** The keys after the merge are the old keys plus the letters of the attempt. */
  lemma MergeKeys(kb: Keyboard, attempt: string, target: string)
    ensures Merge(kb, attempt, target).Keys == kb.Keys + set i | 0 <= i < |attempt| :: [attempt[i]]
  {
    var typed := set i | 0 <= i < |attempt| :: [attempt[i]];
    var merged := Merge(kb, attempt, target);
    forall k | k in merged.Keys
      ensures k in kb.Keys + typed
    {
      MergeClosedForm(kb, attempt, target, k);
      if k !in kb {
        var i := TypedIsLetter(attempt, k, |attempt|);
        assert k in typed;
      }
    }
    forall k | k in kb.Keys + typed
      ensures k in merged.Keys
    {
      MergeClosedForm(kb, attempt, target, k);
      if k !in kb {
        var i :| 0 <= i < |attempt| && k == [attempt[i]];
        TypedAt(attempt, i, |attempt|);
      }
    }
  }

  /** A keyboard tells the truth about a target: no key is `Unused`, and a key
      shows `Absent` exactly when the target lacks that letter. */
  ghost predicate KeyboardConsistent(kb: Keyboard, target: string) {
    forall k :: k in kb ==> kb[k] != Unused && (kb[k] == Absent <==> !Includes(target, k))
  }

  /** How much a key tells: nothing, absent, present, correct. */
  function Rank(s: LetterState): nat {
    match s
    case Unused => 0
    case Absent => 1
    case Present => 2
    case Correct => 3
  }

  /** Merging an attempt into a truthful keyboard keeps it truthful. */
  lemma MergePreservesConsistent(kb: Keyboard, attempt: string, target: string)
    requires KeyboardConsistent(kb, target)
    ensures KeyboardConsistent(Merge(kb, attempt, target), target)
  {
    forall k | k in Merge(kb, attempt, target) {
      MergeClosedForm(kb, attempt, target, k);
    }
  }

  /** On a truthful keyboard the merge never lowers what a key shows: a
      `Correct` key stays `Correct`, and the only change to a key already
      shown is from `Present` to `Correct`. */
  lemma MergeNeverDowngrades(kb: Keyboard, attempt: string, target: string, k: string)
    requires KeyboardConsistent(kb, target)
    requires k in kb
    ensures k in Merge(kb, attempt, target)
    ensures Rank(kb[k]) <= Rank(Merge(kb, attempt, target)[k])
    ensures kb[k] == Correct ==> Merge(kb, attempt, target)[k] == Correct
    ensures Merge(kb, attempt, target)[k] == kb[k] || (kb[k] == Present && Merge(kb, attempt, target)[k] == Correct)
  {
    MergeClosedForm(kb, attempt, target, k);
  }

  /** The truthfulness assumption is needed: on a keyboard that shows `Z` as
      `Correct` for a target without `Z`, typing `Z` turns it to `Absent`. */
  lemma DowngradeNeedsInconsistentKeyboard()
    ensures Merge(map["Z" := Correct], "ZZZZZ", "HELLO")["Z"] == Absent
  {
    IncludesChar("HELLO", 'Z');
    MergeClosedForm(map["Z" := Correct], "ZZZZZ", "HELLO", "Z");
  }

  /** The keyboard kept over a history is truthful about the target. */
  lemma {:induction false} KeyboardAfterConsistent(attempts: seq<string>, target: string)
    ensures KeyboardConsistent(KeyboardAfter(attempts, target), target)
  {
    if attempts != [] {
      KeyboardAfterConsistent(attempts[..|attempts| - 1], target);
      MergePreservesConsistent(KeyboardAfter(attempts[..|attempts| - 1], target), attempts[|attempts| - 1], target);
    }
  }

  /** The keyboard after a history shows `Correct` for every letter that any
      attempt of the history placed exactly. */
  lemma {:induction false} KeyboardAfterKeepsCorrect(attempts: seq<string>, target: string, j: nat, i: nat)
    requires j < |attempts| && i < |attempts[j]|
    requires ExactAt(attempts[j], target, i)
    ensures [attempts[j][i]] in KeyboardAfter(attempts, target)
    ensures KeyboardAfter(attempts, target)[[attempts[j][i]]] == Correct
  {
    var n := |attempts| - 1;
    var before := KeyboardAfter(attempts[..n], target);
    if j == n {
      MergeMarksExact(before, attempts[n], target, i);
    } else {
      assert attempts[..n][j] == attempts[j];
      KeyboardAfterKeepsCorrect(attempts[..n], target, j, i);
      KeyboardAfterConsistent(attempts[..n], target);
      MergeNeverDowngrades(before, attempts[n], target, [attempts[j][i]]);
    }
  }

  /** The example keyboard after `LLLHE` against `HELLO`: `L` is correct
      (placed exactly at index 2), `H` and `E` are present. */
  lemma MergeExample()
    ensures Merge(map[], "LLLHE", "HELLO") == map["L" := Correct, "H" := Present, "E" := Present]
  {
    IncludesChar("HELLO", 'L');
    IncludesChar("HELLO", 'H');
    IncludesChar("HELLO", 'E');
    var a := "LLLHE";
    assert ExactAt(a, "HELLO", 2);
    assert !ExactAt(a, "HELLO", 0) && !ExactAt(a, "HELLO", 1) && !ExactAt(a, "HELLO", 3) && !ExactAt(a, "HELLO", 4);
    var m1 := MergePrefix(map[], a, "HELLO", 1);
    assert m1 == map["L" := Present];
    var m2 := MergePrefix(map[], a, "HELLO", 2);
    assert m2 == map["L" := Present];
    var m3 := MergePrefix(map[], a, "HELLO", 3);
    assert m3 == map["L" := Correct];
    var m4 := MergePrefix(map[], a, "HELLO", 4);
    assert m4 == map["L" := Correct, "H" := Present];
  }
}
