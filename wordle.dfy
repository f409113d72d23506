/** The matcher and the candidate filter of the Wordle engine (src/wordle.rs).
    Words are sequences of Unicode code points, the model of `Vec<char>`. */
module Wordle {

  /** Per-position verdict of a guess against the target. */
  datatype Letter = Green | Yellow | Gray

  /** The verdicts of one guess, one per guess position. */
  datatype CheckResult = CheckResult(letters: seq<Letter>) {

    /** The game is won: every position is green. */
    predicate Success()
    {
      forall i | 0 <= i < |letters| :: letters[i] == Green
    }

    /** `result[i]` (the `Index` impl). */
    function Get(i: nat): (l: Letter)
      requires i < |letters|
    {
      letters[i]
    }
  }

  /** The verdict at position `i` of `word`: green when the target has the
      same letter there; yellow when the letter is somewhere in the target and
      was not met at an earlier position of the guess (greens count as met);
      gray otherwise. */
  function MarkAt(word: seq<char>, target: seq<char>, i: nat): (l: Letter)
    requires i < |word| <= |target|
  {
    if target[i] == word[i] then Green
    else if word[i] !in word[..i] && word[i] in target then Yellow
    else Gray
  }

  /** The verdicts of the first `n` positions of `word` against `target`. */
  function MarksUpTo(word: seq<char>, target: seq<char>, n: nat): (r: seq<Letter>)
    requires n <= |word| <= |target|
    ensures |r| == n
  {
    if n == 0 then [] else MarksUpTo(word, target, n - 1) + [MarkAt(word, target, n - 1)]
  }

  /** The verdicts the one-pass matcher gives `word` against `target`. */
  function Marks(word: seq<char>, target: seq<char>): (r: seq<Letter>)
    requires |word| <= |target|
    ensures |r| == |word|
  {
    MarksUpTo(word, target, |word|)
  }

  lemma {:induction false} MarksUpToAt(word: seq<char>, target: seq<char>, n: nat, i: nat)
    requires i < n <= |word| <= |target|
    ensures MarksUpTo(word, target, n)[i] == MarkAt(word, target, i)
  {
    if i < n - 1 {
      MarksUpToAt(word, target, n - 1, i);
    }
  }

  /** One verdict per guess position; green exactly where the letters agree,
      yellow exactly where the letter is elsewhere in the target and is not
      at an earlier guess position (greens count as occurrences too), gray
      everywhere else. */
  lemma MarksAt(word: seq<char>, target: seq<char>, i: nat)
    requires |word| <= |target| && i < |word|
    ensures Marks(word, target)[i] == Green <==> word[i] == target[i]
    ensures Marks(word, target)[i] == Yellow <==>
      word[i] != target[i] && word[i] in target && word[i] !in word[..i]
    ensures Marks(word, target)[i] == Gray <==>
      word[i] != target[i] && (word[i] !in target || word[i] in word[..i])
  {
    MarksUpToAt(word, target, |word|, i);
  }

  /** `check_word`: one left-to-right pass that records every letter it has
      looked at in `used`. */
  method CheckWord(word: seq<char>, target: seq<char>) returns (r: CheckResult)
    requires |word| <= |target|
    ensures r.letters == Marks(word, target)
  {
    var result: seq<Letter> := [];
    var used: set<char> := {};
    for i := 0 to |word|
      invariant |result| == i
      invariant forall c :: c in used <==> c in word[..i]
      invariant result == MarksUpTo(word, target, i)
    {
      var c := word[i];
      result := result + [if target[i] == c then Green
                          else if c !in used && c in target then Yellow
                          else Gray];
      assert word[..i + 1] == word[..i] + [c];
      used := used + {c};
    }
    r := CheckResult(result);
  }

  /** A recorded attempt: the guessed word and the verdicts it received. */
  type Attempt = (seq<char>, CheckResult)

  /** The filter may index `word[i]` and `guess[i]` at every verdict position. */
  predicate Fits(word: seq<char>, attempt: Attempt)
  {
    |attempt.1.letters| <= |word| && |attempt.1.letters| <= |attempt.0|
  }

  predicate AllFit(word: seq<char>, attempts: seq<Attempt>)
  {
    forall k | 0 <= k < |attempts| :: Fits(word, attempts[k])
  }

  /** The constraint one verdict `l` for guess letter `c` at position `i`
      puts on a candidate `word`. Gray forbids the letter only at `i`. */
  predicate Allows(word: seq<char>, i: nat, c: char, l: Letter)
    requires i < |word|
  {
    match l
    case Green => word[i] == c
    case Yellow => c in word && word[i] != c
    case Gray => word[i] != c
  }

  /** `word` satisfies every positional constraint of one attempt. */
  predicate Permits(word: seq<char>, attempt: Attempt)
    requires Fits(word, attempt)
  {
    forall i | 0 <= i < |attempt.1.letters| :: Allows(word, i, attempt.0[i], attempt.1.letters[i])
  }

  /** `word` is still a candidate after all `attempts`. */
  predicate Consistent(word: seq<char>, attempts: seq<Attempt>)
    requires AllFit(word, attempts)
  {
    forall k | 0 <= k < |attempts| :: Permits(word, attempts[k])
  }

  /** `filter_word`: a nested scan that rejects at the first violated constraint. */
  method FilterWord(word: seq<char>, results: seq<Attempt>) returns (ok: bool)
    requires AllFit(word, results)
    ensures ok == Consistent(word, results)
  {
    for k := 0 to |results|
      invariant forall m | 0 <= m < k :: Permits(word, results[m])
    {
      var (current, result) := results[k];
      assert Fits(word, results[k]);
      for i := 0 to |result.letters|
        invariant forall j | 0 <= j < i :: Allows(word, j, current[j], result.letters[j])
      {
        match result.letters[i]
        case Green =>
          if word[i] != current[i] {
            assert !Permits(word, results[k]);
            return false;
          }
        case Yellow =>
          if current[i] !in word || word[i] == current[i] {
            assert !Permits(word, results[k]);
            return false;
          }
        case Gray =>
          if word[i] == current[i] {
            assert !Permits(word, results[k]);
            return false;
          }
      }
    }
    return true;
  }

  // ---------------------------------------------------------------------------
  // Properties of the matcher

  /** A letter value is yellow at most once, at its first occurrence in the guess. */
  lemma YellowOnlyAtFirstOccurrence(word: seq<char>, target: seq<char>, i: nat, j: nat)
    requires |word| <= |target|
    requires i < j < |word| && word[i] == word[j]
    ensures Marks(word, target)[j] != Yellow
  {
    MarksAt(word, target, j);
    assert word[j] in word[..j];
  }

  /** A word checked against itself is all green. */
  lemma SelfIsSuccess(w: seq<char>)
    ensures CheckResult(Marks(w, w)).Success()
  {
    forall i | 0 <= i < |w| ensures Marks(w, w)[i] == Green {
      MarksAt(w, w, i);
    }
  }

  /** All green means the guess is the target. */
  lemma SuccessMeansTarget(guess: seq<char>, target: seq<char>)
    requires |guess| == |target|
    ensures CheckResult(Marks(guess, target)).Success() <==> guess == target
  {
    if guess == target {
      SelfIsSuccess(guess);
    } else {
      var i :| 0 <= i < |guess| && guess[i] != target[i];
      MarksAt(guess, target, i);
    }
  }

  /** A five-letter verdict spelled out position by position. */
  lemma MarksOfFive(w: seq<char>, t: seq<char>)
    requires |w| == |t| == 5
    ensures Marks(w, t) == [MarkAt(w, t, 0), MarkAt(w, t, 1), MarkAt(w, t, 2), MarkAt(w, t, 3), MarkAt(w, t, 4)]
  {
    assert MarksUpTo(w, t, 1) == [MarkAt(w, t, 0)];
    assert MarksUpTo(w, t, 2) == MarksUpTo(w, t, 1) + [MarkAt(w, t, 1)];
    assert MarksUpTo(w, t, 3) == MarksUpTo(w, t, 2) + [MarkAt(w, t, 2)];
    assert MarksUpTo(w, t, 4) == MarksUpTo(w, t, 3) + [MarkAt(w, t, 3)];
  }

  /** The fixture `check_word_test`. */
  lemma CheckWordFixture()
    ensures Marks("сдоба", "ткань") == [Gray, Gray, Gray, Gray, Yellow]
    ensures !CheckResult(Marks("сдоба", "ткань")).Success()
  {
    var w, t := "сдоба", "ткань";
    MarksOfFive(w, t);
    assert MarkAt(w, t, 0) == Gray;
    assert MarkAt(w, t, 1) == Gray;
    assert MarkAt(w, t, 2) == Gray;
    assert MarkAt(w, t, 3) == Gray;
    assert MarkAt(w, t, 4) == Yellow by {
      assert w[..4] == "сдоб";
      assert t[2] == 'а';
    }
    assert Marks(w, t)[0] != Green;
  }

  /** The fixture `check_second_occurrence_is_gray`. */
  lemma SecondOccurrenceFixture()
    ensures Marks("канал", "ткань") == [Yellow, Yellow, Yellow, Gray, Gray]
    ensures !CheckResult(Marks("канал", "ткань")).Success()
    ensures CheckResult(Marks("канал", "ткань")).Get(0) == Yellow
  {
    var w, t := "канал", "ткань";
    MarksOfFive(w, t);
    assert MarkAt(w, t, 0) == Yellow by {
      assert w[..0] == [];
      assert t[1] == 'к';
    }
    assert MarkAt(w, t, 1) == Yellow by {
      assert w[..1] == "к";
      assert t[2] == 'а';
    }
    assert MarkAt(w, t, 2) == Yellow by {
      assert w[..2] == "ка";
      assert t[3] == 'н';
    }
    assert MarkAt(w, t, 3) == Gray by {
      assert w[..3] == "кан";
      assert w[1] == 'а';
    }
    assert MarkAt(w, t, 4) == Gray;
    assert Marks(w, t)[0] != Green;
  }

  /** The fixture `check_success`. */
  lemma SuccessFixture()
    ensures Marks("ткань", "ткань") == [Green, Green, Green, Green, Green]
    ensures CheckResult(Marks("ткань", "ткань")).Success()
  {
    var w := "ткань";
    MarksOfFive(w, w);
    assert MarkAt(w, w, 0) == Green && MarkAt(w, w, 1) == Green && MarkAt(w, w, 2) == Green;
    assert MarkAt(w, w, 3) == Green && MarkAt(w, w, 4) == Green;
  }

  /** The one-pass matcher can credit one target letter twice: in "aza" against
      "yya" the single 'a' of the target yields a yellow and a green. */
  lemma DuplicateLetterCountedTwice()
    ensures Marks("aza", "yya") == [Yellow, Gray, Green]
  {
    var w, t := "aza", "yya";
    assert MarkAt(w, t, 0) == Yellow by {
      assert w[..0] == [];
      assert t[2] == 'a';
    }
    assert MarkAt(w, t, 1) == Gray;
    assert MarkAt(w, t, 2) == Green;
    assert MarksUpTo(w, t, 1) == [MarkAt(w, t, 0)];
    assert MarksUpTo(w, t, 2) == MarksUpTo(w, t, 1) + [MarkAt(w, t, 1)];
  }

  // ---------------------------------------------------------------------------
  // Properties of the filter

  lemma ConsistentWithNothing(word: seq<char>)
    ensures Consistent(word, [])
  {
  }

  /** One more attempt can only turn a candidate into a non-candidate. */
  lemma ConsistentAppend(word: seq<char>, attempts: seq<Attempt>, a: Attempt)
    requires AllFit(word, attempts) && Fits(word, a)
    ensures AllFit(word, attempts + [a])
    ensures Consistent(word, attempts + [a]) <==> Consistent(word, attempts) && Permits(word, a)
  {
    var all := attempts + [a];
    assert forall k | 0 <= k < |attempts| :: all[k] == attempts[k];
    assert all[|attempts|] == a;
  }

  /** The target satisfies the verdicts it gave to any guess of its length. */
  lemma TargetPermitsItsVerdict(guess: seq<char>, target: seq<char>)
    requires |guess| == |target|
    ensures Fits(target, (guess, CheckResult(Marks(guess, target))))
    ensures Permits(target, (guess, CheckResult(Marks(guess, target))))
  {
    forall i | 0 <= i < |guess| ensures Allows(target, i, guess[i], Marks(guess, target)[i]) {
      MarksAt(guess, target, i);
    }
  }

  /** Every attempt is a guess of length `|target|` scored by the matcher. */
  predicate Scored(attempts: seq<Attempt>, target: seq<char>)
  {
    forall k | 0 <= k < |attempts| ::
      |attempts[k].0| == |target| && attempts[k].1 == CheckResult(Marks(attempts[k].0, target))
  }

  /** Soundness: filtering by true verdicts never drops the target. */
  lemma TargetIsConsistent(target: seq<char>, attempts: seq<Attempt>)
    requires Scored(attempts, target)
    ensures AllFit(target, attempts)
    ensures Consistent(target, attempts)
  {
    forall k | 0 <= k < |attempts| ensures Fits(target, attempts[k]) && Permits(target, attempts[k]) {
      TargetPermitsItsVerdict(attempts[k].0, target);
    }
  }

  /** A guess that did not win fails its own attempt. */
  lemma LosingGuessRejectsItself(guess: seq<char>, target: seq<char>)
    requires |guess| == |target|
    requires !CheckResult(Marks(guess, target)).Success()
    ensures Fits(guess, (guess, CheckResult(Marks(guess, target))))
    ensures !Permits(guess, (guess, CheckResult(Marks(guess, target))))
  {
    var r := Marks(guess, target);
    var i :| 0 <= i < |r| && r[i] != Green;
    MarksAt(guess, target, i);
    assert !Allows(guess, i, guess[i], r[i]);
  }
}
