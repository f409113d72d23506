/** The solving loop (src/solver.rs): guess a candidate, score it against the
    target, record the attempt, and narrow the candidates by every attempt so far. */
module Solver {
  import opened Wordle

  /** `MAX_ATTEMPTS`. The bound check runs after the push and uses `>`, so a
      game records at most `MaxAttempts + 1` attempts. */
  const MaxAttempts: nat := 6

  /** The outcome of one game. */
  datatype Solution = Success(tries: nat) | Failure

  /** `xs` keeps some of the entries of `ys`, in their order. */
  predicate IsSubsequence<T(==)>(xs: seq<T>, ys: seq<T>)
    decreases |ys|
  {
    if xs == [] then true
    else if ys == [] then false
    else (xs[|xs| - 1] == ys[|ys| - 1] && IsSubsequence(xs[..|xs| - 1], ys[..|ys| - 1]))
         || IsSubsequence(xs, ys[..|ys| - 1])
  }

  /** A subsequence stays one when the longer sequence gains an entry, kept or skipped. */
  lemma SubsequenceExtend<T>(xs: seq<T>, ys: seq<T>, y: T)
    requires IsSubsequence(xs, ys)
    ensures IsSubsequence(xs + [y], ys + [y])
    ensures IsSubsequence(xs, ys + [y])
  {
    assert (xs + [y])[..|xs|] == xs;
    assert (ys + [y])[..|ys|] == ys;
  }

  /** The dictionary narrowed to words of length `n`, in dictionary order. The
      source compares UTF-8 byte lengths; here words are code-point sequences
      and the comparison is on their length. */
  function OfLength(words: seq<seq<char>>, n: nat): (r: seq<seq<char>>)
    ensures |r| <= |words|
  {
    if words == [] then []
    else
      var last := words[|words| - 1];
      var init := words[..|words| - 1];
      assert words == init + [last];
      OfLength(init, n) + (if |last| == n then [last] else [])
  }

  /** The length filter keeps exactly the dictionary words of length `n`. */
  lemma {:induction false} OfLengthMembers(words: seq<seq<char>>, n: nat, w: seq<char>)
    ensures w in OfLength(words, n) <==> w in words && |w| == n
  {
    if words != [] {
      var init := words[..|words| - 1];
      assert words == init + [words[|words| - 1]];
      OfLengthMembers(init, n, w);
    }
  }

  /** Every word the length filter keeps has length `n`. */
  lemma OfLengthWidth(words: seq<seq<char>>, n: nat)
    ensures forall w | w in OfLength(words, n) :: |w| == n
  {
    forall w | w in OfLength(words, n) ensures |w| == n {
      OfLengthMembers(words, n, w);
    }
  }

  /** The length filter keeps the dictionary order. */
  lemma {:induction false} OfLengthIsSubsequence(words: seq<seq<char>>, n: nat)
    ensures IsSubsequence(OfLength(words, n), words)
  {
    if words != [] {
      var last := words[|words| - 1];
      var init := words[..|words| - 1];
      assert words == init + [last];
      OfLengthIsSubsequence(init, n);
      SubsequenceExtend(OfLength(init, n), init, last);
      assert OfLength(init, n) + [] == OfLength(init, n);
    }
  }

  /** Every word of `words` can be checked against every attempt. */
  predicate AllFitAll(words: seq<seq<char>>, attempts: seq<Attempt>)
  {
    forall w | w in words :: AllFit(w, attempts)
  }

  /** The candidates that survive `filter_word` against all `attempts`, in order. */
  function Narrow(words: seq<seq<char>>, attempts: seq<Attempt>): (r: seq<seq<char>>)
    requires AllFitAll(words, attempts)
    ensures |r| <= |words|
  {
    if words == [] then []
    else
      var last := words[|words| - 1];
      var init := words[..|words| - 1];
      assert words == init + [last];
      Narrow(init, attempts) + (if Consistent(last, attempts) then [last] else [])
  }

  /** The filter keeps the candidates' order: it only drops entries. */
  lemma {:induction false} NarrowIsSubsequence(words: seq<seq<char>>, attempts: seq<Attempt>)
    requires AllFitAll(words, attempts)
    ensures IsSubsequence(Narrow(words, attempts), words)
  {
    if words != [] {
      var last := words[|words| - 1];
      var init := words[..|words| - 1];
      assert words == init + [last];
      NarrowIsSubsequence(init, attempts);
      SubsequenceExtend(Narrow(init, attempts), init, last);
      assert Narrow(init, attempts) + [] == Narrow(init, attempts);
    }
  }

  /** The narrowed list holds exactly the consistent words of the input. */
  lemma {:induction false} NarrowMembers(words: seq<seq<char>>, attempts: seq<Attempt>, w: seq<char>)
    requires AllFitAll(words, attempts)
    ensures w in Narrow(words, attempts) <==> w in words && Consistent(w, attempts)
  {
    if words != [] {
      var init := words[..|words| - 1];
      assert words == init + [words[|words| - 1]];
      NarrowMembers(init, attempts, w);
    }
  }

  /** Removing a word that fails the filter makes the candidate list strictly
      shorter, however many copies of it the list holds. */
  lemma {:induction false} NarrowDropsRejected(words: seq<seq<char>>, attempts: seq<Attempt>, g: seq<char>)
    requires AllFitAll(words, attempts)
    requires g in words && !Consistent(g, attempts)
    ensures |Narrow(words, attempts)| < |words|
  {
    var last := words[|words| - 1];
    var init := words[..|words| - 1];
    assert words == init + [last];
    if last != g {
      NarrowDropsRejected(init, attempts, g);
    }
  }

  /** The filtering pass of the loop: keeps, in order, each word that
      `FilterWord` accepts against every attempt. */
  method Retain(words: seq<seq<char>>, attempts: seq<Attempt>) returns (kept: seq<seq<char>>)
    requires AllFitAll(words, attempts)
    ensures kept == Narrow(words, attempts)
  {
    kept := [];
    for i := 0 to |words|
      invariant kept == Narrow(words[..i], attempts)
    {
      var keep := FilterWord(words[i], attempts);
      assert words[..i + 1][..i] == words[..i];
      if keep {
        kept := kept + [words[i]];
      }
    }
    assert words[..|words|] == words;
  }

  /** Every word has length `n`. */
  predicate OfWidth(words: seq<seq<char>>, n: nat)
  {
    forall w | w in words :: |w| == n
  }

  /** Scored attempts can be checked against any word of the target's length. */
  lemma ScoredFits(words: seq<seq<char>>, attempts: seq<Attempt>, target: seq<char>)
    requires OfWidth(words, |target|) && Scored(attempts, target)
    ensures AllFitAll(words, attempts)
  {
    forall w, k | w in words && 0 <= k < |attempts| ensures Fits(w, attempts[k]) {
      assert |attempts[k].1.letters| == |target|;
    }
  }

  /** Each word the filter keeps is a word of its input that every attempt allows. */
  lemma NarrowWithin(words: seq<seq<char>>, attempts: seq<Attempt>)
    requires AllFitAll(words, attempts)
    ensures forall w | w in Narrow(words, attempts) :: w in words && Consistent(w, attempts)
  {
    forall w | w in Narrow(words, attempts) ensures w in words && Consistent(w, attempts) {
      NarrowMembers(words, attempts, w);
    }
  }

  /** Before the first attempt the filter keeps every candidate. */
  lemma {:induction false} NarrowByNothing(words: seq<seq<char>>)
    ensures AllFitAll(words, [])
    ensures Narrow(words, []) == words
  {
    if words != [] {
      var last := words[|words| - 1];
      var init := words[..|words| - 1];
      assert words == init + [last];
      NarrowByNothing(init);
      ConsistentWithNothing(last);
    }
  }

  /** Words that fit a list of attempts fit every prefix of it. */
  lemma AllFitAllPrefix(words: seq<seq<char>>, attempts: seq<Attempt>, a: Attempt)
    requires AllFitAll(words, attempts + [a])
    ensures AllFitAll(words, attempts)
  {
    var longer := attempts + [a];
    forall w, k | w in words && 0 <= k < |attempts| ensures Fits(w, attempts[k]) {
      assert longer[k] == attempts[k];
      assert AllFit(w, longer);
    }
  }

  /** Filtering the survivors of `attempts` by `attempts + [a]` is filtering the
      original list by `attempts + [a]`: a word that fails an earlier attempt fails
      the longer list too. This is why the loop may narrow its current list rather
      than the whole dictionary. */
  lemma {:induction false} NarrowAgain(words: seq<seq<char>>, attempts: seq<Attempt>, a: Attempt)
    requires AllFitAll(words, attempts + [a])
    ensures AllFitAll(words, attempts)
    ensures AllFitAll(Narrow(words, attempts), attempts + [a])
    ensures Narrow(Narrow(words, attempts), attempts + [a]) == Narrow(words, attempts + [a])
  {
    var longer := attempts + [a];
    AllFitAllPrefix(words, attempts, a);
    NarrowWithin(words, attempts);
    if words != [] {
      var last := words[|words| - 1];
      var init := words[..|words| - 1];
      assert words == init + [last];
      NarrowAgain(init, attempts, a);
      var once := Narrow(init, attempts);
      assert last in words && AllFit(last, longer);
      assert Fits(last, longer[|attempts|]);
      ConsistentAppend(last, attempts, a);
      if Consistent(last, attempts) {
        assert Narrow(words, attempts) == once + [last];
        assert (once + [last])[..|once|] == once;
      } else {
        assert Narrow(words, attempts) == once + [];
        assert once + [] == once;
      }
    }
  }

  /** `w` is a word the solver may guess after `history`: a dictionary word of the
      target's length that every verdict in `history` allows. */
  predicate Eligible(words: seq<seq<char>>, target: seq<char>, history: seq<Attempt>, w: seq<char>)
  {
    w in words && |w| == |target| && AllFit(w, history) && Consistent(w, history)
  }

  /** Each guess was eligible given the attempts before it. */
  predicate Chosen(words: seq<seq<char>>, target: seq<char>, attempts: seq<Attempt>)
  {
    forall k | 0 <= k < |attempts| :: Eligible(words, target, attempts[..k], attempts[k].0)
  }

  /** The candidate list after `attempts` holds exactly the eligible words. */
  lemma PoolMembers(words: seq<seq<char>>, target: seq<char>, attempts: seq<Attempt>, w: seq<char>)
    requires Scored(attempts, target)
    ensures AllFitAll(OfLength(words, |target|), attempts)
    ensures w in Narrow(OfLength(words, |target|), attempts) <==> Eligible(words, target, attempts, w)
  {
    OfLengthWidth(words, |target|);
    OfLengthMembers(words, |target|, w);
    ScoredFits(OfLength(words, |target|), attempts, target);
    NarrowMembers(OfLength(words, |target|), attempts, w);
  }

  /** Recording an eligible guess keeps every guess eligible at its turn. */
  lemma ChosenPush(words: seq<seq<char>>, target: seq<char>, attempts: seq<Attempt>, a: Attempt)
    requires Chosen(words, target, attempts) && Eligible(words, target, attempts, a.0)
    ensures Chosen(words, target, attempts + [a])
  {
    var next := attempts + [a];
    forall k | 0 <= k < |next| ensures Eligible(words, target, next[..k], next[k].0) {
      if k < |attempts| {
        assert next[..k] == attempts[..k];
      } else {
        assert next[..k] == attempts;
      }
    }
  }

  /** Recording a scored guess of the target's length keeps every attempt scored. */
  lemma ScoredPush(attempts: seq<Attempt>, target: seq<char>, guess: seq<char>, r: CheckResult)
    requires Scored(attempts, target)
    requires |guess| == |target| && r.letters == Marks(guess, target)
    ensures Scored(attempts + [(guess, r)], target)
  {
    var next := attempts + [(guess, r)];
    forall k | 0 <= k < |next|
      ensures |next[k].0| == |target| && next[k].1 == CheckResult(Marks(next[k].0, target))
    {
      if k < |attempts| {
        assert next[k] == attempts[k];
      }
    }
  }

  /** Recording another lost guess keeps every recorded guess lost. */
  lemma LostPush(attempts: seq<Attempt>, a: Attempt)
    requires forall k | 0 <= k < |attempts| :: !attempts[k].1.Success()
    ensures forall k | 0 <= k < |attempts + [a]| - 1 :: !(attempts + [a])[k].1.Success()
    ensures !a.1.Success() ==> forall k | 0 <= k < |attempts + [a]| :: !(attempts + [a])[k].1.Success()
  {
    var next := attempts + [a];
    forall k | 0 <= k < |attempts| ensures next[k] == attempts[k] {
    }
  }

  /** When no candidate is left, no dictionary word is eligible any more. */
  lemma EmptyPoolMeansExhausted(words: seq<seq<char>>, target: seq<char>, attempts: seq<Attempt>)
    requires Scored(attempts, target)
    requires AllFitAll(OfLength(words, |target|), attempts)
    requires Narrow(OfLength(words, |target|), attempts) == []
    ensures forall w | w in words :: !Eligible(words, target, attempts, w)
  {
    forall w | w in words ensures !Eligible(words, target, attempts, w) {
      PoolMembers(words, target, attempts, w);
    }
  }

  /** No word is guessed twice in a game: a lost guess is rejected by its own verdict. */
  lemma NoRepeatedGuess(words: seq<seq<char>>, target: seq<char>, attempts: seq<Attempt>)
    requires Scored(attempts, target) && Chosen(words, target, attempts)
    requires forall k | 0 <= k < |attempts| - 1 :: !attempts[k].1.Success()
    ensures forall i, j | 0 <= i < j < |attempts| :: attempts[i].0 != attempts[j].0
  {
    forall i, j | 0 <= i < j < |attempts| ensures attempts[i].0 != attempts[j].0 {
      var g := attempts[i].0;
      LosingGuessRejectsItself(g, target);
      assert attempts[i] == (g, CheckResult(Marks(g, target)));
      assert Eligible(words, target, attempts[..j], attempts[j].0);
      assert attempts[..j][i] == attempts[i];
      assert Permits(attempts[j].0, attempts[i]);
    }
  }

  /** A lost guess leaves strictly fewer candidates than the list it was drawn from. */
  lemma PoolShrinks(words: seq<seq<char>>, target: seq<char>, attempts: seq<Attempt>, g: seq<char>)
    requires Scored(attempts, target) && AllFitAll(OfLength(words, |target|), attempts)
    requires g in Narrow(OfLength(words, |target|), attempts) && |g| == |target|
    requires !CheckResult(Marks(g, target)).Success()
    ensures AllFitAll(OfLength(words, |target|), attempts + [(g, CheckResult(Marks(g, target)))])
    ensures |Narrow(OfLength(words, |target|), attempts + [(g, CheckResult(Marks(g, target)))])|
          < |Narrow(OfLength(words, |target|), attempts)|
  {
    OfLengthWidth(words, |target|);
    var a := (g, CheckResult(Marks(g, target)));
    ScoredPush(attempts, target, g, a.1);
    ScoredFits(OfLength(words, |target|), attempts + [a], target);
    NarrowAgain(OfLength(words, |target|), attempts, a);
    PoolMembers(words, target, attempts, g);
    LosingGuessRejectsItself(g, target);
    ConsistentAppend(g, attempts, a);
    NarrowDropsRejected(Narrow(OfLength(words, |target|), attempts), attempts + [a], g);
  }

  /** The state the loop keeps between turns: every attempt so far is a lost
      guess, scored by the matcher and eligible at its turn, and `candidates` is
      the length-filtered dictionary narrowed by all of them. */
  predicate InPlay(words: seq<seq<char>>, target: seq<char>, attempts: seq<Attempt>, candidates: seq<seq<char>>)
  {
    && Scored(attempts, target)
    && Chosen(words, target, attempts)
    && (forall k | 0 <= k < |attempts| :: !attempts[k].1.Success())
    && AllFitAll(OfLength(words, |target|), attempts)
    && candidates == Narrow(OfLength(words, |target|), attempts)
  }

  /** Before the first turn the candidates are the words of the target's length. */
  lemma InPlayStart(words: seq<seq<char>>, target: seq<char>)
    ensures InPlay(words, target, [], OfLength(words, |target|))
  {
    NarrowByNothing(OfLength(words, |target|));
  }

  /** A guess drawn from the candidates and scored by the matcher is recorded as
      an eligible, scored attempt, and every earlier attempt was lost. */
  lemma InPlayRecord(words: seq<seq<char>>, target: seq<char>, attempts: seq<Attempt>,
                     candidates: seq<seq<char>>, current: seq<char>, diff: CheckResult)
    requires InPlay(words, target, attempts, candidates)
    requires current in candidates && |current| == |target| && diff.letters == Marks(current, target)
    ensures Scored(attempts + [(current, diff)], target)
    ensures Chosen(words, target, attempts + [(current, diff)])
    ensures forall k | 0 <= k < |attempts + [(current, diff)]| - 1 :: !(attempts + [(current, diff)])[k].1.Success()
  {
    PoolMembers(words, target, attempts, current);
    ChosenPush(words, target, attempts, (current, diff));
    ScoredPush(attempts, target, current, diff);
    LostPush(attempts, (current, diff));
  }

  /** After a lost guess, narrowing the current candidates by all attempts gives
      the next state. */
  lemma InPlayNext(words: seq<seq<char>>, target: seq<char>, attempts: seq<Attempt>,
                   candidates: seq<seq<char>>, current: seq<char>, diff: CheckResult)
    requires InPlay(words, target, attempts, candidates)
    requires current in candidates && |current| == |target| && diff.letters == Marks(current, target)
    requires !diff.Success()
    ensures AllFitAll(candidates, attempts + [(current, diff)])
    ensures InPlay(words, target, attempts + [(current, diff)], Narrow(candidates, attempts + [(current, diff)]))
  {
    var next := attempts + [(current, diff)];
    InPlayRecord(words, target, attempts, candidates, current, diff);
    LostPush(attempts, (current, diff));
    OfLengthWidth(words, |target|);
    ScoredFits(OfLength(words, |target|), next, target);
    NarrowAgain(OfLength(words, |target|), attempts, (current, diff));
  }

  /** A target of the dictionary is never filtered out. */
  lemma TargetStays(words: seq<seq<char>>, target: seq<char>, attempts: seq<Attempt>, candidates: seq<seq<char>>)
    requires InPlay(words, target, attempts, candidates)
    requires target in words
    ensures target in candidates
  {
    TargetIsConsistent(target, attempts);
    OfLengthMembers(words, |target|, target);
    NarrowMembers(OfLength(words, |target|), attempts, target);
  }

  /** `solve`: draw any remaining candidate (the source draws at random), score it,
      stop on success or after more than `MaxAttempts` attempts, and otherwise keep
      the candidates that every attempt so far allows. */
  method Solve(target: seq<char>, words: seq<seq<char>>) returns (sol: Solution, attempts: seq<Attempt>)
    ensures |attempts| <= MaxAttempts + 1
    ensures Scored(attempts, target)
    ensures Chosen(words, target, attempts)
    ensures forall k | 0 <= k < |attempts| - 1 :: !attempts[k].1.Success()
    ensures sol.Success? <==> |attempts| >= 1 && attempts[|attempts| - 1].1.Success()
    ensures sol.Success? ==> sol.tries == |attempts| && attempts[|attempts| - 1].0 == target
    ensures sol.Failure? ==>
      |attempts| == MaxAttempts + 1 || forall w | w in words :: !Eligible(words, target, attempts, w)
    ensures target in words && sol.Failure? ==> |attempts| == MaxAttempts + 1
  {
    attempts := [];
    var candidates := OfLength(words, |target|);
    InPlayStart(words, target);
    while candidates != []
      invariant |attempts| <= MaxAttempts
      invariant InPlay(words, target, attempts, candidates)
      decreases MaxAttempts + 1 - |attempts|
    {
      var pick :| 0 <= pick < |candidates|;
      var current := candidates[pick];
      PoolMembers(words, target, attempts, current);
      var diff := CheckWord(current, target);
      InPlayRecord(words, target, attempts, candidates, current, diff);
      if diff.Success() {
        SuccessMeansTarget(current, target);
        attempts := attempts + [(current, diff)];
        sol := Success(|attempts|);
        return;
      }
      InPlayNext(words, target, attempts, candidates, current, diff);
      attempts := attempts + [(current, diff)];
      if |attempts| > MaxAttempts {
        if target in words {
          TargetStays(words, target, attempts, Narrow(candidates, attempts));
        }
        sol := Failure;
        return;
      }
      candidates := Retain(candidates, attempts);
    }
    if target in words {
      TargetStays(words, target, attempts, candidates);
    }
    sol := Failure;
    EmptyPoolMeansExhausted(words, target, attempts);
  }
}
