# Wordle simulator: matcher, filter and solving loop

This is a Dafny model of the engine of a Wordle simulator. It covers three parts:

- the per-letter **matcher** (`check_word`): it scores a guess against a hidden target, giving each position `Green`, `Yellow` or `Gray`;
- the **candidate filter** (`filter_word`): it decides whether a dictionary word agrees with every recorded `(guess, verdicts)` attempt;
- the **solver** (`solve`): it narrows the dictionary to words of the target's length, then repeats a turn until the game ends. Each turn is:
  - draw a candidate;
  - score it against the target and record the attempt;
  - stop on a win, or once more than `MAX_ATTEMPTS` (6) attempts have been recorded;
  - otherwise keep only the candidates that every attempt so far allows.

The model has two modules:

- `Wordle` (`wordle.dfy`) models `src/wordle.rs`. `CheckWord` and `FilterWord` are methods with the source's loops; `CheckWord` keeps the `used` set. Each is proved against a specification function: `Marks` for the matcher and `Consistent` for the filter.
- `Solver` (`solver.dfy`) models `src/solver.rs`. `Solve` is a method with the source's `while` loop and its early returns. The filter pipeline is the method `Retain`, defined by the function `Narrow`. The invariant of the loop is the predicate `InPlay`.

### Notes on the model

- **The matcher is one-pass, as the code is written.** A letter is yellow when it occurs somewhere in the target and has not been seen at an earlier guess position, greens included. The customary Wordle rule is a two-pass matcher that spends each target letter once. This code does not do that, and the model follows the code. The lemma `DuplicateLetterCountedTwice` shows the difference: the guess "aza" against the target "yya" gives a yellow and a green for the target's single 'a'.
- **A gray verdict in the filter is positional.** It only rules out that letter at that position; this revision has no rule that the letter is absent from the word.
- **Renamed items in `src/solver.rs`.** The file calls `wordle::diff` and the type `Matches`, which `src/wordle.rs` does not define. They are modelled as `check_word` (`CheckWord`) and `CheckResult`.
- **The random draw** (`words.choose(&mut rng)`) is an arbitrary index, `var pick :| 0 <= pick < |candidates|`. Every property of `Solve` therefore holds for every sequence of draws.
- **The length filter compares sequence lengths.** The source compares the UTF-8 byte lengths of the words (`w.len() == target.len()`). `OfLength` compares code-point sequence lengths instead, and the matcher then compares by index, as `check_word` does on `Vec<char>`.
- **`CheckResult`'s methods.** `CheckResult::success` is the predicate `CheckResult.Success`; "true iff every entry is green" is its definition. `CheckResult::new` is the datatype constructor, and the `Index` impl is the function `Get`.

## Model

| member | source | states |
|---|---|---|
| Wordle.CheckWord | src/wordle.rs:52-70 | The loop with the `used` set returns exactly `Marks(word, target)`: one verdict per guess position, in order. |
| Wordle.MarksAt | src/wordle.rs:58-67 | Position `i` is Green iff `word[i] == target[i]`. It is Yellow iff the letters differ, the letter is in the target, and it does not occur earlier in the guess. It is Gray iff the letters differ and the letter is absent from the target or seen before. |
| Wordle.Marks | src/wordle.rs:56-67 | The matcher yields exactly one verdict per guess position. |
| Wordle.MarksUpTo | src/wordle.rs:56-67 | After `n` steps of the loop, `n` verdicts have been pushed. |
| Wordle.MarksUpToAt | src/wordle.rs:58-65 | The `i`-th pushed verdict is the verdict of position `i`, however many steps follow. |
| Wordle.YellowOnlyAtFirstOccurrence | src/wordle.rs:61-66 | A repeated guess letter is never yellow after its first occurrence. |
| Wordle.SelfIsSuccess | src/wordle.rs:39-41 | Scoring a word against itself is a win. |
| Wordle.SuccessMeansTarget | src/wordle.rs:39-41 | Given equal lengths, `success()` of a verdict holds iff the guess equals the target. |
| Wordle.MarksOfFive | src/wordle.rs:56-67 | A five-letter verdict is the five per-position verdicts, in order. |
| Wordle.CheckWordFixture | src/wordle.rs:112-127 | "сдоба" against "ткань" gives `[Gray, Gray, Gray, Gray, Yellow]`, which is not a win. |
| Wordle.SecondOccurrenceFixture | src/wordle.rs:129-145 | "канал" against "ткань" gives `[Yellow, Yellow, Yellow, Gray, Gray]`, which is not a win, and `result[0]` is Yellow. |
| Wordle.SuccessFixture | src/wordle.rs:149-164 | "ткань" against itself is all green and a win. |
| Wordle.DuplicateLetterCountedTwice | src/wordle.rs:59-62 | "aza" against "yya" gives `[Yellow, Gray, Green]`: one target letter is credited twice. |
| Wordle.FilterWord | src/wordle.rs:72-100 | The nested loop with early `return false` returns exactly `Consistent(word, results)`: every verdict of every attempt allows the word. |
| Wordle.ConsistentWithNothing | src/wordle.rs:75-99 | With no attempts recorded, every word passes the filter. |
| Wordle.ConsistentAppend | src/wordle.rs:75-97 | A word passes `attempts + [a]` iff it passes `attempts` and is allowed by `a`. So an extra attempt can only turn acceptance into rejection. |
| Wordle.TargetPermitsItsVerdict | src/wordle.rs:78-94 | The matcher's verdicts for any guess of the target's length allow the target. |
| Wordle.TargetIsConsistent | src/wordle.rs:75-99 | The target passes the filter against any list of attempts scored against it. |
| Wordle.LosingGuessRejectsItself | src/wordle.rs:85-94 | A guess that did not win is rejected by its own attempt. |
| Solver.SubsequenceExtend | src/solver.rs:54-57 | A subsequence stays a subsequence when the longer list gains an entry, whether that entry is kept or skipped. |
| Solver.OfLength | src/solver.rs:31-35 | The length filter never lengthens the dictionary. |
| Solver.OfLengthMembers | src/solver.rs:31-35 | A word is an initial candidate iff it is in the dictionary and has the target's length. |
| Solver.OfLengthWidth | src/solver.rs:33 | Every initial candidate has the target's length. |
| Solver.OfLengthIsSubsequence | src/solver.rs:31-35 | The initial candidates keep the dictionary's order. |
| Solver.Narrow | src/solver.rs:54-57 | Filtering never lengthens the candidate list. |
| Solver.NarrowIsSubsequence | src/solver.rs:54-57 | The new candidate list is a subsequence of the previous one. |
| Solver.NarrowMembers | src/solver.rs:54-57 | A word survives the filter iff it was a candidate and passes every attempt. |
| Solver.NarrowWithin | src/solver.rs:54-57 | Every survivor was a candidate and passes every attempt. |
| Solver.NarrowByNothing | src/solver.rs:54-57 | Filtering by no attempts keeps the list unchanged. |
| Solver.NarrowDropsRejected | src/solver.rs:54-57 | Removing a candidate that fails the filter makes the list strictly shorter, even when it occurs several times. |
| Solver.AllFitAllPrefix | src/wordle.rs:75-94 | Words the filter can check against a list of attempts can also be checked against any prefix of it. |
| Solver.NarrowAgain | src/solver.rs:54-57 | Re-filtering the survivors by the longer attempt list is the same as filtering the original list by it. So the loop's list is always the length-filtered dictionary narrowed by all attempts. |
| Solver.Retain | src/solver.rs:54-57 | The `filter(filter_word).collect()` pipeline returns exactly `Narrow(words, attempts)`. |
| Solver.ScoredFits | src/wordle.rs:78-93 | Attempts scored against the target can be checked against any word of the target's length without indexing out of bounds. |
| Solver.PoolMembers | src/solver.rs:31-57 | A word is a current candidate iff it is eligible: a dictionary word of the target's length that every attempt allows. |
| Solver.ChosenPush | src/solver.rs:39-45 | Recording an eligible guess keeps every recorded guess eligible at its own turn. |
| Solver.ScoredPush | src/solver.rs:44-45 | Recording a scored guess keeps every attempt scored by the matcher. |
| Solver.LostPush | src/solver.rs:45-49 | Recording a guess keeps all attempts before it lost; recording a lost guess keeps every attempt lost. |
| Solver.EmptyPoolMeansExhausted | src/solver.rs:37-60 | Once the candidate list is empty, no dictionary word is eligible. |
| Solver.NoRepeatedGuess | src/solver.rs:39-57 | No word is guessed twice in one game. |
| Solver.PoolShrinks | src/solver.rs:54-57 | After a lost guess, the next candidate list is strictly shorter than the one the guess was drawn from. |
| Solver.InPlayStart | src/solver.rs:29-35 | Before the first turn, the loop state holds with no attempts and the length-filtered dictionary. |
| Solver.InPlayRecord | src/solver.rs:39-45 | A drawn and scored guess extends the attempt list so that it stays scored and eligible, and every earlier attempt stays lost. |
| Solver.InPlayNext | src/solver.rs:45-57 | After a lost guess, narrowing the current list by all attempts re-establishes the loop state. |
| Solver.TargetStays | src/solver.rs:54-57 | A target that is in the dictionary is never filtered out. |
| Solver.Solve | src/solver.rs:28-61 | See the list below. |

`Solve` guarantees the following, for every sequence of random draws:

- at most `MaxAttempts + 1` (7) attempts are recorded;
- every attempt is a guess scored by the matcher;
- every guess was a dictionary word of the target's length that all earlier attempts allowed;
- every attempt but the last was lost;
- the result is `Success` iff the last attempt is all green, and then its count is the number of attempts and the last guess is the target;
- `Failure` means either that the attempt bound fired, or that no dictionary word is still eligible;
- when the target is in the dictionary, `Failure` means the attempt bound fired.

## Left out

- `src/main.rs` is not part of this model. It loads the dictionary, reads the command line and prints. It also calls a five-argument `solve` that `src/solver.rs` does not define.
- Randomness (`thread_rng`, `choose`): the draw is any valid index. The `unwrap` of `choose` cannot fail, because the loop runs only while the list is non-empty.
- Rendering: the emoji conversion of `Letter`, `CheckResult::as_string`, the `Display` impl of `Solution`, and the `as_string` assertions of the unit tests.
- `HashSet` internals: `used` is a `set<char>`. Its invariant is that it holds exactly the letters of the guess prefix.
- `str_to_chars`: words are already `seq<char>`, so the conversion is the identity.
- `OfLength`: compares code-point lengths, where the source compares UTF-8 byte lengths. The two differ for dictionaries that mix character widths. There the source can keep a word with as many bytes as the target but a different number of characters, and then panic. One way is in `check_word`: a 10-byte, 10-character guess is scored against the 10-byte, 5-character target "ткань", and `target[5]` is read out of bounds. The other is in `filter_word`: a 5-character candidate such as "ткань" is checked against a 10-character attempt, and `word[5]` is read out of bounds. A same-byte word with fewer characters than the target raises no panic: the source draws it, scores it (`check_word` walks only the guess's characters, so no index passes the target's end) and spends an attempt on it. For target "abcd" and dictionary ["жж", "abcd"], the source keeps both words, may draw "жж" first, and can then return `Success(2)` with a two-character guess among its attempts. The model drops such words before the loop, so for these dictionaries its `Solve` can only return `Success(1)`. It does not capture the panics either. For dictionaries that mix character widths, the guarantee that every guess has the target's length is therefore a property of the model, not of the source. Its `Solve` only ever sees words of the target's character length.
- Out-of-bounds panics are preconditions. `CheckWord` requires the guess to be no longer than the target, because `target[i]` is indexed for every guess position. `FilterWord` requires every attempt's verdict list to be no longer than the word and the guess (`Fits`), because `word[i]` and `current[i]` are indexed. `Fits` is a sufficient condition, not the exact panic condition: the source's early `return false` can end the scan before a later index would go out of range, so some calls the source completes are outside `FilterWord`'s precondition. In the model's `Solve` both preconditions always hold, because `OfLength` compares code-point lengths and so every candidate and every guess has the target's number of characters.
- `Solve`: the successive candidate lists are local to the loop, so its contract does not state them. They are described by the invariant `InPlay`, together with `Retain`, `NarrowIsSubsequence` and `PoolShrinks`.
- Ownership and cloning (`clone`, `into_iter`, `cloned`) have no counterpart in the value semantics of the model.
