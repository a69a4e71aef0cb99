# typetest core in Dafny

This project models the core of `typetest`, a terminal typing tutor. The tutor reads a word list
from a pipe and builds test strings from it. It has two ways to do this: `random` samples words,
and `permutate` shuffles the words, cuts them into chunks and repeats each chunk. It then runs
each test in raw terminal mode and counts correct and incorrect keystrokes. A test is run again,
on the same text, while its speed or accuracy is below a configured minimum.

Modules, one per part of `src/main.rs`:

- `Basics`: `Option`, `Result` and the two `io::Error` values the core raises: `InvalidData` with its message for a short word list, and `Interrupted("canceled")`. A cancelled test carries the second (`Session.Run.Cancelled`), and the retry loops pass it on unchanged, as `?` does.
- `Text`: `str::split` on a character, and joining with a separator (`join`, `intersperse` + `collect`).
- `WordSet`: how `main` turns the piped text into the word set.
- `Generators`: `random` and `permutate`. The random number generator is injected.
  `choose_multiple` becomes a list of distinct positions (`Sample`).
  `shuffle` becomes a permutation of the positions (`Permutation`).
- `Session`: the key loop of `run_test`. `Step` is one turn of the loop and `RunFrom` is the rest
  of a test, both as functions. The method `RunTest` is the loop itself, over the variables `i`,
  `keys`, `correct` and `incorrect`. `Elapsed` is `TestResult::len`.
- `Retry`: the retry `while` of `main` (`RunPractice`, specified by `PracticeFrom`), and the
  permutation mode's loop over its tests (`PermutationMode`, specified by `DriveFrom`).

The terminal is replaced by its inputs. `input` is the stream of keys that `read_key` returns.
`clock[j]` is the integer time that `Instant::now()` reads while key `j` is handled. All tests
read the same stream in turn, and each one reports the position of the first key it did not read.
If the stream runs out before a test ends, the test is `Waiting`, because `read_key` would block.

Two behaviours of the code are easy to miss:

- `random` does not fail when more words are asked for than the set holds. `choose_multiple`
  returns all of them, so a test has `min(n, |words|)` words (`Generators.Sample`).
- A one-character test logs one key, so its span is zero (src/main.rs:74) and `cpm` is
  `1 / 0.0`, which is positive infinity (src/main.rs:79). `inf < min` is false, so such a test is
  never retried for speed. A finished test never has an empty key log (`Session.RunFinishedCounts`),
  so the `0 / 0.0` NaN of an empty log does not reach the retry guard.

## Model

| member | source | states |
|---|---|---|
| `Text.Split` | src/main.rs:182-183 | `split('\n')` gives one piece more than the text has separators, and always at least one piece |
| `Text.Join` | src/main.rs:30-34 | a join of one or more pieces starts with the first piece |
| `Text.JoinCount` | src/main.rs:30-34 | a join of `k >= 1` separator-free pieces holds exactly `k - 1` separators (where they sit is what `Text.SplitJoin` gives) |
| `Text.SplitPiecesFree` | src/main.rs:182-183 | no piece of `split('\n')` contains the separator |
| `Text.JoinSplit` | src/main.rs:182-183 | the pieces of a split, joined with the separator, give the original text back |
| `Text.SplitJoin` | src/main.rs:30-34 | splitting a join of separator-free pieces gives the same pieces, in order |
| `WordSet.NonEmpty` | src/main.rs:184-185 | the filter keeps every non-empty line as often as it occurs, drops every empty one, and adds nothing (multiset of the lines with `""` removed) |
| `WordSet.NonEmptyAppend` | src/main.rs:184-185 | the filter keeps the lines in their input order: filtering a concatenation is the concatenation of the filtered parts |
| `WordSet.Extract` | src/main.rs:182-192 | the result is `InvalidData("Input stream doesn't contain words")` exactly when fewer than two non-empty lines exist; otherwise the words are the non-empty pieces of `split('\n')` in input order, each free of `'\n'` |
| `WordSet.ExtractRoundTrip` | src/main.rs:182-192 | piping two or more words, one per line, gives back exactly those words in order |
| `WordSet.ExtractTrailingNewline` | src/main.rs:182-192 | a list of two or more words, each on its own line and ending in a newline, gives back exactly those words in order; the empty piece after the last newline is dropped |
| `WordSet.ExtractKeepsEveryLine` | src/main.rs:182-185 | every non-empty line of the input is in the word set as often as it occurs, and nothing else is; the words keep the order of the lines; the lines cover the whole input |
| `Generators.Sample` | src/main.rs:30-31 | `choose_multiple` gives at most `n` positions and at most one per item; it gives fewer than `n` only when it has used every item |
| `Generators.Permutation` | src/main.rs:46 | a shuffle order is a sample that takes all `len` items |
| `Generators.Pick` | src/main.rs:30-32 | one item per position, and only items of the list |
| `Generators.PickWithoutReplacement` | src/main.rs:30-31 | items taken at distinct positions form a sub-multiset of the list |
| `Generators.PermutationKeepsItems` | src/main.rs:46 | a shuffle keeps the same words with the same multiplicities |
| `Generators.Random` | src/main.rs:26-35 | provided `n >= 1`, the word list is non-empty and no word contains a space: the test splits back into the sampled words in sampler order, `min(n, |words|)` of them, drawn without replacement |
| `Generators.Chunks` | src/main.rs:48-51 | there are no chunks exactly when there are no items, and the first chunk is the first `combination` items (all of them when fewer) |
| `Generators.ChunksCount` | src/main.rs:48-51 | there are `ceil(|xs| / combination)` chunks |
| `Generators.ChunksFlatten` | src/main.rs:48-51 | the chunks put back together are the shuffled list, in order |
| `Generators.ChunksSizes` | src/main.rs:48-51 | every chunk has between 1 and `combination` words, and all but the last have exactly `combination` |
| `Generators.ChunksPartition` | src/main.rs:48-51 | the three chunk facts together |
| `Generators.Repeat` | src/main.rs:55 | `repeat(n)` is `n` times as long as its input |
| `Generators.Drill` | src/main.rs:53-57 | a test of `repetition >= 1` copies of a phrase has `repetition * (|phrase| + 1) - 1` characters: one space after each copy but the last; with `repetition == 0` it is empty |
| `Generators.DrillShape` | src/main.rs:53-56 | for `repetition >= 1` a test is the phrase, then `repetition - 1` copies of a space and the phrase, with no trailing space; for `repetition == 0` it is empty |
| `Generators.Permutate` | src/main.rs:37-60 | `permutate` yields `ceil(|words| / combination)` tests, and none is empty when the words are non-empty and `repetition >= 1` |
| `Generators.DrillsNonEmpty` | src/main.rs:53-56 | with non-empty words and `repetition >= 1` every test is non-empty, so `run_test` can index it |
| `Generators.PermutateChunks` | src/main.rs:37-60 | each word is in exactly one chunk, once; chunk sizes; each test is its chunk's phrase repeated `repetition` times |
| `Session.Step` | src/main.rs:107-140 | one turn ends the test with an error exactly on Escape or Ctrl-C; it leaves the loop only on a character key that fills the last place; otherwise the cursor stays on the target |
| `Session.StepChar` | src/main.rs:124-137 | a `Char(c)` logs exactly `(now, c)`; neither counter goes down and together they rise by one, `correct` exactly when `c` is the target character at `i`; `i` moves on by one, and the loop ends iff `i` reaches the target length |
| `Session.StepOtherKeys` | src/main.rs:109-123 | Backspace decrements `i` only when `i > 0` and changes nothing else; an ignored key changes nothing; a step is `Interrupted` iff the key is Escape or Ctrl-C |
| `Session.StepValid` | src/main.rs:107-140 | each turn keeps `i < |test|`, `correct + incorrect == |keys|` and `i <= |keys|`; at the end `i == |test|` |
| `Session.RunFrom` | src/main.rs:107-149 | the rest of a test: a finished result keeps the target text and reads at least one key; a cancelled test returns `Interrupted("canceled")`; a test waiting for keys still has its cursor on the target |
| `Session.RunFinishedLog` | src/main.rs:107-149 | a finished test keeps its target text, logs every character read in order with its time, and reads at least as many keys as characters were left to type |
| `Session.RunFinishedCounts` | src/main.rs:124-136 | a finished test has `correct + incorrect == |keys|` and `|keys| == |test| + ` the number of backspaces that moved the cursor |
| `Session.RunWaitingLog` | src/main.rs:107-140 | while the test waits for keys, the loop invariant holds and every character read is logged |
| `Session.RunWaitingCounts` | src/main.rs:112-136 | while the test waits, the log holds `i` keys plus one for each backspace that moved the cursor |
| `Session.RunCancelled` | src/main.rs:105-111 | a test ends with `Err(Interrupted("canceled"))` only if an Escape or Ctrl-C was read |
| `Session.RunFromFacts` | src/main.rs:107-149 | the run facts above, whichever way the test ends |
| `Session.RunTest` | src/main.rs:91-150 | the loop computes exactly `RunFrom`; a finished result has the target text, `correct + incorrect == |keys|`, `|keys| == |test| + ` the effective backspaces, and the log holds every character key read; a cancellation returns `Interrupted("canceled")` and needs Escape or Ctrl-C |
| `Session.Elapsed` | src/main.rs:70-76 | `len()` is zero for a log of at most one key |
| `Session.TypedInOrder` | src/main.rs:125 | keys logged from a monotonic clock are in time order |
| `Session.ElapsedSpansLog` | src/main.rs:70-76 | on a time-ordered log, `len()` is last minus first timestamp, and every keystroke lies within that span |
| `Session.FinishedInOrder` | src/main.rs:70-76 | a finished test read off a monotonic clock has at least `|test|` keys, a time-ordered log, and `len() == last - first` |
| `Retry.ShouldRetry` | src/main.rs:201-204 | the guard can hold only when at least one minimum is set |
| `Retry.RetryUnlessPassed` | src/main.rs:201-204 | the retry guard holds exactly when a minimum that is set is not reached; with neither minimum set it is false |
| `Retry.ThresholdExamples` | src/main.rs:221-224 | 30 wpm is retried under a minimum of 40 wpm; 80% accuracy passes a minimum of 70% |
| `Retry.NoThresholdsOneRun` | src/main.rs:221-228 | with neither minimum set a test runs exactly once |
| `Retry.PracticeFrom` | src/main.rs:198-208 | a test that ends has at least one run and reads at least one key |
| `Retry.PracticeFacts` | src/main.rs:198-208 | every retry runs on the identical text; the last run passes and every earlier run fails; with no minimum set there is exactly one run; an abort passes on `Interrupted("canceled")` and needs Escape or Ctrl-C |
| `Retry.RunPractice` | src/main.rs:218-228 | the first run plus the `while` loop compute exactly `PracticeFrom`, and the runs are on the same text until one passes, once when no minimum is set; an abort passes on `Interrupted("canceled")` |
| `Retry.DriveFrom` | src/main.rs:214-229 | a completed permutation mode has one group of runs per remaining test |
| `Retry.DriveFacts` | src/main.rs:214-229 | the permutation mode runs every test in chunk order; each test's runs are on that test's text and end with a passing run; a stop passes on `Interrupted("canceled")` and needs Escape or Ctrl-C |
| `Retry.PermutationMode` | src/main.rs:214-229 | the `for` loop computes exactly `DriveFrom`, and a completed mode has passed every test in order; a stop passes on `Interrupted("canceled")` |

## Left out

- `read_pipe` (src/main.rs:10-24) reads stdin. `WordSet.Extract` takes the text it returns.
- `Args`, `GeneratorArgs` and `Args::parse` (src/main.rs:152-175) are argument parsing. Their values are parameters here.
- Terminal output is not modelled: styles, `write!`, cursor moves, the repaint after Backspace and the trailing blank lines (src/main.rs:92-98, 115-121, 127-130, 142). The model keeps only the state updates.
- `Instant::now()` and `read_key()` are replaced by the `clock` and `input` sequences. Terminal I/O errors (`?`) are not modelled.
- `shuffle`, `choose_multiple` and `thread_rng` are replaced by injected position lists. Uniform randomness is not modelled.
- `cpm`, `wpm`, `accuracy` and `print_result` (src/main.rs:78-88, 236-240) are `f64` arithmetic and printing. The retry guard gets a result's figures from an injected `measure` function, as reals. A real cannot be the `+inf` that `cpm` and `wpm` give for a zero span (any one-key log), nor a NaN. The model therefore does not capture that such a test always passes a speed minimum.
- The endless `loop` of random mode (src/main.rs:195) is not modelled. One pass of it is `RunPractice` on a `Random` test. The `"i / n"` progress line (src/main.rs:217) is output only.
- Session.RunTest: requires a non-empty target. On an empty target the first `Char` would panic in `nth(0).unwrap()`. `random` with `n == 0` and `permutate` with `repetition == 0` make such targets.
- Session.Step: the model identifies the byte length `test.len()` with the character count. This holds for ASCII targets. On multibyte text the character count is smaller than the byte count. The loop then never reaches its `break`, and the source panics in `nth(i).unwrap()` on the first character typed after the last one. That panic is not modelled.
- Generators.Permutate: requires `combination >= 1`, because `chunks(0)` panics.
- Session.Elapsed: a negative span is taken as zero. A `Duration` cannot be negative, and a monotonic clock never gives one.
