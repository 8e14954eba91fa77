# Puzzle game: the five puzzle engines and the game that chains them

This project models the logic of a browser puzzle game in Dafny and proves properties of it. The player solves five puzzles in a fixed order:

1. colour sequence ("Simon says");
2. number pattern (click 1..9 in order);
3. memory click (recall five cells of a 4x4 grid);
4. sorting (swap six numbers into order);
5. colour code (a Mastermind-style code breaker).

After the fifth puzzle the game shows the total time: "{m}m {s}s" from one minute on, "{s}s" below that.

Each puzzle's event handlers are pure transition functions. Each takes the puzzle state and returns `Step(state, effects)`. An effect is either a notification (`Notify(kind, text)`) or a callback the handler schedules on the timer:

- `ScheduleShowOf(tokens)` plays back the colour sequence that the scheduling call drew.
- `ScheduleShow` opens the memory puzzle's cell reveal.
- `ScheduleRestart` starts a fresh round after a wrong answer.
- `ScheduleComplete` reports completion to the game.

The driver fires a scheduled callback by applying the transition it names. A show runs `ColorSequence.StartShow` with the carried tokens and then `ColorSequence.Tick`, or `MemoryClick.BeginReveal` and then `MemoryClick.EndReveal`. A restart runs `ColorSequence.Generate` in the sequence puzzle and `MemoryClick.Reset` in the memory puzzle. A completion runs `Game.PuzzleCompleted`. Delays are not modelled.

Randomness is a parameter:

- `Math.floor(Math.random() * k)` is a list of values in `0..k-1` (`rolls`, `draws`).
- A shuffle by random comparator (`sort(() => Math.random() - 0.5)`) is a list of transpositions (`Seqs.Shuffled`, `ColorCode.Secret`). Every arrangement is reachable this way, which the `Every...IsPossible` / `Every...IsReachable` lemmas prove.

Clock readings are integer milliseconds passed in.

Modules:

- `Seqs`: distinctness, counting, swaps and shuffles, permutations of 1..n.
- `Decimal`: decimal rendering of naturals and its inverse.
- `Effects`: notifications and scheduled callbacks.
- `ColorCode`, `ColorSequence`, `MemoryClick`, `Sorting`, `NumberPattern`: one module per puzzle.
- `Game`: the orchestrating page.
- `Completion`: the time text.

The code is modelled as written, including where it departs from how the game is meant to behave:

- In the sequence and recall puzzles, nothing blocks input between a wrong click and the restart it schedules. Clicks in that window are recorded and checked, and can even complete the puzzle (`ColorSequence.WrongClickDoesNotLockInput`, `MemoryClick.WrongClickDoesNotLockInput`).
- The code-breaking and sorting puzzles keep accepting input after they are solved, so they can schedule completion twice (`ColorCode.SolvingTwiceSchedulesTwice`, `Sorting.SolvedBoardCompletesAgain`).
- A repeated completion report on the last puzzle takes the time again (`Game.LateReportRetakesTime`).
- A playback plays the sequence its scheduling call drew. When a wrong click draws a new sequence before an earlier playback has fired, that playback shows a sequence that is no longer the target (`ColorSequence.EarlierShowPlaysReplacedTarget`).

A worked example of the scorer: for the secret red, blue, green, yellow and the guess blue, blue, green, red, it yields 2 exact matches (green, and blue in the second slot) and 1 colour match (red), as in the usual Mastermind count (`ColorCode.ScoreExamples`).

## Model

| member | source | states |
|---|---|---|
| ColorCode.PaletteListsEveryColorOnce | src/components/puzzles/ColorCodePuzzle.tsx:8-15 | the palette has six entries, all different, and every colour is among them |
| ColorCode.Init | src/components/puzzles/ColorCodePuzzle.tsx:17-27 | a fresh puzzle holds a valid four-colour secret with no "used" mark, no attempts and an empty attempt being entered |
| ColorCode.Secret | src/components/puzzles/ColorCodePuzzle.tsx:17-21 | the secret is four pairwise-distinct palette colours, none of whose identifiers is the "used" mark |
| ColorCode.EverySecretIsReachable | src/components/puzzles/ColorCodePuzzle.tsx:18-20 | every sequence of four distinct colours is the secret for some shuffle of the palette |
| ColorCode.AddColor | src/components/puzzles/ColorCodePuzzle.tsx:30-34 | a colour is appended exactly when fewer than four are entered, otherwise nothing changes; the attempt never exceeds four |
| ColorCode.RemoveLastColor | src/components/puzzles/ColorCodePuzzle.tsx:37-39 | removing from an empty attempt leaves it empty; otherwise the result plus the removed colour is the old attempt |
| ColorCode.RemoveUndoesAdd | src/components/puzzles/ColorCodePuzzle.tsx:30-39 | removing the last colour undoes adding one to an attempt that had room |
| ColorCode.IndexOf | src/components/puzzles/ColorCodePuzzle.tsx:67 | -1 exactly when the value is absent; otherwise a position holding it with no earlier occurrence |
| ColorCode.AllExactMeansEqual | src/components/puzzles/ColorCodePuzzle.tsx:55-62 | all positions agree exactly when the two codes are equal |
| ColorCode.ExactPass | src/components/puzzles/ColorCodePuzzle.tsx:55-62 | the first pass counts the agreeing slots and overwrites exactly those, in both copies, with "used" |
| ColorCode.PartialPass | src/components/puzzles/ColorCodePuzzle.tsx:64-73 | the second pass credits at most one match per attempt slot that is not "used" |
| ColorCode.Score | src/components/puzzles/ColorCodePuzzle.tsx:48-73 | exact equals the number of agreeing positions; exact is 4 iff guess equals secret; colour equals the reference count of colours common to the non-exact slots; exact + colour is at most 4 |
| ColorCode.ScoreExamples | src/components/puzzles/ColorCodePuzzle.tsx:48-73 | red, blue, green, yellow against blue, blue, green, red scores 2 exact and 1 colour; a code against itself scores 4 and 0 |
| ColorCode.FeedbackExamples | src/components/puzzles/ColorCodePuzzle.tsx:84 | singular and plural wording: "1 exacto, 2 colores correctos" and "2 exactos, 1 color correcto" |
| ColorCode.Feedback | src/components/puzzles/ColorCodePuzzle.tsx:84 | the text is "{e} exacto, " or "{e} exactos, " and then "{c} color correcto" or "{c} colores correctos", the singular exactly when the count is one |
| ColorCode.FeedbackDeterminesCounts | src/components/puzzles/ColorCodePuzzle.tsx:84 | the feedback text determines both counts |
| ColorCode.Submit | src/components/puzzles/ColorCodePuzzle.tsx:76-77 | the attempt is appended to the history with earlier entries untouched, the attempt is cleared and the secret kept |
| ColorCode.CheckCode | src/components/puzzles/ColorCodePuzzle.tsx:42-87 | fewer or more than four colours: state unchanged and the error text; otherwise history grows by the attempt, the attempt is cleared, and a solved code gives the success text and schedules completion while any other gives the feedback for the exact and common-colour counts |
| ColorCode.HistoryOnlyGrows | src/components/puzzles/ColorCodePuzzle.tsx:76 | a check never alters earlier attempts |
| ColorCode.SolvingTwiceSchedulesTwice | src/components/puzzles/ColorCodePuzzle.tsx:79-82 | after a solve, entering the secret again and checking schedules completion a second time |
| ColorSequence.NewTarget | src/components/puzzles/ColorSequencePuzzle.tsx:34-36 | a target has four tokens, each in 1..4 |
| ColorSequence.EveryTargetIsReachable | src/components/puzzles/ColorSequencePuzzle.tsx:34-36 | every four-token target, repeats included, comes from some rolls |
| ColorSequence.Generate | src/components/puzzles/ColorSequencePuzzle.tsx:33-39 | the target is replaced by the drawn sequence, progress, lock and playback are untouched, and the scheduled show carries that same sequence |
| ColorSequence.EarlierShowPlaysReplacedTarget | src/components/puzzles/ColorSequencePuzzle.tsx:33-44 | after two draws, the first scheduled show still plays the first sequence while the target is the second |
| ColorSequence.StartShow | src/components/puzzles/ColorSequencePuzzle.tsx:42-44 | playback clears progress and locks input for a non-empty sequence |
| ColorSequence.Tick | src/components/puzzles/ColorSequencePuzzle.tsx:46-53 | a playback step never changes the target or progress |
| ColorSequence.PlaybackShowsTargetThenUnlocks | src/components/puzzles/ColorSequencePuzzle.tsx:42-54 | for n tokens the lock holds for the first 2n - 1 steps, the tokens light in order, and step 2n unlocks with progress empty |
| ColorSequence.Mismatch | src/components/puzzles/ColorSequencePuzzle.tsx:68-69 | while progress is a prefix of the target, a click mismatches iff appending it breaks the prefix |
| ColorSequence.Click | src/components/puzzles/ColorSequencePuzzle.tsx:57-81 | ignored while locked; otherwise the colour is appended, a restart is scheduled iff it mismatches the target at the reached position, and completion iff it matches and fills the target; the error text with the restart, the success text with the completion, nothing otherwise |
| ColorSequence.ClickKeepsPrefix | src/components/puzzles/ColorSequencePuzzle.tsx:67-80 | a non-mismatching click keeps progress a prefix of the target; completion means progress equals the target |
| ColorSequence.NoMismatchKeepsPrefix | src/components/puzzles/ColorSequencePuzzle.tsx:57-81 | over any run of clicks with no restart scheduled, progress stays a prefix of the target |
| ColorSequence.MismatchAtThirdClick | src/components/puzzles/ColorSequencePuzzle.tsx:67-74 | target 1,2,3,4 and input 1,2,4: two silent clicks, then a restart at the third |
| ColorSequence.WrongClickDoesNotLockInput | src/components/puzzles/ColorSequencePuzzle.tsx:57-80 | input 2,2,3,4 against 1,2,3,4 schedules a restart and then completes with progress different from the target |
| MemoryClick.GenerateTargets | src/components/puzzles/MemoryClickPuzzle.tsx:28-35 | five distinct in-grid cells, the first five distinct draws in order, taken as soon as the fifth appears |
| MemoryClick.Regenerate | src/components/puzzles/MemoryClickPuzzle.tsx:36-37 | new targets are stored and their reveal scheduled |
| MemoryClick.BeginReveal | src/components/puzzles/MemoryClickPuzzle.tsx:42 | the reveal window opens without touching targets, clicks or input |
| MemoryClick.EndReveal | src/components/puzzles/MemoryClickPuzzle.tsx:44-45 | the reveal closes and input is enabled |
| MemoryClick.Reset | src/components/puzzles/MemoryClickPuzzle.tsx:58-62 | the restart clears clicks, disables input and draws new targets |
| MemoryClick.Click | src/components/puzzles/MemoryClickPuzzle.tsx:49-71 | ignored when input is disabled or the cell was clicked; otherwise appended, a restart iff the cell is not a target, completion iff it is and the clicks reach the target count; the error text with the restart, the success text with the completion, nothing otherwise; clicks stay duplicate-free |
| MemoryClick.EveryRoundStartsFresh | src/components/puzzles/MemoryClickPuzzle.tsx:36-62 | after a mount or a restart, clicks are ignored until the reveal closes, which leaves the new targets, nothing clicked and input enabled |
| MemoryClick.RevealIgnoresClicks | src/components/puzzles/MemoryClickPuzzle.tsx:41-50 | clicks during the reveal after a mount or reset change nothing |
| MemoryClick.CompletionMeansAllFound | src/components/puzzles/MemoryClickPuzzle.tsx:52-70 | when every click was a target, completion means the clicked cells are exactly the targets |
| MemoryClick.WrongClickDoesNotLockInput | src/components/puzzles/MemoryClickPuzzle.tsx:50-70 | after a wrong cell, four target cells still complete the round |
| Seqs.Swap | src/components/puzzles/SortingPuzzle.tsx:33-37 | the two positions exchange values, every other position is unchanged, and the multiset is kept |
| Seqs.SwapTwiceRestores | src/components/puzzles/SortingPuzzle.tsx:33-37 | the same exchange twice restores the sequence |
| Seqs.Shuffled | src/components/puzzles/SortingPuzzle.tsx:8-11 | a shuffle of 1..n holds each of 1..n exactly once |
| Seqs.EveryPermutationIsShuffled | src/components/puzzles/NumberPatternPuzzle.tsx:8-11 | every arrangement of 1..n is the outcome of some shuffle |
| Sorting.IsOrdered | src/components/puzzles/SortingPuzzle.tsx:42 | numbers are in order iff they are the list 1..n |
| Sorting.OrderedIffIncreasing | src/components/puzzles/SortingPuzzle.tsx:42 | for an arrangement of 1..n, every number at its own place iff sorted increasingly |
| Sorting.Mount | src/components/puzzles/SortingPuzzle.tsx:8-14 | the start is a permutation of 1..6 with nothing selected |
| Sorting.EveryStartIsPossible | src/components/puzzles/SortingPuzzle.tsx:8-11 | every arrangement of 1..6 can be the start |
| Sorting.HandleClick | src/components/puzzles/SortingPuzzle.tsx:20-48 | first click selects with the prompt, same index cancels, another index exchanges exactly the two positions and clears the selection; completion iff the result is ordered; always a permutation |
| Sorting.SwapBackRestores | src/components/puzzles/SortingPuzzle.tsx:31-39 | exchanging the same pair twice restores the numbers and the empty selection |
| Sorting.SolvedBoardCompletesAgain | src/components/puzzles/SortingPuzzle.tsx:31-46 | a solved board swapped away and back schedules completion again |
| NumberPattern.Mount | src/components/puzzles/NumberPatternPuzzle.tsx:8-14 | the board is a permutation of 1..9 and nothing is clicked |
| NumberPattern.EveryBoardIsPossible | src/components/puzzles/NumberPatternPuzzle.tsx:8-11 | every arrangement of 1..9 can be the board |
| NumberPattern.NextNumber | src/components/puzzles/NumberPatternPuzzle.tsx:17 | while clicks count up from 1, the next number is the smallest not clicked |
| NumberPattern.Hint | src/components/puzzles/NumberPatternPuzzle.tsx:31 | the hint is the lead text followed by digits that read back as the number to look for |
| NumberPattern.MustClick | src/components/puzzles/NumberPatternPuzzle.tsx:36 | the error text is the lead text followed by digits that read back as the number that must be clicked |
| NumberPattern.MessagesNameTheirNumber | src/components/puzzles/NumberPatternPuzzle.tsx:31-36 | different numbers give different hints and different error texts |
| NumberPattern.Click | src/components/puzzles/NumberPatternPuzzle.tsx:20-38 | the board never changes; the expected number is appended, any other changes nothing and names the expected one; completion iff the ninth is appended; a correct earlier click names the following number; clicks stay 1..k |
| NumberPattern.BoardClicksStayWithinNine | src/components/puzzles/NumberPatternPuzzle.tsx:22-29 | clicks on board numbers never take the list past nine |
| NumberPattern.NothingAfterCompletion | src/components/puzzles/NumberPatternPuzzle.tsx:22-36 | after nine, every board number is refused and no second completion is scheduled |
| NumberPattern.InOrderCompletesOnce | src/components/puzzles/NumberPatternPuzzle.tsx:20-29 | clicking 1..9 in order clicks them all and schedules completion exactly once |
| Game.PuzzleList | src/pages/Index.tsx:26-32 | five puzzles with ids 1..5 in the fixed order |
| Game.Start | src/pages/Index.tsx:14-23 | the session starts on the first puzzle, not complete |
| Game.ElapsedSeconds | src/pages/Index.tsx:38-39 | the whole seconds rounded down, non-negative when the end is not before the start |
| Game.PuzzleCompleted | src/pages/Index.tsx:35-46 | the index stays within the five puzzles and only the last can be finished; before the last puzzle, advances by one and the game stays unfinished; on the last, stays, completes and records the elapsed seconds |
| Game.CurrentPuzzle | src/pages/Index.tsx:49 | the puzzle shown has id index + 1 |
| Game.FiveCompletionsFinish | src/pages/Index.tsx:35-46 | five completion reports from the start end the game on the last puzzle with the time to the fifth |
| Game.LateReportRetakesTime | src/pages/Index.tsx:35-41 | a further report after the end takes the time again |
| Game.DotAt | src/pages/Index.tsx:60-71 | a progress dot is done, active or pending as its index is below, at or above the current one |
| Game.OneActiveDot | src/pages/Index.tsx:60-71 | exactly one progress dot is active |
| Decimal.ParseRender | src/components/puzzles/ColorCodePuzzle.tsx:84 | reading back a rendered number gives the number |
| Decimal.NatToStringInjective | src/components/CompletionMessage.tsx:14-16 | different numbers render differently |
| Completion.MinutesAndSeconds | src/components/CompletionMessage.tsx:11-12 | minutes * 60 + seconds is the total, seconds below 60, minutes positive iff the total is at least 60 |
| Completion.FormatTime | src/components/CompletionMessage.tsx:10-17 | from 60 seconds on the text is minutes "m " seconds "s", below that seconds "s" |
| Completion.FormatTimeExample | src/components/CompletionMessage.tsx:9-17 | 65 reads "1m 5s" and 59 reads "59s" |
| Completion.FormatTimeInjective | src/components/CompletionMessage.tsx:10-17 | different totals never read the same |

## Left out

- Rendering, styling and the buttons' `disabled` attributes are not modelled; only the checks the handlers make are. The number-pattern grid disables numbers already clicked. Its handler does not check this, so the model answers such a click with the error text.
- Notification durations and all timer delays are left out. A scheduled callback is an effect, and when it fires is up to the driver.
- Interleavings of callbacks that are already pending are not modelled. An example is a second playback loop started while one still runs. Each transition applies to the current state.
- The colour-sequence click flash (`activeColor` set for 200 ms) is purely visual. The token lit during playback is modelled.
- The confetti, the play-again reload and the closing screen's layout are not modelled.
- The probability distribution of the shuffles and draws is not modelled. Shuffles are transpositions and draws are parameters.
- MemoryClick.GenerateTargets: requires the draw list to contain five distinct cells, because the termination of the random loop is not modelled.
- Completion.FormatTime: takes a non-negative number of seconds. A negative total from a clock set back during play is not modelled.
- React's re-rendering and stale closures are not modelled; each handler is a transition on the current state.
- Game.PuzzleCompleted: reads the current index, where the page's callback reads the index captured when the puzzle was rendered. A double report from the fourth puzzle (`Sorting.SolvedBoardCompletesAgain`) therefore advances the model twice, finishing the game and skipping the code puzzle. In the page both reports set the index to 4 and nothing is skipped (src/pages/Index.tsx:44).
