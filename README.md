# Mastermind game logic in Dafny

This project models the game logic of a small Python Mastermind repository.
The repository has two variants of the game, and each has its own scorer.

* **The terminal game** (`terminal_game.py`, class `Game`). An eight-slot board
  is filled from slot 7 down to slot 0. `guess_row` scores a guess with
  `feedback` and writes the guess and its pegs into the slot `guess_counter`
  names. It then lowers the counter and sets the flags that end the game.
  `feedback` keeps a dictionary `tracker` from each guessed colour to a list of
  pegs:
  * an exact match *replaces* its colour's list by a single `'B'`;
  * any other solution position whose colour is guessed appends a `'W'`.

  The result lists the dictionary's entries in key order and is then shuffled.
  `verification` is the win test.
* **The pygame game** (`mastermind.py`). The board and the feedback grid are
  grids of tiles, and row 0 of the board holds the solution.
  `assign_feedback` scores position by position: an exact match earns a black
  peg, and a solution colour found elsewhere in the guess earns a white peg.
  Each peg goes into a feedback slot drawn at random from the slots still free.
  `check_complete` refuses rows that still hold a placeholder. The main loop
  moves a turn counter from the last row up to row 1.

The two scorers are kept apart and modelled as written; neither is textbook
Mastermind scoring. For solution R G R Y and guess R R R R:
* the terminal scorer gives a single black peg, because the second exact red
  match overwrites the first;
* the pygame scorer gives two black pegs.

For solution R G R Y and guess O R R O:
* the terminal scorer gives one black peg;
* the pygame scorer gives one black and one white peg.

Files:

* `seqs.dfy`: distinctness, Python's `list.remove`, element counts.
* `chance.dfy`: `random.choice`, `random.sample` and `random.shuffle` as
  nondeterministic choice. Each method promises only what every outcome shares.
* `scoring.dfy`: the terminal scorer as specification functions, with its
  closed forms and the win test.
* `feedback_examples.dfy`: the expected results of the repository's test
  suite, worked out for that scorer.
* `terminal_game.dfy`: class `Game`. Its methods update its fields as the
  Python methods do. The scoring methods and `GuessRow` are proved against
  the functions in `scoring.dfy`.
* `mastermind.dfy`: the pygame variant. Grids are `array2<Colour>`, and
  updating a tile assigns a cell. The turn rules of `main` are class `Session`.

The terminal game's colours and pegs are one-character strings, as in Python,
and an unplayed slot holds four empty strings and no pegs. `get_board` and
`get_solution` are plain reads: `Game.GetBoard` and `Game.GetSolution`.

Some of this behaviour differs from what a reader may expect of Mastermind.
The model keeps the code's behaviour:

* Textbook Mastermind removes exact matches before counting colour matches.
  Neither scorer does. The terminal scorer counts one black peg per colour
  that has an exact match, not one per exact position (`Scoring.BlackCount`).
* One might expect that a game cannot end with both sides winning. In the
  terminal game a winning eighth guess sets both `player_win` and
  `comp_p2_win` (`TerminalGame.EighthGuessWins`).
* `verification` tests both that the guess equals the solution and that the
  feedback is four black pegs. With the terminal scorer, the row comparison
  adds nothing: shuffled feedback of four black pegs already forces the guess
  to be the solution (`Scoring.AllBlackIsCorrect`). The peg test is the one
  that matters. A correct guess of a solution with a repeated colour never
  earns four black pegs, so such a game cannot be won
  (`Scoring.VerificationIff`).
* `tests.py` expects `['B', 'B']` for R G R Y against R R R R, while the code
  yields a single `'B'` (`FeedbackExamples.RepeatedRed`). As written, the test
  passes `guess_row`'s boolean to `feedback` and fails before comparing. It
  compares sets, so it would pass if `feedback` were given the guess list.

## Model

| member | source | states |
|---|---|---|
| Seqs.Remove | mastermind.py:86 | `list.remove(x)` of a present `x` takes one occurrence of `x` out of the multiset, and the length drops by one; every caller passes a present element |
| Seqs.RemoveDistinct | mastermind.py:86-91 | removing from a list without repeats leaves a list without repeats that holds exactly the other elements |
| Chance.Choice | mastermind.py:84 | `random.choice` returns an element of the non-empty list |
| Chance.Sample | terminal_game.py:44 | `random.sample(pop, k)` returns `k` entries drawn from `pop` without replacement, as a sub-multiset |
| Chance.Shuffle | terminal_game.py:99 | `random.shuffle` yields a permutation: the same multiset |
| Chance.SampleOfDistinct | mastermind.py:12 | a sample of a population without repeats has no repeats and lies inside the population |
| Scoring.Dedup | terminal_game.py:76-77 | the keys of `{x: [] for x in row}`: each guessed colour exactly once, and nothing else |
| Scoring.Entry | terminal_game.py:79-87 | every peg in a tracker entry is `'B'` or `'W'` |
| Scoring.Collect | terminal_game.py:89-97 | listing the entries of a run of keys yields only `'B'` and `'W'` |
| Scoring.Pegs | terminal_game.py:73-101 | the scorer's output before shuffling has only `'B'` and `'W'`, and at most one peg per solution position (at most 4) |
| Scoring.LastExact | terminal_game.py:81-84 | locates the last exact match of a colour: it is an exact match of that colour and no later one is |
| Scoring.EntryShape | terminal_game.py:77-87 | closed form of an entry: one `'B'` if the colour has an exact match, then one `'W'` per non-exact solution position of that colour after its last exact match, and those only when the colour is guessed |
| Scoring.EntryStep | terminal_game.py:79-87 | solution position `i` touches only the entry of `sol[i]` and adds at most one peg to it |
| Scoring.CollectStep | terminal_game.py:79-97 | one more solution position adds at most one peg to the whole result |
| Scoring.CollectBound | terminal_game.py:77-97 | after `n` positions the result has at most `n` pegs |
| Scoring.ExactColors | terminal_game.py:83-84 | the colours of exact-match positions are in both the solution and the guess |
| Scoring.EntryBlack | terminal_game.py:83-84 | an entry holds one `'B'` exactly when its colour has an exact match, and none otherwise |
| Scoring.CollectBlack | terminal_game.py:89-97 | the `'B'` count of a run of distinct keys is the number of those keys that have an exact match |
| Scoring.BlackCount | terminal_game.py:77-97 | the number of `'B'` equals the number of distinct colours that occur at some exact-match position |
| Scoring.FourBlacks | terminal_game.py:103-107 | four colours with exact matches force the guess to equal the solution, and the solution to have four different colours |
| Scoring.AllBlackIsCorrect | terminal_game.py:103-107 | a permutation of the scorer's output equal to `['B','B','B','B']` forces the guess to be the solution and the solution to have four different colours, so the row comparison in `verification` is implied by the peg test |
| Scoring.VerificationOnlyIf | terminal_game.py:103-107 | `verification` on a permutation of the scorer's output implies the guess is the solution and has no repeated colour |
| Scoring.VerificationIf | terminal_game.py:103-107 | guessing a solution of four different colours yields `['B','B','B','B']` after any shuffle |
| Scoring.Verification | terminal_game.py:103-107 | the win test holds exactly when the guess equals the solution and the shuffled result is four pegs, every one black |
| Scoring.VerificationIff | terminal_game.py:103-107 | `verification` holds exactly when the guess equals the solution and the solution's four colours are pairwise distinct |
| FeedbackExamples.DedupFourDistinct | terminal_game.py:76-77 | the keys of a guess of four different colours are the guess itself, in order |
| FeedbackExamples.DedupSame | terminal_game.py:76-77 | a one-colour guess has a single key |
| FeedbackExamples.DedupOuter | terminal_game.py:76-77 | guess x y y x has keys x, y |
| FeedbackExamples.DedupTail | terminal_game.py:76-77 | guess x y y y has keys x, y |
| FeedbackExamples.CollectFour | terminal_game.py:89-97 | four keys yield their four entries in key order |
| FeedbackExamples.AllWhite | tests.py:19-23 | solution Y R G B, guess B G R Y: four `'W'` |
| FeedbackExamples.OneBlack | tests.py:25-29 | solution Y R G B, guess Y Y Y Y: one `'B'` |
| FeedbackExamples.NoPeg | tests.py:31-35 | solution Y R G B, guess O O O O: no peg |
| FeedbackExamples.AllBlack | tests.py:37-41 | solution Y R G B, guess Y R G B: four `'B'` |
| FeedbackExamples.TwoWhite | tests.py:43-47 | solution Y R G B, guess R Y Y Y: two `'W'` |
| FeedbackExamples.RepeatedRed | tests.py:49-53 | solution R G R Y, guess R R R R: red's entry is `['B']` after the first exact match and is reset to `['B']` by the second, so the result is exactly one `'B'` |
| FeedbackExamples.OneBlackOfRepeated | tests.py:55-59 | solution R G R Y, guess O R R O: one `'B'`; the earlier `'W'` for red is overwritten |
| TerminalGame.PlaceRow | terminal_game.py:59-61 | writing a played row into the slot the counter names and lowering the counter keeps the board "unplayed at or below the counter, played above it" |
| TerminalGame.PaletteDistinct | terminal_game.py:24 | the six palette colours are distinct |
| TerminalGame.Pick | terminal_game.py:133-139 | the two-player entry rule: a typed colour is added exactly when it is in the palette and, without duplicates, not yet chosen; the solution stays in the palette, and without duplicates it stays free of repeats |
| TerminalGame.NewTracker | terminal_game.py:76-77 | the tracker has exactly the guessed colours as keys, each with an empty list, in first-occurrence order |
| TerminalGame.FillTracker | terminal_game.py:79-87 | after the scoring loop each guessed colour's list is its `Entry` |
| TerminalGame.Emit | terminal_game.py:91-97 | for a one-character peg, `j[0]` is `j`, so the emitted pegs do not depend on `duplicates` |
| TerminalGame.TakeNext | terminal_game.py:89-97 | emitting the next key's list extends the collected pegs by that key's entry |
| TerminalGame.Draw | terminal_game.py:39-44 | four palette colours, pairwise distinct when duplicates are off |
| TerminalGame.Game.constructor | terminal_game.py:20-33 | eight empty slots, the fixed palette, an empty solution, counter 7, empty records, all flags false |
| TerminalGame.Game.CreateSolution | terminal_game.py:39-44 | the solution becomes four palette colours, pairwise distinct when duplicates are off; the board invariant still holds |
| TerminalGame.Game.EmitEntry | terminal_game.py:91-97 | the inner emission loop returns the entry unchanged and appends it to `colors_in_sol` |
| TerminalGame.Game.Feedback | terminal_game.py:73-101 | the result is a permutation of `Pegs(solution, guess)`; `colors_seen` grows by the guess's keys and `colors_in_sol` by the pegs; no other field changes |
| TerminalGame.Game.GuessRow | terminal_game.py:50-71 | after game over: returns false and changes nothing. Otherwise: returns true; the slot the counter named gets the guess and a permutation of its pegs, and no other slot changes; the counter drops by one; `player_win` iff the guess is the solution and the solution has no repeated colour; `comp_p2_win` iff the counter fell below 0; the invariant (counter in -1..7, -1 only when over, flags only when over) is kept |
| TerminalGame.Game.Move | terminal_game.py:55-71 | a move that is not refused, stated as the whole new state |
| TerminalGame.Game.Record | terminal_game.py:57-69 | the slot write, the decrement and both flag rules, with the slot index in 0..7 |
| TerminalGame.PlayedRow | terminal_game.py:55-57 | a guess with a permutation of its pegs is a played row |
| TerminalGame.EighthGuessWins | terminal_game.py:59-69 | seven misses and then the solution set both `player_win` and `comp_p2_win` on the eighth move |
| TerminalGame.Demo | terminal_game.py:146-165 | the demonstration run: with solution Y O B R, the first four of the eight moves are accepted and the fourth wins; the last four are refused; the game ends with the counter at 3, `player_win` set and `comp_p2_win` clear |
| TerminalGame.EightMisses | terminal_game.py:52-69 | eight misses: the computer wins and a ninth move is refused |
| Mastermind.GameColoursDistinct | mastermind.py:11 | the six game colours are distinct |
| Mastermind.RowOf | mastermind.py:76-77 | `[tile.color for tile in board[i]]`: the colours of a row, left to right |
| Mastermind.MarkRule | mastermind.py:83-91 | a position earns at most one peg: black exactly on an exact match, white exactly when the colours differ and the solution colour is in the guess |
| Mastermind.Marks | mastermind.py:82-91 | the pegs of the first `n` positions: at most `n`, each black or white |
| Mastermind.ExactStep | mastermind.py:83 | a position adds itself to the exact positions exactly when it matches |
| Mastermind.NearStep | mastermind.py:88 | a position adds itself to the near positions exactly when it does not match and its colour is in the guess |
| Mastermind.PegStep | mastermind.py:83-91 | a position adds a black peg for an exact match, a white one for a near position, and nothing otherwise |
| Mastermind.MarksBlack | mastermind.py:83-86 | one black peg per position with `sol[i] == guess[i]` |
| Mastermind.MarksWhite | mastermind.py:88-91 | one white peg per position with `sol[i] != guess[i]` and `sol[i]` in the guess |
| Mastermind.MarksCount | mastermind.py:82-91 | the black count is the number of exact positions, the white count the number of near ones, and there are no other pegs |
| Mastermind.ExactAll | mastermind.py:94-96 | at most `n` exact positions among `n`, and `n` exactly when the rows agree there |
| Mastermind.Placed | mastermind.py:84-91 | the row after the pegs went into their slots: untouched slots keep their colour, and with distinct slots each peg stays where it was put |
| Mastermind.PlacedSnoc | mastermind.py:84-85 | one more peg is one more cell update |
| Mastermind.PlacedCount | mastermind.py:84-91 | pegs put into distinct slots of a placeholder row replace one placeholder each |
| Mastermind.PlacedOnFresh | mastermind.py:42-50 | on a fresh feedback row the black count is the exact positions and the white count the near ones |
| Mastermind.WinOnFresh | mastermind.py:94-96 | a fresh feedback row ends all black exactly when the guess is the solution |
| Mastermind.RepeatedRedTwoBlacks | mastermind.py:76-91 | solution R G R Y, guess R R R R: two black pegs and no white |
| Mastermind.OuterOrangesOneOfEach | mastermind.py:76-91 | solution R G R Y, guess O R R O: one white and one black peg |
| Mastermind.FillRow | mastermind.py:17-32 | each tile of the row gets its starting colour (`StartColour`, lines 20-30): the solution's colour in row 0, a placeholder in any other row; other rows are untouched |
| Mastermind.FillBoard | mastermind.py:15-35 | every row gets its starting colours |
| Mastermind.GameBoard | mastermind.py:8-36 | a fresh `rows` × 4 board; row 0 holds four different game colours, every other row is all placeholders |
| Mastermind.FbBoard | mastermind.py:39-54 | a fresh (`rows` - 1) × 4 feedback grid of placeholders |
| Mastermind.CheckComplete | mastermind.py:106-111 | true exactly when no tile of the row is a placeholder |
| Mastermind.NoPlaceholderFrom | mastermind.py:108-111 | the scan from column `j` finds no placeholder exactly when none is there |
| Mastermind.PlacePeg | mastermind.py:84-86 | the drawn slot is one of the free ones, only that cell of the row changes, and other rows are untouched |
| Mastermind.ProgressPeg | mastermind.py:83-91 | placing a peg into a free slot and removing that slot from `choices` keeps the slots used distinct and disjoint from `choices` |
| Mastermind.ProgressSkip | mastermind.py:82-91 | a position with no peg changes nothing |
| Mastermind.FreeSlot | mastermind.py:81-91 | `choices` is never empty when `random.choice` runs |
| Mastermind.ScoreRow | mastermind.py:81-91 | the feedback row becomes the pegs placed into distinct slots, one per scored position; other rows are untouched |
| Mastermind.AssignFeedback | mastermind.py:73-96 | scores board row `row` into feedback row `row - 1`, touching no other row; the result is true iff that row is all black; on a fresh row the black count is the exact positions, the white count the near ones, and the result is true iff the guess is the solution |
| Mastermind.Scored | mastermind.py:94-96 | what scoring a complete row into a fresh feedback row yields: the peg counts, and all black exactly for a correct guess |
| Mastermind.FreshRow | mastermind.py:42-50 | a feedback row of placeholders reads as four placeholders |
| Mastermind.Session.constructor | mastermind.py:163-167 | a fresh board and feedback grid, the counter on the last row, the game running and the solution covered |
| Mastermind.Session.SetTile | mastermind.py:209 | setting a tile of the row being played changes that cell alone and keeps the invariant |
| Mastermind.Session.RevealSolution | mastermind.py:99-103 | every solution tile is repainted with its own colour; no tile colour changes |
| Mastermind.Session.Submit | mastermind.py:235-253 | a submission when the game is over or the row is incomplete changes nothing. Otherwise the feedback row gets one black per exact and one white per near position; a correct guess wins, with the counter kept; a miss moves the counter up one row; a miss on row 1 is a computer win, with the counter back at 1. The counter stays in 1 .. rows - 1, and the solution is shown exactly when the game is over |
| Mastermind.Session.Play | mastermind.py:235-245 | the scoring branch: the peg counts, the win iff the guess is the solution, and the counter and `game_over` in each case |
| Mastermind.Session.ScoreTurn | mastermind.py:240 | scores the current row into its fresh feedback row |

## Left out

- Rendering: `GameTile` surfaces, geometry and drawing, `draw_board`, `draw_feedback`, the pixel offsets in `fb_board`, and the start, legend and finish screens. These draw and do not decide anything.
- The `main` event loop mechanics: event polling, the clock, exit, and the recursive restart.
- The cursor keys that move `key_pos` and `color_index`: these are keyboard handling. `Mastermind.Session.SetTile` takes the chosen column and colour as parameters.
- The `setup` module is not part of this model. `ROWS` is the parameter `rows` (at least 2, so that row 1 exists), and `COLUMNS` is fixed at 4, as the literal `choices = [0, 1, 2, 3]` requires. The colour constants are a datatype whose values are taken to be distinct.
- Randomness: `random.choice`, `random.sample` and `random.shuffle` are nondeterministic choices. The model states what every outcome shares, and it does not model the distribution.
- The prompts and printing in the `__main__` block of `terminal_game.py` are left out. Its two-player entry rule is modelled as `TerminalGame.Pick`, and its one-player demonstration run as `TerminalGame.Demo`. `solver` is an empty stub.
- Mastermind.AssignFeedback: when the row is not all black, Python falls off the end and returns `None`. The model returns `false`, which the caller tests the same way.
- Mastermind.Session.RevealSolution: only the colour effect is modelled. `shown` records what the solution tiles display: black from `game_board` until revealed, then their own colours.
- TerminalGame.Game.GetBoard and TerminalGame.Game.GetSolution: plain field reads with nothing to state beyond their body.
- TerminalGame.Game.Feedback: requires the solution to be no longer than the guess, and `Valid` bounds the solution at four colours. Python raises IndexError at `row[i]` when a longer solution is assigned from outside. No code in the repository does that, and that error path is not modelled.
- `tests.py` is not modelled as a program: it passes `guess_row`'s boolean into `feedback`. Only its expected values appear, as lemmas.
