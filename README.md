# Kalaha rule engine — a verified model

This project models the rule engine of a Kalaha (Mancala) solver, the file `src/main.rs`.

- **Board.** A position holds two sides of seven cells each. Cells 0..5 are pits and cell 6 is the store. A flag records the side to move.
- **Initial position.** Every pit holds four seeds, both stores are empty, and side 0 moves first.
- **Terminal detection.** A position is classified as running, drawn or won.
- **Move engine.** A move empties one of the mover's pits. Its seeds are sown one at a time around a 13-cell cycle: the mover's pits, the mover's store, then the opponent's pits. The opponent's store is skipped.
  - A last seed in the mover's store gives the mover another move.
  - A last seed in an empty pit of the mover's captures the opposite pit into the mover's store.
- **Expansion.** `next` lists every position reachable in one full turn. It follows chains of extra turns recursively.

Modules:

- `Wrappers` (`wrappers.dfy`): the `Option` type a move returns.
- `Board` (`board.dfy`): the position datatype, the initial position and the classification `StateOf`.
- `Sowing` (`sowing.dfy`): the move engine.
  - `Step` is a method that copies the board and runs the sowing loop as the source does (in `SowSeeds`). It is proved equal to the specification function `Successor`.
  - `Successor` describes the move as a function. `Sown` drops the seeds one per cycle cell, and the last of `n` seeds from pit `s` lands on cycle cell `(s + n) mod 13`. `SownAt` and `DropsClosedForm` prove the per-cell count: cell `c` ends with its old count plus `n / 13`, plus one more for each of the first `n mod 13` cells after the start pit.
  - The lemmas state what a move promises.
- `Expansion` (`expansion.dfy`): `Next`, a recursive method with a loop over the pits, as in the source.
  - It is specified by the ghost predicate `FullTurn(g, moves, x)`: `x` is reached from `g` by sowing the pits `moves` in order, every move but the last having kept the turn in a running game.
  - Every result comes with a witness chain of moves, so the list is sound.
  - Every full turn's result is in the list, so it is complete.

## Model

| member | source | states |
|---|---|---|
| Board.NewPlayer | src/main.rs:11-13 | a fresh side has seven cells: four seeds in each of the six pits and an empty store |
| Board.NewGame | src/main.rs:23-25 | the initial position is valid, side 0 moves, and it holds 48 seeds |
| Board.NewGameInProgress | src/main.rs:23-25 | the initial position is classified as a running game |
| Board.ValidFitsI8 | src/main.rs:3-9 | in a valid position every cell and every side total lies in 0..127, so the `i8` cells and sums cannot overflow |
| Board.StateOf | src/main.rs:48-64 | a finished verdict needs one side with empty pits; a draw has equal seven-cell totals; the winner's seven-cell total is strictly larger |
| Board.StateInProgressIff | src/main.rs:48-54 | on valid positions the game is running exactly when both sides still have a seed in some pit |
| Board.StateFinishedIff | src/main.rs:55-63 | once the game is over, Win(0), Win(1) and Draw hold exactly when side 0's total is larger, smaller or equal |
| Sowing.Successor | src/main.rs:66-70 | a move returns no position exactly when the chosen pit is empty |
| Sowing.Step | src/main.rs:66-100 | the imperative move (copy, sowing loop, capture, turn switch) yields exactly `Successor` |
| Sowing.SowSeeds | src/main.rs:72-88 | the sowing loop leaves the board of `Sown` and stops on the cycle cell `(s + n) mod 13` |
| Sowing.Sown | src/main.rs:74-88 | emptying pit `s` and dropping its first `k` seeds one per cycle cell keeps the board two sides of seven cells after every seed (its contents are stated by `SownAt`, its total by `SownTotal`) |
| Sowing.Captures | src/main.rs:90-92 | the capture test holds only when the pit was non-empty and the last seed landed in one of the mover's own pits 0..5, never in a store or an opponent's pit (the full condition in terms of the position before the move is `CapturesIff`) |
| Sowing.Capture | src/main.rs:93-95 | the take-over empties the opposite pit `5 - pos`, adds its seeds to the mover's store, leaves every other cell as it was, and keeps the board total |
| Sowing.DropsClosedForm | src/main.rs:76-88 | sowing `k` seeds puts `k / 13` in every cycle cell, plus one more in each of the first `k mod 13` cells after the start pit |
| Sowing.DropsPositiveIff | src/main.rs:76-88 | a cycle cell receives a seed exactly when some seed of the move is sown on it |
| Sowing.SownAt | src/main.rs:74-88 | seed-by-seed sowing agrees with the per-cell count: old value (zero for the emptied pit) plus the seeds that reached the cell |
| Sowing.SownTotal | src/main.rs:74-79 | after `k` of the pit's seeds are sown the board holds the old total minus the seeds still in hand |
| Sowing.SownValid | src/main.rs:74-88 | a completed sowing keeps the total and leaves every cell non-negative |
| Sowing.TotalBump | src/main.rs:77 | dropping one seed in one cell raises the board total by one |
| Sowing.CaptureValid | src/main.rs:92-95 | a capture keeps the total and leaves no cell negative |
| Sowing.LastSeed | src/main.rs:90-98 | the cell of the last seed decides the move: store keeps the turn, a mover's pit holding one seed captures, anything else passes the turn |
| Sowing.StepConserves | src/main.rs:74-95 | a move keeps the number of seeds and leaves no cell negative, so its result is a valid position |
| Sowing.StepStores | src/main.rs:80-95 | a move never changes the opponent's store, and the mover's store never decreases |
| Sowing.StepExtraTurnIff | src/main.rs:90-98 | the mover keeps the turn exactly when the last seed lands in the mover's store (cycle index 6); otherwise the turn flips |
| Sowing.StepWithoutCapture | src/main.rs:76-98 | without a capture, every cell that no seed reached, other than the emptied pit, keeps its count |
| Sowing.StepCapture | src/main.rs:90-97 | on a capture the opposite pit `5 - l` becomes empty, its seeds are added to the mover's store, the landing seed stays in pit `l`, the turn passes, and every other cell is as sowing left it |
| Sowing.CapturesIff | src/main.rs:90-92 | a capture happens exactly when the last seed lands in one of the mover's pits that was empty before the move, or with exactly 13 seeds in the start pit itself |
| Sowing.ExtraTurnReducesPits | src/main.rs:90-98 | a move that keeps the turn strictly lowers the seeds left in the pits, so chains of extra turns end |
| Sowing.NewGameSowPit2 | src/main.rs:66-100 | from the initial position, sowing pit 2 fills pits 3, 4, 5 and the store, and side 0 moves again |
| Expansion.FullTurnOne | src/main.rs:113-115 | a move that passes the turn or ends the game is a full turn by itself |
| Expansion.FullTurnExtend | src/main.rs:109-112 | a move that keeps the turn in a running game, followed by a full turn, is a full turn |
| Expansion.FullTurnFirst | src/main.rs:108-116 | the first move of a full turn is a legal move, and it either ends the turn or is followed by a full turn from the position it reaches |
| Expansion.FullTurnBounded | src/main.rs:107-116 | a full turn has at most as many moves as there are seeds in the pits |
| Expansion.FullTurnConserves | src/main.rs:104-118 | a full turn ends in a valid position with the same total, with the turn passed or the game over |
| Expansion.WitnessedAppend | src/main.rs:110-115 | concatenating two lists of witnessed results gives a witnessed list |
| Expansion.Next | src/main.rs:104-119 | every result is valid, keeps the seed total, and has the turn passed or the game over; every result has a full-turn witness; every full turn's result is listed; the list is empty exactly when the mover's pits are all empty |
| Expansion.ExpandPit | src/main.rs:108-116 | one pass of the loop over pits keeps what is already listed, appends only witnessed results, lists every full turn that starts with pit `i`, and appends nothing exactly when pit `i` is empty |
| Expansion.PushAll | src/main.rs:110-112 | pushing the elements one at a time appends them in order |

## Left out

- `Game::print` and `main` (src/main.rs:27-46, 121-130) are console output and a driver. They are not modelled.
- `i8` arithmetic: cells are unbounded integers. A valid position has non-negative cells and at most 127 seeds in all, and `Board.ValidFitsI8` shows that no cell or side total then leaves the `i8` range. Rust's behaviour on overflow is not modelled. Positions with negative cells or more than 127 seeds are outside the model.
- The turn flag is an `i8` in the source. Here it is the type `Side` (0 or 1); the source only ever stores 0 or 1 in it.
- `Sowing.Step`: the panic on a pit index of 6 or more is modelled as the precondition `s < 6`.
- `Sowing.Step`: the source clones the `Game` and mutates the copy in place; the model copies the board as an immutable sequence value and reassigns it, so aliasing is not modelled.
- `Expansion.Next`: the `Vec` is modelled as a sequence in push order. The inner `for` over the recursive result is the method `PushAll`, and the body of the loop over pits is the method `ExpandPit`.
- Expansion.Next: the contract fixes which positions are listed (each with a witness chain, none missing), not how often each appears or their order; the source lists one entry per chain of moves, in pit order, duplicates included.
- Capture rule: in the source, the landing seed stays in its pit and only the opposite pit's seeds go to the store. Some descriptions of the game move the landing seed to the store as well. The model follows the source (`Sowing.StepCapture`).
- Position bit-packing, outcome search, knowledge files and the learning threads are not part of this model.
