# Memory matching game: board state machine

A Dafny model of the card-matching game in `Dinorog_MemoryGame.java`.
The board is a 4x4 grid of face-down cards carrying 8 symbols, each on exactly
two cards. The player reveals two cards per turn. After a short delay the pair
is compared: a pair with equal symbols stays face up as matched, any other pair
is turned face down again. Every comparison counts as one try. When every cell
is matched, a dialog offers a restart on a new shuffle, or quits.

The window's Swing widgets are replaced by the per-cell state they carry:

- `numbers`: the symbol on each cell.
- `matched`: the cells whose pair has been found.
- `revealed`: the cells whose button shows its icon (`getIcon() != null`).
- `enabled`: the cells whose button is enabled.
- `first`: the pending first pick (the source's `firstButton` / `firstRow` / `firstCol`).
- `second`: the second pick, present while the comparison timer is armed.
- `tries`: the number of completed comparisons.

Modules:

- `Grids` (`grids.dfy`): cells, 4x4 grids held as rows, and the row-major order in which the board is dealt.
- `Deck` (`deck.dfy`): the fresh list `[0,0,1,1,…,7,7]` and the shuffle. It also defines what a deal is: every value a symbol, every symbol exactly twice.
- `Rules` (`rules.dfy`): the board state as a value (`Game`) and each handler as a function on it. It also holds the invariant every reachable state keeps, and lemmas for what each transition promises.
- `MemoryGames` (`memory_game.dfy`): class `MemoryGame`, with the grids as `array2` fields updated in place by the source's nested loops. The constructor and the event handlers `Press`, `HandleClick`, `Resolve`, `ResetGame` and `TimerFired` are proved to keep `Valid()` (the invariant); `Press`, `HandleClick` and `Resolve` are also proved to turn `State()` into the matching `Rules` function of the old state, the constructor and `ResetGame` to leave `State()` equal to `Rules.NewGame` on the new shuffle, and `TimerFired` to do one or the other according to the outcome. The helpers they call are intermediate steps that need not keep the invariant (after `CheckMatch` every button is still disabled and no pick is pending). Each state-changing helper is proved equal to its `Rules` counterpart (`CheckMatch`, `EnableUnmatchedButtons`) or to an explicit update of the old state (`MarkMatched`, `TurnFaceDown`), or is proved to give the fields it changes their new contents outright (`DisableAllButtons`: every button disabled; `InitializeBoard` and `LayOut`: the shuffled deal laid out row by row). `IsGameOver` changes nothing and is proved to answer `Rules.AllMatched`.

The invariant (`Rules.Inv`) says five things:

- the board is a deal;
- a second pick exists only beside a different first pick;
- matched cells stay face up;
- the face-up unmatched cells are exactly the current turn's picks;
- while a comparison is pending no button is enabled, and otherwise exactly the unmatched buttons are.

Two behaviours of the code shape the model:

- Line 84 ignores a click on a cell that already shows its icon (a face-up cell, which includes the pending first pick), as well as a matched cell.
- Lines 124-139 never remove the icon of a matched button (only a mismatched pair loses its icons), so in the model matched cells stay face up (`revealed`).

## Model

| member | source | states |
|---|---|---|
| Deck.FreshDeckCount | Dinorog_MemoryGame.java:71-75 | the list built by appending each of the symbols 0..n-1 twice holds 2n cards: every symbol below n exactly twice, no other value |
| Deck.DealCharacterization | Dinorog_MemoryGame.java:70-81 | a sequence is a deal (all values in 0..7, each exactly twice) if and only if it is a rearrangement of the fresh list |
| Deck.ShuffleSteps | Dinorog_MemoryGame.java:76 | the shuffle's steps keep the list's length |
| Deck.ShufflePermutes | Dinorog_MemoryGame.java:76 | shuffling only rearranges the cards: the multiset of cards is unchanged, for every sequence of random draws |
| Deck.Shuffle | Dinorog_MemoryGame.java:76 | the in-place shuffle leaves the array equal to the specified sequence of swaps applied to its old contents |
| Deck.DealOf | Dinorog_MemoryGame.java:70-81 | the dealt layout has 16 cards |
| Deck.DealOfTwoOfEach | Dinorog_MemoryGame.java:70-81 | whatever the random draws, the dealt board has 16 cells, every one a symbol in 0..7, every symbol on exactly two cells |
| Grids.FlattenRows | Dinorog_MemoryGame.java:77-80 | laying 16 values out row by row and reading them back row by row gives them in their original order |
| Rules.NewGameInv | Dinorog_MemoryGame.java:13-17 | the starting state on any deal (nothing matched or shown, all buttons enabled, no pick, no tries) satisfies the invariant |
| Rules.ShuffledNewGameInv | Dinorog_MemoryGame.java:167-185 | a new game on a fresh shuffle satisfies the invariant, the two-of-each-symbol part included |
| Rules.DisableAll | Dinorog_MemoryGame.java:147-151 | the result is again a well-formed board |
| Rules.EnableUnmatched | Dinorog_MemoryGame.java:153-158 | the result is again a well-formed board |
| Rules.HandleClick | Dinorog_MemoryGame.java:83-94 | the result is again a well-formed board |
| Rules.Press | Dinorog_MemoryGame.java:47-50 | the result is again a well-formed board |
| Rules.CheckMatch | Dinorog_MemoryGame.java:120-145 | the result is again a well-formed board |
| Rules.Resolve | Dinorog_MemoryGame.java:96-98 | the result is again a well-formed board |
| Rules.PressPreservesInv | Dinorog_MemoryGame.java:83-118 | every press on a cell keeps the invariant |
| Rules.ResolvePreservesInv | Dinorog_MemoryGame.java:120-158 | resolving the pending pair keeps the invariant |
| Rules.PressIgnored | Dinorog_MemoryGame.java:84 | a press changes nothing if and only if the cell is matched, or face up (which includes the pending first cell), or a comparison is pending |
| Rules.FirstPick | Dinorog_MemoryGame.java:86-91 | with no pick pending, a valid press reveals exactly that cell and records it as the first pick. Matches, tries, enabled buttons and the deal are unchanged |
| Rules.SecondPick | Dinorog_MemoryGame.java:92-94 | with a first pick pending, a valid press on another cell reveals exactly it and records it as the second pick. It differs from the first pick, every button becomes disabled, and matches and tries are unchanged |
| Rules.NoSelfPairing | Dinorog_MemoryGame.java:84 | pressing the same cell twice from an idle board never produces a second pick |
| Rules.PressKeepsMatches | Dinorog_MemoryGame.java:83-94 | no press clears a match, counts a try or changes the deal; matches are undone only by a reset and tries counted only when a pair is resolved |
| Rules.ResolveOutcome | Dinorog_MemoryGame.java:120-158 | resolving adds exactly one try and clears both picks. Equal symbols: both cells become matched and stay face up. Unequal symbols: both go face down and no match is added. No other cell changes, no match is undone, and afterwards exactly the unmatched buttons are enabled |
| Rules.AtMostTwoFaceUp | Dinorog_MemoryGame.java:83-145 | at most two cells are face up and unmatched; at most one before the second pick, none before the first |
| Rules.GameOverIgnoresPresses | Dinorog_MemoryGame.java:134-135 | once every cell is matched, no press changes anything |
| Rules.Turn | Dinorog_MemoryGame.java:83-158 | from an idle board, picking two distinct unmatched cells and resolving counts exactly one try and returns to idle. Equal symbols leave both matched; unequal ones leave both face down with no new match. The invariant holds after each step |
| MemoryGames.MemoryGame.constructor | Dinorog_MemoryGame.java:21-59 | the new game's state is the starting state on the shuffled deal, and the invariant holds |
| MemoryGames.MemoryGame.InitializeBoard | Dinorog_MemoryGame.java:70-81 | the board holds the fresh list, shuffled by the given draws, laid out row by row |
| MemoryGames.MemoryGame.BuildDeck | Dinorog_MemoryGame.java:71-75 | the list built holds each symbol 0..7 twice, in order |
| MemoryGames.MemoryGame.LayOut | Dinorog_MemoryGame.java:77-80 | the board's cell (r, c) receives list element 4r + c |
| MemoryGames.MemoryGame.Press | Dinorog_MemoryGame.java:47-50 | a press on a disabled button changes nothing; on an enabled one it is handleClick. The invariant is kept |
| MemoryGames.MemoryGame.HandleClick | Dinorog_MemoryGame.java:83-94 | the new state is `Rules.HandleClick` of the old one, and the invariant is kept |
| MemoryGames.MemoryGame.DisableAllButtons | Dinorog_MemoryGame.java:147-151 | every button is disabled |
| MemoryGames.MemoryGame.EnableUnmatchedButtons | Dinorog_MemoryGame.java:153-158 | every unmatched button is enabled, the others keep their flag, and nothing else changes |
| MemoryGames.MemoryGame.CheckMatch | Dinorog_MemoryGame.java:120-145 | the new state is `Rules.CheckMatch` of the old one |
| MemoryGames.MemoryGame.MarkMatched | Dinorog_MemoryGame.java:124-135 | exactly the two cells become matched and their buttons disabled; nothing else changes |
| MemoryGames.MemoryGame.TurnFaceDown | Dinorog_MemoryGame.java:136-139 | exactly the two cells lose their icon; nothing else changes |
| MemoryGames.MemoryGame.Resolve | Dinorog_MemoryGame.java:96-98 | the new state is `Rules.Resolve` of the old one, and the invariant is kept |
| MemoryGames.MemoryGame.IsGameOver | Dinorog_MemoryGame.java:160-165 | answers true if and only if every one of the 16 cells is matched |
| MemoryGames.MemoryGame.ResetGame | Dinorog_MemoryGame.java:167-185 | no tries and no picks remain; every cell is unmatched, face down and enabled; the board is a new shuffle. The invariant holds, two-of-each included |
| MemoryGames.MemoryGame.TimerFired | Dinorog_MemoryGame.java:96-116 | the pair is resolved. The game quits if and only if every cell is then matched and the answer is Quit. It restarts on the new shuffle if and only if every cell is matched and the answer is Restart. The invariant is kept |

## Left out

- Window, panel, label and button construction and layout (lines 21-59 apart from the initial per-cell flags): presentation only.
- Image loading and scaling (lines 61-68): file I/O and library calls. A symbol is its index 0..7.
- Label text updates and `setDisabledIcon` calls (lines 122, 128-132, 169, 180): presentation only.
- The 800 ms delay of the `javax.swing.Timer` (lines 96, 115-116): the model has no clock. The armed timer is the pending `second` pick, and its firing is the explicit `TimerFired` step.
- The game-over dialog (lines 101-112) is the `Choice` parameter. Quitting is returned as `quit`; the process exit itself is not modelled.
- `Collections.shuffle` (line 76) is library code. It is modelled by its documented algorithm (for i from the length down to 2, swap element i-1 with a random index below i), with the random draws as a parameter. Neither uniformity nor that every arrangement can be drawn is proved; only that every shuffle is a rearrangement.
- `tries` is an unbounded `nat`; the 32-bit overflow of the source's `int` after 2^31-1 comparisons is not modelled.
- The button objects `firstButton` and `secondButton` are modelled by the cells they stand for, since each cell has exactly one button. The `-1` sentinel of `firstRow`/`firstCol` is `None`.
- The Swing event thread is not modelled. Its only effect here is that clicks arrive one at a time and never during the timer, because every button is disabled then.
- Rules.DisableAll: its own contract states only that the result is a well-formed board. `MemoryGame.DisableAllButtons`, `Rules.SecondPick` and the invariant state what it does.
- Rules.EnableUnmatched: its own contract states only that the result is a well-formed board. `MemoryGame.EnableUnmatchedButtons` and `Rules.ResolveOutcome` state what it does.
- Rules.HandleClick: its own contract states only that the result is a well-formed board. `Rules.PressIgnored`, `Rules.FirstPick`, `Rules.SecondPick` and `Rules.PressPreservesInv` state what it does.
- Rules.Press: its own contract states only that the result is a well-formed board. The lemmas named for `Rules.HandleClick` state what it does.
- Rules.CheckMatch: its own contract states only that the result is a well-formed board. `Rules.ResolveOutcome` states what it does.
- Rules.Resolve: its own contract states only that the result is a well-formed board. `Rules.ResolveOutcome`, `Rules.ResolvePreservesInv` and `Rules.Turn` state what it does.
- Deck.ShuffleSteps: its own contract states only the length. `Deck.ShufflePermutes` states that it rearranges.
- Deck.DealOf: its own contract states only the length. `Deck.DealOfTwoOfEach` states the contents.
