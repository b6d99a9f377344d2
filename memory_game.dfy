/** The game window's state and event handlers, with the Swing widgets
    replaced by the per-cell flags they carry: a button's icon (face up or
    not) and its enabled flag. The pending timer is the `second` pick. */
module MemoryGames {
  import opened Grids
  import opened Deck
  import opened Rules

  /** The answer to the game-over dialog. */
  datatype Choice = Restart | Quit

  /** The grid of values held by a 4x4 array. */
  function GridOf<T>(a: array2<T>): (g: seq<seq<T>>)
    reads a
    requires a.Length0 == Size && a.Length1 == Size
    ensures IsGrid(g)
    ensures forall c :: InGrid(c) ==> At(g, c) == a[c.row, c.col]
  {
    seq(Size, r requires 0 <= r < Size reads a =>
      seq(Size, k requires 0 <= k < Size reads a => a[r, k]))
  }

  class MemoryGame {
    /** The symbol on each cell. */
    const numbers: array2<int>
    /** Cells whose pair has been found. */
    const matched: array2<bool>
    /** Cells whose button shows its icon. */
    const revealed: array2<bool>
    /** Cells whose button is enabled. */
    const enabled: array2<bool>
    /** The first pick of the turn (firstRow/firstCol, or none). */
    var first: Option<Cell>
    /** The second pick, present while the comparison timer is pending. */
    var second: Option<Cell>
    /** Completed comparisons. */
    var tries: nat

    ghost predicate Shape()
      reads this
    {
      && numbers.Length0 == Size && numbers.Length1 == Size
      && matched.Length0 == Size && matched.Length1 == Size
      && revealed.Length0 == Size && revealed.Length1 == Size
      && enabled.Length0 == Size && enabled.Length1 == Size
      && matched != revealed && matched != enabled && revealed != enabled
      && (first.Some? ==> InGrid(first.value))
      && (second.Some? ==> InGrid(second.value))
    }

    /** The board state this object holds. */
    function State(): Game
      reads this, numbers, matched, revealed, enabled
      requires Shape()
    {
      Game(GridOf(numbers), GridOf(matched), GridOf(revealed), GridOf(enabled), first, second, tries)
    }

    ghost predicate Valid()
      reads this, numbers, matched, revealed, enabled
    {
      Shape() && Inv(State())
    }

    /** Builds the window: a freshly shuffled board, every button enabled and
        showing no icon, no pick and no tries. */
    constructor (draws: seq<int>)
      requires DrawsFor(2 * Symbols, draws)
      ensures Valid() && State() == NewGame(DealOf(draws))
      ensures fresh(numbers) && fresh(matched) && fresh(revealed) && fresh(enabled)
    {
      numbers := new int[Size, Size];
      matched := new bool[Size, Size]((_, _) => false);
      revealed := new bool[Size, Size]((_, _) => false);
      enabled := new bool[Size, Size]((_, _) => true);
      first, second, tries := None, None, 0;
      new;
      InitializeBoard(draws);
      GridExt(GridOf(matched), Filled(false));
      GridExt(GridOf(revealed), Filled(false));
      GridExt(GridOf(enabled), Filled(true));
      assert State() == NewGame(DealOf(draws));
      ShuffledNewGameInv(draws);
    }

    /** initializeBoard: builds the list holding every symbol twice, shuffles
        it, and lays it out row by row. */
    method InitializeBoard(draws: seq<int>)
      requires Shape() && DrawsFor(2 * Symbols, draws)
      modifies numbers
      ensures GridOf(numbers) == Rows(DealOf(draws))
    {
      var list := BuildDeck();
      Shuffle(list, draws);
      LayOut(list);
    }

    /** The list of cards before the shuffle: each symbol appended twice, in order. */
    static method BuildDeck() returns (list: array<int>)
      ensures fresh(list) && list.Length == 2 * Symbols
      ensures list[..] == FreshDeck(Symbols)
    {
      list := new int[2 * Symbols];
      for i := 0 to Symbols
        invariant list[..2 * i] == FreshDeck(i)
      {
        list[2 * i] := i;
        list[2 * i + 1] := i;
        assert list[..2 * i + 2] == list[..2 * i] + [i, i];
      }
      assert list[..] == list[..2 * Symbols];
    }

    /** The iteration that copies the shuffled list onto the board, row by row. */
    method LayOut(list: array<int>)
      requires Shape() && list.Length == Size * Size
      modifies numbers
      ensures GridOf(numbers) == Rows(list[..])
    {
      var it := 0;
      for i := 0 to Size
        invariant it == Size * i
        invariant forall r, k :: 0 <= r < i && 0 <= k < Size ==> numbers[r, k] == list[Size * r + k]
      {
        for j := 0 to Size
          invariant it == Size * i + j
          invariant forall r, k :: 0 <= r < i && 0 <= k < Size ==> numbers[r, k] == list[Size * r + k]
          invariant forall k :: 0 <= k < j ==> numbers[i, k] == list[Size * i + k]
        {
          numbers[i, j] := list[it];
          it := it + 1;
        }
      }
      GridExt(GridOf(numbers), Rows(list[..]));
    }

    /** A press on the button at (row, col): Swing delivers the click to
        handleClick only when the button is enabled. */
    method Press(row: int, col: int)
      requires Valid() && 0 <= row < Size && 0 <= col < Size
      modifies this, revealed, enabled
      ensures Valid() && State() == Rules.Press(old(State()), Cell(row, col))
    {
      if enabled[row, col] {
        HandleClick(row, col);
      }
    }

    /** handleClick: ignores matched, face-up and pending cells; otherwise
        shows the cell and makes it the first pick, or the second pick, in
        which case it disables every button and arms the comparison. */
    method HandleClick(row: int, col: int)
      requires Valid() && 0 <= row < Size && 0 <= col < Size && enabled[row, col]
      modifies this, revealed, enabled
      ensures Valid() && State() == Rules.HandleClick(old(State()), Cell(row, col))
    {
      ghost var g := State();
      var c := Cell(row, col);
      assert At(g.enabled, c);
      if matched[row, col] || revealed[row, col] || first == Some(c) {
        return;
      }
      revealed[row, col] := true;
      GridExt(GridOf(revealed), Update(g.revealed, c, true));
      ghost var shown := g.(revealed := Update(g.revealed, c, true));
      if first.None? {
        first := Some(c);
        assert State() == shown.(first := Some(c));
      } else {
        second := Some(c);
        DisableAllButtons();
        assert State() == DisableAll(shown.(second := Some(c)));
      }
      PressPreservesInv(g, c);
    }

    /** disableAllButtons. */
    method DisableAllButtons()
      requires Shape()
      modifies enabled
      ensures GridOf(enabled) == Filled(false)
    {
      for i := 0 to Size
        invariant forall r, k :: 0 <= r < i && 0 <= k < Size ==> !enabled[r, k]
      {
        for j := 0 to Size
          invariant forall r, k :: 0 <= r < i && 0 <= k < Size ==> !enabled[r, k]
          invariant forall k :: 0 <= k < j ==> !enabled[i, k]
        {
          enabled[i, j] := false;
        }
      }
      GridExt(GridOf(enabled), Filled(false));
    }

    /** enableUnmatchedButtons: enables every unmatched button; the others keep their flag. */
    method EnableUnmatchedButtons()
      requires Shape()
      modifies enabled
      ensures State() == Rules.EnableUnmatched(old(State()))
    {
      for i := 0 to Size
        invariant forall r, k :: 0 <= r < Size && 0 <= k < Size ==>
                    enabled[r, k] == if r < i then old(enabled[r, k]) || !matched[r, k] else old(enabled[r, k])
      {
        for j := 0 to Size
          invariant forall r, k :: 0 <= r < Size && 0 <= k < Size ==>
                      enabled[r, k] == if r < i || (r == i && k < j) then old(enabled[r, k]) || !matched[r, k]
                                       else old(enabled[r, k])
        {
          if !matched[i, j] {
            enabled[i, j] := true;
          }
        }
      }
      GridExt(GridOf(enabled), Rules.EnableUnmatched(old(State())).enabled);
    }

    /** checkMatch: counts the try; a pair of equal symbols becomes matched
        and its buttons disabled, an unequal pair is turned face down; the
        picks are cleared. */
    method CheckMatch()
      requires Shape() && first.Some? && second.Some?
      modifies this, matched, revealed, enabled
      ensures Shape() && State() == Rules.CheckMatch(old(State()))
    {
      ghost var g := State();
      var f, s := first.value, second.value;
      tries := tries + 1;
      if numbers[f.row, f.col] == numbers[s.row, s.col] {
        assert At(g.numbers, f) == At(g.numbers, s);
        MarkMatched(f, s);
      } else {
        assert At(g.numbers, f) != At(g.numbers, s);
        TurnFaceDown(f, s);
      }
      first := None;
      second := None;
    }

    /** The matching branch of checkMatch: both cells become matched and
        their buttons disabled. */
    method MarkMatched(f: Cell, s: Cell)
      requires Shape() && InGrid(f) && InGrid(s)
      modifies matched, enabled
      ensures State() == old(State()).(matched := Update(Update(old(State()).matched, f, true), s, true),
                                       enabled := Update(Update(old(State()).enabled, f, false), s, false))
    {
      ghost var m, e := GridOf(matched), GridOf(enabled);
      matched[f.row, f.col] := true;
      matched[s.row, s.col] := true;
      enabled[f.row, f.col] := false;
      enabled[s.row, s.col] := false;
      GridExt(GridOf(matched), Update(Update(m, f, true), s, true));
      GridExt(GridOf(enabled), Update(Update(e, f, false), s, false));
    }

    /** The mismatching branch of checkMatch: both cells lose their icon. */
    method TurnFaceDown(f: Cell, s: Cell)
      requires Shape() && InGrid(f) && InGrid(s)
      modifies revealed
      ensures State() == old(State()).(revealed := Update(Update(old(State()).revealed, f, false), s, false))
    {
      ghost var v := GridOf(revealed);
      revealed[f.row, f.col] := false;
      revealed[s.row, s.col] := false;
      GridExt(GridOf(revealed), Update(Update(v, f, false), s, false));
    }

    /** The body of the comparison timer up to the game-over test:
        checkMatch, then enableUnmatchedButtons. */
    method Resolve()
      requires Valid() && second.Some?
      modifies this, matched, revealed, enabled
      ensures Valid() && State() == Rules.Resolve(old(State()))
    {
      CheckMatch();
      EnableUnmatchedButtons();
      ResolvePreservesInv(old(State()));
    }

    /** isGameOver: scans the board row by row and answers false at the first
        unmatched cell. */
    method IsGameOver() returns (over: bool)
      requires Shape()
      ensures over <==> AllMatched(State())
    {
      for i := 0 to Size
        invariant forall r, k :: 0 <= r < i && 0 <= k < Size ==> matched[r, k]
      {
        for j := 0 to Size
          invariant forall k :: 0 <= k < j ==> matched[i, k]
        {
          if !matched[i, j] {
            assert !At(State().matched, Cell(i, j));
            return false;
          }
        }
      }
      return true;
    }

    /** resetGame: no tries, no picks, every cell unmatched, face down and
        enabled, and a new shuffle. */
    method ResetGame(draws: seq<int>)
      requires Shape() && DrawsFor(2 * Symbols, draws)
      modifies this, numbers, matched, revealed, enabled
      ensures Valid() && State() == NewGame(DealOf(draws))
    {
      tries := 0;
      first := None;
      second := None;
      for i := 0 to Size
        invariant first.None? && second.None? && tries == 0
        invariant forall r, k :: 0 <= r < i && 0 <= k < Size ==>
                    !matched[r, k] && enabled[r, k] && !revealed[r, k]
      {
        for j := 0 to Size
          invariant first.None? && second.None? && tries == 0
          invariant forall r, k :: 0 <= r < i && 0 <= k < Size ==>
                      !matched[r, k] && enabled[r, k] && !revealed[r, k]
          invariant forall k :: 0 <= k < j ==> !matched[i, k] && enabled[i, k] && !revealed[i, k]
        {
          matched[i, j] := false;
          enabled[i, j] := true;
          revealed[i, j] := false;
        }
      }
      InitializeBoard(draws);
      GridExt(GridOf(matched), Filled(false));
      GridExt(GridOf(revealed), Filled(false));
      GridExt(GridOf(enabled), Filled(true));
      assert State() == NewGame(DealOf(draws));
      ShuffledNewGameInv(draws);
    }

    /** The comparison timer fires: resolve the pair; if every cell is now
        matched, the dialog's answer either restarts the game on a new
        shuffle or quits. */
    method TimerFired(choice: Choice, draws: seq<int>) returns (quit: bool)
      requires Valid() && second.Some? && DrawsFor(2 * Symbols, draws)
      modifies this, numbers, matched, revealed, enabled
      ensures Valid()
      ensures var resolved := Rules.Resolve(old(State()));
        && quit == (AllMatched(resolved) && choice == Quit)
        && State() == if AllMatched(resolved) && choice == Restart then NewGame(DealOf(draws)) else resolved
    {
      Resolve();
      quit := false;
      var over := IsGameOver();
      if over {
        if choice == Restart {
          ResetGame(draws);
        } else {
          quit := true;
        }
      }
    }
  }
}
