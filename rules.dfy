/** The game's board state as a value, the transitions the window's event
    handlers make on it, the invariant every reachable state keeps, and what
    each transition promises. */
module Rules {
  import opened Grids
  import opened Deck

  datatype Option<T> = None | Some(value: T)

  /** The whole board state.
      numbers:  the symbol dealt to each cell;
      matched:  cells whose pair has been found;
      revealed: cells currently showing their symbol (the button has an icon);
      enabled:  cells whose button accepts clicks;
      first:    the pending first pick, if any;
      second:   the second pick while the comparison is pending (the timer is armed);
      tries:    completed comparisons. */
  datatype Game = Game(
    numbers: seq<seq<int>>,
    matched: seq<seq<bool>>,
    revealed: seq<seq<bool>>,
    enabled: seq<seq<bool>>,
    first: Option<Cell>,
    second: Option<Cell>,
    tries: nat)

  /** Every grid is 4x4 and the picks are cells of the board. */
  predicate Shaped(g: Game)
  {
    && IsGrid(g.numbers) && IsGrid(g.matched) && IsGrid(g.revealed) && IsGrid(g.enabled)
    && (g.first.Some? ==> InGrid(g.first.value))
    && (g.second.Some? ==> InGrid(g.second.value))
  }

  /** c is one of the picks of the current turn. */
  predicate Pending(g: Game, c: Cell)
  {
    g.first == Some(c) || g.second == Some(c)
  }

  /** What holds of every state the game reaches:
      the board is a deal (each symbol on exactly two cells);
      a second pick exists only beside a different first pick;
      matched cells stay face up;
      the face-up unmatched cells are exactly the picks of the current turn;
      while a comparison is pending no button is enabled, otherwise exactly
      the unmatched ones are. */
  ghost predicate Inv(g: Game)
  {
    && Shaped(g)
    && IsDeal(Flatten(g.numbers))
    && (g.second.Some? ==> g.first.Some? && g.first != g.second)
    && (forall c :: InGrid(c) && At(g.matched, c) ==> At(g.revealed, c))
    && (forall c :: InGrid(c) ==> (At(g.revealed, c) && !At(g.matched, c) <==> Pending(g, c)))
    && (forall c :: InGrid(c) ==> (At(g.enabled, c) <==> g.second.None? && !At(g.matched, c)))
  }

  /** The state after construction or restart: the deal laid out row by row,
      nothing matched or shown, every button enabled, no pick, no tries. */
  function NewGame(deal: seq<int>): (g: Game)
    requires |deal| == Size * Size
  {
    Game(Rows(deal), Filled(false), Filled(false), Filled(true), None, None, 0)
  }

  /** disableAllButtons. */
  function DisableAll(g: Game): (h: Game)
    requires Shaped(g)
    ensures Shaped(h)
  {
    g.(enabled := Filled(false))
  }

  /** enableUnmatchedButtons: every unmatched button is enabled, the others keep their flag. */
  function EnableUnmatched(g: Game): (h: Game)
    requires Shaped(g)
    ensures Shaped(h)
  {
    g.(enabled := Tabulate(d => InGrid(d) && (At(g.enabled, d) || !At(g.matched, d))))
  }

  /** handleClick: a click on a matched cell, a face-up cell or the pending
      first cell is ignored; otherwise the cell is shown and becomes the
      first pick, or, if a first pick exists, the second pick, and then the
      whole grid is disabled until the comparison. */
  function HandleClick(g: Game, c: Cell): (h: Game)
    requires Shaped(g) && InGrid(c)
    ensures Shaped(h)
  {
    if At(g.matched, c) || At(g.revealed, c) || g.first == Some(c) then g
    else
      var shown := g.(revealed := Update(g.revealed, c, true));
      if g.first.None? then shown.(first := Some(c))
      else DisableAll(shown.(second := Some(c)))
  }

  /** A press on a button: only an enabled button delivers the click. */
  function Press(g: Game, c: Cell): (h: Game)
    requires Shaped(g) && InGrid(c)
    ensures Shaped(h)
  {
    if At(g.enabled, c) then HandleClick(g, c) else g
  }

  /** checkMatch: count the try; equal symbols become matched (and their
      buttons disabled), unequal ones are turned face down; the picks are
      cleared. */
  function CheckMatch(g: Game): (h: Game)
    requires Shaped(g) && g.first.Some? && g.second.Some?
    ensures Shaped(h)
  {
    var f, s := g.first.value, g.second.value;
    var counted := g.(tries := g.tries + 1);
    var judged :=
      if At(g.numbers, f) == At(g.numbers, s) then
        counted.(matched := Update(Update(g.matched, f, true), s, true),
                 enabled := Update(Update(g.enabled, f, false), s, false))
      else
        counted.(revealed := Update(Update(g.revealed, f, false), s, false));
    judged.(first := None, second := None)
  }

  /** The delayed step that ends a turn: checkMatch, then enableUnmatchedButtons. */
  function Resolve(g: Game): (h: Game)
    requires Shaped(g) && g.first.Some? && g.second.Some?
    ensures Shaped(h)
  {
    EnableUnmatched(CheckMatch(g))
  }

  /** isGameOver: every cell is matched. */
  ghost predicate AllMatched(g: Game)
    requires Shaped(g)
  {
    forall c :: InGrid(c) ==> At(g.matched, c)
  }

  /** The cells showing their symbol without being matched. */
  function FaceUpUnmatched(g: Game): set<Cell>
    requires Shaped(g)
  {
    set r, k | 0 <= r < Size && 0 <= k < Size && g.revealed[r][k] && !g.matched[r][k] :: Cell(r, k)
  }

  // ---------------------------------------------------------------------------
  // The invariant holds initially and is kept by every transition.

  /** A new game on any deal satisfies the invariant. */
  lemma NewGameInv(deal: seq<int>)
    requires |deal| == Size * Size && IsDeal(deal)
    ensures Inv(NewGame(deal))
  {
    FlattenRows(deal);
  }

  /** A new game on a fresh shuffle, whatever the random draws, satisfies the invariant. */
  lemma ShuffledNewGameInv(draws: seq<int>)
    requires DrawsFor(2 * Symbols, draws)
    ensures Inv(NewGame(DealOf(draws)))
  {
    DealOfTwoOfEach(draws);
    NewGameInv(DealOf(draws));
  }

  /** Every press keeps the invariant. */
  lemma PressPreservesInv(g: Game, c: Cell)
    requires Inv(g) && InGrid(c)
    ensures Inv(Press(g, c))
  {
    if At(g.enabled, c) && !At(g.matched, c) && !At(g.revealed, c) {
      if g.first.None? {
        FirstPickInv(g, c);
      } else {
        SecondPickInv(g, c);
      }
    }
  }

  lemma FirstPickInv(g: Game, c: Cell)
    requires Inv(g) && InGrid(c) && g.first.None?
    requires !At(g.matched, c) && !At(g.revealed, c)
    ensures Inv(g.(revealed := Update(g.revealed, c, true), first := Some(c)))
  {
    var h := g.(revealed := Update(g.revealed, c, true), first := Some(c));
    assert Flatten(h.numbers) == Flatten(g.numbers);
    forall d | InGrid(d)
      ensures At(h.revealed, d) && !At(h.matched, d) <==> Pending(h, d)
    {
      if d != c {
        assert At(h.revealed, d) == At(g.revealed, d);
      }
    }
  }

  lemma SecondPickInv(g: Game, c: Cell)
    requires Inv(g) && InGrid(c) && g.first.Some? && g.second.None?
    requires !At(g.matched, c) && !At(g.revealed, c)
    ensures Inv(DisableAll(g.(revealed := Update(g.revealed, c, true), second := Some(c))))
  {
    var h := DisableAll(g.(revealed := Update(g.revealed, c, true), second := Some(c)));
    assert Flatten(h.numbers) == Flatten(g.numbers);
    assert !Pending(g, c);
    forall d | InGrid(d)
      ensures At(h.revealed, d) && !At(h.matched, d) <==> Pending(h, d)
    {
      if d != c {
        assert At(h.revealed, d) == At(g.revealed, d);
      }
    }
  }

  /** Resolving the pending pair keeps the invariant. */
  lemma ResolvePreservesInv(g: Game)
    requires Inv(g) && g.second.Some?
    ensures Inv(Resolve(g))
  {
    var f, s := g.first.value, g.second.value;
    var h := Resolve(g);
    assert h.numbers == g.numbers;
    assert forall d :: InGrid(d) ==> (Pending(g, d) <==> d == f || d == s);
    if At(g.numbers, f) == At(g.numbers, s) {
      ResolveMatchFacts(g);
    } else {
      ResolveMismatchFacts(g);
    }
  }

  lemma ResolveMatchFacts(g: Game)
    requires Inv(g) && g.second.Some?
    requires At(g.numbers, g.first.value) == At(g.numbers, g.second.value)
    ensures var h := Resolve(g);
      && (forall d :: InGrid(d) && At(h.matched, d) ==> At(h.revealed, d))
      && (forall d :: InGrid(d) ==> (At(h.revealed, d) && !At(h.matched, d) <==> Pending(h, d)))
      && (forall d :: InGrid(d) ==> (At(h.enabled, d) <==> !At(h.matched, d)))
  {
    var f, s := g.first.value, g.second.value;
    var h := Resolve(g);
    forall d | InGrid(d)
      ensures At(h.matched, d) == (At(g.matched, d) || d == f || d == s)
      ensures At(h.revealed, d) == At(g.revealed, d)
      ensures At(h.enabled, d) <==> !At(h.matched, d)
    {
      assert Pending(g, d) <==> d == f || d == s;
    }
  }

  lemma ResolveMismatchFacts(g: Game)
    requires Inv(g) && g.second.Some?
    requires At(g.numbers, g.first.value) != At(g.numbers, g.second.value)
    ensures var h := Resolve(g);
      && (forall d :: InGrid(d) && At(h.matched, d) ==> At(h.revealed, d))
      && (forall d :: InGrid(d) ==> (At(h.revealed, d) && !At(h.matched, d) <==> Pending(h, d)))
      && (forall d :: InGrid(d) ==> (At(h.enabled, d) <==> !At(h.matched, d)))
  {
    var f, s := g.first.value, g.second.value;
    var h := Resolve(g);
    forall d | InGrid(d)
      ensures At(h.matched, d) == At(g.matched, d)
      ensures At(h.revealed, d) == (At(g.revealed, d) && d != f && d != s)
      ensures At(h.enabled, d) <==> !At(h.matched, d)
    {
      assert Pending(g, d) <==> d == f || d == s;
    }
  }

  // ---------------------------------------------------------------------------
  // What a press does.

  /** A press changes nothing exactly when the cell is matched or face up
      (which covers the pending first pick), or a comparison is pending. */
  lemma PressIgnored(g: Game, c: Cell)
    requires Inv(g) && InGrid(c)
    ensures Press(g, c) == g <==> At(g.matched, c) || At(g.revealed, c) || g.second.Some?
  {
    if !(At(g.matched, c) || At(g.revealed, c) || g.second.Some?) {
      assert At(Press(g, c).revealed, c);
    }
  }

  /** With no pick pending, a valid press shows exactly that cell and makes it
      the first pick; matches, tries, enabled buttons and the deal stay. */
  lemma FirstPick(g: Game, c: Cell)
    requires Inv(g) && InGrid(c) && g.first.None?
    requires !At(g.matched, c) && !At(g.revealed, c)
    ensures var h := Press(g, c);
      && h.first == Some(c) && h.second.None?
      && h.numbers == g.numbers && h.matched == g.matched && h.enabled == g.enabled
      && h.tries == g.tries
      && forall d :: InGrid(d) ==> (At(h.revealed, d) <==> At(g.revealed, d) || d == c)
  {
    assert !Pending(g, c);
  }

  /** With a first pick pending, a valid press on another cell shows it, makes
      it the second pick and disables the whole grid; matches and tries stay. */
  lemma SecondPick(g: Game, c: Cell)
    requires Inv(g) && InGrid(c) && g.first.Some? && g.second.None?
    requires !At(g.matched, c) && !At(g.revealed, c)
    ensures var h := Press(g, c);
      && c != g.first.value
      && h.first == g.first && h.second == Some(c)
      && h.numbers == g.numbers && h.matched == g.matched && h.tries == g.tries
      && (forall d :: InGrid(d) ==> (At(h.revealed, d) <==> At(g.revealed, d) || d == c))
      && (forall d :: InGrid(d) ==> !At(h.enabled, d))
  {
    assert !Pending(g, c);
  }

  /** A first pick followed by a press on the same cell never makes a second pick. */
  lemma NoSelfPairing(g: Game, c: Cell)
    requires Inv(g) && InGrid(c) && g.first.None?
    ensures Press(Press(g, c), c).second.None?
  {
    var h := Press(g, c);
    PressPreservesInv(g, c);
    PressIgnored(h, c);
    if h != g {
      assert At(h.revealed, c);
    }
  }

  /** No press ever clears a match, counts a try or changes the deal: only
      a reset undoes matches, and only resolving a pair counts a try. */
  lemma PressKeepsMatches(g: Game, c: Cell)
    requires Inv(g) && InGrid(c)
    ensures var h := Press(g, c);
      h.matched == g.matched && h.tries == g.tries && h.numbers == g.numbers
  {
    PressIgnored(g, c);
    if !(At(g.matched, c) || At(g.revealed, c) || g.second.Some?) {
      if g.first.None? {
        FirstPick(g, c);
      } else {
        SecondPick(g, c);
      }
    }
  }

  // ---------------------------------------------------------------------------
  // What resolving does.

  /** Resolving counts one try whatever the outcome and clears the picks.
      Equal symbols: both cells become matched and stay face up. Unequal
      symbols: both cells go face down and nothing becomes matched. No other
      cell changes, no match is ever undone, and afterwards exactly the
      unmatched buttons are enabled. */
  lemma ResolveOutcome(g: Game)
    requires Inv(g) && g.second.Some?
    ensures var h := Resolve(g);
      var f, s := g.first.value, g.second.value;
      && h.tries == g.tries + 1
      && h.first.None? && h.second.None?
      && h.numbers == g.numbers
      && (At(g.numbers, f) == At(g.numbers, s) ==>
            At(h.matched, f) && At(h.matched, s) && h.revealed == g.revealed)
      && (At(g.numbers, f) != At(g.numbers, s) ==>
            !At(h.revealed, f) && !At(h.revealed, s) && h.matched == g.matched)
      && (forall d :: InGrid(d) && d != f && d != s ==>
            At(h.matched, d) == At(g.matched, d) && At(h.revealed, d) == At(g.revealed, d))
      && (forall d :: InGrid(d) && At(g.matched, d) ==> At(h.matched, d))
      && (forall d :: InGrid(d) ==> (At(h.enabled, d) <==> !At(h.matched, d)))
  {
    var f, s := g.first.value, g.second.value;
    var h := Resolve(g);
    forall d | InGrid(d)
      ensures At(h.enabled, d) <==> !At(h.matched, d)
    {
      if d != f && d != s {
        assert !At(g.enabled, d);
      }
    }
  }

  // ---------------------------------------------------------------------------
  // Consequences of the invariant.

  /** At most two cells are face up and unmatched at a time; at most one
      before the second pick, none before the first. */
  lemma AtMostTwoFaceUp(g: Game)
    requires Inv(g)
    ensures |FaceUpUnmatched(g)| <= 2
    ensures g.second.None? ==> |FaceUpUnmatched(g)| <= 1
    ensures g.first.None? ==> FaceUpUnmatched(g) == {}
  {
    var picks := (if g.first.Some? then {g.first.value} else {})
               + (if g.second.Some? then {g.second.value} else {});
    forall d | d in FaceUpUnmatched(g)
      ensures d in picks
    {
      assert InGrid(d) && At(g.revealed, d) && !At(g.matched, d);
    }
    assert FaceUpUnmatched(g) <= picks;
    SubsetCard(FaceUpUnmatched(g), picks);
  }

  lemma SubsetCard<T>(a: set<T>, b: set<T>)
    requires a <= b
    ensures |a| <= |b|
  {
    assert b == a + (b - a);
  }

  /** Once every cell is matched, no press changes anything. */
  lemma GameOverIgnoresPresses(g: Game, c: Cell)
    requires Inv(g) && AllMatched(g) && InGrid(c)
    ensures Press(g, c) == g
  {
    assert At(g.matched, c);
  }

  // ---------------------------------------------------------------------------
  // A whole turn.

  /** From an idle board, picking two distinct unmatched cells and letting the
      comparison run counts exactly one try and returns to idle: equal symbols
      leave both cells matched, unequal ones leave both face down with no new
      match; the invariant holds throughout. */
  lemma Turn(g: Game, a: Cell, b: Cell)
    requires Inv(g) && g.first.None?
    requires InGrid(a) && InGrid(b) && a != b
    requires !At(g.matched, a) && !At(g.matched, b)
    ensures var picked := Press(Press(g, a), b);
      && Inv(Press(g, a)) && Inv(picked)
      && picked.first == Some(a) && picked.second == Some(b)
      && var h := Resolve(picked);
      && Inv(h) && h.tries == g.tries + 1 && h.first.None? && h.second.None?
      && (At(g.numbers, a) == At(g.numbers, b) ==> At(h.matched, a) && At(h.matched, b))
      && (At(g.numbers, a) != At(g.numbers, b) ==>
            !At(h.revealed, a) && !At(h.revealed, b) && h.matched == g.matched)
  {
    assert !Pending(g, a) && !Pending(g, b);
    FirstPick(g, a);
    PressPreservesInv(g, a);
    var g1 := Press(g, a);
    assert !At(g1.revealed, b);
    SecondPick(g1, b);
    PressPreservesInv(g1, b);
    var g2 := Press(g1, b);
    ResolveOutcome(g2);
    ResolvePreservesInv(g2);
  }
}
