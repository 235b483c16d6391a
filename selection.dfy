/** The selection state machine driven by clicks on tiles: the per-tile
    isSelected flags live in the board's tiles, and the process-wide
    previously-selected slot is the armed position. */
module Selection {
  import opened Grid
  import opened Matching

  datatype State = State(board: Board, armed: Option<Pos>)

  /** Which branch a click took. */
  datatype Click = Ignored | Deselected | Selected | Reselected | SwapKept | SwapReverted

  /** The board is well formed and the armed slot, if any, names a cell of it. */
  predicate Wf(s: State)
  {
    s.board.Valid() && (s.armed.Some? ==> s.board.InBounds(s.armed.value))
  }

  /** The selection invariant: a tile is selected exactly when it is the armed one,
      so at most one tile is selected and the armed slot names it, or is empty. */
  ghost predicate Invariant(s: State)
  {
    Wf(s) && forall c | s.board.InBounds(c) :: s.board.At(c).selected <==> s.armed == Some(c)
  }

  /** Select: the tile at p becomes selected and is remembered as the armed tile. */
  function Select(s: State, p: Pos): State
    requires s.board.Valid() && s.board.InBounds(p)
  {
    State(s.board.Set(p, s.board.At(p).(selected := true)), Some(p))
  }

  /** Deselect: the tile at p loses its flag and the armed slot is emptied. */
  function Deselect(s: State, p: Pos): State
    requires s.board.Valid() && s.board.InBounds(p)
  {
    State(s.board.Set(p, s.board.At(p).(selected := false)), None)
  }

  /** The tiles of two boards agree in everything but their selection flags. */
  ghost predicate SameTiles(a: Board, b: Board)
    requires a.Valid() && b.Valid()
  {
    a.width == b.width && a.height == b.height &&
    forall c | a.InBounds(c) ::
      a.At(c).id == b.At(c).id && a.At(c).destroyed == b.At(c).destroyed &&
      a.At(c).hasSprite == b.At(c).hasSprite
  }

  /** A click on the tile at p, with the board's animating flag and the game's
      game-over flag as they are at that moment. The swap with the armed tile and
      the callback that runs once it has finished are taken as one step; a swap
      with no match on the board is swapped back. */
  function OnClick(s: State, p: Pos, animating: bool, gameOver: bool): (r: (State, Click))
    requires Wf(s) && s.board.InBounds(p)
    ensures Wf(r.0) && r.0.board.width == s.board.width && r.0.board.height == s.board.height
    ensures r.1 == Ignored <==> !s.board.At(p).hasSprite || animating || gameOver
    ensures r.1 != Ignored ==>
              r.0.armed == (if r.1 == Selected || r.1 == Reselected then Some(p) else None)
  {
    var t := s.board.At(p);
    if !t.hasSprite || animating || gameOver then (s, Ignored)
    else if t.selected then (Deselect(s, p), Deselected)
    else if s.armed.None? then (Select(s, p), Selected)
    else
      var other := s.armed.value;
      if Some(other) in Adjacent(s.board, p) then
        var swapped := Deselect(s, other).board.Swap(p, other);
        if HasMatch(swapped) then (State(swapped, None), SwapKept)
        else (State(swapped.Swap(p, other), None), SwapReverted)
      else (Select(Deselect(s, other), p), Reselected)
  }

  /** Under the invariant no two distinct tiles are selected at once. */
  lemma AtMostOneSelected(s: State, c1: Pos, c2: Pos)
    requires Invariant(s)
    requires s.board.InBounds(c1) && s.board.InBounds(c2)
    requires s.board.At(c1).selected && s.board.At(c2).selected
    ensures c1 == c2 && s.armed == Some(c1)
  {
  }

  /** Every branch of a click keeps the selection invariant. */
  lemma {:induction false} ClickKeepsInvariant(s: State, p: Pos, animating: bool, gameOver: bool)
    requires Invariant(s) && s.board.InBounds(p)
    ensures Wf(OnClick(s, p, animating, gameOver).0)
    ensures Invariant(OnClick(s, p, animating, gameOver).0)
  {
    var t := s.board.At(p);
    if !t.hasSprite || animating || gameOver || t.selected || s.armed.None? {
    } else {
      var other := s.armed.value;
      var released := Deselect(s, other);
      assert forall c | released.board.InBounds(c) :: !released.board.At(c).selected;
      if Some(other) in Adjacent(s.board, p) {
        var swapped := released.board.Swap(p, other);
        assert forall c | swapped.InBounds(c) :: !swapped.At(c).selected;
        var back := swapped.Swap(p, other);
        assert forall c | back.InBounds(c) :: !back.At(c).selected;
      }
    }
  }

  /** A click is ignored exactly when the tile has no sprite, the board is
      animating or the game is over, and an ignored click changes nothing. */
  lemma IgnoredClick(s: State, p: Pos, animating: bool, gameOver: bool)
    requires Wf(s) && s.board.InBounds(p)
    ensures var r := OnClick(s, p, animating, gameOver);
            && (r.1 == Ignored <==> !s.board.At(p).hasSprite || animating || gameOver)
            && (r.1 == Ignored ==> r.0 == s)
  {
  }

  /** A click on the armed tile disarms it and leaves the tiles as they were. */
  lemma ClickOnArmedTile(s: State, p: Pos)
    requires Invariant(s) && s.board.InBounds(p)
    requires s.board.At(p).hasSprite && s.armed == Some(p)
    ensures OnClick(s, p, false, false).1 == Deselected
    ensures OnClick(s, p, false, false).0.armed == None
    ensures SameTiles(s.board, OnClick(s, p, false, false).0.board)
  {
  }

  /** A swap is kept only with a tile next to the armed one and only when it leaves
      a match on the board; nothing is then selected and the two tiles have
      traded places. */
  lemma SwapKeptSwaps(s: State, p: Pos, animating: bool, gameOver: bool)
    requires Wf(s) && s.board.InBounds(p)
    requires OnClick(s, p, animating, gameOver).1 == SwapKept
    ensures s.armed.Some? && Manhattan(p, s.armed.value) == 1
    ensures var r := OnClick(s, p, animating, gameOver).0;
            var q := s.armed.value;
            && r.armed == None && HasMatch(r.board)
            && r.board == Deselect(s, q).board.Swap(p, q)
  {
    AdjacentIff(s.board, p, s.armed.value);
  }

  /** A swap that leaves no match on the board is undone: the board afterwards is
      the board before the click with only the armed tile's flag cleared. */
  lemma SwapRevertRestores(s: State, p: Pos, animating: bool, gameOver: bool)
    requires Wf(s) && s.board.InBounds(p)
    requires OnClick(s, p, animating, gameOver).1 == SwapReverted
    ensures s.armed.Some? && Manhattan(p, s.armed.value) == 1
    ensures var q := s.armed.value;
            && !HasMatch(Deselect(s, q).board.Swap(p, q))
            && OnClick(s, p, animating, gameOver).0 == Deselect(s, q)
  {
    var q := s.armed.value;
    AdjacentIff(s.board, p, q);
    SwapTwice(Deselect(s, q).board, p, q);
  }

  /** A click on a tile that is neither armed nor next to the armed one moves the
      selection to it and leaves the tiles where they were. */
  lemma NonAdjacentRearms(s: State, p: Pos, animating: bool, gameOver: bool)
    requires Wf(s) && s.board.InBounds(p)
    requires OnClick(s, p, animating, gameOver).1 == Reselected
    ensures s.armed.Some? && Manhattan(p, s.armed.value) != 1
    ensures OnClick(s, p, animating, gameOver).0.armed == Some(p)
    ensures OnClick(s, p, animating, gameOver).0.board.At(p).selected
    ensures s.armed.value != p ==> !OnClick(s, p, animating, gameOver).0.board.At(s.armed.value).selected
    ensures SameTiles(s.board, OnClick(s, p, animating, gameOver).0.board)
  {
    AdjacentIff(s.board, p, s.armed.value);
  }

  /** With nothing armed, a click that is not ignored selects the tile and arms it. */
  lemma IdleClickSelects(s: State, p: Pos)
    requires Invariant(s) && s.board.InBounds(p)
    requires s.board.At(p).hasSprite && s.armed == None
    ensures OnClick(s, p, false, false).1 == Selected
    ensures OnClick(s, p, false, false).0.armed == Some(p)
    ensures OnClick(s, p, false, false).0.board.At(p).selected
  {
  }

  /** With another tile q armed, a click on p swaps the two when they are
      neighbours, keeping the swap exactly when it leaves a match on the board;
      otherwise the click clears q's flag and arms p. */
  lemma ArmedClickBranches(s: State, p: Pos, q: Pos)
    requires Invariant(s) && s.board.InBounds(p)
    requires s.board.At(p).hasSprite && s.armed == Some(q) && q != p
    ensures var r := OnClick(s, p, false, false);
            Manhattan(p, q) == 1 ==>
              && r.1 == (if HasMatch(Deselect(s, q).board.Swap(p, q)) then SwapKept else SwapReverted)
              && r.0 == (if r.1 == SwapKept then State(Deselect(s, q).board.Swap(p, q), None) else Deselect(s, q))
    ensures var r := OnClick(s, p, false, false);
            Manhattan(p, q) != 1 ==>
              && r.1 == Reselected && r.0.armed == Some(p)
              && r.0.board.At(p).selected && !r.0.board.At(q).selected
  {
    AdjacentIff(s.board, p, q);
    SwapTwice(Deselect(s, q).board, p, q);
  }

  /** Only a kept swap moves tiles: every other click leaves ids, destroyed flags
      and sprites of all cells as they were. */
  lemma OnlyKeptSwapMovesTiles(s: State, p: Pos, animating: bool, gameOver: bool)
    requires Wf(s) && s.board.InBounds(p)
    requires OnClick(s, p, animating, gameOver).1 != SwapKept
    ensures SameTiles(s.board, OnClick(s, p, animating, gameOver).0.board)
  {
    var t := s.board.At(p);
    if !(!t.hasSprite || animating || gameOver || t.selected || s.armed.None?) {
      var q := s.armed.value;
      if Some(q) in Adjacent(s.board, p) {
        SwapRevertRestores(s, p, animating, gameOver);
      }
    }
  }
}
