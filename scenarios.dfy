/** A worked click sequence on a concrete board. */
module Scenarios {
  import opened Grid
  import opened Matching
  import opened Selection

  function T(id: int): Tile
  {
    Tile(id, false, true, false)
  }

  /** A 3x3 board whose bottom row reads 1 1 2 and whose cell (2, 1) holds a 1;
      cells[x] is column x from the bottom up. */
  function Before(): Board
  {
    Board(3, 3, [[T(1), T(2), T(3)], [T(1), T(3), T(2)], [T(2), T(1), T(3)]])
  }

  /** Before() with the tiles at (2, 0) and (2, 1) exchanged: the bottom row reads 1 1 1. */
  function After(): Board
  {
    Board(3, 3, [[T(1), T(2), T(3)], [T(1), T(3), T(2)], [T(1), T(2), T(3)]])
  }

  /** Arming (2, 0) and swapping it with (2, 1) gives After(). */
  lemma SwapGivesAfter()
    ensures var s := Select(State(Before(), None), Pos(2, 0));
            Deselect(s, Pos(2, 0)).board.Swap(Pos(2, 1), Pos(2, 0)) == After()
  {
    var s := Select(State(Before(), None), Pos(2, 0));
    SameCells(Deselect(s, Pos(2, 0)).board.Swap(Pos(2, 1), Pos(2, 0)), After());
  }

  /** The four scans from (0, 0) in After(): only the rightward one finds tiles. */
  lemma ScansFromCorner()
    ensures Scan(After(), Pos(0, 0), Up, 1) == []
    ensures Scan(After(), Pos(0, 0), Down, 1) == []
    ensures Scan(After(), Pos(0, 0), Left, 1) == []
    ensures Scan(After(), Pos(0, 0), Right, 1) == [Pos(1, 0), Pos(2, 0)]
  {
    var b := After();
    assert b.Valid();
    assert Scan(b, Pos(1, 0), Right, 1) == [Pos(2, 0)] by {
      assert Scan(b, Pos(2, 0), Right, 1) == [];
    }
  }

  /** In After(), the tile at (0, 0) matches the whole bottom row. */
  lemma BottomRowMatch()
    ensures TileMatches(After(), Pos(0, 0)) == Some([Pos(1, 0), Pos(2, 0), Pos(0, 0)])
  {
    var b, o := After(), Pos(0, 0);
    assert b.Valid();
    assert b.At(o) == T(1);
    ScansFromCorner();
    assert AxisRun(b, o, Up, Down) == [];
    assert AxisRun(b, o, Left, Right) == [Pos(1, 0), Pos(2, 0)];
    TileMatchesByAxis(b, o);
    assert [] + [Pos(1, 0), Pos(2, 0)] + [o] == [Pos(1, 0), Pos(2, 0), Pos(0, 0)];
  }

  /** Only the tiles of the bottom row of After() have matches: every other tile
      differs in type from each of its neighbours. */
  lemma UpperRowsQuiet(x: int, y: int)
    requires 0 <= x < 3 && 1 <= y < 3
    ensures CellMatches(After(), Pos(x, y)) == []
  {
    var b := After();
    assert b.Valid();
    IsolatedCell(b, Pos(x, y));
  }

  /** The only tiles of type 1 in After() are those of the bottom row. */
  lemma OnesOnBottomRow(q: Pos)
    requires After().InBounds(q) && After().At(q).id == 1
    ensures q.y == 0
  {
    var b := After();
    assert b.cells[q.x] == [T(1), T(2), T(3)] || b.cells[q.x] == [T(1), T(3), T(2)];
  }

  /** Every tile of the board-wide match set of After() is on the bottom row. */
  lemma AllMatchesOnBottomRow(q: Pos)
    requires After().Valid() && q in AllMatches(After())
    ensures q.y == 0 && 0 <= q.x < 3
  {
    var b := After();
    var x, y := FromSomeCell(b, q);
    if y >= 1 {
      UpperRowsQuiet(x, y);
    }
    assert b.At(Pos(x, y)).id == 1;
    TileMatchesSameType(b, Pos(x, y));
    OnesOnBottomRow(q);
  }

  /** The tiles of the bottom row of After() are all in its board-wide match set. */
  lemma BottomRowInAllMatches()
    ensures After().Valid()
    ensures Pos(0, 0) in AllMatches(After()) && Pos(1, 0) in AllMatches(After())
    ensures Pos(2, 0) in AllMatches(After())
  {
    var b := After();
    assert b.Valid();
    BottomRowMatch();
    InAllMatches(b, 0, 0, Pos(0, 0));
    InAllMatches(b, 0, 0, Pos(1, 0));
    InAllMatches(b, 0, 0, Pos(2, 0));
  }

  /** The board-wide match set of After() is exactly the bottom row. */
  lemma BottomRowIsAllMatches()
    ensures After().Valid()
    ensures AllMatches(After()) == {Pos(0, 0), Pos(1, 0), Pos(2, 0)}
  {
    var b := After();
    assert b.Valid();
    BottomRowInAllMatches();
    forall q | q in AllMatches(b)
      ensures q == Pos(0, 0) || q == Pos(1, 0) || q == Pos(2, 0)
    {
      AllMatchesOnBottomRow(q);
    }
  }

  /** Clicking (2, 0) on Before() with nothing armed selects it and arms it. */
  lemma FirstClickArms()
    ensures OnClick(State(Before(), None), Pos(2, 0), false, false)
            == (Select(State(Before(), None), Pos(2, 0)), Selected)
  {
    assert Before().Valid();
  }

  /** With (2, 0) armed by a first click, clicking (2, 1) swaps the two tiles; the
      bottom row then reads 1 1 1, so the swap is kept. */
  lemma BottomRowCompleted()
    ensures var s := OnClick(State(Before(), None), Pos(2, 0), false, false).0;
            var r := OnClick(s, Pos(2, 1), false, false);
            && r.1 == SwapKept
            && r.0 == State(After(), None)
  {
    FirstClickArms();
    var s := Select(State(Before(), None), Pos(2, 0));
    assert s.board.At(Pos(2, 1)) == T(1);
    AdjacentIff(s.board, Pos(2, 1), Pos(2, 0));
    assert Some(Pos(2, 0)) in Adjacent(s.board, Pos(2, 1));
    SwapGivesAfter();
    assert HasMatch(After()) by {
      assert After().Valid();
      BottomRowMatch();
      assert CellMatches(After(), Pos(0, 0)) != [];
    }
  }

  /** A one-row board holding the types 1 2. */
  function Pair(): Board
  {
    Board(2, 1, [[T(1)], [T(2)]])
  }

  /** The same row with its two tiles exchanged: 2 1. */
  function PairSwapped(): Board
  {
    Board(2, 1, [[T(2)], [T(1)]])
  }

  /** Neither tile of PairSwapped() has a match. */
  lemma PairSwappedQuiet()
    ensures PairSwapped().Valid() && !HasMatch(PairSwapped())
  {
    var b := PairSwapped();
    assert b.Valid();
    forall x, y | 0 <= x < 2 && 0 <= y < 1
      ensures CellMatches(b, Pos(x, y)) == []
    {
      IsolatedCell(b, Pos(x, y));
    }
  }

  /** With (0, 0) of Pair() armed, clicking (1, 0) swaps the tiles; no match
      appears, so they are swapped back and nothing is left selected. */
  lemma UselessSwapReverted()
    ensures var s := OnClick(State(Pair(), None), Pos(0, 0), false, false).0;
            var r := OnClick(s, Pos(1, 0), false, false);
            && r.1 == SwapReverted
            && r.0 == State(Pair(), None)
  {
    var s0 := State(Pair(), None);
    assert s0.board.Valid();
    var s := OnClick(s0, Pos(0, 0), false, false).0;
    assert s == Select(s0, Pos(0, 0));
    AdjacentIff(s.board, Pos(1, 0), Pos(0, 0));
    var released := Deselect(s, Pos(0, 0));
    SameCells(released.board, Pair());
    SameCells(released.board.Swap(Pos(1, 0), Pos(0, 0)), PairSwapped());
    PairSwappedQuiet();
    SwapTwice(released.board, Pos(1, 0), Pos(0, 0));
  }
}
