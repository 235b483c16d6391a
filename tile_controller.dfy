/** The tile controllers of one board, as one object over the grid of tiles.
    Each cell holds the fields of the tile object standing there; the static
    previously-selected slot becomes a field of the board. */
module TileControllers {
  import opened Grid
  import opened Matching
  import Selection

  class TileBoard {
    /** tiles[x, y] is the tile object at Pos(x, y). */
    const tiles: array2<Tile>
    /** The number of entries in the board's tileTypes list. */
    const tileTypeCount: nat
    /** The previously selected tile, or None for null. */
    var previousSelected: Option<Pos>
    /** The abstract value of tiles. */
    ghost var board: Board

    /** board mirrors the array. */
    ghost predicate Abstracts()
      reads this, tiles
    {
      && board.Valid() && board.width == tiles.Length0 && board.height == tiles.Length1
      && forall x, y | 0 <= x < tiles.Length0 && 0 <= y < tiles.Length1 :: board.cells[x][y] == tiles[x, y]
    }

    /** The object invariant: the mirror holds and the selection invariant holds. */
    ghost predicate Valid()
      reads this, tiles
    {
      Abstracts() && Selection.Invariant(Snapshot())
    }

    ghost function Snapshot(): Selection.State
      reads this
    {
      Selection.State(board, previousSelected)
    }

    /** A board whose tiles are live, unselected, of type 0 and still without a
        sprite, before the board rolls each tile's type; nothing is selected. */
    constructor (width: nat, height: nat, typeCount: nat)
      ensures Valid() && fresh(tiles)
      ensures board.width == width && board.height == height && tileTypeCount == typeCount
      ensures previousSelected == None
      ensures forall c | board.InBounds(c) :: board.At(c) == Tile(0, false, false, false)
    {
      tiles := new Tile[width, height]((x, y) => Tile(0, false, false, false));
      tileTypeCount := typeCount;
      previousSelected := None;
      board := Board(width, height, seq(width, x => seq(height, y => Tile(0, false, false, false))));
    }

    /** Overwrites the tile object at p. */
    method Put(p: Pos, t: Tile)
      requires Abstracts() && board.InBounds(p)
      modifies tiles, this`board
      ensures Abstracts() && board == old(board).Set(p, t)
    {
      tiles[p.x, p.y] := t;
      board := board.Set(p, t);
    }

    /** ChangeId: the tile takes type newId and that type's sprite; its destroyed
        flag is left as it is. */
    method ChangeId(p: Pos, newId: int)
      requires Valid() && board.InBounds(p)
      requires 0 <= newId < tileTypeCount
      modifies tiles, this`board
      ensures Valid()
      ensures board == old(board).Set(p, old(board).At(p).(id := newId, hasSprite := true))
    {
      var t := tiles[p.x, p.y];
      Put(p, t.(id := newId, hasSprite := true));
    }

    /** GenerateRandomTile: the tile comes back to life with a type drawn from
        [0, tileTypeCount); which one is drawn is left open. */
    method GenerateRandomTile(p: Pos)
      requires Valid() && board.InBounds(p)
      requires tileTypeCount > 0
      modifies tiles, this`board
      ensures Valid()
      ensures 0 <= board.At(p).id < tileTypeCount
      ensures board == old(board).Set(p, old(board).At(p).(id := board.At(p).id, destroyed := false, hasSprite := true))
    {
      var t := tiles[p.x, p.y];
      Put(p, t.(destroyed := false));
      var roll :| 0 <= roll < tileTypeCount;
      ChangeId(p, roll);
      SameCells(board, old(board).Set(p, old(board).At(p).(id := roll, destroyed := false, hasSprite := true)));
    }

    /** SetDestroyed, once its shrink animation has finished: the tile is destroyed,
        has type -1 and no sprite. */
    method SetDestroyed(p: Pos)
      requires Valid() && board.InBounds(p)
      modifies tiles, this`board
      ensures Valid()
      ensures board == old(board).Set(p, old(board).At(p).(id := -1, destroyed := true, hasSprite := false))
    {
      var t := tiles[p.x, p.y];
      Put(p, t.(id := -1, destroyed := true, hasSprite := false));
    }

    /** Select: marks the tile at p selected and remembers it. */
    method Select(p: Pos)
      requires Abstracts() && board.InBounds(p)
      modifies tiles, this`board, this`previousSelected
      ensures Abstracts() && Snapshot() == Selection.Select(old(Snapshot()), p)
    {
      var t := tiles[p.x, p.y];
      Put(p, t.(selected := true));
      previousSelected := Some(p);
    }

    /** Deselect: clears the flag of the tile at p and forgets the selection. */
    method Deselect(p: Pos)
      requires Abstracts() && board.InBounds(p)
      modifies tiles, this`board, this`previousSelected
      ensures Abstracts() && Snapshot() == Selection.Deselect(old(Snapshot()), p)
    {
      var t := tiles[p.x, p.y];
      Put(p, t.(selected := false));
      previousSelected := None;
    }

    /** The board's exchange of two tiles' positions, as seen in the grid. */
    method SwapTiles(p: Pos, q: Pos)
      requires Abstracts() && board.InBounds(p) && board.InBounds(q)
      modifies tiles, this`board
      ensures Abstracts() && board == old(board).Swap(p, q)
    {
      var tp, tq := tiles[p.x, p.y], tiles[q.x, q.y];
      Put(p, tq);
      Put(q, tp);
    }

    /** GetAllAdjacentTiles: one raycast per direction, in the order up, down,
        left, right, with None where the ray leaves the grid. */
    method GetAllAdjacentTiles(p: Pos) returns (adjacent: seq<Option<Pos>>)
      requires Abstracts()
      ensures adjacent == Adjacent(board, p)
    {
      adjacent := [];
      for i := 0 to |Directions|
        invariant |adjacent| == i
        invariant forall k | 0 <= k < i :: adjacent[k] == Neighbor(board.width, board.height, p, Directions[k])
      {
        adjacent := adjacent + [Neighbor(tiles.Length0, tiles.Length1, p, Directions[i])];
      }
    }

    /** GetMatch: walks from p towards d, one raycast at a time, collecting tiles
        of p's type that are not destroyed, and stops at the first other tile or
        at the edge of the grid. */
    method GetMatch(p: Pos, d: Dir) returns (matching: seq<Pos>)
      requires Abstracts() && board.InBounds(p)
      ensures matching == Scan(board, p, d, board.At(p).id)
    {
      var id := tiles[p.x, p.y].id;
      matching := [];
      ghost var from := p;
      var hit := Neighbor(tiles.Length0, tiles.Length1, p, d);
      while hit.Some?
        invariant board.InBounds(from)
        invariant hit == Neighbor(board.width, board.height, from, d)
        invariant matching + Scan(board, from, d, id) == Scan(board, p, d, id)
        decreases board.Reach(from, d)
      {
        var other := hit.value;
        if tiles[other.x, other.y].id != id || tiles[other.x, other.y].destroyed {
          break;
        }
        matching := matching + [other];
        from := other;
        hit := Neighbor(tiles.Length0, tiles.Length1, other, d);
      }
    }

    /** GetOneLineMatch: the scans along paths appended; None unless they hold at
        least two tiles. */
    method GetOneLineMatch(p: Pos, paths: seq<Dir>) returns (line: Option<seq<Pos>>)
      requires Abstracts() && board.InBounds(p)
      ensures line == LineMatch(board, p, paths)
    {
      var matching := [];
      for i := 0 to |paths|
        invariant matching == Runs(board, p, paths[..i], board.At(p).id)
      {
        var run := GetMatch(p, paths[i]);
        assert paths[..i + 1][..i] == paths[..i];
        matching := matching + run;
      }
      assert paths[..|paths|] == paths;
      if |matching| >= 2 {
        return Some(matching);
      }
      return None;
    }

    /** GetAllMatches: None for a destroyed tile; otherwise the up-down line, then
        the left-right line, then the tile itself if the list holds two tiles. */
    method GetAllMatches(p: Pos) returns (matches: Option<seq<Pos>>)
      requires Abstracts() && board.InBounds(p)
      ensures matches == TileMatches(board, p)
    {
      if tiles[p.x, p.y].destroyed {
        return None;
      }
      var matching := [];
      var upDown := GetOneLineMatch(p, [Up, Down]);
      var leftRight := GetOneLineMatch(p, [Left, Right]);
      if upDown.Some? {
        matching := matching + upDown.value;
      }
      if leftRight.Some? {
        matching := matching + leftRight.value;
      }
      assert matching == OrEmpty(upDown) + OrEmpty(leftRight);
      if |matching| >= 2 {
        matching := matching + [p];
      }
      return Some(matching);
    }

    /** Whether some tile of column x has a non-empty GetAllMatches list. */
    method ColumnHasMatch(x: int) returns (found: bool)
      requires Abstracts() && 0 <= x < tiles.Length0
      ensures found <==> exists j | 0 <= j < tiles.Length1 :: CellMatches(board, Pos(x, j)) != []
    {
      var y := 0;
      while y < tiles.Length1
        invariant 0 <= y <= tiles.Length1
        invariant forall j | 0 <= j < y :: CellMatches(board, Pos(x, j)) == []
      {
        var m := GetAllMatches(Pos(x, y));
        var cell := OrEmpty(m);
        assert cell == CellMatches(board, Pos(x, y));
        if cell != [] {
          return true;
        }
        forall j | 0 <= j < y + 1
          ensures CellMatches(board, Pos(x, j)) == []
        {
          if j == y {
            assert CellMatches(board, Pos(x, j)) == cell;
          }
        }
        y := y + 1;
      }
      return false;
    }

    /** The board-wide test "some tile has a match", as the union of every tile's
        GetAllMatches being non-empty. */
    method AnyMatch() returns (found: bool)
      requires Abstracts()
      ensures found == HasMatch(board)
    {
      var x := 0;
      while x < tiles.Length0
        invariant 0 <= x <= tiles.Length0
        invariant forall i, j | 0 <= i < x && 0 <= j < tiles.Length1 :: CellMatches(board, Pos(i, j)) == []
      {
        found := ColumnHasMatch(x);
        if found {
          return;
        }
        x := x + 1;
      }
      return false;
    }

    /** OnMouseDown: a click on the tile at p, given whether the board is
        animating and whether the game is over. */
    method OnMouseDown(p: Pos, animating: bool, gameOver: bool) returns (outcome: Selection.Click)
      requires Valid() && board.InBounds(p)
      modifies tiles, this`board, this`previousSelected
      ensures Valid()
      ensures (Snapshot(), outcome) == Selection.OnClick(old(Snapshot()), p, animating, gameOver)
    {
      Selection.ClickKeepsInvariant(Snapshot(), p, animating, gameOver);
      var tile := tiles[p.x, p.y];
      if !tile.hasSprite || animating || gameOver {
        return Selection.Ignored;
      }
      if tile.selected {
        Deselect(p);
        return Selection.Deselected;
      }
      if previousSelected.None? {
        Select(p);
        return Selection.Selected;
      }
      var other := previousSelected.value;
      var adjacent := GetAllAdjacentTiles(p);
      if Some(other) in adjacent {
        Deselect(other);
        SwapTiles(p, other);
        var matched := AnyMatch();
        if matched {
          outcome := Selection.SwapKept;
        } else {
          SwapTiles(p, other);
          outcome := Selection.SwapReverted;
        }
      } else {
        Deselect(other);
        Select(p);
        outcome := Selection.Reselected;
      }
    }
  }
}
