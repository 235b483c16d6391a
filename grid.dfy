/** Positions, tiles and the rectangular board the tile controllers live on.
    A raycast of one tile's length in the controller becomes a bounds-checked
    step to the neighbouring cell. */
module Grid {

  datatype Option<T> = None | Some(value: T)

  /** A cell index: column x, row y; y grows upwards, as Unity's Vector2.up does. */
  datatype Pos = Pos(x: int, y: int)

  /** The four cast directions. */
  datatype Dir = Up | Down | Left | Right

  /** The order in which the controller lists its adjacent directions. */
  const Directions: seq<Dir> := [Up, Down, Left, Right]

  /** The state of one tile object: its type id, its IsDestroyed flag, whether its
      renderer still holds a sprite, and its isSelected flag. */
  datatype Tile = Tile(id: int, destroyed: bool, hasSprite: bool, selected: bool)

  /** The cell n steps away from p in direction d. */
  function Shift(p: Pos, d: Dir, n: int): Pos
  {
    match d
    case Up => Pos(p.x, p.y + n)
    case Down => Pos(p.x, p.y - n)
    case Left => Pos(p.x - n, p.y)
    case Right => Pos(p.x + n, p.y)
  }

  predicate Inside(width: int, height: int, p: Pos)
  {
    0 <= p.x < width && 0 <= p.y < height
  }

  /** A one-tile raycast from p towards d: the tile it hits, or None when it leaves the grid. */
  function Neighbor(width: int, height: int, p: Pos, d: Dir): Option<Pos>
  {
    var q := Shift(p, d, 1);
    if Inside(width, height, q) then Some(q) else None
  }

  function Abs(n: int): nat
  {
    if n < 0 then -n else n
  }

  function Manhattan(p: Pos, q: Pos): nat
  {
    Abs(p.x - q.x) + Abs(p.y - q.y)
  }

  /** A width-by-height board; cells[x][y] is the tile at Pos(x, y). */
  datatype Board = Board(width: nat, height: nat, cells: seq<seq<Tile>>)
  {
    predicate Valid()
    {
      |cells| == width && forall x | 0 <= x < width :: |cells[x]| == height
    }

    predicate InBounds(p: Pos)
    {
      Inside(width, height, p)
    }

    function At(p: Pos): Tile
      requires Valid() && InBounds(p)
    {
      cells[p.x][p.y]
    }

    /** The number of cells beyond p in direction d before the edge of the board. */
    function Reach(p: Pos, d: Dir): nat
      requires InBounds(p)
    {
      match d
      case Up => height - 1 - p.y
      case Down => p.y
      case Left => p.x
      case Right => width - 1 - p.x
    }

    /** The board with the tile at p replaced by t. */
    function Set(p: Pos, t: Tile): (r: Board)
      requires Valid() && InBounds(p)
      ensures r.Valid() && r.width == width && r.height == height
      ensures r.At(p) == t
      ensures forall c | InBounds(c) && c != p :: r.At(c) == At(c)
    {
      Board(width, height, cells[p.x := cells[p.x][p.y := t]])
    }

    /** The board with the tiles at p and q exchanged. */
    function Swap(p: Pos, q: Pos): (r: Board)
      requires Valid() && InBounds(p) && InBounds(q)
      ensures r.Valid() && r.width == width && r.height == height
      ensures r.At(p) == At(q) && r.At(q) == At(p)
      ensures forall c | InBounds(c) && c != p && c != q :: r.At(c) == At(c)
    {
      Set(p, At(q)).Set(q, At(p))
    }
  }

  /** The four raycast results around p, in the order of Directions. */
  function Adjacent(b: Board, p: Pos): seq<Option<Pos>>
  {
    seq(|Directions|, i requires 0 <= i < |Directions| => Neighbor(b.width, b.height, p, Directions[i]))
  }

  /** Two boards of the same size holding the same tile everywhere are equal. */
  lemma {:induction false} SameCells(a: Board, b: Board)
    requires a.Valid() && b.Valid() && a.width == b.width && a.height == b.height
    requires forall c | a.InBounds(c) :: a.At(c) == b.At(c)
    ensures a == b
  {
    forall x | 0 <= x < a.width
      ensures a.cells[x] == b.cells[x]
    {
      forall y | 0 <= y < a.height
        ensures a.cells[x][y] == b.cells[x][y]
      {
        assert a.At(Pos(x, y)) == b.At(Pos(x, y));
      }
    }
  }

  /** Swapping the same two cells twice gives back the board exactly. */
  lemma {:induction false} SwapTwice(b: Board, p: Pos, q: Pos)
    requires b.Valid() && b.InBounds(p) && b.InBounds(q)
    ensures b.Swap(p, q).Swap(p, q) == b
  {
    var r := b.Swap(p, q).Swap(p, q);
    forall c | b.InBounds(c)
      ensures r.At(c) == b.At(c)
    {
    }
    SameCells(r, b);
  }

  /** q appears among the raycast results around p exactly when q is on the board
      one orthogonal step from p; off-grid directions give None. */
  lemma {:induction false} AdjacentIff(b: Board, p: Pos, q: Pos)
    ensures |Adjacent(b, p)| == 4
    ensures Some(q) in Adjacent(b, p) <==> b.InBounds(q) && Manhattan(p, q) == 1
  {
    var adj := Adjacent(b, p);
    assert adj == [Neighbor(b.width, b.height, p, Up), Neighbor(b.width, b.height, p, Down),
                   Neighbor(b.width, b.height, p, Left), Neighbor(b.width, b.height, p, Right)];
    if b.InBounds(q) && Manhattan(p, q) == 1 {
      if q.x == p.x {
        if q.y == p.y + 1 { assert adj[0] == Some(q); } else { assert adj[1] == Some(q); }
      } else {
        if q.x == p.x - 1 { assert adj[2] == Some(q); } else { assert adj[3] == Some(q); }
      }
    }
  }
}
