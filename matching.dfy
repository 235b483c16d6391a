/** The match finder of one tile: directional scans, their pairing into the
    vertical and horizontal axes, and the tile's own match list. */
module Matching {
  import opened Grid

  /** The tile at q carries on a run of tiles of type id. */
  predicate Continues(b: Board, q: Pos, id: int)
    requires b.Valid()
  {
    b.InBounds(q) && b.At(q).id == id && !b.At(q).destroyed
  }

  /** The tiles a directional scan from p collects: one raycast at a time it takes
      the next tile while that tile has type id and is not destroyed. */
  function Scan(b: Board, p: Pos, d: Dir, id: int): seq<Pos>
    requires b.Valid() && b.InBounds(p)
    decreases b.Reach(p, d)
  {
    match Neighbor(b.width, b.height, p, d)
    case None => []
    case Some(q) =>
      if b.At(q).id != id || b.At(q).destroyed then [] else [q] + Scan(b, q, d, id)
  }

  /** The scans along each of paths, in order, appended. */
  function Runs(b: Board, p: Pos, paths: seq<Dir>, id: int): seq<Pos>
    requires b.Valid() && b.InBounds(p)
  {
    if paths == [] then []
    else Runs(b, p, paths[..|paths| - 1], id) + Scan(b, p, paths[|paths| - 1], id)
  }

  /** One line's contribution: the appended scans when they hold at least two
      tiles (three with the tile itself), and None otherwise. */
  function LineMatch(b: Board, p: Pos, paths: seq<Dir>): Option<seq<Pos>>
    requires b.Valid() && b.InBounds(p)
  {
    var run := Runs(b, p, paths, b.At(p).id);
    if |run| >= 2 then Some(run) else None
  }

  function OrEmpty(o: Option<seq<Pos>>): seq<Pos>
  {
    match o
    case None => []
    case Some(s) => s
  }

  /** The match list of the tile at p: None for a destroyed tile; otherwise the
      contributing vertical run, then the contributing horizontal run, then the
      tile itself when at least one of them contributed. */
  function TileMatches(b: Board, p: Pos): (r: Option<seq<Pos>>)
    requires b.Valid() && b.InBounds(p)
    ensures r.None? <==> b.At(p).destroyed
  {
    if b.At(p).destroyed then None
    else
      var both := OrEmpty(LineMatch(b, p, [Up, Down])) + OrEmpty(LineMatch(b, p, [Left, Right]));
      Some(if |both| >= 2 then both + [p] else both)
  }

  /** The match list of p, empty for a destroyed tile. */
  function CellMatches(b: Board, p: Pos): seq<Pos>
    requires b.Valid() && b.InBounds(p)
  {
    OrEmpty(TileMatches(b, p))
  }

  /** Some tile on the board has a non-empty match list. */
  predicate HasMatch(b: Board)
    requires b.Valid()
  {
    exists x, y | 0 <= x < b.width && 0 <= y < b.height :: CellMatches(b, Pos(x, y)) != []
  }

  /** The board-wide match set: the union of every tile's match list. */
  ghost function AllMatches(b: Board): set<Pos>
    requires b.Valid()
  {
    set x, y, q | 0 <= x < b.width && 0 <= y < b.height && q in CellMatches(b, Pos(x, y)) :: q
  }

  /** The two opposite scans of one axis from p, appended. */
  function AxisRun(b: Board, p: Pos, d1: Dir, d2: Dir): seq<Pos>
    requires b.Valid() && b.InBounds(p)
  {
    Scan(b, p, d1, b.At(p).id) + Scan(b, p, d2, b.At(p).id)
  }

  /** q lies strictly beyond p in direction d, on p's row or column. */
  predicate OnRay(p: Pos, d: Dir, q: Pos)
  {
    match d
    case Up => q.x == p.x && q.y > p.y
    case Down => q.x == p.x && q.y < p.y
    case Left => q.y == p.y && q.x < p.x
    case Right => q.y == p.y && q.x > p.x
  }

  predicate Distinct(s: seq<Pos>)
  {
    forall i, j | 0 <= i < j < |s| :: s[i] != s[j]
  }

  /** A scan never holds more cells than lie before the edge of the board. */
  lemma {:induction false} ScanBounded(b: Board, p: Pos, d: Dir, id: int)
    requires b.Valid() && b.InBounds(p)
    ensures |Scan(b, p, d, id)| <= b.Reach(p, d)
    decreases b.Reach(p, d)
  {
    match Neighbor(b.width, b.height, p, d)
    case None =>
    case Some(q) =>
      if Continues(b, q, id) {
        ScanBounded(b, q, d, id);
      }
  }

  /** The k-th tile a scan collects is the cell k + 1 steps from p in direction d;
      it has type id and is not destroyed. */
  lemma {:induction false} ScanAt(b: Board, p: Pos, d: Dir, id: int, k: nat)
    requires b.Valid() && b.InBounds(p)
    requires k < |Scan(b, p, d, id)|
    ensures Scan(b, p, d, id)[k] == Shift(p, d, k + 1)
    ensures Continues(b, Shift(p, d, k + 1), id)
    decreases k
  {
    var q := Shift(p, d, 1);
    assert Neighbor(b.width, b.height, p, d) == Some(q);
    assert Scan(b, p, d, id) == [q] + Scan(b, q, d, id);
    if k > 0 {
      ScanAt(b, q, d, id, k - 1);
      assert Shift(q, d, k) == Shift(p, d, k + 1);
    }
  }

  /** A scan collects only the contiguous cells next to p in direction d, each of
      type id and not destroyed. */
  lemma ScanContiguous(b: Board, p: Pos, d: Dir, id: int)
    requires b.Valid() && b.InBounds(p)
    ensures forall k | 0 <= k < |Scan(b, p, d, id)| ::
              Scan(b, p, d, id)[k] == Shift(p, d, k + 1) && Continues(b, Shift(p, d, k + 1), id)
  {
    var s := Scan(b, p, d, id);
    forall k | 0 <= k < |s|
      ensures s[k] == Shift(p, d, k + 1) && Continues(b, Shift(p, d, k + 1), id)
    {
      ScanAt(b, p, d, id, k);
    }
  }

  /** A scan stops at the first cell that is off the grid, of another type or destroyed. */
  lemma {:induction false} ScanStops(b: Board, p: Pos, d: Dir, id: int)
    requires b.Valid() && b.InBounds(p)
    ensures !Continues(b, Shift(p, d, |Scan(b, p, d, id)| + 1), id)
    decreases b.Reach(p, d)
  {
    match Neighbor(b.width, b.height, p, d)
    case None =>
    case Some(q) =>
      if Continues(b, q, id) {
        ScanStops(b, q, d, id);
        assert Shift(q, d, |Scan(b, q, d, id)| + 1) == Shift(p, d, |Scan(b, p, d, id)| + 1);
      }
  }

  /** When the first n cells beyond p continue the run and the next one does not,
      the scan holds n cells. */
  lemma {:induction false} ScanLength(b: Board, p: Pos, d: Dir, id: int, n: nat)
    requires b.Valid() && b.InBounds(p)
    requires forall k | 1 <= k <= n :: Continues(b, Shift(p, d, k), id)
    requires !Continues(b, Shift(p, d, n + 1), id)
    ensures |Scan(b, p, d, id)| == n
    decreases n
  {
    if n > 0 {
      var q := Shift(p, d, 1);
      assert Continues(b, q, id);
      forall k | 1 <= k <= n - 1
        ensures Continues(b, Shift(q, d, k), id)
      {
        assert Shift(q, d, k) == Shift(p, d, k + 1);
      }
      assert Shift(q, d, n) == Shift(p, d, n + 1);
      ScanLength(b, q, d, id, n - 1);
    }
  }

  /** Conversely, when the first n cells beyond p continue the run and the next one
      does not, the scan is exactly those n cells. */
  lemma ScanUnique(b: Board, p: Pos, d: Dir, id: int, n: nat)
    requires b.Valid() && b.InBounds(p)
    requires forall k | 1 <= k <= n :: Continues(b, Shift(p, d, k), id)
    requires !Continues(b, Shift(p, d, n + 1), id)
    ensures Scan(b, p, d, id) == seq(n, k => Shift(p, d, k + 1))
  {
    ScanLength(b, p, d, id, n);
    ScanContiguous(b, p, d, id);
  }

  /** Every tile a scan collects lies on the ray from p in direction d. */
  lemma ScanOnRay(b: Board, p: Pos, d: Dir, id: int)
    requires b.Valid() && b.InBounds(p)
    ensures forall q | q in Scan(b, p, d, id) :: OnRay(p, d, q) && Continues(b, q, id)
    ensures Distinct(Scan(b, p, d, id))
  {
    ScanContiguous(b, p, d, id);
  }

  /** A line's contribution is exactly the two opposite scans appended when they
      hold at least two tiles together, and nothing otherwise. */
  lemma {:induction false} LineMatchOfPair(b: Board, p: Pos, d1: Dir, d2: Dir)
    requires b.Valid() && b.InBounds(p)
    ensures LineMatch(b, p, [d1, d2])
            == if |AxisRun(b, p, d1, d2)| >= 2 then Some(AxisRun(b, p, d1, d2)) else None
  {
    var id := b.At(p).id;
    assert [d1, d2][..1] == [d1];
    assert [d1][..0] == [];
    assert Runs(b, p, [d1], id) == Scan(b, p, d1, id);
  }

  /** Appending two duplicate-free lists with no common element gives a duplicate-free list. */
  lemma DistinctAppend(s: seq<Pos>, t: seq<Pos>)
    requires Distinct(s) && Distinct(t)
    requires forall q | q in s :: q !in t
    ensures Distinct(s + t)
  {
    forall i, j | 0 <= i < j < |s + t|
      ensures (s + t)[i] != (s + t)[j]
    {
      if i < |s| && j >= |s| {
        assert (s + t)[i] in s;
        assert (s + t)[j] == t[j - |s|];
      }
    }
  }

  /** The match list of a live tile, spelt out by axis. */
  lemma TileMatchesByAxis(b: Board, p: Pos)
    requires b.Valid() && b.InBounds(p) && !b.At(p).destroyed
    ensures var v := AxisRun(b, p, Up, Down);
            var h := AxisRun(b, p, Left, Right);
            TileMatches(b, p).value
            == (if |v| >= 2 then v else []) + (if |h| >= 2 then h else [])
               + (if |v| >= 2 || |h| >= 2 then [p] else [])
  {
    LineMatchOfPair(b, p, Up, Down);
    LineMatchOfPair(b, p, Left, Right);
  }

  /** The tiles of each axis lie on p's column or row, away from p, and the two
      axes share no tile. */
  lemma AxisRunsApart(b: Board, p: Pos)
    requires b.Valid() && b.InBounds(p)
    ensures forall q | q in AxisRun(b, p, Up, Down) :: q.x == p.x && q.y != p.y
    ensures forall q | q in AxisRun(b, p, Left, Right) :: q.y == p.y && q.x != p.x
    ensures Distinct(AxisRun(b, p, Up, Down)) && Distinct(AxisRun(b, p, Left, Right))
  {
    var id := b.At(p).id;
    ScanOnRay(b, p, Up, id);
    ScanOnRay(b, p, Down, id);
    ScanOnRay(b, p, Left, id);
    ScanOnRay(b, p, Right, id);
    DistinctAppend(Scan(b, p, Up, id), Scan(b, p, Down, id));
    DistinctAppend(Scan(b, p, Left, id), Scan(b, p, Right, id));
  }

  /** The match list of a live tile is either empty or holds the tile itself, last,
      after at least two others; the tile is in it exactly when some axis
      contributed, and it is empty exactly when neither did. */
  lemma TileMatchesShape(b: Board, p: Pos)
    requires b.Valid() && b.InBounds(p) && !b.At(p).destroyed
    ensures var m := TileMatches(b, p).value;
            var v := AxisRun(b, p, Up, Down);
            var h := AxisRun(b, p, Left, Right);
            && (m == [] <==> |v| < 2 && |h| < 2)
            && (p in m <==> |v| >= 2 || |h| >= 2)
            && (m != [] ==> |m| >= 3 && m[|m| - 1] == p)
  {
    TileMatchesByAxis(b, p);
    AxisRunsApart(b, p);
  }

  /** Every tile in a match list is on the board, has the type of p and is not destroyed. */
  lemma TileMatchesSameType(b: Board, p: Pos)
    requires b.Valid() && b.InBounds(p)
    ensures forall q | q in CellMatches(b, p) ::
              b.InBounds(q) && b.At(q).id == b.At(p).id && !b.At(q).destroyed
  {
    if !b.At(p).destroyed {
      var id := b.At(p).id;
      TileMatchesByAxis(b, p);
      ScanOnRay(b, p, Up, id);
      ScanOnRay(b, p, Down, id);
      ScanOnRay(b, p, Left, id);
      ScanOnRay(b, p, Right, id);
    }
  }

  /** A match list has no duplicates: the scans exclude p and the axes are disjoint. */
  lemma TileMatchesDistinct(b: Board, p: Pos)
    requires b.Valid() && b.InBounds(p)
    ensures Distinct(CellMatches(b, p))
  {
    if !b.At(p).destroyed {
      var v := AxisRun(b, p, Up, Down);
      var h := AxisRun(b, p, Left, Right);
      TileMatchesByAxis(b, p);
      AxisRunsApart(b, p);
      var vs := if |v| >= 2 then v else [];
      var hs := if |h| >= 2 then h else [];
      DistinctAppend(vs, hs);
      DistinctAppend(vs + hs, if |v| >= 2 || |h| >= 2 then [p] else []);
    }
  }

  /** A tile none of whose four neighbours carries on its run has an empty match
      list. */
  lemma IsolatedCell(b: Board, p: Pos)
    requires b.Valid() && b.InBounds(p)
    requires forall d: Dir :: !Continues(b, Shift(p, d, 1), b.At(p).id)
    ensures CellMatches(b, p) == []
  {
    var id := b.At(p).id;
    forall d: Dir
      ensures Scan(b, p, d, id) == []
    {
      assert !Continues(b, Shift(p, d, 1), id);
    }
    if !b.At(p).destroyed {
      TileMatchesByAxis(b, p);
    }
  }

  /** Every tile of a match list is in the board-wide union. */
  lemma InAllMatches(b: Board, x: int, y: int, q: Pos)
    requires b.Valid() && 0 <= x < b.width && 0 <= y < b.height
    requires q in CellMatches(b, Pos(x, y))
    ensures q in AllMatches(b)
  {
  }

  /** Every tile of the board-wide union comes from some tile's match list. */
  lemma FromSomeCell(b: Board, q: Pos) returns (x: int, y: int)
    requires b.Valid() && q in AllMatches(b)
    ensures 0 <= x < b.width && 0 <= y < b.height && q in CellMatches(b, Pos(x, y))
  {
    x, y :| 0 <= x < b.width && 0 <= y < b.height && q in CellMatches(b, Pos(x, y));
  }

  /** The board-wide union is non-empty exactly when some tile's list is, and it
      holds only live tiles of the board. */
  lemma AllMatchesSpec(b: Board)
    requires b.Valid()
    ensures AllMatches(b) != {} <==> HasMatch(b)
    ensures forall q | q in AllMatches(b) :: b.InBounds(q) && !b.At(q).destroyed
  {
    if HasMatch(b) {
      var x, y :| 0 <= x < b.width && 0 <= y < b.height && CellMatches(b, Pos(x, y)) != [];
      InAllMatches(b, x, y, CellMatches(b, Pos(x, y))[0]);
    }
    forall q | q in AllMatches(b)
      ensures b.InBounds(q) && !b.At(q).destroyed && HasMatch(b)
    {
      var x, y := FromSomeCell(b, q);
      TileMatchesSameType(b, Pos(x, y));
    }
  }
}
