/** The L-shaped tunnels between consecutive rooms, their wall skin, and the
    orthogonal routes they open between room centres. */
module Tunnels {
  import opened Geometry

  function Abs(n: int): nat { if n < 0 then -n else n }

  /** `a` moved `k` steps toward `b`: the k-th cell of a run that starts at `a`
      and steps by -1 when `a > b` ('left', 'up') and by +1 otherwise. */
  function Toward(a: int, b: int, k: nat): int
  {
    if a > b then a - k else if a < b then a + k else a
  }

  /** `x` lies between `a` and `b`, both included, in either order. */
  predicate Span(a: int, b: int, x: int)
  {
    a <= x <= b || b <= x <= a
  }

  /** The cell `(x, y)` lies on the straight run from `(c0, r0)` to `(c1, r1)`. */
  predicate OnSegment(c0: int, r0: int, c1: int, r1: int, x: int, y: int)
  {
    Span(c0, c1, x) && Span(r0, r1, y)
  }

  /** A run that is horizontal or vertical. */
  predicate Aligned(c0: int, r0: int, c1: int, r1: int)
  {
    c0 == c1 || r0 == r1
  }

  /** The number of steps of an aligned run; it visits one cell more. */
  function RunLength(c0: int, r0: int, c1: int, r1: int): nat
  {
    Abs(c1 - c0) + Abs(r1 - r0)
  }

  /** One of the four orthogonal neighbours of `(x, y)` lies on the run. */
  predicate BesideSegment(c0: int, r0: int, c1: int, r1: int, x: int, y: int)
  {
    OnSegment(c0, r0, c1, r1, x, y - 1) || OnSegment(c0, r0, c1, r1, x + 1, y) ||
    OnSegment(c0, r0, c1, r1, x, y + 1) || OnSegment(c0, r0, c1, r1, x - 1, y)
  }

  /** The cell `(x, y)` is one of the first `n` cells a run from `(c0, r0)`
      toward `(c1, r1)` visits. */
  predicate OnLegPrefix(c0: int, r0: int, c1: int, r1: int, n: nat, x: int, y: int)
    decreases n
  {
    n > 0 &&
    (OnLegPrefix(c0, r0, c1, r1, n - 1, x, y) ||
     (x == Toward(c0, c1, n - 1) && y == Toward(r0, r1, n - 1)))
  }

  /** One of the four orthogonal neighbours of `(x, y)` is among the first `n` cells of the run. */
  predicate BesideLegPrefix(c0: int, r0: int, c1: int, r1: int, n: nat, x: int, y: int)
  {
    OnLegPrefix(c0, r0, c1, r1, n, x, y - 1) || OnLegPrefix(c0, r0, c1, r1, n, x + 1, y) ||
    OnLegPrefix(c0, r0, c1, r1, n, x, y + 1) || OnLegPrefix(c0, r0, c1, r1, n, x - 1, y)
  }

  /** The first `n` cells of an aligned run are the segment from its start to
      its `(n-1)`-th cell; all `RunLength + 1` of them are the whole segment. */
  lemma {:induction false} LegPrefixSegment(c0: int, r0: int, c1: int, r1: int, n: nat, x: int, y: int)
    requires Aligned(c0, r0, c1, r1)
    requires 0 < n <= RunLength(c0, r0, c1, r1) + 1
    ensures OnLegPrefix(c0, r0, c1, r1, n, x, y) <==>
              OnSegment(c0, r0, Toward(c0, c1, n - 1), Toward(r0, r1, n - 1), x, y)
    ensures n == RunLength(c0, r0, c1, r1) + 1 ==>
              (OnLegPrefix(c0, r0, c1, r1, n, x, y) <==> OnSegment(c0, r0, c1, r1, x, y))
  {
    if n > 1 {
      LegPrefixSegment(c0, r0, c1, r1, n - 1, x, y);
    }
  }

  /** Once the whole run is visited, its cells and their neighbours are those of the segment. */
  lemma WholeLeg(c0: int, r0: int, c1: int, r1: int, x: int, y: int)
    requires Aligned(c0, r0, c1, r1)
    ensures var n := RunLength(c0, r0, c1, r1) + 1;
            (OnLegPrefix(c0, r0, c1, r1, n, x, y) <==> OnSegment(c0, r0, c1, r1, x, y)) &&
            (BesideLegPrefix(c0, r0, c1, r1, n, x, y) <==> BesideSegment(c0, r0, c1, r1, x, y))
  {
    var n := RunLength(c0, r0, c1, r1) + 1;
    LegPrefixSegment(c0, r0, c1, r1, n, x, y);
    LegPrefixSegment(c0, r0, c1, r1, n, x, y - 1);
    LegPrefixSegment(c0, r0, c1, r1, n, x + 1, y);
    LegPrefixSegment(c0, r0, c1, r1, n, x, y + 1);
    LegPrefixSegment(c0, r0, c1, r1, n, x - 1, y);
  }

  /** The tunnel from room `a` to room `b`: a horizontal run along `a`'s centre
      row from `a`'s centre column to `b`'s, and a vertical run along `b`'s
      centre column from `b`'s centre row to `a`'s. */
  predicate OnTunnel(a: Room, b: Room, x: int, y: int)
  {
    OnSegment(a.centerCol, a.centerRow, b.centerCol, a.centerRow, x, y) ||
    OnSegment(b.centerCol, b.centerRow, b.centerCol, a.centerRow, x, y)
  }

  /** Every cell on some tunnel is away from the grid's edges when every room centre is. */
  lemma AnyTunnelInner(rooms: seq<Room>, x: int, y: int, row: nat, column: nat)
    requires forall k :: 0 <= k < |rooms| ==> Inner(rooms[k].centerCol, rooms[k].centerRow, row, column)
    requires OnAnyTunnel(rooms, x, y)
    ensures Inner(x, y, row, column)
  {
  }

  /** One of the four orthogonal neighbours of `(x, y)` is on the tunnel. */
  predicate BesideTunnel(a: Room, b: Room, x: int, y: int)
  {
    OnTunnel(a, b, x, y - 1) || OnTunnel(a, b, x + 1, y) ||
    OnTunnel(a, b, x, y + 1) || OnTunnel(a, b, x - 1, y)
  }

  /** `(x, y)` is on one of the first `n` tunnels, those between rooms `k` and
      `k+1` for `k < n`. */
  predicate Carved(rooms: seq<Room>, n: nat, x: int, y: int)
    requires n == 0 || n < |rooms|
    decreases n
  {
    n > 0 && (Carved(rooms, n - 1, x, y) || OnTunnel(rooms[n - 1], rooms[n], x, y))
  }

  /** One of the four orthogonal neighbours of `(x, y)` is on one of the first `n` tunnels. */
  predicate BesideCarved(rooms: seq<Room>, n: nat, x: int, y: int)
    requires n == 0 || n < |rooms|
  {
    Carved(rooms, n, x, y - 1) || Carved(rooms, n, x + 1, y) ||
    Carved(rooms, n, x, y + 1) || Carved(rooms, n, x - 1, y)
  }

  /** `(x, y)` is on the tunnel of some consecutive pair of rooms. */
  ghost predicate OnAnyTunnel(rooms: seq<Room>, x: int, y: int)
  {
    exists k :: 0 <= k < |rooms| - 1 && OnTunnel(rooms[k], rooms[k + 1], x, y)
  }

  /** One of the four orthogonal neighbours of `(x, y)` is on some tunnel. */
  ghost predicate BesideAnyTunnel(rooms: seq<Room>, x: int, y: int)
  {
    OnAnyTunnel(rooms, x, y - 1) || OnAnyTunnel(rooms, x + 1, y) ||
    OnAnyTunnel(rooms, x, y + 1) || OnAnyTunnel(rooms, x - 1, y)
  }

  /** The first `n` tunnels are exactly those of the pairs `(k, k+1)` with `k < n`. */
  lemma {:induction false} CarvedPairs(rooms: seq<Room>, n: nat, x: int, y: int)
    requires n == 0 || n < |rooms|
    ensures Carved(rooms, n, x, y) <==> exists k :: 0 <= k < n && OnTunnel(rooms[k], rooms[k + 1], x, y)
  {
    if n > 0 {
      CarvedPairs(rooms, n - 1, x, y);
      if OnTunnel(rooms[n - 1], rooms[n], x, y) {
        var k := n - 1;
        assert OnTunnel(rooms[k], rooms[k + 1], x, y);
      }
    }
  }

  /** With every pair carved (`n == |rooms| - 1`, or no rooms), the carved
      cells are the tunnels of all consecutive pairs, and so are their neighbours. */
  lemma AllCarved(rooms: seq<Room>, n: nat, x: int, y: int)
    requires n == 0 || n < |rooms|
    requires n == if |rooms| == 0 then 0 else |rooms| - 1
    ensures Carved(rooms, n, x, y) <==> OnAnyTunnel(rooms, x, y)
    ensures BesideCarved(rooms, n, x, y) <==> BesideAnyTunnel(rooms, x, y)
  {
    CarvedPairs(rooms, n, x, y);
    CarvedPairs(rooms, n, x, y - 1);
    CarvedPairs(rooms, n, x + 1, y);
    CarvedPairs(rooms, n, x, y + 1);
    CarvedPairs(rooms, n, x - 1, y);
  }

  /** What carving does to a cell that held `t`: a tunnel cell becomes FLOOR; a
      neighbour of a tunnel cell that is still EARTH becomes WALL; every other
      cell keeps its tile. */
  function Tunnelled(t: Tile, onTunnel: bool, besideTunnel: bool): (r: Tile)
    ensures r == Floor <==> onTunnel || t == Floor
    ensures r == Earth <==> t == Earth && !onTunnel && !besideTunnel
    ensures r != t ==> onTunnel || (t == Earth && r == Wall)
  {
    if onTunnel then Floor else if besideTunnel && t == Earth then Wall else t
  }

  /** Carving twice is carving once with both sets of tunnel cells and both skins. */
  lemma TunnelledThen(t: Tile, on1: bool, beside1: bool, on2: bool, beside2: bool)
    ensures Tunnelled(Tunnelled(t, on1, beside1), on2, beside2) == Tunnelled(t, on1 || on2, beside1 || beside2)
  {
  }

  /** Carving one more pair adds that pair's tunnel and its skin. */
  lemma CarvedStep(rooms: seq<Room>, i: nat, x: int, y: int)
    requires i + 1 < |rooms|
    ensures Carved(rooms, i + 1, x, y) <==> Carved(rooms, i, x, y) || OnTunnel(rooms[i], rooms[i + 1], x, y)
    ensures BesideCarved(rooms, i + 1, x, y) <==> BesideCarved(rooms, i, x, y) || BesideTunnel(rooms[i], rooms[i + 1], x, y)
  {
  }

  /** `(x, y)` is one of the four cells `_addTunnelWall` inspects around `(c, r)`. */
  predicate Neighbour(x: int, y: int, c: int, r: int)
  {
    (x == c && (y == r - 1 || y == r + 1)) || (y == r && (x == c + 1 || x == c - 1))
  }

  /** Two cells one orthogonal step apart. */
  predicate Adjacent(p: Cell, q: Cell)
  {
    Abs(p.col - q.col) + Abs(p.row - q.row) == 1
  }

  /** A sequence of cells in which each step is orthogonal. */
  predicate IsPath(p: seq<Cell>)
  {
    forall k :: 0 <= k < |p| - 1 ==> Adjacent(p[k], p[k + 1])
  }

  /** Two paths, the second starting where the first ends, join into one. */
  lemma JoinPaths(p: seq<Cell>, q: seq<Cell>)
    requires |p| > 0 && |q| > 0 && IsPath(p) && IsPath(q) && p[|p| - 1] == q[0]
    ensures IsPath(p + q[1..])
  {
  }

  /** The cells an aligned run visits, in the order the carving visits them. */
  function Walk(c0: int, r0: int, c1: int, r1: int): (p: seq<Cell>)
    requires Aligned(c0, r0, c1, r1)
    ensures |p| == RunLength(c0, r0, c1, r1) + 1
    ensures p[0] == Cell(c0, r0) && p[|p| - 1] == Cell(c1, r1)
    ensures IsPath(p)
    ensures forall k :: 0 <= k < |p| ==> OnSegment(c0, r0, c1, r1, p[k].col, p[k].row)
  {
    seq(RunLength(c0, r0, c1, r1) + 1, (k: int) requires 0 <= k => Cell(Toward(c0, c1, k), Toward(r0, r1, k)))
  }

  /** An orthogonal route along the tunnel from `a`'s centre to `b`'s centre:
      along the horizontal run to the corner `(b.centerCol, a.centerRow)`, then
      along the vertical run. */
  function TunnelRoute(a: Room, b: Room): (p: seq<Cell>)
    ensures |p| > 0 && IsPath(p)
    ensures p[0] == Cell(a.centerCol, a.centerRow) && p[|p| - 1] == Cell(b.centerCol, b.centerRow)
    ensures forall k :: 0 <= k < |p| ==> OnTunnel(a, b, p[k].col, p[k].row)
  {
    var across := Walk(a.centerCol, a.centerRow, b.centerCol, a.centerRow);
    var down := Walk(b.centerCol, a.centerRow, b.centerCol, b.centerRow);
    JoinPaths(across, down);
    across + down[1..]
  }

  /** Every cell of the route between rooms `i` and `i+1` is on some tunnel. */
  lemma TunnelRouteCarved(rooms: seq<Room>, i: nat)
    requires i + 1 < |rooms|
    ensures forall c :: c in TunnelRoute(rooms[i], rooms[i + 1]) ==> OnAnyTunnel(rooms, c.col, c.row)
  {
  }

  /** An orthogonal route from the centre of room 0 to the centre of room `n`
      that runs only over tunnel cells: consecutive tunnels share a room centre. */
  function Route(rooms: seq<Room>, n: nat): (p: seq<Cell>)
    requires 0 < n < |rooms|
    ensures |p| > 0 && IsPath(p)
    ensures p[0] == Cell(rooms[0].centerCol, rooms[0].centerRow)
    ensures p[|p| - 1] == Cell(rooms[n].centerCol, rooms[n].centerRow)
    ensures forall c :: c in p ==> OnAnyTunnel(rooms, c.col, c.row)
  {
    TunnelRouteCarved(rooms, n - 1);
    var last := TunnelRoute(rooms[n - 1], rooms[n]);
    if n == 1 then last
    else
      var earlier := Route(rooms, n - 1);
      JoinPaths(earlier, last);
      earlier + last[1..]
  }
}
