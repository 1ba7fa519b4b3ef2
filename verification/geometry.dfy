/** Tiles, rooms and the arithmetic of room placement, as values. */
module Geometry {

  /** The content of one map cell. The generator encodes these as
      EARTH = 0, FLOOR = 1 and WALL = 3. */
  datatype Tile = Earth | Floor | Wall

  /** A room as the generator records it: its origin (the top-left corner of
      its wall border), its integer centre and its size. The border spans
      `width + 1` columns and `height + 1` rows. */
  datatype Room = Room(column: int, row: int, centerCol: int, centerRow: int, width: nat, height: nat)

  /** One placement attempt: a sampled origin and size. */
  datatype Candidate = Candidate(column: int, row: int, width: nat, height: nat)

  /** A grid position, column first as in `map[column][row]`. */
  datatype Cell = Cell(col: int, row: int)

  /** The divisor the size bounds are derived with. */
  const MinSize: nat := 3

  /** Smallest room width (or height) the sampler draws for a grid dimension
      `n`. Flooring twice by 3 is flooring once by 9. */
  function MinRoomSize(n: nat): (r: nat)
    ensures 9 * r <= n < 9 * r + 9
  {
    n / MinSize / MinSize
  }

  /** The sampler's exclusive upper bound on room width (or height). On a
      dimension of at least 3 it is positive and above the smallest size, so
      the sampler's size range is never empty. */
  function MaxRoomSize(n: nat): (r: nat)
    ensures MinSize * r <= n
    ensures MinSize <= n ==> 1 <= r && MinRoomSize(n) < r
  {
    n / MinSize
  }

  /** How many rooms the generator places: grid area over the largest room
      area. Whatever the grid size, it is between 9 and 25, so never zero. */
  function MaxRooms(row: nat, column: nat): (r: nat)
    requires MinSize <= row && MinSize <= column
    ensures 9 <= r <= 25
  {
    var a, b := MaxRoomSize(column), MaxRoomSize(row);
    AreaBetween(row, column, a, b);
    QuotientBetween(row * column, a * b, 9, 25);
    (row * column) / (a * b)
  }

  /** The grid area is between 9 and 25 times the largest room area. */
  lemma AreaBetween(row: nat, column: nat, a: nat, b: nat)
    requires MinSize <= row && MinSize <= column
    requires a == MaxRoomSize(column) && b == MaxRoomSize(row)
    ensures 0 < a * b && 9 * (a * b) <= row * column <= 25 * (a * b)
  {
    assert 3 * a <= column <= 5 * a && 3 * b <= row <= 5 * b;
    ScaleBetween(3 * a, column, 5 * a, 3 * b, row, 5 * b);
    assert (3 * a) * (3 * b) == 9 * (a * b) && (5 * a) * (5 * b) == 25 * (a * b);
  }

  /** Products of non-negative bounds bound the product. */
  lemma ScaleBetween(lo1: nat, x: nat, hi1: nat, lo2: nat, y: nat, hi2: nat)
    requires lo1 <= x <= hi1 && lo2 <= y <= hi2
    ensures lo1 * lo2 <= y * x <= hi1 * hi2
  {
  }

  /** Multiplying by a non-negative factor keeps the order. */
  lemma MulMono(a: nat, b: nat, c: nat)
    requires a <= b
    ensures a * c <= b * c && c * a <= c * b
  {
  }

  /** Bounds on a dividend over a positive divisor carry over to the quotient. */
  lemma QuotientBetween(area: nat, cap: nat, lo: nat, hi: nat)
    requires 0 < cap && lo * cap <= area <= hi * cap
    ensures lo <= area / cap <= hi
  {
    var q := area / cap;
    assert q * cap + cap == (q + 1) * cap;
    if q < lo {
      MulMono(q + 1, lo, cap);
    }
    if hi < q {
      MulMono(hi + 1, q, cap);
    }
  }

  /** The room the generator records for an accepted candidate: the origin
      and size as sampled, the centre at origin plus half the size, rounded
      down (the largest integer not above `column + width * 0.5`). */
  function NewRoom(cand: Candidate): (r: Room)
    ensures r.column == cand.column && r.row == cand.row && r.width == cand.width && r.height == cand.height
    ensures 2 * (r.centerCol - r.column) <= r.width < 2 * (r.centerCol - r.column) + 2
    ensures 2 * (r.centerRow - r.row) <= r.height < 2 * (r.centerRow - r.row) + 2
  {
    Room(cand.column, cand.row,
         cand.column + cand.width / 2, cand.row + cand.height / 2,
         cand.width, cand.height)
  }

  /** The origin and size ranges the sampler draws from, as written: origins in
      `[1, dimension - 1]` and sizes at least MinRoomSize of the dimension. */
  predicate InSampledRange(cand: Candidate, row: nat, column: nat)
  {
    1 <= cand.column <= column - 1 && 1 <= cand.row <= row - 1 &&
    MinRoomSize(column) <= cand.width && MinRoomSize(row) <= cand.height
  }

  /** The sampler's ranges with empty rooms excluded: width and height at least 1. */
  predicate InCorrectedRange(cand: Candidate, row: nat, column: nat)
  {
    InSampledRange(cand, row, column) && 1 <= cand.width && 1 <= cand.height
  }

  /** Every cell the stamp writes: the `(width+1) x (height+1)` rectangle from the origin. */
  predicate InFootprint(rm: Room, x: int, y: int)
  {
    rm.column <= x <= rm.column + rm.width && rm.row <= y <= rm.row + rm.height
  }

  /** The cells strictly inside the wall border. */
  predicate InInterior(rm: Room, x: int, y: int)
  {
    rm.column < x < rm.column + rm.width && rm.row < y < rm.row + rm.height
  }

  /** The cells the validation scans: the `width x height` rectangle from the
      origin, which leaves out the far wall column and the far wall row. */
  predicate InScan(rm: Room, x: int, y: int)
  {
    rm.column <= x < rm.column + rm.width && rm.row <= y < rm.row + rm.height
  }

  /** What the stamp leaves at a cell of the footprint: FLOOR inside, WALL on the border. */
  function StampTile(rm: Room, x: int, y: int): Tile
  {
    if InInterior(rm, x, y) then Floor else Wall
  }

  /** A recorded room that fits the grid with its whole border: positive size,
      origin at least 1, far wall inside the grid, centre as recorded. */
  predicate WellPlaced(rm: Room, row: nat, column: nat)
  {
    1 <= rm.width && 1 <= rm.height && 1 <= rm.column && 1 <= rm.row &&
    rm.column + rm.width < column && rm.row + rm.height < row &&
    rm.centerCol == rm.column + rm.width / 2 && rm.centerRow == rm.row + rm.height / 2
  }

  /** A cell of a `column x row` grid. */
  predicate InBounds(x: int, y: int, row: nat, column: nat)
  {
    0 <= x < column && 0 <= y < row
  }

  /** A cell at least one step away from every edge of a `column x row` grid,
      so that all four of its orthogonal neighbours are in the grid. */
  predicate Inner(x: int, y: int, row: nat, column: nat)
  {
    1 <= x <= column - 2 && 1 <= y <= row - 2
  }

  /** A well-placed room has its centre in its own footprint, on the scanned
      part of it, and away from the grid's edges. */
  lemma CentreOfWellPlaced(rm: Room, row: nat, column: nat)
    requires WellPlaced(rm, row, column)
    ensures InScan(rm, rm.centerCol, rm.centerRow)
    ensures Inner(rm.centerCol, rm.centerRow, row, column)
  {
  }

  /** The cell lies strictly inside some room's wall border. */
  ghost predicate InSomeInterior(rooms: seq<Room>, x: int, y: int)
  {
    exists k :: 0 <= k < |rooms| && InInterior(rooms[k], x, y)
  }

  /** The cell lies in some room's footprint. */
  ghost predicate InSomeFootprint(rooms: seq<Room>, x: int, y: int)
  {
    exists k :: 0 <= k < |rooms| && InFootprint(rooms[k], x, y)
  }

  /** Stamping one more room over a stamped list: its footprint takes its own tiles. */
  lemma StampedAppend(t: Tile, rs: seq<Room>, n: Room, x: int, y: int)
    ensures Stamped(t, rs + [n], x, y) == if InFootprint(n, x, y) then StampTile(n, x, y) else Stamped(t, rs, x, y)
  {
  }

  /** A cell is in some footprint of `rs + [n]` exactly when it is in some
      footprint of `rs` or in that of `n`. */
  lemma FootprintAppend(rs: seq<Room>, n: Room, x: int, y: int)
    ensures InSomeFootprint(rs + [n], x, y) <==> InSomeFootprint(rs, x, y) || InFootprint(n, x, y)
  {
    var rs' := rs + [n];
    if InSomeFootprint(rs', x, y) {
      var k :| 0 <= k < |rs'| && InFootprint(rs'[k], x, y);
      if k < |rs| {
        assert InFootprint(rs[k], x, y);
      }
    }
    if InSomeFootprint(rs, x, y) {
      var k :| 0 <= k < |rs| && InFootprint(rs[k], x, y);
      assert InFootprint(rs'[k], x, y);
    }
    if InFootprint(n, x, y) {
      assert InFootprint(rs'[|rs|], x, y);
    }
  }

  /** The tile a cell holds once all `rooms` are stamped onto bare earth:
      FLOOR inside any room, WALL on any border that is inside none, EARTH elsewhere. */
  ghost function RoomsTile(rooms: seq<Room>, x: int, y: int): Tile
  {
    if InSomeInterior(rooms, x, y) then Floor
    else if InSomeFootprint(rooms, x, y) then Wall
    else Earth
  }

  /** No scanned cell of `n` lies in the footprint of `o`. */
  ghost predicate ScanAvoids(n: Room, o: Room)
  {
    forall x, y :: InScan(n, x, y) ==> !InFootprint(o, x, y)
  }

  /** When the scan of a non-empty room `n` misses the footprint of `o`, the two
      footprints can only share cells on both border walls: the far wall of `n`
      meets the near wall of `o`, and stamping `n` leaves `o`'s tiles as they were. */
  lemma StampsAgreeOnOverlap(n: Room, o: Room)
    requires 1 <= n.width && 1 <= n.height
    requires ScanAvoids(n, o)
    ensures forall x, y :: InFootprint(n, x, y) && InFootprint(o, x, y) ==>
              !InInterior(n, x, y) && !InInterior(o, x, y) && StampTile(n, x, y) == StampTile(o, x, y)
  {
    forall x, y | InFootprint(n, x, y) && InFootprint(o, x, y)
      ensures !InInterior(n, x, y) && !InInterior(o, x, y)
    {
      var x' := if x == n.column + n.width then x - 1 else x;
      var y' := if y == n.row + n.height then y - 1 else y;
      assert InScan(n, x', y');
      assert !InFootprint(o, x', y');
    }
  }

  /** The tile a cell holds after the rooms `rs` are stamped, in order, onto a
      grid where it held `t`: the last room whose footprint covers the cell decides. */
  function Stamped(t: Tile, rs: seq<Room>, x: int, y: int): Tile
    decreases |rs|
  {
    if |rs| == 0 then t
    else if InFootprint(rs[|rs| - 1], x, y) then StampTile(rs[|rs| - 1], x, y)
    else Stamped(t, rs[..|rs| - 1], x, y)
  }

  /** A cell in some room's footprint holds WALL or FLOOR after stamping; a
      cell in none keeps its tile. */
  lemma {:induction false} StampedCovered(t: Tile, rs: seq<Room>, x: int, y: int)
    ensures InSomeFootprint(rs, x, y) ==> Stamped(t, rs, x, y) in {Wall, Floor}
    ensures !InSomeFootprint(rs, x, y) ==> Stamped(t, rs, x, y) == t
    decreases |rs|
  {
    if |rs| > 0 {
      var init := rs[..|rs| - 1];
      StampedCovered(t, init, x, y);
      if !InFootprint(rs[|rs| - 1], x, y) {
        if InSomeFootprint(rs, x, y) {
          var k :| 0 <= k < |rs| && InFootprint(rs[k], x, y);
          assert InFootprint(init[k], x, y);
        }
        if InSomeFootprint(init, x, y) {
          var k :| 0 <= k < |init| && InFootprint(init[k], x, y);
          assert InFootprint(rs[k], x, y);
        }
      }
    }
  }

  /** Every room's scan missed the footprints of all the rooms before it. */
  ghost predicate ScannedClear(rs: seq<Room>)
  {
    forall k, l {:trigger ScanAvoids(rs[l], rs[k])} :: 0 <= k < l < |rs| ==> ScanAvoids(rs[l], rs[k])
  }

  /** A room whose scan misses every earlier room extends a clear sequence. */
  lemma ScannedClearExtend(rs: seq<Room>, n: Room)
    requires ScannedClear(rs)
    requires forall k :: 0 <= k < |rs| ==> ScanAvoids(n, rs[k])
    ensures ScannedClear(rs + [n])
  {
  }

  /** Rooms of positive size, each of whose scans missed the earlier rooms,
      stamp onto bare earth the same tiles in whatever order: FLOOR inside any
      room, WALL on the borders, EARTH elsewhere. */
  lemma {:induction false} StampedIsRoomsTile(rs: seq<Room>, x: int, y: int)
    requires forall k :: 0 <= k < |rs| ==> 1 <= rs[k].width && 1 <= rs[k].height
    requires ScannedClear(rs)
    ensures Stamped(Earth, rs, x, y) == RoomsTile(rs, x, y)
    decreases |rs|
  {
    if |rs| > 0 {
      var init, n := rs[..|rs| - 1], rs[|rs| - 1];
      assert ScannedClear(init) by {
        forall k, l | 0 <= k < l < |init| ensures ScanAvoids(init[l], init[k])
        {
          assert ScanAvoids(rs[l], rs[k]);
        }
      }
      StampedIsRoomsTile(init, x, y);
      if InFootprint(n, x, y) {
        if InInterior(n, x, y) {
          assert InInterior(rs[|rs| - 1], x, y);
        } else {
          assert !InSomeInterior(rs, x, y) by {
            forall k | 0 <= k < |rs| ensures !InInterior(rs[k], x, y)
            {
              if k < |rs| - 1 {
                assert ScanAvoids(n, rs[k]);
                StampsAgreeOnOverlap(n, rs[k]);
              }
            }
          }
          assert InFootprint(rs[|rs| - 1], x, y);
        }
      } else {
        assert InSomeInterior(rs, x, y) <==> InSomeInterior(init, x, y) by {
          if InSomeInterior(rs, x, y) {
            var k :| 0 <= k < |rs| && InInterior(rs[k], x, y);
            assert InInterior(init[k], x, y);
          }
          if InSomeInterior(init, x, y) {
            var k :| 0 <= k < |init| && InInterior(init[k], x, y);
            assert InInterior(rs[k], x, y);
          }
        }
        assert InSomeFootprint(rs, x, y) <==> InSomeFootprint(init, x, y) by {
          if InSomeFootprint(rs, x, y) {
            var k :| 0 <= k < |rs| && InFootprint(rs[k], x, y);
            assert InFootprint(init[k], x, y);
          }
          if InSomeFootprint(init, x, y) {
            var k :| 0 <= k < |init| && InFootprint(init[k], x, y);
            assert InFootprint(rs[k], x, y);
          }
        }
      }
    }
  }

  /** Two footprints may overlap although the second room passed validation
      against the first: the scan never looks at the far wall. */
  lemma FarWallOverlapExample()
    ensures var o, n := Room(5, 1, 6, 2, 3, 3), Room(2, 1, 3, 2, 3, 3);
            ScanAvoids(n, o) && InFootprint(n, 5, 1) && InFootprint(o, 5, 1)
  {
    var o, n := Room(5, 1, 6, 2, 3, 3), Room(2, 1, 3, 2, 3, 3);
    forall x, y | InScan(n, x, y) ensures !InFootprint(o, x, y) { }
  }
}
