/** The map generator: one tile grid and one room list, built by three phases
    that run in a fixed order (ground, rooms, connections). */
module MapGen {
  import opened Geometry
  import opened Tunnels

  /** The JavaScript store `rooms[k] = rm`: it overwrites entry `k`, or appends
      when `k` is the current length. */
  function Store(rooms: seq<Room>, k: nat, rm: Room): (r: seq<Room>)
    requires k <= |rooms|
    ensures |r| == if k < |rooms| then |rooms| else k + 1
    ensures r[k] == rm && forall j :: 0 <= j < |rooms| && j != k ==> r[j] == rooms[j]
  {
    if k < |rooms| then rooms[k := rm] else rooms + [rm]
  }

  /** `r` is the room list `base` with its first `|laid|` entries replaced by
      `laid`: as long as the longer of the two, `laid` first, then what is left of `base`. */
  predicate Overlays(r: seq<Room>, base: seq<Room>, laid: seq<Room>)
  {
    |r| == (if |laid| < |base| then |base| else |laid|) &&
    (forall k :: 0 <= k < |laid| ==> r[k] == laid[k]) &&
    (forall k :: |laid| <= k < |base| ==> r[k] == base[k])
  }

  /** Storing a room at the next index extends the replaced prefix by it. */
  lemma StoreOverlays(r: seq<Room>, base: seq<Room>, laid: seq<Room>, rm: Room)
    requires Overlays(r, base, laid)
    ensures Overlays(Store(r, |laid|, rm), base, laid + [rm])
  {
  }

  /** Overlaying well-placed rooms on well-placed rooms leaves only well-placed rooms. */
  lemma OverlayWellPlaced(r: seq<Room>, base: seq<Room>, laid: seq<Room>, row: nat, column: nat)
    requires Overlays(r, base, laid)
    requires forall k :: 0 <= k < |base| ==> WellPlaced(base[k], row, column)
    requires forall k :: 0 <= k < |laid| ==> WellPlaced(laid[k], row, column)
    ensures forall k :: 0 <= k < |r| ==> WellPlaced(r[k], row, column)
  {
  }

  /** Each candidate index is larger than the one before it. */
  ghost predicate Increasing(s: seq<nat>)
    decreases |s|
  {
    |s| <= 1 || (Increasing(s[..|s| - 1]) && s[|s| - 2] < s[|s| - 1])
  }

  /** Increasing indices are strictly ordered pairwise: candidates are used in
      order and each at most once. */
  lemma {:induction false} IncreasingOrdered(s: seq<nat>)
    requires Increasing(s)
    ensures forall k, l :: 0 <= k < l < |s| ==> s[k] < s[l]
    decreases |s|
  {
    if |s| > 1 {
      var init := s[..|s| - 1];
      IncreasingOrdered(init);
      forall k, l | 0 <= k < l < |s| ensures s[k] < s[l]
      {
        if l < |s| - 1 {
          assert s[k] == init[k] && s[l] == init[l];
        } else if k < |s| - 2 {
          assert s[k] == init[k] && s[|s| - 2] == init[|s| - 2];
        }
      }
    }
  }

  /** The rooms made, in order, from the candidates at the increasing indices `picks`. */
  function Picked(candidates: seq<Candidate>, picks: seq<nat>): (r: seq<Room>)
    requires Increasing(picks) && (|picks| == 0 || picks[|picks| - 1] < |candidates|)
    ensures |r| == |picks|
    decreases |picks|
  {
    if |picks| == 0 then []
    else Picked(candidates, picks[..|picks| - 1]) + [NewRoom(candidates[picks[|picks| - 1]])]
  }

  /** Accepting one more candidate, at an index above the last one, appends its room. */
  lemma PickedAppend(candidates: seq<Candidate>, picks: seq<nat>, pick: nat)
    requires Increasing(picks) && (|picks| == 0 || picks[|picks| - 1] < pick) && pick < |candidates|
    ensures Increasing(picks + [pick])
    ensures Picked(candidates, picks + [pick]) == Picked(candidates, picks) + [NewRoom(candidates[pick])]
  {
  }

  /** Room `k` of the picked rooms is the room of candidate `picks[k]`, and
      every pick is a candidate index. */
  lemma {:induction false} PickedIndex(candidates: seq<Candidate>, picks: seq<nat>)
    requires Increasing(picks) && (|picks| == 0 || picks[|picks| - 1] < |candidates|)
    ensures forall k :: 0 <= k < |picks| ==>
              picks[k] < |candidates| && Picked(candidates, picks)[k] == NewRoom(candidates[picks[k]])
    decreases |picks|
  {
    if |picks| > 0 {
      var init := picks[..|picks| - 1];
      assert |init| == 0 || init[|init| - 1] < picks[|picks| - 1];
      PickedIndex(candidates, init);
      forall k | 0 <= k < |picks|
        ensures picks[k] < |candidates| && Picked(candidates, picks)[k] == NewRoom(candidates[picks[k]])
      {
        if k < |init| {
          assert picks[k] == init[k];
        }
      }
    }
  }

  /** Validation of `cand` on a grid that holds exactly the rooms `rs` stamped
      onto bare earth: every scanned cell has a cell beyond it in both
      directions and lies in none of their footprints. */
  ghost predicate FitsAmong(rs: seq<Room>, cand: Candidate, row: nat, column: nat)
  {
    forall x, y :: InScan(NewRoom(cand), x, y) ==>
      0 <= x && 0 <= y && x + 1 < column && y + 1 < row && !InSomeFootprint(rs, x, y)
  }

  /** Every candidate at an index in `[from, to)` fails validation among the rooms `rs`. */
  ghost predicate RejectedAmong(candidates: seq<Candidate>, rs: seq<Room>, from: nat, to: nat, row: nat, column: nat)
  {
    forall j :: from <= j < to && j < |candidates| ==> !FitsAmong(rs, candidates[j], row, column)
  }

  /** The rooms `laid` were chosen from the candidates at `picks` first fit
      first, on a grid of bare earth: each pick fits among the rooms before it,
      and every candidate between the previous pick and it does not. */
  ghost predicate Greedy(candidates: seq<Candidate>, picks: seq<nat>, laid: seq<Room>, row: nat, column: nat)
    decreases |picks|
  {
    |picks| == |laid| &&
    (|picks| == 0 ||
     (var n := |picks| - 1;
      Greedy(candidates, picks[..n], laid[..n], row, column) &&
      picks[n] < |candidates| &&
      FitsAmong(laid[..n], candidates[picks[n]], row, column) &&
      RejectedAmong(candidates, laid[..n], if n == 0 then 0 else picks[n - 1] + 1, picks[n], row, column)))
  }

  /** Choosing the first candidate after the last pick that fits among the
      rooms so far keeps the choice first fit. */
  lemma GreedyExtend(candidates: seq<Candidate>, picks: seq<nat>, laid: seq<Room>, pick: nat, room: Room, row: nat, column: nat)
    requires Greedy(candidates, picks, laid, row, column)
    requires pick < |candidates| && FitsAmong(laid, candidates[pick], row, column)
    requires RejectedAmong(candidates, laid, if |picks| == 0 then 0 else picks[|picks| - 1] + 1, pick, row, column)
    ensures Greedy(candidates, picks + [pick], laid + [room], row, column)
  {
    assert (picks + [pick])[..|picks|] == picks;
    assert (laid + [room])[..|laid|] == laid;
  }

  class MapGenerator {
    /** Number of rows and of columns of the grid, fixed at construction. */
    const row: nat
    const column: nat

    /** The tile grid, indexed `grid[column, row]`. */
    var grid: array2<Tile>

    /** The rooms, in creation order. */
    var rooms: seq<Room>

    /** The room list's invariant: the grid is large enough for the size bounds
        to be defined, there are never more rooms than the generator places,
        and every room fits the grid with its border. */
    ghost predicate Valid()
      reads this`rooms
    {
      MinSize <= row && MinSize <= column &&
      |rooms| <= MaxRooms(row, column) &&
      forall k :: 0 <= k < |rooms| ==> WellPlaced(rooms[k], row, column)
    }

    /** The grid has `column` columns of `row` cells each. */
    ghost predicate GridShaped()
      reads this`grid
    {
      grid.Length0 == column && grid.Length1 == row
    }

    /** A new generator: an empty grid and no rooms. */
    constructor (row: nat, column: nat)
      requires MinSize <= row && MinSize <= column
      ensures this.row == row && this.column == column
      ensures Valid() && rooms == []
      ensures grid.Length0 == 0 && grid.Length1 == 0
    {
      this.row := row;
      this.column := column;
      grid := new Tile[0, 0];
      rooms := [];
    }

    /** Ground fill: a fresh `column x row` grid of EARTH. */
    method AddGround()
      modifies this`grid
      ensures fresh(grid) && GridShaped()
      ensures forall x, y :: InBounds(x, y, row, column) ==> grid[x, y] == Earth
    {
      var ground := new Tile[column, row];
      for i := 0 to column
        invariant forall x, y :: 0 <= x < i && 0 <= y < row ==> ground[x, y] == Earth
      {
        for j := 0 to row
          invariant forall x, y :: 0 <= x < i && 0 <= y < row ==> ground[x, y] == Earth
          invariant forall y :: 0 <= y < j ==> ground[i, y] == Earth
        {
          ground[i, j] := Earth;
        }
      }
      grid := ground;
    }

    /** The per-cell test of the validation: the cell has a cell beyond it in
        both directions and holds neither WALL nor FLOOR. */
    ghost predicate CellFree(x: int, y: int)
      reads this, grid
      requires GridShaped()
    {
      0 <= x && 0 <= y && x + 1 < column && y + 1 < row &&
      grid[x, y] != Wall && grid[x, y] != Floor
    }

    /** What the validation accepts: every cell of the `width x height`
        rectangle from the candidate's origin passes the per-cell test. */
    ghost predicate Fits(cand: Candidate)
      reads this, grid
      requires GridShaped()
    {
      forall x, y :: InScan(NewRoom(cand), x, y) ==> CellFree(x, y)
    }

    /** Every candidate at an index in `[from, to)` fails validation on the current grid. */
    ghost predicate Rejected(candidates: seq<Candidate>, from: nat, to: nat)
      reads this, grid
      requires GridShaped() && to <= |candidates|
    {
      forall k :: from <= k < to ==> !Fits(candidates[k])
    }

    /** Candidate `pick` is the first from index `from` on that passes
        validation on the current grid. */
    ghost predicate FirstFit(candidates: seq<Candidate>, from: nat, pick: nat)
      reads this, grid
      requires GridShaped() && pick < |candidates|
    {
      Fits(candidates[pick]) && Rejected(candidates, from, pick)
    }

    /** Every cell holds what stamping the rooms `laid`, in order, onto bare earth leaves. */
    ghost predicate EarthStamped(laid: seq<Room>)
      reads this, grid
      requires GridShaped()
    {
      forall x, y :: InBounds(x, y, row, column) ==> grid[x, y] == Stamped(Earth, laid, x, y)
    }

    /** On a grid of rooms stamped onto bare earth, validation depends only on
        the rooms: a candidate passes exactly when its scan stays inside the
        grid and misses every footprint. */
    lemma FitsIffAmong(cand: Candidate, laid: seq<Room>)
      requires GridShaped() && EarthStamped(laid)
      ensures Fits(cand) <==> FitsAmong(laid, cand, row, column)
    {
      forall x, y | InBounds(x, y, row, column)
        ensures (grid[x, y] == Wall || grid[x, y] == Floor) <==> InSomeFootprint(laid, x, y)
      {
        StampedCovered(Earth, laid, x, y);
      }
    }

    /** On a grid of rooms stamped onto bare earth, the first candidate that
        passes validation is the first that fits among the rooms. */
    lemma FirstFitAmong(candidates: seq<Candidate>, from: nat, laid: seq<Room>)
      requires GridShaped() && EarthStamped(laid)
      ensures forall pick :: from <= pick < |candidates| && FirstFit(candidates, from, pick) ==>
                FitsAmong(laid, candidates[pick], row, column) && RejectedAmong(candidates, laid, from, pick, row, column)
    {
      forall k | 0 <= k < |candidates| ensures Fits(candidates[k]) <==> FitsAmong(laid, candidates[k], row, column)
      {
        FitsIffAmong(candidates[k], laid);
      }
    }

    /** The validation scan, cell by cell, stopping at the first cell that is
        out of bounds or taken. */
    method Intersects(cand: Candidate) returns (hasIntersect: bool)
      requires GridShaped() && 0 <= cand.column && 0 <= cand.row
      ensures hasIntersect <==> !Fits(cand)
    {
      hasIntersect := false;
      var rowNext := cand.row;
      for i := 0 to cand.height
        invariant rowNext == cand.row + i
        invariant !hasIntersect
        invariant forall x, y :: cand.column <= x < cand.column + cand.width && cand.row <= y < rowNext ==> CellFree(x, y)
      {
        var col := cand.column;
        var rw := rowNext;
        rowNext := rowNext + 1;
        for j := 0 to cand.width
          invariant col == cand.column + j
          invariant !hasIntersect
          invariant forall x :: cand.column <= x < col ==> CellFree(x, rw)
        {
          if col + 1 >= column {
            hasIntersect := true;
            assert InScan(NewRoom(cand), col, rw);
            break;
          }
          if rw + 1 >= row {
            hasIntersect := true;
            assert InScan(NewRoom(cand), col, rw);
            break;
          }
          if grid[col, rw] == Wall || grid[col, rw] == Floor {
            hasIntersect := true;
            assert InScan(NewRoom(cand), col, rw);
            break;
          }
          col := col + 1;
        }
        if hasIntersect {
          break;
        }
      }
    }

    /** A candidate of positive size that passes validation yields a room whose
        whole footprint, far wall included, lies in the grid, with its centre
        away from the grid's edges. */
    lemma AcceptedRoomWellPlaced(cand: Candidate)
      requires GridShaped() && InCorrectedRange(cand, row, column) && Fits(cand)
      ensures WellPlaced(NewRoom(cand), row, column)
    {
      assert InScan(NewRoom(cand), cand.column + cand.width - 1, cand.row + cand.height - 1);
    }

    /** As written, on a grid narrower than 9 columns the sampler may draw a
        width of 0; the scan is then empty, so validation accepts an origin in
        the last column, and the room's centre lies there too: `_addTunnelWall`
        at that centre reads column `column`, past the grid. */
    lemma EmptyRoomEscapes()
      requires GridShaped() && MinSize <= row && MinSize <= column < 9
      ensures var cand := Candidate(column - 1, 1, 0, MinRoomSize(row));
              InSampledRange(cand, row, column) && Fits(cand) &&
              NewRoom(cand).centerCol + 1 == column && !Inner(NewRoom(cand).centerCol, NewRoom(cand).centerRow, row, column)
    {
    }

    /** Stamping: WALL on the border of the footprint, FLOOR inside; no other cell changes. */
    method Stamp(rm: Room)
      requires GridShaped() && 0 <= rm.column && 0 <= rm.row
      requires rm.column + rm.width < column && rm.row + rm.height < row
      modifies grid
      ensures forall x, y :: InBounds(x, y, row, column) ==>
                grid[x, y] == if InFootprint(rm, x, y) then StampTile(rm, x, y) else old(grid[x, y])
    {
      var rowNext := rm.row;
      for i := 0 to rm.height + 1
        invariant rowNext == rm.row + i
        invariant forall x, y :: InBounds(x, y, row, column) ==>
                    grid[x, y] == if InFootprint(rm, x, y) && y < rowNext then StampTile(rm, x, y) else old(grid[x, y])
      {
        var col := rm.column;
        var rw := rowNext;
        rowNext := rowNext + 1;
        for j := 0 to rm.width + 1
          invariant col == rm.column + j
          invariant forall x, y :: InBounds(x, y, row, column) ==>
                      grid[x, y] == if InFootprint(rm, x, y) && (y < rw || (y == rw && x < col)) then StampTile(rm, x, y) else old(grid[x, y])
        {
          grid[col, rw] := Floor;
          if i == 0 || i == rm.height || j == 0 || j == rm.width {
            grid[col, rw] := Wall;
          }
          col := col + 1;
        }
      }
    }

    /** The rejection loop: candidates from index `from` on are validated in
        order until one fits. It reports the first candidate that fits, with
        `next` one past it, or that none is left, with `next` at the end. */
    method FindNonIntersecting(candidates: seq<Candidate>, from: nat) returns (found: bool, cand: Candidate, next: nat)
      requires GridShaped() && from <= |candidates|
      requires forall k :: 0 <= k < |candidates| ==> 0 <= candidates[k].column && 0 <= candidates[k].row
      ensures from <= next <= |candidates|
      ensures found ==> from < next && cand == candidates[next - 1] && Fits(cand)
      ensures !found ==> next == |candidates|
      ensures Rejected(candidates, from, if found then next - 1 else next)
    {
      cand := Candidate(0, 0, 0, 0);
      found := false;
      next := from;
      while !found
        invariant from <= next <= |candidates|
        invariant found ==> from < next && cand == candidates[next - 1] && Fits(cand)
        invariant Rejected(candidates, from, if found then next - 1 else next)
        decreases |candidates| - next, if found then 0 else 1
      {
        if next == |candidates| {
          return;
        }
        cand := candidates[next];
        next := next + 1;
        var hasIntersect := Intersects(cand);
        if !hasIntersect {
          found := true;
        }
      }
    }

    /** Every cell of the grid in the footprint of one of `laid` holds WALL or FLOOR. */
    ghost predicate Covers(laid: seq<Room>)
      reads this, grid
      requires GridShaped()
    {
      forall x, y :: InBounds(x, y, row, column) && InSomeFootprint(laid, x, y) ==> grid[x, y] in {Wall, Floor}
    }

    /** What placement keeps true of the rooms `laid` so far over the list
        `base` it started from: the list holds them over `base`, each is well
        placed, each scan missed the earlier rooms, and their footprints are
        covered on the grid. */
    ghost predicate Progress(base: seq<Room>, laid: seq<Room>)
      reads this, grid
      requires GridShaped()
    {
      Overlays(rooms, base, laid) &&
      (forall k :: 0 <= k < |laid| ==> WellPlaced(laid[k], row, column)) &&
      ScannedClear(laid) && Covers(laid)
    }

    /** Recording and stamping one validated candidate: its room, with the
        centre at origin plus half the size, becomes entry `|laid|` of the list
        (which holds `laid` over `base`), and is stamped. The placed rooms stay
        well placed, each scan still misses the earlier rooms, and their
        footprints stay covered. */
    method PlaceRoom(cand: Candidate, index: nat, ghost base: seq<Room>, ghost laid: seq<Room>)
      requires GridShaped() && index == |laid| && Progress(base, laid)
      requires InCorrectedRange(cand, row, column) && Fits(cand)
      modifies this`rooms, grid
      ensures Progress(base, laid + [NewRoom(cand)])
      ensures forall x, y :: InBounds(x, y, row, column) ==>
                grid[x, y] == if InFootprint(NewRoom(cand), x, y) then StampTile(NewRoom(cand), x, y) else old(grid[x, y])
    {
      var room := NewRoom(cand);
      AcceptedRoomWellPlaced(cand);
      RoomMissesEarlierRooms(room, laid);
      ScannedClearExtend(laid, room);
      StoreOverlays(rooms, base, laid, room);
      rooms := Store(rooms, index, room);
      Stamp(room);
      forall x, y | InBounds(x, y, row, column) && InSomeFootprint(laid + [room], x, y)
        ensures grid[x, y] in {Wall, Floor}
      {
        FootprintAppend(laid, room, x, y);
      }
    }

    /** The state of placement after the rooms `laid` were accepted from the
        candidates at indices `picks`, with the next attempt at index `next`:
        the placement invariants hold, the rooms are those candidates' in order,
        and the next attempt is the one after the last accepted candidate. */
    ghost predicate Placed(base: seq<Room>, candidates: seq<Candidate>, next: nat, laid: seq<Room>, picks: seq<nat>)
      reads this, grid
      requires GridShaped()
    {
      Progress(base, laid) && next <= |candidates| &&
      Increasing(picks) && next == (if |picks| == 0 then 0 else picks[|picks| - 1] + 1) &&
      laid == Picked(candidates, picks)
    }

    /** One pass of the placement loop: the candidates from `next` on are
        tried until one passes validation; it is recorded as the next room and
        stamped. When none passes, nothing changes. */
    method PlaceNext(candidates: seq<Candidate>, next: nat, index: nat, ghost base: seq<Room>, ghost laid: seq<Room>, ghost picks: seq<nat>)
      returns (found: bool, after: nat, ghost room: Room)
      requires GridShaped() && Placed(base, candidates, next, laid, picks) && index == |laid|
      requires forall k :: 0 <= k < |candidates| ==> InCorrectedRange(candidates[k], row, column)
      modifies this`rooms, grid
      ensures found ==> 0 < after && Placed(base, candidates, after, laid + [room], picks + [after - 1])
      ensures found ==> forall x, y :: InBounds(x, y, row, column) ==>
                grid[x, y] == if InFootprint(room, x, y) then StampTile(room, x, y) else old(grid[x, y])
      ensures found ==> old(FirstFit(candidates, next, after - 1))
      ensures !found ==> rooms == old(rooms) && unchanged(grid) && Rejected(candidates, next, |candidates|)
    {
      var cand;
      found, cand, after := FindNonIntersecting(candidates, next);
      room := NewRoom(cand);
      if !found {
        return;
      }
      PickedAppend(candidates, picks, after - 1);
      PlaceRoom(cand, index, base, laid);
    }

    /** One pass of the placement loop on a grid that holds exactly the rooms
        `laid` stamped onto bare earth: the room placed is the first candidate
        from `next` on that fits among them, so the choice stays first fit,
        and the grid again holds exactly the rooms stamped onto bare earth. */
    method PlaceGreedy(candidates: seq<Candidate>, next: nat, index: nat, ghost base: seq<Room>, ghost laid: seq<Room>, ghost picks: seq<nat>)
      returns (found: bool, after: nat, ghost room: Room)
      requires GridShaped() && Placed(base, candidates, next, laid, picks) && index == |laid|
      requires forall k :: 0 <= k < |candidates| ==> InCorrectedRange(candidates[k], row, column)
      requires EarthStamped(laid) && Greedy(candidates, picks, laid, row, column)
      modifies this`rooms, grid
      ensures found ==> 0 < after && Placed(base, candidates, after, laid + [room], picks + [after - 1])
      ensures found ==> EarthStamped(laid + [room]) && Greedy(candidates, picks + [after - 1], laid + [room], row, column)
      ensures !found ==> rooms == old(rooms) && unchanged(grid) && Rejected(candidates, next, |candidates|)
    {
      FirstFitAmong(candidates, next, laid);
      found, after, room := PlaceNext(candidates, next, index, base, laid, picks);
      if found {
        GreedyExtend(candidates, picks, laid, after - 1, room, row, column);
        forall x, y | InBounds(x, y, row, column) ensures grid[x, y] == Stamped(Earth, laid + [room], x, y)
        {
          StampedAppend(Earth, laid, room, x, y);
        }
      }
    }

    /** Room placement, on the bare-earth grid the ground fill leaves. The
        random sampling is replaced by the finite sequence `candidates`, tried
        in order; placement stops early, with fewer than MaxRooms rooms, only
        when every remaining candidate fails validation. Each accepted
        candidate is the first after the previous one to pass validation; it
        becomes room `placed` and is stamped. `picks` says which candidate
        each room came from. */
    method AddRooms(candidates: seq<Candidate>) returns (placed: nat, ghost laid: seq<Room>, ghost picks: seq<nat>)
      requires Valid() && GridShaped()
      requires forall k :: 0 <= k < |candidates| ==> InCorrectedRange(candidates[k], row, column)
      requires forall x, y :: InBounds(x, y, row, column) ==> grid[x, y] == Earth
      modifies this`rooms, grid
      ensures Valid()
      ensures placed <= MaxRooms(row, column)
      ensures |laid| == placed && Overlays(rooms, old(rooms), laid)
      ensures |picks| == placed && Increasing(picks) && (placed == 0 || picks[placed - 1] < |candidates|)
      ensures laid == Picked(candidates, picks)
      ensures ScannedClear(laid)
      ensures Greedy(candidates, picks, laid, row, column)
      ensures EarthStamped(laid)
      ensures placed < MaxRooms(row, column) ==>
                Rejected(candidates, if placed == 0 then 0 else picks[placed - 1] + 1, |candidates|)
    {
      var maxRooms := MaxRooms(row, column);
      placed, laid, picks := 0, [], [];
      var next := 0;
      while placed < maxRooms
        invariant placed <= maxRooms && |laid| == placed && |picks| == placed
        invariant Placed(old(rooms), candidates, next, laid, picks)
        invariant EarthStamped(laid) && Greedy(candidates, picks, laid, row, column)
        decreases maxRooms - placed
      {
        var found, after;
        ghost var room;
        found, after, room := PlaceGreedy(candidates, next, placed, old(rooms), laid, picks);
        if !found {
          break;
        }
        picks := picks + [after - 1];
        laid := laid + [room];
        next := after;
        placed := placed + 1;
      }
      OverlayWellPlaced(rooms, old(rooms), laid, row, column);
    }

    /** A room whose scan passed validation on a grid where the footprints of
        the earlier rooms are covered misses the footprint of each of them. */
    lemma RoomMissesEarlierRooms(room: Room, earlier: seq<Room>)
      requires GridShaped() && Covers(earlier)
      requires forall x, y :: InScan(room, x, y) ==> CellFree(x, y)
      ensures forall k :: 0 <= k < |earlier| ==> ScanAvoids(room, earlier[k])
    {
    }

    /** `_addTunnelWall`: each of the four orthogonal neighbours of `(c, r)`
        that is EARTH becomes WALL; nothing else changes. */
    method AddTunnelWall(c: int, r: int)
      requires GridShaped() && Inner(c, r, row, column)
      modifies grid
      ensures forall x, y :: InBounds(x, y, row, column) ==>
                grid[x, y] == Tunnelled(old(grid[x, y]), false, Neighbour(x, y, c, r))
    {
      if grid[c, r - 1] == Earth {
        grid[c, r - 1] := Wall;
      }
      if grid[c + 1, r] == Earth {
        grid[c + 1, r] := Wall;
      }
      if grid[c, r + 1] == Earth {
        grid[c, r + 1] := Wall;
      }
      if grid[c - 1, r] == Earth {
        grid[c - 1, r] := Wall;
      }
    }

    /** One straight run of a tunnel, from `(c0, r0)` toward `(c1, r1)`, one
        cell per step: first the wall skin around the cell, then the cell
        becomes FLOOR. */
    method CarveLeg(c0: int, r0: int, c1: int, r1: int, distance: nat)
      requires GridShaped() && Aligned(c0, r0, c1, r1) && distance == RunLength(c0, r0, c1, r1)
      requires Inner(c0, r0, row, column) && Inner(c1, r1, row, column)
      modifies grid
      ensures forall x, y :: InBounds(x, y, row, column) ==>
                grid[x, y] == Tunnelled(old(grid[x, y]), OnSegment(c0, r0, c1, r1, x, y), BesideSegment(c0, r0, c1, r1, x, y))
    {
      for j := 0 to distance + 1
        invariant forall x, y :: InBounds(x, y, row, column) ==>
                    grid[x, y] == Tunnelled(old(grid[x, y]), OnLegPrefix(c0, r0, c1, r1, j, x, y), BesideLegPrefix(c0, r0, c1, r1, j, x, y))
      {
        var x, y := Toward(c0, c1, j), Toward(r0, r1, j);
        AddTunnelWall(x, y);
        grid[x, y] := Floor;
      }
      forall x, y | InBounds(x, y, row, column)
        ensures grid[x, y] == Tunnelled(old(grid[x, y]), OnSegment(c0, r0, c1, r1, x, y), BesideSegment(c0, r0, c1, r1, x, y))
      {
        WholeLeg(c0, r0, c1, r1, x, y);
      }
    }

    /** The tunnel between two rooms: a run along A's centre row from A's
        centre column to B's, then a run along B's centre column from B's
        centre row to A's. */
    method ConnectPair(a: Room, b: Room)
      requires GridShaped()
      requires Inner(a.centerCol, a.centerRow, row, column) && Inner(b.centerCol, b.centerRow, row, column)
      modifies grid
      ensures forall x, y :: InBounds(x, y, row, column) ==>
                grid[x, y] == Tunnelled(old(grid[x, y]), OnTunnel(a, b, x, y), BesideTunnel(a, b, x, y))
    {
      var horDistance := Abs(a.centerCol - b.centerCol);
      var vertDistance := Abs(a.centerRow - b.centerRow);
      CarveLeg(a.centerCol, a.centerRow, b.centerCol, a.centerRow, horDistance);
      label across:
      CarveLeg(b.centerCol, b.centerRow, b.centerCol, a.centerRow, vertDistance);
      forall x, y | InBounds(x, y, row, column)
        ensures grid[x, y] == Tunnelled(old(grid[x, y]), OnTunnel(a, b, x, y), BesideTunnel(a, b, x, y))
      {
        var on1 := OnSegment(a.centerCol, a.centerRow, b.centerCol, a.centerRow, x, y);
        var beside1 := BesideSegment(a.centerCol, a.centerRow, b.centerCol, a.centerRow, x, y);
        var on2 := OnSegment(b.centerCol, b.centerRow, b.centerCol, a.centerRow, x, y);
        var beside2 := BesideSegment(b.centerCol, b.centerRow, b.centerCol, a.centerRow, x, y);
        assert old@across(grid[x, y]) == Tunnelled(old(grid[x, y]), on1, beside1);
        TunnelledThen(old(grid[x, y]), on1, beside1, on2, beside2);
      }
    }

    /** Room connection: each consecutive pair of rooms, in list order, is
        joined by a tunnel. */
    method AddRoomConnections()
      requires GridShaped()
      requires forall k :: 0 <= k < |rooms| ==> Inner(rooms[k].centerCol, rooms[k].centerRow, row, column)
      modifies grid
      ensures forall x, y :: InBounds(x, y, row, column) ==>
                grid[x, y] == Tunnelled(old(grid[x, y]), OnAnyTunnel(rooms, x, y), BesideAnyTunnel(rooms, x, y))
    {
      var i := 0;
      while i < |rooms|
        invariant i == 0 || i < |rooms|
        invariant forall x, y :: InBounds(x, y, row, column) ==>
                    grid[x, y] == Tunnelled(old(grid[x, y]), Carved(rooms, i, x, y), BesideCarved(rooms, i, x, y))
      {
        if i + 1 >= |rooms| {
          break;
        }
        label before:
        ConnectPair(rooms[i], rooms[i + 1]);
        forall x, y | InBounds(x, y, row, column)
          ensures grid[x, y] == Tunnelled(old(grid[x, y]), Carved(rooms, i + 1, x, y), BesideCarved(rooms, i + 1, x, y))
        {
          var on, beside := Carved(rooms, i, x, y), BesideCarved(rooms, i, x, y);
          assert old@before(grid[x, y]) == Tunnelled(old(grid[x, y]), on, beside);
          TunnelledThen(old(grid[x, y]), on, beside, OnTunnel(rooms[i], rooms[i + 1], x, y), BesideTunnel(rooms[i], rooms[i + 1], x, y));
          CarvedStep(rooms, i, x, y);
        }
        i := i + 1;
      }
      forall x, y | InBounds(x, y, row, column)
        ensures grid[x, y] == Tunnelled(old(grid[x, y]), OnAnyTunnel(rooms, x, y), BesideAnyTunnel(rooms, x, y))
      {
        AllCarved(rooms, i, x, y);
      }
    }

    /** The three phases in order. It reports `complete` when MaxRooms rooms
        were placed and connected; when every remaining candidate fails
        validation first, it stops after placement, without connecting.
        `picks` says which candidates became the new rooms. */
    method CreateNewMap(candidates: seq<Candidate>) returns (complete: bool, ghost picks: seq<nat>)
      requires Valid()
      requires forall k :: 0 <= k < |candidates| ==> InCorrectedRange(candidates[k], row, column)
      modifies this
      ensures Valid() && GridShaped() && fresh(grid)
      ensures Increasing(picks) && (|picks| == 0 || picks[|picks| - 1] < |candidates|)
      ensures complete <==> |picks| == MaxRooms(row, column)
      ensures Overlays(rooms, old(rooms), Picked(candidates, picks))
      ensures ScannedClear(Picked(candidates, picks))
      ensures Greedy(candidates, picks, Picked(candidates, picks), row, column)
      ensures complete ==> rooms == Picked(candidates, picks)
      ensures !complete ==> Rejected(candidates, if |picks| == 0 then 0 else picks[|picks| - 1] + 1, |candidates|)
      ensures !complete ==> forall x, y :: InBounds(x, y, row, column) ==> grid[x, y] == RoomsTile(Picked(candidates, picks), x, y)
      ensures complete ==> forall x, y :: InBounds(x, y, row, column) ==>
                grid[x, y] == Tunnelled(RoomsTile(rooms, x, y), OnAnyTunnel(rooms, x, y), BesideAnyTunnel(rooms, x, y))
      ensures complete ==> RouteOpen()
    {
      AddGround();
      var placed;
      ghost var laid;
      placed, laid, picks := AddRooms(candidates);
      complete := placed == MaxRooms(row, column);
      forall k | 0 <= k < |laid| ensures 1 <= laid[k].width && 1 <= laid[k].height
      {
        assert WellPlaced(rooms[k], row, column);
      }
      forall x, y | InBounds(x, y, row, column) ensures grid[x, y] == RoomsTile(laid, x, y)
      {
        StampedIsRoomsTile(laid, x, y);
      }
      if complete {
        assert |rooms| == placed;
        assert laid == rooms;
        forall k | 0 <= k < |rooms| ensures Inner(rooms[k].centerCol, rooms[k].centerRow, row, column)
        {
          CentreOfWellPlaced(rooms[k], row, column);
        }
        AddRoomConnections();
        RouteIsFloor();
      }
    }

    /** There are at least two rooms, and the route from the first room's
        centre to the last one's stays in the grid and on FLOOR. */
    ghost predicate RouteOpen()
      reads this, grid
      requires GridShaped()
    {
      2 <= |rooms| &&
      forall c :: c in Route(rooms, |rooms| - 1) ==> InBounds(c.col, c.row, row, column) && grid[c.col, c.row] == Floor
    }

    /** Once every tunnel is carved, the route from the first room's centre to
        the last one's runs over FLOOR cells of the grid only. */
    lemma RouteIsFloor()
      requires GridShaped() && 2 <= |rooms|
      requires forall k :: 0 <= k < |rooms| ==> Inner(rooms[k].centerCol, rooms[k].centerRow, row, column)
      requires forall x, y :: InBounds(x, y, row, column) ==>
                 grid[x, y] == Tunnelled(RoomsTile(rooms, x, y), OnAnyTunnel(rooms, x, y), BesideAnyTunnel(rooms, x, y))
      ensures RouteOpen()
    {
      var route := Route(rooms, |rooms| - 1);
      forall c | c in route
        ensures InBounds(c.col, c.row, row, column) && grid[c.col, c.row] == Floor
      {
        assert OnAnyTunnel(rooms, c.col, c.row);
        AnyTunnelInner(rooms, c.col, c.row, row, column);
        assert InBounds(c.col, c.row, row, column);
      }
    }
  }
}
