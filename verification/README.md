# Dungeon map generator

A model, in Dafny, of the map-building core of a browser dungeon generator
(`MapGenerator` in `js/MapGenerator.js`). The generator owns a tile grid
indexed `[column][row]` and an ordered list of rooms, and fills them in three
phases that `createNewMap` runs in order:

1. **Ground fill**: a fresh `column x row` grid of EARTH.
2. **Room placement**:
   - The phase derives size bounds and a room count with integer floors.
   - It draws candidate rooms and validates each one cell by cell. A candidate passes when every scanned cell is inside the grid with a cell beyond it and holds neither WALL nor FLOOR.
   - It records each accepted room with its floored centre.
   - It stamps the room: WALL on the border, FLOOR inside.
3. **Room connection**: for each consecutive pair of rooms, the phase carves an L-shaped FLOOR tunnel between their centres. Each tunnel cell's EARTH neighbours become WALL.

The model has three modules:

- **`Geometry`** (`geometry.dfy`):
  - the values: tiles, rooms, candidates, cells;
  - the size arithmetic;
  - the footprint, interior and scanned rectangles of a room;
  - `Stamped`, a per-cell closed form of stamping rooms one after the other.
- **`Tunnels`** (`tunnels.dfy`):
  - the straight runs and L-shaped tunnels;
  - `Tunnelled`, the per-cell effect of carving;
  - the orthogonal route that the tunnels open from the first room's centre to the last one's.
- **`MapGen`** (`map_generator.dfy`): the class `MapGenerator`.
  - Its `grid` is an `array2<Tile>` that the methods update in place, and `rooms` is a `seq<Room>`.
  - Each phase is a method proved against those closed forms.

The validation loop draws a new candidate until one passes, with no limit on the number of attempts. The model replaces the random draws with a finite sequence of candidates, tried in order, and stops when it runs out. So placement stops early only when every remaining candidate fails validation. `CreateNewMap` then reports `complete == false` and does not connect the rooms.

Where the generator's documented intent and its code disagree, the model follows the code:

- **Room footprints can overlap.** The comments of `_addRooms` promise a room that does not intersect any existing room: the validation is described as "a room validation for no intersection" (js/MapGenerator.js:149-155), and the accepted room as "a validated non-intersecting room" (js/MapGenerator.js:220). The validation, however, scans only the `width x height` cells from the origin. The stamp writes `(width + 1) x (height + 1)` cells, so a new room's far wall can land on an earlier room's wall. `FarWallOverlapExample` shows this. What is proved instead:
  - a new room's scan misses every earlier footprint (`ScannedClear`);
  - overlapping cells are therefore border cells of both rooms, which get the same tile (`StampsAgreeOnOverlap`);
  - so the final grid does not depend on stamping order (`StampedIsRoomsTile`).

## Model

| member | source | states |
|---|---|---|
| Geometry.MinRoomSize | js/MapGenerator.js:135-137 | `floor(floor(n / 3) / 3)` is `floor(n / 9)`: nine times it is at most `n`, and nine times one more exceeds `n` |
| Geometry.MaxRoomSize | js/MapGenerator.js:136-138 | three times `floor(n / 3)` is at most `n`; on a dimension of at least 3 it is at least 1 and above the smallest size, so the range the sampler draws sizes from is never empty |
| Geometry.MaxRooms | js/MapGenerator.js:139 | the room count `floor(row*column / (maxRoomWidth*maxRoomHeight))` lies between 9 and 25 for every grid of at least 3 x 3, so its divisor is never zero |
| Geometry.NewRoom | js/MapGenerator.js:206-218 | the recorded room keeps the sampled origin and size, and its centre is `floor(origin + size * 0.5)`: twice the centre's offset from the origin is the size or one less |
| Geometry.InSampledRange | js/MapGenerator.js:157-163 | the origins the sampler draws lie in `[1, dimension - 1]` and the sizes are at least the smallest size |
| Geometry.CentreOfWellPlaced | js/MapGenerator.js:207-208 | the floored centre of a room of positive size that fits the grid lies in its own scanned rectangle and at least one cell from every edge |
| Geometry.StampsAgreeOnOverlap | js/MapGenerator.js:170-199 | when a non-empty room's scan missed another room's footprint, every cell in both footprints is a border cell of both, and both stamps give it WALL |
| Geometry.StampedAppend | js/MapGenerator.js:223-240 | stamping one more room changes exactly the cells of its footprint, to its own border/interior tiles |
| Geometry.StampedCovered | js/MapGenerator.js:223-240 | after stamping, a cell in some room's footprint holds WALL or FLOOR, and a cell in none keeps its tile |
| Geometry.Stamped | js/MapGenerator.js:142-243 | after the rooms are stamped in order, a cell holds the stamp tile of the last room whose footprint covers it, or its old tile when none does |
| Geometry.ScannedClearExtend | js/MapGenerator.js:170-203 | a room whose scan misses every earlier room keeps the property "each scan missed all earlier rooms" for the longer list |
| Geometry.StampedIsRoomsTile | js/MapGenerator.js:223-242 | rooms of positive size whose scans each missed the earlier rooms stamp EARTH into FLOOR inside any room, WALL on any border inside no room, and EARTH elsewhere, regardless of order |
| Geometry.FarWallOverlapExample | js/MapGenerator.js:170-199 | two concrete rooms where the second one's scan misses the first one's footprint, yet their footprints share a cell |
| Tunnels.LegPrefixSegment | js/MapGenerator.js:266-290 | the first `n` cells a run visits, stepping toward its end, are the segment from its start to its `(n-1)`-th cell; all `distance + 1` of them are the whole segment |
| Tunnels.WholeLeg | js/MapGenerator.js:266-290 | after the whole run, its cells and their four-neighbour skin are exactly those of the segment |
| Tunnels.AnyTunnelInner | js/MapGenerator.js:299-315 | with every room centre away from the edges, every tunnel cell is too, so the four `_addTunnelWall` reads are in the grid |
| Tunnels.CarvedPairs | js/MapGenerator.js:249-255 | the first `n` loop rounds carve exactly the tunnels of the pairs `(k, k+1)` with `k < n` |
| Tunnels.AllCarved | js/MapGenerator.js:249-255 | when the loop stops at the last room, the carved cells and their skin are those of all `n - 1` consecutive pairs |
| Tunnels.Tunnelled | js/MapGenerator.js:297-317 | carving makes a cell FLOOR exactly when it is on a tunnel or was FLOOR, leaves it EARTH exactly when it was EARTH and is neither on nor beside a tunnel, and otherwise changes only EARTH to WALL |
| Tunnels.TunnelledThen | js/MapGenerator.js:264-293 | carving one set of cells and then another equals carving both at once |
| Tunnels.CarvedStep | js/MapGenerator.js:249-255 | one more loop round adds exactly the next pair's tunnel and skin |
| Tunnels.Walk | js/MapGenerator.js:266-290 | the cells of a run, in carving order, form an orthogonal path from its start to its end that stays on the segment and has `distance + 1` cells |
| Tunnels.TunnelRoute | js/MapGenerator.js:257-293 | the two legs share the corner `(B.centerCol, A.centerRow)` and join into an orthogonal path from A's centre to B's that runs only over tunnel cells |
| Tunnels.TunnelRouteCarved | js/MapGenerator.js:254-293 | every cell of the route between rooms `i` and `i+1` lies on some tunnel |
| Tunnels.Route | js/MapGenerator.js:249-293 | consecutive tunnels join into an orthogonal path from room 0's centre to room `n`'s that runs only over tunnel cells |
| MapGen.Store | js/MapGenerator.js:211-218 | the assignment `rooms[k] = rm` puts `rm` at index `k`, keeps every other entry, and grows the list by one exactly when `k` is its length |
| MapGen.StoreOverlays | js/MapGenerator.js:211-218 | writing `rooms[k]` at the next index overwrites or appends, so the list holds the rooms placed so far over what it held before |
| MapGen.OverlayWellPlaced | js/MapGenerator.js:211-218 | overlaying well-placed rooms on well-placed rooms leaves only well-placed rooms |
| MapGen.IncreasingOrdered | js/MapGenerator.js:156-204 | the candidates the rooms come from are used in order and each at most once |
| MapGen.PickedAppend | js/MapGenerator.js:207-218 | accepting a candidate at a later index appends its room, origin and size as drawn, centre floored |
| MapGen.PickedIndex | js/MapGenerator.js:207-218 | room `k` of the placed rooms is the room of candidate `picks[k]`, and every pick is a candidate index |
| MapGen.MapGenerator.constructor | js/MapGenerator.js:30-50 | a new generator keeps its row and column counts and starts with no rooms and an empty grid |
| MapGen.MapGenerator.AddGround | js/MapGenerator.js:118-130 | the grid is a fresh array of `column` columns of `row` cells, every cell EARTH |
| MapGen.MapGenerator.CellFree | js/MapGenerator.js:176-190 | the per-cell test: the cell has a cell beyond it in both directions and holds neither WALL nor FLOOR |
| MapGen.MapGenerator.Fits | js/MapGenerator.js:169-199 | validation accepts a candidate when every cell of the `width x height` rectangle from its origin passes the per-cell test |
| MapGen.MapGenerator.Rejected | js/MapGenerator.js:156-204 | every candidate in an index range fails validation on the current grid |
| MapGen.MapGenerator.FirstFit | js/MapGenerator.js:156-204 | a candidate is the first from an index on to pass validation on the current grid: it passes, and every one before it fails |
| MapGen.FitsAmong | js/MapGenerator.js:169-199 | validation stated against a list of rooms instead of a grid: every cell of the `width x height` scan has a cell beyond it and lies outside every room's footprint |
| MapGen.RejectedAmong | js/MapGenerator.js:156-204 | every candidate in an index range fails validation against a list of rooms |
| MapGen.Greedy | js/MapGenerator.js:142-244 | the rule of the placement loop: each accepted candidate passes validation against the rooms accepted before it, and every candidate between the previous accepted one and it fails validation against those same rooms |
| MapGen.GreedyExtend | js/MapGenerator.js:142-244 | accepting the first candidate after the last pick that passes validation against the rooms so far keeps the placement greedy |
| MapGen.MapGenerator.EarthStamped | js/MapGenerator.js:223-240 | every cell holds the tile the last of the given rooms stamped over it, or EARTH |
| MapGen.MapGenerator.FitsIffAmong | js/MapGenerator.js:169-199 | on a grid that holds exactly the given rooms stamped onto bare earth, validation on the grid accepts a candidate if and only if it passes validation against the rooms |
| MapGen.MapGenerator.FirstFitAmong | js/MapGenerator.js:156-204 | on such a grid, the first candidate from an index on to pass validation on the grid passes against the rooms, and every candidate before it fails against them |
| MapGen.MapGenerator.Intersects | js/MapGenerator.js:165-199 | the scan reports an intersection exactly when some cell of the `width x height` rectangle from the origin has no cell beyond it in the grid or holds WALL or FLOOR |
| MapGen.MapGenerator.AcceptedRoomWellPlaced | js/MapGenerator.js:170-208 | a candidate of positive size that passes validation gives a room whose whole footprint, far wall included, is in the grid |
| MapGen.MapGenerator.EmptyRoomEscapes | js/MapGenerator.js:135-208 | on a grid narrower than 9 columns, a width-0 candidate in the last column is in the sampled range and passes validation, and its centre is on the last column |
| MapGen.MapGenerator.Stamp | js/MapGenerator.js:223-240 | each footprint cell becomes WALL on the border (`i == 0`, `i == h`, `j == 0`, `j == w`) and FLOOR inside; every other cell is unchanged |
| MapGen.MapGenerator.FindNonIntersecting | js/MapGenerator.js:156-204 | the retry loop returns the first candidate from `from` on that passes validation, every candidate it skipped failed validation, and when it reports none left, every candidate from `from` to the end failed |
| MapGen.MapGenerator.RoomMissesEarlierRooms | js/MapGenerator.js:170-203 | when every earlier footprint holds WALL or FLOOR, a room that passed validation has a scan that misses each earlier footprint |
| MapGen.MapGenerator.PlaceRoom | js/MapGenerator.js:207-240 | the room is stored at index `|laid|` and stamped, changing only its footprint; the placed rooms stay well placed, scan-clear and covered |
| MapGen.MapGenerator.PlaceNext | js/MapGenerator.js:147-240 | one outer-loop round places, as the next room, the candidate that is the first from `next` on to pass validation on the grid as it was: it passed and every candidate before it failed. When every remaining candidate fails, it changes nothing |
| MapGen.MapGenerator.PlaceGreedy | js/MapGenerator.js:147-240 | on a grid that holds exactly the rooms placed so far stamped onto bare earth, one outer-loop round accepts the first candidate after the last pick that passes validation against those rooms, so the placement stays greedy, and the grid again holds exactly the rooms stamped onto bare earth |
| MapGen.MapGenerator.AddRooms | js/MapGenerator.js:132-244 | at most MaxRooms rooms are placed, and fewer only when every candidate after the last accepted one fails validation on the final grid. They are the rooms of the accepted candidates in order, stored from index 0 over the old list. The choice is greedy: each accepted candidate passed validation against the rooms before it, and every candidate skipped since the previous one failed against those same rooms. Each cell holds the tile the last room stamped over it, or EARTH |
| MapGen.MapGenerator.AddTunnelWall | js/MapGenerator.js:297-317 | each of the four orthogonal neighbours that is EARTH becomes WALL; no other cell changes |
| MapGen.MapGenerator.CarveLeg | js/MapGenerator.js:264-293 | one straight run: every cell of the segment becomes FLOOR, every EARTH neighbour of it becomes WALL, nothing else changes |
| MapGen.MapGenerator.ConnectPair | js/MapGenerator.js:254-293 | the horizontal leg from A's centre column to B's along A's centre row, then the vertical leg from B's centre row to A's along B's centre column, carve exactly their tunnel and its skin |
| MapGen.MapGenerator.AddRoomConnections | js/MapGenerator.js:246-295 | every cell ends as carving the tunnels of all consecutive pairs makes it, and only `n - 1` pairs are connected |
| MapGen.MapGenerator.CreateNewMap | js/MapGenerator.js:57-61 | the rooms are those of the accepted candidates, in order, over the old list, and each accepted room's scan missed every earlier room's footprint. The candidates that become rooms are exactly the greedy choice: each one is the first after the previous accepted one to pass validation against the rooms before it. A run is complete exactly when MaxRooms rooms were placed; then every cell is the stamped rooms' tile carved by all tunnels, and the route from the first room's centre to the last one's is FLOOR. Otherwise every candidate after the last accepted one fails validation, and every cell is the stamped rooms' tile |
| MapGen.MapGenerator.RouteIsFloor | js/MapGenerator.js:246-295 | once every tunnel is carved over the stamped rooms, the route between the first and the last room centres lies in the grid and every cell of it is FLOOR |

## Findings

| source | as written | input that shows it | evidently intended | confidence | as-written member | corrected member |
|---|---|---|---|---|---|---|
| js/MapGenerator.js:135-208 | `minRoomWidth = floor(column / 3 / 3)` is 0 on grids narrower than 9 columns, so the sampler can draw a width of 0. The scan loop is then empty and accepts any origin, including the last column, and the room's centre is on that column | `column = 8`, candidate origin `(7, 1)`, width 0: accepted, centre column 7, so `_addTunnelWall(7, r)` reads `map[8]`, past the grid | rooms of width and height at least 1, so every accepted room's centre is at least one cell from every edge | not executed | MapGen.MapGenerator.EmptyRoomEscapes | MapGen.MapGenerator.AcceptedRoomWellPlaced |

The rest of the model uses the corrected range, `Geometry.InCorrectedRange`: the sampled ranges plus width and height at least 1. Under it, every accepted room is well placed, and all tunnel-wall accesses are in bounds.

## Left out

- `draw`, `clear` and `_setCanvas`, and the canvas set-up in the constructor, are left out: they are canvas and DOM output. So are `tileWidth` and `tileHeight`, which only they use, and the DOOR and PATH tiles, which only `draw` mentions and the source never defines.
- `console.log(maxRooms)` is left out because it is output only.
- `monsters` is left out because it is never used.
- `Math.random` sampling is replaced by a finite candidate sequence. Its origin and size ranges are a precondition: origins in `[1, dimension - 1]`, sizes at least the minimum and at least 1. The sampler's exclusive upper size bound is not required, so every result holds for any larger size too. On grids of 3 to 5 columns (or rows), `minRoomWidth` is 0 and `maxRoomWidth` is 1, so the sampler can draw only width (or height) 0; the range with sizes at least 1 then describes no run of the source, and only `EmptyRoomEscapes` speaks about such grids.
- The unbounded rejection loop is modelled as a walk over the finite candidates. Its termination by random success is not modelled.
- MapGen.MapGenerator.AddRooms: promises at most MaxRooms rooms rather than exactly MaxRooms, because the candidate sequence may run out before MaxRooms rooms are placed. `CreateNewMap` then reports `complete == false` and does not connect the rooms, whereas the source would keep sampling.
- MapGen.MapGenerator.AddRooms: requires a grid of bare EARTH. That is how `_addGround` leaves it at the only call site, in `createNewMap` (js/MapGenerator.js:57-61); a second call on a grid that already holds rooms is not modelled.
- Grids with fewer than 3 rows or columns are excluded by the constructor's precondition: in the source they make the room count a division by zero.
- JavaScript numbers are modelled as unbounded integers. Every value stays far below 2^53.
- `Math.floor(x + w * 0.5)` is modelled as `x + w / 2` on non-negative integers. For these values the two are equal.
- Reads and writes outside the grid are left out. The source's out-of-range accesses arise only from zero-size rooms (see Findings), and the model excludes those.
- The stray global `hasDoor = false` is left out because nothing reads it.
- The post-increment of `randomRow` after the room is recorded is folded into the stamp loop's row counter. It has no other effect.
- The grid field is named `grid` rather than `map`, because `map` is a Dafny keyword.
