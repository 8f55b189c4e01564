# WorldMenu deployment menu, modelled in Dafny

This project models the deployment menu of the strategy game's overworld: the
`WorldMenu` class in `src/game/gui/WorldMenu.java`. The menu is a 5 x 5 grid of
options shown as an isometric diamond. It has four jobs:

- **Quota table.** Built once from the attacking region's unit storage minus the
  units already chosen for deployment.
- **Grid population.** Filled once: option index `i * 5 + j` doubles as the
  quota entry `factionSlot * 8 + unitSlot`. A cell receives a unit request only
  when that entry still has units left.
- **Cursor.** The selection moves left/right/up/down. Each move is a raw step,
  then at most one correction (a diagonal one for a horizontal move, a
  single-axis one for a vertical move), and is rejected when the target is off
  the grid or invisible.
- **Rendering.** The grid is drawn back to front, one anti-diagonal
  (`z = x + y`) at a time, with running screen offsets.

Modules, one file each:

- `geometry.dfy` (`Geometry`): cell bounds, the isometric row and column of a
  cell, Java's truncating `/` and `%` (`JavaDiv`, `JavaRem`), and the option
  index (`Encode`/`Decode`).
- `navigation.dfy` (`Navigation`): the cursor rules as pure functions, with
  their geometric meaning, undo properties and key-sequence replay.
- `deployment.dfy` (`Deployment`): the quota table, the placement rule of the
  grid population, and how many units the grid ends up holding.
- `rendering.dfy` (`Rendering`): the layers of a tile image, the sweep order,
  and the screen offsets as sums of equal steps.
- `world_menu.dfy` (`Menu`): class `WorldMenu`.
  - The selection is two mutable fields; the grid is two `array2` fields; the
    quota table is an `array<int>`.
  - The constructor and `NewDeployMenu` fill the arrays with loops. The two move
    methods update the selection in place.
  - `Draw` runs the nested sweep loops. The inner loop over one anti-diagonal is
    the method `DrawRow`.
  - Each method is proved against the pure functions of the other modules.

Outside collaborators are parameters of the constructor, because their code is
not part of this model:

- whether a tile is invisible or a building, and whether a unit is a placeholder;
- the controller's faction type;
- the region's unit storage;
- the tile drawing constants.

A unit request `controller.newUnit(f, u, x, y)` is recorded as the value
`Unit(f, u, x, y)`. `draw` returns the sequence of tiles it blits: cell, screen
offset and image layers. The offsets are the Java running sums
`drawX -= tileSideOffset` and `tileDrawX += 2 * tileSideOffset`, written as
`Steps` (repeated addition); `ScreenOffsetsByColumnAndRow` relates them to
multiplication.

Behaviour worth knowing:

- **Up-move correction.** When `x > y` after the raw step, the up-move correction
  raises `y`, and when `y > x` it raises `x`; either way the target moves one
  screen column toward the diagonal `x == y` (`VerticalCorrection`).
- **Cells on the diagonal.** A raw vertical target with `x == y` gets no
  correction. Instead, the unchanged target is tested again and the move is
  rejected.
- **Sweep range.** The sweep runs `z` from 0 to `2 * size - 1`. That is one
  anti-diagonal more than the grid has cells on (`SweepCoversGrid`), so the last
  row visits only out-of-range pairs.
- **Saved option index.** `lastOption` is not validated. Any int is decoded with
  Java's truncating division and remainder, so a saved index outside `[0, 25)`
  leaves the selection outside the grid (`DecodeInBounds`).

## Model

| member | source | states |
|---|---|---|
| Geometry.JavaDiv | src/game/gui/WorldMenu.java:59 | Java's `/` for a positive divisor rounds toward zero: the remainder lies in `[0, b)` for a non-negative dividend and in `(-b, 0]` for a negative one |
| Geometry.JavaRem | src/game/gui/WorldMenu.java:60 | Java's `%` completes the division identity `b * (a / b) + a % b == a`, and its sign follows the dividend |
| Geometry.EncodeDecode | src/game/gui/WorldMenu.java:59-60 | restoring a saved option and reading it back with `getHexOption` gives the same index, for every int |
| Geometry.DecodeInBounds | src/game/gui/WorldMenu.java:59-60 | a restored option selects a cell of the grid exactly when it lies in `[0, 25)` |
| Geometry.DecodeEncode | src/game/gui/WorldMenu.java:200-203 | the index of a cell of the grid restores that same cell |
| Navigation.HorizontalStep | src/game/gui/WorldMenu.java:238-251 | the parity-keyed raw step moves exactly one screen column right (left), and half a row down from an even column or up from an odd one |
| Navigation.HorizontalCorrection | src/game/gui/WorldMenu.java:255-271 | the diagonal nudge keeps the screen column; it moves a whole row down while its key (the target's `y` on a right move, its `x` on a left move, whatever the raw step changed) is below `size`, else a whole row up |
| Navigation.MoveHorizontal | src/game/gui/WorldMenu.java:231-281 | the selection either stays, or moves onto a usable cell exactly one screen column over; a usable raw target is taken as is; otherwise a usable correction of it is taken exactly; the selection stays exactly when neither the raw target nor its correction is usable |
| Navigation.VerticalStep | src/game/gui/WorldMenu.java:294-300 | the raw vertical step keeps the screen column and moves one whole row |
| Navigation.VerticalCorrection | src/game/gui/WorldMenu.java:304-313 | off the diagonal the correction moves half a row back and exactly one screen column toward the line `x == y`, from either side; on the diagonal it changes nothing |
| Navigation.MoveVertical | src/game/gui/WorldMenu.java:289-323 | the selection either stays, or moves onto a usable cell strictly lower (down) or higher (up) on screen; a usable raw target is taken as is; otherwise a usable correction of it is taken exactly; the selection stays exactly when neither the raw target nor its correction is usable |
| Navigation.HorizontalStepUndo | src/game/gui/WorldMenu.java:238-251 | a raw step right followed by a raw step left (or the reverse) returns to the start |
| Navigation.MoveHorizontalUndo | src/game/gui/WorldMenu.java:231-281 | when a horizontal move needed no correction, the opposite move brings the selection back |
| Navigation.MoveVerticalUndo | src/game/gui/WorldMenu.java:289-323 | when a vertical move needed no correction, the opposite move brings the selection back |
| Navigation.Press | src/game/gui/WorldMenu.java:231-323 | one key press keeps the selection inside the grid, and on a usable cell when it started on one |
| Navigation.ReplayKeepsSelectionUsable | src/game/gui/WorldMenu.java:231-323 | after any sequence of key presses, a selection that started on a usable cell is still on one |
| Navigation.CentreMoveRight | src/game/gui/WorldMenu.java:238-245 | from the centre (2, 2) a right move goes to (2, 3) with no correction |
| Navigation.EdgeMoveDown | src/game/gui/WorldMenu.java:294-313 | from the edge cell (0, 4) a down move overshoots to (1, 5) and is corrected to (1, 4) |
| Deployment.Remaining | src/game/gui/WorldMenu.java:65-68 | the quota table has 24 entries, each the units available minus those already deployed, positive exactly when more are available than deployed |
| Deployment.SlotIndexRoundTrip | src/game/gui/WorldMenu.java:333-335 | splitting a quota entry into `t / 8` and `t % 8` gives a valid (faction slot, unit kind) pair that indexes the same entry |
| Deployment.Placement | src/game/gui/WorldMenu.java:330-337 | a cell receives a unit exactly when its option index is below 24 with a positive quota; the unit is requested for that cell, with faction slot 1..3 and unit kind 0..7 naming that very quota entry |
| Deployment.PlacementOfType | src/game/gui/WorldMenu.java:330-337 | every unit type with units left is requested in exactly one cell, the one its index decodes to, as `newUnit(t / 8 + 1, t % 8, t / 5, t % 5)` |
| Deployment.PlacedMatchesPositive | src/game/gui/WorldMenu.java:330-337 | over the first `n` option indices, the cells that receive a unit are as many as the positive quota entries |
| Deployment.PlacedCount | src/game/gui/WorldMenu.java:330-337 | the populated grid holds one unit per quota entry with units left, never more than 24 |
| Rendering.OverlayFor | src/game/gui/WorldMenu.java:167-178 | a building is drawn with the selection flag; a unit is highlighted exactly when it is a placeholder or selected; an empty cell gets no overlay |
| Rendering.DrawnBeforeStrictTotal | src/game/gui/WorldMenu.java:110-133 | the sweep order (anti-diagonal, then position along it) is a strict total order on cells |
| Rendering.ScreenOffsetsByColumnAndRow | src/game/gui/WorldMenu.java:103-137 | the accumulated x offset is the start plus the screen column times the side offset; the y offset is the start plus the row times the row step |
| Rendering.DistinctCellsDistinctOffsets | src/game/gui/WorldMenu.java:103-137 | with non-zero tile offsets, two different cells are never drawn at the same screen position |
| Rendering.SweepCoversGrid | src/game/gui/WorldMenu.java:110-116 | every cell of the grid is visited, as pair `y` of anti-diagonal `x + y`, and that anti-diagonal is below `2 * size - 1` |
| Menu.WorldMenu.constructor | src/game/gui/WorldMenu.java:51-70 | the new menu has the quota table of its inputs and a fully populated grid; its selection is the decoded `lastOption`, and `getHexOption` returns `lastOption` |
| Menu.WorldMenu.CanAddUnit | src/game/gui/WorldMenu.java:81-86 | another unit of a (faction slot, unit kind) may be deployed exactly when the region holds more of them than are already deployed |
| Menu.WorldMenu.NewDeployMenu | src/game/gui/WorldMenu.java:328-338 | after the row-major fill, every cell holds its own tile marker and exactly the unit the placement rule gives it |
| Menu.WorldMenu.GetHexOption | src/game/gui/WorldMenu.java:200-203 | for a selection inside the grid the option index lies in `[0, 25)` and restores that selection |
| Menu.WorldMenu.GetSelectedTile | src/game/gui/WorldMenu.java:210-213 | the selected tile is the marker created for the selected cell |
| Menu.WorldMenu.GetSelectedUnit | src/game/gui/WorldMenu.java:220-223 | the selected unit is the placement rule's unit for the selected cell: present exactly when the cell's index is a quota entry with units left, and then requested for that cell as `newUnit(index / 8 + 1, index % 8, x, y)` |
| Menu.WorldMenu.Blocked | src/game/gui/WorldMenu.java:253-254 | the guard of both moves holds exactly when the candidate cell is not usable (off the grid or invisible) |
| Menu.WorldMenu.MoveSelectHorizontal | src/game/gui/WorldMenu.java:231-281 | the new selection is `MoveHorizontal` of the old one |
| Menu.WorldMenu.MoveSelectVertical | src/game/gui/WorldMenu.java:289-323 | the new selection is `MoveVertical` of the old one |
| Menu.WorldMenu.DrawTileShows | src/game/gui/WorldMenu.java:162-193 | the image `DrawTile` composes for a cell (`drawTile`) carries the controller's faction type and is selected exactly at the cursor; it shows a building exactly on building tiles, with the selection flag; it shows a unit exactly on non-building cells whose entry has units left, highlighted when selected or a placeholder |
| Menu.WorldMenu.DrawSelectedTile | src/game/gui/WorldMenu.java:148-151 | the selected tile's image is its `drawTile` image: drawn selected, showing a building (flagged) exactly on a building tile and otherwise the cell's unit (highlighted) exactly when its entry has units left |
| Menu.WorldMenu.SweepStep | src/game/gui/WorldMenu.java:116-133 | visiting one pair of an anti-diagonal keeps the sweep invariant: the commands so far are exactly the usable cells swept so far, in order |
| Menu.WorldMenu.DrawStep | src/game/gui/WorldMenu.java:118-128 | the tile `draw` blits for a usable pair, at the running offsets, is that cell's command; an unusable pair is skipped |
| Menu.WorldMenu.SweepNextRow | src/game/gui/WorldMenu.java:135-137 | finishing anti-diagonal `z` is starting anti-diagonal `z + 1` |
| Menu.WorldMenu.DrawRow | src/game/gui/WorldMenu.java:111-133 | one anti-diagonal of the sweep extends the drawn tiles by exactly its usable cells, in order, at offsets two side offsets apart |
| Menu.WorldMenu.Draw | src/game/gui/WorldMenu.java:93-141 | every usable cell is drawn exactly once and nothing else is, back to front, each with its `drawTile` image at its sweep offsets |

## Left out

- Image work is not modelled:
  - the background blit and the `BufferedImage`/`Graphics2D` calls;
  - the sprite anchoring (`extraWidth`, `extraHeight`);
  - the quarter-tile canvas margin in `drawTile`.

  `Draw` returns the tiles it would blit, at the offsets before anchoring. A
  tile image is its layers.
- The `Tile` class and its constants `DRAW_WIDTH`, `DRAW_HEIGHT` and
  `DRAW_SIDE_OFFSET` are not part of this model. They are a `Metrics` parameter.
- `BlockTile`, `Building`, `Unit`, `Faction` and `Region` are not part of this
  model.
  - `isInvisible`, `isBuilding` and `isPlaceholder` are function parameters.
  - `getFactionType` is an int parameter.
  - `getUnitStorage` is an array parameter.
  - `newUnit` is recorded as a `Unit` value.
  - The `regionMap` and `background` fields are dropped. They are used only by
    the constructor's `getController` call and the background blit, both outside
    the model.
- `drawTile`'s building branch casts the cell's tile to `Building`
  (`src/game/gui/WorldMenu.java:168`). Every tile the menu creates is a plain
  `new BlockTile(null, i, j)` (`:332`), so the model assumes the cast succeeds
  whenever `isBuilding` holds and renders a building image. `BlockTile` is not
  part of this model, so whether that branch is reachable, or throws
  `ClassCastException`, is not decided here; with the markers the menu creates,
  `isBuilding` is expected to be false.
- Java's 32-bit `int` overflow is not modelled: integers are unbounded. This
  matters for unit counts whose difference at
  `src/game/gui/WorldMenu.java:67-68` leaves the `int` range, which changes what
  is placed (Java wraps such a quota and flips its sign, while `Remaining`
  keeps the true difference), and for a screen size or tile constant near the `int` limits.
- Java exceptions are preconditions instead. Java throws an array-index
  exception when:
  - `getSelectedTile`, `getSelectedUnit` or `drawSelectedTile` is called with a
    selection outside the grid;
  - `drawTile` is called with a cell outside the grid (`DrawTile` and
    `DrawTileShows` require the cell inside it);
  - `canAddUnit` is called with a pair whose index `factionSlot * 8 + unitSlot`
    lies outside `[0, 24)` (`CanAddUnit` requires it inside);
  - the storage or deployed arrays hold fewer than 24 entries.

  The model requires the selection and the drawn cell inside the grid, the quota
  index inside the table, and arrays of at least 24.
