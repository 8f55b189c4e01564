/** The deployment menu object: quota table, populated grid, cursor and the
    isometric draw sweep, with its fields updated in place as the Java class does. */
module Menu {
  import opened Geometry
  import opened Navigation
  import opened Deployment
  import opened Rendering

  class WorldMenu {
    var selectX: int
    var selectY: int
    /** Tile marker per cell, filled once by NewDeployMenu. */
    const options: array2<BlockTile>
    /** Unit per cell (None for the Java null), filled once by NewDeployMenu. */
    const units: array2<Option<Unit>>
    /** Remaining deployments per quota entry (`available - alreadyDeployed`). */
    const unitConstraints: array<int>
    /** `controller.getFactionType()` of the attacking region's controller. */
    const factionType: int
    const width: int
    const height: int
    const drawHeight: int
    const metrics: Metrics
    /** The tile and unit collaborators, whose code is not part of this model. */
    const isInvisible: BlockTile -> bool
    const isBuilding: BlockTile -> bool
    const isPlaceholder: Unit -> bool
    /** The region's unit storage and the already-deployed counts, as read at construction. */
    ghost const available: seq<int>
    ghost const deployed: seq<int>
    /** The quota table the constructor fills `unitConstraints` with. */
    ghost const quota: seq<int>

    /** Array shapes, the drawing height, and the quota table as the constructor computes it. */
    ghost predicate Shaped()
      reads unitConstraints
    {
      options.Length0 == Size && options.Length1 == Size
      && units.Length0 == Size && units.Length1 == Size
      && unitConstraints.Length == UnitTypes
      && |available| == UnitTypes && |deployed| == UnitTypes
      && quota == Remaining(available, deployed)
      && drawHeight == metrics.drawHeight * Size
      && forall t :: 0 <= t < UnitTypes ==> unitConstraints[t] == quota[t]
    }

    /** Every cell holds the tile marker created for it. */
    ghost predicate TilesMarked()
      reads options
    {
      options.Length0 == Size && options.Length1 == Size
      && forall i, j :: 0 <= i < Size && 0 <= j < Size ==> options[i, j] == BlockTile(i, j)
    }

    /** Shaped, and the grid as the one-time population leaves it. No member
        reads `selectX`/`selectY` here, so cursor moves keep it. */
    ghost predicate Valid()
      reads options, units, unitConstraints
    {
      Shaped() && TilesMarked()
      && forall i, j :: 0 <= i < Size && 0 <= j < Size ==> units[i, j] == Placement(quota, Pos(i, j))
    }

    constructor (unitStorage: array<int>, alreadyDeployed: array<int>, factionType: int,
                 screenWidth: int, screenHeight: int, lastOption: int, metrics: Metrics,
                 isInvisible: BlockTile -> bool, isBuilding: BlockTile -> bool,
                 isPlaceholder: Unit -> bool)
      requires unitStorage.Length >= UnitTypes && alreadyDeployed.Length >= UnitTypes
      ensures Valid()
      ensures fresh(options) && fresh(units) && fresh(unitConstraints)
      ensures available == unitStorage[..UnitTypes] && deployed == alreadyDeployed[..UnitTypes]
      ensures Pos(selectX, selectY) == Decode(lastOption)
      ensures GetHexOption() == lastOption
      ensures this.factionType == factionType && width == screenWidth && height == screenHeight
      ensures this.metrics == metrics && this.isInvisible == isInvisible
      ensures this.isBuilding == isBuilding && this.isPlaceholder == isPlaceholder
    {
      width := screenWidth;
      height := screenHeight;
      this.factionType := factionType;
      this.metrics := metrics;
      this.isInvisible := isInvisible;
      this.isBuilding := isBuilding;
      this.isPlaceholder := isPlaceholder;
      selectX := JavaDiv(lastOption, Size);
      selectY := JavaRem(lastOption, Size);
      drawHeight := metrics.drawHeight * Size;
      unitConstraints := new int[UnitTypes];
      options := new BlockTile[Size, Size];
      units := new Option<Unit>[Size, Size]((i, j) => None);
      available := unitStorage[..UnitTypes];
      deployed := alreadyDeployed[..UnitTypes];
      quota := Remaining(unitStorage[..UnitTypes], alreadyDeployed[..UnitTypes]);
      new;
      for unitType := 0 to UnitTypes
        modifies unitConstraints
        invariant forall t :: 0 <= t < unitType ==> unitConstraints[t] == quota[t]
      {
        unitConstraints[unitType] := unitStorage[unitType] - alreadyDeployed[unitType];
      }
      NewDeployMenu();
      EncodeDecode(lastOption);
    }

    /** Whether another unit of this (faction slot, unit kind) may be deployed:
        the region still holds more of them than are already deployed. */
    function CanAddUnit(factionSlot: int, unitSlot: int): (r: bool)
      requires Shaped() && 0 <= SlotIndex(factionSlot, unitSlot) < UnitTypes
      reads unitConstraints
      ensures r <==> available[SlotIndex(factionSlot, unitSlot)] > deployed[SlotIndex(factionSlot, unitSlot)]
    {
      unitConstraints[factionSlot * UnitsPerFaction + unitSlot] > 0
    }

    /** The one-time, row-major fill of the grid. */
    method NewDeployMenu()
      requires Shaped()
      requires forall i, j :: 0 <= i < Size && 0 <= j < Size ==> units[i, j] == None
      modifies options, units
      ensures Valid()
    {
      for i := 0 to Size
        invariant forall a, b :: 0 <= a < Size && 0 <= b < Size ==>
                    if a < i then options[a, b] == BlockTile(a, b) && units[a, b] == Placement(quota, Pos(a, b))
                    else units[a, b] == None
      {
        for j := 0 to Size
          invariant forall a, b :: 0 <= a < Size && 0 <= b < Size ==>
                      if a < i || (a == i && b < j)
                      then options[a, b] == BlockTile(a, b) && units[a, b] == Placement(quota, Pos(a, b))
                      else units[a, b] == None
        {
          options[i, j] := BlockTile(i, j);
          var option := i * Size + j;
          if option < UnitTypes && CanAddUnit(option / UnitsPerFaction, option % UnitsPerFaction) {
            units[i, j] := Some(Unit(option / UnitsPerFaction + 1, option % UnitsPerFaction, i, j));
          }
          assert units[i, j] == Placement(quota, Pos(i, j));
        }
      }
    }

    /** The saved option index; for a selection inside the grid it decodes back to it. */
    function GetHexOption(): (option: int)
      reads this
      ensures InBounds(Pos(selectX, selectY)) ==>
                0 <= option < Size * Size && Decode(option) == Pos(selectX, selectY)
    {
      Size * selectX + selectY
    }

    /** The tile marker under the cursor: the one created for that very cell. */
    function GetSelectedTile(): (tile: BlockTile)
      requires Valid() && InBounds(Pos(selectX, selectY))
      reads this, options, units, unitConstraints
      ensures tile == BlockTile(selectX, selectY)
    {
      options[selectX, selectY]
    }

    /** The unit under the cursor: present exactly when the cell's index is a
        quota entry with units left, and then requested for that cell and entry. */
    function GetSelectedUnit(): (u: Option<Unit>)
      requires Valid() && InBounds(Pos(selectX, selectY))
      reads this, options, units, unitConstraints
      ensures u.Some? <==> Encode(Pos(selectX, selectY)) < UnitTypes
                           && available[Encode(Pos(selectX, selectY))] > deployed[Encode(Pos(selectX, selectY))]
      ensures u.Some? ==> u.value.x == selectX && u.value.y == selectY
                          && SlotIndex(u.value.factionSlot - 1, u.value.unitSlot) == Encode(Pos(selectX, selectY))
      ensures u == Placement(quota, Pos(selectX, selectY))
    {
      units[selectX, selectY]
    }

    /** The guard both cursor moves apply to a candidate cell: outside the
        array, or a tile that reports itself invisible. */
    function Blocked(x: int, y: int): (b: bool)
      requires TilesMarked()
      reads options
      ensures b <==> !Usable(isInvisible, Pos(x, y))
    {
      x < 0 || x >= options.Length0 || y < 0 || y >= options.Length0 || isInvisible(options[x, y])
    }

    /** Cursor move left or right. */
    method MoveSelectHorizontal(right: bool)
      requires TilesMarked()
      modifies this`selectX, this`selectY
      ensures Pos(selectX, selectY) == MoveHorizontal(old(Pos(selectX, selectY)), right, isInvisible)
    {
      ghost var start := Pos(selectX, selectY);
      ghost var step := HorizontalStep(start, right);
      ghost var nudged := HorizontalCorrection(step, right);
      var newX := selectX;
      var newY := selectY;
      var coordDiff := selectX - selectY;
      if coordDiff < 0 {
        coordDiff := coordDiff * -1;
      }
      assert coordDiff == Abs(start.x - start.y) && coordDiff >= 0;
      assert right ==> step == (if coordDiff % 2 == 1 then Pos(newX - 1, newY) else Pos(newX, newY + 1));
      assert !right ==> step == (if coordDiff % 2 == 0 then Pos(newX + 1, newY) else Pos(newX, newY - 1));
      if right {
        if coordDiff % 2 == 1 {
          newX := newX - 1;
        } else {
          newY := newY + 1;
        }
      } else {
        if coordDiff % 2 == 0 {
          newX := newX + 1;
        } else {
          newY := newY - 1;
        }
      }
      assert Pos(newX, newY) == step;
      if Blocked(newX, newY) {
        assert !Usable(isInvisible, step);
        if right {
          if newY < Size {
            newX, newY := newX + 1, newY + 1;
          } else {
            newX, newY := newX - 1, newY - 1;
          }
        } else {
          if newX < Size {
            newX, newY := newX + 1, newY + 1;
          } else {
            newX, newY := newX - 1, newY - 1;
          }
        }
        assert Pos(newX, newY) == nudged;
        if Blocked(newX, newY) {
          assert !Usable(isInvisible, nudged);
          assert MoveHorizontal(start, right, isInvisible) == start;
          return;
        }
        assert Usable(isInvisible, nudged);
      } else {
        assert Usable(isInvisible, step);
      }
      assert MoveHorizontal(start, right, isInvisible) == Pos(newX, newY);
      selectX := newX;
      selectY := newY;
    }

    /** Cursor move down or up. */
    method MoveSelectVertical(down: bool)
      requires TilesMarked()
      modifies this`selectX, this`selectY
      ensures Pos(selectX, selectY) == MoveVertical(old(Pos(selectX, selectY)), down, isInvisible)
    {
      ghost var start := Pos(selectX, selectY);
      ghost var step := VerticalStep(start, down);
      ghost var nudged := VerticalCorrection(step, down);
      var newX := selectX;
      var newY := selectY;
      if down {
        newX, newY := newX + 1, newY + 1;
      } else {
        newX, newY := newX - 1, newY - 1;
      }
      assert Pos(newX, newY) == step;
      if Blocked(newX, newY) {
        assert !Usable(isInvisible, step);
        if newX > newY {
          if down {
            newX := newX - 1;
          } else {
            newY := newY + 1;
          }
        } else if newY > newX {
          if down {
            newY := newY - 1;
          } else {
            newX := newX + 1;
          }
        }
        assert Pos(newX, newY) == nudged;
        if Blocked(newX, newY) {
          assert !Usable(isInvisible, nudged);
          assert MoveVertical(start, down, isInvisible) == start;
          return;
        }
        assert Usable(isInvisible, nudged);
      } else {
        assert Usable(isInvisible, step);
      }
      assert MoveVertical(start, down, isInvisible) == Pos(newX, newY);
      selectX := newX;
      selectY := newY;
    }

    /** The composed image of one cell (`drawTile`): the tile marker, then a
        building, or else the cell's unit, on top. */
    function DrawTile(tileX: int, tileY: int): (image: TileImage)
      requires Valid() && InBounds(Pos(tileX, tileY))
      reads this, options, units, unitConstraints
    {
      var isSelected := selectX == tileX && selectY == tileY;
      var occupant :=
        if isBuilding(options[tileX, tileY]) then BuildingOccupant
        else if units[tileX, tileY].Some? then UnitOccupant(isPlaceholder(units[tileX, tileY].value))
        else NoOccupant;
      TileImage(factionType, isSelected, OverlayFor(occupant, isSelected))
    }

    /** What a cell's image shows. A building hides any unit on its cell; a unit
        is shown exactly on the cells that received one, highlighted when the
        cell is selected or the unit is a placeholder. */
    lemma DrawTileShows(tileX: int, tileY: int)
      requires Valid() && InBounds(Pos(tileX, tileY))
      ensures DrawTile(tileX, tileY).factionType == factionType
      ensures DrawTile(tileX, tileY).selected <==> tileX == selectX && tileY == selectY
      ensures DrawTile(tileX, tileY).overlay.BuildingImage? <==> isBuilding(BlockTile(tileX, tileY))
      ensures DrawTile(tileX, tileY).overlay.BuildingImage? ==>
                DrawTile(tileX, tileY).overlay.selected == DrawTile(tileX, tileY).selected
      ensures DrawTile(tileX, tileY).overlay.UnitImage? <==>
                !isBuilding(BlockTile(tileX, tileY))
                && Encode(Pos(tileX, tileY)) < UnitTypes
                && available[Encode(Pos(tileX, tileY))] > deployed[Encode(Pos(tileX, tileY))]
      ensures DrawTile(tileX, tileY).overlay.UnitImage? ==>
                (DrawTile(tileX, tileY).overlay.highlighted <==>
                   DrawTile(tileX, tileY).selected || isPlaceholder(units[tileX, tileY].value))
    {
    }

    /** The image of the cell under the cursor: the cell's own `drawTile` image,
        always drawn selected, showing its building (flagged) or else its unit
        (highlighted) exactly as any other cell would. */
    function DrawSelectedTile(): (img: TileImage)
      requires Valid() && InBounds(Pos(selectX, selectY))
      reads this, options, units, unitConstraints
      ensures img.selected && img.factionType == factionType
      ensures img.overlay.UnitImage? ==> img.overlay.highlighted
      ensures img.overlay.BuildingImage? ==> img.overlay.selected
      ensures img.overlay.BuildingImage? <==> isBuilding(BlockTile(selectX, selectY))
      ensures img.overlay.UnitImage? <==>
                !isBuilding(BlockTile(selectX, selectY))
                && Encode(Pos(selectX, selectY)) < UnitTypes
                && available[Encode(Pos(selectX, selectY))] > deployed[Encode(Pos(selectX, selectY))]
      ensures img == DrawTile(selectX, selectY)
    {
      DrawTileShows(selectX, selectY);
      DrawTile(selectX, selectY)
    }

    /** Screen offset of the first tile of anti-diagonal 0. */
    function StartX(): (x: int)
    {
      JavaDiv(width - metrics.drawWidth, 2)
    }

    function StartY(): (y: int)
    {
      JavaDiv(height - drawHeight, 2)
    }

    /** Vertical distance between consecutive anti-diagonals. */
    function RowStep(): (step: int)
    {
      JavaDiv(metrics.drawHeight, 2)
    }

    /** The command `draw` issues for cell `p`: at that cell's sweep offsets, with its image. */
    function CommandFor(p: Pos): (cmd: DrawCmd)
      requires Valid() && InBounds(p)
      reads this, options, units, unitConstraints
    {
      DrawCmd(p, ScreenX(StartX(), TileSideOffset(metrics), p), ScreenY(StartY(), RowStep(), p), DrawTile(p.x, p.y))
    }

    /** What the sweep has produced once it reaches step `k` of anti-diagonal `z`:
        the command of every usable cell swept so far, in sweep order, and nothing else. */
    ghost predicate SweepProgress(frame: seq<DrawCmd>, z: int, k: int)
      requires Valid()
      reads this, options, units, unitConstraints
    {
      (forall n :: 0 <= n < |frame| ==>
         Usable(isInvisible, frame[n].pos) && frame[n] == CommandFor(frame[n].pos)
         && SweptBefore(frame[n].pos, z, k))
      && (forall m, n :: 0 <= m < n < |frame| ==> DrawnBefore(frame[m].pos, frame[n].pos))
      && (forall p :: Usable(isInvisible, p) && SweptBefore(p, z, k) ==> Drawn(frame, p))
    }

    /** One step of the sweep: pair `(z - k, k)` is drawn when usable and skipped otherwise. */
    lemma SweepStep(frame: seq<DrawCmd>, next: seq<DrawCmd>, z: int, k: int)
      requires Valid() && 0 <= k <= z
      requires SweepProgress(frame, z, k)
      requires Usable(isInvisible, Pos(z - k, k)) ==> next == frame + [CommandFor(Pos(z - k, k))]
      requires !Usable(isInvisible, Pos(z - k, k)) ==> next == frame
      ensures SweepProgress(next, z, k + 1)
    {
      var p := Pos(z - k, k);
      forall q | Usable(isInvisible, q) && SweptBefore(q, z, k + 1)
        ensures Drawn(next, q)
      {
        if SweptBefore(q, z, k) {
          DrawnExtend(frame, next[|frame|..], q);
          assert frame + next[|frame|..] == next;
        } else {
          assert q == p;
          assert next[|next| - 1].pos == q;
        }
      }
    }

    /** The step of the sweep as `draw` performs it: the command it builds for a
        usable pair from the running offsets is that pair's command. */
    lemma DrawStep(frame: seq<DrawCmd>, z: nat, x: int, k: nat, drawX: int, drawY: int, tileDrawX: int)
      requires Valid() && k <= z && x == z - k
      requires SweepProgress(frame, z, k)
      requires drawX == StartX() - Steps(z, TileSideOffset(metrics))
      requires drawY == StartY() + Steps(z, RowStep())
      requires tileDrawX == drawX + Steps(k, TileSideOffset(metrics) * 2)
      ensures Usable(isInvisible, Pos(x, k)) ==>
                SweepProgress(frame + [DrawCmd(Pos(x, k), tileDrawX, drawY, DrawTile(x, k))], z, k + 1)
      ensures !Usable(isInvisible, Pos(x, k)) ==> SweepProgress(frame, z, k + 1)
    {
      var p := Pos(x, k);
      if Usable(isInvisible, p) {
        assert CommandFor(p) == DrawCmd(p, tileDrawX, drawY, DrawTile(x, k));
        SweepStep(frame, frame + [CommandFor(p)], z, k);
      } else {
        SweepStep(frame, frame, z, k);
      }
    }

    /** Finishing anti-diagonal `z` (steps `0..z`) is starting anti-diagonal `z + 1`. */
    lemma SweepNextRow(frame: seq<DrawCmd>, z: int)
      requires Valid() && 0 <= z
      requires SweepProgress(frame, z, z + 1)
      ensures SweepProgress(frame, z + 1, 0)
    {
      forall q | Usable(isInvisible, q) && SweptBefore(q, z + 1, 0)
        ensures Drawn(frame, q)
      {
        assert SweptBefore(q, z, z + 1);
      }
    }

    /** The tiles `draw` blits onto the background, in order. Every usable cell is
        drawn exactly once, back to front, at the offsets of its place in the sweep:
        `startX - z * tileSideOffset + 2 * k * tileSideOffset` across and
        `startY + z * (DRAW_HEIGHT / 2)` down for pair `k` of anti-diagonal `z`. */
    method Draw() returns (frame: seq<DrawCmd>)
      requires Valid()
      ensures forall n :: 0 <= n < |frame| ==>
                Usable(isInvisible, frame[n].pos)
                && frame[n].image == DrawTile(frame[n].pos.x, frame[n].pos.y)
                && frame[n].screenX == ScreenX(StartX(), TileSideOffset(metrics), frame[n].pos)
                && frame[n].screenY == ScreenY(StartY(), RowStep(), frame[n].pos)
      ensures forall p :: Usable(isInvisible, p) ==> Drawn(frame, p)
      ensures forall m, n :: 0 <= m < n < |frame| ==> DrawnBefore(frame[m].pos, frame[n].pos)
      ensures forall m, n :: 0 <= m < n < |frame| ==> frame[m].pos != frame[n].pos
    {
      var tileSideOffset := metrics.drawWidth - metrics.drawSideOffset;
      var drawX := JavaDiv(width - metrics.drawWidth, 2);
      var drawY := JavaDiv(height - drawHeight, 2);
      frame := [];
      for z := 0 to Size * 2
        invariant drawX == StartX() - Steps(z, tileSideOffset)
        invariant drawY == StartY() + Steps(z, RowStep())
        invariant SweepProgress(frame, z, 0)
      {
        frame := DrawRow(z, drawX, drawY, frame);
        SweepNextRow(frame, z);
        StepsNext(z, tileSideOffset);
        StepsNext(z, RowStep());
        drawX := drawX - tileSideOffset;
        drawY := drawY + JavaDiv(metrics.drawHeight, 2);
      }
    }

    /** The inner loop of `draw`: anti-diagonal `z`, pairs `(z, 0), (z - 1, 1), .., (0, z)`,
        appending the usable ones at x offsets two side offsets apart. */
    method DrawRow(z: nat, drawX: int, drawY: int, rowStart: seq<DrawCmd>) returns (frame: seq<DrawCmd>)
      requires Valid()
      requires drawX == StartX() - Steps(z, TileSideOffset(metrics))
      requires drawY == StartY() + Steps(z, RowStep())
      requires SweepProgress(rowStart, z, 0)
      ensures SweepProgress(frame, z, z + 1)
    {
      var tileSideOffset := metrics.drawWidth - metrics.drawSideOffset;
      frame := rowStart;
      var tileDrawX := drawX;
      var tileX := z;
      var tileY := 0;
      while tileY <= z
        invariant 0 <= tileY <= z + 1
        invariant tileX == z - tileY
        invariant tileDrawX == drawX + Steps(tileY, tileSideOffset * 2)
        invariant SweepProgress(frame, z, tileY)
      {
        DrawStep(frame, z, tileX, tileY, drawX, drawY, tileDrawX);
        if tileX >= 0 && tileX < Size && tileY >= 0 && tileY < Size {
          assert options[tileX, tileY] == BlockTile(tileX, tileY);
          if !isInvisible(options[tileX, tileY]) {
            assert Usable(isInvisible, Pos(tileX, tileY));
            frame := frame + [DrawCmd(Pos(tileX, tileY), tileDrawX, drawY, DrawTile(tileX, tileY))];
          } else {
            assert !Usable(isInvisible, Pos(tileX, tileY));
          }
        } else {
          assert !Usable(isInvisible, Pos(tileX, tileY));
        }
        StepsNext(tileY, tileSideOffset * 2);
        tileDrawX := tileDrawX + tileSideOffset * 2;
        tileX := tileX - 1;
        tileY := tileY + 1;
      }
    }
  }
}
