/** What the menu draws, without the pixels: the layers of one tile image, and
    the order and screen offsets of the isometric anti-diagonal sweep. */
module Rendering {
  import opened Geometry

  /** What stands on a cell, as `drawTile` distinguishes it. */
  datatype Occupant = BuildingOccupant | UnitOccupant(placeholder: bool) | NoOccupant

  /** The image drawn on top of the tile: a building drawn with the selection
      flag, a unit drawn plain or highlighted, or nothing. */
  datatype Overlay = BuildingImage(selected: bool) | UnitImage(highlighted: bool) | NoOverlay

  /** One composed tile: the tile marker drawn for the controller's faction type
      and the selection flag, with the overlay on top. */
  datatype TileImage = TileImage(factionType: int, selected: bool, overlay: Overlay)

  /** The occupant choice of `drawTile`. A placeholder unit is always highlighted;
      selection highlights any unit and never un-highlights one. */
  function OverlayFor(occupant: Occupant, selected: bool): (o: Overlay)
    ensures o == NoOverlay <==> occupant == NoOccupant
    ensures occupant.BuildingOccupant? <==> o.BuildingImage?
    ensures o.BuildingImage? ==> o.selected == selected
    ensures occupant.UnitOccupant? ==> o.UnitImage? && (o.highlighted <==> selected || occupant.placeholder)
  {
    match occupant
    case BuildingOccupant => BuildingImage(selected)
    case UnitOccupant(placeholder) =>
      if placeholder then UnitImage(true)
      else if selected then UnitImage(true)
      else UnitImage(false)
    case NoOccupant => NoOverlay
  }

  /** The tile constants the sweep uses (`Tile.DRAW_WIDTH`, `Tile.DRAW_HEIGHT`,
      `Tile.DRAW_SIDE_OFFSET`). */
  datatype Metrics = Metrics(drawWidth: int, drawHeight: int, drawSideOffset: int)

  /** The horizontal offset between neighbouring draw rows. */
  function TileSideOffset(m: Metrics): (offset: int)
  {
    m.drawWidth - m.drawSideOffset
  }

  /** One tile blitted by `draw`: its cell, its screen offset, its image. */
  datatype DrawCmd = DrawCmd(pos: Pos, screenX: int, screenY: int, image: TileImage)

  /** Where the sweep has reached: cell `p` lies on an earlier anti-diagonal
      than `z`, or on anti-diagonal `z` before step `k`. */
  predicate SweptBefore(p: Pos, z: int, k: int)
  {
    Row(p) < z || (Row(p) == z && p.y < k)
  }

  /** Back-to-front order of the sweep. */
  predicate DrawnBefore(p: Pos, q: Pos)
  {
    SweptBefore(p, Row(q), q.y)
  }

  /** The sweep order is a strict total order on cells. */
  lemma DrawnBeforeStrictTotal(p: Pos, q: Pos, r: Pos)
    ensures !DrawnBefore(p, p)
    ensures DrawnBefore(p, q) && DrawnBefore(q, r) ==> DrawnBefore(p, r)
    ensures p != q ==> DrawnBefore(p, q) || DrawnBefore(q, p)
  {
  }

  /** Whether a sequence of draw commands draws cell `p`. */
  predicate Drawn(frame: seq<DrawCmd>, p: Pos)
  {
    exists n :: 0 <= n < |frame| && frame[n].pos == p
  }

  lemma DrawnExtend(frame: seq<DrawCmd>, tail: seq<DrawCmd>, p: Pos)
    requires Drawn(frame, p)
    ensures Drawn(frame + tail, p)
  {
    var n :| 0 <= n < |frame| && frame[n].pos == p;
    assert (frame + tail)[n] == frame[n];
  }

  /** The sum of `n` equal steps: the sweep moves its draw offsets by repeated
      addition, never by multiplication. */
  function Steps(n: nat, step: int): (total: int)
  {
    if n == 0 then 0 else Steps(n - 1, step) + step
  }

  lemma {:induction false} StepsIsProduct(n: nat, step: int)
    ensures Steps(n, step) == n * step
  {
    if n > 0 {
      StepsIsProduct(n - 1, step);
    }
  }

  lemma StepsNext(n: nat, step: int)
    ensures Steps(n + 1, step) == Steps(n, step) + step
  {
  }

  /** The x offset of pair `k = p.y` on anti-diagonal `z = x + y`: one side
      offset left per anti-diagonal, two right per pair. */
  function ScreenX(startX: int, sideOffset: int, p: Pos): (x: int)
    requires 0 <= p.x && 0 <= p.y
  {
    startX - Steps(Row(p), sideOffset) + Steps(p.y, sideOffset * 2)
  }

  /** The y offset of anti-diagonal `z`: one row step down per anti-diagonal. */
  function ScreenY(startY: int, rowStep: int, p: Pos): (y: int)
    requires 0 <= p.x && 0 <= p.y
  {
    startY + Steps(Row(p), rowStep)
  }

  /** The x offset depends only on the screen column, the y offset only on the row. */
  lemma ScreenOffsetsByColumnAndRow(startX: int, sideOffset: int, startY: int, rowStep: int, p: Pos)
    requires 0 <= p.x && 0 <= p.y
    ensures ScreenX(startX, sideOffset, p) == startX + Column(p) * sideOffset
    ensures ScreenY(startY, rowStep, p) == startY + Row(p) * rowStep
  {
    StepsIsProduct(Row(p), sideOffset);
    StepsIsProduct(p.y, sideOffset * 2);
    StepsIsProduct(Row(p), rowStep);
    calc {
      ScreenX(startX, sideOffset, p);
      startX - (p.x + p.y) * sideOffset + 2 * p.y * sideOffset;
      { assert (p.x + p.y) * sideOffset == p.x * sideOffset + p.y * sideOffset; }
      startX + (p.y - p.x) * sideOffset;
    }
  }

  /** With non-zero offsets, two different cells are never drawn at the same spot. */
  lemma DistinctCellsDistinctOffsets(startX: int, sideOffset: int, startY: int, rowStep: int, p: Pos, q: Pos)
    requires 0 <= p.x && 0 <= p.y && 0 <= q.x && 0 <= q.y
    requires sideOffset != 0 && rowStep != 0 && p != q
    ensures ScreenX(startX, sideOffset, p) != ScreenX(startX, sideOffset, q)
            || ScreenY(startY, rowStep, p) != ScreenY(startY, rowStep, q)
  {
    ScreenOffsetsByColumnAndRow(startX, sideOffset, startY, rowStep, p);
    ScreenOffsetsByColumnAndRow(startX, sideOffset, startY, rowStep, q);
    if Row(p) == Row(q) {
      if Column(p) == Column(q) {
        RowColumnDetermineCell(p, q);
      } else {
        MulCancel(Column(p), Column(q), sideOffset);
      }
    } else {
      MulCancel(Row(p), Row(q), rowStep);
    }
  }

  lemma MulCancel(a: int, b: int, c: int)
    requires a != b && c != 0
    ensures a * c != b * c
  {
    assert a * c - b * c == (a - b) * c;
  }

  /** Every cell of the grid is pair `k = y` of anti-diagonal `z = x + y`,
      and `z` stays below `2 * size - 1`, so the sweep's last anti-diagonal
      (`z = 2 * size - 1`) holds no cell of the grid. */
  lemma SweepCoversGrid(p: Pos)
    requires InBounds(p)
    ensures 0 <= p.y <= Row(p) < 2 * Size - 1
    ensures Pos(Row(p) - p.y, p.y) == p
  {
  }
}
