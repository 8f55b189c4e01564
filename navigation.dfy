/** The cursor rules of the deployment menu, as two stages per direction: a raw
    step, then one correction when the raw target is off the grid or invisible.
    A move commits only onto a usable cell; otherwise the selection stays put.
    The class in world_menu.dfy runs the same rules imperatively on its fields. */
module Navigation {
  import opened Geometry

  function Abs(n: int): (m: nat)
  {
    if n < 0 then -n else n
  }

  /** The raw step of `moveSelectHorizontal`, keyed on the parity of |x - y|.
      It always lands one screen column to the right (or left), half a row down
      from an even column and half a row up from an odd one. */
  function HorizontalStep(p: Pos, right: bool): (q: Pos)
    ensures Column(q) == Column(p) + (if right then 1 else -1)
    ensures Row(q) == Row(p) + (if Column(p) % 2 == 0 then 1 else -1)
  {
    var coordDiff := Abs(p.x - p.y);
    if right then
      if coordDiff % 2 == 1 then Pos(p.x - 1, p.y) else Pos(p.x, p.y + 1)
    else
      if coordDiff % 2 == 0 then Pos(p.x + 1, p.y) else Pos(p.x, p.y - 1)
  }

  /** The one correction of a horizontal move: a diagonal nudge that keeps the
      screen column and moves a whole row down or up. It is keyed on the
      target's `y` for a right move and on its `x` for a left move, whatever
      the raw step changed: a whole row down while that key is below `size`,
      else a whole row up. */
  function HorizontalCorrection(q: Pos, right: bool): (c: Pos)
    ensures Column(c) == Column(q)
    ensures Row(c) == Row(q) + (if (if right then q.y else q.x) < Size then 2 else -2)
  {
    var key := if right then q.y else q.x;
    if key < Size then Pos(q.x + 1, q.y + 1) else Pos(q.x - 1, q.y - 1)
  }

  /** Where `moveSelectHorizontal` leaves the selection. */
  function MoveHorizontal(p: Pos, right: bool, isInvisible: BlockTile -> bool): (r: Pos)
    ensures r == p || (Usable(isInvisible, r) && Column(r) == Column(p) + (if right then 1 else -1))
    ensures Usable(isInvisible, HorizontalStep(p, right)) ==> r == HorizontalStep(p, right)
    ensures !Usable(isInvisible, HorizontalStep(p, right))
            && Usable(isInvisible, HorizontalCorrection(HorizontalStep(p, right), right))
            ==> r == HorizontalCorrection(HorizontalStep(p, right), right)
    ensures r == p <==>
              !Usable(isInvisible, HorizontalStep(p, right))
              && !Usable(isInvisible, HorizontalCorrection(HorizontalStep(p, right), right))
  {
    var q := HorizontalStep(p, right);
    if Usable(isInvisible, q) then q
    else
      var c := HorizontalCorrection(q, right);
      if Usable(isInvisible, c) then c else p
  }

  /** The raw step of `moveSelectVertical`: one whole row down or up, same column. */
  function VerticalStep(p: Pos, down: bool): (q: Pos)
    ensures Column(q) == Column(p)
    ensures Row(q) == Row(p) + (if down then 2 else -2)
  {
    if down then Pos(p.x + 1, p.y + 1) else Pos(p.x - 1, p.y - 1)
  }

  /** The one correction of a vertical move. Off the main diagonal it takes the
      raw target half a row back and one column toward the diagonal `x == y`;
      on the diagonal it changes nothing. On an up-move the code raises `y`
      when `x > y` and raises `x` when `y > x`. */
  function VerticalCorrection(q: Pos, down: bool): (c: Pos)
    ensures q.x == q.y ==> c == q
    ensures q.x != q.y ==> Row(c) == Row(q) + (if down then -1 else 1)
    ensures q.x != q.y ==> Abs(Column(c)) == Abs(Column(q)) - 1
    ensures q.x != q.y ==> Column(c) == Column(q) + (if q.x > q.y then 1 else -1)
  {
    if q.x > q.y then
      if down then Pos(q.x - 1, q.y) else Pos(q.x, q.y + 1)
    else if q.y > q.x then
      if down then Pos(q.x, q.y - 1) else Pos(q.x + 1, q.y)
    else q
  }

  /** Where `moveSelectVertical` leaves the selection: a committed move always
      goes down (up) on screen, by a whole row or, after correction, half a row. */
  function MoveVertical(p: Pos, down: bool, isInvisible: BlockTile -> bool): (r: Pos)
    ensures r == p || (Usable(isInvisible, r) && (if down then Row(p) < Row(r) else Row(r) < Row(p)))
    ensures Usable(isInvisible, VerticalStep(p, down)) ==> r == VerticalStep(p, down)
    ensures !Usable(isInvisible, VerticalStep(p, down))
            && Usable(isInvisible, VerticalCorrection(VerticalStep(p, down), down))
            ==> r == VerticalCorrection(VerticalStep(p, down), down)
    ensures r == p <==>
              !Usable(isInvisible, VerticalStep(p, down))
              && !Usable(isInvisible, VerticalCorrection(VerticalStep(p, down), down))
  {
    var q := VerticalStep(p, down);
    if Usable(isInvisible, q) then q
    else
      var c := VerticalCorrection(q, down);
      if Usable(isInvisible, c) then c else p
  }

  /** A horizontal raw step in one direction is undone by one in the other. */
  lemma HorizontalStepUndo(p: Pos, right: bool)
    ensures HorizontalStep(HorizontalStep(p, right), !right) == p
  {
    var q := HorizontalStep(p, right);
    var b := HorizontalStep(q, !right);
    assert Column(q) % 2 != Column(p) % 2;
    RowColumnDetermineCell(b, p);
  }

  /** When a horizontal move needed no correction, the opposite move returns. */
  lemma MoveHorizontalUndo(p: Pos, right: bool, isInvisible: BlockTile -> bool)
    requires Usable(isInvisible, p) && Usable(isInvisible, HorizontalStep(p, right))
    ensures MoveHorizontal(MoveHorizontal(p, right, isInvisible), !right, isInvisible) == p
  {
    HorizontalStepUndo(p, right);
  }

  /** When a vertical move needed no correction, the opposite move returns. */
  lemma MoveVerticalUndo(p: Pos, down: bool, isInvisible: BlockTile -> bool)
    requires Usable(isInvisible, p) && Usable(isInvisible, VerticalStep(p, down))
    ensures MoveVertical(MoveVertical(p, down, isInvisible), !down, isInvisible) == p
  {
    assert VerticalStep(VerticalStep(p, down), !down) == p;
  }

  /** A key press the menu forwards to the cursor. */
  datatype Key = Left | Right | Up | Down

  /** The selection after one key press. */
  function Press(p: Pos, key: Key, isInvisible: BlockTile -> bool): (r: Pos)
    ensures InBounds(p) ==> InBounds(r)
    ensures Usable(isInvisible, p) ==> Usable(isInvisible, r)
  {
    match key
    case Left => MoveHorizontal(p, false, isInvisible)
    case Right => MoveHorizontal(p, true, isInvisible)
    case Up => MoveVertical(p, false, isInvisible)
    case Down => MoveVertical(p, true, isInvisible)
  }

  /** The selection after a sequence of key presses. */
  function Replay(p: Pos, keys: seq<Key>, isInvisible: BlockTile -> bool): (r: Pos)
    decreases |keys|
  {
    if keys == [] then p else Replay(Press(p, keys[0], isInvisible), keys[1..], isInvisible)
  }

  /** A usable selection stays usable, whatever sequence of key presses follows. */
  lemma {:induction false} ReplayKeepsSelectionUsable(p: Pos, keys: seq<Key>, isInvisible: BlockTile -> bool)
    requires Usable(isInvisible, p)
    ensures Usable(isInvisible, Replay(p, keys, isInvisible))
    decreases |keys|
  {
    if keys != [] {
      ReplayKeepsSelectionUsable(Press(p, keys[0], isInvisible), keys[1..], isInvisible);
    }
  }

  /** From the centre, moving right needs no correction (|2 - 2| is even). */
  lemma CentreMoveRight(isInvisible: BlockTile -> bool)
    requires !isInvisible(BlockTile(2, 3))
    ensures MoveHorizontal(Pos(2, 2), true, isInvisible) == Pos(2, 3)
  {
  }

  /** From the edge cell (0, 4) a down-move overshoots to (1, 5) and is
      corrected on `y` to (1, 4). */
  lemma EdgeMoveDown(isInvisible: BlockTile -> bool)
    requires !isInvisible(BlockTile(1, 4))
    ensures MoveVertical(Pos(0, 4), true, isInvisible) == Pos(1, 4)
  {
    assert VerticalStep(Pos(0, 4), true) == Pos(1, 5);
    assert VerticalCorrection(Pos(1, 5), true) == Pos(1, 4);
  }
}
