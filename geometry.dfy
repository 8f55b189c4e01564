/** Cell addressing of the deployment menu's square grid: bounds, the
    isometric row and column of a cell, and the linear option index
    (`size * x + y`) that the menu saves and restores. */
module Geometry {

  /** Side of the square index space (the menu fixes `size = 5`). */
  const Size: int := 5

  /** A cell of the grid, by its two array indices. */
  datatype Pos = Pos(x: int, y: int)

  /** The tile marker the menu creates for every cell (`new BlockTile(null, x, y)`). */
  datatype BlockTile = BlockTile(x: int, y: int)

  predicate InBounds(p: Pos)
  {
    0 <= p.x < Size && 0 <= p.y < Size
  }

  /** A cell the cursor may rest on and the sweep may draw: inside the array and
      not reported invisible by its tile marker (the diamond's corners are). */
  predicate Usable(isInvisible: BlockTile -> bool, p: Pos)
  {
    InBounds(p) && !isInvisible(BlockTile(p.x, p.y))
  }

  /** Isometric draw row `z`: the anti-diagonal the cell lies on. */
  function Row(p: Pos): (row: int)
  {
    p.x + p.y
  }

  /** Isometric screen column: how many tile side offsets right of centre. */
  function Column(p: Pos): (column: int)
  {
    p.y - p.x
  }

  lemma RowColumnDetermineCell(p: Pos, q: Pos)
    requires Row(p) == Row(q) && Column(p) == Column(q)
    ensures p == q
  {
  }

  /** Java's integer division for a positive divisor: it rounds toward zero. */
  function JavaDiv(a: int, b: int): (q: int)
    requires b > 0
    ensures a >= 0 ==> 0 <= a - b * q < b
    ensures a < 0 ==> -b < a - b * q <= 0
  {
    if a >= 0 then a / b else -((-a) / b)
  }

  /** Java's `%`: the remainder takes the sign of the dividend. */
  function JavaRem(a: int, b: int): (r: int)
    requires b > 0
    ensures b * JavaDiv(a, b) + r == a
    ensures a >= 0 ==> 0 <= r < b
    ensures a < 0 ==> -b < r <= 0
  {
    a - b * JavaDiv(a, b)
  }

  /** The option index of a cell (`getHexOption`). */
  function Encode(p: Pos): (option: int)
  {
    Size * p.x + p.y
  }

  /** The cell the constructor selects for a saved option index. */
  function Decode(option: int): (p: Pos)
  {
    Pos(JavaDiv(option, Size), JavaRem(option, Size))
  }

  /** Re-encoding a decoded index gives the index back, for every int. */
  lemma EncodeDecode(option: int)
    ensures Encode(Decode(option)) == option
  {
  }

  /** A decoded index names a cell of the grid exactly when it lies in [0, size²). */
  lemma DecodeInBounds(option: int)
    ensures InBounds(Decode(option)) <==> 0 <= option < Size * Size
  {
  }

  /** Decoding the index of a cell of the grid gives that cell back. */
  lemma DecodeEncode(p: Pos)
    requires InBounds(p)
    ensures Decode(Encode(p)) == p
  {
  }
}
