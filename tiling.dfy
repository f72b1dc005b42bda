/** The pixel mapper of sled/out_udp.c: the three tilings that turn a
    logical coordinate (x, y) into a position in the linear LED chain
    (ppos, lines 163-188), and the part of init that chooses the tiling
    and checks the matrix size (lines 123-144). */
module Tiling {
  import opened Protocol

  /** TILE_PLAIN, TILE_SNAKE and TILE_DUAL. */
  datatype Tile = Plain | Snake | Dual

  /** ppos: the chain position of pixel (x, y). Plain is row-major, Snake
      reverses every odd row, Dual interleaves two half-height panels with
      the upper rows (y < ySize/2) on the odd positions. The source asserts
      the bounds, so they are required here. */
  function Ppos(tile: Tile, xSize: nat, ySize: nat, x: int, y: int): int
    requires 0 <= x < xSize && 0 <= y < ySize
  {
    match tile
    case Plain => x + y * xSize
    case Snake => (if y % 2 == 0 then x else (xSize - 1) - x) + xSize * y
    case Dual =>
      if y >= ySize / 2 then 2 * (x + (y - ySize / 2) * xSize) + 0
      else 2 * (x + y * xSize) + 1
  }

  /** The coordinate at chain position p: the inverse of Ppos. */
  function Coord(tile: Tile, xSize: nat, ySize: nat, p: nat): (int, int)
    requires xSize > 0
  {
    match tile
    case Plain => (p % xSize, p / xSize)
    case Snake =>
      var row := p / xSize;
      (if row % 2 == 0 then p % xSize else (xSize - 1) - p % xSize, row)
    case Dual =>
      var q := p / 2;
      (q % xSize, if p % 2 == 1 then q / xSize else q / xSize + ySize / 2)
  }

  /** A matrix size and tiling under which Ppos is a bijection onto
      [0, xSize*ySize): both sides non-zero, and for Dual an even height,
      so that the two panels share the rows equally, or a single column,
      whose odd height still interleaves into [0, ySize). */
  predicate Geometry(tile: Tile, xSize: nat, ySize: nat)
  {
    xSize > 0 && ySize > 0 && (tile == Dual ==> DualFits(xSize, ySize))
  }

  /** The Dual sizes whose interleaving stays inside the chain. */
  predicate DualFits(xSize: nat, ySize: nat)
  {
    ySize % 2 == 0 || xSize == 1
  }

  /** Every in-bounds pixel lands inside the chain. */
  lemma PposInRange(tile: Tile, xSize: nat, ySize: nat, x: int, y: int)
    requires Geometry(tile, xSize, ySize)
    requires 0 <= x < xSize && 0 <= y < ySize
    ensures 0 <= Ppos(tile, xSize, ySize, x, y) < xSize * ySize
  {
    match tile
    case Plain =>
      RowMajorBound(xSize, ySize, x, y);
    case Snake =>
      RowMajorBound(xSize, ySize, if y % 2 == 0 then x else (xSize - 1) - x, y);
    case Dual =>
      var h := ySize / 2;
      if xSize == 1 {
        assert ySize == 2 * h + ySize % 2;
      } else {
        assert xSize * ySize == 2 * (xSize * h) by {
          assert ySize == 2 * h;
        }
        if y >= h {
          RowMajorBound(xSize, h, x, y - h);
        } else {
          RowMajorBound(xSize, h, x, y);
        }
      }
  }

  /** Coord undoes Ppos, so two distinct pixels never share a position. */
  lemma CoordOfPpos(tile: Tile, xSize: nat, ySize: nat, x: int, y: int)
    requires Geometry(tile, xSize, ySize)
    requires 0 <= x < xSize && 0 <= y < ySize
    ensures Ppos(tile, xSize, ySize, x, y) >= 0
    ensures Coord(tile, xSize, ySize, Ppos(tile, xSize, ySize, x, y)) == (x, y)
  {
    match tile
    case Plain =>
      CoordOfPposPlain(xSize, ySize, x, y);
    case Snake =>
      CoordOfPposSnake(xSize, ySize, x, y);
    case Dual =>
      CoordOfPposDual(xSize, ySize, x, y);
  }

  lemma CoordOfPposPlain(xSize: nat, ySize: nat, x: int, y: int)
    requires 0 <= x < xSize && 0 <= y < ySize
    ensures Ppos(Plain, xSize, ySize, x, y) >= 0
    ensures Coord(Plain, xSize, ySize, Ppos(Plain, xSize, ySize, x, y)) == (x, y)
  {
    RowMajorDivMod(xSize, x, y);
  }

  lemma CoordOfPposSnake(xSize: nat, ySize: nat, x: int, y: int)
    requires 0 <= x < xSize && 0 <= y < ySize
    ensures Ppos(Snake, xSize, ySize, x, y) >= 0
    ensures Coord(Snake, xSize, ySize, Ppos(Snake, xSize, ySize, x, y)) == (x, y)
  {
    var x' := if y % 2 == 0 then x else (xSize - 1) - x;
    assert Ppos(Snake, xSize, ySize, x, y) == x' + y * xSize;
    RowMajorDivMod(xSize, x', y);
  }

  lemma CoordOfPposDual(xSize: nat, ySize: nat, x: int, y: int)
    requires 0 <= x < xSize && 0 <= y < ySize
    ensures Ppos(Dual, xSize, ySize, x, y) >= 0
    ensures Coord(Dual, xSize, ySize, Ppos(Dual, xSize, ySize, x, y)) == (x, y)
  {
    var h := ySize / 2;
    var y' := if y >= h then y - h else y;
    var p := Ppos(Dual, xSize, ySize, x, y);
    assert p == 2 * (x + y' * xSize) + (if y >= h then 0 else 1);
    assert p / 2 == x + y' * xSize && p % 2 == (if y >= h then 0 else 1);
    RowMajorDivMod(xSize, x, y');
  }

  /** Ppos undoes Coord on every chain position, so Ppos is onto. */
  lemma PposOfCoord(tile: Tile, xSize: nat, ySize: nat, p: nat)
    requires Geometry(tile, xSize, ySize)
    requires p < xSize * ySize
    ensures 0 <= Coord(tile, xSize, ySize, p).0 < xSize
    ensures 0 <= Coord(tile, xSize, ySize, p).1 < ySize
    ensures Ppos(tile, xSize, ySize, Coord(tile, xSize, ySize, p).0, Coord(tile, xSize, ySize, p).1) == p
  {
    match tile
    case Plain =>
      DivBelow(p, xSize, ySize);
      assert p == p % xSize + (p / xSize) * xSize;
    case Snake =>
      PposOfCoordSnake(xSize, ySize, p);
    case Dual =>
      PposOfCoordDual(xSize, ySize, p);
  }

  lemma PposOfCoordSnake(xSize: nat, ySize: nat, p: nat)
    requires xSize > 0 && p < xSize * ySize
    ensures 0 <= Coord(Snake, xSize, ySize, p).0 < xSize
    ensures 0 <= Coord(Snake, xSize, ySize, p).1 < ySize
    ensures Ppos(Snake, xSize, ySize, Coord(Snake, xSize, ySize, p).0, Coord(Snake, xSize, ySize, p).1) == p
  {
    DivBelow(p, xSize, ySize);
    var row, col := p / xSize, p % xSize;
    assert p == col + xSize * row;
  }

  lemma PposOfCoordDual(xSize: nat, ySize: nat, p: nat)
    requires xSize > 0 && DualFits(xSize, ySize) && p < xSize * ySize
    ensures 0 <= Coord(Dual, xSize, ySize, p).0 < xSize
    ensures 0 <= Coord(Dual, xSize, ySize, p).1 < ySize
    ensures Ppos(Dual, xSize, ySize, Coord(Dual, xSize, ySize, p).0, Coord(Dual, xSize, ySize, p).1) == p
  {
    if ySize % 2 == 0 {
      PposOfCoordDualPanels(xSize, ySize, p);
    } else {
      PposOfCoordDualColumn(ySize, p);
    }
  }

  /** Dual with an even height: the two panels each hold xSize*ySize/2
      positions. */
  lemma PposOfCoordDualPanels(xSize: nat, ySize: nat, p: nat)
    requires xSize > 0 && ySize % 2 == 0 && p < xSize * ySize
    ensures 0 <= Coord(Dual, xSize, ySize, p).0 < xSize
    ensures 0 <= Coord(Dual, xSize, ySize, p).1 < ySize
    ensures Ppos(Dual, xSize, ySize, Coord(Dual, xSize, ySize, p).0, Coord(Dual, xSize, ySize, p).1) == p
  {
    var h := ySize / 2;
    assert xSize * ySize == 2 * (xSize * h) by {
      assert ySize == 2 * h;
    }
    var q := p / 2;
    assert p == 2 * q + p % 2;
    DivBelow(q, xSize, h);
    var col, row := q % xSize, q / xSize;
    assert q == col + row * xSize;
    if p % 2 == 1 {
      assert Coord(Dual, xSize, ySize, p) == (col, row);
      assert Ppos(Dual, xSize, ySize, col, row) == 2 * q + 1;
    } else {
      assert Coord(Dual, xSize, ySize, p) == (col, row + h);
      assert Ppos(Dual, xSize, ySize, col, row + h) == 2 * q;
    }
  }

  /** Dual with a single column: the odd positions below 2*(ySize/2) go to
      the upper rows and the even positions up to ySize - 1 to the lower
      rows, whatever the parity of ySize. */
  lemma PposOfCoordDualColumn(ySize: nat, p: nat)
    requires p < ySize
    ensures 0 <= Coord(Dual, 1, ySize, p).0 < 1
    ensures 0 <= Coord(Dual, 1, ySize, p).1 < ySize
    ensures Ppos(Dual, 1, ySize, Coord(Dual, 1, ySize, p).0, Coord(Dual, 1, ySize, p).1) == p
  {
    var h := ySize / 2;
    var q := p / 2;
    assert p == 2 * q + p % 2;
    assert ySize == 2 * h + ySize % 2;
    if p % 2 == 1 {
      assert q < h;
      assert Coord(Dual, 1, ySize, p) == (0, q);
    } else {
      assert q <= h;
      assert Coord(Dual, 1, ySize, p) == (0, q + h);
    }
  }

  /** For a valid geometry, Ppos is a bijection from the xSize-by-ySize
      grid onto the chain positions [0, xSize*ySize): it stays in range,
      it is injective, and Coord gives a preimage of every position. */
  lemma PposBijective(tile: Tile, xSize: nat, ySize: nat)
    requires Geometry(tile, xSize, ySize)
    ensures forall x, y :: 0 <= x < xSize && 0 <= y < ySize ==>
              0 <= Ppos(tile, xSize, ySize, x, y) < xSize * ySize
    ensures forall x1, y1, x2, y2 ::
              (0 <= x1 < xSize && 0 <= y1 < ySize && 0 <= x2 < xSize && 0 <= y2 < ySize &&
               Ppos(tile, xSize, ySize, x1, y1) == Ppos(tile, xSize, ySize, x2, y2)) ==> x1 == x2 && y1 == y2
    ensures forall p: nat :: p < xSize * ySize ==>
              var c := Coord(tile, xSize, ySize, p);
              0 <= c.0 < xSize && 0 <= c.1 < ySize && Ppos(tile, xSize, ySize, c.0, c.1) == p
  {
    forall x, y | 0 <= x < xSize && 0 <= y < ySize
      ensures 0 <= Ppos(tile, xSize, ySize, x, y) < xSize * ySize
    {
      PposInRange(tile, xSize, ySize, x, y);
    }
    forall x1, y1, x2, y2 |
      0 <= x1 < xSize && 0 <= y1 < ySize && 0 <= x2 < xSize && 0 <= y2 < ySize &&
      Ppos(tile, xSize, ySize, x1, y1) == Ppos(tile, xSize, ySize, x2, y2)
      ensures x1 == x2 && y1 == y2
    {
      CoordOfPpos(tile, xSize, ySize, x1, y1);
      CoordOfPpos(tile, xSize, ySize, x2, y2);
    }
    forall p: nat | p < xSize * ySize
      ensures var c := Coord(tile, xSize, ySize, p);
              0 <= c.0 < xSize && 0 <= c.1 < ySize && Ppos(tile, xSize, ySize, c.0, c.1) == p
    {
      PposOfCoord(tile, xSize, ySize, p);
    }
  }

  /** Snake tiling runs even rows left to right and odd rows right to
      left: with four columns, row 0 is 0,1,2,3 and row 1 is 7,6,5,4. */
  lemma SnakeRows(xSize: nat, ySize: nat, x: int, y: int)
    requires 0 <= x < xSize && 0 <= y < ySize
    ensures y % 2 == 0 ==> Ppos(Snake, xSize, ySize, x, y) == y * xSize + x
    ensures y % 2 == 1 ==> Ppos(Snake, xSize, ySize, x, y) == (y + 1) * xSize - 1 - x
  {
  }

  lemma SnakeExample()
    ensures [Ppos(Snake, 4, 2, 0, 0), Ppos(Snake, 4, 2, 1, 0), Ppos(Snake, 4, 2, 2, 0), Ppos(Snake, 4, 2, 3, 0)]
            == [0, 1, 2, 3]
    ensures [Ppos(Snake, 4, 2, 0, 1), Ppos(Snake, 4, 2, 1, 1), Ppos(Snake, 4, 2, 2, 1), Ppos(Snake, 4, 2, 3, 1)]
            == [7, 6, 5, 4]
  {
  }

  /** Dual tiling: the upper half takes the odd positions, the lower half,
      shifted up by ySize/2 rows, the even ones. */
  lemma DualHalves(xSize: nat, ySize: nat, x: int, y: int)
    requires 0 <= x < xSize && 0 <= y < ySize
    ensures y < ySize / 2 ==> Ppos(Dual, xSize, ySize, x, y) == 2 * (x + y * xSize) + 1
    ensures y >= ySize / 2 ==> Ppos(Dual, xSize, ySize, x, y) == 2 * (x + (y - ySize / 2) * xSize)
    ensures Ppos(Dual, xSize, ySize, x, y) % 2 == (if y < ySize / 2 then 1 else 0)
  {
  }

  lemma DualExample()
    ensures Ppos(Dual, 4, 4, 0, 0) == 1 && Ppos(Dual, 4, 4, 1, 0) == 3
    ensures Ppos(Dual, 4, 4, 0, 2) == 0 && Ppos(Dual, 4, 4, 1, 2) == 2
  {
  }

  /** With an odd height and at least two columns, the last pixel of Dual
      tiling lies past the end of the chain (e.g. 2x3: (1, 2) -> 6). */
  lemma DualOddHeightOverflows(xSize: nat, ySize: nat)
    requires xSize >= 2 && ySize % 2 == 1
    ensures Ppos(Dual, xSize, ySize, xSize - 1, ySize - 1) >= xSize * ySize
  {
    var h := ySize / 2;
    assert ySize == 2 * h + 1;
    assert ySize - 1 - h == h;
    assert Ppos(Dual, xSize, ySize, xSize - 1, ySize - 1) == 2 * (xSize - 1) + 2 * h * xSize;
    assert xSize * ySize == 2 * h * xSize + xSize;
  }

  // ----- the tiling and geometry part of init (lines 123-144) -----

  /** Why init refuses a configuration; init itself returns 4 for each. */
  datatype ConfigError = BadXSize | BadYSize | BadTiling | OddDualHeight

  datatype Config = Config(xSize: nat, ySize: nat, tile: Tile)

  /** The tiling named by the last field of the argument string. */
  function TileOf(name: string): (t: Option<Tile>)
    ensures t == Some(Plain) <==> name == "plain"
    ensures t == Some(Snake) <==> name == "snake"
    ensures t == Some(Dual) <==> name == "dual"
  {
    if name == "plain" then Some(Plain)
    else if name == "snake" then Some(Snake)
    else if name == "dual" then Some(Dual)
    else None
  }

  /** The checks init makes, as written: a zero width, a zero height or an
      unknown tiling name is refused; an odd height with Dual is accepted. */
  function ConfigureAsWritten(xSize: nat, ySize: nat, name: string): Result<Config, ConfigError>
  {
    if xSize == 0 then Err(BadXSize)
    else if ySize == 0 then Err(BadYSize)
    else match TileOf(name)
      case None => Err(BadTiling)
      case Some(t) => Ok(Config(xSize, ySize, t))
  }

  /** init as written accepts a 2x3 dual matrix, whose pixel (1, 2) maps to
      chain position 6 = NUMPIX, one past the last pixel of message. */
  lemma ConfigureAsWrittenAcceptsOverflow()
    ensures ConfigureAsWritten(2, 3, "dual") == Ok(Config(2, 3, Dual))
    ensures Ppos(Dual, 2, 3, 1, 2) == 2 * 3
  {
  }

  /** init with the height check Dual needs: it refuses exactly the Dual
      matrices with an odd height and more than one column, and every
      configuration it accepts has a geometry on which Ppos is a bijection. */
  function Configure(xSize: nat, ySize: nat, name: string): (r: Result<Config, ConfigError>)
    ensures r.Ok? ==> Geometry(r.value.tile, r.value.xSize, r.value.ySize)
    ensures r.Ok? <==> ConfigureAsWritten(xSize, ySize, name).Ok? && !(name == "dual" && ySize % 2 == 1 && xSize != 1)
    ensures r.Ok? ==> r == ConfigureAsWritten(xSize, ySize, name)
  {
    match ConfigureAsWritten(xSize, ySize, name)
    case Err(e) => Err(e)
    case Ok(c) => if c.tile == Dual && !DualFits(c.xSize, c.ySize) then Err(OddDualHeight) else Ok(c)
  }

  /** A single-column Dual matrix of odd height is a bijection, so the
      corrected checks keep accepting it: 1x3 maps rows 0, 1, 2 to 1, 0, 2. */
  lemma SingleColumnDual()
    ensures Configure(1, 3, "dual") == Ok(Config(1, 3, Dual))
    ensures Ppos(Dual, 1, 3, 0, 0) == 1 && Ppos(Dual, 1, 3, 0, 1) == 0 && Ppos(Dual, 1, 3, 0, 2) == 2
  {
  }

  // ----- arithmetic helpers -----

  lemma RowMajorBound(xSize: nat, ySize: nat, x: int, y: int)
    requires 0 <= x < xSize && 0 <= y < ySize
    ensures 0 <= x + y * xSize < xSize * ySize
  {
    assert y * xSize <= (ySize - 1) * xSize by {
      assert (ySize - 1 - y) * xSize >= 0;
    }
  }

  lemma RowMajorDivMod(xSize: nat, x: int, y: int)
    requires 0 <= x < xSize && 0 <= y
    ensures (x + y * xSize) / xSize == y && (x + y * xSize) % xSize == x
  {
    var a := x + y * xSize;
    var q, r := a / xSize, a % xSize;
    assert a == q * xSize + r;
    var d := q - y;
    assert d * xSize == x - r;
    MultipleBounds(d, xSize);
  }

  /** A non-zero multiple of m is at least m away from zero. */
  lemma MultipleBounds(d: int, m: nat)
    ensures d >= 1 ==> d * m >= m
    ensures d <= -1 ==> d * m + m <= 0
  {
    if d >= 1 {
      assert (d - 1) * m >= 0;
    } else if d <= -1 {
      assert (-d - 1) * m >= 0;
    }
  }

  lemma DivBelow(p: nat, xSize: nat, rows: nat)
    requires xSize > 0 && p < xSize * rows
    ensures p / xSize < rows
  {
  }
}
