/**
 * The framebuffer of the interpreter: a 32 x 64 grid of byte cells, row
 * first, and a flag that says whether the grid changed since it was last
 * presented.  Rendering the grid on a window is not modelled; presenting only
 * consumes the flag.
 */
module Video {
  import opened Bits

  const Height: nat := 32
  const Width: nat := 64

  /**
   * The position of cell (r, c) in a grid value.  A grid value lists the
   * cells row by row, so that one cell update is one sequence update.
   */
  function Cell(r: nat, c: nat): (i: nat)
    requires r < Height && c < Width
    ensures i < Height * Width
  {
    r * Width + c
  }

  lemma CellInjective(r: nat, c: nat, r': nat, c': nat)
    requires r < Height && c < Width && r' < Height && c' < Width
    ensures Cell(r, c) == Cell(r', c') <==> r == r' && c == c'
  {
  }

  /** A grid value: `Height` rows of `Width` cells each. */
  predicate IsGrid(g: seq<Byte>)
  {
    |g| == Height * Width
  }

  /** Every cell is 0 or 1. */
  predicate IsBinary(g: seq<Byte>)
  {
    forall i :: 0 <= i < |g| ==> g[i] <= 1
  }

  /** The grid with every cell dark. */
  function Blank(): (g: seq<Byte>)
    ensures IsGrid(g)
    ensures forall i :: 0 <= i < |g| ==> g[i] == 0
  {
    seq(Height * Width, _ => 0)
  }

  /** The grid after `gfx[y][x] ^= color`. */
  function Toggle(g: seq<Byte>, y: nat, x: nat, color: Byte): (g': seq<Byte>)
    requires IsGrid(g) && y < Height && x < Width
    ensures IsGrid(g')
  {
    g[Cell(y, x) := BitXor(g[Cell(y, x)], color)]
  }

  /** Toggling changes cell (y, x) to `g[y][x] ^ color` and no other cell. */
  lemma ToggleCells(g: seq<Byte>, y: nat, x: nat, color: Byte)
    requires IsGrid(g) && y < Height && x < Width
    ensures forall r, c :: 0 <= r < Height && 0 <= c < Width ==>
              Toggle(g, y, x, color)[Cell(r, c)] ==
                if r == y && c == x then BitXor(g[Cell(r, c)], color) else g[Cell(r, c)]
  {
    forall r, c | 0 <= r < Height && 0 <= c < Width
      ensures Toggle(g, y, x, color)[Cell(r, c)] ==
                if r == y && c == x then BitXor(g[Cell(r, c)], color) else g[Cell(r, c)]
    {
      CellInjective(r, c, y, x);
    }
  }

  /** Toggling with colour 0 changes nothing. */
  lemma ToggleZero(g: seq<Byte>, y: nat, x: nat)
    requires IsGrid(g) && y < Height && x < Width
    ensures Toggle(g, y, x, 0) == g
  {
    BitXorZero(g[Cell(y, x)]);
  }

  /** Toggling the same cell twice with the same colour restores the grid. */
  lemma ToggleTwice(g: seq<Byte>, y: nat, x: nat, color: Byte)
    requires IsGrid(g) && y < Height && x < Width
    ensures Toggle(Toggle(g, y, x, color), y, x, color) == g
  {
    BitXorTwice(g[Cell(y, x)], color);
  }

  /** Toggling with a colour in {0, 1} keeps every cell in {0, 1}. */
  lemma ToggleKeepsBinary(g: seq<Byte>, y: nat, x: nat, color: Byte)
    requires IsGrid(g) && IsBinary(g) && y < Height && x < Width && color <= 1
    ensures IsBinary(Toggle(g, y, x, color))
  {
    BitXorBinary(g[Cell(y, x)], color);
  }

  /** The video driver: the grid `gfx` and the `draw_flag`. */
  class VideoDriver {
    const gfx: array2<Byte>
    var drawFlag: bool
    /** The value held by `gfx`, row by row. */
    ghost var cells: seq<Byte>

    ghost predicate Valid()
      reads this, gfx
    {
      && gfx.Length0 == Height && gfx.Length1 == Width
      && IsGrid(cells)
      && forall r, c :: 0 <= r < Height && 0 <= c < Width ==> gfx[r, c] == cells[Cell(r, c)]
    }

    /** A driver with a dark grid and no pending redraw. */
    constructor ()
      ensures Valid() && fresh(gfx)
      ensures cells == Blank() && !drawFlag
    {
      gfx := new Byte[Height, Width]((_, _) => 0);
      drawFlag := false;
      cells := Blank();
    }

    /** Presents the grid if it changed; the flag is consumed either way. */
    method UpdateScreen() returns (presented: bool)
      requires Valid()
      modifies this
      ensures Valid()
      ensures presented == old(drawFlag)
      ensures cells == old(cells) && !drawFlag
    {
      if !drawFlag {
        return false;
      }
      presented := true;
      drawFlag := false;
    }

    /** Clears every cell and asks for a redraw. */
    method ReinitializeScreen()
      requires Valid()
      modifies this, gfx
      ensures Valid()
      ensures cells == Blank() && drawFlag
    {
      forall r, c | 0 <= r < Height && 0 <= c < Width {
        gfx[r, c] := 0;
      }
      cells := Blank();
      drawFlag := true;
    }

    /** The cell at row `y`, column `x`. */
    method PixelState(y: nat, x: nat) returns (p: Byte)
      requires Valid() && y < Height && x < Width
      ensures p == cells[Cell(y, x)] && p == gfx[y, x]
    {
      p := gfx[y, x];
    }

    /** `gfx[y][x] ^= color`. */
    method TogglePixelState(y: nat, x: nat, color: Byte)
      requires Valid() && y < Height && x < Width
      modifies this, gfx
      ensures Valid()
      ensures cells == Toggle(old(cells), y, x, color)
      ensures drawFlag == old(drawFlag)
    {
      gfx[y, x] := BitXor(gfx[y, x], color);
      ToggleCells(cells, y, x, color);
      cells := Toggle(cells, y, x, color);
    }

    method SetDrawFlag(flag: bool)
      requires Valid()
      modifies this
      ensures Valid()
      ensures drawFlag == flag && cells == old(cells)
    {
      drawFlag := flag;
    }
  }
}
