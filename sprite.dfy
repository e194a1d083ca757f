/**
 * The sprite draw of instruction Dxyn, on the value of the grid and of the
 * registers.
 *
 * The interpreter clears VF, then for each sprite row computes the screen row
 * from the current Vy and, for each of the row's eight bits, most significant
 * first, the screen column from the current Vx; it ORs "bit set and cell
 * lit" into VF and XORs the bit into the cell.  Only VF changes while the
 * loops run, so `DrawLoop` carries the grid and VF and reads every register
 * through `Reg`.  A sprite drawn through X = 15 or Y = 15 therefore moves as
 * the flag changes, exactly as in the interpreter.  For X and Y other than 15
 * the draw has a closed form (`DrawSpriteClosedForm`): the toroidal XOR blit
 * plus a collision flag.
 */
module Sprite {
  import opened Bits
  import opened Video

  const RegisterCount: nat := 16
  /** The index of VF, the flag register. */
  const Flag: nat := 0xF

  /** What the draw loops change: the grid and VF. */
  datatype Pen = Pen(grid: seq<Byte>, vf: Byte)

  /** Register `i` while the loops run, VF being `vf`. */
  function Reg(regs: seq<Byte>, vf: Byte, i: nat): Byte
    requires |regs| == RegisterCount && i < RegisterCount
  {
    if i == Flag then vf else regs[i]
  }

  /** Bit `bit` of a sprite row, counting from the most significant one: `(b >> (7 - bit)) & 1`. */
  function SpriteBit(b: Byte, bit: nat): (c: Byte)
    requires bit < 8
    ensures c <= 1
  {
    BitAt(b, 7 - bit)
  }

  /** Bit `bit` of sprite row `row` of the sprite stored at `mem[index..]`. */
  function SpriteBitAt(mem: seq<Byte>, index: nat, row: nat, bit: nat): (c: Byte)
    requires index + row < |mem| && bit < 8
    ensures c <= 1
  {
    SpriteBit(mem[index + row], bit)
  }

  /** The screen column of sprite bit `bit` when the sprite starts at column `vx`: the screen wraps. */
  function Column(vx: nat, bit: nat): (c: nat)
    ensures c < Width
  {
    (vx + bit) % Width
  }

  /** The screen row of sprite row `row` when the sprite starts at row `vy`. */
  function ScreenRow(vy: nat, row: nat): (r: nat)
    ensures r < Height
  {
    (vy + row) % Height
  }

  /**
   * The two loops from sprite row `row`, bit `bit` on, the current row being
   * drawn on screen row `py`: each bit XORs its colour into one cell and ORs
   * its collision into VF; at the end of a row the next screen row is read
   * off Vy.
   */
  function DrawLoop(grid: seq<Byte>, vf: Byte, regs: seq<Byte>, mem: seq<Byte>, index: nat, x: nat, y: nat, n: nat,
                    row: nat, py: nat, bit: nat): (p: Pen)
    requires IsGrid(grid) && |regs| == RegisterCount && x < RegisterCount && y < RegisterCount
    requires index + n <= |mem| && row <= n && py < Height && bit <= 8
    ensures IsGrid(p.grid)
    decreases n - row, 8 - bit
  {
    if row == n then Pen(grid, vf)
    else if bit == 8 then DrawLoop(grid, vf, regs, mem, index, x, y, n, row + 1, ScreenRow(Reg(regs, vf, y), row + 1), 0)
    else
      var px := Column(Reg(regs, vf, x), bit);
      var color := SpriteBitAt(mem, index, row, bit);
      var flag := BitOr(vf, BitAnd(color, grid[Cell(py, px)]));
      DrawLoop(Toggle(grid, py, px, color), flag, regs, mem, index, x, y, n, row, py, bit + 1)
  }

  /** The flag after one plot, provided it was 0 or 1 before. */
  lemma PlotFlag(flag: Byte, color: Byte, pixel: Byte)
    requires flag <= 1 && color <= 1
    ensures BitOr(flag, BitAnd(color, pixel)) == if flag == 1 || (color == 1 && pixel % 2 == 1) then 1 else 0
  {
    BitAndBinary(color, pixel);
    BitOrBinary(flag, BitAnd(color, pixel));
  }

  /** The loops keep VF at 0 or 1 and a grid of 0/1 cells a grid of 0/1 cells, whatever X and Y are. */
  lemma {:induction false} DrawLoopKeeps(grid: seq<Byte>, vf: Byte, regs: seq<Byte>, mem: seq<Byte>, index: nat, x: nat, y: nat, n: nat,
                    row: nat, py: nat, bit: nat)
    requires IsGrid(grid) && |regs| == RegisterCount && x < RegisterCount && y < RegisterCount
    requires index + n <= |mem| && row <= n && py < Height && bit <= 8
    requires vf <= 1
    ensures var p := DrawLoop(grid, vf, regs, mem, index, x, y, n, row, py, bit);
      p.vf <= 1 && (IsBinary(grid) ==> IsBinary(p.grid))
    decreases n - row, 8 - bit
  {
    if row == n {
    } else if bit == 8 {
      DrawLoopKeeps(grid, vf, regs, mem, index, x, y, n, row + 1, ScreenRow(Reg(regs, vf, y), row + 1), 0);
    } else {
      var px := Column(Reg(regs, vf, x), bit);
      var color := SpriteBitAt(mem, index, row, bit);
      PlotFlag(vf, color, grid[Cell(py, px)]);
      if IsBinary(grid) {
        ToggleKeepsBinary(grid, py, px, color);
      }
      DrawLoopKeeps(Toggle(grid, py, px, color), BitOr(vf, BitAnd(color, grid[Cell(py, px)])), regs, mem, index, x, y, n, row, py, bit + 1);
    }
  }

  // ---------------------------------------------------------------------
  // The closed form of a draw through registers other than VF

  /** The sprite row that lands on screen row `r` when the sprite starts at row `vy` (the screen wraps). */
  function RowOffset(vy: nat, r: nat): nat
  {
    (r - vy) % Height
  }

  /** The sprite bit that lands on column `c` when the sprite starts at column `vx`. */
  function BitOffset(vx: nat, c: nat): nat
  {
    (c - vx) % Width
  }

  lemma RowInverse(vy: nat, k: nat, r: nat)
    requires k < Height && r < Height
    ensures RowOffset(vy, r) == k <==> r == ScreenRow(vy, k)
  {
  }

  lemma ColumnInverse(vx: nat, k: nat, c: nat)
    requires k < Width && c < Width
    ensures BitOffset(vx, c) == k <==> c == Column(vx, k)
  {
  }

  /** Sprite bit (row, bit) is drawn at or after loop position (lo, b): a later row, or a later bit of row `lo`. */
  predicate Later(lo: nat, b: nat, n: nat, row: nat, bit: nat)
  {
    lo <= row < n && bit < 8 && (row > lo || bit >= b)
  }

  /** Cell (r, c) of `g` once the sprite bits from loop position (lo, b) on are XOR-ed in. */
  function DrawnCell(g: seq<Byte>, mem: seq<Byte>, index: nat, vx: nat, vy: nat, n: nat, lo: nat, b: nat, r: nat, c: nat): Byte
    requires IsGrid(g) && r < Height && c < Width && index + n <= |mem|
  {
    var row, bit := RowOffset(vy, r), BitOffset(vx, c);
    if Later(lo, b, n, row, bit) then BitXor(g[Cell(r, c)], SpriteBitAt(mem, index, row, bit)) else g[Cell(r, c)]
  }

  /** Some set sprite bit from loop position (lo, b) on targets a lit cell of `g`. */
  ghost predicate Hits(g: seq<Byte>, mem: seq<Byte>, index: nat, vx: nat, vy: nat, n: nat, lo: nat, b: nat)
    requires IsGrid(g) && index + n <= |mem|
  {
    exists row: nat, bit: nat :: Later(lo, b, n, row, bit) && SpriteBitAt(mem, index, row, bit) == 1
                       && g[Cell(ScreenRow(vy, row), Column(vx, bit))] % 2 == 1
  }

  /** With X, Y other than 15, the loops from (row, bit) on XOR exactly the pending sprite bits into their cells. */
  lemma {:induction false} DrawLoopGrid(grid: seq<Byte>, vf: Byte, regs: seq<Byte>, mem: seq<Byte>, index: nat, x: nat, y: nat, n: nat,
                    row: nat, py: nat, bit: nat)
    requires IsGrid(grid) && |regs| == RegisterCount && x < Flag && y < Flag
    requires index + n <= |mem| && row <= n <= Height && bit <= 8 && py == ScreenRow(regs[y], row)
    ensures var p := DrawLoop(grid, vf, regs, mem, index, x, y, n, row, py, bit);
      forall r, c :: 0 <= r < Height && 0 <= c < Width ==>
        p.grid[Cell(r, c)] == DrawnCell(grid, mem, index, regs[x], regs[y], n, row, bit, r, c)
    decreases n - row, 8 - bit
  {
    var vx, vy := regs[x], regs[y];
    if row == n {
    } else if bit == 8 {
      DrawLoopGrid(grid, vf, regs, mem, index, x, y, n, row + 1, ScreenRow(vy, row + 1), 0);
    } else {
      var px := Column(vx, bit);
      var color := SpriteBitAt(mem, index, row, bit);
      var grid1 := Toggle(grid, py, px, color);
      DrawLoopGrid(grid1, BitOr(vf, BitAnd(color, grid[Cell(py, px)])), regs, mem, index, x, y, n, row, py, bit + 1);
      ToggleCells(grid, py, px, color);
      forall r, c | 0 <= r < Height && 0 <= c < Width
        ensures DrawnCell(grid1, mem, index, vx, vy, n, row, bit + 1, r, c) == DrawnCell(grid, mem, index, vx, vy, n, row, bit, r, c)
      {
        RowInverse(vy, row, r);
        ColumnInverse(vx, bit, c);
      }
    }
  }

  /** Splitting off the first pending bit: it targets a cell that no later bit targets. */
  lemma HitsStep(grid: seq<Byte>, mem: seq<Byte>, index: nat, vx: nat, vy: nat, n: nat, row: nat, bit: nat)
    requires IsGrid(grid) && index + n <= |mem| && row < n <= Height && bit < 8
    ensures var py, px := ScreenRow(vy, row), Column(vx, bit);
      var color := SpriteBitAt(mem, index, row, bit);
      Hits(grid, mem, index, vx, vy, n, row, bit) ==
        ((color == 1 && grid[Cell(py, px)] % 2 == 1) || Hits(Toggle(grid, py, px, color), mem, index, vx, vy, n, row, bit + 1))
  {
    var py, px := ScreenRow(vy, row), Column(vx, bit);
    var color := SpriteBitAt(mem, index, row, bit);
    var grid1 := Toggle(grid, py, px, color);
    ToggleCells(grid, py, px, color);
    forall k: nat, b: nat | Later(row, bit + 1, n, k, b)
      ensures grid1[Cell(ScreenRow(vy, k), Column(vx, b))] == grid[Cell(ScreenRow(vy, k), Column(vx, b))]
    {
      RowInverse(vy, row, ScreenRow(vy, k));
      RowInverse(vy, k, ScreenRow(vy, k));
      ColumnInverse(vx, bit, Column(vx, b));
      ColumnInverse(vx, b, Column(vx, b));
    }
    assert Hits(grid1, mem, index, vx, vy, n, row, bit + 1) == Hits(grid, mem, index, vx, vy, n, row, bit + 1);
    var hit := color == 1 && grid[Cell(py, px)] % 2 == 1;
    if Hits(grid, mem, index, vx, vy, n, row, bit) && !hit {
      var k: nat, b: nat :| Later(row, bit, n, k, b) && SpriteBitAt(mem, index, k, b) == 1
                  && grid[Cell(ScreenRow(vy, k), Column(vx, b))] % 2 == 1;
      assert (k, b) != (row, bit);
    }
    if hit {
      assert Later(row, bit, n, row, bit);
    }
  }

  /** With X, Y other than 15, the loops from (row, bit) on set VF exactly when some pending set bit hits a lit cell. */
  lemma {:induction false} DrawLoopFlag(grid: seq<Byte>, vf: Byte, regs: seq<Byte>, mem: seq<Byte>, index: nat, x: nat, y: nat, n: nat,
                    row: nat, py: nat, bit: nat)
    requires IsGrid(grid) && |regs| == RegisterCount && x < Flag && y < Flag
    requires index + n <= |mem| && row <= n <= Height && bit <= 8 && py == ScreenRow(regs[y], row)
    requires vf <= 1
    ensures DrawLoop(grid, vf, regs, mem, index, x, y, n, row, py, bit).vf ==
              if vf == 1 || Hits(grid, mem, index, regs[x], regs[y], n, row, bit) then 1 else 0
    decreases n - row, 8 - bit
  {
    var vx, vy := regs[x], regs[y];
    if row == n {
    } else if bit == 8 {
      DrawLoopFlag(grid, vf, regs, mem, index, x, y, n, row + 1, ScreenRow(vy, row + 1), 0);
      assert Hits(grid, mem, index, vx, vy, n, row, bit) == Hits(grid, mem, index, vx, vy, n, row + 1, 0);
    } else {
      var px := Column(vx, bit);
      var color := SpriteBitAt(mem, index, row, bit);
      var grid1 := Toggle(grid, py, px, color);
      var vf1 := BitOr(vf, BitAnd(color, grid[Cell(py, px)]));
      PlotFlag(vf, color, grid[Cell(py, px)]);
      DrawLoopFlag(grid1, vf1, regs, mem, index, x, y, n, row, py, bit + 1);
      HitsStep(grid, mem, index, vx, vy, n, row, bit);
    }
  }

  // ---------------------------------------------------------------------
  // Dxyn

  /** The grid and the register file after a draw. */
  datatype Canvas = Canvas(grid: seq<Byte>, regs: seq<Byte>)

  /** Dxyn on the grid and the registers: VF := 0, then the loops over the sprite at `mem[index..index + n]`. */
  function DrawSprite(grid: seq<Byte>, regs: seq<Byte>, mem: seq<Byte>, index: nat, x: nat, y: nat, n: nat): (cv: Canvas)
    requires IsGrid(grid) && |regs| == RegisterCount && x < RegisterCount && y < RegisterCount
    requires index + n <= |mem|
    ensures IsGrid(cv.grid) && |cv.regs| == RegisterCount
  {
    var p := DrawLoop(grid, 0, regs, mem, index, x, y, n, 0, ScreenRow(Reg(regs, 0, y), 0), 0);
    Canvas(p.grid, regs[Flag := p.vf])
  }

  /**
   * With X and Y other than 15, Dxyn XORs bit `bit` of sprite row `row` into
   * cell ((Vy + row) mod 32, (Vx + bit) mod 64), changes no other cell, and
   * sets VF to 1 exactly when some set bit of the sprite landed on a lit cell.
   */
  lemma DrawSpriteClosedForm(grid: seq<Byte>, regs: seq<Byte>, mem: seq<Byte>, index: nat, x: nat, y: nat, n: nat)
    requires IsGrid(grid) && |regs| == RegisterCount && x < Flag && y < Flag && n < 16 && index + n <= |mem|
    ensures var cv := DrawSprite(grid, regs, mem, index, x, y, n);
      && (forall r, c :: 0 <= r < Height && 0 <= c < Width ==>
            cv.grid[Cell(r, c)] == DrawnCell(grid, mem, index, regs[x], regs[y], n, 0, 0, r, c))
      && cv.regs == regs[Flag := if Hits(grid, mem, index, regs[x], regs[y], n, 0, 0) then 1 else 0]
  {
    var py := ScreenRow(regs[y], 0);
    DrawLoopGrid(grid, 0, regs, mem, index, x, y, n, 0, py, 0);
    DrawLoopFlag(grid, 0, regs, mem, index, x, y, n, 0, py, 0);
  }

  /** Some set bit of the sprite targets a cell of `g` that is dark. */
  ghost predicate HitsDark(g: seq<Byte>, mem: seq<Byte>, index: nat, vx: nat, vy: nat, n: nat)
    requires IsGrid(g) && index + n <= |mem|
  {
    exists row: nat, bit: nat :: Later(0, 0, n, row, bit) && SpriteBitAt(mem, index, row, bit) == 1
                                 && g[Cell(ScreenRow(vy, row), Column(vx, bit))] % 2 == 0
  }

  lemma DrawnCellTwice(g: seq<Byte>, g1: seq<Byte>, mem: seq<Byte>, index: nat, vx: nat, vy: nat, n: nat, r: nat, c: nat)
    requires IsGrid(g) && IsGrid(g1) && r < Height && c < Width && index + n <= |mem|
    requires g1[Cell(r, c)] == DrawnCell(g, mem, index, vx, vy, n, 0, 0, r, c)
    ensures DrawnCell(g1, mem, index, vx, vy, n, 0, 0, r, c) == g[Cell(r, c)]
  {
    var row, bit := RowOffset(vy, r), BitOffset(vx, c);
    if Later(0, 0, n, row, bit) {
      BitXorTwice(g[Cell(r, c)], SpriteBitAt(mem, index, row, bit));
    }
  }

  /**
   * Drawing the same sprite twice (X, Y other than 15) restores the grid; the
   * second draw reports a collision exactly when some set bit of the sprite
   * targets a cell that was dark before the first draw.
   */
  lemma DrawTwice(grid: seq<Byte>, regs: seq<Byte>, mem: seq<Byte>, index: nat, x: nat, y: nat, n: nat)
    requires IsGrid(grid) && |regs| == RegisterCount && x < Flag && y < Flag && n < 16 && index + n <= |mem|
    ensures var cv1 := DrawSprite(grid, regs, mem, index, x, y, n);
      var cv2 := DrawSprite(cv1.grid, cv1.regs, mem, index, x, y, n);
      && cv2.grid == grid
      && (cv2.regs[Flag] == 1 <==> HitsDark(grid, mem, index, regs[x], regs[y], n))
  {
    var vx, vy := regs[x], regs[y];
    var cv1 := DrawSprite(grid, regs, mem, index, x, y, n);
    DrawSpriteClosedForm(grid, regs, mem, index, x, y, n);
    var cv2 := DrawSprite(cv1.grid, cv1.regs, mem, index, x, y, n);
    DrawSpriteClosedForm(cv1.grid, cv1.regs, mem, index, x, y, n);
    forall i | 0 <= i < |grid|
      ensures cv2.grid[i] == grid[i]
    {
      var r, c := i / Width, i % Width;
      assert i == Cell(r, c);
      DrawnCellTwice(grid, cv1.grid, mem, index, vx, vy, n, r, c);
    }
    // A set bit lands on a lit cell of the first result exactly when its target was dark before.
    forall row: nat, bit: nat | Later(0, 0, n, row, bit) && SpriteBitAt(mem, index, row, bit) == 1
      ensures cv1.grid[Cell(ScreenRow(vy, row), Column(vx, bit))] % 2 == 1 - grid[Cell(ScreenRow(vy, row), Column(vx, bit))] % 2
    {
      var r, c := ScreenRow(vy, row), Column(vx, bit);
      RowInverse(vy, row, r);
      ColumnInverse(vx, bit, c);
      BitXorOne(grid[Cell(r, c)]);
    }
    assert Hits(cv1.grid, mem, index, vx, vy, n, 0, 0) == HitsDark(grid, mem, index, vx, vy, n);
  }

  /** The sprite has a set bit in its first `n` rows. */
  ghost predicate HasSetBit(mem: seq<Byte>, index: nat, n: nat)
    requires index + n <= |mem|
  {
    exists row: nat, bit: nat :: Later(0, 0, n, row, bit) && SpriteBitAt(mem, index, row, bit) == 1
  }

  /** On a dark grid, the second of two identical draws erases the sprite and reports a collision exactly when it has a set bit. */
  lemma DrawTwiceOnBlank(regs: seq<Byte>, mem: seq<Byte>, index: nat, x: nat, y: nat, n: nat)
    requires |regs| == RegisterCount && x < Flag && y < Flag && n < 16 && index + n <= |mem|
    ensures var cv1 := DrawSprite(Blank(), regs, mem, index, x, y, n);
      var cv2 := DrawSprite(cv1.grid, cv1.regs, mem, index, x, y, n);
      && cv2.grid == Blank()
      && (cv2.regs[Flag] == 1 <==> HasSetBit(mem, index, n))
  {
    DrawTwice(Blank(), regs, mem, index, x, y, n);
    HitsDarkOnBlank(mem, index, regs[x], regs[y], n);
  }

  lemma HitsDarkOnBlank(mem: seq<Byte>, index: nat, vx: nat, vy: nat, n: nat)
    requires index + n <= |mem|
    ensures HitsDark(Blank(), mem, index, vx, vy, n) <==> HasSetBit(mem, index, n)
  {
    if HasSetBit(mem, index, n) {
      var row: nat, bit: nat :| Later(0, 0, n, row, bit) && SpriteBitAt(mem, index, row, bit) == 1;
      assert Blank()[Cell(ScreenRow(vy, row), Column(vx, bit))] == 0;
    }
  }

  /** Whatever X and Y are, a draw changes no register but VF, leaves VF at 0 or 1, and keeps a 0/1 grid 0/1. */
  lemma DrawSpriteKeeps(grid: seq<Byte>, regs: seq<Byte>, mem: seq<Byte>, index: nat, x: nat, y: nat, n: nat)
    requires IsGrid(grid) && |regs| == RegisterCount && x < RegisterCount && y < RegisterCount && index + n <= |mem|
    ensures var cv := DrawSprite(grid, regs, mem, index, x, y, n);
      && cv.regs[Flag] <= 1
      && (forall j :: 0 <= j < RegisterCount && j != Flag ==> cv.regs[j] == regs[j])
      && (IsBinary(grid) ==> IsBinary(cv.grid))
  {
    DrawLoopKeeps(grid, 0, regs, mem, index, x, y, n, 0, ScreenRow(Reg(regs, 0, y), 0), 0);
  }
}
