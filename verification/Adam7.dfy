/** Adam7 interlacing (section 8.2 of ISO/IEC 15948): seven passes, each a grid of pixels. */
module Adam7 {
  import opened Bits

  const XORIG: seq<nat> := [0, 4, 0, 2, 0, 1, 0]
  const YORIG: seq<nat> := [0, 0, 4, 0, 2, 0, 1]
  const XSPC: seq<nat> := [8, 8, 4, 4, 2, 2, 1]
  const YSPC: seq<nat> := [8, 8, 8, 4, 4, 2, 2]

  const MAX_DIMENSION: nat := 0x100_0000

  /** Number of pixels of a pass along a side of n pixels, in 32-bit unsigned arithmetic. */
  function PassSize(n: nat, orig: nat, spc: nat): nat
    requires spc > 0
  {
    (n - orig + spc - 1) % 0x1_0000_0000 / spc
  }

  /** The subtraction may wrap, but the addition brings it back: the size counts exactly the grid
      lines inside the side, and is 0 when the side ends before the first. */
  lemma SizeCounts(n: nat, orig: nat, spc: nat, i: nat)
    requires 1 <= n <= MAX_DIMENSION && orig < spc && spc in {1, 2, 4, 8}
    ensures i < PassSize(n, orig, spc) <==> i * spc + orig < n
  {
    if spc == 1 {
    } else if spc == 2 {
    } else if spc == 4 {
    } else {
    }
  }

  lemma GridShape(p: nat)
    requires p < 7
    ensures XORIG[p] < XSPC[p] && XSPC[p] in {1, 2, 4, 8}
    ensures YORIG[p] < YSPC[p] && YSPC[p] in {1, 2, 4, 8}
  {
  }

  lemma PassSizeCounts(n: nat, p: nat, i: nat)
    requires 1 <= n <= MAX_DIMENSION && p < 7
    ensures i < PassSize(n, XORIG[p], XSPC[p]) <==> i * XSPC[p] + XORIG[p] < n
    ensures i < PassSize(n, YORIG[p], YSPC[p]) <==> i * YSPC[p] + YORIG[p] < n
  {
    hide PassSize;
    GridShape(p);
    SizeCounts(n, XORIG[p], XSPC[p], i);
    SizeCounts(n, YORIG[p], YSPC[p], i);
  }

  lemma EmptyPass(n: nat, p: nat)
    requires 1 <= n <= MAX_DIMENSION && p < 7
    ensures PassSize(n, XORIG[p], XSPC[p]) == 0 <==> n <= XORIG[p]
    ensures PassSize(n, YORIG[p], YSPC[p]) == 0 <==> n <= YORIG[p]
  {
    PassSizeCounts(n, p, 0);
  }

  /** The pass of each cell of the 8 by 8 pattern. */
  function Cell(a: nat, b: nat): (p: nat)
    requires a < 8 && b < 8
    ensures p < 7
  {
    if b == 1 || b == 3 || b == 5 || b == 7 then 6
    else if a == 1 || a == 3 || a == 5 || a == 7 then 5
    else if b == 2 || b == 6 then 4
    else if a == 2 || a == 6 then 3
    else if b == 4 then 2
    else if a == 4 then 1
    else 0
  }

  /** The pattern as section 8.2 of ISO/IEC 15948 prints it, passes counted from 1. */
  const PATTERN: seq<seq<nat>> := [
    [1, 6, 4, 6, 2, 6, 4, 6],
    [7, 7, 7, 7, 7, 7, 7, 7],
    [5, 6, 5, 6, 5, 6, 5, 6],
    [7, 7, 7, 7, 7, 7, 7, 7],
    [3, 6, 4, 6, 3, 6, 4, 6],
    [7, 7, 7, 7, 7, 7, 7, 7],
    [5, 6, 5, 6, 5, 6, 5, 6],
    [7, 7, 7, 7, 7, 7, 7, 7]]

  lemma CellIsPattern(a: nat, b: nat)
    requires a < 8 && b < 8
    ensures |PATTERN| == 8 && |PATTERN[b]| == 8 && PATTERN[b][a] == Cell(a, b) + 1
  {
  }

  lemma MaxDimension()
    ensures MAX_DIMENSION == Pow2(24)
  {
    Pow2Values();
    hide Pow2;
    ShlPow2(16, 8);
    ShlMul(Pow2(16), 8);
  }

  /** The pass that carries pixel (x, y). */
  function PassOf(x: nat, y: nat): (p: nat)
    ensures p < 7
  {
    Cell(x % 8, y % 8)
  }

  /** A cell is on the grid of its own pass and of no other. */
  lemma CellGrid(a: nat, b: nat, p: nat)
    requires a < 8 && b < 8 && p < 7
    ensures Cell(a, b) == p <==> a % XSPC[p] == XORIG[p] && b % YSPC[p] == YORIG[p]
  {
    if b % 2 == 1 {
    } else if a % 2 == 1 {
    } else if b % 4 == 2 {
    } else if a % 4 == 2 {
    } else {
    }
  }

  lemma Mod8(x: nat, spc: nat)
    requires spc in {1, 2, 4, 8}
    ensures x % 8 % spc == x % spc
  {
    if spc == 1 {
    } else if spc == 2 {
    } else if spc == 4 {
    } else {
    }
  }

  function Column(x: nat, y: nat): int {
    (x - XORIG[PassOf(x, y)]) / XSPC[PassOf(x, y)]
  }

  function Row(x: nat, y: nat): int {
    (y - YORIG[PassOf(x, y)]) / YSPC[PassOf(x, y)]
  }

  /** Every pixel is on the grid of its pass, */
  lemma OnGrid(x: nat, y: nat)
    ensures Column(x, y) >= 0 && Column(x, y) * XSPC[PassOf(x, y)] + XORIG[PassOf(x, y)] == x
    ensures Row(x, y) >= 0 && Row(x, y) * YSPC[PassOf(x, y)] + YORIG[PassOf(x, y)] == y
  {
    hide PassOf;
    var p := PassOf(x, y);
    Residues(x, y, p);
    GridShape(p);
    GridLine(x, XORIG[p], XSPC[p]);
    GridLine(y, YORIG[p], YSPC[p]);
  }

  /** The pixels of a pass are those on its grid. */
  lemma Residues(x: nat, y: nat, p: nat)
    requires p < 7
    ensures PassOf(x, y) == p <==> x % XSPC[p] == XORIG[p] && y % YSPC[p] == YORIG[p]
  {
    hide Cell;
    GridShape(p);
    Mod8(x, XSPC[p]);
    Mod8(y, YSPC[p]);
    CellGrid(x % 8, y % 8, p);
  }

  lemma GridLine(n: nat, orig: nat, spc: nat)
    requires spc in {1, 2, 4, 8} && n % spc == orig
    ensures (n - orig) / spc >= 0 && (n - orig) / spc * spc + orig == n
  {
  }

  /** and on no other. */
  lemma OnlyGrid(p: nat, i: nat, j: nat)
    requires p < 7
    ensures var x, y := i * XSPC[p] + XORIG[p], j * YSPC[p] + YORIG[p];
            PassOf(x, y) == p && Column(x, y) == i && Row(x, y) == j
  {
    hide PassOf;
    var x, y := i * XSPC[p] + XORIG[p], j * YSPC[p] + YORIG[p];
    GridShape(p);
    LineBack(i, XORIG[p], XSPC[p]);
    LineBack(j, YORIG[p], YSPC[p]);
    Residues(x, y, p);
  }

  lemma LineBack(i: nat, orig: nat, spc: nat)
    requires spc in {1, 2, 4, 8} && orig < spc
    ensures (i * spc + orig) % spc == orig && (i * spc + orig - orig) / spc == i
  {
    Quotient(i, orig, spc);
    Quotient(i, 0, spc);
  }
}
