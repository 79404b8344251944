/**
 The three conversions of a two-dimensional tensor to the blocked "NZ" layout.  A tensor
 is its row-major buffer; `reshape` keeps the buffer and `permute` rearranges it.
 */
module NzLayout {
  import opened Arith
  import opened Lists

  const BLOCK := 16

  // ----- tensor operations on row-major buffers

  /** Pads a `rows` by `cols` buffer with zeros to `rowsP` by `colsP`. */
  function Pad(x: seq<int>, rows: nat, cols: nat, rowsP: nat, colsP: nat): (y: seq<int>)
    requires |x| == rows * cols && rows <= rowsP && cols <= colsP
    ensures |y| == rowsP * colsP
  {
    seq(rowsP * colsP, i requires 0 <= i < rowsP * colsP =>
      PadCell(x, rows, cols, if colsP == 0 then 0 else i / colsP, if colsP == 0 then 0 else i % colsP))
  }

  function PadCell(x: seq<int>, rows: nat, cols: nat, r: int, c: int): int
    requires |x| == rows * cols
  {
    if 0 <= r < rows && 0 <= c < cols then
      RowMajorBound(r, c, rows, cols);
      x[r * cols + c]
    else 0
  }

  /** Exchanges the two middle axes of a buffer of shape `[1, a, b, k]`. */
  function TransposeMiddle(x: seq<int>, a: nat, b: nat, k: nat): (y: seq<int>)
    requires |x| == a * (b * k) && 0 < k
    ensures |y| == b * (a * k)
  {
    seq(b * (a * k), i requires 0 <= i < b * (a * k) =>
      MiddleCell(x, a, b, k, i))
  }

  function MiddleCell(x: seq<int>, a: nat, b: nat, k: nat, i: nat): int
    requires |x| == a * (b * k) && 0 < k && i < b * (a * k)
  {
    var (p, q, t) := Split3(b, a, k, i);
    Join3Bound(a, b, k, q, p, t);
    x[Join3(b, k, q, p, t)]
  }

  /** The row-major index of cell `(p, q, t)` of a tensor whose last two axes have lengths `n` and `k`. */
  function Join3(n: nat, k: nat, p: nat, q: nat, t: nat): nat {
    MulMonotone(0, p, n * k);
    p * (n * k) + (q * k + t)
  }

  /** The cell of a row-major index. */
  function Split3(m: nat, n: nat, k: nat, i: nat): (r: (nat, nat, nat))
    requires 0 < k && i < m * (n * k)
    ensures r.0 < m && r.1 < n && r.2 < k && Join3(n, k, r.0, r.1, r.2) == i
  {
    assert 0 < n * k by { if n * k <= 0 { MulMonotone(0, m, n * k); } }
    RowMajorCell(i, m, n * k);
    RowMajorCell(i % (n * k), n, k);
    (i / (n * k), i % (n * k) / k, i % (n * k) % k)
  }

  lemma Join3Bound(m: nat, n: nat, k: nat, p: nat, q: nat, t: nat)
    requires p < m && q < n && t < k
    ensures Join3(n, k, p, q, t) < m * (n * k)
  {
    RowMajorBound(q, t, n, k);
    RowMajorBound(p, q * k + t, m, n * k);
  }

  /** A cell is determined by its index. */
  lemma Split3OfJoin3(m: nat, n: nat, k: nat, p: nat, q: nat, t: nat)
    requires p < m && q < n && t < k
    ensures Join3(n, k, p, q, t) < m * (n * k)
    ensures Split3(m, n, k, Join3(n, k, p, q, t)) == (p, q, t)
  {
    Join3Bound(m, n, k, p, q, t);
    RowMajorBound(q, t, n, k);
    RowMajor(p, q * k + t, n * k);
    RowMajor(q, t, k);
  }

  // ----- the conversions

  /** The number of blocks that cover `n`. */
  function Blocks(n: nat, width: nat): (r: nat)
    requires 0 < width
    ensures n <= r * width < n + width
  {
    var q := RoundUp(n, width) / width;
    assert RoundUp(n, width) == q * width;
    assert 0 <= q by { if q < 0 { MulMonotone(q, -1, width); } }
    q
  }

  /** `nd_to_nz_2d`: pad, reshape to `[1, rows, blocks, 16]`, exchange the middle axes. */
  function NdToNz2d(x: seq<int>, rows: nat, cols: nat): (y: seq<int>)
    requires |x| == rows * cols
    ensures |y| == Blocks(cols, BLOCK) * (Blocks(rows, BLOCK) * BLOCK * BLOCK)
  {
    var rowsP, blocks := Blocks(rows, BLOCK) * BLOCK, Blocks(cols, BLOCK);
    TransposeMiddle(Pad(x, rows, cols, rowsP, blocks * BLOCK), rowsP, blocks, BLOCK)
  }

  /** Where cell `(r, c)` of a tensor with `rows` rows goes: blocks of `width` columns, row by row. */
  function NzIndex(rows: nat, width: nat, r: nat, c: nat): nat
    requires 0 < width
  {
    Join3(rows, width, c / width, r, c % width)
  }

  /** The cell that an index of the layout comes from: the inverse of `NzIndex`. */
  function NzCell(blocks: nat, rows: nat, width: nat, i: nat): (cell: (nat, nat))
    requires 0 < width && i < blocks * (rows * width)
    ensures cell.0 < rows && cell.1 < blocks * width && NzIndex(rows, width, cell.0, cell.1) == i
  {
    var (block, r, t) := Split3(blocks, rows, width, i);
    RowMajor(block, t, width);
    RowMajorBound(block, t, blocks, width);
    (r, block * width + t)
  }

  /** Reading the layout at the index of a cell gives that cell of the zero-padded tensor. */
  lemma NzIndexIs(x: seq<int>, rows: nat, cols: nat, r: nat, c: nat)
    requires |x| == rows * cols
    requires r < Blocks(rows, BLOCK) * BLOCK && c < Blocks(cols, BLOCK) * BLOCK
    ensures var rowsP := Blocks(rows, BLOCK) * BLOCK;
            && NzIndex(rowsP, BLOCK, r, c) < |NdToNz2d(x, rows, cols)|
            && NdToNz2d(x, rows, cols)[NzIndex(rowsP, BLOCK, r, c)] == PadCell(x, rows, cols, r, c)
            && NzCell(Blocks(cols, BLOCK), rowsP, BLOCK, NzIndex(rowsP, BLOCK, r, c)) == (r, c)
  {
    var rowsP, blocks := Blocks(rows, BLOCK) * BLOCK, Blocks(cols, BLOCK);
    RowMajorCell(c, blocks, BLOCK);
    Split3OfJoin3(blocks, rowsP, BLOCK, c / BLOCK, r, c % BLOCK);
    Join3Bound(rowsP, blocks, BLOCK, r, c / BLOCK, c % BLOCK);
    RowMajor(r, c, blocks * BLOCK);
  }

  /** Every index of the layout holds the cell it comes from, or a zero of the padding. */
  lemma NzCellIs(x: seq<int>, rows: nat, cols: nat, i: nat)
    requires |x| == rows * cols && i < |NdToNz2d(x, rows, cols)|
    ensures var (r, c) := NzCell(Blocks(cols, BLOCK), Blocks(rows, BLOCK) * BLOCK, BLOCK, i);
            NdToNz2d(x, rows, cols)[i] == PadCell(x, rows, cols, r, c)
  {
    var (r, c) := NzCell(Blocks(cols, BLOCK), Blocks(rows, BLOCK) * BLOCK, BLOCK, i);
    NzIndexIs(x, rows, cols, r, c);
  }

  lemma PadAt(x: seq<int>, rows: nat, cols: nat, rowsP: nat, colsP: nat, r: nat, c: nat)
    requires |x| == rows * cols && rows <= rowsP && cols <= colsP && r < rowsP && c < colsP
    ensures r * colsP + c < rowsP * colsP
    ensures Pad(x, rows, cols, rowsP, colsP)[r * colsP + c] == PadCell(x, rows, cols, r, c)
  {
    RowMajorBound(r, c, rowsP, colsP);
    RowMajor(r, c, colsP);
  }

  /** Beyond the rows and columns of the tensor the padded buffer is zero. */
  lemma PadZero(x: seq<int>, rows: nat, cols: nat, rowsP: nat, colsP: nat, r: nat, c: nat, i: nat)
    requires |x| == rows * cols && rows <= rowsP && cols <= colsP && r < rowsP && c < colsP
    requires i == r * colsP + c && (rows <= r || cols <= c)
    ensures i < rowsP * colsP && Pad(x, rows, cols, rowsP, colsP)[i] == 0
  {
    PadAt(x, rows, cols, rowsP, colsP, r, c);
  }

  /** The buffer agrees with the padded tensor before index `n` and is zero from there on. */
  ghost predicate FilledUpTo(buffer: seq<int>, padded: seq<int>, n: int) {
    && |buffer| == |padded|
    && forall i :: 0 <= i < |buffer| ==> buffer[i] == if i < n then padded[i] else 0
  }

  /** Copies the tensor into a zero buffer of the padded shape. */
  method FillPadded(x: seq<int>, rows: nat, cols: nat, rowsP: nat, colsP: nat) returns (buffer: array<int>)
    requires |x| == rows * cols && rows <= rowsP && cols <= colsP
    ensures buffer[..] == Pad(x, rows, cols, rowsP, colsP)
  {
    ghost var padded := Pad(x, rows, cols, rowsP, colsP);
    hide Pad;
    buffer := new int[rowsP * colsP](_ => 0);
    var r := 0;
    while r < rows
      invariant 0 <= r <= rows && FilledUpTo(buffer[..], padded, r * colsP)
    {
      ghost var base := r * colsP;
      var c := 0;
      while c < cols
        invariant 0 <= c <= cols && FilledUpTo(buffer[..], padded, base + c)
      {
        PadAt(x, rows, cols, rowsP, colsP, r, c);
        RowMajorBound(r, c, rows, cols);
        buffer[r * colsP + c] := x[r * cols + c];
        c := c + 1;
      }
      MulStep(r, colsP);
      forall i | base + cols <= i < base + colsP && i < |padded|
        ensures padded[i] == 0
      {
        PadZero(x, rows, cols, rowsP, colsP, r, i - base, i);
      }
      r := r + 1;
    }
    forall i | rows * colsP <= i < |padded|
      ensures padded[i] == 0
    {
      RowMajorBeyond(i, rows, rowsP, colsP);
      PadZero(x, rows, cols, rowsP, colsP, i / colsP, i % colsP, i);
    }
  }

  /** An index from row `rows` on lies in such a row. */
  lemma RowMajorBeyond(i: nat, rows: nat, rowsP: nat, cols: nat)
    requires rows * cols <= i < rowsP * cols
    ensures 0 < cols && rows <= i / cols < rowsP && 0 <= i % cols < cols && i == (i / cols) * cols + i % cols
  {
    RowMajorCell(i, rowsP, cols);
    if i / cols < rows {
      MulMonotone(i / cols + 1, rows, cols);
      MulStep(i / cols, cols);
    }
  }

  /** `nd_to_nz_spec`: fills a zero buffer and permutes it.  It gives the same layout. */
  method NdToNzSpec(x: seq<int>, rows: nat, cols: nat) returns (y: seq<int>)
    requires |x| == rows * cols
    ensures y == NdToNz2d(x, rows, cols)
  {
    var rowsP := (rows + 15) / 16 * 16;
    var colsP := (cols + 15) / 16 * 16;
    var buffer := FillPadded(x, rows, cols, rowsP, colsP);
    y := TransposeMiddle(buffer[..], rowsP, colsP / 16, 16);
  }

  /** Reads cell `(m1, m0, n1, n0)` for index `i` of the permuted shape `[n1, m1, m0, n0]`. */
  function PermutedCell(x: seq<int>, m1: nat, m0: nat, n1: nat, n0: nat, i: nat): int
    requires |x| == (m1 * m0) * (n1 * n0) && 0 < m0 && 0 < n0 && i < n1 * ((m1 * m0) * n0)
  {
    var (n, r, t) := Split3(n1, m1 * m0, n0, i);
    RowMajorCell(r, m1, m0);
    Join3Bound(m1 * m0, n1, n0, (r / m0) * m0 + r % m0, n, t);
    x[Join3(n1, n0, (r / m0) * m0 + r % m0, n, t)]
  }

  /** `trans_nd_to_nz` of one matrix; `None` when the reshape is refused. */
  function TransNdToNz(x: seq<int>, a: nat, b: nat, isInt8: bool): Option<seq<int>>
    requires |x| == a * b
  {
    var a0, b0 := 16, if isInt8 then 32 else 16;
    var m1, n1 := Blocks(a, a0), Blocks(b, b0);
    if (m1 * a0) * (n1 * b0) != a * b then None
    else Some(seq(n1 * ((m1 * a0) * b0), i requires 0 <= i < n1 * ((m1 * a0) * b0) =>
      PermutedCell(x, m1, a0, n1, b0, i)))
  }

  lemma MultipleIsBlocks(n: nat, width: nat)
    requires 0 < width
    ensures Blocks(n, width) * width == n <==> n % width == 0
  {
    if n % width == 0 {
      RoundUpLeast(n, width, n);
    } else {
      DivModUnique(Blocks(n, width) * width, width, Blocks(n, width), 0);
    }
  }

  /** Two products of larger factors agree only factor by factor. */
  lemma ProductsEqual(p: nat, q: nat, a: nat, b: nat)
    requires a <= p && b <= q && p * q == a * b && 0 < a && 0 < b
    ensures a == p && b == q
  {
    MulMonotone(a, p, q);
    assert a * b <= a * q by { MulMonotone(b, q, a); }
    assert a * q == p * q;
    if a < p {
      MulMonotone(a + 1, p, q);
      MulStep(a, q);
    }
    if b < q {
      MulMonotone(b + 1, q, a);
      MulStep(b, a);
    }
  }

  /** The reshape succeeds exactly on aligned shapes and on empty ones. */
  lemma TransSucceeds(x: seq<int>, a: nat, b: nat, isInt8: bool)
    requires |x| == a * b
    ensures TransNdToNz(x, a, b, isInt8).Some? <==>
              a == 0 || b == 0 || (a % 16 == 0 && b % (if isInt8 then 32 else 16) == 0)
  {
    var b0 := if isInt8 then 32 else 16;
    MultipleIsBlocks(a, 16);
    MultipleIsBlocks(b, b0);
    var p, q := Blocks(a, 16) * 16, Blocks(b, b0) * b0;
    if a == 0 {
      assert p == 0 && p * q == 0;
    } else if b == 0 {
      assert q == 0 && p * q == 0;
    } else if p * q == a * b {
      ProductsEqual(p, q, a, b);
    }
  }

  /** On aligned shapes every cell goes to its place in blocks of 16 columns, or of 32 for int8. */
  lemma TransIndexIs(x: seq<int>, a: nat, b: nat, isInt8: bool, r: nat, c: nat)
    requires |x| == a * b && a % 16 == 0 && b % (if isInt8 then 32 else 16) == 0 && r < a && c < b
    ensures TransNdToNz(x, a, b, isInt8).Some?
    ensures var y, i := TransNdToNz(x, a, b, isInt8).value, NzIndex(a, if isInt8 then 32 else 16, r, c);
            i < |y| && r * b + c < |x| && y[i] == x[r * b + c]
  {
    var b0 := if isInt8 then 32 else 16;
    MultipleIsBlocks(a, 16);
    MultipleIsBlocks(b, b0);
    var m1, n1 := Blocks(a, 16), Blocks(b, b0);
    PermutedCellIs(x, m1, 16, n1, b0, r, c);
  }

  lemma PermutedCellIs(x: seq<int>, m1: nat, m0: nat, n1: nat, n0: nat, r: nat, c: nat)
    requires |x| == (m1 * m0) * (n1 * n0) && 0 < m0 && 0 < n0 && r < m1 * m0 && c < n1 * n0
    ensures var i := NzIndex(m1 * m0, n0, r, c);
            && i < n1 * ((m1 * m0) * n0) && r * (n1 * n0) + c < |x|
            && PermutedCell(x, m1, m0, n1, n0, i) == x[r * (n1 * n0) + c]
  {
    RowMajorCell(c, n1, n0);
    RowMajorCell(r, m1, m0);
    RowMajorBound(r, c, m1 * m0, n1 * n0);
    Split3OfJoin3(n1, m1 * m0, n0, c / n0, r, c % n0);
  }

  /** Where it succeeds on a type other than int8, the result is that of the padding conversion. */
  lemma TransAgrees(x: seq<int>, a: nat, b: nat)
    requires |x| == a * b && TransNdToNz(x, a, b, false).Some?
    ensures TransNdToNz(x, a, b, false).value == NdToNz2d(x, a, b)
  {
    var y, z := TransNdToNz(x, a, b, false).value, NdToNz2d(x, a, b);
    TransSucceeds(x, a, b, false);
    MultipleIsBlocks(a, 16);
    MultipleIsBlocks(b, 16);
    assert |y| == |z|;
    forall i | 0 <= i < |y|
      ensures y[i] == z[i]
    {
      var (r, c) := NzCell(Blocks(b, 16), Blocks(a, 16) * 16, 16, i);
      NzCellIs(x, a, b, i);
      TransAgreesAt(x, a, b, r, c, i);
    }
  }

  lemma TransAgreesAt(x: seq<int>, a: nat, b: nat, r: nat, c: nat, i: nat)
    requires |x| == a * b && TransNdToNz(x, a, b, false).Some?
    requires r < Blocks(a, 16) * 16 && c < Blocks(b, 16) * 16 && i == NzIndex(Blocks(a, 16) * 16, 16, r, c)
    ensures i < |TransNdToNz(x, a, b, false).value|
    ensures TransNdToNz(x, a, b, false).value[i] == PadCell(x, a, b, r, c)
  {
    TransSucceeds(x, a, b, false);
    MultipleIsBlocks(a, 16);
    MultipleIsBlocks(b, 16);
    TransIndexIs(x, a, b, false, r, c);
  }
}
