/** Integer arithmetic shared by the models: row-major indices and rounding up to a multiple. */
module Arith {

  const INT32_MAX := 0x7FFF_FFFF
  const TWO_32 := 0x1_0000_0000
  const TWO_64 := 0x1_0000_0000_0000_0000

  /** What a C conversion of `x` to a 32-bit signed integer stores. */
  function Int32(x: int): (r: int)
    ensures -INT32_MAX - 1 <= r <= INT32_MAX
    ensures -INT32_MAX - 1 <= x <= INT32_MAX ==> r == x
  {
    (x + INT32_MAX + 1) % TWO_32 - INT32_MAX - 1
  }

  /** What a C conversion of `x` to a 32-bit unsigned integer stores. */
  function Uint32(x: int): (r: nat)
    ensures r < TWO_32
    ensures 0 <= x < TWO_32 ==> r == x
  {
    x % TWO_32
  }

  /** Storing a number as signed and reading it as unsigned converts it to unsigned. */
  lemma UnsignedOfSigned(x: int)
    ensures Uint32(Int32(x)) == Uint32(x)
  {
  }

  /** Converting an operand before an addition changes nothing. */
  lemma Uint32Add(x: int, y: int)
    ensures Uint32(Uint32(x) + y) == Uint32(x + y)
  {
  }

  lemma Uint32Subtract(x: int, y: int)
    ensures Uint32(x - Uint32(y)) == Uint32(x - y)
  {
  }

  lemma MulMonotone(a: int, b: int, w: int)
    requires a <= b && 0 <= w
    ensures a * w <= b * w
  {
    assert (b - a) * w >= 0;
  }

  lemma MulStep(a: int, w: int)
    ensures (a + 1) * w == a * w + w
  {
  }

  /** Quotient and remainder are unique. */
  lemma {:induction false} DivModUnique(x: int, w: int, q: int, r: int)
    requires 0 < w && 0 <= r < w && x == q * w + r
    ensures x / w == q && x % w == r
  {
    var q', r' := x / w, x % w;
    assert x == q' * w + r';
    if q < q' {
      MulMonotone(q + 1, q', w);
      MulStep(q, w);
    } else if q' < q {
      MulMonotone(q' + 1, q, w);
      MulStep(q', w);
    }
  }

  /** A row-major index of a table with `width` columns determines its row and its column. */
  lemma RowMajor(row: int, column: int, width: int)
    requires 0 <= column < width
    ensures (row * width + column) / width == row
    ensures (row * width + column) % width == column
  {
    DivModUnique(row * width + column, width, row, column);
  }

  /** The row-major index of an in-range cell is below the number of cells. */
  lemma RowMajorBound(row: int, column: int, rows: int, width: int)
    requires 0 <= column < width && 0 <= row < rows
    ensures 0 <= row * width + column < rows * width
  {
    MulMonotone(0, row, width);
    MulMonotone(row + 1, rows, width);
    MulStep(row, width);
  }

  /** An index below `rows * width` names an in-range cell. */
  lemma RowMajorCell(index: int, rows: int, width: int)
    requires 0 <= index < rows * width && 0 < width
    ensures 0 <= index / width < rows && 0 <= index % width < width
    ensures index == (index / width) * width + index % width
  {
    var q := index / width;
    assert index == q * width + index % width;
    if rows <= q { MulMonotone(rows, q, width); }
    if q < 0 { MulMonotone(q, -1, width); }
  }

  /** `x` rounded up to a multiple of `align`, as `(x + align - 1) // align * align`. */
  function RoundUp(x: int, align: int): (r: int)
    requires 0 < align
    ensures x <= r < x + align && r % align == 0
  {
    var q := (x + align - 1) / align;
    DivModUnique(q * align, align, q, 0);
    q * align
  }

  /** Rounding up gives the least multiple that is not below the argument. */
  lemma RoundUpLeast(x: int, align: int, m: int)
    requires 0 < align && x <= m && m % align == 0
    ensures RoundUp(x, align) <= m
  {
    var q, k := (x + align - 1) / align, m / align;
    assert m == k * align && RoundUp(x, align) == q * align;
    if k < q {
      MulMonotone(k + 1, q, align);
      MulStep(k, align);
    } else {
      MulMonotone(q, k, align);
    }
  }

  // ----- divisions over the rationals

  lemma RealMulMonotone(x: real, y: real, k: real)
    requires 0.0 < k
    ensures x <= y ==> x * k <= y * k
    ensures x < y ==> x * k < y * k
  {
    if x <= y { assert (y - x) * k >= 0.0; }
    if x < y { assert (y - x) * k > 0.0; }
  }

  lemma MulCast(m: int, b: int)
    ensures (m * b) as real == m as real * b as real
  {
  }

  /** Comparing a number with a quotient is comparing its multiple with the dividend. */
  lemma CompareQuotient(m: int, a: int, b: nat)
    requires 0 < b
    ensures m as real <= a as real / b as real <==> m * b <= a
    ensures m as real < a as real / b as real <==> m * b < a
  {
    var q, br := a as real / b as real, b as real;
    assert q * br == a as real;
    MulCast(m, b);
    RealMulMonotone(m as real, q, br);
    RealMulMonotone(q, m as real, br);
  }

  /** The floor of a quotient, and when it is the quotient. */
  lemma FloorOfQuotient(a: int, b: nat)
    requires 0 < b
    ensures var q := a as real / b as real;
            && q.Floor * b <= a < (q.Floor + 1) * b
            && (q.Floor as real == q <==> q.Floor * b == a)
  {
    var m := (a as real / b as real).Floor;
    CompareQuotient(m, a, b);
    CompareQuotient(m + 1, a, b);
  }
}
