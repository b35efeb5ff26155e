/**
 * `Array2D<T>`: a fixed-size two-dimensional store of optional cells, kept
 * row-major in one flat buffer (CookieCrunch/Array2D.swift).
 */
module Grid2D {
  import opened Optional

  /** Position of cell (col, row) in the row-major backing buffer of a grid with `cols` columns. */
  function Index(col: int, row: int, cols: int): int {
    row * cols + col
  }

  /** Every in-range coordinate pair lands inside the backing buffer. */
  lemma IndexInRange(col: int, row: int, cols: int, rows: int)
    requires 0 <= col < cols && 0 <= row < rows
    ensures 0 <= Index(col, row, cols) < rows * cols
  {
    calc {
      Index(col, row, cols);
    <  row * cols + cols;
    == (row + 1) * cols;
    <= { MulMonotone(row + 1, rows, cols); }
      rows * cols;
    }
  }

  lemma MulMonotone(a: int, b: int, n: nat)
    requires a <= b
    ensures a * n <= b * n
  {
  }

  /** Distinct in-range coordinate pairs never share a buffer slot. */
  lemma IndexInjective(c1: int, r1: int, c2: int, r2: int, cols: int)
    requires 0 <= c1 < cols && 0 <= c2 < cols && 0 <= r1 && 0 <= r2
    requires Index(c1, r1, cols) == Index(c2, r2, cols)
    ensures c1 == c2 && r1 == r2
  {
    if r1 < r2 {
      MulMonotone(r1 + 1, r2, cols);
      assert false;
    } else if r2 < r1 {
      MulMonotone(r2 + 1, r1, cols);
      assert false;
    }
  }

  class Array2D<T> {
    const rows: nat
    const cols: nat
    /** The backing buffer `array : Array<T?>`. */
    const buf: array<Option<T>>

    ghost predicate Valid() {
      buf.Length == rows * cols
    }

    /** The cells as a value. */
    ghost function Cells(): (s: seq<Option<T>>)
      reads buf
    {
      buf[..]
    }

    constructor (cols: nat, rows: nat)
      ensures Valid() && this.rows == rows && this.cols == cols && fresh(buf)
      ensures forall i :: 0 <= i < buf.Length ==> buf[i] == None
    {
      this.rows := rows;
      this.cols := cols;
      buf := new Option<T>[rows * cols](_ => None);
    }

    /** The subscript getter `self[col, row]`: any pair whose flat index lies inside the buffer. */
    function Get(col: int, row: int): (v: Option<T>)
      reads buf
      requires 0 <= Index(col, row, cols) < buf.Length
      ensures v == buf[Index(col, row, cols)]
      ensures Valid() && 0 <= col < cols && 0 <= row < rows ==> v == Cells()[row * cols + col]
    {
      buf[row * cols + col]
    }

    /** The subscript setter `self[col, row] = v`. */
    method Set(col: int, row: int, v: Option<T>)
      requires 0 <= Index(col, row, cols) < buf.Length
      modifies buf
      ensures buf[..] == old(buf[..])[Index(col, row, cols) := v]
      ensures Get(col, row) == v
      ensures forall c, r ::
        (0 <= c < cols && 0 <= r < rows && (c, r) != (col, row) && 0 <= col < cols && 0 <= Index(c, r, cols) < buf.Length)
        ==> Get(c, r) == old(Get(c, r))
    {
      buf[row * cols + col] := v;
      forall c, r | 0 <= c < cols && 0 <= r < rows && (c, r) != (col, row) && 0 <= col < cols && 0 <= Index(c, r, cols) < buf.Length
        ensures Get(c, r) == old(Get(c, r))
      {
        if Index(c, r, cols) == Index(col, row, cols) {
          IndexInjective(c, r, col, row, cols);
        }
      }
    }
  }
}
