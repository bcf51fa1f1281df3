/**
 * Matrix bounds: the row and column counts of a dense matrix, each either
 * fixed by the type or dynamic (stored in the object, 0 by default), and
 * the maximum bounds of a matrix with the same four specialisations.
 *
 * Counts are unsigned 64-bit integers (uint_t), except the fixed column
 * count of a type with dynamic rows, which the accessor returns as the
 * signed template argument (int_t) itself; construction arguments are
 * signed 64-bit integers converted on storage, and the products are taken
 * modulo 2^64, the signed factor converted to uint_t first.
 */
module MatrixBounds {

  const UintModulus: nat := 0x1_0000_0000_0000_0000

  /** The conversion of a signed argument to uint_t. */
  function ToUint(x: int): (r: nat)
    ensures r < UintModulus
    ensures 0 <= x < UintModulus ==> r == x
    ensures 0 - UintModulus <= x < 0 ==> r == x + UintModulus
  {
    x % UintModulus
  }

  /** A template argument: a count fixed by the type, or `dynamic`. */
  datatype Extent = Fixed(n: int) | Dynamic

  /** The run-time state of a bounds or max_bounds object: the stored counts
      of its dynamic extents (unused for fixed ones). */
  datatype Dims = Dims(rows: Extent, cols: Extent, storedRows: nat, storedCols: nat)
  {
    /** no_rows() / max_no_rows(). */
    function Rows(): nat
    {
      if rows.Fixed? then ToUint(rows.n) else storedRows
    }

    /** no_cols() / max_no_cols(): the type's count is cast to uint_t,
        except when the rows are dynamic, where the template argument is
        returned as it is. */
    function Cols(): int
    {
      if cols.Fixed? then (if rows.Dynamic? then cols.n else ToUint(cols.n)) else storedCols
    }

    /** size() / max_size(): the product of the counts in uint_t; a signed
        column count is converted to uint_t before the product. */
    function Size(): (r: nat)
      ensures r < UintModulus
      ensures 0 <= Cols() && Rows() * Cols() < UintModulus ==> r == Rows() * Cols()
    {
      (Rows() * ToUint(Cols())) % UintModulus
    }
  }

  /** The default constructor: dynamic counts start at 0. */
  function DefaultDims(rows: Extent, cols: Extent): (r: Dims)
    ensures rows.Dynamic? ==> r.Rows() == 0 && r.Size() == 0
    ensures cols.Dynamic? ==> r.Cols() == 0 && r.Size() == 0
  {
    Dims(rows, cols, 0, 0)
  }

  /** What bounds(nrows, ncols) asserts: the arguments match the fixed
      extents. The fully fixed case compares in uint_t, the partially
      dynamic ones compare the signed argument with the template argument. */
  predicate BoundsArgumentsMatch(rows: Extent, cols: Extent, nrows: int, ncols: int)
  {
    match (rows, cols)
    case (Fixed(r), Fixed(c)) => ToUint(nrows) == ToUint(r) && ToUint(ncols) == ToUint(c)
    case (Dynamic, Fixed(c)) => ncols == c
    case (Fixed(r), Dynamic) => nrows == r
    case (Dynamic, Dynamic) => true
  }

  /** What max_bounds(maxrows, maxcols) asserts: only the partially dynamic
      specialisations check their fixed extent; the fully fixed one and the
      fully dynamic one check nothing. */
  predicate MaxBoundsArgumentsMatch(rows: Extent, cols: Extent, maxrows: int, maxcols: int)
  {
    match (rows, cols)
    case (Fixed(_), Fixed(_)) => true
    case (Dynamic, Fixed(c)) => maxcols == c
    case (Fixed(r), Dynamic) => maxrows == r
    case (Dynamic, Dynamic) => true
  }

  /** Storage by the (count, count) constructors: a dynamic extent stores
      its argument converted to uint_t, a fixed one stores nothing. */
  function Construct(rows: Extent, cols: Extent, nrows: int, ncols: int): (r: Dims)
    ensures r.rows == rows && r.cols == cols
    ensures r.Rows() == if rows.Fixed? then ToUint(rows.n) else ToUint(nrows)
    ensures cols.Dynamic? ==> r.Cols() == ToUint(ncols)
    ensures cols.Fixed? && rows.Fixed? ==> r.Cols() == ToUint(cols.n)
    ensures cols.Fixed? && rows.Dynamic? ==> r.Cols() == cols.n
  {
    Dims(rows, cols, if rows.Dynamic? then ToUint(nrows) else 0, if cols.Dynamic? then ToUint(ncols) else 0)
  }

  /** bounds(nrows, ncols), in every specialisation. */
  function MakeBounds(rows: Extent, cols: Extent, nrows: int, ncols: int): (r: Dims)
    requires BoundsArgumentsMatch(rows, cols, nrows, ncols)
    ensures r == Construct(rows, cols, nrows, ncols)
  {
    Construct(rows, cols, nrows, ncols)
  }

  /** max_bounds(maxrows, maxcols), in every specialisation. */
  function MakeMaxBounds(rows: Extent, cols: Extent, maxrows: int, maxcols: int): (r: Dims)
    requires MaxBoundsArgumentsMatch(rows, cols, maxrows, maxcols)
    ensures r == Construct(rows, cols, maxrows, maxcols)
  {
    Construct(rows, cols, maxrows, maxcols)
  }

  /** Constructed bounds report the counts they were given, in every
      specialisation, and their size is the product of the counts. */
  lemma BoundsRoundTrip(rows: Extent, cols: Extent, nrows: int, ncols: int)
    requires BoundsArgumentsMatch(rows, cols, nrows, ncols)
    requires 0 <= nrows < UintModulus && 0 <= ncols < UintModulus
    ensures MakeBounds(rows, cols, nrows, ncols).Rows() == nrows
    ensures MakeBounds(rows, cols, nrows, ncols).Cols() == ncols
    ensures MakeBounds(rows, cols, nrows, ncols).Size() == (nrows * ncols) % UintModulus
  {
    var b := MakeBounds(rows, cols, nrows, ncols);
    match rows {
      case Fixed(r) =>
        if cols.Fixed? {
          assert ToUint(nrows) == ToUint(r);
        }
      case Dynamic =>
    }
    match cols {
      case Fixed(c) =>
        if rows.Fixed? {
          assert ToUint(ncols) == ToUint(c);
        }
      case Dynamic =>
    }
  }

  /** Constructed maximum bounds of a partially or fully dynamic type report
      the counts they were given; the fully fixed ones report the template
      counts whatever the arguments. */
  lemma MaxBoundsRoundTrip(rows: Extent, cols: Extent, maxrows: int, maxcols: int)
    requires MaxBoundsArgumentsMatch(rows, cols, maxrows, maxcols)
    requires 0 <= maxrows < UintModulus && 0 <= maxcols < UintModulus
    ensures !(rows.Fixed? && cols.Fixed?) ==> MakeMaxBounds(rows, cols, maxrows, maxcols).Rows() == maxrows
    ensures !(rows.Fixed? && cols.Fixed?) ==> MakeMaxBounds(rows, cols, maxrows, maxcols).Cols() == maxcols
    ensures rows.Fixed? && cols.Fixed?
            ==> MakeMaxBounds(rows, cols, maxrows, maxcols) == DefaultDims(rows, cols)
    ensures MakeMaxBounds(rows, cols, maxrows, maxcols).Size()
            == (MakeMaxBounds(rows, cols, maxrows, maxcols).Rows() * MakeMaxBounds(rows, cols, maxrows, maxcols).Cols()) % UintModulus
  {
  }

  /** The fully fixed max_bounds constructor accepts arguments that do not
      match its type, unlike the bounds constructor. */
  lemma FixedMaxBoundsUnchecked()
    ensures MaxBoundsArgumentsMatch(Fixed(2), Fixed(2), 3, 3)
    ensures MakeMaxBounds(Fixed(2), Fixed(2), 3, 3).Rows() == 2
    ensures !BoundsArgumentsMatch(Fixed(2), Fixed(2), 3, 3)
  {
  }

  /** With dynamic rows a negative fixed column count is reported as it is,
      while the fully fixed type reports it cast to uint_t; both sizes take
      the converted count. */
  lemma UncastColumnCount()
    ensures DefaultDims(Dynamic, Fixed(-2)).Cols() == -2
    ensures DefaultDims(Fixed(-2), Fixed(-2)).Cols() == UintModulus - 2
    ensures MakeBounds(Dynamic, Fixed(-2), 1, -2).Size() == UintModulus - 2
  {
  }

  /** A negative count given to a dynamic extent wraps to a huge uint_t. */
  lemma NegativeCountWraps()
    ensures MakeBounds(Dynamic, Dynamic, -1, 1).Rows() == UintModulus - 1
    ensures MakeBounds(Dynamic, Dynamic, -1, 1).Size() == UintModulus - 1
  {
  }
}
