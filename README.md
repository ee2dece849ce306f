# array2D: a verified model of RawTherapee's flexible 2D array

This project models `array2D<T>` and `multi_array2D<T, num>` from
`rtengine/array2D.h` in Dafny.

`array2D` is a dense width x height grid. Its elements live in one flat
buffer `data`, and a row table `rows` points entry i at the first element of
row i. A grid can be built three ways:

- empty;
- sized and owning its buffer, optionally zero-filled;
- from a caller's `T**`, either as a deep copy or by adopting the caller's row
  pointers.

It is resized in place by `ar_realloc` and the call operator. With a 4x
hysteresis, the resize keeps the row table and the buffer when the new shape
is close enough to the previous one. It then points row i at
`data + offset + w * i`. `multi_array2D` resizes `num` grids of one shape,
giving slot i the offset `(i + 1) * offset`.

The model has three modules:

- `ResizePolicy` (`policy.dfy`):
  - the two reuse tests as pure predicates;
  - the table and buffer lengths they lead to;
  - what a sequence of resizes does to those lengths.
- `RowLayout` (`layout.dfy`): where row i and cell (i, j) lie in the flat
  buffer. Rows lie inside the footprint, cells do not overlap, and every place
  in the footprint is a cell.
  - Products are written with `Mul`, repeated addition, tied to `*` by
    `MulIsProduct`. This keeps the grid's proofs linear.
- `Array2D` (`array2d.dfy`): the two classes.
  - A C pointer `T*` is `Ptr(buf, off)`, a buffer (null for the null pointer)
    and an index into it. A caller's `T**` is an `array<Ptr<T>>`.
  - A grid owns its buffer exactly when `data` is not null.
  - The ghost field `offset` records the offset of the last resize, which the
    source does not store. The model needs it to say where the rows of an
    owned buffer lie.
  - `Valid()` is the representation invariant:
    - the table holds `height` rows of `width` elements each;
    - an owned buffer holds the grid at `offset`, with row i at
      `offset + width * i`.

Notes on `ar_realloc` and `fill`:

- Both reuse tests compare the new shape with the previous LOGICAL height and
  element count (lines 75 and 83). The fields are overwritten at lines 88-89,
  and the length actually allocated is never consulted.
  - So the allocated table can exceed four times the current height, by any
    factor. Shrinking by quarters from 4^m rows leaves a table of 4^m rows
    holding one row, for every m (`RowTableSlackUnbounded`). The same holds for
    the data buffer and the element count (`DataSlackUnbounded`).
- The data test at line 83 ignores the offset, although line 92 allocates
  `height * width + offset` elements. A buffer allocated tight at one offset
  is kept for the same element count at a larger one. The row pointers of
  lines 95-97 then run past its end (`ReallocFits`). `Realloc` and `Resize` require `ReallocFits`, which holds
  whenever the offset does not grow.
- `fill` writes the flat range `[0, width * height)` (line 160). In general
  that is neither the whole buffer nor the grid's cells. A kept buffer can be
  longer, and an offset adds leading slots. The range and the cells coincide
  exactly when the offset is 0 (`PrefixReachesEveryCellIffNoOffset`).
- The data test keeps the buffer in cases where the row test drops the table.
  For example, a 1 x 7 grid resized to 1 x 1 (`DataTestKeepsMore`).

## Model

| member | source | states |
|---|---|---|
| ResizePolicy.RowTableOutgrown | rtengine/array2D.h:75 | the reuse test of the row table: it keeps the table exactly for new heights h with ceil(H/4) <= h <= H, H the previous height |
| ResizePolicy.DataOutgrown | rtengine/array2D.h:83 | the reuse test of the buffer: it keeps the buffer exactly for counts n with n <= N and N <= 4n + 3 (n at least N/4 rounded down), N the previous count |
| ResizePolicy.DataTestKeepsMore | rtengine/array2D.h:75-86 | for a grid of width 1 the data test keeps whenever the row test keeps, and 1 x 7 -> 1 x 1 keeps the buffer but replaces the table |
| ResizePolicy.SameShapeKeepsBoth | rtengine/array2D.h:75-86 | resizing to the shape already held reallocates neither the table nor the buffer |
| ResizePolicy.NextRowTableLength | rtengine/array2D.h:75-81 | the table after a resize always has room for h rows, and is exactly h long when there was none or the test rejected it |
| ResizePolicy.NextDataLength | rtengine/array2D.h:83-93 | the buffer after a resize always holds count + offset elements when a kept buffer does, and is exactly that long when there was none or the test rejected it |
| ResizePolicy.RowTableLengthAfter | rtengine/array2D.h:75-89 | after a sequence of resizes the table has room for the last height, and its length is the starting length or one of the heights |
| ResizePolicy.DataLengthAfter | rtengine/array2D.h:83-93 | after a sequence of resizes the buffer holds the last count at the offset, and its length is the starting length or one of the counts plus the offset |
| ResizePolicy.QuarteringKeepsRowTable | rtengine/array2D.h:75-81 | shrinking from 4^m rows by quarters never replaces the row table |
| ResizePolicy.QuarteringKeepsData | rtengine/array2D.h:83-86 | shrinking from 4^m elements by quarters never replaces the buffer |
| ResizePolicy.RowTableSlackUnbounded | rtengine/array2D.h:75-89 | for every m, a table of 4^m rows can end up holding a single row: the allocated length is not bounded by four times the height |
| ResizePolicy.DataSlackUnbounded | rtengine/array2D.h:83-93 | for every m, a buffer of 4^m elements can end up holding a single element |
| RowLayout.RowInFootprint | rtengine/array2D.h:95-97 | row i < height, width elements from offset + width * i, lies inside [offset, offset + width * height) |
| RowLayout.CellInFootprint | rtengine/array2D.h:95-97 | cell (i, j) of the grid lies inside [offset, offset + width * height) |
| RowLayout.CellIndexInjective | rtengine/array2D.h:95-97 | two cells at the same flat index are the same cell: the rows do not overlap |
| RowLayout.CellIndexCovers | rtengine/array2D.h:92-97 | every flat index of the footprint is the cell given by its quotient and remainder by the width |
| RowLayout.WriteThenReadCell | rtengine/array2D.h:95-97 | writing one cell of the buffer changes that cell and no other cell of the grid |
| RowLayout.PrefixReachesEveryCellIffNoOffset | rtengine/array2D.h:155-163 | the flat prefix [0, width * height) covers every cell of a non-empty grid exactly when its offset is 0 |
| Array2D.Array2D.Empty | rtengine/array2D.h:103-105 | an empty grid: width and height 0, no table, no buffer, and it converts to false |
| Array2D.Array2D.Sized | rtengine/array2D.h:108-121 | fresh buffer of w * h and table of h, row i at i * w, every element zero under CLEAR_DATA |
| Array2D.Array2D.FromSource | rtengine/array2D.h:124-146 | copy mode: a fresh buffer of w * h whose cell (i, j) equals source[i][j], on buffers distinct from the source's. BY_REFERENCE: no buffer and rows[i] == source[i] |
| Array2D.Array2D.CopyRow | rtengine/array2D.h:139-141 | copies w elements of a source row into the buffer at the row start, leaving the rest of the buffer alone |
| Array2D.Array2D.Realloc | rtengine/array2D.h:73-98 | the table and buffer are kept exactly when the reuse tests against the previous shape pass, else fresh; their lengths follow NextRowTableLength and NextDataLength; the grid is w x h with row i at data + off + w * i; kept elements keep their values |
| Array2D.Array2D.RenewRowTable | rtengine/array2D.h:75-81 | the table is kept when present and the test passes; otherwise a fresh table of h |
| Array2D.Array2D.DropOutgrownData | rtengine/array2D.h:83-86 | the buffer is let go exactly when present and the test rejects it |
| Array2D.Array2D.ReallocFits | rtengine/array2D.h:83-97 | a kept buffer holds the new grid at the new offset; always true on a valid grid when the offset does not grow, false for a buffer allocated tight at a smaller offset and resized to the same count |
| Array2D.Array2D.PointRows | rtengine/array2D.h:95-97 | entry k < h points at buffer + off + w * k and addresses w elements; later entries are unchanged |
| Array2D.Array2D.Resize | rtengine/array2D.h:215-222 | the resize, then under CLEAR_DATA exactly [off, off + w * h) is zero; a kept buffer is otherwise unchanged; a fresh one is w * h + off long |
| Array2D.Array2D.Fill | rtengine/array2D.h:155-163 | every flat index below width * height holds v and the rest of the buffer is unchanged; a grid with no buffer and no cells is left alone |
| Array2D.Array2D.Free | rtengine/array2D.h:165-172 | no table and no buffer afterwards; width and height unchanged |
| Array2D.Array2D.Row | rtengine/array2D.h:175-179 | returns rows[index], which addresses width elements and, in an owning grid, is data + offset + width * index |
| Array2D.Array2D.GetWidth | rtengine/array2D.h:224-227 | the current width |
| Array2D.Array2D.GetHeight | rtengine/array2D.h:228-231 | the current height |
| Array2D.Array2D.IsNonEmpty | rtengine/array2D.h:233-236 | true exactly when width > 0 and height > 0 |
| Array2D.MultiArray2D.constructor | rtengine/array2D.h:246-251 | slot i is a fresh grid owning a fresh w x h buffer laid out at (i + 1) * offset, zero there under CLEAR_DATA; the group invariant holds: no two slots share a grid, table or buffer |
| Array2D.MultiArray2D.NewSlot | rtengine/array2D.h:249 | one slot: a fresh grid owning a fresh table and a fresh buffer of w * h + off laid out at off, zero there under CLEAR_DATA |
| Array2D.MultiArray2D.Slot | rtengine/array2D.h:253-257 | for 0 <= index < num, returns slot index, a valid grid whose table and buffer belong to no other slot |

## Left out

- Realloc: requires `ReallocFits`, i.e. that a buffer the data test keeps
  already holds `w * h + off` elements. The source does not check this. When
  it fails, lines 95-97 point the last rows past the end of the buffer, and a
  caller writing into those rows writes out of bounds.
- Resize: requires `ReallocFits`. When it fails, the `memset` of line 220
  under CLEAR_DATA writes past the end of the buffer.
- Fill: requires an owned buffer unless `width * height` is 0. With cells but
  no buffer (a `BY_REFERENCE` grid, or after `free`), line 161 writes through
  a null `data`, which is undefined. With no cells the loop never runs, and
  the model leaves the grid alone.
- Row: requires a row table. After `free` the source indexes a null table,
  which is undefined.
- The index assertions of `operator[]` in both classes are preconditions.
  Their being compiled out of release builds is not modelled.
- The `const` overload of `operator[]` (lines 181-185) is the same as `Row`.
- The conversion operators to `T**` and `T*` (lines 188-210) only expose
  `rows` and `data`, which are fields of the model.
- The OpenMP split of `fill` is not modelled: concurrency is out of scope, and
  `Fill` is the sequential loop.
- `new[]`/`delete[]`, allocation failure and the destructor are not modelled.
  Owning is `data != null`, and letting go is nulling the field.
  `rtengine/noncopyable.h` is not part of this model.
- `memset` clears bytes. The model sets each element to a caller-given `zero`
  value of `T`.
- Sizes are unbounded naturals. Unsigned overflow of `4 * h`, `h * w` and
  `(i + 1) * offset` is not modelled.
- The source's `int offset` is a natural in the model. A negative offset is not
  modelled.
- `num` is a constructor parameter rather than a template argument.
- The effect of later writes through a grid on the caller's storage is not
  modelled as an operation. It is stated through pointers: copy mode uses a
  fresh buffer distinct from every source buffer, and `BY_REFERENCE` reuses
  the caller's pointers.
