/**
 * The reuse decisions taken when a 2D array is resized (rtengine/array2D.h,
 * ar_realloc) written as pure predicates, the buffer lengths they lead to,
 * and what a sequence of resizes does to those lengths.
 *
 * Both tests compare the new shape with the previous LOGICAL shape (the
 * fields `height` and `width * height` before they are overwritten), never
 * with the length that was actually allocated.
 */
module ResizePolicy {

  datatype Option<T> = None | Some(value: T)

  /** The existing row table is dropped when the height grows, or when four
    * times the new height is still below the previous height. It is kept
    * exactly for heights between the previous height and a quarter of it,
    * rounded up. */
  predicate RowTableOutgrown(oldHeight: nat, h: nat): (outgrown: bool)
    ensures !outgrown <==> (oldHeight + 3) / 4 <= h <= oldHeight
  {
    h > oldHeight || 4 * h < oldHeight
  }

  /** The existing data buffer is dropped when the element count grows, or
    * when it falls below a quarter of the previous count (unsigned, so the
    * quarter is rounded down). The offset is not part of the test. It is
    * kept exactly for counts n with n <= N and N <= 4n + 3. */
  predicate DataOutgrown(oldCount: nat, count: nat): (outgrown: bool)
    ensures !outgrown <==> count <= oldCount && oldCount <= 4 * count + 3
  {
    count > oldCount || count < oldCount / 4
  }

  /** For a grid of width 1, where the height and the element count are the
    * same number, the data test keeps the buffer whenever the row test keeps
    * the table, and in some cases where it does not: a 1 x 7 grid resized to
    * 1 x 1 gets a new row table but keeps its buffer. */
  lemma DataTestKeepsMore(previous: nat, n: nat)
    ensures !RowTableOutgrown(previous, n) ==> !DataOutgrown(previous, n)
    ensures RowTableOutgrown(7, 1) && !DataOutgrown(7, 1)
  {
  }

  /** Resizing to the shape already held never reallocates. */
  lemma SameShapeKeepsBoth(height: nat, count: nat)
    ensures !RowTableOutgrown(height, height) && !DataOutgrown(count, count)
  {
  }

  /** Length of the row table after resizing to h rows, given the length of
    * the current table (None when there is none) and the previous height. */
  function NextRowTableLength(table: Option<nat>, oldHeight: nat, h: nat): (len: nat)
    requires table.Some? ==> oldHeight <= table.value
    ensures h <= len
    ensures table.None? || RowTableOutgrown(oldHeight, h) ==> len == h
  {
    if table.Some? && !RowTableOutgrown(oldHeight, h) then table.value else h
  }

  /** Length of the data buffer after resizing to count elements at the given
    * offset. A kept buffer must already hold count + offset elements: the
    * source does not check this, and then points the last rows past the end. */
  function NextDataLength(buffer: Option<nat>, oldCount: nat, count: nat, offset: nat): (len: nat)
    requires buffer.Some? && !DataOutgrown(oldCount, count) ==> count + offset <= buffer.value
    ensures count + offset <= len
    ensures buffer.None? || DataOutgrown(oldCount, count) ==> len == count + offset
  {
    if buffer.Some? && !DataOutgrown(oldCount, count) then buffer.value else count + offset
  }

  /** Length of the row table after resizing successively to the heights in
    * hs, starting from a table of length len that holds height rows. */
  function RowTableLengthAfter(len: nat, height: nat, hs: seq<nat>): (r: nat)
    requires height <= len
    ensures hs != [] ==> hs[|hs| - 1] <= r
    ensures r == len || r in hs
    decreases |hs|
  {
    if hs == [] then len
    else RowTableLengthAfter(NextRowTableLength(Some(len), height, hs[0]), hs[0], hs[1..])
  }

  /** Length of the data buffer after resizing successively to the element
    * counts in ns, all at the same offset, starting from a buffer of length
    * len that holds count elements at that offset. */
  function DataLengthAfter(len: nat, count: nat, offset: nat, ns: seq<nat>): (r: nat)
    requires count + offset <= len
    ensures ns != [] ==> ns[|ns| - 1] + offset <= r
    ensures r == len || (offset <= r && r - offset in ns)
    decreases |ns|
  {
    if ns == [] then len
    else DataLengthAfter(NextDataLength(Some(len), count, ns[0], offset), ns[0], offset, ns[1..])
  }

  function Pow4(m: nat): nat
  {
    if m == 0 then 1 else 4 * Pow4(m - 1)
  }

  /** The heights 4^(m-1), ..., 4, 1: each a quarter of the one before. */
  function Quarterings(m: nat): (hs: seq<nat>)
    ensures |hs| == m
  {
    if m == 0 then [] else [Pow4(m - 1)] + Quarterings(m - 1)
  }

  lemma {:induction false} QuarteringsEndAtOne(m: nat)
    requires m > 0
    ensures Quarterings(m)[m - 1] == 1
  {
    if m > 1 {
      QuarteringsEndAtOne(m - 1);
      assert Quarterings(m)[m - 1] == Quarterings(m - 1)[m - 2];
    }
  }

  lemma Pow4Quarter(m: nat)
    requires m > 0
    ensures Pow4(m) == 4 * Pow4(m - 1)
    ensures !RowTableOutgrown(Pow4(m), Pow4(m - 1)) && !DataOutgrown(Pow4(m), Pow4(m - 1))
  {
  }

  /** Shrinking from 4^m rows by quarters never replaces the row table. */
  lemma {:induction false} QuarteringKeepsRowTable(len: nat, m: nat)
    requires Pow4(m) <= len
    ensures RowTableLengthAfter(len, Pow4(m), Quarterings(m)) == len
  {
    if m > 0 {
      var hs := Quarterings(m);
      assert hs[0] == Pow4(m - 1) && hs[1..] == Quarterings(m - 1);
      Pow4Quarter(m);
      assert NextRowTableLength(Some(len), Pow4(m), hs[0]) == len;
      QuarteringKeepsRowTable(len, m - 1);
    }
  }

  /** Shrinking from 4^m elements by quarters never replaces the data buffer. */
  lemma {:induction false} QuarteringKeepsData(len: nat, offset: nat, m: nat)
    requires Pow4(m) + offset <= len
    ensures DataLengthAfter(len, Pow4(m), offset, Quarterings(m)) == len
  {
    if m > 0 {
      var ns := Quarterings(m);
      assert ns[0] == Pow4(m - 1) && ns[1..] == Quarterings(m - 1);
      Pow4Quarter(m);
      assert NextDataLength(Some(len), Pow4(m), ns[0], offset) == len;
      QuarteringKeepsData(len, offset, m - 1);
    }
  }

  /** Because each test looks only at the previous logical shape, the slack
    * compounds: a row table of 4^m rows ends up holding a single row, for
    * every m, so the allocated table is not bounded by four times the height. */
  lemma RowTableSlackUnbounded(m: nat)
    requires m > 0
    ensures Quarterings(m)[m - 1] == 1
    ensures RowTableLengthAfter(Pow4(m), Pow4(m), Quarterings(m)) == Pow4(m)
  {
    QuarteringsEndAtOne(m);
    QuarteringKeepsRowTable(Pow4(m), m);
  }

  /** The same for the data buffer: 4^m elements end up holding a single one. */
  lemma DataSlackUnbounded(m: nat)
    requires m > 0
    ensures Quarterings(m)[m - 1] == 1
    ensures DataLengthAfter(Pow4(m), Pow4(m), 0, Quarterings(m)) == Pow4(m)
  {
    QuarteringsEndAtOne(m);
    QuarteringKeepsData(Pow4(m), 0, m);
  }
}
