/**
 * The flexible 2D array of rtengine/array2D.h: a width x height grid held
 * in a flat element buffer `data` with a row table `rows` whose entry i
 * points at the first element of row i, and the fixed-size group of such
 * grids built together with staggered offsets.
 *
 * A C pointer `T*` is a `Ptr<T>`: a buffer (null for the null pointer) and
 * an index into it. A caller's `T**` is an array of such pointers. Owning
 * `data` is not a flag of its own, as in the source: a grid owns a buffer
 * exactly when `data` is not null.
 */
module Array2D {
  import opened ResizePolicy
  import opened RowLayout

  /** Flag bits (lines 60-61). */
  const CLEAR_DATA: bv32 := 1
  const BY_REFERENCE: bv32 := 2

  predicate HasFlag(flags: bv32, flag: bv32)
  {
    flags & flag != 0
  }

  /** The pointer `buf + off`; a null pointer has a null buffer. */
  datatype Ptr<T> = Ptr(buf: array?<T>, off: nat)

  /** p points at n consecutive elements of a real buffer. */
  predicate Addresses<T>(p: Ptr<T>, n: nat)
  {
    p.buf != null && p.off + n <= p.buf.Length
  }

  /** The element p[j]. */
  function Deref<T>(p: Ptr<T>, j: nat): T
    requires Addresses(p, j + 1)
    reads p.buf
  {
    p.buf[p.off + j]
  }

  class Array2D<T(0)> {
    var width: nat
    var height: nat
    var rows: array?<Ptr<T>>
    var data: array?<T>
    /** The offset of row 0 in `data` chosen by the last resize (0 after a
      * constructor). The source does not keep it; the model needs it to
      * say where the rows of an owned buffer are. */
    ghost var offset: nat

    /** Every row of the table addresses `width` elements, the table has room
      * for `height` rows, and an owned buffer holds the whole grid with row i
      * at offset + width * i. The table and the buffer are separate
      * allocations (for a generic T the verifier cannot see this from the
      * types alone). */
    ghost predicate Valid()
      reads this, rows
    {
      && (rows != null ==>
            && height <= rows.Length
            && forall i :: 0 <= i < height ==> Addresses(rows[i], width))
      && (data != null ==>
            && rows != null
            && rows as object != data as object
            && offset + Mul(width, height) <= data.Length
            && forall i :: 0 <= i < height ==> rows[i] == Ptr(data, RowStart(offset, width, i)))
    }

    /** The grid owns a buffer laid out for a w x h grid at offset off. */
    ghost predicate Owns(w: nat, h: nat, off: nat)
      reads this, rows
    {
      Valid() && rows != null && data != null && width == w && height == h && offset == off
    }

    /** An empty grid, to be resized before use (lines 103-105). */
    constructor Empty()
      ensures Valid()
      ensures width == 0 && height == 0 && rows == null && data == null && offset == 0
      ensures !IsNonEmpty()
    {
      width, height, rows, data, offset := 0, 0, null, null, 0;
    }

    /** A grid owning a fresh buffer of w * h elements with row i at i * w,
      * all elements zero when CLEAR_DATA is given (lines 108-121). */
    constructor Sized(w: nat, h: nat, flags: bv32, zero: T)
      ensures Owns(w, h, 0)
      ensures fresh(data) && fresh(rows)
      ensures data.Length == Mul(w, h) && rows.Length == h
      ensures forall i :: 0 <= i < h ==> rows[i] == Ptr(data, Mul(w, i))
      ensures HasFlag(flags, CLEAR_DATA) ==> forall k :: 0 <= k < Mul(w, h) ==> data[k] == zero
    {
      var buffer := new T[Mul(w, h)];
      var table := new Ptr<T>[h];
      for i := 0 to h
        invariant forall k :: 0 <= k < i ==> table[k] == Ptr(buffer, RowStart(0, w, k))
      {
        table[i] := Ptr(buffer, RowStart(0, w, i));
      }
      forall i | 0 <= i < h
        ensures Addresses(table[i], w)
      {
        RowInFootprint(0, w, h, i);
      }
      if HasFlag(flags, CLEAR_DATA) {
        forall k | 0 <= k < Mul(w, h) {
          buffer[k] := zero;
        }
      }
      width, height, rows, data, offset := w, h, table, buffer, 0;
    }

    /** A w x h grid built from a caller's row table (lines 124-146). Without
      * BY_REFERENCE the grid owns a fresh buffer holding a copy of every
      * element, so later writes to the grid cannot reach the source; with it
      * the grid allocates no buffer and its rows are the caller's own
      * pointers, so writes through them land in the caller's storage. */
    constructor FromSource(w: nat, h: nat, source: array<Ptr<T>>, flags: bv32)
      requires h <= source.Length
      requires forall i :: 0 <= i < h ==> source[i].buf != null && source[i].off + w <= source[i].buf.Length
      ensures Valid() && width == w && height == h && offset == 0
      ensures rows != null && fresh(rows) && rows.Length == h
      ensures !HasFlag(flags, BY_REFERENCE) ==>
                && data != null && fresh(data) && data.Length == Mul(w, h)
                && (forall i :: 0 <= i < h ==> rows[i].buf != source[i].buf)
                && forall i, j :: 0 <= i < h && 0 <= j < w ==> Deref(rows[i], j) == Deref(source[i], j)
      ensures HasFlag(flags, BY_REFERENCE) ==>
                && data == null
                && forall i :: 0 <= i < h ==> rows[i] == source[i]
    {
      var owner := !HasFlag(flags, BY_REFERENCE);
      var buffer: array?<T> := null;
      if owner {
        buffer := new T[Mul(w, h)];
      }
      var table := new Ptr<T>[h];
      assert owner ==> forall k :: 0 <= k < h ==> source[k].buf != buffer;
      AllCellsInFootprint(0, w, h);
      for i := 0 to h
        modifies table, buffer
        invariant owner ==> buffer != null && buffer.Length == Mul(w, h)
        invariant owner ==> forall k :: 0 <= k < h ==> source[k].buf != buffer
        invariant owner ==> forall k :: 0 <= k < i ==> table[k] == Ptr(buffer, RowStart(0, w, k))
        invariant owner ==> forall k, j :: 0 <= k < i && 0 <= j < w ==>
                    buffer[CellIndex(0, w, k, j)] == Deref(source[k], j)
        invariant !owner ==> forall k :: 0 <= k < i ==> table[k] == source[k]
      {
        if owner {
          RowInFootprint(0, w, h, i);
          table[i] := Ptr(buffer, RowStart(0, w, i));
          forall k, j | 0 <= k < i && 0 <= j < w
            ensures CellIndex(0, w, k, j) < RowStart(0, w, i)
          {
            CellBeforeRow(0, w, k, i, j);
          }
          CopyRow(buffer, RowStart(0, w, i), source[i], w);
        } else {
          table[i] := source[i];
        }
      }
      if owner {
        forall i | 0 <= i < h
          ensures Addresses(table[i], w)
        {
          RowInFootprint(0, w, h, i);
        }
      }
      width, height, rows, data, offset := w, h, table, buffer, 0;
    }

    /** The inner loop of lines 139-141: copy the w elements src points at
      * into buffer from index start on; nothing else in buffer changes. */
    static method CopyRow(buffer: array<T>, start: nat, src: Ptr<T>, w: nat)
      requires start + w <= buffer.Length
      requires src.buf != null && src.off + w <= src.buf.Length && src.buf != buffer
      modifies buffer
      ensures forall j :: 0 <= j < w ==> buffer[start + j] == Deref(src, j)
      ensures forall k :: 0 <= k < buffer.Length && !(start <= k < start + w) ==> buffer[k] == old(buffer[k])
    {
      for j := 0 to w
        invariant forall j' :: 0 <= j' < j ==> buffer[start + j'] == Deref(src, j')
        invariant forall k :: 0 <= k < buffer.Length && !(start <= k < start + j) ==> buffer[k] == old(buffer[k])
      {
        buffer[start + j] := Deref(src, j);
      }
    }

    /** ar_realloc (lines 73-98): keep or replace the row table and the data
      * buffer by the reuse tests, which compare the new shape with the old
      * one, then point row i at data + off + w * i. The element values of a
      * kept buffer are left as they were. */
    method Realloc(w: nat, h: nat, off: nat)
      requires Valid()
      requires ReallocFits(w, h, off)
      modifies this, rows
      ensures Owns(w, h, off)
      ensures old(rows) != null && !RowTableOutgrown(old(height), h) ==> rows == old(rows)
      ensures old(rows) == null || RowTableOutgrown(old(height), h) ==> fresh(rows)
      ensures rows.Length == NextRowTableLength(if old(rows) == null then None else Some(old(rows.Length)),
                                                old(height), h)
      ensures old(data) != null && !DataOutgrown(Mul(old(width), old(height)), Mul(w, h)) ==> data == old(data)
      ensures old(data) == null || DataOutgrown(Mul(old(width), old(height)), Mul(w, h)) ==> fresh(data)
      ensures data.Length == NextDataLength(if old(data) == null then None else Some(old(data.Length)),
                                            Mul(old(width), old(height)), Mul(w, h), off)
      ensures data == old(data) ==> forall k :: 0 <= k < data.Length ==> data[k] == old(data[k])
    {
      RenewRowTable(h);
      DropOutgrownData(Mul(w, h));
      width, height := w, h;
      if data == null {
        data := new T[Mul(width, height) + off];
      }
      offset := off;
      PointRows(rows, data, w, h, off);
    }

    /** Lines 75-81: the row table is kept unless it is missing or the
      * reuse test rejects it for h rows; otherwise a fresh one of h rows. */
    method RenewRowTable(h: nat)
      requires rows != null ==> height <= rows.Length
      modifies this`rows
      ensures rows != null
      ensures old(rows) != null && !RowTableOutgrown(height, h) ==> rows == old(rows)
      ensures old(rows) == null || RowTableOutgrown(height, h) ==> fresh(rows) && rows.Length == h
      ensures rows.Length == NextRowTableLength(if old(rows) == null then None else Some(old(rows.Length)), height, h)
    {
      if rows != null && RowTableOutgrown(height, h) {
        rows := null;
      }
      if rows == null {
        rows := new Ptr<T>[h];
      }
    }

    /** Lines 83-86: the data buffer is let go when the reuse test rejects it
      * for count elements. */
    method DropOutgrownData(count: nat)
      modifies this`data
      ensures data == (if old(data) != null && !DataOutgrown(Mul(width, height), count) then old(data) else null)
    {
      if data != null && DataOutgrown(Mul(width, height), count) {
        data := null;
      }
    }

    /** The loop of lines 95-97: row i of the table points at
      * buffer + off + w * i, for every i < h; nothing else changes. */
    static method PointRows(table: array<Ptr<T>>, buffer: array<T>, w: nat, h: nat, off: nat)
      requires h <= table.Length && off + Mul(w, h) <= buffer.Length
      modifies table
      ensures forall k :: 0 <= k < h ==> table[k] == Ptr(buffer, RowStart(off, w, k))
      ensures forall k :: 0 <= k < h ==> Addresses(table[k], w)
      ensures forall k :: h <= k < table.Length ==> table[k] == old(table[k])
    {
      for i := 0 to h
        invariant forall k :: 0 <= k < i ==> table[k] == Ptr(buffer, RowStart(off, w, k))
        invariant forall k :: h <= k < table.Length ==> table[k] == old(table[k])
      {
        table[i] := Ptr(buffer, RowStart(off, w, i));
      }
      forall k | 0 <= k < h
        ensures Addresses(table[k], w)
      {
        RowInFootprint(off, w, h, k);
      }
    }

    /** A buffer the reuse test keeps must already hold w * h elements after
      * the offset. The source does not check this: a resize that keeps the
      * buffer while the offset grows points the last rows past its end, and
      * the clear of the call operator then writes there. The condition always
      * holds when the offset does not grow, and fails for a buffer allocated
      * tight at a smaller offset and resized to the same element count. */
    ghost predicate ReallocFits(w: nat, h: nat, off: nat): (fits: bool)
      reads this, rows
      ensures Valid() && off <= offset ==> fits
      ensures (Valid() && data != null && data.Length == offset + Mul(width, height)
               && Mul(w, h) == Mul(width, height) && offset < off) ==> !fits
    {
      data != null && !DataOutgrown(Mul(width, height), Mul(w, h)) ==> Mul(w, h) + off <= data.Length
    }

    /** Resize, the call operator (lines 215-222): Realloc, then, with
      * CLEAR_DATA, zero exactly the flat range [off, off + w * h). */
    method Resize(w: nat, h: nat, flags: bv32, off: nat, zero: T)
      requires Valid()
      requires ReallocFits(w, h, off)
      modifies this, rows, data
      ensures Owns(w, h, off)
      ensures old(rows) != null && !RowTableOutgrown(old(height), h) ==> rows == old(rows)
      ensures old(rows) == null || RowTableOutgrown(old(height), h) ==> fresh(rows) && rows.Length == h
      ensures old(data) != null && !DataOutgrown(Mul(old(width), old(height)), Mul(w, h)) ==> data == old(data)
      ensures old(data) == null || DataOutgrown(Mul(old(width), old(height)), Mul(w, h)) ==>
                fresh(data) && data.Length == Mul(w, h) + off
      ensures HasFlag(flags, CLEAR_DATA) ==> forall k :: off <= k < off + Mul(w, h) ==> data[k] == zero
      ensures data == old(data) ==>
                forall k :: 0 <= k < data.Length && !(HasFlag(flags, CLEAR_DATA) && off <= k < off + Mul(w, h)) ==>
                  data[k] == old(data[k])
    {
      Realloc(w, h, off);
      if HasFlag(flags, CLEAR_DATA) {
        forall k | off <= k < off + Mul(width, height) {
          data[k] := zero;
        }
      }
    }

    /** fill (lines 155-163): every element of data[0 .. width * height) is v;
      * the rest of the buffer is unchanged. The range ignores the offset. A
      * grid without a buffer can be filled only when it has no cells, and
      * then nothing is written. */
    method Fill(v: T)
      requires Valid() && (data != null || Mul(width, height) == 0)
      modifies data
      ensures data != null ==> forall k :: 0 <= k < Mul(width, height) ==> data[k] == v
      ensures data != null ==> forall k :: Mul(width, height) <= k < data.Length ==> data[k] == old(data[k])
    {
      for k := 0 to Mul(width, height)
        invariant data != null ==> forall m :: 0 <= m < k ==> data[m] == v
        invariant data != null ==> forall m :: k <= m < data.Length ==> data[m] == old(data[m])
      {
        data[k] := v;
      }
    }

    /** free (lines 165-172): the grid lets go of its buffer and row table;
      * the extents stay as they were. */
    method Free()
      modifies this
      ensures Valid()
      ensures data == null && rows == null
      ensures width == old(width) && height == old(height)
    {
      data := null;
      rows := null;
    }

    /** operator[] (lines 175-185): the pointer to row index, which addresses
      * `width` elements and, in an owned grid, lies at offset + width * index
      * of the buffer. The source asserts only index < height; after free the
      * table is null and indexing it is undefined, so the model asks for it. */
    method Row(index: nat) returns (p: Ptr<T>)
      requires Valid() && rows != null && index < height
      ensures p == rows[index]
      ensures Addresses(p, width)
      ensures data != null ==> p.buf == data && p.off == RowStart(offset, width, index)
    {
      p := rows[index];
    }

    function GetWidth(): (w: nat)
      reads this
      ensures w == width
    {
      width
    }

    function GetHeight(): (h: nat)
      reads this
      ensures h == height
    {
      height
    }

    /** operator bool (lines 233-236). */
    predicate IsNonEmpty()
      reads this
      ensures IsNonEmpty() <==> width > 0 && height > 0
    {
      width > 0 && height > 0
    }
  }

  /** multi_array2D (lines 239-258): num grids of the same shape, slot i
    * resized with offset (i + 1) * offset, each owning its own buffer. */
  class MultiArray2D<T(0)> {
    const num: nat
    const list: seq<Array2D<T>>

    /** There are num slots, each a valid grid owned apart from every other:
      * no two slots share a grid, a row table or a buffer, so an operation on
      * one slot leaves the others as they were. */
    ghost predicate Valid()
      reads set g | g in list, set g | g in list :: g.rows
    {
      && |list| == num
      && (forall i, j :: 0 <= i < num && 0 <= j < num && i != j ==> Apart(list[i], list[j]))
      && forall i :: 0 <= i < num ==> list[i].Valid()
    }

    /** a and b are different grids, and neither the row table nor the buffer
      * of a is the row table or the buffer of b. */
    static ghost predicate Apart(a: Array2D<T>, b: Array2D<T>)
      reads a, b
    {
      && a != b
      && (a.rows != null ==> a.rows != b.rows && a.rows as object? != b.data as object?)
      && (a.data != null ==> a.data != b.data && a.data as object? != b.rows as object?)
    }

    /** The constructor (lines 246-251). Each slot starts empty, as the C++
      * member array default-constructs its elements, and is then resized. */
    constructor (num: nat, width: nat, height: nat, flags: bv32, offset: nat, zero: T)
      ensures Valid() && this.num == num
      ensures forall i :: 0 <= i < num ==>
                && fresh(list[i]) && fresh(list[i].rows) && fresh(list[i].data)
                && list[i].Owns(width, height, Mul(offset, i + 1))
                && list[i].data.Length == Mul(width, height) + Mul(offset, i + 1)
      ensures HasFlag(flags, CLEAR_DATA) ==>
                forall i, k :: 0 <= i < num && Mul(offset, i + 1) <= k < Mul(offset, i + 1) + Mul(width, height) ==>
                  list[i].data[k] == zero
    {
      var slots: seq<Array2D<T>> := [];
      for i := 0 to num
        invariant |slots| == i
        invariant forall k :: 0 <= k < i ==>
                    && fresh(slots[k]) && fresh(slots[k].rows) && fresh(slots[k].data)
                    && slots[k].Owns(width, height, Mul(offset, k + 1))
                    && slots[k].data.Length == Mul(width, height) + Mul(offset, k + 1)
        invariant forall k, m :: 0 <= k < i && 0 <= m < i && k != m ==> Apart(slots[k], slots[m])
        invariant HasFlag(flags, CLEAR_DATA) ==>
                    forall k, n :: 0 <= k < i && Mul(offset, k + 1) <= n < Mul(offset, k + 1) + Mul(width, height) ==>
                      slots[k].data[n] == zero
      {
        var g := NewSlot(width, height, flags, Mul(offset, i + 1), zero);
        slots := slots + [g];
      }
      this.num := num;
      list := slots;
    }

    /** One step of the constructor's loop (line 249): a default-constructed
      * grid resized to width x height at offset off. */
    static method NewSlot(width: nat, height: nat, flags: bv32, off: nat, zero: T) returns (g: Array2D<T>)
      ensures fresh(g) && fresh(g.rows) && fresh(g.data)
      ensures g.Owns(width, height, off) && g.data.Length == Mul(width, height) + off
      ensures HasFlag(flags, CLEAR_DATA) ==> forall k :: off <= k < off + Mul(width, height) ==> g.data[k] == zero
    {
      g := new Array2D<T>.Empty();
      g.Resize(width, height, flags, off, zero);
    }

    /** operator[] (lines 253-257): slot index, which must be below num. */
    method Slot(index: int) returns (g: Array2D<T>)
      requires Valid() && 0 <= index < num
      ensures g == list[index] && g.Valid()
      ensures forall j :: 0 <= j < num && j != index ==> Apart(g, list[j])
    {
      g := list[index];
    }
  }
}
