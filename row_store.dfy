/**
 * The per-matrix row storage that the manager creates and delegates to.
 * Its own source is not part of this model: it is assumed to be a plain
 * row-index to row-vector table with last-writer-wins insertion, which is
 * all the manager relies on.  Row vectors are an opaque type parameter V.
 */
module RowStorage {
  import opened Wrappers

  class RowStore<V> {
    /** The rows held for one matrix, by row index. */
    var rows: map<int, V>

    /** A storage is created empty. */
    constructor ()
      ensures rows == map[]
    {
      rows := map[];
    }

    /** The row stored at `rowIndex`, or None when no row is held there. */
    method GetRow(rowIndex: int) returns (row: Option<V>)
      ensures row.Some? <==> rowIndex in rows
      ensures row.Some? ==> row.value == rows[rowIndex]
    {
      if rowIndex in rows {
        row := Some(rows[rowIndex]);
      } else {
        row := None;
      }
    }

    /** Inserts `row` at `rowIndex`, overwriting any row held there. */
    method AddRow(rowIndex: int, row: V)
      modifies this
      ensures rows == old(rows)[rowIndex := row]
    {
      rows := rows[rowIndex := row];
    }

    /** Drops the row at `rowIndex`; no effect when none is held there. */
    method RemoveRow(rowIndex: int)
      modifies this
      ensures rows == old(rows) - {rowIndex}
    {
      rows := rows - {rowIndex};
    }
  }
}
