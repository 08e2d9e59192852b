/**
 * The matrix storage manager: a table from matrix id to the row storage
 * object of that matrix, updated in place.  Storages are created lazily
 * (put-if-absent) and handed out by identity, so callers that write rows
 * through a storage see them through every later lookup of the same id.
 */
module StorageManager {
  import opened Wrappers
  import opened RowStorage
  import TableSpec

  class MatrixStorageManager<V> {
    /** matrix id -> storage of that matrix */
    var storages: map<int, RowStore<V>>

    /** No storage object is shared by two matrix ids. */
    ghost predicate Valid()
      reads this
    {
      forall a, b :: a in storages && b in storages && a != b ==> storages[a] != storages[b]
    }

    /** The abstract value: the rows each registered matrix holds. */
    ghost function Contents(): TableSpec.Table<V>
      reads this, storages.Values
    {
      map m | m in storages :: storages[m].rows
    }

    /**
     * `storages` went from `before` to itself, or to `before` plus one new
     * entry for `matrixId`: existing storages are never replaced.
     */
    ghost predicate InstalledAtMostOne(before: map<int, RowStore<V>>, matrixId: int)
      reads this
    {
      matrixId in storages &&
      (matrixId in before ==> storages == before) &&
      (matrixId !in before ==> storages == before[matrixId := storages[matrixId]])
    }

    constructor ()
      ensures Valid() && storages == map[] && Contents() == map[]
    {
      storages := map[];
    }

    /** addMatrix: installs a new empty storage unless `matrixId` already has one. */
    method AddMatrix(matrixId: int)
      requires Valid()
      modifies this
      ensures Valid() && InstalledAtMostOne(old(storages), matrixId)
      ensures matrixId !in old(storages) ==> fresh(storages[matrixId]) && storages[matrixId].rows == map[]
      ensures Contents() == TableSpec.AddMatrix(old(Contents()), matrixId)
    {
      if matrixId !in storages {
        var storage := new RowStore<V>();
        storages := storages[matrixId := storage];
      }
    }

    /** removeMatrix: drops the storage of `matrixId`; no effect when it has none. */
    method RemoveMatrix(matrixId: int)
      requires Valid()
      modifies this
      ensures Valid() && storages == old(storages) - {matrixId}
      ensures Contents() == TableSpec.RemoveMatrix(old(Contents()), matrixId)
    {
      storages := storages - {matrixId};
    }

    /**
     * getMatrixStoage: the storage of `matrixId`, created by addMatrix when
     * there is none.  The result is never null in a sequential run.
     */
    method GetMatrixStorage(matrixId: int) returns (storage: RowStore?<V>)
      requires Valid()
      modifies this
      ensures Valid() && InstalledAtMostOne(old(storages), matrixId)
      ensures storage != null && storage == storages[matrixId]
      ensures matrixId !in old(storages) ==> fresh(storage) && storage.rows == map[]
      ensures Contents() == TableSpec.AddMatrix(old(Contents()), matrixId)
    {
      storage := if matrixId in storages then storages[matrixId] else null;
      if storage != null {
        return;
      }
      AddMatrix(matrixId);
      storage := storages[matrixId];
    }

    /** getRow: the row held at `rowIndex`, registering the matrix on the way. */
    method GetRow(matrixId: int, rowIndex: int) returns (row: Option<V>)
      requires Valid()
      modifies this
      ensures Valid() && InstalledAtMostOne(old(storages), matrixId)
      ensures matrixId !in old(storages) ==> fresh(storages[matrixId])
      ensures row == TableSpec.GetRow(old(Contents()), matrixId, rowIndex)
      ensures Contents() == TableSpec.AddMatrix(old(Contents()), matrixId)
    {
      var storage := GetMatrixStorage(matrixId);
      if storage == null {
        // the source's null guard: unreachable without a concurrent removeMatrix
        assert false;
      }
      row := storage.GetRow(rowIndex);
    }

    /** addRow: registers the matrix if needed, then stores `row` at `rowIndex`. */
    method AddRow(matrixId: int, rowIndex: int, row: V)
      requires Valid()
      modifies this, storages.Values
      ensures Valid() && InstalledAtMostOne(old(storages), matrixId)
      ensures matrixId !in old(storages) ==> fresh(storages[matrixId])
      ensures Contents() == TableSpec.AddRow(old(Contents()), matrixId, rowIndex, row)
    {
      if matrixId !in storages {
        AddMatrix(matrixId);
      }
      var storage := GetMatrixStorage(matrixId);
      if storage == null {
        // the source's null guard: unreachable without a concurrent removeMatrix
        assert false;
      }
      ghost var mid := Contents();
      storage.AddRow(rowIndex, row);
      forall m | m in storages && m != matrixId
        ensures Contents()[m] == mid[m]
      {
        assert storages[m] != storage;
      }
      assert Contents() == mid[matrixId := mid[matrixId][rowIndex := row]];
    }

    /** removeRow: registers the matrix if needed, then drops row `rowIndex`. */
    method RemoveRow(matrixId: int, rowIndex: int)
      requires Valid()
      modifies this, storages.Values
      ensures Valid() && InstalledAtMostOne(old(storages), matrixId)
      ensures matrixId !in old(storages) ==> fresh(storages[matrixId])
      ensures Contents() == TableSpec.RemoveRow(old(Contents()), matrixId, rowIndex)
    {
      var storage := GetMatrixStorage(matrixId);
      if storage == null {
        // the source's null guard: unreachable without a concurrent removeMatrix
        assert false;
      }
      ghost var mid := Contents();
      storage.RemoveRow(rowIndex);
      forall m | m in storages && m != matrixId
        ensures Contents()[m] == mid[m]
      {
        assert storages[m] != storage;
      }
      assert Contents() == mid[matrixId := mid[matrixId] - {rowIndex}];
    }
  }
}
